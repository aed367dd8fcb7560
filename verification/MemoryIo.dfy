/**
 `MemoryTorrentIO` of src/peer/io/mod.rs: one buffer per piece. Unlike the file it neither
 refuses writes to complete pieces nor compares hashes.
 */
module MemoryIo {
  import opened Common
  import opened Torrents
  import opened SliceTracking
  import opened Storage
  import opened Blocks
  import opened Deliveries

  datatype MemoryState = MemoryState(memory: seq<seq<byte>>, slices: seq<seq<Slice>>)

  ghost predicate WellFormed(t: Torrent, s: MemoryState)
    requires t.Valid()
  {
    && |s.memory| == |s.slices| == t.Pieces()
    && forall p :: 0 <= p < t.Pieces() ==> |s.memory[p]| == PieceSize(t, p) && Sorted(s.slices[p])
  }

  function Empty(t: Torrent): (s: MemoryState)
    requires t.Valid()
    ensures WellFormed(t, s)
  {
    MemoryState(seq(t.Pieces(), p requires 0 <= p < t.Pieces() => seq(PieceSize(t, p), _ => 0)), seq(t.Pieces(), _ => []))
  }

  function Refusal(t: Torrent, index: nat, begin: nat, length: nat): Option<IoError>
    requires t.Valid()
  {
    if index >= t.Pieces() then Some(BadPieceIdx(index))
    else if begin + length > PieceSize(t, index) then Some(BadBounds(index, begin + length))
    else None
  }

  function Stored(t: Torrent, s: MemoryState, index: nat, begin: nat, block: seq<byte>): (s': MemoryState)
    requires t.Valid() && WellFormed(t, s) && Refusal(t, index, begin, |block|).None?
    ensures WellFormed(t, s')
  {
    InsertSorted(s.slices[index], Slice(begin, begin + |block|));
    MemoryState(s.memory[index := Splice(s.memory[index], begin, block)],
                s.slices[index := Inserted(s.slices[index], Slice(begin, begin + |block|))])
  }

  /** `write_piece`. */
  function Written(t: Torrent, s: MemoryState, index: nat, begin: nat, block: seq<byte>): (r: (MemoryState, Result<bool>))
    requires t.Valid() && WellFormed(t, s)
    ensures WellFormed(t, r.0)
  {
    var refusal := Refusal(t, index, begin, |block|);
    if refusal.Some? then (s, Err(refusal.value))
    else
      var s' := Stored(t, s, index, begin, block);
      (s', Ok(IsComplete(s'.slices[index], PieceSize(t, index))))
  }

  /** `read_piece`; the source slices the buffer without a check, so callers must stay within the piece. */
  function Read(t: Torrent, s: MemoryState, index: nat, begin: nat, length: nat): Result<seq<byte>>
    requires t.Valid() && WellFormed(t, s) && (index < t.Pieces() ==> begin + length <= PieceSize(t, index))
  {
    if index >= t.Pieces() then Err(BadPieceIdx(index))
    else
      assert |s.memory[index]| == PieceSize(t, index);
      Ok(s.memory[index][begin..begin + length])
  }

  /** What is refused, and why; everything else is accepted. */
  lemma WriteAnswers(t: Torrent, s: MemoryState, w: Write)
    requires t.Valid() && WellFormed(t, s)
    ensures var (s', r) := Written(t, s, w.index, w.begin, w.block);
            && (r == Err(BadPieceIdx(w.index)) <==> w.index >= t.Pieces())
            && (r == Err(BadBounds(w.index, w.begin + |w.block|)) <==>
                  w.index < t.Pieces() && w.begin + |w.block| > PieceSize(t, w.index))
            && (r.Ok? <==> w.index < t.Pieces() && w.begin + |w.block| <= PieceSize(t, w.index))
            && (r.Err? ==> s' == s)
  {
    hide Stored, PieceSize, IsComplete;
  }

  /** A block that was accepted is read back. */
  lemma ReadAfterWrite(t: Torrent, s: MemoryState, w: Write)
    requires t.Valid() && WellFormed(t, s) && Written(t, s, w.index, w.begin, w.block).1.Ok?
    ensures var s' := Written(t, s, w.index, w.begin, w.block).0;
            && (w.index < t.Pieces() ==> w.begin + |w.block| <= PieceSize(t, w.index))
            && Read(t, s', w.index, w.begin, |w.block|) == Ok(w.block)
  {
    hide Inserted, IsComplete, PieceSize;
    var s' := Written(t, s, w.index, w.begin, w.block).0;
    assert s'.memory[w.index][w.begin..w.begin + |w.block|] == w.block;
  }

  /** And a write changes no other byte: reading elsewhere gives what it gave. */
  lemma ReadElsewhere(t: Torrent, s: MemoryState, w: Write, p: nat, begin: nat, length: nat)
    requires t.Valid() && WellFormed(t, s) && p < t.Pieces() && begin + length <= PieceSize(t, p)
    requires p != w.index || begin + length <= w.begin || w.begin + |w.block| <= begin
    ensures Read(t, Written(t, s, w.index, w.begin, w.block).0, p, begin, length) == Read(t, s, p, begin, length)
  {
    hide Inserted, IsComplete, PieceSize;
    var s' := Written(t, s, w.index, w.begin, w.block).0;
    assert s'.memory[p][begin..begin + length] == s.memory[p][begin..begin + length];
  }

  ghost function AfterWrites(t: Torrent, ws: seq<Write>): (s: MemoryState)
    requires t.Valid()
    ensures WellFormed(t, s)
  {
    if ws == [] then Empty(t)
    else
      var w := ws[|ws| - 1];
      Written(t, AfterWrites(t, ws[..|ws| - 1]), w.index, w.begin, w.block).0
  }

  /** Every write that is in bounds carries the bytes of `content`, the pieces of the download. */
  ghost predicate Honest(t: Torrent, content: seq<seq<byte>>, ws: seq<Write>)
    requires t.Valid() && |content| == t.Pieces()
  {
    forall w :: w in ws && Refusal(t, w.index, w.begin, |w.block|).None? ==>
                  && w.begin + |w.block| <= |content[w.index]|
                  && w.block == content[w.index][w.begin..w.begin + |w.block|]
  }

  ghost predicate Agrees(content: seq<byte>, memory: seq<byte>, slices: seq<Slice>) {
    |memory| == |content| && forall x :: 0 <= x < |content| && Covers(slices, x) ==> memory[x] == content[x]
  }

  lemma SpliceAgrees(content: seq<byte>, memory: seq<byte>, slices: seq<Slice>, begin: nat, block: seq<byte>)
    requires Agrees(content, memory, slices) && Sorted(slices) && begin + |block| <= |memory|
    requires block == content[begin..begin + |block|]
    ensures Agrees(content, Splice(memory, begin, block), Inserted(slices, Slice(begin, begin + |block|)))
  {
    hide Inserted, Covers;
    var s := Slice(begin, begin + |block|);
    forall x | 0 <= x < |content| && Covers(Inserted(slices, s), x)
      ensures Splice(memory, begin, block)[x] == content[x]
    {
      InsertedCovers(slices, s, x);
    }
  }

  /** Covered offsets hold the bytes of the download, however writes overlap and repeat. */
  lemma {:induction false} HonestAgrees(t: Torrent, content: seq<seq<byte>>, ws: seq<Write>, p: nat)
    requires t.Valid() && |content| == t.Pieces() && p < t.Pieces() && PieceSize(t, p) == |content[p]|
    requires Honest(t, content, ws)
    ensures Agrees(content[p], AfterWrites(t, ws).memory[p], AfterWrites(t, ws).slices[p])
  {
    if ws != [] {
      hide Agrees, AfterWrites, WellFormed, Honest, PieceSize;
      HonestFront(t, content, ws, p);
      HonestAgrees(t, content, ws[..|ws| - 1], p);
      HonestStep(t, content[p], ws, p);
    }
  }

  lemma HonestFront(t: Torrent, content: seq<seq<byte>>, ws: seq<Write>, p: nat)
    requires t.Valid() && |content| == t.Pieces() && ws != [] && Honest(t, content, ws)
    requires p < t.Pieces() && PieceSize(t, p) == |content[p]|
    ensures Honest(t, content, ws[..|ws| - 1])
    ensures var w := ws[|ws| - 1];
            p == w.index && w.begin + |w.block| <= |content[p]| ==> w.block == content[p][w.begin..w.begin + |w.block|]
  {
    hide PieceSize;
    assert ws[|ws| - 1] in ws;
  }

  lemma AfterLast(t: Torrent, ws: seq<Write>)
    requires t.Valid() && ws != []
    ensures var w := ws[|ws| - 1];
            AfterWrites(t, ws) == Written(t, AfterWrites(t, ws[..|ws| - 1]), w.index, w.begin, w.block).0
  {
  }

  lemma WrittenAgrees(t: Torrent, content: seq<byte>, s: MemoryState, w: Write, p: nat)
    requires t.Valid() && WellFormed(t, s) && p < t.Pieces() && |content| == PieceSize(t, p)
    requires Agrees(content, s.memory[p], s.slices[p])
    requires p == w.index && w.begin + |w.block| <= |content| ==> w.block == content[w.begin..w.begin + |w.block|]
    ensures var s' := Written(t, s, w.index, w.begin, w.block).0; Agrees(content, s'.memory[p], s'.slices[p])
  {
    hide Agrees, Inserted, Splice, PieceSize;
    if p == w.index && w.begin + |w.block| <= |content| {
      assert Sorted(s.slices[p]) && |s.memory[p]| == PieceSize(t, p);
      SpliceAgrees(content, s.memory[p], s.slices[p], w.begin, w.block);
    }
  }

  lemma HonestStep(t: Torrent, content: seq<byte>, ws: seq<Write>, p: nat)
    requires t.Valid() && p < t.Pieces() && |content| == PieceSize(t, p) && ws != []
    requires var s := AfterWrites(t, ws[..|ws| - 1]); Agrees(content, s.memory[p], s.slices[p])
    requires var w := ws[|ws| - 1];
             p == w.index && w.begin + |w.block| <= |content| ==> w.block == content[w.begin..w.begin + |w.block|]
    ensures Agrees(content, AfterWrites(t, ws).memory[p], AfterWrites(t, ws).slices[p])
  {
    hide Agrees, AfterWrites, Written, WellFormed, PieceSize;
    AfterLast(t, ws);
    WrittenAgrees(t, content, AfterWrites(t, ws[..|ws| - 1]), ws[|ws| - 1], p);
  }

  lemma CompleteAgrees(content: seq<byte>, memory: seq<byte>, slices: seq<Slice>)
    requires Agrees(content, memory, slices) && IsComplete(slices, |content|) && |content| < U32_LIMIT
    ensures memory == content
  {
    forall x | 0 <= x < |content| ensures memory[x] == content[x] {
      assert slices[0].Has(x);
    }
  }

  /** After honest writes a piece reported complete is the piece of the download. */
  lemma HonestTrueMeansContent(t: Torrent, content: seq<seq<byte>>, ws: seq<Write>, w: Write)
    requires t.Valid() && |content| == t.Pieces() && forall p :: 0 <= p < t.Pieces() ==> |content[p]| == PieceSize(t, p)
    requires Honest(t, content, ws + [w])
    requires Written(t, AfterWrites(t, ws), w.index, w.begin, w.block).1 == Ok(true)
    ensures w.index < t.Pieces() && AfterWrites(t, ws + [w]).memory[w.index] == content[w.index]
  {
    hide Inserted, Honest, Agrees, IsComplete;
    assert (ws + [w])[..|ws|] == ws;
    var p, s := w.index, AfterWrites(t, ws + [w]);
    HonestAgrees(t, content, ws + [w], p);
    CompleteAgrees(content[p], s.memory[p], s.slices[p]);
  }

  /** So any part that is read then is that part of the piece of the download. */
  lemma HonestRead(t: Torrent, content: seq<seq<byte>>, ws: seq<Write>, w: Write, begin: nat, length: nat)
    requires t.Valid() && |content| == t.Pieces() && forall p :: 0 <= p < t.Pieces() ==> |content[p]| == PieceSize(t, p)
    requires Honest(t, content, ws + [w])
    requires Written(t, AfterWrites(t, ws), w.index, w.begin, w.block).1 == Ok(true)
    requires w.index < t.Pieces() && begin + length <= PieceSize(t, w.index)
    ensures Read(t, AfterWrites(t, ws + [w]), w.index, begin, length) == Ok(content[w.index][begin..begin + length])
  {
    hide Honest, AfterWrites, Written, PieceSize;
    HonestTrueMeansContent(t, content, ws, w);
  }

  // ------------------------------------------------------------------ distinct blocks finish a piece

  /** The slices of a piece are those of its blocks, in the order of their arrival among all others. */
  lemma {:induction false} SlicesAreRun(t: Torrent, ws: seq<Write>, p: nat)
    requires t.Valid() && p < t.Pieces() && WholeBlocks(t, ws, p)
    ensures forall k :: k in KeysTo(ws, p) ==> IsBlock(t, k)
    ensures AfterWrites(t, ws).slices[p] == Run(Blocks.Slices(t, KeysTo(ws, p)))
  {
    hide IsBlock, BlockLength, WholeBlocks, Written, Inserted, WellFormed, KeysTo, AfterWrites, Run;
    KeysAreBlocks(t, ws, p);
    if ws == [] {
      NothingWritten(t, p);
    } else {
      var front, w := ws[..|ws| - 1], ws[|ws| - 1];
      WholeFront(t, ws, p);
      SlicesAreRun(t, front, p);
      KeysToLast(ws, p);
      AfterLast(t, ws);
      WriteSlices(t, AfterWrites(t, front), w, p);
      if w.index == p {
        RunNext(t, KeysTo(front, p), Key(p, w.begin));
      }
    }
  }

  lemma NothingWritten(t: Torrent, p: nat)
    requires t.Valid() && p < t.Pieces()
    ensures KeysTo([], p) == [] && AfterWrites(t, []).slices[p] == [] == Run(Blocks.Slices(t, []))
  {
  }

  lemma WriteSlices(t: Torrent, s: MemoryState, w: Write, p: nat)
    requires t.Valid() && WellFormed(t, s) && p < t.Pieces()
    requires w.index == p ==> IsBlock(t, Key(p, w.begin)) && |w.block| == BlockLength(t, Key(p, w.begin))
    ensures Written(t, s, w.index, w.begin, w.block).0.slices[p] ==
              if w.index == p then Inserted(s.slices[p], BlockSlice(t, Key(p, w.begin))) else s.slices[p]
    ensures w.index == p ==>
              Written(t, s, w.index, w.begin, w.block).1 ==
              Ok(IsComplete(Written(t, s, w.index, w.begin, w.block).0.slices[p], PieceSize(t, p)))
  {
    hide Inserted, IsComplete, PieceSize;
    if w.index == p {
      BlockInBounds(t, Key(p, w.begin));
    }
  }

  /**
   Liveness of one piece: if its blocks arrive whole and each at most once, in any order and
   among blocks of other pieces, a write answers that it finished the piece exactly when it
   is the last of the piece's blocks.
   */
  lemma LastBlockFinishes(t: Torrent, ws: seq<Write>, w: Write)
    requires t.Valid() && w.index < t.Pieces() && WholeBlocks(t, ws + [w], w.index)
    requires Distinct(KeysTo(ws + [w], w.index))
    ensures Written(t, AfterWrites(t, ws), w.index, w.begin, w.block).1 ==
              Ok(|KeysTo(ws + [w], w.index)| == |PieceKeys(t, w.index)|)
  {
    hide IsBlock, BlockLength, WholeBlocks, Written, Inserted, WellFormed, IsComplete, Run, PieceKeys, KeysTo, Distinct, PieceSize;
    var all, p := ws + [w], w.index;
    assert all[..|all| - 1] == ws && all[|all| - 1] == w;
    WholeFront(t, all, p);
    SlicesAreRun(t, all, p);
    AfterLast(t, all);
    WriteSlices(t, AfterWrites(t, ws), w, p);
    DistinctBlocksComplete(t, p, KeysTo(all, p));
  }

  class Memory {
    const memory: array<byte>
    const slices: Slices

    constructor (size: nat)
      ensures fresh(memory) && fresh(slices)
      ensures Blank(this, size)
    {
      memory := new byte[size](_ => 0);
      slices := new Slices(size);
    }
  }

  ghost predicate Blank(m: Memory, size: nat)
    reads m.memory, m.slices
  {
    m.memory[..] == seq(size, _ => 0) && m.slices.slices == [] && m.slices.expectedSize == size
  }

  ghost function BuffersOf(ms: seq<Memory>): (bs: seq<seq<byte>>)
    reads set m | m in ms :: m.memory
    ensures |bs| == |ms| && forall i :: 0 <= i < |ms| ==> bs[i] == ms[i].memory[..]
  {
    if ms == [] then [] else BuffersOf(ms[..|ms| - 1]) + [ms[|ms| - 1].memory[..]]
  }

  ghost function TrackersOf(ms: seq<Memory>): (ts: seq<Slices>)
    ensures |ts| == |ms| && forall i :: 0 <= i < |ms| ==> ts[i] == ms[i].slices
  {
    seq(|ms|, i requires 0 <= i < |ms| => ms[i].slices)
  }

  /** Blank buffers of the right sizes are the empty storage. */
  lemma BlankPieces(t: Torrent, ms: seq<Memory>)
    requires t.Valid() && |ms| == t.Pieces() && forall i :: 0 <= i < |ms| ==> Blank(ms[i], PieceSize(t, i))
    ensures BuffersOf(ms) == Empty(t).memory && SlicesOf(TrackersOf(ms)) == Empty(t).slices
    ensures forall i :: 0 <= i < |ms| ==>
              ms[i].memory.Length == ms[i].slices.expectedSize == PieceSize(t, i) && Sorted(ms[i].slices.slices)
  {
    hide BuffersOf, SlicesOf, PieceSize;
    forall i | 0 <= i < |ms| ensures ms[i].memory.Length == PieceSize(t, i) {
      assert |ms[i].memory[..]| == ms[i].memory.Length;
    }
  }

  method CopyInto(memory: array<byte>, begin: nat, block: seq<byte>)
    requires begin + |block| <= memory.Length
    modifies memory
    ensures memory[..] == Splice(old(memory[..]), begin, block)
  {
    for idx := 0 to |block|
      invariant memory[..] == Splice(old(memory[..]), begin, block[..idx])
    {
      memory[idx + begin] := block[idx];
    }
    assert block[..|block|] == block;
  }

  class MemoryTorrentIO {
    const torrent: Torrent
    var pieces: seq<Memory>

    ghost predicate Valid()
      reads this, (set m | m in pieces :: m.memory), (set m | m in pieces :: m.slices)
    {
      && torrent.Valid() && |pieces| == torrent.Pieces()
      && (forall i :: 0 <= i < |pieces| ==> Sound(i))
      && (forall i, j :: 0 <= i < j < |pieces| ==>
                           pieces[i].memory != pieces[j].memory && pieces[i].slices != pieces[j].slices)
    }

    ghost predicate Sound(i: nat)
      requires torrent.Valid() && i < |pieces|
      reads this, (set m | m in pieces :: m.memory), (set m | m in pieces :: m.slices)
    {
      var m := pieces[i];
      m.memory.Length == m.slices.expectedSize == PieceSize(torrent, i) && Sorted(m.slices.slices)
    }

    ghost function Value(): (s: MemoryState)
      requires Valid()
      reads this, (set m | m in pieces :: m.memory), (set m | m in pieces :: m.slices)
      ensures WellFormed(torrent, s)
    {
      assert forall i :: 0 <= i < |pieces| ==> Sound(i) && Sorted(pieces[i].slices.slices);
      MemoryState(BuffersOf(pieces), SlicesOf(TrackersOf(pieces)))
    }

    constructor (torrent: Torrent)
      requires torrent.Valid()
      ensures Valid() && this.torrent == torrent && Value() == Empty(torrent)
    {
      this.torrent := torrent;
      pieces := [];
      new;
      hide BuffersOf, SlicesOf, Empty, Blank, Sorted;
      var allocation := AllocateTorrent(torrent);
      for i := 0 to allocation.totalPieces
        invariant |pieces| == i
        invariant forall k :: 0 <= k < i ==> Blank(pieces[k], PieceSize(torrent, k))
        invariant forall k :: 0 <= k < i ==> fresh(pieces[k].memory) && fresh(pieces[k].slices)
        invariant forall k, j :: 0 <= k < j < i ==>
          pieces[k].memory != pieces[j].memory && pieces[k].slices != pieces[j].slices
      {
        var m := new Memory(allocation.PieceLen(i));
        pieces := pieces + [m];
      }
      BlankPieces(torrent, pieces);
      assert forall i :: 0 <= i < |pieces| ==> Sound(i);
    }

    /** The accepted part of a write: the range goes to the slices, then the bytes to the buffer. */
    method Store(index: nat, begin: nat, block: seq<byte>) returns (finished: bool)
      requires Valid() && Refusal(torrent, index, begin, |block|).None?
      modifies (set m | m in pieces :: m.memory), (set m | m in pieces :: m.slices)
      ensures Valid()
      ensures Value() == Stored(torrent, old(Value()), index, begin, block)
      ensures finished == IsComplete(Value().slices[index], PieceSize(torrent, index))
    {
      hide Inserted, IsComplete, BuffersOf, SlicesOf;
      ghost var was := Value();
      var m := pieces[index];
      assert Sound(index);
      finished := m.slices.Insert(begin, |block|);
      CopyInto(m.memory, begin, block);
      forall i | 0 <= i < |pieces| ensures Sound(i) {
        assert old(Sound(i));
      }
      assert BuffersOf(pieces) == Stored(torrent, was, index, begin, block).memory;
      assert SlicesOf(TrackersOf(pieces)) == Stored(torrent, was, index, begin, block).slices;
    }

    method WritePiece(index: nat, begin: nat, block: seq<byte>) returns (r: Result<bool>)
      requires Valid()
      modifies (set m | m in pieces :: m.memory), (set m | m in pieces :: m.slices)
      ensures Valid()
      ensures (Value(), r) == Written(torrent, old(Value()), index, begin, block)
    {
      hide Stored, IsComplete;
      if index >= |pieces| {
        return Err(BadPieceIdx(index));
      }
      assert Sound(index);
      var endPos := begin + |block|;
      if endPos > pieces[index].memory.Length {
        return Err(BadBounds(index, endPos));
      }
      var finished := Store(index, begin, block);
      r := Ok(finished);
    }

    method ReadPiece(index: nat, begin: nat, length: nat) returns (r: Result<seq<byte>>)
      requires Valid() && (index < torrent.Pieces() ==> begin + length <= PieceSize(torrent, index))
      ensures r == Read(torrent, old(Value()), index, begin, length)
    {
      if index >= |pieces| {
        return Err(BadPieceIdx(index));
      }
      assert Sound(index);
      assert Value().memory[index] == pieces[index].memory[..];
      assert pieces[index].memory[..][begin..begin + length] == pieces[index].memory[begin..begin + length];
      r := Ok(pieces[index].memory[begin..begin + length]);
    }
  }
}
