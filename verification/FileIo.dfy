/**
 `FileTorrentIO` of src/peer/io/file.rs: all pieces in one flat file. `FileState` is its
 value, `Written` and `Read` are its operations; the class performs them in place.
 */
module FileIo {
  import opened Common
  import opened Torrents
  import opened SliceTracking
  import opened Storage
  import opened Blocks
  import opened Deliveries

  /** The bytes of the file, and for every piece the ranges that were written. */
  datatype FileState = FileState(file: seq<byte>, slices: seq<seq<Slice>>)

  ghost predicate WellFormed(t: Torrent, s: FileState)
    requires t.Valid()
  {
    |s.file| == t.length && |s.slices| == t.Pieces() && forall p :: 0 <= p < |s.slices| ==> Sorted(s.slices[p])
  }

  predicate Complete(t: Torrent, s: FileState, p: nat)
    requires t.Valid()
  {
    p < |s.slices| && IsComplete(s.slices[p], PieceSize(t, p))
  }

  /** The bytes of a piece, where the layout puts them. */
  function PieceBytes(t: Torrent, s: FileState, p: nat): (bytes: seq<byte>)
    requires t.Valid() && WellFormed(t, s) && p < t.Pieces()
    ensures |bytes| == PieceSize(t, p) && Region(t, p).end <= t.length
    ensures forall x :: 0 <= x < |bytes| ==> bytes[x] == s.file[Start(t, p) + x]
  {
    RegionInFile(t, p);
    s.file[Start(t, p)..Start(t, p) + PieceSize(t, p)]
  }

  /** Why a write is refused before anything changes. */
  function Refusal(t: Torrent, s: FileState, index: nat, begin: nat, length: nat): Option<IoError>
    requires t.Valid()
  {
    if index >= |s.slices| then Some(BadPieceIdx(index))
    else if Complete(t, s, index) then Some(FileAlreadyComplete(index))
    else if begin + length > PieceSize(t, index) then Some(BadBounds(index, begin + length))
    else None
  }

  /** The state after an accepted write. */
  function Stored(t: Torrent, s: FileState, index: nat, begin: nat, block: seq<byte>): (s': FileState)
    requires t.Valid() && WellFormed(t, s) && Refusal(t, s, index, begin, |block|).None?
    ensures WellFormed(t, s')
  {
    RegionInFile(t, index);
    InsertSorted(s.slices[index], Slice(begin, begin + |block|));
    FileState(Splice(s.file, Start(t, index) + begin, block),
              s.slices[index := Inserted(s.slices[index], Slice(begin, begin + |block|))])
  }

  /** `write_piece`. */
  function Written(t: Torrent, sha1: Hash, s: FileState, index: nat, begin: nat, block: seq<byte>): (r: (FileState, Result<bool>))
    requires t.Valid() && WellFormed(t, s)
    ensures WellFormed(t, r.0)
  {
    var refusal := Refusal(t, s, index, begin, |block|);
    if refusal.Some? then (s, Err(refusal.value))
    else
      var s' := Stored(t, s, index, begin, block);
      if !Complete(t, s', index) then (s', Ok(false))
      else if sha1(PieceBytes(t, s', index)) == t.hashes[index] then (s', Ok(true))
      else (s', Err(PieceHashMismatch(index)))
  }

  /** `read_piece`. */
  function Read(t: Torrent, s: FileState, index: nat, begin: nat, length: nat): Result<seq<byte>>
    requires t.Valid() && WellFormed(t, s)
  {
    if index >= t.Pieces() then Err(BadPieceIdx(index))
    else if begin + length > PieceSize(t, index) then Err(BadBounds(index, begin + length))
    else if !Complete(t, s, index) then Err(FilePieceNotFinished(index))
    else Ok(PieceBytes(t, s, index)[begin..begin + length])
  }

  function Empty(t: Torrent): (s: FileState)
    requires t.Valid()
    ensures WellFormed(t, s)
  {
    FileState(seq(t.length, _ => 0), seq(t.Pieces(), _ => []))
  }

  /** What is refused, and why, in this order; everything else is accepted and answers by its piece. */
  lemma WriteAnswers(t: Torrent, sha1: Hash, s: FileState, w: Write)
    requires t.Valid() && WellFormed(t, s)
    ensures var (s', r) := Written(t, sha1, s, w.index, w.begin, w.block); var end := w.begin + |w.block|;
            && (r == Err(BadPieceIdx(w.index)) <==> w.index >= t.Pieces())
            && (r == Err(FileAlreadyComplete(w.index)) <==> w.index < t.Pieces() && Complete(t, s, w.index))
            && (r == Err(BadBounds(w.index, end)) <==>
                  w.index < t.Pieces() && !Complete(t, s, w.index) && end > PieceSize(t, w.index))
            && (r == Ok(false) <==>
                  w.index < t.Pieces() && !Complete(t, s, w.index) && end <= PieceSize(t, w.index) && !Complete(t, s', w.index))
            && (r == Ok(true) || r == Err(PieceHashMismatch(w.index)) <==>
                  w.index < t.Pieces() && !Complete(t, s, w.index) && Complete(t, s', w.index))
  {
    hide Stored, PieceSize, IsComplete, PieceBytes;
  }

  lemma ReadAnswers(t: Torrent, s: FileState, p: nat, begin: nat, length: nat)
    requires t.Valid() && WellFormed(t, s)
    ensures var r := Read(t, s, p, begin, length);
            && (r == Err(BadPieceIdx(p)) <==> p >= t.Pieces())
            && (r == Err(BadBounds(p, begin + length)) <==> p < t.Pieces() && begin + length > PieceSize(t, p))
            && (r == Err(FilePieceNotFinished(p)) <==>
                  p < t.Pieces() && begin + length <= PieceSize(t, p) && !Complete(t, s, p))
            && (r.Ok? <==> p < t.Pieces() && begin + length <= PieceSize(t, p) && Complete(t, s, p))
            && (r.Ok? ==> |r.value| == length && forall x :: 0 <= x < length ==> r.value[x] == s.file[Start(t, p) + begin + x])
  {
    hide PieceSize, IsComplete, Start;
  }

  // ------------------------------------------------------------------ runs of writes

  /** A run of writes from any state; refused and mismatching writes are part of it. */
  ghost function AfterWrites(t: Torrent, sha1: Hash, s: FileState, ws: seq<Write>): (s': FileState)
    requires t.Valid() && WellFormed(t, s)
    ensures WellFormed(t, s')
  {
    if ws == [] then s
    else
      var w := ws[|ws| - 1];
      Written(t, sha1, AfterWrites(t, sha1, s, ws[..|ws| - 1]), w.index, w.begin, w.block).0
  }

  /** The piece has arrived, and its bytes are the ones the torrent promises. */
  ghost predicate Verified(t: Torrent, sha1: Hash, s: FileState, p: nat)
    requires t.Valid() && WellFormed(t, s)
  {
    p < t.Pieces() && Complete(t, s, p) && sha1(PieceBytes(t, s, p)) == t.hashes[p]
  }

  /** A write that answers true leaves its piece verified. */
  lemma TrueMeansVerified(t: Torrent, sha1: Hash, s: FileState, w: Write)
    requires t.Valid() && WellFormed(t, s)
    ensures Written(t, sha1, s, w.index, w.begin, w.block).1 == Ok(true) ==>
              Verified(t, sha1, Written(t, sha1, s, w.index, w.begin, w.block).0, w.index)
  {
  }

  /** A write changes no piece whose region is apart from its own, and no piece that is complete. */
  lemma WriteKeepsOthers(t: Torrent, sha1: Hash, s: FileState, w: Write, p: nat)
    requires t.Valid() && WellFormed(t, s) && p < t.Pieces()
    requires if p == w.index then Complete(t, s, p) else Apart(Region(t, p), Region(t, w.index))
    ensures var s' := Written(t, sha1, s, w.index, w.begin, w.block).0;
            s'.slices[p] == s.slices[p] && PieceBytes(t, s', p) == PieceBytes(t, s, p)
  {
    if Refusal(t, s, w.index, w.begin, |w.block|).None? {
      var s' := Stored(t, s, w.index, w.begin, w.block);
      assert PieceBytes(t, s', p) == PieceBytes(t, s, p);
    }
  }

  lemma WriteKeepsComplete(t: Torrent, sha1: Hash, s: FileState, w: Write, p: nat)
    requires t.Valid() && WellFormed(t, s) && StandsAlone(t, p) && Complete(t, s, p)
    ensures var s' := Written(t, sha1, s, w.index, w.begin, w.block).0;
            Complete(t, s', p) && PieceBytes(t, s', p) == PieceBytes(t, s, p)
  {
    hide Region, PieceBytes, Written, IsComplete;
    if w.index < t.Pieces() {
      WriteKeepsOthers(t, sha1, s, w, p);
    } else {
      RefusedKeeps(t, sha1, s, w);
    }
  }

  lemma RefusedKeeps(t: Torrent, sha1: Hash, s: FileState, w: Write)
    requires t.Valid() && WellFormed(t, s) && Refusal(t, s, w.index, w.begin, |w.block|).Some?
    ensures Written(t, sha1, s, w.index, w.begin, w.block) == (s, Err(Refusal(t, s, w.index, w.begin, |w.block|).value))
  {
  }

  /** Whatever is written later, a complete piece that stands alone keeps its bytes. */
  lemma {:induction false} CompleteStays(t: Torrent, sha1: Hash, s: FileState, ws: seq<Write>, p: nat)
    requires t.Valid() && WellFormed(t, s) && StandsAlone(t, p) && Complete(t, s, p)
    ensures var s' := AfterWrites(t, sha1, s, ws);
            Complete(t, s', p) && PieceBytes(t, s', p) == PieceBytes(t, s, p)
  {
    if ws != [] {
      hide PieceBytes, Written, StandsAlone, IsComplete;
      var front, w := ws[..|ws| - 1], ws[|ws| - 1];
      CompleteStays(t, sha1, s, front, p);
      WriteKeepsComplete(t, sha1, AfterWrites(t, sha1, s, front), w, p);
    }
  }

  /**
   Once a write has answered true for a piece that stands alone, every later run of writes
   leaves the piece as it is: it still matches its hash, and reading any part of it gives
   those bytes.
   */
  lemma VerifiedForever(t: Torrent, sha1: Hash, s: FileState, w: Write, later: seq<Write>, begin: nat, length: nat)
    requires t.Valid() && WellFormed(t, s) && StandsAlone(t, w.index)
    requires Written(t, sha1, s, w.index, w.begin, w.block).1 == Ok(true)
    requires begin + length <= PieceSize(t, w.index)
    ensures var s1 := Written(t, sha1, s, w.index, w.begin, w.block).0; var s2 := AfterWrites(t, sha1, s1, later);
            && Verified(t, sha1, s2, w.index)
            && w.index < t.Pieces()
            && Read(t, s2, w.index, begin, length) == Ok(PieceBytes(t, s1, w.index)[begin..begin + length])
  {
    TrueMeansVerified(t, sha1, s, w);
    CompleteStays(t, sha1, Written(t, sha1, s, w.index, w.begin, w.block).0, later, w.index);
  }

  // ------------------------------------------------------------------ which pieces are safe

  /** If the piece is complete after the run, the next write leaves its bytes as they are. */
  ghost predicate KeptBy(t: Torrent, sha1: Hash, ws: seq<Write>, w: Write, p: nat)
    requires t.Valid() && p < t.Pieces()
  {
    var s := AfterWrites(t, sha1, Empty(t), ws);
    Complete(t, s, p) ==> PieceBytes(t, Written(t, sha1, s, w.index, w.begin, w.block).0, p) == PieceBytes(t, s, p)
  }

  /** A complete piece keeps its bytes in every run from the empty file exactly when it stands alone. */
  lemma CompleteKeptIff(t: Torrent, sha1: Hash, p: nat)
    requires t.Valid() && p < t.Pieces()
    ensures (forall ws, w :: KeptBy(t, sha1, ws, w, p)) <==> StandsAlone(t, p)
  {
    if StandsAlone(t, p) {
      hide StandsAlone, PieceBytes, Written, Complete;
      forall ws: seq<Write>, w: Write ensures KeptBy(t, sha1, ws, w, p) {
        if Complete(t, AfterWrites(t, sha1, Empty(t), ws), p) {
          WriteKeepsComplete(t, sha1, AfterWrites(t, sha1, Empty(t), ws), w, p);
        }
      }
    } else {
      var q :| 0 <= q < t.Pieces() && q != p && !Apart(Region(t, p), Region(t, q));
      var ws, w := Spoiled(t, sha1, p, q);
      assert !KeptBy(t, sha1, ws, w, p);
    }
  }

  function Zeros(n: nat): (z: seq<byte>)
    ensures |z| == n && forall i :: 0 <= i < n ==> z[i] == 0
  {
    seq(n, _ => 0)
  }

  lemma ZerosStored(t: Torrent, p: nat)
    requires t.Valid() && p < t.Pieces()
    ensures Refusal(t, Empty(t), p, 0, PieceSize(t, p)).None?
    ensures var s := Stored(t, Empty(t), p, 0, Zeros(PieceSize(t, p)));
            && Complete(t, s, p) && s.file == Empty(t).file
            && forall q :: 0 <= q < t.Pieces() && q != p ==> s.slices[q] == []
  {
    hide Start, PieceSize, Inserted, Splice, Zeros;
    RegionInFile(t, p);
    InsertedFirst(Slice(0, PieceSize(t, p)));
    ZerosOverZeros(t.length, Start(t, p), PieceSize(t, p));
  }

  lemma ZerosOverZeros(n: nat, at: nat, m: nat)
    requires at + m <= n
    ensures Splice(seq(n, _ => 0), at, Zeros(m)) == seq(n, _ => 0)
  {
  }

  /** Writing a whole piece of zeros into the empty file completes it. */
  lemma ZerosWritten(t: Torrent, sha1: Hash, p: nat)
    requires t.Valid() && p < t.Pieces()
    ensures var s := AfterWrites(t, sha1, Empty(t), [Write(p, 0, Zeros(PieceSize(t, p)))]);
            && Complete(t, s, p) && s.file == Empty(t).file
            && forall q :: 0 <= q < t.Pieces() && q != p ==> s.slices[q] == []
  {
    hide Stored, Refusal, PieceBytes, PieceSize, Complete, Empty, WellFormed;
    var w := Write(p, 0, Zeros(PieceSize(t, p)));
    assert [w][..0] == [];
    ZerosStored(t, p);
  }

  /** One byte written to an overlapping piece changes the completed one. */
  lemma Spoiled(t: Torrent, sha1: Hash, p: nat, q: nat) returns (ws: seq<Write>, w: Write)
    requires t.Valid() && p < t.Pieces() && q < t.Pieces() && q != p && !Apart(Region(t, p), Region(t, q))
    ensures !KeptBy(t, sha1, ws, w, p)
  {
    hide PieceSize, Start, AfterWrites, IsComplete;
    var x := if Start(t, p) < Start(t, q) then Start(t, q) else Start(t, p);
    ws, w := [Write(p, 0, Zeros(PieceSize(t, p)))], Write(q, x - Start(t, q), [1]);
    ZerosWritten(t, sha1, p);
    RegionInFile(t, p);
    RegionInFile(t, q);
    ByteChanges(t, sha1, AfterWrites(t, sha1, Empty(t), ws), p, q, x);
  }

  lemma ByteChanges(t: Torrent, sha1: Hash, s: FileState, p: nat, q: nat, x: nat)
    requires t.Valid() && WellFormed(t, s) && p < t.Pieces() && q < t.Pieces()
    requires Region(t, p).Has(x) && Region(t, q).Has(x) && s.slices[q] == [] && x < t.length && s.file[x] == 0
    ensures PieceBytes(t, Written(t, sha1, s, q, x - Start(t, q), [1]).0, p) != PieceBytes(t, s, p)
  {
    hide PieceSize, Start, Inserted;
    var s' := Written(t, sha1, s, q, x - Start(t, q), [1]).0;
    assert s' == Stored(t, s, q, x - Start(t, q), [1]);
    assert s'.file[x] == 1;
    assert PieceBytes(t, s, p)[x - Start(t, p)] == 0 && PieceBytes(t, s', p)[x - Start(t, p)] == 1;
  }

  // ------------------------------------------------------------------ pieces that do not match their hash

  /** Some write of the run completed the piece, and its bytes did not match the hash. */
  ghost predicate Mismatched(t: Torrent, sha1: Hash, ws: seq<Write>, p: nat)
    requires t.Valid()
  {
    ws != [] &&
    var front, w := ws[..|ws| - 1], ws[|ws| - 1];
    || Mismatched(t, sha1, front, p)
    || (w.index == p
        && Written(t, sha1, AfterWrites(t, sha1, Empty(t), front), w.index, w.begin, w.block).1 == Err(PieceHashMismatch(p)))
  }

  /** What one write can do to whether a piece is complete. */
  lemma WriteCompletes(t: Torrent, sha1: Hash, s: FileState, w: Write, p: nat)
    requires t.Valid() && WellFormed(t, s) && p < t.Pieces()
    ensures var (s', r) := Written(t, sha1, s, w.index, w.begin, w.block);
            && (Complete(t, s, p) ==> Complete(t, s', p) && (p == w.index ==> s' == s && r == Err(FileAlreadyComplete(p))))
            && (!Complete(t, s, p) && Complete(t, s', p) ==>
                  p == w.index && (r == Ok(true) || r == Err(PieceHashMismatch(p))) && (r == Ok(true) <==> Verified(t, sha1, s', p)))
            && (p == w.index && (r == Ok(true) || r == Err(PieceHashMismatch(p))) ==> !Complete(t, s, p) && Complete(t, s', p))
  {
    hide Inserted, PieceBytes, IsComplete, Start;
  }

  lemma {:induction false} MismatchedComplete(t: Torrent, sha1: Hash, ws: seq<Write>, p: nat)
    requires t.Valid() && p < t.Pieces() && Mismatched(t, sha1, ws, p)
    ensures Complete(t, AfterWrites(t, sha1, Empty(t), ws), p)
  {
    hide Written, Complete, Verified;
    var front, w := ws[..|ws| - 1], ws[|ws| - 1];
    WriteCompletes(t, sha1, AfterWrites(t, sha1, Empty(t), front), w, p);
    if Mismatched(t, sha1, front, p) {
      MismatchedComplete(t, sha1, front, p);
    }
  }

  /** A complete piece that stands alone matches its hash exactly when no write of the run answered that it does not. */
  lemma {:induction false} VerifiedIff(t: Torrent, sha1: Hash, ws: seq<Write>, p: nat)
    requires t.Valid() && StandsAlone(t, p) && p < t.Pieces()
    requires Complete(t, AfterWrites(t, sha1, Empty(t), ws), p)
    ensures Verified(t, sha1, AfterWrites(t, sha1, Empty(t), ws), p) <==> !Mismatched(t, sha1, ws, p)
  {
    if ws == [] {
      assert false;
    } else {
      hide Written, StandsAlone, IsComplete, PieceBytes;
      var front, w := ws[..|ws| - 1], ws[|ws| - 1];
      var s := AfterWrites(t, sha1, Empty(t), front);
      WriteCompletes(t, sha1, s, w, p);
      if Complete(t, s, p) {
        VerifiedIff(t, sha1, front, p);
        WriteKeepsComplete(t, sha1, s, w, p);
      } else if Mismatched(t, sha1, front, p) {
        MismatchedComplete(t, sha1, front, p);
        assert false;
      }
    }
  }

  /**
   Reading checks completeness and not the hash: what it gives belongs to a piece that matches
   its hash exactly when no write of the run answered a mismatch for it.
   */
  lemma ReadVerifiedIff(t: Torrent, sha1: Hash, ws: seq<Write>, p: nat, begin: nat, length: nat)
    requires t.Valid() && StandsAlone(t, p)
    requires Read(t, AfterWrites(t, sha1, Empty(t), ws), p, begin, length).Ok?
    ensures Verified(t, sha1, AfterWrites(t, sha1, Empty(t), ws), p) <==> !Mismatched(t, sha1, ws, p)
  {
    hide StandsAlone, AfterWrites, Verified, Mismatched, PieceBytes, IsComplete;
    VerifiedIff(t, sha1, ws, p);
  }

  /** One piece of one byte. */
  function OneByte(digest: Digest): (t: Torrent)
    ensures t.Valid() && t.Pieces() == 1 && PieceSize(t, 0) == 1 && Start(t, 0) == 0
  {
    Torrent(1, 1, [digest])
  }

  lemma OneByteWritten(digest: Digest, sha1: Hash, b: byte)
    ensures var t, s := OneByte(digest), FileState([b], [[Slice(0, 1)]]);
            && WellFormed(t, s) && Complete(t, s, 0) && PieceBytes(t, s, 0) == [b]
            && Written(t, sha1, Empty(t), 0, 0, [b]) == (s, if sha1([b]) == digest then Ok(true) else Err(PieceHashMismatch(0)))
  {
    var t, s := OneByte(digest), FileState([b], [[Slice(0, 1)]]);
    assert Inserted([], Slice(0, 1)) == [Slice(0, 1)];
    hide Inserted, Start, PieceSize;
    assert Stored(t, Empty(t), 0, 0, [b]) == s;
    assert PieceBytes(t, s, 0) == [b];
  }

  /** For instance, a wrong byte completes a piece of one byte; it is served, and writing the right one is refused. */
  lemma MismatchServed(sha1: Hash, right: byte, wrong: byte)
    requires sha1([wrong]) != sha1([right])
    ensures var t := OneByte(sha1([right])); var w := Write(0, 0, [wrong]); var s := AfterWrites(t, sha1, Empty(t), [w]);
            && Mismatched(t, sha1, [w], 0)
            && Read(t, s, 0, 0, 1) == Ok([wrong])
            && Written(t, sha1, s, 0, 0, [right]) == (s, Err(FileAlreadyComplete(0)))
  {
    var t, w := OneByte(sha1([right])), Write(0, 0, [wrong]);
    OneByteWritten(sha1([right]), sha1, wrong);
    assert [w][..0] == [];
    hide Stored, PieceBytes, OneByte, IsComplete, Empty;
  }

  // ------------------------------------------------------------------ honest peers

  /** The bytes of `content`, the whole download, that belong to a range of a piece. */
  function Part(t: Torrent, content: seq<byte>, p: nat, begin: nat, length: nat): (bytes: seq<byte>)
    requires t.Valid() && |content| == t.length && p < t.Pieces() && begin + length <= PieceSize(t, p)
    ensures |bytes| == length && Offset(t, p) + PieceSize(t, p) <= t.length
    ensures forall x :: 0 <= x < |bytes| ==> bytes[x] == content[Offset(t, p) + begin + x]
  {
    OffsetInDownload(t, p);
    content[Offset(t, p) + begin..Offset(t, p) + begin + length]
  }

  /** Every write to the piece that is in bounds carries the bytes of `content`. */
  ghost predicate Honest(t: Torrent, content: seq<byte>, ws: seq<Write>, p: nat)
    requires t.Valid() && |content| == t.length && p < t.Pieces()
  {
    forall w :: w in ws && w.index == p && w.begin + |w.block| <= PieceSize(t, p) ==>
                  w.block == Part(t, content, p, w.begin, |w.block|)
  }

  /** What is covered is right. */
  ghost predicate Agrees(t: Torrent, content: seq<byte>, s: FileState, p: nat)
    requires t.Valid() && |content| == t.length && WellFormed(t, s) && p < t.Pieces()
  {
    OffsetInDownload(t, p);
    forall x :: 0 <= x < PieceSize(t, p) && Covers(s.slices[p], x) ==> PieceBytes(t, s, p)[x] == content[Offset(t, p) + x]
  }

  lemma StoredAgrees(t: Torrent, content: seq<byte>, s: FileState, w: Write)
    requires t.Valid() && |content| == t.length && WellFormed(t, s)
    requires Refusal(t, s, w.index, w.begin, |w.block|).None?
    requires w.block == Part(t, content, w.index, w.begin, |w.block|)
    requires Agrees(t, content, s, w.index)
    ensures Agrees(t, content, Stored(t, s, w.index, w.begin, w.block), w.index)
  {
    hide PieceSize, Start, Offset, PieceBytes, Part, Covers, Sorted, Inserted;
    var p, s' := w.index, Stored(t, s, w.index, w.begin, w.block);
    RegionInFile(t, p);
    forall x | 0 <= x < PieceSize(t, p) && Covers(s'.slices[p], x)
      ensures PieceBytes(t, s', p)[x] == content[Offset(t, p) + x]
    {
      InsertedCovers(s.slices[p], Slice(w.begin, w.begin + |w.block|), x);
    }
  }

  lemma OtherAgrees(t: Torrent, sha1: Hash, content: seq<byte>, s: FileState, w: Write, p: nat)
    requires t.Valid() && |content| == t.length && WellFormed(t, s) && p < t.Pieces()
    requires StandsAlone(t, p) && p != w.index && Agrees(t, content, s, p)
    ensures Agrees(t, content, Written(t, sha1, s, w.index, w.begin, w.block).0, p)
  {
    hide PieceBytes, Written, Region, PieceSize, Start, Offset;
    if w.index < t.Pieces() {
      WriteKeepsOthers(t, sha1, s, w, p);
    } else {
      RefusedKeeps(t, sha1, s, w);
    }
  }

  lemma {:induction false} HonestAgrees(t: Torrent, sha1: Hash, content: seq<byte>, ws: seq<Write>, p: nat)
    requires t.Valid() && StandsAlone(t, p) && |content| == t.length && p < t.Pieces()
    requires Honest(t, content, ws, p)
    ensures Agrees(t, content, AfterWrites(t, sha1, Empty(t), ws), p)
  {
    if ws != [] {
      hide StandsAlone, PieceBytes, Part, Offset, Start;
      var front, w := ws[..|ws| - 1], ws[|ws| - 1];
      HonestAgrees(t, sha1, content, front, p);
      var s := AfterWrites(t, sha1, Empty(t), front);
      if p != w.index {
        OtherAgrees(t, sha1, content, s, w, p);
      } else if Refusal(t, s, w.index, w.begin, |w.block|).None? {
        assert w in ws;
        StoredAgrees(t, content, s, w);
      }
    }
  }

  /**
   If all writes to a piece that stands alone carry the right bytes, then however they overlap
   and repeat, and whatever is written to other pieces, once it is complete it holds exactly
   its bytes of the download.
   */
  lemma HonestCompleteIsContent(t: Torrent, sha1: Hash, content: seq<byte>, ws: seq<Write>, p: nat)
    requires t.Valid() && StandsAlone(t, p) && |content| == t.length && p < t.Pieces()
    requires Honest(t, content, ws, p)
    requires Complete(t, AfterWrites(t, sha1, Empty(t), ws), p)
    ensures PieceBytes(t, AfterWrites(t, sha1, Empty(t), ws), p) == Part(t, content, p, 0, PieceSize(t, p))
  {
    hide PieceSize, Start, Offset, PieceBytes, Part, AfterWrites, StandsAlone;
    var s := AfterWrites(t, sha1, Empty(t), ws);
    HonestAgrees(t, sha1, content, ws, p);
    forall x | 0 <= x < PieceSize(t, p) ensures PieceBytes(t, s, p)[x] == Part(t, content, p, 0, PieceSize(t, p))[x] {
      assert s.slices[p][0].Has(x);
    }
  }

  lemma ByteOfPiece(t: Torrent, s: FileState, p: nat, x: nat)
    requires t.Valid() && WellFormed(t, s) && p < t.Pieces() && Region(t, p).Has(x)
    ensures x - Start(t, p) < PieceSize(t, p) && x < t.length
    ensures PieceBytes(t, s, p)[x - Start(t, p)] == s.file[x]
  {
    RegionInFile(t, p);
  }

  lemma ByteOfPart(t: Torrent, content: seq<byte>, p: nat, x: nat)
    requires t.Valid() && |content| == t.length && p < t.Pieces() && Region(t, p).Has(x) && Start(t, p) == Offset(t, p)
    ensures x - Start(t, p) < PieceSize(t, p) && x < t.length
    ensures Part(t, content, p, 0, PieceSize(t, p))[x - Start(t, p)] == content[x]
  {
    hide Offset, PieceSize, Start;
    OffsetInDownload(t, p);
  }

  lemma HonestByte(t: Torrent, sha1: Hash, content: seq<byte>, ws: seq<Write>, p: nat, x: nat)
    requires t.Valid() && StandsAlone(t, p) && |content| == t.length && p < t.Pieces()
    requires Honest(t, content, ws, p) && Region(t, p).Has(x)
    requires Complete(t, AfterWrites(t, sha1, Empty(t), ws), p)
    ensures x < t.length && AfterWrites(t, sha1, Empty(t), ws).file[x] == content[x]
  {
    AloneAtOffset(t, p);
    hide PieceSize, Start, Offset, PieceBytes, Part, Honest, Complete, AfterWrites, StandsAlone, Region;
    var s := AfterWrites(t, sha1, Empty(t), ws);
    ByteOfPiece(t, s, p, x);
    ByteOfPart(t, content, p, x);
    HonestCompleteIsContent(t, sha1, content, ws, p);
  }

  /** And when regions are aligned and all pieces are complete, the file is the download. */
  lemma HonestDownload(t: Torrent, sha1: Hash, content: seq<byte>, ws: seq<Write>)
    requires t.Valid() && Aligned(t) && |content| == t.length
    requires forall p :: 0 <= p < t.Pieces() ==> Honest(t, content, ws, p)
    requires forall p :: 0 <= p < t.Pieces() ==> Complete(t, AfterWrites(t, sha1, Empty(t), ws), p)
    ensures AfterWrites(t, sha1, Empty(t), ws).file == content
  {
    var s := AfterWrites(t, sha1, Empty(t), ws);
    hide AfterWrites, Honest, Complete, Aligned, StandsAlone, Start, PieceSize;
    forall x | 0 <= x < t.length ensures s.file[x] == content[x] {
      AlignedHolder(t, x);
      var p :| 0 <= p < t.Pieces() && Region(t, p).Has(x);
      AlignedStandsAlone(t, p);
      HonestByte(t, sha1, content, ws, p, x);
    }
  }

  /** So any part of it that is read is that part of the download. */
  lemma HonestRead(t: Torrent, sha1: Hash, content: seq<byte>, ws: seq<Write>, p: nat, begin: nat, length: nat)
    requires t.Valid() && StandsAlone(t, p) && |content| == t.length && p < t.Pieces()
    requires Honest(t, content, ws, p) && begin + length <= PieceSize(t, p)
    requires Complete(t, AfterWrites(t, sha1, Empty(t), ws), p)
    ensures Read(t, AfterWrites(t, sha1, Empty(t), ws), p, begin, length) == Ok(Part(t, content, p, begin, length))
  {
    hide StandsAlone, Honest, Complete, AfterWrites, PieceSize, Offset, PieceBytes;
    HonestCompleteIsContent(t, sha1, content, ws, p);
    PartOfPart(t, content, p, begin, length);
  }

  lemma PartOfPart(t: Torrent, content: seq<byte>, p: nat, begin: nat, length: nat)
    requires t.Valid() && |content| == t.length && p < t.Pieces() && begin + length <= PieceSize(t, p)
    ensures Part(t, content, p, 0, PieceSize(t, p))[begin..begin + length] == Part(t, content, p, begin, length)
  {
    hide PieceSize, Offset;
  }

  // ------------------------------------------------------------------ distinct blocks finish a piece

  lemma AfterLast(t: Torrent, sha1: Hash, ws: seq<Write>)
    requires t.Valid() && ws != []
    ensures var w := ws[|ws| - 1];
            AfterWrites(t, sha1, Empty(t), ws) ==
            Written(t, sha1, AfterWrites(t, sha1, Empty(t), ws[..|ws| - 1]), w.index, w.begin, w.block).0
  {
  }

  lemma WriteSlices(t: Torrent, sha1: Hash, s: FileState, w: Write, p: nat)
    requires t.Valid() && WellFormed(t, s) && p < t.Pieces()
    requires w.index == p ==>
               !Complete(t, s, p) && IsBlock(t, Key(p, w.begin)) && |w.block| == BlockLength(t, Key(p, w.begin))
    ensures Written(t, sha1, s, w.index, w.begin, w.block).0.slices[p] ==
              if w.index == p then Inserted(s.slices[p], BlockSlice(t, Key(p, w.begin))) else s.slices[p]
  {
    hide Inserted, IsComplete, PieceSize, PieceBytes, Start;
    if w.index == p {
      BlockInBounds(t, Key(p, w.begin));
    }
  }

  /** As long as the blocks are different, none is refused, and the slices are theirs. */
  lemma {:induction false} SlicesAreRun(t: Torrent, sha1: Hash, ws: seq<Write>, p: nat)
    requires t.Valid() && p < t.Pieces() && WholeBlocks(t, ws, p) && Distinct(KeysTo(ws, p))
    ensures forall k :: k in KeysTo(ws, p) ==> IsBlock(t, k)
    ensures AfterWrites(t, sha1, Empty(t), ws).slices[p] == Run(Blocks.Slices(t, KeysTo(ws, p)))
  {
    hide IsBlock, BlockLength, WholeBlocks, Written, Inserted, WellFormed, KeysTo, AfterWrites, Run, Distinct, IsComplete;
    KeysAreBlocks(t, ws, p);
    if ws == [] {
      NothingWritten(t, sha1, p);
    } else {
      var front, w := ws[..|ws| - 1], ws[|ws| - 1];
      WholeFront(t, ws, p);
      KeysToLast(ws, p);
      AfterLast(t, sha1, ws);
      if w.index == p {
        RoomForLast(t, ws, p);
        SlicesAreRun(t, sha1, front, p);
        DistinctBlocksComplete(t, p, KeysTo(front, p));
        RunNext(t, KeysTo(front, p), Key(p, w.begin));
      } else {
        SlicesAreRun(t, sha1, front, p);
      }
      WriteSlices(t, sha1, AfterWrites(t, sha1, Empty(t), front), w, p);
    }
  }

  lemma NothingWritten(t: Torrent, sha1: Hash, p: nat)
    requires t.Valid() && p < t.Pieces()
    ensures KeysTo([], p) == [] && AfterWrites(t, sha1, Empty(t), []).slices[p] == [] == Run(Blocks.Slices(t, []))
  {
  }

  lemma DeliveredComplete(t: Torrent, sha1: Hash, ws: seq<Write>, p: nat)
    requires t.Valid() && p < t.Pieces() && WholeBlocks(t, ws, p) && Distinct(KeysTo(ws, p))
    ensures Complete(t, AfterWrites(t, sha1, Empty(t), ws), p) <==> |KeysTo(ws, p)| == |PieceKeys(t, p)|
  {
    hide IsBlock, WholeBlocks, AfterWrites, Run, Distinct, IsComplete, KeysTo, PieceKeys, PieceSize;
    SlicesAreRun(t, sha1, ws, p);
    DistinctBlocksComplete(t, p, KeysTo(ws, p));
  }

  /**
   Liveness of one piece that stands alone: if its blocks arrive whole, with the right bytes,
   each at most once, in any order and among any writes to other pieces, a write answers that it
   finished and verified the piece exactly when it is the last of the piece's blocks.
   */
  lemma LastBlockFinishes(t: Torrent, sha1: Hash, content: seq<byte>, ws: seq<Write>, w: Write)
    requires t.Valid() && w.index < t.Pieces() && StandsAlone(t, w.index) && |content| == t.length
    requires WholeBlocks(t, ws + [w], w.index) && Distinct(KeysTo(ws + [w], w.index))
    requires Honest(t, content, ws + [w], w.index)
    requires sha1(Part(t, content, w.index, 0, PieceSize(t, w.index))) == t.hashes[w.index]
    ensures Written(t, sha1, AfterWrites(t, sha1, Empty(t), ws), w.index, w.begin, w.block).1 ==
              Ok(|KeysTo(ws + [w], w.index)| == |PieceKeys(t, w.index)|)
  {
    hide WholeBlocks, AfterWrites, Distinct, KeysTo, PieceKeys, Complete, Written, Honest, StandsAlone, IsBlock, PieceBytes;
    var all, p := ws + [w], w.index;
    assert all[..|all| - 1] == ws && all[|all| - 1] == w;
    AfterLast(t, sha1, all);
    WholeFront(t, all, p);
    RoomForLast(t, all, p);
    DeliveredComplete(t, sha1, ws, p);
    DeliveredComplete(t, sha1, all, p);
    BlockInBounds(t, Key(p, w.begin));
    WriteAnswers(t, sha1, AfterWrites(t, sha1, Empty(t), ws), w);
    WriteCompletes(t, sha1, AfterWrites(t, sha1, Empty(t), ws), w, p);
    if Complete(t, AfterWrites(t, sha1, Empty(t), all), p) {
      HonestCompleteIsContent(t, sha1, content, all, p);
    }
  }

  // ------------------------------------------------------------------ a short last piece

  ghost predicate KeepsOthers(t: Torrent, s: FileState, w: Write)
    requires t.Valid() && WellFormed(t, s) && Refusal(t, s, w.index, w.begin, |w.block|).None?
  {
    forall p :: 0 <= p < t.Pieces() && p != w.index ==>
      PieceBytes(t, Stored(t, s, w.index, w.begin, w.block), p) == PieceBytes(t, s, p)
  }

  /** Accepted writes leave all other pieces alone exactly when the regions are aligned. */
  lemma WritesKeepOthersIff(t: Torrent)
    requires t.Valid()
    ensures (forall s: FileState, w: Write :: WellFormed(t, s) && Refusal(t, s, w.index, w.begin, |w.block|).None? ==> KeepsOthers(t, s, w))
            <==> Aligned(t)
  {
    if Aligned(t) {
      forall s: FileState, w: Write | WellFormed(t, s) && Refusal(t, s, w.index, w.begin, |w.block|).None? ensures KeepsOthers(t, s, w) {
        forall p | 0 <= p < t.Pieces() && p != w.index
          ensures PieceBytes(t, Stored(t, s, w.index, w.begin, w.block), p) == PieceBytes(t, s, p)
        {
          AlignedStandsAlone(t, p);
          WriteKeepsOthers(t, _ => [], s, w, p);
        }
      }
    } else {
      var p := ShortLastOverlaps(t);
      var last := t.Pieces() - 1;
      var s, w := Empty(t), Write(last, 0, [1]);
      var s' := Stored(t, s, w.index, w.begin, w.block);
      RegionInFile(t, last);
      ByteChanges(t, _ => [], s, p, last, Start(t, last));
      assert PieceBytes(t, s', p) != PieceBytes(t, s, p);
      assert !KeepsOthers(t, s, w);
    }
  }

  /** Two pieces of 2 and 1 bytes. */
  function ShortTorrent(sha1: Hash): (t: Torrent)
    ensures t.Valid() && !Aligned(t) && PieceSize(t, 0) == 2 && PieceSize(t, 1) == 1
  {
    Torrent(3, 2, [sha1([1, 1]), sha1([7])])
  }

  lemma FirstWritten(sha1: Hash)
    ensures Written(ShortTorrent(sha1), sha1, Empty(ShortTorrent(sha1)), 0, 0, [1, 1]) ==
              (FileState([1, 1, 0], [[Slice(0, 2)], []]), Ok(true))
  {
    var t := ShortTorrent(sha1);
    var s := FileState([1, 1, 0], [[Slice(0, 2)], []]);
    assert Inserted([], Slice(0, 2)) == [Slice(0, 2)];
    assert Stored(t, Empty(t), 0, 0, [1, 1]) == s;
    assert PieceBytes(t, s, 0) == [1, 1];
  }

  lemma SecondWritten(sha1: Hash)
    ensures var s := FileState([1, 1, 0], [[Slice(0, 2)], []]);
            && WellFormed(ShortTorrent(sha1), s)
            && Written(ShortTorrent(sha1), sha1, s, 1, 0, [7]) ==
               (FileState([1, 7, 0], [[Slice(0, 2)], [Slice(0, 1)]]), Ok(true))
  {
    var t := ShortTorrent(sha1);
    var s := FileState([1, 7, 0], [[Slice(0, 2)], [Slice(0, 1)]]);
    assert Inserted([], Slice(0, 1)) == [Slice(0, 1)];
    assert Stored(t, FileState([1, 1, 0], [[Slice(0, 2)], []]), 1, 0, [7]) == s;
    assert PieceBytes(t, s, 1) == [7];
  }

  /** For instance, writing the second of two pieces spoils the first, which was verified. */
  lemma ShortLastPieceOverwrites(sha1: Hash)
    ensures var t := ShortTorrent(sha1);
            var (s1, r1) := Written(t, sha1, Empty(t), 0, 0, [1, 1]);
            var (s2, r2) := Written(t, sha1, s1, 1, 0, [7]);
            && r1 == Ok(true) && PieceBytes(t, s1, 0) == [1, 1]
            && r2 == Ok(true) && PieceBytes(t, s2, 0) == [1, 7]
  {
    FirstWritten(sha1);
    SecondWritten(sha1);
    hide Written, Empty;
    assert PieceBytes(ShortTorrent(sha1), FileState([1, 1, 0], [[Slice(0, 2)], []]), 0) == [1, 1];
    assert PieceBytes(ShortTorrent(sha1), FileState([1, 7, 0], [[Slice(0, 2)], [Slice(0, 1)]]), 0) == [1, 7];
  }
}
