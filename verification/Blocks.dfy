/**
 Planning the blocks of a piece (`PieceBlockAllocation::new` of src/peer/state/piece.rs),
 and why the blocks it plans are what `Slices` needs to report the piece complete.
 */
module Blocks {
  import opened Common
  import opened Torrents
  import opened SliceTracking

  /** A block of the torrent: a piece and the offset at which the block begins in it. */
  datatype Key = Key(piece: nat, begin: nat)

  /** `PeerRequestedPiece` of src/model/mod.rs. */
  datatype Request = Request(peer: PeerId, index: nat, begin: nat, length: nat) {
    function Block(): Key {
      Key(index, begin)
    }
  }

  /** Every block begins at a multiple of the block size, inside its piece. */
  predicate IsBlock(t: Torrent, k: Key)
    requires t.Valid()
  {
    k.begin % PIECE_BLOCK_SIZE == 0 && k.begin < PieceSize(t, k.piece)
  }

  /** A block has the full block size unless the piece ends before. */
  function BlockLength(t: Torrent, k: Key): (length: nat)
    requires t.Valid() && k.begin < PieceSize(t, k.piece)
    ensures 0 < length <= PIECE_BLOCK_SIZE
  {
    if k.begin + PIECE_BLOCK_SIZE > PieceSize(t, k.piece) then PieceSize(t, k.piece) - k.begin else PIECE_BLOCK_SIZE
  }

  function BlockSlice(t: Torrent, k: Key): Slice
    requires t.Valid() && IsBlock(t, k)
  {
    Slice(k.begin, k.begin + BlockLength(t, k))
  }

  function RequestFor(t: Torrent, peer: PeerId, k: Key): Request
    requires t.Valid() && IsBlock(t, k)
  {
    Request(peer, k.piece, k.begin, BlockLength(t, k))
  }

  /** The request stays inside its piece, and asks for a full block or for the rest of the piece. */
  predicate AsksExactly(t: Torrent, r: Request)
    requires t.Valid()
  {
    && r.begin % PIECE_BLOCK_SIZE == 0
    && 0 < r.length <= PIECE_BLOCK_SIZE
    && r.begin + r.length <= PieceSize(t, r.index)
    && (r.length == PIECE_BLOCK_SIZE || r.begin + r.length == PieceSize(t, r.index))
  }

  function KeysOf(rs: seq<Request>): (ks: seq<Key>)
    ensures |ks| == |rs| && forall i :: 0 <= i < |rs| ==> ks[i] == rs[i].Block()
  {
    seq(|rs|, i requires 0 <= i < |rs| => rs[i].Block())
  }

  // ------------------------------------------------------------------ all blocks of a piece

  /** The blocks of a piece that begin at `begin` or later, in order. */
  function KeysFrom(t: Torrent, piece: nat, begin: nat): (ks: seq<Key>)
    requires t.Valid() && begin % PIECE_BLOCK_SIZE == 0
    ensures forall k :: k in ks <==> k.piece == piece && begin <= k.begin && IsBlock(t, k)
    ensures forall i, j :: 0 <= i < j < |ks| ==> ks[i].begin < ks[j].begin
    decreases PieceSize(t, piece) - begin
  {
    if begin >= PieceSize(t, piece) then []
    else
      var rest := KeysFrom(t, piece, begin + PIECE_BLOCK_SIZE);
      KeysGrow(t, piece, begin, rest);
      [Key(piece, begin)] + rest
  }

  lemma KeysGrow(t: Torrent, piece: nat, begin: nat, rest: seq<Key>)
    requires t.Valid() && begin % PIECE_BLOCK_SIZE == 0 && begin < PieceSize(t, piece)
    requires forall k :: k in rest <==> k.piece == piece && begin + PIECE_BLOCK_SIZE <= k.begin && IsBlock(t, k)
    requires forall i, j :: 0 <= i < j < |rest| ==> rest[i].begin < rest[j].begin
    ensures var ks := [Key(piece, begin)] + rest;
            && (forall k :: k in ks <==> k.piece == piece && begin <= k.begin && IsBlock(t, k))
            && (forall i, j :: 0 <= i < j < |ks| ==> ks[i].begin < ks[j].begin)
  {
    hide PieceSize;
    NextBlock(t, piece, begin);
    assert forall i :: 0 <= i < |rest| ==> rest[i] in rest;
  }

  lemma NextBlock(t: Torrent, piece: nat, begin: nat)
    requires t.Valid() && begin % PIECE_BLOCK_SIZE == 0
    ensures forall k: Key :: k.begin % PIECE_BLOCK_SIZE == 0 && begin < k.begin ==> begin + PIECE_BLOCK_SIZE <= k.begin
  {
  }

  function PieceKeys(t: Torrent, piece: nat): seq<Key>
    requires t.Valid()
  {
    KeysFrom(t, piece, 0)
  }

  /** The keys that are not busy, in order. */
  function Without(ks: seq<Key>, busy: set<Key>): (r: seq<Key>)
    ensures forall k :: k in r <==> k in ks && k !in busy
    ensures |r| <= |ks|
  {
    if ks == [] then []
    else if ks[0] in busy then Without(ks[1..], busy)
    else [ks[0]] + Without(ks[1..], busy)
  }

  function Take<T>(n: nat, s: seq<T>): seq<T> {
    if n < |s| then s[..n] else s
  }

  function RequestsFor(t: Torrent, peer: PeerId, ks: seq<Key>): (reqs: seq<Request>)
    requires t.Valid() && forall k :: k in ks ==> IsBlock(t, k)
    ensures |reqs| == |ks|
    ensures forall i :: 0 <= i < |ks| ==> reqs[i] == RequestFor(t, peer, ks[i])
  {
    seq(|ks|, i requires 0 <= i < |ks| => RequestFor(t, peer, ks[i]))
  }

  /** The blocks one planning call asks for: the first ones that are not busy, up to the capacity. */
  function Plan(t: Torrent, piece: nat, busy: set<Key>, capacity: nat): (ks: seq<Key>)
    requires t.Valid()
    ensures forall k :: k in ks ==> k.piece == piece && IsBlock(t, k) && k !in busy
    ensures |ks| <= capacity
  {
    Take(capacity, Without(PieceKeys(t, piece), busy))
  }

  /** The blocks still to plan when the planning loop is at `begin`. */
  function PlanFrom(t: Torrent, piece: nat, begin: nat, busy: set<Key>, capacity: nat): seq<Key>
    requires t.Valid() && begin % PIECE_BLOCK_SIZE == 0
  {
    Take(capacity, Without(KeysFrom(t, piece, begin), busy))
  }

  lemma PlanStep(t: Torrent, piece: nat, begin: nat, busy: set<Key>, capacity: nat, planned: seq<Key>)
    requires t.Valid() && begin % PIECE_BLOCK_SIZE == 0 && begin < PieceSize(t, piece) && capacity > 0
    ensures (begin + PIECE_BLOCK_SIZE) % PIECE_BLOCK_SIZE == 0
    ensures Key(piece, begin) in busy ==>
              PlanFrom(t, piece, begin, busy, capacity) == PlanFrom(t, piece, begin + PIECE_BLOCK_SIZE, busy, capacity)
    ensures Key(piece, begin) !in busy ==>
              planned + PlanFrom(t, piece, begin, busy, capacity) ==
              planned + [Key(piece, begin)] + PlanFrom(t, piece, begin + PIECE_BLOCK_SIZE, busy, capacity - 1)
  {
    assert (begin + PIECE_BLOCK_SIZE) % PIECE_BLOCK_SIZE == 0;
    var k, rest := Key(piece, begin), KeysFrom(t, piece, begin + PIECE_BLOCK_SIZE);
    assert KeysFrom(t, piece, begin) == [k] + rest;
    hide KeysFrom, IsBlock, PieceSize;
    WithoutCons(k, rest, busy);
    hide Without;
    TakeCons(capacity, k, Without(rest, busy));
    hide Take;
    SeqAssoc(planned, [k], Take(capacity - 1, Without(rest, busy)));
  }

  lemma RequestHere(t: Torrent, peer: PeerId, piece: nat, begin: nat)
    requires t.Valid() && begin % PIECE_BLOCK_SIZE == 0 && begin < PieceSize(t, piece)
    ensures IsBlock(t, Key(piece, begin))
    ensures RequestFor(t, peer, Key(piece, begin)) ==
              Request(peer, piece, begin,
                      if begin + PIECE_BLOCK_SIZE > PieceSize(t, piece) then PieceSize(t, piece) - begin else PIECE_BLOCK_SIZE)
  {
  }

  lemma WithoutCons(k: Key, ks: seq<Key>, busy: set<Key>)
    ensures Without([k] + ks, busy) == if k in busy then Without(ks, busy) else [k] + Without(ks, busy)
  {
    TailConcat([k], ks);
  }

  lemma TakeCons<T>(n: nat, x: T, s: seq<T>)
    requires n > 0
    ensures Take(n, [x] + s) == [x] + Take(n - 1, s)
  {
  }

  lemma RequestsForMore(t: Torrent, peer: PeerId, ks: seq<Key>, k: Key)
    requires t.Valid() && IsBlock(t, k) && forall k :: k in ks ==> IsBlock(t, k)
    ensures forall j :: j in ks + [k] ==> IsBlock(t, j)
    ensures RequestsFor(t, peer, ks + [k]) == RequestsFor(t, peer, ks) + [RequestFor(t, peer, k)]
  {
  }

  /**
   `PieceBlockAllocation::new`. `peer` is the first element of the source's hash set of
   peers, `None` when that set is empty; `busy` are the blocks in progress.
   */
  method NewAllocation(t: Torrent, piece: nat, peer: Option<PeerId>, busy: set<Key>, capacity: nat)
    returns (requests: Option<seq<Request>>, capacityLeft: nat)
    requires t.Valid()
    ensures peer.None? ==> requests.None? && capacityLeft == capacity
    ensures peer.Some? ==>
              && requests == Some(RequestsFor(t, peer.value, Plan(t, piece, busy, capacity)))
              && capacityLeft == capacity - |requests.value|
              && KeysOf(requests.value) == Plan(t, piece, busy, capacity)
              && forall r :: r in requests.value ==> r.peer == peer.value && AsksExactly(t, r)
  {
    hide Planning, PieceSize;
    capacityLeft := capacity;
    if peer.None? {
      return None, capacityLeft;
    }
    PlanStarts(t, piece, peer.value, busy, capacity);
    var requestsToMake: seq<Request> := [];
    ghost var planned: seq<Key> := [];
    var pieceSize := PieceSize(t, piece);
    var begin := 0;
    while begin < pieceSize && capacityLeft != 0
      invariant Planning(t, piece, peer.value, busy, capacity, begin, capacityLeft, planned, requestsToMake)
      decreases pieceSize - begin
    {
      PlanningStep(t, piece, peer.value, busy, capacity, begin, capacityLeft, planned, requestsToMake);
      if Key(piece, begin) !in busy {
        capacityLeft := capacityLeft - 1;
        var length := PIECE_BLOCK_SIZE;
        if begin + length > pieceSize {
          length := pieceSize - begin;
        }
        requestsToMake := requestsToMake + [Request(peer.value, piece, begin, length)];
        planned := planned + [Key(piece, begin)];
      }
      begin := begin + PIECE_BLOCK_SIZE;
    }
    PlanEnds(t, piece, peer.value, busy, capacity, begin, capacityLeft, planned, requestsToMake);
    requests := Some(requestsToMake);
  }

  /** The planning loop at `begin`: what it has planned, and what it will plan yet. */
  ghost predicate Planning(t: Torrent, piece: nat, peer: PeerId, busy: set<Key>, capacity: nat,
                           begin: nat, left: nat, planned: seq<Key>, requests: seq<Request>)
    requires t.Valid()
  {
    && begin % PIECE_BLOCK_SIZE == 0
    && (forall k :: k in planned ==> IsBlock(t, k))
    && requests == RequestsFor(t, peer, planned)
    && left == capacity - |planned|
    && planned + PlanFrom(t, piece, begin, busy, left) == Plan(t, piece, busy, capacity)
  }

  lemma PlanStarts(t: Torrent, piece: nat, peer: PeerId, busy: set<Key>, capacity: nat)
    requires t.Valid()
    ensures Planning(t, piece, peer, busy, capacity, 0, capacity, [], [])
  {
    assert [] + Plan(t, piece, busy, capacity) == Plan(t, piece, busy, capacity);
  }

  lemma PlanningStep(t: Torrent, piece: nat, peer: PeerId, busy: set<Key>, capacity: nat,
                     begin: nat, left: nat, planned: seq<Key>, requests: seq<Request>)
    requires t.Valid() && begin < PieceSize(t, piece) && left > 0
    requires Planning(t, piece, peer, busy, capacity, begin, left, planned, requests)
    ensures var size := PieceSize(t, piece);
            var length := if begin + PIECE_BLOCK_SIZE > size then size - begin else PIECE_BLOCK_SIZE;
            if Key(piece, begin) in busy then
              Planning(t, piece, peer, busy, capacity, begin + PIECE_BLOCK_SIZE, left, planned, requests)
            else
              Planning(t, piece, peer, busy, capacity, begin + PIECE_BLOCK_SIZE, left - 1,
                       planned + [Key(piece, begin)], requests + [Request(peer, piece, begin, length)])
  {
    RequestHere(t, peer, piece, begin);
    PlanStep(t, piece, begin, busy, left, planned);
    hide IsBlock, RequestFor, PlanFrom, Plan, PieceSize;
    RequestsForMore(t, peer, planned, Key(piece, begin));
  }

  lemma PlanEnds(t: Torrent, piece: nat, peer: PeerId, busy: set<Key>, capacity: nat,
                 begin: nat, left: nat, planned: seq<Key>, requests: seq<Request>)
    requires t.Valid() && (begin >= PieceSize(t, piece) || left == 0)
    requires Planning(t, piece, peer, busy, capacity, begin, left, planned, requests)
    ensures planned == Plan(t, piece, busy, capacity) && requests == RequestsFor(t, peer, planned)
    ensures left == capacity - |requests|
    ensures KeysOf(requests) == planned && forall r :: r in requests ==> r.peer == peer && AsksExactly(t, r)
  {
    RequestsAskExactly(t, peer, planned);
    assert planned + [] == planned;
  }

  /** What the requests for blocks ask for, in bytes of the piece. */
  lemma RequestsAskExactly(t: Torrent, peer: PeerId, ks: seq<Key>)
    requires t.Valid() && forall k :: k in ks ==> IsBlock(t, k)
    ensures KeysOf(RequestsFor(t, peer, ks)) == ks
    ensures forall r :: r in RequestsFor(t, peer, ks) ==> r.peer == peer && AsksExactly(t, r)
  {
    var rs := RequestsFor(t, peer, ks);
    forall r | r in rs ensures r.peer == peer && AsksExactly(t, r) {
      var i :| 0 <= i < |rs| && rs[i] == r;
      assert ks[i] in ks;
    }
  }

  lemma RequestExact(t: Torrent, peer: PeerId, k: Key)
    requires t.Valid() && IsBlock(t, k)
    ensures AsksExactly(t, RequestFor(t, peer, k))
  {
  }

  /** For instance, a piece of 20000 bytes is asked for in 16384 and 3616. */
  lemma LastBlockClipped(digest: Digest, peer: PeerId)
    ensures var t := Torrent(20000, 20000, [digest]);
            t.Valid() && RequestsFor(t, peer, Plan(t, 0, {}, 2)) == [Request(peer, 0, 0, 16384)] + [Request(peer, 0, 16384, 3616)]
  {
    var t := Torrent(20000, 20000, [digest]);
    assert KeysFrom(t, 0, 32768) == [];
    assert KeysFrom(t, 0, 16384) == [Key(0, 16384)];
    assert PieceKeys(t, 0) == [Key(0, 0)] + [Key(0, 16384)];
    WithoutNothing(PieceKeys(t, 0), {});
  }

  lemma {:induction false} WithoutDistinct(ks: seq<Key>, busy: set<Key>)
    requires Distinct(ks)
    ensures Distinct(Without(ks, busy))
  {
    if ks != [] {
      DistinctTail(ks);
      WithoutDistinct(ks[1..], busy);
      DistinctCons(ks[0], Without(ks[1..], busy));
    }
  }

  lemma DistinctTail<T>(s: seq<T>)
    requires Distinct(s) && s != []
    ensures Distinct(s[1..]) && s[0] !in s[1..]
  {
  }

  lemma DistinctCons<T>(x: T, s: seq<T>)
    requires Distinct(s) && x !in s
    ensures Distinct([x] + s)
  {
  }

  lemma PlanDistinct(t: Torrent, piece: nat, busy: set<Key>, capacity: nat)
    requires t.Valid()
    ensures Distinct(Plan(t, piece, busy, capacity))
  {
    assert Distinct(PieceKeys(t, piece));
    WithoutDistinct(PieceKeys(t, piece), busy);
  }

  // ------------------------------------------------------------------ tiling meets merging

  /** The slices of a list of blocks. */
  function Slices(t: Torrent, ks: seq<Key>): (ss: seq<Slice>)
    requires t.Valid() && forall k :: k in ks ==> IsBlock(t, k)
    ensures |ss| == |ks| && forall i :: 0 <= i < |ks| ==> ss[i] == BlockSlice(t, ks[i])
  {
    seq(|ks|, i requires 0 <= i < |ks| => BlockSlice(t, ks[i]))
  }

  ghost function Elements<T>(s: seq<T>): set<T> {
    set x | x in s
  }

  ghost predicate Distinct<T>(s: seq<T>) {
    forall i, j :: 0 <= i < j < |s| ==> s[i] != s[j]
  }

  /** Two blocks of a piece share no offset. */
  lemma BlocksApart(t: Torrent, a: Key, b: Key)
    requires t.Valid() && IsBlock(t, a) && IsBlock(t, b)
    requires a.piece == b.piece && a != b
    ensures Apart(BlockSlice(t, a), BlockSlice(t, b))
  {
    NextBlock(t, a.piece, a.begin);
    NextBlock(t, a.piece, b.begin);
  }

  /** The block that holds an offset of the piece. */
  function BlockAt(t: Torrent, piece: nat, x: nat): (k: Key)
    requires t.Valid() && x < PieceSize(t, piece)
    ensures k.piece == piece && IsBlock(t, k) && BlockSlice(t, k).Has(x)
  {
    Key(piece, x - x % PIECE_BLOCK_SIZE)
  }

  lemma SubsetBySize<T>(s: seq<T>, all: set<T>)
    requires Distinct(s) && forall x :: x in s ==> x in all
    ensures |s| <= |all|
    ensures |s| == |all| <==> forall x :: x in all ==> x in s
  {
    var elements := Elements(s);
    DistinctSize(s);
    assert elements <= all;
    SetSizes(elements, all);
  }

  lemma SetSizes<T>(a: set<T>, b: set<T>)
    requires a <= b
    ensures |a| <= |b| && (|a| == |b| <==> a == b)
  {
    assert b == a + (b - a);
    assert |b| == |a| + |b - a|;
  }

  lemma {:induction false} DistinctSize<T>(s: seq<T>)
    requires Distinct(s)
    ensures |Elements(s)| == |s|
  {
    if s != [] {
      var front, last := s[..|s| - 1], s[|s| - 1];
      LastElement(s);
      DistinctSize(front);
    }
  }

  lemma LastElement<T>(s: seq<T>)
    requires s != []
    ensures Elements(s) == Elements(s[..|s| - 1]) + {s[|s| - 1]}
    ensures Distinct(s) ==> Distinct(s[..|s| - 1]) && s[|s| - 1] !in s[..|s| - 1]
  {
    LastSplit(s);
  }

  lemma AllBlocksCover(t: Torrent, piece: nat, ks: seq<Key>, x: int)
    requires t.Valid()
    requires forall k :: k in ks ==> k.piece == piece && IsBlock(t, k)
    requires forall k :: k in PieceKeys(t, piece) ==> k in ks
    ensures Covers(Slices(t, ks), x) <==> 0 <= x < PieceSize(t, piece)
  {
    if 0 <= x < PieceSize(t, piece) {
      assert BlockAt(t, piece, x) in PieceKeys(t, piece);
      var i :| 0 <= i < |ks| && ks[i] == BlockAt(t, piece, x);
      assert Slices(t, ks)[i].Has(x);
    }
  }

  lemma BlockCoveredOnlyByItself(t: Torrent, piece: nat, ks: seq<Key>, k: Key)
    requires t.Valid() && k.piece == piece && IsBlock(t, k)
    requires forall k :: k in ks ==> k.piece == piece && IsBlock(t, k)
    requires Covers(Slices(t, ks), k.begin)
    ensures k in ks
  {
    var i :| 0 <= i < |ks| && Slices(t, ks)[i].Has(k.begin);
    if ks[i] != k {
      BlocksApart(t, ks[i], k);
    }
  }

  lemma BlocksDisjoint(t: Torrent, piece: nat, ks: seq<Key>)
    requires t.Valid() && Distinct(ks)
    requires forall k :: k in ks ==> k.piece == piece && IsBlock(t, k)
    ensures Disjoint(Slices(t, ks))
  {
    forall i, j | 0 <= i < j < |ks| ensures Apart(Slices(t, ks)[i], Slices(t, ks)[j]) {
      BlocksApart(t, ks[i], ks[j]);
    }
  }

  /** Distinct blocks complete the piece exactly when they are all of its blocks. */
  lemma DistinctBlocksComplete(t: Torrent, piece: nat, ks: seq<Key>)
    requires t.Valid() && Distinct(ks)
    requires forall k :: k in ks ==> k.piece == piece && IsBlock(t, k)
    ensures IsComplete(Run(Slices(t, ks)), PieceSize(t, piece)) <==> |ks| == |PieceKeys(t, piece)|
  {
    var all := PieceKeys(t, piece);
    BlocksDisjoint(t, piece, ks);
    DisjointCompleteIff(Slices(t, ks), PieceSize(t, piece));
    DistinctSize(all);
    SubsetBySize(ks, Elements(all));
    if |ks| == |all| {
      forall x ensures Covers(Slices(t, ks), x) <==> 0 <= x < PieceSize(t, piece) {
        AllBlocksCover(t, piece, ks, x);
      }
    } else {
      var k :| k in all && k !in ks;
      if Covers(Slices(t, ks), k.begin) {
        BlockCoveredOnlyByItself(t, piece, ks, k);
      }
    }
  }

  /** What a sequence of planning calls with the given capacities asks for, nothing being withdrawn. */
  ghost function Planned(t: Torrent, piece: nat, capacities: seq<nat>): (ks: seq<Key>)
    requires t.Valid()
    ensures forall k :: k in ks ==> k.piece == piece && IsBlock(t, k)
  {
    if capacities == [] then []
    else
      var before := Planned(t, piece, capacities[..|capacities| - 1]);
      before + Plan(t, piece, Elements(before), capacities[|capacities| - 1])
  }

  function Sum(ns: seq<nat>): nat {
    if ns == [] then 0 else Sum(ns[..|ns| - 1]) + ns[|ns| - 1]
  }

  lemma {:induction false} WithoutConcat(a: seq<Key>, b: seq<Key>, busy: set<Key>)
    ensures Without(a + b, busy) == Without(a, busy) + Without(b, busy)
  {
    if a == [] {
      assert a + b == b;
    } else {
      TailConcat(a, b);
      WithoutConcat(a[1..], b, busy);
      SeqAssoc([a[0]], Without(a[1..], busy), Without(b, busy));
    }
  }

  lemma {:induction false} WithoutNothing(ks: seq<Key>, busy: set<Key>)
    requires forall k :: k in ks ==> k !in busy
    ensures Without(ks, busy) == ks
  {
    if ks != [] {
      FirstSplit(ks);
      WithoutNothing(ks[1..], busy);
    }
  }

  lemma {:induction false} WithoutAll(ks: seq<Key>, busy: set<Key>)
    requires forall k :: k in ks ==> k in busy
    ensures Without(ks, busy) == []
  {
    if ks != [] {
      WithoutAll(ks[1..], busy);
    }
  }

  lemma DistinctSplit<T>(s: seq<T>, n: nat)
    requires Distinct(s) && n <= |s|
    ensures forall x :: x in s[n..] ==> x !in Elements(s[..n])
    ensures forall x :: x in s[..n] ==> x in Elements(s[..n])
    ensures s == s[..n] + s[n..]
  {
    forall x | x in s[n..] ensures x !in s[..n] {
      var j :| n <= j < |s| && s[j] == x;
      assert forall i :: 0 <= i < n ==> s[i] != s[j];
    }
  }

  /** Leaving out the first `n` of distinct keys leaves the others. */
  lemma WithoutPrefix(ks: seq<Key>, n: nat)
    requires Distinct(ks) && n <= |ks|
    ensures Without(ks, Elements(ks[..n])) == ks[n..]
  {
    var front, back, busy := ks[..n], ks[n..], Elements(ks[..n]);
    DistinctSplit(ks, n);
    WithoutConcat(front, back, busy);
    WithoutAll(front, busy);
    WithoutNothing(back, busy);
  }

  /** Taking the next `capacity` of distinct keys after the first `n`. */
  lemma TakeNext(ks: seq<Key>, n: nat, capacity: nat)
    requires Distinct(ks)
    ensures Take(n, ks) + Take(capacity, Without(ks, Elements(Take(n, ks)))) == Take(n + capacity, ks)
  {
    hide Without, Elements, Distinct;
    var m := |Take(n, ks)|;
    assert Take(n, ks) == ks[..m];
    WithoutPrefix(ks, m);
  }

  lemma PieceKeysDistinct(t: Torrent, piece: nat)
    requires t.Valid()
    ensures Distinct(PieceKeys(t, piece))
  {
  }

  /** Planning calls go through the blocks of the piece in order, each block once. */
  lemma {:induction false} PlannedIsPrefix(t: Torrent, piece: nat, capacities: seq<nat>)
    requires t.Valid()
    ensures Planned(t, piece, capacities) == Take(Sum(capacities), PieceKeys(t, piece))
  {
    if capacities != [] {
      hide Take, Without, Elements, Distinct, KeysFrom, IsBlock;
      var front := capacities[..|capacities| - 1];
      PlannedIsPrefix(t, piece, front);
      PieceKeysDistinct(t, piece);
      TakeNext(PieceKeys(t, piece), Sum(front), capacities[|capacities| - 1]);
    } else {
      TakeNone(PieceKeys(t, piece));
    }
  }

  lemma TakeNone<T>(s: seq<T>)
    ensures Take(0, s) == []
  {
  }

  // ------------------------------------------------------------------ the requests themselves

  /** One planning call: whom it asks, and for how many blocks at most. */
  datatype Call = Call(peer: PeerId, capacity: nat)

  function Capacities(calls: seq<Call>): (ns: seq<nat>)
    ensures |ns| == |calls| && forall i :: 0 <= i < |calls| ==> ns[i] == calls[i].capacity
  {
    seq(|calls|, i requires 0 <= i < |calls| => calls[i].capacity)
  }

  /** The requests of planning calls for a piece, nothing being withdrawn. */
  ghost function PlannedRequests(t: Torrent, piece: nat, calls: seq<Call>): seq<Request>
    requires t.Valid()
  {
    if calls == [] then []
    else
      var before, call := PlannedRequests(t, piece, calls[..|calls| - 1]), calls[|calls| - 1];
      before + RequestsFor(t, call.peer, Plan(t, piece, Elements(KeysOf(before)), call.capacity))
  }

  /** The ranges of bytes that answer the requests. */
  function Asked(rs: seq<Request>): (ss: seq<Slice>)
    ensures |ss| == |rs| && forall i :: 0 <= i < |rs| ==> ss[i] == Slice(rs[i].begin, rs[i].begin + rs[i].length)
  {
    seq(|rs|, i requires 0 <= i < |rs| => Slice(rs[i].begin, rs[i].begin + rs[i].length))
  }

  ghost predicate AsksBlock(t: Torrent, piece: nat, r: Request)
    requires t.Valid()
  {
    r.index == piece && IsBlock(t, r.Block()) && r == RequestFor(t, r.peer, r.Block())
  }

  lemma {:induction false} PlannedRequestsAre(t: Torrent, piece: nat, calls: seq<Call>)
    requires t.Valid()
    ensures KeysOf(PlannedRequests(t, piece, calls)) == Planned(t, piece, Capacities(calls))
    ensures forall r :: r in PlannedRequests(t, piece, calls) ==> AsksBlock(t, piece, r)
  {
    if calls != [] {
      hide Plan, Elements, BlockLength;
      var front, call := calls[..|calls| - 1], calls[|calls| - 1];
      PlannedRequestsAre(t, piece, front);
      assert Capacities(calls)[..|calls| - 1] == Capacities(front);
      var before := PlannedRequests(t, piece, front);
      var ks := Plan(t, piece, Elements(KeysOf(before)), call.capacity);
      RequestsAskExactly(t, call.peer, ks);
      KeysOfConcat(before, RequestsFor(t, call.peer, ks));
      forall r | r in RequestsFor(t, call.peer, ks) ensures AsksBlock(t, piece, r) {
        var i :| 0 <= i < |ks| && r == RequestFor(t, call.peer, ks[i]);
        assert ks[i] in ks;
      }
    }
  }

  lemma KeysOfConcat(a: seq<Request>, b: seq<Request>)
    ensures KeysOf(a + b) == KeysOf(a) + KeysOf(b)
  {
  }

  lemma AskedAreSlices(t: Torrent, piece: nat, rs: seq<Request>)
    requires t.Valid() && forall r :: r in rs ==> AsksBlock(t, piece, r)
    ensures forall k :: k in KeysOf(rs) ==> k.piece == piece && IsBlock(t, k)
    ensures Asked(rs) == Slices(t, KeysOf(rs))
  {
    hide IsBlock, BlockLength;
    forall i | 0 <= i < |rs| ensures AsksBlock(t, piece, rs[i]) {
      assert rs[i] in rs;
    }
  }

  /** Requests that arrive in another order still ask for different blocks. */
  lemma KeysStayDistinct(a: seq<Request>, b: seq<Request>)
    requires Distinct(KeysOf(a)) && multiset(a) == multiset(b)
    ensures Distinct(KeysOf(b))
  {
    forall i, j | 0 <= i < j < |a| ensures a[i] != a[j] {
      assert KeysOf(a)[i] != KeysOf(a)[j];
    }
    PermutationDistinct(a, b);
    forall i, j | 0 <= i < j < |b| ensures KeysOf(b)[i] != KeysOf(b)[j] {
      assert b[i] in multiset(a) && b[j] in multiset(a);
      var m, n :| 0 <= m < |a| && 0 <= n < |a| && a[m] == b[i] && a[n] == b[j];
      assert KeysOf(a)[m] == KeysOf(b)[i] && KeysOf(a)[n] == KeysOf(b)[j];
    }
  }

  /** Different requests, answered as they were asked for, complete the piece exactly when they are for all its blocks. */
  lemma AskedComplete(t: Torrent, piece: nat, rs: seq<Request>)
    requires t.Valid() && Distinct(KeysOf(rs)) && forall r :: r in rs ==> AsksBlock(t, piece, r)
    ensures IsComplete(Run(Asked(rs)), PieceSize(t, piece)) <==> |rs| == |PieceKeys(t, piece)|
  {
    hide IsComplete, Run, PieceSize, PieceKeys, AsksBlock, Distinct;
    AskedAreSlices(t, piece, rs);
    DistinctBlocksComplete(t, piece, KeysOf(rs));
  }

  /** Planning calls ask for different blocks, as many as their capacities allow and the piece has. */
  lemma PlannedRequestsDistinct(t: Torrent, piece: nat, calls: seq<Call>)
    requires t.Valid()
    ensures Distinct(KeysOf(PlannedRequests(t, piece, calls)))
    ensures forall r :: r in PlannedRequests(t, piece, calls) ==> AsksBlock(t, piece, r)
    ensures |PlannedRequests(t, piece, calls)| ==
              if Sum(Capacities(calls)) < |PieceKeys(t, piece)| then Sum(Capacities(calls)) else |PieceKeys(t, piece)|
  {
    hide Distinct, AsksBlock, PlannedRequests, Planned, PieceKeys, Sum, Take;
    PlannedRequestsAre(t, piece, calls);
    PlannedIsPrefix(t, piece, Capacities(calls));
    PieceKeysDistinct(t, piece);
    TakeDistinct(Sum(Capacities(calls)), PieceKeys(t, piece));
  }

  lemma Permuted(t: Torrent, piece: nat, a: seq<Request>, b: seq<Request>, n: nat)
    requires t.Valid() && multiset(a) == multiset(b) && n <= |b|
    requires Distinct(KeysOf(a)) && forall r :: r in a ==> AsksBlock(t, piece, r)
    ensures |b| == |a| && Distinct(KeysOf(b[..n])) && forall r :: r in b[..n] ==> AsksBlock(t, piece, r)
  {
    KeysStayDistinct(a, b);
    hide AsksBlock;
    forall r | r in b[..n] ensures AsksBlock(t, piece, r) {
      assert r in multiset(b);
    }
    DistinctPrefix(KeysOf(b), n);
    assert KeysOf(b[..n]) == KeysOf(b)[..n];
    assert |b| == |multiset(b)| == |a|;
  }

  /**
   The planner and the tracker agree: if what a sequence of planning calls asked for arrives,
   each request once and as long as it was asked for, in any order, the tracker reports
   completion on the last block of the piece and on no earlier one.
   */
  lemma PlannedBlocksComplete(t: Torrent, piece: nat, calls: seq<Call>, arrived: seq<Request>, n: nat)
    requires t.Valid()
    requires multiset(arrived) == multiset(PlannedRequests(t, piece, calls))
    requires n <= |arrived|
    ensures IsComplete(Run(Asked(arrived[..n])), PieceSize(t, piece)) <==>
              n == |arrived| && Sum(Capacities(calls)) >= |PieceKeys(t, piece)|
  {
    hide PieceKeys, PlannedRequests, IsComplete, Run, Sum, PieceSize, AsksBlock, Distinct, Asked, KeysOf;
    PlannedRequestsDistinct(t, piece, calls);
    Permuted(t, piece, PlannedRequests(t, piece, calls), arrived, n);
    AskedComplete(t, piece, arrived[..n]);
  }

  lemma TakeDistinct<T>(n: nat, s: seq<T>)
    requires Distinct(s)
    ensures Distinct(Take(n, s)) && |Take(n, s)| == if n < |s| then n else |s|
  {
  }

  lemma DistinctPrefix<T>(s: seq<T>, n: nat)
    requires Distinct(s) && n <= |s|
    ensures Distinct(s[..n])
  {
  }

  lemma PermutationDistinct<T>(a: seq<T>, b: seq<T>)
    requires Distinct(a) && multiset(a) == multiset(b)
    ensures Distinct(b)
  {
    DistinctSize(a);
    assert |b| == |multiset(b)| == |a|;
    forall x ensures x in a <==> x in b {
      assert x in multiset(a) <==> x in multiset(b);
    }
    assert Elements(b) == Elements(a);
    SizeDistinct(b);
  }

  lemma {:induction false} SizeDistinct<T>(s: seq<T>)
    ensures |Elements(s)| <= |s|
    ensures |Elements(s)| == |s| ==> Distinct(s)
  {
    if s != [] {
      var front := s[..|s| - 1];
      SizeDistinct(front);
      var last := s[|s| - 1];
      assert Elements(s) == Elements(front) + {last};
      assert last in front ==> Elements(s) == Elements(front);
    }
  }
}
