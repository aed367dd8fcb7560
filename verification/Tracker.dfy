/**
 `PieceBlockTracker` of src/peer/state/piece.rs: which blocks of which pieces are being
 downloaded or done, which requests have expired, and which blocks to ask for next.

 `State` is the tracker's value, with one function per operation; the class
 `PieceBlockTracker` performs the operations in place and is proved to compute them.
 Clock readings and the peer that a hash set yields first are parameters.
 */
module Tracker {
  import opened Common
  import opened Torrents
  import opened Blocks

  /** Requests by piece, then by the offset of the block (`HashMap<u32, BTreeMap<u32, _>>`). */
  type RequestMap = map<nat, map<nat, Request>>

  predicate Holds(m: RequestMap, k: Key) {
    k.piece in m && k.begin in m[k.piece]
  }

  function Lookup(m: RequestMap, k: Key): Request
    requires Holds(m, k)
  {
    m[k.piece][k.begin]
  }

  function Keys(m: RequestMap): (ks: set<Key>)
    ensures forall k :: k in ks <==> Holds(m, k)
  {
    set p, b | p in m && b in m[p] :: Key(p, b)
  }

  function Put(m: RequestMap, k: Key, r: Request): (m': RequestMap)
    ensures forall j :: Holds(m', j) <==> j == k || Holds(m, j)
    ensures forall j :: Holds(m', j) ==> Lookup(m', j) == if j == k then r else Lookup(m, j)
    ensures m'.Keys == m.Keys + {k.piece}
  {
    m[k.piece := (if k.piece in m then m[k.piece] else map[])[k.begin := r]]
  }

  function Drop(m: RequestMap, k: Key): (m': RequestMap)
    ensures forall j :: Holds(m', j) <==> j != k && Holds(m, j)
    ensures forall j :: Holds(m', j) ==> Lookup(m', j) == Lookup(m, j)
    ensures m'.Keys == m.Keys
  {
    if k.piece in m then m[k.piece := m[k.piece] - {k.begin}] else m
  }

  function DropPiece(m: RequestMap, piece: nat): (m': RequestMap)
    ensures forall j :: Holds(m', j) <==> j.piece != piece && Holds(m, j)
    ensures forall j :: Holds(m', j) ==> Lookup(m', j) == Lookup(m, j)
  {
    m - {piece}
  }

  function PutAll(m: RequestMap, rs: seq<Request>): RequestMap {
    if rs == [] then m else Put(PutAll(m, rs[..|rs| - 1]), rs[|rs| - 1].Block(), rs[|rs| - 1])
  }

  datatype Expiration = Expiration(at: nat, key: Key)

  datatype State = State(
    maxOutstanding: nat,
    timeout: nat,
    notStarted: set<nat>,
    downloading: RequestMap,
    done: RequestMap,
    expirations: seq<Expiration>,
    completed: set<nat>)
  {
    /** The blocks that planning must not ask for again. */
    function Busy(): set<Key> {
      Keys(downloading) + Keys(done)
    }

    predicate WithinCapacity() {
      |Keys(downloading)| <= maxOutstanding
    }

    /** The pieces with an entry, even an empty one, in one of the two maps. */
    function Started(): set<nat> {
      downloading.Keys + done.Keys
    }

    function Incomplete(): set<nat> {
      Started() + notStarted
    }
  }

  function Upto(n: nat): (ps: set<nat>)
    ensures forall p: nat :: p in ps <==> p < n
  {
    if n == 0 then {} else Upto(n - 1) + {n - 1}
  }

  function Fresh(maxOutstanding: nat, timeout: nat, pieces: nat): State {
    State(maxOutstanding, timeout, Upto(pieces), map[], map[], [], {})
  }

  // ------------------------------------------------------------------ operations on values

  function RequestRemoved(s: State, k: Key): State {
    s.(downloading := Drop(s.downloading, k))
  }

  function RequestFinished(s: State, k: Key): State {
    if Holds(s.downloading, k) then
      s.(downloading := Drop(s.downloading, k), done := Put(s.done, k, Lookup(s.downloading, k)))
    else s
  }

  function PieceFinished(s: State, piece: nat): State {
    s.(downloading := DropPiece(s.downloading, piece),
    done := DropPiece(s.done, piece),
    completed := s.completed + {piece})
  }

  /** How many of the oldest entries have reached the age `ttl`. */
  function Aged(q: seq<Expiration>, now: nat, ttl: nat): (n: nat)
    ensures n <= |q|
    ensures forall i :: 0 <= i < n ==> Lived(q[i], now) >= ttl
    ensures n < |q| ==> Lived(q[n], now) < ttl
  {
    if q == [] || Lived(q[0], now) < ttl then 0 else 1 + Aged(q[1..], now, ttl)
  }

  function Lived(e: Expiration, now: nat): nat {
    if now < e.at then 0 else now - e.at
  }

  /** Drops the blocks of the entries of `q`, and collects the requests dropped. */
  function Swept(m: RequestMap, q: seq<Expiration>): (RequestMap, seq<Request>) {
    if q == [] then (m, [])
    else
      var (m', acc) := Swept(m, q[..|q| - 1]);
      var k := q[|q| - 1].key;
      if Holds(m', k) then (Drop(m', k), acc + [Lookup(m', k)]) else (m', acc)
  }

  function Expired(s: State, now: nat): State {
    var n := Aged(s.expirations, now, s.timeout);
    s.(downloading := Swept(s.downloading, s.expirations[..n]).0, expirations := s.expirations[n..])
  }

  function ExpiredRequests(s: State, now: nat): seq<Request> {
    Swept(s.downloading, s.expirations[..Aged(s.expirations, now, s.timeout)]).1
  }

  /** The blocks that `assign_piece` asks for. */
  function AssignedKeys(t: Torrent, s: State, piece: nat, peer: Option<PeerId>): (ks: seq<Key>)
    requires t.Valid() && s.WithinCapacity()
    ensures forall k :: k in ks ==> k.piece == piece && IsBlock(t, k) && k !in s.Busy()
    ensures |ks| <= s.maxOutstanding - |Keys(s.downloading)|
  {
    if peer.None? then [] else Plan(t, piece, s.Busy(), s.maxOutstanding - |Keys(s.downloading)|)
  }

  function AssignedRequests(t: Torrent, s: State, piece: nat, peer: Option<PeerId>): seq<Request>
    requires t.Valid() && s.WithinCapacity()
  {
    if peer.None? then [] else RequestsFor(t, peer.value, AssignedKeys(t, s, piece, peer))
  }

  function Entries(rs: seq<Request>, now: nat): (q: seq<Expiration>)
    ensures |q| == |rs| && forall i :: 0 <= i < |q| ==> q[i] == Expiration(now, rs[i].Block())
  {
    seq(|rs|, i requires 0 <= i < |rs| => Expiration(now, rs[i].Block()))
  }

  /** The state once the requests `rs` for blocks of `piece` are recorded. */
  function Recorded(s: State, piece: nat, rs: seq<Request>, now: nat): State {
    s.(notStarted := if rs == [] then s.notStarted else s.notStarted - {piece},
    downloading := PutAll(s.downloading, rs),
    expirations := s.expirations + Entries(rs, now))
  }

  function Assigned(t: Torrent, s: State, piece: nat, peer: Option<PeerId>, now: nat): State
    requires t.Valid() && s.WithinCapacity()
  {
    Recorded(s, piece, AssignedRequests(t, s, piece, peer), now)
  }

  // ------------------------------------------------------------------ what the operations do to blocks

  lemma {:induction false} PutAllHolds(m: RequestMap, rs: seq<Request>, k: Key)
    ensures Holds(PutAll(m, rs), k) <==> Holds(m, k) || exists r :: r in rs && r.Block() == k
    ensures Holds(m, k) && (forall r :: r in rs ==> r.Block() != k) ==> Lookup(PutAll(m, rs), k) == Lookup(m, k)
    ensures Holds(PutAll(m, rs), k) && !Holds(m, k) ==>
              Lookup(PutAll(m, rs), k) in rs && Lookup(PutAll(m, rs), k).Block() == k
  {
    if rs != [] {
      PutAllHolds(m, rs[..|rs| - 1], k);
      assert rs == rs[..|rs| - 1] + [rs[|rs| - 1]];
    }
  }

  lemma {:induction false} PutAllPieces(m: RequestMap, rs: seq<Request>, piece: nat)
    requires forall r :: r in rs ==> r.index == piece
    ensures PutAll(m, rs).Keys == if rs == [] then m.Keys else m.Keys + {piece}
  {
    if rs != [] {
      PutAllPieces(m, rs[..|rs| - 1], piece);
    }
  }

  lemma {:induction false} SweptHolds(m: RequestMap, q: seq<Expiration>, k: Key)
    ensures Holds(Swept(m, q).0, k) <==> Holds(m, k) && forall e :: e in q ==> e.key != k
    ensures Holds(Swept(m, q).0, k) ==> Lookup(Swept(m, q).0, k) == Lookup(m, k)
    ensures Swept(m, q).0.Keys == m.Keys
  {
    if q != [] {
      SweptHolds(m, q[..|q| - 1], k);
      assert q == q[..|q| - 1] + [q[|q| - 1]];
    }
  }

  /** The collected requests are those of the blocks that were dropped. */
  lemma {:induction false} SweptCollects(m: RequestMap, q: seq<Expiration>, r: Request)
    ensures r in Swept(m, q).1 <==>
              exists e :: e in q && Holds(m, e.key) && r == Lookup(m, e.key)
  {
    if q != [] {
      var front, last := q[..|q| - 1], q[|q| - 1];
      SweptCollects(m, front, r);
      SweptHolds(m, front, last.key);
      assert q == front + [last];
    }
  }

  /** Recording `assign_piece` adds exactly the blocks it asks for. */
  lemma AssignedHolds(t: Torrent, s: State, piece: nat, peer: Option<PeerId>, now: nat, k: Key)
    requires t.Valid() && s.WithinCapacity()
    ensures var s' := Assigned(t, s, piece, peer, now);
            && (Holds(s'.downloading, k) <==> Holds(s.downloading, k) || k in AssignedKeys(t, s, piece, peer))
            && (Holds(s.downloading, k) ==> Lookup(s'.downloading, k) == Lookup(s.downloading, k))
            && (k in AssignedKeys(t, s, piece, peer) ==>
                  peer.Some? && Lookup(s'.downloading, k) == RequestFor(t, peer.value, k))
            && s'.done == s.done && s'.completed == s.completed
  {
    hide Keys, Plan, PutAll;
    var ks := AssignedKeys(t, s, piece, peer);
    var rs := AssignedRequests(t, s, piece, peer);
    PutAllHolds(s.downloading, rs, k);
    assert |rs| == |ks| && forall i :: 0 <= i < |ks| ==> rs[i].Block() == ks[i];
    if k in ks {
      var i :| 0 <= i < |ks| && ks[i] == k;
      assert rs[i] in rs;
    }
  }

  /** Each request collected makes the map one block smaller, so none is collected twice. */
  lemma {:induction false} SweptCounts(m: RequestMap, q: seq<Expiration>)
    ensures |Swept(m, q).1| + |Keys(Swept(m, q).0)| == |Keys(m)|
  {
    hide Keys, Drop;
    if q != [] {
      var front, k := q[..|q| - 1], q[|q| - 1].key;
      SweptCounts(m, front);
      var m' := Swept(m, front).0;
      if Holds(m', k) {
        assert Keys(Drop(m', k)) == Keys(m') - {k};
      }
    }
  }

  /** What an expiry check reports is what it drops, each request once. */
  lemma ExpiredReported(s: State, now: nat, r: Request)
    requires forall k :: Holds(s.downloading, k) ==> Lookup(s.downloading, k).Block() == k
    ensures var s', rs := Expired(s, now), ExpiredRequests(s, now);
            && (r in rs <==> Holds(s.downloading, r.Block()) && r == Lookup(s.downloading, r.Block()) && !Holds(s'.downloading, r.Block()))
            && |rs| == |Keys(s.downloading)| - |Keys(s'.downloading)|
  {
    hide Swept, Aged, Keys;
    var q := s.expirations[..Aged(s.expirations, now, s.timeout)];
    SweptCollects(s.downloading, q, r);
    SweptHolds(s.downloading, q, r.Block());
    SweptCounts(s.downloading, q);
  }

  // ------------------------------------------------------------------ runs

  /** One operation on the tracker; `Assign` names the peer that the hash set yields first. */
  datatype Op =
    | Assign(piece: nat, peer: Option<PeerId>)
    | FinishRequest(key: Key)
    | FinishPiece(piece: nat)
    | RemoveRequest(key: Key)
    | Expire

  datatype Event = Event(now: nat, op: Op)

  function Step(t: Torrent, s: State, e: Event): State
    requires t.Valid() && s.WithinCapacity()
  {
    match e.op
    case Assign(piece, peer) => Assigned(t, s, piece, peer, e.now)
    case FinishRequest(k) => RequestFinished(s, k)
    case FinishPiece(piece) => PieceFinished(s, piece)
    case RemoveRequest(k) => RequestRemoved(s, k)
    case Expire => Expired(s, e.now)
  }

  /** The blocks that an event asks for. */
  function Issued(t: Torrent, s: State, e: Event): seq<Key>
    requires t.Valid() && s.WithinCapacity()
  {
    if e.op.Assign? then AssignedKeys(t, s, e.op.piece, e.op.peer) else []
  }

  /** The event gives up a block that was being downloaded, without the block having arrived. */
  ghost predicate Withdraws(s: State, e: Event, k: Key) {
    Holds(s.downloading, k) &&
    match e.op
    case RemoveRequest(j) => j == k
    case Expire => !Holds(Expired(s, e.now).downloading, k)
    case _ => false
  }

  /** Requests are filed under their own piece and offset, and are for exact blocks. */
  ghost predicate Filed(t: Torrent, m: RequestMap)
    requires t.Valid()
  {
    forall k :: Holds(m, k) ==> IsBlock(t, k) && Lookup(m, k) == RequestFor(t, Lookup(m, k).peer, k)
  }

  ghost predicate Queued(s: State, k: Key) {
    exists e :: e in s.expirations && e.key == k
  }

  ghost predicate Inv(t: Torrent, s: State)
    requires t.Valid()
  {
    && s.WithinCapacity()
    && Filed(t, s.downloading) && Filed(t, s.done)
    && (forall k :: Holds(s.downloading, k) ==> !Holds(s.done, k))
    && (forall k :: Holds(s.downloading, k) ==> Queued(s, k))
  }

  lemma AssignAddsKeys(t: Torrent, s: State, piece: nat, peer: Option<PeerId>, now: nat)
    requires t.Valid() && s.WithinCapacity()
    ensures Keys(Assigned(t, s, piece, peer, now).downloading) ==
              Keys(s.downloading) + Elements(AssignedKeys(t, s, piece, peer))
  {
    hide Assigned, AssignedKeys;
    forall k
      ensures k in Keys(Assigned(t, s, piece, peer, now).downloading) <==>
              k in Keys(s.downloading) || k in AssignedKeys(t, s, piece, peer)
    {
      AssignedHolds(t, s, piece, peer, now, k);
    }
  }

  lemma AssignedKeysNew(t: Torrent, s: State, piece: nat, peer: Option<PeerId>)
    requires t.Valid() && s.WithinCapacity()
    ensures Distinct(AssignedKeys(t, s, piece, peer))
    ensures Keys(s.downloading) !! Elements(AssignedKeys(t, s, piece, peer))
  {
    PlanDistinct(t, piece, s.Busy(), s.maxOutstanding - |Keys(s.downloading)|);
  }

  /** Assigning uses up capacity, and never more than there is. */
  lemma AssignCapacity(t: Torrent, s: State, piece: nat, peer: Option<PeerId>, now: nat)
    requires t.Valid() && s.WithinCapacity()
    ensures |Keys(Assigned(t, s, piece, peer, now).downloading)| ==
              |Keys(s.downloading)| + |AssignedKeys(t, s, piece, peer)|
    ensures Assigned(t, s, piece, peer, now).WithinCapacity()
  {
    var ks := AssignedKeys(t, s, piece, peer);
    AssignAddsKeys(t, s, piece, peer, now);
    AssignedKeysNew(t, s, piece, peer);
    DistinctSize(ks);
    DisjointSizes(Keys(s.downloading), Elements(ks));
  }

  lemma DisjointSizes<T>(a: set<T>, b: set<T>)
    requires a !! b
    ensures |a + b| == |a| + |b|
  {
  }

  lemma AssignInv(t: Torrent, s: State, piece: nat, peer: Option<PeerId>, now: nat)
    requires t.Valid() && Inv(t, s)
    ensures Inv(t, Assigned(t, s, piece, peer, now))
  {
    var s' := Assigned(t, s, piece, peer, now);
    AssignCapacity(t, s, piece, peer, now);
    forall k | Holds(s'.downloading, k)
      ensures IsBlock(t, k) && Lookup(s'.downloading, k) == RequestFor(t, Lookup(s'.downloading, k).peer, k)
      ensures !Holds(s'.done, k) && Queued(s', k)
    {
      AssignedHolds(t, s, piece, peer, now, k);
      AssignQueues(t, s, piece, peer, now, k);
    }
  }

  lemma AssignQueues(t: Torrent, s: State, piece: nat, peer: Option<PeerId>, now: nat, k: Key)
    requires t.Valid() && s.WithinCapacity()
    ensures k in AssignedKeys(t, s, piece, peer) ==>
              Expiration(now, k) in Assigned(t, s, piece, peer, now).expirations
    ensures forall e :: e in s.expirations ==> e in Assigned(t, s, piece, peer, now).expirations
  {
    hide PutAll, Plan, RequestsFor;
    var ks := AssignedKeys(t, s, piece, peer);
    if k in ks {
      var i :| 0 <= i < |ks| && ks[i] == k;
      assert Assigned(t, s, piece, peer, now).expirations[|s.expirations| + i] == Expiration(now, k);
    }
  }

  lemma ExpireInv(t: Torrent, s: State, now: nat)
    requires t.Valid() && Inv(t, s)
    ensures Inv(t, Expired(s, now))
  {
    hide Swept, Aged;
    var s' := Expired(s, now);
    var n := Aged(s.expirations, now, s.timeout);
    forall k | Holds(s'.downloading, k)
      ensures Holds(s.downloading, k) && Lookup(s'.downloading, k) == Lookup(s.downloading, k)
      ensures Queued(s', k)
    {
      SweptHolds(s.downloading, s.expirations[..n], k);
      var e :| e in s.expirations && e.key == k;
      assert s.expirations == s.expirations[..n] + s.expirations[n..];
    }
    SetSizes(Keys(s'.downloading), Keys(s.downloading));
  }

  lemma DropInv(t: Torrent, s: State, k: Key)
    requires t.Valid() && Inv(t, s)
    ensures Inv(t, RequestRemoved(s, k))
  {
    hide RequestFor, IsBlock;
    SetSizes(Keys(RequestRemoved(s, k).downloading), Keys(s.downloading));
  }

  lemma DropShrinks(s: State, k: Key)
    requires Holds(s.downloading, k) && !Holds(s.done, k)
    ensures k !in RequestRemoved(s, k).Busy() && |Keys(RequestRemoved(s, k).downloading)| < |Keys(s.downloading)|
  {
    assert Keys(RequestRemoved(s, k).downloading) == Keys(s.downloading) - {k};
  }

  lemma FinishRequestInv(t: Torrent, s: State, k: Key)
    requires t.Valid() && Inv(t, s)
    ensures Inv(t, RequestFinished(s, k))
  {
    hide RequestFor, IsBlock;
    SetSizes(Keys(RequestFinished(s, k).downloading), Keys(s.downloading));
  }

  lemma FinishPieceInv(t: Torrent, s: State, piece: nat)
    requires t.Valid() && Inv(t, s)
    ensures Inv(t, PieceFinished(s, piece))
  {
    hide RequestFor, IsBlock;
    SetSizes(Keys(PieceFinished(s, piece).downloading), Keys(s.downloading));
  }

  /** Every operation keeps the invariant. */
  lemma StepInv(t: Torrent, s: State, e: Event)
    requires t.Valid() && Inv(t, s)
    ensures Inv(t, Step(t, s, e))
    ensures Step(t, s, e).maxOutstanding == s.maxOutstanding && Step(t, s, e).timeout == s.timeout
  {
    match e.op
    case Assign(piece, peer) =>
      AssignInv(t, s, piece, peer, e.now);
    case FinishRequest(k) =>
      FinishRequestInv(t, s, k);
    case FinishPiece(piece) =>
      FinishPieceInv(t, s, piece);
    case RemoveRequest(k) =>
      DropInv(t, s, k);
    case Expire =>
      ExpireInv(t, s, e.now);
  }

  /** What a tracker is made for: a torrent, a bound on requests in flight, and a time to live. */
  datatype Setup = Setup(torrent: Torrent, maxOutstanding: nat, timeout: nat)

  /** The state of a new tracker after a run of events. */
  ghost function After(c: Setup, es: seq<Event>): (s: State)
    requires c.torrent.Valid()
    ensures Inv(c.torrent, s)
    ensures s.maxOutstanding == c.maxOutstanding && s.timeout == c.timeout
  {
    if es == [] then Fresh(c.maxOutstanding, c.timeout, c.torrent.Pieces())
    else
      var s := After(c, es[..|es| - 1]);
      StepInv(c.torrent, s, es[|es| - 1]);
      Step(c.torrent, s, es[|es| - 1])
  }

  // ------------------------------------------------------------------ requests are conserved

  /** How often a block was asked for, given up, and forgotten because its piece was finished. */
  datatype Ledger = Ledger(issued: nat, withdrawn: nat, cleared: nat)

  ghost function LedgerOf(c: Setup, es: seq<Event>, k: Key): Ledger
    requires c.torrent.Valid()
  {
    if es == [] then Ledger(0, 0, 0)
    else
      var front, e := es[..|es| - 1], es[|es| - 1];
      var s, l := After(c, front), LedgerOf(c, front, k);
      Ledger(
        l.issued + (if k in Issued(c.torrent, s, e) then 1 else 0),
        l.withdrawn + (if Withdraws(s, e, k) then 1 else 0),
        l.cleared + (if e.op == FinishPiece(k.piece) && k in s.Busy() then 1 else 0))
  }

  lemma StepBusy(t: Torrent, s: State, e: Event, k: Key)
    requires t.Valid() && Inv(t, s)
    ensures k in Issued(t, s, e) ==> k !in s.Busy()
    ensures k in Step(t, s, e).Busy() <==>
              || k in Issued(t, s, e)
              || (k in s.Busy() && !Withdraws(s, e, k) && e.op != FinishPiece(k.piece))
  {
    hide Inv, Keys, Assigned, AssignedKeys, Expired;
    InvDisjoint(t, s);
    match e.op
    case Assign(piece, peer) =>
      AssignedHolds(t, s, piece, peer, e.now, k);
    case Expire =>
      ExpiredHolds(s, e.now, k);
    case _ =>
  }

  lemma InvDisjoint(t: Torrent, s: State)
    requires t.Valid() && Inv(t, s)
    ensures s.WithinCapacity()
    ensures forall k :: Holds(s.downloading, k) ==> !Holds(s.done, k)
  {
  }

  lemma ExpiredHolds(s: State, now: nat, k: Key)
    ensures var q := s.expirations[..Aged(s.expirations, now, s.timeout)];
            Holds(Expired(s, now).downloading, k) <==> Holds(s.downloading, k) && forall e :: e in q ==> e.key != k
    ensures Holds(Expired(s, now).downloading, k) ==> Lookup(Expired(s, now).downloading, k) == Lookup(s.downloading, k)
    ensures Expired(s, now).done == s.done && Expired(s, now).completed == s.completed
  {
    SweptHolds(s.downloading, s.expirations[..Aged(s.expirations, now, s.timeout)], k);
  }

  /** Every request for a block is still in flight or done, was withdrawn, or its piece was finished. */
  lemma {:induction false} RequestsConserved(c: Setup, es: seq<Event>, k: Key)
    requires c.torrent.Valid()
    ensures var l := LedgerOf(c, es, k);
            l.issued == l.withdrawn + l.cleared + if k in After(c, es).Busy() then 1 else 0
  {
    if es == [] {
    } else {
      RequestsConserved(c, es[..|es| - 1], k);
      StepBusy(c.torrent, After(c, es[..|es| - 1]), es[|es| - 1], k);
    }
  }

  ghost predicate IssuedAt(c: Setup, es: seq<Event>, i: nat, k: Key)
    requires c.torrent.Valid() && i < |es|
  {
    k in Issued(c.torrent, After(c, es[..i]), es[i])
  }

  ghost predicate WithdrawnAt(c: Setup, es: seq<Event>, i: nat, k: Key)
    requires c.torrent.Valid() && i < |es|
  {
    Withdraws(After(c, es[..i]), es[i], k)
  }

  lemma AfterSnoc(c: Setup, es: seq<Event>, e: Event)
    requires c.torrent.Valid()
    ensures After(c, es + [e]) == Step(c.torrent, After(c, es), e)
  {
    assert (es + [e])[..|es|] == es;
  }

  lemma AfterNext(c: Setup, es: seq<Event>, j: nat)
    requires c.torrent.Valid() && j < |es|
    ensures After(c, es[..j + 1]) == Step(c.torrent, After(c, es[..j]), es[j])
  {
    assert es[..j + 1][..j] == es[..j];
  }

  /** A block asked for twice was withdrawn in between, unless its piece was finished. */
  lemma {:induction false} NoRepeatWithoutWithdrawal(c: Setup, es: seq<Event>, i: nat, j: nat, k: Key)
    requires c.torrent.Valid() && i < j < |es|
    requires IssuedAt(c, es, i, k)
    requires forall m :: i < m < j ==> es[m].op != FinishPiece(k.piece) && !WithdrawnAt(c, es, m, k)
    ensures k in After(c, es[..j]).Busy()
    ensures !IssuedAt(c, es, j, k)
  {
    hide After, Step, Issued, Withdraws, Inv;
    if i < j - 1 {
      NoRepeatWithoutWithdrawal(c, es, i, j - 1, k);
      assert !WithdrawnAt(c, es, j - 1, k);
    }
    AfterNext(c, es, j - 1);
    StepBusy(c.torrent, After(c, es[..j - 1]), es[j - 1], k);
    StepBusy(c.torrent, After(c, es[..j]), es[j], k);
  }

  // ------------------------------------------------------------------ expiry

  ghost predicate MonotoneClock(es: seq<Event>) {
    forall i, j :: 0 <= i < j < |es| ==> es[i].now <= es[j].now
  }

  /** When the request for `k` that is in flight was made. */
  ghost function LastIssued(c: Setup, es: seq<Event>, k: Key): nat
    requires c.torrent.Valid()
  {
    if es == [] then 0
    else if k in Issued(c.torrent, After(c, es[..|es| - 1]), es[|es| - 1]) then es[|es| - 1].now
    else LastIssued(c, es[..|es| - 1], k)
  }

  ghost predicate QueueSorted(q: seq<Expiration>) {
    forall i, j :: 0 <= i < j < |q| ==> q[i].at <= q[j].at
  }

  ghost predicate QueueBefore(q: seq<Expiration>, now: nat) {
    forall i :: 0 <= i < |q| ==> q[i].at <= now
  }

  lemma StepQueueSorted(t: Torrent, s: State, e: Event)
    requires t.Valid() && s.WithinCapacity()
    requires QueueSorted(s.expirations) && QueueBefore(s.expirations, e.now)
    ensures QueueSorted(Step(t, s, e).expirations) && QueueBefore(Step(t, s, e).expirations, e.now)
  {
    hide Swept, PutAll, AssignedRequests, Aged;
  }

  lemma StepKeepsEntry(t: Torrent, s: State, e: Event, k: Key, at: nat)
    requires t.Valid() && s.WithinCapacity()
    requires Holds(s.downloading, k) ==> Expiration(at, k) in s.expirations
    requires Holds(Step(t, s, e).downloading, k)
    ensures Expiration(if k in Issued(t, s, e) then e.now else at, k) in Step(t, s, e).expirations
  {
    hide Plan;
    match e.op
    case Assign(piece, peer) =>
      hide Assigned, AssignedKeys;
      AssignedHolds(t, s, piece, peer, e.now, k);
      AssignQueues(t, s, piece, peer, e.now, k);
    case Expire =>
      hide Swept, Aged;
      ExpiredHolds(s, e.now, k);
      var n := Aged(s.expirations, e.now, s.timeout);
      assert s.expirations == s.expirations[..n] + s.expirations[n..];
    case _ =>
  }

  lemma MonotoneFront(es: seq<Event>)
    requires MonotoneClock(es) && es != []
    ensures MonotoneClock(es[..|es| - 1])
    ensures |es| > 1 ==> es[..|es| - 1][|es| - 2].now <= es[|es| - 1].now
  {
  }

  /** With a monotone clock the queue is in order of time and knows the age of every request in flight. */
  lemma {:induction false} QueueKeepsTime(c: Setup, es: seq<Event>)
    requires c.torrent.Valid() && MonotoneClock(es)
    ensures QueueSorted(After(c, es).expirations)
    ensures if es == [] then After(c, es).expirations == [] else QueueBefore(After(c, es).expirations, es[|es| - 1].now)
    ensures forall k :: Holds(After(c, es).downloading, k) ==>
              Expiration(LastIssued(c, es, k), k) in After(c, es).expirations
  {
    hide Inv, Step, Issued, MonotoneClock, QueueSorted;
    if es == [] {
      assert QueueSorted([]) by {
        EmptySorted();
      }
    } else {
      var front, e := es[..|es| - 1], es[|es| - 1];
      var s := After(c, front);
      MonotoneFront(es);
      QueueKeepsTime(c, front);
      InvDisjoint(c.torrent, s);
      StepQueueSorted(c.torrent, s, e);
      forall k | Holds(After(c, es).downloading, k)
        ensures Expiration(LastIssued(c, es, k), k) in After(c, es).expirations
      {
        StepKeepsEntry(c.torrent, s, e, k, LastIssued(c, front, k));
      }
    }
  }

  lemma EmptySorted()
    ensures QueueSorted([])
  {
  }

  /** What is left in flight after an expiry check has no old entry. */
  lemma ExpiredYoung(s: State, now: nat, k: Key, e: Expiration)
    requires QueueSorted(s.expirations) && e in s.expirations && e.key == k
    requires Holds(s.downloading, k)
    ensures Lived(e, now) >= s.timeout ==> !Holds(Expired(s, now).downloading, k)
  {
    hide Swept, Expired;
    ExpiredHolds(s, now, k);
    var n := Aged(s.expirations, now, s.timeout);
    var i :| 0 <= i < |s.expirations| && s.expirations[i] == e;
    assert i < n ==> s.expirations[..n][i] == e;
    assert n < i ==> s.expirations[n].at <= e.at;
  }

  /** After an expiry check every block still in flight is younger than the time to live, and nothing done is touched. */
  lemma YoungAfterExpiry(c: Setup, es: seq<Event>, now: nat)
    requires c.torrent.Valid() && MonotoneClock(es + [Event(now, Expire)])
    ensures var s := After(c, es + [Event(now, Expire)]);
            && s.done == After(c, es).done && s.completed == After(c, es).completed
            && forall k :: Holds(s.downloading, k) ==>
                 && Holds(After(c, es).downloading, k)
                 && now < LastIssued(c, es, k) + c.timeout
  {
    hide Inv, MonotoneClock, QueueSorted, Swept, Aged, LastIssued;
    var all := es + [Event(now, Expire)];
    assert all[..|all| - 1] == es;
    MonotoneFront(all);
    QueueKeepsTime(c, es);
    var s := After(c, es);
    assert After(c, all) == Expired(s, now);
    forall k | Holds(After(c, all).downloading, k)
      ensures Holds(s.downloading, k) && now < LastIssued(c, es, k) + c.timeout
    {
      ExpiredHolds(s, now, k);
      ExpiredYoung(s, now, k, Expiration(LastIssued(c, es, k), k));
    }
  }

  /** A block expires exactly when some entry for it, even one of an earlier request, is old enough. */
  lemma ExpiresIff(c: Setup, es: seq<Event>, now: nat, k: Key)
    requires c.torrent.Valid() && MonotoneClock(es)
    requires Holds(After(c, es).downloading, k)
    ensures Withdraws(After(c, es), Event(now, Expire), k) <==>
              exists e :: e in After(c, es).expirations && e.key == k && (c.timeout == 0 || e.at + c.timeout <= now)
  {
    hide After, Inv, Swept, LastIssued, Expired, QueueSorted;
    QueueKeepsTime(c, es);
    var s := After(c, es);
    ExpiredHolds(s, now, k);
    forall e | e in s.expirations && e.key == k
      ensures Lived(e, now) >= c.timeout ==> !Holds(Expired(s, now).downloading, k)
    {
      ExpiredYoung(s, now, k, e);
    }
    var n := Aged(s.expirations, now, s.timeout);
    forall e | e in s.expirations[..n] ensures e in s.expirations && Lived(e, now) >= c.timeout {
      var i :| 0 <= i < n && s.expirations[i] == e;
    }
  }

  /** The entry of the request made by event `i` is no longer young when the queue is checked at `now`. */
  predicate Old(c: Setup, es: seq<Event>, i: nat, now: nat)
    requires i < |es|
  {
    es[i].now + c.timeout <= now
  }

  /** No check after event `i` found its entry old, so the entry is still queued. */
  ghost predicate NeverOld(c: Setup, es: seq<Event>, i: nat)
    requires i < |es|
  {
    forall j :: i < j < |es| && es[j].op.Expire? ==> !Old(c, es, i, es[j].now)
  }

  /** What an operation does to the entries of a block. */
  lemma StepEntries(t: Torrent, s: State, e: Event, k: Key, at: nat)
    requires t.Valid() && s.WithinCapacity()
    requires QueueSorted(s.expirations) && QueueBefore(s.expirations, e.now)
    ensures Expiration(at, k) in Step(t, s, e).expirations <==>
              || (Expiration(at, k) in s.expirations && !(e.op.Expire? && at + s.timeout <= e.now))
              || (k in Issued(t, s, e) && at == e.now)
  {
    match e.op
    case Assign(piece, peer) =>
      AssignedEntries(t, s, piece, peer, e.now, k, at);
    case Expire =>
      ExpiredEntries(s, e.now, Expiration(at, k));
    case _ =>
  }

  lemma AssignedEntries(t: Torrent, s: State, piece: nat, peer: Option<PeerId>, now: nat, k: Key, at: nat)
    requires t.Valid() && s.WithinCapacity()
    ensures Expiration(at, k) in Assigned(t, s, piece, peer, now).expirations <==>
              || Expiration(at, k) in s.expirations
              || (k in AssignedKeys(t, s, piece, peer) && at == now)
  {
    hide PutAll, Plan, BlockLength, IsBlock;
    var ks, rs := AssignedKeys(t, s, piece, peer), AssignedRequests(t, s, piece, peer);
    var q := Entries(rs, now);
    assert |q| == |ks| && forall i :: 0 <= i < |ks| ==> q[i] == Expiration(now, ks[i]);
    if k in ks {
      var i :| 0 <= i < |ks| && ks[i] == k;
      assert q[i] in q;
    }
    if Expiration(at, k) in q {
      var i :| 0 <= i < |q| && q[i] == Expiration(at, k);
      assert ks[i] in ks;
    }
  }

  lemma AgedSplit(q: seq<Expiration>, n: nat, now: nat, ttl: nat, e: Expiration)
    requires QueueSorted(q) && QueueBefore(q, now) && n <= |q|
    requires forall i :: 0 <= i < n ==> Lived(q[i], now) >= ttl
    requires n < |q| ==> Lived(q[n], now) < ttl
    ensures e in q[n..] <==> e in q && !(e.at + ttl <= now)
  {
    assert q == q[..n] + q[n..];
    forall i | 0 <= i < |q| ensures n <= i <==> !(q[i].at + ttl <= now) {
      assert n < i ==> q[n].at <= q[i].at;
    }
    if e in q[n..] {
      var i :| 0 <= i < |q[n..]| && q[n..][i] == e;
      assert q[n + i] == e;
    }
    if e in q[..n] {
      var i :| 0 <= i < n && q[..n][i] == e;
      assert q[i] == e;
    }
  }

  /** In a sorted queue a check takes out exactly the old entries. */
  lemma ExpiredEntries(s: State, now: nat, e: Expiration)
    requires QueueSorted(s.expirations) && QueueBefore(s.expirations, now)
    ensures e in Expired(s, now).expirations <==> e in s.expirations && !(e.at + s.timeout <= now)
  {
    hide Swept, Aged, QueueSorted, QueueBefore, Lived;
    AgedSplit(s.expirations, Aged(s.expirations, now, s.timeout), now, s.timeout, e);
  }

  lemma MonotoneQueue(c: Setup, es: seq<Event>)
    requires c.torrent.Valid() && MonotoneClock(es) && es != []
    ensures var s := After(c, es[..|es| - 1]);
            QueueSorted(s.expirations) && QueueBefore(s.expirations, es[|es| - 1].now)
  {
    hide After, Inv, LastIssued, QueueSorted;
    MonotoneFront(es);
    QueueKeepsTime(c, es[..|es| - 1]);
  }

  /** The queue is a record of the run: it holds the requests that no check has found old. */
  lemma {:induction false} QueueIsHistory(c: Setup, es: seq<Event>, k: Key, at: nat)
    requires c.torrent.Valid() && MonotoneClock(es)
    ensures Expiration(at, k) in After(c, es).expirations <==>
              exists i :: 0 <= i < |es| && IssuedAt(c, es, i, k) && es[i].now == at && NeverOld(c, es, i)
  {
    hide After, Step, Issued, Inv, QueueSorted, QueueBefore, MonotoneClock;
    if es == [] {
      NothingQueued(c);
    } else {
      var n := |es| - 1;
      var front := es[..n];
      MonotoneQueue(c, es);
      MonotoneFront(es);
      QueueIsHistory(c, front, k, at);
      AfterLast(c, es);
      InvDisjoint(c.torrent, After(c, front));
      StepEntries(c.torrent, After(c, front), es[n], k, at);
      forall i | 0 <= i < n
        ensures IssuedAt(c, es, i, k) <==> IssuedAt(c, front, i, k)
        ensures es[i].now == at ==> (NeverOld(c, es, i) <==> NeverOld(c, front, i) && !(es[n].op.Expire? && at + c.timeout <= es[n].now))
      {
        assert front[..i] == es[..i];
        NeverOldFront(c, es, i);
      }
    }
  }

  lemma NothingQueued(c: Setup)
    requires c.torrent.Valid()
    ensures After(c, []).expirations == []
  {
  }

  lemma AfterLast(c: Setup, es: seq<Event>)
    requires c.torrent.Valid() && es != []
    ensures After(c, es) == Step(c.torrent, After(c, es[..|es| - 1]), es[|es| - 1])
  {
  }

  lemma NeverOldFront(c: Setup, es: seq<Event>, i: nat)
    requires i < |es| - 1
    ensures var n := |es| - 1;
            NeverOld(c, es, i) <==> NeverOld(c, es[..n], i) && !(es[n].op.Expire? && Old(c, es, i, es[n].now))
  {
    var n := |es| - 1;
    assert forall j :: 0 <= j < n ==> es[..n][j] == es[j];
  }

  /**
   Over the whole history: a check drops a block in flight exactly when some request for it,
   even an earlier one that was withdrawn, is old by now and was not found old before.
   */
  lemma ExpiresByHistory(c: Setup, es: seq<Event>, now: nat, k: Key)
    requires c.torrent.Valid() && MonotoneClock(es + [Event(now, Expire)])
    requires Holds(After(c, es).downloading, k)
    ensures !Holds(After(c, es + [Event(now, Expire)]).downloading, k) <==>
              exists i :: 0 <= i < |es| && IssuedAt(c, es, i, k) && Old(c, es, i, now) && NeverOld(c, es, i)
  {
    hide After, Inv, IssuedAt, NeverOld, MonotoneClock, Step, QueueBefore, QueueSorted, Expired;
    var s, all := After(c, es), es + [Event(now, Expire)];
    assert all[..|all| - 1] == es;
    MonotoneFront(all);
    MonotoneQueue(c, all);
    ExpiresIff(c, es, now, k);
    AfterExpire(c, es, now);
    forall at ensures Expiration(at, k) in s.expirations <==>
                        exists i :: 0 <= i < |es| && IssuedAt(c, es, i, k) && es[i].now == at && NeverOld(c, es, i)
    {
      QueueIsHistory(c, es, k, at);
    }
    if e :| e in s.expirations && e.key == k && (c.timeout == 0 || e.at + c.timeout <= now) {
      EntryBefore(s.expirations, e, now);
      assert e == Expiration(e.at, k);
    }
    if i :| 0 <= i < |es| && IssuedAt(c, es, i, k) && Old(c, es, i, now) && NeverOld(c, es, i) {
      assert Expiration(es[i].now, k) in s.expirations;
    }
  }

  lemma EntryBefore(q: seq<Expiration>, e: Expiration, now: nat)
    requires QueueBefore(q, now) && e in q
    ensures e.at <= now
  {
  }

  lemma AfterExpire(c: Setup, es: seq<Event>, now: nat)
    requires c.torrent.Valid()
    ensures After(c, es + [Event(now, Expire)]) == Expired(After(c, es), now)
  {
    hide Inv, Expired;
    assert (es + [Event(now, Expire)])[..|es|] == es;
  }

  /** A block in flight of which every request is younger than the time to live stays in flight. */
  lemma YoungKept(c: Setup, es: seq<Event>, now: nat, k: Key)
    requires c.torrent.Valid() && MonotoneClock(es + [Event(now, Expire)])
    requires Holds(After(c, es).downloading, k)
    requires forall i :: 0 <= i < |es| && IssuedAt(c, es, i, k) ==> now < es[i].now + c.timeout
    ensures Holds(After(c, es + [Event(now, Expire)]).downloading, k)
  {
    hide After, Inv, IssuedAt, NeverOld, MonotoneClock;
    ExpiresByHistory(c, es, now, k);
  }

  /** Ask for the first block, withdraw the request, ask again just before the first entry is old. */
  function AskWithdrawAskAgain(c: Setup, peer: PeerId): seq<Event>
    requires c.timeout > 0
  {
    [Event(0, Assign(0, Some(peer)))] + [Event(0, RemoveRequest(Key(0, 0)))]
    + [Event(c.timeout - 1, Assign(0, Some(peer)))]
  }

  /** Asking for the first block, when there is capacity. */
  lemma AskFirst(c: Setup, es: seq<Event>, peer: PeerId, now: nat)
    requires c.torrent.Valid()
    requires Key(0, 0) !in After(c, es).Busy() && |Keys(After(c, es).downloading)| < c.maxOutstanding
    ensures var k := Key(0, 0); var es' := es + [Event(now, Assign(0, Some(peer)))];
            && Holds(After(c, es').downloading, k)
            && LastIssued(c, es', k) == now
            && (forall e :: e in After(c, es).expirations ==> e in After(c, es').expirations)
            && Expiration(now, k) in After(c, es').expirations
  {
    hide KeysFrom, Plan, Inv, Keys, After, Assigned, AssignedKeys;
    var k, s := Key(0, 0), After(c, es);
    var es' := es + [Event(now, Assign(0, Some(peer)))];
    AfterSnoc(c, es, Event(now, Assign(0, Some(peer))));
    assert es'[..|es|] == es;
    FirstBlockAssigned(c.torrent, s, 0, peer);
    AssignedHolds(c.torrent, s, 0, Some(peer), now, k);
    AssignQueues(c.torrent, s, 0, Some(peer), now, k);
  }

  lemma FirstBlockAssigned(t: Torrent, s: State, piece: nat, peer: PeerId)
    requires t.Valid() && s.WithinCapacity() && s.maxOutstanding > |Keys(s.downloading)|
    requires Key(piece, 0) !in s.Busy()
    ensures Key(piece, 0) in AssignedKeys(t, s, piece, Some(peer))
  {
    hide BlockLength;
    var ks := PieceKeys(t, piece);
    assert ks[0] == Key(piece, 0);
    assert Without(ks, s.Busy())[0] == Key(piece, 0);
  }

  lemma WithdrawFirst(c: Setup, es: seq<Event>, now: nat)
    requires c.torrent.Valid() && Holds(After(c, es).downloading, Key(0, 0))
    ensures var s' := After(c, es + [Event(now, RemoveRequest(Key(0, 0)))]);
            && Key(0, 0) !in s'.Busy() && |Keys(s'.downloading)| < c.maxOutstanding
            && s'.expirations == After(c, es).expirations
  {
    hide After, Inv, Keys;
    AfterSnoc(c, es, Event(now, RemoveRequest(Key(0, 0))));
    InvDisjoint(c.torrent, After(c, es));
    DropShrinks(After(c, es), Key(0, 0));
  }

  /**
   Withdrawing a request leaves its entry in the queue. When the block is asked for again,
   that entry makes it expire early: here the request is given up one clock tick after it was made.
   */
  lemma StaleEntryExpiresEarly(c: Setup, peer: PeerId)
    requires c.torrent.Valid() && c.maxOutstanding > 0 && c.timeout > 0
    ensures var es := AskWithdrawAskAgain(c, peer);
            && MonotoneClock(es + [Event(c.timeout, Expire)])
            && LastIssued(c, es, Key(0, 0)) == c.timeout - 1
            && Withdraws(After(c, es), Event(c.timeout, Expire), Key(0, 0))
  {
    hide Inv, Step, Withdraws, LastIssued;
    var ask := [Event(0, Assign(0, Some(peer)))];
    var withdrawn := ask + [Event(0, RemoveRequest(Key(0, 0)))];
    assert Keys(After(c, []).downloading) == {};
    assert [] + ask == ask;
    AskFirst(c, [], peer, 0);
    hide After;
    WithdrawFirst(c, ask, 0);
    AskFirst(c, withdrawn, peer, c.timeout - 1);
    ExpiresIff(c, AskWithdrawAskAgain(c, peer), c.timeout, Key(0, 0));
  }

  // ------------------------------------------------------------------ no piece is forgotten

  ghost predicate AllPieces(t: Torrent, s: State) {
    s.notStarted + s.Started() + s.completed == Upto(t.Pieces())
  }

  ghost predicate PiecesApart(s: State) {
    s.notStarted !! s.Started() !! s.completed
  }

  /** Events name pieces of the torrent: planning gets them from the tracker, and writing checks them. */
  ghost predicate InRange(t: Torrent, es: seq<Event>) {
    forall e :: e in es ==>
      && (e.op.Assign? ==> e.op.piece < t.Pieces())
      && (e.op.FinishPiece? ==> e.op.piece < t.Pieces())
  }

  /** How an operation moves pieces between not started, started and completed. */
  lemma StepPieces(t: Torrent, s: State, e: Event)
    requires t.Valid() && s.WithinCapacity()
    ensures var s' := Step(t, s, e);
            match e.op
            case Assign(piece, _) =>
              && s'.completed == s.completed
              && (Issued(t, s, e) == [] ==> s'.notStarted == s.notStarted && s'.Started() == s.Started())
              && (Issued(t, s, e) != [] ==>
                    s'.notStarted == s.notStarted - {piece} && s'.Started() == s.Started() + {piece})
            case FinishPiece(piece) =>
              && s'.notStarted == s.notStarted
              && s'.Started() == s.Started() - {piece} && s'.completed == s.completed + {piece}
            case _ => s'.notStarted == s.notStarted && s'.Started() == s.Started() && s'.completed == s.completed
  {
    hide Plan, Aged, Keys, PutAll, RequestsFor;
    match e.op
    case Assign(piece, peer) =>
      PutAllPieces(s.downloading, AssignedRequests(t, s, piece, peer), piece);
    case Expire =>
      hide Swept;
      SweptHolds(s.downloading, s.expirations[..Aged(s.expirations, e.now, s.timeout)], Key(0, 0));
    case _ =>
  }

  lemma {:induction false} NoPieceForgotten(c: Setup, es: seq<Event>)
    requires c.torrent.Valid() && InRange(c.torrent, es)
    ensures AllPieces(c.torrent, After(c, es))
  {
    hide Step, Issued, Inv;
    if es != [] {
      var s := After(c, es[..|es| - 1]);
      NoPieceForgotten(c, es[..|es| - 1]);
      InvDisjoint(c.torrent, s);
      StepPieces(c.torrent, s, es[|es| - 1]);
      assert es[|es| - 1] in es;
    } else {
      assert After(c, es).Started() == {};
    }
  }

  /**
   What an operation must respect for pieces to stay in one group only, as a caller can check
   it: a completed piece is not assigned to a peer while there is capacity, and a piece is
   not finished before it was started.
   */
  ghost predicate KeepsApart(s: State, e: Event) {
    && (e.op.Assign? && e.op.piece in s.completed ==> e.op.peer.None? || |Keys(s.downloading)| == s.maxOutstanding)
    && (e.op.FinishPiece? ==> e.op.piece !in s.notStarted)
  }

  lemma UnstartedNotBusy(s: State, piece: nat)
    requires piece !in s.Started()
    ensures Key(piece, 0) !in s.Busy()
  {
  }

  /** A piece without an entry is asked for as soon as there are a peer and capacity. */
  lemma UnstartedIssuedIff(t: Torrent, s: State, e: Event)
    requires t.Valid() && s.WithinCapacity() && e.op.Assign? && e.op.piece !in s.Started()
    ensures Issued(t, s, e) == [] <==> e.op.peer.None? || |Keys(s.downloading)| == s.maxOutstanding
  {
    hide Plan, Keys;
    UnstartedNotBusy(s, e.op.piece);
    if e.op.peer.Some? && |Keys(s.downloading)| < s.maxOutstanding {
      FirstBlockAssigned(t, s, e.op.piece, e.op.peer.value);
    }
  }

  /**
   The three groups stay apart exactly when no completed piece is asked for and no piece is
   finished that was not started; finishing does not take a piece out of `notStarted`.
   */
  lemma StaysApartIff(t: Torrent, s: State, e: Event)
    requires t.Valid() && s.WithinCapacity() && PiecesApart(s)
    ensures PiecesApart(Step(t, s, e)) <==> KeepsApart(s, e)
  {
    hide Step, Issued, Keys;
    StepPieces(t, s, e);
    if e.op.Assign? && e.op.piece in s.completed {
      UnstartedIssuedIff(t, s, e);
    }
  }

  /** A run keeps the groups apart throughout exactly when each of its operations does. */
  lemma {:induction false} RunApartIff(c: Setup, es: seq<Event>)
    requires c.torrent.Valid()
    ensures (forall i :: 0 <= i <= |es| ==> PiecesApart(After(c, es[..i]))) <==>
              (forall i :: 0 <= i < |es| ==> KeepsApart(After(c, es[..i]), es[i]))
  {
    hide Step, KeepsApart, After, Inv;
    if es == [] {
      FreshApart(c);
    } else {
      var n := |es| - 1;
      RunApartIff(c, es[..n]);
      assert forall i :: 0 <= i <= n ==> es[..n][..i] == es[..i];
      AfterNext(c, es, n);
      if PiecesApart(After(c, es[..n])) {
        InvDisjoint(c.torrent, After(c, es[..n]));
        StaysApartIff(c.torrent, After(c, es[..n]), es[n]);
      }
    }
  }

  lemma FreshApart(c: Setup)
    requires c.torrent.Valid()
    ensures PiecesApart(After(c, []))
  {
  }
}
