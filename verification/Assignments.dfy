/**
 `generate_assignments` of src/peer/state/piece.rs as a whole: one `assign_piece` per
 available piece is one greedy choice over all blocks.
 */
module Assignments {
  import opened Common
  import opened Torrents
  import opened Blocks
  import opened Tracker

  // ------------------------------------------------------------------ ordered keys (`BTreeMap`)

  ghost predicate Ascending(ns: seq<nat>) {
    forall i, j :: 0 <= i < j < |ns| ==> ns[i] < ns[j]
  }

  ghost predicate IsLeast(s: set<nat>, m: nat) {
    m in s && forall x :: x in s ==> m <= x
  }

  lemma {:induction false} LeastExists(s: set<nat>)
    requires s != {}
    ensures exists m :: IsLeast(s, m)
  {
    var x :| x in s;
    if s == {x} {
      assert IsLeast(s, x);
    } else {
      LeastExists(s - {x});
      var m :| IsLeast(s - {x}, m);
      assert s == (s - {x}) + {x};
      assert IsLeast(s, if x < m then x else m);
    }
  }

  function Least(s: set<nat>): (m: nat)
    requires s != {}
    ensures m in s && forall x :: x in s ==> m <= x
  {
    LeastExists(s);
    assert exists m :: m in s && forall x :: x in s ==> m <= x by {
      var m :| IsLeast(s, m);
    }
    var m :| m in s && forall x :: x in s ==> m <= x;
    m
  }

  /** The elements of a set in ascending order. */
  function InOrder(s: set<nat>): (ns: seq<nat>)
    ensures forall x :: x in ns <==> x in s
    ensures Ascending(ns)
  {
    if s == {} then [] else
      var rest := InOrder(s - {Least(s)});
      [Least(s)] + rest
  }

  // ------------------------------------------------------------------ one call

  /**
   What one call is given: the peers per available piece, the peer that each of these sets
   yields first, and the clock reading when each piece is assigned.
   */
  datatype Supply = Supply(peers: map<nat, set<PeerId>>, first: map<nat, PeerId>, clock: map<nat, nat>) {
    predicate Valid() {
      forall p :: p in peers ==> p in clock && (peers[p] != {} ==> p in first && first[p] in peers[p])
    }

    function Pieces(): seq<nat> {
      InOrder(peers.Keys)
    }

    function First(piece: nat): Option<PeerId>
      requires Valid() && piece in peers
    {
      if peers[piece] == {} then None else Some(first[piece])
    }
  }

  /** The state and the requests after assigning the pieces `ps` in turn. */
  function Generated(t: Torrent, s: State, a: Supply, ps: seq<nat>): (r: (State, seq<Request>))
    requires t.Valid() && s.WithinCapacity() && a.Valid()
    requires forall p :: p in ps ==> p in a.peers
    ensures r.0.WithinCapacity()
  {
    if ps == [] then (s, [])
    else
      var p := ps[|ps| - 1];
      var (s', rs) := Generated(t, s, a, ps[..|ps| - 1]);
      AssignCapacity(t, s', p, a.First(p), a.clock[p]);
      (Assigned(t, s', p, a.First(p), a.clock[p]), rs + AssignedRequests(t, s', p, a.First(p)))
  }

  /** The blocks of an available piece that are not busy, in order. */
  function Missing(t: Torrent, busy: set<Key>, a: Supply, p: nat): (ks: seq<Key>)
    requires t.Valid() && p in a.peers
    ensures forall k :: k in ks ==> k.piece == p && a.peers[p] != {} && IsBlock(t, k)
  {
    if a.peers[p] == {} then [] else Without(PieceKeys(t, p), busy)
  }

  /** The blocks of the pieces `ps` that some peer has and that are not busy, in order. */
  function Wanted(t: Torrent, busy: set<Key>, a: Supply, ps: seq<nat>): (ks: seq<Key>)
    requires t.Valid() && forall p :: p in ps ==> p in a.peers
    ensures forall k :: k in ks ==> k.piece in ps && a.peers[k.piece] != {} && IsBlock(t, k)
  {
    if ps == [] then []
    else
      var p := ps[|ps| - 1];
      Wanted(t, busy, a, ps[..|ps| - 1]) + Missing(t, busy, a, p)
  }

  /** The order of a `BTreeMap` of pieces, and of the offsets within a piece. */
  predicate Before(a: Key, b: Key) {
    a.piece < b.piece || (a.piece == b.piece && a.begin < b.begin)
  }

  ghost predicate KeysAscend(ks: seq<Key>) {
    forall i, j :: 0 <= i < j < |ks| ==> Before(ks[i], ks[j])
  }

  lemma AscendCons(k: Key, ks: seq<Key>)
    requires KeysAscend(ks) && forall j :: j in ks ==> Before(k, j)
    ensures KeysAscend([k] + ks)
  {
  }

  lemma AscendConcat(a: seq<Key>, b: seq<Key>)
    requires KeysAscend(a) && KeysAscend(b) && forall j, k :: j in a && k in b ==> Before(j, k)
    ensures KeysAscend(a + b)
  {
  }

  lemma {:induction false} WithoutKeepsOrder(ks: seq<Key>, busy: set<Key>)
    requires KeysAscend(ks)
    ensures KeysAscend(Without(ks, busy))
  {
    if ks != [] {
      WithoutKeepsOrder(ks[1..], busy);
      AscendCons(ks[0], Without(ks[1..], busy));
    }
  }

  lemma PieceKeysAscend(t: Torrent, p: nat)
    requires t.Valid()
    ensures KeysAscend(PieceKeys(t, p))
  {
    var ks := PieceKeys(t, p);
    assert forall i :: 0 <= i < |ks| ==> ks[i] in ks;
  }

  lemma AscendingFront(front: seq<nat>, last: nat)
    requires Ascending(front + [last])
    ensures Ascending(front)
    ensures forall p :: p in front ==> p < last
  {
    var ps := front + [last];
    assert forall i :: 0 <= i < |front| ==> front[i] == ps[i] && ps[i] < ps[|front|];
  }

  /** `Wanted` lists, in order, exactly the blocks that are available and not busy. */
  lemma {:induction false} WantedExact(t: Torrent, busy: set<Key>, a: Supply, ps: seq<nat>)
    requires t.Valid() && Ascending(ps)
    requires forall p :: p in ps ==> p in a.peers
    ensures KeysAscend(Wanted(t, busy, a, ps))
    ensures forall k :: k in Wanted(t, busy, a, ps) <==>
              k.piece in ps && a.peers[k.piece] != {} && IsBlock(t, k) && k !in busy
  {
    hide Ascending, KeysAscend, IsBlock, KeysFrom, Without;
    if ps == [] {
      assert KeysAscend(Wanted(t, busy, a, ps)) by {
        NothingAscends();
      }
    } else {
      var front, p := ps[..|ps| - 1], ps[|ps| - 1];
      LastSplit(ps);
      AscendingFront(front, p);
      WantedExact(t, busy, a, front);
      PieceKeysAscend(t, p);
      WithoutKeepsOrder(PieceKeys(t, p), busy);
      NothingAscends();
      AscendConcat(Wanted(t, busy, a, front), Missing(t, busy, a, p));
    }
  }

  lemma NothingAscends()
    ensures KeysAscend([])
  {
  }

  lemma {:induction false} WithoutSame(ks: seq<Key>, busy: set<Key>, busy': set<Key>)
    requires forall k :: k in ks ==> (k in busy <==> k in busy')
    ensures Without(ks, busy) == Without(ks, busy')
  {
    if ks != [] {
      WithoutSame(ks[1..], busy, busy');
    }
  }

  lemma TakeConcat<T>(n: nat, a: seq<T>, b: seq<T>)
    ensures Take(n, a) + Take(n - |Take(n, a)|, b) == Take(n, a + b)
  {
  }

  /** What a request of a call must be: for an exact block, to the peer that is first for the piece. */
  ghost predicate ServedBy(t: Torrent, a: Supply, r: Request)
    requires t.Valid() && a.Valid()
  {
    && r.index in a.peers && a.peers[r.index] != {}
    && IsBlock(t, r.Block())
    && r == RequestFor(t, a.first[r.index], r.Block())
  }

  lemma ElementsOfConcat(a: seq<Request>, b: seq<Request>)
    ensures KeysOf(a + b) == KeysOf(a) + KeysOf(b)
    ensures Elements(KeysOf(a + b)) == Elements(KeysOf(a)) + Elements(KeysOf(b))
  {
    KeysOfConcat(a, b);
  }

  lemma TakeBoth(n: nat, a: seq<Key>, b: seq<Key>, rs: seq<Request>, more: seq<Request>)
    requires KeysOf(rs) == Take(n, a)
    requires KeysOf(more) == Take(n - |rs|, b)
    ensures KeysOf(rs + more) == Take(n, a + b)
  {
    hide Take;
    assert |Take(n, a)| == |rs|;
    TakeConcat(n, a, b);
    KeysOfConcat(rs, more);
  }

  /** What one assignment takes, when the blocks taken before it belong to other pieces. */
  lemma AssignedAre(t: Torrent, s: State, a: Supply, p: nat, busy: set<Key>, taken: seq<Key>)
    requires t.Valid() && s.WithinCapacity() && a.Valid() && p in a.peers
    requires s.Busy() == busy + Elements(taken)
    requires forall k :: k in taken ==> k.piece != p
    ensures KeysOf(AssignedRequests(t, s, p, a.First(p))) == AssignedKeys(t, s, p, a.First(p))
    ensures AssignedKeys(t, s, p, a.First(p)) == Take(s.maxOutstanding - |Keys(s.downloading)|, Missing(t, busy, a, p))
  {
    hide KeysFrom;
    WithoutSame(PieceKeys(t, p), busy, s.Busy());
  }

  lemma AssignBusy(t: Torrent, s: State, piece: nat, peer: Option<PeerId>, now: nat)
    requires t.Valid() && s.WithinCapacity()
    ensures Assigned(t, s, piece, peer, now).Busy() == s.Busy() + Elements(AssignedKeys(t, s, piece, peer))
    ensures Assigned(t, s, piece, peer, now).maxOutstanding == s.maxOutstanding
  {
    hide Keys, AssignedKeys, PutAll;
    AssignAddsKeys(t, s, piece, peer, now);
  }

  lemma WantedMore(t: Torrent, busy: set<Key>, a: Supply, front: seq<nat>, p: nat)
    requires t.Valid() && p in a.peers && forall p :: p in front ==> p in a.peers
    ensures forall q :: q in front + [p] ==> q in a.peers
    ensures Wanted(t, busy, a, front + [p]) ==
              Wanted(t, busy, a, front) + Missing(t, busy, a, p)
  {
    assert (front + [p])[..|front|] == front;
  }

  lemma TakenElsewhere(t: Torrent, busy: set<Key>, a: Supply, front: seq<nat>, p: nat, capacity: nat)
    requires t.Valid() && Ascending(front + [p]) && forall p :: p in front ==> p in a.peers
    ensures forall k :: k in Take(capacity, Wanted(t, busy, a, front)) ==> k.piece != p
  {
    AscendingFront(front, p);
    assert forall k :: k in Wanted(t, busy, a, front) ==> k.piece in front;
  }

  /**
   `rs` are the first blocks, in order of piece and offset, of all available blocks that
   were not busy in `s`, as many as the capacity allowed; `s'` has them in flight.
   */
  ghost predicate Greedy(t: Torrent, s: State, a: Supply, ps: seq<nat>, s': State, rs: seq<Request>)
    requires t.Valid() && s.WithinCapacity() && forall p :: p in ps ==> p in a.peers
  {
    && KeysOf(rs) == Take(s.maxOutstanding - |Keys(s.downloading)|, Wanted(t, s.Busy(), a, ps))
    && |Keys(s'.downloading)| == |Keys(s.downloading)| + |rs|
    && s'.maxOutstanding == s.maxOutstanding
    && s'.Busy() == s.Busy() + Elements(KeysOf(rs))
  }

  lemma GreedyStepKeys(t: Torrent, s: State, a: Supply, front: seq<nat>, p: nat, s': State, rs: seq<Request>)
    requires t.Valid() && s.WithinCapacity() && a.Valid() && Ascending(front + [p])
    requires p in a.peers && forall p :: p in front ==> p in a.peers
    requires s'.WithinCapacity() && Greedy(t, s, a, front, s', rs)
    ensures KeysOf(AssignedRequests(t, s', p, a.First(p))) == AssignedKeys(t, s', p, a.First(p))
    ensures KeysOf(rs + AssignedRequests(t, s', p, a.First(p))) ==
              Take(s.maxOutstanding - |Keys(s.downloading)|, Wanted(t, s.Busy(), a, front + [p]))
  {
    hide Ascending, IsBlock, AssignedKeys, AssignedRequests, Keys, Missing, Wanted, Elements, KeysOf;
    var capacity := s.maxOutstanding - |Keys(s.downloading)|;
    TakenElsewhere(t, s.Busy(), a, front, p, capacity);
    WantedMore(t, s.Busy(), a, front, p);
    AssignedAre(t, s', a, p, s.Busy(), KeysOf(rs));
    hide Take;
    TakeBoth(capacity, Wanted(t, s.Busy(), a, front), Missing(t, s.Busy(), a, p), rs,
             AssignedRequests(t, s', p, a.First(p)));
  }

  /** One more piece of a call, when the pieces before it were served greedily. */
  lemma GreedyStep(t: Torrent, s: State, a: Supply, front: seq<nat>, p: nat, s': State, rs: seq<Request>)
    requires t.Valid() && s.WithinCapacity() && a.Valid() && Ascending(front + [p])
    requires p in a.peers && forall p :: p in front ==> p in a.peers
    requires s'.WithinCapacity() && Greedy(t, s, a, front, s', rs)
    ensures Greedy(t, s, a, front + [p], Assigned(t, s', p, a.First(p), a.clock[p]),
                   rs + AssignedRequests(t, s', p, a.First(p)))
  {
    GreedyStepKeys(t, s, a, front, p, s', rs);
    AssignCapacity(t, s', p, a.First(p), a.clock[p]);
    AssignBusy(t, s', p, a.First(p), a.clock[p]);
    ElementsOfConcat(rs, AssignedRequests(t, s', p, a.First(p)));
    UnionAssoc(s.Busy(), Elements(KeysOf(rs)), Elements(AssignedKeys(t, s', p, a.First(p))));
  }

  lemma UnionAssoc<T>(x: set<T>, y: set<T>, z: set<T>)
    ensures x + y + z == x + (y + z)
  {
  }

  /** One call is one greedy choice over all available blocks. */
  lemma {:induction false} GeneratesGreedily(t: Torrent, s: State, a: Supply, ps: seq<nat>)
    requires t.Valid() && s.WithinCapacity() && a.Valid() && Ascending(ps)
    requires forall p :: p in ps ==> p in a.peers
    ensures Greedy(t, s, a, ps, Generated(t, s, a, ps).0, Generated(t, s, a, ps).1)
  {
    if ps == [] {
      assert KeysOf(Generated(t, s, a, ps).1) == [];
    } else {
      hide Greedy, Wanted, Assigned, AssignedRequests, Keys;
      var front, p := ps[..|ps| - 1], ps[|ps| - 1];
      LastSplit(ps);
      AscendingFront(front, p);
      GeneratesGreedily(t, s, a, front);
      var (s', rs) := Generated(t, s, a, front);
      GreedyStep(t, s, a, front, p, s', rs);
    }
  }

  /** A call with capacity left and a block to ask for asks for something. */
  lemma NeverIdle(t: Torrent, s: State, a: Supply, k: Key)
    requires t.Valid() && s.WithinCapacity() && a.Valid()
    requires |Keys(s.downloading)| < s.maxOutstanding
    requires k.piece in a.peers && a.peers[k.piece] != {} && IsBlock(t, k) && k !in s.Busy()
    ensures Generated(t, s, a, a.Pieces()).1 != []
  {
    hide Generated, Wanted;
    GeneratesGreedily(t, s, a, a.Pieces());
    WantedExact(t, s.Busy(), a, a.Pieces());
  }

  lemma {:induction false} GeneratedServed(t: Torrent, s: State, a: Supply, ps: seq<nat>)
    requires t.Valid() && s.WithinCapacity() && a.Valid()
    requires forall p :: p in ps ==> p in a.peers
    ensures forall r :: r in Generated(t, s, a, ps).1 ==> r.index in ps && ServedBy(t, a, r)
  {
    if ps != [] {
      hide Keys, Assigned, ServedBy;
      var front, p := ps[..|ps| - 1], ps[|ps| - 1];
      GeneratedServed(t, s, a, front);
      var s' := Generated(t, s, a, front).0;
      AssignedServed(t, s', a, p);
      assert ps == front + [p];
    }
  }

  lemma AssignedServed(t: Torrent, s: State, a: Supply, p: nat)
    requires t.Valid() && s.WithinCapacity() && a.Valid() && p in a.peers
    ensures forall r :: r in AssignedRequests(t, s, p, a.First(p)) ==> r.index == p && ServedBy(t, a, r)
  {
    hide Keys, Plan;
  }

  // ------------------------------------------------------------------ a call is a run of assignments

  /** The assignments of one call as tracker events. */
  function AssignEvents(a: Supply, ps: seq<nat>): (es: seq<Event>)
    requires a.Valid() && forall p :: p in ps ==> p in a.peers
    ensures |es| == |ps|
  {
    seq(|ps|, i requires 0 <= i < |ps| => Event(a.clock[ps[i]], Assign(ps[i], a.First(ps[i]))))
  }

  lemma AssignEventsMore(a: Supply, front: seq<nat>, p: nat)
    requires a.Valid() && p in a.peers && forall p :: p in front ==> p in a.peers
    ensures forall q :: q in front + [p] ==> q in a.peers
    ensures AssignEvents(a, front + [p]) == AssignEvents(a, front) + [Event(a.clock[p], Assign(p, a.First(p)))]
  {
  }

  lemma GeneratedMore(t: Torrent, s: State, a: Supply, front: seq<nat>, p: nat)
    requires t.Valid() && s.WithinCapacity() && a.Valid() && p in a.peers && forall p :: p in front ==> p in a.peers
    ensures forall q :: q in front + [p] ==> q in a.peers
    ensures var (s', rs) := Generated(t, s, a, front);
            Generated(t, s, a, front + [p]) ==
            (Assigned(t, s', p, a.First(p), a.clock[p]), rs + AssignedRequests(t, s', p, a.First(p)))
  {
    assert (front + [p])[..|front|] == front;
  }

  /** So whatever holds after every run of tracker events holds after calls, too. */
  lemma {:induction false} GeneratedIsRun(c: Setup, es: seq<Event>, a: Supply, ps: seq<nat>)
    requires c.torrent.Valid() && a.Valid() && forall p :: p in ps ==> p in a.peers
    ensures After(c, es + AssignEvents(a, ps)) == Generated(c.torrent, After(c, es), a, ps).0
  {
    if ps == [] {
      assert es + AssignEvents(a, ps) == es;
    } else {
      hide After, Generated, AssignEvents, Assigned, AssignedRequests, Inv;
      var front, p := ps[..|ps| - 1], ps[|ps| - 1];
      LastSplit(ps);
      var e := Event(a.clock[p], Assign(p, a.First(p)));
      GeneratedIsRun(c, es, a, front);
      AssignEventsMore(a, front, p);
      SeqAssoc(es, AssignEvents(a, front), [e]);
      AfterSnoc(c, es + AssignEvents(a, front), e);
      GeneratedMore(c.torrent, After(c, es), a, front, p);
    }
  }
}
