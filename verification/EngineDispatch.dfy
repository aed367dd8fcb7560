/**
 What a dispatch sends and what the tracker then holds in flight are the same: requests that
 cannot be sent are withdrawn, and nothing else is.
 */
module EngineDispatch {
  import opened Common
  import opened Torrents
  import opened Blocks
  import opened Tracker
  import opened Assignments
  import opened PeerState
  import opened Engine
  import opened EngineSafety

  // ------------------------------------------------------------------ the parts of a dispatch

  lemma {:induction false} AppliedConcat(t: Torrent, s: State, es: seq<Event>, fs: seq<Event>)
    requires t.Valid() && Inv(t, s)
    ensures Applied(t, s, es + fs) == Applied(t, Applied(t, s, es), fs)
  {
    hide Inv, Step;
    if fs == [] {
      assert es + fs == es;
    } else {
      var front, f := fs[..|fs| - 1], fs[|fs| - 1];
      LastSplit(fs);
      SeqAssoc(es, front, [f]);
      AppliedConcat(t, s, es, front);
      hide Applied;
      AppliedSnoc(t, s, es + front, f);
      AppliedSnoc(t, Applied(t, s, es), front, f);
    }
  }

  /** The assignments of a call, one after the other. */
  lemma {:induction false} AppliedAssigns(t: Torrent, s: State, a: Supply, ps: seq<nat>)
    requires t.Valid() && Inv(t, s) && s.WithinCapacity() && a.Valid() && forall p :: p in ps ==> p in a.peers
    ensures Applied(t, s, AssignEvents(a, ps)) == Generated(t, s, a, ps).0
  {
    hide Inv, Assigned, AssignedRequests;
    if ps != [] {
      hide Generated, AssignEvents;
      var front, p := ps[..|ps| - 1], ps[|ps| - 1];
      LastSplit(ps);
      AppliedAssigns(t, s, a, front);
      AssignEventsMore(a, front, p);
      AppliedSnoc(t, s, AssignEvents(a, front), Event(a.clock[p], Assign(p, a.First(p))));
      GeneratedMore(t, s, a, front, p);
    }
  }

  /** A call puts exactly its requests in flight, and leaves the others as they are. */
  lemma {:induction false} GeneratedHolds(t: Torrent, s: State, a: Supply, ps: seq<nat>, k: Key)
    requires t.Valid() && s.WithinCapacity() && a.Valid() && forall p :: p in ps ==> p in a.peers
    ensures var (s', rs) := Generated(t, s, a, ps);
            && (Holds(s'.downloading, k) <==> Holds(s.downloading, k) || k in KeysOf(rs))
            && (Holds(s.downloading, k) ==> Lookup(s'.downloading, k) == Lookup(s.downloading, k))
            && (Holds(s'.downloading, k) && !Holds(s.downloading, k) ==>
                  Lookup(s'.downloading, k) in rs && Lookup(s'.downloading, k).Block() == k)
            && s'.done == s.done && s'.completed == s.completed
  {
    hide Keys, Assigned, AssignedKeys, AssignedRequests, Holds, Lookup;
    if ps != [] {
      var front, p := ps[..|ps| - 1], ps[|ps| - 1];
      GeneratedHolds(t, s, a, front, k);
      var (s', rs) := Generated(t, s, a, front);
      KeysOfConcat(rs, AssignedRequests(t, s', p, a.First(p)));
      AssignedLookup(t, s', p, a.First(p), a.clock[p], k);
    }
  }

  lemma AssignedLookup(t: Torrent, s: State, piece: nat, peer: Option<PeerId>, now: nat, k: Key)
    requires t.Valid() && s.WithinCapacity()
    ensures var s', rs := Assigned(t, s, piece, peer, now), AssignedRequests(t, s, piece, peer);
            && (Holds(s'.downloading, k) <==> Holds(s.downloading, k) || k in KeysOf(rs))
            && (Holds(s.downloading, k) ==> Lookup(s'.downloading, k) == Lookup(s.downloading, k))
            && (Holds(s'.downloading, k) && !Holds(s.downloading, k) ==>
                  Lookup(s'.downloading, k) in rs && Lookup(s'.downloading, k).Block() == k)
            && s'.done == s.done && s'.completed == s.completed
  {
    hide Keys, Plan, PutAll, Assigned, BlockLength, IsBlock;
    AssignedHolds(t, s, piece, peer, now, k);
    var ks, rs := AssignedKeys(t, s, piece, peer), AssignedRequests(t, s, piece, peer);
    assert KeysOf(rs) == ks;
    if k in ks {
      var i :| 0 <= i < |ks| && ks[i] == k;
      assert rs[i] in rs;
    }
  }

  /** Withdrawing drops exactly the named blocks. */
  lemma {:induction false} AppliedRemoves(t: Torrent, s: State, fs: seq<Event>, k: Key)
    requires t.Valid() && Inv(t, s) && forall f :: f in fs ==> f.op.RemoveRequest?
    ensures var s' := Applied(t, s, fs);
            && (Holds(s'.downloading, k) <==> Holds(s.downloading, k) && forall f :: f in fs ==> f.op != RemoveRequest(k))
            && (Holds(s'.downloading, k) ==> Lookup(s'.downloading, k) == Lookup(s.downloading, k))
            && s'.done == s.done && s'.completed == s.completed
  {
    hide Inv, Keys, Holds, Lookup;
    if fs != [] {
      var front, f := fs[..|fs| - 1], fs[|fs| - 1];
      LastSplit(fs);
      AppliedRemoves(t, s, front, k);
      RemovedHolds(Applied(t, s, front), f.op.key, k);
    }
  }

  lemma RemovedHolds(s: State, j: Key, k: Key)
    ensures Holds(RequestRemoved(s, j).downloading, k) <==> Holds(s.downloading, k) && j != k
    ensures Holds(RequestRemoved(s, j).downloading, k) ==>
              Lookup(RequestRemoved(s, j).downloading, k) == Lookup(s.downloading, k)
  {
  }

  /** What is withdrawn is what was not sent. */
  lemma {:induction false} WithdrawalsExact(e: EngineState, rs: seq<Request>, failing: set<nat>, n: nat, now: nat, k: Key)
    requires n <= |rs|
    ensures (exists f :: f in Withdrawals(e, rs, failing, n, now) && f.op == RemoveRequest(k)) <==>
              exists i :: 0 <= i < n && !IsSent(e, rs, failing, i) && rs[i].Block() == k
  {
    hide IsSent;
    if n > 0 {
      WithdrawalsExact(e, rs, failing, n - 1, now, k);
      var front := Withdrawals(e, rs, failing, n - 1, now);
      var last := if IsSent(e, rs, failing, n - 1) then [] else [Event(now, RemoveRequest(rs[n - 1].Block()))];
      assert Withdrawals(e, rs, failing, n, now) == front + last;
      if !IsSent(e, rs, failing, n - 1) {
        assert last[0] in front + last;
      }
    }
  }

  lemma AscendDistinct(ks: seq<Key>, n: nat)
    requires KeysAscend(ks)
    ensures Distinct(Take(n, ks))
  {
    forall i, j | 0 <= i < j < |Take(n, ks)| ensures Take(n, ks)[i] != Take(n, ks)[j] {
      assert Before(ks[i], ks[j]);
    }
  }

  lemma RequestsDistinct(t: Torrent, s: State, a: Supply)
    requires t.Valid() && s.WithinCapacity() && a.Valid()
    ensures Distinct(KeysOf(Generated(t, s, a, a.Pieces()).1))
  {
    hide Generated, Wanted, Keys, KeysAscend, Distinct, InOrder, Take, KeysOf;
    GeneratesGreedily(t, s, a, a.Pieces());
    WantedExact(t, s.Busy(), a, a.Pieces());
    AscendDistinct(Wanted(t, s.Busy(), a, a.Pieces()), s.maxOutstanding - |Keys(s.downloading)|);
  }

  lemma NotInFlight(t: Torrent, s: State, a: Supply, i: nat)
    requires t.Valid() && s.WithinCapacity() && a.Valid() && i < |Generated(t, s, a, a.Pieces()).1|
    ensures !Holds(s.downloading, Generated(t, s, a, a.Pieces()).1[i].Block())
  {
    hide Generated, InOrder;
    RequestNew(t, s, a, i);
  }

  // ------------------------------------------------------------------ one dispatch

  /** The tracker after a dispatch: the requests of the call, without those that were not sent. */
  lemma DispatchApplied(c: Config, e: EngineState, a: Action)
    requires c.T().Valid() && Sane(c, e) && a.Dispatch? && Enabled(e, a)
    ensures e.view.tracker.WithinCapacity()
    ensures var rs := Requests(c, e, a.supply); var s := Generated(c.T(), e.view.tracker, a.supply, a.supply.Pieces()).0;
            && Inv(c.T(), s)
            && Next(c, e, a).view.tracker == Applied(c.T(), s, Withdrawals(e, rs, a.failing, |rs|, a.now))
  {
    InvDisjoint(c.T(), e.view.tracker);
    hide Inv, Next, Generated, Withdrawals, AssignEvents, Applied, InOrder;
    var rs, ps := Requests(c, e, a.supply), a.supply.Pieces();
    NextTracker(c, e, a);
    AppliedAssigns(c.T(), e.view.tracker, a.supply, ps);
    AppliedConcat(c.T(), e.view.tracker, AssignEvents(a.supply, ps), Withdrawals(e, rs, a.failing, |rs|, a.now));
  }

  /**
   After a dispatch, the blocks newly in flight are exactly those of the requests that were
   sent, each recorded as it was sent; the others in flight and the done blocks are as before.
   */
  lemma DispatchSends(c: Config, e: EngineState, a: Action, k: Key)
    requires c.T().Valid() && Sane(c, e) && a.Dispatch? && Enabled(e, a)
    ensures e.view.tracker.WithinCapacity()
    ensures var rs := Requests(c, e, a.supply); var s, s' := e.view.tracker, Next(c, e, a).view.tracker;
            && (Holds(s'.downloading, k) && !Holds(s.downloading, k) <==>
                  exists i :: 0 <= i < |rs| && rs[i].peer in e.connected && i !in a.failing && rs[i].Block() == k)
            && (Holds(s.downloading, k) ==> Holds(s'.downloading, k) && Lookup(s'.downloading, k) == Lookup(s.downloading, k))
            && (forall i :: 0 <= i < |rs| && rs[i].peer in e.connected && i !in a.failing && rs[i].Block() == k ==>
                  Lookup(s'.downloading, k) == rs[i])
            && s'.done == s.done && s'.completed == s.completed
  {
    hide Inv, Next, Generated, Withdrawals, Applied, Holds, Lookup, Keys, Distinct, InOrder, Sane;
    DispatchApplied(c, e, a);
    var rs, s := Requests(c, e, a.supply), e.view.tracker;
    var mid := Generated(c.T(), s, a.supply, a.supply.Pieces()).0;
    GeneratedHolds(c.T(), s, a.supply, a.supply.Pieces(), k);
    WithdrawalsOnly(e, rs, a.failing, |rs|, a.now);
    AppliedRemoves(c.T(), mid, Withdrawals(e, rs, a.failing, |rs|, a.now), k);
    WithdrawalsExact(e, rs, a.failing, |rs|, a.now, k);
    RequestsDistinct(c.T(), s, a.supply);
    SentOnce(e, rs, a.failing, k);
    forall i | 0 <= i < |rs| ensures !Holds(s.downloading, rs[i].Block()) {
      NotInFlight(c.T(), s, a.supply, i);
    }
  }

  /** Among requests for different blocks, a block was sent or it was not. */
  lemma SentOnce(e: EngineState, rs: seq<Request>, failing: set<nat>, k: Key)
    requires Distinct(KeysOf(rs))
    ensures k in KeysOf(rs) <==> exists i :: 0 <= i < |rs| && rs[i].Block() == k
    ensures forall i, j :: 0 <= i < |rs| && 0 <= j < |rs| && rs[i].Block() == k && rs[j].Block() == k ==> i == j
    ensures forall r :: r in rs && r.Block() == k ==> exists i :: 0 <= i < |rs| && rs[i] == r
  {
    forall i, j | 0 <= i < |rs| && 0 <= j < |rs| && rs[i].Block() == k && rs[j].Block() == k ensures i == j {
      assert KeysOf(rs)[i] == KeysOf(rs)[j];
    }
    if k in KeysOf(rs) {
      var i :| 0 <= i < |rs| && KeysOf(rs)[i] == k;
      assert rs[i].Block() == k;
    }
    forall i | 0 <= i < |rs| && rs[i].Block() == k ensures k in KeysOf(rs) {
      assert KeysOf(rs)[i] == k;
    }
  }

  // ------------------------------------------------------------------ whole runs

  /** The request was sent by step `j` of the run. */
  ghost predicate SentAt(c: Config, run: seq<Action>, j: nat, r: Request)
    requires c.T().Valid() && j < |run|
  {
    var e, a := Reach(c, run[..j]), run[j];
    && a.Dispatch? && Enabled(e, a) && e.view.tracker.WithinCapacity()
    && exists i :: 0 <= i < |Requests(c, e, a.supply)| && IsSent(e, Requests(c, e, a.supply), a.failing, i)
                   && Requests(c, e, a.supply)[i] == r
  }

  lemma StepOnlyDrops(t: Torrent, s: State, e: Event, k: Key)
    requires t.Valid() && s.WithinCapacity() && !e.op.Assign? && Holds(Step(t, s, e).downloading, k)
    ensures Holds(s.downloading, k) && Lookup(Step(t, s, e).downloading, k) == Lookup(s.downloading, k)
  {
    hide Keys, Swept, Aged;
    if e.op.Expire? {
      SweptHolds(s.downloading, s.expirations[..Aged(s.expirations, e.now, s.timeout)], k);
    }
  }

  /** Only a dispatch puts a block in flight. */
  lemma OthersOnlyDrop(c: Config, e: EngineState, a: Action, k: Key)
    requires c.T().Valid() && Sane(c, e) && !a.Dispatch? && Holds(Next(c, e, a).view.tracker.downloading, k)
    ensures Holds(e.view.tracker.downloading, k)
    ensures Lookup(Next(c, e, a).view.tracker.downloading, k) == Lookup(e.view.tracker.downloading, k)
  {
    hide Inv, Next, Step, Holds, Lookup;
    NextTracker(c, e, a);
    InvHolds(c, e);
    if Enabled(e, a) {
      var es := TrackerEvents(c, e, a);
      if es != [] {
        assert es[..0] == [];
        StepOnlyDrops(c.T(), e.view.tracker, es[0], k);
      }
    }
  }

  lemma InvHolds(c: Config, e: EngineState)
    requires c.T().Valid() && Sane(c, e)
    ensures e.view.tracker.WithinCapacity()
  {
  }

  lemma SentStays(c: Config, run: seq<Action>, a: Action, j: nat, r: Request)
    requires c.T().Valid() && j < |run| && SentAt(c, run, j, r)
    ensures SentAt(c, run + [a], j, r)
  {
    hide Reach, Requests, Enabled, IsSent, Sane;
    assert (run + [a])[..j] == run[..j];
  }

  /** In every interleaving, each block in flight was sent to a peer as the request that is recorded for it. */
  lemma {:induction false} InFlightWasSent(c: Config, run: seq<Action>, k: Key)
    requires c.T().Valid() && Holds(Reach(c, run).view.tracker.downloading, k)
    ensures exists j :: 0 <= j < |run| && SentAt(c, run, j, Lookup(Reach(c, run).view.tracker.downloading, k))
  {
    hide Next, Sane, Holds, Lookup, SentAt;
    if run == [] {
      NothingInFlight(c, k);
      assert false;
    } else {
      var front, a := run[..|run| - 1], run[|run| - 1];
      var e := Reach(c, front);
      LastSplit(run);
      if Holds(e.view.tracker.downloading, k) {
        InFlightWasSent(c, front, k);
        var j :| 0 <= j < |front| && SentAt(c, front, j, Lookup(e.view.tracker.downloading, k));
        SentStays(c, front, a, j, Lookup(e.view.tracker.downloading, k));
        StaysRecorded(c, e, a, k);
      } else {
        NewlySent(c, front, a, k);
      }
    }
  }

  lemma NothingInFlight(c: Config, k: Key)
    requires c.T().Valid()
    ensures !Holds(Reach(c, []).view.tracker.downloading, k)
  {
  }

  lemma StaysRecorded(c: Config, e: EngineState, a: Action, k: Key)
    requires c.T().Valid() && Sane(c, e)
    requires Holds(e.view.tracker.downloading, k) && Holds(Next(c, e, a).view.tracker.downloading, k)
    ensures Lookup(Next(c, e, a).view.tracker.downloading, k) == Lookup(e.view.tracker.downloading, k)
  {
    hide Next, Sane, Holds, Lookup, Enabled;
    if !a.Dispatch? {
      OthersOnlyDrop(c, e, a, k);
    } else if Enabled(e, a) {
      DispatchSends(c, e, a, k);
    } else {
      DisabledKeeps(c, e, a);
    }
  }

  lemma DisabledKeeps(c: Config, e: EngineState, a: Action)
    requires c.T().Valid() && Sane(c, e) && !Enabled(e, a)
    ensures Next(c, e, a) == e
  {
  }

  lemma NewlySent(c: Config, front: seq<Action>, a: Action, k: Key)
    requires c.T().Valid() && !Holds(Reach(c, front).view.tracker.downloading, k)
    requires Holds(Reach(c, front + [a]).view.tracker.downloading, k)
    ensures SentAt(c, front + [a], |front|, Lookup(Reach(c, front + [a]).view.tracker.downloading, k))
  {
    hide Reach, Next, Sane, Holds, Lookup, Enabled, Requests;
    var e, run := Reach(c, front), front + [a];
    ReachMore(c, front, a);
    assert run[..|front|] == front;
    if !a.Dispatch? {
      OthersOnlyDrop(c, e, a, k);
      assert false;
    } else if Enabled(e, a) {
      DispatchSends(c, e, a, k);
    } else {
      DisabledKeeps(c, e, a);
      assert false;
    }
  }
}
