/**
 What a block that counts as done says about its bytes. The handler of a `Piece` message
 marks the block that begins where the message does, whatever the length of the message.
 */
module EngineBlocks {
  import opened Common
  import opened Torrents
  import opened SliceTracking
  import opened Storage
  import opened Blocks
  import opened Tracker
  import opened Assignments
  import opened PeerState
  import opened Engine
  import opened EngineSafety
  import BitField
  import FileIo

  /** Some accepted write began where the block does. */
  ghost predicate WrittenAt(accepted: seq<Write>, k: Key) {
    exists w :: w in accepted && w.index == k.piece && w.begin == k.begin
  }

  /** Blocks that are done, or about to be, have been written to. */
  ghost predicate DoneWritten(e: EngineState) {
    && (forall i :: 0 <= i < |e.pending| ==> WrittenAt(e.accepted, Key(e.pending[i].index, e.pending[i].begin)))
    && (forall k :: Holds(e.view.tracker.done, k) ==> WrittenAt(e.accepted, k))
  }

  lemma StepDone(t: Torrent, s: State, e: Event, k: Key)
    requires t.Valid() && s.WithinCapacity() && Holds(Step(t, s, e).done, k)
    ensures Holds(s.done, k) || e.op == FinishRequest(k)
  {
    hide Keys, Plan, PutAll, Swept, Aged;
  }

  lemma {:induction false} AppliedDone(t: Torrent, s: State, es: seq<Event>, k: Key)
    requires t.Valid() && Inv(t, s) && Holds(Applied(t, s, es).done, k)
    ensures Holds(s.done, k) || exists e :: e in es && e.op == FinishRequest(k)
  {
    if es != [] {
      hide Inv, Step, Holds;
      var front, e := es[..|es| - 1], es[|es| - 1];
      InvDisjoint(t, Applied(t, s, front));
      StepDone(t, Applied(t, s, front), e, k);
      assert e in es;
      if Holds(Applied(t, s, front).done, k) {
        AppliedDone(t, s, front, k);
      }
    }
  }

  /** Only committing a write marks a block as done. */
  lemma EventsFinish(c: Config, e: EngineState, a: Action, k: Key)
    requires c.T().Valid() && Sane(c, e) && e.view.tracker.WithinCapacity() && Enabled(e, a)
    requires exists f :: f in TrackerEvents(c, e, a) && f.op == FinishRequest(k)
    ensures a.Commit? && k == Key(e.pending[a.which].index, e.pending[a.which].begin)
  {
    hide Inv, Requests, AssignEvents, Withdrawals, Sane;
    if a.Dispatch? {
      var rs := Requests(c, e, a.supply);
      WithdrawalsOnly(e, rs, a.failing, |rs|, a.now);
      AssignEventsOnly(a.supply, a.supply.Pieces());
    }
  }

  lemma NextDone(c: Config, e: EngineState, a: Action, k: Key)
    requires c.T().Valid() && Sane(c, e) && Holds(Next(c, e, a).view.tracker.done, k)
    ensures Holds(e.view.tracker.done, k) ||
            (a.Commit? && a.which < |e.pending| && k == Key(e.pending[a.which].index, e.pending[a.which].begin))
  {
    NextTracker(c, e, a);
    InvDisjoint(c.T(), e.view.tracker);
    hide Inv, Next, Applied, TrackerEvents, Sane, Holds;
    if Enabled(e, a) {
      AppliedDone(c.T(), e.view.tracker, TrackerEvents(c, e, a), k);
      if !Holds(e.view.tracker.done, k) {
        EventsFinish(c, e, a, k);
      }
    }
  }

  lemma WrittenMore(accepted: seq<Write>, w: Write, k: Key)
    ensures WrittenAt(accepted + [w], k) <==> WrittenAt(accepted, k) || k == Key(w.index, w.begin)
  {
    assert w in accepted + [w];
  }

  lemma NextWritten(c: Config, e: EngineState, a: Action, k: Key)
    requires c.T().Valid() && Sane(c, e) && WrittenAt(e.accepted, k)
    ensures WrittenAt(Next(c, e, a).accepted, k)
  {
    NextAccepted(c, e, a);
    hide Next, Sane, Accepts, WrittenAt;
    if a.WriteBlock? {
      WrittenMore(e.accepted, a.write, k);
    }
  }

  lemma StepDoneWritten(c: Config, e: EngineState, a: Action)
    requires c.T().Valid() && Sane(c, e) && DoneWritten(e)
    ensures DoneWritten(Next(c, e, a))
  {
    hide Next, Sane, Accepts, WrittenAt, Holds;
    var e' := Next(c, e, a);
    forall i | 0 <= i < |e'.pending| ensures WrittenAt(e'.accepted, Key(e'.pending[i].index, e'.pending[i].begin)) {
      var p := e'.pending[i];
      PendingOnly(c, e, a, i);
      if p in e.pending {
        NextWritten(c, e, a, Key(p.index, p.begin));
      } else {
        NextAccepted(c, e, a);
        WrittenMore(e.accepted, a.write, Key(p.index, p.begin));
      }
    }
    forall k | Holds(e'.view.tracker.done, k) ensures WrittenAt(e'.accepted, k) {
      NextDone(c, e, a, k);
      NextWritten(c, e, a, k);
    }
  }

  lemma {:induction false} ReachDoneWritten(c: Config, run: seq<Action>)
    requires c.T().Valid()
    ensures DoneWritten(Reach(c, run))
  {
    if run == [] {
    } else {
      hide Sane, Next, DoneWritten;
      ReachDoneWritten(c, run[..|run| - 1]);
      StepDoneWritten(c, Reach(c, run[..|run| - 1]), run[|run| - 1]);
    }
  }

  lemma {:induction false} WriteRanges(accepted: seq<Write>, w: Write, x: int)
    requires w in accepted && Slice(w.begin, w.begin + |w.block|).Has(x)
    ensures Covers(Ranges(accepted, w.index), x)
  {
    hide Covers, Ranges;
    var front, last := accepted[..|accepted| - 1], accepted[|accepted| - 1];
    LastSplit(accepted);
    RangesMore(front, last, w.index, x);
    if w != last {
      WriteRanges(front, w, x);
    }
  }

  /** What is covered was in an accepted write of the piece. */
  lemma {:induction false} RangesWrite(accepted: seq<Write>, p: nat, x: int) returns (w: Write)
    requires Covers(Ranges(accepted, p), x)
    ensures w in accepted && w.index == p && Slice(w.begin, w.begin + |w.block|).Has(x)
  {
    hide Covers, Ranges;
    if accepted == [] {
      NothingCovered(p, x);
    } else {
      var front, last := accepted[..|accepted| - 1], accepted[|accepted| - 1];
      LastSplit(accepted);
      RangesMore(front, last, p, x);
      if Covers(Ranges(front, p), x) {
        w := RangesWrite(front, p, x);
      } else {
        w := last;
      }
    }
  }

  lemma NothingCovered(p: nat, x: int)
    ensures !Covers(Ranges([], p), x)
  {
  }

  /** The write begins where the block does. */
  predicate At(w: Write, k: Key) {
    w.index == k.piece && w.begin == k.begin
  }

  ghost predicate BlockArrived(c: Config, accepted: seq<Write>, k: Key)
    requires c.T().Valid() && IsBlock(c.T(), k)
  {
    forall x :: BlockSlice(c.T(), k).Has(x) ==> Covers(Ranges(accepted, k.piece), x)
  }

  lemma FullWriteArrives(c: Config, accepted: seq<Write>, k: Key, w: Write)
    requires c.T().Valid() && IsBlock(c.T(), k)
    requires w in accepted && At(w, k) && |w.block| >= BlockLength(c.T(), k)
    ensures BlockArrived(c, accepted, k)
  {
    hide Covers, Ranges, BlockLength, IsBlock;
    forall x | BlockSlice(c.T(), k).Has(x) ensures Covers(Ranges(accepted, k.piece), x) {
      WriteRanges(accepted, w, x);
    }
  }

  /**
   Whatever the interleaving, a block that counts as done has all its bytes in accepted
   writes, provided that no write at its place was shorter than the block.
   */
  lemma DoneHasArrived(c: Config, run: seq<Action>, k: Key)
    requires c.T().Valid() && Holds(Reach(c, run).view.tracker.done, k)
    ensures IsBlock(c.T(), k)
    ensures (forall w :: w in Reach(c, run).accepted && At(w, k) ==> |w.block| >= BlockLength(c.T(), k)) ==>
              BlockArrived(c, Reach(c, run).accepted, k)
  {
    var e := Reach(c, run);
    ReachDoneWritten(c, run);
    assert Filed(c.T(), e.view.tracker.done);
    hide Reach, Inv, BlockLength, IsBlock, BlockArrived;
    var w :| w in e.accepted && w.index == k.piece && w.begin == k.begin;
    if |w.block| >= BlockLength(c.T(), k) {
      FullWriteArrives(c, e.accepted, k, w);
    }
  }

  /** Every accepted write of the piece begins at a block and stays inside it. */
  ghost predicate StaysInBlocks(c: Config, accepted: seq<Write>, p: nat)
    requires c.T().Valid()
  {
    forall w :: w in accepted && w.index == p ==>
                  IsBlock(c.T(), Key(w.index, w.begin)) && |w.block| <= BlockLength(c.T(), Key(w.index, w.begin))
  }

  /** Where writes stay inside blocks, a block has arrived exactly when one of them carried the whole block. */
  lemma BlockArrivedIff(c: Config, accepted: seq<Write>, k: Key)
    requires c.T().Valid() && IsBlock(c.T(), k) && StaysInBlocks(c, accepted, k.piece)
    ensures BlockArrived(c, accepted, k) <==>
              exists w :: w in accepted && At(w, k) && |w.block| == BlockLength(c.T(), k)
  {
    hide Covers, Ranges, BlockLength, PieceSize;
    if BlockArrived(c, accepted, k) {
      var last := k.begin + BlockLength(c.T(), k) - 1;
      assert BlockSlice(c.T(), k).Has(last);
      var w := RangesWrite(accepted, k.piece, last);
      var j := Key(w.index, w.begin);
      if j != k {
        BlocksApart(c.T(), j, k);
      }
      assert At(w, k) && |w.block| == BlockLength(c.T(), k);
    }
    if w :| w in accepted && At(w, k) && |w.block| == BlockLength(c.T(), k) {
      FullWriteArrives(c, accepted, k, w);
    }
  }

  /** When all blocks of a piece are done and no write was shorter than its block, the whole piece has arrived. */
  lemma AllDoneHasArrived(c: Config, run: seq<Action>, p: nat)
    requires c.T().Valid() && p < c.T().Pieces()
    requires forall k :: k in PieceKeys(c.T(), p) ==> Holds(Reach(c, run).view.tracker.done, k)
    requires forall w, k :: w in Reach(c, run).accepted && k in PieceKeys(c.T(), p) && At(w, k) ==>
                              |w.block| >= BlockLength(c.T(), k)
    ensures Arrived(c, Reach(c, run).accepted, p)
  {
    hide Reach, Covers, Ranges, At, Holds, BlockLength, PieceSize;
    forall x | 0 <= x < PieceSize(c.T(), p) ensures Covers(Ranges(Reach(c, run).accepted, p), x) {
      var k := BlockAt(c.T(), p, x);
      assert k in PieceKeys(c.T(), p);
      DoneHasArrived(c, run, k);
    }
  }

  // ------------------------------------------------------------------ a short block

  /** A peer connects, unchokes us and has the piece. */
  function Greeting(peer: PeerId): seq<Action> {
    [Connect(peer)] + [PeerChokes(peer, false)] + [PeerHave(peer, 0)]
  }

  function OnlyPeer(peer: PeerId): Supply {
    Supply(map[0 := {peer}], map[0 := peer], map[0 := 0])
  }

  /** The piece is asked for, and one byte of it arrives. */
  function ShortBlock(peer: PeerId): seq<Action> {
    Greeting(peer) + [Dispatch(OnlyPeer(peer), {}, 0)] + [WriteBlock(Write(0, 0, [7]))] + [Commit(0, 0)]
  }

  lemma Quiet(c: Config, e: EngineState, a: Action)
    requires c.T().Valid() && Sane(c, e) && (a.Connect? || a.PeerChokes? || a.PeerHave? || a.Dispatch?)
    ensures !a.Dispatch? ==> Next(c, e, a).view.tracker == e.view.tracker
    ensures Next(c, e, a).io == e.io && Next(c, e, a).pending == e.pending && Next(c, e, a).accepted == e.accepted
  {
    NextTracker(c, e, a);
    hide Inv, BitField.Packed, AllAdded, Requests;
  }

  lemma Greeted(c: Config, peer: PeerId)
    requires c.T().Valid()
    ensures var e := Reach(c, Greeting(peer)); var i := Initial(c);
            e.view.tracker == i.view.tracker && e.io == i.io && e.pending == [] && e.accepted == []
  {
    hide Sane, Next;
    var a, b, d := Connect(peer), PeerChokes(peer, false), PeerHave(peer, 0);
    assert [] + [a] == [a];
    ReachMore(c, [], a);
    ReachMore(c, [a], b);
    ReachMore(c, [a] + [b], d);
    hide Reach;
    Quiet(c, Initial(c), a);
    Quiet(c, Reach(c, [a]), b);
    Quiet(c, Reach(c, [a] + [b]), d);
  }

  lemma GreetingTells(peer: PeerId, q: PeerId)
    ensures var run := Greeting(peer);
            && (Known(run, q) <==> q == peer) && (Unchoked(run, q) <==> q == peer)
            && (Told(run, q, 0) <==> q == peer) && (HasChannel(run, q) <==> q == peer)
  {
    var one := [Connect(peer)];
    var two := one + [PeerChokes(peer, false)];
    assert one[..0] == [] && two[..1] == one && Greeting(peer)[..2] == two;
    assert !Known(one, q) && !Unchoked(one, q) && !Told(one, q, 0) && (HasChannel(one, q) <==> q == peer);
    assert !Told(two, q, 0) && (Unchoked(two, q) <==> q == peer) && (HasChannel(two, q) <==> q == peer);
  }

  lemma NothingStarted(c: Config)
    requires c.T().Valid() && c.T().Pieces() == 1
    ensures Initial(c).view.tracker.Incomplete() == {0}
  {
    assert Upto(1) == {0};
  }

  lemma OneEntry(m: map<nat, set<PeerId>>, peer: PeerId)
    requires m.Keys == {0} && forall q :: q in m[0] <==> q == peer
    ensures m == OnlyPeer(peer).peers
  {
    assert m[0] == {peer};
  }

  /** The piece is offered with the peer that was greeted, and with no other. */
  lemma OfferedBy(c: Config, peer: PeerId, q: PeerId)
    requires c.T().Valid() && c.T().Pieces() == 1
    ensures var e := Reach(c, Greeting(peer));
            e.view.PieceIdToPeers().Keys == {0} && (q in e.view.PieceIdToPeers()[0] <==> q == peer)
  {
    var e := Reach(c, Greeting(peer));
    Greeted(c, peer);
    NothingStarted(c);
    ReachMirrors(c, Greeting(peer), q, 0);
    GreetingTells(peer, q);
    assert e.view.Consistent();
    hide Reach, Inv, Greeting, Initial, Sane;
    AvailableExact(e.view, 0, q);
  }

  lemma Offered(c: Config, peer: PeerId)
    requires c.T().Valid() && c.T().Pieces() == 1
    ensures Reach(c, Greeting(peer)).view.PieceIdToPeers() == OnlyPeer(peer).peers
    ensures peer in Reach(c, Greeting(peer)).connected
  {
    ReachMirrors(c, Greeting(peer), peer, 0);
    GreetingTells(peer, peer);
    hide Reach, Greeting, Sane;
    var m := Reach(c, Greeting(peer)).view.PieceIdToPeers();
    OfferedBy(c, peer, peer);
    forall q ensures q in m[0] <==> q == peer {
      OfferedBy(c, peer, q);
    }
    OneEntry(m, peer);
  }

  lemma InOrderOne(n: nat)
    ensures InOrder({n}) == [n]
  {
    assert {n} - {Least({n})} == {} && InOrder({}) == [];
  }

  lemma OnlyPiece(peer: PeerId)
    ensures OnlyPeer(peer).Valid() && OnlyPeer(peer).Pieces() == [0]
  {
    hide InOrder;
    InOrderOne(0);
    assert OnlyPeer(peer).peers.Keys == {0};
  }

  lemma {:induction false} AllSent(e: EngineState, rs: seq<Request>, failing: set<nat>, n: nat, now: nat)
    requires n <= |rs| && forall i :: 0 <= i < n ==> IsSent(e, rs, failing, i)
    ensures Withdrawals(e, rs, failing, n, now) == []
  {
    if n > 0 {
      AllSent(e, rs, failing, n - 1, now);
    }
  }

  /** Every request of the dispatch is sent, so none is withdrawn. */
  lemma NothingWithdrawn(c: Config, e: EngineState, peer: PeerId)
    requires c.T().Valid() && Sane(c, e) && e.view.PieceIdToPeers() == OnlyPeer(peer).peers && peer in e.connected
    requires OnlyPeer(peer).Valid() && e.view.tracker.WithinCapacity()
    ensures var rs := Requests(c, e, OnlyPeer(peer)); Withdrawals(e, rs, {}, |rs|, 0) == []
  {
    hide Inv, Requests, Withdrawals, Sane;
    var rs := Requests(c, e, OnlyPeer(peer));
    forall i | 0 <= i < |rs| ensures IsSent(e, rs, {}, i) {
      RequestServed(c, e, OnlyPeer(peer), i);
    }
    AllSent(e, rs, {}, |rs|, 0);
  }

  lemma FirstAssigned(peer: PeerId)
    ensures OnlyPeer(peer).Valid()
    ensures AssignEvents(OnlyPeer(peer), OnlyPeer(peer).Pieces()) == [Event(0, Assign(0, Some(peer)))]
  {
    OnlyPiece(peer);
    hide InOrder;
  }

  lemma CanDispatch(e: EngineState, peer: PeerId)
    requires e.view.PieceIdToPeers() == OnlyPeer(peer).peers
    ensures Enabled(e, Dispatch(OnlyPeer(peer), {}, 0))
  {
  }

  lemma DispatchEvents(c: Config, e: EngineState, peer: PeerId)
    requires c.T().Valid() && Sane(c, e) && e.view.PieceIdToPeers() == OnlyPeer(peer).peers && peer in e.connected
    ensures e.view.tracker.WithinCapacity() && Enabled(e, Dispatch(OnlyPeer(peer), {}, 0))
    ensures TrackerEvents(c, e, Dispatch(OnlyPeer(peer), {}, 0)) == [Event(0, Assign(0, Some(peer)))]
  {
    InvDisjoint(c.T(), e.view.tracker);
    CanDispatch(e, peer);
    FirstAssigned(peer);
    hide Sane, OnlyPeer, AssignEvents, InOrder, Requests, Withdrawals, Enabled;
    NothingWithdrawn(c, e, peer);
  }

  /** Asking for the first piece puts its first block in flight. */
  lemma FirstInFlight(c: Config, peer: PeerId)
    requires c.T().Valid() && c.setup.maxOutstanding > 0
    ensures var es := [Event(0, Assign(0, Some(peer)))];
            Inv(c.T(), Initial(c).view.tracker) && Holds(Applied(c.T(), Initial(c).view.tracker, es).downloading, Key(0, 0))
  {
    var es := [Event(0, Assign(0, Some(peer)))];
    assert Keys(After(c.setup, []).downloading) == {};
    AskFirst(c.setup, [], peer, 0);
    AppliedIsRun(c.setup, [], es);
    hide Applied, Holds, Inv, Step;
    assert [] + es == es;
  }

  lemma Dispatched(c: Config, peer: PeerId)
    requires c.T().Valid() && c.T().Pieces() == 1 && c.setup.maxOutstanding > 0
    ensures var e := Reach(c, Greeting(peer) + [Dispatch(OnlyPeer(peer), {}, 0)]);
            && Holds(e.view.tracker.downloading, Key(0, 0))
            && e.io == Initial(c).io && e.pending == [] && e.accepted == []
  {
    var e, a := Reach(c, Greeting(peer)), Dispatch(OnlyPeer(peer), {}, 0);
    Greeted(c, peer);
    Offered(c, peer);
    hide Inv, Next, Applied, TrackerEvents, Enabled, Holds, Greeting, Initial, Reach;
    ReachMore(c, Greeting(peer), a);
    DispatchEvents(c, e, peer);
    NextTracker(c, e, a);
    FirstInFlight(c, peer);
    Quiet(c, e, a);
  }

  /** A message without bytes is accepted, too, and leaves an empty slice. */
  lemma EmptyBlockAccepted(c: Config, begin: nat)
    requires c.T().Valid() && begin <= PieceSize(c.T(), 0)
    ensures var w := Write(0, begin, []); var (io, r) := IoWrite(c, Initial(c).io, w);
            Accepts(c, Initial(c).io, w) && io.SlicesOf()[0] == [Slice(begin, begin)] && r == Ok(false)
  {
    InsertedFirst(Slice(begin, begin));
    hide Inserted, PieceSize, Splice, Start, FileIo.PieceBytes;
  }

  /** One byte of a longer piece is accepted and does not finish it. */
  lemma ByteAccepted(c: Config)
    requires c.T().Valid() && c.T().Pieces() == 1 && c.T().length > 1
    ensures var w := Write(0, 0, [7]); Accepts(c, Initial(c).io, w) && IoWrite(c, Initial(c).io, w).1 == Ok(false)
  {
    OnlyPieceSize(c.T());
    InsertedFirst(Slice(0, 1));
    hide Inserted, PieceSize, Splice, Start, FileIo.PieceBytes, Torrent.Valid;
  }

  lemma OnlyPieceSize(t: Torrent)
    requires t.Valid() && t.Pieces() == 1
    ensures PieceSize(t, 0) == t.length < U32_LIMIT
  {
  }

  lemma ByteHandled(c: Config, e: EngineState)
    requires c.T().Valid() && Sane(c, e) && e.pending == [] && e.accepted == []
    requires var w := Write(0, 0, [7]); Accepts(c, e.io, w) && IoWrite(c, e.io, w).1 == Ok(false)
    ensures var e' := Next(c, e, WriteBlock(Write(0, 0, [7])));
            && e'.view == e.view && e'.pending == [Pending(0, 0, false)] && e'.accepted == [Write(0, 0, [7])]
  {
    hide Inv, Accepts, IoWrite, Applied, TrackerEvents;
  }

  lemma BlockHandled(c: Config, e: EngineState)
    requires c.T().Valid() && Sane(c, e) && e.pending == [Pending(0, 0, false)]
    requires Holds(e.view.tracker.downloading, Key(0, 0))
    ensures var e' := Next(c, e, Commit(0, 0));
            Holds(e'.view.tracker.done, Key(0, 0)) && e'.accepted == e.accepted && e'.pending == []
  {
    NextTracker(c, e, Commit(0, 0));
    NextAccepted(c, e, Commit(0, 0));
    CommitApplied(c, e, Commit(0, 0));
    hide Inv, Applied, Sane;
  }

  lemma ByteCovers(x: int)
    ensures Covers(Ranges([Write(0, 0, [7])], 0), x) <==> x == 0
  {
    hide Covers, Ranges;
    assert [] + [Write(0, 0, [7])] == [Write(0, 0, [7])];
    RangesMore([], Write(0, 0, [7]), 0, x);
    NothingCovered(0, x);
  }

  /**
   For instance, when one byte of a longer piece arrives in place of its first block, that
   block counts as done, so that it is not asked for again, and its other bytes are missing.
   */
  lemma ShortBlockIsDone(c: Config, peer: PeerId)
    requires c.T().Valid() && c.T().Pieces() == 1 && c.T().length > 1 && c.setup.maxOutstanding > 0
    ensures var e := Reach(c, ShortBlock(peer));
            && Holds(e.view.tracker.done, Key(0, 0))
            && BlockSlice(c.T(), Key(0, 0)).Has(1) && !Covers(Ranges(e.accepted, 0), 1)
            && e.pending == []
  {
    var asked := Greeting(peer) + [Dispatch(OnlyPeer(peer), {}, 0)];
    var w, a := WriteBlock(Write(0, 0, [7])), Commit(0, 0);
    assert BlockSlice(c.T(), Key(0, 0)).Has(1);
    Dispatched(c, peer);
    ByteAccepted(c);
    ByteCovers(1);
    hide Inv, Next, Reach, Holds, Greeting, Accepts, IoWrite, Covers, Ranges, Initial, Sane, BlockSlice;
    ByteHandled(c, Reach(c, asked));
    ReachMore(c, asked, w);
    BlockHandled(c, Reach(c, asked + [w]));
    ReachMore(c, asked + [w], a);
  }
}
