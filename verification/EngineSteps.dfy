/**
 What single steps of the engine do, in terms of what happened before: what a new peer is
 told, what a timer drops, what becomes of a block that arrived, and what peers are told about
 our interest.
 */
module EngineSteps {
  import opened Common
  import opened Torrents
  import opened Storage
  import opened Blocks
  import opened Tracker
  import opened Assignments
  import opened PeerState
  import opened Engine
  import opened EngineSafety
  import BitField

  // ------------------------------------------------------------------ what peers are told

  lemma NextConnect(c: Config, e: EngineState, q: PeerId)
    requires c.T().Valid() && Sane(c, e)
    ensures var e' := Next(c, e, Connect(q));
            && e'.bitfields == e.bitfields + [BitField.Packed(e.view.tracker.completed, c.T().Pieces())]
            && e'.connected == e.connected + {q}
  {
    hide Sane, Applied, TrackerEvents, BitField.Packed;
  }

  /** A new peer is sent one bit field, which names exactly the completed pieces. */
  lemma ConnectTells(c: Config, run: seq<Action>, q: PeerId)
    requires c.T().Valid()
    ensures var e, e' := Reach(c, run), Reach(c, run + [Connect(q)]);
            && |e'.bitfields| == |e.bitfields| + 1 && e'.bitfields[..|e.bitfields|] == e.bitfields
            && BitField.SetBits(e'.bitfields[|e.bitfields|]) == e.view.tracker.completed
            && |e'.bitfields[|e.bitfields|]| == (c.T().Pieces() + 7) / 8
            && q in e'.connected
  {
    hide Reach, Next, Sane, BitField.SetBits, BitField.Packed, AllPieces;
    var e := Reach(c, run);
    ReachMore(c, run, Connect(q));
    NextConnect(c, e, q);
    TrackerRunInRange(c, run);
    BitField.RoundTrip(e.view.tracker.completed, c.T().Pieces());
    BelowAll(c.T(), e.view.tracker);
  }

  lemma BelowAll(t: Torrent, s: State)
    requires AllPieces(t, s)
    ensures (set i | i in s.completed && i < t.Pieces()) == s.completed
  {
    forall i | i in s.completed ensures i < t.Pieces() {
      assert i in Upto(t.Pieces());
    }
  }

  /** A finished piece can be announced from then on, and announcing it tells peers of exactly that piece. */
  lemma AnnounceTells(c: Config, e: EngineState, a: Action, p: nat)
    requires c.T().Valid() && Sane(c, e) && Enabled(e, a)
    ensures a == Announce(p) ==> Next(c, e, a).haves == e.haves + {p}
    ensures !a.Announce? ==> Next(c, e, a).haves == e.haves
    ensures a.Commit? && e.pending[a.which] == Pending(p, e.pending[a.which].begin, true) ==>
              Enabled(Next(c, e, a), Announce(p))
  {
    hide Sane, Applied, TrackerEvents, BitField.Packed, IoWrite, Accepts;
  }

  // ------------------------------------------------------------------ the timer

  /**
   A tick drops a block in flight exactly when some request for it, even an earlier one that
   was withdrawn, is old by now and was not found old by an earlier tick.
   */
  lemma TickExpires(c: Config, run: seq<Action>, now: nat, k: Key)
    requires c.T().Valid() && MonotoneClock(TrackerRun(c, run) + [Event(now, Expire)])
    requires Holds(Reach(c, run).view.tracker.downloading, k)
    ensures var es := TrackerRun(c, run);
            !Holds(Reach(c, run + [Tick(now)]).view.tracker.downloading, k) <==>
              exists i :: 0 <= i < |es| && IssuedAt(c.setup, es, i, k) && Old(c.setup, es, i, now) && NeverOld(c.setup, es, i)
  {
    hide Reach, After, IssuedAt, NeverOld, Old, MonotoneClock, Holds, Sane;
    TrackerIsRun(c, run);
    TrackerIsRun(c, run + [Tick(now)]);
    TickEvents(c, run, now);
    ExpiresByHistory(c.setup, TrackerRun(c, run), now, k);
  }

  lemma TickEvents(c: Config, run: seq<Action>, now: nat)
    requires c.T().Valid()
    ensures TrackerRun(c, run + [Tick(now)]) == TrackerRun(c, run) + [Event(now, Expire)]
  {
    hide Reach, Sane;
    assert (run + [Tick(now)])[..|run|] == run;
  }

  // ------------------------------------------------------------------ a block that arrived

  /** Only an accepted write whose piece did not turn out wrong leaves its handler to take the lock. */
  lemma WriteHandled(c: Config, e: EngineState, w: Write)
    requires c.T().Valid() && Sane(c, e)
    ensures var r, e' := IoWrite(c, e.io, w).1, Next(c, e, WriteBlock(w));
            && e'.view == e.view
            && (r.Err? ==> e'.pending == e.pending)
            && (r.Ok? ==> e'.pending == e.pending + [Pending(w.index, w.begin, r.value)])
  {
    hide Sane, IoWrite, Accepts, Applied, TrackerEvents;
  }

  /** Handling a block that was in flight makes it done, with its request, and changes no other block. */
  lemma BlockDone(c: Config, e: EngineState, i: nat, now: nat, k: Key)
    requires c.T().Valid() && Sane(c, e) && i < |e.pending| && !e.pending[i].finished
    ensures var s, s' := e.view.tracker, Next(c, e, Commit(i, now)).view.tracker; var j := Key(e.pending[i].index, e.pending[i].begin);
            && (k == j && Holds(s.downloading, k) ==>
                  !Holds(s'.downloading, k) && Holds(s'.done, k) && Lookup(s'.done, k) == Lookup(s.downloading, k))
            && (k != j ==> (Holds(s'.downloading, k) <==> Holds(s.downloading, k)) && (Holds(s'.done, k) <==> Holds(s.done, k)))
            && (!Holds(s.downloading, j) ==> s' == s)
            && s'.completed == s.completed
  {
    hide Inv, Next, Applied, Keys;
    NextTracker(c, e, Commit(i, now));
    CommitApplied(c, e, Commit(i, now));
  }

  /** Handling a block that finished its piece completes the piece and forgets its blocks only. */
  lemma PieceDone(c: Config, e: EngineState, i: nat, now: nat, k: Key)
    requires c.T().Valid() && Sane(c, e) && i < |e.pending| && e.pending[i].finished
    ensures var s, s' := e.view.tracker, Next(c, e, Commit(i, now)).view.tracker; var p := e.pending[i].index;
            && s'.completed == s.completed + {p}
            && (Holds(s'.downloading, k) <==> Holds(s.downloading, k) && k.piece != p)
            && (Holds(s'.done, k) <==> Holds(s.done, k) && k.piece != p)
  {
    hide Inv, Next, Applied, Keys;
    NextTracker(c, e, Commit(i, now));
    CommitApplied(c, e, Commit(i, now));
  }

  /** Each entry is handled once. */
  lemma PendingTaken(c: Config, e: EngineState, i: nat, now: nat)
    requires c.T().Valid() && Sane(c, e) && i < |e.pending|
    ensures Next(c, e, Commit(i, now)).pending == e.pending[..i] + e.pending[i + 1..]
  {
    hide Sane, Applied, TrackerEvents;
  }

  // ------------------------------------------------------------------ what is offered to planning

  /**
   In every interleaving planning is offered every piece that is not completed; and no other,
   if no piece was finished that was not started.
   */
  lemma OffersIncomplete(c: Config, run: seq<Action>, p: nat)
    requires c.T().Valid()
    ensures var s := Reach(c, run).view;
            && (p < c.T().Pieces() && p !in s.tracker.completed ==> p in s.PieceIdToPeers())
            && (FinishesStarted(c, run) && p in s.PieceIdToPeers() ==> p < c.T().Pieces() && p !in s.tracker.completed)
  {
    hide Reach, Sane, FinishesStarted, ApartThroughout;
    TrackerRunInRange(c, run);
    ReachApartIff(c, run);
    ApartNow(c, run);
    var s := Reach(c, run).view.tracker;
    assert p in Upto(c.T().Pieces()) <==> p in s.notStarted + s.Started() + s.completed;
  }

  // ------------------------------------------------------------------ our interest

  /** No known peer is choked by us, and every peer that has a piece we have not started was told of our interest. */
  ghost predicate FlagsRight(s: TorrentView) {
    forall q :: q in s.peers ==> !s.peers[q].choked && (s.InterestedIn(q) ==> s.peers[q].interested)
  }

  lemma UnknownUninteresting(s: TorrentView, q: PeerId)
    requires s.Consistent() && q !in s.peers
    ensures !s.InterestedIn(q)
  {
    forall p ensures p !in s.pieceMap.PiecesOf(q) {
      assert !s.pieceMap.Has(q, p);
    }
  }

  lemma AddedFlags(s: TorrentView, peer: PeerId)
    requires s.Consistent() && FlagsRight(s)
    ensures FlagsRight(PeerAdded(s, peer))
  {
    if peer !in s.peers {
      UnknownUninteresting(s, peer);
    }
    forall q | q in PeerAdded(s, peer).peers
      ensures !PeerAdded(s, peer).peers[q].choked
      ensures PeerAdded(s, peer).InterestedIn(q) ==> PeerAdded(s, peer).peers[q].interested
    {
      assert PeerAdded(s, peer).InterestedIn(q) == s.InterestedIn(q);
    }
  }

  lemma PiecesFlags(s: TorrentView, peer: PeerId, pieces: seq<nat>)
    requires s.Consistent() && FlagsRight(s)
    ensures FlagsRight(PiecesAdded(s, peer, pieces).0)
  {
    hide AllAdded;
    AddedFlags(s, peer);
    var added, s' := PeerAdded(s, peer), PiecesAdded(s, peer, pieces).0;
    forall q | q in s'.peers ensures !s'.peers[q].choked && (s'.InterestedIn(q) ==> s'.peers[q].interested) {
      if q != peer {
        forall p ensures p in s'.pieceMap.PiecesOf(q) <==> p in s.pieceMap.PiecesOf(q) {
          assert s'.pieceMap.Has(q, p) <==> s.pieceMap.Has(q, p);
        }
        assert s'.pieceMap.PiecesOf(q) == added.pieceMap.PiecesOf(q);
      }
    }
  }

  lemma GoneFlags(s: TorrentView, peer: PeerId)
    requires FlagsRight(s)
    ensures FlagsRight(PeerGone(s, peer))
  {
    hide PeerRemoved;
    var s' := PeerGone(s, peer);
    forall q | q in s'.peers ensures !s'.peers[q].choked && (s'.InterestedIn(q) ==> s'.peers[q].interested) {
      forall p ensures p in s'.pieceMap.PiecesOf(q) <==> p in s.pieceMap.PiecesOf(q) {
        assert s'.pieceMap.Has(q, p) <==> s.pieceMap.Has(q, p);
      }
      assert s'.pieceMap.PiecesOf(q) == s.pieceMap.PiecesOf(q);
    }
  }

  lemma TrackerFlags(s: TorrentView, tracker: State)
    requires FlagsRight(s) && tracker.notStarted <= s.tracker.notStarted
    ensures FlagsRight(s.(tracker := tracker))
  {
    var s' := s.(tracker := tracker);
    forall q | q in s'.peers ensures s'.InterestedIn(q) ==> s.InterestedIn(q) {
      if s'.InterestedIn(q) {
        var p :| p in s'.tracker.notStarted * s'.pieceMap.PiecesOf(q);
        assert p in s.tracker.notStarted * s.pieceMap.PiecesOf(q);
      }
    }
  }

  lemma StepFlags(c: Config, e: EngineState, a: Action)
    requires c.T().Valid() && Sane(c, e) && FlagsRight(e.view)
    ensures FlagsRight(Next(c, e, a).view)
  {
    hide Next, Inv, FlagsRight, InOrder, BitField.SetBits, PiecesAdded, PeerGone, IoOk;
    NextView(c, e, a);
    NextNotStarted(c, e, a);
    match a
    case PeerChokes(peer, choked) => SetFlags(e.view, peer, choked);
    case PeerInterested(peer, interested) => SetFlags(e.view, peer, interested);
    case PeerHave(peer, piece) => PiecesFlags(e.view, peer, [piece]);
    case PeerBitField(peer, bitfield) => PiecesFlags(e.view, peer, InOrder(BitField.SetBits(bitfield)));
    case Close(peer) => GoneFlags(e.view, peer);
    case _ => TrackerFlags(e.view, Next(c, e, a).view.tracker);
  }

  lemma SetFlags(s: TorrentView, peer: PeerId, b: bool)
    requires s.Consistent() && FlagsRight(s)
    ensures FlagsRight(ChokeSet(s, peer, b)) && FlagsRight(InterestSet(s, peer, b))
  {
    hide TorrentView.Consistent;
    AddedFlags(s, peer);
    var added := PeerAdded(s, peer);
    forall q | q in added.peers
      ensures ChokeSet(s, peer, b).InterestedIn(q) == added.InterestedIn(q) == InterestSet(s, peer, b).InterestedIn(q)
    {
    }
  }

  /**
   In every interleaving no known peer is choked in our books, although each is sent a choke
   when it connects; and a peer that has a piece we have not started was told of our interest.
   */
  lemma {:induction false} InterestIsTold(c: Config, run: seq<Action>, q: PeerId)
    requires c.T().Valid()
    ensures FlagsRight(Reach(c, run).view)
    ensures q in Reach(c, run).view.peers ==>
              && !Reach(c, run).view.peers[q].choked
              && (Reach(c, run).view.InterestedIn(q) ==> Reach(c, run).view.peers[q].interested)
  {
    if run != [] {
      hide Next, Sane;
      var front := run[..|run| - 1];
      InterestIsTold(c, front, q);
      StepFlags(c, Reach(c, front), run[|run| - 1]);
      ReachLast(c, run);
    }
  }
}
