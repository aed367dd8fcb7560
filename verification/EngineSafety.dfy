/**
 What holds in every interleaving of the engine's steps: nothing is announced that has not
 arrived, the tracker's guarantees carry over, and requests go to the right peers.
 */
module EngineSafety {
  import opened Common
  import opened Torrents
  import opened SliceTracking
  import opened Storage
  import opened Blocks
  import opened Tracker
  import opened Assignments
  import opened PeerState
  import opened Engine
  import BitField
  import FileIo
  import MemoryIo

  // ------------------------------------------------------------------ the tracker of the engine

  /** The tracker events of a run, in order. */
  ghost function TrackerRun(c: Config, run: seq<Action>): seq<Event>
    requires c.T().Valid()
  {
    if run == [] then []
    else
      var e, a := Reach(c, run[..|run| - 1]), run[|run| - 1];
      TrackerRun(c, run[..|run| - 1]) + if Enabled(e, a) then TrackerEvents(c, e, a) else []
  }

  lemma AppliedSnoc(t: Torrent, s: State, fs: seq<Event>, f: Event)
    requires t.Valid() && Inv(t, s)
    ensures Applied(t, s, fs + [f]) == Step(t, Applied(t, s, fs), f)
  {
    assert (fs + [f])[..|fs|] == fs;
  }

  lemma {:induction false} AppliedIsRun(c: Setup, es: seq<Event>, fs: seq<Event>)
    requires c.torrent.Valid()
    ensures After(c, es + fs) == Applied(c.torrent, After(c, es), fs)
  {
    if fs == [] {
      assert es + fs == es;
    } else {
      hide After, Applied, Step, Inv;
      var front, f := fs[..|fs| - 1], fs[|fs| - 1];
      AppliedIsRun(c, es, front);
      LastSplit(fs);
      SeqAssoc(es, front, [f]);
      AfterSnoc(c, es + front, f);
      AppliedSnoc(c.torrent, After(c, es), front, f);
    }
  }

  lemma NextTracker(c: Config, e: EngineState, a: Action)
    requires c.T().Valid() && Sane(c, e)
    ensures Next(c, e, a).view.tracker ==
              if Enabled(e, a) then Applied(c.T(), e.view.tracker, TrackerEvents(c, e, a)) else e.view.tracker
  {
    hide Inv, Step, IoWrite, BitField.Packed, InOrder, AllAdded, PeerRemoved;
  }

  /** In every run of the engine the tracker is in a state that a run of its own events reaches. */
  lemma {:induction false} TrackerIsRun(c: Config, run: seq<Action>)
    requires c.T().Valid()
    ensures Reach(c, run).view.tracker == After(c.setup, TrackerRun(c, run))
  {
    if run != [] {
      hide Inv, Next, TrackerEvents, Step, Applied;
      var front, a := run[..|run| - 1], run[|run| - 1];
      var e := Reach(c, front);
      TrackerIsRun(c, front);
      NextTracker(c, e, a);
      if Enabled(e, a) {
        AppliedIsRun(c.setup, TrackerRun(c, front), TrackerEvents(c, e, a));
      } else {
        assert TrackerRun(c, run) == TrackerRun(c, front);
      }
    }
  }

  // ------------------------------------------------------------------ what was announced has arrived

  /** The ranges of a piece that accepted writes have covered, in the order of the writes. */
  function Ranges(accepted: seq<Write>, p: nat): (ss: seq<Slice>)
    ensures Ordered(ss)
  {
    if accepted == [] then []
    else
      var w := accepted[|accepted| - 1];
      Ranges(accepted[..|accepted| - 1], p) + if w.index == p then [Slice(w.begin, w.begin + |w.block|)] else []
  }

  /** Every byte of the piece was in an accepted write. */
  ghost predicate Arrived(c: Config, accepted: seq<Write>, p: nat)
    requires c.T().Valid()
  {
    p < c.T().Pieces() && forall x :: 0 <= x < PieceSize(c.T(), p) ==> Covers(Ranges(accepted, p), x)
  }

  /** Piece `p` is finished as far as a handler knows. */
  ghost predicate FinishPending(e: EngineState, p: nat) {
    exists i :: 0 <= i < |e.pending| && e.pending[i].finished && e.pending[i].index == p
  }

  ghost predicate InBitField(e: EngineState, p: nat) {
    exists i :: 0 <= i < |e.bitfields| && p in BitField.SetBits(e.bitfields[i])
  }

  /** The client holds the piece to be complete, or has told a peer so. */
  ghost predicate Claimed(e: EngineState, p: nat) {
    p in e.view.tracker.completed || p in e.toAnnounce || p in e.haves || FinishPending(e, p) || InBitField(e, p)
  }

  lemma RangesMore(accepted: seq<Write>, w: Write, p: nat, x: int)
    ensures Covers(Ranges(accepted + [w], p), x) <==>
              || Covers(Ranges(accepted, p), x)
              || (w.index == p && Slice(w.begin, w.begin + |w.block|).Has(x))
  {
    assert (accepted + [w])[..|accepted|] == accepted;
    var s := Slice(w.begin, w.begin + |w.block|);
    CoversConcat(Ranges(accepted, p), if w.index == p then [s] else [], x);
    assert Covers([s], x) <==> s.Has(x) by {
      assert [s][0] == s;
    }
  }

  lemma ArrivedMore(c: Config, accepted: seq<Write>, w: Write, p: nat)
    requires c.T().Valid() && Arrived(c, accepted, p)
    ensures Arrived(c, accepted + [w], p)
  {
    forall x | 0 <= x < PieceSize(c.T(), p) ensures Covers(Ranges(accepted + [w], p), x) {
      RangesMore(accepted, w, p, x);
    }
  }

  /** What a write does to the slices, in either kind of storage. */
  lemma IoWriteSlices(c: Config, io: Io, w: Write)
    requires c.T().Valid() && IoOk(c, io)
    ensures !Accepts(c, io, w) ==> IoWrite(c, io, w).0 == io && IoWrite(c, io, w).1.Err?
    ensures Accepts(c, io, w) ==>
              && w.index < c.T().Pieces() == |io.SlicesOf()|
              && Sorted(io.SlicesOf()[w.index])
              && IoWrite(c, io, w).0.SlicesOf() ==
                 io.SlicesOf()[w.index := Inserted(io.SlicesOf()[w.index], Slice(w.begin, w.begin + |w.block|))]
    ensures IoWrite(c, io, w).1 == Ok(true) ==>
              w.index < |IoWrite(c, io, w).0.SlicesOf()| &&
              IsComplete(IoWrite(c, io, w).0.SlicesOf()[w.index], PieceSize(c.T(), w.index))
  {
    hide Inserted, IsComplete, PieceSize;
  }

  /** The slices claim no more than what was written. */
  ghost predicate SlicesSound(c: Config, e: EngineState)
    requires c.T().Valid()
  {
    |e.io.SlicesOf()| == c.T().Pieces() &&
    forall p, x :: 0 <= p < c.T().Pieces() && Covers(e.io.SlicesOf()[p], x) ==> Covers(Ranges(e.accepted, p), x)
  }

  ghost predicate ClaimsArrived(c: Config, e: EngineState)
    requires c.T().Valid()
  {
    forall p :: Claimed(e, p) ==> Arrived(c, e.accepted, p)
  }

  lemma WriteSound(c: Config, e: EngineState, w: Write)
    requires c.T().Valid() && Sane(c, e) && SlicesSound(c, e)
    ensures SlicesSound(c, Next(c, e, WriteBlock(w)))
    ensures IoWrite(c, e.io, w).1 == Ok(true) ==> Arrived(c, Next(c, e, WriteBlock(w)).accepted, w.index)
  {
    hide Inv, PieceSize, Inserted, Ranges, Accepts, IoWrite, Covers;
    var e' := Next(c, e, WriteBlock(w));
    IoWriteSlices(c, e.io, w);
    forall p, x | 0 <= p < c.T().Pieces() && Covers(e'.io.SlicesOf()[p], x)
      ensures Covers(Ranges(e'.accepted, p), x)
    {
      if Accepts(c, e.io, w) {
        RangesMore(e.accepted, w, p, x);
        if p == w.index {
          InsertedCovers(e.io.SlicesOf()[p], Slice(w.begin, w.begin + |w.block|), x);
        }
      }
    }
    if IoWrite(c, e.io, w).1 == Ok(true) {
      forall x | 0 <= x < PieceSize(c.T(), w.index) ensures Covers(Ranges(e'.accepted, w.index), x) {
        CompleteCovers(e'.io.SlicesOf()[w.index], PieceSize(c.T(), w.index), x);
      }
    }
  }

  lemma CompleteCovers(ss: seq<Slice>, size: nat, x: nat)
    requires IsComplete(ss, size) && x < size < U32_LIMIT
    ensures Covers(ss, x)
  {
    assert ss[0].Has(x);
  }

  lemma {:induction false} AppliedCompleted(t: Torrent, s: State, es: seq<Event>)
    requires t.Valid() && Inv(t, s)
    requires forall e :: e in es ==> !e.op.FinishPiece?
    ensures Applied(t, s, es).completed == s.completed
  {
    if es != [] {
      hide Inv, Step, Issued;
      var front, e := es[..|es| - 1], es[|es| - 1];
      AppliedCompleted(t, s, front);
      InvDisjoint(t, Applied(t, s, front));
      StepPieces(t, Applied(t, s, front), e);
      assert e in es;
    }
  }

  lemma {:induction false} WithdrawalsOnly(e: EngineState, rs: seq<Request>, failing: set<nat>, n: nat, now: nat)
    requires n <= |rs|
    ensures forall f :: f in Withdrawals(e, rs, failing, n, now) ==> f.op.RemoveRequest?
  {
    if n > 0 {
      WithdrawalsOnly(e, rs, failing, n - 1, now);
    }
  }

  /** The only step that completes a piece is committing a finished write. */
  lemma NextCompleted(c: Config, e: EngineState, a: Action)
    requires c.T().Valid() && Sane(c, e)
    ensures Next(c, e, a).view.tracker.completed ==
              e.view.tracker.completed +
              if a.Commit? && a.which < |e.pending| && e.pending[a.which].finished then {e.pending[a.which].index} else {}
  {
    hide Inv, Next, Step, Issued, Withdrawals, AssignEvents, Requests;
    NextTracker(c, e, a);
    InvDisjoint(c.T(), e.view.tracker);
    if Enabled(e, a) {
      var es := TrackerEvents(c, e, a);
      match a
      case Commit(i, now) =>
        assert es[..0] == [];
        StepPieces(c.T(), e.view.tracker, es[0]);
      case Dispatch(supply, failing, now) =>
        var rs := Requests(c, e, supply);
        WithdrawalsOnly(e, rs, failing, |rs|, now);
        AssignEventsOnly(supply, supply.Pieces());
        AppliedCompleted(c.T(), e.view.tracker, es);
      case _ =>
        AppliedCompleted(c.T(), e.view.tracker, es);
    }
  }

  lemma AssignEventsOnly(a: Supply, ps: seq<nat>)
    requires a.Valid() && forall p :: p in ps ==> p in a.peers
    ensures forall e :: e in AssignEvents(a, ps) ==> e.op.Assign? && e.op.piece in ps
  {
  }

  /** Claims grow only from claims, except when a write finishes a piece. */
  lemma NewClaims(c: Config, e: EngineState, a: Action, p: nat)
    requires c.T().Valid() && Sane(c, e) && Claimed(Next(c, e, a), p)
    ensures Claimed(e, p) || (a.WriteBlock? && a.write.index == p && IoWrite(c, e.io, a.write).1 == Ok(true))
  {
    hide Inv, TrackerEvents, IoWrite, Applied, BitField.Packed, InOrder, BitField.SetBits;
    var e' := Next(c, e, a);
    NextCompleted(c, e, a);
    if FinishPending(e', p) {
      var i :| 0 <= i < |e'.pending| && e'.pending[i].finished && e'.pending[i].index == p;
      if Enabled(e, a) && a.Commit? && a.which <= i {
        assert e'.pending[i] == e.pending[i + 1];
      }
    }
    if InBitField(e', p) {
      var i :| 0 <= i < |e'.bitfields| && p in BitField.SetBits(e'.bitfields[i]);
      if i == |e.bitfields| {
        BitField.RoundTrip(e.view.tracker.completed, c.T().Pieces());
      }
    }
  }

  lemma NextAccepted(c: Config, e: EngineState, a: Action)
    requires c.T().Valid() && Sane(c, e)
    ensures a.WriteBlock? && Accepts(c, e.io, a.write) ==> Next(c, e, a).accepted == e.accepted + [a.write]
    ensures !(a.WriteBlock? && Accepts(c, e.io, a.write)) ==>
              Next(c, e, a).accepted == e.accepted && Next(c, e, a).io == e.io
  {
    hide Inv, TrackerEvents, IoWrite, Applied, Accepts, BitField.Packed;
    if a.WriteBlock? {
      IoWriteSlices(c, e.io, a.write);
    }
  }

  lemma StepSound(c: Config, e: EngineState, a: Action)
    requires c.T().Valid() && Sane(c, e) && SlicesSound(c, e) && ClaimsArrived(c, e)
    ensures SlicesSound(c, Next(c, e, a)) && ClaimsArrived(c, Next(c, e, a))
  {
    hide Inv, Next, Accepts, IoWrite, Claimed, Arrived, Ranges, Covers;
    var e' := Next(c, e, a);
    NextAccepted(c, e, a);
    if a.WriteBlock? {
      WriteSound(c, e, a.write);
    }
    forall p | Claimed(e', p) ensures Arrived(c, e'.accepted, p) {
      NewClaims(c, e, a, p);
      if Claimed(e, p) && a.WriteBlock? && Accepts(c, e.io, a.write) {
        ArrivedMore(c, e.accepted, a.write, p);
      }
    }
  }

  lemma {:induction false} ReachSound(c: Config, run: seq<Action>)
    requires c.T().Valid()
    ensures SlicesSound(c, Reach(c, run)) && ClaimsArrived(c, Reach(c, run))
  {
    if run == [] {
      InitialSound(c);
    } else {
      hide Sane, Next, SlicesSound, ClaimsArrived;
      ReachSound(c, run[..|run| - 1]);
      StepSound(c, Reach(c, run[..|run| - 1]), run[|run| - 1]);
    }
  }

  lemma InitialSound(c: Config)
    requires c.T().Valid()
    ensures SlicesSound(c, Initial(c)) && ClaimsArrived(c, Initial(c))
  {
  }

  /**
   Whatever the interleaving, a piece that is held to be complete, or that a peer was told
   of by a `Have` or a bit field, has had each of its bytes in an accepted write.
   */
  lemma AnnouncedHasArrived(c: Config, run: seq<Action>, p: nat)
    requires c.T().Valid() && Claimed(Reach(c, run), p)
    ensures p < c.T().Pieces()
    ensures forall x :: 0 <= x < PieceSize(c.T(), p) ==> Covers(Ranges(Reach(c, run).accepted, p), x)
  {
    hide Claimed, Reach;
    ReachSound(c, run);
  }

  // ------------------------------------------------------------------ with the file: verified for good

  /** Every claimed piece that stands alone in the file has the bytes that its hash promises. */
  ghost predicate ClaimsVerified(c: Config, e: EngineState)
    requires c.T().Valid() && Sane(c, e)
  {
    c.useFile ==> forall p :: Claimed(e, p) && StandsAlone(c.T(), p) ==> FileIo.Verified(c.T(), c.sha1, e.io.file, p)
  }

  /** A step leaves the bytes of a complete piece as they are. */
  lemma StepKeepsComplete(c: Config, e: EngineState, a: Action, p: nat)
    requires c.T().Valid() && Sane(c, e) && c.useFile && StandsAlone(c.T(), p)
    requires p < c.T().Pieces() && FileIo.Complete(c.T(), e.io.file, p)
    ensures FileIo.Complete(c.T(), Next(c, e, a).io.file, p)
    ensures FileIo.PieceBytes(c.T(), Next(c, e, a).io.file, p) == FileIo.PieceBytes(c.T(), e.io.file, p)
  {
    hide Inv, TrackerEvents, Applied, Accepts, BitField.Packed, FileIo.PieceBytes, FileIo.Written, IsComplete, PieceSize;
    if a.WriteBlock? {
      FileIo.WriteKeepsComplete(c.T(), c.sha1, e.io.file, a.write, p);
    } else {
      NextAccepted(c, e, a);
    }
  }

  lemma StepVerified(c: Config, e: EngineState, a: Action)
    requires c.T().Valid() && Sane(c, e) && ClaimsVerified(c, e)
    ensures ClaimsVerified(c, Next(c, e, a))
  {
    hide Inv, Claimed, FileIo.PieceBytes, FileIo.Written, IsComplete, PieceSize, TrackerEvents, Applied, BitField.Packed;
    if c.useFile {
      var e' := Next(c, e, a);
      forall p | Claimed(e', p) && StandsAlone(c.T(), p) ensures FileIo.Verified(c.T(), c.sha1, e'.io.file, p) {
        NewClaims(c, e, a, p);
        if Claimed(e, p) {
          StepKeepsComplete(c, e, a, p);
        } else {
          FileIo.TrueMeansVerified(c.T(), c.sha1, e.io.file, a.write);
        }
      }
    }
  }

  lemma {:induction false} ReachVerified(c: Config, run: seq<Action>)
    requires c.T().Valid()
    ensures ClaimsVerified(c, Reach(c, run))
  {
    if run == [] {
    } else {
      hide Sane, Next, ClaimsVerified;
      ReachVerified(c, run[..|run| - 1]);
      StepVerified(c, Reach(c, run[..|run| - 1]), run[|run| - 1]);
    }
  }

  lemma ReachMore(c: Config, run: seq<Action>, a: Action)
    requires c.T().Valid()
    ensures Reach(c, run + [a]) == Next(c, Reach(c, run), a)
  {
    assert (run + [a])[..|run|] == run;
  }

  lemma {:induction false} LaterKeepsComplete(c: Config, run: seq<Action>, later: seq<Action>, p: nat)
    requires c.T().Valid() && c.useFile && StandsAlone(c.T(), p) && p < c.T().Pieces()
    requires FileIo.Complete(c.T(), Reach(c, run).io.file, p)
    ensures FileIo.Complete(c.T(), Reach(c, run + later).io.file, p)
    ensures FileIo.PieceBytes(c.T(), Reach(c, run + later).io.file, p) == FileIo.PieceBytes(c.T(), Reach(c, run).io.file, p)
  {
    if later == [] {
      assert run + later == run;
    } else {
      hide Reach, Next, FileIo.PieceBytes, FileIo.Complete, Inv;
      var front, a := later[..|later| - 1], later[|later| - 1];
      LastSplit(later);
      SeqAssoc(run, front, [a]);
      LaterKeepsComplete(c, run, front, p);
      ReachMore(c, run + front, a);
      StepKeepsComplete(c, Reach(c, run + front), a, p);
    }
  }

  /**
   With the file: what was once announced and stands alone there matches its hash, and it
   reads the same after every further run of the engine.
   */
  lemma AnnouncedForever(c: Config, run: seq<Action>, later: seq<Action>, p: nat, begin: nat, length: nat)
    requires c.T().Valid() && c.useFile && StandsAlone(c.T(), p)
    requires Claimed(Reach(c, run), p)
    requires begin + length <= PieceSize(c.T(), p)
    ensures FileIo.Verified(c.T(), c.sha1, Reach(c, run).io.file, p)
    ensures FileIo.Verified(c.T(), c.sha1, Reach(c, run + later).io.file, p)
    ensures FileIo.Read(c.T(), Reach(c, run + later).io.file, p, begin, length) ==
              Ok(FileIo.PieceBytes(c.T(), Reach(c, run).io.file, p)[begin..begin + length])
  {
    hide Reach, Claimed, Inv;
    ReachVerified(c, run);
    LaterKeepsComplete(c, run, later, p);
  }

  // ------------------------------------------------------------------ no piece is forgotten

  lemma InRangeConcat(t: Torrent, es: seq<Event>, fs: seq<Event>)
    requires InRange(t, es) && forall f :: f in fs ==> f.op.RemoveRequest?
    ensures InRange(t, es + fs)
  {
  }

  lemma AssignsInRange(t: Torrent, s: State, a: Supply)
    requires a.Valid() && a.peers.Keys == s.Incomplete() && AllPieces(t, s)
    ensures InRange(t, AssignEvents(a, a.Pieces()))
  {
    AssignEventsOnly(a, a.Pieces());
  }

  lemma DispatchInRange(c: Config, e: EngineState, a: Action)
    requires c.T().Valid() && Sane(c, e) && Enabled(e, a) && a.Dispatch?
    requires AllPieces(c.T(), e.view.tracker)
    ensures InRange(c.T(), TrackerEvents(c, e, a))
  {
    InvDisjoint(c.T(), e.view.tracker);
    hide Inv, Requests, AssignEvents, Withdrawals, Sane, InRange, AllPieces;
    var rs := Requests(c, e, a.supply);
    WithdrawalsOnly(e, rs, a.failing, |rs|, a.now);
    AssignsInRange(c.T(), e.view.tracker, a.supply);
    InRangeConcat(c.T(), AssignEvents(a.supply, a.supply.Pieces()), Withdrawals(e, rs, a.failing, |rs|, a.now));
  }

  lemma EventsInRange(c: Config, e: EngineState, a: Action)
    requires c.T().Valid() && Sane(c, e) && Enabled(e, a)
    requires ClaimsArrived(c, e) && AllPieces(c.T(), e.view.tracker)
    ensures InRange(c.T(), TrackerEvents(c, e, a))
  {
    hide Inv, Requests, AssignEvents, Withdrawals, Claimed, PieceSize, Covers;
    if a.Dispatch? {
      DispatchInRange(c, e, a);
    } else if a.Commit? && e.pending[a.which].finished {
      assert FinishPending(e, e.pending[a.which].index);
      PendingClaimed(e, e.pending[a.which].index);
    }
  }

  lemma PendingClaimed(e: EngineState, p: nat)
    ensures FinishPending(e, p) ==> Claimed(e, p)
  {
  }

  lemma {:induction false} TrackerRunInRange(c: Config, run: seq<Action>)
    requires c.T().Valid()
    ensures InRange(c.T(), TrackerRun(c, run))
    ensures AllPieces(c.T(), Reach(c, run).view.tracker)
  {
    TrackerIsRun(c, run);
    if run != [] {
      hide Sane, Enabled, TrackerEvents, ClaimsArrived, SlicesSound, AllPieces;
      var front, a := run[..|run| - 1], run[|run| - 1];
      TrackerRunInRange(c, front);
      ReachSound(c, front);
      if Enabled(Reach(c, front), a) {
        EventsInRange(c, Reach(c, front), a);
      }
    }
    NoPieceForgotten(c.setup, TrackerRun(c, run));
  }

  // ------------------------------------------------------------------ the groups of pieces stay apart

  /** A handler takes the lock to finish a piece that was never asked for. */
  ghost predicate FinishesUnstarted(e: EngineState, a: Action) {
    a.Commit? && a.which < |e.pending| && e.pending[a.which].finished
    && e.pending[a.which].index in e.view.tracker.notStarted
  }

  /** Events that neither assign a completed piece nor finish one. */
  ghost predicate Harmless(completed: set<nat>, es: seq<Event>) {
    forall e :: e in es ==> !e.op.FinishPiece? && (e.op.Assign? ==> e.op.piece !in completed)
  }

  lemma {:induction false} HarmlessKeepsApart(t: Torrent, s: State, es: seq<Event>)
    requires t.Valid() && Inv(t, s) && PiecesApart(s) && Harmless(s.completed, es)
    ensures PiecesApart(Applied(t, s, es)) && Applied(t, s, es).completed == s.completed
  {
    if es != [] {
      hide Inv, Step, Issued, PiecesApart;
      var front, e := es[..|es| - 1], es[|es| - 1];
      HarmlessKeepsApart(t, s, front);
      var s' := Applied(t, s, front);
      InvDisjoint(t, s');
      assert e in es;
      StepPieces(t, s', e);
      StaysApartIff(t, s', e);
    }
  }

  lemma HarmlessConcat(completed: set<nat>, es: seq<Event>, fs: seq<Event>)
    requires Harmless(completed, es) && forall f :: f in fs ==> f.op.RemoveRequest?
    ensures Harmless(completed, es + fs)
  {
  }

  /** Planning is offered the incomplete pieces, so with the groups apart it asks for no completed one. */
  lemma AssignsHarmless(s: State, a: Supply)
    requires a.Valid() && a.peers.Keys == s.Incomplete() && PiecesApart(s)
    ensures Harmless(s.completed, AssignEvents(a, a.Pieces()))
  {
    AssignEventsOnly(a, a.Pieces());
  }

  lemma DispatchHarmless(c: Config, e: EngineState, a: Action)
    requires c.T().Valid() && Sane(c, e) && Enabled(e, a) && a.Dispatch?
    requires PiecesApart(e.view.tracker)
    ensures Harmless(e.view.tracker.completed, TrackerEvents(c, e, a))
  {
    InvDisjoint(c.T(), e.view.tracker);
    hide Inv, Requests, AssignEvents, Withdrawals, Sane, Harmless, PiecesApart;
    var rs := Requests(c, e, a.supply);
    WithdrawalsOnly(e, rs, a.failing, |rs|, a.now);
    AssignsHarmless(e.view.tracker, a.supply);
    HarmlessConcat(e.view.tracker.completed, AssignEvents(a.supply, a.supply.Pieces()),
                   Withdrawals(e, rs, a.failing, |rs|, a.now));
  }

  lemma CommitApplied(c: Config, e: EngineState, a: Action)
    requires c.T().Valid() && Sane(c, e) && Enabled(e, a) && a.Commit?
    ensures e.view.tracker.WithinCapacity()
    ensures var es := TrackerEvents(c, e, a);
            |es| == 1 && Applied(c.T(), e.view.tracker, es) == Step(c.T(), e.view.tracker, es[0])
  {
    InvDisjoint(c.T(), e.view.tracker);
    hide Inv, Step;
    var es := TrackerEvents(c, e, a);
    assert es[..0] == [];
  }

  lemma CommitApartIff(c: Config, e: EngineState, a: Action)
    requires c.T().Valid() && Sane(c, e) && Enabled(e, a) && a.Commit? && PiecesApart(e.view.tracker)
    ensures PiecesApart(Applied(c.T(), e.view.tracker, TrackerEvents(c, e, a))) <==> !FinishesUnstarted(e, a)
  {
    CommitApplied(c, e, a);
    hide Inv, Applied, Step, PiecesApart, Sane;
    StaysApartIff(c.T(), e.view.tracker, TrackerEvents(c, e, a)[0]);
  }

  lemma OtherHarmless(c: Config, e: EngineState, a: Action)
    requires c.T().Valid() && Sane(c, e) && Enabled(e, a) && !a.Commit? && PiecesApart(e.view.tracker)
    ensures Harmless(e.view.tracker.completed, TrackerEvents(c, e, a))
  {
    if a.Dispatch? {
      DispatchHarmless(c, e, a);
    } else {
      hide Inv, Sane, PiecesApart;
    }
  }

  /**
   Of all steps of the engine, exactly those that finish a piece that was never asked for
   put a piece into two groups.
   */
  lemma StepApartIff(c: Config, e: EngineState, a: Action)
    requires c.T().Valid() && Sane(c, e) && PiecesApart(e.view.tracker)
    ensures PiecesApart(Next(c, e, a).view.tracker) <==> !FinishesUnstarted(e, a)
  {
    NextTracker(c, e, a);
    hide Inv, Next, Applied, PiecesApart, TrackerEvents, Harmless;
    if Enabled(e, a) {
      if a.Commit? {
        CommitApartIff(c, e, a);
      } else {
        OtherHarmless(c, e, a);
        HarmlessKeepsApart(c.T(), e.view.tracker, TrackerEvents(c, e, a));
      }
    }
  }

  /** In a run of the engine no piece is finished that was never asked for. */
  ghost predicate FinishesStarted(c: Config, run: seq<Action>)
    requires c.T().Valid()
  {
    forall i :: 0 <= i < |run| ==> !FinishesUnstarted(Reach(c, run[..i]), run[i])
  }

  lemma FinishesStartedFront(c: Config, run: seq<Action>)
    requires c.T().Valid() && run != []
    ensures FinishesStarted(c, run) <==>
              FinishesStarted(c, run[..|run| - 1]) && !FinishesUnstarted(Reach(c, run[..|run| - 1]), run[|run| - 1])
  {
    hide FinishesUnstarted, Reach, Sane;
    var n := |run| - 1;
    assert forall i :: 0 <= i <= n ==> run[..n][..i] == run[..i];
  }

  ghost predicate ApartThroughout(c: Config, run: seq<Action>)
    requires c.T().Valid()
  {
    forall i :: 0 <= i <= |run| ==> PiecesApart(Reach(c, run[..i]).view.tracker)
  }

  lemma ApartThroughoutFront(c: Config, run: seq<Action>)
    requires c.T().Valid() && run != []
    ensures ApartThroughout(c, run) <==>
              ApartThroughout(c, run[..|run| - 1]) && PiecesApart(Reach(c, run).view.tracker)
  {
    hide PiecesApart, Reach, Sane;
    var n := |run| - 1;
    Prefixes(run, n);
    Prefixes(run, n + 1);
    if ApartThroughout(c, run[..n]) && PiecesApart(Reach(c, run).view.tracker) {
      forall i | 0 <= i <= |run| ensures PiecesApart(Reach(c, run[..i]).view.tracker) {
        assert i <= n ==> PiecesApart(Reach(c, run[..n][..i]).view.tracker);
      }
    }
    if ApartThroughout(c, run) {
      forall i | 0 <= i <= n ensures PiecesApart(Reach(c, run[..n][..i]).view.tracker) {
        assert PiecesApart(Reach(c, run[..i]).view.tracker);
      }
      assert PiecesApart(Reach(c, run[..n + 1]).view.tracker);
    }
  }

  lemma Prefixes(run: seq<Action>, n: nat)
    requires n <= |run|
    ensures forall i :: 0 <= i <= n ==> run[..n][..i] == run[..i]
    ensures n == |run| ==> run[..n] == run
  {
  }

  lemma ApartNow(c: Config, run: seq<Action>)
    requires c.T().Valid()
    ensures ApartThroughout(c, run) ==> PiecesApart(Reach(c, run).view.tracker)
  {
    hide PiecesApart, Reach, Sane;
    assert run[..|run|] == run;
  }

  lemma ReachLast(c: Config, run: seq<Action>)
    requires c.T().Valid() && run != []
    ensures Reach(c, run) == Next(c, Reach(c, run[..|run| - 1]), run[|run| - 1])
  {
  }

  /** The groups are apart throughout a run exactly when the run finishes no piece that was never asked for. */
  lemma {:induction false} ReachApartIff(c: Config, run: seq<Action>)
    requires c.T().Valid()
    ensures ApartThroughout(c, run) <==> FinishesStarted(c, run)
  {
    if run == [] {
    } else {
      hide Reach, Next, Sane, FinishesUnstarted, FinishesStarted, PiecesApart, ApartThroughout;
      var front, a := run[..|run| - 1], run[|run| - 1];
      ReachApartIff(c, front);
      FinishesStartedFront(c, run);
      ApartThroughoutFront(c, run);
      ReachLast(c, run);
      if ApartThroughout(c, front) {
        ApartNow(c, front);
        StepApartIff(c, Reach(c, front), a);
      }
    }
  }

  lemma {:induction false} AppliedNotStarted(t: Torrent, s: State, es: seq<Event>)
    requires t.Valid() && Inv(t, s)
    ensures Applied(t, s, es).notStarted <= s.notStarted
  {
    if es != [] {
      hide Inv, Step, Issued;
      var front, e := es[..|es| - 1], es[|es| - 1];
      AppliedNotStarted(t, s, front);
      InvDisjoint(t, Applied(t, s, front));
      StepPieces(t, Applied(t, s, front), e);
    }
  }

  lemma NextNotStarted(c: Config, e: EngineState, a: Action)
    requires c.T().Valid() && Sane(c, e)
    ensures Next(c, e, a).view.tracker.notStarted <= e.view.tracker.notStarted
  {
    NextTracker(c, e, a);
    hide Inv, Next, Applied, TrackerEvents;
    if Enabled(e, a) {
      AppliedNotStarted(c.T(), e.view.tracker, TrackerEvents(c, e, a));
    }
  }

  /** A block arrives that finishes its piece, although nothing of the piece was asked for. */
  ghost predicate WritesUnstarted(c: Config, e: EngineState, a: Action)
    requires c.T().Valid() && Sane(c, e)
  {
    a.WriteBlock? && IoWrite(c, e.io, a.write).1 == Ok(true) && a.write.index in e.view.tracker.notStarted
  }

  ghost predicate PendingStarted(e: EngineState) {
    forall i :: 0 <= i < |e.pending| && e.pending[i].finished ==> e.pending[i].index !in e.view.tracker.notStarted
  }

  lemma PendingOnly(c: Config, e: EngineState, a: Action, i: nat)
    requires c.T().Valid() && Sane(c, e) && i < |Next(c, e, a).pending|
    ensures var p := Next(c, e, a).pending[i];
            || p in e.pending
            || (a.WriteBlock? && p == Pending(a.write.index, a.write.begin, IoWrite(c, e.io, a.write).1 == Ok(true))
                && Accepts(c, e.io, a.write))
  {
    hide Inv, TrackerEvents, IoWrite, Applied, BitField.Packed, InOrder, Accepts, AllAdded, PeerRemoved;
    if a.WriteBlock? {
      IoWriteSlices(c, e.io, a.write);
    }
  }

  lemma StepPendingStarted(c: Config, e: EngineState, a: Action)
    requires c.T().Valid() && Sane(c, e) && PendingStarted(e) && !WritesUnstarted(c, e, a)
    ensures PendingStarted(Next(c, e, a)) && !FinishesUnstarted(e, a)
  {
    NextNotStarted(c, e, a);
    hide Next, IoWrite, Accepts, Sane;
    var e' := Next(c, e, a);
    forall i | 0 <= i < |e'.pending| && e'.pending[i].finished
      ensures e'.pending[i].index !in e'.view.tracker.notStarted
    {
      PendingOnly(c, e, a, i);
    }
  }

  /** It is enough that the blocks which finish a piece are of pieces that were asked for. */
  lemma {:induction false} AskedForStaysApart(c: Config, run: seq<Action>)
    requires c.T().Valid()
    requires forall i :: 0 <= i < |run| ==> !WritesUnstarted(c, Reach(c, run[..i]), run[i])
    ensures FinishesStarted(c, run) && PendingStarted(Reach(c, run))
  {
    if run != [] {
      hide Reach, Next, Sane, FinishesUnstarted, FinishesStarted, PendingStarted, WritesUnstarted;
      var n := |run| - 1;
      assert forall i :: 0 <= i <= n ==> run[..n][..i] == run[..i];
      AskedForStaysApart(c, run[..n]);
      StepPendingStarted(c, Reach(c, run[..n]), run[n]);
      FinishesStartedFront(c, run);
      ReachLast(c, run);
    }
  }

  /** One piece of one byte, kept in a file. */
  function OneByte(sha1: Hash, maxOutstanding: nat, timeout: nat): (c: Config)
    ensures c.T().Valid() && PieceSize(c.T(), 0) == 1
  {
    Config(Setup(Torrent(1, 1, [sha1([7])]), maxOutstanding, timeout), sha1, true)
  }

  lemma ByteWritten(sha1: Hash, maxOutstanding: nat, timeout: nat)
    ensures var c := OneByte(sha1, maxOutstanding, timeout); var w := Write(0, 0, [7]);
            IoWrite(c, Initial(c).io, w) == (File(FileIo.FileState([7], [[Slice(0, 1)]])), Ok(true))
  {
    var t, s := OneByte(sha1, maxOutstanding, timeout).T(), FileIo.FileState([7], [[Slice(0, 1)]]);
    assert Inserted([], Slice(0, 1)) == [Slice(0, 1)];
    assert FileIo.Stored(t, FileIo.Empty(t), 0, 0, [7]) == s;
    assert FileIo.PieceBytes(t, s, 0) == [7];
  }

  /** A write that finishes its piece leaves the handler to take the lock. */
  lemma FinishingWrite(c: Config, e: EngineState, w: Write)
    requires c.T().Valid() && Sane(c, e) && IoWrite(c, e.io, w).1 == Ok(true)
    ensures var e' := Next(c, e, WriteBlock(w));
            e'.view.tracker == e.view.tracker && e'.pending == e.pending + [Pending(w.index, w.begin, true)]
  {
    hide Inv, IoWrite, Accepts, Sane;
  }

  lemma FinishedPiece(c: Config, e: EngineState, i: nat, now: nat)
    requires c.T().Valid() && Sane(c, e) && i < |e.pending| && e.pending[i].finished
    ensures var s, s' := e.view.tracker, Next(c, e, Commit(i, now)).view.tracker;
            s'.notStarted == s.notStarted && s'.completed == s.completed + {e.pending[i].index}
  {
    NextTracker(c, e, Commit(i, now));
    CommitApplied(c, e, Commit(i, now));
    hide Inv, Next, Applied, Sane;
  }

  /** For instance, a peer that sends a piece unasked makes it both completed and not started. */
  lemma UnaskedPieceInTwoGroups(sha1: Hash, maxOutstanding: nat, timeout: nat)
    ensures var c := OneByte(sha1, maxOutstanding, timeout);
            var s := Reach(c, [WriteBlock(Write(0, 0, [7]))] + [Commit(0, 0)]).view.tracker;
            0 in s.notStarted && 0 in s.completed
  {
    var c, w, a := OneByte(sha1, maxOutstanding, timeout), Write(0, 0, [7]), Commit(0, 0);
    ByteWritten(sha1, maxOutstanding, timeout);
    assert [] + [WriteBlock(w)] == [WriteBlock(w)];
    ReachMore(c, [], WriteBlock(w));
    ReachMore(c, [WriteBlock(w)], a);
    hide Inv, IoWrite, Next, OneByte, Sane;
    FinishingWrite(c, Initial(c), w);
    FinishedPiece(c, Reach(c, [WriteBlock(w)]), 0, 0);
  }

  // ------------------------------------------------------------------ where requests go

  /** The peer has sent something that we keep track of since its connection last closed. */
  predicate Known(run: seq<Action>, peer: PeerId) {
    run != [] &&
    match run[|run| - 1]
    case PeerChokes(q, _) => q == peer || Known(run[..|run| - 1], peer)
    case PeerInterested(q, _) => q == peer || Known(run[..|run| - 1], peer)
    case PeerHave(q, _) => q == peer || Known(run[..|run| - 1], peer)
    case PeerBitField(q, _) => q == peer || Known(run[..|run| - 1], peer)
    case Close(q) => q != peer && Known(run[..|run| - 1], peer)
    case _ => Known(run[..|run| - 1], peer)
  }

  /** The last choke message of the peer, since its connection last closed, was an unchoke. */
  predicate Unchoked(run: seq<Action>, peer: PeerId) {
    run != [] &&
    match run[|run| - 1]
    case PeerChokes(q, choked) => if q == peer then !choked else Unchoked(run[..|run| - 1], peer)
    case Close(q) => q != peer && Unchoked(run[..|run| - 1], peer)
    case _ => Unchoked(run[..|run| - 1], peer)
  }

  /** The last interest message of the peer, since its connection last closed, said that it is interested. */
  predicate WantsUs(run: seq<Action>, peer: PeerId) {
    run != [] &&
    match run[|run| - 1]
    case PeerInterested(q, interested) => if q == peer then interested else WantsUs(run[..|run| - 1], peer)
    case Close(q) => q != peer && WantsUs(run[..|run| - 1], peer)
    case _ => WantsUs(run[..|run| - 1], peer)
  }

  /** The peer has announced the piece since its connection last closed. */
  predicate Told(run: seq<Action>, peer: PeerId, piece: nat) {
    run != [] &&
    match run[|run| - 1]
    case PeerHave(q, p) => (q == peer && p == piece) || Told(run[..|run| - 1], peer, piece)
    case PeerBitField(q, bitfield) =>
      (q == peer && piece in BitField.SetBits(bitfield)) || Told(run[..|run| - 1], peer, piece)
    case Close(q) => q != peer && Told(run[..|run| - 1], peer, piece)
    case _ => Told(run[..|run| - 1], peer, piece)
  }

  /** There is a channel to the peer. */
  predicate HasChannel(run: seq<Action>, peer: PeerId) {
    run != [] &&
    match run[|run| - 1]
    case Connect(q) => q == peer || HasChannel(run[..|run| - 1], peer)
    case Close(q) => q != peer && HasChannel(run[..|run| - 1], peer)
    case Prune(peers) => peer !in peers && HasChannel(run[..|run| - 1], peer)
    case _ => HasChannel(run[..|run| - 1], peer)
  }

  /** The state knows of a peer exactly what its messages said. */
  ghost predicate Mirrors(e: EngineState, run: seq<Action>, peer: PeerId, piece: nat) {
    && (peer in e.view.peers <==> Known(run, peer))
    && (peer in e.view.notChoking <==> Unchoked(run, peer))
    && (peer in e.view.interested <==> WantsUs(run, peer))
    && (e.view.pieceMap.Has(peer, piece) <==> Told(run, peer, piece))
    && (peer in e.connected <==> HasChannel(run, peer))
  }

  /** What a step does to the view of the peers. */
  lemma NextView(c: Config, e: EngineState, a: Action)
    requires c.T().Valid() && Sane(c, e)
    ensures var s, s' := e.view, Next(c, e, a).view;
            match a
            case PeerChokes(peer, choked) => s' == ChokeSet(s, peer, choked)
            case PeerInterested(peer, interested) => s' == InterestSet(s, peer, interested)
            case PeerHave(peer, piece) => s' == PiecesAdded(s, peer, [piece]).0
            case PeerBitField(peer, bitfield) => s' == PiecesAdded(s, peer, InOrder(BitField.SetBits(bitfield))).0
            case Close(peer) => s' == PeerGone(s, peer)
            case _ => s' == s.(tracker := s'.tracker)
  {
    hide Inv, TrackerEvents, Applied, IoWrite, Accepts, BitField.Packed, InOrder, BitField.SetBits, AllAdded, PeerRemoved;
  }

  lemma NextConnected(c: Config, e: EngineState, a: Action)
    requires c.T().Valid() && Sane(c, e)
    ensures Next(c, e, a).connected ==
              match a
              case Connect(peer) => e.connected + {peer}
              case Close(peer) => e.connected - {peer}
              case Prune(peers) => e.connected - peers
              case _ => e.connected
  {
    hide Inv, TrackerEvents, Applied, IoWrite, Accepts, BitField.Packed, InOrder, BitField.SetBits, AllAdded, PeerRemoved, Sane;
  }

  lemma StepKnown(c: Config, e: EngineState, run: seq<Action>, peer: PeerId)
    requires c.T().Valid() && Sane(c, e) && run != []
    requires peer in e.view.peers <==> Known(run[..|run| - 1], peer)
    ensures peer in Next(c, e, run[|run| - 1]).view.peers <==> Known(run, peer)
  {
    hide Inv, Next, Sane, BitField.SetBits, InOrder, AllAdded, PieceAdded, PeerRemoved;
    NextView(c, e, run[|run| - 1]);
  }

  lemma StepUnchoked(c: Config, e: EngineState, run: seq<Action>, peer: PeerId)
    requires c.T().Valid() && Sane(c, e) && run != []
    requires peer in e.view.notChoking <==> Unchoked(run[..|run| - 1], peer)
    ensures peer in Next(c, e, run[|run| - 1]).view.notChoking <==> Unchoked(run, peer)
  {
    hide Inv, Next, Sane, BitField.SetBits, InOrder, AllAdded, PieceAdded, PeerRemoved;
    NextView(c, e, run[|run| - 1]);
  }

  lemma StepWantsUs(c: Config, e: EngineState, run: seq<Action>, peer: PeerId)
    requires c.T().Valid() && Sane(c, e) && run != []
    requires peer in e.view.interested <==> WantsUs(run[..|run| - 1], peer)
    ensures peer in Next(c, e, run[|run| - 1]).view.interested <==> WantsUs(run, peer)
  {
    hide Inv, Next, Sane, BitField.SetBits, InOrder, AllAdded, PieceAdded, PeerRemoved;
    NextView(c, e, run[|run| - 1]);
  }

  lemma StepTold(c: Config, e: EngineState, run: seq<Action>, peer: PeerId, piece: nat)
    requires c.T().Valid() && Sane(c, e) && run != []
    requires e.view.pieceMap.Has(peer, piece) <==> Told(run[..|run| - 1], peer, piece)
    ensures Next(c, e, run[|run| - 1]).view.pieceMap.Has(peer, piece) <==> Told(run, peer, piece)
  {
    hide Inv, Next, Sane, BitField.SetBits, InOrder, AllAdded, PieceAdded, PeerRemoved;
    NextView(c, e, run[|run| - 1]);
  }

  lemma StepMirrors(c: Config, e: EngineState, run: seq<Action>, peer: PeerId, piece: nat)
    requires c.T().Valid() && Sane(c, e) && run != []
    requires Mirrors(e, run[..|run| - 1], peer, piece)
    ensures Mirrors(Next(c, e, run[|run| - 1]), run, peer, piece)
  {
    hide Next, Sane, Known, Unchoked, WantsUs, Told, PieceMap.Has;
    StepKnown(c, e, run, peer);
    StepUnchoked(c, e, run, peer);
    StepWantsUs(c, e, run, peer);
    StepTold(c, e, run, peer, piece);
    NextConnected(c, e, run[|run| - 1]);
  }

  lemma {:induction false} ReachMirrors(c: Config, run: seq<Action>, peer: PeerId, piece: nat)
    requires c.T().Valid()
    ensures Mirrors(Reach(c, run), run, peer, piece)
  {
    if run != [] {
      hide Sane, Next, Mirrors;
      ReachMirrors(c, run[..|run| - 1], peer, piece);
      StepMirrors(c, Reach(c, run[..|run| - 1]), run, peer, piece);
    }
  }

  /**
   Whatever the interleaving, every request that a dispatch sends goes to a peer that we
   have a channel to, that does not choke us and that has announced the piece, all since its
   connection last closed; and it asks for an exact block that is neither in flight nor done.
   */
  lemma RequestsGoToServingPeers(c: Config, run: seq<Action>, dispatch: Action, i: nat)
    requires c.T().Valid() && dispatch.Dispatch? && Enabled(Reach(c, run), dispatch)
    requires var rs := Requests(c, Reach(c, run), dispatch.supply);
             i < |rs| && IsSent(Reach(c, run), rs, dispatch.failing, i)
    ensures var s := Reach(c, run).view.tracker; var r := Requests(c, Reach(c, run), dispatch.supply)[i];
            && HasChannel(run, r.peer) && Known(run, r.peer) && Unchoked(run, r.peer) && Told(run, r.peer, r.index)
            && r.index in s.Incomplete()
            && IsBlock(c.T(), r.Block()) && r == RequestFor(c.T(), r.peer, r.Block()) && AsksExactly(c.T(), r)
            && r.Block() !in s.Busy()
            && (FinishesStarted(c, run) ==> r.index !in s.completed)
  {
    var e, a := Reach(c, run), dispatch.supply;
    InvDisjoint(c.T(), e.view.tracker);
    ReachApartIff(c, run);
    ApartNow(c, run);
    hide Reach, Inv, Generated, Requests, FinishesStarted, ApartThroughout;
    var rs := Requests(c, e, a);
    var r := rs[i];
    ReachMirrors(c, run, r.peer, r.index);
    RequestServed(c, e, a, i);
    RequestExact(c.T(), r.peer, r.Block());
    AvailableExact(e.view, r.index, r.peer);
  }

  lemma RequestServed(c: Config, e: EngineState, a: Supply, i: nat)
    requires c.T().Valid() && Sane(c, e) && a.Valid() && a.peers == e.view.PieceIdToPeers()
    requires i < |Requests(c, e, a)|
    ensures var r := Requests(c, e, a)[i];
            && ServedBy(c.T(), a, r)
            && r.Block() !in e.view.tracker.Busy()
            && r.index in e.view.tracker.Incomplete()
            && r.peer in e.view.PieceIdToPeers()[r.index]
  {
    InvDisjoint(c.T(), e.view.tracker);
    hide Inv, Generated;
    var rs := Requests(c, e, a);
    GeneratedServed(c.T(), e.view.tracker, a, a.Pieces());
    assert rs[i] in rs;
    RequestNew(c.T(), e.view.tracker, a, i);
  }

  lemma RequestNew(t: Torrent, s: State, a: Supply, i: nat)
    requires t.Valid() && s.WithinCapacity() && a.Valid() && i < |Generated(t, s, a, a.Pieces()).1|
    ensures Generated(t, s, a, a.Pieces()).1[i].Block() !in s.Busy()
  {
    hide Generated, Wanted, Keys;
    var rs := Generated(t, s, a, a.Pieces()).1;
    GeneratesGreedily(t, s, a, a.Pieces());
    WantedExact(t, s.Busy(), a, a.Pieces());
    assert KeysOf(rs)[i] in Wanted(t, s.Busy(), a, a.Pieces());
  }
}
