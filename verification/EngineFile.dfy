/**
 The file behind the engine: its contents are those of a run of writes, and a complete piece
 whose bytes do not match its hash is stuck, whatever happens later.
 */
module EngineFile {
  import opened Common
  import opened Torrents
  import opened SliceTracking
  import opened Storage
  import opened Tracker
  import opened PeerState
  import opened Engine
  import opened EngineSafety
  import BitField
  import FileIo

  /** The blocks that arrived in a run, in order, accepted or not. */
  function WritesOf(run: seq<Action>): seq<Write> {
    if run == [] then []
    else WritesOf(run[..|run| - 1]) + if run[|run| - 1].WriteBlock? then [run[|run| - 1].write] else []
  }

  /** The file after these blocks were written to the empty one. */
  ghost function FileAfter(c: Config, ws: seq<Write>): (s: FileIo.FileState)
    requires c.T().Valid()
    ensures FileIo.WellFormed(c.T(), s)
  {
    FileIo.AfterWrites(c.T(), c.sha1, FileIo.Empty(c.T()), ws)
  }

  lemma FileAfterMore(c: Config, ws: seq<Write>, w: Write)
    requires c.T().Valid()
    ensures FileAfter(c, ws + [w]) == FileIo.Written(c.T(), c.sha1, FileAfter(c, ws), w.index, w.begin, w.block).0
  {
    assert (ws + [w])[..|ws|] == ws;
  }

  lemma NextIo(c: Config, e: EngineState, a: Action)
    requires c.T().Valid() && Sane(c, e)
    ensures Next(c, e, a).io == if a.WriteBlock? then IoWrite(c, e.io, a.write).0 else e.io
  {
    hide Inv, TrackerEvents, IoWrite, Applied, Accepts, BitField.Packed;
  }

  lemma WritesMore(run: seq<Action>, a: Action)
    ensures WritesOf(run + [a]) == if a.WriteBlock? then WritesOf(run) + [a.write] else WritesOf(run)
  {
    assert (run + [a])[..|run|] == run;
  }

  /** A write to the file, by whichever name. */
  lemma IoWriteFile(c: Config, s: FileIo.FileState, w: Write)
    requires c.T().Valid() && c.useFile && FileIo.WellFormed(c.T(), s)
    ensures var (s', r) := FileIo.Written(c.T(), c.sha1, s, w.index, w.begin, w.block);
            IoOk(c, File(s)) && IoWrite(c, File(s), w) == (File(s'), r)
  {
    hide FileIo.Written;
  }

  /** In every interleaving the file is the result of the writes alone. */
  lemma {:induction false} FileIsRun(c: Config, run: seq<Action>)
    requires c.T().Valid() && c.useFile
    ensures Reach(c, run).io == File(FileAfter(c, WritesOf(run)))
  {
    if run != [] {
      hide Next, Sane, FileAfter, FileIo.Written, WritesOf, IoWrite;
      var front, a := run[..|run| - 1], run[|run| - 1];
      LastSplit(run);
      FileIsRun(c, front);
      NextIo(c, Reach(c, front), a);
      WritesMore(front, a);
      if a.WriteBlock? {
        IoWriteFile(c, FileAfter(c, WritesOf(front)), a.write);
        FileAfterMore(c, WritesOf(front), a.write);
      }
    }
  }

  lemma FinishPendingStays(c: Config, e: EngineState, a: Action, p: nat)
    requires c.T().Valid() && Sane(c, e) && FinishPending(e, p)
    ensures || FinishPending(Next(c, e, a), p)
            || (Enabled(e, a) && a.Commit? && e.pending[a.which] == Pending(p, e.pending[a.which].begin, true))
  {
    hide Inv, TrackerEvents, IoWrite, Applied, BitField.Packed, Accepts, Sane;
    var e' := Next(c, e, a);
    var i :| 0 <= i < |e.pending| && e.pending[i].finished && e.pending[i].index == p;
    if a.Commit? && Enabled(e, a) {
      assert i < a.which ==> e'.pending[i] == e.pending[i];
      assert i > a.which ==> e'.pending[i - 1] == e.pending[i];
    } else {
      assert e'.pending[i] == e.pending[i];
    }
  }

  lemma OthersStay(c: Config, e: EngineState, a: Action, p: nat)
    requires c.T().Valid() && Sane(c, e)
    ensures e.toAnnounce <= Next(c, e, a).toAnnounce && e.haves <= Next(c, e, a).haves
    ensures InBitField(e, p) ==> InBitField(Next(c, e, a), p)
    ensures a.Commit? && Enabled(e, a) && e.pending[a.which].finished ==>
              e.pending[a.which].index in Next(c, e, a).toAnnounce
  {
    hide Inv, TrackerEvents, IoWrite, Applied, BitField.Packed, BitField.SetBits, Accepts, Sane;
    var e' := Next(c, e, a);
    if InBitField(e, p) {
      var i :| 0 <= i < |e.bitfields| && p in BitField.SetBits(e.bitfields[i]);
      assert e'.bitfields[i] == e.bitfields[i];
    }
  }

  lemma FinishingWritePends(c: Config, e: EngineState, w: Write)
    requires c.T().Valid() && Sane(c, e) && IoWrite(c, e.io, w).1 == Ok(true)
    ensures FinishPending(Next(c, e, WriteBlock(w)), w.index)
  {
    FinishingWrite(c, e, w);
    hide Next, Sane, IoWrite;
    assert Next(c, e, WriteBlock(w)).pending[|e.pending|] == Pending(w.index, w.begin, true);
  }

  /** A write answers that it finished its piece. */
  ghost predicate Finishes(c: Config, e: EngineState, a: Action, p: nat)
    requires c.T().Valid() && Sane(c, e)
  {
    a.WriteBlock? && a.write.index == p && IoWrite(c, e.io, a.write).1 == Ok(true)
  }

  /** Claims are never given up, and a write that finishes a piece claims it. */
  lemma ClaimsStay(c: Config, e: EngineState, a: Action, p: nat)
    requires c.T().Valid() && Sane(c, e) && (Claimed(e, p) || Finishes(c, e, a, p))
    ensures Claimed(Next(c, e, a), p)
  {
    NextCompleted(c, e, a);
    OthersStay(c, e, a, p);
    if Finishes(c, e, a, p) {
      FinishingWritePends(c, e, a.write);
    }
    hide Next, Sane, InBitField, FinishPending;
    if FinishPending(e, p) {
      FinishPendingStays(c, e, a, p);
    }
  }

  lemma NextClaimedIff(c: Config, e: EngineState, a: Action, p: nat)
    requires c.T().Valid() && Sane(c, e)
    ensures Claimed(Next(c, e, a), p) <==> Claimed(e, p) || Finishes(c, e, a, p)
  {
    if Claimed(Next(c, e, a), p) {
      NewClaims(c, e, a, p);
    }
    hide Claimed, Next, Sane, Finishes;
    if Claimed(e, p) || Finishes(c, e, a, p) {
      ClaimsStay(c, e, a, p);
    }
  }

  /** Some write of the run completed the piece with bytes that do not match its hash. */
  ghost predicate Mismatched(c: Config, run: seq<Action>, p: nat)
    requires c.T().Valid()
  {
    FileIo.Mismatched(c.T(), c.sha1, WritesOf(run), p)
  }

  lemma MismatchedMore(c: Config, run: seq<Action>, a: Action, p: nat)
    requires c.T().Valid()
    ensures Mismatched(c, run + [a], p) <==>
              || Mismatched(c, run, p)
              || (a.WriteBlock? && a.write.index == p
                  && FileIo.Written(c.T(), c.sha1, FileAfter(c, WritesOf(run)), p, a.write.begin, a.write.block).1
                     == Err(PieceHashMismatch(p)))
  {
    hide FileIo.Written, WritesOf;
    WritesMore(run, a);
    if a.WriteBlock? {
      var ws := WritesOf(run);
      assert (ws + [a.write])[..|ws|] == ws;
    }
  }

  /** The client claims a piece if and only if it is complete and no write of the run answered a mismatch for it. */
  ghost predicate ClaimsExact(c: Config, run: seq<Action>, p: nat)
    requires c.T().Valid()
  {
    Claimed(Reach(c, run), p) <==> p < c.T().Pieces() && FileIo.Complete(c.T(), FileAfter(c, WritesOf(run)), p) && !Mismatched(c, run, p)
  }

  lemma {:induction false} ClaimedIff(c: Config, run: seq<Action>, p: nat)
    requires c.T().Valid() && c.useFile
    ensures ClaimsExact(c, run, p)
  {
    if run == [] {
      NothingClaimed(c, p);
    } else {
      var front, a := run[..|run| - 1], run[|run| - 1];
      ClaimedIff(c, front, p);
      LastSplit(run);
      StepClaimsExact(c, front, a, p);
    }
  }

  lemma NothingClaimed(c: Config, p: nat)
    requires c.T().Valid()
    ensures ClaimsExact(c, [], p)
  {
  }

  /** What a write does to the claim and to what justifies it. */
  lemma WriteClaims(c: Config, s: FileIo.FileState, w: Write, p: nat)
    requires c.T().Valid() && FileIo.WellFormed(c.T(), s)
    ensures var (s', r) := FileIo.Written(c.T(), c.sha1, s, w.index, w.begin, w.block);
            && (w.index == p && (r == Ok(true) || r == Err(PieceHashMismatch(p))) ==>
                  p < c.T().Pieces() && !FileIo.Complete(c.T(), s, p) && FileIo.Complete(c.T(), s', p))
            && (FileIo.Complete(c.T(), s, p) ==> FileIo.Complete(c.T(), s', p))
            && (!FileIo.Complete(c.T(), s, p) && FileIo.Complete(c.T(), s', p) ==>
                  w.index == p && (r == Ok(true) || r == Err(PieceHashMismatch(p))))
  {
    hide FileIo.Verified, PieceSize, IsComplete;
    if p < c.T().Pieces() {
      FileIo.WriteCompletes(c.T(), c.sha1, s, w, p);
    }
  }

  lemma StepClaimsExact(c: Config, front: seq<Action>, a: Action, p: nat)
    requires c.T().Valid() && c.useFile && ClaimsExact(c, front, p)
    ensures ClaimsExact(c, front + [a], p)
  {
    var e, s := Reach(c, front), FileAfter(c, WritesOf(front));
    ReachMore(c, front, a);
    NextClaimedIff(c, e, a, p);
    MismatchedMore(c, front, a, p);
    FileIsRun(c, front);
    WritesMore(front, a);
    hide Reach, Claimed, Next, Sane, FileIo.Written, FileIo.Complete, FileAfter, WritesOf, Mismatched, IoWrite;
    if a.WriteBlock? {
      FileAfterMore(c, WritesOf(front), a.write);
      IoWriteFile(c, s, a.write);
      WriteClaims(c, s, a.write, p);
      if Mismatched(c, front, p) {
        MismatchedIsComplete(c, front, p);
      }
    }
  }

  lemma MismatchedIsComplete(c: Config, run: seq<Action>, p: nat)
    requires c.T().Valid() && Mismatched(c, run, p)
    ensures FileIo.Complete(c.T(), FileAfter(c, WritesOf(run)), p)
  {
    MismatchedInRange(c, WritesOf(run), p);
    FileIo.MismatchedComplete(c.T(), c.sha1, WritesOf(run), p);
  }

  lemma {:induction false} MismatchedInRange(c: Config, ws: seq<Write>, p: nat)
    requires c.T().Valid() && FileIo.Mismatched(c.T(), c.sha1, ws, p)
    ensures p < c.T().Pieces()
  {
    hide FileIo.Complete;
    var front, w := ws[..|ws| - 1], ws[|ws| - 1];
    if FileIo.Mismatched(c.T(), c.sha1, front, p) {
      MismatchedInRange(c, front, p);
    } else {
      WriteClaims(c, FileAfter(c, front), w, p);
    }
  }

  /** Whatever happens later, a piece once mismatched is never completed, announced or in a bit field. */
  lemma MismatchedForever(c: Config, run: seq<Action>, later: seq<Action>, p: nat)
    requires c.T().Valid() && c.useFile && Mismatched(c, run, p)
    ensures !Claimed(Reach(c, run + later), p)
  {
    ClaimedIff(c, run + later, p);
    MismatchedStays(c, run, later, p);
  }

  lemma {:induction false} MismatchedStays(c: Config, run: seq<Action>, later: seq<Action>, p: nat)
    requires c.T().Valid() && Mismatched(c, run, p)
    ensures Mismatched(c, run + later, p)
  {
    if later == [] {
      assert run + later == run;
    } else {
      hide Mismatched;
      var front, a := later[..|later| - 1], later[|later| - 1];
      LastSplit(later);
      SeqAssoc(run, front, [a]);
      MismatchedStays(c, run, front, p);
      MismatchedMore(c, run + front, a, p);
    }
  }

  /**
   Reading checks completeness and not the hash. In every interleaving, what it gives for a
   piece that stands alone belongs to a piece that matches its hash exactly when the client
   claims that piece; and then no write of the run answered a mismatch for it.
   */
  lemma ReadVerifiedIff(c: Config, run: seq<Action>, p: nat, begin: nat, length: nat)
    requires c.T().Valid() && c.useFile && StandsAlone(c.T(), p)
    requires FileIo.Read(c.T(), Reach(c, run).io.file, p, begin, length).Ok?
    ensures FileIo.Verified(c.T(), c.sha1, Reach(c, run).io.file, p) <==> Claimed(Reach(c, run), p)
    ensures Claimed(Reach(c, run), p) <==> !Mismatched(c, run, p)
  {
    FileIsRun(c, run);
    ClaimedIff(c, run, p);
    hide Reach, StandsAlone, FileIo.Verified, Claimed, Sane, FileIo.PieceBytes;
    FileIo.ReadVerifiedIff(c.T(), c.sha1, WritesOf(run), p, begin, length);
  }
}
