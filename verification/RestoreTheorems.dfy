/** The results about whole runs of destructive restores, crashes and recoveries. */
module RestoreTheorems {
  import opened Results
  import opened RestoreMachine
  import opened RestoreInvariant
  import opened RestoreRecovery

  /** Every marker drop in the run happens over a durable `finalizing` record. */
  ghost predicate SealedRun(s: Sys, es: seq<Event>)
    decreases es
  {
    es == [] ||
    ((es[0].Next? ==> SealDurable(s))
     && (Step(s, es[0]).Some? ==> SealedRun(Step(s, es[0]).value, es[1..])))
  }

  /** No start-up recovery is cut off, without losing its unsynced operations, between installing
      the `finalizing` record and the fsync that makes it durable. */
  ghost predicate GentleRun(s: Sys, es: seq<Event>)
    decreases es
  {
    es == [] ||
    ((s.proc.Sealing? && s.proc.w.SyncDirectory? ==> !es[0].ProcessDies? && !es[0].Raise?)
     && (Step(s, es[0]).Some? ==> GentleRun(Step(s, es[0]).value, es[1..])))
  }

  /** The restores whose database transaction committed, in order. */
  function Committed(s: Sys, es: seq<Event>): seq<Id>
    decreases es
  {
    if es == [] then []
    else match Step(s, es[0])
         case None => []
         case Some(t) => (if es[0].DbCommits? && s.proc.Replacing? then [s.proc.id] else []) + Committed(t, es[1..])
  }

  /** The specification: one variable, switched atomically by each commit. */
  function Switched(g: Generation, ids: seq<Id>): Generation {
    if ids == [] then g else Restored(ids[|ids| - 1])
  }

  lemma SwitchedTwice(g: Generation, a: seq<Id>, b: seq<Id>)
    ensures Switched(Switched(g, a), b) == Switched(g, a + b)
  {
    if b == [] { assert a + b == a; }
  }

  lemma {:induction false} RunKeeps(s: Sys, es: seq<Event>)
    requires Inv(s) && SealedRun(s, es) && Run(s, es).Some?
    ensures Inv(Run(s, es).value)
    decreases es
  {
    if es != [] {
      StepKeeps(s, es[0]);
      RunKeeps(Step(s, es[0]).value, es[1..]);
    }
  }

  ghost predicate SameData(s: Sys, t: Sys) {
    t.conf == s.conf && t.db.gen == s.db.gen && t.commits == s.commits
  }

  lemma SwapAndUndoKeepData(s: Sys, token: nat)
    requires s.hist != [] && (s.proc.Swapping? || s.proc.Undoing?) && NextStep(s, token).Some?
    ensures SameData(s, NextStep(s, token).value)
  {
  }

  lemma NextKeepsData(s: Sys, token: nat)
    requires s.hist != [] && NextStep(s, token).Some?
    ensures SameData(s, NextStep(s, token).value)
  {
    match s.proc
    case Swapping(_, _) => SwapAndUndoKeepData(s, token);
    case Undoing(_, _, _) => SwapAndUndoKeepData(s, token);
    case _ =>
  }

  lemma StepSwitches(s: Sys, e: Event)
    requires Step(s, e).Some?
    ensures var t := Step(s, e).value;
            if e.DbCommits? then
              s.proc.Replacing? && t.conf == s.conf && t.db.gen == Restored(s.proc.id) && t.commits == s.commits + {s.proc.id}
            else SameData(s, t)
  {
    match e
    case Next(token) => NextKeepsData(s, token);
    case _ =>
  }

  lemma {:induction false} RunSwitches(s: Sys, es: seq<Event>)
    requires Run(s, es).Some?
    ensures var t := Run(s, es).value;
            t.conf == s.conf && t.db.gen == Switched(s.db.gen, Committed(s, es))
            && t.commits == s.commits + (set id: Id | id in Committed(s, es))
    decreases es
  {
    if es != [] {
      var u := Step(s, es[0]).value;
      StepSwitches(s, es[0]);
      RunSwitches(u, es[1..]);
      SwitchedTwice(s.db.gen, if es[0].DbCommits? then [s.proc.id] else [], Committed(u, es[1..]));
      assert forall id: Id :: id in Committed(s, es) <==>
        id in Committed(u, es[1..]) || (es[0].DbCommits? && id == s.proc.id);
    }
  }

  /** Crash refinement. Whatever crashes and errors a run contains, a serving process sees the
      database, the storage tree and the secret of one generation: the one the atomic
      specification is in. The same holds of every snapshot a power failure could leave. */
  lemma CrashRefinement(s: Sys, es: seq<Event>)
    requires Init(s) && SealedRun(s, es) && Run(s, es).Some?
    ensures var t, g := Run(s, es).value, Switched(Original, Committed(s, es));
            && t.hist != [] && t.db.gen == g
            && !t.proc.Refused?
            && (t.proc.Idle? ==>
                  t.db.marker.None? && Cur(t).journal.None? && !t.guard
                  && forall h :: h in t.hist ==> Live(t.conf, h, g) && NoPrevious(h))
            && (t.proc.Idle? && t.proc.last.Recovered? ==>
                  (t.proc.last.committed <==> t.proc.last.id in Committed(s, es))
                  && (t.proc.last.committed <==> g == Restored(t.proc.last.id)))
  {
    InitKeeps(s);
    RunKeeps(s, es);
    RunSwitches(s, es);
    var t := Run(s, es).value;
    if t.proc.Idle? {
      forall h | h in t.hist ensures Live(t.conf, h, t.db.gen) && NoPrevious(h) {
        assert Settled(t.conf, h, t.db);
      }
      assert SnapshotOk(t, Cur(t));
    }
  }

  /** The coupling of journal, marker and files, in every snapshot of every reachable state:
      a marker has a journal of the same restore and both files swapped; `database_committed`
      has the marker, which is why recovery need not trust it alone; `finalizing` means the
      database committed; before the commit the current generation is intact under one of its
      two names; and old files go only under `finalizing`. */
  lemma CouplingInEveryRun(s: Sys, es: seq<Event>, h: Fs)
    requires Init(s) && SealedRun(s, es) && Run(s, es).Some? && h in Run(s, es).value.hist
    ensures var t := Run(s, es).value;
            && (t.db.marker.Some? ==> Mentions(h, t.db.marker.value) && NewLive(h, t.db.marker.value))
            && (forall id: Id :: Says(h, id, DatabaseCommitted) ==> t.db.marker == Some(id))
            && (forall id: Id :: Says(h, id, Finalizing) ==> t.db.gen == Restored(id))
            && (forall id: Id :: Mentions(h, id) && t.db.gen != Restored(id) ==>
                  Undoable(t.conf, h, id, t.db.gen))
            && (forall id: Id :: Mentions(h, id) && t.db.gen == Restored(id) ==>
                  NewLive(h, id) && (PreviousKept(h, id) || Says(h, id, Finalizing)))
  {
    InitKeeps(s);
    RunKeeps(s, es);
    var t := Run(s, es).value;
    assert SnapshotOk(t, h);
  }

  /** Fence safety: the only steps that open the guard in a live process leave files and
      database in the old generation, in every snapshot, and no journal to recover. */
  lemma FenceOpensOnlyWhenOld(s: Sys, e: Event)
    requires Inv(s) && Step(s, e).Some? && (e.Next? ==> SealDurable(s))
    requires s.guard && !Step(s, e).value.guard && !e.ProcessDies? && !e.PowerLoss?
    ensures var t := Step(s, e).value;
            && t.proc.Idle? && t.db == s.db && t.db.marker.None?
            && t.hist != [] && Cur(t).journal.None?
            && (forall h :: h in t.hist ==> NoPrevious(h) && Live(t.conf, h, s.db.gen))
            && (s.proc.Leaving? ==> forall h :: h in t.hist ==> h.journal.None?)
    ensures (s.proc.Armed? || s.proc.Leaving?) && s.db.gen != Restored(s.proc.id)
  {
    StepKeeps(s, e);
    var t := Step(s, e).value;
    assert s.proc.Armed? || s.proc.Leaving?;
    assert SnapshotOk(s, Cur(s));
    forall h | h in t.hist ensures NoPrevious(h) && Live(t.conf, h, s.db.gen) {
      assert Settled(t.conf, h, t.db);
    }
  }

  /** While files or database may be of different generations the process is fenced or down. */
  lemma MixedMeansFenced(s: Sys)
    requires Inv(s)
    requires exists h :: h in s.hist && !Live(s.conf, h, s.db.gen)
    ensures s.guard || s.proc.Down? || Recovering(s.proc)
  {
    var h :| h in s.hist && !Live(s.conf, h, s.db.gen);
    assert AllSettled(s) ==> Settled(s.conf, h, s.db);
  }

  /** What a mixed outcome would be: files and database of different generations. */
  ghost predicate Consistent(c: Config, r: (Fs, Db)) {
    Live(c, r.0, r.1.gen) && NoPrevious(r.0) && r.1.marker.None?
  }

  /** From one snapshot on disk, a power failure and an undisturbed start-up reach `Outcome`. */
  lemma StartupReaches(s: Sys, keep: nat) returns (es: seq<Event>, t: Sys)
    requires keep < |s.hist| && Startable(s.hist[keep], s.db)
    ensures es != [] && es[0] == PowerLoss(keep) && (forall e :: e in es[1..] ==> e.Restart? || e.Next?)
    ensures Run(s, es) == Some(t) && t.proc.Idle? && t.hist != []
    ensures (Cur(t).(temps := map[]), t.db) == Outcome(s.hist[keep], s.db)
  {
    var down := Step(s, PowerLoss(keep)).value;
    var reading := Step(down, Restart).value;
    var rest;
    rest, t := Completes(reading);
    es := [PowerLoss(keep), Restart] + rest;
    assert es[1..] == [Restart] + rest && es[1..][1..] == rest;
    assert Run(down, [Restart] + rest) == Run(reading, rest);
  }

  lemma SealedSnapshotStaysNew(s: Sys, h: Fs)
    requires Inv(s) && s.proc.DroppingMarker? && h in s.hist && Says(h, s.proc.id, Finalizing)
    ensures Consistent(s.conf, Outcome(h, s.db.(marker := None)))
  {
    assert SnapshotOk(s, h);
    assert Cleaned(h, s.proc.id).prevStorage == map[] && Cleaned(h, s.proc.id).prevSecret == map[];
  }

  lemma UnsealedSnapshotRollsBack(s: Sys, h: Fs)
    requires Inv(s) && s.proc.DroppingMarker? && h in s.hist && !Says(h, s.proc.id, Finalizing)
    ensures Startable(h, s.db.(marker := None))
    ensures var r := Outcome(h, s.db.(marker := None));
            r.1.gen == Restored(s.proc.id) && r.0.secret.Some? && r.0.secret != Some(Restored(s.proc.id))
            && r.0.storage.Some? && r.0.storage.value.gen != Restored(s.proc.id)
  {
    assert SnapshotOk(s, h) && SnapshotOk(s, Cur(s));
  }

  /** Exactly when the marker may be dropped. After the drop, every power failure followed by an
      undisturbed start-up ends consistent if and only if the `finalizing` record was durable. */
  lemma DropIsSafeIffSealIsDurable(s: Sys)
    requires Inv(s) && s.proc.DroppingMarker?
    ensures var t := Step(s, Next(0)).value;
            SealDurable(s) <==>
            forall keep :: 0 <= keep < |t.hist| ==> Consistent(t.conf, Outcome(t.hist[keep], t.db))
  {
    var t := Step(s, Next(0)).value;
    forall keep | 0 <= keep < |t.hist|
      ensures Consistent(t.conf, Outcome(t.hist[keep], t.db)) <==> Says(t.hist[keep], s.proc.id, Finalizing)
    {
      var h := t.hist[keep];
      assert h in s.hist;
      if Says(h, s.proc.id, Finalizing) { SealedSnapshotStaysNew(s, h); }
      else { UnsealedSnapshotRollsBack(s, h); }
    }
    if !SealDurable(s) {
      var h :| h in s.hist && !Says(h, s.proc.id, Finalizing);
      var keep :| 0 <= keep < |s.hist| && s.hist[keep] == h;
      assert t.hist[keep] == h;
    }
  }

  /** The failing family as runs: an unsealed snapshot behind a drop leads a power failure and an
      undisturbed start-up to serve the old files with the new database. */
  lemma UnsealedDropMixes(s: Sys, keep: nat) returns (es: seq<Event>, t: Sys)
    requires Inv(s) && s.proc.DroppingMarker? && keep < |s.hist| && !Says(s.hist[keep], s.proc.id, Finalizing)
    ensures Run(s, es) == Some(t) && t.proc.Idle? && t.hist != []
    ensures t.db.gen == Restored(s.proc.id) && !Live(t.conf, Cur(t), t.db.gen)
    ensures Cur(t).storage.Some? && Cur(t).storage.value.gen != Restored(s.proc.id)
    ensures Cur(t).secret.Some? && Cur(t).secret.value != Restored(s.proc.id)
  {
    var u := Step(s, Next(0)).value;
    UnsealedSnapshotRollsBack(s, s.hist[keep]);
    var rest;
    rest, t := StartupReaches(u, keep);
    es := [Next(0)] + rest;
    assert es[1..] == rest;
    assert Cur(t).storage == Outcome(s.hist[keep], u.db).0.storage;
    assert Cur(t).secret == Outcome(s.hist[keep], u.db).0.secret;
  }

  ghost predicate IsFinal(h: Fs) {
    h.journal.Some? && h.journal.value.Journal? && h.journal.value.status == Finalizing
  }

  ghost predicate NoneFinal(s: Sys) {
    forall h :: h in s.hist ==> !IsFinal(h)
  }

  ghost predicate AllFinal(s: Sys) {
    forall h :: h in s.hist ==> IsFinal(h)
  }

  ghost predicate SealSync(p: Proc) {
    p.Sealing? && p.w.SyncDirectory?
  }

  /** Snapshots disagree about the seal only while its write has not returned. */
  ghost predicate SealUniform(s: Sys) {
    s.db.marker.Some? ==>
      && (s.guard || (s.proc.Sealing? && !SealSync(s.proc)) ==> NoneFinal(s))
      && (!SealSync(s.proc) ==> NoneFinal(s) || AllFinal(s))
  }

  lemma UniformSealIsDurable(s: Sys)
    requires Inv(s) && SealUniform(s)
    ensures SealDurable(s)
  {
    if s.proc.DroppingMarker? {
      forall h | h in s.hist ensures Says(h, s.proc.id, Finalizing) {
        assert SnapshotOk(s, h);
        assert IsFinal(Cur(s));
      }
    }
  }

  lemma WriteKeepsNoneFinal(s: Sys, w: WritePc, token: nat, j: JournalFile)
    requires s.hist != [] && NoneFinal(s) && WriteOk(s, w, j) && j.Journal?
    requires w.ReplaceJournal? ==> j.status != Finalizing
    requires WriteStep(s, w, token, j).Some?
    ensures NoneFinal(WriteStep(s, w, token, j).value.0)
  {
    var t := WriteStep(s, w, token, j).value.0;
    assert Cur(s) in s.hist;
    if w.SyncTemp? {
      forall h | h in t.hist ensures !IsFinal(h) {
        var k := StampedFrom(s.hist, w.token, j, h);
      }
    }
  }

  lemma UniformNext(s: Sys, token: nat)
    requires Inv(s) && SealUniform(s) && s.db.marker.Some? && NextStep(s, token).Some?
    ensures SealUniform(NextStep(s, token).value)
  {
    if s.proc.Marking? { UniformMarking(s, token); }
    else if s.proc.Sealing? { UniformSealing(s, token); }
    else if s.proc.DroppingMarker? { UniformDropping(s, token); }
    else { UniformReading(s, token); }
  }

  lemma UniformDropping(s: Sys, token: nat)
    requires Inv(s) && SealUniform(s) && s.proc.DroppingMarker? && NextStep(s, token).Some?
    ensures SealUniform(NextStep(s, token).value)
  {
  }

  lemma UniformMarking(s: Sys, token: nat)
    requires Inv(s) && SealUniform(s) && s.proc.Marking? && NextStep(s, token).Some?
    ensures SealUniform(NextStep(s, token).value)
  {
    assert SnapshotOk(s, Cur(s));
    WriteKeepsNoneFinal(s, s.proc.w, token, Journal(s.proc.id, DatabaseCommitted));
  }

  lemma UniformSealing(s: Sys, token: nat)
    requires Inv(s) && SealUniform(s) && s.proc.Sealing? && NextStep(s, token).Some?
    ensures SealUniform(NextStep(s, token).value)
  {
    var w := s.proc.w;
    if w.CreateTemp? || w.SyncTemp? { WriteKeepsNoneFinal(s, w, token, Journal(s.proc.id, Finalizing)); }
  }

  lemma UniformReading(s: Sys, token: nat)
    requires Inv(s) && SealUniform(s) && s.db.marker.Some? && NextStep(s, token).Some?
    requires !s.proc.Marking? && !s.proc.Sealing? && !s.proc.DroppingMarker?
    ensures SealUniform(NextStep(s, token).value)
  {
    var t := NextStep(s, token).value;
    assert SnapshotOk(s, Cur(s));
    if t.hist == s.hist { assert NoneFinal(t) == NoneFinal(s) && AllFinal(t) == AllFinal(s); }
  }

  /** An error adds at most one snapshot, with the journal that is there. */
  lemma RaiseKeepsJournal(s: Sys)
    requires RaisesFrom(s)
    ensures var t := RaiseStep(s).value;
            && t.db == s.db && !t.proc.Sealing? && (t.guard ==> s.guard)
            && forall h :: h in t.hist ==> h in s.hist || h.journal == Cur(s).journal
  {
  }

  ghost predicate RaisesFrom(s: Sys) { s.hist != [] && RaiseStep(s).Some? }

  lemma UniformRaise(s: Sys)
    requires SealUniform(s) && s.db.marker.Some? && RaisesFrom(s) && !SealSync(s.proc)
    ensures SealUniform(RaiseStep(s).value)
  {
    var t := RaiseStep(s).value;
    RaiseKeepsJournal(s);
    assert Cur(s) in s.hist;
    forall h | h in t.hist ensures (NoneFinal(s) ==> !IsFinal(h)) && (AllFinal(s) ==> IsFinal(h)) {
      var k := if h in s.hist then h else Cur(s);
      assert k in s.hist && IsFinal(h) == IsFinal(k);
    }
    assert NoneFinal(s) ==> NoneFinal(t);
    assert AllFinal(s) ==> AllFinal(t);
  }

  /** Only the commit sets a marker. */
  lemma UnmarkedStays(s: Sys, e: Event)
    requires s.db.marker.None? && (e.Next? || e.Raise?) && Step(s, e).Some?
    ensures SealUniform(Step(s, e).value)
  {
  }

  /** The only event that can break uniformity is cutting off a seal before its fsync. */
  lemma UniformStep(s: Sys, e: Event)
    requires Inv(s) && SealUniform(s) && Step(s, e).Some?
    requires SealSync(s.proc) ==> !e.ProcessDies? && !e.Raise?
    ensures SealUniform(Step(s, e).value)
  {
    if !e.Next? && !e.Raise? { UniformOther(s, e); }
    else if s.db.marker.None? { UnmarkedStays(s, e); }
    else if e.Next? { UniformNext(s, e.token); }
    else { UniformRaise(s); }
  }

  lemma UniformOther(s: Sys, e: Event)
    requires Inv(s) && SealUniform(s) && Step(s, e).Some? && !e.Next? && !e.Raise?
    requires SealSync(s.proc) ==> !e.ProcessDies?
    ensures SealUniform(Step(s, e).value)
  {
    assert SnapshotOk(s, Cur(s));
    if e.PowerLoss? { assert s.hist[e.keep] in s.hist; }
  }

  /** Runs whose crashes spare the seal's last fsync never drop a marker early; in particular any
      run in which every crash is a power failure. */
  lemma {:induction false} GentleRunsAreSealed(s: Sys, es: seq<Event>)
    requires Inv(s) && SealUniform(s) && GentleRun(s, es)
    ensures SealedRun(s, es)
    decreases es
  {
    if es != [] {
      UniformSealIsDurable(s);
      if Step(s, es[0]).Some? {
        StepKeeps(s, es[0]);
        UniformStep(s, es[0]);
        GentleRunsAreSealed(Step(s, es[0]).value, es[1..]);
      }
    }
  }

  /** Everything a recovery can meet: its own steps, errors, crashes and restarts. */
  ghost predicate Interruption(e: Event) {
    e.Next? || e.Raise? || e.ProcessDies? || e.PowerLoss? || e.Restart?
  }

  ghost predicate Heading(s: Sys, r: (Fs, Db)) {
    && (s.proc.Down? || s.proc.Idle? || Recovering(s.proc))
    && forall h :: h in s.hist ==> Outcome(h, s.db) == r
  }

  lemma HeadingNext(s: Sys, token: nat, r: (Fs, Db))
    requires Inv(s) && Recovering(s.proc) && Heading(s, r) && SealDurable(s) && Step(s, Next(token)).Some?
    ensures Heading(Step(s, Next(token)).value, r)
  {
    var t := Step(s, Next(token)).value;
    InvIsOnTrack(s);
    NextKeepsOutcome(s, token);
    HistoryShape(s, token);
    assert Cur(s) in s.hist;
    forall h | h in t.hist ensures Outcome(h, t.db) == r {
      if s.proc.DroppingMarker? { assert Says(h, s.proc.id, Finalizing); }
      else if s.proc.Sealing? && s.proc.w.SyncTemp? {
        var k := StampedFrom(s.hist, s.proc.w.token, Journal(s.proc.id, Finalizing), h);
        assert Outcome(h, t.db) == Outcome(k, s.db);
      }
    }
  }

  /** How a recovery step changes the history: not at all, by one operation, or by an fsync. */
  lemma HistoryShape(s: Sys, token: nat)
    requires s.hist != [] && Recovering(s.proc) && Step(s, Next(token)).Some?
    ensures var t := Step(s, Next(token)).value;
            && t.hist != [] && (t.db == s.db || s.proc.DroppingMarker?)
            && (if s.proc.Sealing? && s.proc.w.SyncTemp? then
                  t.hist == StampAll(s.hist, s.proc.w.token, Journal(s.proc.id, Finalizing))
                else if s.proc.DroppingMarker? then t.hist == s.hist
                else t.hist == s.hist || t.hist == s.hist + [Cur(t)] || t.hist == [Cur(t)])
  {
    match s.proc
    case Undoing(_, _, _) => UndoShape(s, token);
    case _ =>
  }

  lemma UndoShape(s: Sys, token: nat)
    requires s.hist != [] && s.proc.Undoing? && Step(s, Next(token)).Some?
    ensures var t := Step(s, Next(token)).value;
            && t.hist != [] && t.db == s.db
            && (t.hist == s.hist || t.hist == s.hist + [Cur(t)] || t.hist == [Cur(t)])
  {
  }

  /** `Advance` without the token condition, which only the creation of a file needs. */
  lemma NextKeepsOutcome(s: Sys, token: nat)
    requires s.hist != [] && Recovering(s.proc) && OnTrack(s) && Step(s, Next(token)).Some?
    ensures var t := Step(s, Next(token)).value;
            t.hist != [] && Outcome(Cur(t), t.db) == Outcome(Cur(s), s.db)
            && (t.proc.Idle? || Recovering(t.proc))
  {
    if s.proc.Sealing? && s.proc.w.CreateTemp? { Advance(s, token); }
    else {
      var unused := FreshTokenExists(s.hist);
      Advance(s, unused);
      assert Step(s, Next(token)) == Step(s, Next(unused));
    }
  }

  lemma HeadingStep(s: Sys, e: Event, r: (Fs, Db))
    requires Inv(s) && Heading(s, r) && Interruption(e) && Step(s, e).Some? && (e.Next? ==> SealDurable(s))
    ensures Heading(Step(s, e).value, r)
  {
    assert Cur(s) in s.hist;
    match e
    case Next(token) => HeadingNext(s, token, r);
    case PowerLoss(k) => assert s.hist[k] in s.hist;
    case _ =>
  }

  /** Recovery converges: cut it off by errors, crashes and power failures any number of times,
      and whenever it finally reports, files and database are what one uninterrupted recovery of
      the starting snapshot would have left. */
  lemma {:induction false} RecoveryConverges(s: Sys, es: seq<Event>, r: (Fs, Db))
    requires Inv(s) && Heading(s, r) && SealedRun(s, es) && Run(s, es).Some?
    requires forall e :: e in es ==> Interruption(e)
    ensures var t := Run(s, es).value;
            && t.hist != [] && Heading(t, r)
            && (t.proc.Idle? ==> (Cur(t).(temps := map[]), t.db) == r)
    decreases es
  {
    if es == [] {
      assert Cur(s) in s.hist;
    } else {
      HeadingStep(s, es[0], r);
      StepKeeps(s, es[0]);
      RecoveryConverges(Step(s, es[0]).value, es[1..], r);
    }
  }

  /** A start-up after a reported recovery has nothing left to do and touches nothing. */
  lemma FurtherStartupDoesNothing(s: Sys)
    requires Inv(s) && s.proc.Idle?
    ensures Run(s, [ProcessDies, Restart, Next(0)]) == Some(s.(proc := Idle(NothingToDo)))
  {
    assert SnapshotOk(s, Cur(s));
    var a := Step(s, ProcessDies).value;
    var b := Step(a, Restart).value;
    var c := Step(b, Next(0)).value;
    assert Settled(s.conf, Cur(s), s.db);
    assert Run(b, [Next(0)]) == Run(c, []);
    assert [ProcessDies, Restart, Next(0)][1..] == [Restart, Next(0)] && [Restart, Next(0)][1..] == [Next(0)];
  }

  lemma RunOneStep(s: Sys, t: Sys, es: seq<Event>)
    requires es != [] && Step(s, es[0]) == Some(t)
    ensures Run(s, es) == Run(t, es[1..])
  {
  }

  lemma LooksFindNothing(a: Sys, id: Id, j: nat, k: nat)
    requires a.hist != [] && a.proc == Undoing(id, AfterSwapFailure, LookStorage)
    requires id !in Cur(a).prevStorage && id !in Cur(a).prevSecret
    ensures Step(a, Next(j)) == Some(Go(a, Undoing(id, AfterSwapFailure, LookSecret)))
    ensures Step(Go(a, Undoing(id, AfterSwapFailure, LookSecret)), Next(k)) == Some(Go(a, Undoing(id, AfterSwapFailure, SyncUndo)))
  {
  }

  lemma NoJournalToClear(c: Sys, id: Id, j: nat, k: nat)
    requires c.hist != [] && c.proc == Undoing(id, AfterSwapFailure, SyncUndo) && Cur(c).journal.None?
    ensures Step(c, Next(j)) == Some(Go(Flush(c), Clearing(id, AfterSwapFailure, Unlink)))
    ensures Step(Go(Flush(c), Clearing(id, AfterSwapFailure, Unlink)), Next(k)) == Some(Go(Flush(c), Leaving(id)))
  {
  }

  lemma FiveSteps(s: Sys, a: Sys, b: Sys, c: Sys, d: Sys, f: Sys, es: seq<Event>)
    requires |es| == 5 && Step(s, es[0]) == Some(a) && Step(a, es[1]) == Some(b) && Step(b, es[2]) == Some(c)
    requires Step(c, es[3]) == Some(d) && Step(d, es[4]) == Some(f)
    ensures Run(s, es) == Some(f)
  {
    RunOneStep(s, a, es);
    RunOneStep(a, b, es[1..]);
    assert es[1..][1..] == es[2..];
    RunOneStep(b, c, es[2..]);
    assert es[2..][1..] == es[3..];
    RunOneStep(c, d, es[3..]);
    assert es[3..][1..] == es[4..];
    RunOneStep(d, f, es[4..]);
    assert es[4..][1..] == [];
  }

  /** The rollback the service runs after the swap's own rollback finds nothing to undo, whether that
      one removed a journal or had none to remove. */
  lemma SecondRollbackChangesNothing(s: Sys, id: Id, es: seq<Event>)
    requires Inv(s) && s.proc.Clearing? && s.proc.id == id && s.proc.who.InsideSwap?
    requires s.proc.clear.SyncUnlink? || Cur(s).journal.None?
    requires |es| == 5 && forall i :: 0 <= i < 5 ==> es[i].Next?
    ensures Run(s, es).Some?
    ensures var t := Run(s, es).value; t.proc == Leaving(id) && t.hist == [Cur(s)] && t.db == s.db
  {
    var a := Step(s, es[0]).value;
    var b, c := Go(a, Undoing(id, AfterSwapFailure, LookSecret)), Go(a, Undoing(id, AfterSwapFailure, SyncUndo));
    var d, f := Go(Flush(c), Clearing(id, AfterSwapFailure, Unlink)), Go(Flush(c), Leaving(id));
    SecondRollbackStarts(s, id, es[0].token);
    LooksFindNothing(a, id, es[1].token, es[2].token);
    NoJournalToClear(c, id, es[3].token, es[4].token);
    FiveSteps(s, a, b, c, d, f, es);
  }

  lemma SecondRollbackStarts(s: Sys, id: Id, k: nat)
    requires Inv(s) && s.proc.Clearing? && s.proc.id == id && s.proc.who.InsideSwap?
    requires s.proc.clear.SyncUnlink? || Cur(s).journal.None?
    ensures Step(s, Next(k)).Some?
    ensures var a := Step(s, Next(k)).value;
            && a.proc == Undoing(id, AfterSwapFailure, LookStorage) && a.hist != [] && Cur(a) == Cur(s) && a.db == s.db
            && id !in Cur(a).prevStorage && id !in Cur(a).prevSecret && Cur(a).journal.None?
  {
    assert SnapshotOk(s, Cur(s)) && Settled(s.conf, Cur(s), s.db);
  }
}
