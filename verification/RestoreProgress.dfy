/** A restore that meets no error completes, and the state in which dropping the marker is
    premature is really reached. */
module RestoreProgress {
  import opened Results
  import opened RestoreMachine
  import opened RestoreInvariant
  import opened RestoreRecovery
  import opened RestoreTheorems

  predicate Forward(p: Proc) {
    p.Preparing? || p.Armed? || p.Swapping? || p.Replacing? || p.Checking? || p.Validating? || p.Marking?
  }

  function WriteRank(w: WritePc): nat {
    match w case CreateTemp => 3 case SyncTemp(_) => 2 case ReplaceJournal(_) => 1 case SyncDirectory => 0
  }

  function Ahead(p: Proc): nat {
    match p
    case Preparing(_) => 41
    case Armed(_) => 40
    case Swapping(_, pc) =>
      (match pc case OpenData => 39 case EnsureStorage => 38 case RequireSecret => 37 case Announce(w) => 30 + WriteRank(w)
                case MoveStorageAside => 29 case InstallStorage => 28 case MoveSecretAside => 27 case InstallSecret => 26
                case SyncData => 25 case SyncWork => 24 case Record(w) => 20 + WriteRank(w) case Swapped => 19)
    case Replacing(_) => 18
    case Checking(_) => 17
    case Validating(_) => 16
    case Marking(_, w) => 10 + WriteRank(w)
    case _ => 0
  }

  ghost predicate ForwardOk(s: Sys) {
    && Inv(s) && Forward(s.proc)
    && (Ahead(s.proc) >= 37 ==> Cur(s).secret.Some?)
    && (s.proc.Checking? ==> s.db.marker == Some(s.proc.id))
  }

  lemma ForwardStep(s: Sys, token: nat)
    requires ForwardOk(s) && FreshToken(s, token)
    ensures var e := if s.proc.Replacing? then DbCommits else Next(token);
            && Step(s, e).Some?
            && var t := Step(s, e).value;
               && Inv(t)
               && (t.proc == Awaiting(s.proc.id)
                   || (ForwardOk(t) && t.proc.id == s.proc.id && Ahead(t.proc) < Ahead(s.proc)))
  {
    var e := if s.proc.Replacing? then DbCommits else Next(token);
    ForwardEnabled(s, token);
    StepKeeps(s, e);
  }

  /** A step of the swap leads on. */
  ghost predicate LeadsOn(s: Sys, t: Sys) {
    && t.hist != [] && Forward(s.proc) && Forward(t.proc) && t.proc.id == s.proc.id && Ahead(t.proc) < Ahead(s.proc)
    && (Ahead(t.proc) >= 37 ==> Cur(t).secret.Some?) && !t.proc.Checking?
  }

  lemma ForwardWrite(s: Sys, token: nat)
    requires ForwardOk(s) && s.proc.Swapping? && FreshToken(s, token) && (s.proc.swap.Announce? || s.proc.swap.Record?)
    ensures Step(s, Next(token)).Some? && LeadsOn(s, Step(s, Next(token)).value)
  {
  }

  predicate Moves(pc: SwapPc) { pc.MoveStorageAside? || pc.InstallStorage? || pc.MoveSecretAside? || pc.InstallSecret? }

  lemma ForwardMove(s: Sys, token: nat)
    requires ForwardOk(s) && s.proc.Swapping? && FreshToken(s, token) && Moves(s.proc.swap)
    ensures Step(s, Next(token)).Some? && LeadsOn(s, Step(s, Next(token)).value)
  {
    assert ProcOk(s);
  }

  lemma ForwardPause(s: Sys, token: nat)
    requires ForwardOk(s) && s.proc.Swapping? && FreshToken(s, token)
    requires !Moves(s.proc.swap) && !s.proc.swap.Announce? && !s.proc.swap.Record?
    ensures Step(s, Next(token)).Some? && LeadsOn(s, Step(s, Next(token)).value)
  {
  }

  lemma ForwardSwap(s: Sys, token: nat)
    requires ForwardOk(s) && s.proc.Swapping? && FreshToken(s, token)
    ensures Step(s, Next(token)).Some? && LeadsOn(s, Step(s, Next(token)).value)
  {
    if s.proc.swap.Announce? || s.proc.swap.Record? { ForwardWrite(s, token); }
    else if Moves(s.proc.swap) { ForwardMove(s, token); }
    else { ForwardPause(s, token); }
  }

  lemma ForwardEnabled(s: Sys, token: nat)
    requires ForwardOk(s) && FreshToken(s, token)
    ensures var e := if s.proc.Replacing? then DbCommits else Next(token);
            && Step(s, e).Some?
            && var t := Step(s, e).value;
               && t.hist != []
               && (t.proc == Awaiting(s.proc.id)
                   || (Forward(t.proc) && t.proc.id == s.proc.id && Ahead(t.proc) < Ahead(s.proc)
                       && (Ahead(t.proc) >= 37 ==> Cur(t).secret.Some?)
                       && (t.proc.Checking? ==> t.db.marker == Some(t.proc.id))))
  {
    if s.proc.Swapping? { ForwardSwap(s, token); }
  }

  /** Without errors a started restore reaches the database commit and its durable record. */
  lemma {:induction false} RestoreCompletes(s: Sys) returns (es: seq<Event>, t: Sys)
    requires ForwardOk(s)
    ensures forall e :: e in es ==> e.Next? || e.DbCommits?
    ensures Run(s, es) == Some(t) && SealedRun(s, es) && Inv(t)
    ensures t.proc == Awaiting(s.proc.id) && t.db == Db(Restored(s.proc.id), Some(s.proc.id))
    ensures Says(Cur(t), s.proc.id, DatabaseCommitted) && NewLive(Cur(t), s.proc.id)
    decreases Ahead(s.proc)
  {
    var token := FreshTokenExists(s.hist);
    var e := if s.proc.Replacing? then DbCommits else Next(token);
    ForwardStep(s, token);
    var u := Step(s, e).value;
    if u.proc.Awaiting? {
      es, t := [e], u;
      assert Run(u, []) == Some(u) && es[1..] == [];
      assert SnapshotOk(t, Cur(t));
    } else {
      var rest;
      rest, t := RestoreCompletes(u);
      es := [e] + rest;
      assert es[1..] == rest;
    }
  }

  lemma {:induction false} RunAppend(s: Sys, a: seq<Event>, b: seq<Event>)
    requires Run(s, a).Some? && Run(Run(s, a).value, b).Some?
    ensures Run(s, a + b) == Run(Run(s, a).value, b)
    ensures SealedRun(s, a) && SealedRun(Run(s, a).value, b) ==> SealedRun(s, a + b)
    decreases a
  {
    if a == [] {
      assert a + b == b;
    } else {
      var t := Step(s, a[0]).value;
      assert (a + b)[1..] == a[1..] + b && (a + b)[0] == a[0];
      assert Run(s, a) == Run(t, a[1..]);
      RunAppend(t, a[1..], b);
      assert Run(s, a + b) == Run(t, a[1..] + b);
    }
  }

  /** One more step at the end of a run. */
  lemma RunSnoc(s: Sys, es: seq<Event>, t: Sys, e: Event)
    requires Run(s, es) == Some(t) && SealedRun(s, es)
    requires Step(t, e).Some? && (!e.Next? || !t.proc.DroppingMarker?)
    ensures Run(s, es + [e]) == Step(t, e) && SealedRun(s, es + [e])
  {
    assert [e][1..] == [];
    assert Run(Step(t, e).value, []) == Step(t, e);
    assert SealedRun(t, [e]);
    RunAppend(s, es, [e]);
  }

  /** Four steps in a row, none of them a marker drop. */
  lemma FourEvents(a: Sys, b: Sys, c: Sys, d: Sys, f: Sys, e1: Event, e2: Event, e3: Event, e4: Event)
    requires Step(a, e1) == Some(b) && Step(b, e2) == Some(c) && Step(c, e3) == Some(d) && Step(d, e4) == Some(f)
    requires !e1.Next? && !e2.Next? && !c.proc.DroppingMarker? && !d.proc.DroppingMarker?
    ensures Run(a, [e1] + [e2] + [e3] + [e4]) == Some(f) && SealedRun(a, [e1] + [e2] + [e3] + [e4])
  {
    RunSnoc(a, [], a, e1);
    assert [] + [e1] == [e1];
    RunSnoc(a, [e1], b, e2);
    RunSnoc(a, [e1] + [e2], c, e3);
    RunSnoc(a, [e1] + [e2] + [e3], d, e4);
  }

  /** A restart after the process died reads the journal and the marker. */
  lemma RestartSteps(s: Sys, id: Id, status: Status)
    requires Inv(s) && Says(Cur(s), id, status) && s.db.marker == Some(id)
    ensures var a := Go(s, Down).(guard := false);
            && Step(s, ProcessDies) == Some(a) && Step(a, Restart) == Some(Go(a, ReadingJournal))
            && Step(Go(a, ReadingJournal), Next(0)) == Some(Go(a, ReadingMarker(id, status)))
            && Step(Go(a, ReadingMarker(id, status)), Next(0)) == Some(Go(a, Revalidating(id, status, true)))
  {
  }

  /** A dead process restarts and reads the journal and the marker. */
  lemma RestartReads(s: Sys, id: Id, status: Status) returns (es: seq<Event>, t: Sys)
    requires Inv(s) && Says(Cur(s), id, status) && s.db.marker == Some(id)
    ensures Run(s, es) == Some(t) && SealedRun(s, es)
    ensures t == s.(proc := Revalidating(id, status, true), guard := false)
  {
    var a := Go(s, Down).(guard := false);
    t := Go(a, Revalidating(id, status, true));
    RestartSteps(s, id, status);
    FourEvents(s, a, Go(a, ReadingJournal), Go(a, ReadingMarker(id, status)), t, ProcessDies, Restart, Next(0), Next(0));
    es := [ProcessDies] + [Restart] + [Next(0)] + [Next(0)];
  }

  /** With the restored files in place it goes on to the record, or past it to the drop. */
  lemma RestartGoesOn(s: Sys, id: Id, status: Status) returns (es: seq<Event>, t: Sys)
    requires Inv(s) && Says(Cur(s), id, status) && s.db.marker == Some(id) && Cur(s).storage.Some? && Cur(s).secret.Some?
    ensures Run(s, es) == Some(t) && SealedRun(s, es) && Inv(t)
    ensures t == s.(proc := if status == Finalizing then DroppingMarker(id) else Sealing(id, CreateTemp), guard := false)
  {
    var u;
    es, u := RestartReads(s, id, status);
    t := u.(proc := if status == Finalizing then DroppingMarker(id) else Sealing(id, CreateTemp));
    RunSnoc(s, es, u, Next(0));
    es := es + [Next(0)];
    RunKeeps(s, es);
  }

  /** Killing a start-up recovery right after it installed its record leads the next start-up to
      the marker drop while an older record is still the durable one. */
  lemma KilledSealLeadsToUnsealedDrop(s: Sys, earlier: Fs) returns (es: seq<Event>, t: Sys)
    requires Inv(s) && SealSync(s.proc) && earlier in s.hist && !IsFinal(earlier)
    ensures Run(s, es) == Some(t) && SealedRun(s, es) && Inv(t)
    ensures t.proc == DroppingMarker(s.proc.id) && earlier in t.hist && !SealDurable(t)
  {
    SealSyncSays(s);
    es, t := RestartGoesOn(s, s.proc.id, Finalizing);
    assert !Says(earlier, s.proc.id, Finalizing);
  }

  lemma SealSyncSays(s: Sys)
    requires Inv(s) && SealSync(s.proc)
    ensures Says(Cur(s), s.proc.id, Finalizing) && s.db.marker == Some(s.proc.id)
    ensures Cur(s).storage.Some? && Cur(s).secret.Some?
  {
    assert SnapshotOk(s, Cur(s));
  }

  lemma AwaitingSays(s: Sys, id: Id)
    requires Inv(s) && s.proc == Awaiting(id) && s.db.marker == Some(id)
    ensures Says(Cur(s), id, DatabaseCommitted) && Cur(s).storage.Some? && Cur(s).secret.Some?
  {
    assert SnapshotOk(s, Cur(s));
  }

  /** From a committed restore, a restart reaches the end of the seal's write. */
  lemma RestartReachesSeal(s: Sys, id: Id) returns (es: seq<Event>, t: Sys)
    requires Inv(s) && s.proc == Awaiting(id) && s.db == Db(Restored(id), Some(id))
    ensures Run(s, es) == Some(t) && SealedRun(s, es) && Inv(t)
    ensures SealSync(t.proc) && t.proc.id == id && Cur(s) in t.hist
  {
    AwaitingSays(s, id);
    var k := FreshTokenExists(s.hist);
    var first, f := RestartGoesOn(s, id, DatabaseCommitted);
    var second;
    second, t := SealWrites(f, k);
    RunAppend(s, first, second);
    es := first + second;
  }

  lemma SealWrites(f: Sys, k: nat) returns (es: seq<Event>, t: Sys)
    requires Inv(f) && f.proc.Sealing? && f.proc.w.CreateTemp? && FreshToken(f, k)
    ensures Run(f, es) == Some(t) && SealedRun(f, es) && Inv(t)
    ensures SealSync(t.proc) && t.proc.id == f.proc.id && Cur(f) in t.hist
  {
    var g := Step(f, Next(k)).value;
    var h := Step(g, Next(0)).value;
    StepKeeps(f, Next(k));
    StepKeeps(g, Next(0));
    t := Step(h, Next(0)).value;
    es := [];
    RunSnoc(f, es, f, Next(k));
    RunSnoc(f, es + [Next(k)], g, Next(0));
    RunSnoc(f, es + [Next(k)] + [Next(0)], h, Next(0));
    es := es + [Next(k)] + [Next(0)] + [Next(0)];
    StepKeeps(h, Next(0));
    var i := |f.hist| - 1;
    assert g.hist[i] == Cur(f);
    assert h.hist[i] == Stamp(Cur(f), k, Journal(f.proc.id, Finalizing)) == Cur(f);
    assert t.hist[i] == Cur(f);
  }

  /** The counterexample, from the initial state: one restore commits, the restarted process is
      killed between installing `finalizing` and its fsync, the next one drops the marker, and a
      power failure then leaves the new database with the old files. */
  lemma PrematureDropIsReachable() returns (s: Sys, es: seq<Event>, t: Sys)
    ensures Init(s) && Run(s, es) == Some(t) && t.proc.Idle? && t.hist != []
    ensures t.db.gen == Restored(0) && Cur(t).storage.Some? && Cur(t).storage.value.gen != Restored(0)
    ensures Cur(t).secret.Some? && Cur(t).secret.value != Restored(0)
  {
    s := Sys(Config(false, false),
             [Fs(Some(Tree(Original, true)), Some(Original), map[], map[], map[], map[], None, map[])],
             Db(Original, None), Idle(Fresh), false, {}, {});
    InitKeeps(s);
    var a := Step(s, Begin(0)).value;
    StepKeeps(s, Begin(0));
    RunSnoc(s, [], s, Begin(0));
    assert [] + [Begin(0)] == [Begin(0)];
    var e1, b := RestoreCompletes(a);
    var e2, c := RestartReachesSeal(b, 0);
    var e3, d := KilledSealLeadsToUnsealedDrop(c, Cur(b));
    var keep :| 0 <= keep < |d.hist| && d.hist[keep] == Cur(b);
    var e4;
    e4, t := UnsealedDropMixes(d, keep);
    RunAppend(s, [Begin(0)], e1);
    RunAppend(s, [Begin(0)] + e1, e2);
    RunAppend(s, [Begin(0)] + e1 + e2, e3);
    RunAppend(s, [Begin(0)] + e1 + e2 + e3, e4);
    es := [Begin(0)] + e1 + e2 + e3 + e4;
  }
}
