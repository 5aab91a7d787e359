/** What interrupted recoveries agree on: always the data, and every last entry exactly when the
    snapshots they may start from call for the same outcome. */
module RestoreConvergence {
  import opened Results
  import opened RestoreMachine
  import opened RestoreInvariant
  import opened RestoreRecovery
  import opened RestoreTheorems

  /** A run of nothing but recovery, with every interruption it can meet, that ends in a report. */
  ghost predicate Completed(s: Sys, es: seq<Event>) {
    && (forall e :: e in es ==> Interruption(e)) && SealedRun(s, es)
    && Run(s, es).Some? && Run(s, es).value.proc.Idle? && Run(s, es).value.hist != []
  }

  /** What it leaves, stray temporary files aside. */
  ghost function Left(s: Sys, es: seq<Event>): (Fs, Db)
    requires Completed(s, es)
  {
    var t := Run(s, es).value;
    (Cur(t).(temps := map[]), t.db)
  }

  /** The same data: a storage tree or secret that one side lacks is the one the original data
      directory may lack, and workspaces are not compared. */
  ghost predicate SameFiles(c: Config, h: Fs, k: Fs, g: Generation) {
    && Live(c, h, g) && Live(c, k, g)
    && (h.storage == k.storage || (g.Original? && c.bare)) && (h.secret == k.secret || (g.Original? && c.secretless))
    && NoPrevious(h) && NoPrevious(k) && h.journal.None? && k.journal.None?
  }

  lemma {:induction false} InterruptionKeepsDatabase(s: Sys, es: seq<Event>)
    requires (forall e :: e in es ==> Interruption(e)) && Run(s, es).Some?
    ensures var t := Run(s, es).value; t.db.gen == s.db.gen && t.conf == s.conf
    decreases es
  {
    if es != [] {
      assert es[0] in es;
      OneInterruption(s, es[0]);
      InterruptionKeepsDatabase(Step(s, es[0]).value, es[1..]);
    }
  }

  lemma OneInterruption(s: Sys, e: Event)
    requires Interruption(e) && Step(s, e).Some?
    ensures var t := Step(s, e).value; t.db.gen == s.db.gen && t.conf == s.conf
  {
    StepSwitches(s, e);
  }

  /** Every completed recovery from any state of the protocol, whatever cut it off on the way, leaves
      the same data: the database it started with, its marker gone, and the files of that generation. */
  lemma RecoveriesAgree(s: Sys, es: seq<Event>, fs: seq<Event>)
    requires Inv(s) && Completed(s, es) && Completed(s, fs)
    ensures Left(s, es).1 == s.db.(marker := None) == Left(s, fs).1
    ensures SameFiles(s.conf, Left(s, es).0, Left(s, fs).0, s.db.gen)
  {
    RunKeeps(s, es);
    RunKeeps(s, fs);
    InterruptionKeepsDatabase(s, es);
    InterruptionKeepsDatabase(s, fs);
    var t, u := Run(s, es).value, Run(s, fs).value;
    assert Settled(t.conf, Cur(t), t.db) && Settled(u.conf, Cur(u), u.db);
  }

  /** A run that starts with a power failure and meets no other interruption drops no marker early. */
  lemma StartupIsSealed(s: Sys, es: seq<Event>, keep: nat)
    requires Inv(s) && keep < |s.hist| && es != [] && es[0] == PowerLoss(keep)
    requires forall e :: e in es[1..] ==> e.Restart? || e.Next?
    ensures SealedRun(s, es)
  {
    var down := Step(s, PowerLoss(keep)).value;
    StepKeeps(s, PowerLoss(keep));
    assert SealUniform(down);
    CalmIsGentle(down, es[1..]);
    GentleRunsAreSealed(down, es[1..]);
  }

  lemma {:induction false} CalmIsGentle(s: Sys, es: seq<Event>)
    requires forall e :: e in es ==> e.Restart? || e.Next?
    ensures GentleRun(s, es)
    decreases es
  {
    if es != [] {
      assert es[0] in es;
      if Step(s, es[0]).Some? { CalmIsGentle(Step(s, es[0]).value, es[1..]); }
    }
  }

  lemma AnyStartup(s: Sys, keep: nat) returns (es: seq<Event>)
    requires Inv(s) && keep < |s.hist|
    ensures Completed(s, es) && Left(s, es) == Outcome(s.hist[keep], s.db)
  {
    assert SnapshotOk(s, s.hist[keep]);
    var t;
    es, t := StartupReaches(s, keep);
    StartupIsSealed(s, es, keep);
    forall e | e in es ensures Interruption(e) {
      if e != es[0] { assert e in es[1..]; }
    }
  }

  ghost predicate AllAgree(s: Sys) {
    forall es, fs :: Completed(s, es) && Completed(s, fs) ==> Left(s, es) == Left(s, fs)
  }

  /** All completed recoveries of a stopped process leave exactly the same entries if and only if the
      snapshots a power failure could leave have one outcome. They may differ while the first journal
      record of a swap, or its removal, is not yet durable: then in the workspace, and in the empty
      storage directory the swap creates. */
  lemma RecoveriesAgreeExactlyIff(s: Sys)
    requires Inv(s) && s.proc.Down?
    ensures AllAgree(s) <==> exists r :: Heading(s, r)
  {
    if r :| Heading(s, r) {
      forall es, fs | Completed(s, es) && Completed(s, fs) ensures Left(s, es) == Left(s, fs) {
        RecoveryConverges(s, es, r);
        RecoveryConverges(s, fs, r);
      }
    }
    if AllAgree(s) {
      var first := AnyStartup(s, 0);
      forall h | h in s.hist ensures Outcome(h, s.db) == Left(s, first) {
        var k :| 0 <= k < |s.hist| && s.hist[k] == h;
        var other := AnyStartup(s, k);
      }
      assert Heading(s, Left(s, first));
    }
  }

  /** A process killed inside the first journal write of a swap. */
  function KilledInFirstWrite(): Sys {
    var prepared := Fs(Some(Tree(Original, true)), Some(Original), map[], map[],
                       map[0 := Tree(Restored(0), true)], map[0 := Restored(0)], None, map[]);
    Sys(Config(false, false), [prepared, prepared.(journal := Some(Journal(0, SwapStarted)))],
        Db(Original, None), Down, false, {0}, {})
  }

  /** There the last entries do depend on what a later power failure takes back. */
  lemma RecoveriesCanDiffer()
    ensures Inv(KilledInFirstWrite()) && !AllAgree(KilledInFirstWrite())
  {
    var s := KilledInFirstWrite();
    assert Inv(s);
    assert 0 in Outcome(s.hist[0], s.db).0.workStorage && 0 !in Outcome(s.hist[1], s.db).0.workStorage;
    assert s.hist[0] in s.hist && s.hist[1] in s.hist;
    RecoveriesAgreeExactlyIff(s);
  }
}
