/** What the theorems about runs say about the methods that restore and recover. */
module RestoreGuarantees {
  import opened Results
  import opened RestoreMachine
  import opened RestoreInvariant
  import opened RestoreTheorems
  import opened RestoreProgram

  /** The invariant is a set of states that the program never leaves. */
  lemma InvariantIsClosed()
    ensures Closed((s: Sys) => Inv(s))
  {
    forall s: Sys, e: Event | Inv(s) && ByProgram(e) && Step(s, e).Some? && (e.Next? ==> SealDurable(s))
      ensures Inv(Step(s, e).value)
    {
      StepKeeps(s, e);
    }
  }

  /** Some sealed run leads from `s` to `t`. */
  ghost predicate SealedReach(s: Sys, t: Sys) { exists es :: Run(s, es) == Some(t) && SealedRun(s, es) }

  /** Some run does. */
  ghost predicate Reach(s: Sys, t: Sys) { exists es :: Run(s, es) == Some(t) }

  lemma {:induction false} RunOneMore(s: Sys, es: seq<Event>, t: Sys, e: Event, u: Sys)
    requires Run(s, es) == Some(t) && Step(t, e) == Some(u)
    ensures Run(s, es + [e]) == Some(u)
    ensures SealedRun(s, es) && (e.Next? ==> SealDurable(t)) ==> SealedRun(s, es + [e])
    decreases es
  {
    if es == [] {
      assert [e][1..] == [];
    } else {
      assert (es + [e])[1..] == es[1..] + [e];
      RunOneMore(Step(s, es[0]).value, es[1..], t, e, u);
    }
  }

  /** So are the states that sealed runs reach, and those that any runs reach: what the methods below
      leave is reached by a run of the transition system. */
  lemma ReachIsClosed(s: Sys)
    ensures Closed((t: Sys) => SealedReach(s, t)) && SealedReach(s, s)
    ensures FullyClosed((t: Sys) => Reach(s, t)) && Reach(s, s)
  {
    assert Run(s, []) == Some(s) && SealedRun(s, []);
    forall t: Sys, e: Event | SealedReach(s, t) && Step(t, e).Some? && (e.Next? ==> SealDurable(t))
      ensures SealedReach(s, Step(t, e).value)
    {
      var es :| Run(s, es) == Some(t) && SealedRun(s, es);
      RunOneMore(s, es, t, e, Step(t, e).value);
    }
    forall t: Sys, e: Event | Reach(s, t) && Step(t, e).Some? ensures Reach(s, Step(t, e).value) {
      var es :| Run(s, es) == Some(t);
      RunOneMore(s, es, t, e, Step(t, e).value);
    }
  }

  /** Every snapshot of the directory is whole and of generation `g`, with nothing in flight. */
  ghost predicate Quiet(world: World, g: Generation)
    reads world
  {
    forall h :: h in world.hist ==> Live(world.conf, h, g) && NoPrevious(h)
  }

  /** One restore, from any state of the protocol. When it returns with the guard closed, database and
      files are the old generation in every snapshot a power failure could leave, and no journal is
      left; otherwise the guard is still up. */
  method RestoreSafely(files: PreparedStorageRestore) returns (end: Proc)
    requires Inv(files.world.At(Swapping(files.id, OpenData)))
    modifies files, files.world
    ensures Inv(files.world.At(end))
    ensures end == Awaiting(files.id) || end == Fenced(files.id) || end == Idle(RolledBackLive(files.id))
    ensures end.Idle? <==> !files.world.guard
    ensures end.Idle? ==> files.world.db == old(files.world.db) && files.world.db.marker.None?
    ensures end.Idle? ==> Quiet(files.world, old(files.world.db.gen)) && forall h :: h in files.world.hist ==> h.journal.None?
    ensures end.Awaiting? ==> files.world.db == Db(Restored(files.id), Some(files.id))
    ensures end.Awaiting? ==> forall h :: h in files.world.hist ==> NewLive(h, files.id) && PreviousKept(h, files.id)
    ensures !files.world.faulted && !old(files.swapped) ==> end.Awaiting? || old(files.world.Now()).secret.None?
  {
    InvariantIsClosed();
    end := RestoreUnderLease(files, s => Inv(s));
    assert forall h :: h in files.world.hist ==> SnapshotOk(files.world.At(end), h);
  }

  /** One start-up, from any state of the protocol whose seal, if it has one, is durable. It never
      refuses; without a fault it serves; and then database and files are of one generation in every
      snapshot. */
  method RecoverSafely(world: World) returns (end: Proc)
    requires Inv(world.At(ReadingJournal))
    modifies world`hist, world`db, world`faulted
    ensures world.hist != []
    ensures !Unsealed(old(world.hist), old(world.db)) ==> Inv(world.At(end)) && !end.Refused?
    ensures !Unsealed(old(world.hist), old(world.db)) && !world.faulted ==> end.Idle?
    ensures !Unsealed(old(world.hist), old(world.db)) && end.Idle? ==>
              world.db == old(world.db).(marker := None) && Quiet(world, world.db.gen)
    ensures end.Idle? ==> RecoveredAs(old(world.Now()), old(world.db), world.Now(), world.db, end)
  {
    InvariantIsClosed();
    end := Recover(world, s => Inv(s));
  }
}
