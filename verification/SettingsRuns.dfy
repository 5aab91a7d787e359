/** Settings requests and backups of one server process, with commits whose outcome may be hidden. */
module SettingsRuns {
  import opened Results
  import opened SettingsMerge

  /** A settings value, and a storage configuration by name. */
  type Settings = Setting
  type Storage = nat

  /** `Merge` applies a patch to the stored value; `Resolve` gives the storage configuration a value selects. */
  datatype Rules = Rules(merge: (Settings, Settings) -> Settings, resolve: Settings -> Storage)

  /** Where a request stands. The second group is the reconciliation after a failure behind the start
      of the commit; the third is a backup. */
  datatype Pc =
    | Waiting(patch: Settings) | Holding(patch: Settings) | Merged(m: Settings)
    | Committing(m: Settings, landed: bool) | Acked(m: Settings) | Applied
    | Reconciling | Reholding | Reread(d: Settings) | Reapplied
    | BackupWaiting | BackupHolding | BackupPinned(c: Storage) | BackupTaken(c: Storage)
    | Done | Refused

  /** `barrier` is who holds the write barrier in PostgreSQL. Since the runtime was last set from the
      settings, `dirty` says whether a commit has landed and `lost` whether a reconciliation has failed. */
  datatype Sys = Sys(durable: Settings, live: Storage, barrier: Option<nat>, reqs: map<nat, Pc>, dirty: bool, lost: bool)

  datatype Event =
    | Patch(i: nat, patch: Settings) | Backup(i: nat)
    | Acquire(i: nat) | LoseBarrier(i: nat)
    | ReadCurrent(i: nat) | StartCommit(i: nat) | Land(i: nat) | Acknowledge(i: nat)
    | Reload(i: nat) | Apply(i: nat) | Leave(i: nat) | Fail(i: nat)
    | PinLive(i: nat) | CompareDurable(i: nat)

  function Free(s: Sys, i: nat): Option<nat> { if s.barrier == Some(i) then None else s.barrier }

  function At(s: Sys, i: nat, pc: Pc): Sys { s.(reqs := s.reqs[i := pc]) }

  /** A failure: behind the start of the commit it leads to the reconciliation, before it to the end,
      and inside the reconciliation it is final. */
  function AfterFailure(pc: Pc): Option<Pc> {
    match pc
    case Committing(_, _) => Some(Reconciling)
    case Acked(_) => Some(Reconciling)
    case Applied => Some(Reconciling)
    case Done => None
    case Refused => None
    case _ => Some(Done)
  }

  predicate InReconciliation(pc: Pc) { pc.Reconciling? || pc.Reholding? || pc.Reread? }

  function Step(rules: Rules, s: Sys, e: Event): Option<Sys> {
    match e
    case Patch(i, patch) => if i in s.reqs then None else Some(At(s, i, Waiting(patch)))
    case Backup(i) => if i in s.reqs then None else Some(At(s, i, BackupWaiting))
    case LoseBarrier(i) => if s.barrier != Some(i) then None else Some(s.(barrier := None))
    case Fail(i) =>
      if i !in s.reqs || AfterFailure(s.reqs[i]).None? then None
      else Some(At(s, i, AfterFailure(s.reqs[i]).value).(barrier := Free(s, i), lost := s.lost || InReconciliation(s.reqs[i])))
    case Acquire(i) =>
      if i !in s.reqs || s.barrier.Some? then None
      else (
        match s.reqs[i]
        case Waiting(patch) => Some(At(s, i, Holding(patch)).(barrier := Some(i)))
        case Reconciling => Some(At(s, i, Reholding).(barrier := Some(i)))
        case BackupWaiting => Some(At(s, i, BackupHolding).(barrier := Some(i)))
        case _ => None)
    case Acknowledge(i) =>
      if i in s.reqs && s.reqs[i].Committing? && s.reqs[i].landed then Some(At(s, i, Acked(s.reqs[i].m))) else None
    case Leave(i) =>
      if i in s.reqs && (s.reqs[i].Applied? || s.reqs[i].Reapplied? || s.reqs[i].BackupTaken?)
      then Some(At(s, i, Done).(barrier := Free(s, i))) else None
    case _ => if e.i !in s.reqs || s.barrier != Some(e.i) then None else Held(rules, s, e, e.i, s.reqs[e.i])
  }

  /** The steps that need the session that holds the barrier. */
  function Held(rules: Rules, s: Sys, e: Event, i: nat, pc: Pc): Option<Sys> {
    match e
    case ReadCurrent(_) => if pc.Holding? then Some(At(s, i, Merged(rules.merge(s.durable, pc.patch)))) else None
    case StartCommit(_) => if pc.Merged? then Some(At(s, i, Committing(pc.m, false))) else None
    case Land(_) => if pc.Committing? && !pc.landed then Some(At(s, i, Committing(pc.m, true)).(durable := pc.m, dirty := true)) else None
    case Reload(_) => if pc.Reholding? then Some(At(s, i, Reread(s.durable))) else None
    case Apply(_) =>
      if pc.Acked? then Some(At(s, i, Applied).(live := rules.resolve(pc.m), dirty := false, lost := false))
      else if pc.Reread? then Some(At(s, i, Reapplied).(live := rules.resolve(pc.d), dirty := false, lost := false))
      else None
    case PinLive(_) => if pc.BackupHolding? then Some(At(s, i, BackupPinned(s.live))) else None
    case CompareDurable(_) =>
      if !pc.BackupPinned? then None
      else if rules.resolve(s.durable) != pc.c then Some(At(s, i, Refused).(barrier := None))
      else Some(At(s, i, BackupTaken(pc.c)))
    case _ => None
  }

  function Run(rules: Rules, s: Sys, events: seq<Event>): Option<Sys> {
    if events == [] then Some(s)
    else
      var k := |events| - 1;
      match Run(rules, s, events[..k]) case None => None case Some(t) => Step(rules, t, events[k])
  }

  /** A server that has just loaded its settings. */
  function Init(rules: Rules, durable: Settings): Sys { Sys(durable, rules.resolve(durable), None, map[], false, false) }

  /** What a request knows for certain while it holds the barrier. */
  ghost predicate Knows(rules: Rules, s: Sys, pc: Pc) {
    match pc
    case Committing(m, landed) => landed ==> s.durable == m
    case Acked(m) => s.durable == m
    case Reread(d) => s.durable == d
    case BackupPinned(c) => s.live == c
    case BackupTaken(c) => s.live == c && rules.resolve(s.durable) == c
    case _ => true
  }

  /** The request has begun a commit and its effect on the runtime is still to come. */
  predicate Unsettled(pc: Pc) { pc.Committing? || pc.Acked? || InReconciliation(pc) }

  ghost predicate SomeUnsettled(s: Sys) { exists i :: i in s.reqs && Unsettled(s.reqs[i]) }

  ghost predicate Agree(rules: Rules, s: Sys) { s.live == rules.resolve(s.durable) }

  ghost predicate HolderKnows(rules: Rules, s: Sys) {
    s.barrier.Some? ==> s.barrier.value in s.reqs && Knows(rules, s, s.reqs[s.barrier.value])
  }

  ghost predicate Inv(rules: Rules, s: Sys) {
    HolderKnows(rules, s) && (!s.dirty ==> Agree(rules, s)) && (s.dirty ==> s.lost || SomeUnsettled(s))
  }

  lemma StepKnows(rules: Rules, s: Sys, e: Event)
    requires Inv(rules, s) && Step(rules, s, e).Some?
    ensures var t := Step(rules, s, e).value; HolderKnows(rules, t) && (!t.dirty ==> Agree(rules, t))
  {
  }

  lemma StepKeeps(rules: Rules, s: Sys, e: Event)
    requires Inv(rules, s) && Step(rules, s, e).Some?
    ensures Inv(rules, Step(rules, s, e).value)
  {
    StepKnows(rules, s, e);
    var t := Step(rules, s, e).value;
    if t.dirty && !t.lost {
      var i := if s.dirty then Unfinished(s) else e.i;
      assert i in t.reqs && Unsettled(t.reqs[i]);
    }
  }

  ghost function Unfinished(s: Sys): (i: nat)
    requires SomeUnsettled(s)
    ensures i in s.reqs && Unsettled(s.reqs[i])
  {
    var i :| i in s.reqs && Unsettled(s.reqs[i]); i
  }

  lemma {:induction false} RunKeeps(rules: Rules, s: Sys, events: seq<Event>)
    requires Inv(rules, s) && Run(rules, s, events).Some?
    ensures Inv(rules, Run(rules, s, events).value)
    decreases |events|
  {
    if events != [] {
      var k := |events| - 1;
      RunKeeps(rules, s, events[..k]);
      StepKeeps(rules, Run(rules, s, events[..k]).value, events[k]);
    }
  }

  ghost predicate Quiet(s: Sys) { forall i :: i in s.reqs ==> !Unsettled(s.reqs[i]) }

  /** Once every request and its reconciliation has finished, the runtime has the storage that the
      durable settings select, unless a commit has landed and the reconciliation behind it failed. */
  lemma SettingsAgree(rules: Rules, durable: Settings, events: seq<Event>)
    requires Run(rules, Init(rules, durable), events).Some?
    ensures var s := Run(rules, Init(rules, durable), events).value;
            && (!s.dirty ==> Agree(rules, s)) && (Quiet(s) && s.dirty ==> s.lost)
  {
    RunKeeps(rules, Init(rules, durable), events);
  }

  /** A backup is taken exactly when the two configurations are equal, and refused otherwise. */
  lemma BackupNeedsAgreement(rules: Rules, durable: Settings, events: seq<Event>, i: nat)
    requires Run(rules, Init(rules, durable), events).Some?
    requires var s := Run(rules, Init(rules, durable), events).value; Step(rules, s, CompareDurable(i)).Some?
    ensures var s := Run(rules, Init(rules, durable), events).value;
            var t := Step(rules, s, CompareDurable(i)).value;
            if Agree(rules, s) then t.reqs[i].BackupTaken? else t.reqs[i].Refused?
  {
    RunKeeps(rules, Init(rules, durable), events);
  }

  /** And as long as the backup keeps the barrier, they stay equal. */
  lemma BackupStaysConsistent(rules: Rules, durable: Settings, events: seq<Event>, i: nat)
    requires Run(rules, Init(rules, durable), events).Some?
    ensures var s := Run(rules, Init(rules, durable), events).value;
            s.barrier == Some(i) && i in s.reqs && s.reqs[i].BackupTaken? ==> Agree(rules, s) && s.live == s.reqs[i].c
  {
    RunKeeps(rules, Init(rules, durable), events);
  }

  /** A commit lands, its acknowledgement is lost, and so is the connection for the reconciliation. */
  function LostReconciliation(): seq<Event> {
    [Patch(0, Scalar(1)), Acquire(0), ReadCurrent(0), StartCommit(0), Land(0), Fail(0), Fail(0)]
  }

  const OVERWRITE := Rules((current, patch) => patch, Count)

  function Stage(k: nat): Sys {
    var pc := if k == 1 then Waiting(Scalar(1)) else if k == 2 then Holding(Scalar(1)) else if k == 3 then Merged(Scalar(1))
              else if k == 4 then Committing(Scalar(1), false) else if k == 5 then Committing(Scalar(1), true)
              else if k == 6 then Reconciling else Done;
    Sys(Scalar(if k >= 5 then 1 else 0), 0, if 2 <= k < 6 then Some(0) else None, if k == 0 then map[] else map[0 := pc], k >= 5, k >= 7)
  }

  lemma StageStep(k: nat)
    requires k < 7
    ensures Step(OVERWRITE, Stage(k), LostReconciliation()[k]) == Some(Stage(k + 1))
  {
    var s, t := Stage(k), Stage(k + 1);
    assert s.reqs[0 := t.reqs[0]] == t.reqs;
  }

  lemma RunSnoc(rules: Rules, s: Sys, events: seq<Event>, e: Event)
    requires Run(rules, s, events).Some?
    ensures Run(rules, s, events + [e]) == Step(rules, Run(rules, s, events).value, e)
  {
    assert (events + [e])[..|events|] == events;
  }

  /** Without the reconciliation the runtime can keep storage that the durable settings no longer select. */
  lemma FailedReconciliationDisagrees()
    ensures Run(OVERWRITE, Init(OVERWRITE, ZERO), LostReconciliation()).Some?
    ensures var s := Run(OVERWRITE, Init(OVERWRITE, ZERO), LostReconciliation()).value;
            Quiet(s) && s.dirty && !Agree(OVERWRITE, s)
  {
    var es := LostReconciliation();
    var r: seq<Event> := [];
    for k := 0 to 7
      invariant r == es[..k] && Run(OVERWRITE, Init(OVERWRITE, ZERO), r) == Some(Stage(k))
    {
      StageStep(k);
      RunSnoc(OVERWRITE, Init(OVERWRITE, ZERO), r, es[k]);
      assert es[..k + 1] == es[..k] + [es[k]];
      r := r + [es[k]];
    }
    assert es[..7] == es;
  }

  // The flag is exact

  const ZERO := Scalar(0)

  /** A request's place without the values it carries. */
  function Shape(pc: Pc): Pc {
    match pc
    case Waiting(_) => Waiting(ZERO)
    case Holding(_) => Holding(ZERO)
    case Merged(_) => Merged(ZERO)
    case Committing(_, landed) => Committing(ZERO, landed)
    case Acked(_) => Acked(ZERO)
    case Reread(_) => Reread(ZERO)
    case _ => pc
  }

  predicate IsBackup(pc: Pc) { pc.BackupWaiting? || pc.BackupHolding? || pc.BackupPinned? || pc.BackupTaken? || pc.Refused? }

  /** Two systems at the same place, whatever their settings are. */
  ghost predicate Alike(s: Sys, t: Sys) {
    && s.barrier == t.barrier && s.dirty == t.dirty && s.lost == t.lost && s.reqs.Keys == t.reqs.Keys
    && forall i :: i in s.reqs ==> Shape(s.reqs[i]) == Shape(t.reqs[i]) && !IsBackup(s.reqs[i])
  }

  lemma AlikeAt(s: Sys, t: Sys, i: nat, pc: Pc, qc: Pc)
    requires Alike(s, t) && Shape(pc) == Shape(qc) && !IsBackup(pc)
    ensures Alike(At(s, i, pc), At(t, i, qc))
  {
    var s', t' := At(s, i, pc), At(t, i, qc);
    forall k | k in s'.reqs ensures Shape(s'.reqs[k]) == Shape(t'.reqs[k]) && !IsBackup(s'.reqs[k]) {
      if k != i { assert s'.reqs[k] == s.reqs[k] && t'.reqs[k] == t.reqs[k]; }
    }
  }

  /** The place to which a step under the barrier leads. */
  ghost function Then(rules: Rules, s: Sys, e: Event, pc: Pc): (next: Pc)
    requires Held(rules, s, e, 0, pc).Some?
    ensures forall i :: Held(rules, s, e, i, pc).Some? && Held(rules, s, e, i, pc).value.reqs == s.reqs[i := next]
  {
    Held(rules, s, e, 0, pc).value.reqs[0]
  }

  lemma ThenAlike(rules: Rules, s: Sys, other: Rules, t: Sys, e: Event, pc: Pc, qc: Pc)
    requires Shape(pc) == Shape(qc) && !IsBackup(pc) && Held(rules, s, e, 0, pc).Some?
    ensures Held(other, t, e, 0, qc).Some?
    ensures Shape(Then(rules, s, e, pc)) == Shape(Then(other, t, e, qc)) && !IsBackup(Then(rules, s, e, pc))
  {
  }

  lemma AlikeHeld(rules: Rules, s: Sys, other: Rules, t: Sys, e: Event, i: nat)
    requires Alike(s, t) && i in s.reqs && Held(rules, s, e, i, s.reqs[i]).Some?
    ensures Held(other, t, e, i, t.reqs[i]).Some?
    ensures Alike(Held(rules, s, e, i, s.reqs[i]).value, Held(other, t, e, i, t.reqs[i]).value)
  {
    var pc, qc := s.reqs[i], t.reqs[i];
    ThenAlike(rules, s, other, t, e, pc, qc);
    AlikeAt(s, t, i, Then(rules, s, e, pc), Then(other, t, e, qc));
  }

  lemma AlikeStep(rules: Rules, s: Sys, other: Rules, t: Sys, e: Event)
    requires Alike(s, t) && !e.Backup? && Step(rules, s, e).Some?
    ensures Step(other, t, e).Some? && Alike(Step(rules, s, e).value, Step(other, t, e).value)
  {
    if e.Fail? { AlikeFail(rules, s, other, t, e.i); }
    else if e.Acquire? { AlikeAcquire(rules, s, other, t, e.i); }
    else if e.Acknowledge? { AlikeAcknowledge(rules, s, other, t, e.i); }
    else if e.Patch? || e.LoseBarrier? || e.Leave? { AlikeSimple(rules, s, other, t, e); }
    else { AlikeHeld(rules, s, other, t, e, e.i); }
  }

  lemma AlikeSimple(rules: Rules, s: Sys, other: Rules, t: Sys, e: Event)
    requires Alike(s, t) && (e.Patch? || e.LoseBarrier? || e.Leave?) && Step(rules, s, e).Some?
    ensures Step(other, t, e).Some? && Alike(Step(rules, s, e).value, Step(other, t, e).value)
  {
    if e.Patch? { AlikeAt(s, t, e.i, Waiting(e.patch), Waiting(e.patch)); }
    if e.Leave? { AlikeAt(s, t, e.i, Done, Done); }
  }

  lemma AlikeFail(rules: Rules, s: Sys, other: Rules, t: Sys, i: nat)
    requires Alike(s, t) && Step(rules, s, Fail(i)).Some?
    ensures Step(other, t, Fail(i)).Some?
    ensures Alike(Step(rules, s, Fail(i)).value, Step(other, t, Fail(i)).value)
  {
    AlikeAt(s, t, i, AfterFailure(s.reqs[i]).value, AfterFailure(t.reqs[i]).value);
  }

  lemma AlikeAcknowledge(rules: Rules, s: Sys, other: Rules, t: Sys, i: nat)
    requires Alike(s, t) && Step(rules, s, Acknowledge(i)).Some?
    ensures Step(other, t, Acknowledge(i)).Some?
    ensures Alike(Step(rules, s, Acknowledge(i)).value, Step(other, t, Acknowledge(i)).value)
  {
    assert Shape(s.reqs[i]) == Shape(t.reqs[i]);
    AlikeAt(s, t, i, Acked(s.reqs[i].m), Acked(t.reqs[i].m));
  }

  lemma AlikeAcquire(rules: Rules, s: Sys, other: Rules, t: Sys, i: nat)
    requires Alike(s, t) && Step(rules, s, Acquire(i)).Some?
    ensures Step(other, t, Acquire(i)).Some?
    ensures Alike(Step(rules, s, Acquire(i)).value, Step(other, t, Acquire(i)).value)
  {
    assert Shape(s.reqs[i]) == Shape(t.reqs[i]) && !IsBackup(s.reqs[i]);
    AlikeAt(s, t, i, Step(rules, s, Acquire(i)).value.reqs[i], Step(other, t, Acquire(i)).value.reqs[i]);
  }

  ghost predicate NoBackup(events: seq<Event>) { forall e :: e in events ==> !e.Backup? }

  /** Without backups, what can happen does not depend on the settings. */
  lemma {:induction false} AlikeRun(rules: Rules, durable: Settings, other: Rules, start: Settings, events: seq<Event>)
    requires NoBackup(events) && Run(rules, Init(rules, durable), events).Some?
    ensures Run(other, Init(other, start), events).Some?
    ensures Alike(Run(rules, Init(rules, durable), events).value, Run(other, Init(other, start), events).value)
    decreases |events|
  {
    if events != [] {
      var k := |events| - 1;
      assert forall e :: e in events[..k] ==> e in events;
      AlikeRun(rules, durable, other, start, events[..k]);
      assert events[k] in events;
      AlikeStep(rules, Run(rules, Init(rules, durable), events[..k]).value, other, Run(other, Init(other, start), events[..k]).value, events[k]);
    }
  }

  // Backups change no settings

  function Backups(events: seq<Event>): set<nat> { set e | e in events && e.Backup? :: e.i }

  function Without(events: seq<Event>, ids: set<nat>): seq<Event> {
    if events == [] then []
    else
      var k := |events| - 1;
      Without(events[..k], ids) + if events[k].i in ids then [] else [events[k]]
  }

  /** A course of events with everything the backups in it do left out. */
  function SettingsOnly(events: seq<Event>): seq<Event> { Without(events, Backups(events)) }

  function Hide(s: Sys, ids: set<nat>): Sys {
    s.(reqs := map i | i in s.reqs && i !in ids :: s.reqs[i],
       barrier := if s.barrier.Some? && s.barrier.value in ids then None else s.barrier)
  }

  ghost predicate OnlyBackups(s: Sys, ids: set<nat>) {
    forall i :: i in s.reqs && i in ids ==> IsBackup(s.reqs[i]) || s.reqs[i].Done?
  }

  lemma HideAt(s: Sys, ids: set<nat>, i: nat, pc: Pc)
    requires OnlyBackups(s, ids)
    ensures i in ids ==> Hide(At(s, i, pc), ids) == Hide(s, ids)
    ensures i !in ids ==> Hide(At(s, i, pc), ids) == At(Hide(s, ids), i, pc)
    ensures i !in ids || IsBackup(pc) || pc.Done? ==> OnlyBackups(At(s, i, pc), ids)
  {
    if i in ids { assert Hide(At(s, i, pc), ids).reqs == Hide(s, ids).reqs; }
    else { assert Hide(At(s, i, pc), ids).reqs == Hide(s, ids).reqs[i := pc]; }
  }

  lemma HideBackup(rules: Rules, s: Sys, e: Event, ids: set<nat>)
    requires OnlyBackups(s, ids) && Step(rules, s, e).Some? && e.i in ids && !e.Patch?
    ensures var t := Step(rules, s, e).value; OnlyBackups(t, ids) && Hide(t, ids) == Hide(s, ids)
  {
    var t := Step(rules, s, e).value;
    if !e.LoseBarrier? { HideAt(s, ids, e.i, t.reqs[e.i]); }
  }

  lemma HideOther(rules: Rules, s: Sys, e: Event, ids: set<nat>)
    requires OnlyBackups(s, ids) && Step(rules, s, e).Some? && e.i !in ids
    ensures var t := Step(rules, s, e).value; OnlyBackups(t, ids) && Step(rules, Hide(s, ids), e) == Some(Hide(t, ids))
  {
    if e.LoseBarrier? {
    } else if e.Patch? || e.Backup? || e.Fail? || e.Acquire? || e.Acknowledge? || e.Leave? {
      HideFree(rules, s, e, ids);
    } else {
      HideHeld(rules, s, e, ids);
    }
  }

  lemma HideFree(rules: Rules, s: Sys, e: Event, ids: set<nat>)
    requires OnlyBackups(s, ids) && Step(rules, s, e).Some? && e.i !in ids
    requires e.Patch? || e.Backup? || e.Fail? || e.Acquire? || e.Acknowledge? || e.Leave?
    ensures var t := Step(rules, s, e).value; OnlyBackups(t, ids) && Step(rules, Hide(s, ids), e) == Some(Hide(t, ids))
  {
    HideAt(s, ids, e.i, Step(rules, s, e).value.reqs[e.i]);
  }

  lemma HideHeld(rules: Rules, s: Sys, e: Event, ids: set<nat>)
    requires OnlyBackups(s, ids) && e.i in s.reqs && s.barrier == Some(e.i) && e.i !in ids
    requires Held(rules, s, e, e.i, s.reqs[e.i]).Some?
    ensures var t := Held(rules, s, e, e.i, s.reqs[e.i]).value;
            OnlyBackups(t, ids) && Held(rules, Hide(s, ids), e, e.i, s.reqs[e.i]) == Some(Hide(t, ids))
  {
    HideAt(s, ids, e.i, Then(rules, s, e, s.reqs[e.i]));
  }

  lemma {:induction false} HideRun(rules: Rules, durable: Settings, events: seq<Event>, ids: set<nat>)
    requires Run(rules, Init(rules, durable), events).Some?
    requires forall e :: e in events && e.Patch? ==> e.i !in ids
    requires forall e :: e in events && e.Backup? ==> e.i in ids
    ensures OnlyBackups(Run(rules, Init(rules, durable), events).value, ids)
    ensures Run(rules, Init(rules, durable), Without(events, ids)) ==
            Some(Hide(Run(rules, Init(rules, durable), events).value, ids))
    ensures NoBackup(Without(events, ids))
    decreases |events|
  {
    var s := Init(rules, durable);
    if events == [] {
      assert Hide(s, ids) == s;
    } else {
      var k := |events| - 1;
      assert events[k] in events;
      assert Without(events, ids) == Without(events[..k], ids) + if events[k].i in ids then [] else [events[k]];
      HideRun(rules, durable, events[..k], ids);
      var t := Run(rules, s, events[..k]).value;
      if events[k].i in ids {
        HideBackup(rules, t, events[k], ids);
        assert Without(events, ids) == Without(events[..k], ids);
      } else {
        HideOther(rules, t, events[k], ids);
        RunSnoc(rules, s, Without(events[..k], ids), events[k]);
      }
    }
  }

  /** A name is used once, by one settings request or by one backup. */
  lemma {:induction false} NamesOnce(rules: Rules, s: Sys, events: seq<Event>)
    requires Run(rules, s, events).Some?
    ensures forall e :: e in events && (e.Patch? || e.Backup?) ==> e.i in Run(rules, s, events).value.reqs
    ensures forall e, f :: e in events && f in events && e.Patch? && f.Backup? ==> e.i != f.i
    decreases |events|
  {
    if events != [] {
      var k := |events| - 1;
      NamesOnce(rules, s, events[..k]);
      KeysGrow(rules, Run(rules, s, events[..k]).value, events[k]);
      assert forall e :: e in events ==> e in events[..k] || e == events[k];
    }
  }

  lemma KeysGrow(rules: Rules, s: Sys, e: Event)
    requires Step(rules, s, e).Some?
    ensures s.reqs.Keys <= Step(rules, s, e).value.reqs.Keys
    ensures e.Patch? || e.Backup? ==> e.i !in s.reqs && e.i in Step(rules, s, e).value.reqs
  {
  }

  /** Every merge makes a new value, and every value selects its own storage. */
  const COUNTING := Rules((current, patch) => Scalar(Count(current) + 1), Count)

  function Count(s: Settings): nat { if s.Scalar? then s.v else 0 }

  ghost predicate Ahead(s: Sys, pc: Pc) {
    match pc
    case Merged(m) => m == Scalar(Count(s.durable) + 1)
    case Committing(m, landed) => m == if landed then s.durable else Scalar(Count(s.durable) + 1)
    case Acked(m) => m == s.durable
    case Reread(d) => d == s.durable
    case _ => true
  }

  ghost predicate CountingInv(s: Sys) {
    && (s.barrier.Some? ==> s.barrier.value in s.reqs && Ahead(s, s.reqs[s.barrier.value]))
    && s.live <= Count(s.durable) && (s.dirty ==> s.live < Count(s.durable))
  }

  lemma CountingStep(s: Sys, e: Event)
    requires CountingInv(s) && Step(COUNTING, s, e).Some?
    ensures CountingInv(Step(COUNTING, s, e).value)
  {
  }

  lemma {:induction false} CountingRun(durable: Settings, events: seq<Event>)
    requires Run(COUNTING, Init(COUNTING, durable), events).Some?
    ensures CountingInv(Run(COUNTING, Init(COUNTING, durable), events).value)
    decreases |events|
  {
    if events != [] {
      var k := |events| - 1;
      CountingRun(durable, events[..k]);
      CountingStep(Run(COUNTING, Init(COUNTING, durable), events[..k]).value, events[k]);
    }
  }

  ghost predicate Disagrees(rules: Rules, durable: Settings, events: seq<Event>) {
    var run := Run(rules, Init(rules, durable), events); run.Some? && !Agree(rules, run.value)
  }

  /** The condition is exact: for one and the same course of requests, live and durable storage agree
      whatever the settings are, if and only if no commit has landed since the runtime was last set. */
  lemma DirtyIffSomeSettingsDisagree(rules: Rules, durable: Settings, events: seq<Event>)
    requires Run(rules, Init(rules, durable), events).Some?
    ensures Run(rules, Init(rules, durable), events).value.dirty <==>
            exists other, start :: Disagrees(other, start, SettingsOnly(events))
  {
    var es := SettingsOnly(events);
    NamesOnce(rules, Init(rules, durable), events);
    HideRun(rules, durable, events, Backups(events));
    if other, start :| Disagrees(other, start, es) {
      AlikeRun(rules, durable, other, start, es);
      SettingsAgree(other, start, es);
    }
    if Run(rules, Init(rules, durable), events).value.dirty {
      AlikeRun(rules, durable, COUNTING, ZERO, es);
      CountingRun(ZERO, es);
      assert Disagrees(COUNTING, ZERO, es);
    }
  }
}
