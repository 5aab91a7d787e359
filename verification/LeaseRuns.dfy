/** Runs of many processes that publish, delete, download and restore archives under leases. */
module LeaseRuns {
  import opened Results
  import opened Leases

  datatype Kind = Publish | Delete | Download | Restore

  /** One operation of one process. `linked` is the archive a publication has linked but not yet
      finished; `pin` the archive a reader has open. */
  datatype Op = Op(process: nat, kind: Kind, key: nat, data: bool, backups: Option<Mode>, linked: Option<nat>, pin: Option<nat>)

  /** `files` maps archive keys to inodes. `published` and `withdrawn` record, for the statements
      below, how the publication of an inode ended. */
  datatype Sys = Sys(
    ops: map<nat, Op>, data: Lock, backups: Lock, files: map<nat, nat>, next: nat, published: set<nat>, withdrawn: set<nat>)

  datatype Event =
    | Start(i: nat, process: nat, kind: Kind, key: nat)
    | TakeData(i: nat) | TakeBackups(i: nat)
    | Link(i: nat) | Finish(i: nat) | Rollback(i: nat)
    | Unlink(i: nat)
    | Pin(i: nat) | Unpin(i: nat)
    | Leave(i: nat)
    | Crash(process: nat)

  function Init(files: map<nat, nat>, next: nat): Sys {
    Sys(map[], UNLOCKED, UNLOCKED, files, next, files.Values, {})
  }

  /** Deleting wants `backups` for itself; readers share it; publishing does without. */
  function Wants(kind: Kind): Option<Mode> {
    match kind case Delete => Some(Exclusive) case Download => Some(Shared) case Restore => Some(Shared) case Publish => None
  }

  function Release(s: Sys, gone: set<nat>): Sys {
    s.(ops := s.ops - gone,
       data := Lock(s.data.shared - gone, if s.data.exclusive.Some? && s.data.exclusive.value in gone then None else s.data.exclusive),
       backups := Lock(s.backups.shared - gone,
                       if s.backups.exclusive.Some? && s.backups.exclusive.value in gone then None else s.backups.exclusive))
  }

  /** What one event does, if it can happen. */
  function Step(s: Sys, e: Event): Option<Sys> {
    match e
    case Start(i, process, kind, key) =>
      if i in s.ops || Holds(s.data, i) || Holds(s.backups, i) then None
      else Some(s.(ops := s.ops[i := Op(process, kind, key, false, None, None, None)]))
    case Crash(process) => Some(Release(s, set i | i in s.ops && s.ops[i].process == process))
    case _ => if e.i !in s.ops then None else OpStep(s, e, e.i, s.ops[e.i])
  }

  function OpStep(s: Sys, e: Event, i: nat, op: Op): Option<Sys> {
    match e
    case TakeData(_) =>
      if op.kind.Download? || op.data || !Free(s.data, Exclusive) then None
      else Some(s.(data := Grant(s.data, Exclusive, i), ops := s.ops[i := op.(data := true)]))
    case TakeBackups(_) =>
      var want := Wants(op.kind);
      if want.None? || op.backups.Some? || (!op.kind.Download? && !op.data) || !Free(s.backups, want.value) then None
      else Some(s.(backups := Grant(s.backups, want.value, i), ops := s.ops[i := op.(backups := want)]))
    case Link(_) =>
      if !op.kind.Publish? || !op.data || op.linked.Some? || op.key in s.files then None
      else Some(s.(files := s.files[op.key := s.next], next := s.next + 1, ops := s.ops[i := op.(linked := Some(s.next))]))
    case Finish(_) =>
      if op.linked.None? then None
      else Some(s.(published := s.published + {op.linked.value}, ops := s.ops[i := op.(linked := None)]))
    case Rollback(_) =>
      if op.linked.None? then None
      else Some(s.(files := s.files - {op.key}, withdrawn := s.withdrawn + {op.linked.value}, ops := s.ops[i := op.(linked := None)]))
    case Unlink(_) =>
      if !op.kind.Delete? || !op.data || op.backups != Some(Exclusive) || op.key !in s.files then None
      else Some(s.(files := s.files - {op.key}))
    case Pin(_) =>
      if op.backups != Some(Shared) || op.pin.Some? || op.key !in s.files then None
      else Some(s.(ops := s.ops[i := op.(pin := Some(s.files[op.key]))]))
    case Unpin(_) =>
      if op.pin.None? then None else Some(s.(ops := s.ops[i := op.(pin := None)]))
    case Leave(_) =>
      if op.linked.Some? || op.pin.Some? then None else Some(Release(s, {i}))
    case _ => None
  }

  function Run(s: Sys, events: seq<Event>): Option<Sys> {
    if events == [] then Some(s)
    else
      var k := |events| - 1;
      match Run(s, events[..k]) case None => None case Some(t) => Step(t, events[k])
  }

  /** The lock is held by exactly the operations that think they hold it. */
  ghost predicate LocksMatch(s: Sys) {
    && LockOk(s.data) && LockOk(s.backups) && s.data.shared == {}
    && (forall i: nat :: s.data.exclusive == Some(i) <==> i in s.ops && s.ops[i].data)
    && (forall i: nat :: i in s.backups.shared <==> i in s.ops && s.ops[i].backups == Some(Shared))
    && (forall i: nat :: s.backups.exclusive == Some(i) <==> i in s.ops && s.ops[i].backups == Some(Exclusive))
  }

  /** What an operation's own fields promise. */
  ghost predicate OpOk(s: Sys, op: Op) {
    && (op.pin.Some? ==> op.backups == Some(Shared))
    && (op.linked.Some? ==> op.kind.Publish? && op.data && op.key in s.files && s.files[op.key] == op.linked.value
                            && op.linked.value !in s.published && op.linked.value !in s.withdrawn)
  }

  /** A pinned archive is still there under its key, unless its own publication took it back. */
  ghost predicate PinOk(s: Sys, op: Op) {
    op.pin.Some? ==> op.pin.value in s.withdrawn || (op.key in s.files && s.files[op.key] == op.pin.value)
  }

  ghost predicate InodesOk(s: Sys) {
    && (forall k :: k in s.files ==> s.files[k] < s.next && s.files[k] !in s.withdrawn)
    && (forall n :: n in s.published || n in s.withdrawn ==> n < s.next)
    && s.published !! s.withdrawn
    && forall j, k :: j in s.files && k in s.files && j != k ==> s.files[j] != s.files[k]
  }

  ghost predicate Inv(s: Sys) {
    && LocksMatch(s) && InodesOk(s)
    && (forall i :: i in s.ops ==> OpOk(s, s.ops[i]))
    && (forall i :: i in s.ops ==> PinOk(s, s.ops[i]))
  }

  ghost predicate Good(files: map<nat, nat>, next: nat) {
    && (forall k :: k in files ==> files[k] < next)
    && forall j, k :: j in files && k in files && j != k ==> files[j] != files[k]
  }

  lemma InitInv(files: map<nat, nat>, next: nat)
    requires Good(files, next)
    ensures Inv(Init(files, next))
  {
  }

  lemma LocksTaken(s: Sys, e: Event)
    requires LocksMatch(s) && Step(s, e).Some? && (e.TakeData? || e.TakeBackups?)
    ensures LocksMatch(Step(s, e).value)
  {
  }

  lemma LocksReleased(s: Sys, gone: set<nat>)
    requires LocksMatch(s)
    ensures LocksMatch(Release(s, gone))
  {
  }

  lemma LocksLeftAlone(s: Sys, e: Event)
    requires LocksMatch(s) && Step(s, e).Some? && !e.TakeData? && !e.TakeBackups? && !e.Leave? && !e.Crash?
    ensures LocksMatch(Step(s, e).value)
  {
  }

  lemma LocksStep(s: Sys, e: Event)
    requires LocksMatch(s) && Step(s, e).Some?
    ensures LocksMatch(Step(s, e).value)
  {
    if e.TakeData? || e.TakeBackups? { LocksTaken(s, e); }
    else if e.Leave? { LocksReleased(s, {e.i}); }
    else if e.Crash? { LocksReleased(s, set i | i in s.ops && s.ops[i].process == e.process); }
    else { LocksLeftAlone(s, e); }
  }

  lemma InodesStep(s: Sys, e: Event)
    requires Inv(s) && Step(s, e).Some?
    ensures InodesOk(Step(s, e).value)
  {
    if e.Finish? || e.Rollback? { assert OpOk(s, s.ops[e.i]); }
  }

  /** Only one operation is past the data lock, so only one can have a half-published archive. */
  lemma OneMutator(s: Sys, i: nat, j: nat)
    requires LocksMatch(s) && i in s.ops && j in s.ops && s.ops[i].data && s.ops[j].data
    ensures i == j
  {
    assert s.data.exclusive == Some(i) && s.data.exclusive == Some(j);
  }

  /** While one operation has `backups` to itself, no other has it at all. */
  lemma ExclusiveIsAlone(s: Sys, i: nat, j: nat)
    requires LocksMatch(s) && i in s.ops && j in s.ops && s.ops[i].backups == Some(Exclusive) && s.ops[j].backups.Some?
    ensures i == j
  {
    assert s.backups.exclusive == Some(i);
    assert j !in s.backups.shared;
    assert !s.ops[j].backups.value.Shared?;
    assert s.ops[j].backups == Some(Exclusive) && s.backups.exclusive == Some(j);
  }

  lemma NobodyReads(s: Sys, j: nat)
    requires Inv(s) && j in s.ops && s.ops[j].backups == Some(Exclusive)
    ensures forall i :: i in s.ops ==> s.ops[i].pin.None?
  {
    forall i | i in s.ops ensures s.ops[i].pin.None? {
      assert OpOk(s, s.ops[i]);
      if s.ops[i].backups.Some? { ExclusiveIsAlone(s, j, i); }
    }
  }

  lemma OpsStep(s: Sys, e: Event, i: nat)
    requires Inv(s) && Step(s, e).Some? && i in Step(s, e).value.ops
    ensures OpOk(Step(s, e).value, Step(s, e).value.ops[i])
  {
    var t := Step(s, e).value;
    assert i in s.ops ==> OpOk(s, s.ops[i]);
    if i in s.ops && !e.Start? && !e.Crash? {
      assert OpOk(s, s.ops[e.i]);
      if s.ops[i].data && s.ops[e.i].data { OneMutator(s, i, e.i); }
    }
  }

  lemma PinsStep(s: Sys, e: Event, i: nat)
    requires Inv(s) && Step(s, e).Some? && i in Step(s, e).value.ops
    ensures PinOk(Step(s, e).value, Step(s, e).value.ops[i])
  {
    var t := Step(s, e).value;
    assert i in s.ops ==> PinOk(s, s.ops[i]) && OpOk(s, s.ops[i]);
    if i in s.ops && (e.Unlink? || e.Rollback?) {
      assert OpOk(s, s.ops[e.i]);
      if e.Unlink? { NobodyReads(s, e.i); }
    }
  }

  lemma StepKeeps(s: Sys, e: Event)
    requires Inv(s) && Step(s, e).Some?
    ensures Inv(Step(s, e).value)
  {
    var t := Step(s, e).value;
    LocksStep(s, e);
    InodesStep(s, e);
    forall i | i in t.ops ensures OpOk(t, t.ops[i]) && PinOk(t, t.ops[i]) {
      OpsStep(s, e, i);
      PinsStep(s, e, i);
    }
  }

  lemma {:induction false} RunKeeps(s: Sys, events: seq<Event>)
    requires Inv(s) && Run(s, events).Some?
    ensures Inv(Run(s, events).value)
    decreases |events|
  {
    if events != [] {
      var k := |events| - 1;
      RunKeeps(s, events[..k]);
      StepKeeps(Run(s, events[..k]).value, events[k]);
    }
  }

  /** In every run, at most one operation holds the mutation lease, and a shared backup lease never
      stands beside an exclusive one. */
  lemma LeaseSafety(files: map<nat, nat>, next: nat, events: seq<Event>, i: nat, j: nat)
    requires Good(files, next) && Run(Init(files, next), events).Some?
    ensures var s := Run(Init(files, next), events).value;
            i in s.ops && j in s.ops && i != j ==>
              && !(s.ops[i].data && s.ops[j].data)
              && !(s.ops[i].backups == Some(Exclusive) && s.ops[j].backups.Some?)
  {
    InitInv(files, next);
    RunKeeps(Init(files, next), events);
    var s := Run(Init(files, next), events).value;
    if i in s.ops && j in s.ops && i != j {
      if s.ops[i].data && s.ops[j].data { OneMutator(s, i, j); }
      if s.ops[i].backups == Some(Exclusive) && s.ops[j].backups.Some? { ExclusiveIsAlone(s, i, j); }
    }
  }

  /** In every run, an archive whose publication has ended well is there for as long as anyone has it
      pinned. */
  lemma PinnedArchivesStay(files: map<nat, nat>, next: nat, events: seq<Event>, i: nat)
    requires Good(files, next) && Run(Init(files, next), events).Some?
    ensures var s := Run(Init(files, next), events).value;
            i in s.ops && s.ops[i].pin.Some? && s.ops[i].pin.value in s.published ==>
              s.ops[i].key in s.files && s.files[s.ops[i].key] == s.ops[i].pin.value
  {
    InitInv(files, next);
    RunKeeps(Init(files, next), events);
    var s := Run(Init(files, next), events).value;
    assert i in s.ops ==> PinOk(s, s.ops[i]);
  }

  /** The reader `i` has the archive that stands under its key. */
  predicate Reads(s: Sys, i: nat) {
    i in s.ops && s.ops[i].pin.Some? && s.ops[i].key in s.files && s.files[s.ops[i].key] == s.ops[i].pin.value
  }

  /** The step takes back a publication that `i` has already pinned. */
  predicate TakesBack(s: Sys, e: Event, i: nat) {
    e.Rollback? && e.i in s.ops && i in s.ops && s.ops[e.i].linked.Some? && s.ops[e.i].linked == s.ops[i].pin
  }

  /** Exactly one kind of step unlinks an archive under a reader: the compensation of a publication
      that failed after its link, when the reader was quicker. */
  lemma OnlyRollbackUnlinksPinned(files: map<nat, nat>, next: nat, events: seq<Event>, e: Event, i: nat)
    requires Good(files, next) && Run(Init(files, next), events).Some?
    requires var s := Run(Init(files, next), events).value;
             && Reads(s, i) && Step(s, e).Some?
             && i in Step(s, e).value.ops && Step(s, e).value.ops[i].pin == s.ops[i].pin
    ensures var s := Run(Init(files, next), events).value;
            !Reads(Step(s, e).value, i) <==> TakesBack(s, e, i)
  {
    InitInv(files, next);
    RunKeeps(Init(files, next), events);
    PinnedStep(Run(Init(files, next), events).value, e, i);
  }

  lemma PinnedStep(s: Sys, e: Event, i: nat)
    requires Inv(s) && Reads(s, i) && Step(s, e).Some?
    requires i in Step(s, e).value.ops && Step(s, e).value.ops[i].pin == s.ops[i].pin
    ensures !Reads(Step(s, e).value, i) <==> TakesBack(s, e, i)
  {
    assert OpOk(s, s.ops[i]);
    if !e.Start? && !e.Crash? {
      assert OpOk(s, s.ops[e.i]);
      if e.Unlink? { NobodyReads(s, e.i); }
    }
  }

  /** A publication that links, is pinned by a download of another process, and then rolls back. */
  function QuickReader(): seq<Event> {
    [Start(0, 1, Publish, 7), TakeData(0), Link(0), Start(1, 2, Download, 7), TakeBackups(1), Pin(1), Rollback(0)]
  }

  /** The system after the first `k` of those events. */
  function Stage(k: nat): Sys {
    var data := if 2 <= k then Lock({}, Some(0)) else UNLOCKED;
    var backups := if 5 <= k then Lock({1}, None) else UNLOCKED;
    var publisher := Op(1, Publish, 7, 2 <= k, None, if 3 <= k < 7 then Some(0) else None, None);
    var reader := Op(2, Download, 7, false, if 5 <= k then Some(Shared) else None, None, if 6 <= k then Some(0) else None);
    Sys(if k == 0 then map[] else if k < 4 then map[0 := publisher] else map[0 := publisher, 1 := reader],
        data, backups, if 3 <= k < 7 then map[7 := 0] else map[], if 3 <= k then 1 else 0, {}, if k >= 7 then {0} else {})
  }

  lemma StageStep(k: nat)
    requires k < 7
    ensures Step(Stage(k), QuickReader()[k]) == Some(Stage(k + 1))
  {
    var s, t := Stage(k), Stage(k + 1);
    var e := QuickReader()[k];
    assert s.ops[e.i := t.ops[e.i]] == t.ops;
    match k
    case 0 =>
    case 1 => assert Grant(s.data, Exclusive, 0) == t.data;
    case 2 => assert s.files[7 := 0] == t.files;
    case 3 =>
    case 4 => assert Grant(s.backups, Shared, 1) == t.backups;
    case 5 =>
    case _ => assert s.files - {7} == t.files && s.withdrawn + {0} == t.withdrawn;
  }

  lemma RunSnoc(s: Sys, events: seq<Event>, e: Event)
    requires Run(s, events).Some?
    ensures Run(s, events + [e]) == Step(Run(s, events).value, e)
  {
    assert (events + [e])[..|events|] == events;
  }

  /** So an archive can be unlinked while a download holds its pin. */
  lemma UnlinkUnderPin()
    ensures Run(Init(map[], 0), QuickReader()).Some?
    ensures var s := Run(Init(map[], 0), QuickReader()).value;
            1 in s.ops && s.ops[1].pin.Some? && s.ops[1].key !in s.files
  {
    var s := Init(map[], 0);
    var es := QuickReader();
    var r: seq<Event> := [];
    assert s.published == {};
    for k := 0 to 7
      invariant r == es[..k] && Run(s, r) == Some(Stage(k))
    {
      StageStep(k);
      RunSnoc(s, r, es[k]);
      assert es[..k + 1] == es[..k] + [es[k]];
      r := r + [es[k]];
    }
    assert es[..7] == es;
  }

  // Every operation can be carried out

  /** Nobody holds anything, and the name is new. */
  ghost predicate Idle(s: Sys, i: nat) {
    i !in s.ops && s.data == UNLOCKED && s.backups == UNLOCKED
  }

  /** An operation from its start to the end of its leases. */
  function Course(i: nat, process: nat, kind: Kind, key: nat): seq<Event> {
    [Start(i, process, kind, key)]
    + (match kind
       case Publish => [TakeData(i), Link(i), Finish(i)]
       case Delete => [TakeData(i), TakeBackups(i), Unlink(i)]
       case Download => [TakeBackups(i), Pin(i), Unpin(i)]
       case Restore => [TakeData(i), TakeBackups(i), Pin(i), Unpin(i)])
    + [Leave(i)]
  }

  /** The archives an operation leaves: one more, one less, or the same. */
  function FilesAfter(s: Sys, kind: Kind, key: nat): map<nat, nat> {
    match kind
    case Publish => s.files[key := s.next]
    case Delete => s.files - {key}
    case _ => s.files
  }

  /** One more event of a run. */
  lemma Then(s: Sys, events: seq<Event>, t: Sys, e: Event) returns (more: seq<Event>, u: Sys)
    requires Run(s, events) == Some(t) && Step(t, e).Some?
    ensures more == events + [e] && Run(s, more) == Some(u) && Step(t, e) == Some(u)
  {
    RunSnoc(s, events, e);
    more, u := events + [e], Step(t, e).value;
  }

  /** The operation `i` alone on the idle system `s`, with the leases it has taken. */
  function Alone(s: Sys, i: nat, op: Op): Sys {
    s.(ops := s.ops[i := op], data := if op.data then Lock({}, Some(i)) else UNLOCKED,
       backups := if op.backups.None? then UNLOCKED else Grant(UNLOCKED, op.backups.value, i))
  }

  /** The start of everything that changes the directory: the mutation lease first. */
  lemma Begin(s: Sys, i: nat, process: nat, kind: Kind, key: nat) returns (es: seq<Event>, t: Sys)
    requires Idle(s, i) && !kind.Download?
    ensures es == [Start(i, process, kind, key)] + [TakeData(i)] && Run(s, es) == Some(t)
    ensures t == Alone(s, i, Op(process, kind, key, true, None, None, None))
  {
    es, t := Then(s, [], s, Start(i, process, kind, key));
    es, t := Then(s, es, t, TakeData(i));
    assert t.ops == Alone(s, i, Op(process, kind, key, true, None, None, None)).ops;
  }

  lemma PublishCompletes(s: Sys, i: nat, process: nat, key: nat) returns (es: seq<Event>, t: Sys)
    requires Idle(s, i) && key !in s.files
    ensures es == Course(i, process, Publish, key) && Run(s, es) == Some(t)
    ensures t == s.(files := s.files[key := s.next], next := s.next + 1, published := s.published + {s.next})
  {
    es, t := Begin(s, i, process, Publish, key);
    es, t := Then(s, es, t, Link(i));
    es, t := Then(s, es, t, Finish(i));
    es, t := Then(s, es, t, Leave(i));
    assert t.ops == s.ops && t.data == s.data && t.backups == s.backups;
  }

  lemma DeleteCompletes(s: Sys, i: nat, process: nat, key: nat) returns (es: seq<Event>, t: Sys)
    requires Idle(s, i) && key in s.files
    ensures es == Course(i, process, Delete, key) && Run(s, es) == Some(t)
    ensures t == s.(files := s.files - {key})
  {
    es, t := Begin(s, i, process, Delete, key);
    es, t := Then(s, es, t, TakeBackups(i));
    es, t := Then(s, es, t, Unlink(i));
    es, t := Then(s, es, t, Leave(i));
    assert t.ops == s.ops && t.data == s.data && t.backups == s.backups;
  }

  lemma ReadAndLeave(s: Sys, i: nat, op: Op, before: seq<Event>) returns (es: seq<Event>, t: Sys)
    requires Idle(s, i) && op.key in s.files && op.backups == Some(Shared) && op.linked.None? && op.pin.None?
    requires Run(s, before) == Some(Alone(s, i, op))
    ensures es == before + [Pin(i)] + [Unpin(i)] + [Leave(i)] && Run(s, es) == Some(s)
  {
    es, t := Then(s, before, Alone(s, i, op), Pin(i));
    es, t := Then(s, es, t, Unpin(i));
    es, t := Then(s, es, t, Leave(i));
    assert t.ops == s.ops && t.data == s.data && t.backups == s.backups;
  }

  lemma DownloadCompletes(s: Sys, i: nat, process: nat, key: nat) returns (es: seq<Event>, t: Sys)
    requires Idle(s, i) && key in s.files
    ensures es == Course(i, process, Download, key) && Run(s, es) == Some(s)
  {
    es, t := Then(s, [], s, Start(i, process, Download, key));
    es, t := Then(s, es, t, TakeBackups(i));
    var op := Op(process, Download, key, false, Some(Shared), None, None);
    assert t.ops == Alone(s, i, op).ops;
    es, t := ReadAndLeave(s, i, op, es);
  }

  lemma RestoreCompletes(s: Sys, i: nat, process: nat, key: nat) returns (es: seq<Event>, t: Sys)
    requires Idle(s, i) && key in s.files
    ensures es == Course(i, process, Restore, key) && Run(s, es) == Some(s)
  {
    es, t := Begin(s, i, process, Restore, key);
    es, t := Then(s, es, t, TakeBackups(i));
    var op := Op(process, Restore, key, true, Some(Shared), None, None);
    assert t.ops == Alone(s, i, op).ops;
    es, t := ReadAndLeave(s, i, op, es);
  }

  /** On an idle system every kind of operation runs through: a publication where its key is free, the
      others where it is taken. It has its effect and leaves no lease behind. */
  lemma EveryKindCompletes(s: Sys, i: nat, process: nat, kind: Kind, key: nat)
    requires Idle(s, i) && (kind.Publish? <==> key !in s.files)
    ensures var r := Run(s, Course(i, process, kind, key));
            && r.Some? && r.value.files == FilesAfter(s, kind, key) && r.value.ops == s.ops && Idle(r.value, i)
            && r.value.published == if kind.Publish? then s.published + {s.next} else s.published
  {
    match kind
    case Publish => var es, t := PublishCompletes(s, i, process, key);
    case Delete => var es, t := DeleteCompletes(s, i, process, key);
    case Download => var es, t := DownloadCompletes(s, i, process, key);
    case Restore => var es, t := RestoreCompletes(s, i, process, key);
  }
}
