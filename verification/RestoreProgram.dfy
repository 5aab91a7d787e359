/** The restore as the program writes it: journal, swap, rollback, service and recovery methods that
    change the world in place. Each is proved to walk a run of the transition system. */
module RestoreProgram {
  import opened Results
  import opened RestoreMachine
  import opened RestoreInvariant

  /** What the running program does by itself: its next step, an error, the outcome of its transaction. */
  predicate ByProgram(e: Event) { e.Next? || e.Raise? || e.DbCommits? || e.DbAborts? }

  /** A set of states that the program never leaves, if it drops no marker over a journal record that
      a power failure could still take back. The invariant is such a set, and so are the states that
      sealed runs reach. */
  ghost predicate Closed(r: Sys -> bool) {
    forall s: Sys, e: Event {:trigger Step(s, e), r(s)} ::
      r(s) && ByProgram(e) && Step(s, e).Some? && (e.Next? ==> SealDurable(s)) ==> r(Step(s, e).value)
  }

  /** The same without the proviso. */
  ghost predicate FullyClosed(r: Sys -> bool) {
    forall s: Sys, e: Event {:trigger Step(s, e), r(s)} :: r(s) && ByProgram(e) && Step(s, e).Some? ==> r(Step(s, e).value)
  }

  lemma Onward(r: Sys -> bool, s: Sys, e: Event, t: Sys)
    requires Closed(r) && r(s) && ByProgram(e) && Step(s, e) == Some(t) && SealDurable(s)
    ensures r(t)
  {
  }

  /** Where the program goes from `s`: on, or into the error that may surface there. */
  lemma Program(r: Sys -> bool, s: Sys)
    requires Closed(r) && r(s) && SealDurable(s)
    ensures Step(s, Next(0)).Some? ==> r(Step(s, Next(0)).value)
    ensures Step(s, Raise).Some? ==> r(Step(s, Raise).value)
  {
  }

  /** The data directory with its un-fsynced past, the database and the cutover guard. */
  class World {
    const conf: Config
    var hist: seq<Fs>
    var db: Db
    var guard: bool
    ghost var used: set<Id>
    ghost var commits: set<Id>
    /** Whether any operation, answer or transaction has failed since the world was made. */
    ghost var faulted: bool

    constructor (conf: Config, hist: seq<Fs>, db: Db)
      requires hist != []
      ensures this.conf == conf && this.hist == hist && this.db == db && !guard && !faulted
    {
      this.conf, this.hist, this.db, guard := conf, hist, db, false;
      used, commits, faulted := {}, {}, false;
    }

    ghost function At(p: Proc): Sys
      reads this
    {
      Sys(conf, hist, db, p, guard, used, commits)
    }

    /** What the running process sees. */
    function Now(): Fs
      requires hist != []
      reads this
    {
      hist[|hist| - 1]
    }

    /** Anything that may go wrong without changing what is modelled here. */
    method Answer() returns (ok: bool)
      modifies this`faulted
      ensures faulted == (old(faulted) || !ok)
    {
      ok := *;
      faulted := faulted || !ok;
    }

    /** One directory operation that leads to `h`; it may fail and then changes nothing. */
    method Operate(h: Fs) returns (ok: bool)
      requires hist != []
      modifies this`hist, this`faulted
      ensures hist == if ok then old(hist) + [h] else old(hist)
      ensures faulted == (old(faulted) || !ok)
    {
      ok := Answer();
      if ok { hist := hist + [h]; }
    }

    method Fsync() returns (ok: bool)
      requires hist != []
      modifies this`hist, this`faulted
      ensures hist == if ok then [old(Now())] else old(hist)
      ensures faulted == (old(faulted) || !ok)
    {
      ok := Answer();
      if ok { hist := [Now()]; }
    }

    /** fsync of a temporary file makes its content durable under every name it has. */
    method SyncFile(token: nat, j: JournalFile) returns (ok: bool)
      modifies this`hist, this`faulted
      ensures hist == if ok then StampAll(old(hist), token, j) else old(hist)
      ensures faulted == (old(faulted) || !ok)
    {
      ok := Answer();
      if ok { hist := StampAll(hist, token, j); }
    }
  }

  /** One step of the program that is one directory operation, and the error it may raise instead. */
  method Perform(world: World, h: Fs, ghost r: Sys -> bool, ghost from: Proc, ghost next: Proc, ghost failed: Proc)
    returns (ok: bool)
    requires world.hist != [] && r(Go(Push(world.At(from), h), next)) && r(Go(world.At(from), failed))
    modifies world`hist, world`faulted
    ensures world.hist != [] && r(world.At(if ok then next else failed)) && world.faulted == (old(world.faulted) || !ok)
    ensures world.Now() == if ok then h else old(world.Now())
  {
    ok := world.Operate(h);
  }

  /** The same for an fsync of the directory. */
  method PerformSync(world: World, ghost r: Sys -> bool, ghost from: Proc, ghost next: Proc, ghost failed: Proc)
    returns (ok: bool)
    requires world.hist != [] && r(Go(Flush(world.At(from)), next)) && r(Go(world.At(from), failed))
    modifies world`hist, world`faulted
    ensures world.hist != [] && r(world.At(if ok then next else failed)) && world.faulted == (old(world.faulted) || !ok)
    ensures world.Now() == old(world.Now()) && (ok ==> world.hist == [world.Now()])
  {
    ok := world.Fsync();
  }

  /** Where a journal write stands in the whole program: its steps, what follows, and what an error
      leads to. */
  datatype Place = Place(at: WritePc -> Proc, after: Proc, failed: Proc)

  ghost predicate WriteStepAt(p: Place, j: JournalFile, s: Sys, w: WritePc, token: nat)
    requires s.hist != []
  {
    && Step(s, Next(token)) == (match WriteStep(s, w, token, j)
                                case None => None
                                case Some((t, Some(v))) => Some(Go(t, p.at(v)))
                                case Some((t, None)) => Some(Go(t, p.after)))
    && Step(s, Raise) == Some(Go(AbandonWrite(s, w), p.failed)) && !s.proc.DroppingMarker?
  }

  ghost predicate WritesAt(p: Place, j: JournalFile) {
    forall s: Sys, w: WritePc, token: nat {:trigger WriteStepAt(p, j, s, w, token)} ::
      s.hist != [] && s.proc == p.at(w) ==> WriteStepAt(p, j, s, w, token)
  }

  function AnnouncePlace(id: Id): Place {
    Place(w => Swapping(id, Announce(w)), Swapping(id, MoveStorageAside), Undoing(id, InsideSwap, LookStorage))
  }

  function RecordPlace(id: Id): Place {
    Place(w => Swapping(id, Record(w)), Swapping(id, Swapped), Undoing(id, InsideSwap, LookStorage))
  }

  function MarkPlace(id: Id): Place { Place(w => Marking(id, w), Awaiting(id), Fenced(id)) }

  function SealPlace(id: Id): Place { Place(w => Sealing(id, w), DroppingMarker(id), Down) }

  lemma AnnounceWrites(id: Id)
    ensures WritesAt(AnnouncePlace(id), Journal(id, SwapStarted))
  {
    var p, j := AnnouncePlace(id), Journal(id, SwapStarted);
    forall s: Sys, w: WritePc, token: nat {:trigger WriteStepAt(p, j, s, w, token)} | s.hist != [] && s.proc == p.at(w)
      ensures WriteStepAt(p, j, s, w, token)
    {
      assert s.proc == Swapping(id, Announce(w));
    }
  }

  lemma RecordWrites(id: Id)
    ensures WritesAt(RecordPlace(id), Journal(id, FilesSwapped))
  {
    var p, j := RecordPlace(id), Journal(id, FilesSwapped);
    forall s: Sys, w: WritePc, token: nat {:trigger WriteStepAt(p, j, s, w, token)} | s.hist != [] && s.proc == p.at(w)
      ensures WriteStepAt(p, j, s, w, token)
    {
      assert s.proc == Swapping(id, Record(w));
    }
  }

  lemma MarkWrites(id: Id)
    ensures WritesAt(MarkPlace(id), Journal(id, DatabaseCommitted))
  {
    var p, j := MarkPlace(id), Journal(id, DatabaseCommitted);
    forall s: Sys, w: WritePc, token: nat {:trigger WriteStepAt(p, j, s, w, token)} | s.hist != [] && s.proc == p.at(w)
      ensures WriteStepAt(p, j, s, w, token)
    {
      assert s.proc == Marking(id, w);
    }
  }

  lemma SealWrites(id: Id)
    ensures WritesAt(SealPlace(id), Journal(id, Finalizing))
  {
    var p, j := SealPlace(id), Journal(id, Finalizing);
    forall s: Sys, w: WritePc, token: nat {:trigger WriteStepAt(p, j, s, w, token)} | s.hist != [] && s.proc == p.at(w)
      ensures WriteStepAt(p, j, s, w, token)
    {
      assert s.proc == Sealing(id, w);
    }
  }

  /** One step of a journal write that succeeded or raised. */
  lemma WriteMoves(r: Sys -> bool, s: Sys, p: Place, w: WritePc, token: nat, j: JournalFile)
    requires Closed(r) && WritesAt(p, j) && s.hist != [] && s.proc == p.at(w) && r(s)
    ensures match WriteStep(s, w, token, j)
            case None => true
            case Some((t, Some(v))) => r(Go(t, p.at(v)))
            case Some((t, None)) => r(Go(t, p.after))
    ensures r(Go(AbandonWrite(s, w), p.failed))
  {
    assert WriteStepAt(p, j, s, w, token);
    match WriteStep(s, w, token, j) {
      case None =>
      case Some((t, Some(v))) => Onward(r, s, Next(token), Go(t, p.at(v)));
      case Some((t, None)) => Onward(r, s, Next(token), Go(t, p.after));
    }
    Onward(r, s, Raise, Go(AbandonWrite(s, w), p.failed));
  }

  /** Creating the temporary file, under a name that no directory entry has. */
  method CreateTemporary(world: World, token: nat, j: JournalFile, ghost p: Place, ghost r: Sys -> bool) returns (ok: bool)
    requires Closed(r) && world.hist != [] && WritesAt(p, j) && r(world.At(p.at(CreateTemp)))
    modifies world`hist, world`faulted
    ensures world.hist != [] && world.faulted == (old(world.faulted) || !ok)
    ensures r(world.At(if ok then p.at(SyncTemp(token)) else p.failed))
    ensures ok ==> world.Now() == old(world.Now()).(temps := old(world.Now()).temps[token := Torn])
  {
    WriteMoves(r, world.At(p.at(CreateTemp)), p, CreateTemp, token, j);
    if exists h :: h in world.hist && token in h.temps {
      world.faulted := true;
      return false;
    }
    ok := Perform(world, world.Now().(temps := world.Now().temps[token := Torn]), r, p.at(CreateTemp), p.at(SyncTemp(token)), p.failed);
  }

  /** Syncing it; a failure removes it. */
  method SyncTemporary(world: World, token: nat, j: JournalFile, ghost p: Place, ghost r: Sys -> bool) returns (ok: bool)
    requires Closed(r) && world.hist != [] && WritesAt(p, j) && r(world.At(p.at(SyncTemp(token))))
    requires token in world.Now().temps
    modifies world`hist, world`faulted
    ensures world.hist != [] && world.faulted == (old(world.faulted) || !ok)
    ensures r(world.At(if ok then p.at(ReplaceJournal(token)) else p.failed))
    ensures ok ==> world.Now() == Stamp(old(world.Now()), token, j)
  {
    WriteMoves(r, world.At(p.at(SyncTemp(token))), p, SyncTemp(token), token, j);
    ok := world.SyncFile(token, j);
    if !ok { Abandon(world, token); }
  }

  /** Creating and syncing the temporary file. */
  method WriteTemporary(world: World, token: nat, j: JournalFile, ghost p: Place, ghost r: Sys -> bool) returns (ok: bool)
    requires Closed(r) && world.hist != [] && WritesAt(p, j) && r(world.At(p.at(CreateTemp)))
    modifies world`hist, world`faulted
    ensures world.hist != [] && world.faulted == (old(world.faulted) || !ok)
    ensures r(world.At(if ok then p.at(ReplaceJournal(token)) else p.failed))
    ensures ok ==> token in world.Now().temps && world.Now().temps[token] == j
                   && world.Now() == old(world.Now()).(temps := world.Now().temps)
  {
    ok := CreateTemporary(world, token, j, p, r);
    if !ok { return; }
    ok := SyncTemporary(world, token, j, p, r);
  }

  /** `DestructiveRestoreJournal.write`. The random name of the temporary file is `token`. */
  method WriteJournal(world: World, id: Id, status: Status, ghost p: Place, ghost r: Sys -> bool) returns (ok: bool)
    requires Closed(r) && world.hist != [] && WritesAt(p, Journal(id, status)) && r(world.At(p.at(CreateTemp)))
    modifies world`hist, world`faulted
    ensures world.hist != [] && r(world.At(if ok then p.after else p.failed))
    ensures world.faulted == (old(world.faulted) || !ok)
    ensures ok ==> world.hist == [world.Now()] && SameButJournal(old(world.Now()), world.Now(), Some(Journal(id, status)))
  {
    var token: nat := *;
    var j := Journal(id, status);
    ok := WriteTemporary(world, token, j, p, r);
    if !ok { return; }
    WriteMoves(r, world.At(p.at(ReplaceJournal(token))), p, ReplaceJournal(token), token, j);
    ok := world.Operate(Installed(world.Now(), token));
    if !ok { Abandon(world, token); return; }
    WriteMoves(r, world.At(p.at(SyncDirectory)), p, SyncDirectory, token, j);
    ok := PerformSync(world, r, p.at(SyncDirectory), p.after, p.failed);
  }

  /** Nothing but the journal, and the temporary names of journals, has changed. */
  predicate SameButJournal(before: Fs, after: Fs, journal: Option<JournalFile>) {
    after == before.(journal := journal, temps := after.temps)
  }

  /** The `finally` of a write: the temporary file goes. */
  method Abandon(world: World, token: nat)
    requires world.hist != []
    modifies world`hist
    ensures world.hist == old(world.hist) + [old(world.Now()).(temps := old(world.Now()).temps - {token})]
  {
    world.hist := world.hist + [world.Now().(temps := world.Now().temps - {token})];
  }

  /** What follows when the journal is cleared, and what an error leads to. */
  datatype ClearPlace = ClearPlace(first: Proc, second: Proc, done: Proc, failed: Proc)

  ghost predicate ClearStepAt(p: ClearPlace, s: Sys)
    requires s.hist != []
  {
    && Step(Go(s, p.first), Next(0)) == Some(ClearStep(Go(s, p.first), Unlink, p.second, p.done))
    && Step(Go(s, p.second), Next(0)) == Some(ClearStep(Go(s, p.second), SyncUnlink, p.second, p.done))
    && Step(Go(s, p.first), Raise) == Some(Go(s, p.failed)) && Step(Go(s, p.second), Raise) == Some(Go(s, p.failed))
    && !p.first.DroppingMarker? && !p.second.DroppingMarker?
  }

  ghost predicate ClearsAt(p: ClearPlace) {
    forall s: Sys {:trigger ClearStepAt(p, s)} :: s.hist != [] ==> ClearStepAt(p, s)
  }

  function ClearingPlace(id: Id, who: Undoer): ClearPlace {
    ClearPlace(Clearing(id, who, Unlink), Clearing(id, who, SyncUnlink), AfterClear(id, who),
               if who.InsideSwap? then Undoing(id, AfterSwapFailure, LookStorage) else Fenced(id))
  }

  function SweepPlace(id: Id, committed: bool): ClearPlace {
    ClearPlace(Sweeping(id, committed, Clear(Unlink)), Sweeping(id, committed, Clear(SyncUnlink)),
               Idle(Recovered(id, committed)), Down)
  }

  lemma ClearingClears(id: Id, who: Undoer)
    ensures ClearsAt(ClearingPlace(id, who))
  {
    var p := ClearingPlace(id, who);
    forall s: Sys {:trigger ClearStepAt(p, s)} | s.hist != [] ensures ClearStepAt(p, s) {
      assert Go(s, p.first).proc == Clearing(id, who, Unlink) && Go(s, p.second).proc == Clearing(id, who, SyncUnlink);
    }
  }

  lemma SweepClears(id: Id, committed: bool)
    ensures ClearsAt(SweepPlace(id, committed))
  {
    var p := SweepPlace(id, committed);
    forall s: Sys {:trigger ClearStepAt(p, s)} | s.hist != [] ensures ClearStepAt(p, s) {
      assert Go(s, p.first).proc == Sweeping(id, committed, Clear(Unlink));
      assert Go(s, p.second).proc == Sweeping(id, committed, Clear(SyncUnlink));
    }
  }

  lemma ClearMoves(r: Sys -> bool, s: Sys, p: ClearPlace)
    requires Closed(r) && ClearsAt(p) && s.hist != [] && s.proc == p.first && r(s)
    ensures r(Go(s, p.failed))
    ensures r(if Cur(s).journal.None? then Go(s, p.done) else Go(Push(s, Cur(s).(journal := None)), p.second))
  {
    assert ClearStepAt(p, s) && Go(s, p.first) == s;
    Onward(r, s, Next(0), ClearStep(s, Unlink, p.second, p.done));
    Onward(r, s, Raise, Go(s, p.failed));
  }

  lemma ClearSyncs(r: Sys -> bool, s: Sys, p: ClearPlace)
    requires Closed(r) && ClearsAt(p) && s.hist != [] && s.proc == p.second && r(s)
    ensures r(Go(s, p.failed)) && r(Go(Flush(s), p.done))
  {
    assert ClearStepAt(p, s) && Go(s, p.second) == s;
    Onward(r, s, Next(0), ClearStep(s, SyncUnlink, p.second, p.done));
    Onward(r, s, Raise, Go(s, p.failed));
  }

  /** `DestructiveRestoreJournal.clear`: a missing journal is no error. */
  method ClearJournal(world: World, ghost p: ClearPlace, ghost r: Sys -> bool) returns (ok: bool)
    requires Closed(r) && world.hist != [] && ClearsAt(p) && r(world.At(p.first))
    modifies world`hist, world`faulted
    ensures world.hist != [] && r(world.At(if ok then p.done else p.failed))
    ensures world.faulted == (old(world.faulted) || !ok)
    ensures ok ==> world.Now() == old(world.Now()).(journal := None)
    ensures ok && old(world.hist) == [old(world.Now())] ==> world.hist == [world.Now()]
  {
    ClearMoves(r, world.At(p.first), p);
    if world.Now().journal.None? { return true; }
    ok := Perform(world, world.Now().(journal := None), r, p.first, p.second, p.failed);
    if !ok { return; }
    ClearSyncs(r, world.At(p.second), p);
    ok := PerformSync(world, r, p.second, p.done, p.failed);
  }

  function UndoFailed(id: Id, who: Undoer): Proc {
    match who
    case InsideSwap => Undoing(id, AfterSwapFailure, LookStorage)
    case AtStartup => Down
    case _ => Fenced(id)
  }

  function Undone(id: Id, who: Undoer): Proc {
    if who.AtStartup? then Sweeping(id, false, DropWorkStorage) else Clearing(id, who, Unlink)
  }

  function StorageBack(h: Fs, id: Id): Fs
    requires id in h.prevStorage
  {
    h.(storage := Some(h.prevStorage[id]), prevStorage := h.prevStorage - {id})
  }

  function SecretBack(h: Fs, id: Id): Fs
    requires id in h.prevSecret
  {
    h.(secret := Some(h.prevSecret[id]), prevSecret := h.prevSecret - {id})
  }

  function StorageUndone(h: Fs, id: Id): Fs { if id in h.prevStorage then StorageBack(h, id) else h }
  function SecretUndone(h: Fs, id: Id): Fs { if id in h.prevSecret then SecretBack(h, id) else h }

  /** A recursive removal of the active tree: it is damaged before it is gone. */
  method RemoveStorage(world: World, id: Id, ghost who: Undoer, ghost r: Sys -> bool) returns (ok: bool)
    requires Closed(r) && world.hist != [] && r(world.At(Undoing(id, who, BreakStorage)))
    modifies world`hist, world`faulted
    ensures world.hist != [] && world.faulted == (old(world.faulted) || !ok)
    ensures r(world.At(if ok then Undoing(id, who, ReturnStorage) else UndoFailed(id, who)))
    ensures ok ==> world.Now() == old(world.Now()).(storage := None)
  {
    Program(r, world.At(Undoing(id, who, BreakStorage)));
    if world.Now().storage.Some? {
      ok := Perform(world, world.Now().(storage := Some(world.Now().storage.value.(whole := false))), r,
                    Undoing(id, who, BreakStorage), Undoing(id, who, DropStorage), UndoFailed(id, who));
      if !ok { return; }
    }
    Program(r, world.At(Undoing(id, who, DropStorage)));
    ok := true;
    if world.Now().storage.Some? {
      ok := Perform(world, world.Now().(storage := None), r,
                    Undoing(id, who, DropStorage), Undoing(id, who, ReturnStorage), UndoFailed(id, who));
    }
  }

  /** `_rollback_with_fd`, storage half: a previous tree that exists replaces the active one. */
  method RollbackStorage(world: World, id: Id, ghost who: Undoer, ghost r: Sys -> bool) returns (ok: bool)
    requires Closed(r) && world.hist != [] && r(world.At(Undoing(id, who, LookStorage)))
    modifies world`hist, world`faulted
    ensures world.hist != [] && world.faulted == (old(world.faulted) || !ok)
    ensures r(world.At(if ok then Undoing(id, who, LookSecret) else UndoFailed(id, who)))
    ensures ok ==> world.Now() == StorageUndone(old(world.Now()), id)
  {
    Program(r, world.At(Undoing(id, who, LookStorage)));
    if id !in world.Now().prevStorage { return true; }
    ok := RemoveStorage(world, id, who, r);
    if !ok { return; }
    Program(r, world.At(Undoing(id, who, ReturnStorage)));
    ok := Perform(world, StorageBack(world.Now(), id), r,
                  Undoing(id, who, ReturnStorage), Undoing(id, who, LookSecret), UndoFailed(id, who));
  }

  /** The secret half, and the fsync of both. */
  method RollbackSecret(world: World, id: Id, ghost who: Undoer, ghost r: Sys -> bool) returns (ok: bool)
    requires Closed(r) && world.hist != [] && r(world.At(Undoing(id, who, LookSecret)))
    modifies world`hist, world`faulted
    ensures world.hist != [] && world.faulted == (old(world.faulted) || !ok)
    ensures r(world.At(if ok then Undone(id, who) else UndoFailed(id, who)))
    ensures ok ==> world.hist == [world.Now()] && world.Now() == SecretUndone(old(world.Now()), id)
  {
    Program(r, world.At(Undoing(id, who, LookSecret)));
    if id in world.Now().prevSecret {
      ok := ReturnSecretEntry(world, id, who, r);
      if !ok { return; }
    }
    Program(r, world.At(Undoing(id, who, SyncUndo)));
    ok := PerformSync(world, r, Undoing(id, who, SyncUndo), Undone(id, who), UndoFailed(id, who));
  }

  method ReturnSecretEntry(world: World, id: Id, ghost who: Undoer, ghost r: Sys -> bool) returns (ok: bool)
    requires Closed(r) && world.hist != [] && id in world.Now().prevSecret && r(world.At(Undoing(id, who, DropSecret)))
    modifies world`hist, world`faulted
    ensures world.hist != [] && world.faulted == (old(world.faulted) || !ok)
    ensures r(world.At(if ok then Undoing(id, who, SyncUndo) else UndoFailed(id, who)))
    ensures ok ==> world.Now() == SecretBack(old(world.Now()), id)
  {
    Program(r, world.At(Undoing(id, who, DropSecret)));
    if world.Now().secret.Some? {
      ok := Perform(world, world.Now().(secret := None), r,
                    Undoing(id, who, DropSecret), Undoing(id, who, ReturnSecret), UndoFailed(id, who));
      if !ok { return; }
    }
    Program(r, world.At(Undoing(id, who, ReturnSecret)));
    ok := Perform(world, SecretBack(world.Now(), id), r,
                  Undoing(id, who, ReturnSecret), Undoing(id, who, SyncUndo), UndoFailed(id, who));
  }

  /** Where an error inside the swap leads: its own handler rolls back first. */
  function SwapFailed(id: Id): Proc { Undoing(id, InsideSwap, LookStorage) }

  function StorageAside(h: Fs, id: Id): Fs
    requires h.storage.Some?
  {
    h.(storage := None, prevStorage := h.prevStorage[id := h.storage.value])
  }

  function StorageIn(h: Fs, id: Id): Fs
    requires id in h.workStorage
  {
    h.(storage := Some(h.workStorage[id]), workStorage := h.workStorage - {id})
  }

  function SecretAside(h: Fs, id: Id): Fs
    requires h.secret.Some?
  {
    h.(secret := None, prevSecret := h.prevSecret[id := h.secret.value])
  }

  function SecretIn(h: Fs, id: Id): Fs
    requires id in h.workSecret
  {
    h.(secret := Some(h.workSecret[id]), workSecret := h.workSecret - {id})
  }

  /** Everything the swap needs is there. */
  predicate Ready(h: Fs, id: Id) { h.secret.Some? && id in h.workStorage && id in h.workSecret }

  /** The active tree, which the swap creates when there is none. */
  function Active(h: Fs, gen: Generation): Tree { if h.storage.Some? then h.storage.value else Tree(gen, true) }

  /** Both entries have changed hands. */
  predicate SwappedIn(before: Fs, after: Fs, id: Id, gen: Generation)
    requires Ready(before, id)
  {
    after == before.(
      storage := Some(before.workStorage[id]), prevStorage := before.prevStorage[id := Active(before, gen)],
      workStorage := before.workStorage - {id},
      secret := Some(before.workSecret[id]), prevSecret := before.prevSecret[id := before.secret.value],
      workSecret := before.workSecret - {id},
      journal := Some(Journal(id, FilesSwapped)), temps := after.temps)
  }

  /** The prepared file half of one restore. */
  class PreparedStorageRestore {
    const id: Id
    const world: World
    var swapped: bool

    constructor (id: Id, world: World)
      ensures this.id == id && this.world == world && !swapped
    {
      this.id, this.world, swapped := id, world, false;
    }

    /** The checks and the first journal record. */
    method AnnounceSwap(ghost r: Sys -> bool) returns (ok: bool)
      requires Closed(r) && world.hist != [] && r(world.At(Swapping(id, EnsureStorage)))
      modifies world`hist, world`faulted
      ensures world.hist != [] && r(world.At(if ok then Swapping(id, MoveStorageAside) else SwapFailed(id)))
      ensures old(world.Now()).secret.Some? ==> world.faulted == (old(world.faulted) || !ok)
      ensures world.faulted ==> old(world.faulted) || !ok
      ensures ok ==> old(world.Now()).secret.Some?
                     && SameButJournal(old(world.Now()).(storage := Some(Active(old(world.Now()), world.db.gen))), world.Now(),
                                       Some(Journal(id, SwapStarted)))
    {
      Program(r, world.At(Swapping(id, EnsureStorage)));
      if world.Now().storage.None? {
        ok := Perform(world, world.Now().(storage := Some(Tree(world.db.gen, true))), r,
                      Swapping(id, EnsureStorage), Swapping(id, RequireSecret), SwapFailed(id));
        if !ok { return; }
      }
      Program(r, world.At(Swapping(id, RequireSecret)));
      if world.Now().secret.None? { return false; }
      AnnounceWrites(id);
      ok := WriteJournal(world, id, SwapStarted, AnnouncePlace(id), r);
    }

    /** The first pair of renames; a missing active tree is passed over. */
    method SwapStorage(ghost r: Sys -> bool) returns (ok: bool)
      requires Closed(r) && world.hist != [] && world.Now().storage.Some? && r(world.At(Swapping(id, MoveStorageAside)))
      modifies world`hist, world`faulted
      ensures world.hist != [] && r(world.At(if ok then Swapping(id, MoveSecretAside) else SwapFailed(id)))
      ensures id in old(world.Now()).workStorage ==> world.faulted == (old(world.faulted) || !ok)
      ensures world.faulted ==> old(world.faulted) || !ok
      ensures ok ==> id in old(world.Now()).workStorage
                     && world.Now() == StorageIn(StorageAside(old(world.Now()), id), id)
    {
      Program(r, world.At(Swapping(id, MoveStorageAside)));
      ok := Perform(world, StorageAside(world.Now(), id), r,
                    Swapping(id, MoveStorageAside), Swapping(id, InstallStorage), SwapFailed(id));
      if !ok { return; }
      Program(r, world.At(Swapping(id, InstallStorage)));
      if id !in world.Now().workStorage { return false; }
      ok := Perform(world, StorageIn(world.Now(), id), r,
                    Swapping(id, InstallStorage), Swapping(id, MoveSecretAside), SwapFailed(id));
    }

    /** The second pair of renames. */
    method SwapSecret(ghost r: Sys -> bool) returns (ok: bool)
      requires Closed(r) && world.hist != [] && world.Now().secret.Some? && r(world.At(Swapping(id, MoveSecretAside)))
      modifies world`hist, world`faulted
      ensures world.hist != [] && r(world.At(if ok then Swapping(id, SyncData) else SwapFailed(id)))
      ensures id in old(world.Now()).workSecret ==> world.faulted == (old(world.faulted) || !ok)
      ensures world.faulted ==> old(world.faulted) || !ok
      ensures ok ==> id in old(world.Now()).workSecret
                     && world.Now() == SecretIn(SecretAside(old(world.Now()), id), id)
    {
      Program(r, world.At(Swapping(id, MoveSecretAside)));
      ok := Perform(world, SecretAside(world.Now(), id), r,
                    Swapping(id, MoveSecretAside), Swapping(id, InstallSecret), SwapFailed(id));
      if !ok { return; }
      Program(r, world.At(Swapping(id, InstallSecret)));
      if id !in world.Now().workSecret { return false; }
      ok := Perform(world, SecretIn(world.Now(), id), r,
                    Swapping(id, InstallSecret), Swapping(id, SyncData), SwapFailed(id));
    }

    /** Both fsyncs and the second journal record. */
    method RecordSwap(ghost r: Sys -> bool) returns (ok: bool)
      requires Closed(r) && world.hist != [] && r(world.At(Swapping(id, SyncData)))
      modifies world`hist, world`faulted, this
      ensures world.hist != [] && r(world.At(if ok then Swapping(id, Swapped) else SwapFailed(id)))
      ensures world.faulted == (old(world.faulted) || !ok)
      ensures ok ==> swapped && SameButJournal(old(world.Now()), world.Now(), Some(Journal(id, FilesSwapped)))
    {
      Program(r, world.At(Swapping(id, SyncData)));
      ok := PerformSync(world, r, Swapping(id, SyncData), Swapping(id, SyncWork), SwapFailed(id));
      if !ok { return; }
      Program(r, world.At(Swapping(id, SyncWork)));
      ok := PerformSync(world, r, Swapping(id, SyncWork), Swapping(id, Record(CreateTemp)), SwapFailed(id));
      if !ok { return; }
      swapped := true;
      RecordWrites(id);
      ok := WriteJournal(world, id, FilesSwapped, RecordPlace(id), r);
    }

    /** The handler inside the swap: roll back and clear; whatever happens, the swap then raises. */
    method UndoSwap(ghost r: Sys -> bool)
      requires Closed(r) && world.hist != [] && r(world.At(SwapFailed(id)))
      modifies world`hist, world`faulted, this
      ensures world.hist != [] && r(world.At(Undoing(id, AfterSwapFailure, LookStorage)))
      ensures old(world.faulted) ==> world.faulted
    {
      var ok := RollbackStorage(world, id, InsideSwap, r);
      if !ok { return; }
      ok := RollbackSecret(world, id, InsideSwap, r);
      if !ok { return; }
      swapped := false;
      ClearingClears(id, InsideSwap);
      ok := ClearJournal(world, ClearingPlace(id, InsideSwap), r);
    }

    /** The swap: done completely, or undone by its own handler and raised. Without a fault it is done
        whenever everything it needs is there. */
    method SwapIntoPlace(ghost r: Sys -> bool) returns (ok: bool)
      requires Closed(r) && world.hist != [] && r(world.At(Swapping(id, OpenData)))
      modifies world`hist, world`faulted, this
      ensures world.hist != []
      ensures r(world.At(if ok then Swapping(id, Swapped) else Undoing(id, AfterSwapFailure, LookStorage)))
      ensures ok ==> !old(swapped) && swapped && Ready(old(world.Now()), id)
                     && SwappedIn(old(world.Now()), world.Now(), id, world.db.gen)
      ensures !ok ==> world.faulted || old(swapped) || !Ready(old(world.Now()), id)
      ensures ok ==> world.faulted == old(world.faulted)
    {
      Program(r, world.At(Swapping(id, OpenData)));
      if swapped { return false; }
      var opens := world.Answer();
      if !opens { return false; }
      ok := AnnounceSwap(r);
      if ok { ok := SwapStorage(r); }
      if ok { ok := SwapSecret(r); }
      if ok { ok := RecordSwap(r); }
      if !ok { UndoSwap(r); }
    }

    /** `rollback`, up to the removal of the workspace. */
    method Rollback(who: Undoer, ghost r: Sys -> bool) returns (ok: bool)
      requires Closed(r) && world.hist != [] && (who.AfterSwapFailure? || who.AfterDatabase?)
      requires r(world.At(Undoing(id, who, LookStorage)))
      modifies world`hist, world`faulted, this
      ensures world.hist != [] && r(world.At(if ok then Leaving(id) else Fenced(id)))
      ensures world.faulted == (old(world.faulted) || !ok)
      ensures ok ==> world.hist == [world.Now()]
                     && world.Now() == SecretUndone(StorageUndone(old(world.Now()), id), id).(journal := None)
    {
      ok := RollbackStorage(world, id, who, r);
      if !ok { return; }
      ok := RollbackSecret(world, id, who, r);
      if !ok { return; }
      swapped := false;
      ClearingClears(id, who);
      ok := ClearJournal(world, ClearingPlace(id, who), r);
    }

    method MarkDatabaseCommitted(ghost r: Sys -> bool) returns (ok: bool)
      requires Closed(r) && world.hist != [] && r(world.At(Marking(id, CreateTemp)))
      modifies world`hist, world`faulted
      ensures world.hist != [] && r(world.At(if ok then Awaiting(id) else Fenced(id)))
      ensures world.faulted == (old(world.faulted) || !ok)
      ensures ok ==> SameButJournal(old(world.Now()), world.Now(), Some(Journal(id, DatabaseCommitted)))
    {
      MarkWrites(id);
      ok := WriteJournal(world, id, DatabaseCommitted, MarkPlace(id), r);
    }
  }

  // The service

  /** After a rollback: the workspace goes and the cutover guard is closed, or everything stays fenced. */
  method Leave(world: World, id: Id, ghost r: Sys -> bool) returns (end: Proc)
    requires Closed(r) && world.hist != [] && r(world.At(Leaving(id)))
    modifies world`hist, world`faulted, world`guard
    ensures world.hist != [] && r(world.At(end))
    ensures if end == Fenced(id) then world.faulted && world.guard == old(world.guard)
            else end == Idle(RolledBackLive(id)) && !world.guard && world.faulted == old(world.faulted)
    ensures end.Idle? ==> world.hist == old(world.hist) + [DropWork(old(world.Now()), id)]
  {
    Program(r, world.At(Leaving(id)));
    var ok := world.Operate(DropWork(world.Now(), id));
    if !ok { return Fenced(id); }
    world.guard := false;
    return Idle(RolledBackLive(id));
  }

  /** The database half: one transaction that commits whole or not at all, perhaps behind an error. */
  method ReplaceDatabase(world: World, id: Id, ghost r: Sys -> bool)
    requires Closed(r) && world.hist != [] && r(world.At(Replacing(id)))
    modifies world`db, world`commits, world`faulted
    ensures r(world.At(Checking(id)))
    ensures world.db == Db(Restored(id), Some(id)) || (world.db == old(world.db) && world.faulted)
    ensures old(world.faulted) ==> world.faulted
    ensures world.faulted ==> old(world.faulted) || world.db == old(world.db)
  {
    ghost var s := world.At(Replacing(id));
    Onward(r, s, DbCommits, Go(s.(db := Db(Restored(id), Some(id)), commits := s.commits + {id}), Checking(id)));
    Onward(r, s, DbAborts, Go(s, Checking(id)));
    var commits := world.Answer();
    if commits {
      world.db := Db(Restored(id), Some(id));
      world.commits := world.commits + {id};
    }
  }

  /** The two entries restored in place of the active ones, and the record that the database followed. */
  predicate CutOver(before: Fs, after: Fs, id: Id, gen: Generation)
    requires Ready(before, id)
  {
    SwappedIn(before, after.(journal := Some(Journal(id, FilesSwapped))), id, gen)
    && after.journal == Some(Journal(id, DatabaseCommitted))
  }

  /** The cutover of a live restore, once its guard is up. It waits for the restart with the database
      and both entries replaced, or has rolled back and closed the guard, or is fenced. Only a fault, or
      something missing at the start, keeps it from the first. */
  method RestoreUnderLease(files: PreparedStorageRestore, ghost r: Sys -> bool) returns (end: Proc)
    requires Closed(r) && files.world.hist != [] && files.world.guard && r(files.world.At(Swapping(files.id, OpenData)))
    requires files.world.db.marker != Some(files.id)
    modifies files, files.world
    ensures files.world.hist != [] && r(files.world.At(end))
    ensures end == Awaiting(files.id) || end == Fenced(files.id) || end == Idle(RolledBackLive(files.id))
    ensures !files.world.guard <==> end.Idle?
    ensures end.Awaiting? ==> Ready(old(files.world.Now()), files.id)
    ensures end.Awaiting? ==> CutOver(old(files.world.Now()), files.world.Now(), files.id, old(files.world.db.gen))
    ensures end.Awaiting? ==> files.world.db == Db(Restored(files.id), Some(files.id))
    ensures end.Idle? ==> files.world.db == old(files.world.db)
    ensures end.Idle? ==> forall h :: h in files.world.hist ==> h.journal.None?
    ensures end.Fenced? ==> files.world.faulted
    ensures !files.world.faulted && !old(files.swapped) && Ready(old(files.world.Now()), files.id) ==> end.Awaiting?
  {
    var world, id := files.world, files.id;
    var ok := files.SwapIntoPlace(r);
    if ok { Program(r, world.At(Swapping(id, Swapped))); }
    var delivered := world.Answer();
    if !ok || !delivered {
      end := RollBack(files, AfterSwapFailure, r);
      return;
    }
    ghost var h := world.Now();
    ReplaceDatabase(world, id, r);
    end := Settle(files, r);
  }

  /** Rolls back and leaves. */
  method RollBack(files: PreparedStorageRestore, who: Undoer, ghost r: Sys -> bool) returns (end: Proc)
    requires Closed(r) && files.world.hist != [] && files.world.guard && (who.AfterSwapFailure? || who.AfterDatabase?)
    requires r(files.world.At(Undoing(files.id, who, LookStorage)))
    modifies files, files.world`hist, files.world`faulted, files.world`guard
    ensures files.world.hist != [] && r(files.world.At(end)) && (old(files.world.faulted) ==> files.world.faulted)
    ensures if end == Fenced(files.id) then files.world.faulted && files.world.guard
            else end == Idle(RolledBackLive(files.id)) && !files.world.guard
    ensures end.Idle? ==> forall h :: h in files.world.hist ==> h.journal.None?
  {
    var ok := files.Rollback(who, r);
    if !ok { return Fenced(files.id); }
    end := Leave(files.world, files.id, r);
  }

  /** Reads the marker from an independent connection and decides. */
  method Settle(files: PreparedStorageRestore, ghost r: Sys -> bool) returns (end: Proc)
    requires Closed(r) && files.world.hist != [] && files.world.guard && r(files.world.At(Checking(files.id)))
    modifies files, files.world`hist, files.world`faulted, files.world`guard
    ensures files.world.hist != [] && r(files.world.At(end)) && (old(files.world.faulted) ==> files.world.faulted)
    ensures end == Awaiting(files.id) || end == Fenced(files.id) || end == Idle(RolledBackLive(files.id))
    ensures !files.world.guard <==> end.Idle?
    ensures end.Fenced? ==> files.world.faulted
    ensures end.Awaiting? ==> files.world.db.marker == Some(files.id)
    ensures end.Awaiting? ==> SameButJournal(old(files.world.Now()), files.world.Now(), Some(Journal(files.id, DatabaseCommitted)))
    ensures end.Idle? ==> files.world.db.marker != Some(files.id) && forall h :: h in files.world.hist ==> h.journal.None?
  {
    var world, id := files.world, files.id;
    Program(r, world.At(Checking(id)));
    var answered := world.Answer();
    if !answered { return Fenced(id); }
    if world.db.marker != Some(id) {
      end := RollBack(files, AfterDatabase, r);
      return;
    }
    Program(r, world.At(Validating(id)));
    var valid := world.Answer();
    if !valid { return Fenced(id); }
    var ok := files.MarkDatabaseCommitted(r);
    return if ok then Awaiting(id) else Fenced(id);
  }

  // Start-up recovery

  function PreviousBroken(h: Fs, id: Id): Fs
    requires id in h.prevStorage
  {
    h.(prevStorage := h.prevStorage[id := h.prevStorage[id].(whole := false)])
  }

  method RemovePreviousStorage(world: World, id: Id, ghost r: Sys -> bool) returns (ok: bool)
    requires Closed(r) && world.hist != [] && r(world.At(Finishing(id, BreakPrevious)))
    modifies world`hist, world`faulted
    ensures world.hist != [] && r(world.At(if ok then Finishing(id, DropPreviousSecret) else Down))
    ensures world.faulted == (old(world.faulted) || !ok)
    ensures ok ==> world.Now() == old(world.Now()).(prevStorage := old(world.Now()).prevStorage - {id})
  {
    Program(r, world.At(Finishing(id, BreakPrevious)));
    if id in world.Now().prevStorage {
      ok := Perform(world, PreviousBroken(world.Now(), id), r, Finishing(id, BreakPrevious), Finishing(id, DropPrevious), Down);
      if !ok { return; }
    }
    Program(r, world.At(Finishing(id, DropPrevious)));
    ok := Perform(world, world.Now().(prevStorage := world.Now().prevStorage - {id}), r,
                  Finishing(id, DropPrevious), Finishing(id, DropPreviousSecret), Down);
  }

  /** Removal of the previous entries under a sealed journal. */
  method RemovePrevious(world: World, id: Id, ghost r: Sys -> bool) returns (ok: bool)
    requires Closed(r) && world.hist != [] && r(world.At(Finishing(id, BreakPrevious)))
    modifies world`hist, world`faulted
    ensures world.hist != [] && r(world.At(if ok then Sweeping(id, true, DropWorkStorage) else Down))
    ensures world.faulted == (old(world.faulted) || !ok)
    ensures ok ==> world.Now() == old(world.Now()).(prevStorage := old(world.Now()).prevStorage - {id},
                                                    prevSecret := old(world.Now()).prevSecret - {id})
  {
    ok := RemovePreviousStorage(world, id, r);
    if !ok { return; }
    Program(r, world.At(Finishing(id, DropPreviousSecret)));
    ok := Perform(world, world.Now().(prevSecret := world.Now().prevSecret - {id}), r,
                  Finishing(id, DropPreviousSecret), Finishing(id, SyncFinish), Down);
    if !ok { return; }
    Program(r, world.At(Finishing(id, SyncFinish)));
    ok := PerformSync(world, r, Finishing(id, SyncFinish), Sweeping(id, true, DropWorkStorage), Down);
  }

  /** Removal of the workspace. */
  method RemoveWork(world: World, id: Id, committed: bool, ghost r: Sys -> bool) returns (ok: bool)
    requires Closed(r) && world.hist != [] && r(world.At(Sweeping(id, committed, DropWorkStorage)))
    modifies world`hist, world`faulted
    ensures world.hist != [] && r(world.At(if ok then Sweeping(id, committed, Clear(Unlink)) else Down))
    ensures world.faulted == (old(world.faulted) || !ok)
    ensures ok ==> world.Now() == DropWork(old(world.Now()), id)
  {
    Program(r, world.At(Sweeping(id, committed, DropWorkStorage)));
    ok := Perform(world, world.Now().(workStorage := world.Now().workStorage - {id}), r,
                  Sweeping(id, committed, DropWorkStorage), Sweeping(id, committed, DropWorkSecret), Down);
    if !ok { return; }
    Program(r, world.At(Sweeping(id, committed, DropWorkSecret)));
    ok := Perform(world, world.Now().(workSecret := world.Now().workSecret - {id}), r,
                  Sweeping(id, committed, DropWorkSecret), Sweeping(id, committed, SyncSweep), Down);
    if !ok { return; }
    Program(r, world.At(Sweeping(id, committed, SyncSweep)));
    ok := PerformSync(world, r, Sweeping(id, committed, SyncSweep), Sweeping(id, committed, Clear(Unlink)), Down);
  }

  /** Removal of the workspace, then of the journal. */
  method Sweep(world: World, id: Id, committed: bool, ghost r: Sys -> bool) returns (ok: bool)
    requires Closed(r) && world.hist != [] && r(world.At(Sweeping(id, committed, DropWorkStorage)))
    modifies world`hist, world`faulted
    ensures world.hist != [] && r(world.At(if ok then Idle(Recovered(id, committed)) else Down))
    ensures world.faulted == (old(world.faulted) || !ok)
    ensures ok ==> world.Now() == DropWork(old(world.Now()), id).(journal := None)
  {
    ok := RemoveWork(world, id, committed, r);
    if !ok { return; }
    SweepClears(id, committed);
    ok := ClearJournal(world, SweepPlace(id, committed), r);
  }

  /** A `finalizing` record that is read, while a power failure could still bring back an earlier one. */
  ghost predicate Unsealed(hist: seq<Fs>, db: Db) {
    hist != [] && exists id: Id ::
      db.marker == Some(id) && Says(hist[|hist| - 1], id, Finalizing) && exists h :: h in hist && !Says(h, id, Finalizing)
  }

  /** What a committed restore leaves once recovery has finished with it. */
  function Finished(h: Fs, id: Id): Fs {
    DropWork(h.(prevStorage := h.prevStorage - {id}, prevSecret := h.prevSecret - {id}, journal := None), id)
  }

  /** What an uncommitted one leaves. */
  function PutBack(h: Fs, id: Id): Fs {
    DropWork(SecretUndone(StorageUndone(h, id), id).(journal := None), id)
  }

  predicate SameButTemps(a: Fs, b: Fs) { a == b.(temps := a.temps) }

  /** Makes `finalizing` durable unless it is there already. */
  method Seal(world: World, id: Id, status: Status, ghost r: Sys -> bool) returns (ok: bool)
    requires Closed(r) && world.hist != [] && Says(world.Now(), id, status)
    requires status != Finalizing ==> r(world.At(Sealing(id, CreateTemp)))
    requires status == Finalizing ==> r(world.At(DroppingMarker(id)))
    modifies world`hist, world`faulted
    ensures world.hist != [] && r(world.At(if ok then DroppingMarker(id) else Down))
    ensures world.faulted == (old(world.faulted) || !ok)
    ensures ok ==> Says(world.Now(), id, Finalizing)
                   && SameButTemps(world.Now(), old(world.Now()).(journal := Some(Journal(id, Finalizing))))
    ensures ok ==> if status == Finalizing then world.hist == old(world.hist) else world.hist == [world.Now()]
  {
    if status == Finalizing { return true; }
    SealWrites(id);
    ok := WriteJournal(world, id, Finalizing, SealPlace(id), r);
  }

  /** Where dropping the marker leads: within `r` when the seal is durable, else possibly out of it. */
  lemma AfterDrop(r: Sys -> bool, s: Sys, id: Id) returns (q: Sys -> bool)
    requires Closed(r) && r(s) && s.hist != [] && s.proc == DroppingMarker(id) && s.db.marker == Some(id)
    ensures Closed(q) && (SealDurable(s) || FullyClosed(r) ==> q == r) && r(Go(s, Down))
    ensures q(Go(s.(db := s.db.(marker := None)), Finishing(id, BreakPrevious)))
  {
    var t := Go(s.(db := s.db.(marker := None)), Finishing(id, BreakPrevious));
    assert Step(s, Raise) == Some(Go(s, Down)) && Step(s, Next(0)) == Some(t);
    q := if SealDurable(s) || FullyClosed(r) then r else x => true;
  }

  /** Seals the journal, then drops and commits the marker. `q` is `r` as long as that was safe. */
  method DropMarker(world: World, id: Id, status: Status, ghost r: Sys -> bool) returns (ok: bool, ghost q: Sys -> bool)
    requires Closed(r) && world.hist != [] && Says(world.Now(), id, status) && world.db.marker == Some(id)
    requires r(world.At(if status == Finalizing then DroppingMarker(id) else Sealing(id, CreateTemp)))
    modifies world`hist, world`db, world`faulted
    ensures world.hist != [] && world.faulted == (old(world.faulted) || !ok)
    ensures Closed(q) && (!Unsealed(old(world.hist), old(world.db)) || FullyClosed(r) ==> q == r)
    ensures if ok then q(world.At(Finishing(id, BreakPrevious))) else r(world.At(Down))
    ensures ok ==> world.db == old(world.db).(marker := None)
    ensures ok ==> SameButTemps(world.Now(), old(world.Now()).(journal := Some(Journal(id, Finalizing))))
  {
    q := r;
    ok := Seal(world, id, status, r);
    if !ok { return; }
    q := AfterDrop(r, world.At(DroppingMarker(id)), id);
    ok := world.Answer();
    if ok { world.db := world.db.(marker := None); }
  }

  /** Removes what was before, the workspace and the journal. */
  method RemoveRest(world: World, id: Id, ghost r: Sys -> bool) returns (ok: bool)
    requires Closed(r) && world.hist != [] && r(world.At(Finishing(id, BreakPrevious)))
    modifies world`hist, world`faulted
    ensures world.hist != [] && r(world.At(if ok then Idle(Recovered(id, true)) else Down))
    ensures world.faulted == (old(world.faulted) || !ok)
    ensures ok ==> world.Now() == Finished(old(world.Now()), id)
  {
    ok := RemovePrevious(world, id, r);
    if ok { ok := Sweep(world, id, true, r); }
  }

  /** The committed branch: validate, seal the journal, drop the marker, remove what was before. */
  method FinishCommitted(world: World, id: Id, status: Status, ghost r: Sys -> bool) returns (end: Proc)
    requires Closed(r) && world.hist != [] && Says(world.Now(), id, status)
    requires world.db.marker == Some(id) || (world.db.marker.None? && status == Finalizing)
    requires r(world.At(Revalidating(id, status, world.db.marker == Some(id))))
    modifies world`hist, world`db, world`faulted
    ensures world.hist != []
    ensures !Unsealed(old(world.hist), old(world.db)) || FullyClosed(r) ==> r(world.At(end))
    ensures end == Down || end == Refused(RestoredFilesMissing) || end == Idle(Recovered(id, true))
    ensures end.Refused? ==> old(world.Now()).storage.None? || old(world.Now()).secret.None?
    ensures end.Down? ==> world.faulted
    ensures end.Idle? ==> world.db == old(world.db).(marker := None)
    ensures end.Idle? ==> SameButTemps(world.Now(), Finished(old(world.Now()), id))
  {
    var marked := world.db.marker == Some(id);
    Program(r, world.At(Revalidating(id, status, marked)));
    var valid := world.Answer();
    if !valid { return Down; }
    if world.Now().storage.None? || world.Now().secret.None? { return Refused(RestoredFilesMissing); }
    ghost var q := r;
    var ok;
    if marked {
      ok, q := DropMarker(world, id, status, r);
      if !ok { return Down; }
    }
    ok := RemoveRest(world, id, q);
    return if ok then Idle(Recovered(id, true)) else Down;
  }

  /** What `Recover` has to leave when it returns normally. */
  ghost predicate RecoveredAs(before: Fs, db: Db, after: Fs, dbAfter: Db, end: Proc) {
    match end
    case Idle(NothingToDo) => before.journal.None? && db.marker.None? && after == before && dbAfter == db
    case Idle(Recovered(id, committed)) =>
      && before.journal.Some? && before.journal.value.Journal? && before.journal.value.id == id
      && (committed <==> db.marker == Some(id) || Says(before, id, Finalizing))
      && dbAfter == db.(marker := None) && SameButTemps(after, if committed then Finished(before, id) else PutBack(before, id))
    case _ => false
  }

  /** The journal and the marker contradict each other, or what the marker promises is not there. */
  predicate Contradictory(h: Fs, db: Db) {
    match h.journal
    case None => db.marker.Some?
    case Some(Torn) => true
    case Some(Journal(id, status)) =>
      || (db.marker != None && db.marker != Some(id))
      || ((db.marker == Some(id) || status == Finalizing) && (h.storage.None? || h.secret.None?))
  }

  /** `recover_interrupted_destructive_restore`. Without a fault it refuses exactly the contradictory
      states and otherwise returns with the outcome that journal and marker call for. Its run is
      a sealed one unless it started from an unsealed record. */
  method Recover(world: World, ghost r: Sys -> bool) returns (end: Proc)
    requires Closed(r) && world.hist != [] && r(world.At(ReadingJournal))
    modifies world`hist, world`db, world`faulted
    ensures world.hist != []
    ensures !Unsealed(old(world.hist), old(world.db)) || FullyClosed(r) ==> r(world.At(end))
    ensures end == Down || end.Refused? || end.Idle?
    ensures end.Idle? ==> RecoveredAs(old(world.Now()), old(world.db), world.Now(), world.db, end)
    ensures end.Refused? ==> Contradictory(old(world.Now()), old(world.db))
    ensures end.Down? ==> world.faulted
    ensures !world.faulted && !Contradictory(old(world.Now()), old(world.db)) ==> end.Idle?
  {
    Program(r, world.At(ReadingJournal));
    var opens := world.Answer();
    if !opens { return Down; }
    match world.Now().journal
    case None => return if world.db.marker.None? then Idle(NothingToDo) else Refused(MarkerWithoutJournal);
    case Some(Torn) => return Refused(InvalidJournal);
    case Some(Journal(id, status)) => end := RecoverJournal(world, id, status, r);
  }

  /** The part behind a valid journal. */
  method RecoverJournal(world: World, id: Id, status: Status, ghost r: Sys -> bool) returns (end: Proc)
    requires Closed(r) && world.hist != [] && Says(world.Now(), id, status) && r(world.At(ReadingMarker(id, status)))
    modifies world`hist, world`db, world`faulted
    ensures world.hist != []
    ensures !Unsealed(old(world.hist), old(world.db)) || FullyClosed(r) ==> r(world.At(end))
    ensures end == Down || end.Refused? || end.Idle?
    ensures end.Idle? ==> RecoveredAs(old(world.Now()), old(world.db), world.Now(), world.db, end)
    ensures end.Refused? ==> Contradictory(old(world.Now()), old(world.db))
    ensures end.Down? ==> world.faulted
  {
    Program(r, world.At(ReadingMarker(id, status)));
    var answered := world.Answer();
    if !answered { return Down; }
    if world.db.marker != None && world.db.marker != Some(id) { return Refused(OtherRestoreInDatabase); }
    if world.db.marker == Some(id) || status == Finalizing {
      end := FinishCommitted(world, id, status, r);
      return;
    }
    var ok := RollbackStorage(world, id, AtStartup, r);
    if ok { ok := RollbackSecret(world, id, AtStartup, r); }
    if ok { ok := Sweep(world, id, false, r); }
    return if ok then Idle(Recovered(id, false)) else Down;
  }
}
