/** Destructive restore as a transition system: every rename, removal, journal step, fsync,
    database commit and marker drop is one step, and a crash may fall between any two. */
module RestoreMachine {
  import opened Results

  /** A restore identifier: 128 random bits in the program, so only equality matters. */
  type Id = nat

  /** The data set a database, a storage tree or a secret belongs to. */
  datatype Generation = Original | Restored(id: Id)

  /** A storage tree; `whole` turns false once a recursive removal has started on it. */
  datatype Tree = Tree(gen: Generation, whole: bool)

  datatype Status = SwapStarted | FilesSwapped | DatabaseCommitted | Finalizing

  /** The bytes under a journal name: `Torn` until the file itself has been fsynced. */
  datatype JournalFile = Torn | Journal(id: Id, status: Status)

  /** The directory entries the protocol touches. */
  datatype Fs = Fs(
    storage: Option<Tree>,
    secret: Option<Generation>,
    prevStorage: map<Id, Tree>,
    prevSecret: map<Id, Generation>,
    workStorage: map<Id, Tree>,
    workSecret: map<Id, Generation>,
    journal: Option<JournalFile>,
    temps: map<nat, JournalFile>)

  datatype Db = Db(gen: Generation, marker: Option<Id>)

  /** `bare` and `secretless` say whether the original data directory starts without a
      storage directory or without a secret file. */
  datatype Config = Config(bare: bool, secretless: bool)

  /** The four effects of one journal write. */
  datatype WritePc = CreateTemp | SyncTemp(token: nat) | ReplaceJournal(token: nat) | SyncDirectory

  datatype SwapPc =
    | OpenData | EnsureStorage | RequireSecret
    | Announce(w: WritePc)
    | MoveStorageAside | InstallStorage | MoveSecretAside | InstallSecret
    | SyncData | SyncWork
    | Record(w: WritePc)
    | Swapped

  datatype UndoPc =
    | LookStorage | BreakStorage | DropStorage | ReturnStorage
    | LookSecret | DropSecret | ReturnSecret
    | SyncUndo

  datatype ClearPc = Unlink | SyncUnlink

  datatype FinishPc = BreakPrevious | DropPrevious | DropPreviousSecret | SyncFinish

  datatype SweepPc = DropWorkStorage | DropWorkSecret | SyncSweep | Clear(c: ClearPc)

  /** Who runs the rollback: the swap's own handler, the service after a failed swap, the
      service after the database turned out not to have committed, or start-up recovery. */
  datatype Undoer = InsideSwap | AfterSwapFailure | AfterDatabase | AtStartup

  datatype Report = Fresh | NothingToDo | RolledBackLive(undone: Id) | Recovered(id: Id, committed: bool)

  datatype RecoveryError =
    | MarkerWithoutJournal | InvalidJournal | OtherRestoreInDatabase | RestoredFilesMissing | MarkerChanged

  datatype Proc =
    | Down
    | Idle(last: Report)
    | Preparing(id: Id)
    | Armed(id: Id)
    | Swapping(id: Id, swap: SwapPc)
    | Undoing(id: Id, who: Undoer, undo: UndoPc)
    | Clearing(id: Id, who: Undoer, clear: ClearPc)
    | Leaving(id: Id)
    | Replacing(id: Id)
    | Checking(id: Id)
    | Validating(id: Id)
    | Marking(id: Id, w: WritePc)
    | Awaiting(id: Id)
    | Fenced(id: Id)
    | ReadingJournal
    | ReadingMarker(id: Id, status: Status)
    | Revalidating(id: Id, status: Status, marked: bool)
    | Sealing(id: Id, w: WritePc)
    | DroppingMarker(id: Id)
    | Finishing(id: Id, finish: FinishPc)
    | Sweeping(id: Id, committed: bool, sweep: SweepPc)
    | Refused(error: RecoveryError)

  /** `hist[0]` is on disk; each later snapshot adds one directory operation that has not been
      fsynced; the last is what the running process sees. `used` and `commits` record which
      restore identifiers were drawn and which reached a database commit. */
  datatype Sys = Sys(
    conf: Config, hist: seq<Fs>, db: Db, proc: Proc, guard: bool,
    used: set<Id>, commits: set<Id>)

  datatype Event =
    | Begin(id: Id)
    | Next(token: nat)
    | DbCommits
    | DbAborts
    | Raise
    | ProcessDies
    | PowerLoss(keep: nat)
    | Restart

  predicate Init(s: Sys) {
    && |s.hist| == 1
    && s.hist[0] == Fs(
         if s.conf.bare then None else Some(Tree(Original, true)),
         if s.conf.secretless then None else Some(Original),
         map[], map[], map[], map[], None, map[])
    && s.db == Db(Original, None)
    && s.proc == Idle(Fresh) && !s.guard && s.used == {} && s.commits == {}
  }

  function Cur(s: Sys): Fs
    requires s.hist != []
  {
    s.hist[|s.hist| - 1]
  }

  function Push(s: Sys, h: Fs): Sys {
    s.(hist := s.hist + [h])
  }

  function Flush(s: Sys): Sys
    requires s.hist != []
  {
    s.(hist := [Cur(s)])
  }

  function Go(s: Sys, p: Proc): Sys {
    s.(proc := p)
  }

  /** fsync of a temporary journal file makes its content durable wherever the name exists. */
  function Stamp(h: Fs, token: nat, j: JournalFile): Fs {
    if token in h.temps then h.(temps := h.temps[token := j]) else h
  }

  function StampAll(hist: seq<Fs>, token: nat, j: JournalFile): seq<Fs> {
    seq(|hist|, i requires 0 <= i < |hist| => Stamp(hist[i], token, j))
  }

  predicate FreshToken(s: Sys, token: nat) {
    forall h :: h in s.hist ==> token !in h.temps
  }

  function Installed(h: Fs, token: nat): Fs
    requires token in h.temps
  {
    h.(journal := Some(h.temps[token]), temps := h.temps - {token})
  }

  /** One effect of `DestructiveRestoreJournal.write`; the second component is the next one. */
  function WriteStep(s: Sys, w: WritePc, token: nat, j: JournalFile): Option<(Sys, Option<WritePc>)>
    requires s.hist != []
  {
    match w
    case CreateTemp =>
      if !FreshToken(s, token) then None
      else Some((Push(s, Cur(s).(temps := Cur(s).temps[token := Torn])), Some(SyncTemp(token))))
    case SyncTemp(t) =>
      Some((s.(hist := StampAll(s.hist, t, j)), Some(ReplaceJournal(t))))
    case ReplaceJournal(t) =>
      if t !in Cur(s).temps then None
      else Some((Push(s, Installed(Cur(s), t)), Some(SyncDirectory)))
    case SyncDirectory =>
      Some((Flush(s), None))
  }

  /** A failing journal write removes its temporary file on the way out. */
  function AbandonWrite(s: Sys, w: WritePc): Sys
    requires s.hist != []
  {
    match w
    case SyncTemp(t) => Push(s, Cur(s).(temps := Cur(s).temps - {t}))
    case ReplaceJournal(t) => Push(s, Cur(s).(temps := Cur(s).temps - {t}))
    case _ => s
  }

  function DropWork(h: Fs, id: Id): Fs {
    h.(workStorage := h.workStorage - {id}, workSecret := h.workSecret - {id})
  }

  function SwapStep(s: Sys, id: Id, pc: SwapPc, token: nat): Option<Sys>
    requires s.hist != []
  {
    var h := Cur(s);
    match pc
    case OpenData => Some(Go(s, Swapping(id, EnsureStorage)))
    case EnsureStorage =>
      Some(Go(if h.storage.Some? then s else Push(s, h.(storage := Some(Tree(s.db.gen, true)))), Swapping(id, RequireSecret)))
    case RequireSecret =>
      // A missing secret raises before the journal is written.
      Some(Go(s, if h.secret.Some? then Swapping(id, Announce(CreateTemp)) else Undoing(id, InsideSwap, LookStorage)))
    case Announce(w) =>
      (match WriteStep(s, w, token, Journal(id, SwapStarted))
       case None => None
       case Some((t, Some(w'))) => Some(Go(t, Swapping(id, Announce(w'))))
       case Some((t, None)) => Some(Go(t, Swapping(id, MoveStorageAside))))
    case MoveStorageAside =>
      Some(Go(
        if h.storage.None? then s
        else Push(s, h.(storage := None, prevStorage := h.prevStorage[id := h.storage.value])),
        Swapping(id, InstallStorage)))
    case InstallStorage =>
      if id !in h.workStorage then None
      else Some(Go(
        Push(s, h.(storage := Some(h.workStorage[id]), workStorage := h.workStorage - {id})),
        Swapping(id, MoveSecretAside)))
    case MoveSecretAside =>
      Some(Go(
        if h.secret.None? then s
        else Push(s, h.(secret := None, prevSecret := h.prevSecret[id := h.secret.value])),
        Swapping(id, InstallSecret)))
    case InstallSecret =>
      if id !in h.workSecret then None
      else Some(Go(
        Push(s, h.(secret := Some(h.workSecret[id]), workSecret := h.workSecret - {id})),
        Swapping(id, SyncData)))
    case SyncData => Some(Go(Flush(s), Swapping(id, SyncWork)))
    case SyncWork => Some(Go(Flush(s), Swapping(id, Record(CreateTemp))))
    case Record(w) =>
      (match WriteStep(s, w, token, Journal(id, FilesSwapped))
       case None => None
       case Some((t, Some(w'))) => Some(Go(t, Swapping(id, Record(w'))))
       case Some((t, None)) => Some(Go(t, Swapping(id, Swapped))))
    case Swapped => Some(Go(s, Replacing(id)))
  }

  function UndoStep(s: Sys, id: Id, who: Undoer, pc: UndoPc): Option<Sys>
    requires s.hist != []
  {
    var h := Cur(s);
    match pc
    case LookStorage =>
      Some(Go(s, Undoing(id, who, if id in h.prevStorage then BreakStorage else LookSecret)))
    case BreakStorage =>
      // A recursive removal: the tree is damaged before it is gone.
      Some(Go(
        if h.storage.None? then s else Push(s, h.(storage := Some(h.storage.value.(whole := false)))),
        Undoing(id, who, DropStorage)))
    case DropStorage =>
      Some(Go(if h.storage.None? then s else Push(s, h.(storage := None)), Undoing(id, who, ReturnStorage)))
    case ReturnStorage =>
      if id !in h.prevStorage then None
      else Some(Go(
        Push(s, h.(storage := Some(h.prevStorage[id]), prevStorage := h.prevStorage - {id})),
        Undoing(id, who, LookSecret)))
    case LookSecret =>
      Some(Go(s, Undoing(id, who, if id in h.prevSecret then DropSecret else SyncUndo)))
    case DropSecret =>
      Some(Go(if h.secret.None? then s else Push(s, h.(secret := None)), Undoing(id, who, ReturnSecret)))
    case ReturnSecret =>
      if id !in h.prevSecret then None
      else Some(Go(
        Push(s, h.(secret := Some(h.prevSecret[id]), prevSecret := h.prevSecret - {id})),
        Undoing(id, who, SyncUndo)))
    case SyncUndo =>
      Some(Go(Flush(s), if who.AtStartup? then Sweeping(id, false, DropWorkStorage) else Clearing(id, who, Unlink)))
  }

  function AfterClear(id: Id, who: Undoer): Proc {
    // The swap's own handler re-raises, and the service rolls back a second time.
    if who.InsideSwap? then Undoing(id, AfterSwapFailure, LookStorage) else Leaving(id)
  }

  function ClearStep(s: Sys, pc: ClearPc, again: Proc, done: Proc): Sys
    requires s.hist != []
  {
    match pc
    case Unlink =>
      // A journal that is already gone returns without an fsync.
      if Cur(s).journal.None? then Go(s, done) else Go(Push(s, Cur(s).(journal := None)), again)
    case SyncUnlink => Go(Flush(s), done)
  }

  function RecoveryStep(s: Sys, token: nat): Option<Sys>
    requires s.hist != []
  {
    var h := Cur(s);
    match s.proc
    case ReadingJournal =>
      (match h.journal
       case None => Some(Go(s, if s.db.marker.None? then Idle(NothingToDo) else Refused(MarkerWithoutJournal)))
       case Some(Torn) => Some(Go(s, Refused(InvalidJournal)))
       case Some(Journal(id, status)) => Some(Go(s, ReadingMarker(id, status))))
    case ReadingMarker(id, status) =>
      if s.db.marker != None && s.db.marker != Some(id) then Some(Go(s, Refused(OtherRestoreInDatabase)))
      else if s.db.marker == Some(id) || status == Finalizing then
        Some(Go(s, Revalidating(id, status, s.db.marker == Some(id))))
      else Some(Go(s, Undoing(id, AtStartup, LookStorage)))
    case Revalidating(id, status, marked) =>
      if h.storage.None? || h.secret.None? then Some(Go(s, Refused(RestoredFilesMissing)))
      else if status != Finalizing then Some(Go(s, Sealing(id, CreateTemp)))
      else if marked then Some(Go(s, DroppingMarker(id)))
      else Some(Go(s, Finishing(id, BreakPrevious)))
    case Sealing(id, w) =>
      (match WriteStep(s, w, token, Journal(id, Finalizing))
       case None => None
       case Some((t, Some(w'))) => Some(Go(t, Sealing(id, w')))
       case Some((t, None)) => Some(Go(t, DroppingMarker(id))))
    case DroppingMarker(id) =>
      if s.db.marker != Some(id) then Some(Go(s, Refused(MarkerChanged)))
      else Some(Go(s.(db := s.db.(marker := None)), Finishing(id, BreakPrevious)))
    case Finishing(id, BreakPrevious) =>
      Some(Go(
        if id !in h.prevStorage then s
        else Push(s, h.(prevStorage := h.prevStorage[id := h.prevStorage[id].(whole := false)])),
        Finishing(id, DropPrevious)))
    case Finishing(id, DropPrevious) =>
      Some(Go(Push(s, h.(prevStorage := h.prevStorage - {id})), Finishing(id, DropPreviousSecret)))
    case Finishing(id, DropPreviousSecret) =>
      Some(Go(Push(s, h.(prevSecret := h.prevSecret - {id})), Finishing(id, SyncFinish)))
    case Finishing(id, SyncFinish) =>
      Some(Go(Flush(s), Sweeping(id, true, DropWorkStorage)))
    case Sweeping(id, c, DropWorkStorage) =>
      Some(Go(Push(s, h.(workStorage := h.workStorage - {id})), Sweeping(id, c, DropWorkSecret)))
    case Sweeping(id, c, DropWorkSecret) =>
      Some(Go(Push(s, h.(workSecret := h.workSecret - {id})), Sweeping(id, c, SyncSweep)))
    case Sweeping(id, c, SyncSweep) =>
      Some(Go(Flush(s), Sweeping(id, c, Clear(Unlink))))
    case Sweeping(id, c, Clear(pc)) =>
      Some(ClearStep(s, pc, Sweeping(id, c, Clear(SyncUnlink)), Idle(Recovered(id, c))))
    case _ => None
  }

  /** The next step of the running program when it succeeds. */
  function NextStep(s: Sys, token: nat): Option<Sys>
    requires s.hist != []
  {
    var h := Cur(s);
    match s.proc
    case Preparing(id) => Some(Go(s, Armed(id)).(guard := true))
    case Armed(id) => Some(Go(s, Swapping(id, OpenData)))
    case Swapping(id, pc) => SwapStep(s, id, pc, token)
    case Undoing(id, who, pc) => UndoStep(s, id, who, pc)
    case Clearing(id, who, pc) => Some(ClearStep(s, pc, Clearing(id, who, SyncUnlink), AfterClear(id, who)))
    case Leaving(id) => Some(Go(Push(s, DropWork(h, id)), Idle(RolledBackLive(id))).(guard := false))
    case Checking(id) =>
      Some(Go(s, if s.db.marker == Some(id) then Validating(id) else Undoing(id, AfterDatabase, LookStorage)))
    case Validating(id) => Some(Go(s, Marking(id, CreateTemp)))
    case Marking(id, w) =>
      (match WriteStep(s, w, token, Journal(id, DatabaseCommitted))
       case None => None
       case Some((t, Some(w'))) => Some(Go(t, Marking(id, w')))
       case Some((t, None)) => Some(Go(t, Awaiting(id))))
    case _ => RecoveryStep(s, token)
  }

  /** An error or a cancellation surfacing at the current step, before it takes effect. */
  function RaiseStep(s: Sys): Option<Sys>
    requires s.hist != []
  {
    match s.proc
    case Preparing(id) => Some(Go(Push(s, DropWork(Cur(s), id)), Idle(Fresh)))
    case Armed(id) => Some(Go(Push(s, DropWork(Cur(s), id)), Idle(Fresh)).(guard := false))
    case Swapping(id, pc) =>
      (match pc
       case OpenData => Some(Go(s, Undoing(id, AfterSwapFailure, LookStorage)))
       case Announce(w) => Some(Go(AbandonWrite(s, w), Undoing(id, InsideSwap, LookStorage)))
       case Record(w) => Some(Go(AbandonWrite(s, w), Undoing(id, InsideSwap, LookStorage)))
       case Swapped => Some(Go(s, Undoing(id, AfterSwapFailure, LookStorage)))
       case _ => Some(Go(s, Undoing(id, InsideSwap, LookStorage))))
    case Undoing(id, who, pc) =>
      Some(Go(s, match who
                 case InsideSwap => Undoing(id, AfterSwapFailure, LookStorage)
                 case AtStartup => Down
                 case _ => Fenced(id)))
    case Clearing(id, who, pc) =>
      Some(Go(s, if who.InsideSwap? then Undoing(id, AfterSwapFailure, LookStorage) else Fenced(id)))
    case Leaving(id) => Some(Go(s, Fenced(id)))
    case Checking(id) => Some(Go(s, Fenced(id)))
    case Validating(id) => Some(Go(s, Fenced(id)))
    case Marking(id, w) => Some(Go(AbandonWrite(s, w), Fenced(id)))
    case Sealing(id, w) => Some(Go(AbandonWrite(s, w), Down))
    case ReadingJournal => Some(Go(s, Down))
    case ReadingMarker(_, _) => Some(Go(s, Down))
    case Revalidating(_, _, _) => Some(Go(s, Down))
    case DroppingMarker(_) => Some(Go(s, Down))
    case Finishing(_, _) => Some(Go(s, Down))
    case Sweeping(_, _, _) => Some(Go(s, Down))
    case _ => None
  }

  function Step(s: Sys, e: Event): Option<Sys> {
    if s.hist == [] then None
    else match e
    case Begin(id) =>
      if !s.proc.Idle? || id in s.used then None
      else if Cur(s).journal.Some? then Some(s)  // refused: recovery is required first
      else Some(Go(Push(s, Cur(s).(
        workStorage := Cur(s).workStorage[id := Tree(Restored(id), true)],
        workSecret := Cur(s).workSecret[id := Restored(id)])), Preparing(id)).(used := s.used + {id}))
    case Next(token) => NextStep(s, token)
    case DbCommits =>
      if !s.proc.Replacing? then None
      else Some(Go(s.(db := Db(Restored(s.proc.id), Some(s.proc.id)), commits := s.commits + {s.proc.id}), Checking(s.proc.id)))
    case DbAborts =>
      if !s.proc.Replacing? then None else Some(Go(s, Checking(s.proc.id)))
    case Raise => RaiseStep(s)
    case ProcessDies => Some(Go(s, Down).(guard := false))
    case PowerLoss(keep) =>
      if keep >= |s.hist| then None
      else Some(Go(s.(hist := [s.hist[keep]]), Down).(guard := false))
    case Restart => if s.proc.Down? then Some(Go(s, ReadingJournal)) else None
  }

  /** A run; an event that is not enabled makes it undefined. */
  function Run(s: Sys, es: seq<Event>): Option<Sys>
    decreases es
  {
    if es == [] then Some(s)
    else match Step(s, es[0])
         case None => None
         case Some(t) => Run(t, es[1..])
  }
}
