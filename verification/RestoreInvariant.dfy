/** What every step of the destructive restore keeps. */
module RestoreInvariant {
  import opened Results
  import opened RestoreMachine

  /** Storage and secret are whole and belong to generation `g`. */
  ghost predicate Live(c: Config, h: Fs, g: Generation) {
    && (h.storage == Some(Tree(g, true)) || (h.storage.None? && g.Original? && c.bare))
    && (h.secret == Some(g) || (h.secret.None? && g.Original? && c.secretless))
  }

  ghost predicate NoPrevious(h: Fs) {
    h.prevStorage == map[] && h.prevSecret == map[]
  }

  ghost predicate PreviousOnly(h: Fs, id: Id) {
    h.prevStorage.Keys <= {id} && h.prevSecret.Keys <= {id}
  }

  ghost predicate StorageUndoable(c: Config, h: Fs, id: Id, g: Generation) {
    if id in h.prevStorage then h.prevStorage[id] == Tree(g, true)
    else h.storage == Some(Tree(g, true)) || (h.storage.None? && g.Original? && c.bare)
  }

  ghost predicate SecretUndoable(c: Config, h: Fs, id: Id, g: Generation) {
    if id in h.prevSecret then h.prevSecret[id] == g
    else h.secret == Some(g) || (h.secret.None? && g.Original? && c.secretless)
  }

  /** Generation `g` exists whole under one of its two names, storage and secret each. */
  ghost predicate Undoable(c: Config, h: Fs, id: Id, g: Generation) {
    && PreviousOnly(h, id)
    && StorageUndoable(c, h, id, g)
    && SecretUndoable(c, h, id, g)
  }

  ghost predicate NewLive(h: Fs, id: Id) {
    h.storage == Some(Tree(Restored(id), true)) && h.secret == Some(Restored(id))
  }

  ghost predicate PreviousKept(h: Fs, id: Id) {
    && id in h.prevStorage && h.prevStorage[id].whole && h.prevStorage[id].gen != Restored(id)
    && id in h.prevSecret && h.prevSecret[id] != Restored(id)
  }

  /** The database has not committed restore `id`, and the files can still be rolled back. */
  ghost predicate Open(c: Config, h: Fs, id: Id, db: Db) {
    db.marker.None? && db.gen != Restored(id) && Undoable(c, h, id, db.gen)
  }

  /** The database has committed restore `id`, both files are swapped, the old ones are kept. */
  ghost predicate Shut(h: Fs, id: Id, db: Db) {
    db == Db(Restored(id), Some(id)) && NewLive(h, id) && PreviousKept(h, id)
  }

  ghost predicate Sealed(h: Fs, id: Id, db: Db) {
    && db.gen == Restored(id) && NewLive(h, id)
    && (db.marker.None? || (db.marker == Some(id) && PreviousKept(h, id)))
  }

  /** The coupling between one directory snapshot and the database. */
  ghost predicate Coupled(c: Config, h: Fs, db: Db) {
    match h.journal
    case None => NoPrevious(h) && db.marker.None? && Live(c, h, db.gen)
    case Some(Torn) => false
    case Some(Journal(id, status)) =>
      && PreviousOnly(h, id)
      && match status
         case SwapStarted => Open(c, h, id, db)
         case FilesSwapped => Open(c, h, id, db) || Shut(h, id, db)
         case DatabaseCommitted => Shut(h, id, db)
         case Finalizing => Sealed(h, id, db)
  }

  /** No restore is in flight as far as this snapshot's data is concerned. */
  ghost predicate Settled(c: Config, h: Fs, db: Db) {
    db.marker.None? && NoPrevious(h) && Live(c, h, db.gen)
  }

  ghost predicate Mentions(h: Fs, id: Id) {
    h.journal.Some? && h.journal.value.Journal? && h.journal.value.id == id
  }

  ghost predicate Says(h: Fs, id: Id, status: Status) {
    h.journal == Some(Journal(id, status))
  }

  /** The journal of an uncommitted cutover: absent, or one of the two early records. */
  ghost predicate EarlyJournal(h: Fs, id: Id) {
    h.journal.None? || Says(h, id, SwapStarted) || Says(h, id, FilesSwapped)
  }

  ghost predicate WorkReady(h: Fs, id: Id) {
    && id in h.workStorage && h.workStorage[id] == Tree(Restored(id), true)
    && id in h.workSecret && h.workSecret[id] == Restored(id)
  }

  ghost predicate BothSwapped(h: Fs, id: Id, g: Generation) {
    && NewLive(h, id) && PreviousOnly(h, id)
    && id in h.prevStorage && h.prevStorage[id] == Tree(g, true)
    && id in h.prevSecret && h.prevSecret[id] == g
  }

  ghost predicate SameJournal(h: Fs, k: Fs) {
    && h.journal.Some? && k.journal.Some? && h.journal.value.Journal? && k.journal.value.Journal?
    && h.journal.value.id == k.journal.value.id
  }

  /** A journalled identifier was drawn, and it committed exactly when the database is its own. */
  ghost predicate IdsOk(s: Sys, h: Fs) {
    h.journal.Some? && h.journal.value.Journal? ==>
      var id := h.journal.value.id;
      id in s.used && (id in s.commits <==> s.db.gen == Restored(id))
  }

  /** What holds of every snapshot, whatever the program is doing. */
  ghost predicate SnapshotOk(s: Sys, h: Fs)
    requires s.hist != []
  {
    && Coupled(s.conf, h, s.db)
    && IdsOk(s, h)
    && (Settled(s.conf, h, s.db) || SameJournal(h, Cur(s)))
  }

  ghost predicate HistoryOk(s: Sys)
    requires s.hist != []
  {
    && (forall h :: h in s.hist ==> SnapshotOk(s, h))
    && s.commits <= s.used
    && (s.db.gen.Restored? ==> s.db.gen.id in s.commits)
    && (s.db.marker.Some? ==> s.db.gen == Restored(s.db.marker.value))
  }

  ghost predicate AllSettled(s: Sys) {
    forall h :: h in s.hist ==> Settled(s.conf, h, s.db)
  }

  ghost predicate AllUndoable(s: Sys, id: Id) {
    forall h :: h in s.hist ==> Undoable(s.conf, h, id, s.db.gen)
  }

  ghost predicate AllNewLive(s: Sys, id: Id) {
    forall h :: h in s.hist ==> NewLive(h, id) && PreviousOnly(h, id)
  }

  ghost predicate AllBothSwapped(s: Sys, id: Id) {
    forall h :: h in s.hist ==> BothSwapped(h, id, s.db.gen) && Mentions(h, id)
  }

  ghost predicate AllShut(s: Sys, id: Id) {
    forall h :: h in s.hist ==> Shut(h, id, s.db) && Mentions(h, id)
  }

  /** Where a journal write of record `j` stands. */
  ghost predicate WriteOk(s: Sys, w: WritePc, j: JournalFile)
    requires s.hist != []
  {
    match w
    case CreateTemp => true
    case SyncTemp(t) => t in Cur(s).temps
    case ReplaceJournal(t) => t in Cur(s).temps && Cur(s).temps[t] == j
    case SyncDirectory => Cur(s).journal == Some(j)
  }

  ghost predicate Cutover(s: Sys, id: Id)
    requires s.hist != []
  {
    && s.guard && id in s.used && id !in s.commits
    && s.db.marker.None? && s.db.gen != Restored(id)
  }

  ghost predicate SwapOk(s: Sys, id: Id, pc: SwapPc)
    requires s.hist != []
  {
    var h := Cur(s);
    Cutover(s, id) &&
    match pc
    case OpenData => AllSettled(s) && h.journal.None? && WorkReady(h, id)
    case EnsureStorage => AllSettled(s) && h.journal.None? && WorkReady(h, id)
    case RequireSecret => AllSettled(s) && h.journal.None? && WorkReady(h, id) && h.storage.Some?
    case Announce(w) =>
      && AllSettled(s) && WorkReady(h, id) && h.storage.Some? && h.secret.Some?
      && WriteOk(s, w, Journal(id, SwapStarted))
      && (w.SyncDirectory? || h.journal.None?)
    case MoveStorageAside =>
      && AllSettled(s) && s.hist == [h] && Says(h, id, SwapStarted)
      && WorkReady(h, id) && h.storage.Some? && h.secret.Some?
    case InstallStorage =>
      && AllUndoable(s, id) && Says(h, id, SwapStarted) && WorkReady(h, id)
      && id in h.prevStorage && h.storage.None? && id !in h.prevSecret && h.secret.Some?
    case MoveSecretAside =>
      && AllUndoable(s, id) && Says(h, id, SwapStarted)
      && id in h.workSecret && h.workSecret[id] == Restored(id)
      && id in h.prevStorage && h.storage == Some(Tree(Restored(id), true))
      && id !in h.prevSecret && h.secret.Some?
    case InstallSecret =>
      && AllUndoable(s, id) && Says(h, id, SwapStarted)
      && id in h.workSecret && h.workSecret[id] == Restored(id)
      && id in h.prevStorage && h.storage == Some(Tree(Restored(id), true))
      && id in h.prevSecret && h.secret.None?
    case SyncData =>
      && AllUndoable(s, id) && Says(h, id, SwapStarted) && BothSwapped(h, id, s.db.gen)
    case SyncWork =>
      && Says(h, id, SwapStarted) && AllBothSwapped(s, id)
    case Record(w) =>
      && AllBothSwapped(s, id) && WriteOk(s, w, Journal(id, FilesSwapped))
      && (w.SyncDirectory? || Says(h, id, SwapStarted))
    case Swapped => s.hist == [h] && Says(h, id, FilesSwapped) && AllBothSwapped(s, id)
  }

  ghost predicate UndoOk(s: Sys, id: Id, who: Undoer, pc: UndoPc)
    requires s.hist != []
  {
    var h := Cur(s);
    && id in s.used && id !in s.commits && (who.AtStartup? <==> !s.guard)
    && s.db.marker.None? && s.db.gen != Restored(id)
    && AllUndoable(s, id) && EarlyJournal(h, id)
    && (who.AtStartup? ==> h.journal.Some?)
    && match pc
       case LookStorage => true
       case BreakStorage => id in h.prevStorage
       case DropStorage => id in h.prevStorage
       case ReturnStorage => id in h.prevStorage && h.storage.None?
       case LookSecret => id !in h.prevStorage
       case DropSecret => id !in h.prevStorage && id in h.prevSecret
       case ReturnSecret => id !in h.prevStorage && id in h.prevSecret && h.secret.None?
       case SyncUndo => id !in h.prevStorage && id !in h.prevSecret
  }

  ghost predicate AllUnjournalled(s: Sys) {
    forall h :: h in s.hist ==> h.journal.None?
  }

  ghost predicate ProcOk(s: Sys)
    requires s.hist != []
  {
    var h := Cur(s);
    match s.proc
    case Down => !s.guard
    case Idle(last) =>
      && !s.guard && AllSettled(s) && h.journal.None?
      && (last.Recovered? ==> (last.committed <==> last.id in s.commits)
                              && (last.committed <==> s.db.gen == Restored(last.id)))
      && (last.RolledBackLive? ==> last.undone !in s.commits && s.db.gen != Restored(last.undone) && AllUnjournalled(s))
    case Preparing(id) =>
      !s.guard && AllSettled(s) && h.journal.None? && WorkReady(h, id)
      && id in s.used && id !in s.commits && s.db.gen != Restored(id)
    case Armed(id) => Cutover(s, id) && AllSettled(s) && h.journal.None? && WorkReady(h, id)
    case Swapping(id, pc) => SwapOk(s, id, pc)
    case Undoing(id, who, pc) => UndoOk(s, id, who, pc)
    case Clearing(id, who, pc) =>
      && Cutover(s, id) && AllSettled(s)
      && (if pc.Unlink? then s.hist == [h] && EarlyJournal(h, id) else h.journal.None?)
    case Leaving(id) => Cutover(s, id) && AllSettled(s) && AllUnjournalled(s)
    case Replacing(id) =>
      Cutover(s, id) && s.hist == [h] && Says(h, id, FilesSwapped) && AllBothSwapped(s, id)
    case Checking(id) =>
      && s.guard && s.hist == [h] && Says(h, id, FilesSwapped)
      && ((Cutover(s, id) && AllBothSwapped(s, id)) || AllShut(s, id))
    case Validating(id) => s.guard && AllShut(s, id)
    case Marking(id, w) => s.guard && AllShut(s, id) && WriteOk(s, w, Journal(id, DatabaseCommitted))
    case Awaiting(id) => s.guard && Says(h, id, DatabaseCommitted)
    case Fenced(id) => s.guard
    case ReadingJournal => !s.guard
    case ReadingMarker(id, status) => !s.guard && Says(h, id, status)
    case Revalidating(id, status, marked) =>
      && !s.guard && Says(h, id, status) && s.db.gen == Restored(id)
      && (if marked then s.db.marker == Some(id) else s.db.marker.None? && status == Finalizing)
    case Sealing(id, w) =>
      && !s.guard && s.db == Db(Restored(id), Some(id)) && Mentions(h, id)
      && WriteOk(s, w, Journal(id, Finalizing))
    case DroppingMarker(id) =>
      && !s.guard && s.db == Db(Restored(id), Some(id)) && Says(h, id, Finalizing)
    case Finishing(id, pc) =>
      && !s.guard && s.db == Db(Restored(id), None) && Says(h, id, Finalizing) && AllNewLive(s, id)
      && (pc.DropPreviousSecret? ==> id !in h.prevStorage)
      && (pc.SyncFinish? ==> NoPrevious(h))
    case Sweeping(id, c, pc) =>
      && !s.guard && AllSettled(s) && id in s.used
      && (c <==> s.db.gen == Restored(id)) && (c <==> id in s.commits)
      && (if pc == Clear(SyncUnlink) then h.journal.None? else Mentions(h, id))
      && (!pc.DropWorkStorage? ==> id !in h.workStorage)
      && (pc.SyncSweep? || pc.Clear? ==> id !in h.workSecret)
    case Refused(_) => false
  }

  ghost predicate Inv(s: Sys) {
    s.hist != [] && HistoryOk(s) && ProcOk(s)
  }

  /** The marker is dropped only once no snapshot can bring back an earlier journal record. */
  ghost predicate SealDurable(s: Sys) {
    s.proc.DroppingMarker? ==> forall h :: h in s.hist ==> Says(h, s.proc.id, Finalizing)
  }

  lemma InitKeeps(s: Sys)
    requires Init(s)
    ensures Inv(s)
  {
    forall h | h in s.hist ensures SnapshotOk(s, h) {
      assert h == s.hist[0];
    }
  }

  lemma HistoryPush(s: Sys, h: Fs)
    requires s.hist != [] && HistoryOk(s)
    requires Coupled(s.conf, h, s.db) && IdsOk(s, h)
    requires Settled(s.conf, h, s.db) || SameJournal(h, h)
    requires h.journal == Cur(s).journal || AllSettled(s) || (SameJournal(h, Cur(s)))
    ensures HistoryOk(Push(s, h))
  {
    forall k | k in Push(s, h).hist ensures SnapshotOk(Push(s, h), k) {
      if k in s.hist { assert SnapshotOk(s, k); assert SnapshotOk(s, Cur(s)); }
    }
  }

  lemma HistoryFlush(s: Sys)
    requires s.hist != [] && HistoryOk(s)
    ensures HistoryOk(Flush(s))
    ensures forall h :: h in Flush(s).hist ==> h == Cur(s)
  {
    assert SnapshotOk(s, Cur(s));
  }

  lemma StampedFrom(hist: seq<Fs>, token: nat, j: JournalFile, h: Fs) returns (k: Fs)
    requires h in StampAll(hist, token, j)
    ensures k in hist && h == Stamp(k, token, j)
  {
    var i :| 0 <= i < |hist| && StampAll(hist, token, j)[i] == h;
    k := hist[i];
  }

  /** The phase facts a journal write carries along: they speak of every snapshot. */
  datatype Phase = InSettled | InSwapped | InShut | InRecovery

  ghost predicate HasPhase(s: Sys, h: Fs, phase: Phase, id: Id) {
    match phase
    case InSettled => Settled(s.conf, h, s.db)
    case InSwapped => BothSwapped(h, id, s.db.gen) && Mentions(h, id)
    case InShut => Shut(h, id, s.db) && Mentions(h, id)
    case InRecovery => true
  }

  ghost predicate AllPhase(s: Sys, phase: Phase, id: Id) {
    forall h :: h in s.hist ==> HasPhase(s, h, phase, id)
  }

  ghost predicate WritePre(s: Sys, w: WritePc, id: Id, status: Status, phase: Phase)
    requires s.hist != []
  {
    && HistoryOk(s) && WriteOk(s, w, Journal(id, status)) && AllPhase(s, phase, id)
    && id in s.used && (id in s.commits <==> s.db.gen == Restored(id))
    && (phase.InSettled? || Mentions(Cur(s), id))
    && (w.ReplaceJournal? ==> Coupled(s.conf, Cur(s).(journal := Some(Journal(id, status))), s.db))
  }

  /** What one effect of writing record `id`, `status` leaves true. */
  ghost predicate WritePost(s: Sys, t: Sys, w': Option<WritePc>, id: Id, status: Status, phase: Phase)
    requires s.hist != []
  {
    && t.hist != [] && HistoryOk(t) && AllPhase(t, phase, id)
    && (w'.Some? ==> WriteOk(t, w'.value, Journal(id, status)))
    && (w' == Some(SyncDirectory) || w'.None? || Cur(t).journal == Cur(s).journal)
    && (WorkReady(Cur(s), id) ==> WorkReady(Cur(t), id))
    && Cur(t).storage == Cur(s).storage && Cur(t).secret == Cur(s).secret
    && (w'.None? ==> t.hist == [Cur(t)] && Says(Cur(t), id, status))
  }

  lemma IgnoresTemps(s: Sys, h: Fs, temps: map<nat, JournalFile>, phase: Phase, id: Id)
    ensures Coupled(s.conf, h.(temps := temps), s.db) == Coupled(s.conf, h, s.db)
    ensures Settled(s.conf, h.(temps := temps), s.db) == Settled(s.conf, h, s.db)
    ensures HasPhase(s, h.(temps := temps), phase, id) == HasPhase(s, h, phase, id)
  {
  }

  lemma CreateKeeps(s: Sys, token: nat, id: Id, status: Status, phase: Phase)
    requires s.hist != [] && WritePre(s, CreateTemp, id, status, phase) && FreshToken(s, token)
    ensures var (t, w') := WriteStep(s, CreateTemp, token, Journal(id, status)).value;
            WritePost(s, t, w', id, status, phase)
  {
    var (t, w') := WriteStep(s, CreateTemp, token, Journal(id, status)).value;
    assert SnapshotOk(s, Cur(s));
    IgnoresTemps(s, Cur(s), Cur(t).temps, phase, id);
    HistoryPush(s, Cur(t));
  }

  lemma SyncTempKeeps(s: Sys, k: nat, id: Id, status: Status, phase: Phase)
    requires s.hist != [] && WritePre(s, SyncTemp(k), id, status, phase)
    ensures var (t, w') := WriteStep(s, SyncTemp(k), 0, Journal(id, status)).value;
            WritePost(s, t, w', id, status, phase)
  {
    var j := Journal(id, status);
    var (t, w') := WriteStep(s, SyncTemp(k), 0, j).value;
    assert Cur(t) == Stamp(Cur(s), k, j);
    forall h | h in t.hist ensures SnapshotOk(t, h) && HasPhase(t, h, phase, id) {
      var g := StampedFrom(s.hist, k, j, h);
      assert SnapshotOk(s, g) && HasPhase(s, g, phase, id);
      IgnoresTemps(s, g, h.temps, phase, id);
    }
  }

  lemma ReplaceKeeps(s: Sys, k: nat, id: Id, status: Status, phase: Phase)
    requires s.hist != [] && WritePre(s, ReplaceJournal(k), id, status, phase)
    ensures var (t, w') := WriteStep(s, ReplaceJournal(k), 0, Journal(id, status)).value;
            WritePost(s, t, w', id, status, phase)
  {
    var h := Cur(s).(journal := Some(Journal(id, status)));
    var (t, w') := WriteStep(s, ReplaceJournal(k), 0, Journal(id, status)).value;
    assert HasPhase(s, Cur(s), phase, id) && SnapshotOk(s, Cur(s));
    IgnoresTemps(s, h, Cur(t).temps, phase, id);
    assert Cur(t) == h.(temps := Cur(t).temps);
    if phase.InSettled? { assert AllSettled(s) by { forall g | g in s.hist ensures Settled(s.conf, g, s.db) { assert HasPhase(s, g, phase, id); } } }
    HistoryPush(s, Cur(t));
  }

  /** A journal write keeps the history as long as the record it installs is coupled. */
  lemma WriteKeeps(s: Sys, w: WritePc, token: nat, id: Id, status: Status, phase: Phase)
    requires s.hist != [] && WritePre(s, w, id, status, phase)
    requires WriteStep(s, w, token, Journal(id, status)).Some?
    ensures var (t, w') := WriteStep(s, w, token, Journal(id, status)).value;
            WritePost(s, t, w', id, status, phase)
  {
    match w
    case CreateTemp => CreateKeeps(s, token, id, status, phase);
    case SyncTemp(k) => SyncTempKeeps(s, k, id, status, phase);
    case ReplaceJournal(k) => ReplaceKeeps(s, k, id, status, phase);
    case SyncDirectory => HistoryFlush(s); assert HasPhase(s, Cur(s), phase, id);
  }

  /** A push that keeps the journal and leaves both resources undoable. */
  lemma UndoablePush(s: Sys, id: Id, h: Fs)
    requires s.hist != [] && HistoryOk(s) && AllUndoable(s, id)
    requires h.journal == Cur(s).journal && EarlyJournal(h, id)
    requires h.journal.None? ==> NoPrevious(h) && Live(s.conf, h, s.db.gen)
    requires s.db.marker.None? && s.db.gen != Restored(id) && id in s.used && id !in s.commits
    requires Undoable(s.conf, h, id, s.db.gen)
    ensures HistoryOk(Push(s, h)) && AllUndoable(Push(s, h), id)
  {
    HistoryPush(s, h);
  }

  lemma AnnounceBeginKeeps(s: Sys, id: Id, w: WritePc, token: nat)
    requires Inv(s) && s.proc == Swapping(id, Announce(w)) && SwapStep(s, id, s.proc.swap, token).Some? && (w.CreateTemp? || w.SyncTemp?)
    ensures Inv(SwapStep(s, id, s.proc.swap, token).value)
  {
    assert SnapshotOk(s, Cur(s));
    assert AllPhase(s, InSettled, id);
    WriteKeeps(s, w, token, id, SwapStarted, InSettled);
  }

  lemma AnnounceEndKeeps(s: Sys, id: Id, w: WritePc, token: nat)
    requires Inv(s) && s.proc == Swapping(id, Announce(w)) && SwapStep(s, id, s.proc.swap, token).Some? && (w.ReplaceJournal? || w.SyncDirectory?)
    ensures Inv(SwapStep(s, id, s.proc.swap, token).value)
  {
    assert SnapshotOk(s, Cur(s));
    assert AllPhase(s, InSettled, id);
    WriteKeeps(s, w, token, id, SwapStarted, InSettled);
  }

  lemma AnnounceKeeps(s: Sys, id: Id, w: WritePc, token: nat)
    requires Inv(s) && s.proc == Swapping(id, Announce(w)) && SwapStep(s, id, s.proc.swap, token).Some?
    ensures Inv(SwapStep(s, id, s.proc.swap, token).value)
  {
    if w.CreateTemp? || w.SyncTemp? { AnnounceBeginKeeps(s, id, w, token); } else { AnnounceEndKeeps(s, id, w, token); }
  }

  lemma RecordCreateKeeps(s: Sys, id: Id, token: nat)
    requires Inv(s) && s.proc == Swapping(id, Record(CreateTemp)) && SwapStep(s, id, s.proc.swap, token).Some?
    ensures Inv(SwapStep(s, id, s.proc.swap, token).value)
  {
    assert SnapshotOk(s, Cur(s));
    assert AllPhase(s, InSwapped, id);
    WriteKeeps(s, CreateTemp, token, id, FilesSwapped, InSwapped);
  }

  lemma RecordSyncKeeps(s: Sys, id: Id, w: WritePc, token: nat)
    requires Inv(s) && s.proc == Swapping(id, Record(w)) && SwapStep(s, id, s.proc.swap, token).Some? && w.SyncTemp?
    ensures Inv(SwapStep(s, id, s.proc.swap, token).value)
  {
    assert SnapshotOk(s, Cur(s));
    assert AllPhase(s, InSwapped, id);
    WriteKeeps(s, w, token, id, FilesSwapped, InSwapped);
  }

  lemma RecordEndKeeps(s: Sys, id: Id, w: WritePc, token: nat)
    requires Inv(s) && s.proc == Swapping(id, Record(w)) && SwapStep(s, id, s.proc.swap, token).Some? && (w.ReplaceJournal? || w.SyncDirectory?)
    ensures Inv(SwapStep(s, id, s.proc.swap, token).value)
  {
    assert SnapshotOk(s, Cur(s));
    assert AllPhase(s, InSwapped, id);
    WriteKeeps(s, w, token, id, FilesSwapped, InSwapped);
  }

  lemma RecordKeeps(s: Sys, id: Id, w: WritePc, token: nat)
    requires Inv(s) && s.proc == Swapping(id, Record(w)) && SwapStep(s, id, s.proc.swap, token).Some?
    ensures Inv(SwapStep(s, id, s.proc.swap, token).value)
  {
    if w.CreateTemp? { RecordCreateKeeps(s, id, token); }
    else if w.SyncTemp? { RecordSyncKeeps(s, id, w, token); }
    else { RecordEndKeeps(s, id, w, token); }
  }

  lemma RenameKeeps(s: Sys, id: Id, pc: SwapPc, token: nat)
    requires Inv(s) && s.proc == Swapping(id, pc) && SwapStep(s, id, pc, token).Some?
    requires pc.MoveStorageAside? || pc.InstallStorage? || pc.MoveSecretAside? || pc.InstallSecret?
    ensures Inv(SwapStep(s, id, pc, token).value)
  {
    var t := SwapStep(s, id, pc, token).value;
    assert SnapshotOk(s, Cur(s));
    UndoablePush(s, id, Cur(t));
  }

  lemma SwapBeginKeeps(s: Sys, id: Id, pc: SwapPc, token: nat)
    requires Inv(s) && s.proc == Swapping(id, pc) && (pc.OpenData? || pc.EnsureStorage? || pc.RequireSecret?)
    ensures SwapStep(s, id, pc, token).Some? && Inv(SwapStep(s, id, pc, token).value)
  {
    assert SnapshotOk(s, Cur(s));
    if pc.EnsureStorage? && Cur(s).storage.None? { HistoryPush(s, Cur(SwapStep(s, id, pc, token).value)); }
  }

  lemma SwapSyncKeeps(s: Sys, id: Id, pc: SwapPc, token: nat)
    requires Inv(s) && s.proc == Swapping(id, pc) && (pc.SyncData? || pc.SyncWork? || pc.Swapped?)
    ensures SwapStep(s, id, pc, token).Some? && Inv(SwapStep(s, id, pc, token).value)
  {
    assert SnapshotOk(s, Cur(s));
    if !pc.Swapped? { HistoryFlush(s); }
  }

  lemma SwapKeeps(s: Sys, id: Id, pc: SwapPc, token: nat)
    requires Inv(s) && s.proc == Swapping(id, pc) && SwapStep(s, id, pc, token).Some?
    ensures Inv(SwapStep(s, id, pc, token).value)
  {
    if pc.OpenData? || pc.EnsureStorage? || pc.RequireSecret? { SwapBeginKeeps(s, id, pc, token); }
    else if pc.Announce? { AnnounceKeeps(s, id, pc.w, token); }
    else if pc.Record? { RecordKeeps(s, id, pc.w, token); }
    else if pc.SyncData? || pc.SyncWork? || pc.Swapped? { SwapSyncKeeps(s, id, pc, token); }
    else { RenameKeeps(s, id, pc, token); }
  }

  lemma RemoveStorageKeeps(s: Sys, id: Id, who: Undoer, pc: UndoPc)
    requires Inv(s) && s.proc == Undoing(id, who, pc) && (pc.BreakStorage? || pc.DropStorage?)
    ensures Inv(UndoStep(s, id, who, pc).value)
  {
    var t := UndoStep(s, id, who, pc).value;
    assert SnapshotOk(s, Cur(s));
    if t.hist != s.hist { UndoablePush(s, id, Cur(t)); }
  }

  lemma ReturnStorageKeeps(s: Sys, id: Id, who: Undoer)
    requires Inv(s) && s.proc == Undoing(id, who, ReturnStorage) && UndoStep(s, id, who, ReturnStorage).Some?
    ensures Inv(UndoStep(s, id, who, ReturnStorage).value)
  {
    assert SnapshotOk(s, Cur(s));
    UndoablePush(s, id, Cur(UndoStep(s, id, who, ReturnStorage).value));
  }

  lemma LookKeeps(s: Sys, id: Id, who: Undoer, pc: UndoPc)
    requires Inv(s) && s.proc == Undoing(id, who, pc) && (pc.LookStorage? || pc.LookSecret?)
    ensures Inv(UndoStep(s, id, who, pc).value)
  {
  }

  lemma SyncUndoKeeps(s: Sys, id: Id, who: Undoer)
    requires Inv(s) && s.proc == Undoing(id, who, SyncUndo)
    ensures Inv(UndoStep(s, id, who, SyncUndo).value)
  {
    HistoryFlush(s);
  }

  lemma DropSecretKeeps(s: Sys, id: Id, who: Undoer)
    requires Inv(s) && s.proc == Undoing(id, who, DropSecret)
    ensures Inv(UndoStep(s, id, who, DropSecret).value)
  {
    var t := UndoStep(s, id, who, DropSecret).value;
    assert SnapshotOk(s, Cur(s));
    if t.hist != s.hist { UndoablePush(s, id, Cur(t)); }
  }

  lemma ReturnSecretKeeps(s: Sys, id: Id, who: Undoer)
    requires Inv(s) && s.proc == Undoing(id, who, ReturnSecret) && UndoStep(s, id, who, ReturnSecret).Some?
    ensures Inv(UndoStep(s, id, who, ReturnSecret).value)
  {
    assert SnapshotOk(s, Cur(s));
    UndoablePush(s, id, Cur(UndoStep(s, id, who, ReturnSecret).value));
  }

  lemma UndoKeeps(s: Sys, id: Id, who: Undoer, pc: UndoPc)
    requires Inv(s) && s.proc == Undoing(id, who, pc) && UndoStep(s, id, who, pc).Some?
    ensures Inv(UndoStep(s, id, who, pc).value)
  {
    match pc
    case LookStorage => LookKeeps(s, id, who, pc);
    case LookSecret => LookKeeps(s, id, who, pc);
    case SyncUndo => SyncUndoKeeps(s, id, who);
    case DropSecret => DropSecretKeeps(s, id, who);
    case ReturnSecret => ReturnSecretKeeps(s, id, who);
    case ReturnStorage => ReturnStorageKeeps(s, id, who);
    case _ => RemoveStorageKeeps(s, id, who, pc);
  }

  lemma SettledPush(s: Sys, h: Fs)
    requires s.hist != [] && HistoryOk(s) && AllSettled(s)
    requires Settled(s.conf, h, s.db)
    requires h.journal.None? || h.journal == Cur(s).journal
    ensures HistoryOk(Push(s, h)) && AllSettled(Push(s, h))
  {
    assert SnapshotOk(s, Cur(s));
    HistoryPush(s, h);
  }

  lemma ClearKeeps(s: Sys, token: nat)
    requires Inv(s) && s.proc.Clearing? && NextStep(s, token).Some?
    ensures Inv(NextStep(s, token).value)
  {
    var t := NextStep(s, token).value;
    assert SnapshotOk(s, Cur(s));
    if s.proc.clear.SyncUnlink? { HistoryFlush(s); }
    else if Cur(s).journal.Some? { SettledPush(s, Cur(t)); }
    assert AllSettled(t);
  }

  lemma ServiceKeeps(s: Sys, token: nat)
    requires Inv(s) && NextStep(s, token).Some?
    requires s.proc.Preparing? || s.proc.Armed? || s.proc.Leaving? || s.proc.Checking? || s.proc.Validating?
    ensures Inv(NextStep(s, token).value)
  {
    var t := NextStep(s, token).value;
    assert SnapshotOk(s, Cur(s));
    if s.proc.Leaving? { SettledPush(s, Cur(t)); }
  }

  lemma MarkingKeeps(s: Sys, token: nat)
    requires Inv(s) && s.proc.Marking? && NextStep(s, token).Some?
    ensures Inv(NextStep(s, token).value)
  {
    var id := s.proc.id;
    assert SnapshotOk(s, Cur(s));
    assert Coupled(s.conf, Cur(s).(journal := Some(Journal(id, DatabaseCommitted))), s.db);
    assert AllPhase(s, InShut, id);
    WriteKeeps(s, s.proc.w, token, id, DatabaseCommitted, InShut);
  }

  /** What the journal and the marker together say about every snapshot. */
  lemma MarkerDecides(s: Sys, id: Id)
    requires s.hist != [] && HistoryOk(s) && Mentions(Cur(s), id) && s.db.marker.None?
    ensures s.db.gen != Restored(id) ==> AllUndoable(s, id)
    ensures s.db.gen == Restored(id) ==> AllNewLive(s, id)
  {
    assert SnapshotOk(s, Cur(s));
    forall h | h in s.hist
      ensures s.db.gen != Restored(id) ==> Undoable(s.conf, h, id, s.db.gen)
      ensures s.db.gen == Restored(id) ==> NewLive(h, id) && PreviousOnly(h, id)
    {
      assert SnapshotOk(s, h);
    }
  }

  lemma ReadingMarkerKeeps(s: Sys, token: nat)
    requires Inv(s) && s.proc.ReadingMarker? && NextStep(s, token).Some?
    ensures Inv(NextStep(s, token).value)
  {
    assert SnapshotOk(s, Cur(s));
    if s.db.marker.None? { MarkerDecides(s, s.proc.id); }
  }

  lemma ReadingJournalKeeps(s: Sys, token: nat)
    requires Inv(s) && s.proc.ReadingJournal? && NextStep(s, token).Some?
    ensures Inv(NextStep(s, token).value)
  {
    assert SnapshotOk(s, Cur(s));
  }

  lemma RevalidatingKeeps(s: Sys, token: nat)
    requires Inv(s) && s.proc.Revalidating? && NextStep(s, token).Some?
    ensures Inv(NextStep(s, token).value)
  {
    assert SnapshotOk(s, Cur(s));
    if s.db.marker.None? { MarkerDecides(s, s.proc.id); }
  }

  lemma ReadingKeeps(s: Sys, token: nat)
    requires Inv(s) && NextStep(s, token).Some?
    requires s.proc.ReadingJournal? || s.proc.Revalidating?
    ensures Inv(NextStep(s, token).value)
  {
    if s.proc.Revalidating? { RevalidatingKeeps(s, token); } else { ReadingJournalKeeps(s, token); }
  }

  lemma SealingWrites(s: Sys, token: nat)
    requires Inv(s) && s.proc.Sealing? && WriteStep(s, s.proc.w, token, Journal(s.proc.id, Finalizing)).Some?
    ensures var (t, w) := WriteStep(s, s.proc.w, token, Journal(s.proc.id, Finalizing)).value;
            WritePost(s, t, w, s.proc.id, Finalizing, InRecovery)
  {
    assert SnapshotOk(s, Cur(s));
    assert Coupled(s.conf, Cur(s).(journal := Some(Journal(s.proc.id, Finalizing))), s.db);
    WriteKeeps(s, s.proc.w, token, s.proc.id, Finalizing, InRecovery);
  }

  lemma SealingKeeps(s: Sys, token: nat)
    requires Inv(s) && s.proc.Sealing? && NextStep(s, token).Some?
    ensures Inv(NextStep(s, token).value)
  {
    assert SnapshotOk(s, Cur(s));
    SealingWrites(s, token);
  }

  lemma DropMarkerKeeps(s: Sys, token: nat)
    requires Inv(s) && s.proc.DroppingMarker? && SealDurable(s) && NextStep(s, token).Some?
    ensures Inv(NextStep(s, token).value)
  {
    var t := NextStep(s, token).value;
    forall h | h in t.hist ensures SnapshotOk(t, h) && NewLive(h, s.proc.id) && PreviousOnly(h, s.proc.id) {
      assert SnapshotOk(s, h) && Says(h, s.proc.id, Finalizing);
    }
  }

  lemma SealedPush(s: Sys, id: Id, h: Fs)
    requires s.hist != [] && HistoryOk(s) && AllNewLive(s, id) && s.db == Db(Restored(id), None)
    requires Says(Cur(s), id, Finalizing) && Says(h, id, Finalizing) && NewLive(h, id) && PreviousOnly(h, id)
    ensures HistoryOk(Push(s, h)) && AllNewLive(Push(s, h), id)
  {
    assert SnapshotOk(s, Cur(s));
    HistoryPush(s, h);
  }

  lemma FinishSyncKeeps(s: Sys, token: nat)
    requires Inv(s) && s.proc.Finishing? && s.proc.finish.SyncFinish?
    ensures NextStep(s, token).Some? && Inv(NextStep(s, token).value)
  {
    HistoryFlush(s);
  }

  lemma FinishPushKeeps(s: Sys, token: nat)
    requires Inv(s) && s.proc.Finishing? && !s.proc.finish.SyncFinish?
    ensures NextStep(s, token).Some? && Inv(NextStep(s, token).value)
  {
    var t := NextStep(s, token).value;
    assert SnapshotOk(s, Cur(s));
    if t.hist != s.hist { SealedPush(s, s.proc.id, Cur(t)); }
  }

  lemma FinishKeeps(s: Sys, token: nat)
    requires Inv(s) && s.proc.Finishing?
    ensures NextStep(s, token).Some? && Inv(NextStep(s, token).value)
  {
    if s.proc.finish.SyncFinish? { FinishSyncKeeps(s, token); } else { FinishPushKeeps(s, token); }
  }

  lemma SweepFlushKeeps(s: Sys, token: nat)
    requires Inv(s) && s.proc.Sweeping? && (s.proc.sweep.SyncSweep? || s.proc.sweep == Clear(SyncUnlink))
    ensures NextStep(s, token).Some? && Inv(NextStep(s, token).value)
  {
    HistoryFlush(s);
  }

  lemma SweepPushKeeps(s: Sys, token: nat)
    requires Inv(s) && s.proc.Sweeping? && !s.proc.sweep.SyncSweep? && s.proc.sweep != Clear(SyncUnlink)
    ensures NextStep(s, token).Some? && Inv(NextStep(s, token).value)
  {
    assert SnapshotOk(s, Cur(s));
    SettledPush(s, Cur(NextStep(s, token).value));
  }

  lemma SweepKeeps(s: Sys, token: nat)
    requires Inv(s) && s.proc.Sweeping? && NextStep(s, token).Some?
    ensures Inv(NextStep(s, token).value)
  {
    if s.proc.sweep.SyncSweep? || s.proc.sweep == Clear(SyncUnlink) { SweepFlushKeeps(s, token); }
    else { SweepPushKeeps(s, token); }
  }

  predicate InRecoveryProgram(p: Proc) {
    p.ReadingJournal? || p.ReadingMarker? || p.Revalidating? || p.Sealing? || p.DroppingMarker? || p.Finishing? || p.Sweeping?
  }

  lemma RecoveryKeeps(s: Sys, token: nat)
    requires Inv(s) && SealDurable(s) && InRecoveryProgram(s.proc) && NextStep(s, token).Some?
    ensures Inv(NextStep(s, token).value)
  {
    if s.proc.Sealing? { SealingKeeps(s, token); }
    else if s.proc.DroppingMarker? { DropMarkerKeeps(s, token); }
    else if s.proc.Finishing? { FinishKeeps(s, token); }
    else if s.proc.Sweeping? { SweepKeeps(s, token); }
    else if s.proc.ReadingMarker? { ReadingMarkerKeeps(s, token); }
    else { ReadingKeeps(s, token); }
  }

  lemma NextKeeps(s: Sys, token: nat)
    requires Inv(s) && SealDurable(s) && NextStep(s, token).Some?
    ensures Inv(NextStep(s, token).value)
  {
    if InRecoveryProgram(s.proc) { RecoveryKeeps(s, token); }
    else if s.proc.Swapping? { SwapKeeps(s, s.proc.id, s.proc.swap, token); }
    else if s.proc.Undoing? { UndoKeeps(s, s.proc.id, s.proc.who, s.proc.undo); }
    else if s.proc.Clearing? { ClearKeeps(s, token); }
    else if s.proc.Marking? { MarkingKeeps(s, token); }
    else { ServiceKeeps(s, token); }
  }

  lemma AbandonKeeps(s: Sys, w: WritePc, phase: Phase, id: Id)
    requires s.hist != [] && HistoryOk(s) && AllPhase(s, phase, id)
    ensures var t := AbandonWrite(s, w);
            t.hist != [] && HistoryOk(t) && Cur(t).journal == Cur(s).journal && AllPhase(t, phase, id)
  {
    var t := AbandonWrite(s, w);
    assert SnapshotOk(s, Cur(s)) && HasPhase(s, Cur(s), phase, id);
    IgnoresTemps(s, Cur(s), Cur(t).temps, phase, id);
    if t.hist != s.hist { HistoryPush(s, Cur(t)); }
  }

  lemma RaiseInAnnounceKeeps(s: Sys, w: WritePc)
    requires Inv(s) && s.proc.Swapping? && s.proc.swap == Announce(w)
    ensures Inv(RaiseStep(s).value)
  {
    var t := RaiseStep(s).value;
    assert AllPhase(s, InSettled, s.proc.id);
    AbandonKeeps(s, w, InSettled, s.proc.id);
    assert SnapshotOk(s, Cur(s));
    assert AllPhase(t, InSettled, s.proc.id);
    forall h | h in t.hist ensures Undoable(t.conf, h, s.proc.id, t.db.gen) {
      assert HasPhase(t, h, InSettled, s.proc.id);
    }
  }

  lemma RaiseInRecordKeeps(s: Sys, w: WritePc)
    requires Inv(s) && s.proc.Swapping? && s.proc.swap == Record(w)
    ensures Inv(RaiseStep(s).value)
  {
    var t := RaiseStep(s).value;
    assert AllPhase(s, InSwapped, s.proc.id);
    AbandonKeeps(s, w, InSwapped, s.proc.id);
    assert SnapshotOk(s, Cur(s));
    assert AllPhase(t, InSwapped, s.proc.id);
    forall h | h in t.hist ensures Undoable(t.conf, h, s.proc.id, t.db.gen) {
      assert HasPhase(t, h, InSwapped, s.proc.id);
    }
  }

  lemma RaiseInSwapKeeps(s: Sys)
    requires Inv(s) && s.proc.Swapping? && RaiseStep(s).Some?
    ensures Inv(RaiseStep(s).value)
  {
    match s.proc.swap
    case Announce(w) => RaiseInAnnounceKeeps(s, w);
    case Record(w) => RaiseInRecordKeeps(s, w);
    case _ => assert SnapshotOk(s, Cur(s));
  }

  lemma RaiseBeforeSwapKeeps(s: Sys)
    requires Inv(s) && (s.proc.Preparing? || s.proc.Armed?) && RaiseStep(s).Some?
    ensures Inv(RaiseStep(s).value)
  {
    assert SnapshotOk(s, Cur(s));
    SettledPush(s, Cur(RaiseStep(s).value));
  }

  lemma RaiseInRecordWriteKeeps(s: Sys, w: WritePc)
    requires Inv(s) && ((s.proc.Marking? && s.proc.w == w) || (s.proc.Sealing? && s.proc.w == w))
    ensures Inv(RaiseStep(s).value)
  {
    AbandonKeeps(s, w, InRecovery, s.proc.id);
  }

  /** An error while a rollback runs changes no file. */
  lemma RaiseInRollbackKeeps(s: Sys)
    requires Inv(s) && (s.proc.Undoing? || s.proc.Clearing? || s.proc.Leaving?) && RaiseStep(s).Some?
    ensures Inv(RaiseStep(s).value)
  {
  }

  /** Nor does one at a step that only looks, or in a recovery. */
  lemma RaiseElsewhereKeeps(s: Sys)
    requires Inv(s) && RaiseStep(s).Some? && !s.proc.Preparing? && !s.proc.Armed? && !s.proc.Swapping?
    requires !s.proc.Marking? && !s.proc.Sealing? && !s.proc.Undoing? && !s.proc.Clearing? && !s.proc.Leaving?
    ensures Inv(RaiseStep(s).value)
  {
  }

  lemma RaiseKeeps(s: Sys)
    requires Inv(s) && RaiseStep(s).Some?
    ensures Inv(RaiseStep(s).value)
  {
    if s.proc.Preparing? || s.proc.Armed? { RaiseBeforeSwapKeeps(s); }
    else if s.proc.Swapping? { RaiseInSwapKeeps(s); }
    else if s.proc.Marking? || s.proc.Sealing? { RaiseInRecordWriteKeeps(s, s.proc.w); }
    else if s.proc.Undoing? || s.proc.Clearing? || s.proc.Leaving? { RaiseInRollbackKeeps(s); }
    else { RaiseElsewhereKeeps(s); }
  }

  lemma BeginKeeps(s: Sys, id: Id)
    requires Inv(s) && Step(s, Begin(id)).Some?
    ensures Inv(Step(s, Begin(id)).value)
  {
    var t := Step(s, Begin(id)).value;
    assert SnapshotOk(s, Cur(s));
    if t != s { SettledPush(s, Cur(t)); }
  }

  lemma CrashKeeps(s: Sys, e: Event)
    requires Inv(s) && Step(s, e).Some? && (e.ProcessDies? || e.PowerLoss? || e.Restart?)
    ensures Inv(Step(s, e).value)
  {
    assert SnapshotOk(s, Cur(s));
    if e.PowerLoss? { assert SnapshotOk(s, s.hist[e.keep]); }
  }

  lemma DatabaseKeeps(s: Sys, e: Event)
    requires Inv(s) && Step(s, e).Some? && (e.DbCommits? || e.DbAborts?)
    ensures Inv(Step(s, e).value)
  {
    assert SnapshotOk(s, Cur(s));
    assert forall h :: h in Step(s, e).value.hist ==> h == Cur(s);
  }

  /** Every step keeps the invariant, given that a marker is only dropped over a durable seal. */
  lemma StepKeeps(s: Sys, e: Event)
    requires Inv(s) && Step(s, e).Some?
    requires e.Next? ==> SealDurable(s)
    ensures Inv(Step(s, e).value)
  {
    if e.Next? { NextKeeps(s, e.token); }
    else if e.Raise? { RaiseKeeps(s); }
    else if e.Begin? { BeginKeeps(s, e.id); }
    else if e.DbCommits? || e.DbAborts? { DatabaseKeeps(s, e); }
    else { CrashKeeps(s, e); }
  }
}
