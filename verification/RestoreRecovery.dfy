/** Start-up recovery: it never sticks, it ends in a state that its starting snapshot already
    determines, and interrupting it does not change that state. */
module RestoreRecovery {
  import opened Results
  import opened RestoreMachine
  import opened RestoreInvariant

  /** Old files put back, workspace and journal gone; stray temporary files are not compared. */
  function Undone(h: Fs, id: Id): Fs {
    h.(storage := if id in h.prevStorage then Some(h.prevStorage[id]) else h.storage,
       secret := if id in h.prevSecret then Some(h.prevSecret[id]) else h.secret,
       prevStorage := h.prevStorage - {id}, prevSecret := h.prevSecret - {id},
       workStorage := h.workStorage - {id}, workSecret := h.workSecret - {id},
       journal := None, temps := map[])
  }

  /** New files kept, old files, workspace and journal gone. */
  function Cleaned(h: Fs, id: Id): Fs {
    h.(prevStorage := h.prevStorage - {id}, prevSecret := h.prevSecret - {id},
       workStorage := h.workStorage - {id}, workSecret := h.workSecret - {id},
       journal := None, temps := map[])
  }

  /** The files and the database an uninterrupted recovery ends with. */
  function Outcome(h: Fs, db: Db): (Fs, Db) {
    match h.journal
    case Some(Journal(id, status)) =>
      if db.marker == Some(id) || status == Finalizing then (Cleaned(h, id), db.(marker := None))
      else (Undone(h, id), db)
    case _ => (h.(temps := map[]), db)
  }

  /** A snapshot recovery can start from. */
  ghost predicate Startable(h: Fs, db: Db) {
    match h.journal
    case None => db.marker.None?
    case Some(Torn) => false
    case Some(Journal(id, status)) =>
      && (db.marker.None? || db.marker == Some(id))
      && (db.marker.Some? || status == Finalizing ==> h.storage.Some? && h.secret.Some?)
  }

  predicate Recovering(p: Proc) {
    p.ReadingJournal? || p.ReadingMarker? || p.Revalidating? || p.Sealing? || p.DroppingMarker?
    || p.Finishing? || p.Sweeping? || (p.Undoing? && p.who.AtStartup?)
  }

  /** Where a recovery stands, as far as the files it sees are concerned. */
  ghost predicate OnTrack(s: Sys)
    requires s.hist != []
  {
    var h := Cur(s);
    match s.proc
    case ReadingJournal => Startable(h, s.db)
    case ReadingMarker(id, status) => Says(h, id, status) && Startable(h, s.db)
    case Revalidating(id, status, marked) =>
      && Says(h, id, status) && h.storage.Some? && h.secret.Some?
      && (if marked then s.db.marker == Some(id) else s.db.marker.None? && status == Finalizing)
    case Sealing(id, w) => s.db.marker == Some(id) && Mentions(h, id) && WriteOk(s, w, Journal(id, Finalizing))
    case DroppingMarker(id) => s.db.marker == Some(id) && Says(h, id, Finalizing)
    case Finishing(id, pc) =>
      && s.db.marker.None? && Says(h, id, Finalizing)
      && (pc.DropPreviousSecret? || pc.SyncFinish? ==> id !in h.prevStorage)
      && (pc.SyncFinish? ==> id !in h.prevSecret)
    case Undoing(id, who, pc) =>
      && s.db.marker.None? && Mentions(h, id) && h.journal.value.status != Finalizing
      && (match pc
          case LookStorage => true
          case BreakStorage => id in h.prevStorage
          case DropStorage => id in h.prevStorage
          case ReturnStorage => id in h.prevStorage
          case LookSecret => id !in h.prevStorage
          case DropSecret => id !in h.prevStorage && id in h.prevSecret
          case ReturnSecret => id !in h.prevStorage && id in h.prevSecret
          case SyncUndo => id !in h.prevStorage && id !in h.prevSecret)
    case Sweeping(id, c, pc) =>
      && s.db.marker.None? && id !in h.prevStorage && id !in h.prevSecret
      && (if pc == Clear(SyncUnlink) then h.journal.None? else Mentions(h, id))
      && (!pc.DropWorkStorage? ==> id !in h.workStorage)
      && (pc.SyncSweep? || pc.Clear? ==> id !in h.workSecret)
    case _ => false
  }

  /** Steps left: every successful recovery step takes this down. */
  function Remaining(p: Proc): nat {
    match p
    case ReadingJournal => 30
    case ReadingMarker(_, _) => 29
    case Revalidating(_, _, _) => 28
    case Sealing(_, w) => (match w case CreateTemp => 27 case SyncTemp(_) => 26 case ReplaceJournal(_) => 25 case SyncDirectory => 24)
    case DroppingMarker(_) => 23
    case Finishing(_, pc) => (match pc case BreakPrevious => 22 case DropPrevious => 21 case DropPreviousSecret => 20 case SyncFinish => 19)
    case Undoing(_, _, pc) =>
      (match pc case LookStorage => 18 case BreakStorage => 17 case DropStorage => 16 case ReturnStorage => 15
                case LookSecret => 14 case DropSecret => 13 case ReturnSecret => 12 case SyncUndo => 11)
    case Sweeping(_, _, pc) =>
      (match pc case DropWorkStorage => 10 case DropWorkSecret => 9 case SyncSweep => 8 case Clear(Unlink) => 7 case Clear(SyncUnlink) => 6)
    case _ => 0
  }

  lemma FreshTokenExists(hist: seq<Fs>) returns (token: nat)
    ensures forall h, k :: h in hist && k in h.temps ==> k < token
  {
    if hist == [] { token := 0; }
    else {
      var rest := FreshTokenExists(hist[1..]);
      var own := Above(hist[0].temps.Keys);
      token := if rest < own then own else rest;
      forall h, k | h in hist && k in h.temps ensures k < token {
        if h != hist[0] { assert h in hist[1..]; }
      }
    }
  }

  lemma Above(keys: set<nat>) returns (bound: nat)
    ensures forall k :: k in keys ==> k < bound
  {
    if keys == {} { bound := 0; }
    else {
      var k :| k in keys;
      var rest := Above(keys - {k});
      bound := if rest <= k then k + 1 else rest;
      forall j | j in keys ensures j < bound {
        if j != k { assert j in keys - {k}; }
      }
    }
  }

  /** What a successful recovery step is to keep. */
  ghost predicate Advanced(s: Sys, t: Sys)
    requires s.hist != []
  {
    && t.hist != [] && Outcome(Cur(t), t.db) == Outcome(Cur(s), s.db)
    && (if t.proc.Idle? then Cur(t).journal.None? && t.db.marker.None?
        else Recovering(t.proc) && OnTrack(t) && Remaining(t.proc) < Remaining(s.proc))
  }

  lemma AdvanceReading(s: Sys, token: nat)
    requires s.hist != [] && (s.proc.ReadingJournal? || s.proc.ReadingMarker?) && OnTrack(s)
    ensures Step(s, Next(token)).Some? && Advanced(s, Step(s, Next(token)).value)
  {
  }

  lemma AdvanceChecking(s: Sys, token: nat)
    requires s.hist != [] && (s.proc.Revalidating? || s.proc.DroppingMarker?) && OnTrack(s)
    ensures Step(s, Next(token)).Some? && Advanced(s, Step(s, Next(token)).value)
  {
  }

  /** One successful recovery step: enabled, closer to the end, same outcome. */
  lemma Advance(s: Sys, token: nat)
    requires s.hist != [] && Recovering(s.proc) && OnTrack(s) && FreshToken(s, token)
    ensures Step(s, Next(token)).Some?
    ensures var t := Step(s, Next(token)).value;
            && t.hist != []
            && Outcome(Cur(t), t.db) == Outcome(Cur(s), s.db)
            && (t.proc.Idle? || (Recovering(t.proc) && OnTrack(t) && Remaining(t.proc) < Remaining(s.proc)))
            && (t.proc.Idle? ==> Cur(t).journal.None? && t.db.marker.None?)
  {
    if s.proc.Sealing? { AdvanceSeal(s, token); }
    else if s.proc.Finishing? { AdvanceFinish(s, token); }
    else if s.proc.Sweeping? { AdvanceSweep(s, token); }
    else if s.proc.Undoing? { AdvanceUndo(s, token); }
    else if s.proc.ReadingJournal? || s.proc.ReadingMarker? { AdvanceReading(s, token); }
    else { AdvanceChecking(s, token); }
  }

  lemma AdvanceSeal(s: Sys, token: nat)
    requires s.hist != [] && s.proc.Sealing? && OnTrack(s) && FreshToken(s, token)
    ensures Step(s, Next(token)).Some?
    ensures var t := Step(s, Next(token)).value;
            t.hist != [] && Outcome(Cur(t), t.db) == Outcome(Cur(s), s.db)
            && Recovering(t.proc) && OnTrack(t) && Remaining(t.proc) < Remaining(s.proc)
  {
    if s.proc.w.SyncTemp? {
      assert Cur(Step(s, Next(token)).value) == Stamp(Cur(s), s.proc.w.token, Journal(s.proc.id, Finalizing));
    }
  }

  lemma AdvanceFinish(s: Sys, token: nat)
    requires s.hist != [] && s.proc.Finishing? && OnTrack(s)
    ensures Step(s, Next(token)).Some? && Advanced(s, Step(s, Next(token)).value)
  {
    match s.proc.finish
    case BreakPrevious => AdvanceBreak(s, token);
    case DropPrevious => AdvanceDrop(s, token);
    case DropPreviousSecret => AdvanceDrop(s, token);
    case SyncFinish =>
  }

  lemma AdvanceBreak(s: Sys, token: nat)
    requires s.hist != [] && s.proc.Finishing? && s.proc.finish.BreakPrevious? && OnTrack(s)
    ensures Step(s, Next(token)).Some? && Advanced(s, Step(s, Next(token)).value)
  {
    var h, id := Cur(s), s.proc.id;
    if id in h.prevStorage {
      var trees := h.prevStorage[id := h.prevStorage[id].(whole := false)];
      assert trees - {id} == h.prevStorage - {id};
      assert Cur(Step(s, Next(token)).value) == h.(prevStorage := trees);
    }
  }

  lemma AdvanceDrop(s: Sys, token: nat)
    requires s.hist != [] && s.proc.Finishing? && (s.proc.finish.DropPrevious? || s.proc.finish.DropPreviousSecret?)
    requires OnTrack(s)
    ensures Step(s, Next(token)).Some? && Advanced(s, Step(s, Next(token)).value)
  {
    var h, id := Cur(s), s.proc.id;
    assert h.prevStorage - {id} - {id} == h.prevStorage - {id};
    assert h.prevSecret - {id} - {id} == h.prevSecret - {id};
  }

  lemma AdvanceSweepWork(s: Sys, token: nat)
    requires s.hist != [] && s.proc.Sweeping? && !s.proc.sweep.Clear? && OnTrack(s)
    ensures Step(s, Next(token)).Some?
    ensures var t := Step(s, Next(token)).value;
            t.hist != [] && Outcome(Cur(t), t.db) == Outcome(Cur(s), s.db)
            && Recovering(t.proc) && OnTrack(t) && Remaining(t.proc) < Remaining(s.proc)
  {
    var h, id := Cur(s), s.proc.id;
    var k := Cur(Step(s, Next(token)).value);
    assert k.workStorage - {id} == h.workStorage - {id} && k.workSecret - {id} == h.workSecret - {id};
    assert h.prevStorage - {id} == h.prevStorage && h.prevSecret - {id} == h.prevSecret;
  }

  lemma AdvanceSweep(s: Sys, token: nat)
    requires s.hist != [] && s.proc.Sweeping? && OnTrack(s)
    ensures Step(s, Next(token)).Some?
    ensures var t := Step(s, Next(token)).value;
            t.hist != [] && Outcome(Cur(t), t.db) == Outcome(Cur(s), s.db)
            && (t.proc.Idle? || (Recovering(t.proc) && OnTrack(t) && Remaining(t.proc) < Remaining(s.proc)))
            && (t.proc.Idle? ==> Cur(t).journal.None? && t.db.marker.None?)
  {
    if !s.proc.sweep.Clear? {
      AdvanceSweepWork(s, token);
    } else {
      var h, id := Cur(s), s.proc.id;
      assert id !in h.workStorage ==> h.workStorage - {id} == h.workStorage;
      assert id !in h.workSecret ==> h.workSecret - {id} == h.workSecret;
      assert h.prevStorage - {id} == h.prevStorage && h.prevSecret - {id} == h.prevSecret;
    }
  }

  lemma AdvanceUndoStorage(s: Sys, token: nat)
    requires s.hist != [] && s.proc.Undoing? && s.proc.who.AtStartup? && OnTrack(s)
    requires s.proc.undo.LookStorage? || s.proc.undo.BreakStorage? || s.proc.undo.DropStorage? || s.proc.undo.ReturnStorage?
    ensures Step(s, Next(token)).Some?
    ensures var t := Step(s, Next(token)).value;
            t.hist != [] && Outcome(Cur(t), t.db) == Outcome(Cur(s), s.db)
            && Recovering(t.proc) && OnTrack(t) && Remaining(t.proc) < Remaining(s.proc)
  {
    var h, id := Cur(s), s.proc.id;
    var k := Cur(Step(s, Next(token)).value);
    assert k.prevStorage - {id} == h.prevStorage - {id};
  }

  lemma AdvanceUndo(s: Sys, token: nat)
    requires s.hist != [] && s.proc.Undoing? && s.proc.who.AtStartup? && OnTrack(s)
    ensures Step(s, Next(token)).Some?
    ensures var t := Step(s, Next(token)).value;
            t.hist != [] && Outcome(Cur(t), t.db) == Outcome(Cur(s), s.db)
            && Recovering(t.proc) && OnTrack(t) && Remaining(t.proc) < Remaining(s.proc)
  {
    var pc := s.proc.undo;
    if pc.LookStorage? || pc.BreakStorage? || pc.DropStorage? || pc.ReturnStorage? {
      AdvanceUndoStorage(s, token);
    } else {
      var h, id := Cur(s), s.proc.id;
      var k := Cur(Step(s, Next(token)).value);
      assert k.prevSecret - {id} == h.prevSecret - {id};
    }
  }

  /** Left alone, a recovery reaches a serving process in the state its start determines. */
  lemma {:induction false} Completes(s: Sys) returns (es: seq<Event>, t: Sys)
    requires s.hist != [] && Recovering(s.proc) && OnTrack(s)
    ensures forall e :: e in es ==> e.Next?
    ensures |es| <= Remaining(s.proc) + 1
    ensures Run(s, es) == Some(t) && t.proc.Idle? && t.hist != []
    ensures (Cur(t).(temps := map[]), t.db) == Outcome(Cur(s), s.db)
    decreases Remaining(s.proc)
  {
    var token := FreshTokenExists(s.hist);
    Advance(s, token);
    var u := Step(s, Next(token)).value;
    if u.proc.Idle? {
      es, t := [Next(token)], u;
      assert Run(u, []) == Some(u);
    } else {
      var rest;
      rest, t := Completes(u);
      es := [Next(token)] + rest;
      assert es[1..] == rest;
    }
  }

  lemma InvIsOnTrack(s: Sys)
    requires Inv(s) && Recovering(s.proc)
    ensures OnTrack(s)
  {
    assert SnapshotOk(s, Cur(s));
  }
}
