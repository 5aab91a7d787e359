/** Cross-process leases: `flock` on the data directory and on `backups`. */
module Leases {
  import opened Results

  datatype Mode = Shared | Exclusive
  datatype Scope = Global | Backup | Materialization
  datatype Target = Data | Backups

  datatype LeaseError = OperationBusy | InUse | MaterializationBusy | Unsafe

  /** The holders of one advisory lock, by open file description. */
  datatype Lock = Lock(shared: set<nat>, exclusive: Option<nat>)

  const UNLOCKED := Lock({}, None)

  predicate LockOk(l: Lock) { l.exclusive.Some? ==> l.shared == {} }

  predicate Free(l: Lock, mode: Mode) {
    match mode
    case Shared => l.exclusive.None?
    case Exclusive => l.exclusive.None? && l.shared == {}
  }

  function Grant(l: Lock, mode: Mode, holder: nat): Lock {
    match mode
    case Shared => Lock(l.shared + {holder}, l.exclusive)
    case Exclusive => Lock(l.shared, Some(holder))
  }

  function Drop(l: Lock, holder: nat): Lock {
    Lock(l.shared - {holder}, if l.exclusive == Some(holder) then None else l.exclusive)
  }

  predicate Holds(l: Lock, holder: nat) { holder in l.shared || l.exclusive == Some(holder) }

  predicate HeldAs(l: Lock, holder: nat, mode: Mode) {
    match mode case Shared => holder in l.shared case Exclusive => l.exclusive == Some(holder)
  }

  /** A readers-writer lock: it is to be had exactly when it goes together with everything held, and
      only readers go together. */
  ghost predicate Compatible(l: Lock, mode: Mode) {
    forall other: nat, held :: HeldAs(l, other, held) ==> mode.Shared? && held.Shared?
  }

  /** What `l` has and one holder more. */
  ghost predicate Gains(l: Lock, m: Lock, holder: nat, mode: Mode) {
    forall other: nat, held :: HeldAs(m, other, held) <==> HeldAs(l, other, held) || (other == holder && held == mode)
  }

  ghost predicate Loses(l: Lock, m: Lock, holder: nat) {
    forall other: nat, held :: HeldAs(m, other, held) <==> HeldAs(l, other, held) && other != holder
  }

  lemma FreeIsCompatible(l: Lock, mode: Mode)
    requires LockOk(l)
    ensures Free(l, mode) <==> Compatible(l, mode)
  {
    if Compatible(l, mode) {
      if l.exclusive.Some? { assert HeldAs(l, l.exclusive.value, Exclusive); }
      if h :| h in l.shared { assert HeldAs(l, h, Shared); }
    }
  }

  /** The busy error a caller sees depends on what it asked for. */
  function Busy(scope: Scope): LeaseError {
    match scope case Global => OperationBusy case Backup => InUse case Materialization => MaterializationBusy
  }

  /** The kernel's lock table, shared by every process. Descriptors are never reused here. */
  class LockTable {
    var data: Lock
    var backups: Lock
    var nextFd: nat
    /** Whether opening or verifying a directory has ever failed. */
    ghost var faulted: bool

    ghost predicate Valid()
      reads this
    {
      && LockOk(data) && LockOk(backups)
      && forall i: nat :: Holds(data, i) || Holds(backups, i) ==> i < nextFd
    }

    constructor ()
      ensures Valid() && data == UNLOCKED && backups == UNLOCKED && !faulted
    {
      data, backups, nextFd, faulted := UNLOCKED, UNLOCKED, 0, false;
    }

    function At(target: Target): Lock
      reads this
    {
      if target.Data? then data else backups
    }

    method Put(target: Target, l: Lock)
      modifies this`data, this`backups
      ensures At(target) == l && nextFd == old(nextFd)
      ensures if target.Data? then backups == old(backups) else data == old(data)
    {
      if target.Data? { data := l; } else { backups := l; }
    }

    /** Opening a directory again, or verifying that it is still the one. */
    method Answer() returns (ok: bool)
      modifies this`faulted
      ensures faulted == (old(faulted) || !ok)
    {
      ok := *;
      faulted := faulted || !ok;
    }

    /** One nonblocking acquisition. Every failure gives the descriptor and the lock back. */
    method Acquire(scope: Scope, mode: Mode, target: Target) returns (r: Result<Lease, LeaseError>)
      requires Valid()
      modifies this
      ensures Valid() && nextFd >= old(nextFd)
      ensures r.Ok? ==> fresh(r.value) && r.value.table == this && r.value.Valid() && r.value.target == target && !r.value.closed
      ensures r.Ok? ==> old(Compatible(At(target), mode)) && !Holds(old(At(target)), r.value.fd)
                        && Gains(old(At(target)), At(target), r.value.fd, mode)
      ensures r.Err? ==> At(target) == old(At(target))
      ensures if target.Data? then backups == old(backups) else data == old(data)
      ensures r == Err(Unsafe) ==> faulted
      ensures r.Err? && !faulted ==> !old(Compatible(At(target), mode))
      ensures r == Err(OperationBusy) ==> scope.Global?
      ensures r == Err(MaterializationBusy) ==> scope.Materialization?
      ensures r == Err(InUse) ==> scope.Backup?
      ensures old(faulted) ==> faulted
    {
      var opens := Answer();
      if !opens { return Err(Unsafe); }
      var fd, before := nextFd, At(target);
      assert !Holds(before, fd);
      nextFd := nextFd + 1;
      FreeIsCompatible(before, mode);
      if !Free(before, mode) { return Err(Busy(scope)); }
      LockLaws(before, mode, fd);
      Put(target, Grant(before, mode, fd));
      var verified := Answer();
      if !verified {
        Put(target, Drop(At(target), fd));
        return Err(Unsafe);
      }
      var lease := new Lease(this, target, fd);
      return Ok(lease);
    }
  }

  /** One held lease; closing it twice does nothing. */
  class Lease {
    const table: LockTable
    const target: Target
    const fd: nat
    var closed: bool

    ghost predicate Valid()
      reads this, table
    {
      table.Valid() && fd < table.nextFd && (!closed <==> Holds(table.At(target), fd))
    }

    constructor (table: LockTable, target: Target, fd: nat)
      requires table.Valid() && fd < table.nextFd && Holds(table.At(target), fd)
      ensures Valid() && this.table == table && this.target == target && this.fd == fd && !closed
    {
      this.table, this.target, this.fd, closed := table, target, fd, false;
    }

    method Close()
      requires Valid()
      modifies this, table
      ensures Valid() && closed
      ensures if old(closed) then table.At(target) == old(table.At(target)) else Loses(old(table.At(target)), table.At(target), fd)
      ensures if target.Data? then table.backups == old(table.backups) else table.data == old(table.data)
    {
      if closed { return; }
      closed := true;
      DropLaws(table.At(target), fd);
      table.Put(target, Drop(table.At(target), fd));
    }
  }

  /** Taking and dropping keep the lock a readers-writer lock, and dropping undoes taking. */
  lemma LockLaws(l: Lock, mode: Mode, holder: nat)
    requires LockOk(l) && Free(l, mode) && !Holds(l, holder)
    ensures LockOk(Grant(l, mode, holder)) && Holds(Grant(l, mode, holder), holder) && Gains(l, Grant(l, mode, holder), holder, mode)
    ensures Drop(Grant(l, mode, holder), holder) == l
    ensures forall other: nat :: other != holder ==> (Holds(Grant(l, mode, holder), other) <==> Holds(l, other))
    ensures mode.Exclusive? ==> forall other: nat, m :: other != holder ==> !Holds(Grant(l, mode, holder), other) && !Free(Grant(l, mode, holder), m)
  {
  }

  lemma DropLaws(l: Lock, holder: nat)
    requires LockOk(l)
    ensures LockOk(Drop(l, holder)) && !Holds(Drop(l, holder), holder) && Loses(l, Drop(l, holder), holder)
    ensures forall other: nat :: other != holder ==> (Holds(Drop(l, holder), other) <==> Holds(l, other))
  {
  }
}
