/** The guard that keeps a cutover fenced: closing it releases everything once, in order. */
module CutoverGuard {

  datatype Resource = Barrier | Cleanup(i: nat)

  function Reversed(cleanups: seq<nat>): (r: seq<Resource>) {
    if cleanups == [] then []
    else [Cleanup(cleanups[|cleanups| - 1])] + Reversed(cleanups[..|cleanups| - 1])
  }

  /** Last in, first out: every cleanup once, the newest first. */
  lemma {:induction false} ReversedIsLastInFirstOut(cleanups: seq<nat>)
    ensures |Reversed(cleanups)| == |cleanups|
    ensures forall k :: 0 <= k < |cleanups| ==> Reversed(cleanups)[k] == Cleanup(cleanups[|cleanups| - 1 - k])
  {
    if cleanups != [] { ReversedIsLastInFirstOut(cleanups[..|cleanups| - 1]); }
  }

  class BackupCutoverGuard {
    var closed: bool
    var cleanups: seq<nat>
    /** What has been released so far, in order. */
    ghost var released: seq<Resource>

    /** The restart reservation is the first entry of the cleanup stack. */
    constructor (reservation: nat)
      ensures !closed && cleanups == [reservation] && released == []
    {
      closed, cleanups, released := false, [reservation], [];
    }

    /** Hands a lease context over to the guard, which then closes it last-in first-out. */
    method RetainOperationContext(context: nat) returns (ok: bool)
      modifies this`cleanups
      ensures ok == !closed
      ensures cleanups == if ok then old(cleanups) + [context] else old(cleanups)
    {
      if closed { return false; }
      cleanups := cleanups + [context];
      return true;
    }

    /** Releasing one resource may raise; it counts as released either way. */
    method Release(resource: Resource) returns (raised: bool)
      modifies this`released
      ensures released == old(released) + [resource]
    {
      released := released + [resource];
      raised := *;
    }

    /** The barrier goes first, then every cleanup, whatever raises on the way; a second call does nothing. */
    method Close() returns (raised: bool)
      modifies this
      ensures closed
      ensures old(closed) ==> !raised && released == old(released) && cleanups == old(cleanups)
      ensures !old(closed) ==> released == old(released) + [Barrier] + Reversed(old(cleanups)) && cleanups == []
    {
      if closed { return false; }
      closed := true;
      raised := Release(Barrier);
      ghost var stack := cleanups;
      ghost var before := released;
      assert stack[..|stack|] == stack;
      while cleanups != []
        invariant closed && |cleanups| <= |stack| && cleanups == stack[..|cleanups|]
        invariant released + Reversed(cleanups) == before + Reversed(stack)
        decreases |cleanups|
      {
        var n := |cleanups| - 1;
        var failed := Release(Cleanup(cleanups[n]));
        assert released + Reversed(cleanups[..n]) == before + Reversed(stack);
        raised := raised || failed;
        cleanups := cleanups[..n];
      }
    }
  }
}
