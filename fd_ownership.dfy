/**
 * The reactor's per-descriptor ownership table (`master_fds`): one slot per
 * file descriptor, each holding a spin-lock, the thread recorded as its
 * executor, and the event registered on the descriptor.
 *
 * The calling thread (`pthread_self()` in the C code) is an explicit
 * parameter, so the reentrant lock becomes a sequential state machine.
 * Waiting on a lock held by another thread is modelled as that holder's
 * release taking effect before the caller's spin-lock succeeds.
 */
module FdOwnership {
  import opened Wrappers

  /** A thread identifier (`pthread_t`); a zeroed executor field is `None`. */
  type ThreadId = nat

  /** A registered event, known here only by the identity of its `eventer_t` pointer. */
  datatype Event = Event(handle: nat)

  /** `ev_lock_state_t`: what an acquire tells the matching release. */
  datatype LockState = Owned | AlreadyOwned

  /** One entry of `master_fds`: the spin-lock, the recorded executor and the event (NULL is `None`). */
  datatype Slot = Slot(locked: bool, executor: Option<ThreadId>, e: Option<Event>)

  /** The table's invariant per slot: an executor is recorded exactly while the lock is held. */
  predicate Consistent(s: Slot) {
    s.locked <==> s.executor.Some?
  }

  /** The slot is locked and `t` is its recorded executor. */
  predicate HeldBy(s: Slot, t: ThreadId) {
    s.locked && s.executor == Some(t)
  }

  /**
   * `acquire_master_fd`: the lock state handed back and the slot afterwards.
   * Whatever the branch, the caller ends as the recorded holder; the answer is
   * ALREADY_OWNED exactly when the caller held the slot already, and then nothing
   * changes. A slot held by another thread is taken over only after that
   * holder's release (the spin in `ck_spinlock_lock`).
   */
  function Acquire(s: Slot, self: ThreadId): (r: (LockState, Slot))
    ensures HeldBy(r.1, self) && Consistent(r.1) && r.1.e == s.e
    ensures r.0 == AlreadyOwned <==> HeldBy(s, self)
    ensures r.0 == AlreadyOwned ==> r.1 == s
    ensures s.locked && !HeldBy(s, self) ==> r.0 == Owned
  {
    if !s.locked then
      (Owned, s.(locked := true, executor := Some(self)))
    else if s.executor == Some(self) then
      (AlreadyOwned, s)
    else
      (Owned, Release(s, Owned).(locked := true, executor := Some(self)))
  }

  /**
   * `release_master_fd`: an OWNED release zeroes the executor and unlocks;
   * an ALREADY_OWNED release leaves the slot as it is, so a nested release
   * never unlocks a slot an outer frame still holds.
   */
  function Release(s: Slot, ls: LockState): (r: Slot)
    ensures ls == Owned ==> !r.locked && r.executor == None && Consistent(r)
    ensures ls == AlreadyOwned ==> r == s
    ensures r.e == s.e
  {
    match ls
    case Owned => s.(executor := None, locked := false)
    case AlreadyOwned => s
  }

  /**
   * One acquire immediately followed by the matching release, as the table walk
   * does for every slot. A slot the caller held, or a free slot, comes back
   * unchanged; a slot held by another thread comes back free, because the
   * caller could only take it once that holder had released it.
   */
  function AcquireRelease(s: Slot, self: ThreadId): (r: Slot)
    ensures HeldBy(s, self) ==> r == s
    ensures Consistent(s) && !s.locked ==> r == s
    ensures !HeldBy(s, self) ==> r == Slot(false, None, s.e)
  {
    var (ls, held) := Acquire(s, self);
    Release(held, ls)
  }

  /** `depth` acquire/release pairs by `t`, each nested inside the previous one. */
  function Nested(s: Slot, t: ThreadId, depth: nat): (r: Slot)
    ensures r.e == s.e
    decreases depth
  {
    if depth == 0 then s
    else
      var (ls, held) := Acquire(s, t);
      Release(Nested(held, t, depth - 1), ls)
  }

  /**
   * Properly nested acquires and releases by one thread leave its slot exactly
   * as it was: the outermost pair on a free slot returns it to free, and every
   * inner pair (ALREADY_OWNED) leaves the lock with the outer frame.
   */
  lemma {:induction false} NestedRestores(s: Slot, t: ThreadId, depth: nat)
    requires Consistent(s)
    requires !s.locked || HeldBy(s, t)
    ensures Nested(s, t, depth) == s
    decreases depth
  {
    if depth > 0 {
      var held := Acquire(s, t).1;
      NestedRestores(held, t, depth - 1);
    }
  }

  /**
   * Re-acquiring from inside a callback that already holds the slot does not
   * block: it answers ALREADY_OWNED and changes nothing.
   */
  lemma ReacquireIsReentrant(s: Slot, t: ThreadId)
    ensures Acquire(Acquire(s, t).1, t) == (AlreadyOwned, Acquire(s, t).1)
  {
  }

  /**
   * One call of the walk's callback `f`: the descriptor, the event passed to
   * it, and the descriptor's slot as it stands while `f` runs.
   */
  datatype Call = Call(fd: nat, e: Event, held: Slot)

  /**
   * The calls thread `self` makes walking `slots`: one per slot holding an
   * event, in descriptor order, each made with the slot as `Acquire` left it.
   */
  function Visits(slots: seq<Slot>, self: ThreadId): (calls: seq<Call>)
    ensures |calls| <= |slots|
  {
    if |slots| == 0 then []
    else
      var last := |slots| - 1;
      Visits(slots[..last], self)
        + (if slots[last].e.Some? then [Call(last, slots[last].e.value, Acquire(slots[last], self).1)] else [])
  }

  /**
   * Every call names a descriptor of the table and the event registered there,
   * is made while `self` holds that descriptor's slot, and the calls come in
   * strictly ascending descriptor order.
   */
  lemma {:induction false} VisitsInOrder(slots: seq<Slot>, self: ThreadId)
    ensures forall k :: 0 <= k < |Visits(slots, self)| ==>
      Visits(slots, self)[k].fd < |slots| && slots[Visits(slots, self)[k].fd].e == Some(Visits(slots, self)[k].e)
    ensures forall k :: 0 <= k < |Visits(slots, self)| ==> HeldBy(Visits(slots, self)[k].held, self)
    ensures forall i, j :: 0 <= i < j < |Visits(slots, self)| ==> Visits(slots, self)[i].fd < Visits(slots, self)[j].fd
  {
    if |slots| > 0 {
      var last := |slots| - 1;
      var prefix := slots[..last];
      VisitsInOrder(prefix, self);
      assert forall k :: 0 <= k < |Visits(prefix, self)| ==> Visits(prefix, self)[k].fd < last;
    }
  }

  /** Every descriptor whose slot holds an event is visited with that event, holding the slot. */
  lemma {:induction false} VisitsComplete(slots: seq<Slot>, self: ThreadId)
    ensures forall fd :: 0 <= fd < |slots| && slots[fd].e.Some? ==>
      Call(fd, slots[fd].e.value, Acquire(slots[fd], self).1) in Visits(slots, self)
  {
    if |slots| > 0 {
      var last := |slots| - 1;
      var prefix := slots[..last];
      VisitsComplete(prefix, self);
      forall fd | 0 <= fd < |slots| && slots[fd].e.Some?
        ensures Call(fd, slots[fd].e.value, Acquire(slots[fd], self).1) in Visits(slots, self)
      {
        if fd < last {
          assert prefix[fd] == slots[fd];
        }
      }
    }
  }

  /** The global `master_fds` table, sized once from `maxfds` and never resized. */
  class FdTable {
    const masterFds: array<Slot>

    ghost predicate Valid()
      reads masterFds
    {
      forall fd :: 0 <= fd < masterFds.Length ==> Consistent(masterFds[fd])
    }

    /** A table of `maxfds` free slots with no events registered. */
    constructor (maxfds: nat)
      ensures Valid() && fresh(masterFds) && masterFds.Length == maxfds
      ensures forall fd :: 0 <= fd < maxfds ==> masterFds[fd] == Slot(false, None, None)
    {
      masterFds := new Slot[maxfds](_ => Slot(false, None, None));
    }

    /** `acquire_master_fd(fd)` called by thread `self`; only slot `fd` changes. */
    method AcquireMasterFd(fd: nat, self: ThreadId) returns (ls: LockState)
      requires fd < masterFds.Length
      requires Valid()
      modifies masterFds
      ensures Valid()
      ensures (ls, masterFds[fd]) == Acquire(old(masterFds[fd]), self)
      ensures forall i :: 0 <= i < masterFds.Length && i != fd ==> masterFds[i] == old(masterFds[i])
    {
      if !masterFds[fd].locked {
        // ck_spinlock_trylock succeeded
        masterFds[fd] := masterFds[fd].(locked := true);
        masterFds[fd] := masterFds[fd].(executor := Some(self));
        return Owned;
      }
      if masterFds[fd].executor == Some(self) {
        return AlreadyOwned;
      }
      // ck_spinlock_lock spins until the holder's release has zeroed the executor and unlocked
      masterFds[fd] := Release(masterFds[fd], Owned);
      masterFds[fd] := masterFds[fd].(locked := true);
      masterFds[fd] := masterFds[fd].(executor := Some(self));
      return Owned;
    }

    /** `release_master_fd(fd, ls)`; only slot `fd` changes. */
    method ReleaseMasterFd(fd: nat, ls: LockState)
      requires fd < masterFds.Length
      requires Valid()
      modifies masterFds
      ensures Valid()
      ensures masterFds[fd] == Release(old(masterFds[fd]), ls)
      ensures forall i :: 0 <= i < masterFds.Length && i != fd ==> masterFds[i] == old(masterFds[i])
    {
      if ls == Owned {
        masterFds[fd] := masterFds[fd].(executor := None);
        masterFds[fd] := masterFds[fd].(locked := false);
      }
    }

    /**
     * `LOCAL_EVENTER_foreach_fdevent(f, closure)` run by thread `self`: visits
     * descriptors 0 .. maxfds-1 in order, calling `f` (recorded in `calls`)
     * exactly for the slots holding an event while holding that slot, and
     * releases each slot with the lock state its acquire returned.
     */
    method ForeachFdevent(self: ThreadId) returns (calls: seq<Call>)
      requires Valid()
      modifies masterFds
      ensures Valid()
      ensures calls == Visits(old(masterFds[..]), self)
      ensures forall i, j :: 0 <= i < j < |calls| ==> calls[i].fd < calls[j].fd
      ensures forall k :: 0 <= k < |calls| ==> calls[k].fd < masterFds.Length && old(masterFds[calls[k].fd]).e == Some(calls[k].e)
      ensures forall k :: 0 <= k < |calls| ==> HeldBy(calls[k].held, self)
      ensures forall fd :: 0 <= fd < masterFds.Length && old(masterFds[fd]).e.Some? ==>
        Call(fd, old(masterFds[fd]).e.value, Acquire(old(masterFds[fd]), self).1) in calls
      ensures forall fd :: 0 <= fd < masterFds.Length ==> masterFds[fd] == AcquireRelease(old(masterFds[fd]), self)
      ensures forall fd :: 0 <= fd < masterFds.Length && !old(masterFds[fd]).locked ==> masterFds[fd] == old(masterFds[fd])
      ensures forall fd :: 0 <= fd < masterFds.Length && HeldBy(old(masterFds[fd]), self) ==> masterFds[fd] == old(masterFds[fd])
    {
      ghost var before := masterFds[..];
      calls := [];
      var fd := 0;
      while fd < masterFds.Length
        invariant 0 <= fd <= masterFds.Length
        invariant Valid()
        invariant forall i :: 0 <= i < fd ==> masterFds[i] == AcquireRelease(before[i], self)
        invariant forall i :: fd <= i < masterFds.Length ==> masterFds[i] == before[i]
        invariant calls == Visits(before[..fd], self)
      {
        var ls := AcquireMasterFd(fd, self);
        if masterFds[fd].e.Some? {
          calls := calls + [Call(fd, masterFds[fd].e.value, masterFds[fd])];
        }
        ReleaseMasterFd(fd, ls);
        assert before[..fd + 1][..fd] == before[..fd];
        fd := fd + 1;
      }
      assert before[..fd] == before;
      VisitsInOrder(before, self);
      VisitsComplete(before, self);
    }
  }
}
