# libmtev eventer: descriptor ownership table and callback dispatch

This project models the bookkeeping that libmtev's reactor ("eventer") keeps
around its per-descriptor table and its callback dispatch, and proves what that
code promises. The model covers the function bodies in
`src/eventer/eventer_impl_private.h`:

- `acquire_master_fd` and `release_master_fd`. Each entry of the global
  `master_fds` table holds a spin-lock, the thread recorded as its executor and
  the registered event. Acquire has a reentrant fast path: a thread that
  already holds the slot gets `EV_ALREADY_OWNED`. The matching release is then
  a no-op, so a nested callback never unlocks a slot that an outer frame still
  holds.
- `LOCAL_EVENTER_foreach_fdevent`. This walk visits descriptors `0 .. maxfds-1`
  in turn. Each slot is acquired, `f` is called if the slot holds an event, and
  the slot is released with the lock state its acquire returned.
- `eventer_run_callback`. It saves the thread's current event and sets it to
  the dispatched event. It then runs prep, the callback and cleanup, restores
  the saved event, and returns the callback's mask.

Files:

- `wrappers.dfy` (module `Wrappers`): `Option`. It stands for a NULL pointer
  and for a zeroed `pthread_t`.
- `fd_ownership.dfy` (module `FdOwnership`): the slot datatype and the pure
  specification functions `Acquire` and `Release`, with lemmas about them. It
  also holds the class `FdTable`, whose `array<Slot>` is `master_fds`
  (`maxfds` is its length). The class's methods update slots in place and are
  proved against those functions.
- `callback_dispatch.dfy` (module `CallbackDispatch`): the class
  `EventerThread`. It holds the thread-local current event (`thisEvent`) and a
  trace of the dispatch steps.

The calling thread (`pthread_self()`) is an explicit parameter. With it, the
reentrant lock is a sequential state machine. A slot may be held by another
thread when the caller tries to lock it. In the C code `ck_spinlock_lock` then
spins (lines 157-158). The model treats that wait as follows: the holder's
release (executor zeroed, lock dropped) takes effect, and then the caller takes
the lock and records itself. So the caller always ends as the holder and gets
`EV_OWNED`. A walk that meets a slot held by another thread therefore leaves
that slot free. Every slot that was free, or that the walking thread held
itself, is left exactly as it was.

## Model

| member | source | states |
|---|---|---|
| `FdOwnership.Acquire` | src/eventer/eventer_impl_private.h:148-160 | After acquire, the caller is always the recorded holder of a locked slot and the slot's event is untouched. The result is ALREADY_OWNED if and only if the slot was already locked with the caller as executor, and then the slot is unchanged. A slot locked by another thread is never answered ALREADY_OWNED: the caller gets OWNED once the holder has released. |
| `FdOwnership.Release` | src/eventer/eventer_impl_private.h:161-167 | An OWNED release clears the executor and unlocks. An ALREADY_OWNED release leaves the slot exactly as it was, so there is no double unlock. The event is never touched. |
| `FdOwnership.AcquireRelease` | src/eventer/eventer_impl_private.h:174-177 | An acquire followed by its matching release, as the walk does per slot. It leaves a slot the caller held unchanged, and a free consistent slot unchanged. A slot held by another thread comes back free (no executor, unlocked) with the same event. |
| `FdOwnership.NestedRestores` | src/eventer/eventer_impl_private.h:148-167 | Any number of properly nested acquire/release pairs by one thread leave its slot exactly as before. This holds both when the slot was free (the outer pair returns it to free) and when the thread already held it. |
| `FdOwnership.ReacquireIsReentrant` | src/eventer/eventer_impl_private.h:154-156 | A second acquire by the thread that has just acquired a slot does not block. It answers ALREADY_OWNED and changes nothing. |
| `FdOwnership.VisitsInOrder` | src/eventer/eventer_impl_private.h:173-177 | Each call the walk makes names a descriptor below `maxfds` together with the event registered there, and is made while the walking thread holds that descriptor's slot. The calls come in strictly ascending descriptor order, so each descriptor is visited at most once. |
| `FdOwnership.VisitsComplete` | src/eventer/eventer_impl_private.h:173-177 | Every descriptor whose slot holds a non-NULL event is visited with that event, with the slot as the walker's acquire left it. |
| `FdOwnership.FdTable.AcquireMasterFd` | src/eventer/eventer_impl_private.h:148-160 | The in-place acquire returns the lock state and leaves slot `fd` as `Acquire` specifies. Every other slot is unchanged, and the table invariant (executor recorded exactly while locked) is kept. |
| `FdOwnership.FdTable.ReleaseMasterFd` | src/eventer/eventer_impl_private.h:161-167 | The in-place release leaves slot `fd` as `Release` specifies. Every other slot is unchanged, and the table invariant is kept. |
| `FdOwnership.FdTable.ForeachFdevent` | src/eventer/eventer_impl_private.h:169-179 | The walk calls `f` exactly for the slots holding an event, in ascending descriptor order, and each call is made while the walking thread holds that descriptor's slot. Every slot ends as one acquire/release by the walking thread leaves it: a free slot, or a slot the walker held itself, is back in its prior lock/owner state. |
| `CallbackDispatch.EventerThread.RunCallback` | src/eventer/eventer_impl_private.h:197-206 | Returns exactly the mask the callback returned, and the callback sees the dispatched event as the thread's current event. Prep (with the mask, closure and time), callback and cleanup run in that order, each with the dispatched event current. The previous current event is restored on exit. |

## Left out

- Job, subqueue and job-queue logic (enqueue and dequeue, the sentinel-anchored circular ring, backlog limits, concurrency scaling, cancellation). The header only declares these structs; no operation bodies are part of this model.
- EWMA latency averages and the stats handles. Only declarations and comments describe them; there is no arithmetic to model.
- Atomicity of the spin-lock, memory ordering, and the unlocked read of `executor` at line 154. These are concurrency concerns outside a sequential model. Thread interleavings in general are also not modelled.
- `FdOwnership.FdTable.AcquireMasterFd`: the spin in `ck_spinlock_lock` is modelled as the holder's release taking effect, then the caller's lock. How long the caller waits, and whether it ever gets the lock, are not modelled.
- `FdOwnership.FdTable.ForeachFdevent`: `f` is modelled only by the record of its calls (descriptor, event, and the slot as it stands during the call). Its own effects, including any nested acquire of the same descriptor, are outside the model. The `closure` argument is passed through untouched and is not modelled.
- `CallbackDispatch.EventerThread.RunCallback`: the callback is a pure function of its arguments and stands for `e->callback`. Side effects of the callback, including a nested dispatch from inside it, are not modelled. `eventer_callback_prep`, `eventer_callback_cleanup` and `eventer_set_this_event` are only declared in the header. They appear as trace steps, and as a plain store to the thread-local current event.
- `ck_hs`, semaphores, mutexes, `pthread_key_t` thread-locals and the libaco coroutine functions (`eventer_aco_*`). These are foreign libraries or stack-switching primitives. The cross-thread trigger and process functions are only declared in the header.
- `src/examples/websocket_server.c` is not part of this model. It is a demo program: command-line parsing, HTTP/websocket handlers and event-loop start-up.
- Where `master_fds` is allocated and filled lies outside this header and is not part of this model. The `FdTable` constructor simply builds `maxfds` free slots with no events.
