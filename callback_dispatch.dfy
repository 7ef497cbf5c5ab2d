/**
 * Callback dispatch (`eventer_run_callback`): the thread-scoped "current
 * event" is saved, set to the dispatched event for the preparation, the
 * callback and the cleanup, and restored afterwards; the callback's returned
 * mask is handed back unchanged.
 */
module CallbackDispatch {
  import opened Wrappers
  import opened FdOwnership

  /** The opaque closure pointer passed through to the callback. */
  type Closure = nat

  /** The `struct timeval *` argument, as a point in time. */
  type TimeVal = nat

  /**
   * An event callback (`eventer_func_t`): event, fired mask, closure and time
   * to the mask it returns. The last argument is the thread's current event
   * as the callback sees it when it runs.
   */
  type Callback = (Event, int, Closure, TimeVal, Option<Event>) -> int

  /**
   * The steps of a dispatch, each with the thread's current event at the
   * moment it runs: `eventer_callback_prep`, the callback itself and
   * `eventer_callback_cleanup`.
   */
  datatype Step =
    | Prep(e: Event, mask: int, closure: Closure, now: TimeVal, current: Option<Event>)
    | Invoke(e: Event, mask: int, current: Option<Event>)
    | Cleanup(e: Event, rmask: int, current: Option<Event>)

  /** The per-thread dispatch state: the current event (a thread-local) and the steps run so far. */
  class EventerThread {
    var thisEvent: Option<Event>
    var trace: seq<Step>

    constructor ()
      ensures thisEvent == None && trace == []
    {
      thisEvent := None;
      trace := [];
    }

    /**
     * `eventer_run_callback(e, m, c, n)`, where `callback` is `e->callback`:
     * returns exactly the callback's mask, runs prep, callback and cleanup in
     * that order with `e` as the current event, and leaves the previous
     * current event in place on exit.
     */
    method RunCallback(e: Event, m: int, c: Closure, n: TimeVal, callback: Callback) returns (rmask: int)
      modifies this
      ensures rmask == callback(e, m, c, n, Some(e))
      ensures thisEvent == old(thisEvent)
      ensures trace == old(trace) + [Prep(e, m, c, n, Some(e)), Invoke(e, m, Some(e)), Cleanup(e, rmask, Some(e))]
    {
      var previousEvent := thisEvent;
      thisEvent := Some(e);
      trace := trace + [Prep(e, m, c, n, thisEvent)];
      trace := trace + [Invoke(e, m, thisEvent)];
      rmask := callback(e, m, c, n, thisEvent);
      trace := trace + [Cleanup(e, rmask, thisEvent)];
      thisEvent := previousEvent;
    }
  }
}
