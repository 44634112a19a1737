// The timer record (`timer_event`) and how each registration form builds one.
module TimerEvents {
  import opened TimeVals

  datatype Option<T> = None | Some(value: T)

  /**
   * Which action a record carries. The record holds a plain C callback, an
   * event object and a closure; each registration form fills exactly one.
   * `NoAction` stands for a form given a null callback or event, or an empty closure:
   * Tick then finds no action to call and takes the outcome to be 0.
   */
  datatype Action = NoAction | Callback | Event | Closure

  /** `timeslices` of a timer registered for an absolute trigger time. */
  const ABSOLUTE_TIMER: int := -1

  /**
   * One timer record. `timeslices` is the period of a relative timer, or
   * ABSOLUTE_TIMER for one registered with an explicit trigger time.
   */
  datatype TimerEvent = TimerEvent(
    id: int,
    schedule: TimeVal,
    trigger: TimeVal,
    timeslices: int,
    recurring: bool,
    cancelled: bool,
    action: Action)

  /** The sort key of an id in the table (absent ids never occur where it is used). */
  function TriggerOf(m: map<int, TimerEvent>, id: int): TimeVal
  {
    if id in m then m[id].trigger else TimeVal(0, 0)
  }

  /**
   * The record the callback form builds. QUIRK (as written): its relative
   * trigger uses AddCallbackTimeslices, and it never sets the cancelled flag;
   * the model takes the fresh flag to be false.
   */
  function CallbackRecord(id: int, now: TimeVal, timeslices: int, trigger: Option<TimeVal>,
                          recurring: bool, bound: bool): (r: TimerEvent)
    ensures r.id == id && r.schedule == now && r.recurring == recurring && !r.cancelled
    ensures r.action == (if bound then Callback else NoAction)
    // A relative period of -1 is indistinguishable from an absolute timer.
    ensures r.timeslices == ABSOLUTE_TIMER <==> trigger.Some? || timeslices == ABSOLUTE_TIMER
    ensures trigger.Some? ==> r.trigger == trigger.value
    ensures trigger.None? ==> r.timeslices == timeslices
    ensures trigger.None? ==> r.trigger.usec - now.usec == TruncMod(timeslices, 10)
                              && Micros(r.trigger) - Micros(now)
                                 == timeslices * 100000 - TruncMod(timeslices, 10) * 99999
  {
    var action := if bound then Callback else NoAction;
    match trigger
    case Some(t) => TimerEvent(id, now, t, ABSOLUTE_TIMER, recurring, false, action)
    case None => TimerEvent(id, now, AddCallbackTimeslices(now, timeslices), timeslices, recurring, false, action)
  }

  /** The record the event-object and closure forms build. */
  function TimedRecord(id: int, now: TimeVal, timeslices: int, trigger: Option<TimeVal>,
                       recurring: bool, action: Action): (r: TimerEvent)
    ensures r.id == id && r.schedule == now && r.recurring == recurring && !r.cancelled
    ensures r.action == action
    // A relative period of -1 is indistinguishable from an absolute timer.
    ensures r.timeslices == ABSOLUTE_TIMER <==> trigger.Some? || timeslices == ABSOLUTE_TIMER
    ensures trigger.Some? ==> r.trigger == trigger.value
    ensures trigger.None? ==> r.timeslices == timeslices
    ensures trigger.None? && ValidTime(now) ==>
              Micros(r.trigger) - Micros(now)
                == timeslices * 100000 + (if UsecSum(now, timeslices) == 999999 then 1000000 else 0)
    ensures trigger.None? && ValidTime(now) && timeslices >= 0 ==> ValidTime(r.trigger)
  {
    match trigger
    case Some(t) => TimerEvent(id, now, t, ABSOLUTE_TIMER, recurring, false, action)
    case None => TimerEvent(id, now, AddTimeslices(now, timeslices), timeslices, recurring, false, action)
  }
}
