# Kismet Timetracker in Dafny

This project models Kismet's `Timetracker` (`timetracker.cc`), the timer
scheduler of the daemon. It has four parts of state:

- a counter that issues timer ids;
- a table of timer records keyed by id;
- a vector of the same timers, stable-sorted by trigger time;
- a list of ids waiting to be removed.

The operations modelled are:

- the three `RegisterTimer_nb` forms: plain C callback, event object and
  `std::function` closure;
- `RemoveTimer`, which cancels a timer;
- `Tick`, the dispatch pass. It sorts the vector and takes a snapshot. It then
  walks the due prefix in trigger order and calls each record's action, if it has one. A fired timer is
  either rescheduled from the captured time or queued for removal. Finally
  `Tick` drains the removal list.

Layout:

| file | module | contents |
|---|---|---|
| `time_val.dfy` | `TimeVals` | `struct timeval`, its order, C's truncating `/` and `%`, and the two timeslice conversions |
| `timer_event.dfy` | `TimerEvents` | the timer record and the records each registration form builds |
| `id_seqs.dfy` | `IdSeqs` | duplicate-free id sequences and dropping ids from them (what `vector::erase` does) |
| `trigger_order.dfy` | `TriggerOrder` | `std::stable_sort` by trigger: sortedness, permutation, stability |
| `dispatch.dfy` | `Dispatch` | the action loop of `Tick` as a function (`Walk`) and what it fires, reschedules and queues |
| `timetracker.dfy` | `Timetracking` | the `Timetracker` class, its invariant and its methods |

How the C++ maps onto the model:

- The vector holds the addresses of the records in the table. The model's
  `sortedTimers` holds ids instead, so writing a record through its address in
  `Tick` is an update of its table entry.
- The clock (`gettimeofday`) is a parameter `now`.
- The three kinds of action are foreign code. The integer each one returns
  comes from an outcome oracle `outcome: int -> int` applied to the timer id.
  A record with no action yields 0, as `Tick` does when all three action
  slots are empty.
- The class invariant `Valid()` holds between operations. It says:
  - every id was issued by the counter and keys its own record;
  - the table and the vector hold the same ids, each once;
  - the removal list holds exactly the ids of cancelled records, possibly
    more than once.

  It is not part of the invariant that the vector is sorted. `Tick`
  reschedules records in place, and the vector is sorted again only at the
  next registration or the next `Tick`.

The quirks of the code are modelled as written, and each is flagged in a
comment:

- The carry test of the event and closure forms, and of `Tick`'s
  rescheduling, is `>= 999999`. A microsecond sum of exactly 999999 therefore
  moves the trigger one second later. For example, a schedule of (0 s, 899999 µs)
  plus one timeslice gives a trigger of (1 s, 999999 µs).
- The plain-callback form divides by a literal 10. It adds the remainder to
  the microseconds unscaled, and it does not carry.
- The plain-callback form never initialises the cancelled flag. The model
  takes the flag to be false.

A negative interval is not rejected by the code. The model follows the code.
Integer division and remainder truncate toward zero, as C does, and a
negative interval can leave a trigger with negative microseconds.

## Model

| member | source | states |
|---|---|---|
| `TimeVals.BeforeIsEarlier` | timetracker.cc:74-75 | the seconds-then-microseconds comparison is the order of the instants denoted, for normalised timevals |
| `TimeVals.TruncMod` | timetracker.cc:92-94 | C's `%` is the remainder of C's `/`, with the sign of the dividend and magnitude below the divisor |
| `TimeVals.AddTimeslices` | timetracker.cc:195-204 | for a normalised schedule, a relative trigger is the schedule plus timeslices × 100000 µs, one second later exactly when the microsecond sum is 999999; for a non-negative interval the result is normalised |
| `TimeVals.AddCallbackTimeslices` | timetracker.cc:156-157 | the plain-callback conversion lands `TruncMod(timeslices, 10)` × 99999 µs earlier than the scaled interval, because each remainder timeslice adds 1 µs to the microseconds instead of 100000 |
| `TimeVals.TruncDivTowardZero` | timetracker.cc:92 | C's `/` rounds toward zero: the quotient times the divisor lies between zero and the dividend, and the quotient is odd in the dividend |
| `TimeVals.CarryOneSecondLate` | timetracker.cc:96-99 | the `>= 999999` carry turns (0, 899999) plus one timeslice into (1, 999999), which is 1.1 s later, not 0.1 s |
| `TimeVals.CallbackFormDisagrees` | timetracker.cc:156-157 | for a normalised schedule and every interval, negative ones included, the plain-callback form's trigger equals the other forms' trigger iff the interval is whole seconds and the schedule's usec is not 999999 |
| `IdSeqs.EraseIsWithout` | timetracker.cc:115-120 | erasing the position that holds an id from a duplicate-free vector drops exactly that id and keeps the order of the rest |
| `TimerEvents.CallbackRecord` | timetracker.cc:146-164 | the plain-callback record has the new id, schedule `now`, the recurring flag, a false cancelled flag, and the callback action iff the callback is non-null; its period is -1 iff the trigger is absolute or the interval is -1, and a relative timer keeps its interval as its period; an absolute trigger is copied; a relative trigger is the literal-10 conversion |
| `TimerEvents.TimedRecord` | timetracker.cc:183-212 | the event and closure records have the new id, schedule `now`, the recurring flag, a false cancelled flag and the given action; period -1 iff absolute or interval -1, and a relative timer keeps its interval as its period; an absolute trigger is copied; a relative one is `now` plus the interval, with the 999999 carry second, normalised for a non-negative interval |
| `TriggerOrder.SortIsSorted` | timetracker.cc:58 | the stable sort leaves the vector non-decreasing by trigger |
| `TriggerOrder.StableSortByTrigger` | timetracker.cc:170 | the sort is a permutation of the vector |
| `TriggerOrder.SortIsStable` | timetracker.cc:218 | the sort keeps the relative order of the ids that share a trigger |
| `TriggerOrder.SortKeepsDistinct` | timetracker.cc:267 | the sort keeps a duplicate-free vector duplicate-free |
| `TriggerOrder.EnrollOrder` | timetracker.cc:166-170 | push_back then stable_sort puts the new id last among the ids that share its trigger, and keeps every trigger's ids in order |
| `Dispatch.Rescheduled` | timetracker.cc:89-99 | a rescheduled record keeps id, period, flags and action, takes schedule `now`, and its trigger is one period after `now` (plus the carry second), not after its old trigger; for a non-negative period the trigger is not before `now` |
| `Dispatch.Walk` | timetracker.cc:63-106 | the action loop keeps the table's keys, and fires and queues only ids of the snapshot |
| `Dispatch.WalkOnIsWalk` | timetracker.cc:63-106 | the loop-shaped walk, which appends to the fired and removal lists, extends them by exactly what `Walk` produces |
| `Dispatch.NoneDueAfterFuture` | timetracker.cc:73-77 | once a live record lies strictly in the future, no later record of a sorted vector is due, so the `break` loses nothing |
| `Dispatch.WalkFiresExactlyDue` | timetracker.cc:63-87 | on a sorted, duplicate-free snapshot, the ids fired are exactly the live ids with trigger not after `now`, in snapshot order |
| `Dispatch.WalkFate` | timetracker.cc:80-105 | `Fire` (lines 80-87: the action's result, 0 when the record has no action) and `Reschedules` (line 89) decide each fired record's fate: a fired id was due; it is rescheduled from `now` exactly when the outcome is positive, the timer is relative and it recurs, and it is queued otherwise; unfired records are untouched; only cancelled or finished ids are queued |
| `Dispatch.DueIdsSorted` | timetracker.cc:58-63 | the due ids of a sorted vector are in trigger order |
| `Dispatch.DueIdsDistinct` | timetracker.cc:63 | the due ids of a duplicate-free snapshot are duplicate-free: each record is processed once |
| `Dispatch.PassFiresExactlyDue` | timetracker.cc:56-87 | sorting and then walking processes exactly the live records due at `now`, as the sequence of due ids of the sorted snapshot: each once, in non-decreasing trigger order, ties in vector order |
| `Dispatch.PassFates` | timetracker.cc:56-128 | over a whole pass, a fired record is rescheduled from `now` or is erased from table and vector, cancelled records are erased, and every other record is untouched |
| `Timetracking.DrainedRegistry` | timetracker.cc:108-128 | draining the removal list from a consistent registry leaves a consistent registry with an empty list and no cancelled record |
| `Timetracking.PassKeepsRegistry` | timetracker.cc:56-106 | the sort and the action loop keep the registry consistent: the same ids once each in table and vector, every record's id and cancelled flag unchanged, and the list only grows |
| `Timetracking.EnrollKeepsRegistry` | timetracker.cc:146-170 | entering a fresh uncancelled record under an issued id keeps the registry consistent and leaves the vector sorted |
| `Timetracking.EraseId` | timetracker.cc:115-120 | the search-and-erase loop over the vector drops the id if present and leaves the vector unchanged otherwise |
| `Timetracking.Timetracker.constructor` | timetracker.cc:25-32 | a new tracker has no timers, an empty removal list, and counter 0 |
| `Timetracking.Timetracker.Insert` | timetracker.cc:166-170 | the record enters the table; the vector becomes the stable sort of the old vector plus the id, sorted, with the new id last among its trigger's ids |
| `Timetracking.Timetracker.RegisterCallbackTimer` | timetracker.cc:142-173 | returns the counter's old value, which is not yet in the table, and bumps the counter; an absolute trigger is copied with period -1, a relative one uses the literal-10 conversion; the vector is re-sorted stably |
| `Timetracking.Timetracker.RegisterEventTimer` | timetracker.cc:181-221 | as above, with the scaled conversion and its carry, and a cleared cancelled flag |
| `Timetracking.Timetracker.RegisterClosureTimer` | timetracker.cc:229-270 | as above, for the closure form |
| `Timetracking.Timetracker.RemoveTimer` | timetracker.cc:272-290 | a known id is marked cancelled and appended to the removal list, and the result is 1; an unknown id yields 0 and changes nothing |
| `Timetracking.Timetracker.DispatchDue` | timetracker.cc:63-106 | the action loop leaves exactly the table, removal list and fired ids that `Walk` describes |
| `Timetracking.Timetracker.Forget` | timetracker.cc:111-124 | one cleanup round erases a listed id from vector and table, and skips an id already gone |
| `Timetracking.Timetracker.DrainRemoved` | timetracker.cc:108-128 | every listed id is gone from table and vector, the rest keep their records and order, the list is empty, and the invariant is restored |
| `Timetracking.Timetracker.Tick` | timetracker.cc:46-131 | returns 1; processes exactly the live records due at `now`, as the due ids of the sorted snapshot, each once, in trigger order with ties in vector order; reschedules a processed record from `now` or erases it; erases cancelled records; leaves every other record untouched; keeps the invariant |

## Left out

- The mutexes `time_mutex` and `removed_id_mutex`, with their lockers, are not modelled. The model is sequential.
- Concurrent and reentrant calls are not modelled. This includes registering or cancelling a timer from inside a firing action.
- `gettimeofday`, `time(0)` and the writes to `globalreg->start_time` and `globalreg->timestamp` are left out. The time is the parameter `now`.
- The destructor, `new` and `delete` are left out. Records are values in the table.
- The bodies of the actions are foreign code. Their results come from the outcome oracle. An action cannot change its own record, although the plain-callback form is passed the address of its record.
- The locking `RegisterTimer` wrappers (timetracker.cc:133-140, 175-179, 223-227) are left out. They only add a lock around `RegisterTimer_nb`.
- phy_bluetooth.h is not part of this model. It declares device-tracker records and a phy handler that do not use the timer logic.
- The header with `SortTimerEventsTrigger` and `SERVER_TIMESLICES_SEC` is not part of this model. The comparator is taken as "trigger strictly earlier, seconds then microseconds", as at timetracker.cc:74-75. The constant is taken as Kismet's value, 10.
- Integers are unbounded. The C `int` and `long` widths and their overflow are not modelled.
- The `int` recurring flag is a boolean.
- The callback parameter and the cleared action slots are not fields of the record. The `Action` tag records which slot is filled.
- The returned ids are strictly increasing. This follows from the registration contracts: each returns the old counter and bumps it. No other operation changes the counter. No separate lemma states it.
