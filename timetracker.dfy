// Kismet's Timetracker: a registry of timers keyed by id, a vector of the same
// timers ordered by trigger time, and a list of ids waiting to be removed.
//
// The mutexes, the clock and the actions are outside the model: the current
// time is a parameter of the operations that read the clock, and the results
// of the actions come from an outcome oracle. The vector holds the ids of the
// records in the table (the C++ vector holds the addresses of the same records, so
// an update through an address is an update of the table entry).
module Timetracking {
  import opened TimeVals
  import opened TimerEvents
  import opened IdSeqs
  import opened TriggerOrder
  import opened Dispatch

  /**
   * The registry invariant that holds at every step: every id was issued by
   * the counter and keys its own record; the vector holds each id of the
   * table exactly once and no other; a cancelled record is waiting on the
   * removal list. (The vector is not always sorted: Tick reschedules in
   * place and sorts only on its next pass.)
   */
  ghost predicate Registry(next: int, m: map<int, TimerEvent>, s: seq<int>, q: seq<int>)
  {
    && next >= 0
    && (forall k :: k in m ==> 0 <= k < next && m[k].id == k)
    && Distinct(s)
    && (forall k :: k in m <==> k in s)
    && (forall k :: k in m && m[k].cancelled ==> k in q)
  }

  /** Every queued id names a cancelled record of the table. */
  ghost predicate QueuedAreCancelled(m: map<int, TimerEvent>, q: seq<int>)
  {
    forall k :: k in q ==> k in m && m[k].cancelled
  }

  /**
   * Draining a queue from a consistent registry leaves a registry with an
   * empty queue and no cancelled record.
   */
  lemma DrainedRegistry(next: int, m: map<int, TimerEvent>, s: seq<int>, q: seq<int>)
    requires Registry(next, m, s, q)
    ensures Registry(next, m - Elems(q), Without(s, Elems(q)), [])
    ensures QueuedAreCancelled(m - Elems(q), [])
    ensures forall k :: k in m - Elems(q) ==> !(m - Elems(q))[k].cancelled
  {
    WithoutDistinct(s, Elems(q));
  }

  /**
   * Registering keeps the registry invariant: a fresh, uncancelled record
   * under an id below the counter joins the table, and its id joins the
   * vector, which is then sorted.
   */
  lemma EnrollKeepsRegistry(next: int, m: map<int, TimerEvent>, s: seq<int>, q: seq<int>, evt: TimerEvent)
    requires Registry(next, m, s, q) && QueuedAreCancelled(m, q)
    requires evt.id !in m && 0 <= evt.id < next && !evt.cancelled
    ensures var m' := m[evt.id := evt];
      var s' := StableSortByTrigger(s + [evt.id], m');
      && Registry(next, m', s', q) && QueuedAreCancelled(m', q)
      && SortedByTrigger(s', m')
  {
    var m' := m[evt.id := evt];
    var pushed := s + [evt.id];
    assert Distinct(pushed) by {
      assert forall i :: 0 <= i < |s| ==> s[i] in s;
    }
    var s' := StableSortByTrigger(pushed, m');
    SortIsSorted(pushed, m');
    SortKeepsDistinct(pushed, m');
    assert forall k :: k in s' <==> k in m' by {
      assert forall k :: k in s' <==> k in multiset(pushed);
    }
    assert forall k :: k in m' ==> 0 <= k < next && m'[k].id == k;
    assert forall k :: k in m' && m'[k].cancelled ==> k in q;
  }

  /**
   * The action loop keeps the registry invariant: the sorted snapshot holds
   * the same ids once each, the walk keeps every key and every record's id and
   * cancelled flag, and it only appends to the queue.
   */
  lemma PassKeepsRegistry(next: int, sorted: seq<int>, m: map<int, TimerEvent>, q: seq<int>,
                          now: TimeVal, outcome: int -> int)
    requires Registry(next, m, sorted, q)
    ensures var snap := StableSortByTrigger(sorted, m);
      AllIn(snap, m) &&
      var w := Walk(snap, m, now, outcome);
      && Registry(next, w.timers, snap, q + w.queued)
      && (forall k :: k in m ==> w.timers[k].id == m[k].id && w.timers[k].cancelled == m[k].cancelled)
  {
    var snap := StableSortByTrigger(sorted, m);
    assert forall k :: k in snap <==> k in sorted by {
      assert forall k :: k in snap <==> k in multiset(snap);
      assert forall k :: k in sorted <==> k in multiset(sorted);
    }
    SortKeepsDistinct(sorted, m);
    WalkFate(snap, m, now, outcome);
  }

  /**
   * The erase step of the cleanup loop: finds the position of `x` in the
   * vector and erases it there, or leaves the vector alone if `x` is absent.
   */
  method EraseId(s: seq<int>, x: int) returns (r: seq<int>)
    requires Distinct(s)
    ensures r == Without(s, {x})
  {
    var j := 0;
    while j < |s|
      invariant 0 <= j <= |s|
      invariant forall l :: 0 <= l < j ==> s[l] != x
    {
      if s[j] == x {
        EraseIsWithout(s, j);
        return s[..j] + s[j + 1..];
      }
      j := j + 1;
    }
    WithoutAbsent(s, {x});
    return s;
  }

  class Timetracker {
    var nextTimerId: int
    var timerMap: map<int, TimerEvent>
    var sortedTimers: seq<int>
    var removedTimerIds: seq<int>

    /** The registry invariant of the fields (see Registry). */
    ghost predicate Consistent()
      reads this
    {
      Registry(nextTimerId, timerMap, sortedTimers, removedTimerIds)
    }

    /**
     * Between operations, moreover, the removal list holds exactly the ids of
     * cancelled records (Tick queues finished records only in its action loop
     * and drains the list before it returns).
     */
    ghost predicate Valid()
      reads this
    {
      Consistent() && QueuedAreCancelled(timerMap, removedTimerIds)
    }

    /** A tracker with no timers, whose first id will be 0. */
    constructor ()
      ensures Valid()
      ensures nextTimerId == 0 && timerMap == map[] && sortedTimers == [] && removedTimerIds == []
    {
      nextTimerId := 0;
      timerMap := map[];
      sortedTimers := [];
      removedTimerIds := [];
    }

    /** Enters a freshly numbered record into the table and the vector, then re-sorts the vector. */
    method Insert(evt: TimerEvent)
      requires Valid() && evt.id !in timerMap && 0 <= evt.id < nextTimerId && !evt.cancelled
      modifies this
      ensures Valid()
      ensures timerMap == old(timerMap)[evt.id := evt]
      ensures sortedTimers == StableSortByTrigger(old(sortedTimers) + [evt.id], timerMap)
      ensures SortedByTrigger(sortedTimers, timerMap)
      ensures forall t :: WithTrigger(sortedTimers, timerMap, t)
                == WithTrigger(old(sortedTimers), old(timerMap), t) + (if evt.trigger == t then [evt.id] else [])
      ensures nextTimerId == old(nextTimerId) && removedTimerIds == old(removedTimerIds)
    {
      ghost var oldMap, oldSorted := timerMap, sortedTimers;
      EnrollKeepsRegistry(nextTimerId, timerMap, sortedTimers, removedTimerIds, evt);
      var pushed := sortedTimers + [evt.id];
      timerMap := timerMap[evt.id := evt];
      sortedTimers := StableSortByTrigger(pushed, timerMap);
      forall t
        ensures WithTrigger(sortedTimers, timerMap, t)
             == WithTrigger(oldSorted, oldMap, t) + (if evt.trigger == t then [evt.id] else [])
      {
        EnrollOrder(oldSorted, oldMap, evt, t);
      }
    }

    /**
     * The plain-callback form of RegisterTimer_nb: takes the next id, builds
     * the record at time `now` and enters it. `trigger` is the optional
     * absolute trigger time; `bound` says whether the callback is non-null.
     */
    method RegisterCallbackTimer(now: TimeVal, timeslices: int, trigger: Option<TimeVal>,
                                 recurring: bool, bound: bool) returns (id: int)
      requires Valid()
      modifies this
      ensures Valid()
      ensures id == old(nextTimerId) && nextTimerId == id + 1 && id !in old(timerMap)
      ensures timerMap == old(timerMap)[id := CallbackRecord(id, now, timeslices, trigger, recurring, bound)]
      ensures trigger.Some? ==> timerMap[id].trigger == trigger.value && timerMap[id].timeslices == ABSOLUTE_TIMER
      ensures trigger.None? ==> timerMap[id].trigger == AddCallbackTimeslices(now, timeslices)
                                && timerMap[id].timeslices == timeslices
      ensures sortedTimers == StableSortByTrigger(old(sortedTimers) + [id], timerMap)
      ensures SortedByTrigger(sortedTimers, timerMap)
      ensures forall t :: WithTrigger(sortedTimers, timerMap, t)
                == WithTrigger(old(sortedTimers), old(timerMap), t) + (if timerMap[id].trigger == t then [id] else [])
      ensures removedTimerIds == old(removedTimerIds)
    {
      id := nextTimerId;
      nextTimerId := nextTimerId + 1;
      var evt := CallbackRecord(id, now, timeslices, trigger, recurring, bound);
      Insert(evt);
    }

    /** The event-object form of RegisterTimer_nb; `bound` says whether the event object is non-null. */
    method RegisterEventTimer(now: TimeVal, timeslices: int, trigger: Option<TimeVal>,
                              recurring: bool, bound: bool) returns (id: int)
      requires Valid()
      modifies this
      ensures Valid()
      ensures id == old(nextTimerId) && nextTimerId == id + 1 && id !in old(timerMap)
      ensures timerMap == old(timerMap)[id := TimedRecord(id, now, timeslices, trigger, recurring,
                                                           if bound then Event else NoAction)]
      ensures trigger.Some? ==> timerMap[id].trigger == trigger.value && timerMap[id].timeslices == ABSOLUTE_TIMER
      ensures trigger.None? ==> timerMap[id].trigger == AddTimeslices(now, timeslices)
                                && timerMap[id].timeslices == timeslices
      ensures sortedTimers == StableSortByTrigger(old(sortedTimers) + [id], timerMap)
      ensures SortedByTrigger(sortedTimers, timerMap)
      ensures forall t :: WithTrigger(sortedTimers, timerMap, t)
                == WithTrigger(old(sortedTimers), old(timerMap), t) + (if timerMap[id].trigger == t then [id] else [])
      ensures removedTimerIds == old(removedTimerIds)
    {
      id := nextTimerId;
      nextTimerId := nextTimerId + 1;
      var evt := TimedRecord(id, now, timeslices, trigger, recurring, if bound then Event else NoAction);
      Insert(evt);
    }

    /** The closure form of RegisterTimer_nb; `bound` says whether the closure is non-empty. */
    method RegisterClosureTimer(now: TimeVal, timeslices: int, trigger: Option<TimeVal>,
                                recurring: bool, bound: bool) returns (id: int)
      requires Valid()
      modifies this
      ensures Valid()
      ensures id == old(nextTimerId) && nextTimerId == id + 1 && id !in old(timerMap)
      ensures timerMap == old(timerMap)[id := TimedRecord(id, now, timeslices, trigger, recurring,
                                                           if bound then Closure else NoAction)]
      ensures trigger.Some? ==> timerMap[id].trigger == trigger.value && timerMap[id].timeslices == ABSOLUTE_TIMER
      ensures trigger.None? ==> timerMap[id].trigger == AddTimeslices(now, timeslices)
                                && timerMap[id].timeslices == timeslices
      ensures sortedTimers == StableSortByTrigger(old(sortedTimers) + [id], timerMap)
      ensures SortedByTrigger(sortedTimers, timerMap)
      ensures forall t :: WithTrigger(sortedTimers, timerMap, t)
                == WithTrigger(old(sortedTimers), old(timerMap), t) + (if timerMap[id].trigger == t then [id] else [])
      ensures removedTimerIds == old(removedTimerIds)
    {
      id := nextTimerId;
      nextTimerId := nextTimerId + 1;
      var evt := TimedRecord(id, now, timeslices, trigger, recurring, if bound then Closure else NoAction);
      Insert(evt);
    }

    /**
     * Cancels a timer: marks its record and queues its id for removal,
     * returning 1; an unknown id yields 0 and changes nothing. The record
     * itself stays in place until the next Tick drains the queue.
     */
    method RemoveTimer(timerId: int) returns (r: int)
      requires Valid()
      modifies this
      ensures Valid()
      ensures r == (if timerId in old(timerMap) then 1 else 0)
      ensures timerId in old(timerMap) ==>
                && timerMap == old(timerMap)[timerId := old(timerMap)[timerId].(cancelled := true)]
                && removedTimerIds == old(removedTimerIds) + [timerId]
      ensures timerId !in old(timerMap) ==>
                timerMap == old(timerMap) && removedTimerIds == old(removedTimerIds)
      ensures sortedTimers == old(sortedTimers) && nextTimerId == old(nextTimerId)
    {
      if timerId in timerMap {
        timerMap := timerMap[timerId := timerMap[timerId].(cancelled := true)];
        removedTimerIds := removedTimerIds + [timerId];
      } else {
        return 0;
      }
      return 1;
    }

    /**
     * The action loop of Tick over the snapshot `snap`: the walk that the
     * function Walk describes, carried out on the table and the removal list.
     */
    method DispatchDue(snap: seq<int>, now: TimeVal, outcome: int -> int) returns (ghost fired: seq<int>)
      requires AllIn(snap, timerMap)
      modifies this
      ensures var w := Walk(snap, old(timerMap), now, outcome);
        && timerMap == w.timers
        && removedTimerIds == old(removedTimerIds) + w.queued
        && fired == w.fired
      ensures sortedTimers == old(sortedTimers) && nextTimerId == old(nextTimerId)
    {
      fired := [];
      ghost var m0, q0 := timerMap, removedTimerIds;
      for i := 0 to |snap|
        invariant AllIn(snap[i..], timerMap)
        invariant WalkOn(snap, Pass(m0, [], q0), now, outcome)
               == WalkOn(snap[i..], Pass(timerMap, fired, removedTimerIds), now, outcome)
        invariant sortedTimers == old(sortedTimers) && nextTimerId == old(nextTimerId)
      {
        var timerId := snap[i];
        var evt := timerMap[timerId];
        assert snap[i..][0] == timerId && snap[i..][1..] == snap[i + 1..];

        // A cancelled record is routed to the removal list without firing.
        if evt.cancelled {
          removedTimerIds := removedTimerIds + [timerId];
          continue;
        }

        // The first live record in the future ends the walk.
        if Before(now, evt.trigger) {
          break;
        }

        var ret := Fire(evt, outcome);
        fired := fired + [timerId];

        if ret > 0 && evt.timeslices != ABSOLUTE_TIMER && evt.recurring {
          // Rescheduled from the captured time, not from the old trigger.
          timerMap := timerMap[timerId := evt.(schedule := now, trigger := AddTimeslices(now, evt.timeslices))];
        } else {
          removedTimerIds := removedTimerIds + [timerId];
          continue;
        }
      }
      WalkOnIsWalk(snap, m0, [], q0, now, outcome);
    }

    /**
     * One round of the cleanup loop: a queued id still in the table is erased
     * from the vector and then from the table; an id already gone is skipped.
     */
    method Forget(x: int)
      requires Distinct(sortedTimers) && forall k :: k in timerMap <==> k in sortedTimers
      modifies this
      ensures timerMap == old(timerMap) - {x}
      ensures sortedTimers == Without(old(sortedTimers), {x})
      ensures removedTimerIds == old(removedTimerIds) && nextTimerId == old(nextTimerId)
    {
      if x in timerMap {
        sortedTimers := EraseId(sortedTimers, x);
        timerMap := timerMap - {x};
      } else {
        assert timerMap - {x} == timerMap;
        assert forall i :: 0 <= i < |sortedTimers| ==> sortedTimers[i] !in {x};
        WithoutAbsent(sortedTimers, {x});
      }
    }

    /**
     * The cleanup phase of Tick: every queued id that is still in the table is
     * erased from the vector and the table; unknown and repeated ids are
     * skipped; then the queue is cleared.
     */
    method DrainRemoved()
      requires Consistent()
      modifies this
      ensures timerMap == old(timerMap) - Elems(old(removedTimerIds))
      ensures sortedTimers == Without(old(sortedTimers), Elems(old(removedTimerIds)))
      ensures removedTimerIds == [] && nextTimerId == old(nextTimerId)
      ensures Valid()
    {
      ghost var m0, s0, q := timerMap, sortedTimers, removedTimerIds;
      assert Elems(q[..0]) == {};
      assert m0 - {} == m0;
      WithoutAbsent(s0, {});
      for k := 0 to |removedTimerIds|
        invariant removedTimerIds == q && nextTimerId == old(nextTimerId)
        invariant timerMap == m0 - Elems(q[..k])
        invariant sortedTimers == Without(s0, Elems(q[..k]))
      {
        var x := removedTimerIds[k];
        ghost var gone := Elems(q[..k]);
        assert Elems(q[..k + 1]) == gone + {x} by {
          assert q[..k + 1] == q[..k] + [x];
        }
        assert m0 - (gone + {x}) == (m0 - gone) - {x};
        WithoutDistinct(s0, gone);
        WithoutTwice(s0, gone, {x});
        Forget(x);
      }
      assert q[..|q|] == q;
      DrainedRegistry(nextTimerId, m0, s0, q);
      removedTimerIds := [];
    }

    /**
     * One dispatch pass at the captured time `now`: sort the vector and take a
     * snapshot of it, process the due timers in trigger order, then drain the
     * removal list. Always returns 1.
     */
    method Tick(now: TimeVal, outcome: int -> int) returns (r: int, ghost fired: seq<int>)
      requires Valid()
      modifies this
      ensures r == 1
      ensures var snap := StableSortByTrigger(old(sortedTimers), old(timerMap));
        AllIn(snap, old(timerMap)) &&
        var w := Walk(snap, old(timerMap), now, outcome);
        var gone := Elems(old(removedTimerIds) + w.queued);
        && fired == w.fired
        && timerMap == w.timers - gone
        && sortedTimers == Without(snap, gone)
      ensures removedTimerIds == [] && nextTimerId == old(nextTimerId)
      ensures Valid()
      // Exactly the live records due at `now` are processed (their action, if
      // any, is called), each once, in the order of the sorted snapshot, so in
      // trigger order with ties in vector order.
      ensures fired == DueIds(StableSortByTrigger(old(sortedTimers), old(timerMap)), old(timerMap), now)
      ensures Distinct(fired)
      ensures forall k :: k in fired <==> Due(old(timerMap), k, now)
      ensures SortedByTrigger(fired, old(timerMap))
      // A processed record either is rescheduled from `now` or is gone.
      ensures forall k :: k in fired && Reschedules(old(timerMap)[k], outcome) ==>
                k in timerMap && timerMap[k] == Rescheduled(old(timerMap)[k], now)
      ensures forall k :: k in fired && !Reschedules(old(timerMap)[k], outcome) ==>
                k !in timerMap && k !in sortedTimers
      // Cancelled ids are gone; every other record is untouched.
      ensures forall k :: k in old(removedTimerIds) ==> k !in timerMap && k !in sortedTimers
      ensures forall k :: k in old(timerMap) && k !in fired && k !in old(removedTimerIds) ==>
                k in timerMap && timerMap[k] == old(timerMap)[k]
    {
      PassFiresExactlyDue(sortedTimers, timerMap, now, outcome);
      PassFates(sortedTimers, timerMap, removedTimerIds, now, outcome);
      PassKeepsRegistry(nextTimerId, sortedTimers, timerMap, removedTimerIds, now, outcome);
      sortedTimers := StableSortByTrigger(sortedTimers, timerMap);
      var actionTimers := sortedTimers;
      fired := DispatchDue(actionTimers, now, outcome);
      DrainRemoved();
      r := 1;
    }
  }
}
