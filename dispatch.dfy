// The dispatch pass of Timetracker::Tick as a function: the walk over the
// sorted snapshot that fires due timers, reschedules recurring ones and routes
// finished or cancelled ones to the removal list.
//
// The three action kinds are foreign code; their integer results are given by
// an outcome oracle from timer id to int.
module Dispatch {
  import opened TimeVals
  import opened TimerEvents
  import opened IdSeqs
  import opened TriggerOrder

  /** What one walk produces: the updated table, the ids fired and the ids queued for removal, in order. */
  datatype Pass = Pass(timers: map<int, TimerEvent>, fired: seq<int>, queued: seq<int>)

  /**
   * The integer a record's action returns. A record without an action has
   * nothing called for it and yields 0; the walk still counts it among the
   * processed (`fired`) ids, as the loop handles it like any other due record.
   */
  function Fire(e: TimerEvent, outcome: int -> int): int
  {
    if e.action == NoAction then 0 else outcome(e.id)
  }

  /** A fired record stays live: positive outcome, relative timer, recurring. */
  predicate Reschedules(e: TimerEvent, outcome: int -> int)
  {
    Fire(e, outcome) > 0 && e.timeslices != ABSOLUTE_TIMER && e.recurring
  }

  /** The record after rescheduling from the captured time `now` (not from its old trigger). */
  function Rescheduled(e: TimerEvent, now: TimeVal): (r: TimerEvent)
    ensures r.id == e.id && r.timeslices == e.timeslices && r.recurring == e.recurring
            && r.cancelled == e.cancelled && r.action == e.action
    ensures r.schedule == now
    // The new trigger is one period after `now`, whatever the old trigger was.
    ensures ValidTime(now) ==>
              Micros(r.trigger) - Micros(now)
                == e.timeslices * 100000 + (if UsecSum(now, e.timeslices) == 999999 then 1000000 else 0)
    ensures ValidTime(now) && e.timeslices >= 0 ==> !Before(r.trigger, now) && ValidTime(r.trigger)
  {
    e.(schedule := now, trigger := AddTimeslices(now, e.timeslices))
  }

  /** Every id of `s` has a record in `m`. */
  predicate AllIn(s: seq<int>, m: map<int, TimerEvent>)
  {
    forall i :: 0 <= i < |s| ==> s[i] in m
  }

  /** A live record whose trigger is not after `now`. */
  predicate Due(m: map<int, TimerEvent>, id: int, now: TimeVal)
  {
    id in m && !m[id].cancelled && !Before(now, m[id].trigger)
  }

  /** The due ids of `s`, in their order in `s`. */
  function DueIds(s: seq<int>, m: map<int, TimerEvent>, now: TimeVal): (r: seq<int>)
    ensures forall k :: k in r <==> k in s && Due(m, k, now)
  {
    if s == [] then []
    else (if Due(m, s[0], now) then [s[0]] else []) + DueIds(s[1..], m, now)
  }

  /**
   * The walk over the snapshot `s`, reading each record from the table as
   * the loop finds it: a cancelled record is queued and skipped; the first
   * live record strictly in the future ends the walk; any other record is
   * fired and then either rescheduled in place or queued.
   */
  function Walk(s: seq<int>, m: map<int, TimerEvent>, now: TimeVal, outcome: int -> int): (p: Pass)
    requires AllIn(s, m)
    ensures p.timers.Keys == m.Keys
    ensures forall k :: k in p.fired ==> k in s
    ensures forall k :: k in p.queued ==> k in s
  {
    if s == [] then Pass(m, [], [])
    else
      var id := s[0];
      var e := m[id];
      if e.cancelled then
        var w := Walk(s[1..], m, now, outcome);
        w.(queued := [id] + w.queued)
      else if Before(now, e.trigger) then
        Pass(m, [], [])
      else if Reschedules(e, outcome) then
        var w := Walk(s[1..], m[id := Rescheduled(e, now)], now, outcome);
        w.(fired := [id] + w.fired)
      else
        var w := Walk(s[1..], m, now, outcome);
        w.(fired := [id] + w.fired, queued := [id] + w.queued)
  }

  /**
   * The same walk in the shape of Tick's for-loop: the state so far is
   * carried along, and ids are appended to the fired and removal lists as the
   * loop appends them.
   */
  function WalkOn(s: seq<int>, p: Pass, now: TimeVal, outcome: int -> int): Pass
    requires AllIn(s, p.timers)
  {
    if s == [] then p
    else
      var id := s[0];
      var e := p.timers[id];
      if e.cancelled then
        WalkOn(s[1..], Pass(p.timers, p.fired, p.queued + [id]), now, outcome)
      else if Before(now, e.trigger) then
        p
      else if Reschedules(e, outcome) then
        WalkOn(s[1..], Pass(p.timers[id := Rescheduled(e, now)], p.fired + [id], p.queued), now, outcome)
      else
        WalkOn(s[1..], Pass(p.timers, p.fired + [id], p.queued + [id]), now, outcome)
  }

  /** The loop-shaped walk extends the lists it starts from by exactly what Walk produces. */
  lemma {:induction false} WalkOnIsWalk(s: seq<int>, m: map<int, TimerEvent>, f: seq<int>, q: seq<int>,
                                        now: TimeVal, outcome: int -> int)
    requires AllIn(s, m)
    ensures var w := Walk(s, m, now, outcome);
      WalkOn(s, Pass(m, f, q), now, outcome) == Pass(w.timers, f + w.fired, q + w.queued)
  {
    if s != [] {
      var id := s[0];
      var e := m[id];
      if e.cancelled {
        WalkOnIsWalk(s[1..], m, f, q + [id], now, outcome);
        var w := Walk(s[1..], m, now, outcome);
        assert (q + [id]) + w.queued == q + ([id] + w.queued);
      } else if Before(now, e.trigger) {
      } else if Reschedules(e, outcome) {
        var m' := m[id := Rescheduled(e, now)];
        WalkOnIsWalk(s[1..], m', f + [id], q, now, outcome);
        var w := Walk(s[1..], m', now, outcome);
        assert (f + [id]) + w.fired == f + ([id] + w.fired);
      } else {
        WalkOnIsWalk(s[1..], m, f + [id], q + [id], now, outcome);
        var w := Walk(s[1..], m, now, outcome);
        assert (f + [id]) + w.fired == f + ([id] + w.fired);
        assert (q + [id]) + w.queued == q + ([id] + w.queued);
      }
    }
  }

  /** Once a live record lies in the future, nothing after it in sorted order is due. */
  lemma {:induction false} NoneDueAfterFuture(s: seq<int>, m: map<int, TimerEvent>, now: TimeVal, t: TimeVal)
    requires SortedByTrigger(s, m)
    requires Before(now, t)
    requires forall i :: 0 <= i < |s| ==> !Before(TriggerOf(m, s[i]), t)
    ensures DueIds(s, m, now) == []
  {
    if s != [] {
      assert !Due(m, s[0], now);
      NoneDueAfterFuture(s[1..], m, now, t);
    }
  }

  /** Updating the record of an id that `s` does not mention changes neither order nor due-ness on `s`. */
  lemma {:induction false} UpdateElsewhere(s: seq<int>, m: map<int, TimerEvent>, x: int, v: TimerEvent, now: TimeVal)
    requires forall i :: 0 <= i < |s| ==> s[i] != x
    ensures DueIds(s, m[x := v], now) == DueIds(s, m, now)
    ensures SortedByTrigger(s, m[x := v]) == SortedByTrigger(s, m)
  {
    assert forall i :: 0 <= i < |s| ==> TriggerOf(m[x := v], s[i]) == TriggerOf(m, s[i]);
    if s != [] {
      UpdateElsewhere(s[1..], m, x, v, now);
    }
  }

  /**
   * On a duplicate-free snapshot sorted by trigger, the walk fires exactly the
   * due ids, in snapshot order: cancelled records are passed over, and the
   * walk stops only where no later record can be due.
   */
  lemma {:induction false} WalkFiresExactlyDue(s: seq<int>, m: map<int, TimerEvent>, now: TimeVal, outcome: int -> int)
    requires AllIn(s, m) && Distinct(s) && SortedByTrigger(s, m)
    ensures Walk(s, m, now, outcome).fired == DueIds(s, m, now)
  {
    if s != [] {
      var id, e, rest := s[0], m[s[0]], s[1..];
      assert Distinct(rest) && SortedByTrigger(rest, m);
      if e.cancelled {
        WalkFiresExactlyDue(rest, m, now, outcome);
      } else if Before(now, e.trigger) {
        assert forall i :: 0 <= i < |s| ==> !Before(TriggerOf(m, s[i]), e.trigger) by {
          assert forall i :: 0 < i < |s| ==> !Before(TriggerOf(m, s[i]), TriggerOf(m, s[0]));
        }
        NoneDueAfterFuture(s, m, now, e.trigger);
      } else {
        var m' := if Reschedules(e, outcome) then m[id := Rescheduled(e, now)] else m;
        assert forall i :: 0 <= i < |rest| ==> rest[i] != id;
        UpdateElsewhere(rest, m, id, Rescheduled(e, now), now);
        WalkFiresExactlyDue(rest, m', now, outcome);
      }
    }
  }

  /**
   * The fate of every record in one walk over a duplicate-free snapshot:
   * what was not fired is untouched; what was fired was due; a fired record
   * is rescheduled from `now` exactly when Reschedules holds and is queued
   * otherwise; and only cancelled or finished records are queued.
   */
  lemma {:induction false} WalkFate(s: seq<int>, m: map<int, TimerEvent>, now: TimeVal, outcome: int -> int)
    requires AllIn(s, m) && Distinct(s)
    ensures var p := Walk(s, m, now, outcome);
      && (forall k :: k in m && k !in p.fired ==> p.timers[k] == m[k])
      && (forall k :: k in p.fired ==> Due(m, k, now))
      && (forall k :: k in p.fired && Reschedules(m[k], outcome) ==>
            p.timers[k] == Rescheduled(m[k], now) && k !in p.queued)
      && (forall k :: k in p.fired && !Reschedules(m[k], outcome) ==> k in p.queued && p.timers[k] == m[k])
      && (forall k :: k in p.queued ==> m[k].cancelled || (k in p.fired && !Reschedules(m[k], outcome)))
  {
    if s != [] {
      var id, e, rest := s[0], m[s[0]], s[1..];
      assert Distinct(rest);
      assert id !in rest by { assert forall i :: 0 <= i < |rest| ==> rest[i] != id; }
      if e.cancelled {
        WalkFate(rest, m, now, outcome);
      } else if Before(now, e.trigger) {
      } else if Reschedules(e, outcome) {
        var m' := m[id := Rescheduled(e, now)];
        assert AllIn(rest, m');
        WalkFate(rest, m', now, outcome);
        var w := Walk(rest, m', now, outcome);
        assert id !in w.fired && id !in w.queued;
        assert forall k :: k != id ==> (k in m' <==> k in m) && (k in m ==> m'[k] == m[k]);
      } else {
        WalkFate(rest, m, now, outcome);
      }
    }
  }

  /** Each due id of a duplicate-free snapshot occurs once among the due ids. */
  lemma {:induction false} DueIdsDistinct(s: seq<int>, m: map<int, TimerEvent>, now: TimeVal)
    requires Distinct(s)
    ensures Distinct(DueIds(s, m, now))
  {
    if s != [] {
      assert Distinct(s[1..]);
      DueIdsDistinct(s[1..], m, now);
      assert s[0] !in s[1..];
    }
  }

  /** The due ids of a sorted snapshot are themselves in trigger order. */
  lemma {:induction false} DueIdsSorted(s: seq<int>, m: map<int, TimerEvent>, now: TimeVal)
    requires SortedByTrigger(s, m)
    ensures SortedByTrigger(DueIds(s, m, now), m)
  {
    if s != [] {
      assert SortedByTrigger(s[1..], m);
      DueIdsSorted(s[1..], m, now);
      var d := DueIds(s[1..], m, now);
      forall i | 0 <= i < |d|
        ensures !Before(TriggerOf(m, d[i]), TriggerOf(m, s[0]))
      {
        assert d[i] in d;
        var k :| 0 <= k < |s[1..]| && s[1..][k] == d[i];
        assert s[k + 1] == d[i];
      }
    }
  }

  /**
   * The pass Tick runs: sort the table's ids by trigger, then walk them. When
   * the vector and the table hold the same ids once each, the ids processed
   * are exactly the live records due at `now`, each once, in the order of the
   * sorted snapshot.
   */
  lemma PassFiresExactlyDue(sorted: seq<int>, m: map<int, TimerEvent>, now: TimeVal, outcome: int -> int)
    requires Distinct(sorted) && forall k :: k in m <==> k in sorted
    ensures var snap := StableSortByTrigger(sorted, m);
      AllIn(snap, m) &&
      var fired := Walk(snap, m, now, outcome).fired;
      && fired == DueIds(snap, m, now)
      && Distinct(fired)
      && (forall k :: k in fired <==> Due(m, k, now))
      && SortedByTrigger(fired, m)
  {
    var snap := StableSortByTrigger(sorted, m);
    assert forall k :: k in snap <==> k in sorted by {
      assert forall k :: k in snap <==> k in multiset(snap);
      assert forall k :: k in sorted <==> k in multiset(sorted);
    }
    SortIsSorted(sorted, m);
    SortKeepsDistinct(sorted, m);
    WalkFiresExactlyDue(snap, m, now, outcome);
    DueIdsSorted(snap, m, now);
    DueIdsDistinct(snap, m, now);
  }

  /**
   * The fate of each record over the whole of Tick on values: sort, walk,
   * then drop every id that was queued before the pass or during it. When the
   * vector and the table hold the same ids once each and exactly the
   * cancelled records are queued, a fired record is rescheduled from `now` or
   * is gone, cancelled records are gone, and every other record is untouched.
   */
  lemma PassFates(sorted: seq<int>, m: map<int, TimerEvent>, q: seq<int>, now: TimeVal, outcome: int -> int)
    requires Distinct(sorted) && (forall k :: k in m <==> k in sorted)
    requires forall k :: k in m ==> (m[k].cancelled <==> k in q)
    ensures var snap := StableSortByTrigger(sorted, m);
      AllIn(snap, m) &&
      var w := Walk(snap, m, now, outcome);
      var gone := Elems(q + w.queued);
      var m', s' := w.timers - gone, Without(snap, gone);
      && (forall k :: k in w.fired && Reschedules(m[k], outcome) ==> k in m' && m'[k] == Rescheduled(m[k], now))
      && (forall k :: k in w.fired && !Reschedules(m[k], outcome) ==> k !in m' && k !in s')
      && (forall k :: k in q ==> k !in m' && k !in s')
      && (forall k :: k in m && k !in w.fired && k !in q ==> k in m' && m'[k] == m[k])
  {
    var snap := StableSortByTrigger(sorted, m);
    assert forall k :: k in snap <==> k in sorted by {
      assert forall k :: k in snap <==> k in multiset(snap);
      assert forall k :: k in sorted <==> k in multiset(sorted);
    }
    SortKeepsDistinct(sorted, m);
    WalkFate(snap, m, now, outcome);
  }
}
