// The order of the timer vector: `stable_sort` by trigger time with the
// comparator "trigger strictly earlier". The vector holds ids; the sort key of
// an id is the trigger of its record in the timer table.
module TriggerOrder {
  import opened TimeVals
  import opened TimerEvents
  import opened IdSeqs

  /** Non-decreasing by trigger: no id has a later id that fires strictly earlier. */
  predicate SortedByTrigger(s: seq<int>, m: map<int, TimerEvent>)
  {
    forall i, j :: 0 <= i < j < |s| ==> !Before(TriggerOf(m, s[j]), TriggerOf(m, s[i]))
  }

  /**
   * Puts `x` into a sorted sequence after every id whose trigger is not later
   * than its own, so that among equal triggers it comes last.
   */
  function InsertByTrigger(x: int, s: seq<int>, m: map<int, TimerEvent>): (r: seq<int>)
    ensures multiset(r) == multiset(s) + multiset{x}
  {
    if s == [] then [x]
    else
      var init, last := s[..|s| - 1], s[|s| - 1];
      assert s == init + [last];
      if Before(TriggerOf(m, x), TriggerOf(m, last)) then InsertByTrigger(x, init, m) + [last]
      else s + [x]
  }

  /** `std::stable_sort` by trigger, as an insertion sort taking ids from the front. */
  function StableSortByTrigger(s: seq<int>, m: map<int, TimerEvent>): (r: seq<int>)
    ensures multiset(r) == multiset(s)
  {
    if s == [] then []
    else
      assert s == s[..|s| - 1] + [s[|s| - 1]];
      InsertByTrigger(s[|s| - 1], StableSortByTrigger(s[..|s| - 1], m), m)
  }

  /** The ids of `s` whose trigger is `t`, in their order in `s`. */
  function WithTrigger(s: seq<int>, m: map<int, TimerEvent>, t: TimeVal): seq<int>
  {
    if s == [] then []
    else WithTrigger(s[..|s| - 1], m, t) + (if TriggerOf(m, s[|s| - 1]) == t then [s[|s| - 1]] else [])
  }

  lemma SortedAppend(s: seq<int>, x: int, m: map<int, TimerEvent>)
    requires SortedByTrigger(s, m)
    requires forall i :: 0 <= i < |s| ==> !Before(TriggerOf(m, x), TriggerOf(m, s[i]))
    ensures SortedByTrigger(s + [x], m)
  {
  }

  /** Insertion keeps the sequence sorted. */
  lemma {:induction false} InsertKeepsSorted(x: int, s: seq<int>, m: map<int, TimerEvent>)
    requires SortedByTrigger(s, m)
    ensures SortedByTrigger(InsertByTrigger(x, s, m), m)
  {
    if s != [] {
      var init, last := s[..|s| - 1], s[|s| - 1];
      if Before(TriggerOf(m, x), TriggerOf(m, last)) {
        InsertKeepsSorted(x, init, m);
        var r := InsertByTrigger(x, init, m);
        forall i | 0 <= i < |r|
          ensures !Before(TriggerOf(m, last), TriggerOf(m, r[i]))
        {
          assert r[i] in multiset(r);
          if r[i] != x {
            assert r[i] in multiset(init);
            var k :| 0 <= k < |init| && init[k] == r[i];
            assert s[k] == r[i];
          }
        }
        SortedAppend(r, last, m);
      } else {
        assert forall i :: 0 <= i < |s| ==> !Before(TriggerOf(m, x), TriggerOf(m, s[i]));
        SortedAppend(s, x, m);
      }
    }
  }

  /** The stable sort yields a sequence sorted by trigger. */
  lemma {:induction false} SortIsSorted(s: seq<int>, m: map<int, TimerEvent>)
    ensures SortedByTrigger(StableSortByTrigger(s, m), m)
  {
    if s != [] {
      SortIsSorted(s[..|s| - 1], m);
      InsertKeepsSorted(s[|s| - 1], StableSortByTrigger(s[..|s| - 1], m), m);
    }
  }

  /** Appending an id extends the ids of its trigger by that id. */
  lemma WithTriggerSnoc(s: seq<int>, x: int, m: map<int, TimerEvent>, t: TimeVal)
    ensures WithTrigger(s + [x], m, t) == WithTrigger(s, m, t) + (if TriggerOf(m, x) == t then [x] else [])
  {
    assert (s + [x])[..|s|] == s;
  }

  /** Insertion appends `x` to the ids sharing its trigger and leaves every other trigger's ids alone. */
  lemma {:induction false} InsertWithTrigger(x: int, s: seq<int>, m: map<int, TimerEvent>, t: TimeVal)
    ensures WithTrigger(InsertByTrigger(x, s, m), m, t)
         == WithTrigger(s, m, t) + (if TriggerOf(m, x) == t then [x] else [])
  {
    if s == [] {
      WithTriggerSnoc([], x, m, t);
    } else {
      var init, last := s[..|s| - 1], s[|s| - 1];
      assert s == init + [last];
      var tx := if TriggerOf(m, x) == t then [x] else [];
      var tl := if TriggerOf(m, last) == t then [last] else [];
      WithTriggerSnoc(init, last, m, t);
      if Before(TriggerOf(m, x), TriggerOf(m, last)) {
        var r := InsertByTrigger(x, init, m);
        InsertWithTrigger(x, init, m, t);
        WithTriggerSnoc(r, last, m, t);
        assert tx == [] || tl == [];
      } else {
        WithTriggerSnoc(s, x, m, t);
      }
    }
  }

  /**
   * Stability: for every trigger time, the ids with that trigger keep their
   * relative order.
   */
  lemma {:induction false} SortIsStable(s: seq<int>, m: map<int, TimerEvent>, t: TimeVal)
    ensures WithTrigger(StableSortByTrigger(s, m), m, t) == WithTrigger(s, m, t)
  {
    if s != [] {
      var init := s[..|s| - 1];
      SortIsStable(init, m, t);
      InsertWithTrigger(s[|s| - 1], StableSortByTrigger(init, m), m, t);
    }
  }

  /** Inserting an id not yet present keeps the sequence duplicate-free. */
  lemma {:induction false} InsertKeepsDistinct(x: int, s: seq<int>, m: map<int, TimerEvent>)
    requires Distinct(s) && x !in s
    ensures Distinct(InsertByTrigger(x, s, m))
  {
    if s != [] {
      var init, last := s[..|s| - 1], s[|s| - 1];
      if Before(TriggerOf(m, x), TriggerOf(m, last)) {
        assert x !in init by { assert forall k :: 0 <= k < |init| ==> init[k] == s[k]; }
        InsertKeepsDistinct(x, init, m);
        var r := InsertByTrigger(x, init, m);
        assert last !in multiset(init) by {
          assert forall k :: 0 <= k < |init| ==> init[k] == s[k] != last;
        }
        assert last != x;
        assert multiset(r)[last] == 0;
      }
    }
  }

  /** The stable sort keeps a duplicate-free sequence duplicate-free. */
  lemma {:induction false} SortKeepsDistinct(s: seq<int>, m: map<int, TimerEvent>)
    requires Distinct(s)
    ensures Distinct(StableSortByTrigger(s, m))
  {
    if s != [] {
      var init, last := s[..|s| - 1], s[|s| - 1];
      SortKeepsDistinct(init, m);
      assert last !in multiset(init) by {
        assert forall k :: 0 <= k < |init| ==> init[k] == s[k] != last;
      }
      InsertKeepsDistinct(last, StableSortByTrigger(init, m), m);
    }
  }

  /** Changing the record of an id that `s` does not mention leaves each trigger's ids in `s` alone. */
  lemma {:induction false} WithTriggerElsewhere(s: seq<int>, m: map<int, TimerEvent>, e: TimerEvent, t: TimeVal)
    requires forall i :: 0 <= i < |s| ==> s[i] != e.id
    ensures WithTrigger(s, m[e.id := e], t) == WithTrigger(s, m, t)
  {
    if s != [] {
      WithTriggerElsewhere(s[..|s| - 1], m, e, t);
    }
  }

  /**
   * What a registration does to the vector (push_back, then stable_sort): the
   * new id joins the ids sharing its trigger as the last of them, and every
   * other trigger's ids keep their order.
   */
  lemma EnrollOrder(s: seq<int>, m: map<int, TimerEvent>, e: TimerEvent, t: TimeVal)
    requires e.id !in s
    ensures var m' := m[e.id := e];
      WithTrigger(StableSortByTrigger(s + [e.id], m'), m', t)
        == WithTrigger(s, m, t) + (if e.trigger == t then [e.id] else [])
  {
    var m' := m[e.id := e];
    SortIsStable(s + [e.id], m', t);
    assert (s + [e.id])[..|s|] == s;
    assert forall i :: 0 <= i < |s| ==> s[i] != e.id by { assert forall i :: 0 <= i < |s| ==> s[i] in s; }
    WithTriggerElsewhere(s, m, e, t);
  }
}
