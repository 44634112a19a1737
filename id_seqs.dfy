// Sequences of timer ids: the sorted vector and the pending-removal list
// hold ids, and removal from the vector is a filter over them.
module IdSeqs {

  /** No id occurs twice. */
  predicate Distinct(s: seq<int>)
  {
    forall i, j :: 0 <= i < j < |s| ==> s[i] != s[j]
  }

  /** The ids a sequence mentions. */
  function Elems(s: seq<int>): set<int>
  {
    set x | x in s
  }

  /** `s` with every id in `gone` dropped, the rest in their original order. */
  function Without(s: seq<int>, gone: set<int>): (r: seq<int>)
    ensures forall x :: x in r <==> x in s && x !in gone
    ensures |r| <= |s|
  {
    if s == [] then [] else (if s[0] in gone then [] else [s[0]]) + Without(s[1..], gone)
  }

  /** Dropping ids keeps a duplicate-free sequence duplicate-free. */
  lemma {:induction false} WithoutDistinct(s: seq<int>, gone: set<int>)
    requires Distinct(s)
    ensures Distinct(Without(s, gone))
  {
    if s != [] {
      assert Distinct(s[1..]);
      WithoutDistinct(s[1..], gone);
      assert s[0] !in s[1..];
    }
  }

  /** Dropping ids a sequence does not mention leaves it as it is. */
  lemma {:induction false} WithoutAbsent(s: seq<int>, gone: set<int>)
    requires forall i :: 0 <= i < |s| ==> s[i] !in gone
    ensures Without(s, gone) == s
  {
    if s != [] {
      WithoutAbsent(s[1..], gone);
      assert [s[0]] + s[1..] == s;
    }
  }

  /** Dropping in two rounds is dropping the union once. */
  lemma {:induction false} WithoutTwice(s: seq<int>, a: set<int>, b: set<int>)
    ensures Without(Without(s, a), b) == Without(s, a + b)
  {
    if s != [] {
      WithoutTwice(s[1..], a, b);
      var head := if s[0] in a then [] else [s[0]];
      assert Without(s, a) == head + Without(s[1..], a);
      if s[0] in a {
        assert Without(s, a) == Without(s[1..], a);
      } else {
        assert Without(s, a)[0] == s[0];
        assert Without(s, a)[1..] == Without(s[1..], a);
      }
    }
  }

  /** Dropping ids from a concatenation drops them from each part. */
  lemma {:induction false} WithoutConcat(a: seq<int>, b: seq<int>, gone: set<int>)
    ensures Without(a + b, gone) == Without(a, gone) + Without(b, gone)
  {
    if a == [] {
      assert a + b == b;
    } else {
      assert (a + b)[0] == a[0] && (a + b)[1..] == a[1..] + b;
      WithoutConcat(a[1..], b, gone);
    }
  }

  /** A sequence is its prefix, the element at `j` and its suffix. */
  lemma SplitAt(s: seq<int>, j: int)
    requires 0 <= j < |s|
    ensures s == s[..j] + ([s[j]] + s[j + 1..])
  {
    assert s[j..] == [s[j]] + s[j + 1..];
    assert s == s[..j] + s[j..];
  }

  /**
   * In a duplicate-free sequence, erasing the element at position `j` (what
   * `vector::erase` does) is dropping that id.
   */
  lemma EraseIsWithout(s: seq<int>, j: int)
    requires Distinct(s) && 0 <= j < |s|
    ensures s[..j] + s[j + 1..] == Without(s, {s[j]})
  {
    var x, pre, post := s[j], s[..j], s[j + 1..];
    assert forall i :: 0 <= i < |pre| ==> pre[i] !in {x};
    WithoutAbsent(pre, {x});
    assert forall i :: 0 <= i < |post| ==> post[i] !in {x};
    WithoutAbsent(post, {x});
    assert [x] + post == ([x] + post)[..1] + post;
    assert ([x] + post)[1..] == post;
    assert Without([x] + post, {x}) == post;
    SplitAt(s, j);
    WithoutConcat(pre, [x] + post, {x});
  }
}
