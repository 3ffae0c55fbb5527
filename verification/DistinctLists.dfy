/**
 Lists without repetitions, as both the adapter's disabled interfaces and the scheduler's
 limited devices are kept.
 */
module DistinctLists {
  function SetOf<T(==)>(s: seq<T>): set<T> { set x | x in s }

  ghost predicate AllDifferent<T>(s: seq<T>) {
    forall i, j :: 0 <= i < j < |s| ==> s[i] != s[j]
  }

  lemma EmptySetOf<T>(s: seq<T>)
    ensures SetOf(s) == {} <==> |s| == 0
    ensures s == [] ==> AllDifferent(s)
  {
    if |s| > 0 { assert s[0] in SetOf(s); }
  }

  lemma SnocDistinct<T>(s: seq<T>, x: T)
    requires AllDifferent(s) && x !in SetOf(s)
    ensures AllDifferent(s + [x]) && SetOf(s + [x]) == SetOf(s) + {x}
  {
  }

  lemma {:induction false} SizeOfDistinct<T>(s: seq<T>)
    requires AllDifferent(s)
    ensures |SetOf(s)| == |s|
    decreases |s|
  {
    if s != [] {
      var init, x := s[..|s| - 1], s[|s| - 1];
      SizeOfDistinct(init);
      SnocDistinct(init, x);
      assert s == init + [x];
    }
  }

  /** Filling the hole at i with the last element removes exactly the element that was there. */
  lemma FillHole<T>(s: seq<T>, t: seq<T>, i: nat)
    requires i < |s| && AllDifferent(s)
    requires t == if i == |s| - 1 then s[..|s| - 1] else s[..|s| - 1][i := s[|s| - 1]]
    ensures AllDifferent(t) && SetOf(t) == SetOf(s) - {s[i]}
  {
    forall y | y in SetOf(s) && y != s[i] ensures y in SetOf(t) {
      var k :| 0 <= k < |s| && s[k] == y;
      assert t[if k < |t| then k else i] == y;
    }
  }
}
