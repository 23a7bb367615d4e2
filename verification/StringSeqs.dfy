/** Sequences of distinct strings and their elements. */
module StringSeqs {
  import opened StringOrder

  function Elems(s: seq<string>): set<string> { set x | x in s }

  ghost predicate IsLeast(x: string, s: set<string>) {
    x in s && forall y | y in s :: !Less(y, x)
  }

  ghost predicate Distinct(s: seq<string>) {
    forall i, j | 0 <= i < j < |s| :: s[i] != s[j]
  }

  lemma {:induction false} DistinctCount(s: seq<string>)
    requires Distinct(s)
    ensures |Elems(s)| == |s|
  {
    if s == [] {
    } else {
      var n := |s| - 1;
      DistinctCount(s[..n]);
      assert Elems(s) == Elems(s[..n]) + {s[n]};
    }
  }

  lemma Pigeonhole(s: seq<string>, u: set<string>)
    requires Elems(s) <= u && |s| > |u|
    ensures exists i, j :: 0 <= i < j < |s| && s[i] == s[j]
  {
    if Distinct(s) {
      DistinctCount(s);
      Smaller(Elems(s), u);
    }
  }

  lemma Smaller(a: set<string>, b: set<string>)
    requires a <= b
    ensures |a| <= |b|
  {
    assert b == a + (b - a);
  }

  lemma {:induction false} CountDistinct(s: seq<string>)
    requires |Elems(s)| == |s|
    ensures Distinct(s)
  {
    if s == [] {
    } else {
      var n := |s| - 1;
      assert Elems(s) == Elems(s[..n]) + {s[n]};
      ElemsCount(s[..n]);
      CountDistinct(s[..n]);
      assert s[n] !in Elems(s[..n]);
      forall i, j | 0 <= i < j < |s| ensures s[i] != s[j] {
        if j < n { assert s[..n][i] != s[..n][j]; } else { assert s[i] in Elems(s[..n]); }
      }
    }
  }

  lemma {:induction false} ElemsCount(s: seq<string>)
    ensures |Elems(s)| <= |s|
  {
    if s == [] {
    } else {
      var n := |s| - 1;
      ElemsCount(s[..n]);
      assert Elems(s) == Elems(s[..n]) + {s[n]};
    }
  }

  /** Sorting keeps the elements and puts a least one first. */
  lemma SortedQueue(q: seq<string>)
    requires Distinct(q)
    ensures Distinct(Sort(q)) && Elems(Sort(q)) == Elems(q)
    ensures q != [] ==> IsLeast(Sort(q)[0], Elems(q))
  {
    var r := Sort(q);
    SortSorts(q);
    assert Elems(q) == Elems(r) by {
      assert forall x :: (x in q <==> x in multiset(q)) && (x in r <==> x in multiset(r));
    }
    DistinctCount(q);
    CountDistinct(r);
    if q != [] {
      forall y | y in Elems(q) ensures !Less(y, r[0]) {
        var k :| 0 <= k < |r| && r[k] == y;
        LessIrreflexive(r[0]);
      }
    }
  }
}
