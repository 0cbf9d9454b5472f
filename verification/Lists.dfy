/** Lists without duplicates and the sets of their elements. */
module Lists {

  ghost predicate Distinct<T>(s: seq<T>) { forall i, j :: 0 <= i < j < |s| ==> s[i] != s[j] }

  ghost function Elems<T>(s: seq<T>): set<T> { set x | x in s }

  lemma {:induction false} DistinctSize<T>(s: seq<T>)
    requires Distinct(s)
    ensures |Elems(s)| == |s|
  {
    if |s| > 0 {
      var n := |s| - 1;
      DistinctSize(s[..n]);
      assert Elems(s) == Elems(s[..n]) + {s[n]};
    }
  }

  /** A list that is as long as its set of elements is large has no duplicates. */
  lemma {:induction false} SizeDistinct<T>(s: seq<T>)
    ensures |Elems(s)| <= |s| && (|Elems(s)| == |s| ==> Distinct(s))
  {
    if |s| > 0 {
      var n := |s| - 1;
      SizeDistinct(s[..n]);
      assert Elems(s) == Elems(s[..n]) + {s[n]};
      if s[n] in s[..n] { assert Elems(s) == Elems(s[..n]); }
    }
  }

  lemma {:induction false} SubsetCard<T>(a: set<T>, b: set<T>)
    requires a <= b
    ensures |a| <= |b|
  {
    if a != {} {
      var x :| x in a;
      SubsetCard(a - {x}, b - {x});
    }
  }

  lemma SameSizeSubset<T>(a: set<T>, b: set<T>)
    requires a <= b && |a| == |b|
    ensures a == b
  {
    if a != b {
      var x :| x in b && x !in a;
      SubsetCard(a, b - {x});
    }
  }

  /** Some of a list, in order: things can be lost on the way, but not altered or invented. */
  ghost predicate PartOf<T>(got: seq<T>, all: seq<T>) {
    if |got| == 0 then true
    else |all| > 0 && ((got[0] == all[0] && PartOf(got[1..], all[1..])) || PartOf(got, all[1..]))
  }

  lemma {:induction false} AllOfIt<T>(got: seq<T>, all: seq<T>)
    requires PartOf(got, all)
    ensures |got| <= |all| && (|got| == |all| ==> got == all)
  {
    if |got| > 0 {
      if got[0] == all[0] && PartOf(got[1..], all[1..]) { AllOfIt(got[1..], all[1..]); }
      if PartOf(got, all[1..]) { AllOfIt(got, all[1..]); }
    }
  }
}
