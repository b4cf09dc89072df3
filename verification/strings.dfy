/**
  Character and string helpers shared by both engines: ordinal
  (character-by-character) comparison, suffix tests, and the descending
  sort that configuration uses to order the ignored suffixes.
*/
module Strings {

  /** `s.EndsWith(suffix)` under ordinal comparison. */
  predicate EndsWith(s: string, suffix: string)
  {
    |suffix| <= |s| && s[|s| - |suffix|..] == suffix
  }

  /** `s[..^n]`: drop the last n characters. */
  function DropLast(s: string, n: nat): (r: string)
    requires n <= |s|
    ensures |r| == |s| - n && r <= s
  {
    s[..|s| - n]
  }

  /**
    Ordinal comparison `String.CompareOrdinal(a, b) <= 0`: the first differing
    character decides and a proper prefix is smaller.  Characters are Unicode
    scalar values here, not UTF-16 code units.
  */
  predicate OrdinalLessEq(a: string, b: string)
    decreases |a|
  {
    if |a| == 0 then true
    else if |b| == 0 then false
    else if a[0] != b[0] then a[0] < b[0]
    else OrdinalLessEq(a[1..], b[1..])
  }

  lemma {:induction false} OrdinalReflexive(a: string)
    ensures OrdinalLessEq(a, a)
    decreases |a|
  {
    if |a| > 0 {
      OrdinalReflexive(a[1..]);
    }
  }

  lemma {:induction false} OrdinalTotal(a: string, b: string)
    ensures OrdinalLessEq(a, b) || OrdinalLessEq(b, a)
    decreases |a|
  {
    if |a| > 0 && |b| > 0 && a[0] == b[0] {
      OrdinalTotal(a[1..], b[1..]);
    }
  }

  lemma {:induction false} OrdinalAntisymmetric(a: string, b: string)
    requires OrdinalLessEq(a, b) && OrdinalLessEq(b, a)
    ensures a == b
    decreases |a|
  {
    if |a| > 0 {
      OrdinalAntisymmetric(a[1..], b[1..]);
      assert a == [a[0]] + a[1..] && b == [b[0]] + b[1..];
    }
  }

  lemma {:induction false} OrdinalTransitive(a: string, b: string, c: string)
    requires OrdinalLessEq(a, b) && OrdinalLessEq(b, c)
    ensures OrdinalLessEq(a, c)
    decreases |a|
  {
    if |a| > 0 && |b| > 0 && |c| > 0 && a[0] == b[0] && b[0] == c[0] {
      OrdinalTransitive(a[1..], b[1..], c[1..]);
    }
  }

  /** Every element is ordinally at least every later element. */
  predicate SortedDescending(xs: seq<string>)
  {
    forall i, j :: 0 <= i < j < |xs| ==> OrdinalLessEq(xs[j], xs[i])
  }

  /** Insert `x` before the first element it is at least as large as. */
  function InsertDescending(x: string, xs: seq<string>): (r: seq<string>)
    requires SortedDescending(xs)
    ensures SortedDescending(r)
    ensures multiset(r) == multiset(xs) + multiset{x}
    ensures |xs| > 0 && OrdinalLessEq(xs[0], x) ==> r == [x] + xs
  {
    if |xs| == 0 then [x]
    else if OrdinalLessEq(xs[0], x) then
      TransitiveAfterHead(x, xs);
      [x] + xs
    else
      var rest := InsertDescending(x, xs[1..]);
      OrdinalTotal(xs[0], x);
      HeadDominates(xs[0], xs[1..], x, rest);
      assert xs == [xs[0]] + xs[1..];
      [xs[0]] + rest
  }

  /** A sorted list whose head is at most x stays sorted with x in front. */
  lemma TransitiveAfterHead(x: string, xs: seq<string>)
    requires SortedDescending(xs) && |xs| > 0 && OrdinalLessEq(xs[0], x)
    ensures SortedDescending([x] + xs)
  {
    forall j | 0 < j < |xs|
      ensures OrdinalLessEq(xs[j], x)
    {
      OrdinalTransitive(xs[j], xs[0], x);
    }
  }

  /** A head at least as large as every element of a sorted tail keeps the list sorted. */
  lemma HeadDominates(h: string, tail: seq<string>, x: string, rest: seq<string>)
    requires SortedDescending(rest) && OrdinalLessEq(x, h)
    requires forall j :: 0 <= j < |tail| ==> OrdinalLessEq(tail[j], h)
    requires multiset(rest) == multiset(tail) + multiset{x}
    ensures SortedDescending([h] + rest)
  {
    forall j | 0 <= j < |rest|
      ensures OrdinalLessEq(rest[j], h)
    {
      assert rest[j] in multiset(rest);
      if rest[j] != x {
        assert rest[j] in multiset(tail);
      }
    }
  }

  /**
    `OrderByDescending(x => x)` under ordinal comparison, as an insertion
    sort.  The ordering is stable in the source, but elements that compare
    equal are equal strings, so stability is not observable.
  */
  function SortDescending(xs: seq<string>): (r: seq<string>)
    ensures SortedDescending(r)
    ensures multiset(r) == multiset(xs)
  {
    if |xs| == 0 then []
    else
      assert xs == [xs[0]] + xs[1..];
      InsertDescending(xs[0], SortDescending(xs[1..]))
  }

  /** Sorting an already sorted list changes nothing. */
  lemma {:induction false} SortSortedIsIdentity(xs: seq<string>)
    requires SortedDescending(xs)
    ensures SortDescending(xs) == xs
  {
    if |xs| > 0 {
      SortSortedIsIdentity(xs[1..]);
      if |xs| > 1 {
        assert xs == [xs[0]] + xs[1..];
      }
    }
  }

  /** Two sorted permutations of one list are equal, so the sorted result does not depend on the algorithm. */
  lemma {:induction false} SortedPermutationUnique(xs: seq<string>, ys: seq<string>)
    requires SortedDescending(xs) && SortedDescending(ys)
    requires multiset(xs) == multiset(ys)
    ensures xs == ys
    decreases |xs|
  {
    if |xs| > 0 {
      assert |ys| == |multiset(ys)| == |multiset(xs)| == |xs|;
      SameHead(xs, ys);
      MultisetTail(xs);
      MultisetTail(ys);
      SortedPermutationUnique(xs[1..], ys[1..]);
      assert xs == [xs[0]] + xs[1..] && ys == [ys[0]] + ys[1..];
    }
  }

  lemma MultisetTail(xs: seq<string>)
    requires |xs| > 0
    ensures multiset(xs[1..]) == multiset(xs) - multiset{xs[0]}
  {
    assert xs == [xs[0]] + xs[1..];
  }

  /** Sorted permutations agree on their largest element. */
  lemma SameHead(xs: seq<string>, ys: seq<string>)
    requires SortedDescending(xs) && SortedDescending(ys)
    requires multiset(xs) == multiset(ys) && |xs| > 0 && |ys| > 0
    ensures xs[0] == ys[0]
  {
    assert xs[0] in multiset(ys);
    assert ys[0] in multiset(xs);
    var i :| 0 <= i < |ys| && ys[i] == xs[0];
    var j :| 0 <= j < |xs| && xs[j] == ys[0];
    assert OrdinalLessEq(xs[0], ys[0]) by {
      if i == 0 { OrdinalReflexive(xs[0]); } else { assert OrdinalLessEq(ys[i], ys[0]); }
    }
    assert OrdinalLessEq(ys[0], xs[0]) by {
      if j == 0 { OrdinalReflexive(ys[0]); } else { assert OrdinalLessEq(xs[j], xs[0]); }
    }
    OrdinalAntisymmetric(xs[0], ys[0]);
  }
}
