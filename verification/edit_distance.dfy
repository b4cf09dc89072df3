/**
  Levenshtein distance as a specification: the minimum number of single
  character insertions, deletions and substitutions turning one string into
  the other.  It stands in for the library call the Levenshtein matcher makes.
*/
module EditDistance {

  function Min3(a: nat, b: nat, c: nat): (m: nat)
    ensures m <= a && m <= b && m <= c
    ensures m == a || m == b || m == c
  {
    if a <= b && a <= c then a else if b <= c then b else c
  }

  /** Delete the first character of a, insert the first character of b, or match/substitute the two first characters. */
  function Distance(a: string, b: string): nat
    decreases |a| + |b|
  {
    if |a| == 0 then |b|
    else if |b| == 0 then |a|
    else Min3(Distance(a[1..], b) + 1,
              Distance(a, b[1..]) + 1,
              Distance(a[1..], b[1..]) + (if a[0] == b[0] then 0 else 1))
  }

  lemma {:induction false} DistanceSymmetric(a: string, b: string)
    ensures Distance(a, b) == Distance(b, a)
    decreases |a| + |b|
  {
    if |a| > 0 && |b| > 0 {
      DistanceSymmetric(a[1..], b);
      DistanceSymmetric(a, b[1..]);
      DistanceSymmetric(a[1..], b[1..]);
    }
  }

  /** The distance is at least the difference in length. */
  lemma {:induction false} DistanceAtLeastLengthGap(a: string, b: string)
    ensures |a| - |b| <= Distance(a, b) && |b| - |a| <= Distance(a, b)
    decreases |a| + |b|
  {
    if |a| > 0 && |b| > 0 {
      DistanceAtLeastLengthGap(a[1..], b);
      DistanceAtLeastLengthGap(a, b[1..]);
      DistanceAtLeastLengthGap(a[1..], b[1..]);
    }
  }

  /** The distance never exceeds the length of the longer string. */
  lemma {:induction false} DistanceAtMostLonger(a: string, b: string)
    ensures Distance(a, b) <= if |a| < |b| then |b| else |a|
    decreases |a| + |b|
  {
    if |a| > 0 && |b| > 0 {
      DistanceAtMostLonger(a[1..], b[1..]);
    }
  }

  /** Appending s costs at most |s| insertions. */
  lemma {:induction false} DistanceToExtension(a: string, s: string)
    ensures Distance(a, a + s) <= |s|
    decreases |a|
  {
    if |a| > 0 {
      assert (a + s)[0] == a[0] && (a + s)[1..] == a[1..] + s;
      if |s| > 0 || |a| > 0 {
        DistanceToExtension(a[1..], s);
      }
    }
  }

  /** Dropping a prefix x costs at most |x| deletions. */
  lemma {:induction false} DistanceFromPrefixed(x: string, a: string)
    ensures Distance(x + a, a) <= |x|
    decreases |x|
  {
    if |x| == 0 {
      DistanceToExtension(a, []);
      assert x + a == a + [] == a;
    } else if |a| == 0 {
      assert x + a == x;
    } else {
      assert (x + a)[1..] == x[1..] + a;
      DistanceFromPrefixed(x[1..], a);
    }
  }

  /** A shared first character never increases the distance. */
  lemma SharedHead(c: char, a: string, b: string)
    ensures Distance([c] + a, [c] + b) <= Distance(a, b)
  {
    assert ([c] + a)[1..] == a && ([c] + b)[1..] == b;
  }

  /** A shared prefix never increases the distance. */
  lemma {:induction false} SharedPrefix(p: string, a: string, b: string)
    ensures Distance(p + a, p + b) <= Distance(a, b)
    decreases |p|
  {
    if |p| == 0 {
      assert p + a == a && p + b == b;
    } else {
      SharedPrefix(p[1..], a, b);
      SharedHead(p[0], p[1..] + a, p[1..] + b);
      assert p + a == [p[0]] + (p[1..] + a);
      assert p + b == [p[0]] + (p[1..] + b);
    }
  }

  /** Distance zero exactly for equal strings. */
  lemma {:induction false} DistanceZeroIffEqual(a: string, b: string)
    ensures Distance(a, b) == 0 <==> a == b
    decreases |a| + |b|
  {
    if a == b {
      DistanceToExtension(a, []);
      assert a + [] == a;
    } else if |a| > 0 && |b| > 0 {
      DistanceAtLeastLengthGap(a[1..], b);
      DistanceAtLeastLengthGap(a, b[1..]);
      if a[0] == b[0] {
        DistanceZeroIffEqual(a[1..], b[1..]);
        assert a == [a[0]] + a[1..] && b == [b[0]] + b[1..];
      }
    }
  }
}
