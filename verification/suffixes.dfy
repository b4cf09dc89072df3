/**
  Ignored-suffix trimming, shared by the generic engine and the company-name
  engine: one pass over the suffix list, in list order, each suffix removed
  at most once and only when the key currently ends with it.
*/
module Suffixes {
  import opened Strings

  /** `key.EndsWith(suffix) ? key[..^suffix.Length] : key` */
  function TrimOnce(key: string, suffix: string): (r: string)
    ensures EndsWith(key, suffix) ==> r + suffix == key
    ensures !EndsWith(key, suffix) ==> r == key
    ensures r <= key
  {
    if EndsWith(key, suffix) then DropLast(key, |suffix|) else key
  }

  /** The `foreach (var suffix in suffixes)` loop, applied left to right. */
  function TrimSuffixes(key: string, suffixes: seq<string>): (r: string)
    ensures r <= key
    decreases |suffixes|, key
  {
    if |suffixes| == 0 then key
    else
      var once := TrimOnce(key, suffixes[0]);
      var rest := TrimSuffixes(once, suffixes[1..]);
      PrefixTransitive(rest, once, key);
      rest
  }

  function SumLengths(suffixes: seq<string>): (n: nat)
  {
    if |suffixes| == 0 then 0 else |suffixes[0]| + SumLengths(suffixes[1..])
  }

  /** Each suffix is removed at most once, so the pass removes at most their total length. */
  lemma {:induction false} TrimSuffixesBound(key: string, suffixes: seq<string>)
    ensures |key| - SumLengths(suffixes) <= |TrimSuffixes(key, suffixes)|
    decreases |suffixes|
  {
    if |suffixes| > 0 {
      TrimSuffixesBound(TrimOnce(key, suffixes[0]), suffixes[1..]);
    }
  }

  lemma PrefixTransitive(a: string, b: string, c: string)
    requires a <= b && b <= c
    ensures a <= c
  {
    assert c[..|a|] == b[..|a|];
  }

  /**
    The pass is a left fold: trimming with one more suffix at the end trims
    the result of the shorter list once more, so no suffix is revisited.
  */
  lemma {:induction false} TrimSuffixesSnoc(key: string, suffixes: seq<string>, last: string)
    ensures TrimSuffixes(key, suffixes + [last]) == TrimOnce(TrimSuffixes(key, suffixes), last)
    decreases |suffixes|
  {
    if |suffixes| == 0 {
      assert suffixes + [last] == [last];
    } else {
      assert (suffixes + [last])[1..] == suffixes[1..] + [last];
      TrimSuffixesSnoc(TrimOnce(key, suffixes[0]), suffixes[1..], last);
    }
  }

  /** Trimming with a concatenated list is trimming with the first part, then the second. */
  lemma {:induction false} TrimSuffixesAppend(key: string, first: seq<string>, second: seq<string>)
    ensures TrimSuffixes(key, first + second) == TrimSuffixes(TrimSuffixes(key, first), second)
    decreases |first|
  {
    if |first| == 0 {
      assert first + second == second;
    } else {
      assert (first + second)[1..] == first[1..] + second;
      TrimSuffixesAppend(TrimOnce(key, first[0]), first[1..], second);
    }
  }

  /** A key that ends with none of the suffixes at any step is left unchanged. */
  lemma {:induction false} TrimWithoutMatchesIsIdentity(key: string, suffixes: seq<string>)
    requires forall i :: 0 <= i < |suffixes| ==> !EndsWith(key, suffixes[i])
    ensures TrimSuffixes(key, suffixes) == key
    decreases |suffixes|
  {
    if |suffixes| > 0 {
      TrimWithoutMatchesIsIdentity(key, suffixes[1..]);
    }
  }
}
