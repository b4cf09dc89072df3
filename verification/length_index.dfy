/**
  The fuzzy-matching index of the generic engine: a dictionary from key
  length to the set of stored keys of that length.  Each set is an
  insertion-ordered, duplicate-free sequence.
*/
module LengthIndex {

  type Index = map<int, seq<string>>

  /** The keys filed under length n (empty when the length has no entry). */
  function Bucket(ix: Index, n: int): seq<string>
  {
    if n in ix then ix[n] else []
  }

  /** No bucket holds a key twice. */
  predicate DuplicateFree(ix: Index)
  {
    forall n | n in ix :: forall i, j :: 0 <= i < j < |ix[n]| ==> ix[n][i] != ix[n][j]
  }

  /** The keys of length n, in their order in `keys`. */
  function OfLength(keys: seq<string>, n: int): (r: seq<string>)
    ensures forall x :: x in r <==> x in keys && |x| == n
  {
    if |keys| == 0 then []
    else
      var last := keys[|keys| - 1];
      assert keys == keys[..|keys| - 1] + [last];
      OfLength(keys[..|keys| - 1], n) + (if |last| == n then [last] else [])
  }

  /** Bucket n holds exactly the keys of length n, in the order they were stored. */
  ghost predicate Mirrors(ix: Index, keys: seq<string>)
  {
    forall n :: Bucket(ix, n) == OfLength(keys, n)
  }

  /** A mirroring index files every key under its own length, and only stored keys. */
  lemma MirrorsFiled(ix: Index, keys: seq<string>)
    requires Mirrors(ix, keys)
    ensures FiledByLength(ix)
    ensures forall x :: x in keys ==> x in Bucket(ix, |x|)
    ensures forall n, x :: x in Bucket(ix, n) ==> x in keys
  {
    forall n | n in ix
      ensures forall x | x in ix[n] :: |x| == n
    {
      assert Bucket(ix, n) == OfLength(keys, n);
    }
    forall x | x in keys
      ensures x in Bucket(ix, |x|)
    {
      assert Bucket(ix, |x|) == OfLength(keys, |x|);
    }
    forall n, x | x in Bucket(ix, n)
      ensures x in keys
    {
      assert Bucket(ix, n) == OfLength(keys, n);
    }
  }

  /**
    The p-th key of length n sits at some position k of `keys`, and the keys
    of length n before position k are exactly the first p of them.
  */
  lemma {:induction false} OfLengthPosition(keys: seq<string>, n: int, p: nat) returns (k: nat)
    requires p < |OfLength(keys, n)|
    ensures k < |keys| && keys[k] == OfLength(keys, n)[p]
    ensures OfLength(keys[..k], n) == OfLength(keys, n)[..p]
    decreases |keys|
  {
    if |keys| > 0 {
      var init := keys[..|keys| - 1];
      var b := OfLength(init, n);
      if p < |b| {
        k := OfLengthPosition(init, n, p);
        assert keys[..k] == init[..k];
      } else {
        k := |keys| - 1;
      }
    }
  }

  /** `SaveKeyByLength(n, key)`: add `key` to the set for length n, creating it if absent. */
  function AddKey(ix: Index, n: int, key: string): (r: Index)
    ensures forall m, x :: x in Bucket(r, m) <==> x in Bucket(ix, m) || (m == n && x == key)
    ensures forall m :: m != n ==> Bucket(r, m) == Bucket(ix, m)
    ensures Bucket(ix, n) <= Bucket(r, n)
    ensures DuplicateFree(ix) ==> DuplicateFree(r)
  {
    if n in ix then
      if key in ix[n] then ix else ix[n := ix[n] + [key]]
    else ix[n := [key]]
  }

  /** Saving a key keeps the index a mirror of the stored keys, in store order. */
  lemma AddKeyMirrors(ix: Index, keys: seq<string>, key: string, keys': seq<string>)
    requires Mirrors(ix, keys)
    requires keys' == if key in keys then keys else keys + [key]
    ensures Mirrors(AddKey(ix, |key|, key), keys')
  {
    var r := AddKey(ix, |key|, key);
    if key in keys {
      assert key in Bucket(ix, |key|);
    } else {
      forall n
        ensures Bucket(r, n) == OfLength(keys', n)
      {
        OfLengthSnoc(keys, key, n);
        assert Bucket(ix, n) == OfLength(keys, n);
      }
    }
  }

  lemma OfLengthSnoc(keys: seq<string>, key: string, n: int)
    ensures OfLength(keys + [key], n) == OfLength(keys, n) + (if |key| == n then [key] else [])
  {
    assert (keys + [key])[..|keys|] == keys;
  }

  /** The buckets for lengths lo..hi, in ascending length. */
  function Scan(ix: Index, lo: int, hi: int): (r: seq<string>)
    ensures forall x :: x in r <==> exists n :: lo <= n <= hi && x in Bucket(ix, n)
    decreases hi - lo + 1
  {
    if hi < lo then []
    else
      var rest := Scan(ix, lo + 1, hi);
      assert forall x :: x in Bucket(ix, lo) + rest <==> x in Bucket(ix, lo) || x in rest;
      Bucket(ix, lo) + rest
  }

  function Max(a: int, b: int): int
  {
    if a < b then b else a
  }

  /**
    `GetNeighbors(length, maxDeviation)`: the keys of every length from
    max(1, length - maxDeviation) to length + maxDeviation, shortest first.
  */
  function Neighbors(ix: Index, length: int, maxDeviation: int): (r: seq<string>)
  {
    Scan(ix, Max(1, length - maxDeviation), length + maxDeviation)
  }

  /** Every key is filed under its own length. */
  predicate FiledByLength(ix: Index)
  {
    forall n | n in ix :: forall x | x in ix[n] :: |x| == n
  }

  predicate Ascending(xs: seq<string>)
  {
    forall i, j :: 0 <= i < j < |xs| ==> |xs[i]| <= |xs[j]|
  }

  lemma {:induction false} ScanInRange(ix: Index, lo: int, hi: int)
    requires FiledByLength(ix)
    ensures forall x :: x in Scan(ix, lo, hi) ==> lo <= |x| <= hi
    decreases hi - lo + 1
  {
    if lo <= hi {
      ScanInRange(ix, lo + 1, hi);
    }
  }

  lemma ConcatAscending(a: seq<string>, b: seq<string>, n: int)
    requires forall x :: x in a ==> |x| == n
    requires forall x :: x in b ==> n < |x|
    requires Ascending(b)
    ensures Ascending(a + b)
  {
    var r := a + b;
    forall i, j | 0 <= i < j < |r|
      ensures |r[i]| <= |r[j]|
    {
      if i < |a| {
        assert r[i] in a;
        if j < |a| { assert r[j] in a; } else { assert r[j] in b; }
      } else {
        assert r[i] == b[i - |a|] && r[j] == b[j - |a|];
      }
    }
  }

  /** Every key scanned is filed under its own length, so the scan yields keys by ascending length. */
  lemma {:induction false} ScanAscending(ix: Index, lo: int, hi: int)
    requires FiledByLength(ix)
    ensures Ascending(Scan(ix, lo, hi))
    decreases hi - lo + 1
  {
    if lo <= hi {
      ScanAscending(ix, lo + 1, hi);
      ScanInRange(ix, lo + 1, hi);
      ConcatAscending(Bucket(ix, lo), Scan(ix, lo + 1, hi), lo);
    }
  }

  /** Within a scan, each key comes after every key filed before it in its own bucket. */
  lemma {:induction false} ScanKeepsBucketOrder(ix: Index, lo: int, hi: int, i: nat) returns (p: nat)
    requires FiledByLength(ix)
    requires i < |Scan(ix, lo, hi)|
    ensures p < |Bucket(ix, |Scan(ix, lo, hi)[i]|)|
    ensures Bucket(ix, |Scan(ix, lo, hi)[i]|)[p] == Scan(ix, lo, hi)[i]
    ensures forall q :: 0 <= q < p ==> Bucket(ix, |Scan(ix, lo, hi)[i]|)[q] in Scan(ix, lo, hi)[..i]
    decreases hi - lo + 1
  {
    if lo <= hi {
      var head := Bucket(ix, lo);
      var rest := Scan(ix, lo + 1, hi);
      assert Scan(ix, lo, hi) == head + rest;
      if i < |head| {
        assert head[i] in ix[lo];
        p := i;
        HeadBeforeIndex(head, rest, i);
      } else {
        var j := i - |head|;
        p := ScanKeepsBucketOrder(ix, lo + 1, hi, j);
        RestBeforeIndex(head, rest, j, Bucket(ix, |rest[j]|), p);
      }
    }
  }

  lemma HeadBeforeIndex(head: seq<string>, rest: seq<string>, i: nat)
    requires i < |head|
    ensures (head + rest)[i] == head[i]
    ensures forall q :: 0 <= q < i ==> head[q] in (head + rest)[..i]
  {
    assert (head + rest)[..i] == head[..i];
  }

  lemma RestBeforeIndex(head: seq<string>, rest: seq<string>, j: nat, b: seq<string>, p: nat)
    requires j < |rest| && p <= |b|
    requires forall q :: 0 <= q < p ==> b[q] in rest[..j]
    ensures (head + rest)[|head| + j] == rest[j]
    ensures forall q :: 0 <= q < p ==> b[q] in (head + rest)[..|head| + j]
  {
    assert (head + rest)[..|head| + j] == head + rest[..j];
  }

  /** `r` is stored at some position before which no key of its length is accepted. */
  predicate EarliestOfItsLength(keys: seq<string>, r: string, accepts: string -> bool)
  {
    exists p :: 0 <= p < |keys| && keys[p] == r &&
      forall q :: 0 <= q < p && |keys[q]| == |r| ==> !accepts(keys[q])
  }

  /**
    On a mirroring index, the first neighbour a test accepts was stored
    before every other accepted key of its length.
  */
  lemma FirstAcceptedIsEarliest(ix: Index, keys: seq<string>, length: int, maxDeviation: int, i: nat, accepts: string -> bool)
    requires Mirrors(ix, keys)
    requires i < |Neighbors(ix, length, maxDeviation)|
    requires forall j :: 0 <= j < i ==> !accepts(Neighbors(ix, length, maxDeviation)[j])
    ensures EarliestOfItsLength(keys, Neighbors(ix, length, maxDeviation)[i], accepts)
  {
    var ns := Scan(ix, Max(1, length - maxDeviation), length + maxDeviation);
    assert ns == Neighbors(ix, length, maxDeviation);
    ScanFirstAcceptedIsEarliest(ix, keys, Max(1, length - maxDeviation), length + maxDeviation, i, accepts);
  }

  lemma ScanFirstAcceptedIsEarliest(ix: Index, keys: seq<string>, lo: int, hi: int, i: nat, accepts: string -> bool)
    requires Mirrors(ix, keys)
    requires i < |Scan(ix, lo, hi)|
    requires forall j :: 0 <= j < i ==> !accepts(Scan(ix, lo, hi)[j])
    ensures EarliestOfItsLength(keys, Scan(ix, lo, hi)[i], accepts)
  {
    var ns := Scan(ix, lo, hi);
    var len := |ns[i]|;
    var b := Bucket(ix, len);
    MirrorsFiled(ix, keys);
    var p' := ScanKeepsBucketOrder(ix, lo, hi, i);
    assert b == OfLength(keys, len);
    var p := OfLengthPosition(keys, len, p');
    RejectedBefore(ns, i, b, p', accepts);
    forall q | 0 <= q < p && |keys[q]| == len
      ensures !accepts(keys[q])
    {
      assert keys[q] in keys[..p];
    }
  }

  /** Keys that all appear among rejected ones are rejected. */
  lemma RejectedBefore(ns: seq<string>, i: nat, b: seq<string>, p: nat, accepts: string -> bool)
    requires i <= |ns| && p <= |b|
    requires forall j :: 0 <= j < i ==> !accepts(ns[j])
    requires forall q :: 0 <= q < p ==> b[q] in ns[..i]
    ensures forall x :: x in b[..p] ==> !accepts(x)
  {
    forall x | x in b[..p]
      ensures !accepts(x)
    {
      var t :| 0 <= t < p && b[..p][t] == x;
      assert b[t] in ns[..i];
    }
  }

  /**
    On a mirroring index the neighbours are exactly the stored keys whose
    length lies within the deviation, never one of length zero, shortest first.
  */
  lemma NeighborsAreKeysInRange(ix: Index, keys: seq<string>, length: int, maxDeviation: int)
    requires Mirrors(ix, keys)
    ensures forall x :: x in Neighbors(ix, length, maxDeviation) <==>
      x in keys && Max(1, length - maxDeviation) <= |x| <= length + maxDeviation
    ensures forall x :: x in Neighbors(ix, length, maxDeviation) ==> |x| >= 1
    ensures Ascending(Neighbors(ix, length, maxDeviation))
  {
    var lo, hi := Max(1, length - maxDeviation), length + maxDeviation;
    var r := Scan(ix, lo, hi);
    assert r == Neighbors(ix, length, maxDeviation);
    MirrorsFiled(ix, keys);
    ScanAscending(ix, lo, hi);
    ScanInRange(ix, lo, hi);
    forall x | x in keys && lo <= |x| <= hi
      ensures x in r
    {
      assert x in Bucket(ix, |x|);
    }
    forall x | x in r
      ensures x in keys
    {
      var n :| lo <= n <= hi && x in Bucket(ix, n);
      assert n in ix;
    }
  }
}
