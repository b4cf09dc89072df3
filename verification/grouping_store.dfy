/**
  The grouping store both engines keep: an insertion-ordered dictionary from
  key to an insertion-ordered dictionary from original string to its number
  of occurrences.  Entries are never removed, so an ordered sequence of
  groups, each an ordered sequence of variations, models enumeration order
  exactly.
*/
module GroupingStore {

  /** One original string of a group and how often it was seen. */
  datatype Variation = Variation(value: string, count: nat)

  /** All original strings that share one key. */
  datatype Group = Group(key: string, variations: seq<Variation>)

  type Store = seq<Group>

  function Keys(s: Store): (ks: seq<string>)
    ensures |ks| == |s|
    ensures forall i :: 0 <= i < |s| ==> ks[i] == s[i].key
  {
    if |s| == 0 then [] else Keys(s[..|s| - 1]) + [s[|s| - 1].key]
  }

  function Values(vs: seq<Variation>): (values: seq<string>)
    ensures |values| == |vs|
    ensures forall i :: 0 <= i < |vs| ==> values[i] == vs[i].value
  {
    if |vs| == 0 then [] else Values(vs[..|vs| - 1]) + [vs[|vs| - 1].value]
  }

  predicate Distinct(xs: seq<string>)
  {
    forall i, j :: 0 <= i < j < |xs| ==> xs[i] != xs[j]
  }

  /** Distinct originals, every count at least one. */
  predicate WellFormedVariations(vs: seq<Variation>)
  {
    Distinct(Values(vs)) && forall i :: 0 <= i < |vs| ==> vs[i].count >= 1
  }

  /** A group as the store builds it: a non-empty, well-formed list of variations. */
  predicate WellFormedGroup(g: Group)
  {
    |g.variations| > 0 && WellFormedVariations(g.variations)
  }

  predicate WellFormed(s: Store)
  {
    Distinct(Keys(s)) && forall i :: 0 <= i < |s| ==> WellFormedGroup(s[i])
  }

  /** Position of `key` in the store, or -1 (`TryGetValue` on the outer dictionary). */
  function KeyIndex(s: Store, key: string): (i: int)
    ensures -1 <= i < |s|
    ensures i >= 0 ==> s[i].key == key && forall j :: 0 <= j < i ==> s[j].key != key
    ensures i == -1 <==> key !in Keys(s)
  {
    if |s| == 0 then -1
    else if s[0].key == key then 0
    else
      var rest := KeyIndex(s[1..], key);
      assert forall j :: 0 < j < |s| ==> Keys(s[1..])[j - 1] == Keys(s)[j];
      if rest == -1 then -1 else rest + 1
  }

  /** Position of `value` in a group, or -1 (`TryGetValue` on the inner dictionary). */
  function ValueIndex(vs: seq<Variation>, value: string): (i: int)
    ensures -1 <= i < |vs|
    ensures i >= 0 ==> vs[i].value == value && forall j :: 0 <= j < i ==> vs[j].value != value
    ensures i == -1 <==> value !in Values(vs)
  {
    if |vs| == 0 then -1
    else if vs[0].value == value then 0
    else
      var rest := ValueIndex(vs[1..], value);
      assert forall j :: 0 < j < |vs| ==> Values(vs[1..])[j - 1] == Values(vs)[j];
      if rest == -1 then -1 else rest + 1
  }

  /** How often `value` was seen in a group; zero when absent. */
  function CountIn(vs: seq<Variation>, value: string): nat
  {
    var j := ValueIndex(vs, value);
    if j == -1 then 0 else vs[j].count
  }

  /** How often `value` was stored under `key`; zero when absent. */
  function Count(s: Store, key: string, value: string): nat
  {
    var i := KeyIndex(s, key);
    if i == -1 then 0 else CountIn(s[i].variations, value)
  }

  function GroupTotal(vs: seq<Variation>): nat
  {
    if |vs| == 0 then 0 else GroupTotal(vs[..|vs| - 1]) + vs[|vs| - 1].count
  }

  /** Number of strings the store has absorbed. */
  function Total(s: Store): nat
  {
    if |s| == 0 then 0 else Total(s[..|s| - 1]) + GroupTotal(s[|s| - 1].variations)
  }

  /** Inner-dictionary update: increment an existing original, or append it with count one. */
  function Increment(vs: seq<Variation>, value: string): (r: seq<Variation>)
    ensures Values(r) == if value in Values(vs) then Values(vs) else Values(vs) + [value]
    ensures GroupTotal(r) == GroupTotal(vs) + 1
    ensures forall j :: 0 <= j < |vs| && vs[j].value != value ==> r[j] == vs[j]
  {
    var j := ValueIndex(vs, value);
    if j >= 0 then
      var r := vs[j := Variation(value, vs[j].count + 1)];
      GroupTotalUpdate(vs, j, r[j]);
      assert Values(r) == Values(vs);
      r
    else
      var r := vs + [Variation(value, 1)];
      assert r[..|r| - 1] == vs;
      r
  }

  /** Incrementing adds one occurrence of `value` and leaves every other original's count alone. */
  lemma IncrementCounts(vs: seq<Variation>, value: string, v: string)
    ensures CountIn(Increment(vs, value), v) == CountIn(vs, v) + (if v == value then 1 else 0)
  {
    var j := ValueIndex(vs, value);
    if j >= 0 {
      var r := vs[j := Variation(value, vs[j].count + 1)];
      assert Increment(vs, value) == r;
      if v != value {
        ValueIndexUnchanged(vs, r, v);
      } else {
        assert Values(r)[j] == value;
        assert ValueIndex(r, value) == j;
      }
    } else {
      var r := vs + [Variation(value, 1)];
      assert Increment(vs, value) == r;
      if v != value {
        ValueIndexUnchanged(vs, r, v);
      } else {
        assert Values(r)[|vs|] == value;
        assert ValueIndex(r, value) == |vs|;
      }
    }
  }

  lemma IncrementKeepsWellFormed(vs: seq<Variation>, value: string)
    requires WellFormedVariations(vs)
    ensures WellFormedVariations(Increment(vs, value))
    ensures |Increment(vs, value)| > 0
  {
  }

  /** Changing or appending variations other than `v` keeps `v`'s position and count. */
  lemma ValueIndexUnchanged(vs: seq<Variation>, r: seq<Variation>, v: string)
    requires |vs| <= |r|
    requires forall i :: 0 <= i < |vs| ==> r[i].value == vs[i].value
    requires forall i :: 0 <= i < |vs| && vs[i].value == v ==> r[i] == vs[i]
    requires forall i :: |vs| <= i < |r| ==> r[i].value != v
    ensures CountIn(r, v) == CountIn(vs, v)
  {
    var j := ValueIndex(vs, v);
    if j != -1 {
      assert ValueIndex(r, v) == j;
    }
  }

  lemma {:induction false} GroupTotalUpdate(vs: seq<Variation>, j: nat, x: Variation)
    requires j < |vs|
    ensures GroupTotal(vs[j := x]) + vs[j].count == GroupTotal(vs) + x.count
    decreases |vs|
  {
    if j < |vs| - 1 {
      assert vs[j := x][..|vs| - 1] == vs[..|vs| - 1][j := x];
      GroupTotalUpdate(vs[..|vs| - 1], j, x);
    } else {
      assert vs[j := x][..|vs| - 1] == vs[..|vs| - 1];
    }
  }

  lemma {:induction false} TotalUpdate(s: Store, i: nat, g: Group)
    requires i < |s|
    ensures Total(s[i := g]) + GroupTotal(s[i].variations) == Total(s) + GroupTotal(g.variations)
    decreases |s|
  {
    if i < |s| - 1 {
      assert s[i := g][..|s| - 1] == s[..|s| - 1][i := g];
      TotalUpdate(s[..|s| - 1], i, g);
    } else {
      assert s[i := g][..|s| - 1] == s[..|s| - 1];
    }
  }

  /**
    `SaveStringByKey` / `StoreNextCompany` on the store: count one more
    occurrence of `value` under `key`, creating the group if needed.
  */
  function Save(s: Store, key: string, value: string): (r: Store)
    ensures Keys(r) == if key in Keys(s) then Keys(s) else Keys(s) + [key]
    ensures Total(r) == Total(s) + 1
    ensures forall j :: 0 <= j < |s| && s[j].key != key ==> r[j] == s[j]
  {
    var i := KeyIndex(s, key);
    if i >= 0 then
      var g := Group(key, Increment(s[i].variations, value));
      var r := s[i := g];
      TotalUpdate(s, i, g);
      assert Keys(r) == Keys(s);
      r
    else
      var r := s + [Group(key, [Variation(value, 1)])];
      assert r[..|r| - 1] == s;
      assert GroupTotal([Variation(value, 1)]) == 1;
      r
  }

  lemma SaveKeepsWellFormed(s: Store, key: string, value: string)
    requires WellFormed(s)
    ensures WellFormed(Save(s, key, value))
  {
    var i := KeyIndex(s, key);
    if i >= 0 {
      SaveKnownKey(s, i, key, value);
      IncrementKeepsWellFormed(s[i].variations, value);
      UpdateKeepsWellFormed(s, i, Group(key, Increment(s[i].variations, value)));
    } else {
      SaveNewKey(s, key, value);
      NewGroupWellFormed(key, value);
      AppendKeepsWellFormed(s, Group(key, [Variation(value, 1)]));
    }
  }

  lemma NewGroupWellFormed(key: string, value: string)
    ensures WellFormedGroup(Group(key, [Variation(value, 1)]))
  {
    assert Values([Variation(value, 1)]) == [value];
  }

  lemma UpdateKeepsWellFormed(s: Store, i: nat, g: Group)
    requires WellFormed(s) && i < |s| && g.key == s[i].key && WellFormedGroup(g)
    ensures WellFormed(s[i := g])
  {
    KeysUpdate(s, i, g);
  }

  lemma AppendKeepsWellFormed(s: Store, g: Group)
    requires WellFormed(s) && g.key !in Keys(s) && WellFormedGroup(g)
    ensures WellFormed(s + [g])
  {
    assert Keys(s + [g]) == Keys(s) + [g.key];
  }

  /** Replacing a group by one with the same key keeps the key list. */
  lemma KeysUpdate(s: Store, i: nat, g: Group)
    requires i < |s| && g.key == s[i].key
    ensures Keys(s[i := g]) == Keys(s)
  {
  }

  lemma KeyIndexUpdate(s: Store, i: nat, g: Group, k: string)
    requires i < |s| && g.key == s[i].key
    ensures KeyIndex(s[i := g], k) == KeyIndex(s, k)
  {
    KeysUpdate(s, i, g);
    var j := KeyIndex(s, k);
    if j >= 0 {
      assert s[i := g][j].key == k;
    }
  }

  lemma KeyIndexAppend(s: Store, g: Group, k: string)
    requires g.key !in Keys(s)
    ensures KeyIndex(s + [g], k) == if k in Keys(s) then KeyIndex(s, k) else if k == g.key then |s| else -1
  {
    var r := s + [g];
    assert Keys(r) == Keys(s) + [g.key];
    var j := KeyIndex(s, k);
    if j >= 0 {
      assert r[j].key == k;
    } else if k == g.key {
      assert r[|s|].key == k;
    }
  }

  /** Saving adds exactly one occurrence of (key, value) and leaves every other count alone. */
  lemma SaveCounts(s: Store, key: string, value: string, k: string, v: string)
    requires WellFormed(s)
    ensures Count(Save(s, key, value), k, v) == Count(s, k, v) + (if k == key && v == value then 1 else 0)
  {
    var i := KeyIndex(s, key);
    if i >= 0 {
      var g := Group(key, Increment(s[i].variations, value));
      SaveKnownKey(s, i, key, value);
      UpdateCounts(s, i, g, k, v);
      if k == key {
        IncrementCounts(s[i].variations, value, v);
      }
    } else {
      var g := Group(key, [Variation(value, 1)]);
      SaveNewKey(s, key, value);
      AppendCounts(s, g, k, v);
      if k == key {
        SingleVariationCount(value, v);
      }
    }
  }

  /** Replacing a group changes only the counts under its key. */
  lemma UpdateCounts(s: Store, i: nat, g: Group, k: string, v: string)
    requires i < |s| && g.key == s[i].key && Distinct(Keys(s))
    ensures Count(s[i := g], k, v) == if k == g.key then CountIn(g.variations, v) else Count(s, k, v)
  {
    KeyIndexUpdate(s, i, g, k);
    if k == g.key {
      assert Keys(s)[i] == k;
      assert Keys(s)[KeyIndex(s, k)] == k;
    }
  }

  /** Appending a group with a new key adds only the counts under that key. */
  lemma AppendCounts(s: Store, g: Group, k: string, v: string)
    requires g.key !in Keys(s)
    ensures Count(s + [g], k, v) == if k == g.key then CountIn(g.variations, v) else Count(s, k, v)
  {
    KeyIndexAppend(s, g, k);
  }

  lemma SingleVariationCount(value: string, v: string)
    ensures CountIn([Variation(value, 1)], v) == if v == value then 1 else 0
  {
  }

  /** A key seen for the first time opens a new group at the end. */
  lemma SaveNewKey(s: Store, key: string, value: string)
    requires key !in Keys(s)
    ensures Save(s, key, value) == s + [Group(key, [Variation(value, 1)])]
  {
  }

  /** A known key gets the value counted in its own group, in place. */
  lemma SaveKnownKey(s: Store, i: nat, key: string, value: string)
    requires i < |s| && s[i].key == key && Distinct(Keys(s))
    ensures Save(s, key, value) == s[i := Group(key, Increment(s[i].variations, value))]
  {
    assert Keys(s)[i] == key;
  }

  /** A new original joins the end of its group with count one. */
  lemma IncrementNewValue(vs: seq<Variation>, value: string)
    requires value !in Values(vs)
    ensures Increment(vs, value) == vs + [Variation(value, 1)]
  {
  }
}
