/**
  The read side shared by both engines: which groups a view selects and
  which lines it emits for them.  Each group's variations are walked in
  insertion order; a variation seen `count` times is emitted `count` times,
  or once when repeats are excluded, and the very first occurrence of the
  group's first variation may be skipped.  An optional empty line closes
  every selected group.
*/
module GroupViews {
  import opened GroupingStore

  /** n copies of one string. */
  function Repeat(value: string, n: nat): (r: seq<string>)
    ensures |r| == n
    ensures forall i :: 0 <= i < n ==> r[i] == value
  {
    if n == 0 then [] else [value] + Repeat(value, n - 1)
  }

  /**
    The inner loop over one variation from iteration j on: iteration 0 is
    skipped when `skipFirst` holds, and the loop stops after the first line
    it emits when `onlyOnce` holds.
  */
  function EmitFrom(value: string, count: nat, j: nat, skipFirst: bool, onlyOnce: bool): seq<string>
    decreases count - j
  {
    if count <= j then []
    else if skipFirst && j == 0 then EmitFrom(value, count, j + 1, skipFirst, onlyOnce)
    else if onlyOnce then [value]
    else [value] + EmitFrom(value, count, j + 1, skipFirst, onlyOnce)
  }

  /** How many lines one variation contributes, in closed form. */
  function Copies(count: nat, skipFirst: bool, onlyOnce: bool): nat
  {
    var available := if skipFirst && count > 0 then count - 1 else count;
    if onlyOnce && available > 1 then 1 else available
  }

  lemma {:induction false} EmitFromLaterIteration(value: string, count: nat, j: nat, skipFirst: bool)
    requires 0 < j
    ensures EmitFrom(value, count, j, skipFirst, false) == Repeat(value, if count < j then 0 else count - j)
    decreases count - j
  {
    if j < count {
      EmitFromLaterIteration(value, count, j + 1, skipFirst);
    }
  }

  /** The loop emits exactly `Copies` copies of the variation. */
  lemma EmitClosedForm(value: string, count: nat, skipFirst: bool, onlyOnce: bool)
    ensures EmitFrom(value, count, 0, skipFirst, onlyOnce) == Repeat(value, Copies(count, skipFirst, onlyOnce))
  {
    if 0 < count {
      if skipFirst {
        if onlyOnce {
          assert EmitFrom(value, count, 0, skipFirst, onlyOnce) == EmitFrom(value, count, 1, skipFirst, onlyOnce);
        } else {
          EmitFromLaterIteration(value, count, 1, skipFirst);
        }
      } else if !onlyOnce {
        EmitFromLaterIteration(value, count, 1, skipFirst);
      }
    }
  }

  /** All variations of one group, skipping the first occurrence of the first when `skipFirst` holds. */
  function EmitGroup(vs: seq<Variation>, skipFirst: bool, onlyOnce: bool): seq<string>
  {
    if |vs| == 0 then []
    else EmitFrom(vs[0].value, vs[0].count, 0, skipFirst, onlyOnce) + EmitGroup(vs[1..], false, onlyOnce)
  }

  /** Every occurrence counted: each original appears in the lines exactly as often as the store counted it. */
  lemma {:induction false} EmitGroupCounts(vs: seq<Variation>, v: string)
    requires WellFormedVariations(vs)
    ensures multiset(EmitGroup(vs, false, false))[v] == CountIn(vs, v)
  {
    if |vs| > 0 {
      assert Values(vs[1..]) == Values(vs)[1..];
      EmitGroupCounts(vs[1..], v);
      EmitClosedForm(vs[0].value, vs[0].count, false, false);
      var head := Repeat(vs[0].value, vs[0].count);
      assert multiset(head)[v] == if vs[0].value == v then vs[0].count else 0 by {
        RepeatMultiset(vs[0].value, vs[0].count, v);
      }
      if vs[0].value == v {
        assert ValueIndex(vs, v) == 0;
        assert v !in Values(vs[1..]);
      } else if ValueIndex(vs[1..], v) >= 0 {
        assert ValueIndex(vs, v) == ValueIndex(vs[1..], v) + 1;
      }
    }
  }

  lemma {:induction false} RepeatMultiset(value: string, n: nat, v: string)
    ensures multiset(Repeat(value, n))[v] == if value == v then n else 0
  {
    if n > 0 {
      RepeatMultiset(value, n - 1, v);
      assert Repeat(value, n) == [value] + Repeat(value, n - 1);
    }
  }

  /** With repeats excluded and nothing skipped, a group yields each distinct original once, in insertion order. */
  lemma {:induction false} EmitGroupOnceIsValues(vs: seq<Variation>)
    requires forall i :: 0 <= i < |vs| ==> vs[i].count >= 1
    ensures EmitGroup(vs, false, true) == Values(vs)
  {
    if |vs| > 0 {
      EmitGroupOnceIsValues(vs[1..]);
      EmitClosedForm(vs[0].value, vs[0].count, false, true);
      assert Values(vs) == [vs[0].value] + Values(vs[1..]);
    }
  }

  /**
    With the first occurrence skipped and repeats excluded, the first
    original still appears once when it was seen at least twice.
  */
  lemma SkipFirstWithRepeatsExcluded(vs: seq<Variation>)
    requires |vs| > 0
    requires forall i :: 0 <= i < |vs| ==> vs[i].count >= 1
    ensures EmitGroup(vs, true, true) ==
      (if vs[0].count >= 2 then [vs[0].value] else []) + Values(vs[1..])
  {
    EmitClosedForm(vs[0].value, vs[0].count, true, true);
    EmitGroupOnceIsValues(vs[1..]);
  }

  /** Number of lines of a group with repeats kept: every occurrence, less the skipped one. */
  lemma {:induction false} EmitGroupLength(vs: seq<Variation>, skipFirst: bool)
    requires |vs| > 0 && vs[0].count >= 1
    ensures |EmitGroup(vs, skipFirst, false)| == GroupTotal(vs) - (if skipFirst then 1 else 0)
  {
    EmitGroupLengthAll(vs[1..]);
    EmitClosedForm(vs[0].value, vs[0].count, skipFirst, false);
    GroupTotalFront(vs);
  }

  lemma {:induction false} EmitGroupLengthAll(vs: seq<Variation>)
    ensures |EmitGroup(vs, false, false)| == GroupTotal(vs)
  {
    if |vs| > 0 {
      EmitGroupLengthAll(vs[1..]);
      EmitClosedForm(vs[0].value, vs[0].count, false, false);
      GroupTotalFront(vs);
    }
  }

  /** The group total summed from the front. */
  lemma {:induction false} GroupTotalFront(vs: seq<Variation>)
    requires |vs| > 0
    ensures GroupTotal(vs) == vs[0].count + GroupTotal(vs[1..])
  {
    if |vs| > 1 {
      GroupTotalFront(vs[..|vs| - 1]);
      assert vs[..|vs| - 1][1..] == vs[1..][..|vs[1..]| - 1];
    }
  }

  /** A group with more than one original, or whose first original repeats. */
  predicate IsDuplicateGroup(g: Group)
  {
    |g.variations| > 1 || (|g.variations| > 0 && g.variations[0].count > 1)
  }

  /** A group holding a single original seen once. */
  predicate IsUniqueGroup(g: Group)
  {
    |g.variations| == 1 && g.variations[0].count == 1
  }

  /** On groups the store builds, every group is exactly one of unique and duplicate. */
  lemma UniqueAndDuplicatePartition(g: Group)
    requires WellFormedGroup(g)
    ensures IsUniqueGroup(g) <==> !IsDuplicateGroup(g)
  {
  }

  /**
    The outer loop of a view: the selected groups in store order, each
    emitted as above and followed by an empty line when `delimit` holds.
  */
  function Render(s: Store, selected: Group -> bool, skipFirst: bool, onlyOnce: bool, delimit: bool): seq<string>
  {
    if |s| == 0 then []
    else
      (if selected(s[0])
       then EmitGroup(s[0].variations, skipFirst, onlyOnce) + (if delimit then [""] else [])
       else [])
      + Render(s[1..], selected, skipFirst, onlyOnce, delimit)
  }

  /** The groups a view selects, in store order. */
  function Selected(s: Store, selected: Group -> bool): (r: Store)
    ensures forall g :: g in r <==> g in s && selected(g)
  {
    if |s| == 0 then []
    else
      assert s == [s[0]] + s[1..];
      (if selected(s[0]) then [s[0]] else []) + Selected(s[1..], selected)
  }

  /** Each group's lines followed by `after`, group after group. */
  function Blocks(gs: Store, skipFirst: bool, onlyOnce: bool, after: seq<string>): seq<string>
  {
    if |gs| == 0 then []
    else EmitGroup(gs[0].variations, skipFirst, onlyOnce) + after + Blocks(gs[1..], skipFirst, onlyOnce, after)
  }

  /**
    A view is the selected groups' lines, each group closed by one empty
    line when `delimit` holds and by nothing otherwise.
  */
  lemma {:induction false} RenderIsBlocks(s: Store, selected: Group -> bool, skipFirst: bool, onlyOnce: bool, delimit: bool)
    ensures Render(s, selected, skipFirst, onlyOnce, delimit) ==
      Blocks(Selected(s, selected), skipFirst, onlyOnce, if delimit then [""] else [])
  {
    if |s| > 0 {
      RenderIsBlocks(s[1..], selected, skipFirst, onlyOnce, delimit);
      var after: seq<string> := if delimit then [""] else [];
      if selected(s[0]) {
        var gs := Selected(s, selected);
        assert gs == [s[0]] + Selected(s[1..], selected);
        assert gs[0] == s[0] && gs[1..] == Selected(s[1..], selected);
        assert Blocks(gs, skipFirst, onlyOnce, after) ==
          EmitGroup(s[0].variations, skipFirst, onlyOnce) + after + Blocks(gs[1..], skipFirst, onlyOnce, after);
      } else {
        assert Selected(s, selected) == Selected(s[1..], selected);
      }
    }
  }

  /**
    With repeats kept, a view has one line per occurrence in the selected
    groups, less one per group when the first occurrence is skipped, plus
    one empty line per group when delimited.
  */
  lemma {:induction false} RenderLength(s: Store, selected: Group -> bool, skipFirst: bool, delimit: bool)
    requires forall i :: 0 <= i < |s| ==> WellFormedGroup(s[i])
    ensures |Render(s, selected, skipFirst, false, delimit)| ==
      Total(Selected(s, selected)) - (if skipFirst then |Selected(s, selected)| else 0)
      + (if delimit then |Selected(s, selected)| else 0)
  {
    if |s| > 0 {
      RenderLength(s[1..], selected, skipFirst, delimit);
      if selected(s[0]) {
        var gs := Selected(s, selected);
        assert gs == [s[0]] + Selected(s[1..], selected);
        assert gs[0] == s[0] && gs[1..] == Selected(s[1..], selected);
        EmitGroupLength(s[0].variations, skipFirst);
        assert gs == [s[0]] + Selected(s[1..], selected);
        TotalFront(gs);
      } else {
        assert Selected(s, selected) == Selected(s[1..], selected);
      }
    }
  }

  /** The lines of a store with repeats excluded are exactly the originals of the selected groups. */
  lemma {:induction false} RenderOnceMembers(s: Store, selected: Group -> bool, x: string)
    requires WellFormed(s)
    ensures x in Render(s, selected, false, true, false) <==>
      exists i :: 0 <= i < |s| && selected(s[i]) && x in Values(s[i].variations)
  {
    if |s| > 0 {
      assert WellFormed(s[1..]) by {
        assert Keys(s[1..]) == Keys(s)[1..];
      }
      RenderOnceMembers(s[1..], selected, x);
      EmitGroupOnceIsValues(s[0].variations);
      if exists i :: 1 <= i < |s| && selected(s[i]) && x in Values(s[i].variations) {
        var i :| 1 <= i < |s| && selected(s[i]) && x in Values(s[i].variations);
        assert s[1..][i - 1] == s[i];
      }
    }
  }

  /** Selecting every group and keeping repeats emits one line per absorbed string. */
  lemma {:induction false} RenderAllLength(s: Store, selected: Group -> bool)
    requires forall i :: 0 <= i < |s| ==> selected(s[i])
    ensures |Render(s, selected, false, false, false)| == Total(s)
  {
    if |s| > 0 {
      RenderAllLength(s[1..], selected);
      EmitGroupLengthAll(s[0].variations);
      TotalFront(s);
    }
  }

  lemma {:induction false} TotalFront(s: Store)
    requires |s| > 0
    ensures Total(s) == GroupTotal(s[0].variations) + Total(s[1..])
  {
    if |s| > 1 {
      TotalFront(s[..|s| - 1]);
      assert s[..|s| - 1][1..] == s[1..][..|s[1..]| - 1];
    }
  }
}
