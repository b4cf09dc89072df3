/**
  The original, fixed engine (`CompanyNameDeduper`): admitted lines are
  grouped under their company-name key in the same store the generic engine
  uses, and exported through a filter over the groups.

  The store is a plain value; reading is a left fold over the lines.
*/
module CompanyNameDeduper {
  import opened GroupingStore
  import opened GroupViews
  import opened CompanyNames
  import StringDeduper

  // ---------------------------------------------------------------------
  // Reading lines

  /** One iteration of the read loop: an admitted line is stored under its key, any other line changes nothing. */
  function ReadLine(s: Store, line: string): (r: Store)
    ensures !Admits(line) ==> r == s
    ensures Admits(line) ==> Total(r) == Total(s) + 1
    ensures Admits(line) ==> Keys(r) == if CleanCompanyName(line) in Keys(s) then Keys(s) else Keys(s) + [CleanCompanyName(line)]
  {
    if Admits(line) then Save(s, CleanCompanyName(line), line) else s
  }

  /** `StoreNextCompany` through the read loop: only the (key, line) count moves, and only for an admitted line. */
  lemma ReadLineCounts(s: Store, line: string, k: string, v: string)
    requires WellFormed(s)
    ensures WellFormed(ReadLine(s, line))
    ensures Count(ReadLine(s, line), k, v) ==
      Count(s, k, v) + (if Admits(line) && k == CleanCompanyName(line) && v == line then 1 else 0)
  {
    if Admits(line) {
      SaveCounts(s, CleanCompanyName(line), line, k, v);
      SaveKeepsWellFormed(s, CleanCompanyName(line), line);
    }
  }

  /** The read loop over all lines, in input order. */
  function ReadLines(s: Store, lines: seq<string>): (r: Store)
    decreases |lines|
  {
    if |lines| == 0 then s else ReadLines(ReadLine(s, lines[0]), lines[1..])
  }

  /** The lines the read loop keeps, in input order. */
  function Admitted(lines: seq<string>): (r: seq<string>)
    ensures forall x :: x in r <==> x in lines && Admits(x)
  {
    if |lines| == 0 then []
    else (if Admits(lines[0]) then [lines[0]] else []) + Admitted(lines[1..])
  }

  /** An admitted line is kept as often as it occurs; any other line is dropped. */
  lemma {:induction false} AdmittedOccurrences(lines: seq<string>, v: string)
    ensures multiset(Admitted(lines))[v] == if Admits(v) then multiset(lines)[v] else 0
  {
    if |lines| > 0 {
      AdmittedOccurrences(lines[1..], v);
      StringDeduper.HeadOccurrences(lines, v);
    }
  }

  /** Every admitted line, and no other, adds one to the store's total. */
  lemma {:induction false} ReadLinesTotal(s: Store, lines: seq<string>)
    ensures Total(ReadLines(s, lines)) == Total(s) + |Admitted(lines)|
    decreases |lines|
  {
    if |lines| > 0 {
      ReadLinesTotal(ReadLine(s, lines[0]), lines[1..]);
    }
  }

  /** Each (key, line) count grows by the occurrences of the line when the line is admitted under that key, and not at all otherwise. */
  lemma {:induction false} ReadLinesCounts(s: Store, lines: seq<string>, k: string, v: string)
    requires WellFormed(s)
    ensures Count(ReadLines(s, lines), k, v) ==
      Count(s, k, v) + (if Admits(v) && k == CleanCompanyName(v) then multiset(lines)[v] else 0)
    decreases |lines|
  {
    if |lines| > 0 {
      ReadLineCounts(s, lines[0], k, v);
      ReadLinesCounts(ReadLine(s, lines[0]), lines[1..], k, v);
      StringDeduper.HeadOccurrences(lines, v);
    }
  }

  /** The read loop keeps the store consistent: distinct keys, distinct originals, positive counts. */
  lemma {:induction false} ReadLinesKeepsWellFormed(s: Store, lines: seq<string>)
    requires WellFormed(s)
    ensures WellFormed(ReadLines(s, lines))
    decreases |lines|
  {
    if |lines| > 0 {
      if Admits(lines[0]) {
        SaveKeepsWellFormed(s, CleanCompanyName(lines[0]), lines[0]);
      }
      ReadLinesKeepsWellFormed(ReadLine(s, lines[0]), lines[1..]);
    }
  }

  /** No group is ever keyed by the empty string. */
  lemma {:induction false} ReadLinesKeysNonEmpty(s: Store, lines: seq<string>)
    requires "" !in Keys(s)
    ensures "" !in Keys(ReadLines(s, lines))
    decreases |lines|
  {
    if |lines| > 0 {
      ReadLineKeysNonEmpty(s, lines[0]);
      ReadLinesKeysNonEmpty(ReadLine(s, lines[0]), lines[1..]);
    }
  }

  lemma ReadLineKeysNonEmpty(s: Store, line: string)
    requires "" !in Keys(s)
    ensures "" !in Keys(ReadLine(s, line))
  {
    AdmitsIffNonEmptyKey(line);
    if Admits(line) {
      var key := CleanCompanyName(line);
      assert "" !in Keys(s) + [key];
    }
  }

  // ---------------------------------------------------------------------
  // Writing lines

  /** The export type; `Other` stands for any remaining value, which selects every group. */
  datatype ExportType = Uniques | Duplicates | Other

  predicate AllGroups(g: Group)
  {
    true
  }

  /** The group filter each export type selects. */
  function Filter(t: ExportType): (f: Group -> bool)
    ensures forall g :: WellFormedGroup(g) && t == Uniques ==> (f(g) <==> |g.variations| == 1 && g.variations[0].count == 1)
    ensures forall g :: WellFormedGroup(g) && t == Duplicates ==> (f(g) <==> |g.variations| > 1 || g.variations[0].count > 1)
    ensures forall g :: t == Other ==> f(g)
  {
    match t
    case Uniques => IsUniqueGroup
    case Duplicates => IsDuplicateGroup
    case Other => AllGroups
  }

  /**
    `WriteToFileAsync`: the selected groups in store order, every original
    written once per occurrence (once in all with `excludeLiteralDups`),
    the first occurrence never suppressed, and an empty line after each
    group with `skipLineAfterDupGroup`.
  */
  function WriteLines(s: Store, t: ExportType, excludeLiteralDups: bool, skipLineAfterDupGroup: bool): seq<string>
  {
    Render(s, Filter(t), false, excludeLiteralDups, skipLineAfterDupGroup)
  }

  /** The export is the selected groups in store order, each closed by an empty line when `skipLineAfterDupGroup` holds. */
  lemma WriteLinesBlocks(s: Store, t: ExportType, excludeLiteralDups: bool, skipLineAfterDupGroup: bool)
    ensures WriteLines(s, t, excludeLiteralDups, skipLineAfterDupGroup) ==
      Blocks(Selected(s, Filter(t)), false, excludeLiteralDups, if skipLineAfterDupGroup then [""] else [])
  {
    RenderIsBlocks(s, Filter(t), false, excludeLiteralDups, skipLineAfterDupGroup);
  }

  /** Without exclusions, the export has one line per occurrence in the selected groups, plus one per group when delimited. */
  lemma WriteLinesLength(s: Store, t: ExportType, skipLineAfterDupGroup: bool)
    requires WellFormed(s)
    ensures |WriteLines(s, t, false, skipLineAfterDupGroup)| ==
      Total(Selected(s, Filter(t))) + (if skipLineAfterDupGroup then |Selected(s, Filter(t))| else 0)
  {
    RenderLength(s, Filter(t), false, skipLineAfterDupGroup);
  }

  /** Exporting every group without exclusions writes each stored line exactly as often as it was read. */
  lemma WriteAllLength(s: Store)
    requires WellFormed(s)
    ensures |WriteLines(s, Other, false, false)| == Total(s)
  {
    RenderAllLength(s, Filter(Other));
  }

  /** With literal duplicates excluded, a name is written exactly when some selected group holds it. */
  lemma WriteOnceMembers(s: Store, t: ExportType, x: string)
    requires WellFormed(s)
    ensures x in WriteLines(s, t, true, false) <==>
      exists i :: 0 <= i < |s| && Filter(t)(s[i]) && x in Values(s[i].variations)
  {
    RenderOnceMembers(s, Filter(t), x);
  }

  /** The Uniques and Duplicates exports together write exactly the lines of the unfiltered export. */
  lemma {:induction false} WriteLinesPartition(s: Store, excludeLiteralDups: bool, skipLineAfterDupGroup: bool)
    requires forall i :: 0 <= i < |s| ==> WellFormedGroup(s[i])
    ensures multiset(WriteLines(s, Uniques, excludeLiteralDups, skipLineAfterDupGroup))
          + multiset(WriteLines(s, Duplicates, excludeLiteralDups, skipLineAfterDupGroup))
         == multiset(WriteLines(s, Other, excludeLiteralDups, skipLineAfterDupGroup))
  {
    if |s| > 0 {
      WriteLinesPartition(s[1..], excludeLiteralDups, skipLineAfterDupGroup);
      UniqueAndDuplicatePartition(s[0]);
    }
  }

  /** The Duplicates export is the generic engine's duplicate view with the original included. */
  lemma DuplicatesExportIsGenericView(d: StringDeduper.Deduper, excludeLiteralDups: bool, skipLineAfterDupGroup: bool)
    ensures WriteLines(d.data, Duplicates, excludeLiteralDups, skipLineAfterDupGroup) ==
      StringDeduper.GetDuplicates(d, true, excludeLiteralDups, skipLineAfterDupGroup)
  {
  }

  /** `ClearMemory`: the store is emptied, so every export is empty. */
  function ClearMemory(s: Store): (r: Store)
    ensures Total(r) == 0 && Keys(r) == []
    ensures forall t, excludeLiteralDups, skipLineAfterDupGroup ::
      WriteLines(r, t, excludeLiteralDups, skipLineAfterDupGroup) == []
  {
    []
  }
}
