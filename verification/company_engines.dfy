/**
  The two engines side by side: the generic engine configured with the
  original engine's cleaning as its normalize strategy and the same suffix
  list derives the same keys, and differs only on lines the original engine
  does not admit.
*/
module CompanyEngines {
  import opened Wrappers
  import opened Strings
  import opened GroupingStore
  import opened CompanyNames
  import opened CompanyNameDeduper
  import StringDeduper

  // ---------------------------------------------------------------------
  // The generic engine configured like the original one

  /**
    A generic engine configured the way the original engine works: the
    cleaning as normalize strategy, the company suffixes in trimming order,
    no fuzzy matching.
  */
  ghost predicate ConfiguredAsOriginal(d: StringDeduper.Deduper)
  {
    && d.getKey == Some(Clean)
    && d.ignoredSuffixes == Some(CompanySuffixes)
    && d.strategy.None?
  }

  /** The hard-coded list is already in descending ordinal order. */
  lemma CompanySuffixesDescending()
    ensures SortedDescending(CompanySuffixes)
  {
    var xs := CompanySuffixes;
    forall i, j | 0 <= i < j < |xs|
      ensures OrdinalLessEq(xs[j], xs[i])
    {
      AdjacentDescending(j - 1);
      OrdinalChain(i, j);
    }
  }

  lemma AdjacentDescending(i: nat)
    requires i + 1 < |CompanySuffixes|
    ensures OrdinalLessEq(CompanySuffixes[i + 1], CompanySuffixes[i])
  {
  }

  lemma {:induction false} OrdinalChain(i: nat, j: nat)
    requires i <= j < |CompanySuffixes|
    ensures OrdinalLessEq(CompanySuffixes[j], CompanySuffixes[i])
    decreases j - i
  {
    if i == j {
      OrdinalReflexive(CompanySuffixes[i]);
    } else {
      AdjacentDescending(i);
      OrdinalChain(i + 1, j);
      OrdinalTransitive(CompanySuffixes[j], CompanySuffixes[i + 1], CompanySuffixes[i]);
    }
  }

  /**
    Building an engine given the cleaning and the company suffixes leaves
    the suffixes as they are: they are clean already, and sorted.
  */
  lemma BuildKeepsCompanySuffixes(d: StringDeduper.Deduper)
    requires d.getKey == Some(Clean) && d.ignoredSuffixes == Some(CompanySuffixes) && d.strategy.None?
    ensures StringDeduper.Build(d) == d
    ensures ConfiguredAsOriginal(StringDeduper.Build(d))
  {
    CompanySuffixesDescending();
    forall i | 0 <= i < |CompanySuffixes|
      ensures IsClean(CompanySuffixes[i])
    {
      SuffixIsClean(i);
    }
    BuildKeepsCleanSortedSuffixes(d, CompanySuffixes);
  }

  /** Clean suffixes already in descending order come out of `Build` unchanged. */
  lemma BuildKeepsCleanSortedSuffixes(d: StringDeduper.Deduper, xs: seq<string>)
    requires d.getKey == Some(Clean) && d.ignoredSuffixes == Some(xs)
    requires SortedDescending(xs) && forall i :: 0 <= i < |xs| ==> IsClean(xs[i])
    ensures StringDeduper.Build(d) == d
  {
    NormalizedCleanUnchanged(d, xs);
    StringDeduper.BuildIsDetermined(d, xs);
  }

  lemma NormalizedCleanUnchanged(d: StringDeduper.Deduper, xs: seq<string>)
    requires d.getKey == Some(Clean)
    requires forall i :: 0 <= i < |xs| ==> IsClean(xs[i])
    ensures StringDeduper.NormalizeAll(d, xs) == xs
  {
    forall i | 0 <= i < |xs|
      ensures StringDeduper.Normalize(d, xs[i]) == xs[i]
    {
      CleanOfClean(xs[i]);
    }
  }

  lemma SuffixIsClean(i: nat)
    requires i < |CompanySuffixes|
    ensures IsClean(CompanySuffixes[i])
  {
  }

  /** Configured like the original engine, the generic engine stores every line under the same key. */
  lemma SameKeysAsOriginal(d: StringDeduper.Deduper, line: string)
    requires ConfiguredAsOriginal(d)
    ensures StringDeduper.ImportKey(d, line) == CleanCompanyName(line)
  {
  }

  /**
    The engines agree on every admitted line: from an empty store both
    count it once per occurrence under the same key.
  */
  lemma EnginesAgreeOnAdmittedLines(d: StringDeduper.Deduper, lines: seq<string>, v: string)
    requires ConfiguredAsOriginal(d) && d.data == []
    requires Admits(v)
    ensures Count(StringDeduper.ImportStrings(d, lines).data, CleanCompanyName(v), v) == multiset(lines)[v]
    ensures Count(ReadLines([], lines), CleanCompanyName(v), v) == multiset(lines)[v]
  {
    GenericCountsLine(d, lines, v);
    OriginalCountsLine(lines, v);
  }

  lemma OriginalCountsLine(lines: seq<string>, v: string)
    requires Admits(v)
    ensures Count(ReadLines([], lines), CleanCompanyName(v), v) == multiset(lines)[v]
  {
    var key := CleanCompanyName(v);
    EmptyStoreCountsNothing([], key, v);
    ReadLinesCounts([], lines, key, v);
  }

  lemma GenericCountsLine(d: StringDeduper.Deduper, lines: seq<string>, v: string)
    requires ConfiguredAsOriginal(d) && d.data == []
    ensures Count(StringDeduper.ImportStrings(d, lines).data, CleanCompanyName(v), v) == multiset(lines)[v]
  {
    var key := StringDeduper.DeriveKey(d, v);
    DerivedKeyAsOriginal(d, v);
    EmptyStoreCountsNothing(d.data, key, v);
    StringDeduper.ImportWithoutFuzzyCounts(d, lines, v);
  }

  lemma EmptyStoreCountsNothing(s: Store, k: string, v: string)
    requires s == []
    ensures WellFormed(s) && Count(s, k, v) == 0
  {
  }

  lemma DerivedKeyAsOriginal(d: StringDeduper.Deduper, line: string)
    requires ConfiguredAsOriginal(d)
    ensures StringDeduper.DeriveKey(d, line) == CleanCompanyName(line)
  {
  }

  /** A blank line: the generic engine stores it under the empty key, the original engine drops it. */
  lemma BlankLineContrast(d: StringDeduper.Deduper)
    requires ConfiguredAsOriginal(d) && d.data == []
    ensures StringDeduper.ImportStrings(d, [" "]).data == [Group("", [Variation(" ", 1)])]
    ensures ReadLines([], [" "]) == []
  {
    BlankKey();
    SameKeysAsOriginal(d, " ");
    StringDeduper.ImportStringsStep(d, [" "]);
  }

  lemma BlankKey()
    ensures CleanCompanyName(" ") == ""
    ensures !Admits(" ")
  {
    CleanSpace();
    assert CleanCompanyName(" ") <= "";
  }

  lemma CleanSpace()
    ensures Clean(" ") == ""
  {
  }
}
