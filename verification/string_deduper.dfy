/**
  The generic deduplication engine (`StringDeduperBuilder`): configuration,
  key derivation, optional fuzzy key resolution against a length-bucketed
  index, the grouping store, and the duplicate and unique views.

  The engine is an immutable value; every operation returns the updated
  engine.  Import is a left fold over the input lines.
*/
module StringDeduper {
  import opened Wrappers
  import opened Strings
  import opened Suffixes
  import opened StringUtility
  import opened EditDistance
  import opened GroupingStore
  import opened LengthIndex
  import opened GroupViews

  datatype FuzzyMatchingStrategy = Levenshtein | Bitap

  /** The builder's fields: configuration, the grouping store and the length index. */
  datatype Deduper = Deduper(
    getKey: Option<string -> string>,
    ignoredSuffixes: Option<seq<string>>,
    strategy: Option<FuzzyMatchingStrategy>,
    minStringLength: nat,
    maxDeviation: nat,
    data: Store,
    keysByLength: Index)

  /** A freshly constructed builder: nothing configured, nothing stored. */
  const NewDeduper: Deduper := Deduper(None, None, None, 0, 0, [], map[])

  /** Outcome of a configuration call that can reject its arguments. */
  datatype Configured = Configured(builder: Deduper) | ArgumentOutOfRange(paramName: string)

  // ---------------------------------------------------------------------
  // Configuration

  function AddNormalizeStrategy(d: Deduper, getKey: string -> string): Deduper
  {
    d.(getKey := Some(getKey))
  }

  function AddIgnoredSuffixes(d: Deduper, ignoredSuffixes: seq<string>): Deduper
  {
    d.(ignoredSuffixes := Some(ignoredSuffixes))
  }

  /**
    Enables fuzzy matching.  Both limits must be at least 1; the minimum
    length is checked first.  A rejected call configures nothing.
  */
  function UseFuzzyMatching(d: Deduper, strategy: FuzzyMatchingStrategy, minStringLength: int, maxDeviation: int): (r: Configured)
    ensures r.Configured? <==> minStringLength >= 1 && maxDeviation >= 1
    ensures minStringLength < 1 ==> r == ArgumentOutOfRange("minStringLength")
    ensures minStringLength >= 1 && maxDeviation < 1 ==> r == ArgumentOutOfRange("maxDeviation")
    ensures r.Configured? ==>
      && r.builder.strategy == Some(strategy)
      && r.builder.minStringLength == minStringLength
      && r.builder.maxDeviation == maxDeviation
      && r.builder.getKey == d.getKey
      && r.builder.ignoredSuffixes == d.ignoredSuffixes
      && r.builder.data == d.data
      && r.builder.keysByLength == d.keysByLength
  {
    if minStringLength < 1 then ArgumentOutOfRange("minStringLength")
    else if maxDeviation < 1 then ArgumentOutOfRange("maxDeviation")
    else Configured(d.(strategy := Some(strategy), minStringLength := minStringLength, maxDeviation := maxDeviation))
  }

  /** The normalize strategy, or the identity when none is set. */
  function Normalize(d: Deduper, str: string): string
  {
    match d.getKey
    case None => str
    case Some(getKey) => getKey(str)
  }

  function NormalizeAll(d: Deduper, xs: seq<string>): (r: seq<string>)
    ensures |r| == |xs|
    ensures forall i :: 0 <= i < |xs| ==> r[i] == Normalize(d, xs[i])
  {
    if |xs| == 0 then [] else [Normalize(d, xs[0])] + NormalizeAll(d, xs[1..])
  }

  /**
    Finishes configuration: the ignored suffixes are passed through the
    normalize strategy and ordered descending, so they are trimmed in that order.
  */
  function Build(d: Deduper): (r: Deduper)
    ensures r.ignoredSuffixes.Some? <==> d.ignoredSuffixes.Some?
    ensures d.ignoredSuffixes.Some? ==>
      && SortedDescending(r.ignoredSuffixes.value)
      && multiset(r.ignoredSuffixes.value) == multiset(NormalizeAll(d, d.ignoredSuffixes.value))
    ensures r.(ignoredSuffixes := d.ignoredSuffixes) == d
  {
    match d.ignoredSuffixes
    case None => d
    case Some(suffixes) => d.(ignoredSuffixes := Some(SortDescending(NormalizeAll(d, suffixes))))
  }

  /** The prepared suffixes are the only sorted arrangement of the normalized list. */
  lemma BuildIsDetermined(d: Deduper, sorted: seq<string>)
    requires d.ignoredSuffixes.Some?
    requires SortedDescending(sorted)
    requires multiset(sorted) == multiset(NormalizeAll(d, d.ignoredSuffixes.value))
    ensures Build(d).ignoredSuffixes == Some(sorted)
  {
    SortedPermutationUnique(Build(d).ignoredSuffixes.value, sorted);
  }

  // ---------------------------------------------------------------------
  // Key derivation

  /** The key before fuzzy resolution: normalized, then the ignored suffixes trimmed in one pass. */
  function DeriveKey(d: Deduper, str: string): (key: string)
    ensures key <= Normalize(d, str)
  {
    TrimSuffixes(Normalize(d, str), d.ignoredSuffixes.GetOr([]))
  }

  /** `IsLevenshteinMatch`: the two strings are within `maxDeviation` edits. */
  predicate IsLevenshteinMatch(str1: string, str2: string, maxDeviation: nat)
  {
    Distance(str1, str2) <= maxDeviation
  }

  /** The two arguments ordered by length, longer first; a tie keeps the argument order (the sort is stable). */
  function TextAndPattern(str1: string, str2: string): (pair: (string, string))
    ensures |pair.1| <= |pair.0|
    ensures pair == (str1, str2) || pair == (str2, str1)
  {
    if |str1| < |str2| then (str2, str1) else (str1, str2)
  }

  /** `IsBitapMatch`: the shorter string occurs in the longer one with at most `maxDeviation` substitutions. */
  predicate IsBitapMatch(str1: string, str2: string, maxDeviation: nat)
  {
    var (text, pattern) := TextAndPattern(str1, str2);
    Search(text, pattern, maxDeviation) > -1
  }

  /** What a Bitap match means, independent of which argument came first. */
  lemma BitapMatchMeaning(str1: string, str2: string, maxDeviation: nat)
    ensures var (text, pattern) := TextAndPattern(str1, str2);
      IsBitapMatch(str1, str2, maxDeviation) <==>
        |pattern| == 0 ||
        (|pattern| <= MaxPatternLength && exists s: nat :: MatchesAt(text, pattern, s, maxDeviation))
  {
  }

  /** Passing the longer string as the text makes the Bitap matcher symmetric. */
  lemma BitapMatchSymmetric(str1: string, str2: string, maxDeviation: nat)
    ensures IsBitapMatch(str1, str2, maxDeviation) == IsBitapMatch(str2, str1, maxDeviation)
  {
    if |str1| == |str2| && 0 < |str1| <= MaxPatternLength {
      MismatchesSymmetric(str1, str2);
      assert str1[0..|str2|] == str1 && str2[0..|str1|] == str2;
      if IsBitapMatch(str1, str2, maxDeviation) {
        assert MatchesAt(str2, str1, 0, maxDeviation);
      }
      if IsBitapMatch(str2, str1, maxDeviation) {
        assert MatchesAt(str1, str2, 0, maxDeviation);
      }
    }
  }

  /** The Levenshtein matcher is symmetric too. */
  lemma LevenshteinMatchSymmetric(str1: string, str2: string, maxDeviation: nat)
    ensures IsLevenshteinMatch(str1, str2, maxDeviation) == IsLevenshteinMatch(str2, str1, maxDeviation)
  {
    DistanceSymmetric(str1, str2);
  }

  /**
    The Bitap matcher only substitutes: a deleted middle character defeats
    it at deviation 1 ("abcdef" against "abdef").
  */
  lemma BitapIsSubstitutionOnly()
    ensures !IsBitapMatch("abcdef", "abdef", 1)
  {
    DeletedCharacterWindows();
  }

  /** The Levenshtein matcher accepts any single deleted character, in either argument order. */
  lemma LevenshteinAcceptsDeletion(p: string, c: char, q: string, maxDeviation: nat)
    requires maxDeviation >= 1
    ensures IsLevenshteinMatch(p + [c] + q, p + q, maxDeviation)
    ensures IsLevenshteinMatch(p + q, p + [c] + q, maxDeviation)
  {
    DeletionWithinOne(p, c, q);
    DistanceSymmetric(p + [c] + q, p + q);
  }

  /** Both windows of "abcdef" that fit "abdef" differ from it in more than one place. */
  lemma DeletedCharacterWindows()
    ensures Search("abcdef", "abdef", 1) == -1
  {
    assert "abcdef"[0..5] == "abcde" && "abcdef"[1..6] == "bcdef";
    FirstWindowMismatches();
    SecondWindowMismatches();
    assert !MatchesAt("abcdef", "abdef", 0, 1) && !MatchesAt("abcdef", "abdef", 1, 1);
  }

  lemma FirstWindowMismatches()
    ensures Mismatches("abdef", "abcde") == 3
  {
    assert "abde"[..3] == "abd" && "abcd"[..3] == "abc" && "abdef"[..4] == "abde" && "abcde"[..4] == "abcd";
    assert Mismatches("a", "a") == 0 && Mismatches("ab", "ab") == 0 && Mismatches("abd", "abc") == 1;
    assert Mismatches("abde", "abcd") == 2;
  }

  lemma SecondWindowMismatches()
    ensures Mismatches("abdef", "bcdef") == 2
  {
    assert "bcde"[..3] == "bcd" && "bcdef"[..4] == "bcde" && "abdef"[..4] == "abde" && "abde"[..3] == "abd";
    assert Mismatches("a", "b") == 1 && Mismatches("ab", "bc") == 2 && Mismatches("abd", "bcd") == 2;
    assert Mismatches("abde", "bcde") == 2;
  }

  /** One deletion turns p + [c] + q into p + q. */
  lemma DeletionWithinOne(p: string, c: char, q: string)
    ensures Distance(p + [c] + q, p + q) <= 1
  {
    assert p + [c] + q == p + ([c] + q);
    SharedPrefix(p, [c] + q, q);
    DistanceFromPrefixed([c], q);
  }

  function FuzzyMatch(strategy: FuzzyMatchingStrategy, key: string, candidate: string, maxDeviation: nat): bool
  {
    match strategy
    case Levenshtein => IsLevenshteinMatch(key, candidate, maxDeviation)
    case Bitap => IsBitapMatch(key, candidate, maxDeviation)
  }

  /** Position of the first candidate the matcher accepts, or -1. */
  function FirstMatchIndex(strategy: FuzzyMatchingStrategy, key: string, candidates: seq<string>, maxDeviation: nat): (i: int)
    ensures -1 <= i < |candidates|
    ensures i >= 0 ==> FuzzyMatch(strategy, key, candidates[i], maxDeviation)
    ensures i >= 0 ==> forall j :: 0 <= j < i ==> !FuzzyMatch(strategy, key, candidates[j], maxDeviation)
    ensures i == -1 ==> forall j :: 0 <= j < |candidates| ==> !FuzzyMatch(strategy, key, candidates[j], maxDeviation)
  {
    if |candidates| == 0 then -1
    else if FuzzyMatch(strategy, key, candidates[0], maxDeviation) then 0
    else
      var rest := FirstMatchIndex(strategy, key, candidates[1..], maxDeviation);
      if rest == -1 then -1 else rest + 1
  }

  /** `CheckNeighbors`: the first indexed neighbour the matcher accepts, otherwise the key itself. */
  function CheckNeighbors(d: Deduper, key: string, maxDeviation: nat, strategy: FuzzyMatchingStrategy): string
  {
    var neighbors := Neighbors(d.keysByLength, |key|, maxDeviation);
    var i := FirstMatchIndex(strategy, key, neighbors, maxDeviation);
    if i == -1 then key else neighbors[i]
  }

  /** Fuzzy resolution runs only with a strategy set and a key at least the minimum length. */
  function ResolveKey(d: Deduper, key: string): string
  {
    match d.strategy
    case Some(strategy) =>
      if d.minStringLength <= |key| then CheckNeighbors(d, key, d.maxDeviation, strategy) else key
    case None => key
  }

  /** No stored key in the length window is accepted by the matcher. */
  predicate NoneAccepted(d: Deduper, key: string, strategy: FuzzyMatchingStrategy)
  {
    forall k :: k in Keys(d.data) && InWindow(key, k, d.maxDeviation) ==> !FuzzyMatch(strategy, key, k, d.maxDeviation)
  }

  /**
    `r` is a stored key in the window that the matcher accepts, no shorter
    one is accepted, and no accepted key of the same length was stored before it.
  */
  predicate ShortestAccepted(d: Deduper, key: string, strategy: FuzzyMatchingStrategy, r: string)
  {
    && r in Keys(d.data) && InWindow(key, r, d.maxDeviation) && FuzzyMatch(strategy, key, r, d.maxDeviation)
    && (forall k :: k in Keys(d.data) && InWindow(key, k, d.maxDeviation) && |k| < |r| ==>
          !FuzzyMatch(strategy, key, k, d.maxDeviation))
    && StoredFirstAmongAccepted(d, key, strategy, r)
  }

  /** `r` is stored at a position before which no key of its length is accepted. */
  predicate StoredFirstAmongAccepted(d: Deduper, key: string, strategy: FuzzyMatchingStrategy, r: string)
  {
    exists p :: 0 <= p < |Keys(d.data)| && Keys(d.data)[p] == r &&
      forall q :: 0 <= q < p && |Keys(d.data)[q]| == |r| ==> !FuzzyMatch(strategy, key, Keys(d.data)[q], d.maxDeviation)
  }

  /**
    Fuzzy resolution returns the derived key unchanged when no stored key in
    the length window is accepted; otherwise it returns the accepted stored
    key that is shortest and, among those, stored first.
  */
  lemma ResolveKeyOutcome(d: Deduper, key: string)
    requires d.strategy.Some? && d.minStringLength <= |key|
    requires Mirrors(d.keysByLength, Keys(d.data))
    ensures NoneAccepted(d, key, d.strategy.value) ==> ResolveKey(d, key) == key
    ensures !NoneAccepted(d, key, d.strategy.value) ==> ShortestAccepted(d, key, d.strategy.value, ResolveKey(d, key))
  {
    assert ResolveKey(d, key) == CheckNeighbors(d, key, d.maxDeviation, d.strategy.value);
    CheckNeighborsOutcome(d, key, d.strategy.value);
  }

  lemma CheckNeighborsOutcome(d: Deduper, key: string, strategy: FuzzyMatchingStrategy)
    requires Mirrors(d.keysByLength, Keys(d.data))
    ensures NoneAccepted(d, key, strategy) ==> CheckNeighbors(d, key, d.maxDeviation, strategy) == key
    ensures !NoneAccepted(d, key, strategy) ==> ShortestAccepted(d, key, strategy, CheckNeighbors(d, key, d.maxDeviation, strategy))
  {
    var ns := Neighbors(d.keysByLength, |key|, d.maxDeviation);
    NeighborsAreKeysInRange(d.keysByLength, Keys(d.data), |key|, d.maxDeviation);
    assert forall x :: x in ns <==> x in Keys(d.data) && InWindow(key, x, d.maxDeviation);
    var i := FirstMatchIndex(strategy, key, ns, d.maxDeviation);
    if i == -1 {
      NoNeighborAccepted(d, key, strategy, ns);
    } else {
      NeighborWinsOverShorter(d, key, strategy, ns, i);
      FirstOfItsLength(d, key, strategy, ns, i);
    }
  }

  /** The first accepted neighbour comes, within its bucket, before every other accepted key of its length. */
  lemma FirstOfItsLength(d: Deduper, key: string, strategy: FuzzyMatchingStrategy, ns: seq<string>, i: int)
    requires Mirrors(d.keysByLength, Keys(d.data))
    requires ns == Neighbors(d.keysByLength, |key|, d.maxDeviation)
    requires 0 <= i < |ns| && i == FirstMatchIndex(strategy, key, ns, d.maxDeviation)
    ensures StoredFirstAmongAccepted(d, key, strategy, ns[i])
  {
    var ks := Keys(d.data);
    var accepts := k => FuzzyMatch(strategy, key, k, d.maxDeviation);
    assert forall j :: 0 <= j < i ==> !accepts(ns[j]);
    FirstAcceptedIsEarliest(d.keysByLength, ks, |key|, d.maxDeviation, i, accepts);
    assert EarliestOfItsLength(ks, ns[i], accepts);
    var p :| 0 <= p < |ks| && ks[p] == ns[i] && forall q :: 0 <= q < p && |ks[q]| == |ns[i]| ==> !accepts(ks[q]);
    assert forall q :: 0 <= q < p && |ks[q]| == |ns[i]| ==> !FuzzyMatch(strategy, key, ks[q], d.maxDeviation);
  }

  lemma ShorterComesFirst(ns: seq<string>, i: nat, j: nat)
    requires Ascending(ns) && i < |ns| && j < |ns| && |ns[j]| < |ns[i]|
    ensures j < i
  {
  }

  lemma NoNeighborAccepted(d: Deduper, key: string, strategy: FuzzyMatchingStrategy, ns: seq<string>)
    requires forall x :: x in ns <==> x in Keys(d.data) && InWindow(key, x, d.maxDeviation)
    requires FirstMatchIndex(strategy, key, ns, d.maxDeviation) == -1
    ensures NoneAccepted(d, key, strategy)
  {
    forall k | k in Keys(d.data) && InWindow(key, k, d.maxDeviation)
      ensures !FuzzyMatch(strategy, key, k, d.maxDeviation)
    {
      assert k in ns;
    }
  }

  lemma NeighborWinsOverShorter(d: Deduper, key: string, strategy: FuzzyMatchingStrategy, ns: seq<string>, i: int)
    requires forall x :: x in ns <==> x in Keys(d.data) && InWindow(key, x, d.maxDeviation)
    requires Ascending(ns)
    requires 0 <= i < |ns| && i == FirstMatchIndex(strategy, key, ns, d.maxDeviation)
    ensures ns[i] in Keys(d.data) && InWindow(key, ns[i], d.maxDeviation) && FuzzyMatch(strategy, key, ns[i], d.maxDeviation)
    ensures forall k :: k in Keys(d.data) && InWindow(key, k, d.maxDeviation) && |k| < |ns[i]| ==>
      !FuzzyMatch(strategy, key, k, d.maxDeviation)
  {
    assert ns[i] in ns;
    forall k | k in Keys(d.data) && InWindow(key, k, d.maxDeviation) && |k| < |ns[i]|
      ensures !FuzzyMatch(strategy, key, k, d.maxDeviation)
    {
      var j :| 0 <= j < |ns| && ns[j] == k;
      ShorterComesFirst(ns, i, j);
    }
  }

  /** A stored key is a neighbour candidate: at least one character, and length within the deviation. */
  predicate InWindow(key: string, k: string, maxDeviation: nat)
  {
    Max(1, |key| - maxDeviation) <= |k| <= |key| + maxDeviation
  }

  /**
    The length window loses nothing for Levenshtein: if any stored key of
    at least one character is within the deviation, resolution picks a
    stored key within the deviation.
  */
  lemma LevenshteinResolutionComplete(d: Deduper, key: string, k: string)
    requires d.strategy == Some(Levenshtein) && d.minStringLength <= |key|
    requires Mirrors(d.keysByLength, Keys(d.data))
    requires k in Keys(d.data) && |k| >= 1 && Distance(key, k) <= d.maxDeviation
    ensures ResolveKey(d, key) in Keys(d.data)
    ensures Distance(key, ResolveKey(d, key)) <= d.maxDeviation
  {
    DistanceAtLeastLengthGap(key, k);
    assert InWindow(key, k, d.maxDeviation);
    assert !NoneAccepted(d, key, Levenshtein);
    ResolveKeyOutcome(d, key);
  }

  // ---------------------------------------------------------------------
  // Import

  /** `SaveStringByKey`: store the line under its key and, with fuzzy matching on, file the key by length. */
  function SaveStringByKey(d: Deduper, key: string, value: string, saveKeyByLength: bool): (r: Deduper)
    ensures r.data == Save(d.data, key, value)
    ensures saveKeyByLength ==> r.keysByLength == AddKey(d.keysByLength, |key|, key)
    ensures !saveKeyByLength ==> r.keysByLength == d.keysByLength
    ensures r.(data := d.data, keysByLength := d.keysByLength) == d
  {
    d.(data := Save(d.data, key, value),
       keysByLength := if saveKeyByLength then AddKey(d.keysByLength, |key|, key) else d.keysByLength)
  }

  /** The key a line is stored under, given everything imported before it. */
  function ImportKey(d: Deduper, str: string): string
  {
    ResolveKey(d, DeriveKey(d, str))
  }

  /** One iteration of `ImportStrings`: every line is stored, blank or not. */
  function ImportOne(d: Deduper, str: string): (r: Deduper)
    ensures Total(r.data) == Total(d.data) + 1
  {
    SaveStringByKey(d, ImportKey(d, str), str, d.strategy.Some?)
  }

  /** `ImportStrings`: the lines folded into the engine in input order. */
  function ImportStrings(d: Deduper, lines: seq<string>): (r: Deduper)
    ensures r.(data := d.data, keysByLength := d.keysByLength) == d
    decreases |lines|
  {
    if |lines| == 0 then d else ImportStrings(ImportOne(d, lines[0]), lines[1..])
  }

  /** Every line counts once in the store, blank lines and empty keys included. */
  lemma {:induction false} ImportTotal(d: Deduper, lines: seq<string>)
    ensures Total(ImportStrings(d, lines).data) == Total(d.data) + |lines|
    decreases |lines|
  {
    if |lines| > 0 {
      ImportTotal(ImportOne(d, lines[0]), lines[1..]);
    }
  }

  lemma {:induction false} ImportKeepsWellFormed(d: Deduper, lines: seq<string>)
    requires WellFormed(d.data)
    ensures WellFormed(ImportStrings(d, lines).data)
    decreases |lines|
  {
    if |lines| > 0 {
      SaveKeepsWellFormed(d.data, ImportKey(d, lines[0]), lines[0]);
      ImportKeepsWellFormed(ImportOne(d, lines[0]), lines[1..]);
    }
  }

  /** With fuzzy matching on, bucket n keeps holding exactly the stored keys of length n. */
  lemma {:induction false} ImportKeepsIndexMirror(d: Deduper, lines: seq<string>)
    requires d.strategy.Some?
    requires Mirrors(d.keysByLength, Keys(d.data))
    ensures Mirrors(ImportStrings(d, lines).keysByLength, Keys(ImportStrings(d, lines).data))
    decreases |lines|
  {
    if |lines| > 0 {
      var key := ImportKey(d, lines[0]);
      AddKeyMirrors(d.keysByLength, Keys(d.data), key, Keys(Save(d.data, key, lines[0])));
      ImportKeepsIndexMirror(ImportOne(d, lines[0]), lines[1..]);
    }
  }

  /** Without fuzzy matching the index is never touched. */
  lemma {:induction false} ImportLeavesIndexWithoutStrategy(d: Deduper, lines: seq<string>)
    requires d.strategy.None?
    ensures ImportStrings(d, lines).keysByLength == d.keysByLength
    decreases |lines|
  {
    if |lines| > 0 {
      ImportLeavesIndexWithoutStrategy(ImportOne(d, lines[0]), lines[1..]);
    }
  }

  /**
    Without fuzzy matching every line lands under its own derived key, and
    each (key, line) count grows by the number of times the line occurs.
  */
  lemma {:induction false} ImportWithoutFuzzyCounts(d: Deduper, lines: seq<string>, v: string)
    requires d.strategy.None? && WellFormed(d.data)
    ensures Count(ImportStrings(d, lines).data, DeriveKey(d, v), v) ==
      Count(d.data, DeriveKey(d, v), v) + multiset(lines)[v]
    decreases |lines|
  {
    if |lines| > 0 {
      var key := DeriveKey(d, lines[0]);
      var next := ImportOne(d, lines[0]);
      assert next == d.(data := Save(d.data, key, lines[0]));
      SaveCounts(d.data, key, lines[0], DeriveKey(d, v), v);
      SaveKeepsWellFormed(d.data, key, lines[0]);
      assert DeriveKey(next, v) == DeriveKey(d, v);
      ImportWithoutFuzzyCounts(next, lines[1..], v);
      HeadOccurrences(lines, v);
    }
  }

  lemma ImportStringsStep(d: Deduper, lines: seq<string>)
    requires |lines| > 0
    ensures ImportStrings(d, lines) == ImportStrings(ImportOne(d, lines[0]), lines[1..])
  {
  }

  lemma HeadOccurrences(lines: seq<string>, v: string)
    requires |lines| > 0
    ensures multiset(lines)[v] == multiset(lines[1..])[v] + (if lines[0] == v then 1 else 0)
  {
    assert lines == [lines[0]] + lines[1..];
  }

  // ---------------------------------------------------------------------
  // Views and reset

  /**
    `GetDuplicates`: groups with more than one original or a repeated first
    original, each variation emitted per occurrence (once when repeats are
    excluded), the group's first occurrence left out unless the original is
    included, and an empty string after each group on request.
  */
  function GetDuplicates(d: Deduper, includeOriginal: bool, excludeRepeats: bool, addEmptyString: bool): seq<string>
  {
    Render(d.data, IsDuplicateGroup, !includeOriginal, excludeRepeats, addEmptyString)
  }

  /** The duplicate groups in store order, each closed by an empty line when `addEmptyString` holds. */
  lemma DuplicatesBlocks(d: Deduper, includeOriginal: bool, excludeRepeats: bool, addEmptyString: bool)
    ensures GetDuplicates(d, includeOriginal, excludeRepeats, addEmptyString) ==
      Blocks(Selected(d.data, IsDuplicateGroup), !includeOriginal, excludeRepeats, if addEmptyString then [""] else [])
  {
    RenderIsBlocks(d.data, IsDuplicateGroup, !includeOriginal, excludeRepeats, addEmptyString);
  }

  /**
    With repeats kept, the view has one line per occurrence in the duplicate
    groups, less each group's first unless the original is included, plus
    one empty line per group on request.
  */
  lemma DuplicatesLength(d: Deduper, includeOriginal: bool, addEmptyString: bool)
    requires WellFormed(d.data)
    ensures var groups := Selected(d.data, IsDuplicateGroup);
      |GetDuplicates(d, includeOriginal, false, addEmptyString)| ==
        Total(groups) - (if includeOriginal then 0 else |groups|) + (if addEmptyString then |groups| else 0)
  {
    RenderLength(d.data, IsDuplicateGroup, !includeOriginal, addEmptyString);
  }

  /** With originals included and repeats excluded, the view lists each original of a duplicate group. */
  lemma DuplicatesOnceMembers(d: Deduper, x: string)
    requires WellFormed(d.data)
    ensures x in GetDuplicates(d, true, true, false) <==>
      exists i :: 0 <= i < |d.data| && IsDuplicateGroup(d.data[i]) && x in Values(d.data[i].variations)
  {
    RenderOnceMembers(d.data, IsDuplicateGroup, x);
  }

  /** `GetUniques` as written: the first original of every group; the restriction flag is not consulted. */
  function GetUniques(d: Deduper, restrictToUniqueInput: bool): (r: seq<string>)
    requires forall i :: 0 <= i < |d.data| ==> |d.data[i].variations| > 0
    ensures |r| == |d.data|
    ensures forall i :: 0 <= i < |d.data| ==> r[i] == d.data[i].variations[0].value
  {
    FirstValues(d.data)
  }

  function FirstValues(s: Store): (r: seq<string>)
    requires forall i :: 0 <= i < |s| ==> |s[i].variations| > 0
    ensures |r| == |s|
    ensures forall i :: 0 <= i < |s| ==> r[i] == s[i].variations[0].value
  {
    if |s| == 0 then [] else [s[0].variations[0].value] + FirstValues(s[1..])
  }

  /**
    The unique view as evidently intended: with `restrictToUniqueInput`,
    only groups holding a single original seen once contribute; otherwise
    every group contributes its first original.
  */
  function GetUniquesFiltered(d: Deduper, restrictToUniqueInput: bool): (r: seq<string>)
    requires forall i :: 0 <= i < |d.data| ==> |d.data[i].variations| > 0
    ensures forall x :: x in r <==>
      exists i :: 0 <= i < |d.data| && (!restrictToUniqueInput || IsUniqueGroup(d.data[i]))
                  && x == d.data[i].variations[0].value
    ensures !restrictToUniqueInput ==> r == GetUniques(d, restrictToUniqueInput)
  {
    SelectedFirstValuesMembers(d.data, restrictToUniqueInput);
    SelectedFirstValues(d.data, restrictToUniqueInput)
  }

  function SelectedFirstValues(s: Store, restrict: bool): (r: seq<string>)
    requires forall i :: 0 <= i < |s| ==> |s[i].variations| > 0
  {
    if |s| == 0 then []
    else
      (if !restrict || IsUniqueGroup(s[0]) then [s[0].variations[0].value] else [])
      + SelectedFirstValues(s[1..], restrict)
  }

  lemma {:induction false} SelectedFirstValuesMembers(s: Store, restrict: bool)
    requires forall i :: 0 <= i < |s| ==> |s[i].variations| > 0
    ensures forall x :: x in SelectedFirstValues(s, restrict) <==>
      exists i :: 0 <= i < |s| && (!restrict || IsUniqueGroup(s[i])) && x == s[i].variations[0].value
    ensures !restrict ==> SelectedFirstValues(s, restrict) == FirstValues(s)
  {
    if |s| > 0 {
      SelectedFirstValuesMembers(s[1..], restrict);
      var rest := SelectedFirstValues(s[1..], restrict);
      var head := if !restrict || IsUniqueGroup(s[0]) then [s[0].variations[0].value] else [];
      assert forall x :: x in head + rest <==> x in head || x in rest;
      forall x | x in rest
        ensures exists i :: 0 <= i < |s| && (!restrict || IsUniqueGroup(s[i])) && x == s[i].variations[0].value
      {
        var i :| 0 <= i < |s[1..]| && (!restrict || IsUniqueGroup(s[1..][i])) && x == s[1..][i].variations[0].value;
        assert s[i + 1] == s[1..][i];
      }
      forall x | exists i :: 0 <= i < |s| && (!restrict || IsUniqueGroup(s[i])) && x == s[i].variations[0].value
        ensures x in head + rest
      {
        var i :| 0 <= i < |s| && (!restrict || IsUniqueGroup(s[i])) && x == s[i].variations[0].value;
        if i > 0 {
          assert s[1..][i - 1] == s[i];
        }
      }
    }
  }

  /**
    `GetUniques` builds the filtered groups but enumerates the unfiltered
    store: after importing x, x, y, asking for input-unique strings still
    yields x, which was seen twice.
  */
  lemma GetUniquesIgnoresRestriction(x: string, y: string)
    requires x != y
    ensures var d := ImportStrings(NewDeduper, [x, x, y]);
      && d.data == [Group(x, [Variation(x, 2)]), Group(y, [Variation(y, 1)])]
      && GetUniques(d, true) == [x, y]
      && GetUniquesFiltered(d, true) == [y]
  {
    RepeatedThenNewStore(x, y);
    var d := ImportStrings(NewDeduper, [x, x, y]);
    var u := GetUniques(d, true);
    assert |u| == 2 && u[0] == x && u[1] == y;
    assert !IsUniqueGroup(d.data[0]) && IsUniqueGroup(d.data[1]);
    assert d.data[1..][1..] == [];
    assert SelectedFirstValues(d.data[1..], true) == [y];
  }

  /** Importing x, x, y without configuration: x counted twice in its group, then y's group. */
  lemma RepeatedThenNewStore(x: string, y: string)
    requires x != y
    ensures ImportStrings(NewDeduper, [x, x, y]).data == [Group(x, [Variation(x, 2)]), Group(y, [Variation(y, 1)])]
  {
    var d1 := PlainStep(NewDeduper, x);
    SaveNewKey([], x, x);
    var d2 := PlainStep(d1, x);
    SecondOccurrence(x);
    var d3 := PlainStep(d2, y);
    assert Keys(d2.data) == [x];
    SaveNewKey(d2.data, y, y);
    ImportThree(NewDeduper, x, x, y);
  }

  /** One import without any configuration: the line is saved under itself, the configuration stays. */
  lemma PlainStep(d: Deduper, str: string) returns (r: Deduper)
    requires d.getKey.None? && d.ignoredSuffixes.None? && d.strategy.None?
    ensures r == ImportOne(d, str)
    ensures r.data == Save(d.data, str, str)
    ensures r.getKey.None? && r.ignoredSuffixes.None? && r.strategy.None?
  {
    PlainImportKey(d, str);
    r := ImportOne(d, str);
  }

  lemma ImportThree(d: Deduper, x: string, y: string, z: string)
    ensures ImportStrings(d, [x, y, z]) == ImportOne(ImportOne(ImportOne(d, x), y), z)
  {
    var d1 := ImportOne(d, x);
    var d2 := ImportOne(d1, y);
    ImportStringsStep(d, [x, y, z]);
    assert [x, y, z][1..] == [y, z];
    ImportStringsStep(d1, [y, z]);
    assert [y, z][1..] == [z];
    ImportStringsStep(d2, [z]);
  }

  /** Without any configuration a line is its own key. */
  lemma PlainImportKey(d: Deduper, str: string)
    requires d.getKey.None? && d.ignoredSuffixes.None? && d.strategy.None?
    ensures ImportKey(d, str) == str
    ensures ImportOne(d, str).data == Save(d.data, str, str)
  {
  }

  lemma SingletonUpdate<T>(a: T, b: T)
    ensures [a][0 := b] == [b]
  {
  }

  lemma SecondOccurrence(x: string)
    ensures Save([Group(x, [Variation(x, 1)])], x, x) == [Group(x, [Variation(x, 2)])]
  {
    var s := [Group(x, [Variation(x, 1)])];
    assert Keys(s) == [x];
    SaveKnownKey(s, 0, x, x);
    SecondOccurrenceInGroup(x);
    SingletonUpdate(Group(x, [Variation(x, 1)]), Group(x, [Variation(x, 2)]));
  }

  lemma SecondOccurrenceInGroup(x: string)
    ensures Increment([Variation(x, 1)], x) == [Variation(x, 2)]
  {
    var vs := [Variation(x, 1)];
    assert ValueIndex(vs, x) == 0;
    SingletonUpdate(Variation(x, 1), Variation(x, 2));
  }

  /** `ClearMemory`: the store and the index are emptied; configuration stays. */
  function ClearMemory(d: Deduper): (r: Deduper)
    ensures Total(r.data) == 0 && Keys(r.data) == []
    ensures forall n :: Bucket(r.keysByLength, n) == []
    ensures forall includeOriginal, excludeRepeats, addEmptyString ::
      GetDuplicates(r, includeOriginal, excludeRepeats, addEmptyString) == []
    ensures forall restrict :: GetUniques(r, restrict) == []
    ensures r.(data := d.data, keysByLength := d.keysByLength) == d
  {
    d.(data := [], keysByLength := map[])
  }

  // ---------------------------------------------------------------------
  // Fuzzy matching can split one original across two groups.

  /** Levenshtein matching, deviation 2, keys of any length. */
  const FuzzyExample: Deduper := Deduper(None, None, Some(Levenshtein), 1, 2, [], map[])

  /** A state of the example run: configured as `FuzzyExample`, consistent, with the given keys and counts of `a`. */
  ghost predicate ExampleState(d: Deduper, keys: seq<string>, ag: string, b: string, a: string, inAg: nat, inB: nat)
  {
    && d.getKey.None? && d.ignoredSuffixes.None? && d.strategy == Some(Levenshtein)
    && d.minStringLength == 1 && d.maxDeviation == 2
    && Mirrors(d.keysByLength, Keys(d.data))
    && StoreState(d.data, keys, ag, b, a, inAg, inB)
  }

  /** The store of an example state: consistent, with the given keys and counts of `a`. */
  predicate StoreState(s: Store, keys: seq<string>, ag: string, b: string, a: string, inAg: nat, inB: nat)
  {
    && WellFormed(s) && Keys(s) == keys
    && Count(s, ag, a) == inAg && Count(s, b, a) == inB
  }

  /** One import step of the example, given the key the line resolves to. */
  lemma ExampleStep(d: Deduper, keys: seq<string>, ag: string, b: string, a: string, inAg: nat, inB: nat, str: string, key: string,
                    keys': seq<string>, inAg': nat, inB': nat)
    requires ExampleState(d, keys, ag, b, a, inAg, inB)
    requires ImportKey(d, str) == key && ag != b
    requires keys' == if key in keys then keys else keys + [key]
    requires inAg' == inAg + (if key == ag && str == a then 1 else 0)
    requires inB' == inB + (if key == b && str == a then 1 else 0)
    ensures ExampleState(ImportOne(d, str), keys', ag, b, a, inAg', inB')
  {
    var r := ImportOne(d, str);
    assert r == d.(data := Save(d.data, key, str), keysByLength := AddKey(d.keysByLength, |key|, key));
    StoreStep(d.data, keys, ag, b, a, inAg, inB, str, key, keys', inAg', inB');
    AddKeyMirrors(d.keysByLength, keys, key, keys');
  }

  /** The store half of `ExampleStep`. */
  lemma StoreStep(s: Store, keys: seq<string>, ag: string, b: string, a: string, inAg: nat, inB: nat, str: string, key: string,
                  keys': seq<string>, inAg': nat, inB': nat)
    requires StoreState(s, keys, ag, b, a, inAg, inB) && ag != b
    requires keys' == if key in keys then keys else keys + [key]
    requires inAg' == inAg + (if key == ag && str == a then 1 else 0)
    requires inB' == inB + (if key == b && str == a then 1 else 0)
    ensures StoreState(Save(s, key, str), keys', ag, b, a, inAg', inB')
    ensures forall x :: x in keys' <==> x in keys || x == key
  {
    SaveKeepsWellFormed(s, key, str);
    SaveCountOf(s, key, str, ag, a, inAg, inAg');
    SaveCountOf(s, key, str, b, a, inB, inB');
  }

  lemma SaveCountOf(s: Store, key: string, str: string, k: string, v: string, n: nat, n': nat)
    requires WellFormed(s) && Count(s, k, v) == n
    requires n' == n + (if key == k && str == v then 1 else 0)
    ensures Count(Save(s, key, str), k, v) == n'
  {
    SaveCounts(s, key, str, k, v);
  }

  /**
    With Levenshtein matching at deviation 2, importing a + g, a, b, a
    where a = c + b (for example "abcdefgh", "abcdef", "bcdef", "abcdef")
    files the first a under a + g but the second under b: the bucket for
    b's length is scanned before the one for a + g.
  */
  lemma FuzzyGroupsCanShareAnOriginal(c: char, b: string, g: string)
    requires |b| >= 1 && |g| == 2
    ensures var a := [c] + b;
      var d := ImportStrings(FuzzyExample, [a + g, a, b, a]);
      Count(d.data, a + g, a) == 1 && Count(d.data, b, a) == 1
  {
    var a := [c] + b;
    var d := ExampleRun(c, b, g, a, a + g);
  }

  /** The four imports of the example, one lemma per step. */
  lemma ExampleRun(c: char, b: string, g: string, a: string, ag: string) returns (d4: Deduper)
    requires |b| >= 1 && |g| == 2 && a == [c] + b && ag == a + g
    ensures d4 == ImportStrings(FuzzyExample, [ag, a, b, a])
    ensures Count(d4.data, ag, a) == 1 && Count(d4.data, b, a) == 1
  {
    assert |ag| == |b| + 3 && |a| == |b| + 1;
    assert ExampleState(FuzzyExample, [], ag, b, a, 0, 0);
    var d1 := ExampleFirst(ag, b, a);
    var d2 := ExampleSecond(d1, ag, b, a, g);
    var d3 := ExampleThird(d2, ag, b, a);
    d4 := ExampleFourth(d3, ag, b, a, c);
    ImportFour(FuzzyExample, ag, a, b, a);
  }

  lemma ImportFour(d: Deduper, w: string, x: string, y: string, z: string)
    ensures ImportStrings(d, [w, x, y, z]) == ImportOne(ImportOne(ImportOne(ImportOne(d, w), x), y), z)
  {
    var d1 := ImportOne(d, w);
    var d2 := ImportOne(d1, x);
    var d3 := ImportOne(d2, y);
    ImportStringsStep(d, [w, x, y, z]);
    assert [w, x, y, z][1..] == [x, y, z];
    ImportStringsStep(d1, [x, y, z]);
    assert [x, y, z][1..] == [y, z];
    ImportStringsStep(d2, [y, z]);
    assert [y, z][1..] == [z];
    ImportStringsStep(d3, [z]);
  }

  /** Without a normalize strategy or suffixes, the key to resolve is the line itself. */
  lemma PlainDerive(d: Deduper, str: string)
    requires d.getKey.None? && d.ignoredSuffixes.None?
    ensures ImportKey(d, str) == ResolveKey(d, str)
  {
    assert DeriveKey(d, str) == TrimSuffixes(str, []);
  }

  /** The configuration of the example run, with the index mirroring the given keys. */
  ghost predicate ExampleIndex(d: Deduper, keys: seq<string>)
  {
    && d.getKey.None? && d.ignoredSuffixes.None? && d.strategy == Some(Levenshtein)
    && d.minStringLength == 1 && d.maxDeviation == 2
    && Mirrors(d.keysByLength, Keys(d.data)) && Keys(d.data) == keys
  }

  /** "abcdefgh": nothing stored yet, so it keeps its own key. */
  lemma ExampleFirst(ag: string, b: string, a: string) returns (d1: Deduper)
    requires |ag| == |b| + 3 && |a| == |b| + 1 && |b| >= 1
    ensures d1 == ImportOne(FuzzyExample, ag)
    ensures ExampleState(d1, [ag], ag, b, a, 0, 0)
  {
    assert ExampleState(FuzzyExample, [], ag, b, a, 0, 0);
    ExampleFirstKey(FuzzyExample, ag);
    ExampleStep(FuzzyExample, [], ag, b, a, 0, 0, ag, ag, [ag], 0, 0);
    d1 := ImportOne(FuzzyExample, ag);
  }

  lemma ExampleFirstKey(d0: Deduper, ag: string)
    requires ExampleIndex(d0, []) && |ag| >= 1
    ensures ImportKey(d0, ag) == ag
  {
    PlainDerive(d0, ag);
    ResolveKeyOutcome(d0, ag);
  }

  /** "abcdef": two insertions away from "abcdefgh", the only neighbour. */
  lemma ExampleSecond(d1: Deduper, ag: string, b: string, a: string, g: string) returns (d2: Deduper)
    requires ag == a + g && |g| == 2 && |a| == |b| + 1 && |b| >= 1
    requires ExampleState(d1, [ag], ag, b, a, 0, 0)
    ensures d2 == ImportOne(d1, a)
    ensures ExampleState(d2, [ag], ag, b, a, 1, 0)
  {
    ExampleSecondKey(d1, ag, a, g);
    ExampleStep(d1, [ag], ag, b, a, 0, 0, a, ag, [ag], 1, 0);
    d2 := ImportOne(d1, a);
  }

  lemma ExampleSecondKey(d1: Deduper, ag: string, a: string, g: string)
    requires ag == a + g && |g| == 2 && |a| >= 1
    requires ExampleIndex(d1, [ag])
    ensures ImportKey(d1, a) == ag
  {
    PlainDerive(d1, a);
    DistanceToExtension(a, g);
    assert InWindow(a, ag, 2);
    assert !NoneAccepted(d1, a, Levenshtein);
    ResolveKeyOutcome(d1, a);
    assert ResolveKey(d1, a) in [ag];
  }

  /** "bcdef": "abcdefgh" is three characters longer, outside the window. */
  lemma ExampleThird(d2: Deduper, ag: string, b: string, a: string) returns (d3: Deduper)
    requires |ag| == |b| + 3 && |a| == |b| + 1 && |b| >= 1
    requires ExampleState(d2, [ag], ag, b, a, 1, 0)
    ensures d3 == ImportOne(d2, b)
    ensures ExampleState(d3, [ag] + [b], ag, b, a, 1, 0)
  {
    ExampleThirdKey(d2, ag, b);
    assert b !in [ag];
    ExampleStep(d2, [ag], ag, b, a, 1, 0, b, b, [ag] + [b], 1, 0);
    d3 := ImportOne(d2, b);
  }

  lemma ExampleThirdKey(d2: Deduper, ag: string, b: string)
    requires |ag| == |b| + 3 && |b| >= 1
    requires ExampleIndex(d2, [ag])
    ensures ImportKey(d2, b) == b
  {
    PlainDerive(d2, b);
    assert !InWindow(b, ag, 2);
    assert NoneAccepted(d2, b, Levenshtein);
    ResolveKeyOutcome(d2, b);
  }

  /** "abcdef" again: "bcdef" is one deletion away and shorter than "abcdefgh". */
  lemma ExampleFourth(d3: Deduper, ag: string, b: string, a: string, c: char) returns (d4: Deduper)
    requires a == [c] + b && |ag| == |b| + 3 && |b| >= 1
    requires ExampleState(d3, [ag] + [b], ag, b, a, 1, 0)
    ensures d4 == ImportOne(d3, a)
    ensures ExampleState(d4, [ag] + [b], ag, b, a, 1, 1)
  {
    ExampleFourthKey(d3, ag, b, a, c);
    assert b in [ag] + [b];
    ExampleStep(d3, [ag] + [b], ag, b, a, 1, 0, a, b, [ag] + [b], 1, 1);
    d4 := ImportOne(d3, a);
  }

  lemma ExampleFourthKey(d3: Deduper, ag: string, b: string, a: string, c: char)
    requires a == [c] + b && |ag| == |b| + 3 && |b| >= 1
    requires ExampleIndex(d3, [ag] + [b])
    ensures ImportKey(d3, a) == b
  {
    PlainDerive(d3, a);
    DistanceFromPrefixed([c], b);
    assert InWindow(a, b, 2);
    assert FuzzyMatch(Levenshtein, a, b, 2);
    assert !NoneAccepted(d3, a, Levenshtein);
    ResolveKeyOutcome(d3, a);
    var r := ResolveKey(d3, a);
    assert r in [ag] + [b];
    assert |b| < |r| ==> !FuzzyMatch(Levenshtein, a, b, d3.maxDeviation);
  }
}
