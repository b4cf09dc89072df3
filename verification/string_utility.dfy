/**
  The bit-parallel approximate substring search (Bitap, "shift-or" with k
  error rows) used by the Bitap fuzzy-matching strategy.

  The search is defined twice: `Search` says what the result means (the first
  start position at which the pattern differs from the text in at most k
  positions), and `SearchString` is the imperative bit-vector algorithm,
  proved to compute exactly `Search`.  The row update only ever consumes one
  text character per pattern character, so the distance it bounds is the
  Hamming distance (substitutions only), not the edit distance.
*/
module StringUtility {

  /** The widest pattern the 32-bit rows can hold: bit m must be a valid bit. */
  const MaxPatternLength: nat := 31

  /** Size of the pattern-mask table: one entry per 7-bit character code. */
  const MaskTableSize: nat := 128

  /** Number of positions at which two equal-length strings differ. */
  function Mismatches(p: string, t: string): (n: nat)
    requires |p| == |t|
    ensures n <= |p|
    decreases |p|
  {
    if |p| == 0 then 0
    else Mismatches(p[..|p| - 1], t[..|t| - 1]) + (if p[|p| - 1] == t[|t| - 1] then 0 else 1)
  }

  /** The pattern occurs at `s` in the text with at most `k` substituted characters. */
  predicate MatchesAt(text: string, pattern: string, s: nat, k: nat)
  {
    s + |pattern| <= |text| && Mismatches(pattern, text[s..s + |pattern|]) <= k
  }

  /** The first start at or after `s` where the pattern matches, or -1. */
  function FirstMatchFrom(text: string, pattern: string, k: nat, s: nat): (r: int)
    ensures r == -1 || (s <= r && MatchesAt(text, pattern, r, k))
    ensures r == -1 ==> forall t :: s <= t ==> !MatchesAt(text, pattern, t, k)
    ensures r >= 0 ==> forall t :: s <= t < r ==> !MatchesAt(text, pattern, t, k)
    decreases |text| - s
  {
    if s + |pattern| > |text| then -1
    else if MatchesAt(text, pattern, s, k) then s
    else FirstMatchFrom(text, pattern, k, s + 1)
  }

  /**
    What the search returns: 0 for an empty pattern, -1 for a pattern wider
    than the rows, otherwise the smallest start whose window is within k
    substitutions of the pattern, or -1 when there is none.
  */
  function Search(text: string, pattern: string, k: nat): (r: int)
    ensures r == -1 || 0 <= r <= |text| - |pattern|
    ensures |pattern| == 0 ==> r == 0
    ensures |pattern| > MaxPatternLength ==> r == -1
    ensures 0 < |pattern| <= MaxPatternLength && r >= 0 ==>
      MatchesAt(text, pattern, r, k) && forall s :: 0 <= s < r ==> !MatchesAt(text, pattern, s, k)
    ensures 0 < |pattern| <= MaxPatternLength && r == -1 ==>
      forall s :: !MatchesAt(text, pattern, s, k)
  {
    if |pattern| == 0 then 0
    else if |pattern| > MaxPatternLength then -1
    else FirstMatchFrom(text, pattern, k, 0)
  }

  /**
    How far into the text the algorithm reads: up to the end of the first
    match, or the whole text when there is none.  Only these characters are
    used as indexes into the mask table.
  */
  function ScanLength(text: string, pattern: string, k: nat): (n: nat)
    ensures n <= |text|
  {
    var r := Search(text, pattern, k);
    if r >= 0 then r + |pattern| else |text|
  }

  /** Every character the algorithm reads is a valid index of the mask table. */
  predicate MaskIndexable(text: string, pattern: string, k: nat)
  {
    0 < |pattern| <= MaxPatternLength ==>
      (forall i :: 0 <= i < |pattern| ==> pattern[i] as int < MaskTableSize) &&
      (forall i :: 0 <= i < ScanLength(text, pattern, k) ==> text[i] as int < MaskTableSize)
  }

  // ---------------------------------------------------------------------
  // 32-bit words.  The search only uses bitwise operators on its ints, so a
  // C# int is modelled by its 32 bits, least significant first; every
  // operator below is the C# operator on 32-bit two's-complement values.

  /** Number of bits in a C# int. */
  const WordSize: nat := 32

  type Word = w: seq<bool> | |w| == WordSize witness seq(32, _ => false)

  /** The int 0. */
  function Zero(): Word
  {
    seq(WordSize, _ => false)
  }

  /** `1 << i`, for a shift count below the word size. */
  function Single(i: nat): (w: Word)
    requires i < WordSize
  {
    seq(WordSize, j => j == i)
  }

  /** `~a` */
  function Not(a: Word): Word
  {
    seq(WordSize, j requires 0 <= j < WordSize => !a[j])
  }

  /** `a | b` */
  function Or(a: Word, b: Word): Word
  {
    seq(WordSize, j requires 0 <= j < WordSize => a[j] || b[j])
  }

  /** `a & b` */
  function And(a: Word, b: Word): Word
  {
    seq(WordSize, j requires 0 <= j < WordSize => a[j] && b[j])
  }

  /** `a << 1`: every bit moves up one place, the top bit is lost, bit 0 becomes 0. */
  function ShiftLeft1(a: Word): Word
  {
    [false] + a[..WordSize - 1]
  }

  /** `(w & (1 << i)) == 0` tests bit i. */
  lemma TestBit(w: Word, i: nat)
    requires i < WordSize
    ensures (And(w, Single(i)) == Zero()) == !w[i]
  {
    if w[i] {
      assert And(w, Single(i))[i] != Zero()[i];
    } else {
      assert forall j :: 0 <= j < WordSize ==> And(w, Single(i))[j] == Zero()[j];
    }
  }

  /** `w & ~(1 << i)` clears bit i and keeps the others. */
  lemma ClearBit(w: Word, i: nat)
    requires i < WordSize
    ensures forall j :: 0 <= j < WordSize ==> And(w, Not(Single(i)))[j] == (w[j] && j != i)
  {
  }

  // ---------------------------------------------------------------------
  // The meaning of a row bit.

  /**
    After reading `i` text characters, the first `j` pattern characters match
    the last `j` characters read with at most `d` substitutions.
  */
  predicate Reach(text: string, pattern: string, i: nat, d: nat, j: nat)
    requires i <= |text| && j <= |pattern|
  {
    j <= i && Mismatches(pattern[..j], text[i - j..i]) <= d
  }

  /** Row `d`, bit `j` is clear exactly when `Reach` holds, for every row and every bit up to m. */
  ghost predicate RowsMeaning(text: string, pattern: string, i: nat, rows: seq<Word>)
    requires i <= |text| && |pattern| < WordSize
  {
    forall d, j :: 0 <= d < |rows| && 0 <= j <= |pattern| ==>
      (rows[d][j] <==> !Reach(text, pattern, i, d, j))
  }

  /** Mask bit `j` is clear exactly when pattern character `j` is `c`. */
  ghost predicate MaskMeaning(mask: Word, pattern: string, c: char)
    requires |pattern| < WordSize
  {
    forall j :: 0 <= j < |pattern| ==> (mask[j] <==> pattern[j] != c)
  }

  /** Row `d` after the update for a text character whose mask is `mc` (the row update of the search loop). */
  function AdvanceRow(rows: seq<Word>, mc: Word, d: nat): Word
    requires d < |rows|
  {
    if d == 0 then ShiftLeft1(Or(rows[0], mc))
    else ShiftLeft1(And(rows[d - 1], Or(rows[d], mc)))
  }

  /** `n` copies of the word `w`. */
  function Fill(n: nat, w: Word): (r: seq<Word>)
    ensures |r| == n && forall d :: 0 <= d < n ==> r[d] == w
  {
    if n == 0 then [] else Fill(n - 1, w) + [w]
  }

  /** Extending a window by one character adds one mismatch exactly when the new characters differ. */
  lemma MismatchesExtend(text: string, pattern: string, i: nat, j: nat)
    requires j < |pattern| && j <= i < |text|
    ensures Mismatches(pattern[..j + 1], text[i - j..i + 1])
         == Mismatches(pattern[..j], text[i - j..i]) + (if pattern[j] == text[i] then 0 else 1)
  {
    var p := pattern[..j + 1];
    var t := text[i - j..i + 1];
    assert p[..|p| - 1] == pattern[..j];
    assert t[..|t| - 1] == text[i - j..i];
  }

  /**
    A prefix of length n + 1 is within d substitutions of the window ending at
    the new character iff the prefix of length n was within d and the new
    characters agree, or it was within d - 1 (the new character substitutes).
  */
  lemma ReachExtend(text: string, pattern: string, i: nat, d: nat, n: nat)
    requires i < |text| && n < |pattern|
    ensures Reach(text, pattern, i + 1, d, n + 1) <==>
      (Reach(text, pattern, i, d, n) && pattern[n] == text[i]) || (d > 0 && Reach(text, pattern, i, d - 1, n))
  {
    if n <= i {
      MismatchesExtend(text, pattern, i, n);
    }
  }

  /** The empty prefix is always reached. */
  lemma ReachEmpty(text: string, pattern: string, i: nat, d: nat)
    requires i <= |text|
    ensures Reach(text, pattern, i, d, 0)
  {
    assert pattern[..0] == [] && text[i..i] == [];
  }

  /** One row update turns the meaning of the rows after `i` characters into the meaning after `i + 1`. */
  lemma AdvancePreservesMeaning(text: string, pattern: string, i: nat, rows: seq<Word>, mc: Word, next: seq<Word>)
    requires i < |text| && 0 < |pattern| < WordSize
    requires |next| == |rows| && forall d :: 0 <= d < |rows| ==> next[d] == AdvanceRow(rows, mc, d)
    requires RowsMeaning(text, pattern, i, rows)
    requires MaskMeaning(mc, pattern, text[i])
    ensures RowsMeaning(text, pattern, i + 1, next)
  {
    forall d, j | 0 <= d < |rows| && 0 <= j <= |pattern|
      ensures next[d][j] <==> !Reach(text, pattern, i + 1, d, j)
    {
      if j == 0 {
        ReachEmpty(text, pattern, i + 1, d);
      } else {
        ReachExtend(text, pattern, i, d, j - 1);
      }
    }
  }

  /** A first match found by scanning left to right is the one `Search` describes. */
  lemma FirstMatchIsSearch(text: string, pattern: string, k: nat, r: nat)
    requires 0 < |pattern| <= MaxPatternLength
    requires MatchesAt(text, pattern, r, k)
    requires forall s :: 0 <= s < r ==> !MatchesAt(text, pattern, s, k)
    ensures Search(text, pattern, k) == r
  {
  }

  /**
    Row k's bit m after reading i + 1 characters decides whether the window
    ending at character i matches; with no earlier match, that is the answer.
  */
  lemma DetectMatch(text: string, pattern: string, k: nat, i: nat, rows: seq<Word>)
    requires i < |text| && 0 < |pattern| < WordSize && |rows| == k + 1
    requires RowsMeaning(text, pattern, i + 1, rows)
    requires forall s :: 0 <= s && s + |pattern| <= i ==> !MatchesAt(text, pattern, s, k)
    ensures !rows[k][|pattern|] ==> |pattern| <= i + 1 && Search(text, pattern, k) == i + 1 - |pattern|
    ensures rows[k][|pattern|] ==> forall s :: 0 <= s && s + |pattern| <= i + 1 ==> !MatchesAt(text, pattern, s, k)
  {
    var m := |pattern|;
    assert rows[k][m] <==> !Reach(text, pattern, i + 1, k, m);
    if m <= i + 1 {
      assert pattern[..m] == pattern;
      assert text[i + 1 - m..i + 1] == text[i + 1 - m..i + 1 - m + m];
      assert Reach(text, pattern, i + 1, k, m) <==> MatchesAt(text, pattern, i + 1 - m, k);
    }
    if !rows[k][m] {
      FirstMatchIsSearch(text, pattern, k, i + 1 - m);
    }
  }

  /** The 128-entry pattern mask set up before the search loop: bit j of entry c is clear iff pattern character j is c. */
  method PatternMask(pattern: string) returns (mask: seq<Word>)
    requires 0 < |pattern| <= MaxPatternLength
    requires forall i :: 0 <= i < |pattern| ==> pattern[i] as int < MaskTableSize
    ensures |mask| == MaskTableSize
    ensures forall c :: 0 <= c < MaskTableSize ==> MaskMeaning(mask[c], pattern, c as char)
  {
    mask := Fill(MaskTableSize, Not(Zero()));
    var i := 0;
    while i < |pattern|
      invariant 0 <= i <= |pattern|
      invariant |mask| == MaskTableSize
      invariant forall c, j {:trigger mask[c][j]} :: 0 <= c < MaskTableSize && 0 <= j < WordSize ==>
        (mask[c][j] <==> !(j < i && pattern[j] as int == c))
    {
      var c := pattern[i] as int;
      ClearBit(mask[c], i);
      ghost var before := mask;
      mask := mask[c := And(mask[c], Not(Single(i)))];
      forall c', j {:trigger mask[c'][j]} | 0 <= c' < MaskTableSize && 0 <= j < WordSize
        ensures mask[c'][j] <==> !(j < i + 1 && pattern[j] as int == c')
      {
        assert before[c'][j] <==> !(j < i && pattern[j] as int == c');
        if c' == c {
          assert mask[c'][j] == (before[c][j] && j != i);
        } else {
          assert mask[c'][j] == before[c'][j];
        }
      }
      i := i + 1;
    }
  }

  /**
    The Bitap k-mismatch search as the repository writes it: rows of 32-bit
    words, one per allowed mismatch count, a 128-entry pattern mask, and a
    stop at the first text position whose row k has bit m clear.
  */
  method SearchString(text: string, pattern: string, k: int) returns (result: int)
    requires k >= 0
    requires MaskIndexable(text, pattern, k)
    ensures result == Search(text, pattern, k)
    ensures result == -1 || 0 <= result <= |text| - |pattern|
  {
    result := -1;
    var m := |pattern|;
    if m == 0 {
      return 0;
    }
    if m > MaxPatternLength {
      return -1;
    }

    var rows := Fill(k + 1, Not(Single(0)));
    var mask := PatternMask(pattern);
    forall d, j | 0 <= d < |rows| && 0 <= j <= m
      ensures rows[d][j] <==> !Reach(text, pattern, 0, d, j)
    {
      ReachEmpty(text, pattern, 0, d);
    }

    var i := 0;
    while i < |text|
      invariant 0 <= i <= |text|
      invariant |rows| == k + 1
      invariant RowsMeaning(text, pattern, i, rows)
      invariant forall s :: 0 <= s && s + m <= i ==> !MatchesAt(text, pattern, s, k)
    {
      assert Search(text, pattern, k) == -1 || i < Search(text, pattern, k) + m;
      var c := text[i] as int;
      assert MaskMeaning(mask[c], pattern, text[i]);

      ghost var before := rows;
      var oldRd1 := rows[0];
      rows := rows[0 := ShiftLeft1(Or(rows[0], mask[c]))];
      var d := 1;
      while d <= k
        invariant 1 <= d <= k + 1
        invariant |rows| == k + 1
        invariant oldRd1 == before[d - 1]
        invariant forall e :: 0 <= e < d ==> rows[e] == AdvanceRow(before, mask[c], e)
        invariant forall e :: d <= e <= k ==> rows[e] == before[e]
      {
        var tmp := rows[d];
        rows := rows[d := ShiftLeft1(And(oldRd1, Or(rows[d], mask[c])))];
        oldRd1 := tmp;
        d := d + 1;
      }
      AdvancePreservesMeaning(text, pattern, i, before, mask[c], rows);
      DetectMatch(text, pattern, k, i, rows);
      TestBit(rows[k], m);
      if And(rows[k], Single(m)) == Zero() {
        result := i - m + 1;
        return;
      }
      i := i + 1;
    }
  }

  // ---------------------------------------------------------------------
  // Consequences of the specification.

  /** Zero mismatches means the strings are equal. */
  lemma {:induction false} MismatchesZeroIffEqual(p: string, t: string)
    requires |p| == |t|
    ensures Mismatches(p, t) == 0 <==> p == t
    decreases |p|
  {
    if |p| > 0 {
      MismatchesZeroIffEqual(p[..|p| - 1], t[..|t| - 1]);
      assert p == p[..|p| - 1] + [p[|p| - 1]] && t == t[..|t| - 1] + [t[|t| - 1]];
    }
  }

  /** The Hamming distance does not depend on which string is the pattern. */
  lemma {:induction false} MismatchesSymmetric(p: string, t: string)
    requires |p| == |t|
    ensures Mismatches(p, t) == Mismatches(t, p)
    decreases |p|
  {
    if |p| > 0 {
      MismatchesSymmetric(p[..|p| - 1], t[..|t| - 1]);
    }
  }

  /** The pattern occurs verbatim at `s`. */
  predicate OccursAt(text: string, pattern: string, s: nat)
  {
    s + |pattern| <= |text| && text[s..s + |pattern|] == pattern
  }

  /** With k = 0 the search is exact substring search: the first verbatim occurrence, or -1. */
  lemma ExactSearch(text: string, pattern: string)
    requires 0 < |pattern| <= MaxPatternLength
    ensures var r := Search(text, pattern, 0);
      && (r >= 0 ==> OccursAt(text, pattern, r))
      && (forall s: nat :: OccursAt(text, pattern, s) ==> 0 <= r <= s)
  {
    var r := Search(text, pattern, 0);
    if r >= 0 {
      MismatchesZeroIffEqual(pattern, text[r..r + |pattern|]);
    }
    forall s: nat | OccursAt(text, pattern, s)
      ensures 0 <= r <= s
    {
      MismatchesZeroIffEqual(pattern, text[s..s + |pattern|]);
      assert MatchesAt(text, pattern, s, 0);
    }
  }
}
