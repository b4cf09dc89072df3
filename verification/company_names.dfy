/**
  Key derivation of the original, fixed engine (`CompanyNameDeduper`): a
  company name is lowercased, stripped of everything outside [a-z0-9] and
  trimmed of a hard-coded list of legal-form suffixes; a line is admitted
  only when neither it nor its key is blank.
*/
module CompanyNames {
  import opened Suffixes

  // ---------------------------------------------------------------------
  // Cleaning a company name

  /** Invariant-culture lowercasing, restricted to ASCII: 'A'..'Z' become 'a'..'z'. */
  function ToLower(c: char): (r: char)
    ensures 'A' <= c <= 'Z' ==> 'a' <= r <= 'z' && r as int - c as int == 32
    ensures !('A' <= c <= 'Z') ==> r == c
  {
    if 'A' <= c <= 'Z' then (c as int + 32) as char else c
  }

  /** The characters the cleaning pattern `[^a-z0-9]` leaves in place. */
  predicate IsCleanChar(c: char)
  {
    'a' <= c <= 'z' || '0' <= c <= '9'
  }

  predicate IsClean(s: string)
  {
    forall i :: 0 <= i < |s| ==> IsCleanChar(s[i])
  }

  /** Lowercase, then delete every character outside [a-z0-9]. */
  function Clean(s: string): (r: string)
    ensures IsClean(r)
    ensures |r| <= |s|
  {
    if |s| == 0 then []
    else
      var c := ToLower(s[0]);
      (if IsCleanChar(c) then [c] else []) + Clean(s[1..])
  }

  /** A character survives cleaning exactly when some input character lowercases to it. */
  lemma {:induction false} CleanMembers(s: string, c: char)
    ensures c in Clean(s) <==> IsCleanChar(c) && exists i :: 0 <= i < |s| && ToLower(s[i]) == c
  {
    if |s| > 0 {
      CleanMembers(s[1..], c);
      if c in Clean(s[1..]) {
        var i :| 0 <= i < |s[1..]| && ToLower(s[1..][i]) == c;
        assert ToLower(s[i + 1]) == c;
      }
      if IsCleanChar(c) && exists i :: 0 <= i < |s| && ToLower(s[i]) == c {
        var i :| 0 <= i < |s| && ToLower(s[i]) == c;
        if i > 0 {
          assert ToLower(s[1..][i - 1]) == c;
        }
      }
    }
  }

  /** Cleaning works character by character, so it distributes over concatenation. */
  lemma {:induction false} CleanAppend(a: string, b: string)
    ensures Clean(a + b) == Clean(a) + Clean(b)
  {
    if |a| > 0 {
      assert (a + b)[1..] == a[1..] + b;
      CleanAppend(a[1..], b);
    } else {
      assert a + b == b;
    }
  }

  /** A clean string is its own cleaning. */
  lemma {:induction false} CleanOfClean(s: string)
    requires IsClean(s)
    ensures Clean(s) == s
  {
    if |s| > 0 {
      CleanOfClean(s[1..]);
    }
  }

  /** Cleaning is idempotent. */
  lemma CleanIdempotent(s: string)
    ensures Clean(Clean(s)) == Clean(s)
  {
    CleanOfClean(Clean(s));
  }

  /** The legal-form suffixes, in the order they are trimmed. */
  const CompanySuffixes: seq<string> :=
    ["ltd", "llc", "limitedliabilitycompany", "limited", "incorporated",
     "inc", "corporation", "corp", "company", "co"]

  /** `CleanCompanyName`: the cleaned name with each suffix trimmed at most once, in list order. */
  function CleanCompanyName(name: string): (key: string)
    ensures key <= Clean(name)
    ensures IsClean(key)
  {
    var key := TrimSuffixes(Clean(name), CompanySuffixes);
    PrefixOfClean(key, Clean(name));
    key
  }

  lemma PrefixOfClean(p: string, s: string)
    requires p <= s && IsClean(s)
    ensures IsClean(p)
  {
    assert forall i :: 0 <= i < |p| ==> p[i] == s[i];
  }

  // ---------------------------------------------------------------------
  // Admitting lines

  /** `char.IsWhiteSpace`: the Unicode separators plus the control characters U+0009..U+000D and U+0085. */
  predicate IsWhiteSpace(c: char)
  {
    || '\U{0009}' <= c <= '\U{000D}'
    || c == '\U{0020}' || c == '\U{0085}' || c == '\U{00A0}' || c == '\U{1680}'
    || '\U{2000}' <= c <= '\U{200A}'
    || c == '\U{2028}' || c == '\U{2029}' || c == '\U{202F}' || c == '\U{205F}' || c == '\U{3000}'
  }

  /** `string.IsNullOrWhiteSpace` on a line read from the input (never null). */
  predicate IsNullOrWhiteSpace(s: string)
  {
    forall i :: 0 <= i < |s| ==> IsWhiteSpace(s[i])
  }

  /** The two admission checks of the read loop. */
  predicate Admits(line: string)
  {
    !IsNullOrWhiteSpace(line) && !IsNullOrWhiteSpace(CleanCompanyName(line))
  }

  /** A line is admitted exactly when its key is non-empty: a non-empty key already rules out a blank line. */
  lemma AdmitsIffNonEmptyKey(line: string)
    ensures Admits(line) <==> CleanCompanyName(line) != ""
  {
    CleanPrefixAdmission(line, CleanCompanyName(line));
  }

  /** Any clean prefix of a line's cleaning is blank only when empty, and is non-empty only for a non-blank line. */
  lemma CleanPrefixAdmission(line: string, key: string)
    requires key <= Clean(line) && IsClean(key)
    ensures !IsNullOrWhiteSpace(line) && !IsNullOrWhiteSpace(key) <==> key != ""
  {
    if key != "" {
      assert !IsWhiteSpace(key[0]);
      assert key[0] in Clean(line);
      CleanMembers(line, key[0]);
      var i :| 0 <= i < |line| && ToLower(line[i]) == key[0];
      assert !IsWhiteSpace(line[i]);
    }
  }

}
