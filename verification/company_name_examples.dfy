/** Worked examples of the company-name key: suffixes are trimmed in one pass, in list order. */
module CompanyNameExamples {
  import opened Strings
  import opened Suffixes
  import opened CompanyNames

  /** One pass in list order: "inc" is trimmed after "ltd", so a "ltd" it exposes stays. */
  lemma SuffixOrderMatters()
    ensures CleanCompanyName("Foo Inc Ltd") == "foo"
    ensures CleanCompanyName("Foo Ltd Inc") == "fooltd"
  {
    CleanIncLtd();
    CleanLtdInc();
    TrimIncLtd();
    TrimLtdInc();
  }

  lemma CleanIncLtd()
    ensures Clean("Foo Inc Ltd") == "fooincltd"
  {
    CleanWords();
    assert "Foo Inc Ltd" == "Foo" + (" Inc" + " Ltd");
    CleanAppend(" Inc", " Ltd");
    CleanAppend("Foo", " Inc" + " Ltd");
    assert "foo" + ("inc" + "ltd") == "fooincltd";
  }

  lemma CleanLtdInc()
    ensures Clean("Foo Ltd Inc") == "fooltdinc"
  {
    CleanWords();
    assert "Foo Ltd Inc" == "Foo" + (" Ltd" + " Inc");
    CleanAppend(" Ltd", " Inc");
    CleanAppend("Foo", " Ltd" + " Inc");
    assert "foo" + ("ltd" + "inc") == "fooltdinc";
  }

  lemma CleanWords()
    ensures Clean("Foo") == "foo"
    ensures Clean(" Inc") == "inc"
    ensures Clean(" Ltd") == "ltd"
  {
    CleanFoo();
    CleanInc();
    CleanLtd();
  }

  lemma CleanFoo() ensures Clean("Foo") == "foo" {}
  lemma CleanInc() ensures Clean(" Inc") == "inc" {}
  lemma CleanLtd() ensures Clean(" Ltd") == "ltd" {}

  /** "fooincltd": "ltd" goes first, the next four do not match, "inc" goes, the rest do not match. */
  lemma TrimIncLtd()
    ensures TrimSuffixes("fooincltd", CompanySuffixes) == "foo"
  {
    var first := ["ltd", "llc", "limitedliabilitycompany", "limited", "incorporated"];
    var tail := ["corporation", "corp", "company", "co"];
    assert CompanySuffixes == first + (["inc"] + tail);
    TrimSuffixesAppend("fooincltd", first, ["inc"] + tail);
    FirstFiveOnFooIncLtd(first);
    TrimSuffixesAppend("fooinc", ["inc"], tail);
    TrimsInc();
    TailLeaves("foo", tail);
  }

  lemma FirstFiveOnFooIncLtd(first: seq<string>)
    requires first == ["ltd", "llc", "limitedliabilitycompany", "limited", "incorporated"]
    ensures TrimSuffixes("fooincltd", first) == "fooinc"
  {
    var middle := ["llc", "limitedliabilitycompany", "limited", "incorporated"];
    assert first == ["ltd"] + middle;
    TrimSuffixesAppend("fooincltd", ["ltd"], middle);
    TrimsLtd();
    MiddleLeavesFooInc(middle);
  }

  /** "fooltdinc": the first five do not match, "inc" goes, the rest do not match. */
  lemma TrimLtdInc()
    ensures TrimSuffixes("fooltdinc", CompanySuffixes) == "fooltd"
  {
    var head := ["ltd", "llc", "limitedliabilitycompany", "limited", "incorporated"];
    var tail := ["corporation", "corp", "company", "co"];
    assert CompanySuffixes == head + (["inc"] + tail);
    var k1 := TrimSuffixes("fooltdinc", head);
    HeadLeavesFooLtdInc(head);
    TrimSuffixesAppend("fooltdinc", head, ["inc"] + tail);
    var k2 := TrimSuffixes(k1, ["inc"]);
    TrimsInc();
    TrimSuffixesAppend(k1, ["inc"], tail);
    TailLeaves(k2, tail);
  }

  lemma TrimsLtd()
    ensures TrimSuffixes("fooincltd", ["ltd"]) == "fooinc"
  {
  }

  lemma TrimsInc()
    ensures TrimSuffixes("fooinc", ["inc"]) == "foo"
    ensures TrimSuffixes("fooltdinc", ["inc"]) == "fooltd"
  {
  }

  lemma MiddleLeavesFooInc(middle: seq<string>)
    requires middle == ["llc", "limitedliabilitycompany", "limited", "incorporated"]
    ensures TrimSuffixes("fooinc", middle) == "fooinc"
  {
    TrimWithoutMatchesIsIdentity("fooinc", middle);
  }

  lemma HeadLeavesFooLtdInc(head: seq<string>)
    requires head == ["ltd", "llc", "limitedliabilitycompany", "limited", "incorporated"]
    ensures TrimSuffixes("fooltdinc", head) == "fooltdinc"
  {
    TrimWithoutMatchesIsIdentity("fooltdinc", head);
  }

  lemma TailLeaves(base: string, tail: seq<string>)
    requires base == "foo" || base == "fooltd"
    requires tail == ["corporation", "corp", "company", "co"]
    ensures TrimSuffixes(base, tail) == base
  {
    TrimWithoutMatchesIsIdentity(base, tail);
  }
}
