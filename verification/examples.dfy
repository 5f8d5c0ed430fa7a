/** Concrete inputs for the Amazon provider's predicates and splitter. */
module AmazonExamples {
  import opened Results
  import opened Strings
  import opened Strconv
  import opened Patterns
  import opened Amazon

  /** A posting updated two months ago is stale. */
  lemma TwoMonthsIsStale()
    ensures IsRecent("2 months ago") == Ok(false)
  {
    var u := "2 months ago";
    assert OccursAt("month", u, 2);
    assert LeftmostDigitRun(u, 0, 1);
    assert u[0..1] == "2";
  }

  /** A posting updated one month ago is recent. */
  lemma OneMonthIsRecent()
    ensures IsRecent("1 month ago") == Ok(true)
  {
    var u := "1 month ago";
    assert OccursAt("month", u, 2);
    assert LeftmostDigitRun(u, 0, 1);
    assert u[0..1] == "1";
  }

  /** A posting updated some days ago is recent. */
  lemma DaysAreRecent()
    ensures IsRecent("5 days ago") == Ok(true)
  {
    var u := "5 days ago";
    MissingChar("month", u, 0);
    MissingChar("year", u, 3);
  }

  /** A posting updated a year ago is stale. */
  lemma YearIsStale()
    ensures IsRecent("1 year ago") == Ok(false)
  {
    var u := "1 year ago";
    MissingChar("month", u, 0);
    assert OccursAt("year", u, 2);
  }

  /** The month rule wins over the year rule: the first number in the text
      is 1, so a posting a year and two months old passes. */
  lemma MonthRuleWins()
    ensures IsRecent("1 year, 2 months ago") == Ok(true)
  {
    var u := "1 year, 2 months ago";
    assert OccursAt("month", u, 10);
    assert LeftmostDigitRun(u, 0, 1);
    assert u[0..1] == "1";
  }

  /** A month count without digits ends the process. */
  lemma MonthWithoutNumberAborts()
    ensures IsRecent("a month ago") == Err(ErrSyntax)
  {
    var u := "a month ago";
    assert OccursAt("month", u, 2);
    assert !HasDigit(u);
  }

  /** A title with a seniority marker is rejected. */
  lemma SeniorTitleRejected(q: string)
    ensures !IsSuitable(AmazonJob("Senior Software Engineer", "", q, "", "", "", "", ""))
  {
    assert OccursAt("Senior", "Senior Software Engineer", 0);
  }

  const Sde := "Software Development Engineer"

  lemma SdeIsJunior()
    ensures !HasSeniorityMarker(Sde)
  {
    MissingChar("Manager", Sde, 0);
    MissingPair("Senior", Sde, 0);
    MissingPair("Sr", Sde, 0);
    MissingChar("II", Sde, 0);
  }

  /** Three or more years of experience is too many. */
  lemma ThreePlusYearsRejected()
    ensures !IsSuitable(AmazonJob(Sde, "", "3+ years of experience", "", "", "", "", ""))
  {
    SdeIsJunior();
    assert YearsPatternAt("3+ years of experience", 0);
  }

  /** "13 years" is caught by its last digit. */
  lemma ThirteenYearsRejected()
    ensures !IsSuitable(AmazonJob(Sde, "", "13 years", "", "", "", "", ""))
  {
    SdeIsJunior();
    assert YearsPatternAt("13 years", 1);
  }

  /** One year of experience is fine. */
  lemma OnePlusYearsAccepted()
    ensures IsSuitable(AmazonJob(Sde, "", "1+ years", "", "", "", "", ""))
  {
    SdeIsJunior();
    NoHighDigit("1+ years");
  }

  /** Only the digit right before the space or plus sign is looked at, so
      "10+ years" passes. */
  lemma TenPlusYearsAccepted()
    ensures IsSuitable(AmazonJob(Sde, "", "10+ years", "", "", "", "", ""))
  {
    SdeIsJunior();
    NoHighDigit("10+ years");
  }

  /** Four clean lines joined by line breaks. */
  ghost predicate CleanLines(a: string, h: string, d: string, b: string)
  {
    Clean(a) && Clean(h) && Clean(d) && Clean(b)
  }

  lemma FourLinesHaveNoBullets(a: string, h: string, d: string, b: string)
    requires CleanLines(a, h, d, b)
    ensures DeleteChars(a + LineBreak + h + LineBreak + d + LineBreak + b, Bullets)
            == a + LineBreak + h + LineBreak + d + LineBreak + b
  {
    var raw := a + LineBreak + h + LineBreak + d + LineBreak + b;
    assert forall i :: 0 <= i < |LineBreak| ==> LineBreak[i] !in Bullets;
    assert forall i :: 0 <= i < |raw| ==> raw[i] !in Bullets;
    DeleteAbsentChars(raw, Bullets);
  }

  lemma FourLinesPieces(a: string, h: string, d: string, b: string)
    requires CleanLines(a, h, d, b)
    ensures Pieces(a + LineBreak + h + LineBreak + d + LineBreak + b) == [a, h, d, b]
  {
    var raw := a + LineBreak + h + LineBreak + d + LineBreak + b;
    var parts := [a, h, d, b];
    FourLinesHaveNoBullets(a, h, d, b);
    assert Join(parts, LineBreak) == raw by {
      assert Join(parts[3..], LineBreak) == b;
      assert Join(parts[2..], LineBreak) == d + LineBreak + b;
      assert Join(parts[1..], LineBreak) == h + LineBreak + d + LineBreak + b;
    }
    LineBreakUnbordered();
    SplitJoin(parts, LineBreak);
  }

  /** Four lines separated by line breaks, the middle two a hashtag and the
      disclaimer: only the first and the last survive. */
  lemma HashtagAndDisclaimerDropped(a: string, h: string, d: string, b: string)
    requires KeepLine(a) && IsTrimmed(a) && KeepLine(b) && IsTrimmed(b)
    requires HasPrefix(h, "#") && IsTrimmed(h)
    requires HasPrefix(d, Disclaimer) && IsTrimmed(d)
    requires CleanLines(a, h, d, b)
    ensures ProcessQualifications(a + LineBreak + h + LineBreak + d + LineBreak + b) == [a, b]
  {
    var parts := [a, h, d, b];
    FourLinesPieces(a, h, d, b);
    TrimSpaceOfTrimmed(a);
    TrimSpaceOfTrimmed(h);
    TrimSpaceOfTrimmed(d);
    TrimSpaceOfTrimmed(b);
    assert KeepTrimmed(parts[3..]) == [b];
    assert KeepTrimmed(parts[2..]) == [b];
    assert KeepTrimmed(parts[1..]) == [b];
  }

  /** Lines that ask for years of experience are not dropped: of
      "3+ years<br/>#hashtag<br/>Amazon is an equal opportunity
      employer<br/>Bachelor's degree" the hashtag and the disclaimer go, the
      line about years stays. */
  lemma YearsLineKept()
    ensures ProcessQualifications("3+ years" + LineBreak + "#hashtag" + LineBreak
              + "Amazon is an equal opportunity employer" + LineBreak + "Bachelor's degree")
            == ["3+ years", "Bachelor's degree"]
  {
    var a, h, d, b := "3+ years", "#hashtag", "Amazon is an equal opportunity employer", "Bachelor's degree";
    MissingChar(LineBreak, a, 0);
    MissingChar(LineBreak, h, 0);
    MissingChar(LineBreak, d, 0);
    MissingChar(LineBreak, b, 0);
    assert a[0] == '3' && b[0] == 'B';
    HashtagAndDisclaimerDropped(a, h, d, b);
  }

  lemma BulletDeleted()
    ensures DeleteChars("a<b" + "*" + "r/>b", Bullets) == "a" + LineBreak + "b"
  {
    DeleteAbsentChars("a<b", Bullets);
    DeleteAbsentChars("r/>b", Bullets);
    assert DeleteChars("*", Bullets) == [];
    DeleteCharsAppend("a<b" + "*", "r/>b", Bullets);
    DeleteCharsAppend("a<b", "*", Bullets);
    assert "a<b" + "r/>b" == "a" + LineBreak + "b";
  }

  /** Text whose bullets hide a single line break splits into the two clean
      lines around it. */
  lemma TwoLines(raw: string, a: string, b: string)
    requires DeleteChars(raw, Bullets) == a + LineBreak + b
    requires KeepLine(a) && IsTrimmed(a) && KeepLine(b) && IsTrimmed(b)
    requires !Occurs(LineBreak, a) && !Occurs(LineBreak, b)
    ensures ProcessQualifications(raw) == [a, b]
  {
    LineBreakUnbordered();
    SplitCons(a, LineBreak, b);
    SplitNone(b, LineBreak);
    assert Pieces(raw) == [a, b];
    TrimSpaceOfTrimmed(a);
    TrimSpaceOfTrimmed(b);
    assert KeepTrimmed([a, b][1..]) == [b];
  }

  /** Bullets go before the split, so a bullet inside the markup leaves a line
      break behind: "a<b*r/>b" becomes two lines. */
  lemma BulletInsideLineBreak()
    ensures ProcessQualifications("a<b" + "*" + "r/>b") == ["a", "b"]
  {
    BulletDeleted();
    MissingChar(LineBreak, "a", 0);
    MissingChar(LineBreak, "b", 0);
    assert "a"[..1] != "#" && "b"[..1] != "#";
    TwoLines("a<b" + "*" + "r/>b", "a", "b");
  }
}
