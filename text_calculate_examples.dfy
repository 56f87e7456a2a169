/** Concrete inputs, worked through the general lemmas. */
module TextCalculateExamples {
  import opened Wrappers
  import opened JavaInt
  import opened JavaText
  import opened TextCalculateTypes
  import opened TextCalculateProperties

  lemma NumeralsOneTwoThree(sep: char)
    ensures Join(Numerals([1, 2, 3]), sep) == ['1', sep, '2', sep, '3']
    ensures Wrap32(Sum([1, 2, 3])) == 6
  {
    var nums := [1, 2, 3];
    assert Numerals(nums) == ["1", "2", "3"];
    var pieces := ["1", "2", "3"];
    assert pieces[1..] == ["2", "3"] && pieces[1..][1..] == ["3"];
    assert Join(pieces[1..][1..], sep) == "3";
    assert Join(pieces[1..], sep) == ['2', sep, '3'];
    assert nums[..2] == [1, 2] && nums[..2][..1] == [1] && nums[..2][..1][..0] == [];
    assert Sum([1]) == 1 && Sum([1, 2]) == 3 && Sum(nums) == 6;
    Wrap32OfInt32(6);
  }

  /** Text without a slash declares no custom delimiter. */
  lemma NoSlashNoHeader(t: string)
    requires NoneIn(t, {'/'})
    ensures FindHeader(t) == None
  {
    HeaderAfterPrefix(t, "");
    assert t + "" == t;
  }

  /** Absent, empty and blank text count as 0. */
  lemma BlankExamples()
    ensures Evaluate(None) == Ok(0)
    ensures Evaluate(Some("")) == Ok(0)
    ensures Evaluate(Some("   ")) == Ok(0)
  {
  }

  /** "42" and "-3" are single numbers, negative ones included. */
  lemma SingleNumberExamples()
    ensures Evaluate(Some("42")) == Ok(42)
    ensures Evaluate(Some("-3")) == Ok(-3)
  {
    assert "42"[..1] == "4" && "4"[..0] == "";
    assert TryParseInt("42") == Some(42);
    ParseableIsSingleNumber("42");
    assert "-3"[1..] == "3" && "3"[..0] == "";
    assert TryParseInt("-3") == Some(-3);
    ParseableIsSingleNumber("-3");
    LiteralUnlessCustom(Some("42"));
    LiteralUnlessCustom(Some("-3"));
  }

  /** A plus sign is accepted: "+5" is 5. */
  lemma PlusSignExample()
    ensures TryParseInt("+5") == Some(5)
  {
    assert "+5" == "+" + "5" && "5"[..0] == "";
    ParseSpelling("+", "5");
  }

  /** A minus zero is zero: "-0" is 0. */
  lemma MinusZeroExample()
    ensures TryParseInt("-0") == Some(0)
  {
    assert "-0" == "-" + "0" && "0"[..0] == "";
    ParseSpelling("-", "0");
  }

  /** Leading zeros are ignored: "007" is 7. */
  lemma LeadingZerosExample()
    ensures TryParseInt("007") == Some(7)
  {
    assert "07" == "" + "0" + "7" && "7" == "" + "7" && "7"[..0] == "";
    ParseLeadingZero("", "7");
    ParseSpelling("", "7");
    assert TryParseInt("07") == Some(7);
    assert "007" == "" + "0" + "07" && "" + "07" == "07";
    ParseLeadingZero("", "07");
  }

  /** "1,2,3" adds up to 6. */
  lemma CommaExample()
    ensures Evaluate(Some("1,2,3")) == Ok(6)
  {
    NumeralsOneTwoThree(',');
    JoinedNumbersSum([1, 2, 3], ',');
  }

  /** "1,2:3" adds up to 6 as well: a colon in place of the second comma. */
  lemma MixedSeparatorExample()
    ensures Evaluate(Some("1,2:3")) == Ok(6)
  {
    MixedSeparatorText();
    NumeralsOneTwoThree(',');
    JoinedNumbersSum([1, 2, 3], ',');
    ReplaceSeparator("1,2,3", 3, ':');
    LiteralUnlessCustom(Some("1,2:3"));
  }

  lemma MixedSeparatorText()
    ensures "1,2,3"[3 := ':'] == "1,2:3"
  {
  }

  /** "//;\n1;2;3" declares `;` and adds up to 6. */
  lemma CustomDelimiterExample()
    ensures Evaluate(Some("//;\n1;2;3")) == Ok(6)
  {
    NumeralsOneTwoThree(';');
    assert "//" + [';'] + "\n" + Join(Numerals([1, 2, 3]), ';') == "//;\n1;2;3";
    CustomDelimitedNumbersSum([1, 2, 3], ';');
  }

  /** "1,a,3" is `NotFound`, which throws. */
  lemma NonNumericTokenExample()
    ensures Classify(Some("1,a,3")) == NotFound
    ensures Evaluate(Some("1,a,3")) == Err(IllegalArgument)
  {
    NoSlashNoHeader("1,a,3");
    ForeignCharIsNotFound("1,a,3", 2);
  }

  /** "abc" is `NotFound`, which throws. */
  lemma NonNumericTextExample()
    ensures Classify(Some("abc")) == NotFound
    ensures Evaluate(Some("abc")) == Err(IllegalArgument)
  {
    NoSlashNoHeader("abc");
    ForeignCharIsNotFound("abc", 0);
  }

  /** ",:," splits into no token at all and is `NotFound`. */
  lemma SeparatorsOnlyExample()
    ensures Evaluate(Some(",:,")) == Err(IllegalArgument)
  {
    SeparatorsOnlyIsNotFound(",:,");
    NoSlashNoHeader(",:,");
  }

  lemma NumeralsOneTwo(sep: char)
    ensures Numerals([1, 2]) == ["1", "2"]
    ensures Join(Numerals([1, 2]), sep) == ['1', sep, '2']
    ensures Wrap32(Sum([1, 2])) == 3
  {
    var pieces := ["1", "2"];
    assert Numerals([1, 2]) == pieces;
    assert pieces[1..] == ["2"];
    assert [1, 2][..1] == [1] && [1, 2][..1][..0] == [];
    assert Sum([1, 2]) == 3;
    Wrap32OfInt32(3);
  }

  /** A trailing separator is dropped by `split`: "1,2," adds up to 3. */
  lemma TrailingSeparatorExample()
    ensures Evaluate(Some("1,2,")) == Ok(3)
  {
    TrailingSeparatorSplit();
    NumeralsOneTwo(',');
    SplitIntoNumerals("1,2,", [1, 2]);
    LiteralUnlessCustom(Some("1,2,"));
  }

  lemma TrailingSeparatorSplit()
    ensures Split("1,2,", CommaOrColon) == ["1", "2"]
    ensures TryParseInt("1,2,") == None
  {
    var t := "1,2,";
    var pieces := ["1", "2", ""];
    assert pieces[1..] == ["2", ""] && pieces[1..][1..] == [""];
    assert Join(pieces, ',') == t;
    PiecesOfJoin(pieces, ',', CommaOrColon);
    assert DropTrailingEmpty(pieces) == ["1", "2"];
    ParseRejectsForeignChar(t, 1);
  }

  /** A leading separator is kept as an empty token, which does not parse:
      ",1" is `NotFound`. */
  lemma LeadingSeparatorExample()
    ensures Classify(Some(",1")) == NotFound
    ensures Evaluate(Some(",1")) == Err(IllegalArgument)
  {
    var t := ",1";
    assert t == "" + [','] + "1";
    PiecesOfCut("", ',', "1", CommaOrColon);
    PiecesOfSeparatorFree("1", CommaOrColon);
    EmptyTokenRejected(t, 0, 1);
    ParseRejectsForeignChar(t, 0);
    NoSlashNoHeader(t);
  }

  /** "//;\n1;2" adds up to 3. */
  lemma ShortCustomExample()
    ensures Evaluate(Some("//;\n1;2")) == Ok(3)
  {
    NumeralsOneTwo(';');
    assert "//" + [';'] + "\n" + Join(Numerals([1, 2]), ';') == "//;\n1;2";
    CustomDelimitedNumbersSum([1, 2], ';');
  }

  /** How the texts of the next two examples are put together. */
  lemma OneTwoTexts()
    ensures "//" + [';'] + "\n" + "1;2" == "//;\n1;2"
    ensures "//" + [';'] + "\n" + "1;2" + ['\n'] + "3" == "//;\n1;2\n3"
    ensures "x" + "//;\n1;2" == "x//;\n1;2"
    ensures NoneIn("1;2", LineTerminators) && NoneIn("x", {'/'})
  {
  }

  /** The body ends at the first line break: "//;\n1;2\n3" adds up to 3. */
  lemma SecondLineIgnoredExample()
    ensures Evaluate(Some("//;\n1;2\n3")) == Ok(3)
  {
    OneTwoTexts();
    LaterLinesIgnored(';', "1;2", '\n', "3");
    ShortCustomExample();
  }

  /** The header may stand anywhere: "x//;\n1;2" adds up to 3. */
  lemma HeaderNotAtStartExample()
    ensures Evaluate(Some("x//;\n1;2")) == Ok(3)
  {
    OneTwoTexts();
    DeclaredHeader(';', "1;2");
    PrefixIgnored("x", "//;\n1;2");
    ShortCustomExample();
  }

  /** An empty body splits into one empty token, which does not parse. */
  lemma EmptyBodyExample()
    ensures Evaluate(Some("//;\n")) == Err(NumberFormat(""))
  {
    var t := "//;\n";
    assert t == "//" + [';'] + "\n" + "";
    DeclaredHeader(';', "");
    HeaderDecides(t, Header(0, ';', ""));
  }

  /** `reduce(0, Integer::sum)` wraps: the largest `int` plus 1 is the
      smallest. */
  lemma OverflowExample()
    ensures Int32Sum([MaxInt32, 1]) == MinInt32
  {
    var nums := [MaxInt32, 1];
    assert nums[..1] == [MaxInt32] && nums[..1][..0] == [];
    assert Sum(nums[..1][..0]) == 0;
    assert Sum(nums[..1]) == MaxInt32;
    assert Sum(nums) == MaxInt32 + 1;
    Int32SumIsWrappedSum(nums);
    Wrap32Unique(MaxInt32 + 1, MinInt32);
  }
}
