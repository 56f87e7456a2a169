/** What the classifier and the calculations promise, proved about the model
    in TextCalculateTypes. */
module TextCalculateProperties {
  import opened Wrappers
  import opened JavaInt
  import opened JavaText
  import opened TextCalculateTypes

  // ---------------------------------------------------------------------
  // Helpers about the header search

  /** The run that `(.*)` captures is determined by its three defining facts. */
  lemma {:induction false} RestOfLineIs(text: string, k: nat, line: string)
    requires k + |line| <= |text| && text[k..k + |line|] == line
    requires NoneIn(line, LineTerminators)
    requires k + |line| == |text| || IsLineTerminator(text[k + |line|])
    ensures RestOfLine(text, k) == line
    decreases |line|
  {
    if line != [] {
      assert text[k] == line[0];
      assert text[k + 1..k + 1 + |line[1..]|] == line[1..];
      RestOfLineIs(text, k + 1, line[1..]);
      assert [line[0]] + line[1..] == line;
    }
  }

  /** `find()` reports the first index where the pattern matches, with its
      groups; nothing else can be reported. */
  lemma FindHeaderIs(text: string, h: Header)
    requires HeaderAt(text, h.at) && forall j :: 0 <= j < h.at ==> !HeaderAt(text, j)
    requires h.delimiter == text[h.at + 2] && h.body == RestOfLine(text, h.at + 4)
    ensures FindHeader(text) == Some(h)
  {
    var r := FindHeader(text);
    assert r.Some?;
    assert !(r.value.at < h.at) && !(h.at < r.value.at);
  }

  // ---------------------------------------------------------------------
  // Classification

  /** Priority of `isSingleNumber` over `isCommaAndColonType`: a text that
      `Integer.parseInt` accepts also passes the comma-and-colon probe, as a
      single token, yet `of` picks `SingleNumber`, and its value is the parsed
      number. */
  lemma ParseableIsSingleNumber(t: string)
    requires TryParseInt(t).Some?
    ensures IsCommaAndColonType(t)
    ensures Classify(Some(t)) == SingleNumber
    ensures Calculate(SingleNumber, Some(t)) == Ok(TryParseInt(t).value)
  {
    assert !IsWhitespace(t[0]);
    assert NoneIn(t, CommaOrColon);
  }

  /** A text other than blank and other than a single number that holds a
      character that can be neither a separator nor part of a number fails the
      comma-and-colon probe. */
  lemma NonNumeralRejected(t: string, i: nat)
    requires i < |t| && t[i] !in CommaOrColon && !IsNumeralChar(t[i])
    ensures !IsSingleNumber(t) && !IsCommaAndColonType(t)
  {
    ParseRejectsForeignChar(t, i);
    SplitCovers(t, CommaOrColon, i);
    var tokens := Split(t, CommaOrColon);
    var k :| 0 <= k < |tokens| && t[i] in tokens[k];
    var j :| 0 <= j < |tokens[k]| && tokens[k][j] == t[i];
    ParseRejectsForeignChar(tokens[k], j);
  }

  /** Text made of commas and colons only splits into zero tokens, so the
      comma-and-colon probe fails (the length check) and `of` falls through
      to `NotFound`. */
  lemma SeparatorsOnlyIsNotFound(t: string)
    requires |t| > 0 && forall k :: 0 <= k < |t| ==> t[k] in CommaOrColon
    ensures Split(t, CommaOrColon) == []
    ensures !IsCommaAndColonType(t)
    ensures Classify(Some(t)) == NotFound
  {
    SplitEmptyIff(t, CommaOrColon);
    assert !IsWhitespace(t[0]);
    ParseRejectsForeignChar(t, 0);
  }

  /** An empty piece before a non-empty one (a leading separator, or two
      separators in a row) is kept by `split` and refused by `parseInt`. */
  lemma EmptyTokenRejected(t: string, p: nat, q: nat)
    requires p < q < |Pieces(t, CommaOrColon)|
    requires Pieces(t, CommaOrColon)[p] == [] && Pieces(t, CommaOrColon)[q] != []
    ensures !IsCommaAndColonType(t)
  {
    SplitKeepsInnerEmpty(t, CommaOrColon, p, q);
  }

  /** A text holding a character that is neither blank, a separator nor part
      of a number, and no header, is `NotFound`, so calculating it throws. */
  lemma ForeignCharIsNotFound(t: string, i: nat)
    requires i < |t| && t[i] !in CommaOrColon && !IsNumeralChar(t[i]) && !IsWhitespace(t[i])
    requires FindHeader(t).None?
    ensures Classify(Some(t)) == NotFound
  {
    NonNumeralRejected(t, i);
  }

  /** `of` answers `CustomDelimiter` exactly when the header pattern is found:
      a text holding a header fails every earlier probe because of its `/`. */
  lemma CustomDelimiterIffHeader(t: string)
    ensures Classify(Some(t)) == CustomDelimiter <==> FindHeader(t).Some?
  {
    var h := FindHeader(t);
    if h.Some? {
      var i := h.value.at;
      assert t[i] == '/' && !IsWhitespace(t[i]);
      NonNumeralRejected(t, i);
    }
  }

  /** The throw at the end of `CustomDelimiter.calculate` is unreachable from
      `of`: the same pattern that let the text in is found again. */
  lemma CustomDelimiterNeverIllegal(text: Option<string>)
    requires Classify(text) == CustomDelimiter && DelimiterIsLiteral(text)
    ensures Calculate(CustomDelimiter, text) != Err(IllegalArgument)
  {
    CustomDelimiterIffHeader(text.value);
  }

  /** Once the header is found, `of` and `calculate` look at nothing but its
      delimiter and its body. */
  lemma HeaderDecides(t: string, h: Header)
    requires FindHeader(t) == Some(h) && h.delimiter !in RegexMeta
    ensures Classify(Some(t)) == CustomDelimiter && DelimiterIsLiteral(Some(t))
    ensures Evaluate(Some(t)) == SumTokens(Split(h.body, {h.delimiter}))
  {
    CustomDelimiterIffHeader(t);
  }

  /** Only a text that declares a custom delimiter can declare a regex
      metacharacter as one; every other text meets `Evaluate`'s precondition. */
  lemma LiteralUnlessCustom(text: Option<string>)
    requires Classify(text) != CustomDelimiter
    ensures DelimiterIsLiteral(text)
  {
    if text.Some? {
      CustomDelimiterIffHeader(text.value);
    }
  }

  // ---------------------------------------------------------------------
  // Commas and colons

  /** `CommaAndColon.calculate` on text that `of` classified so: every token
      of the split parses, and the result is the sum of the tokens' values,
      wrapped into `int` as `Integer::sum` wraps. */
  lemma CommaAndColonSum(t: string)
    requires Classify(Some(t)) == CommaAndColon
    ensures ParseTokens(Split(t, CommaOrColon)).Ok?
    ensures Calculate(CommaAndColon, Some(t)) == Ok(Wrap32(Sum(ParseTokens(Split(t, CommaOrColon)).value)))
  {
    var tokens := Split(t, CommaOrColon);
    assert forall k :: 0 <= k < |tokens| ==> ParseNumber(tokens[k]).Some?;
    Int32SumIsWrappedSum(ParseTokens(tokens).value);
  }

  lemma BlankOfSameLayout(t: string, u: string)
    requires SameLayout(t, u, CommaOrColon)
    ensures IsBlank(t) <==> IsBlank(u)
  {
    assert forall k :: 0 <= k < |t| ==> (IsWhitespace(t[k]) <==> IsWhitespace(u[k]));
  }

  lemma ParseOfSameLayout(t: string, u: string)
    requires SameLayout(t, u, CommaOrColon)
    ensures TryParseInt(t) == TryParseInt(u)
  {
    if NoneIn(t, CommaOrColon) {
      assert t == u;
    } else {
      var k :| 0 <= k < |t| && t[k] in CommaOrColon;
      ParseRejectsForeignChar(t, k);
      ParseRejectsForeignChar(u, k);
    }
  }

  lemma HeaderOfSameLayout(t: string, u: string)
    requires SameLayout(t, u, CommaOrColon)
    ensures FindHeader(t).Some? <==> FindHeader(u).Some?
  {
    assert forall j :: HeaderAt(t, j) <==> HeaderAt(u, j);
    var ht, hu := FindHeader(t), FindHeader(u);
    if ht.Some? {
      assert HeaderAt(u, ht.value.at);
    }
    if hu.Some? {
      assert HeaderAt(t, hu.value.at);
    }
  }

  /** Commas and colons are interchangeable: two texts with separators in the
      same places and equal elsewhere get the same shape, and the same result
      for every shape but `CustomDelimiter`. */
  lemma SeparatorsInterchangeable(t: string, u: string)
    requires SameLayout(t, u, CommaOrColon)
    ensures Classify(Some(t)) == Classify(Some(u))
    ensures Classify(Some(t)) != CustomDelimiter ==>
              Calculate(Classify(Some(t)), Some(t)) == Calculate(Classify(Some(u)), Some(u))
  {
    SplitOfSameLayout(t, u, CommaOrColon);
    BlankOfSameLayout(t, u);
    ParseOfSameLayout(t, u);
    HeaderOfSameLayout(t, u);
  }

  /** Replacing one comma by a colon, or a colon by a comma. */
  lemma ReplaceSeparator(t: string, i: nat, c: char)
    requires i < |t| && t[i] in CommaOrColon && c in CommaOrColon
    ensures Classify(Some(t[i := c])) == Classify(Some(t))
    ensures Classify(Some(t)) == CommaAndColon ==>
              Calculate(CommaAndColon, Some(t[i := c])) == Calculate(CommaAndColon, Some(t))
  {
    SeparatorsInterchangeable(t[i := c], t);
  }

  /** `SingleComma.calculate`, which `of` never selects, agrees with
      `CommaAndColon.calculate` on every text without a colon. */
  lemma SingleCommaAgreesWithoutColons(t: string)
    requires forall k :: 0 <= k < |t| ==> t[k] != ':'
    ensures Calculate(SingleComma, Some(t)) == Calculate(CommaAndColon, Some(t))
  {
    SplitIgnoresAbsentSeparator(t, {','}, ':');
    assert {','} + {':'} == CommaOrColon;
  }

  // ---------------------------------------------------------------------
  // Texts built from numbers

  /** The decimal spellings of some numbers, as `Integer.toString` writes them. */
  function Numerals(nums: seq<int>): (r: seq<string>)
    ensures |r| == |nums|
  {
    seq(|nums|, k requires 0 <= k < |nums| => IntToString(nums[k]))
  }

  predicate AllInt32(nums: seq<int>) {
    forall k :: 0 <= k < |nums| ==> InInt32(nums[k])
  }

  /** The stream pipeline reads the numerals back and adds them up. */
  lemma SumOfNumerals(nums: seq<int>)
    requires AllInt32(nums)
    ensures ParseTokens(Numerals(nums)) == Ok(nums)
    ensures SumTokens(Numerals(nums)) == Ok(Wrap32(Sum(nums)))
  {
    var tokens := Numerals(nums);
    forall k | 0 <= k < |nums|
      ensures ParseNumber(tokens[k]) == Some(nums[k])
    {
      ParseFormatRoundTrip(nums[k]);
    }
    var r := ParseTokens(tokens);
    assert r.Ok?;
    assert forall k :: 0 <= k < |nums| ==> Some(r.value[k]) == Some(nums[k]);
    assert r.value == nums;
    Int32SumIsWrappedSum(nums);
  }

  /** The characters of a numeral: digits and a minus sign. */
  lemma NumeralsAvoid(nums: seq<int>, chars: set<char>)
    requires forall c :: c in chars ==> !IsNumeralChar(c)
    ensures forall p :: 0 <= p < |nums| ==> NoneIn(Numerals(nums)[p], chars)
  {
  }

  lemma OneNumeral(n: int)
    requires InInt32(n)
    ensures Join(Numerals([n]), ',') == IntToString(n)
    ensures Sum([n]) == n
  {
    assert [n][..0] == [];
  }

  /** A text of two or more numerals joined by commas or colons is split back
      into those numerals, and the whole text is not one number. */
  lemma ManyNumeralsSplit(nums: seq<int>, sep: char)
    requires |nums| >= 2 && sep in CommaOrColon
    ensures Split(Join(Numerals(nums), sep), CommaOrColon) == Numerals(nums)
    ensures TryParseInt(Join(Numerals(nums), sep)) == None
  {
    var pieces := Numerals(nums);
    var t := Join(pieces, sep);
    NumeralsAvoid(nums, CommaOrColon);
    SplitOfJoin(pieces, sep, CommaOrColon);
    assert t == pieces[0] + [sep] + Join(pieces[1..], sep);
    ParseRejectsForeignChar(t, |pieces[0]|);
  }

  lemma OneNumberEvaluates(n: int)
    requires InInt32(n)
    ensures Classify(Some(IntToString(n))) == SingleNumber
    ensures Calculate(SingleNumber, Some(IntToString(n))) == Ok(Wrap32(Sum([n])))
  {
    OneNumeral(n);
    ParseFormatRoundTrip(n);
    ParseableIsSingleNumber(IntToString(n));
    Wrap32OfInt32(n);
  }

  /** A text that is not one number, and whose comma-and-colon split gives
      the numerals of some numbers, is `CommaAndColon` and adds them up. */
  lemma SplitIntoNumerals(t: string, nums: seq<int>)
    requires |nums| >= 1 && AllInt32(nums)
    requires TryParseInt(t) == None && Split(t, CommaOrColon) == Numerals(nums)
    ensures Classify(Some(t)) == CommaAndColon
    ensures Calculate(CommaAndColon, Some(t)) == Ok(Wrap32(Sum(nums)))
  {
    var tokens := Numerals(nums);
    SumOfNumerals(nums);
    assert ParseTokens(tokens).Ok?;
    assert IsCommaAndColonType(t);
    assert !NoneIn(t, CommaOrColon);
    var k :| 0 <= k < |t| && t[k] in CommaOrColon;
    assert !IsWhitespace(t[k]);
    assert Calculate(CommaAndColon, Some(t)) == SumTokens(tokens);
  }

  lemma ManyNumbersEvaluate(nums: seq<int>, sep: char)
    requires |nums| >= 2 && AllInt32(nums) && sep in CommaOrColon
    ensures Classify(Some(Join(Numerals(nums), sep))) == CommaAndColon
    ensures Calculate(CommaAndColon, Some(Join(Numerals(nums), sep))) == Ok(Wrap32(Sum(nums)))
  {
    ManyNumeralsSplit(nums, sep);
    SplitIntoNumerals(Join(Numerals(nums), sep), nums);
  }

  /** Numbers joined by commas or colons: the whole calculator returns their
      sum (wrapped into `int`); one number alone is a `SingleNumber`, more are
      `CommaAndColon`. */
  lemma JoinedNumbersSum(nums: seq<int>, sep: char)
    requires |nums| >= 1 && AllInt32(nums) && sep in CommaOrColon
    ensures DelimiterIsLiteral(Some(Join(Numerals(nums), sep)))
    ensures Evaluate(Some(Join(Numerals(nums), sep))) == Ok(Wrap32(Sum(nums)))
  {
    var t := Join(Numerals(nums), sep);
    if |nums| == 1 {
      assert nums == [nums[0]];
      OneNumeral(nums[0]);
      OneNumberEvaluates(nums[0]);
    } else {
      ManyNumbersEvaluate(nums, sep);
    }
    LiteralUnlessCustom(Some(t));
  }

  /** A header at the very start, with a body free of line terminators. */
  lemma DeclaredHeader(c: char, body: string)
    requires !IsLineTerminator(c) && NoneIn(body, LineTerminators)
    ensures FindHeader("//" + [c] + "\n" + body) == Some(Header(0, c, body))
  {
    var t := "//" + [c] + "\n" + body;
    assert t[4..4 + |body|] == body;
    RestOfLineIs(t, 4, body);
    FindHeaderIs(t, Header(0, c, body));
  }

  /** Numerals joined by a delimiter that cannot occur in a numeral form one
      line, and `split` on the delimiter gives them back. */
  lemma DelimitedNumeralsSplit(nums: seq<int>, c: char)
    requires |nums| >= 1 && !IsNumeralChar(c) && !IsLineTerminator(c)
    ensures NoneIn(Join(Numerals(nums), c), LineTerminators)
    ensures Split(Join(Numerals(nums), c), {c}) == Numerals(nums)
  {
    var pieces := Numerals(nums);
    NumeralsAvoid(nums, LineTerminators + {c});
    JoinNoneIn(pieces, c, LineTerminators);
    SplitOfJoin(pieces, c, {c});
  }

  /** Numbers joined by a custom delimiter under a `//<c>\n` header: the whole
      calculator returns their sum (wrapped into `int`). */
  lemma CustomDelimitedNumbersSum(nums: seq<int>, c: char)
    requires |nums| >= 1 && AllInt32(nums)
    requires !IsNumeralChar(c) && !IsLineTerminator(c) && c !in RegexMeta
    ensures DelimiterIsLiteral(Some("//" + [c] + "\n" + Join(Numerals(nums), c)))
    ensures Evaluate(Some("//" + [c] + "\n" + Join(Numerals(nums), c))) == Ok(Wrap32(Sum(nums)))
  {
    var body := Join(Numerals(nums), c);
    DelimitedNumeralsSplit(nums, c);
    DeclaredHeader(c, body);
    HeaderDecides("//" + [c] + "\n" + body, Header(0, c, body));
    SumOfNumerals(nums);
  }

  lemma HeaderAtShift(prefix: string, rest: string, j: nat)
    ensures HeaderAt(prefix + rest, |prefix| + j) <==> HeaderAt(rest, j)
  {
    if j + 4 <= |rest| {
      var t := prefix + rest;
      var n := |prefix|;
      assert t[n + j] == rest[j] && t[n + j + 1] == rest[j + 1];
      assert t[n + j + 2] == rest[j + 2] && t[n + j + 3] == rest[j + 3];
    }
  }

  lemma RestOfLineShift(prefix: string, rest: string, k: nat)
    requires k <= |rest|
    ensures RestOfLine(prefix + rest, |prefix| + k) == RestOfLine(rest, k)
  {
    var t := prefix + rest;
    var n := |prefix|;
    var line := RestOfLine(rest, k);
    assert t[n + k..n + k + |line|] == rest[k..k + |line|];
    if k + |line| < |rest| {
      assert t[n + k + |line|] == rest[k + |line|];
    }
    RestOfLineIs(t, n + k, line);
  }

  lemma NoHeaderInPrefix(prefix: string, rest: string, j: nat)
    requires NoneIn(prefix, {'/'}) && j < |prefix|
    ensures !HeaderAt(prefix + rest, j)
  {
    assert (prefix + rest)[j] == prefix[j];
  }

  lemma NoEarlierHeader(prefix: string, rest: string, at: nat)
    requires NoneIn(prefix, {'/'}) && forall j :: 0 <= j < at ==> !HeaderAt(rest, j)
    ensures forall j :: 0 <= j < |prefix| + at ==> !HeaderAt(prefix + rest, j)
  {
    forall j: nat | j < |prefix| + at
      ensures !HeaderAt(prefix + rest, j)
    {
      if j < |prefix| {
        NoHeaderInPrefix(prefix, rest, j);
      } else {
        HeaderAtShift(prefix, rest, j - |prefix|);
      }
    }
  }

  lemma HeaderFieldsShift(prefix: string, rest: string, h: Header)
    requires HeaderAt(rest, h.at) && h.delimiter == rest[h.at + 2]
    requires h.body == RestOfLine(rest, h.at + 4)
    ensures HeaderAt(prefix + rest, |prefix| + h.at)
    ensures h.delimiter == (prefix + rest)[|prefix| + h.at + 2]
    ensures h.body == RestOfLine(prefix + rest, |prefix| + h.at + 4)
  {
    HeaderAtShift(prefix, rest, h.at);
    RestOfLineShift(prefix, rest, h.at + 4);
  }

  lemma HeaderAfterPrefixFound(prefix: string, rest: string, h: Header)
    requires NoneIn(prefix, {'/'}) && FindHeader(rest) == Some(h)
    ensures FindHeader(prefix + rest) == Some(h.(at := h.at + |prefix|))
  {
    NoEarlierHeader(prefix, rest, h.at);
    HeaderFieldsShift(prefix, rest, h);
    FindHeaderIs(prefix + rest, Header(|prefix| + h.at, h.delimiter, h.body));
  }

  lemma HeaderAfterPrefixMissing(prefix: string, rest: string)
    requires NoneIn(prefix, {'/'}) && FindHeader(rest).None?
    ensures FindHeader(prefix + rest).None?
  {
    var r := FindHeader(prefix + rest);
    if r.Some? && r.value.at >= |prefix| {
      HeaderAtShift(prefix, rest, r.value.at - |prefix|);
    }
  }

  /** The header is searched for anywhere: text in front of it that holds no
      slash changes nothing but the index where it is found. */
  lemma HeaderAfterPrefix(prefix: string, rest: string)
    requires NoneIn(prefix, {'/'})
    ensures FindHeader(prefix + rest) ==
              match FindHeader(rest)
              case None => None
              case Some(h) => Some(h.(at := h.at + |prefix|))
  {
    match FindHeader(rest)
    case None => HeaderAfterPrefixMissing(prefix, rest);
    case Some(h) => HeaderAfterPrefixFound(prefix, rest, h);
  }

  /** Without DOTALL, `(.*)` stops at the first line terminator: whatever
      follows the header's line is ignored by the calculation. */
  lemma BodyEndsAtLineTerminator(c: char, body: string, lt: char, tail: string)
    requires !IsLineTerminator(c) && NoneIn(body, LineTerminators) && IsLineTerminator(lt)
    ensures FindHeader("//" + [c] + "\n" + body + [lt] + tail) == Some(Header(0, c, body))
  {
    var t := "//" + [c] + "\n" + body + [lt] + tail;
    assert t[4..4 + |body|] == body;
    RestOfLineIs(t, 4, body);
    FindHeaderIs(t, Header(0, c, body));
  }

  /** Lines after the header's own line are ignored: the result is that of
      the header line alone. */
  lemma LaterLinesIgnored(c: char, body: string, lt: char, tail: string)
    requires !IsLineTerminator(c) && c !in RegexMeta
    requires NoneIn(body, LineTerminators) && IsLineTerminator(lt)
    ensures DelimiterIsLiteral(Some("//" + [c] + "\n" + body))
    ensures DelimiterIsLiteral(Some("//" + [c] + "\n" + body + [lt] + tail))
    ensures Evaluate(Some("//" + [c] + "\n" + body + [lt] + tail)) == Evaluate(Some("//" + [c] + "\n" + body))
  {
    BodyEndsAtLineTerminator(c, body, lt, tail);
    DeclaredHeader(c, body);
    HeaderDecides("//" + [c] + "\n" + body + [lt] + tail, Header(0, c, body));
    HeaderDecides("//" + [c] + "\n" + body, Header(0, c, body));
  }

  /** Text in front of the header that holds no slash is ignored: the result
      is that of the text from the header on. */
  lemma PrefixIgnored(prefix: string, rest: string)
    requires NoneIn(prefix, {'/'})
    requires FindHeader(rest).Some? && FindHeader(rest).value.delimiter !in RegexMeta
    ensures DelimiterIsLiteral(Some(rest)) && DelimiterIsLiteral(Some(prefix + rest))
    ensures Evaluate(Some(prefix + rest)) == Evaluate(Some(rest))
  {
    var h := FindHeader(rest).value;
    HeaderAfterPrefix(prefix, rest);
    assert FindHeader(prefix + rest) == Some(h.(at := h.at + |prefix|));
    HeaderDecides(rest, h);
    HeaderDecides(prefix + rest, h.(at := h.at + |prefix|));
  }
}
