/** The string calculator: `TextCalculateTypes`, an enum with one constant per
    input shape, a classifier `of` that picks the constant, and each
    constant's `calculate`. */
module TextCalculateTypes {
  import opened Wrappers
  import opened JavaInt
  import opened JavaText

  /** The enum constants. `SingleComma` exists and can be called, but `of`
      never returns it. */
  datatype Shape = NullOrEmpty | SingleNumber | SingleComma | CommaAndColon | CustomDelimiter | NotFound

  /** The exceptions the calculation can throw. */
  datatype Error =
    | NumberFormat(token: string)   // a token the number parser refuses
    | NullText                      // a String method called on null
    | IllegalArgument               // thrown by CustomDelimiter and NotFound

  /** The characters the regex `,|:` matches. */
  const CommaOrColon: set<char> := {',', ':'}

  /** The single characters that are not literal when compiled as a regex. */
  const RegexMeta: set<char> := {'.', '$', '|', '(', ')', '[', '{', '^', '?', '*', '+', '\\'}

  /** `new ParsedNumber(token).getNumber()`. The class is not part of this
      model; it is taken to accept exactly what `Integer.parseInt` accepts,
      negative numbers included. */
  function ParseNumber(token: string): (r: Option<int>)
    ensures token == [] ==> r.None?
    ensures r.Some? ==> InInt32(r.value)
    ensures r.Some? ==> forall k :: 0 <= k < |token| ==> IsNumeralChar(token[k])
  {
    TryParseInt(token)
  }

  // ---------------------------------------------------------------------
  // The header `//<c>\n<rest>` found by Pattern.compile("//(.)\n(.*)").matcher(text).find()

  /** Group 1 is the delimiter, group 2 the body. */
  datatype Header = Header(at: nat, delimiter: char, body: string)

  /** The pattern matches at index `i`: two slashes, a character that `.`
      accepts, then a line feed. The greedy `(.*)` always matches. */
  predicate HeaderAt(text: string, i: nat) {
    && i + 4 <= |text|
    && text[i] == '/' && text[i + 1] == '/'
    && !IsLineTerminator(text[i + 2])
    && text[i + 3] == '\n'
  }

  /** What `(.*)` captures from index `k`: the longest run free of line
      terminators. */
  function RestOfLine(text: string, k: nat): (r: string)
    requires k <= |text|
    ensures k + |r| <= |text| && r == text[k..k + |r|]
    ensures forall j :: 0 <= j < |r| ==> !IsLineTerminator(r[j])
    ensures k + |r| == |text| || IsLineTerminator(text[k + |r|])
    decreases |text| - k
  {
    if k == |text| || IsLineTerminator(text[k]) then [] else [text[k]] + RestOfLine(text, k + 1)
  }

  /** `find()` starting the search at index `i`: the first index from `i` on
      where the pattern matches. */
  function FindFrom(text: string, i: nat): (r: Option<nat>)
    ensures r.Some? ==> i <= r.value && HeaderAt(text, r.value)
    ensures r.Some? ==> forall j :: i <= j < r.value ==> !HeaderAt(text, j)
    ensures r.None? ==> forall j :: i <= j ==> !HeaderAt(text, j)
    decreases |text| - i
  {
    if |text| < i + 4 then None
    else if HeaderAt(text, i) then Some(i)
    else FindFrom(text, i + 1)
  }

  /** `m.find()` and, when it succeeds, `m.group(1)` and `m.group(2)`. */
  function FindHeader(text: string): (r: Option<Header>)
    ensures r.Some? ==> && HeaderAt(text, r.value.at)
                        && (forall j :: 0 <= j < r.value.at ==> !HeaderAt(text, j))
                        && r.value.delimiter == text[r.value.at + 2]
                        && r.value.body == RestOfLine(text, r.value.at + 4)
    ensures r.None? ==> forall j :: 0 <= j ==> !HeaderAt(text, j)
  {
    match FindFrom(text, 0)
    case None => None
    case Some(i) => Some(Header(i, text[i + 2], RestOfLine(text, i + 4)))
  }

  // ---------------------------------------------------------------------
  // The classifier `of` and its three probes

  /** `isSingleNumber`: `Integer.parseInt(text)` does not throw. Such a text
      is not blank and holds no separator and no header. */
  function IsSingleNumber(text: string): (b: bool)
    ensures b ==> !IsBlank(text) && NoneIn(text, CommaOrColon) && FindHeader(text).None?
  {
    TryParseInt(text).Some?
  }

  /** `isCommaAndColonType`: `split(",|:")` gives at least one token and
      `Integer.parseInt` accepts every token. */
  predicate IsCommaAndColonType(text: string) {
    var tokens := Split(text, CommaOrColon);
    |tokens| > 0 && forall t :: 0 <= t < |tokens| ==> TryParseInt(tokens[t]).Some?
  }

  /** `isCustomDelimiter`: the header pattern is found anywhere in the text. */
  function IsCustomDelimiter(text: string): (b: bool)
    ensures b <==> exists i: nat :: HeaderAt(text, i)
  {
    FindHeader(text).Some?
  }

  /** `of`: the probes in their fixed order; the first that holds wins. */
  function Classify(text: Option<string>): (r: Shape)
    ensures r != SingleComma
    ensures r == NullOrEmpty <==> text.None? || IsBlank(text.value)
  {
    match text
    case None => NullOrEmpty
    case Some(t) =>
      if IsBlank(t) then NullOrEmpty
      else if IsSingleNumber(t) then SingleNumber
      else if IsCommaAndColonType(t) then CommaAndColon
      else if IsCustomDelimiter(t) then CustomDelimiter
      else NotFound
  }

  // ---------------------------------------------------------------------
  // The calculations

  /** `map(ParsedNumber::new).map(ParsedNumber::getNumber)` over the tokens,
      left to right: every value, or the first token that fails. */
  function ParseTokens(tokens: seq<string>): (r: Result<seq<int>, Error>)
    ensures r.Ok? <==> forall t :: 0 <= t < |tokens| ==> ParseNumber(tokens[t]).Some?
    ensures r.Ok? ==> |r.value| == |tokens|
    ensures r.Ok? ==> forall t :: 0 <= t < |tokens| ==> ParseNumber(tokens[t]) == Some(r.value[t])
    ensures r.Err? ==> exists t :: && 0 <= t < |tokens|
                                   && ParseNumber(tokens[t]).None?
                                   && r.error == NumberFormat(tokens[t])
                                   && forall u :: 0 <= u < t ==> ParseNumber(tokens[u]).Some?
  {
    if tokens == [] then Ok([])
    else match ParseNumber(tokens[0])
      case None => Err(NumberFormat(tokens[0]))
      case Some(v) =>
        match ParseTokens(tokens[1..])
        case Err(e) => Err(e)
        case Ok(vs) => Ok([v] + vs)
  }

  /** The stream pipeline: parse every token, then `reduce(0, Integer::sum)`. */
  function SumTokens(tokens: seq<string>): (r: Result<int, Error>)
    ensures r.Ok? <==> ParseTokens(tokens).Ok?
    ensures r.Ok? ==> r.value == Wrap32(Sum(ParseTokens(tokens).value))
    ensures r.Err? ==> r.error == ParseTokens(tokens).error
  {
    match ParseTokens(tokens)
    case Err(e) => Err(e)
    case Ok(vs) =>
      Int32SumIsWrappedSum(vs);
      Ok(Int32Sum(vs))
  }

  /** The custom delimiter, when the text declares one, is a literal
      character for `split`, not a regex operator. */
  predicate DelimiterIsLiteral(text: Option<string>) {
    || text.None?
    || FindHeader(text.value).None?
    || FindHeader(text.value).value.delimiter !in RegexMeta
  }

  /** `calculate(text)` of the constant `s`; `None` is Java's null. */
  function Calculate(s: Shape, text: Option<string>): (r: Result<int, Error>)
    requires s == CustomDelimiter ==> DelimiterIsLiteral(text)
    ensures r.Ok? ==> InInt32(r.value)
    ensures s == NullOrEmpty ==> r == Ok(0)
    ensures r == Err(IllegalArgument) <==>
              s == NotFound || (s == CustomDelimiter && text.Some? && FindHeader(text.value).None?)
    ensures r == Err(NullText) <==> text.None? && s !in {NullOrEmpty, NotFound}
  {
    match s
    case NullOrEmpty => Ok(0)
    case NotFound => Err(IllegalArgument)
    case _ =>
      match text
      case None => Err(NullText)
      case Some(t) =>
        match s
        case SingleNumber =>
          (match ParseNumber(t)
           case None => Err(NumberFormat(t))
           case Some(v) => Ok(v))
        case SingleComma => SumTokens(Split(t, {','}))
        case CommaAndColon => SumTokens(Split(t, CommaOrColon))
        case CustomDelimiter =>
          (match FindHeader(t)
           case None => Err(IllegalArgument)
           case Some(h) => SumTokens(Split(h.body, {h.delimiter})))
  }

  /** What a caller of the enum computes: `of(text).calculate(text)`. */
  function Evaluate(text: Option<string>): (r: Result<int, Error>)
    requires DelimiterIsLiteral(text)
    ensures r.Ok? ==> InInt32(r.value)
    ensures r != Err(NullText)
    ensures text.None? ==> r == Ok(0)
  {
    Calculate(Classify(text), text)
  }
}
