# String calculator (`TextCalculateTypes`) in Dafny

This project models the string calculator of the `kitchenpos` repository:
`src/test/java/kitchenpos/stringcalculator/TextCalculateTypes.java`. It is a
Java enum with one constant per input shape: `NullOrEmpty`, `SingleNumber`,
`SingleComma`, `CommaAndColon`, `CustomDelimiter` and `NotFound`. Each
constant has its own `calculate(text)`. The static classifier `of(text)`
picks the constant by running its probes in a fixed order: blank text, one
`Integer.parseInt` literal, a comma/colon list whose every token parses, and
a `//<c>\n<body>` header. The first probe that holds wins.

The model is pure, like the source:

- `wrappers.dfy`, module `Wrappers`: the `Option` and `Result` values that
  stand in for Java's `null` and exceptions.
- `java_int.dfy`, module `JavaInt`: Java `int` arithmetic and
  `Integer.parseInt`.
  - `Wrap32` is two's-complement wrap-around, so `Integer::sum` overflows
    exactly as in Java.
  - `Int32Sum` is `reduce(0, Integer::sum)` as a left fold.
  - `TryParseInt` is `Integer.parseInt` returning `None` where Java throws.
- `java_text.dfy`, module `JavaText`: the parts of `String` and
  `java.util.regex` the calculator depends on.
  - `IsBlank` is `String.isBlank`, over `Character.isWhitespace`.
  - The line terminators that regex `.` refuses.
  - `Split` is `String.split` for a regex that matches one character of a
    fixed set. When nothing matches, it returns the input itself. Otherwise it
    cuts at every match, keeps leading and inner empty pieces, and drops
    trailing empty pieces.
- `text_calculate_types.dfy`, module `TextCalculateTypes`: the enum as the
  datatype `Shape`.
  - `FindHeader` is `Pattern.compile("//(.)\n(.*)").matcher(text).find()`
    with its two groups.
  - The three probes and `Classify` model `of`.
  - `Calculate(shape, text)` models each constant's `calculate`.
  - `Evaluate(text)` is `of(text).calculate(text)`.
- `text_calculate_properties.dfy`, module `TextCalculateProperties`: what
  `of` and `calculate` promise, proved about the model.
- `text_calculate_examples.dfy`, module `TextCalculateExamples`: concrete
  inputs worked through those lemmas.

Java `null` is `None`. Each exception is an `Err`:
- `NumberFormat(token)`: the number parser refused a token.
- `NullText`: a `String` method was called on `null`.
- `IllegalArgument`: thrown at lines 52 and 59.

All functions are deterministic, so calling `Evaluate` twice on one input
gives the same result or the same failure.

What the code does, in the cases that are easy to get wrong:
- The enum has six constants. `SingleComma` is one of them, but `of` never
  returns it.
- Tokens can be empty. A leading separator or two separators in a row give
  an empty token, which then fails to parse. A trailing separator is dropped
  silently, so `"1,2,"` is 3 while `",1"` throws.
- The header is searched for anywhere in the text, not only at its start.
  Its body ends at the first line terminator, so `"//;\n1;2\n3"` is 3.
- Sums are Java `int` sums that wrap on overflow.
- `NotFound`, and a `CustomDelimiter` text without a header, throw
  `IllegalArgumentException`. A token that does not parse throws whatever the
  number parser throws.
- Negative numbers are accepted, and so are a leading `+` and leading zeros.
  `ParsedNumber` is not part of this model and is taken to accept exactly
  what `Integer.parseInt` accepts.

## Model

| member | source | states |
|---|---|---|
| JavaInt.Wrap32 | src/test/java/kitchenpos/stringcalculator/TextCalculateTypes.java:36 | the wrapped value is a Java `int` congruent to the true value modulo 2^32 |
| JavaInt.Wrap32Unique | src/test/java/kitchenpos/stringcalculator/TextCalculateTypes.java:36 | exactly one `int` is congruent to a given integer, so `Wrap32` is determined |
| JavaInt.AddWrapped | src/test/java/kitchenpos/stringcalculator/TextCalculateTypes.java:36 | wrapping after one addition and wrapping once at the end agree |
| JavaInt.AddInt32 | src/test/java/kitchenpos/stringcalculator/TextCalculateTypes.java:36 | `Integer::sum` yields an `int` congruent to the true sum modulo 2^32, and the true sum itself when that fits |
| JavaInt.Int32Sum | src/test/java/kitchenpos/stringcalculator/TextCalculateTypes.java:33-36 | `reduce(0, Integer::sum)` always yields a Java `int` |
| JavaInt.Int32SumIsWrappedSum | src/test/java/kitchenpos/stringcalculator/TextCalculateTypes.java:33-36 | the stream's total is the true total, wrapped once into `int` |
| JavaInt.Int32SumWithoutOverflow | src/test/java/kitchenpos/stringcalculator/TextCalculateTypes.java:33-36 | when the true total fits in an `int`, the stream returns it unchanged |
| JavaInt.TryParseInt | src/test/java/kitchenpos/stringcalculator/TextCalculateTypes.java:80-87 | `Integer.parseInt` accepts only an optional sign followed by at least one digit, and only values in the `int` range |
| JavaInt.ParseRejectsForeignChar | src/test/java/kitchenpos/stringcalculator/TextCalculateTypes.java:80-87 | a text holding any character other than a digit or sign does not parse |
| JavaInt.ParseSpelling | src/test/java/kitchenpos/stringcalculator/TextCalculateTypes.java:80-87 | every optional sign followed by at least one digit is accepted exactly when the value it spells is an `int`, and then denotes that value |
| JavaInt.ParseLeadingZero | src/test/java/kitchenpos/stringcalculator/TextCalculateTypes.java:80-87 | a leading zero, after a sign or without one, changes neither acceptance nor value |
| JavaInt.ParseOutOfRange | src/test/java/kitchenpos/stringcalculator/TextCalculateTypes.java:80-87 | the decimal spelling of a value outside the `int` range is rejected |
| JavaInt.ParseAsCanonical | src/test/java/kitchenpos/stringcalculator/TextCalculateTypes.java:80-87 | any spelling of a number parses exactly as the spelling `Integer.toString` gives its value |
| JavaInt.IntToString | src/test/java/kitchenpos/stringcalculator/TextCalculateTypes.java:82 | the canonical spelling that `parseInt` reads back (ParseFormatRoundTrip): at least one digit, with a `-` only in front |
| JavaInt.ParseFormatRoundTrip | src/test/java/kitchenpos/stringcalculator/TextCalculateTypes.java:80-87 | `parseInt` reads back every `int` that `Integer.toString` writes |
| JavaText.Pieces | src/test/java/kitchenpos/stringcalculator/TextCalculateTypes.java:90 | cutting at separators gives at least one piece, and no piece holds a separator |
| JavaText.IsBlank | src/test/java/kitchenpos/stringcalculator/TextCalculateTypes.java:64 | `isBlank` holds of the empty text, and a blank text holds no printable ASCII character (no digit, sign, separator or slash) |
| JavaText.Split | src/test/java/kitchenpos/stringcalculator/TextCalculateTypes.java:90 | `split` with limit 0 on a regex matching one character of a set (also used at lines 24, 33 and 45); what it returns is stated by SplitTokens and the Split lemmas below |
| JavaText.SplitTokens | src/test/java/kitchenpos/stringcalculator/TextCalculateTypes.java:90 | no token holds a separator; text without a separator is its own single token; otherwise the last token, if any, is non-empty |
| JavaText.JoinPieces | src/test/java/kitchenpos/stringcalculator/TextCalculateTypes.java:90 | joining the pieces with the separator restores the text |
| JavaText.PiecesOfJoin | src/test/java/kitchenpos/stringcalculator/TextCalculateTypes.java:90 | cutting a joined text restores separator-free pieces |
| JavaText.DropTrailingEmpty | src/test/java/kitchenpos/stringcalculator/TextCalculateTypes.java:90 | `split` with limit 0 keeps a prefix, drops only empty pieces, and leaves a non-empty last piece |
| JavaText.SplitEmptyIff | src/test/java/kitchenpos/stringcalculator/TextCalculateTypes.java:90-94 | `split` returns no token exactly when the text is non-empty and all separators |
| JavaText.SplitCovers | src/test/java/kitchenpos/stringcalculator/TextCalculateTypes.java:90 | every non-separator character ends up in some token |
| JavaText.SplitKeepsInnerEmpty | src/test/java/kitchenpos/stringcalculator/TextCalculateTypes.java:90 | an empty piece before a non-empty one is kept as an empty token |
| JavaText.SplitOfJoin | src/test/java/kitchenpos/stringcalculator/TextCalculateTypes.java:90 | splitting a join of one or more separator-free pieces whose last piece is non-empty returns the pieces |
| JavaText.SplitOfSameLayout | src/test/java/kitchenpos/stringcalculator/TextCalculateTypes.java:33 | texts with separators in the same places and equal elsewhere split alike |
| JavaText.SplitIgnoresAbsentSeparator | src/test/java/kitchenpos/stringcalculator/TextCalculateTypes.java:24 | adding a separator that never occurs to the regex changes no token |
| TextCalculateTypes.RestOfLine | src/test/java/kitchenpos/stringcalculator/TextCalculateTypes.java:42 | `(.*)` captures the longest run of the text free of line terminators |
| TextCalculateTypes.FindFrom | src/test/java/kitchenpos/stringcalculator/TextCalculateTypes.java:105-106 | `find()` reports the first index where `//`, a non-terminator and `\n` occur, or that none exists |
| TextCalculateTypes.FindHeader | src/test/java/kitchenpos/stringcalculator/TextCalculateTypes.java:42-45 | group 1 is the character after the first `//`, and group 2 is the rest of that line |
| TextCalculateTypes.IsSingleNumber | src/test/java/kitchenpos/stringcalculator/TextCalculateTypes.java:80-87 | a text `parseInt` accepts is not blank and holds no separator and no header |
| TextCalculateTypes.IsCommaAndColonType | src/test/java/kitchenpos/stringcalculator/TextCalculateTypes.java:89-102 | splitting on comma or colon gives at least one token and every token parses; NonNumeralRejected, EmptyTokenRejected and SeparatorsOnlyIsNotFound state when it fails |
| TextCalculateTypes.IsCustomDelimiter | src/test/java/kitchenpos/stringcalculator/TextCalculateTypes.java:104-107 | `find()` succeeds exactly when the header pattern occurs at some index |
| TextCalculateTypes.Classify | src/test/java/kitchenpos/stringcalculator/TextCalculateTypes.java:63-78 | `of` never returns `SingleComma`, and returns `NullOrEmpty` exactly for null or blank text |
| TextCalculateTypes.ParseNumber | src/test/java/kitchenpos/stringcalculator/TextCalculateTypes.java:17-18 | `new ParsedNumber(t).getNumber()` rejects the empty token, and yields only `int`s spelled with digits and signs |
| TextCalculateTypes.ParseTokens | src/test/java/kitchenpos/stringcalculator/TextCalculateTypes.java:33-35 | every token parses and the values match, or the error names the first token that fails |
| TextCalculateTypes.SumTokens | src/test/java/kitchenpos/stringcalculator/TextCalculateTypes.java:33-36 | the pipeline succeeds exactly when every token parses, and then returns the wrapped true sum; otherwise it fails with the first failing token |
| TextCalculateTypes.Calculate | src/test/java/kitchenpos/stringcalculator/TextCalculateTypes.java:8-61 | results are `int`s; `NullOrEmpty` gives 0; `IllegalArgument` exactly for `NotFound` or a header that is missing; an NPE exactly for null text outside `NullOrEmpty` and `NotFound` |
| TextCalculateTypes.Evaluate | src/test/java/kitchenpos/stringcalculator/TextCalculateTypes.java:63-78 | `of(text).calculate(text)` never dereferences null, and null text gives 0 |
| TextCalculateProperties.RestOfLineIs | src/test/java/kitchenpos/stringcalculator/TextCalculateTypes.java:42 | the captured body is determined by its three defining facts |
| TextCalculateProperties.FindHeaderIs | src/test/java/kitchenpos/stringcalculator/TextCalculateTypes.java:42-45 | the first matching index, with its groups, is what `find()` reports |
| TextCalculateProperties.ParseableIsSingleNumber | src/test/java/kitchenpos/stringcalculator/TextCalculateTypes.java:67-71 | a text `parseInt` accepts also passes the comma/colon probe, yet is `SingleNumber`, and its value is the parsed number |
| TextCalculateProperties.NonNumeralRejected | src/test/java/kitchenpos/stringcalculator/TextCalculateTypes.java:89-102 | a character that is neither a separator nor part of a number makes both number probes fail |
| TextCalculateProperties.SeparatorsOnlyIsNotFound | src/test/java/kitchenpos/stringcalculator/TextCalculateTypes.java:90-94 | text of commas and colons only splits into zero tokens, fails the probe, and is `NotFound` |
| TextCalculateProperties.EmptyTokenRejected | src/test/java/kitchenpos/stringcalculator/TextCalculateTypes.java:96-101 | an empty leading or inner token makes `isCommaAndColonType` false |
| TextCalculateProperties.ForeignCharIsNotFound | src/test/java/kitchenpos/stringcalculator/TextCalculateTypes.java:63-78 | text with a foreign non-blank character and no header is `NotFound` |
| TextCalculateProperties.CustomDelimiterIffHeader | src/test/java/kitchenpos/stringcalculator/TextCalculateTypes.java:104-107 | `of` returns `CustomDelimiter` exactly when the header pattern is found |
| TextCalculateProperties.HeaderDecides | src/test/java/kitchenpos/stringcalculator/TextCalculateTypes.java:39-50 | once a header is found, the result is the parsed sum of its body split on its delimiter |
| TextCalculateProperties.CustomDelimiterNeverIllegal | src/test/java/kitchenpos/stringcalculator/TextCalculateTypes.java:42-52 | text classified `CustomDelimiter` never reaches the throw at line 52 |
| TextCalculateProperties.LiteralUnlessCustom | src/test/java/kitchenpos/stringcalculator/TextCalculateTypes.java:45 | only text that declares a custom delimiter can declare a regex metacharacter |
| TextCalculateProperties.CommaAndColonSum | src/test/java/kitchenpos/stringcalculator/TextCalculateTypes.java:30-37 | for text classified `CommaAndColon`, the result is the wrapped sum of the parsed tokens |
| TextCalculateProperties.SeparatorsInterchangeable | src/test/java/kitchenpos/stringcalculator/TextCalculateTypes.java:30-37 | swapping commas and colons changes neither the shape nor, outside `CustomDelimiter`, the result |
| TextCalculateProperties.ReplaceSeparator | src/test/java/kitchenpos/stringcalculator/TextCalculateTypes.java:33 | replacing one comma by a colon, or the reverse, changes neither the shape nor the `CommaAndColon` result |
| TextCalculateProperties.SingleCommaAgreesWithoutColons | src/test/java/kitchenpos/stringcalculator/TextCalculateTypes.java:21-37 | `SingleComma.calculate` equals `CommaAndColon.calculate` on colon-free text |
| TextCalculateProperties.SumOfNumerals | src/test/java/kitchenpos/stringcalculator/TextCalculateTypes.java:46-49 | the token pipeline reads numerals back and returns their wrapped sum |
| TextCalculateProperties.JoinedNumbersSum | src/test/java/kitchenpos/stringcalculator/TextCalculateTypes.java:14-37 | numbers joined by commas or colons evaluate to their wrapped sum |
| TextCalculateProperties.DeclaredHeader | src/test/java/kitchenpos/stringcalculator/TextCalculateTypes.java:42-45 | `//c\n` at the start, followed by one line, is found with delimiter `c` and that line as body |
| TextCalculateProperties.DelimitedNumeralsSplit | src/test/java/kitchenpos/stringcalculator/TextCalculateTypes.java:45 | numerals joined by a non-numeral delimiter form one line and split back |
| TextCalculateProperties.CustomDelimitedNumbersSum | src/test/java/kitchenpos/stringcalculator/TextCalculateTypes.java:39-50 | numbers joined by `c` under a `//c\n` header evaluate to their wrapped sum |
| TextCalculateProperties.HeaderAfterPrefix | src/test/java/kitchenpos/stringcalculator/TextCalculateTypes.java:42-43 | a slash-free prefix shifts where the header is found and changes nothing else |
| TextCalculateProperties.BodyEndsAtLineTerminator | src/test/java/kitchenpos/stringcalculator/TextCalculateTypes.java:42-45 | the body stops at the first line terminator; the rest is ignored |
| TextCalculateProperties.LaterLinesIgnored | src/test/java/kitchenpos/stringcalculator/TextCalculateTypes.java:42-49 | lines after the header line do not change the result |
| TextCalculateProperties.PrefixIgnored | src/test/java/kitchenpos/stringcalculator/TextCalculateTypes.java:42-49 | slash-free text in front of the header does not change the result |
| TextCalculateExamples.BlankExamples | src/test/java/kitchenpos/stringcalculator/TextCalculateTypes.java:8-13 | null, `""` and `"   "` give 0 |
| TextCalculateExamples.SingleNumberExamples | src/test/java/kitchenpos/stringcalculator/TextCalculateTypes.java:14-19 | `"42"` gives 42 and `"-3"` gives -3 |
| TextCalculateExamples.PlusSignExample | src/test/java/kitchenpos/stringcalculator/TextCalculateTypes.java:82 | `"+5"` parses as 5 |
| TextCalculateExamples.MinusZeroExample | src/test/java/kitchenpos/stringcalculator/TextCalculateTypes.java:82 | `"-0"` parses as 0 |
| TextCalculateExamples.LeadingZerosExample | src/test/java/kitchenpos/stringcalculator/TextCalculateTypes.java:82 | `"007"` parses as 7 |
| TextCalculateExamples.CommaExample | src/test/java/kitchenpos/stringcalculator/TextCalculateTypes.java:30-37 | `"1,2,3"` gives 6 |
| TextCalculateExamples.MixedSeparatorExample | src/test/java/kitchenpos/stringcalculator/TextCalculateTypes.java:30-37 | `"1,2:3"` gives 6 |
| TextCalculateExamples.CustomDelimiterExample | src/test/java/kitchenpos/stringcalculator/TextCalculateTypes.java:39-50 | `"//;\n1;2;3"` gives 6 |
| TextCalculateExamples.NonNumericTokenExample | src/test/java/kitchenpos/stringcalculator/TextCalculateTypes.java:56-61 | `"1,a,3"` is `NotFound` and throws `IllegalArgumentException` |
| TextCalculateExamples.NonNumericTextExample | src/test/java/kitchenpos/stringcalculator/TextCalculateTypes.java:56-61 | `"abc"` is `NotFound` and throws `IllegalArgumentException` |
| TextCalculateExamples.SeparatorsOnlyExample | src/test/java/kitchenpos/stringcalculator/TextCalculateTypes.java:89-94 | `",:,"` throws `IllegalArgumentException` |
| TextCalculateExamples.TrailingSeparatorExample | src/test/java/kitchenpos/stringcalculator/TextCalculateTypes.java:90 | `"1,2,"` gives 3 |
| TextCalculateExamples.LeadingSeparatorExample | src/test/java/kitchenpos/stringcalculator/TextCalculateTypes.java:89-102 | `",1"` is `NotFound` and throws |
| TextCalculateExamples.ShortCustomExample | src/test/java/kitchenpos/stringcalculator/TextCalculateTypes.java:39-50 | `"//;\n1;2"` gives 3 |
| TextCalculateExamples.SecondLineIgnoredExample | src/test/java/kitchenpos/stringcalculator/TextCalculateTypes.java:42-45 | `"//;\n1;2\n3"` gives 3 |
| TextCalculateExamples.HeaderNotAtStartExample | src/test/java/kitchenpos/stringcalculator/TextCalculateTypes.java:42-43 | `"x//;\n1;2"` gives 3 |
| TextCalculateExamples.EmptyBodyExample | src/test/java/kitchenpos/stringcalculator/TextCalculateTypes.java:45-48 | `"//;\n"` fails on the empty token |
| TextCalculateExamples.OverflowExample | src/test/java/kitchenpos/stringcalculator/TextCalculateTypes.java:36 | the largest `int` plus 1 sums to the smallest `int` |

## Left out

- `src/test/java/kitchenpos/integration/MenuTest.java` is not part of this model. It is a Spring integration test of a menu service, its JPA repositories and transactions, and that code is not shown.
- `ParsedNumber` and the `CalculateFunction` interface are not part of this model. `ParseNumber` delegates to `TryParseInt`, so negative numbers are accepted. That is an assumption: whether `ParsedNumber` rejects negatives cannot be seen.
- Calculate: for `SingleNumber` with null text, the model fails with `NullText`. What `new ParsedNumber(null)` throws cannot be seen.
- Calculate: a custom delimiter that is a regex metacharacter (`.`, `$`, `|`, `(`, `)`, `[`, `{`, `^`, `?`, `*`, `+`, `\`) is excluded by the precondition `DelimiterIsLiteral`. For those delimiters `split` follows regex semantics (every character a separator, zero-width matches, or a `PatternSyntaxException`), and the model does not cover them.
- Evaluate: carries the same `DelimiterIsLiteral` precondition, which only restricts text that `of` classifies `CustomDelimiter`.
- TryParseInt: accepts ASCII digits only. `Integer.parseInt` also accepts other Unicode decimal digits.
- Strings are sequences of Unicode code points, not UTF-16 code units. Unpaired surrogates cannot be written.
- The Java regex engine in general is not modelled. The model covers only the one-character splits and the header search that the calculator uses.
- The exception classes are kept apart only as far as the calculator distinguishes them: `NumberFormat`, `NullText` and `IllegalArgument`.
