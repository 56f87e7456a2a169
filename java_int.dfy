/** Java `int` arithmetic and `Integer.parseInt`, as the calculator uses them. */
module JavaInt {
  import opened Wrappers

  const MinInt32: int := -0x8000_0000
  const MaxInt32: int := 0x7fff_ffff
  const Modulus32: int := 0x1_0000_0000

  predicate InInt32(x: int) {
    MinInt32 <= x <= MaxInt32
  }

  /** The Java `int` that the mathematical integer `x` becomes after
      two's-complement wrap-around: the one value in range congruent to `x`. */
  function Wrap32(x: int): (r: int)
    ensures InInt32(r)
    ensures (r - x) % Modulus32 == 0
  {
    (x - MinInt32) % Modulus32 + MinInt32
  }

  /** Only one Java `int` is congruent to a given integer. */
  lemma Wrap32Unique(x: int, y: int)
    requires InInt32(y) && (y - x) % Modulus32 == 0
    ensures Wrap32(x) == y
  {
    var w := Wrap32(x);
    var q1 := (y - x) / Modulus32;
    var q2 := (w - x) / Modulus32;
    assert y - x == Modulus32 * q1;
    assert w - x == Modulus32 * q2;
    assert y - w == Modulus32 * (q1 - q2);
  }

  lemma Wrap32OfInt32(x: int)
    requires InInt32(x)
    ensures Wrap32(x) == x
  {
    Wrap32Unique(x, x);
  }

  /** `Integer::sum`: Java `int` addition, which wraps on overflow. */
  function AddInt32(a: int, b: int): (r: int)
    ensures InInt32(r)
    ensures (r - (a + b)) % Modulus32 == 0
    ensures InInt32(a + b) ==> r == a + b
  {
    Wrap32(a + b)
  }

  /** Wrapping after each addition is the same as wrapping once at the end. */
  lemma AddWrapped(a: int, b: int)
    ensures AddInt32(Wrap32(a), b) == Wrap32(a + b)
  {
    var w := Wrap32(a);
    var z := Wrap32(w + b);
    assert (w - a) % Modulus32 == 0;
    assert (z - (w + b)) % Modulus32 == 0;
    var q1 := (w - a) / Modulus32;
    var q2 := (z - (w + b)) / Modulus32;
    assert w - a == Modulus32 * q1;
    assert z - (w + b) == Modulus32 * q2;
    assert z - (a + b) == Modulus32 * (q1 + q2);
    assert (z - (a + b)) % Modulus32 == 0;
    Wrap32Unique(a + b, z);
  }

  /** The mathematical sum of a sequence, added left to right. */
  function Sum(vs: seq<int>): int
  {
    if vs == [] then 0 else Sum(vs[..|vs| - 1]) + vs[|vs| - 1]
  }

  /** `reduce(0, Integer::sum)` over a sequential stream: a left fold of
      wrapping additions starting from 0. */
  function Int32Sum(vs: seq<int>): (r: int)
    ensures InInt32(r)
  {
    if vs == [] then 0 else AddInt32(Int32Sum(vs[..|vs| - 1]), vs[|vs| - 1])
  }

  /** The stream's total is the true total, wrapped once into `int`. */
  lemma {:induction false} Int32SumIsWrappedSum(vs: seq<int>)
    ensures Int32Sum(vs) == Wrap32(Sum(vs))
  {
    if vs == [] {
      Wrap32OfInt32(0);
    } else {
      var init := vs[..|vs| - 1];
      Int32SumIsWrappedSum(init);
      AddWrapped(Sum(init), vs[|vs| - 1]);
    }
  }

  /** When the true total fits in an `int`, no wrap-around is visible. */
  lemma Int32SumWithoutOverflow(vs: seq<int>)
    requires InInt32(Sum(vs))
    ensures Int32Sum(vs) == Sum(vs)
  {
    Int32SumIsWrappedSum(vs);
    Wrap32OfInt32(Sum(vs));
  }

  // ---------------------------------------------------------------------
  // Decimal digits

  predicate IsDigit(c: char) {
    '0' <= c <= '9'
  }

  predicate AllDigits(s: string) {
    forall k :: 0 <= k < |s| ==> IsDigit(s[k])
  }

  function DigitValue(c: char): (d: nat)
    requires IsDigit(c)
    ensures d < 10
  {
    c as int - '0' as int
  }

  function DigitChar(d: nat): (c: char)
    requires d < 10
    ensures IsDigit(c) && DigitValue(c) == d
  {
    ('0' as int + d) as char
  }

  /** The value of a string of decimal digits, most significant first. */
  function DigitsValue(s: string): nat
    requires AllDigits(s)
  {
    if s == [] then 0 else DigitsValue(s[..|s| - 1]) * 10 + DigitValue(s[|s| - 1])
  }

  /** The shortest decimal spelling of a natural number. */
  function NatToDigits(n: nat): (s: string)
    ensures |s| > 0 && AllDigits(s)
  {
    if n < 10 then [DigitChar(n)] else NatToDigits(n / 10) + [DigitChar(n % 10)]
  }

  lemma {:induction false} DigitsRoundTrip(n: nat)
    ensures DigitsValue(NatToDigits(n)) == n
  {
    if n >= 10 {
      var s := NatToDigits(n);
      DigitsRoundTrip(n / 10);
      assert s[..|s| - 1] == NatToDigits(n / 10);
    }
  }

  /** `Integer.toString`: an optional minus sign, then the digits. */
  function IntToString(n: int): (s: string)
    ensures |s| > 0
    ensures forall k :: 0 <= k < |s| ==> IsDigit(s[k]) || (k == 0 && s[k] == '-')
  {
    if n < 0 then "-" + NatToDigits(-n) else NatToDigits(n)
  }

  // ---------------------------------------------------------------------
  // Integer.parseInt

  predicate IsSign(c: char) {
    c == '+' || c == '-'
  }

  /** `Integer.parseInt(s)` (radix 10) as a value instead of an exception:
      an optional `+` or `-`, then at least one ASCII digit, and nothing else;
      leading zeros are allowed; the value must lie in the `int` range,
      otherwise the call throws `NumberFormatException` (here: `None`). */
  function TryParseInt(s: string): (r: Option<int>)
    ensures r.Some? ==> InInt32(r.value)
    ensures r.Some? ==> |s| > 0 && (IsDigit(s[0]) || (IsSign(s[0]) && |s| > 1))
    ensures r.Some? ==> forall k :: 1 <= k < |s| ==> IsDigit(s[k])
  {
    if |s| > 0 && IsSign(s[0]) then
      var digits := s[1..];
      if |digits| > 0 && AllDigits(digits) then
        var magnitude: int := DigitsValue(digits);
        var v := if s[0] == '-' then -magnitude else magnitude;
        if InInt32(v) then Some(v) else None
      else None
    else if |s| > 0 && AllDigits(s) then
      var v := DigitsValue(s);
      if InInt32(v) then Some(v) else None
    else None
  }

  /** A character that can occur in a string `parseInt` accepts. */
  predicate IsNumeralChar(c: char) {
    IsDigit(c) || IsSign(c)
  }

  /** A string holding any other character is rejected. */
  lemma ParseRejectsForeignChar(s: string, i: nat)
    requires i < |s| && !IsNumeralChar(s[i])
    ensures TryParseInt(s) == None
  {
  }

  /** The value an optional sign and a string of digits spell, before the
      range check. */
  function SpelledValue(sign: string, digits: string): int
    requires AllDigits(digits)
  {
    if sign == "-" then -(DigitsValue(digits) as int) else DigitsValue(digits)
  }

  /** Every optional sign followed by at least one digit is accepted exactly
      when the value it spells is an `int`, and then denotes that value:
      `+` and leading zeros change nothing, and `-0` is 0. */
  lemma ParseSpelling(sign: string, digits: string)
    requires sign == "" || sign == "+" || sign == "-"
    requires |digits| > 0 && AllDigits(digits)
    ensures var n := SpelledValue(sign, digits);
            TryParseInt(sign + digits) == if InInt32(n) then Some(n) else None
  {
    var s := sign + digits;
    if sign == "" {
      assert s == digits && !IsSign(s[0]);
    } else {
      assert s[0] == sign[0] && IsSign(s[0]);
      assert s[1..] == digits;
    }
  }

  /** A leading zero does not change the value of a string of digits. */
  lemma {:induction false} LeadingZeroValue(digits: string)
    requires AllDigits(digits)
    ensures AllDigits("0" + digits) && DigitsValue("0" + digits) == DigitsValue(digits)
  {
    var s := "0" + digits;
    if digits != [] {
      assert s[..|s| - 1] == "0" + digits[..|digits| - 1];
      LeadingZeroValue(digits[..|digits| - 1]);
    } else {
      assert s == [s[0]] && s[..0] == [];
    }
  }

  /** `parseInt` ignores leading zeros, after a sign or without one. */
  lemma ParseLeadingZero(sign: string, digits: string)
    requires sign == "" || sign == "+" || sign == "-"
    requires |digits| > 0 && AllDigits(digits)
    ensures TryParseInt(sign + "0" + digits) == TryParseInt(sign + digits)
  {
    LeadingZeroValue(digits);
    assert sign + "0" + digits == sign + ("0" + digits);
    ParseSpelling(sign, "0" + digits);
    ParseSpelling(sign, digits);
  }

  /** The spelling `Integer.toString` gives a value outside the `int` range
      is rejected. */
  lemma ParseOutOfRange(n: int)
    requires !InInt32(n)
    ensures TryParseInt(IntToString(n)) == None
  {
    var s := IntToString(n);
    if n < 0 {
      DigitsRoundTrip(-n);
      assert s[1..] == NatToDigits(-n);
    } else {
      DigitsRoundTrip(n);
    }
  }

  /** Whatever its spelling, a signed numeral parses exactly as the canonical
      `Integer.toString` spelling of its value does. */
  lemma ParseAsCanonical(sign: string, digits: string)
    requires sign == "" || sign == "+" || sign == "-"
    requires |digits| > 0 && AllDigits(digits)
    ensures TryParseInt(sign + digits) == TryParseInt(IntToString(SpelledValue(sign, digits)))
  {
    var n := SpelledValue(sign, digits);
    ParseSpelling(sign, digits);
    if InInt32(n) {
      ParseFormatRoundTrip(n);
    } else {
      ParseOutOfRange(n);
    }
  }

  /** `parseInt` reads back every `int` that `toString` writes. */
  lemma ParseFormatRoundTrip(n: int)
    requires InInt32(n)
    ensures TryParseInt(IntToString(n)) == Some(n)
  {
    var s := IntToString(n);
    if n < 0 {
      DigitsRoundTrip(-n);
      assert s[1..] == NatToDigits(-n);
    } else {
      DigitsRoundTrip(n);
    }
  }
}
