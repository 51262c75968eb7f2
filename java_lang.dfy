/**
 * The pieces of the Java platform the badge utility relies on: the 32-bit
 * `int` range, `Integer.parseInt` with radix 10, `Integer.toString` (its
 * inverse, used to state the round trip) and the narrowing conversion from a
 * floating-point value to `int`.
 */
module JavaLang {
  import opened Wrappers

  const MinInt: int := -0x8000_0000
  const MaxInt: int := 0x7fff_ffff

  /** Java's `int`. */
  type Int32 = x: int | MinInt <= x <= MaxInt

  /** `Integer.parseInt` throws `NumberFormatException` naming the rejected text. */
  datatype NumberFormatError = NumberFormatError(input: string)

  predicate IsDigit(c: char) {
    '0' <= c <= '9'
  }

  predicate AllDigits(s: string) {
    forall i :: 0 <= i < |s| ==> IsDigit(s[i])
  }

  function DigitValue(c: char): (d: nat)
    requires IsDigit(c)
    ensures d < 10
  {
    c as int - '0' as int
  }

  function DigitChar(d: nat): (c: char)
    requires d < 10
    ensures IsDigit(c) && DigitValue(c) == d
  {
    ('0' as int + d) as char
  }

  /** The number a run of decimal digits denotes, most significant digit first. */
  function DigitsValue(s: string): nat
    requires AllDigits(s)
  {
    if s == [] then 0 else 10 * DigitsValue(s[..|s| - 1]) + DigitValue(s[|s| - 1])
  }

  /**
   * `Integer.parseInt(s)`: an optional leading `-` or `+`, then at least one
   * decimal digit and nothing else; the value must lie in the `int` range
   * (so "-2147483648" is accepted and "2147483648" is not). Leading zeros are
   * allowed; white space is not.
   */
  function ParseInt(s: string): (r: Result<Int32, NumberFormatError>)
    ensures r.Failure? ==> r.error == NumberFormatError(s)
  {
    if |s| == 0 then Failure(NumberFormatError(s))
    else
      var negative := s[0] == '-';
      var digits := if s[0] == '-' || s[0] == '+' then s[1..] else s;
      if |digits| == 0 || !AllDigits(digits) then Failure(NumberFormatError(s))
      else
        var v: int := if negative then -(DigitsValue(digits) as int) else DigitsValue(digits);
        if MinInt <= v <= MaxInt then Success(v) else Failure(NumberFormatError(s))
  }

  /** The decimal digits of a natural number, without leading zeros. */
  function NatToDigits(n: nat): (s: string)
    ensures |s| > 0 && AllDigits(s)
  {
    if n < 10 then [DigitChar(n)] else NatToDigits(n / 10) + [DigitChar(n % 10)]
  }

  /** `Integer.toString(n)`: a `-` for negative numbers, then the digits of the magnitude. */
  function ToString(n: int): string {
    if n < 0 then "-" + NatToDigits(-n) else NatToDigits(n)
  }

  lemma {:induction false} DigitsValueOfNatToDigits(n: nat)
    ensures DigitsValue(NatToDigits(n)) == n
  {
    var s := NatToDigits(n);
    if n >= 10 {
      DigitsValueOfNatToDigits(n / 10);
      assert s[..|s| - 1] == NatToDigits(n / 10);
    }
  }

  /** Every `int` survives printing and parsing back. */
  lemma ParseIntOfToString(n: Int32)
    ensures ParseInt(ToString(n)) == Success(n)
  {
    var s := ToString(n);
    var m: int := n;
    if m < 0 {
      var d := NatToDigits(-m);
      assert s == "-" + d && s[1..] == d;
      DigitsValueOfNatToDigits(-m);
    } else {
      var d := NatToDigits(n);
      assert s == d && IsDigit(s[0]);
      DigitsValueOfNatToDigits(n);
    }
  }

  /** The syntax `Integer.parseInt` accepts: an optional sign, then one or more decimal digits. */
  predicate WellFormed(s: string) {
    |s| > 0 &&
    (IsDigit(s[0]) || (|s| > 1 && (s[0] == '-' || s[0] == '+'))) &&
    forall i :: 1 <= i < |s| ==> IsDigit(s[i])
  }

  /** The number a well-formed text denotes, before any range check. */
  function SignedValue(s: string): int
    requires WellFormed(s)
  {
    var magnitude := if IsDigit(s[0]) then DigitsValue(s) else DigitsValue(s[1..]);
    if s[0] == '-' then -magnitude else magnitude
  }

  /**
   * `Integer.parseInt` accepts exactly the well-formed texts whose value fits
   * in an `int`, and returns that value.
   */
  lemma ParseIntSpec(s: string)
    ensures ParseInt(s).Success? <==> WellFormed(s) && MinInt <= SignedValue(s) <= MaxInt
    ensures ParseInt(s).Success? ==> ParseInt(s).value == SignedValue(s)
  {
    if |s| > 0 && (s[0] == '-' || s[0] == '+') && |s| > 1 {
      assert AllDigits(s[1..]) <==> forall i :: 1 <= i < |s| ==> IsDigit(s[i]) by {
        forall i | 1 <= i < |s| ensures s[1..][i - 1] == s[i] { }
      }
    }
  }

  /** A plus sign, leading zeros and a negative zero are all accepted. */
  lemma ParseIntLenientForms()
    ensures ParseInt("+5") == Success(5)
    ensures ParseInt("007") == Success(7)
    ensures ParseInt("-0") == Success(0)
  {
    assert DigitsValue("5") == 5;
    assert DigitsValue("007") == 7 by {
      assert "007"[..2] == "00" && "00"[..1] == "0";
    }
  }

  /** The bounds of `int` are accepted and the texts one past them are not. */
  lemma ParseIntRange()
    ensures ParseInt("2147483647") == Success(MaxInt)
    ensures ParseInt("-2147483648") == Success(MinInt)
    ensures ParseInt("2147483648").Failure?
    ensures ParseInt("-2147483649").Failure?
  {
    var p := "214748364";
    DigitsValueOf214748364();
    DigitsSnoc(p, '7');
    DigitsSnoc(p, '8');
    DigitsSnoc(p, '9');
    assert p + ['7'] == "2147483647" && p + ['8'] == "2147483648" && p + ['9'] == "2147483649";
    assert "-2147483648"[1..] == "2147483648";
    assert "-2147483649"[1..] == "2147483649";
  }

  /** Appending a digit multiplies the value by ten and adds the digit. */
  lemma DigitsSnoc(s: string, c: char)
    requires AllDigits(s) && IsDigit(c)
    ensures AllDigits(s + [c]) && DigitsValue(s + [c]) == 10 * DigitsValue(s) + DigitValue(c)
  {
    assert (s + [c])[..|s|] == s;
  }

  /** The common first nine digits of the texts around the `int` bounds. */
  lemma DigitsValueOf214748364()
    ensures DigitsValue("214748364") == 214748364
  {
    var d := "214748364";
    DigitsSnoc(d[..0], '2');
    assert d[..0] + ['2'] == d[..1];
    DigitsSnoc(d[..1], '1');
    assert d[..1] + ['1'] == d[..2];
    DigitsSnoc(d[..2], '4');
    assert d[..2] + ['4'] == d[..3];
    DigitsSnoc(d[..3], '7');
    assert d[..3] + ['7'] == d[..4];
    DigitsSnoc(d[..4], '4');
    assert d[..4] + ['4'] == d[..5];
    DigitsSnoc(d[..5], '8');
    assert d[..5] + ['8'] == d[..6];
    DigitsSnoc(d[..6], '3');
    assert d[..6] + ['3'] == d[..7];
    DigitsSnoc(d[..7], '6');
    assert d[..7] + ['6'] == d[..8];
    DigitsSnoc(d[..8], '4');
    assert d[..8] + ['4'] == d[..9];
    assert d[..9] == d;
  }

  /** A lone sign, the empty text and any stray character are rejected. */
  lemma ParseIntRejectsMalformed()
    ensures ParseInt("-").Failure? && ParseInt("+").Failure? && ParseInt("").Failure?
    ensures ParseInt(" 5").Failure? && ParseInt("5 ").Failure? && ParseInt("1-2").Failure?
    ensures ParseInt("abc").Failure?
  {
    assert !IsDigit(" 5"[0]) && !IsDigit("5 "[1]) && !IsDigit("1-2"[1]) && !IsDigit("abc"[0]);
  }

  /** The result of `Math.floor` on a floating-point value: NaN, an infinity or an integral value. */
  datatype FloorValue = NaN | PositiveInfinity | NegativeInfinity | Finite(value: int)

  /**
   * `(int) x` for an integral floating-point `x` (section 5.1.3 of the Java
   * Language Specification): NaN becomes 0, and values
   * beyond the `int` range (infinities included) become the nearest bound.
   */
  function NarrowToInt(x: FloorValue): (r: Int32)
    ensures x.Finite? && MinInt <= x.value <= MaxInt ==> r == x.value
    ensures x.NaN? ==> r == 0
    ensures x.PositiveInfinity? || (x.Finite? && x.value > MaxInt) ==> r == MaxInt
    ensures x.NegativeInfinity? || (x.Finite? && x.value < MinInt) ==> r == MinInt
  {
    match x
    case NaN => 0
    case PositiveInfinity => MaxInt
    case NegativeInfinity => MinInt
    case Finite(v) => if v < MinInt then MinInt else if v > MaxInt then MaxInt else v
  }
}
