/**
 * JavaScript's global `parseInt(string)` with no radix argument, and the
 * `parseInt(x) || 0` idiom the deck loader uses for slide durations.
 * Results are unbounded integers (see README: no IEEE-754 rounding).
 */
module JsNumbers {
  import opened Wrappers

  /** StrWhiteSpaceChar of ECMA-262: white space and line terminators, which
      `parseInt` skips before the number. */
  predicate IsWhiteSpace(c: char) {
    var n := c as int;
    n == 0x09 || n == 0x0A || n == 0x0B || n == 0x0C || n == 0x0D || n == 0x20 ||
    n == 0xA0 || n == 0x1680 || (0x2000 <= n <= 0x200A) || n == 0x2028 || n == 0x2029 ||
    n == 0x202F || n == 0x205F || n == 0x3000 || n == 0xFEFF
  }

  /** The two bases `parseInt` reads without a radix argument. */
  type Radix = r: nat | r == 10 || r == 16 witness 10

  /** The value of `c` as a digit in base `radix`, if it is one. */
  function DigitValue(c: char, radix: Radix): (r: Option<nat>)
    ensures r.Some? ==> r.value < radix
  {
    if '0' <= c <= '9' && (c as int) - ('0' as int) < radix then Some((c as int) - ('0' as int))
    else if radix == 16 && 'a' <= c <= 'f' then Some((c as int) - ('a' as int) + 10)
    else if radix == 16 && 'A' <= c <= 'F' then Some((c as int) - ('A' as int) + 10)
    else None
  }

  function TrimStart(s: string): (r: string)
    ensures r == [] || !IsWhiteSpace(r[0])
    ensures |r| <= |s| && r == s[|s| - |r|..]
  {
    if s != [] && IsWhiteSpace(s[0]) then TrimStart(s[1..]) else s
  }

  /** Length of the longest prefix of `s` made of digits in base `radix`. */
  function DigitRun(s: string, radix: Radix): (n: nat)
    ensures n <= |s|
  {
    if s != [] && DigitValue(s[0], radix).Some? then 1 + DigitRun(s[1..], radix) else 0
  }

  /** The run is made of digits and stops at the first character that is not one. */
  lemma {:induction false} DigitRunStops(s: string, radix: Radix)
    ensures forall i :: 0 <= i < DigitRun(s, radix) ==> DigitValue(s[i], radix).Some?
    ensures DigitRun(s, radix) < |s| ==> DigitValue(s[DigitRun(s, radix)], radix).None?
  {
    if s != [] && DigitValue(s[0], radix).Some? {
      DigitRunStops(s[1..], radix);
      assert forall i :: 0 < i < |s| ==> s[1..][i - 1] == s[i];
    }
  }


  /** The number a string of digits denotes, most significant digit first
      (it is only applied to digit strings; any other character counts as 0). */
  function DigitsValue(ds: string, radix: Radix): nat {
    if ds == [] then 0
    else
      var high := DigitsValue(ds[..|ds| - 1], radix);
      (if radix == 16 then high * 16 else high * 10) + DigitValue(ds[|ds| - 1], radix).GetOr(0)
  }


  /** `parseInt(s)`: `None` stands for NaN. Leading white space is skipped, one
      sign is accepted, then the magnitude is read by `ParseMagnitude`. */
  function ParseInt(s: string): (r: Option<int>)
    ensures TrimStart(s) == [] ==> r.None?
    ensures r.Some? ==> TrimStart(s) != [] && (TrimStart(s)[0] in {'+', '-'} || '0' <= TrimStart(s)[0] <= '9')
  {
    var t := TrimStart(s);
    var negative := t != [] && t[0] == '-';
    var u := if t != [] && (t[0] == '-' || t[0] == '+') then t[1..] else t;
    MagnitudeStartsWithDigit(u);
    var magnitude := ParseMagnitude(u);
    if negative then Negate(magnitude) else magnitude
  }

  /** The number with its sign flipped; NaN stays NaN. */
  function Negate(x: Option<int>): Option<int> {
    match x
    case None => None
    case Some(m) => Some(-m)
  }

  /** The unsigned part of `parseInt`: a `0x`/`0X` prefix selects base 16,
      otherwise base 10, and reading stops at the first non-digit; no digit
      at all gives NaN (`None`). */
  function ParseMagnitude(u: string): Option<int> {
    var hex := |u| >= 2 && u[0] == '0' && (u[1] == 'x' || u[1] == 'X');
    var radix: Radix := if hex then 16 else 10;
    var digits := if hex then u[2..] else u;
    var n := DigitRun(digits, radix);
    if n == 0 then None else Some(DigitsValue(digits[..n], radix))
  }

  /** A magnitude is only read from a string that starts with a decimal digit
      (a hexadecimal one starts with its `0x` prefix). */
  lemma MagnitudeStartsWithDigit(u: string)
    ensures ParseMagnitude(u).Some? ==> u != [] && '0' <= u[0] <= '9'
  {
    var hex := |u| >= 2 && u[0] == '0' && (u[1] == 'x' || u[1] == 'X');
    if !hex && ParseMagnitude(u).Some? {
      assert DigitRun(u, 10) > 0;
      assert DigitValue(u[0], 10).Some?;
    }
  }

  /** `parseInt(s) || 0`: NaN (and the negative zero) become 0. */
  function ParseIntOrZero(s: string): (r: int)
    ensures ParseInt(s).Some? ==> r == ParseInt(s).value
    ensures r == 0 <==> ParseInt(s) == None || ParseInt(s) == Some(0)
  {
    ParseInt(s).GetOr(0)
  }

  /** The decimal numeral of a natural number, without leading zeros (what
      `String(n)` writes for n below 10^21, where it has not yet switched to
      exponent notation). */
  function Digits(n: nat): (s: string)
    ensures |s| > 0 && (|s| > 1 ==> s[0] != '0')
    ensures forall i :: 0 <= i < |s| ==> '0' <= s[i] <= '9'
  {
    var last := ['0' + ((n % 10) as char)];
    if n < 10 then last else Digits(n / 10) + last
  }

  /** The decimal numeral of an integer, with a leading `-` when negative. */
  function Decimal(n: int): string {
    if n < 0 then "-" + Digits(-n) else Digits(n)
  }

  lemma {:induction false} DigitsValueOfDigits(n: nat)
    ensures DigitsValue(Digits(n), 10) == n
  {
    var s := Digits(n);
    var last := ['0' + ((n % 10) as char)];
    if n >= 10 {
      DigitsValueOfDigits(n / 10);
      assert s[..|s| - 1] == Digits(n / 10);
    }
  }

  lemma {:induction false} DigitRunAll(s: string, radix: Radix)
    requires forall i :: 0 <= i < |s| ==> DigitValue(s[i], radix).Some?
    ensures DigitRun(s, radix) == |s|
  {
    if s != [] {
      DigitRunAll(s[1..], radix);
    }
  }


  lemma ParseMagnitudeOfNumeral(ds: string)
    requires |ds| > 0 && (|ds| > 1 ==> ds[0] != '0')
    requires forall i :: 0 <= i < |ds| ==> '0' <= ds[i] <= '9'
    ensures ParseMagnitude(ds) == Some(DigitsValue(ds, 10))
  {
    assert !(|ds| >= 2 && ds[0] == '0');
    DigitRunAll(ds, 10);
    assert ds[..|ds|] == ds;
  }

  /** A string that starts with a sign or a digit has no white space to skip. */
  lemma TrimStartNoSpace(s: string)
    requires s != [] && (s[0] == '-' || '0' <= s[0] <= '9')
    ensures TrimStart(s) == s
  {
  }

  /** `parseInt` of a minus sign followed by a digit negates the magnitude. */
  lemma {:induction false} ParseNegative(s: string)
    requires s != [] && '0' <= s[0] <= '9'
    ensures ParseInt("-" + s) == Negate(ParseMagnitude(s))
  {
    var t := "-" + s;
    TrimStartNoSpace(t);
    assert t[0] == '-' && t[1..] == s;
  }

  /** `parseInt` of a string that starts with a digit reads its magnitude. */
  lemma {:induction false} ParseUnsigned(s: string)
    requires s != [] && '0' <= s[0] <= '9'
    ensures ParseInt(s) == ParseMagnitude(s)
  {
    TrimStartNoSpace(s);
  }

  /** The magnitude read from a decimal numeral is the number it was written from. */
  lemma {:induction false} MagnitudeOfDigits(m: nat)
    ensures ParseMagnitude(Digits(m)) == Some(m)
  {
    DigitsValueOfDigits(m);
    ParseMagnitudeOfNumeral(Digits(m));
  }

  /** A duration written in decimal reads back as the same number: the
      `parseInt(...) || 0` of the loader inverts the decimal numeral. */
  lemma {:induction false} ParseDecimal(n: int)
    ensures ParseInt(Decimal(n)) == Some(n)
    ensures ParseIntOrZero(Decimal(n)) == n
  {
    var m: nat := if n < 0 then -n else n;
    var ds := Digits(m);
    MagnitudeOfDigits(m);
    if n < 0 {
      assert Decimal(n) == "-" + ds;
      ParseNegative(ds);
    } else {
      assert Decimal(n) == ds;
      ParseUnsigned(ds);
    }
  }
}
