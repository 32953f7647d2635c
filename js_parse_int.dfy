/** JavaScript's global `parseInt(string)` with no radix argument, following
    section 18.2.5 of ECMA-262 6th edition: skip leading white space, take an
    optional sign, take a `0x`/`0X` prefix as radix 16 (radix 10 otherwise),
    then read the longest prefix of digits in that radix. */
module JsParseInt {
  import opened Text

  /** What parseInt returns. Its -0 (from "-0") is folded into 0: every use of
      the number in the handlers (`< 0`, `>= 0`, indexing, printing) treats the two alike. */
  datatype Number = NaN | Int(value: int)

  /** StrWhiteSpaceChar: the WhiteSpace code points (TAB, VT, FF, SP, NBSP, ZWNBSP
      and the other Unicode space separators) and the LineTerminator code points. */
  predicate IsStrWhiteSpace(c: char) {
    var v := c as int;
    || v == 0x09 || v == 0x0B || v == 0x0C || v == 0x20 || v == 0xA0 || v == 0xFEFF
    || v == 0x1680 || (0x2000 <= v <= 0x200A) || v == 0x202F || v == 0x205F || v == 0x3000
    || v == 0x0A || v == 0x0D || v == 0x2028 || v == 0x2029
  }

  /** The string with its leading white space removed. */
  function TrimStart(s: string): (t: string)
    ensures |t| <= |s| && t == s[|s| - |t|..]
    ensures t != [] ==> !IsStrWhiteSpace(t[0])
    ensures forall i :: 0 <= i < |s| - |t| ==> IsStrWhiteSpace(s[i])
    decreases |s|
  {
    if s != [] && IsStrWhiteSpace(s[0]) then TrimStart(s[1..]) else s
  }

  /** The value of `c` as a digit in radix 36 (`0`-`9`, then `a`-`z` or `A`-`Z`),
      or 36 when `c` is no digit at all. */
  function DigitValue(c: char): (d: nat)
    ensures d <= 36
    ensures d < 10 <==> IsDecimalDigit(c)
  {
    if '0' <= c <= '9' then c as int - '0' as int
    else if 'a' <= c <= 'z' then c as int - 'a' as int + 10
    else if 'A' <= c <= 'Z' then c as int - 'A' as int + 10
    else 36
  }

  predicate AllDigits(z: string, radix: nat) {
    forall i :: 0 <= i < |z| ==> DigitValue(z[i]) < radix
  }

  /** The length of the longest prefix of `s` made of digits in `radix`. */
  function DigitRun(s: string, radix: nat): (n: nat)
    ensures n <= |s| && AllDigits(s[..n], radix)
    ensures n < |s| ==> DigitValue(s[n]) >= radix
    decreases |s|
  {
    if s != [] && DigitValue(s[0]) < radix then
      var n := 1 + DigitRun(s[1..], radix);
      assert forall i :: 1 <= i < n ==> s[..n][i] == s[1..][..n - 1][i - 1];
      n
    else 0
  }

  /** Decimal digits are the digits of radix 10. */
  lemma DecimalDigits(z: string)
    ensures AllDecimal(z) <==> AllDigits(z, 10)
  {
    assert forall i :: 0 <= i < |z| ==> (IsDecimalDigit(z[i]) <==> DigitValue(z[i]) < 10);
  }

  /** The mathematical value of a digit string, most significant digit first. */
  function ValueOf(z: string, radix: nat): nat
    requires AllDigits(z, radix)
    decreases |z|
  {
    if z == [] then 0
    else ValueOf(z[..|z| - 1], radix) * radix + DigitValue(z[|z| - 1])
  }

  /** `parseInt(s)`: leading white space is skipped, then one optional sign. */
  function ParseInt(s: string): Number {
    var t := TrimStart(s);
    if t != [] && t[0] == '-' then Negate(ParseUnsigned(t[1..]))
    else if t != [] && t[0] == '+' then ParseUnsigned(t[1..])
    else ParseUnsigned(t)
  }

  /** The value behind the sign: a `0x` or `0X` prefix selects radix 16. */
  function ParseUnsigned(u: string): (r: Number)
    ensures r.Int? ==> r.value >= 0
  {
    if HasHexPrefix(u) then ParseDigits(u[2..], 16) else ParseDigits(u, 10)
  }

  predicate HasHexPrefix(u: string) {
    |u| >= 2 && u[0] == '0' && (u[1] == 'x' || u[1] == 'X')
  }

  /** The value of the longest run of digits at the front, or NaN when there is none. */
  function ParseDigits(v: string, radix: nat): (r: Number)
    ensures r == NaN <==> DigitRun(v, radix) == 0
    ensures r.Int? ==> r.value >= 0
  {
    var z := v[..DigitRun(v, radix)];
    if z == [] then NaN else Int(ValueOf(z, radix))
  }

  function Negate(n: Number): Number {
    match n
    case NaN => NaN
    case Int(v) => Int(-v)
  }

  /** Reading a decimal string back gives the number it renders. */
  lemma {:induction false} ValueOfDecimalString(n: nat)
    ensures AllDigits(DecimalString(n), 10)
    ensures ValueOf(DecimalString(n), 10) == n
    decreases n
  {
    var s := DecimalString(n);
    DecimalDigits(s);
    if n >= 10 {
      ValueOfDecimalString(n / 10);
      assert s[..|s| - 1] == DecimalString(n / 10);
    }
  }

  /** parseInt reads only the leading digits: a non-empty run of decimal digits
      followed by anything that does not continue it (a non-digit, and not the
      `x` that would make a lone `0` a hexadecimal prefix) parses to the run's value. */
  lemma LeadingDigits(d: string, rest: string)
    requires d != [] && AllDecimal(d)
    requires rest != [] ==> !IsDecimalDigit(rest[0])
    requires !(d == "0" && rest != [] && (rest[0] == 'x' || rest[0] == 'X'))
    ensures AllDigits(d, 10)
    ensures ParseInt(d + rest) == Int(ValueOf(d, 10))
  {
    DecimalDigits(d);
    var s := d + rest;
    NoHexPrefix(d, rest);
    assert s[0] == d[0];
    UnsignedDecimal(s);
    DigitRunPrefix(d, rest, 10);
    assert s[..|d|] == d;
  }

  /** A decimal run followed by a non-digit is no `0x` prefix, unless it is `0x` itself. */
  lemma NoHexPrefix(d: string, rest: string)
    requires d != [] && AllDecimal(d)
    requires !(d == "0" && rest != [] && (rest[0] == 'x' || rest[0] == 'X'))
    ensures !HasHexPrefix(d + rest)
  {
    var s := d + rest;
    if |d| >= 2 {
      assert s[1] == d[1] && IsDecimalDigit(d[1]);
    } else if |s| >= 2 && d[0] == '0' {
      assert d == "0";
      assert s[1] == rest[0];
    }
  }

  /** parseInt of a string that starts with a digit and no `0x` reads its decimal run. */
  lemma UnsignedDecimal(s: string)
    requires s != [] && IsDecimalDigit(s[0]) && !HasHexPrefix(s)
    ensures ParseInt(s) == ParseDigits(s, 10)
  {
    NoLeadingSpace(s);
    assert ParseInt(s) == ParseUnsigned(s);
  }

  lemma NoLeadingSpace(s: string)
    requires s != [] && (IsDecimalDigit(s[0]) || s[0] == '-')
    ensures TrimStart(s) == s
  {
  }

  /** A digit run stops exactly where the digits stop. */
  lemma {:induction false} DigitRunPrefix(d: string, rest: string, radix: nat)
    requires AllDigits(d, radix)
    requires rest != [] ==> DigitValue(rest[0]) >= radix
    ensures DigitRun(d + rest, radix) == |d|
    decreases |d|
  {
    if d != [] {
      DigitRunPrefix(d[1..], rest, radix);
      assert (d + rest)[1..] == d[1..] + rest;
    } else {
      assert d + rest == rest;
    }
  }

  /** parseInt of the decimal rendering of `n`, followed by anything that is not a
      digit (and, for `0`, not the `x` of a hexadecimal prefix), is `n`: the round
      trip between the 404 message's index and the route's. */
  lemma ParseDecimalString(n: nat, rest: string)
    requires rest != [] ==> !IsDecimalDigit(rest[0])
    requires !(n == 0 && rest != [] && (rest[0] == 'x' || rest[0] == 'X'))
    ensures ParseInt(DecimalString(n) + rest) == Int(n)
  {
    var d := DecimalString(n);
    ValueOfDecimalString(n);
    assert d == "0" ==> n == 0 by {
      if d == "0" {
        assert d[0] == '0';
      }
    }
    LeadingDigits(d, rest);
  }

  /** A string without a single decimal digit is not a number to parseInt
      (even `0x` needs its `0`). */
  lemma NoDigitIsNaN(s: string)
    requires forall i :: 0 <= i < |s| ==> !IsDecimalDigit(s[i])
    ensures ParseInt(s) == NaN
  {
    var t := TrimStart(s);
    var k := |s| - |t|;
    if t != [] {
      assert t[0] == s[k];
      LeadingNonDigit(t);
      if |t| >= 2 {
        assert t[1..][0] == s[k + 1];
      }
      LeadingNonDigit(t[1..]);
    }
  }

  /** A string that does not start with a digit reads as NaN once the sign is gone. */
  lemma LeadingNonDigit(u: string)
    requires u != [] ==> !IsDecimalDigit(u[0])
    ensures ParseUnsigned(u) == NaN
  {
  }

  /** Only a `-` sign makes parseInt negative. */
  lemma NegativeNeedsMinus(s: string)
    requires '-' !in s
    ensures ParseInt(s).Int? ==> ParseInt(s).value >= 0
  {
    var t := TrimStart(s);
    if t != [] {
      assert t[0] != '-' by {
        assert t[0] == s[|s| - |t|];
      }
    }
  }

  /** A `-` sign in front of a decimal run negates its value. */
  lemma MinusDigits(s: string, d: string)
    requires d != [] && AllDecimal(d) && s == "-" + d
    ensures AllDigits(d, 10)
    ensures ParseInt(s) == Int(-(ValueOf(d, 10) as int))
  {
    DecimalRun(d);
    var v := ValueOf(d, 10);
    var r := ParseUnsigned(d);
    assert r == Int(v);
    assert Negate(r) == Int(-(v as int));
    assert s[0] == '-' && s[1..] == d;
    LeadingMinus(s);
  }

  lemma LeadingMinus(s: string)
    requires s != [] && s[0] == '-'
    ensures ParseInt(s) == Negate(ParseUnsigned(s[1..]))
  {
    NoLeadingSpace(s);
  }

  /** A whole decimal run, with nothing behind it, is read as its value. */
  lemma DecimalRun(d: string)
    requires d != [] && AllDecimal(d)
    ensures AllDigits(d, 10)
    ensures ParseUnsigned(d) == Int(ValueOf(d, 10))
  {
    DecimalDigits(d);
    assert !HasHexPrefix(d) by {
      if |d| >= 2 {
        assert IsDecimalDigit(d[1]);
      }
    }
    DigitRunPrefix(d, [], 10);
    assert d + [] == d;
    assert d[..|d|] == d;
  }

  /** The route word `first` is no number to parseInt. */
  lemma FirstIsNaN(s: string)
    requires s == "first"
    ensures ParseInt(s) == NaN
  {
    forall i | 0 <= i < |s| ensures !IsDecimalDigit(s[i]) {
    }
    NoDigitIsNaN(s);
  }

  /** A number followed by a word parses to the number. */
  lemma TrailingTextIgnored(s: string)
    requires s == "12abc"
    ensures ParseInt(s) == Int(12)
  {
    var d, rest := s[..2], s[2..];
    assert d == "12" && rest == "abc" && s == d + rest;
    LeadingDigits(d, rest);
    assert d[..1][..0] == [];
    assert ValueOf(d[..1], 10) == 1;
  }
}
