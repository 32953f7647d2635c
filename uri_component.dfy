/** JavaScript's `encodeURIComponent` (section 18.2.6.5 of ECMA-262 6th edition):
    characters of the uriUnreserved set (section 18.2.6.1) are kept, every other
    code point is written as the UTF-8 octets of its value, each as a `%XY`
    triplet with upper-case hexadecimal digits (section 2.1 of RFC 3986).
    `Decode` is `decodeURIComponent`, used to state that an encoded name decodes
    back to the name it encodes. */
module UriComponent {
  import opened Base

  type Byte = x: int | 0 <= x < 256

  /** uriUnreserved: uriAlpha, DecimalDigit and uriMark `- _ . ! ~ * ' ( )`. */
  predicate IsUnreserved(c: char) {
    || 'a' <= c <= 'z' || 'A' <= c <= 'Z' || '0' <= c <= '9'
    || c == '-' || c == '_' || c == '.' || c == '!' || c == '~' || c == '*' || c == '\'' || c == '(' || c == ')'
  }

  /** The UTF-8 octets of a code point. */
  function Utf8(c: char): (octets: seq<Byte>)
    ensures 1 <= |octets| <= 4
  {
    var v := c as int;
    if v < 0x80 then [v]
    else if v < 0x800 then [0xC0 + v / 0x40, 0x80 + v % 0x40]
    else if v < 0x1_0000 then [0xE0 + v / 0x1000, 0x80 + (v / 0x40) % 0x40, 0x80 + v % 0x40]
    else [0xF0 + v / 0x4_0000, 0x80 + (v / 0x1000) % 0x40, 0x80 + (v / 0x40) % 0x40, 0x80 + v % 0x40]
  }

  /** An upper-case hexadecimal digit. */
  function HexDigit(n: nat): (c: char)
    requires n < 16
  {
    if n < 10 then ('0' as int + n) as char else ('A' as int + n - 10) as char
  }

  /** The `%XY` triplet of one octet. */
  function Escape(b: Byte): string {
    ['%', HexDigit(b / 16), HexDigit(b % 16)]
  }

  function EscapeAll(octets: seq<Byte>): (t: string)
    ensures |t| == 3 * |octets|
  {
    if octets == [] then [] else Escape(octets[0]) + EscapeAll(octets[1..])
  }

  function EncodeChar(c: char): string {
    if IsUnreserved(c) then [c] else EscapeAll(Utf8(c))
  }

  /** `encodeURIComponent(s)`. */
  function Encode(s: string): string {
    if s == [] then [] else EncodeChar(s[0]) + Encode(s[1..])
  }

  predicate IsUpperHex(c: char) {
    '0' <= c <= '9' || 'A' <= c <= 'F'
  }

  /** The shape of an encoded component: unreserved characters and `%XY` triplets. */
  predicate WellFormed(t: string)
    decreases |t|
  {
    if t == [] then true
    else if IsUnreserved(t[0]) then WellFormed(t[1..])
    else |t| >= 3 && t[0] == '%' && IsUpperHex(t[1]) && IsUpperHex(t[2]) && WellFormed(t[3..])
  }

  /** The value of a hexadecimal digit of either case. */
  function HexValue(c: char): (r: Option<nat>)
    ensures r.Some? ==> r.value < 16
  {
    if '0' <= c <= '9' then Some(c as int - '0' as int)
    else if 'A' <= c <= 'F' then Some(c as int - 'A' as int + 10)
    else if 'a' <= c <= 'f' then Some(c as int - 'a' as int + 10)
    else None
  }

  /** The octet of a `%XY` triplet at the front of `t`. */
  function ReadOctet(t: string): Option<Byte> {
    if |t| >= 3 && t[0] == '%' && HexValue(t[1]).Some? && HexValue(t[2]).Some?
    then Some(HexValue(t[1]).value * 16 + HexValue(t[2]).value)
    else None
  }

  /** The octets of `n` triplets at the front of `t`. */
  function ReadOctets(t: string, n: nat): (r: Option<seq<Byte>>)
    ensures r.Some? ==> |r.value| == n && |t| >= 3 * n
    decreases n
  {
    if n == 0 then Some([])
    else match ReadOctet(t)
      case None => None
      case Some(b) =>
        match ReadOctets(t[3..], n - 1)
        case None => None
        case Some(bs) => Some([b] + bs)
  }

  /** How many octets a UTF-8 sequence with this lead octet has; 0 if none can start with it. */
  function Utf8Length(lead: Byte): nat {
    if lead < 0x80 then 1
    else if 0xC0 <= lead < 0xE0 then 2
    else if 0xE0 <= lead < 0xF0 then 3
    else if 0xF0 <= lead < 0xF8 then 4
    else 0
  }

  predicate IsContinuation(b: Byte) {
    0x80 <= b < 0xC0
  }

  /** The code point of a complete UTF-8 sequence; None for an overlong form, a
      surrogate, a value past U+10FFFF or a malformed sequence. */
  function Utf8Decode(octets: seq<Byte>): Option<char> {
    if |octets| == 0 || |octets| > 4 || Utf8Length(octets[0]) != |octets| then None
    else if exists i :: 1 <= i < |octets| && !IsContinuation(octets[i]) then None
    else if |octets| == 1 then Some(octets[0] as char)
    else if |octets| == 2 then
      var v := (octets[0] as int - 0xC0) * 0x40 + (octets[1] as int - 0x80);
      if 0x80 <= v then Some(v as char) else None
    else if |octets| == 3 then
      var v := (octets[0] as int - 0xE0) * 0x1000 + (octets[1] as int - 0x80) * 0x40 + (octets[2] as int - 0x80);
      if 0x800 <= v && !(0xD800 <= v < 0xE000) then Some(v as char) else None
    else
      var v := (octets[0] as int - 0xF0) * 0x4_0000 + (octets[1] as int - 0x80) * 0x1000
        + (octets[2] as int - 0x80) * 0x40 + (octets[3] as int - 0x80);
      if 0x1_0000 <= v < 0x11_0000 then Some(v as char) else None
  }

  /** `decodeURIComponent(t)`: None where it throws URIError. */
  function Decode(t: string): Option<string>
    decreases |t|
  {
    if t == [] then Some([])
    else if t[0] != '%' then
      match Decode(t[1..])
      case None => None
      case Some(rest) => Some([t[0]] + rest)
    else match ReadOctet(t)
      case None => None
      case Some(lead) =>
        var n := Utf8Length(lead);
        if n == 0 then None
        else match ReadOctets(t, n)
          case None => None
          case Some(octets) =>
            match Utf8Decode(octets)
            case None => None
            case Some(c) =>
              match Decode(t[3 * n..])
              case None => None
              case Some(rest) => Some([c] + rest)
  }

  /** Decoding a code point's UTF-8 octets gives it back, and its lead octet announces their number. */
  lemma Utf8RoundTrip(c: char)
    ensures Utf8Length(Utf8(c)[0]) == |Utf8(c)|
    ensures Utf8Decode(Utf8(c)) == Some(c)
  {
    var v := c as int;
    if 0x80 <= v < 0x800 {
      assert v == (v / 0x40) * 0x40 + v % 0x40;
    } else if 0x800 <= v < 0x1_0000 {
      ThreeOctetDigits(v);
    } else if 0x1_0000 <= v {
      FourOctetDigits(v);
    }
  }

  /** A value below 0x40000 in base 64, as the last three octets of a UTF-8 sequence carry it. */
  lemma ThreeOctetDigits(v: nat)
    requires v < 0x4_0000
    ensures v == (v / 0x1000) * 0x1000 + ((v / 0x40) % 0x40) * 0x40 + v % 0x40
  {
    var a, r := v / 0x1000, v % 0x1000;
    assert v / 0x40 == a * 0x40 + r / 0x40;
    assert (v / 0x40) % 0x40 == r / 0x40;
    assert v % 0x40 == r % 0x40;
  }

  /** A value below 0x200000 in base 64, as four UTF-8 octets carry it. */
  lemma FourOctetDigits(v: nat)
    requires v < 0x20_0000
    ensures v == (v / 0x4_0000) * 0x4_0000 + ((v / 0x1000) % 0x40) * 0x1000
      + ((v / 0x40) % 0x40) * 0x40 + v % 0x40
  {
    var a, r := v / 0x4_0000, v % 0x4_0000;
    assert v / 0x1000 == a * 0x40 + r / 0x1000;
    assert (v / 0x1000) % 0x40 == r / 0x1000;
    assert (v / 0x40) % 0x40 == (r / 0x40) % 0x40 by {
      assert v / 0x40 == a * 0x1000 + r / 0x40;
    }
    assert v % 0x40 == r % 0x40;
    ThreeOctetDigits(r);
    assert r == (r / 0x1000) * 0x1000 + ((r / 0x40) % 0x40) * 0x40 + r % 0x40;
  }

  /** A triplet reads back as the octet it escapes. */
  lemma ReadEscape(b: Byte, rest: string)
    ensures ReadOctet(Escape(b) + rest) == Some(b)
  {
    var t := Escape(b) + rest;
    assert t[0] == '%' && t[1] == HexDigit(b / 16) && t[2] == HexDigit(b % 16);
  }

  /** Escaped octets read back as themselves. */
  lemma {:induction false} ReadEscapeAll(octets: seq<Byte>, rest: string)
    ensures ReadOctets(EscapeAll(octets) + rest, |octets|) == Some(octets)
    decreases |octets|
  {
    if octets != [] {
      var t := EscapeAll(octets) + rest;
      assert t == Escape(octets[0]) + (EscapeAll(octets[1..]) + rest);
      ReadEscape(octets[0], EscapeAll(octets[1..]) + rest);
      assert t[3..] == EscapeAll(octets[1..]) + rest;
      ReadEscapeAll(octets[1..], rest);
      assert [octets[0]] + octets[1..] == octets;
    }
  }

  /** The triplets of an escaped code point decode to that code point. */
  lemma DecodeEscaped(c: char, tail: string)
    ensures Decode(EscapeAll(Utf8(c)) + tail) ==
      match Decode(tail)
      case None => None
      case Some(rest) => Some([c] + rest)
  {
    var o := Utf8(c);
    var t := EscapeAll(o) + tail;
    Utf8RoundTrip(c);
    ReadEscapeAll(o, tail);
    assert t == Escape(o[0]) + (EscapeAll(o[1..]) + tail);
    ReadEscape(o[0], EscapeAll(o[1..]) + tail);
    assert t[3 * |o|..] == tail;
    DecodeSequence(t, o, c);
  }

  /** Decoding a text that starts with the triplets of one whole UTF-8 sequence. */
  lemma DecodeSequence(t: string, o: seq<Byte>, c: char)
    requires |o| >= 1 && |t| >= 3 && t[0] == '%'
    requires ReadOctet(t) == Some(o[0]) && Utf8Length(o[0]) == |o|
    requires ReadOctets(t, |o|) == Some(o) && Utf8Decode(o) == Some(c)
    ensures Decode(t) ==
      match Decode(t[3 * |o|..])
      case None => None
      case Some(rest) => Some([c] + rest)
  {
  }

  /** decodeURIComponent undoes encodeURIComponent. */
  lemma {:induction false} DecodeEncode(s: string)
    ensures Decode(Encode(s)) == Some(s)
    decreases |s|
  {
    if s != [] {
      var c := s[0];
      var tail := Encode(s[1..]);
      var t := Encode(s);
      assert t == EncodeChar(c) + tail;
      DecodeEncode(s[1..]);
      if IsUnreserved(c) {
        assert t[0] == c && t[1..] == tail;
      } else {
        DecodeEscaped(c, tail);
      }
      assert [c] + s[1..] == s;
    }
  }

  /** Concatenating two encoded pieces gives an encoded piece. */
  lemma {:induction false} WellFormedAppend(a: string, b: string)
    requires WellFormed(a) && WellFormed(b)
    ensures WellFormed(a + b)
    decreases |a|, 1
  {
    if a == [] {
      assert a + b == b;
    } else if IsUnreserved(a[0]) {
      AppendAfterUnreserved(a, b);
    } else {
      AppendAfterTriplet(a, b);
    }
  }

  lemma {:induction false} AppendAfterUnreserved(a: string, b: string)
    requires a != [] && IsUnreserved(a[0]) && WellFormed(a[1..]) && WellFormed(b)
    ensures WellFormed(a + b)
    decreases |a|, 0
  {
    WellFormedAppend(a[1..], b);
    assert a + b == [a[0]] + (a[1..] + b);
    WellFormedUnreserved(a[0], a[1..] + b);
  }

  lemma {:induction false} AppendAfterTriplet(a: string, b: string)
    requires |a| >= 3 && a[0] == '%' && IsUpperHex(a[1]) && IsUpperHex(a[2])
    requires WellFormed(a[3..]) && WellFormed(b)
    ensures WellFormed(a + b)
    decreases |a|, 0
  {
    WellFormedAppend(a[3..], b);
    assert a + b == ['%', a[1], a[2]] + (a[3..] + b);
    WellFormedTriplet(a[1], a[2], a[3..] + b);
  }

  lemma WellFormedUnreserved(c: char, t: string)
    requires IsUnreserved(c) && WellFormed(t)
    ensures WellFormed([c] + t)
  {
    assert ([c] + t)[1..] == t;
  }

  lemma WellFormedTriplet(x: char, y: char, t: string)
    requires IsUpperHex(x) && IsUpperHex(y) && WellFormed(t)
    ensures WellFormed(['%', x, y] + t)
  {
    assert (['%', x, y] + t)[3..] == t;
  }

  lemma {:induction false} EscapeAllWellFormed(octets: seq<Byte>)
    ensures WellFormed(EscapeAll(octets))
    decreases |octets|
  {
    if octets != [] {
      EscapeAllWellFormed(octets[1..]);
      var e := Escape(octets[0]);
      assert WellFormed(e) by {
        assert e[3..] == [];
      }
      WellFormedAppend(e, EscapeAll(octets[1..]));
    }
  }

  /** encodeURIComponent yields only unreserved characters and upper-case `%XY` triplets. */
  lemma {:induction false} EncodeWellFormed(s: string)
    ensures WellFormed(Encode(s))
    decreases |s|
  {
    if s != [] {
      EncodeWellFormed(s[1..]);
      if IsUnreserved(s[0]) {
        assert WellFormed([s[0]]);
      } else {
        EscapeAllWellFormed(Utf8(s[0]));
      }
      WellFormedAppend(EncodeChar(s[0]), Encode(s[1..]));
    }
  }

  /** Every character of a well-formed component is unreserved, `%` or a hexadecimal digit. */
  lemma {:induction false} WellFormedChars(t: string)
    requires WellFormed(t)
    ensures forall i :: 0 <= i < |t| ==> IsUnreserved(t[i]) || t[i] == '%' || IsUpperHex(t[i])
    decreases |t|
  {
    if t != [] {
      if IsUnreserved(t[0]) {
        WellFormedChars(t[1..]);
        assert forall i :: 1 <= i < |t| ==> t[i] == t[1..][i - 1];
      } else {
        WellFormedChars(t[3..]);
        assert forall i :: 3 <= i < |t| ==> t[i] == t[3..][i - 3];
      }
    }
  }

  /** An encoded component holds no `/`, so it stays one path segment. */
  lemma NoSlash(s: string)
    ensures '/' !in Encode(s)
  {
    EncodeWellFormed(s);
    WellFormedChars(Encode(s));
  }

  /** encodeURIComponent leaves a string unchanged exactly when every character is unreserved. */
  lemma {:induction false} EncodeIdentity(s: string)
    ensures Encode(s) == s <==> forall i :: 0 <= i < |s| ==> IsUnreserved(s[i])
    ensures |Encode(s)| >= |s|
    decreases |s|
  {
    if s != [] {
      EncodeIdentity(s[1..]);
      var e := EncodeChar(s[0]);
      if IsUnreserved(s[0]) {
        assert Encode(s) == [s[0]] + Encode(s[1..]);
        assert Encode(s) == s <==> Encode(s[1..]) == s[1..] by {
          if Encode(s) == s {
            assert Encode(s)[1..] == s[1..];
          }
        }
        assert (forall i :: 0 <= i < |s| ==> IsUnreserved(s[i])) <==>
               (forall i :: 0 <= i < |s[1..]| ==> IsUnreserved(s[1..][i])) by {
          assert forall i :: 1 <= i < |s| ==> s[i] == s[1..][i - 1];
        }
      } else {
        assert |e| >= 3;
        assert |Encode(s)| > |s|;
      }
    }
  }
}
