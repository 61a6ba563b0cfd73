/** The text of header fields: UTF-8 validity, trimming of Unicode white
    space, and unsigned numbers in a given radix, read and written. */
module Numerals {
  import opened Bytes

  type scalars = seq<int>

  // --- UTF-8 -----------------------------------------------------------------

  predicate Continues(b: byte) {
    0x80 <= b <= 0xBF
  }

  /** Length of the well-formed sequence at the front of b, or 0 when there is none
      (overlong forms, surrogates and values over 0x10FFFF are ill-formed). */
  function Utf8Width(b: bytes): (n: nat)
    requires b != []
    ensures n <= 4 && n <= |b|
    ensures n == 1 <==> b[0] <= 0x7F
    ensures n > 1 ==> forall k :: 0 <= k < n ==> b[k] >= 0x80
  {
    var lead := b[0];
    if lead <= 0x7F then 1
    else if 0xC2 <= lead <= 0xDF then
      if |b| >= 2 && Continues(b[1]) then 2 else 0
    else if 0xE0 <= lead <= 0xEF then
      var low := if lead == 0xE0 then 0xA0 else 0x80;
      var high := if lead == 0xED then 0x9F else 0xBF;
      if |b| >= 3 && low <= b[1] <= high && Continues(b[2]) then 3 else 0
    else if 0xF0 <= lead <= 0xF4 then
      var low := if lead == 0xF0 then 0x90 else 0x80;
      var high := if lead == 0xF4 then 0x8F else 0xBF;
      if |b| >= 4 && low <= b[1] <= high && Continues(b[2]) && Continues(b[3]) then 4 else 0
    else 0
  }

  function Scalar(b: bytes): (c: int)
    requires b != [] && Utf8Width(b) != 0
    ensures Utf8Width(b) == 1 ==> c == b[0]
    ensures Utf8Width(b) > 1 ==> c >= 0x80
  {
    var n, lead: int := Utf8Width(b), b[0];
    if n == 1 then lead
    else if n == 2 then (lead - 0xC0) * 0x40 + Tail(b[1])
    else if n == 3 then (lead - 0xE0) * 0x1000 + Tail(b[1]) * 0x40 + Tail(b[2])
    else (lead - 0xF0) * 0x40000 + Tail(b[1]) * 0x1000 + Tail(b[2]) * 0x40 + Tail(b[3])
  }

  /** The six bits a continuation byte carries. */
  function Tail(b: byte): (r: int) {
    b as int - 0x80
  }

  function DecodeUtf8(b: bytes): Option<scalars> {
    if b == [] then Some([])
    else
      var n := Utf8Width(b);
      if n == 0 then None
      else match DecodeUtf8(b[n..])
        case None => None
        case Some(rest) => Some([Scalar(b)] + rest)
  }

  /** ASCII bytes are their own text. */
  lemma {:induction false} DecodeAscii(b: bytes)
    requires forall k :: 0 <= k < |b| ==> b[k] <= 0x7F
    ensures DecodeUtf8(b) == Some(b)
  {
    if b != [] {
      DecodeAscii(b[1..]);
      assert b == [Scalar(b)] + b[1..];
    }
  }

  /** An ASCII byte of well-formed text is a character of it, never a piece of another. */
  lemma {:induction false} AsciiByteIsScalar(b: bytes, c: byte)
    requires DecodeUtf8(b).Some? && c in b && c <= 0x7F
    ensures c in DecodeUtf8(b).value
  {
    var n := Utf8Width(b);
    if c !in b[..n] {
      assert b == b[..n] + b[n..];
      AsciiByteIsScalar(b[n..], c);
    }
  }

  // --- trimming --------------------------------------------------------------

  /** The Unicode White_Space property. */
  predicate IsWhite(c: int) {
    || 0x09 <= c <= 0x0D || c == 0x20 || c == 0x85 || c == 0xA0 || c == 0x1680
    || 0x2000 <= c <= 0x200A || c == 0x2028 || c == 0x2029 || c == 0x202F || c == 0x205F || c == 0x3000
  }

  function TrimStart(s: scalars): (r: scalars)
    ensures forall c :: c in s && !IsWhite(c) ==> c in r
    ensures r != [] ==> !IsWhite(r[0])
    ensures |r| <= |s|
  {
    if s != [] && IsWhite(s[0]) then TrimStart(s[1..]) else s
  }

  function TrimEnd(s: scalars): (r: scalars)
    ensures forall c :: c in s && !IsWhite(c) ==> c in r
    ensures r != [] ==> s != [] && r[0] == s[0] && !IsWhite(r[|r| - 1])
    ensures |r| <= |s|
  {
    if s != [] && IsWhite(s[|s| - 1]) then
      assert s == s[..|s| - 1] + [s[|s| - 1]];
      TrimEnd(s[..|s| - 1])
    else s
  }

  function Trim(s: scalars): (r: scalars)
    ensures forall c :: c in s && !IsWhite(c) ==> c in r
    ensures r != [] ==> !IsWhite(r[0]) && !IsWhite(r[|r| - 1])
  {
    TrimEnd(TrimStart(s))
  }

  // --- reading numbers -------------------------------------------------------

  const PLUS := 0x2B

  function DigitOf(c: int, radix: nat): (r: Option<nat>)
    ensures r.Some? ==> r.value < radix
  {
    var v := if 0x30 <= c <= 0x39 then c - 0x30
             else if 0x61 <= c <= 0x7A then c - 0x57
             else if 0x41 <= c <= 0x5A then c - 0x37
             else radix;
    if v < radix then Some(v) else None
  }

  /** The value of a digit string, most significant digit first. */
  function ValueOf(s: scalars, radix: nat): Option<nat> {
    if s == [] then Some(0)
    else match (ValueOf(s[..|s| - 1], radix), DigitOf(s[|s| - 1], radix))
      case (Some(high), Some(low)) => Some(high * radix + low)
      case _ => None
  }

  /** An optional plus sign, then at least one digit, with a value below the limit. */
  function ParseUnsigned(s: scalars, radix: nat, limit: nat): (r: Option<nat>)
    ensures r.Some? ==> r.value < limit
  {
    var digits := if s != [] && s[0] == PLUS then s[1..] else s;
    if digits == [] then None
    else match ValueOf(digits, radix)
      case None => None
      case Some(v) => if v < limit then Some(v) else None
  }

  lemma {:induction false} ValueOfOnlyDigits(s: scalars, radix: nat, c: int)
    requires ValueOf(s, radix).Some? && c in s
    ensures DigitOf(c, radix).Some?
  {
    if c != s[|s| - 1] {
      assert s == s[..|s| - 1] + [s[|s| - 1]];
      ValueOfOnlyDigits(s[..|s| - 1], radix, c);
    }
  }

  /** A field that reads as a number holds no angle bracket. */
  lemma NumberHasNoBracket(b: bytes, radix: nat, limit: nat)
    requires radix <= 36
    requires DecodeUtf8(b).Some? && ParseUnsigned(Trim(DecodeUtf8(b).value), radix, limit).Some?
    ensures LT !in b
  {
    if LT in b {
      AsciiByteIsScalar(b, LT);
      var s := Trim(DecodeUtf8(b).value);
      assert LT in s;
      var digits := if s[0] == PLUS then s[1..] else s;
      assert LT in digits;
      ValueOfOnlyDigits(digits, radix, LT);
    }
  }

  // --- writing numbers -------------------------------------------------------

  /** The lower-case digit for v. */
  function DigitByte(v: nat): (c: byte)
    requires v < 16
    ensures c < 0x80 && !IsWhite(c) && !IsSpace(c) && c != PLUS && c != LT
  {
    if v < 10 then v + 0x30 else v + 0x57
  }

  /** ASCII, with nothing that trimming, the sign check or the tag search would react to. */
  predicate Plain(b: bytes) {
    forall c :: c in b ==> c < 0x80 && !IsWhite(c) && !IsSpace(c) && c != PLUS && c != LT
  }

  lemma DigitRoundTrip(v: nat, radix: nat)
    requires v < radix <= 16
    ensures DigitOf(DigitByte(v), radix) == Some(v)
  {
  }

  /** Hexadecimal, zero-padded to the given width. */
  function Hex(v: nat, width: nat): (r: bytes)
    ensures |r| == width
    ensures Plain(r)
  {
    if width == 0 then [] else Hex(v / 16, width - 1) + [DigitByte(v % 16)]
  }

  /** Decimal, without leading zeros. */
  function Decimal(v: nat): (r: bytes)
    ensures r != []
    ensures Plain(r)
  {
    if v < 10 then [DigitByte(v)] else Decimal(v / 10) + [DigitByte(v % 10)]
  }

  function Pow16(n: nat): (r: nat) {
    if n == 0 then 1 else 16 * Pow16(n - 1)
  }

  lemma {:induction false} HexValue(v: nat, width: nat)
    requires v < Pow16(width)
    ensures ValueOf(Hex(v, width), 16) == Some(v)
  {
    if width > 0 {
      var r := Hex(v, width);
      HexValue(v / 16, width - 1);
      assert r[..|r| - 1] == Hex(v / 16, width - 1);
      DigitRoundTrip(v % 16, 16);
    }
  }

  lemma {:induction false} DecimalValue(v: nat)
    ensures ValueOf(Decimal(v), 10) == Some(v)
  {
    var r := Decimal(v);
    if v < 10 {
      DigitRoundTrip(v, 10);
      assert r[..0] == [];
    } else {
      DecimalValue(v / 10);
      assert r[..|r| - 1] == Decimal(v / 10);
      DigitRoundTrip(v % 10, 10);
    }
  }

  /** Digits written as ASCII survive UTF-8 decoding, trimming and the sign check untouched. */
  lemma DigitsReadBack(b: bytes, radix: nat, limit: nat, v: nat)
    requires b != [] && ValueOf(b, radix) == Some(v) && v < limit
    requires Plain(b)
    ensures DecodeUtf8(b) == Some(b)
    ensures ParseUnsigned(Trim(b), radix, limit) == Some(v)
  {
    assert forall k :: 0 <= k < |b| ==> b[k] in b;
    DecodeAscii(b);
    assert b[0] in b && b[|b| - 1] in b;
    assert Trim(b) == b;
  }
}
