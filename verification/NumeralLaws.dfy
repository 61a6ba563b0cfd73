/** UTF-8 and numbers pinned to their definitions: exactly which bytes are text, which
    digits there are, and what is a number. */
module NumeralLaws {
  import opened Bytes
  import opened Numerals

  // --- UTF-8 -----------------------------------------------------------------

  predicate IsScalar(c: int) {
    0 <= c < 0xD800 || 0xE000 <= c < 0x11_0000
  }

  /** The one encoding of a scalar value (table 3-6 of the Unicode standard). */
  function Encoded(c: int): (r: bytes)
    requires IsScalar(c)
    ensures r != []
  {
    if c < 0x80 then [c]
    else if c < 0x800 then [0xC0 + c / 0x40, 0x80 + c % 0x40]
    else if c < 0x1_0000 then [0xE0 + c / 0x1000, 0x80 + c / 0x40 % 0x40, 0x80 + c % 0x40]
    else [0xF0 + c / 0x4_0000, 0x80 + c / 0x1000 % 0x40, 0x80 + c / 0x40 % 0x40, 0x80 + c % 0x40]
  }

  predicate AreScalars(cs: scalars) {
    forall k :: 0 <= k < |cs| ==> IsScalar(cs[k])
  }

  function EncodedAll(cs: scalars): bytes
    requires AreScalars(cs)
  {
    if cs == [] then [] else Encoded(cs[0]) + EncodedAll(cs[1..])
  }

  lemma TwoBytes(a: int, b: int)
    requires 0xC2 <= a <= 0xDF && 0x80 <= b <= 0xBF
    ensures var c := (a - 0xC0) * 0x40 + (b - 0x80);
      0x80 <= c < 0x800 && 0xC0 + c / 0x40 == a && 0x80 + c % 0x40 == b
  {
  }

  lemma ThreeBytes(a: int, b: int, d: int)
    requires 0xE0 <= a <= 0xEF && 0x80 <= b <= 0xBF && 0x80 <= d <= 0xBF
    requires (a == 0xE0 ==> b >= 0xA0) && (a == 0xED ==> b <= 0x9F)
    ensures var c := (a - 0xE0) * 0x1000 + (b - 0x80) * 0x40 + (d - 0x80);
      && 0x800 <= c < 0x1_0000 && IsScalar(c)
      && 0xE0 + c / 0x1000 == a && 0x80 + c / 0x40 % 0x40 == b && 0x80 + c % 0x40 == d
  {
    var c := (a - 0xE0) * 0x1000 + (b - 0x80) * 0x40 + (d - 0x80);
    assert c / 0x40 == (a - 0xE0) * 0x40 + (b - 0x80);
  }

  lemma FourBytes(a: int, b: int, d: int, e: int)
    requires 0xF0 <= a <= 0xF4 && 0x80 <= b <= 0xBF && 0x80 <= d <= 0xBF && 0x80 <= e <= 0xBF
    requires (a == 0xF0 ==> b >= 0x90) && (a == 0xF4 ==> b <= 0x8F)
    ensures var c := (a - 0xF0) * 0x4_0000 + (b - 0x80) * 0x1000 + (d - 0x80) * 0x40 + (e - 0x80);
      && 0x1_0000 <= c < 0x11_0000
      && 0xF0 + c / 0x4_0000 == a && 0x80 + c / 0x1000 % 0x40 == b
      && 0x80 + c / 0x40 % 0x40 == d && 0x80 + c % 0x40 == e
  {
    var c := (a - 0xF0) * 0x4_0000 + (b - 0x80) * 0x1000 + (d - 0x80) * 0x40 + (e - 0x80);
    assert c / 0x1000 == (a - 0xF0) * 0x40 + (b - 0x80);
    assert c / 0x40 == (a - 0xF0) * 0x1000 + (b - 0x80) * 0x40 + (d - 0x80);
  }

  /** A well-formed sequence is the encoding of the value read from it. */
  lemma FirstIsEncoded(b: bytes)
    requires b != [] && Utf8Width(b) != 0
    ensures IsScalar(Scalar(b)) && Encoded(Scalar(b)) == b[..Utf8Width(b)]
  {
    var n := Utf8Width(b);
    if n == 2 {
      FirstOfTwo(b);
    } else if n == 3 {
      FirstOfThree(b);
    } else if n == 4 {
      FirstOfFour(b);
    }
  }

  lemma FirstOfTwo(b: bytes)
    requires b != [] && Utf8Width(b) == 2
    ensures IsScalar(Scalar(b)) && Encoded(Scalar(b)) == b[..2]
  {
    TwoBytes(b[0], b[1]);
    assert b[..2] == [b[0], b[1]];
  }

  lemma FirstOfThree(b: bytes)
    requires b != [] && Utf8Width(b) == 3
    ensures IsScalar(Scalar(b)) && Encoded(Scalar(b)) == b[..3]
  {
    ThreeBytes(b[0], b[1], b[2]);
    assert b[..3] == [b[0], b[1], b[2]];
  }

  lemma FirstOfFour(b: bytes)
    requires b != [] && Utf8Width(b) == 4
    ensures IsScalar(Scalar(b)) && Encoded(Scalar(b)) == b[..4]
  {
    FourBytes(b[0], b[1], b[2], b[3]);
    assert b[..4] == [b[0], b[1], b[2], b[3]];
  }

  lemma CutTwo(c: int)
    requires 0x80 <= c < 0x800
    ensures 0xC2 <= 0xC0 + c / 0x40 <= 0xDF && c / 0x40 * 0x40 + c % 0x40 == c
  {
  }

  lemma CutThree(c: int)
    requires 0x800 <= c < 0x1_0000
    ensures 0xE0 <= 0xE0 + c / 0x1000 <= 0xEF && c / 0x1000 * 0x1000 + c / 0x40 % 0x40 * 0x40 + c % 0x40 == c
    ensures c / 0x1000 == 0 ==> c / 0x40 % 0x40 >= 0x20
    ensures IsScalar(c) && c / 0x1000 == 0xD ==> c / 0x40 % 0x40 <= 0x1F
  {
    assert c / 0x40 == c / 0x1000 * 0x40 + c / 0x40 % 0x40;
  }

  lemma CutFour(c: int)
    requires 0x1_0000 <= c < 0x11_0000
    ensures 0xF0 <= 0xF0 + c / 0x4_0000 <= 0xF4
    ensures c / 0x4_0000 * 0x4_0000 + c / 0x1000 % 0x40 * 0x1000 + c / 0x40 % 0x40 * 0x40 + c % 0x40 == c
    ensures c / 0x4_0000 == 0 ==> c / 0x1000 % 0x40 >= 0x10
    ensures c / 0x4_0000 == 4 ==> c / 0x1000 % 0x40 <= 0xF
  {
    assert c / 0x1000 == c / 0x4_0000 * 0x40 + c / 0x1000 % 0x40;
    assert c / 0x40 == c / 0x1000 * 0x40 + c / 0x40 % 0x40;
  }

  /** An encoded value, whatever follows it, is read back. */
  lemma EncodedIsFirst(c: int, rest: bytes)
    requires IsScalar(c)
    ensures var b := Encoded(c) + rest;
      b != [] && Utf8Width(b) == |Encoded(c)| && Scalar(b) == c && b[|Encoded(c)|..] == rest
  {
    var b := Encoded(c) + rest;
    if 0x80 <= c < 0x800 {
      CutTwo(c);
    } else if 0x800 <= c < 0x1_0000 {
      CutThree(c);
    } else if c >= 0x1_0000 {
      CutFour(c);
    }
  }

  /** Bytes are text exactly when they are an encoding, and then of what they decode to. */
  lemma {:induction false} DecodeIff(b: bytes, cs: scalars)
    ensures DecodeUtf8(b) == Some(cs) <==> AreScalars(cs) && b == EncodedAll(cs)
    decreases |b| + |cs|
  {
    hide Utf8Width, Scalar, IsScalar, Encoded;
    if b != [] && Utf8Width(b) != 0 && DecodeUtf8(b) == Some(cs) {
      FirstIsEncoded(b);
      var n := Utf8Width(b);
      DecodeIff(b[n..], cs[1..]);
      assert b == b[..n] + b[n..];
      assert AreScalars(cs);
    }
    if AreScalars(cs) && b == EncodedAll(cs) && cs != [] {
      EncodedIsFirst(cs[0], EncodedAll(cs[1..]));
      DecodeIff(EncodedAll(cs[1..]), cs[1..]);
      assert [cs[0]] + cs[1..] == cs;
    }
  }

  // --- white space -------------------------------------------------------------

  /** White space is the 25 characters that have the property. */
  lemma WhiteIff(c: int)
    ensures IsWhite(c) <==> c in {
      0x09, 0x0A, 0x0B, 0x0C, 0x0D, 0x20, 0x85, 0xA0, 0x1680,
      0x2000, 0x2001, 0x2002, 0x2003, 0x2004, 0x2005, 0x2006, 0x2007, 0x2008, 0x2009, 0x200A,
      0x2028, 0x2029, 0x202F, 0x205F, 0x3000}
  {
  }

  /** Trimming cuts white space off both ends and nothing else. */
  lemma TrimCuts(s: scalars) returns (a: nat, b: nat)
    ensures a <= b <= |s| && Trim(s) == s[a..b]
    ensures forall k :: 0 <= k < |s| && !(a <= k < b) ==> IsWhite(s[k])
    ensures a < b ==> !IsWhite(s[a]) && !IsWhite(s[b - 1])
  {
    a := StartCuts(s);
    var front := s[a..];
    var n := EndCuts(front);
    b := a + n;
    assert front[..n] == s[a..b];
    forall k | b <= k < |s| ensures IsWhite(s[k]) {
      assert front[k - a] == s[k];
    }
  }

  lemma {:induction false} StartCuts(s: scalars) returns (a: nat)
    ensures a <= |s| && TrimStart(s) == s[a..] && forall k :: 0 <= k < a ==> IsWhite(s[k])
  {
    if s != [] && IsWhite(s[0]) {
      var r := StartCuts(s[1..]);
      a := r + 1;
      assert s[1..][r..] == s[a..];
      forall k | 0 < k < a ensures IsWhite(s[k]) {
        assert s[1..][k - 1] == s[k];
      }
    } else {
      a := 0;
      assert s[0..] == s;
    }
  }

  lemma {:induction false} EndCuts(s: scalars) returns (n: nat)
    ensures n <= |s| && TrimEnd(s) == s[..n] && forall k :: n <= k < |s| ==> IsWhite(s[k])
  {
    if s != [] && IsWhite(s[|s| - 1]) {
      n := EndCuts(s[..|s| - 1]);
      assert s[..|s| - 1][..n] == s[..n];
    } else {
      n := |s|;
      assert s[..n] == s;
    }
  }

  // --- digits ------------------------------------------------------------------

  type digit = v: int | 0 <= v < 36

  function Lower(v: digit): char {
    match v
    case 0 => '0' case 1 => '1' case 2 => '2' case 3 => '3' case 4 => '4' case 5 => '5' case 6 => '6' case 7 => '7' case 8 => '8'
    case 9 => '9' case 10 => 'a' case 11 => 'b' case 12 => 'c' case 13 => 'd' case 14 => 'e' case 15 => 'f' case 16 => 'g' case 17 => 'h'
    case 18 => 'i' case 19 => 'j' case 20 => 'k' case 21 => 'l' case 22 => 'm' case 23 => 'n' case 24 => 'o' case 25 => 'p' case 26 => 'q'
    case 27 => 'r' case 28 => 's' case 29 => 't' case 30 => 'u' case 31 => 'v' case 32 => 'w' case 33 => 'x' case 34 => 'y' case _ => 'z'
  }

  function Upper(v: digit): char {
    match v
    case 0 => '0' case 1 => '1' case 2 => '2' case 3 => '3' case 4 => '4' case 5 => '5' case 6 => '6' case 7 => '7' case 8 => '8'
    case 9 => '9' case 10 => 'A' case 11 => 'B' case 12 => 'C' case 13 => 'D' case 14 => 'E' case 15 => 'F' case 16 => 'G' case 17 => 'H'
    case 18 => 'I' case 19 => 'J' case 20 => 'K' case 21 => 'L' case 22 => 'M' case 23 => 'N' case 24 => 'O' case 25 => 'P' case 26 => 'Q'
    case 27 => 'R' case 28 => 'S' case 29 => 'T' case 30 => 'U' case 31 => 'V' case 32 => 'W' case 33 => 'X' case 34 => 'Y' case _ => 'Z'
  }

  /** A character is a digit of a radix exactly when it is one of the radix's first
      letters of the table, in either case. */
  lemma DigitIff(c: int, radix: nat, v: digit)
    requires radix <= 36
    ensures DigitOf(c, radix) == Some(v) <==> v < radix && (c == Lower(v) as int || c == Upper(v) as int)
  {
  }

  /** Digits are written in lower case. */
  lemma WritesLower(v: nat)
    requires v < 16
    ensures DigitByte(v) == Lower(v) as int
  {
  }

  /** A number is written in decimal without leading zeros. */
  lemma {:induction false} NoLeadingZero(v: nat)
    ensures Decimal(v)[0] == DigitByte(0) ==> v == 0 && |Decimal(v)| == 1
  {
    if v >= 10 {
      NoLeadingZero(v / 10);
    }
  }

  /** A number is at least one digit, with or without a plus sign in front. */
  lemma NumberIff(s: scalars, radix: nat, limit: nat, v: nat)
    requires radix <= 36
    ensures ParseUnsigned(s, radix, limit) == Some(v) <==>
      v < limit && exists digits: scalars ::
        digits != [] && (s == digits || s == [0x2B] + digits) && ValueOf(digits, radix) == Some(v)
  {
    if ParseUnsigned(s, radix, limit) == Some(v) {
      var digits := if s[0] == 0x2B then s[1..] else s;
      assert s == digits || s == [0x2B] + digits;
    }
    if digits: scalars :|
      digits != [] && (s == digits || s == [0x2B] + digits) && ValueOf(digits, radix) == Some(v)
    {
      NoSignInside(digits, radix);
      assert s == [0x2B] + digits ==> s[1..] == digits;
    }
  }

  lemma NoSignInside(digits: scalars, radix: nat)
    requires radix <= 36 && digits != [] && ValueOf(digits, radix).Some?
    ensures digits[0] != 0x2B
  {
    ValueOfOnlyDigits(digits, radix, digits[0]);
  }
}
