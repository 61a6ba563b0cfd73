/** Base64 pinned to its definition: the alphabet written out (table 1 of RFC 4648),
    and exactly which texts decode, and to what. */
module Base64Laws {
  import opened Bytes
  import opened Base64

  /** The alphabet, letter by letter. */
  function Letter(v: sextet): char {
    match v
    case 0 => 'A' case 1 => 'B' case 2 => 'C' case 3 => 'D' case 4 => 'E' case 5 => 'F' case 6 => 'G' case 7 => 'H'
    case 8 => 'I' case 9 => 'J' case 10 => 'K' case 11 => 'L' case 12 => 'M' case 13 => 'N' case 14 => 'O' case 15 => 'P'
    case 16 => 'Q' case 17 => 'R' case 18 => 'S' case 19 => 'T' case 20 => 'U' case 21 => 'V' case 22 => 'W' case 23 => 'X'
    case 24 => 'Y' case 25 => 'Z' case 26 => 'a' case 27 => 'b' case 28 => 'c' case 29 => 'd' case 30 => 'e' case 31 => 'f'
    case 32 => 'g' case 33 => 'h' case 34 => 'i' case 35 => 'j' case 36 => 'k' case 37 => 'l' case 38 => 'm' case 39 => 'n'
    case 40 => 'o' case 41 => 'p' case 42 => 'q' case 43 => 'r' case 44 => 's' case 45 => 't' case 46 => 'u' case 47 => 'v'
    case 48 => 'w' case 49 => 'x' case 50 => 'y' case 51 => 'z' case 52 => '0' case 53 => '1' case 54 => '2' case 55 => '3'
    case 56 => '4' case 57 => '5' case 58 => '6' case 59 => '7' case 60 => '8' case 61 => '9' case 62 => '+' case _ => '/'
  }

  /** The symbol of a value is its letter. */
  lemma SymbolIsLetter(v: sextet)
    ensures Symbol(v) == Letter(v) as int
  {
  }

  /** A byte has a value exactly when it is a letter of the alphabet, and then it is that
      letter's. */
  lemma SextetIff(c: byte, v: sextet)
    ensures Sextet(c) == Some(v) <==> c == Letter(v) as int
  {
    SymbolIsLetter(v);
  }

  /** What encoded text looks like with some of its trailing padding, or none, left off. */
  predicate Unpads(b: bytes, e: bytes) {
    |b| <= |e| && b == e[..|b|] && forall k :: |b| <= k < |e| ==> e[k] == PAD
  }

  lemma LastIsGroup(q: bytes)
    requires |q| <= 4 && DecodeLast(q).Some?
    ensures var p := DecodeLast(q).value; 1 <= |p| <= 3 && Unpads(q, EncodeGroup(p))
  {
    hide Symbol, Sextet;
    var n := Symbols(q).value;
    SextetIs(q[0]);
    SextetIs(q[1]);
    if n == 2 {
      LastPair(q, DecodeLast(q).value);
    } else if n == 3 {
      SextetIs(q[2]);
      LastTriple(q, DecodeLast(q).value);
    } else {
      SextetIs(q[2]);
      SextetIs(q[3]);
      JoinCuts(Sextet(q[0]).value, Sextet(q[1]).value, Sextet(q[2]).value, Sextet(q[3]).value);
    }
  }

  lemma LastPair(q: bytes, p: bytes)
    requires |q| <= 4 && Symbols(q) == Some(2) && DecodeLast(q) == Some(p)
    requires Symbol(Sextet(q[0]).value) == q[0] && Symbol(Sextet(q[1]).value) == q[1]
    ensures |p| == 1 && Unpads(q, EncodeGroup(p))
  {
    hide Symbol, Sextet;
    CutPair(Sextet(q[0]).value, Sextet(q[1]).value);
  }

  lemma CutPair(s0: sextet, s1: sextet)
    ensures var a := s0 as int * 4 + s1 as int / 16; a / 4 == s0 && (s1 as int % 16 == 0 ==> a % 4 * 16 == s1)
  {
  }

  lemma LastTriple(q: bytes, p: bytes)
    requires |q| <= 4 && Symbols(q) == Some(3) && DecodeLast(q) == Some(p)
    requires Symbol(Sextet(q[0]).value) == q[0] && Symbol(Sextet(q[1]).value) == q[1]
    requires Symbol(Sextet(q[2]).value) == q[2]
    ensures |p| == 2 && Unpads(q, EncodeGroup(p))
  {
    hide Symbol, Sextet;
    CutMore(Sextet(q[0]).value, Sextet(q[1]).value, Sextet(q[2]).value, 0);
  }

  /** Sextets packed into bytes and cut out again. */
  lemma CutMore(s0: int, s1: int, s2: int, s3: int)
    requires 0 <= s0 < 64 && 0 <= s1 < 64 && 0 <= s2 < 64 && 0 <= s3 < 64
    ensures var a, b, c := s0 * 4 + s1 / 16, s1 % 16 * 16 + s2 / 4, s2 % 4 * 64 + s3;
      && a / 4 == s0 && a % 4 * 16 + b / 16 == s1 && b % 16 * 4 + c / 64 == s2 && c % 64 == s3
      && (s2 % 4 == 0 ==> b % 16 * 4 == s2)
  {
  }

  lemma SextetIs(c: byte)
    requires Sextet(c).Some?
    ensures Symbol(Sextet(c).value) == c
  {
  }

  /** Four sextets joined into three bytes and cut again are the same four. */
  lemma JoinCuts(s0: sextet, s1: sextet, s2: sextet, s3: sextet)
    ensures var p := Join(s0, s1, s2, s3);
      |p| == 3 && EncodeGroup(p) == [Symbol(s0), Symbol(s1), Symbol(s2), Symbol(s3)]
  {
    hide Symbol;
    CutMore(s0, s1, s2, s3);
  }

  /** Only encoded text decodes, with some or none of its trailing padding left off. */
  lemma {:induction false} DecodesOnlyEncoded(b: bytes)
    requires Decode(b).Some?
    ensures Unpads(b, Encode(Decode(b).value))
  {
    if b != [] && |b| <= 4 {
      LastIsGroup(b);
    } else if |b| > 4 {
      DecodesOnlyEncoded(b[4..]);
      var rest := Decode(b[4..]).value;
      FirstFour(b);
      var g := Decode(b).value[..3];
      assert Decode(b).value[3..] == rest;
      assert rest != [];
      assert Encode(Decode(b).value) == EncodeGroup(g) + Encode(rest);
      assert b == EncodeGroup(g) + b[4..];
    }
  }

  lemma FirstFour(b: bytes)
    requires |b| > 4 && Decode(b).Some?
    ensures Decode(b[4..]).Some? && Decode(b[4..]).value != []
    ensures var p := Decode(b).value; |p| >= 3 && p[3..] == Decode(b[4..]).value && EncodeGroup(p[..3]) == b[..4]
  {
    SextetIs(b[0]);
    SextetIs(b[1]);
    SextetIs(b[2]);
    SextetIs(b[3]);
    var s0, s1, s2, s3 := Sextet(b[0]).value, Sextet(b[1]).value, Sextet(b[2]).value, Sextet(b[3]).value;
    JoinCuts(s0, s1, s2, s3);
    var p := Decode(b).value;
    assert p == Join(s0, s1, s2, s3) + Decode(b[4..]).value;
    assert p[..3] == Join(s0, s1, s2, s3);
    NotEmpty(b[4..]);
  }

  lemma NotEmpty(b: bytes)
    requires b != [] && Decode(b).Some?
    ensures Decode(b).value != []
  {
  }

  /** Exactly which texts decode, and to what. */
  lemma DecodeIff(b: bytes, p: bytes)
    ensures Decode(b) == Some(p) <==> Unpads(b, Encode(p))
  {
    if Decode(b) == Some(p) {
      DecodesOnlyEncoded(b);
    }
    if Unpads(b, Encode(p)) {
      DecodesUnpadded(p, |b|);
    }
  }

  /** A byte that is neither a letter of the alphabet nor padding spoils the whole text. */
  lemma StrangerRefused(b: bytes, c: byte)
    requires c in b && c != PAD && forall v: sextet :: c != Letter(v) as int
    ensures Decode(b).None?
  {
    if Sextet(c).Some? {
      SextetIff(c, Sextet(c).value);
    }
  }
}
