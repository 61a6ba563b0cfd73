/** Base64 with the standard alphabet (section 4 of RFC 4648). The encoder
    pads; the decoder does not care whether the padding is there, but refuses
    a byte outside the alphabet, padding anywhere but at the end, a lone
    trailing symbol, and non-zero bits after the last whole byte. */
module Base64 {
  import opened Bytes

  const PAD: byte := 0x3D

  type sextet = v: int | 0 <= v < 64

  function Symbol(v: sextet): (c: byte)
    ensures !IsSpace(c) && c != PAD && c != LT
  {
    if v < 26 then v + 65
    else if v < 52 then v + 71
    else if v < 62 then v - 4
    else if v == 62 then 0x2B
    else 0x2F
  }

  function Sextet(c: byte): Option<sextet> {
    if 65 <= c <= 90 then Some(c - 65)
    else if 97 <= c <= 122 then Some(c - 71)
    else if 48 <= c <= 57 then Some(c + 4)
    else if c == 0x2B then Some(62)
    else if c == 0x2F then Some(63)
    else None
  }

  lemma SextetOfSymbol(v: sextet)
    ensures Sextet(Symbol(v)) == Some(v)
  {
  }

  /** The text of one, two or three bytes, padded to four symbols. */
  function EncodeGroup(p: bytes): (r: bytes)
    requires 1 <= |p| <= 3
    ensures |r| == 4
  {
    var a := p[0];
    if |p| == 1 then
      [Symbol(a / 4), Symbol(a % 4 * 16), PAD, PAD]
    else
      var b := p[1];
      if |p| == 2 then
        [Symbol(a / 4), Symbol(a % 4 * 16 + b / 16), Symbol(b % 16 * 4), PAD]
      else
        var c := p[2];
        [Symbol(a / 4), Symbol(a % 4 * 16 + b / 16), Symbol(b % 16 * 4 + c / 64), Symbol(c % 64)]
  }

  function Encode(p: bytes): (r: bytes)
    ensures |r| == (|p| + 2) / 3 * 4
    ensures forall c :: c in r ==> !IsSpace(c) && c != LT
  {
    if p == [] then []
    else if |p| <= 3 then EncodeGroup(p)
    else EncodeGroup(p[..3]) + Encode(p[3..])
  }

  /** How many symbols come before the padding, when what follows them is all padding. */
  function Symbols(q: bytes): (r: Option<nat>)
    ensures r.Some? ==> r.value <= |q|
    ensures r.Some? ==> forall k :: 0 <= k < r.value ==> Sextet(q[k]).Some?
    ensures r.Some? ==> forall k :: r.value <= k < |q| ==> q[k] == PAD
  {
    if q == [] then Some(0)
    else if q[0] == PAD then
      if forall k :: 0 <= k < |q| ==> q[k] == PAD then Some(0) else None
    else if Sextet(q[0]).None? then None
    else match Symbols(q[1..]) case None => None case Some(n) => Some(n + 1)
  }

  /** The last group: two to four symbols, with or without padding after them. */
  function DecodeLast(q: bytes): (r: Option<bytes>)
    requires |q| <= 4
    ensures r.Some? ==> forall c :: c in q ==> c == PAD || Sextet(c).Some?
  {
    match Symbols(q)
    case None => None
    case Some(n) =>
      if n < 2 then None
      else
        var s0, s1 := Sextet(q[0]).value, Sextet(q[1]).value;
        if n == 2 then
          if s1 % 16 != 0 then None else Some([s0 * 4 + s1 / 16])
        else
          var s2 := Sextet(q[2]).value;
          if n == 3 then
            if s2 % 4 != 0 then None else Some([s0 * 4 + s1 / 16, s1 % 16 * 16 + s2 / 4])
          else
            Some(Join(s0, s1, s2, Sextet(q[3]).value))
  }

  function Join(s0: sextet, s1: sextet, s2: sextet, s3: sextet): bytes {
    [s0 * 4 + s1 / 16, s1 % 16 * 16 + s2 / 4, s2 % 4 * 64 + s3]
  }

  function Decode(b: bytes): (r: Option<bytes>)
    ensures r.Some? ==> forall c :: c in b ==> c == PAD || Sextet(c).Some?
  {
    if b == [] then Some([])
    else if |b| <= 4 then DecodeLast(b)
    else
      var s0, s1, s2, s3 := Sextet(b[0]), Sextet(b[1]), Sextet(b[2]), Sextet(b[3]);
      if s0.None? || s1.None? || s2.None? || s3.None? then None
      else
        assert b == [b[0], b[1], b[2], b[3]] + b[4..];
        match Decode(b[4..])
        case None => None
        case Some(rest) => Some(Join(s0.value, s1.value, s2.value, s3.value) + rest)
  }

  lemma SymbolsIs(q: bytes, n: nat)
    requires n <= |q|
    requires forall k :: 0 <= k < n ==> Sextet(q[k]).Some?
    requires forall k :: n <= k < |q| ==> q[k] == PAD
    ensures Symbols(q) == Some(n)
  {
    if n > 0 {
      SymbolsIs(q[1..], n - 1);
    }
  }

  lemma DecodeGroup(p: bytes)
    requires 1 <= |p| <= 3
    ensures DecodeLast(EncodeGroup(p)) == Some(p)
  {
    if |p| == 1 {
      assert p == [p[0]];
      DecodeSingle(p[0]);
    } else if |p| == 2 {
      assert p == [p[0], p[1]];
      DecodePair(p[0], p[1]);
    } else {
      assert p == [p[0], p[1], p[2]];
      DecodeTriple(p[0], p[1], p[2]);
    }
  }

  lemma DecodeSingle(a: byte)
    ensures DecodeLast(EncodeGroup([a])) == Some([a])
  {
    SymbolsIs(EncodeGroup([a]), 2);
    CutJoins(a, 0, 0);
    SextetOfSymbol(a / 4);
    SextetOfSymbol(a % 4 * 16);
  }

  lemma DecodePair(a: byte, b: byte)
    ensures DecodeLast(EncodeGroup([a, b])) == Some([a, b])
  {
    SymbolsIs(EncodeGroup([a, b]), 3);
    CutJoins(a, b, 0);
    SextetOfSymbol(a / 4);
    SextetOfSymbol(a % 4 * 16 + b / 16);
    SextetOfSymbol(b % 16 * 4);
  }

  lemma DecodeTriple(a: byte, b: byte, c: byte)
    ensures DecodeLast(EncodeGroup([a, b, c])) == Some([a, b, c])
  {
    var q := EncodeGroup([a, b, c]);
    SymbolsIs(q, 4);
    CutJoins(a, b, c);
    SextetOfSymbol(a / 4);
    SextetOfSymbol(a % 4 * 16 + b / 16);
    SextetOfSymbol(b % 16 * 4 + c / 64);
    SextetOfSymbol(c % 64);
  }

  /** Three bytes cut into sextets and joined again are the same three bytes. */
  lemma CutJoins(a: byte, b: byte, c: byte)
    ensures a / 4 * 4 + (a % 4 * 16 + b / 16) / 16 == a
    ensures (a % 4 * 16 + b / 16) % 16 * 16 + (b % 16 * 4 + c / 64) / 4 == b
    ensures (b % 16 * 4 + c / 64) % 4 * 64 + c % 64 == c
  {
  }

  /** Decoding undoes encoding, for every byte string. */
  lemma {:induction false} RoundTrip(p: bytes)
    ensures Decode(Encode(p)) == Some(p)
  {
    if p != [] && |p| <= 3 {
      DecodeGroup(p);
    } else if |p| > 3 {
      RoundTrip(p[3..]);
      DecodeStep(p[..3], Encode(p[3..]), p[3..]);
      assert p == p[..3] + p[3..];
    }
  }

  lemma DecodeStep(g: bytes, rest: bytes, tail: bytes)
    requires |g| == 3 && rest != [] && Decode(rest) == Some(tail)
    ensures Decode(EncodeGroup(g) + rest) == Some(g + tail)
  {
    var q := EncodeGroup(g);
    var b := q + rest;
    assert b[4..] == rest;
    assert b[0] == q[0] && b[1] == q[1] && b[2] == q[2] && b[3] == q[3];
    DecodeGroup(g);
    SymbolsIs(q, 4);
    assert Decode(b) == Some(DecodeLast(q).value + tail);
  }

  /** Padding is never needed: taking the last padding byte off text that decodes,
      padded in full or not, changes nothing. */
  lemma {:induction false} PaddingIsOptional(b: bytes)
    requires b != [] && b[|b| - 1] == PAD && Decode(b).Some?
    ensures Decode(b[..|b| - 1]) == Decode(b)
  {
    var c := b[..|b| - 1];
    if |b| <= 4 {
      SymbolsIs(c, Symbols(b).value);
    } else {
      PaddingIsOptional(b[4..]);
      assert c[4..] == b[4..][..|b[4..]| - 1];
    }
  }

  /** An encoded payload decodes however much of its trailing padding is left off. */
  lemma {:induction false} DecodesUnpadded(p: bytes, n: nat)
    requires n <= |Encode(p)| && forall k :: n <= k < |Encode(p)| ==> Encode(p)[k] == PAD
    ensures Decode(Encode(p)[..n]) == Some(p)
    decreases |Encode(p)| - n
  {
    var e := Encode(p);
    if n == |e| {
      RoundTrip(p);
      assert e[..n] == e;
    } else {
      DecodesUnpadded(p, n + 1);
      PaddingIsOptional(e[..n + 1]);
      assert e[..n + 1][..n] == e[..n];
    }
  }
}
