/** The PNG checksum: the table-driven form, and the bit-serial definition it
    must agree with (section 3.4 of RFC 2083). */
module Crc {
  type word = bv32

  const ONES: word := 0xFFFF_FFFF

  // --- word operations, named so that proofs can reason about them as algebra -------

  function Xor(x: word, y: word): word { x ^ y }
  function Half(x: word): word { x >> 1 }
  predicate Odd(x: word) { x & 1 != 0 }
  function LowByte(x: word): word { x & 0xFF }
  function Feedback(x: word): word { 0xEDB8_8320 ^ x }

  lemma HalfXor(x: word, y: word)
    ensures Half(Xor(x, y)) == Xor(Half(x), Half(y))
  {
  }

  lemma OddXor(x: word, y: word)
    ensures Odd(Xor(x, y)) == (Odd(x) != Odd(y))
  {
    assert (x ^ y) & 1 == (x & 1) ^ (y & 1);
    assert x & 1 == 0 || x & 1 == 1;
    assert y & 1 == 0 || y & 1 == 1;
  }

  lemma FeedbackXor(a: word, b: word)
    ensures Xor(Feedback(a), b) == Feedback(Xor(a, b))
  {
  }

  lemma FeedbackTwice(a: word)
    ensures Feedback(Feedback(a)) == a
  {
  }

  lemma XorCommutes(a: word, b: word)
    ensures Xor(a, b) == Xor(b, a)
  {
  }

  lemma XorAssociates(a: word, b: word, c: word)
    ensures Xor(Xor(a, b), c) == Xor(a, Xor(b, c))
  {
  }

  // --- the definition: one data bit at a time, least significant first ------------

  /** Shift the register by one bit, feeding back the polynomial when a one falls out. */
  function Shift(c: word): word {
    if Odd(c) then Feedback(Half(c)) else Half(c)
  }

  /** Take in the n low bits of b, least significant first. */
  function TakeBits(c: word, b: word, n: nat): word
    decreases n
  {
    if n == 0 then c else TakeBits(Shift(Xor(c, b & 1)), Half(b), n - 1)
  }

  function TakeBytes(c: word, data: seq<bv8>): word {
    if data == [] then c else TakeBits(TakeBytes(c, data[..|data| - 1]), data[|data| - 1] as word, 8)
  }

  function Checksum(data: seq<bv8>): word {
    Xor(TakeBytes(ONES, data), ONES)
  }

  // --- linearity -------------------------------------------------------------------

  function Shifts(c: word, n: nat): word
    decreases n
  {
    if n == 0 then c else Shifts(Shift(c), n - 1)
  }

  lemma ShiftLinear(x: word, y: word)
    ensures Shift(Xor(x, y)) == Xor(Shift(x), Shift(y))
  {
    hide Xor, Half, Odd, Feedback;
    var a, b := Half(x), Half(y);
    HalfXor(x, y);
    OddXor(x, y);
    XorCommutes(a, b);
    FeedbackXor(a, b);
    FeedbackXor(b, a);
    XorCommutes(a, Feedback(b));
    FeedbackXor(a, Feedback(b));
    FeedbackTwice(Xor(a, b));
  }

  lemma {:induction false} ShiftsLinear(x: word, y: word, n: nat)
    ensures Shifts(Xor(x, y), n) == Xor(Shifts(x, n), Shifts(y, n))
    decreases n
  {
    hide Xor, Shift;
    if n > 0 {
      ShiftLinear(x, y);
      ShiftsLinear(Shift(x), Shift(y), n - 1);
    }
  }

  /** b has no bits above the lowest n. */
  predicate Fits(b: word, n: nat)
    decreases n
  {
    if n == 0 then b == 0 else Fits(Half(b), n - 1)
  }

  lemma XorZero(c: word)
    ensures Xor(c, 0) == c
  {
  }

  /** The bits above the lowest one commute with a shift. */
  lemma LowBitFirst(c: word, b: word)
    ensures Shift(Xor(c, b)) == Xor(Shift(Xor(c, b & 1)), Half(b))
  {
    hide Xor, Half, Odd, Feedback, Shift;
    var low, high := b & 1, b & 0xFFFF_FFFE;
    SplitLow(b);
    XorAssociates(c, low, high);
    ShiftLinear(Xor(c, low), high);
    ShiftEven(b);
  }

  lemma SplitLow(b: word)
    ensures b == Xor(b & 1, b & 0xFFFF_FFFE)
  {
  }

  lemma ShiftEven(b: word)
    ensures Shift(b & 0xFFFF_FFFE) == Half(b)
  {
    hide Feedback;
    assert (b & 0xFFFF_FFFE) & 1 == 0;
    assert (b & 0xFFFF_FFFE) >> 1 == b >> 1;
  }

  /** Mixing a whole byte into the register at once is taking its bits in one by one. */
  lemma {:induction false} TakeBitsAtOnce(c: word, b: word, n: nat)
    requires Fits(b, n)
    ensures TakeBits(c, b, n) == Shifts(Xor(c, b), n)
    decreases n
  {
    hide Xor, Half, Shift;
    if n == 0 {
      XorZero(c);
    } else {
      LowBitFirst(c, b);
      TakeBitsAtOnce(Shift(Xor(c, b & 1)), Half(b), n - 1);
    }
  }

  /** No bits above the lowest n, said by halving n times. */
  lemma {:induction false} FitsDown(b: word, n: nat)
    ensures Fits(b, n) <==> Down(b, n) == 0
    decreases n
  {
    hide Half;
    if n > 0 {
      FitsDown(Half(b), n - 1);
      DownFirst(b, n - 1);
    }
  }

  lemma {:induction false} DownFirst(b: word, n: nat)
    ensures Down(Half(b), n) == Down(b, n + 1)
    decreases n
  {
    hide Half;
    if n > 0 {
      DownFirst(b, n - 1);
    }
  }

  lemma ByteFits(b: bv8)
    ensures Fits(b as word, 8)
  {
    hide Fits, Down;
    FitsDown(b as word, 8);
    DownIs(b as word);
    assert (b as word) >> 8 == 0;
  }

  lemma {:induction false} ShiftsUnfold(c: word)
    ensures Shifts(c, 8) == Shift(Shift(Shift(Shift(Shift(Shift(Shift(Shift(c))))))))
  {
    hide Shift;
    var c4 := Shift(Shift(Shift(Shift(c))));
    assert Shifts(c, 8) == Shifts(Shift(Shift(c)), 6) == Shifts(c4, 4);
    assert Shifts(c4, 4) == Shifts(Shift(Shift(c4)), 2);
  }

  function HighBits(x: word): word { x & 0xFFFF_FF00 }

  function Down(x: word, k: nat): word
    decreases k
  {
    if k == 0 then x else Half(Down(x, k - 1))
  }

  lemma HalfOf(h: word)
    ensures Half(h) == h >> 1 && Half(h >> 1) == h >> 2 && Half(h >> 2) == h >> 3
    ensures Half(h >> 3) == h >> 4 && Half(h >> 4) == h >> 5 && Half(h >> 5) == h >> 6
    ensures Half(h >> 6) == h >> 7 && Half(h >> 7) == h >> 8
  {
    assert (h >> 1) >> 1 == h >> 2;
    assert (h >> 2) >> 1 == h >> 3;
    assert (h >> 3) >> 1 == h >> 4;
    assert (h >> 4) >> 1 == h >> 5;
    assert (h >> 5) >> 1 == h >> 6;
    assert (h >> 6) >> 1 == h >> 7;
    assert (h >> 7) >> 1 == h >> 8;
  }

  lemma DownIs(h: word)
    ensures Down(h, 0) == h && Down(h, 1) == h >> 1 && Down(h, 2) == h >> 2
    ensures Down(h, 3) == h >> 3 && Down(h, 4) == h >> 4 && Down(h, 5) == h >> 5
    ensures Down(h, 6) == h >> 6 && Down(h, 7) == h >> 7 && Down(h, 8) == h >> 8
  {
    hide Half, Down;
    HalfOf(h);
    DownUnfold(h, 1);
    DownUnfold(h, 2);
    DownUnfold(h, 3);
    DownUnfold(h, 4);
    DownUnfold(h, 5);
    DownUnfold(h, 6);
    DownUnfold(h, 7);
    DownUnfold(h, 8);
  }

  lemma DownUnfold(h: word, k: nat)
    ensures Down(h, 0) == h
    ensures k > 0 ==> Down(h, k) == Half(Down(h, k - 1))
  {
    hide Half;
  }

  lemma DownEven(x: word, k: nat)
    requires k < 8
    ensures !Odd(Down(HighBits(x), k))
  {
    hide Down;
    DownIs(HighBits(x));
    if k == 0 { assert ((x & 0xFFFF_FF00) >> 0) & 1 == 0; }
    else if k == 1 { assert ((x & 0xFFFF_FF00) >> 1) & 1 == 0; }
    else if k == 2 { assert ((x & 0xFFFF_FF00) >> 2) & 1 == 0; }
    else if k == 3 { assert ((x & 0xFFFF_FF00) >> 3) & 1 == 0; }
    else if k == 4 { assert ((x & 0xFFFF_FF00) >> 4) & 1 == 0; }
    else if k == 5 { assert ((x & 0xFFFF_FF00) >> 5) & 1 == 0; }
    else if k == 6 { assert ((x & 0xFFFF_FF00) >> 6) & 1 == 0; }
    else { assert ((x & 0xFFFF_FF00) >> 7) & 1 == 0; }
  }

  lemma DownShift(x: word, k: nat)
    requires k < 8
    ensures Shift(Down(HighBits(x), k)) == Down(HighBits(x), k + 1)
  {
    hide Down, Half, Odd, Feedback, HighBits;
    DownUnfold(HighBits(x), k + 1);
    DownEven(x, k);
  }

  lemma DownEnds(x: word)
    ensures Down(HighBits(x), 0) == HighBits(x) && Down(HighBits(x), 8) == x >> 8
  {
    hide Down;
    DownIs(HighBits(x));
    assert (x & 0xFFFF_FF00) >> 8 == x >> 8;
  }

  /** Eight shifts only move down the bits above the lowest eight. */
  lemma HighBitsMove(x: word)
    ensures Shifts(HighBits(x), 8) == x >> 8
  {
    hide Shift, Down, HighBits;
    DownEnds(x);
    ShiftsUnfold(HighBits(x));
    DownShift(x, 0);
    DownShift(x, 1);
    DownShift(x, 2);
    DownShift(x, 3);
    DownShift(x, 4);
    DownShift(x, 5);
    DownShift(x, 6);
    DownShift(x, 7);
  }

  lemma SplitByte(x: word)
    ensures x == Xor(LowByte(x), HighBits(x))
  {
  }

  /** The table step: eight shifts, done by one lookup on the low byte. */
  lemma LookupStep(x: word)
    ensures Shifts(x, 8) == Xor(Shifts(LowByte(x), 8), x >> 8)
  {
    hide Xor, Shift, LowByte, HighBits;
    SplitByte(x);
    ShiftsLinear(LowByte(x), HighBits(x), 8);
    HighBitsMove(x);
  }

  lemma HighOfMixed(c: word, b: bv8)
    ensures Xor(c, b as word) >> 8 == c >> 8
  {
    assert (b as word) >> 8 == 0;
    assert (c ^ (b as word)) >> 8 == (c >> 8) ^ ((b as word) >> 8);
  }

  /** Taking a byte bit by bit is one lookup at the mixed low byte. */
  lemma TakeByteByLookup(c: word, b: bv8)
    ensures TakeBits(c, b as word, 8) == Xor(Shifts(LowByte(Xor(c, b as word)), 8), c >> 8)
  {
    hide Xor, Shift, LowByte, Shifts, TakeBits, Fits;
    ByteFits(b);
    TakeBitsAtOnce(c, b as word, 8);
    LookupStep(Xor(c, b as word));
    HighOfMixed(c, b);
  }

  // --- the table-driven loop ----------------------------------------------------------

  /** table[i] is eight shifts of i, for the first n entries. */
  ghost predicate TableUpTo(table: seq<word>, n: nat) {
    |table| == 256 && n <= 256 && forall i | 0 <= i < n :: table[i] == Shifts(i as word, 8)
  }

  lemma ByteIndex(x: word)
    ensures (LowByte(x) as int) < 256
    ensures LowByte(x) as int as word == LowByte(x)
  {
  }

  lemma LookUp(table: seq<word>, x: word)
    requires TableUpTo(table, 256)
    ensures (LowByte(x) as int) < 256
    ensures table[LowByte(x) as int] == Shifts(LowByte(x), 8)
  {
    hide LowByte, Shifts;
    ByteIndex(x);
  }

  method FillTable(table: array<word>)
    requires table.Length == 256
    modifies table
    ensures TableUpTo(table[..], 256)
  {
    hide Shifts, Shift;
    var i := 0;
    while i < 256
      invariant 0 <= i <= 256
      invariant TableUpTo(table[..], i)
    {
      var entry := ShiftByte(i as word);
      table[i] := entry;
      TableGrows(table[..], i);
      i := i + 1;
    }
  }

  lemma TableGrows(table: seq<word>, n: nat)
    requires n < 256 && TableUpTo(table, n)
    requires table[n] == Shifts(n as word, 8)
    ensures TableUpTo(table, n + 1)
  {
    hide Shifts;
  }

  /** The inner loop: eight conditional shifts. */
  method ShiftByte(start: word) returns (c: word)
    ensures c == Shifts(start, 8)
  {
    hide Shifts, Shift;
    c := start;
    var k := 0;
    while k < 8
      invariant 0 <= k <= 8
      invariant Shifts(c, 8 - k) == Shifts(start, 8)
    {
      ShiftsStep(c, 8 - k);
      ShiftCode(c);
      c := if c & 1 != 0 then 0xEDB8_8320 ^ (c >> 1) else c >> 1;
      k := k + 1;
    }
    ShiftsNone(c);
  }

  lemma ShiftsStep(c: word, n: nat)
    requires n > 0
    ensures Shifts(c, n) == Shifts(Shift(c), n - 1)
  {
  }

  lemma ShiftsNone(c: word)
    ensures Shifts(c, 0) == c
  {
  }

  lemma ShiftCode(c: word)
    ensures Shift(c) == if c & 1 != 0 then 0xEDB8_8320 ^ (c >> 1) else c >> 1
  {
  }

  lemma TakeBytesSnoc(c: word, data: seq<bv8>, b: bv8)
    ensures TakeBytes(c, data + [b]) == TakeBits(TakeBytes(c, data), b as word, 8)
  {
    hide TakeBits;
    assert (data + [b])[..|data|] == data;
  }

  method Crc32(data: seq<bv8>) returns (crc: word)
    ensures crc == Checksum(data)
  {
    hide TakeBytes, TakeBits, Xor, LowByte, Shifts;
    var table := new word[256](_ => 0);
    FillTable(table);
    crc := ONES;
    NoBytes();
    for n := 0 to |data|
      invariant TableUpTo(table[..], 256)
      invariant crc == TakeBytes(ONES, data[..n])
    {
      assert data[..n + 1] == data[..n] + [data[n]];
      TakeBytesSnoc(ONES, data[..n], data[n]);
      TakeByteByLookup(crc, data[n]);
      LookUp(table[..], Xor(crc, data[n] as word));
      crc := Xor(table[LowByte(Xor(crc, data[n] as word)) as int], crc >> 8);
    }
    assert data[..|data|] == data;
    crc := Xor(crc, ONES);
  }

  lemma NoBytes()
    ensures TakeBytes(ONES, []) == ONES
  {
  }

  // --- the published check value -----------------------------------------------------

  /** Eight shifts of a register, one after the other. */
  predicate EightShifts(s: seq<word>) {
    |s| == 9 && forall i | 0 <= i < 8 :: s[i + 1] == Shift(s[i])
  }

  lemma {:induction false} ShiftsAlong(s: seq<word>, k: nat)
    requires EightShifts(s) && k <= 8
    ensures Shifts(s[k], 8 - k) == s[8]
    decreases 8 - k
  {
    hide Shift;
    if k < 8 {
      ShiftsAlong(s, k + 1);
    }
  }

  lemma EightShiftsAre(s: seq<word>)
    requires EightShifts(s)
    ensures Shifts(s[0], 8) == s[8]
  {
    ShiftsAlong(s, 0);
  }

  lemma ByteTaken(c: word, b: bv8, s: seq<word>)
    requires EightShifts(s) && s[0] == Xor(c, b as word)
    ensures TakeBits(c, b as word, 8) == s[8]
  {
    hide Shift, Xor;
    EightShiftsAre(s);
    ByteFits(b);
    TakeBitsAtOnce(c, b as word, 8);
  }

  lemma DigitTaken(d: seq<bv8>, k: nat, s: seq<word>)
    requires k < |d| && EightShifts(s) && s[0] == Xor(TakeBytes(ONES, d[..k]), d[k] as word)
    ensures TakeBytes(ONES, d[..k + 1]) == s[8]
  {
    hide Shift, Xor;
    ByteTaken(TakeBytes(ONES, d[..k]), d[k], s);
    assert d[..k + 1] == d[..k] + [d[k]];
    TakeBytesSnoc(ONES, d[..k], d[k]);
  }

  const DIGITS: seq<bv8> := [0x31, 0x32, 0x33, 0x34, 0x35, 0x36, 0x37, 0x38, 0x39]

  lemma TwoDigits()
    ensures TakeBytes(ONES, DIGITS[..2]) == 0xB0AC_BB32
  {
    hide TakeBytes;
    NoBytes();
    assert DIGITS[..0] == [];
    DigitTaken(DIGITS, 0, [0xFFFF_FFCE, 0x7FFF_FFE7, 0xD247_7CD3, 0x849B_3D49, 0xAFF5_1D84,
                           0x57FA_8EC2, 0x2BFD_4761, 0xF846_2090, 0x7C23_1048]);
    DigitTaken(DIGITS, 1, [0x7C23_107A, 0x3E11_883D, 0xF2B0_473E, 0x7958_239F, 0xD114_92EF,
                           0x8532_CA57, 0xAF21_E60B, 0xBA28_7025, 0xB0AC_BB32]);
  }

  lemma FourDigits()
    ensures TakeBytes(ONES, DIGITS[..4]) == 0x641C_1F5C
  {
    hide TakeBytes;
    TwoDigits();
    DigitTaken(DIGITS, 2, [0xB0AC_BB01, 0xB5EE_DEA0, 0x5AF7_6F50, 0x2D7B_B7A8, 0x16BD_DBD4,
                           0x0B5E_EDEA, 0x05AF_76F5, 0xEF6F_385A, 0x77B7_9C2D]);
    DigitTaken(DIGITS, 3, [0x77B7_9C19, 0xD663_4D2C, 0x6B31_A696, 0x3598_D34B, 0xF774_EA85,
                           0x9602_F662, 0x4B01_7B31, 0xC838_3EB8, 0x641C_1F5C]);
  }

  lemma SixDigits()
    ensures TakeBytes(ONES, DIGITS[..6]) == 0xF68D_2C9E
  {
    hide TakeBytes;
    FourDigits();
    DigitTaken(DIGITS, 4, [0x641C_1F69, 0xDFB6_8C94, 0x6FDB_464A, 0x37ED_A325, 0xF64E_52B2,
                           0x7B27_2959, 0xD02B_178C, 0x6815_8BC6, 0x340A_C5E3]);
    DigitTaken(DIGITS, 5, [0x340A_C5D5, 0xF7BD_E1CA, 0x7BDE_F0E5, 0xD057_FB52, 0x682B_FDA9,
                           0xD9AD_7DF4, 0x6CD6_BEFA, 0x366B_5F7D, 0xF68D_2C9E]);
  }

  lemma EightDigits()
    ensures TakeBytes(ONES, DIGITS[..8]) == 0x651F_2550
  {
    hide TakeBytes;
    SixDigits();
    DigitTaken(DIGITS, 6, [0xF68D_2CA9, 0x96FE_1574, 0x4B7F_0ABA, 0x25BF_855D, 0xFF67_418E,
                           0x7FB3_A0C7, 0xD261_5343, 0x8488_2A81, 0xAFFC_9660]);
    DigitTaken(DIGITS, 7, [0xAFFC_9658, 0x57FE_4B2C, 0x2BFF_2596, 0x15FF_92CB, 0xE747_4A45,
                           0x9E1B_2602, 0x4F0D_9301, 0xCA3E_4AA0, 0x651F_2550]);
  }

  /** The value every implementation is checked against: that of the digits 1 to 9. */
  lemma CheckValue()
    ensures Checksum([0x31, 0x32, 0x33, 0x34, 0x35, 0x36, 0x37, 0x38, 0x39]) == 0xCBF4_3926
  {
    hide TakeBytes;
    EightDigits();
    DigitTaken(DIGITS, 8, [0x651F_2569, 0xDF37_1194, 0x6F9B_88CA, 0x37CD_C465, 0xF65E_6112,
                           0x7B2F_3089, 0xD02F_1B64, 0x6817_8DB2, 0x340B_C6D9]);
    assert DIGITS[..9] == DIGITS;
  }
}
