/** The zlib stream a PNG carries: stored deflate blocks between a two-byte
    header and an Adler-32 trailer. The writer grows the stream block by block; the
    reader is the format's own definition (section 3.2.4 of RFC 1951, sections 2.2 and 8.2
    of RFC 1950), and what is proved is that it gives the raw bytes back. */
module Zlib {
  import opened Bytes

  const BLOCK: nat := 65_535
  const MODULUS: nat := 65_521

  // --- reading, as the format defines it ---------------------------------------------

  datatype Inflated = Inflated(data: bytes, rest: bytes, blocks: nat)

  /** A sixteen-bit number from its two bytes. */
  function Pair(low: int, high: int): int {
    low + 256 * high
  }

  /** Read blocks up to and including the first final one. A block that is not
      stored, whose length fails its complement, or that is cut short is an error. */
  function Inflate(s: bytes): Option<Inflated> {
    if |s| < 5 || s[0] / 2 % 4 != 0 then None
    else
      var len := Pair(s[1], s[2]);
      if Pair(s[3], s[4]) != 65_535 - len || |s| < 5 + len then None
      else if s[0] % 2 == 1 then Some(Inflated(s[5..5 + len], s[5 + len..], 1))
      else match Inflate(s[5 + len..])
        case None => None
        case Some(more) => Some(Inflated(s[5..5 + len] + more.data, more.rest, more.blocks + 1))
  }

  function Sum(data: bytes): nat {
    if data == [] then 0 else Sum(data[..|data| - 1]) + data[|data| - 1]
  }

  /** The sum, over every non-empty prefix, of one plus the prefix's bytes. */
  function SumOfSums(data: bytes): nat {
    if data == [] then 0 else SumOfSums(data[..|data| - 1]) + (1 + Sum(data))
  }

  function Adler(data: bytes): nat {
    SumOfSums(data) % MODULUS * 65_536 + (1 + Sum(data)) % MODULUS
  }

  function BigEndian(s: bytes): nat
    requires |s| == 4
  {
    Pair(s[1], s[0]) * 65_536 + Pair(s[3], s[2])
  }

  /** Decode a whole stream: a deflate header with a valid check and no preset
      dictionary, the blocks, then nothing but the matching checksum. */
  function Unzlib(s: bytes): Option<bytes> {
    if |s| < 2 || s[0] % 16 != 8 || Pair(s[1], s[0]) % 31 != 0 || s[1] / 32 % 2 != 0 then None
    else match Inflate(s[2..])
      case None => None
      case Some(i) =>
        if |i.rest| == 4 && BigEndian(i.rest) == Adler(i.data) then Some(i.data) else None
  }

  // --- writing ------------------------------------------------------------------------

  function StoredBlock(last: bool, block: bytes): bytes
    requires |block| <= BLOCK
  {
    var len := |block|;
    [if last then 1 else 0, len % 256, len / 256, (65_535 - len) % 256, (65_535 - len) / 256] + block
  }

  lemma BlockHeader(last: bool, block: bytes, rest: bytes)
    requires |block| <= BLOCK
    ensures var s := StoredBlock(last, block) + rest;
      && |s| >= 5 + |block|
      && s[0] == (if last then 1 else 0)
      && Pair(s[1], s[2]) == |block| && Pair(s[3], s[4]) == 65_535 - |block|
  {
  }

  lemma BlockBody(last: bool, block: bytes, rest: bytes)
    requires |block| <= BLOCK
    ensures var s := StoredBlock(last, block) + rest;
      |s| >= 5 + |block| && s[5..5 + |block|] == block && s[5 + |block|..] == rest
  {
  }

  lemma BlockReads(last: bool, block: bytes, rest: bytes)
    requires |block| <= BLOCK
    ensures Inflate(StoredBlock(last, block) + rest) ==
            if last then Some(Inflated(block, rest, 1))
            else match Inflate(rest)
              case None => None
              case Some(more) => Some(Inflated(block + more.data, more.rest, more.blocks + 1))
  {
    hide StoredBlock, Pair;
    BlockHeader(last, block, rest);
    BlockBody(last, block, rest);
  }

  /** The blocks of raw: full ones, then one final block that may be short or empty. */
  function Blocks(raw: bytes): bytes {
    if |raw| <= BLOCK then StoredBlock(true, raw)
    else StoredBlock(false, raw[..BLOCK]) + Blocks(raw[BLOCK..])
  }

  lemma {:induction false} BlocksRead(raw: bytes, rest: bytes)
    ensures Inflate(Blocks(raw) + rest).Some?
    ensures var i := Inflate(Blocks(raw) + rest).value;
      i.data == raw && i.rest == rest &&
      i.blocks == if raw == [] then 1 else (|raw| + BLOCK - 1) / BLOCK
  {
    hide Inflate, StoredBlock;
    if |raw| <= BLOCK {
      BlockReads(true, raw, rest);
    } else {
      var head, tail := raw[..BLOCK], raw[BLOCK..];
      BlocksRead(tail, rest);
      BlockReads(false, head, Blocks(tail) + rest);
      assert Blocks(raw) + rest == StoredBlock(false, head) + (Blocks(tail) + rest);
      assert raw == head + tail;
    }
  }

  method Adler32(data: bytes) returns (r: nat)
    ensures r == Adler(data)
    ensures r < 0x1_0000_0000
  {
    hide Sum, SumOfSums;
    NoSums();
    var a: nat, b: nat := 1, 0;
    for n := 0 to |data|
      invariant a == (1 + Sum(data[..n])) % MODULUS
      invariant b == SumOfSums(data[..n]) % MODULUS
    {
      AdlerStep(data[..n], data[n]);
      assert data[..n + 1] == data[..n] + [data[n]];
      a := (a + data[n] as int) % 65_521;
      b := (b + a) % 65_521;
    }
    assert data[..|data|] == data;
    r := b * 65_536 + a;
  }

  lemma SumsNext(d: bytes, k: nat, sum: nat, sums: nat)
    requires 0 < k <= |d| && Sum(d[..k - 1]) == sum && SumOfSums(d[..k - 1]) == sums
    ensures Sum(d[..k]) == sum + d[k - 1] && SumOfSums(d[..k]) == sums + 1 + sum + d[k - 1]
  {
    assert d[..k][..k - 1] == d[..k - 1];
  }

  /** The worked example the checksum is usually given with: that of "Wikipedia". */
  lemma CheckValue()
    ensures Adler([0x57, 0x69, 0x6B, 0x69, 0x70, 0x65, 0x64, 0x69, 0x61]) == 0x11E6_0398
  {
    var d: bytes := [0x57, 0x69, 0x6B, 0x69, 0x70, 0x65, 0x64, 0x69, 0x61];
    hide Sum, SumOfSums;
    NoSums();
    assert d[..0] == [] && d[..9] == d;
    SumsNext(d, 1, 0, 0);
    SumsNext(d, 2, 87, 88);
    SumsNext(d, 3, 192, 281);
    SumsNext(d, 4, 299, 581);
    SumsNext(d, 5, 404, 986);
    SumsNext(d, 6, 516, 1503);
    SumsNext(d, 7, 617, 2121);
    SumsNext(d, 8, 717, 2839);
    SumsNext(d, 9, 822, 3662);
  }

  /** One turn of the loop, on sums reduced as it goes. */
  lemma AdlerStep(done: bytes, next: byte)
    ensures (1 + Sum(done + [next])) % MODULUS == ((1 + Sum(done)) % MODULUS + next as int) % MODULUS
    ensures SumOfSums(done + [next]) % MODULUS ==
            (SumOfSums(done) % MODULUS + (1 + Sum(done + [next])) % MODULUS) % MODULUS
  {
    assert (done + [next])[..|done|] == done;
    var x: nat, y, z: nat := 1 + Sum(done), SumOfSums(done), 1 + Sum(done + [next]);
    ReducedStep(x, next as int);
    ReducedStep(y, z % MODULUS);
    ReducedRight(y, z);
  }

  lemma NoSums()
    ensures Sum([]) == SumOfSums([]) == 0
  {
  }

  /** Reducing the running value first changes nothing. */
  lemma ReducedStep(x: nat, y: nat)
    ensures (x % MODULUS + y) % MODULUS == (x + y) % MODULUS
  {
    var q := x / MODULUS;
    assert x + y == (x % MODULUS + y) + q * MODULUS;
    SameRemainder(x % MODULUS + y, q);
  }

  lemma ReducedRight(x: nat, y: nat)
    ensures (x + y % MODULUS) % MODULUS == (x + y) % MODULUS
  {
    ReducedStep(y, x);
  }

  lemma SameRemainder(x: nat, q: nat)
    ensures (x + q * MODULUS) % MODULUS == x % MODULUS
  {
    var d := x / MODULUS;
    assert x + q * MODULUS == (d + q) * MODULUS + x % MODULUS;
    RemainderUnique(x + q * MODULUS, d + q, x % MODULUS);
  }

  lemma RemainderUnique(x: nat, q: nat, r: nat)
    requires r < MODULUS && x == q * MODULUS + r
    ensures x % MODULUS == r
  {
  }

  function TwoBytes(x: nat): (r: bytes)
    requires x < 65_536
    ensures |r| == 2 && Pair(r[1], r[0]) == x
  {
    [x / 256, x % 256]
  }

  function FourBytes(x: nat): (r: bytes)
    requires x < 0x1_0000_0000
    ensures |r| == 4 && BigEndian(r) == x
  {
    TwoBytes(x / 65_536) + TwoBytes(x % 65_536)
  }

  const HEADER: bytes := [0x78, 0x01]

  /** What has been written once the first at raw bytes are in blocks. */
  ghost predicate Written(out: bytes, raw: bytes, at: nat)
    requires at <= |raw|
  {
    if at < |raw| then out + Blocks(raw[at..]) == HEADER + Blocks(raw) else out == HEADER + Blocks(raw)
  }

  lemma BlockWritten(out: bytes, raw: bytes, at: nat, end: nat)
    requires at < |raw| && end == if at + BLOCK <= |raw| then at + BLOCK else |raw|
    requires Written(out, raw, at)
    ensures Written(out + StoredBlock(end == |raw|, raw[at..end]), raw, end)
  {
    hide StoredBlock;
    var left := raw[at..];
    if end < |raw| {
      assert left[..BLOCK] == raw[at..end] && left[BLOCK..] == raw[end..];
      assert (out + StoredBlock(false, raw[at..end])) + Blocks(raw[end..]) == out + Blocks(left);
    } else {
      assert left == raw[at..end];
    }
  }

  method ZlibStored(raw: bytes) returns (out: bytes)
    ensures Unzlib(out) == Some(raw)
    ensures out == HEADER + Blocks(raw) + FourBytes(Adler(raw))
    ensures |out| >= 6 && Inflate(out[2..]).Some?
    ensures Inflate(out[2..]).value.blocks == if raw == [] then 1 else (|raw| + BLOCK - 1) / BLOCK
  {
    hide Inflate, Unzlib, Adler, FourBytes, Blocks, StoredBlock, Written;
    out := [0x78, 0x01];
    NothingWritten(raw);
    if raw == [] {
      out := out + [0x01, 0x00, 0x00, 0xFF, 0xFF];
    }
    var at, i := 0, 0;
    while at < |raw|
      invariant at == if i * BLOCK <= |raw| then i * BLOCK else |raw|
      invariant Written(out, raw, at)
      decreases |raw| - at
    {
      var end := if at + BLOCK <= |raw| then at + BLOCK else |raw|;
      var last := (i + 1) * BLOCK >= |raw|;
      BlockWritten(out, raw, at, end);
      out := PushBlock(out, last, raw[at..end]);
      at, i := end, i + 1;
    }
    AllWritten(out, raw);
    var sum := Adler32(raw);
    StreamReads(raw, sum);
    out := out + FourBytes(sum);
  }

  lemma StreamReads(raw: bytes, sum: nat)
    requires sum == Adler(raw) && sum < 0x1_0000_0000
    ensures var out := HEADER + Blocks(raw) + FourBytes(sum);
      && |out| >= 6 && Unzlib(out) == Some(raw) && Inflate(out[2..]).Some?
      && Inflate(out[2..]).value.blocks == if raw == [] then 1 else (|raw| + BLOCK - 1) / BLOCK
  {
    hide Inflate, Adler, BigEndian, Blocks, FourBytes;
    BlocksRead(raw, FourBytes(sum));
    var out := HEADER + Blocks(raw) + FourBytes(sum);
    assert out[2..] == Blocks(raw) + FourBytes(sum);
  }

  lemma NothingWritten(raw: bytes)
    ensures raw != [] ==> Written(HEADER, raw, 0)
    ensures raw == [] ==> Written(HEADER + [0x01, 0x00, 0x00, 0xFF, 0xFF], raw, 0)
  {
    assert raw[0..] == raw;
  }

  lemma AllWritten(out: bytes, raw: bytes)
    requires Written(out, raw, |raw|)
    ensures out == HEADER + Blocks(raw)
  {
  }

  method PushBlock(before: bytes, last: bool, block: bytes) returns (out: bytes)
    requires |block| <= BLOCK
    ensures out == before + StoredBlock(last, block)
  {
    out := before + [if last then 1 else 0];
    out := out + [|block| % 256, |block| / 256];
    out := out + [(65_535 - |block|) % 256, (65_535 - |block|) / 256];
    out := out + block;
  }
}
