/** Writing an item in the wire format, and the round trip through the parser. */
module Encoder {
  import opened Bytes
  import opened Numerals
  import opened Wire
  import opened Containment
  import Base64

  const COLUMNS := 76

  /** <data encoding="base64"> */
  const DATA_TAG: bytes := DATA + [0x20, 0x65, 0x6E, 0x63, 0x6F, 0x64, 0x69, 0x6E, 0x67, 0x3D, 0x22,
                                   0x62, 0x61, 0x73, 0x65, 0x36, 0x34, 0x22] + GT

  /** Lines of at most 76 columns, each ended by a newline. */
  function Wrapped(s: bytes): (r: bytes)
    ensures forall b :: b in r ==> b in s || b == NEWLINE
  {
    if s == [] then []
    else if |s| <= COLUMNS then s + [NEWLINE]
    else s[..COLUMNS] + [NEWLINE] + Wrapped(s[COLUMNS..])
  }

  /** The header of an item: its three fields, the length in decimal. */
  function HeaderText(kind: u32, code: u32, length: nat): bytes {
    ITEM_OPEN + TYPE_OPEN + Hex(kind, 8) + TYPE_CLOSE
    + CODE_OPEN + Hex(code, 8) + CODE_CLOSE
    + LENGTH_OPEN + Decimal(length) + LENGTH_CLOSE
  }

  function BodyText(payload: bytes): bytes {
    [NEWLINE] + DATA_TAG + RawText(payload) + DATA_CLOSE
  }

  /** The wire form of an item; the final newline is not part of what the parser consumes. */
  function Encoded(item: Item): (r: bytes)
    ensures |r| > |ITEM_OPEN|
  {
    HeaderText(item.kind, item.code, |item.payload|)
    + (if item.payload == [] then [] else BodyText(item.payload))
    + ITEM_CLOSE + [NEWLINE]
  }

  /** The encoder as it runs: a growing buffer, and a loop over 76-byte chunks of the base64 text. */
  method EncodeItem(kind: u32, code: u32, payload: bytes) returns (out: bytes)
    ensures out == Encoded(Item(kind, code, payload))
  {
    hide Hex, Decimal, Base64.Encode, Wrapped;
    out := ITEM_OPEN + TYPE_OPEN + Hex(kind, 8) + TYPE_CLOSE
           + CODE_OPEN + Hex(code, 8) + CODE_CLOSE
           + LENGTH_OPEN + Decimal(|payload|) + LENGTH_CLOSE;
    ghost var header := out;
    if payload == [] {
      out := out + ITEM_CLOSE + [NEWLINE];
      assert header + [] == header;
      return;
    }
    out := out + [NEWLINE] + DATA_TAG + [NEWLINE];
    ghost var prefix := out;
    var b64 := Base64.Encode(payload);
    var at := 0;
    while at < |b64|
      invariant 0 <= at <= |b64|
      invariant out + Wrapped(b64[at..]) == prefix + Wrapped(b64)
    {
      var end := if at + COLUMNS < |b64| then at + COLUMNS else |b64|;
      ghost var before := out;
      out := out + b64[at..end];
      out := out + [NEWLINE];
      WrapStep(b64, at, end);
      assert before + (b64[at..end] + [NEWLINE] + Wrapped(b64[end..])) == out + Wrapped(b64[end..]);
      at := end;
    }
    assert b64[at..] == [];
    WrappedNothing();
    assert out == prefix + Wrapped(b64);
    assert out == header + ([NEWLINE] + DATA_TAG + RawText(payload));
    out := out + DATA_CLOSE + ITEM_CLOSE + [NEWLINE];
    assert out == header + BodyText(payload) + ITEM_CLOSE + [NEWLINE];
  }

  lemma WrappedNothing()
    ensures Wrapped([]) == []
  {
  }

  lemma WrapStep(s: bytes, at: nat, end: nat)
    requires at < |s| && end == if at + COLUMNS < |s| then at + COLUMNS else |s|
    ensures Wrapped(s[at..]) == s[at..end] + [NEWLINE] + Wrapped(s[end..])
  {
    if at + COLUMNS < |s| {
      assert s[at..][..COLUMNS] == s[at..end] && s[at..][COLUMNS..] == s[end..];
    } else {
      assert s[at..] == s[at..end] && s[end..] == [];
    }
  }

  // --- reading it back ---------------------------------------------------------

  /** Line wrapping is undone by dropping white space. */
  lemma {:induction false} UnwrapsTo(s: bytes)
    requires forall b :: b in s ==> !IsSpace(b)
    ensures StripSpace(Wrapped(s)) == s
  {
    if s != [] {
      var end := if COLUMNS < |s| then COLUMNS else |s|;
      WrapStep(s, 0, end);
      assert s[0..] == s && s == s[..end] + s[end..];
      UnwrapsTo(s[end..]);
      StripSpaceOfSolid(s[..end]);
      StripSpaceConcat(s[0..end] + [NEWLINE], Wrapped(s[end..]));
      StripSpaceConcat(s[0..end], [NEWLINE]);
    }
  }

  lemma AtConcat(s: bytes, i: nat, a: bytes, b: bytes)
    ensures At(s, i, a + b) <==> At(s, i, a) && At(s, i + |a|, b)
  {
    if At(s, i, a + b) {
      forall k | 0 <= k < |b| ensures s[i + |a| + k] == b[k] {
        assert s[i + (|a| + k)] == (a + b)[|a| + k];
      }
      forall k | 0 <= k < |a| ensures s[i + k] == a[k] {
        assert (a + b)[k] == a[k];
      }
    }
    if At(s, i, a) && At(s, i + |a|, b) {
      forall k | 0 <= k < |a + b| ensures s[i + k] == (a + b)[k] {
        if k >= |a| {
          assert s[i + |a| + (k - |a|)] == b[k - |a|];
        }
      }
    }
  }

  /** Text without an opening bracket runs up to the tag that follows it. */
  lemma UntilReads(s: bytes, i: nat, body: bytes, end: bytes)
    requires At(s, i, body) && At(s, i + |body|, end)
    requires end != [] && end[0] == LT && LT !in body
    ensures Until(s, i, end) == Done(body, i + |body|)
  {
    forall j | i <= j < i + |body| ensures !At(s, j, end) {
      assert s[i + (j - i)] == body[j - i];
      Differs(s, j, end, 0);
    }
    FindIs(s, i, end, i + |body|);
    assert s[i..i + |body|] == body;
  }

  lemma FieldReads(s: bytes, i: nat, f: FieldSpec, digits: bytes, v: nat)
    requires At(s, i, f.open) && At(s, i + |f.open|, digits) && At(s, i + |f.open| + |digits|, f.close)
    requires f.open != [] && f.open[0] == LT && f.close != [] && f.close[0] == LT
    requires digits != [] && ValueOf(digits, f.radix) == Some(v) && v < f.limit && Plain(digits)
    ensures Field(s, i, f) == Done(v, i + |f.open| + |digits| + |f.close|)
  {
    hide At, Tag, Until, WsEnd, ReadNumber;
    TagReads(s, i, f.open);
    UntilReads(s, i + |f.open|, digits, f.close);
    NumberReads(digits, f, v);
  }

  lemma NumberReads(digits: bytes, f: FieldSpec, v: nat)
    requires digits != [] && ValueOf(digits, f.radix) == Some(v) && v < f.limit && Plain(digits)
    ensures ReadNumber(digits, f) == Done(v, 0)
  {
    DigitsReadBack(digits, f.radix, f.limit, v);
  }

  lemma TagReads(s: bytes, i: nat, tag: bytes)
    requires At(s, i, tag) && tag != [] && tag[0] == LT
    ensures WsEnd(s, i) == i && Tag(s, i, tag) == Done((), i + |tag|)
  {
    assert s[i + 0] == tag[0];
  }

  lemma HeaderReads(s: bytes, i: nat, kind: u32, code: u32, length: nat, maxItem: usize)
    requires At(s, i, HeaderText(kind, code, length)) && length <= maxItem
    ensures ReadHeader(s, i, maxItem) == Done(Header(kind, code, length), i + |HeaderText(kind, code, length)|)
  {
    hide At, Cut, Field, Hex, Decimal, HeaderText;
    var k, c, l := Hex(kind, 8), Hex(code, 8), Decimal(length);
    HexValue(kind, 8);
    HexValue(code, 8);
    DecimalValue(length);
    HeaderParts(s, i, kind, code, length);
    var a := i + |ITEM_OPEN|;
    var b := a + |TYPE_OPEN| + |k| + |TYPE_CLOSE|;
    FieldReads(s, a, TYPE, k, kind);
    FieldReads(s, b, CODE, c, code);
    FieldReads(s, b + |CODE_OPEN| + |c| + |CODE_CLOSE|, LENGTH, l, length);
  }

  /** Where the tags and the numbers of a header stand. */
  lemma HeaderParts(s: bytes, i: nat, kind: u32, code: u32, length: nat)
    requires At(s, i, HeaderText(kind, code, length))
    ensures var k, c, l := Hex(kind, 8), Hex(code, 8), Decimal(length);
      var a := i + |ITEM_OPEN|;
      var b := a + |TYPE_OPEN| + |k| + |TYPE_CLOSE|;
      var d := b + |CODE_OPEN| + |c| + |CODE_CLOSE|;
      && At(s, i, ITEM_OPEN)
      && At(s, a, TYPE_OPEN) && At(s, a + |TYPE_OPEN|, k) && At(s, a + |TYPE_OPEN| + |k|, TYPE_CLOSE)
      && At(s, b, CODE_OPEN) && At(s, b + |CODE_OPEN|, c) && At(s, b + |CODE_OPEN| + |c|, CODE_CLOSE)
      && At(s, d, LENGTH_OPEN) && At(s, d + |LENGTH_OPEN|, l) && At(s, d + |LENGTH_OPEN| + |l|, LENGTH_CLOSE)
      && i + |HeaderText(kind, code, length)| == d + |LENGTH_OPEN| + |l| + |LENGTH_CLOSE|
  {
    hide At, Hex, Decimal;
    var k, c, l := Hex(kind, 8), Hex(code, 8), Decimal(length);
    var t1 := ITEM_OPEN;
    var t2 := t1 + TYPE_OPEN;
    var t3 := t2 + k;
    var t4 := t3 + TYPE_CLOSE;
    var t5 := t4 + CODE_OPEN;
    var t6 := t5 + c;
    var t7 := t6 + CODE_CLOSE;
    var t8 := t7 + LENGTH_OPEN;
    var t9 := t8 + l;
    AtConcat(s, i, t9, LENGTH_CLOSE);
    AtConcat(s, i, t8, l);
    AtConcat(s, i, t7, LENGTH_OPEN);
    AtConcat(s, i, t6, CODE_CLOSE);
    AtConcat(s, i, t5, c);
    AtConcat(s, i, t4, CODE_OPEN);
    AtConcat(s, i, t3, TYPE_CLOSE);
    AtConcat(s, i, t2, k);
    AtConcat(s, i, t1, TYPE_OPEN);
  }

  /** The payload block, from the newline after the header to the closing data tag. */
  lemma BodyReads(s: bytes, i: nat, payload: bytes)
    requires At(s, i, BodyText(payload))
    ensures WsEnd(s, i) == i + 1 && Choose(s, i + 1) == Done(false, i + 1)
    ensures DataOpen(s, i + 1) == Done((), i + 1 + |DATA_TAG|)
    ensures At(s, i + 1 + |DATA_TAG|, RawText(payload))
    ensures At(s, i + 1 + |DATA_TAG| + |RawText(payload)|, DATA_CLOSE)
    ensures |BodyText(payload)| == 1 + |DATA_TAG| + |RawText(payload)| + |DATA_CLOSE|
  {
    hide RawText, DataOpen, Choose;
    var raw := RawText(payload);
    assert BodyText(payload) == [NEWLINE] + (DATA_TAG + (raw + DATA_CLOSE));
    AtConcat(s, i, [NEWLINE], DATA_TAG + (raw + DATA_CLOSE));
    AtConcat(s, i + 1, DATA_TAG, raw + DATA_CLOSE);
    AtConcat(s, i + 1 + |DATA_TAG|, raw, DATA_CLOSE);
    assert s[i + 0] == [NEWLINE][0];
    DataTagReads(s, i + 1);
    assert WsEnd(s, i + 1) == i + 1;
  }

  /** What stands between the data tags. */
  function RawText(payload: bytes): (r: bytes)
    ensures LT !in r
  {
    [NEWLINE] + Wrapped(Base64.Encode(payload))
  }

  lemma RawDecodes(payload: bytes)
    ensures Base64.Decode(StripSpace(RawText(payload))) == Some(payload)
  {
    var b64 := Base64.Encode(payload);
    StripSpaceConcat([NEWLINE], Wrapped(b64));
    UnwrapsTo(b64);
    Base64.RoundTrip(payload);
  }

  lemma BackReads(s: bytes, d: nat, header: Header, payload: bytes, maxItem: usize)
    requires At(s, d, RawText(payload)) && At(s, d + |RawText(payload)|, DATA_CLOSE)
    requires At(s, d + |RawText(payload)| + |DATA_CLOSE|, ITEM_CLOSE)
    requires |payload| <= maxItem
    ensures ReadBack(s, d, header, maxItem)
         == Done(Parsed(Item(header.kind, header.code, payload), |payload| != header.declared),
                 d + |RawText(payload)| + |DATA_CLOSE| + |ITEM_CLOSE|)
  {
    hide Base64.Decode, StripSpace, RawText, FindFrom;
    var raw := RawText(payload);
    UntilReads(s, d, raw, DATA_CLOSE);
    RawDecodes(payload);
    TagReads(s, d + |raw| + |DATA_CLOSE|, ITEM_CLOSE);
  }

  lemma DataTagReads(s: bytes, i: nat)
    requires At(s, i, DATA_TAG)
    ensures Choose(s, i) == Done(false, i) && s[i] == LT
    ensures DataOpen(s, i) == Done((), i + |DATA_TAG|)
  {
    assert s[i + 0] == DATA_TAG[0];
    forall k | 0 <= k < |DATA| ensures s[i + k] == DATA[k] {
      assert s[i + k] == DATA_TAG[k];
    }
    assert s[i + 1] == DATA[1];
    Differs(s, i, ITEM_CLOSE, 1);
    var n := i + |DATA_TAG| - 1;
    assert s[i + (|DATA_TAG| - 1)] == DATA_TAG[|DATA_TAG| - 1];
    forall j | i + |DATA| <= j < n ensures !At(s, j, GT) {
      assert s[i + (j - i)] == DATA_TAG[j - i] != GT[0];
      Differs(s, j, GT, 0);
    }
    FindIs(s, i + |DATA|, GT, n);
  }

  /** Where the three parts of an encoded item stand. */
  lemma EncodedParts(s: bytes, i: nat, item: Item)
    requires At(s, i, Encoded(item))
    ensures var header := HeaderText(item.kind, item.code, |item.payload|);
            var body := if item.payload == [] then [] else BodyText(item.payload);
            && At(s, i, header)
            && At(s, i + |header|, body)
            && At(s, i + |header| + |body|, ITEM_CLOSE)
            && |Encoded(item)| == |header| + |body| + |ITEM_CLOSE| + 1
  {
    hide At, HeaderText, BodyText;
    var header := HeaderText(item.kind, item.code, |item.payload|);
    var body := if item.payload == [] then [] else BodyText(item.payload);
    AtConcat(s, i, header + body + ITEM_CLOSE, [NEWLINE]);
    AtConcat(s, i, header + body, ITEM_CLOSE);
    AtConcat(s, i, header, body);
  }

  lemma FrontReads(s: bytes, i: nat, item: Item, maxItem: usize)
    requires At(s, i, Encoded(item)) && |item.payload| <= maxItem
    ensures var a := i + |HeaderText(item.kind, item.code, |item.payload|)|;
            var h := Header(item.kind, item.code, |item.payload|);
            ReadFront(s, i, maxItem)
              == if item.payload == [] then Done(Closed(h), a + |ITEM_CLOSE|)
                 else Done(Open(h), a + 1 + |DATA_TAG|)
  {
    hide ReadHeader, At, DataOpen, WsEnd, HeaderText, BodyText, Choose, Encoded;
    EncodedParts(s, i, item);
    HeaderReads(s, i, item.kind, item.code, |item.payload|, maxItem);
    var a := i + |HeaderText(item.kind, item.code, |item.payload|)|;
    if item.payload == [] {
      TagReads(s, a, ITEM_CLOSE);
      ClosesAt(s, a);
    } else {
      BodyReads(s, a, item.payload);
    }
  }

  lemma ClosesAt(s: bytes, a: nat)
    requires At(s, a, ITEM_CLOSE)
    ensures Choose(s, a) == Done(true, a)
  {
  }

  /** An encoded item, wherever it stands, is read back exactly, and its declared length agrees. */
  lemma ParsesEncoded(s: bytes, i: nat, item: Item, maxItem: usize)
    requires At(s, i, Encoded(item)) && |item.payload| <= maxItem
    ensures ParseItem(s, i, maxItem) == Done(Parsed(item, false), i + |Encoded(item)| - 1)
  {
    hide ReadFront, ReadBack, At, HeaderText, BodyText, RawText, Encoded, DataOpen, Choose, WsEnd;
    EncodedParts(s, i, item);
    FrontReads(s, i, item, maxItem);
    var a := i + |HeaderText(item.kind, item.code, |item.payload|)|;
    if item.payload != [] {
      BodyReads(s, a, item.payload);
      var h := Header(item.kind, item.code, |item.payload|);
      BackReads(s, a + 1 + |DATA_TAG|, h, item.payload, maxItem);
    }
  }
}
