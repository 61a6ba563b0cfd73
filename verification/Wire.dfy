/** One item on the wire: what the parser makes of the bytes at a fixed
    offset, as a function of the whole buffer. The laws here say when that
    answer is final (more bytes cannot change it) and that it depends only on
    the bytes from the offset on. */
module Wire {
  import opened Bytes
  import opened Numerals
  import Base64

  const ITEM_OPEN: bytes := [0x3C, 0x69, 0x74, 0x65, 0x6D, 0x3E]                      // <item>
  const ITEM_CLOSE: bytes := [0x3C, 0x2F, 0x69, 0x74, 0x65, 0x6D, 0x3E]               // </item>
  const TYPE_OPEN: bytes := [0x3C, 0x74, 0x79, 0x70, 0x65, 0x3E]                      // <type>
  const TYPE_CLOSE: bytes := [0x3C, 0x2F, 0x74, 0x79, 0x70, 0x65, 0x3E]               // </type>
  const CODE_OPEN: bytes := [0x3C, 0x63, 0x6F, 0x64, 0x65, 0x3E]                      // <code>
  const CODE_CLOSE: bytes := [0x3C, 0x2F, 0x63, 0x6F, 0x64, 0x65, 0x3E]               // </code>
  const LENGTH_OPEN: bytes := [0x3C, 0x6C, 0x65, 0x6E, 0x67, 0x74, 0x68, 0x3E]        // <length>
  const LENGTH_CLOSE: bytes := [0x3C, 0x2F, 0x6C, 0x65, 0x6E, 0x67, 0x74, 0x68, 0x3E] // </length>
  const DATA: bytes := [0x3C, 0x64, 0x61, 0x74, 0x61]                                 // <data
  const DATA_CLOSE: bytes := [0x3C, 0x2F, 0x64, 0x61, 0x74, 0x61, 0x3E]               // </data>
  const GT: bytes := [0x3E]                                                           // >

  const U32_LIMIT := 0x1_0000_0000
  const USIZE_LIMIT := 0x1_0000_0000_0000_0000

  type u32 = v: int | 0 <= v < 0x1_0000_0000

  type usize = v: int | 0 <= v < 0x1_0000_0000_0000_0000

  datatype Item = Item(kind: u32, code: u32, payload: bytes)

  /** An item, marked when its payload is not as long as its header says. */
  datatype Parsed = Parsed(item: Item, mismatch: bool)

  datatype Reason = UnexpectedTag | ExpectedCloseOrData | NonUtf8Hex | BadHex | NonUtf8Length | BadLength

  datatype Flaw = Malformed(reason: Reason) | BadBase64 | TooLarge(len: nat)

  /** The outcome of reading something at an offset; next is the offset just past it. */
  datatype Attempt<+T> = Done(value: T, next: nat) | Incomplete | Bad(flaw: Flaw) {
    predicate IsFailure() {
      !Done?
    }

    function PropagateFailure<U>(): Attempt<U>
      requires !Done?
    {
      if Incomplete? then Incomplete else Bad(flaw)
    }

    function Extract(): (T, nat)
      requires Done?
    {
      (value, next)
    }

    /** The same outcome, seen from k bytes further left. */
    function Moved(k: nat): Attempt<T> {
      if Done? then Done(value, next + k) else this
    }
  }

  // --- the steps -------------------------------------------------------------

  /** The buffer ends part-way through the pattern. */
  predicate Cut(s: bytes, i: nat, pat: bytes) {
    && i <= |s| < i + |pat|
    && forall k :: i <= k < |s| ==> s[k] == pat[k - i]
  }

  function Tag(s: bytes, i: nat, tag: bytes): (r: Attempt<()>)
    requires i <= |s|
    ensures r.Done? ==> r.next == i + |tag| <= |s|
  {
    if At(s, i, tag) then Done((), i + |tag|)
    else if Cut(s, i, tag) then Incomplete
    else Bad(Malformed(UnexpectedTag))
  }

  /** Everything up to (not including) the first occurrence of end. */
  function Until(s: bytes, i: nat, end: bytes): (r: Attempt<bytes>)
    requires i <= |s|
    ensures r.Done? ==> i <= r.next && r.next + |end| <= |s| && r.value == s[i..r.next]
  {
    match FindFrom(s, i, end)
    case None => Incomplete
    case Some(n) => Done(s[i..n], n)
  }

  /** A numeric header field: its tags, how its number is written, and what a bad one is called. */
  datatype FieldSpec =
    FieldSpec(open: bytes, close: bytes, radix: nat, limit: nat, nonUtf8: Reason, bad: Reason)

  const TYPE := FieldSpec(TYPE_OPEN, TYPE_CLOSE, 16, U32_LIMIT, NonUtf8Hex, BadHex)
  const CODE := FieldSpec(CODE_OPEN, CODE_CLOSE, 16, U32_LIMIT, NonUtf8Hex, BadHex)
  const LENGTH := FieldSpec(LENGTH_OPEN, LENGTH_CLOSE, 10, USIZE_LIMIT, NonUtf8Length, BadLength)

  /** The number between the tags. */
  function ReadNumber(body: bytes, f: FieldSpec): (r: Attempt<nat>)
    ensures r.Done? ==> r.next == 0 && r.value < f.limit
    ensures !r.Incomplete?
  {
    match DecodeUtf8(body)
    case None => Bad(Malformed(f.nonUtf8))
    case Some(text) =>
      match ParseUnsigned(Trim(text), f.radix, f.limit)
      case None => Bad(Malformed(f.bad))
      case Some(v) => Done(v, 0)
  }

  /** A numeric field that starts here. */
  function FieldHere(s: bytes, i: nat, f: FieldSpec): (r: Attempt<nat>)
    requires i <= |s|
    ensures r.Done? ==> i <= r.next <= |s| && r.value < f.limit
  {
    var (_, a) :- Tag(s, i, f.open);
    var (body, b) :- Until(s, a, f.close);
    var (v, _) :- ReadNumber(body, f);
    Done(v, b + |f.close|)
  }

  /** A numeric field, after any white space. */
  function Field(s: bytes, i: nat, f: FieldSpec): (r: Attempt<nat>)
    requires i <= |s|
    ensures r.Done? ==> i <= r.next <= |s| && r.value < f.limit
  {
    FieldHere(s, WsEnd(s, i), f)
  }

  datatype Header = Header(kind: u32, code: u32, declared: nat)

  function ReadHeader(s: bytes, i: nat, maxItem: usize): (r: Attempt<Header>)
    requires i <= |s|
    ensures r.Done? ==> i + |ITEM_OPEN| <= r.next <= |s|
  {
    var (_, a) :- Tag(s, i, ITEM_OPEN);
    var (kind, b) :- Field(s, a, TYPE);
    var (code, c) :- Field(s, b, CODE);
    var (declared, d) :- Field(s, c, LENGTH);
    if declared > maxItem then Bad(TooLarge(declared)) else Done(Header(kind, code, declared), d)
  }

  /** Whether the item closes here (true) or carries a data block (false). Consumes nothing. */
  function Choose(s: bytes, i: nat): (r: Attempt<bool>)
    requires i <= |s|
    ensures r.Done? ==> r.next == i
    ensures r.Done? ==> At(s, i, if r.value then ITEM_CLOSE else DATA)
  {
    if At(s, i, ITEM_CLOSE) then Done(true, i)
    else if At(s, i, DATA) then Done(false, i)
    else if Cut(s, i, ITEM_CLOSE) || Cut(s, i, DATA) then Incomplete
    else Bad(Malformed(ExpectedCloseOrData))
  }

  /** The data tag, attributes and all. */
  function DataOpen(s: bytes, i: nat): (r: Attempt<()>)
    requires i <= |s|
    ensures r.Done? ==> i + |DATA| < r.next <= |s|
  {
    var (_, a) :- Tag(s, i, DATA);
    var (_, b) :- Until(s, a, GT);
    Done((), b + |GT|)
  }

  /** What comes before the payload: either the whole of an empty item, or everything up to the payload. */
  datatype Front = Closed(header: Header) | Open(header: Header)

  function ReadFront(s: bytes, i: nat, maxItem: usize): (r: Attempt<Front>)
    requires i <= |s|
    ensures r.Done? ==> i + |ITEM_OPEN| <= r.next <= |s|
  {
    var (header, a) :- ReadHeader(s, i, maxItem);
    var (closes, b) :- Choose(s, WsEnd(s, a));
    if closes then
      Done(Closed(header), b + |ITEM_CLOSE|)
    else
      var (_, d) :- DataOpen(s, b);
      Done(Open(header), d)
  }

  /** The payload and the two closing tags. */
  function ReadBack(s: bytes, d: nat, header: Header, maxItem: usize): (r: Attempt<Parsed>)
    requires d <= |s|
    ensures r.Done? ==> d < r.next <= |s|
  {
    var (raw, a) :- Until(s, d, DATA_CLOSE);
    var (_, c) :- Tag(s, WsEnd(s, a + |DATA_CLOSE|), ITEM_CLOSE);
    match Base64.Decode(StripSpace(raw))
    case None => Bad(BadBase64)
    case Some(payload) =>
      if |payload| > maxItem then Bad(TooLarge(|payload|))
      else Done(Parsed(Item(header.kind, header.code, payload), |payload| != header.declared), c)
  }

  function ParseItem(s: bytes, i: nat, maxItem: usize): (r: Attempt<Parsed>)
    requires i <= |s|
    ensures r.Done? ==> i + |ITEM_OPEN| <= r.next <= |s|
  {
    var (front, d) :- ReadFront(s, i, maxItem);
    match front
    case Closed(h) => Done(Parsed(Item(h.kind, h.code, []), h.declared != 0), d)
    case Open(h) => ReadBack(s, d, h, maxItem)
  }

  // --- a decided answer is final ---------------------------------------------

  lemma TagExtends(s: bytes, t: bytes, i: nat, tag: bytes)
    requires s <= t && i <= |s| && !Tag(s, i, tag).Incomplete?
    ensures Tag(t, i, tag) == Tag(s, i, tag)
  {
    if !At(s, i, tag) {
      if |s| < i + |tag| {
        var k :| i <= k < |s| && s[k] != tag[k - i];
        assert t[i + (k - i)] != tag[k - i];
      } else {
        var k :| 0 <= k < |tag| && s[i + k] != tag[k];
        assert t[i + k] != tag[k];
      }
    }
  }

  /** White space followed by a tag: if the white space ran to the end, the tag is not decided. */
  lemma WsTagExtends(s: bytes, t: bytes, i: nat, tag: bytes)
    requires s <= t && i <= |s| && tag != [] && !Tag(s, WsEnd(s, i), tag).Incomplete?
    ensures WsEnd(t, i) == WsEnd(s, i) && Tag(t, WsEnd(t, i), tag) == Tag(s, WsEnd(s, i), tag)
  {
    assert Cut(s, |s|, tag);
    WsExtends(s, t, i);
    TagExtends(s, t, WsEnd(s, i), tag);
  }

  lemma UntilExtends(s: bytes, t: bytes, i: nat, end: bytes)
    requires s <= t && i <= |s| && !Until(s, i, end).Incomplete?
    ensures Until(t, i, end) == Until(s, i, end)
  {
    FindExtends(s, t, i, end);
    var n := FindFrom(s, i, end).value;
    assert s[i..n] == t[i..n];
  }

  lemma FieldExtends(s: bytes, t: bytes, i: nat, f: FieldSpec)
    requires s <= t && i <= |s| && f.open != [] && !Field(s, i, f).Incomplete?
    ensures Field(t, i, f) == Field(s, i, f)
  {
    hide ReadNumber, At, Cut;
    WsTagExtends(s, t, i, f.open);
    var a := Tag(s, WsEnd(s, i), f.open);
    if a.Done? {
      UntilExtends(s, t, a.next, f.close);
    }
  }

  lemma HeaderExtends(s: bytes, t: bytes, i: nat, maxItem: usize)
    requires s <= t && i <= |s| && !ReadHeader(s, i, maxItem).Incomplete?
    ensures ReadHeader(t, i, maxItem) == ReadHeader(s, i, maxItem)
  {
    hide Field, At, Cut;
    TagExtends(s, t, i, ITEM_OPEN);
    if Tag(s, i, ITEM_OPEN).Done? {
      var a := i + |ITEM_OPEN|;
      FieldExtends(s, t, a, TYPE);
      var kind := Field(s, a, TYPE);
      if kind.Done? {
        FieldExtends(s, t, kind.next, CODE);
        var code := Field(s, kind.next, CODE);
        if code.Done? {
          FieldExtends(s, t, code.next, LENGTH);
        }
      }
    }
  }

  lemma ChooseExtends(s: bytes, t: bytes, i: nat)
    requires s <= t && i <= |s| && !Choose(s, WsEnd(s, i)).Incomplete?
    ensures WsEnd(t, i) == WsEnd(s, i) && Choose(t, WsEnd(t, i)) == Choose(s, WsEnd(s, i))
  {
    assert Cut(s, |s|, DATA);
    WsExtends(s, t, i);
    var e := WsEnd(s, i);
    assert At(s, e, DATA) ==> s[e + 1] == DATA[1] != ITEM_CLOSE[1];
    TagExtends(s, t, e, ITEM_CLOSE);
    if !At(s, e, ITEM_CLOSE) {
      TagExtends(s, t, e, DATA);
    }
  }

  lemma DataOpenExtends(s: bytes, t: bytes, i: nat)
    requires s <= t && i <= |s| && !DataOpen(s, i).Incomplete?
    ensures DataOpen(t, i) == DataOpen(s, i)
  {
    TagExtends(s, t, i, DATA);
    if Tag(s, i, DATA).Done? {
      UntilExtends(s, t, i + |DATA|, GT);
    }
  }

  lemma FrontExtends(s: bytes, t: bytes, i: nat, maxItem: usize)
    requires s <= t && i <= |s| && !ReadFront(s, i, maxItem).Incomplete?
    ensures ReadFront(t, i, maxItem) == ReadFront(s, i, maxItem)
  {
    hide ReadHeader, DataOpen, Choose;
    HeaderExtends(s, t, i, maxItem);
    var header := ReadHeader(s, i, maxItem);
    if header.Done? {
      ChooseExtends(s, t, header.next);
      var e := WsEnd(s, header.next);
      var choice := Choose(s, e);
      if choice.Done? && !choice.value {
        DataOpenExtends(s, t, e);
      }
    }
  }

  lemma BackExtends(s: bytes, t: bytes, d: nat, header: Header, maxItem: usize)
    requires s <= t && d <= |s| && !ReadBack(s, d, header, maxItem).Incomplete?
    ensures ReadBack(t, d, header, maxItem) == ReadBack(s, d, header, maxItem)
  {
    hide Base64.Decode, StripSpace, At, Cut;
    UntilExtends(s, t, d, DATA_CLOSE);
    var raw := Until(s, d, DATA_CLOSE);
    WsTagExtends(s, t, raw.next + |DATA_CLOSE|, ITEM_CLOSE);
  }

  /** Once the parser has an answer for the bytes at i, no later bytes change it. */
  lemma ParseExtends(s: bytes, t: bytes, i: nat, maxItem: usize)
    requires s <= t && i <= |s| && !ParseItem(s, i, maxItem).Incomplete?
    ensures ParseItem(t, i, maxItem) == ParseItem(s, i, maxItem)
  {
    hide ReadFront, ReadBack;
    FrontExtends(s, t, i, maxItem);
    var front := ReadFront(s, i, maxItem);
    if front.Done? && front.value.Open? {
      BackExtends(s, t, front.next, front.value.header, maxItem);
    }
  }

  // --- an answer depends only on the bytes from i on --------------------------

  lemma TagShift(s: bytes, k: nat, i: nat, tag: bytes)
    requires k + i <= |s|
    ensures Tag(s, k + i, tag) == Tag(s[k..], i, tag).Moved(k)
  {
    AtShift(s, k, i, tag);
    if Cut(s, k + i, tag) {
      forall j | i <= j < |s[k..]| ensures s[k..][j] == tag[j - i] {
        assert s[k + j] == tag[k + j - (k + i)];
      }
    }
    if Cut(s[k..], i, tag) {
      forall j | k + i <= j < |s| ensures s[j] == tag[j - (k + i)] {
        assert s[k..][j - k] == tag[j - k - i];
      }
    }
  }

  lemma UntilShift(s: bytes, k: nat, i: nat, end: bytes)
    requires k + i <= |s|
    ensures Until(s, k + i, end) == Until(s[k..], i, end).Moved(k)
  {
    FindShift(s, k, i, end);
    var r := Until(s[k..], i, end);
    if r.Done? {
      assert s[k..][i..r.next] == s[k + i..k + r.next];
    }
  }

  lemma FieldShift(s: bytes, k: nat, i: nat, f: FieldSpec)
    requires k + i <= |s|
    ensures Field(s, k + i, f) == Field(s[k..], i, f).Moved(k)
  {
    hide ReadNumber, At, Cut;
    WsShift(s, k, i);
    var e := WsEnd(s[k..], i);
    TagShift(s, k, e, f.open);
    var a := Tag(s[k..], e, f.open);
    if a.Done? {
      UntilShift(s, k, a.next, f.close);
    }
  }

  lemma HeaderShift(s: bytes, k: nat, i: nat, maxItem: usize)
    requires k + i <= |s|
    ensures ReadHeader(s, k + i, maxItem) == ReadHeader(s[k..], i, maxItem).Moved(k)
  {
    hide Field, At, Cut;
    TagShift(s, k, i, ITEM_OPEN);
    var t := s[k..];
    if Tag(t, i, ITEM_OPEN).Done? {
      var a := i + |ITEM_OPEN|;
      FieldShift(s, k, a, TYPE);
      var kind := Field(t, a, TYPE);
      if kind.Done? {
        FieldShift(s, k, kind.next, CODE);
        var code := Field(t, kind.next, CODE);
        if code.Done? {
          FieldShift(s, k, code.next, LENGTH);
        }
      }
    }
  }

  lemma DataOpenShift(s: bytes, k: nat, i: nat)
    requires k + i <= |s|
    ensures DataOpen(s, k + i) == DataOpen(s[k..], i).Moved(k)
  {
    TagShift(s, k, i, DATA);
    if Tag(s[k..], i, DATA).Done? {
      UntilShift(s, k, i + |DATA|, GT);
    }
  }

  lemma ChooseShift(s: bytes, k: nat, i: nat)
    requires k + i <= |s|
    ensures Choose(s, k + i) == Choose(s[k..], i).Moved(k)
  {
    TagShift(s, k, i, ITEM_CLOSE);
    TagShift(s, k, i, DATA);
  }

  lemma FrontShift(s: bytes, k: nat, i: nat, maxItem: usize)
    requires k + i <= |s|
    ensures ReadFront(s, k + i, maxItem) == ReadFront(s[k..], i, maxItem).Moved(k)
  {
    hide ReadHeader, DataOpen, Choose, WsEnd;
    HeaderShift(s, k, i, maxItem);
    var header := ReadHeader(s[k..], i, maxItem);
    if header.Done? {
      WsShift(s, k, header.next);
      var e := WsEnd(s[k..], header.next);
      ChooseShift(s, k, e);
      DataOpenShift(s, k, e);
    }
  }

  lemma BackShift(s: bytes, k: nat, d: nat, header: Header, maxItem: usize)
    requires k + d <= |s|
    ensures ReadBack(s, k + d, header, maxItem) == ReadBack(s[k..], d, header, maxItem).Moved(k)
  {
    hide Base64.Decode, StripSpace, At, Cut;
    UntilShift(s, k, d, DATA_CLOSE);
    var raw := Until(s[k..], d, DATA_CLOSE);
    if raw.Done? {
      var b := raw.next + |DATA_CLOSE|;
      WsShift(s, k, b);
      TagShift(s, k, WsEnd(s[k..], b), ITEM_CLOSE);
    }
  }

  /** Dropping the bytes before the item, as the buffer does, moves the answer and changes nothing else. */
  lemma ParseShift(s: bytes, k: nat, i: nat, maxItem: usize)
    requires k + i <= |s|
    ensures ParseItem(s, k + i, maxItem) == ParseItem(s[k..], i, maxItem).Moved(k)
  {
    hide ReadFront, ReadBack;
    FrontShift(s, k, i, maxItem);
    var front := ReadFront(s[k..], i, maxItem);
    if front.Done? && front.value.Open? {
      BackShift(s, k, front.next, front.value.header, maxItem);
    }
  }
}
