/** What an item looks like, said without a cursor: a frame is a list of parts, its text
    is their concatenation, and its verdict is read off the parts. The parser accepts,
    refuses and waits exactly as the frames say. */
module Grammar {
  import opened Bytes
  import opened Numerals
  import opened Wire
  import opened Encoder
  import opened Containment
  import Base64
  import Base64Laws

  // --- frames -----------------------------------------------------------------------------

  /** A numeric field: white space, and what stands between its tags. */
  datatype Part = Part(space: bytes, body: bytes)

  datatype Rest =
    | Empty
    | Data(attributes: bytes, raw: bytes, gap: bytes)

  datatype Frame = Frame(kind: Part, code: Part, length: Part, space: bytes, rest: Rest)

  predicate White(w: bytes) {
    forall b :: b in w ==> IsSpace(b)
  }

  /** The terminator follows the body and stands nowhere before. */
  predicate Ends(body: bytes, end: bytes) {
    forall j :: 0 <= j < |body| ==> !At(body + end, j, end)
  }

  function PartText(open: bytes, p: Part, close: bytes): bytes {
    p.space + open + p.body + close
  }

  predicate PartShaped(p: Part, close: bytes) {
    White(p.space) && Ends(p.body, close)
  }

  function RestText(r: Rest): bytes {
    match r
    case Empty => ITEM_CLOSE
    case Data(attributes, raw, gap) => DATA + attributes + GT + raw + DATA_CLOSE + gap + ITEM_CLOSE
  }

  predicate RestShaped(r: Rest) {
    r.Data? ==> Ends(r.attributes, GT) && Ends(r.raw, DATA_CLOSE) && White(r.gap)
  }

  function Text(f: Frame): bytes {
    ITEM_OPEN + PartText(TYPE_OPEN, f.kind, TYPE_CLOSE) + PartText(CODE_OPEN, f.code, CODE_CLOSE)
    + PartText(LENGTH_OPEN, f.length, LENGTH_CLOSE) + f.space + RestText(f.rest)
  }

  predicate Shaped(f: Frame) {
    && PartShaped(f.kind, TYPE_CLOSE) && PartShaped(f.code, CODE_CLOSE) && PartShaped(f.length, LENGTH_CLOSE)
    && White(f.space) && RestShaped(f.rest)
  }

  // --- what a frame says ------------------------------------------------------------------

  datatype Number = Value(v: nat) | NotText | NotNumber

  /** Text in UTF-8, white space around it aside: an unsigned number below the limit. */
  function NumberIn(body: bytes, radix: nat, limit: nat): Number {
    match DecodeUtf8(body)
    case None => NotText
    case Some(text) =>
      match ParseUnsigned(Trim(text), radix, limit)
      case None => NotNumber
      case Some(v) => Value(v)
  }

  datatype Verdict = Accept(item: Item, mismatch: bool) | Refuse(flaw: Flaw)

  datatype HeaderVerdict = Head(header: Header) | BadHead(flaw: Flaw)

  /** Type and code in hexadecimal, then the declared length in decimal, each refused in
      its turn, and a declared length over the limit refused before the payload is
      looked at. */
  function JudgeHeader(f: Frame, maxItem: usize): HeaderVerdict {
    match NumberIn(f.kind.body, 16, 0x1_0000_0000)
    case NotText => BadHead(Malformed(NonUtf8Hex))
    case NotNumber => BadHead(Malformed(BadHex))
    case Value(kind) =>
      match NumberIn(f.code.body, 16, 0x1_0000_0000)
      case NotText => BadHead(Malformed(NonUtf8Hex))
      case NotNumber => BadHead(Malformed(BadHex))
      case Value(code) =>
        match NumberIn(f.length.body, 10, 0x1_0000_0000_0000_0000)
        case NotText => BadHead(Malformed(NonUtf8Length))
        case NotNumber => BadHead(Malformed(BadLength))
        case Value(declared) =>
          if declared > maxItem then BadHead(TooLarge(declared))
          else Head(Header(Word(kind), Word(code), declared))
  }

  /** The payload's text, its white space aside: base64 of at most the limit, and a
      mismatch when it is not as long as declared. */
  function JudgePayload(raw: bytes, h: Header, maxItem: usize): Verdict {
    match Base64.Decode(StripSpace(raw))
    case None => Refuse(BadBase64)
    case Some(payload) =>
      if |payload| > maxItem then Refuse(TooLarge(|payload|))
      else Accept(Item(h.kind, h.code, payload), h.declared != |payload|)
  }

  function Judge(f: Frame, maxItem: usize): Verdict {
    match JudgeHeader(f, maxItem)
    case BadHead(flaw) => Refuse(flaw)
    case Head(h) =>
      match f.rest
      case Empty => Accept(Item(h.kind, h.code, []), h.declared != 0)
      case Data(_, raw, _) => JudgePayload(raw, h, maxItem)
  }

  function Word(v: nat): u32 {
    if v < 0x1_0000_0000 then v else 0
  }

  function Answer(v: Verdict, next: nat): Attempt<Parsed> {
    match v
    case Accept(item, mismatch) => Done(Parsed(item, mismatch), next)
    case Refuse(flaw) => Bad(flaw)
  }

  // --- a frame is read as it is judged -------------------------------------------------------

  lemma WsReads(s: bytes, i: nat, w: bytes)
    requires At(s, i, w) && White(w) && i + |w| < |s| && !IsSpace(s[i + |w|])
    ensures WsEnd(s, i) == i + |w|
    decreases |w|
  {
    if w != [] {
      assert s[i + 0] == w[0] && w[0] in w;
      assert w[1..] <= w[1..];
      forall k | 0 <= k < |w[1..]| ensures s[i + 1 + k] == w[1..][k] {
        assert s[i + (k + 1)] == w[k + 1];
      }
      WsReads(s, i + 1, w[1..]);
    }
  }

  lemma EndsReads(s: bytes, i: nat, body: bytes, end: bytes)
    requires At(s, i, body) && At(s, i + |body|, end) && Ends(body, end)
    ensures Until(s, i, end) == Done(body, i + |body|)
  {
    AtConcat(s, i, body, end);
    forall j | i <= j < i + |body| ensures !At(s, j, end) {
      if At(s, j, end) {
        Inside(s, i, body + end, j - i, end);
      }
    }
    FindIs(s, i, end, i + |body|);
    assert s[i..i + |body|] == body;
  }

  /** An occurrence inside text that stands at i is an occurrence in the text. */
  lemma Inside(s: bytes, i: nat, t: bytes, j: nat, pat: bytes)
    requires At(s, i, t) && At(s, i + j, pat) && j + |pat| <= |t|
    ensures At(t, j, pat)
  {
    forall k | 0 <= k < |pat| ensures t[j + k] == pat[k] {
      assert s[i + (j + k)] == t[j + k];
      assert s[(i + j) + k] == pat[k];
    }
  }

  predicate Tagged(f: FieldSpec) {
    f.open != [] && f.open[0] == LT && f.close != [] && f.close[0] == LT
  }

  function FieldVerdict(n: Number, f: FieldSpec, next: nat): Attempt<nat> {
    match n
    case Value(v) => Done(v, next)
    case NotText => Bad(Malformed(f.nonUtf8))
    case NotNumber => Bad(Malformed(f.bad))
  }

  lemma PartStands(s: bytes, i: nat, open: bytes, p: Part, close: bytes)
    requires At(s, i, PartText(open, p, close))
    ensures var a := i + |p.space| + |open|;
      && At(s, i, p.space) && At(s, i + |p.space|, open) && At(s, a, p.body) && At(s, a + |p.body|, close)
      && i + |PartText(open, p, close)| == a + |p.body| + |close|
  {
    hide At;
    AtConcat(s, i, p.space + open + p.body, close);
    AtConcat(s, i, p.space + open, p.body);
    AtConcat(s, i, p.space, open);
  }

  lemma OpensTag(s: bytes, i: nat, tag: bytes)
    requires At(s, i, tag) && tag != [] && tag[0] == LT
    ensures i < |s| && !IsSpace(s[i]) && Tag(s, i, tag) == Done((), i + |tag|)
  {
    assert s[i + 0] == tag[0];
  }

  lemma FieldJudged(s: bytes, i: nat, f: FieldSpec, p: Part)
    requires Tagged(f) && At(s, i, PartText(f.open, p, f.close)) && PartShaped(p, f.close)
    ensures i <= |s| && Field(s, i, f) == FieldVerdict(NumberIn(p.body, f.radix, f.limit), f, i + |PartText(f.open, p, f.close)|)
  {
    hide At, Tag, Until, WsEnd, DecodeUtf8, ParseUnsigned, Trim;
    PartStands(s, i, f.open, p, f.close);
    var e := i + |p.space|;
    OpensTag(s, e, f.open);
    WsReads(s, i, p.space);
    EndsReads(s, e + |f.open|, p.body, f.close);
  }

  lemma FrameStands(s: bytes, i: nat, f: Frame)
    requires At(s, i, Text(f))
    ensures var a := i + |ITEM_OPEN|;
      var b := a + |PartText(TYPE_OPEN, f.kind, TYPE_CLOSE)|;
      var c := b + |PartText(CODE_OPEN, f.code, CODE_CLOSE)|;
      var d := c + |PartText(LENGTH_OPEN, f.length, LENGTH_CLOSE)|;
      && At(s, i, ITEM_OPEN) && At(s, a, PartText(TYPE_OPEN, f.kind, TYPE_CLOSE))
      && At(s, b, PartText(CODE_OPEN, f.code, CODE_CLOSE)) && At(s, c, PartText(LENGTH_OPEN, f.length, LENGTH_CLOSE))
      && At(s, d, f.space) && At(s, d + |f.space|, RestText(f.rest))
      && i + |Text(f)| == d + |f.space| + |RestText(f.rest)| <= |s|
  {
    hide At, PartText, RestText;
    var t1 := ITEM_OPEN;
    var t2 := t1 + PartText(TYPE_OPEN, f.kind, TYPE_CLOSE);
    var t3 := t2 + PartText(CODE_OPEN, f.code, CODE_CLOSE);
    var t4 := t3 + PartText(LENGTH_OPEN, f.length, LENGTH_CLOSE);
    AtConcat(s, i, t4 + f.space, RestText(f.rest));
    AtConcat(s, i, t4, f.space);
    AtConcat(s, i, t3, PartText(LENGTH_OPEN, f.length, LENGTH_CLOSE));
    AtConcat(s, i, t2, PartText(CODE_OPEN, f.code, CODE_CLOSE));
    AtConcat(s, i, t1, PartText(TYPE_OPEN, f.kind, TYPE_CLOSE));
    AtBound(s, i, Text(f));
  }

  lemma RestStands(s: bytes, i: nat, r: Rest)
    requires r.Data? && At(s, i, RestText(r))
    ensures var a := i + |DATA|;
      var b := a + |r.attributes|;
      var c := b + |GT| + |r.raw|;
      var e := c + |DATA_CLOSE| + |r.gap|;
      && At(s, i, DATA) && At(s, a, r.attributes) && At(s, b, GT) && At(s, b + |GT|, r.raw) && At(s, c, DATA_CLOSE)
      && At(s, c + |DATA_CLOSE|, r.gap) && At(s, e, ITEM_CLOSE) && i + |RestText(r)| == e + |ITEM_CLOSE| <= |s|
  {
    hide At;
    var t1 := DATA;
    var t2 := t1 + r.attributes;
    var t3 := t2 + GT;
    var t4 := t3 + r.raw;
    var t5 := t4 + DATA_CLOSE;
    AtConcat(s, i, t5 + r.gap, ITEM_CLOSE);
    AtConcat(s, i, t5, r.gap);
    AtConcat(s, i, t4, DATA_CLOSE);
    AtConcat(s, i, t3, r.raw);
    AtConcat(s, i, t2, GT);
    AtConcat(s, i, t1, r.attributes);
    AtBound(s, i, RestText(r));
  }

  lemma ChoosesClose(s: bytes, i: nat)
    requires At(s, i, ITEM_CLOSE)
    ensures i < |s| && !IsSpace(s[i]) && Choose(s, i) == Done(true, i)
  {
    assert s[i + 0] == ITEM_CLOSE[0];
  }

  lemma ChoosesData(s: bytes, i: nat)
    requires At(s, i, DATA)
    ensures i < |s| && !IsSpace(s[i]) && Choose(s, i) == Done(false, i)
  {
    assert s[i + 0] == DATA[0] && s[i + 1] == DATA[1];
    Differs(s, i, ITEM_CLOSE, 1);
  }

  /** The data tag with its attributes. */
  lemma DataTagJudged(s: bytes, i: nat, r: Rest)
    requires r.Data? && RestShaped(r) && At(s, i, RestText(r))
    ensures var d := i + |DATA| + |r.attributes| + |GT|; i <= |s| && DataOpen(s, i) == Done((), d) && d <= |s|
  {
    hide At, Tag, Until;
    RestStands(s, i, r);
    OpensTag(s, i, DATA);
    EndsReads(s, i + |DATA|, r.attributes, GT);
  }

  /** The payload with what closes it. */
  lemma PayloadJudged(s: bytes, i: nat, r: Rest, h: Header, maxItem: usize)
    requires r.Data? && RestShaped(r) && At(s, i, RestText(r))
    ensures var d := i + |DATA| + |r.attributes| + |GT|;
      d <= |s| && ReadBack(s, d, h, maxItem) == Answer(JudgePayload(r.raw, h, maxItem), i + |RestText(r)|)
  {
    hide At, Tag, Until, WsEnd, Base64.Decode, StripSpace, RestText;
    RestStands(s, i, r);
    var d := i + |DATA| + |r.attributes| + |GT|;
    EndsReads(s, d, r.raw, DATA_CLOSE);
    var g := d + |r.raw| + |DATA_CLOSE|;
    OpensTag(s, g + |r.gap|, ITEM_CLOSE);
    WsReads(s, g, r.gap);
  }

  function HeaderAnswer(v: HeaderVerdict, next: nat): Attempt<Header> {
    match v
    case Head(h) => Done(h, next)
    case BadHead(flaw) => Bad(flaw)
  }

  lemma HeaderJudged(s: bytes, i: nat, f: Frame, maxItem: usize)
    requires At(s, i, Text(f)) && Shaped(f)
    ensures i <= |s|
    ensures ReadHeader(s, i, maxItem)
         == HeaderAnswer(JudgeHeader(f, maxItem), i + |Text(f)| - |RestText(f.rest)| - |f.space|)
  {
    hide At, Tag, Field, NumberIn, PartText, RestText, Text, PartShaped, White, RestShaped;
    FrameStands(s, i, f);
    var a := i + |ITEM_OPEN|;
    var b := a + |PartText(TYPE_OPEN, f.kind, TYPE_CLOSE)|;
    var c := b + |PartText(CODE_OPEN, f.code, CODE_CLOSE)|;
    OpensTag(s, i, ITEM_OPEN);
    FieldJudged(s, a, TYPE, f.kind);
    FieldJudged(s, b, CODE, f.code);
    FieldJudged(s, c, LENGTH, f.length);
    NumbersFit(f);
  }

  lemma NumbersFit(f: Frame)
    ensures var k := NumberIn(f.kind.body, 16, 0x1_0000_0000); k.Value? ==> Word(k.v) == k.v
    ensures var c := NumberIn(f.code.body, 16, 0x1_0000_0000); c.Value? ==> Word(c.v) == c.v
    ensures var l := NumberIn(f.length.body, 10, 0x1_0000_0000_0000_0000); l.Value? ==> l.v < 0x1_0000_0000_0000_0000
  {
  }

  /** What comes before the payload of a frame whose header is good. */
  lemma FrontJudged(s: bytes, i: nat, f: Frame, maxItem: usize)
    requires At(s, i, Text(f)) && Shaped(f) && JudgeHeader(f, maxItem).Head?
    ensures i <= |s|
    ensures var h, e := JudgeHeader(f, maxItem).header, i + |Text(f)| - |RestText(f.rest)|;
      ReadFront(s, i, maxItem) ==
      if f.rest.Empty? then Done(Closed(h), i + |Text(f)|)
      else Done(Open(h), e + |DATA| + |f.rest.attributes| + |GT|)
  {
    hide At, ReadHeader, Choose, DataOpen, WsEnd, JudgeHeader, Text, RestText, PartShaped;
    FrameStands(s, i, f);
    HeaderJudged(s, i, f, maxItem);
    var d := i + |Text(f)| - |RestText(f.rest)| - |f.space|;
    var e := d + |f.space|;
    if f.rest.Empty? {
      EmptyText();
      ChoosesClose(s, e);
    } else {
      RestOpens(s, e, f.rest);
      ChoosesData(s, e);
      DataTagJudged(s, e, f.rest);
    }
    WsReads(s, d, f.space);
  }

  lemma EmptyText()
    ensures RestText(Empty) == ITEM_CLOSE
  {
  }

  lemma RestOpens(s: bytes, e: nat, r: Rest)
    requires r.Data? && At(s, e, RestText(r))
    ensures At(s, e, DATA)
  {
    RestStands(s, e, r);
  }

  /** Whatever its white space, its attributes and its contents, a frame is read as it is
      judged: accepted, or refused for its own reason. */
  lemma FrameJudged(s: bytes, i: nat, f: Frame, maxItem: usize)
    requires At(s, i, Text(f)) && Shaped(f)
    ensures i <= |s| && ParseItem(s, i, maxItem) == Answer(Judge(f, maxItem), i + |Text(f)|)
  {
    hide At, ReadFront, ReadHeader, ReadBack, JudgeHeader, JudgePayload, Text, RestText, PartShaped;
    FrameStands(s, i, f);
    HeaderJudged(s, i, f, maxItem);
    if JudgeHeader(f, maxItem).Head? {
      FrontJudged(s, i, f, maxItem);
      if f.rest.Data? {
        PayloadJudged(s, i + |Text(f)| - |RestText(f.rest)|, f.rest, JudgeHeader(f, maxItem).header, maxItem);
      }
    } else {
      BadHeader(s, i, maxItem);
    }
  }

  lemma BadHeader(s: bytes, i: nat, maxItem: usize)
    requires i <= |s| && ReadHeader(s, i, maxItem).Bad?
    ensures ParseItem(s, i, maxItem) == Bad(ReadHeader(s, i, maxItem).flaw)
  {
    hide ReadHeader, Choose, DataOpen, ReadBack;
  }

  /** A frame whose header is good, but whose payload text holds a byte that is neither
      white space, padding nor a letter of the alphabet, is refused as bad base64. */
  lemma StrangerInPayload(s: bytes, i: nat, f: Frame, maxItem: usize, c: byte)
    requires At(s, i, Text(f)) && Shaped(f) && f.rest.Data? && JudgeHeader(f, maxItem).Head?
    requires c in f.rest.raw && !IsSpace(c) && c != Base64.PAD
    requires forall v: Base64.sextet :: c != Base64Laws.Letter(v) as int
    ensures i <= |s| && ParseItem(s, i, maxItem) == Bad(BadBase64)
  {
    hide At, Text, Shaped, ParseItem, JudgeHeader, Base64.Decode, StripSpace;
    FrameJudged(s, i, f, maxItem);
    assert c in StripSpace(f.rest.raw);
    Base64Laws.StrangerRefused(StripSpace(f.rest.raw), c);
  }

  // --- what is read is a frame, and what is waited for could become one --------------------------

  /** The buffer ends inside the text. */
  predicate Front(s: bytes, i: nat, t: bytes) {
    i <= |s| < i + |t| && s[i..] == t[..|s| - i]
  }

  lemma FrontAfter(s: bytes, i: nat, a: bytes, t: bytes)
    requires At(s, i, a) && Front(s, i + |a|, t)
    ensures Front(s, i, a + t)
  {
    AtSlice(s, i, a);
    assert s[i..] == s[i..i + |a|] + s[i + |a|..];
    assert (a + t)[..|s| - i] == a + t[..|s| - i - |a|];
  }

  lemma AtSlice(s: bytes, i: nat, a: bytes)
    requires At(s, i, a)
    ensures i + |a| <= |s| && s[i..i + |a|] == a
  {
    forall k | 0 <= k < |a| ensures s[i..i + |a|][k] == a[k] {
      assert s[i + k] == a[k];
    }
  }

  lemma FrontGrows(s: bytes, i: nat, t: bytes, more: bytes)
    requires Front(s, i, t)
    ensures Front(s, i, t + more)
  {
  }

  lemma CutIsFront(s: bytes, i: nat, tag: bytes)
    requires i <= |s| && Cut(s, i, tag)
    ensures Front(s, i, tag)
  {
    assert |s[i..]| == |tag[..|s| - i]|;
    forall k | 0 <= k < |s| - i ensures s[i..][k] == tag[..|s| - i][k] {
      assert s[i + k] == tag[i + k - i];
    }
  }

  lemma AtJoins(s: bytes, i: nat, a: bytes, b: bytes)
    requires At(s, i, a) && At(s, i + |a|, b)
    ensures At(s, i, a + b)
  {
    AtConcat(s, i, a, b);
  }

  lemma SliceAt(s: bytes, i: nat, j: nat)
    requires i <= j <= |s|
    ensures At(s, i, s[i..j]) && |s[i..j]| == j - i
  {
    forall k | 0 <= k < j - i ensures s[i + k] == s[i..j][k] {
    }
  }

  lemma SpaceIsWhite(s: bytes, i: nat)
    requires i <= |s|
    ensures i <= WsEnd(s, i) <= |s| && White(s[i..WsEnd(s, i)]) && At(s, i, s[i..WsEnd(s, i)])
  {
    var e := WsEnd(s, i);
    SliceAt(s, i, e);
    forall b | b in s[i..e] ensures IsSpace(b) {
      var k :| 0 <= k < e - i && s[i..e][k] == b;
      assert s[i + k] == b;
    }
  }

  /** What runs up to a terminator holds none. */
  lemma UntilEnds(s: bytes, i: nat, end: bytes)
    requires i <= |s| && Until(s, i, end).Done?
    ensures var u := Until(s, i, end);
      At(s, i, u.value) && u.next == i + |u.value| && At(s, u.next, end) && Ends(u.value, end)
  {
    var u := Until(s, i, end);
    SliceAt(s, i, u.next);
    AtJoins(s, i, u.value, end);
    forall j | 0 <= j < |u.value| ensures !At(u.value + end, j, end) {
      if At(u.value + end, j, end) {
        Outside(s, i, u.value + end, j, end);
      }
    }
  }

  lemma Outside(s: bytes, i: nat, t: bytes, j: nat, pat: bytes)
    requires At(s, i, t) && At(t, j, pat)
    ensures At(s, i + j, pat)
  {
    AtBound(t, j, pat);
    forall k | 0 <= k < |pat| ensures s[i + j + k] == pat[k] {
      assert s[i + (j + k)] == t[j + k];
    }
  }

  /** Begins with a bracket and has no other. */
  predicate OneBracket(tag: bytes) {
    tag != [] && tag[0] == LT && forall k :: 0 < k < |tag| ==> tag[k] != LT
  }

  /** Where a search runs out, what it ran over ends where the terminator would begin. */
  lemma UntilRunsOut(s: bytes, i: nat, end: bytes)
    requires i <= |s| && Until(s, i, end).Incomplete? && (OneBracket(end) || |end| == 1)
    ensures Ends(s[i..], end) && Front(s, i, s[i..] + end)
  {
    var body := s[i..];
    assert (body + end)[..|s| - i] == body;
    forall j | 0 <= j < |body| ensures !At(body + end, j, end) {
      if j + |end| > |body| {
        Differs(body + end, j, end, |body| - j);
      } else if At(body + end, j, end) {
        InBody(s, i, end, j);
      }
    }
  }

  lemma InBody(s: bytes, i: nat, end: bytes, j: nat)
    requires i <= |s| && At(s[i..] + end, j, end) && j + |end| <= |s| - i
    ensures At(s, i + j, end)
  {
    forall k | 0 <= k < |end| ensures s[i + j + k] == end[k] {
      assert (s[i..] + end)[j + k] == end[k];
      assert (s[i..] + end)[j + k] == s[i..][j + k];
    }
  }

  predicate Bracketed(f: FieldSpec) {
    OneBracket(f.open) && OneBracket(f.close)
  }

  lemma FieldSteps(s: bytes, i: nat, f: FieldSpec)
    requires i <= |s| && Field(s, i, f).Done?
    ensures var e := WsEnd(s, i);
      && e + |f.open| <= |s| && At(s, e, f.open) && Until(s, e + |f.open|, f.close).Done?
      && Field(s, i, f).next == Until(s, e + |f.open|, f.close).next + |f.close|
  {
    hide At, ReadNumber, FindFrom, WsEnd;
  }

  lemma FieldIsPart(s: bytes, i: nat, f: FieldSpec) returns (p: Part)
    requires i <= |s| && Field(s, i, f).Done?
    ensures PartShaped(p, f.close) && At(s, i, PartText(f.open, p, f.close))
    ensures Field(s, i, f).next == i + |PartText(f.open, p, f.close)|
  {
    hide At, Until, WsEnd, White, Ends, Field;
    FieldSteps(s, i, f);
    SpaceIsWhite(s, i);
    var e := WsEnd(s, i);
    var a := e + |f.open|;
    UntilEnds(s, a, f.close);
    p := Part(s[i..e], Until(s, a, f.close).value);
    AtJoins(s, i, p.space, f.open);
    AtJoins(s, i, p.space + f.open, p.body);
    AtJoins(s, i, p.space + f.open + p.body, f.close);
  }

  lemma FieldIsFront(s: bytes, i: nat, f: FieldSpec) returns (p: Part)
    requires i <= |s| && Field(s, i, f).Incomplete? && Bracketed(f)
    ensures PartShaped(p, f.close) && Front(s, i, PartText(f.open, p, f.close))
  {
    var e := WsEnd(s, i);
    SpaceIsWhite(s, i);
    if Tag(s, e, f.open).Incomplete? {
      p := Part(s[i..e], []);
      CutIsFront(s, e, f.open);
      hide At, WsEnd, White, Front;
      FrontAfter(s, i, p.space, f.open);
      FrontGrows(s, i, p.space + f.open, p.body);
      FrontGrows(s, i, p.space + f.open + p.body, f.close);
    } else {
      var a := e + |f.open|;
      UntilRunsOut(s, a, f.close);
      hide At, Until, WsEnd, White, Ends, Front;
      p := Part(s[i..e], s[a..]);
      AtJoins(s, i, p.space, f.open);
      FrontAfter(s, i, p.space + f.open, p.body + f.close);
      assert p.space + f.open + (p.body + f.close) == PartText(f.open, p, f.close);
    }
  }

  const NOTHING: Part := Part([], [])

  /** The first n of a frame's fields, and the text up to the end of them. */
  function Fields(f: Frame, n: nat): bytes {
    if n == 0 then ITEM_OPEN
    else if n == 1 then ITEM_OPEN + PartText(TYPE_OPEN, f.kind, TYPE_CLOSE)
    else if n == 2 then
      ITEM_OPEN + PartText(TYPE_OPEN, f.kind, TYPE_CLOSE) + PartText(CODE_OPEN, f.code, CODE_CLOSE)
    else
      ITEM_OPEN + PartText(TYPE_OPEN, f.kind, TYPE_CLOSE) + PartText(CODE_OPEN, f.code, CODE_CLOSE)
      + PartText(LENGTH_OPEN, f.length, LENGTH_CLOSE)
  }

  lemma TextSplits(f: Frame)
    ensures Text(f) == Fields(f, 3) + f.space + RestText(f.rest)
    ensures Fields(f, 3) == Fields(f, 2) + PartText(LENGTH_OPEN, f.length, LENGTH_CLOSE)
    ensures Fields(f, 2) == Fields(f, 1) + PartText(CODE_OPEN, f.code, CODE_CLOSE)
    ensures Fields(f, 1) == Fields(f, 0) + PartText(TYPE_OPEN, f.kind, TYPE_CLOSE)
  {
    hide PartText, RestText;
  }

  lemma FrontOfFields(s: bytes, i: nat, f: Frame, n: nat)
    requires n <= 3 && Front(s, i, Fields(f, n))
    ensures Front(s, i, Text(f))
  {
    TextSplits(f);
    hide Front, Fields, PartText, Text, RestText;
    if n == 0 { FrontGrows(s, i, Fields(f, 0), PartText(TYPE_OPEN, f.kind, TYPE_CLOSE)); }
    if n <= 1 { FrontGrows(s, i, Fields(f, 1), PartText(CODE_OPEN, f.code, CODE_CLOSE)); }
    if n <= 2 { FrontGrows(s, i, Fields(f, 2), PartText(LENGTH_OPEN, f.length, LENGTH_CLOSE)); }
    FrontGrows(s, i, Fields(f, 3), f.space);
    FrontGrows(s, i, Fields(f, 3) + f.space, RestText(f.rest));
  }

  lemma TagsBracketed()
    ensures Bracketed(TYPE) && Bracketed(CODE) && Bracketed(LENGTH) && OneBracket(ITEM_OPEN)
    ensures OneBracket(DATA_CLOSE) && OneBracket(ITEM_CLOSE) && OneBracket(DATA)
  {
  }

  predicate FieldsShaped(f: Frame) {
    PartShaped(f.kind, TYPE_CLOSE) && PartShaped(f.code, CODE_CLOSE) && PartShaped(f.length, LENGTH_CLOSE)
  }

  lemma NothingShaped(close: bytes)
    ensures PartShaped(NOTHING, close)
  {
  }

  /** A header that is read, or waited for, up to its last field. */
  lemma HeaderIsFields(s: bytes, i: nat, maxItem: usize) returns (f: Frame, n: nat)
    requires i <= |s| && (ReadHeader(s, i, maxItem).Done? || ReadHeader(s, i, maxItem).Incomplete?)
    ensures FieldsShaped(f) && f.space == [] && f.rest == Empty && n <= 3
    ensures ReadHeader(s, i, maxItem).Done? ==>
      At(s, i, Fields(f, 3)) && ReadHeader(s, i, maxItem).next == i + |Fields(f, 3)|
    ensures ReadHeader(s, i, maxItem).Incomplete? ==> Front(s, i, Fields(f, n))
  {
    hide At, Field, Front, PartShaped, PartText, Cut;
    TagsBracketed();
    NothingShaped(TYPE_CLOSE);
    NothingShaped(CODE_CLOSE);
    NothingShaped(LENGTH_CLOSE);
    f, n := Frame(NOTHING, NOTHING, NOTHING, [], Empty), 0;
    if Tag(s, i, ITEM_OPEN).Incomplete? {
      CutIsFront(s, i, ITEM_OPEN);
      return;
    }
    var a := i + |ITEM_OPEN|;
    var kind := Field(s, a, TYPE);
    if kind.Incomplete? {
      var p := FieldIsFront(s, a, TYPE);
      f, n := f.(kind := p), 1;
      FrontAfter(s, i, Fields(f, 0), PartText(TYPE_OPEN, p, TYPE_CLOSE));
      return;
    }
    var p1 := FieldIsPart(s, a, TYPE);
    f := f.(kind := p1);
    AtJoins(s, i, Fields(f, 0), PartText(TYPE_OPEN, p1, TYPE_CLOSE));
    var code := Field(s, kind.next, CODE);
    if code.Incomplete? {
      var p := FieldIsFront(s, kind.next, CODE);
      f, n := f.(code := p), 2;
      FrontAfter(s, i, Fields(f, 1), PartText(CODE_OPEN, p, CODE_CLOSE));
      return;
    }
    var p2 := FieldIsPart(s, kind.next, CODE);
    f := f.(code := p2);
    AtJoins(s, i, Fields(f, 1), PartText(CODE_OPEN, p2, CODE_CLOSE));
    var length := Field(s, code.next, LENGTH);
    if length.Incomplete? {
      var p := FieldIsFront(s, code.next, LENGTH);
      f, n := f.(length := p), 3;
      FrontAfter(s, i, Fields(f, 2), PartText(LENGTH_OPEN, p, LENGTH_CLOSE));
      return;
    }
    var p3 := FieldIsPart(s, code.next, LENGTH);
    f := f.(length := p3);
    AtJoins(s, i, Fields(f, 2), PartText(LENGTH_OPEN, p3, LENGTH_CLOSE));
  }

  lemma TagIsText(s: bytes, b: nat) returns (attributes: bytes)
    requires b <= |s| && DataOpen(s, b).Done?
    ensures var open := DATA + attributes + GT;
      Ends(attributes, GT) && At(s, b, open) && DataOpen(s, b).next == b + |open|
  {
    hide At, FindFrom, Ends;
    var a := b + |DATA|;
    UntilEnds(s, a, GT);
    attributes := Until(s, a, GT).value;
    AtJoins(s, b, DATA, attributes);
    AtJoins(s, b, DATA + attributes, GT);
  }

  lemma BackSteps(s: bytes, d: nat, h: Header, maxItem: usize)
    requires d <= |s| && (ReadBack(s, d, h, maxItem).Done? || ReadBack(s, d, h, maxItem).Incomplete?)
    ensures Until(s, d, DATA_CLOSE).Incomplete? ==> ReadBack(s, d, h, maxItem).Incomplete?
    ensures !Until(s, d, DATA_CLOSE).Incomplete? ==>
      && Until(s, d, DATA_CLOSE).Done?
      && var e := WsEnd(s, Until(s, d, DATA_CLOSE).next + |DATA_CLOSE|);
      if ReadBack(s, d, h, maxItem).Done? then At(s, e, ITEM_CLOSE) && ReadBack(s, d, h, maxItem).next == e + |ITEM_CLOSE|
      else Cut(s, e, ITEM_CLOSE)
  {
    hide At, Cut, FindFrom, WsEnd, Base64.Decode, StripSpace;
  }

  /** A payload that is read, or waited for, with what closes it. */
  lemma BackIsText(s: bytes, d: nat, h: Header, maxItem: usize) returns (raw: bytes, gap: bytes)
    requires d <= |s| && (ReadBack(s, d, h, maxItem).Done? || ReadBack(s, d, h, maxItem).Incomplete?)
    ensures Ends(raw, DATA_CLOSE) && White(gap)
    ensures var t := raw + DATA_CLOSE + gap + ITEM_CLOSE;
      if ReadBack(s, d, h, maxItem).Done? then At(s, d, t) && ReadBack(s, d, h, maxItem).next == d + |t|
      else Front(s, d, t)
  {
    BackSteps(s, d, h, maxItem);
    hide At, Cut, Front, Ends, White, Until, WsEnd, OneBracket, ReadBack;
    if Until(s, d, DATA_CLOSE).Incomplete? {
      raw, gap := s[d..], [];
      NoWhite();
      BackRunsOut(s, d);
    } else {
      raw, gap := ClosedIsText(s, d);
      BackCloses(s, d, raw + DATA_CLOSE + gap);
    }
  }

  lemma BackRunsOut(s: bytes, d: nat)
    requires d <= |s| && Until(s, d, DATA_CLOSE).Incomplete?
    ensures Ends(s[d..], DATA_CLOSE) && Front(s, d, s[d..] + DATA_CLOSE + [] + ITEM_CLOSE)
  {
    hide At, Front, Ends, Until, OneBracket;
    TagsBracketed();
    UntilRunsOut(s, d, DATA_CLOSE);
    FrontGrows(s, d, s[d..] + DATA_CLOSE, []);
    FrontGrows(s, d, s[d..] + DATA_CLOSE + [], ITEM_CLOSE);
  }

  lemma BackCloses(s: bytes, d: nat, t: bytes)
    requires At(s, d, t) && d + |t| <= |s|
    ensures At(s, d + |t|, ITEM_CLOSE) ==> At(s, d, t + ITEM_CLOSE)
    ensures Cut(s, d + |t|, ITEM_CLOSE) ==> Front(s, d, t + ITEM_CLOSE)
  {
    hide At, Cut, Front;
    if At(s, d + |t|, ITEM_CLOSE) {
      AtJoins(s, d, t, ITEM_CLOSE);
    }
    if Cut(s, d + |t|, ITEM_CLOSE) {
      CutIsFront(s, d + |t|, ITEM_CLOSE);
      FrontAfter(s, d, t, ITEM_CLOSE);
    }
  }

  /** A payload up to the item's closing tag. */
  lemma ClosedIsText(s: bytes, d: nat) returns (raw: bytes, gap: bytes)
    requires d <= |s| && Until(s, d, DATA_CLOSE).Done?
    ensures Ends(raw, DATA_CLOSE) && White(gap) && At(s, d, raw + DATA_CLOSE + gap)
    ensures WsEnd(s, Until(s, d, DATA_CLOSE).next + |DATA_CLOSE|) == d + |raw + DATA_CLOSE + gap| <= |s|
  {
    hide At, Ends, White, Until, WsEnd;
    UntilEnds(s, d, DATA_CLOSE);
    raw := Until(s, d, DATA_CLOSE).value;
    var g := d + |raw| + |DATA_CLOSE|;
    AtJoins(s, d, raw, DATA_CLOSE);
    AtBound(s, d, raw + DATA_CLOSE);
    SpaceIsWhite(s, g);
    gap := s[g..WsEnd(s, g)];
    AtJoins(s, d, raw + DATA_CLOSE, gap);
  }

  /** What follows a header, once its data tag has been read. */
  lemma RestIsText(s: bytes, b: nat, h: Header, maxItem: usize) returns (r: Rest)
    requires b <= |s| && DataOpen(s, b).Done?
    requires var back := ReadBack(s, DataOpen(s, b).next, h, maxItem); back.Done? || back.Incomplete?
    ensures r.Data? && RestShaped(r)
    ensures var back := ReadBack(s, DataOpen(s, b).next, h, maxItem);
      if back.Done? then At(s, b, RestText(r)) && back.next == b + |RestText(r)|
      else Front(s, b, RestText(r))
  {
    hide At, Front, Ends, White, ReadBack, DataOpen, RestText;
    var attributes := TagIsText(s, b);
    var open := DATA + attributes + GT;
    var raw, gap := BackIsText(s, b + |open|, h, maxItem);
    r := Data(attributes, raw, gap);
    var t := raw + DATA_CLOSE + gap + ITEM_CLOSE;
    DataText(attributes, raw, gap);
    if ReadBack(s, b + |open|, h, maxItem).Done? {
      AtJoins(s, b, open, t);
    } else {
      FrontAfter(s, b, open, t);
    }
  }

  lemma DataText(attributes: bytes, raw: bytes, gap: bytes)
    ensures RestText(Data(attributes, raw, gap)) == DATA + attributes + GT + (raw + DATA_CLOSE + gap + ITEM_CLOSE)
  {
  }

  lemma NoWhite()
    ensures White([])
  {
  }

  /** What follows the header, when it is still being waited for. */
  lemma RestIsAwaited(s: bytes, b: nat) returns (r: Rest)
    requires b <= |s|
    requires Choose(s, b).Incomplete? || (Choose(s, b) == Done(false, b) && DataOpen(s, b).Incomplete?)
    ensures RestShaped(r) && Front(s, b, RestText(r))
  {
    NoWhite();
    hide White, FindFrom;
    if Choose(s, b).Incomplete? {
      if Cut(s, b, ITEM_CLOSE) {
        r := Empty;
        CutIsFront(s, b, ITEM_CLOSE);
      } else {
        r := Data([], [], []);
        CutIsFront(s, b, DATA);
        DataGrows(s, b, DATA, [], [], []);
      }
    } else {
      var a := b + |DATA|;
      UntilRunsOut(s, a, GT);
      r := Data(s[a..], [], []);
      FrontAfter(s, b, DATA, s[a..] + GT);
      assert DATA + (s[a..] + GT) == DATA + s[a..] + GT;
      DataGrows(s, b, DATA + s[a..] + GT, s[a..], [], []);
    }
  }

  lemma DataGrows(s: bytes, b: nat, t: bytes, attributes: bytes, raw: bytes, gap: bytes)
    requires Front(s, b, t) && (t == DATA || t == DATA + attributes + GT)
    ensures Front(s, b, RestText(Data(attributes, raw, gap)))
  {
    hide Front;
    var more := RestText(Data(attributes, raw, gap))[|t|..];
    assert RestText(Data(attributes, raw, gap)) == t + more;
    FrontGrows(s, b, t, more);
  }

  lemma ItemSteps(s: bytes, i: nat, maxItem: usize)
    requires i <= |s| && (ParseItem(s, i, maxItem).Done? || ParseItem(s, i, maxItem).Incomplete?)
    ensures ReadHeader(s, i, maxItem).Done? || ReadHeader(s, i, maxItem).Incomplete?
    ensures ReadHeader(s, i, maxItem).Incomplete? ==> ParseItem(s, i, maxItem).Incomplete?
    ensures ReadHeader(s, i, maxItem).Done? ==>
      var h, b := ReadHeader(s, i, maxItem).value, WsEnd(s, ReadHeader(s, i, maxItem).next);
      var choice, parsed := Choose(s, b), ParseItem(s, i, maxItem);
      || (choice.Incomplete? && parsed.Incomplete?)
      || (choice == Done(true, b) && At(s, b, ITEM_CLOSE) && parsed.Done? && parsed.next == b + |ITEM_CLOSE|)
      || (choice == Done(false, b) && DataOpen(s, b).Incomplete? && parsed.Incomplete?)
      || (&& choice == Done(false, b) && DataOpen(s, b).Done?
          && ReadBack(s, DataOpen(s, b).next, h, maxItem) == parsed)
  {
    hide At, Cut, ReadHeader, DataOpen, ReadBack, WsEnd;
  }

  /** What the parser accepts is a frame, and it stops at the end of it; what it waits
      for could still become one. */
  lemma ItemIsFrame(s: bytes, i: nat, maxItem: usize) returns (f: Frame)
    requires i <= |s| && (ParseItem(s, i, maxItem).Done? || ParseItem(s, i, maxItem).Incomplete?)
    ensures Shaped(f)
    ensures ParseItem(s, i, maxItem).Done? ==> At(s, i, Text(f)) && ParseItem(s, i, maxItem).next == i + |Text(f)|
    ensures ParseItem(s, i, maxItem).Incomplete? ==> Front(s, i, Text(f))
  {
    hide At, Front, ParseItem, ReadHeader, DataOpen, ReadBack, WsEnd, PartShaped, White, Fields, Text, Choose, RestShaped, RestText;
    ItemSteps(s, i, maxItem);
    EmptyShaped();
    NoWhite();
    var n;
    f, n := HeaderIsFields(s, i, maxItem);
    if ReadHeader(s, i, maxItem).Incomplete? {
      FrontOfFields(s, i, f, n);
      return;
    }
    var d := ReadHeader(s, i, maxItem).next;
    var b := WsEnd(s, d);
    SpaceIsWhite(s, d);
    f := f.(space := s[d..b]);
    SameFields(f, f.space, f.rest);
    AtJoins(s, i, Fields(f, 3), f.space);
    if Choose(s, b) == Done(true, b) {
      TextSplits(f);
      EmptyText();
      AtJoins(s, i, Fields(f, 3) + f.space, ITEM_CLOSE);
    } else if Choose(s, b).Incomplete? || DataOpen(s, b).Incomplete? {
      var r := RestIsAwaited(s, b);
      SameFields(f, f.space, r);
      f := f.(rest := r);
      TextSplits(f);
      FrontAfter(s, i, Fields(f, 3) + f.space, RestText(r));
    } else {
      var r := RestIsText(s, b, ReadHeader(s, i, maxItem).value, maxItem);
      SameFields(f, f.space, r);
      f := f.(rest := r);
      TextSplits(f);
      if ParseItem(s, i, maxItem).Done? {
        AtJoins(s, i, Fields(f, 3) + f.space, RestText(r));
      } else {
        FrontAfter(s, i, Fields(f, 3) + f.space, RestText(r));
      }
    }
  }

  lemma EmptyShaped()
    ensures RestShaped(Empty)
  {
  }

  lemma SameFields(f: Frame, space: bytes, r: Rest)
    ensures Fields(f.(space := space, rest := r), 3) == Fields(f, 3)
    ensures Fields(Frame(f.kind, f.code, f.length, [], Empty), 3) == Fields(f, 3)
  {
  }

  // --- the whole answer -----------------------------------------------------------------------------

  ghost predicate Complete(s: bytes, i: nat, f: Frame) {
    Shaped(f) && At(s, i, Text(f))
  }

  ghost predicate Begun(s: bytes, i: nat, f: Frame) {
    Shaped(f) && Front(s, i, Text(f))
  }

  /** Accepted means a frame stands there whose verdict that is. */
  lemma AcceptedIff(s: bytes, i: nat, maxItem: usize, item: Item, mismatch: bool, next: nat)
    requires i <= |s|
    ensures ParseItem(s, i, maxItem) == Done(Parsed(item, mismatch), next) <==>
      exists f: Frame :: Complete(s, i, f) && Judge(f, maxItem) == Accept(item, mismatch) && next == i + |Text(f)|
  {
    hide ParseItem, Judge, Text, At, Shaped;
    if ParseItem(s, i, maxItem) == Done(Parsed(item, mismatch), next) {
      var f := ItemIsFrame(s, i, maxItem);
      FrameJudged(s, i, f, maxItem);
      assert Complete(s, i, f);
    }
    if f: Frame :| Complete(s, i, f) && Judge(f, maxItem) == Accept(item, mismatch) && next == i + |Text(f)| {
      FrameJudged(s, i, f, maxItem);
    }
  }

  /** A complete frame is never waited for, and what is waited for is the beginning of
      a frame. So bytes that neither hold a frame nor could grow into one are refused. */
  lemma WaitsOnlyForFrames(s: bytes, i: nat, maxItem: usize)
    requires i <= |s|
    ensures ParseItem(s, i, maxItem).Incomplete? ==>
      (exists f: Frame :: Begun(s, i, f)) && !exists f: Frame :: Complete(s, i, f)
    ensures (!exists f: Frame :: Begun(s, i, f) || Complete(s, i, f)) ==> ParseItem(s, i, maxItem).Bad?
  {
    hide ParseItem, Judge, Text, At, Shaped, Front;
    if !ParseItem(s, i, maxItem).Bad? {
      var f := ItemIsFrame(s, i, maxItem);
      assert Begun(s, i, f) || Complete(s, i, f);
    }
    if f: Frame :| Complete(s, i, f) {
      FrameJudged(s, i, f, maxItem);
    }
  }
}
