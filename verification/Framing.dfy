/** The incremental parser: a buffer that grows at one end and is compacted at
    the other, a read cursor, and a hint that lets a half-received payload
    resume its terminator scan. */
module Framing {
  import opened Bytes
  import opened Numerals
  import opened Wire
  import opened WholeScan
  import Base64

  datatype Limits = Limits(maxItem: usize, maxBuffer: usize)

  const DEFAULT_LIMITS := Limits(8 * 1024 * 1024, 16 * 1024 * 1024)

  /** Consumed bytes worth the cost of moving the rest down. */
  const COMPACT_AT := 64 * 1024

  datatype ParseError =
    | MalformedAt(offset: nat, reason: Reason)
    | Junk(offset: nat, len: nat)
    | TooLargeAt(offset: nat, len: nat, max: nat)
    | BufferOverflow(max: nat)
    | BadBase64At(offset: nat)

  /** What one call to NextItem returns: nothing yet, an item, or a recoverable error. */
  datatype Reply = Nothing | Got(item: Item) | Failed(error: ParseError)

  datatype Stats = Stats(items: nat, errors: nat, junkBytes: nat, lengthMismatches: nat)

  // --- the specification of one call ------------------------------------------

  predicate Significant(junk: bytes) {
    exists k :: 0 <= k < |junk| && !IsSpace(junk[k])
  }

  /** The report for a decision. */
  function ReplyFor(e: Event, limits: Limits): Reply {
    match e
    case Accepted(_, _, parsed) => Got(parsed.item)
    case Rejected(at, flaw) =>
      Failed(match flaw
             case TooLarge(len) => TooLargeAt(at, len, limits.maxItem)
             case BadBase64 => BadBase64At(at)
             case Malformed(reason) => MalformedAt(at, reason))
  }

  /** One call: the reply, the decision it reports (if it reports one), the
      position it leaves behind, and the bytes it skipped as junk. */
  datatype Step = Step(reply: Reply, event: Option<Event>, end: nat, skipped: nat)

  /** The step taken on the stream s from position p. */
  function StepFrom(s: bytes, p: nat, limits: Limits): (r: Step)
    requires p <= |s|
    ensures p <= r.end <= |s|
    ensures !r.reply.Nothing? ==> p < r.end
    ensures r.reply.Failed? && r.reply.error.BufferOverflow? ==> |s| - p > limits.maxBuffer
  {
    match FindFrom(s, p, ITEM_OPEN)
    case None =>
      var skip := if |s| - p > KEEP then |s| - p - KEEP else 0;
      if Significant(s[p..p + skip]) then Step(Failed(Junk(p, skip)), None, p + skip, skip)
      else Step(Nothing, None, p + skip, skip)
    case Some(o) =>
      if Significant(s[p..o]) then Step(Failed(Junk(p, o - p)), None, o, o - p)
      else match EventAt(s, o, limits.maxItem)
        case Some(e) => Step(ReplyFor(e, limits), Some(e), e.After(), o - p)
        case None =>
          if |s| - o > limits.maxBuffer then Step(Failed(BufferOverflow(limits.maxBuffer)), None, o + 1, o - p)
          else Step(Nothing, None, o, o - p)
  }

  lemma StepWithoutTag(s: bytes, p: nat, limits: Limits)
    requires p <= |s| && FindFrom(s, p, ITEM_OPEN).None?
    ensures var skip := if |s| - p > KEEP then |s| - p - KEEP else 0;
            StepFrom(s, p, limits)
              == Step(if Significant(s[p..p + skip]) then Failed(Junk(p, skip)) else Nothing, None, p + skip, skip)
  {
  }

  lemma StepAtTag(s: bytes, p: nat, o: nat, limits: Limits)
    requires p <= o < |s| && FindFrom(s, p, ITEM_OPEN) == Some(o)
    ensures StepFrom(s, p, limits)
         == if Significant(s[p..o]) then Step(Failed(Junk(p, o - p)), None, o, o - p)
            else match EventAt(s, o, limits.maxItem)
              case Some(e) => Step(ReplyFor(e, limits), Some(e), e.After(), o - p)
              case None =>
                if |s| - o > limits.maxBuffer then
                  Step(Failed(BufferOverflow(limits.maxBuffer)), None, o + 1, o - p)
                else Step(Nothing, None, o, o - p)
  {
  }

  predicate IsOverflow(r: Reply) {
    r.Failed? && r.error.BufferOverflow?
  }

  /** The events a step adds to the history. */
  function Added(step: Step): seq<Event> {
    if step.event.Some? then [step.event.value] else []
  }

  /** A step that does not overflow extends a decided history, and accounts for every byte it passes. */
  lemma StepLeads(s: bytes, es: seq<Event>, p: nat, limits: Limits)
    requires p <= |s| && Leads(s, es, p, limits.maxItem)
    requires !IsOverflow(StepFrom(s, p, limits).reply)
    ensures var step := StepFrom(s, p, limits);
            && Leads(s, es + Added(step), step.end, limits.maxItem)
            && step.end - Extents(es + Added(step)) == p - Extents(es) + step.skipped
  {
    hide EventAt, At, Leads, Extents;
    var step := StepFrom(s, p, limits);
    match FindFrom(s, p, ITEM_OPEN)
    case None =>
      assert Gap(s, p, step.end);
      LeadsGap(s, es, p, step.end, limits.maxItem);
      assert es + Added(step) == es;
    case Some(o) =>
      GapTo(s, p, o);
      LeadsGap(s, es, p, o, limits.maxItem);
      if step.event.Some? {
        LeadsEvent(s, es, step.event.value, limits.maxItem);
      } else {
        assert es + Added(step) == es;
      }
  }

  lemma GapTo(s: bytes, p: nat, o: nat)
    requires FindFrom(s, p, ITEM_OPEN) == Some(o)
    ensures Gap(s, p, o)
  {
  }

  /** The parser asks for more only while it holds a bounded amount: an item
      within the buffer limit, or a tail too short for a tag. */
  lemma BufferIsBounded(s: bytes, p: nat, limits: Limits)
    requires p <= |s| && StepFrom(s, p, limits).reply.Nothing?
    ensures var held := |s| - StepFrom(s, p, limits).end; held <= KEEP || held <= limits.maxBuffer
  {
    hide EventAt, Significant;
  }

  /** When a step asks for more input, the whole-stream scan has nothing further to report either. */
  lemma NothingMeansSettled(s: bytes, es: seq<Event>, p: nat, limits: Limits)
    requires p <= |s| && StepFrom(s, p, limits).reply.Nothing?
    requires Leads(s, es, StepFrom(s, p, limits).end, limits.maxItem)
    ensures Scan(s, 0, limits.maxItem) == Trace(es, StepFrom(s, p, limits).end)
  {
    hide EventAt, Leads;
    var q := StepFrom(s, p, limits).end;
    match FindFrom(s, p, ITEM_OPEN) {
      case None =>
        assert forall j :: q <= j ==> !At(s, j, ITEM_OPEN);
      case Some(o) =>
        FindIs(s, o, ITEM_OPEN, o);
    }
    LeadsScans(s, es, q, limits.maxItem);
    assert Scan(s, q, limits.maxItem) == Trace([], q);
    assert es + [] == es;
  }

  // --- the terminator hint ------------------------------------------------------

  /** The first h bytes from pos on are known not to hold the payload terminator
      (h = 0 claims nothing; a positive h means the payload has been reached). */
  ghost predicate HintOk(b: bytes, pos: nat, h: nat, maxItem: usize) {
    h == 0
    || (&& pos + h <= |b|
        && ReadFront(b, pos, maxItem).Done?
        && ReadFront(b, pos, maxItem).value.Open?
        && forall j :: ReadFront(b, pos, maxItem).next <= j && j + |DATA_CLOSE| <= pos + h
             ==> !At(b, j, DATA_CLOSE))
  }

  lemma HintExtends(b: bytes, c: bytes, pos: nat, h: nat, maxItem: usize)
    requires b <= c && HintOk(b, pos, h, maxItem)
    ensures HintOk(c, pos, h, maxItem)
  {
    hide ReadFront;
    if h > 0 {
      FrontExtends(b, c, pos, maxItem);
      forall j | ReadFront(b, pos, maxItem).next <= j && j + |DATA_CLOSE| <= pos + h
        ensures !At(c, j, DATA_CLOSE)
      {
        assert At(c, j, DATA_CLOSE) ==> At(b, j, DATA_CLOSE);
      }
    }
  }

  lemma HintShift(b: bytes, k: nat, h: nat, maxItem: usize)
    requires k <= |b| && HintOk(b, k, h, maxItem)
    ensures HintOk(b[k..], 0, h, maxItem)
  {
    hide ReadFront, At;
    if h > 0 {
      FrontShift(b, k, 0, maxItem);
      forall j | ReadFront(b[k..], 0, maxItem).next <= j && j + |DATA_CLOSE| <= h
        ensures !At(b[k..], j, DATA_CLOSE)
      {
        AtShift(b, k, j, DATA_CLOSE);
      }
    }
  }

  // --- the cursor -----------------------------------------------------------------

  /** A position in an immutable slice, advanced as things are recognised. */
  class Cursor {
    const b: bytes
    var i: nat

    constructor (b: bytes, i: nat)
      ensures this.b == b && this.i == i
    {
      this.b := b;
      this.i := i;
    }

    method Choose() returns (r: Attempt<bool>)
      requires i <= |b|
      ensures r == Wire.Choose(b, i)
    {
      if At(b, i, ITEM_CLOSE) {
        return Done(true, i);
      }
      if At(b, i, DATA) {
        return Done(false, i);
      }
      if Cut(b, i, ITEM_CLOSE) || Cut(b, i, DATA) {
        return Incomplete;
      }
      return Bad(Malformed(ExpectedCloseOrData));
    }

    method Tag(tag: bytes) returns (r: Attempt<()>)
      requires i <= |b|
      modifies this
      ensures i <= |b| && r == Wire.Tag(b, old(i), tag)
      ensures i == if r.Done? then r.next else old(i)
    {
      if At(b, i, tag) {
        i := i + |tag|;
        return Done((), i);
      }
      if Cut(b, i, tag) {
        return Incomplete;
      }
      return Bad(Malformed(UnexpectedTag));
    }

    method Ws()
      requires i <= |b|
      modifies this
      ensures i <= |b| && i == WsEnd(b, old(i))
    {
      while i < |b| && IsSpace(b[i])
        invariant i <= |b| && WsEnd(b, i) == WsEnd(b, old(i))
        decreases |b| - i
      {
        i := i + 1;
      }
    }

    method Until(end: bytes) returns (r: Attempt<bytes>)
      requires i <= |b|
      modifies this
      ensures i <= |b| && r == Wire.Until(b, old(i), end)
      ensures i == if r.Done? then r.next else old(i)
    {
      match FindFrom(b, i, end)
      case Some(n) =>
        var found := b[i..n];
        i := n;
        return Done(found, n);
      case None =>
        return Incomplete;
    }

    /** Like Until, but skips what an earlier failed scan already covered:
        hint bytes from origin on, less enough for a straddling terminator. */
    method UntilHinted(end: bytes, origin: nat, hint: nat) returns (r: Attempt<bytes>, hint': nat)
      requires origin <= i <= |b| && end != [] && (hint == 0 || origin + hint <= |b|)
      requires forall j :: i <= j && j + |end| <= origin + hint ==> !At(b, j, end)
      modifies this
      ensures i <= |b| && r == Wire.Until(b, old(i), end)
      ensures i == if r.Done? then r.next else old(i)
      ensures hint' == if r.Done? then hint else |b| - origin
    {
      var resume := if origin + hint >= |end| - 1 then origin + hint - (|end| - 1) else 0;
      var from := if resume > i then resume else i;
      hint' := hint;
      match FindFrom(b, from, end)
      case Some(n) =>
        FindIs(b, i, end, n);
        var found := b[i..n];
        i := n;
        return Done(found, n), hint;
      case None =>
        assert forall j :: i <= j ==> !At(b, j, end);
        return Incomplete, |b| - origin;
    }

    method NumberField(f: FieldSpec) returns (r: Attempt<nat>)
      requires i <= |b|
      modifies this
      ensures i <= |b| && r == FieldHere(b, old(i), f)
      ensures r.Done? ==> i == r.next
    {
      var open := Tag(f.open);
      if !open.Done? {
        return open.PropagateFailure();
      }
      var body := Until(f.close);
      if !body.Done? {
        return body.PropagateFailure();
      }
      var _ := Tag(f.close);
      var number := ReadNumber(body.value, f);
      if !number.Done? {
        return number;
      }
      return Done(number.value, i);
    }
  }

  /** Read the header at the cursor. */
  method ReadHeaderAt(c: Cursor, maxItem: usize) returns (r: Attempt<Header>)
    requires c.i <= |c.b|
    modifies c
    ensures c.i <= |c.b| && r == ReadHeader(c.b, old(c.i), maxItem)
    ensures r.Done? ==> c.i == r.next
  {
    hide At, Cut, FieldHere, WsEnd;
    var open := c.Tag(ITEM_OPEN);
    if !open.Done? {
      return open.PropagateFailure();
    }
    c.Ws();
    var kind := c.NumberField(TYPE);
    if !kind.Done? {
      return kind.PropagateFailure();
    }
    c.Ws();
    var code := c.NumberField(CODE);
    if !code.Done? {
      return code.PropagateFailure();
    }
    c.Ws();
    var declared := c.NumberField(LENGTH);
    if !declared.Done? {
      return declared.PropagateFailure();
    }
    if declared.value > maxItem {
      return Bad(TooLarge(declared.value));
    }
    return Done(Header(kind.value, code.value, declared.value), c.i);
  }

  /** Read the payload at the cursor, resuming the terminator scan at the hint. */
  method ReadBackAt(c: Cursor, header: Header, maxItem: usize, start: nat, hint: nat)
    returns (r: Attempt<Parsed>, hint': nat)
    requires start <= c.i <= |c.b| && (hint == 0 || start + hint <= |c.b|)
    requires forall j :: c.i <= j && j + |DATA_CLOSE| <= start + hint ==> !At(c.b, j, DATA_CLOSE)
    modifies c
    ensures r == ReadBack(c.b, old(c.i), header, maxItem)
    ensures hint' == if Wire.Until(c.b, old(c.i), DATA_CLOSE).Done? then hint else |c.b| - start
  {
    hide At, Cut, WsEnd, Base64.Decode, StripSpace;
    ghost var d := c.i;
    var raw;
    raw, hint' := c.UntilHinted(DATA_CLOSE, start, hint);
    if !raw.Done? {
      return raw.PropagateFailure(), hint';
    }
    TagFound(c.b, d, DATA_CLOSE);
    var _ := c.Tag(DATA_CLOSE);
    c.Ws();
    var close := c.Tag(ITEM_CLOSE);
    if !close.Done? {
      return close.PropagateFailure(), hint';
    }
    match Base64.Decode(StripSpace(raw.value))
    case None =>
      return Bad(BadBase64), hint';
    case Some(payload) =>
      if |payload| > maxItem {
        return Bad(TooLarge(|payload|)), hint';
      }
      return Done(Parsed(Item(header.kind, header.code, payload), |payload| != header.declared), c.i), hint';
  }

  lemma TagFound(s: bytes, i: nat, end: bytes)
    requires i <= |s| && Wire.Until(s, i, end).Done?
    ensures var n := Wire.Until(s, i, end).next; Tag(s, n, end) == Done((), n + |end|)
  {
  }

  /** The grammar's answer for the buffer at an offset, found with a resumed scan. */
  method ParseItemAt(b: bytes, start: nat, maxItem: usize, hint: nat) returns (r: Attempt<Parsed>, hint': nat)
    requires start <= |b| && HintOk(b, start, hint, maxItem)
    ensures r == ParseItem(b, start, maxItem)
    ensures r.Incomplete? ==> HintOk(b, start, hint', maxItem)
  {
    hide ReadHeader, At, Cut, WsEnd, ReadBack;
    hint' := hint;
    var c := new Cursor(b, start);
    var header := ReadHeaderAt(c, maxItem);
    if !header.Done? {
      return header.PropagateFailure(), hint;
    }
    c.Ws();
    var closes := c.Choose();
    if !closes.Done? {
      return closes.PropagateFailure(), hint;
    }
    if closes.value {
      TagThere(b, c.i, ITEM_CLOSE);
      var _ := c.Tag(ITEM_CLOSE);
      var h := header.value;
      return Done(Parsed(Item(h.kind, h.code, []), h.declared != 0), c.i), hint;
    }
    TagThere(b, c.i, DATA);
    var _ := c.Tag(DATA);
    var attributes := c.Until(GT);
    if !attributes.Done? {
      return attributes.PropagateFailure(), hint;
    }
    TagFound(b, c.i - |attributes.value|, GT);
    var _ := c.Tag(GT);
    assert ReadFront(b, start, maxItem) == Done(Open(header.value), c.i);
    ghost var d := c.i;
    r, hint' := ReadBackAt(c, header.value, maxItem, start, hint);
    if r.Incomplete? {
      HintAfter(b, start, d, header.value, maxItem, hint, hint');
    }
  }

  lemma TagThere(s: bytes, i: nat, tag: bytes)
    requires At(s, i, tag)
    ensures Tag(s, i, tag) == Done((), i + |tag|)
  {
  }

  lemma HintAfter(b: bytes, start: nat, d: nat, header: Header, maxItem: usize, hint: nat, hint': nat)
    requires start <= |b| && HintOk(b, start, hint, maxItem)
    requires ReadFront(b, start, maxItem) == Done(Open(header), d)
    requires hint' == if Wire.Until(b, d, DATA_CLOSE).Done? then hint else |b| - start
    ensures HintOk(b, start, hint', maxItem)
  {
    hide ReadFront;
  }

  // --- the parser -------------------------------------------------------------------

  class Parser {
    var buf: bytes
    var pos: nat
    var base: nat
    var scanHint: nat
    const limits: Limits
    var stats: Stats

    /** Everything ever fed. */
    ghost var stream: bytes
    /** The decisions reported so far. */
    ghost var events: seq<Event>
    /** Junk reports and buffer overflows so far; each is an error that decides nothing. */
    ghost var junkReports: nat
    ghost var overflows: nat

    /** Absolute offset of the read cursor. */
    ghost function Offset(): nat
      reads this
    {
      base + pos
    }

    /** The buffer is the unconsumed end of the stream, the hint is sound, the
        counters account for every byte and every report, and, as long as
        nothing overflowed, the events are the decided history of the stream. */
    ghost predicate Valid()
      reads this
    {
      && pos <= |buf|
      && base <= |stream|
      && buf == stream[base..]
      && HintOk(buf, pos, scanHint, limits.maxItem)
      && Counted(stats, events, junkReports, overflows, Offset())
      && (overflows == 0 ==> Leads(stream, events, Offset(), limits.maxItem))
    }

    constructor (limits: Limits := DEFAULT_LIMITS)
      ensures Valid() && stream == [] && events == [] && this.limits == limits
      ensures Offset() == 0 && stats == Stats(0, 0, 0, 0) && junkReports == 0 && overflows == 0
    {
      buf, pos, base, scanHint := [], 0, 0, 0;
      this.limits := limits;
      stats := Stats(0, 0, 0, 0);
      stream, events, junkReports, overflows := [], [], 0, 0;
    }

    /** Take in what has arrived. */
    method Feed(data: bytes)
      requires Valid()
      modifies this
      ensures Valid()
      ensures stream == old(stream) + data && events == old(events) && Offset() == old(Offset())
      ensures stats == old(stats) && junkReports == old(junkReports) && overflows == old(overflows)
      ensures |buf| < |stream| - Offset() + COMPACT_AT
    {
      hide HintOk, Leads, Counted;
      Compact();
      ghost var before := buf;
      buf := buf + data;
      HintExtends(before, buf, pos, scanHint, limits.maxItem);
      if overflows == 0 {
        LeadsExtends(stream, stream + data, events, Offset(), limits.maxItem);
      }
      stream := stream + data;
    }

    /** The bytes not yet consumed. */
    method Remainder() returns (r: bytes)
      requires Valid()
      ensures r == stream[Offset()..]
    {
      r := buf[pos..];
    }

    /** Drop the consumed prefix, once it is worth it. Nothing observable changes. */
    method Compact()
      requires Valid()
      modifies this
      ensures Valid()
      ensures stream == old(stream) && events == old(events) && Offset() == old(Offset())
      ensures stats == old(stats) && junkReports == old(junkReports) && overflows == old(overflows)
      ensures pos < COMPACT_AT
    {
      if pos == 0 {
        return;
      }
      if pos >= COMPACT_AT || pos == |buf| {
        hide HintOk, Leads, Counted;
        HintShift(buf, pos, scanHint, limits.maxItem);
        assert stream[base..][pos..] == stream[base + pos..];
        buf := buf[pos..];
        base := base + pos;
        pos := 0;
      }
    }

    /** One call: an item, an error, or Nothing until the stream grows. */
    method NextItem() returns (r: Reply)
      requires Valid()
      modifies this
      ensures Valid() && stream == old(stream)
      ensures var step := StepFrom(stream, old(Offset()), limits);
              && r == step.reply
              && Offset() == step.end
              && events == old(events) + Added(step)
              && stats.junkBytes == old(stats.junkBytes) + step.skipped
              && overflows == old(overflows) + (if IsOverflow(r) then 1 else 0)
      ensures !r.Nothing? ==> old(Offset()) < Offset()
      ensures r.Nothing? && overflows == 0 ==> Scan(stream, 0, limits.maxItem) == Trace(events, Offset())
    {
      hide HintOk, Counted, Leads, EventAt, Scan, At, Significant, FindFrom, StepFrom;
      ghost var p := Offset();
      FindShift(stream, base, pos, ITEM_OPEN);
      match FindFrom(buf, pos, ITEM_OPEN) {
        case None =>
          StepWithoutTag(stream, p, limits);
          // The last few bytes could be the front of a tag still on its way.
          var unparsed := |buf| - pos;
          var skip := if unparsed > KEEP then unparsed - KEEP else 0;
          var significant := SkipJunk(skip);
          if significant {
            return Failed(Junk(base + pos - skip, skip));
          }
          Compact();
          r := Nothing;
        case Some(at) =>
          var skip := at - pos;
          AtBound(stream, p + skip, ITEM_OPEN);
          StepAtTag(stream, p, p + skip, limits);
          GapTo(stream, p, p + skip);
          var significant := SkipJunk(skip);
          if significant {
            return Failed(Junk(base + pos - skip, skip));
          }
          r := ParseHere();
      }
      if r.Nothing? && overflows == 0 {
        NothingMeansSettled(stream, events, p, limits);
      }
    }

    /** Step over bytes that hold no item tag; true if any of them is worth a report. */
    method SkipJunk(n: nat) returns (significant: bool)
      requires Valid() && pos + n <= |buf| && Gap(stream, Offset(), Offset() + n)
      modifies this
      ensures Valid() && stream == old(stream) && buf == old(buf) && base == old(base)
      ensures events == old(events) && overflows == old(overflows)
      ensures pos == old(pos) + n && stats.junkBytes == old(stats.junkBytes) + n
      ensures significant == Significant(stream[old(Offset())..old(Offset()) + n])
    {
      hide HintOk, Leads, Extents, Items, Mismatched, At;
      assert buf[pos..pos + n] == stream[Offset()..Offset() + n];
      if n == 0 {
        return false;
      }
      if overflows == 0 {
        LeadsGap(stream, events, Offset(), Offset() + n, limits.maxItem);
      }
      significant := Significant(buf[pos..pos + n]);
      pos := pos + n;
      scanHint := 0;
      NoHint(buf, pos, limits.maxItem);
      stats := stats.(junkBytes := stats.junkBytes + n);
      if significant {
        stats := stats.(errors := stats.errors + 1);
        junkReports := junkReports + 1;
      }
    }

    /** Attempt the item whose tag is at the cursor. */
    method ParseHere() returns (r: Reply)
      requires Valid() && At(stream, Offset(), ITEM_OPEN)
      modifies this
      ensures Valid() && stream == old(stream) && stats.junkBytes == old(stats.junkBytes)
      ensures match EventAt(stream, old(Offset()), limits.maxItem)
              case Some(e) =>
                && r == ReplyFor(e, limits) && Offset() == e.After()
                && events == old(events) + [e] && overflows == old(overflows)
              case None =>
                && events == old(events)
                && if |stream| - old(Offset()) > limits.maxBuffer then
                     && r == Failed(BufferOverflow(limits.maxBuffer))
                     && Offset() == old(Offset()) + 1 && overflows == old(overflows) + 1
                   else
                     && r == Nothing && Offset() == old(Offset()) && overflows == old(overflows)
    {
      hide HintOk, Leads, ParseItem, EventAt, Counted, At;
      var start := pos;
      ghost var p := Offset();
      AtBound(stream, p, ITEM_OPEN);
      EventHere(stream, base, start, limits.maxItem);
      var attempt, hint := ParseItemAt(buf, start, limits.maxItem, scanHint);
      if attempt.Incomplete? {
        scanHint := hint;
        if |buf| - start > limits.maxBuffer {
          pos := start + 1;
          scanHint := 0;
          NoHint(buf, pos, limits.maxItem);
          CountedOverflow(stats, events, junkReports, overflows, p);
          stats := stats.(errors := stats.errors + 1);
          overflows := overflows + 1;
          return Failed(BufferOverflow(limits.maxBuffer));
        }
        return Nothing;
      }
      r := Settle(attempt);
    }

    /** Act on a decided attempt: move past an accepted item, or one byte into a bad one. */
    method Settle(attempt: Attempt<Parsed>) returns (r: Reply)
      requires Valid() && pos < |buf| && At(stream, Offset(), ITEM_OPEN)
      requires attempt == ParseItem(buf, pos, limits.maxItem) && !attempt.Incomplete?
      modifies this
      ensures Valid() && stream == old(stream) && stats.junkBytes == old(stats.junkBytes)
      ensures overflows == old(overflows)
      ensures var e := EventAt(stream, old(Offset()), limits.maxItem);
              && e.Some? && r == ReplyFor(e.value, limits)
              && Offset() == e.value.After() && events == old(events) + [e.value]
    {
      hide HintOk, Leads, ParseItem, EventAt, Counted, At;
      EventHere(stream, base, pos, limits.maxItem);
      ghost var e := EventAt(stream, Offset(), limits.maxItem).value;
      CountedEvent(stats, events, junkReports, overflows, Offset(), e);
      if overflows == 0 {
        LeadsEvent(stream, events, e, limits.maxItem);
      }
      events := events + [e];
      scanHint := 0;
      match attempt {
        case Done(parsed, next) =>
          pos := next;
          stats := stats.(items := stats.items + 1,
                          lengthMismatches := stats.lengthMismatches + if parsed.mismatch then 1 else 0);
          r := Got(parsed.item);
        case Bad(flaw) =>
          var offset := base + pos;
          // One byte on, the tag that began this frame is behind the cursor.
          pos := pos + 1;
          stats := stats.(errors := stats.errors + 1);
          r := Failed(match flaw
                      case TooLarge(len) => TooLargeAt(offset, len, limits.maxItem)
                      case BadBase64 => BadBase64At(offset)
                      case Malformed(reason) => MalformedAt(offset, reason));
      }
      NoHint(buf, pos, limits.maxItem);
    }
  }

  /** The decision for the stream, read off the buffer. */
  lemma EventHere(s: bytes, base: nat, start: nat, maxItem: usize)
    requires base + start < |s|
    ensures EventAt(s, base + start, maxItem)
         == match ParseItem(s[base..], start, maxItem)
            case Done(parsed, next) => Some(Accepted(base + start, base + next, parsed))
            case Bad(flaw) => Some(Rejected(base + start, flaw))
            case Incomplete => None
  {
    hide ParseItem;
    ParseShift(s, base, start, maxItem);
  }

  lemma NoHint(b: bytes, pos: nat, maxItem: usize)
    ensures HintOk(b, pos, 0, maxItem)
  {
  }

  /** The counters agree with the history: items, errors and mismatches by
      count, and every byte up to the offset by what it was spent on. */
  ghost predicate Counted(stats: Stats, es: seq<Event>, junkReports: nat, overflows: nat, offset: nat) {
    && stats.items == |Items(es)|
    && stats.errors == |es| - |Items(es)| + junkReports + overflows
    && stats.lengthMismatches == |Mismatched(es)|
    && offset == Extents(es) + stats.junkBytes + overflows
  }

  lemma CountedOverflow(stats: Stats, es: seq<Event>, junkReports: nat, overflows: nat, offset: nat)
    requires Counted(stats, es, junkReports, overflows, offset)
    ensures Counted(stats.(errors := stats.errors + 1), es, junkReports, overflows + 1, offset + 1)
  {
  }

  lemma CountedEvent(stats: Stats, es: seq<Event>, junkReports: nat, overflows: nat, offset: nat, e: Event)
    requires Counted(stats, es, junkReports, overflows, offset) && e.at == offset <= e.After()
    ensures Counted(if e.Rejected? then stats.(errors := stats.errors + 1)
                    else stats.(items := stats.items + 1,
                                lengthMismatches := stats.lengthMismatches + if e.parsed.mismatch then 1 else 0),
                    es + [e], junkReports, overflows, e.After())
  {
    assert (es + [e])[..|es|] == es;
  }

  /** The accepted events of a history. */
  function Items(es: seq<Event>): seq<Event> {
    if es == [] then []
    else
      var e := es[|es| - 1];
      Items(es[..|es| - 1]) + (if e.Accepted? then [e] else [])
  }

  /** The accepted events whose declared length was wrong. */
  function Mismatched(es: seq<Event>): seq<Event> {
    if es == [] then []
    else
      var e := es[|es| - 1];
      Mismatched(es[..|es| - 1]) + (if e.Accepted? && e.parsed.mismatch then [e] else [])
  }
}
