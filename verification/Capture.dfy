/** Reframing a finite capture: parse every item, write it again, and keep a
    truncated tail. A capture with any reported error is refused. */
module Capture {
  import opened Bytes
  import opened Wire
  import opened Containment
  import opened Encoder
  import opened WholeScan
  import opened Resync
  import opened Framing
  import opened Chunking

  const LIMITS := DEFAULT_LIMITS

  /** The items of an error-free capture and its truncated end, without separator white space. */
  datatype Reframed = Reframed(items: seq<Item>, tail: bytes)

  predicate AllGot(replies: seq<Reply>) {
    forall k :: 0 <= k < |replies| ==> replies[k].Got?
  }

  function ItemsOf(replies: seq<Reply>): seq<Item>
    requires AllGot(replies)
  {
    seq(|replies|, k requires 0 <= k < |replies| => replies[k].item)
  }

  /** The remainder from p on, minus leading white space. */
  function TailAt(s: bytes, p: nat): bytes
    requires p <= |s|
  {
    s[WsEnd(s, p)..]
  }

  function Reframe(s: bytes): Option<Reframed> {
    var d := Drained(s, 0, LIMITS);
    if AllGot(d.replies) then Some(Reframed(ItemsOf(d.replies), TailAt(s, d.end))) else None
  }

  /** Parse and re-encode every item; None when the capture holds anything unparseable. */
  function Canonical(s: bytes): Option<bytes> {
    match Reframe(s)
    case None => None
    case Some(r) => Some(Stream(r.items) + r.tail)
  }

  /** The reframing loop as it runs. */
  method Canonicalise(input: bytes) returns (r: Option<bytes>)
    ensures r == Canonical(input)
  {
    hide Drained, StepFrom, HintOk, Counted, Leads, Encoded, At;
    var parser := new Parser(LIMITS);
    parser.Feed(input);
    assert parser.stream == input;
    var out: bytes := [];
    ghost var got: seq<Reply> := [];
    while true
      invariant parser.Valid() && parser.stream == input && parser.limits == LIMITS
      invariant fresh(parser)
      invariant AllGot(got) && out == Stream(ItemsOf(got))
      invariant var d, rest := Drained(input, 0, LIMITS), Drained(input, parser.Offset(), LIMITS);
                d.replies == got + rest.replies && d.end == rest.end
      decreases |input| - parser.Offset()
    {
      ghost var p := parser.Offset();
      DrainStep(input, p, LIMITS);
      var reply := parser.NextItem();
      match reply {
        case Nothing =>
          break;
        case Failed(_) =>
          assert Drained(input, 0, LIMITS).replies[|got|] == reply;
          return None;
        case Got(item) =>
          var text := EncodeItem(item.kind, item.code, item.payload);
          StreamSnoc(ItemsOf(got), item);
          assert ItemsOf(got + [reply]) == ItemsOf(got) + [item];
          out := out + text;
          got := got + [reply];
      }
    }
    assert Drained(input, 0, LIMITS).replies == got;
    var tail := TrailingPartialItem(parser);
    return Some(out + tail);
  }

  /** What the parser has left, from its first byte that is not white space. */
  method TrailingPartialItem(parser: Parser) returns (tail: bytes)
    requires parser.Valid()
    ensures tail == TailAt(parser.stream, parser.Offset())
  {
    hide HintOk, Counted, Leads;
    var rest := parser.Remainder();
    var start := WsEnd(rest, 0);
    WsShift(parser.stream, parser.Offset(), 0);
    tail := rest[start..];
  }

  lemma StreamSnoc(items: seq<Item>, item: Item)
    ensures Stream(items + [item]) == Stream(items) + Encoded(item)
  {
    hide Encoded;
    StreamSplit(items + [item], |items|);
    assert (items + [item])[..|items|] == items && (items + [item])[|items|..] == [item];
    SingleStream(item);
  }

  // --- canonicalising twice ---------------------------------------------------------

  /** What a drained, error-free parser can be left holding, separator white
      space aside: an item still incomplete, or too few bytes to hold a tag. */
  ghost predicate Parked(tail: bytes) {
    || (&& At(tail, 0, ITEM_OPEN)
        && ParseItem(tail, 0, LIMITS.maxItem).Incomplete?
        && |tail| <= LIMITS.maxBuffer)
    || (|tail| <= KEEP && (tail != [] ==> !IsSpace(tail[0])))
  }

  lemma Insignificant(s: bytes, a: nat, b: nat)
    requires a <= b <= |s| && forall k :: a <= k < b ==> IsSpace(s[k])
    ensures !Significant(s[a..b])
  {
  }

  lemma WhiteHoldsNoTag(s: bytes, a: nat, b: nat)
    requires a <= b <= |s| && forall k :: a <= k < b ==> IsSpace(s[k])
    ensures forall j :: a <= j < b ==> !At(s, j, ITEM_OPEN)
  {
    forall j | a <= j < b ensures !At(s, j, ITEM_OPEN) {
      Differs(s, j, ITEM_OPEN, 0);
    }
  }

  /** The end of a canonical stream: only separator white space, then a parked tail. */
  lemma DrainTail(s: bytes, n: nat, p: nat)
    requires n <= p <= |s| && p <= n + 1 && (forall k :: n <= k < p ==> IsSpace(s[k])) && Parked(s[p..])
    ensures var d := Drained(s, n, LIMITS); d.replies == [] && TailAt(s, d.end) == s[p..]
  {
    hide ParseItem, Drained, TailAt, At;
    if At(s[p..], 0, ITEM_OPEN) && ParseItem(s[p..], 0, LIMITS.maxItem).Incomplete? && |s[p..]| <= LIMITS.maxBuffer {
      DrainPartial(s, n, p);
    } else {
      DrainShort(s, n, p);
    }
  }

  lemma DrainPartial(s: bytes, n: nat, p: nat)
    requires n <= p <= |s| && p <= n + 1 && (forall k :: n <= k < p ==> IsSpace(s[k]))
    requires At(s[p..], 0, ITEM_OPEN) && ParseItem(s[p..], 0, LIMITS.maxItem).Incomplete?
    requires |s| - p <= LIMITS.maxBuffer
    ensures var d := Drained(s, n, LIMITS); d.replies == [] && TailAt(s, d.end) == s[p..]
  {
    hide ParseItem;
    WhiteHoldsNoTag(s, n, p);
    Insignificant(s, n, p);
    AtShift(s, p, 0, ITEM_OPEN);
    FindIs(s, n, ITEM_OPEN, p);
    ParseShift(s, p, 0, LIMITS.maxItem);
    AtBound(s, p, ITEM_OPEN);
    StepAtTag(s, n, p, LIMITS);
    assert s[p + 0] == ITEM_OPEN[0];
  }

  lemma DrainShort(s: bytes, n: nat, p: nat)
    requires n <= p <= |s| && p <= n + 1 && (forall k :: n <= k < p ==> IsSpace(s[k]))
    requires |s| - p <= KEEP && (p < |s| ==> !IsSpace(s[p]))
    ensures var d := Drained(s, n, LIMITS); d.replies == [] && TailAt(s, d.end) == s[p..]
  {
    WhiteHoldsNoTag(s, n, p);
    forall j | n <= j ensures !At(s, j, ITEM_OPEN) {
      if At(s, j, ITEM_OPEN) {
        AtBound(s, j, ITEM_OPEN);
      }
    }
    assert FindFrom(s, n, ITEM_OPEN).None?;
    StepWithoutTag(s, n, LIMITS);
    var skip := if |s| - n > KEEP then |s| - n - KEEP else 0;
    Insignificant(s, n, n + skip);
    WsReaches(s, n + skip, p);
  }

  lemma {:induction false} WsReaches(s: bytes, a: nat, p: nat)
    requires a <= p <= |s| && (forall k :: a <= k < p ==> IsSpace(s[k])) && (p < |s| ==> !IsSpace(s[p]))
    ensures WsEnd(s, a) == p
    decreases p - a
  {
    if a < p {
      WsReaches(s, a + 1, p);
    }
  }

  /** Draining encoded items, each after at most a separator, then a parked tail. */
  lemma {:induction false} DrainItems(s: bytes, n: nat, p: nat, items: seq<Item>, tail: bytes)
    requires n <= p && p <= n + 1 && At(s, p, Stream(items)) && p + |Stream(items)| <= |s|
    requires s[p + |Stream(items)|..] == tail && Parked(tail)
    requires forall k :: n <= k < p ==> IsSpace(s[k])
    requires WithinLimit(items, LIMITS.maxItem)
    ensures var d := Drained(s, n, LIMITS);
            AllGot(d.replies) && ItemsOf(d.replies) == items && TailAt(s, d.end) == tail
    decreases |items|
  {
    hide Drained, Encoded, Parked;
    if items == [] {
      DrainTail(s, n, p);
    } else {
      var e := Encoded(items[0]);
      AtConcat(s, p, e, Stream(items[1..]));
      assert |Stream(items)| == |e| + |Stream(items[1..])|;
      DrainFirst(s, n, p, items[0]);
      DrainItems(s, p + |e| - 1, p + |e|, items[1..], tail);
      var rest := Drained(s, p + |e| - 1, LIMITS);
      assert ItemsOf([Got(items[0])] + rest.replies) == [items[0]] + ItemsOf(rest.replies);
    }
  }

  lemma DrainFirst(s: bytes, n: nat, p: nat, item: Item)
    requires n <= p && At(s, p, Encoded(item)) && p + |Encoded(item)| <= |s|
    requires |item.payload| <= LIMITS.maxItem && forall k :: n <= k < p ==> IsSpace(s[k])
    ensures IsSpace(s[p + |Encoded(item)| - 1])
    ensures var d, rest := Drained(s, n, LIMITS), Drained(s, p + |Encoded(item)| - 1, LIMITS);
            d.replies == [Got(item)] + rest.replies && d.end == rest.end
  {
    hide EventAt, FindFrom, Encoded;
    WhiteHoldsNoTag(s, n, p);
    Insignificant(s, n, p);
    FirstEvent(s, n, p, item, LIMITS.maxItem);
    EndsInNewline(s, p, item);
    StepAtTag(s, n, p, LIMITS);
  }

  // --- what an error-free capture leaves behind ----------------------------------------

  lemma PayloadWithinLimit(s: bytes, i: nat, maxItem: usize)
    requires i <= |s| && ParseItem(s, i, maxItem).Done?
    ensures |ParseItem(s, i, maxItem).value.item.payload| <= maxItem
  {
    hide ReadFront;
  }

  lemma {:induction false} DrainedWithinLimit(s: bytes, p: nat, limits: Limits)
    requires p <= |s| && AllGot(Drained(s, p, limits).replies)
    ensures WithinLimit(ItemsOf(Drained(s, p, limits).replies), limits.maxItem)
    ensures var d := Drained(s, p, limits); TailFits(s, d.end, limits)
    decreases |s| - p
  {
    hide StepFrom, TailFits;
    var step := StepFrom(s, p, limits);
    DrainStep(s, p, limits);
    var d := Drained(s, p, limits);
    if step.reply.Nothing? {
      NothingLeavesTail(s, p, limits);
    } else {
      var rest := Drained(s, step.end, limits);
      assert d.replies[0] == step.reply;
      assert forall k :: 0 <= k < |rest.replies| ==> rest.replies[k] == d.replies[k + 1];
      DrainedWithinLimit(s, step.end, limits);
      GotWithinLimit(s, p, limits);
      forall k | 0 <= k < |d.replies| ensures |ItemsOf(d.replies)[k].payload| <= limits.maxItem {
        if k > 0 {
          assert ItemsOf(d.replies)[k] == ItemsOf(rest.replies)[k - 1];
        }
      }
    }
  }

  lemma GotWithinLimit(s: bytes, p: nat, limits: Limits)
    requires p <= |s| && StepFrom(s, p, limits).reply.Got?
    ensures |StepFrom(s, p, limits).reply.item.payload| <= limits.maxItem
  {
    hide ParseItem, FindFrom;
    var o := FindFrom(s, p, ITEM_OPEN).value;
    PayloadWithinLimit(s, o, limits.maxItem);
  }

  /** What is left from q on: an incomplete item, or too few bytes for a tag. */
  ghost predicate TailFits(s: bytes, q: nat, limits: Limits) {
    && q <= |s|
    && (|| (q < |s| && At(s, q, ITEM_OPEN) && ParseItem(s, q, limits.maxItem).Incomplete? && |s| - q <= limits.maxBuffer)
        || |s| - q <= KEEP)
  }

  lemma NothingLeavesTail(s: bytes, p: nat, limits: Limits)
    requires p <= |s| && StepFrom(s, p, limits).reply.Nothing?
    ensures TailFits(s, StepFrom(s, p, limits).end, limits)
  {
    hide ParseItem;
  }

  lemma TailIsParked(s: bytes, q: nat)
    requires TailFits(s, q, LIMITS)
    ensures Parked(TailAt(s, q))
  {
    hide ParseItem;
    if |s| - q > KEEP {
      AtShift(s, q, 0, ITEM_OPEN);
      ParseShift(s, q, 0, LIMITS.maxItem);
      assert s[q + 0] == ITEM_OPEN[0];
      assert WsEnd(s, q) == q;
    }
  }

  /** Everything known of a capture that parses without error. */
  lemma ReframedIsSound(s: bytes)
    requires Reframe(s).Some?
    ensures WithinLimit(Reframe(s).value.items, LIMITS.maxItem)
    ensures Parked(Reframe(s).value.tail)
  {
    hide Drained, Parked, TailFits;
    DrainedWithinLimit(s, 0, LIMITS);
    TailIsParked(s, Drained(s, 0, LIMITS).end);
  }

  /** A list of items and a parked tail, written out, parse back to themselves. */
  lemma CanonicalReads(items: seq<Item>, tail: bytes)
    requires WithinLimit(items, LIMITS.maxItem) && Parked(tail)
    ensures Reframe(Stream(items) + tail) == Some(Reframed(items, tail))
  {
    hide Drained, Parked, Stream;
    var s := Stream(items) + tail;
    StreamAt(Stream(items), tail);
    DrainItems(s, 0, 0, items, tail);
  }

  /** Canonicalising is idempotent, truncated tail included. */
  lemma CanonicalIsIdempotent(s: bytes)
    requires Canonical(s).Some?
    ensures Canonical(Canonical(s).value) == Canonical(s)
  {
    hide Reframe, Parked, Stream;
    var r := Reframe(s).value;
    ReframedIsSound(s);
    CanonicalReads(r.items, r.tail);
  }
}
