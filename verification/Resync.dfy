/** Encoding and parsing whole streams: a list of items survives the trip, and
    a reader that joins part-way loses exactly the items that had begun. */
module Resync {
  import opened Bytes
  import opened Wire
  import opened Containment
  import opened Encoder
  import opened WholeScan

  /** The encoded items, back to back. */
  function Stream(items: seq<Item>): bytes {
    if items == [] then [] else Encoded(items[0]) + Stream(items[1..])
  }

  /** Every item accepted, in order, each from its own first byte, none with a length mismatch. */
  function AllAccepted(items: seq<Item>, p: nat): seq<Event> {
    if items == [] then []
    else
      var n := |Encoded(items[0])|;
      [Accepted(p, p + n - 1, Parsed(items[0], false))] + AllAccepted(items[1..], p + n)
  }

  ghost predicate WithinLimit(items: seq<Item>, maxItem: usize) {
    forall k :: 0 <= k < |items| ==> |items[k].payload| <= maxItem
  }

  // --- an encoded item hides no second opening ----------------------------------

  lemma BodyCalm(s: bytes, i: nat, payload: bytes)
    requires At(s, i, BodyText(payload))
    ensures Calm(s, i, i + |BodyText(payload)|, LETTER_I)
  {
    hide RawText, DataOpen, Choose;
    BodyReads(s, i, payload);
    var raw := RawText(payload);
    AtConcat(s, i, [NEWLINE] + DATA_TAG + raw, DATA_CLOSE);
    AtConcat(s, i, [NEWLINE] + DATA_TAG, raw);
    AtConcat(s, i, [NEWLINE], DATA_TAG);
    assert s[i + 0] == [NEWLINE][0];
    TagCalm(s, i + 1, DATA_TAG, LETTER_I);
    var d := i + 1 + |DATA_TAG|;
    forall o | d <= o < d + |raw| ensures s[o] != LT {
      assert s[d + (o - d)] == raw[o - d];
    }
    TagCalm(s, d + |raw|, DATA_CLOSE, LETTER_I);
  }

  /** After its first byte, an encoded item never opens a tag starting with the letter i. */
  lemma EncodedCalm(s: bytes, i: nat, item: Item, maxItem: usize)
    requires At(s, i, Encoded(item)) && |item.payload| <= maxItem
    ensures Calm(s, i + 1, i + |Encoded(item)|, LETTER_I)
  {
    hide Encoded, HeaderText, BodyText, ReadHeader, At;
    EncodedParts(s, i, item);
    HeaderReads(s, i, item.kind, item.code, |item.payload|, maxItem);
    HeaderCalm(s, i, maxItem, LETTER_I);
    var a := i + |HeaderText(item.kind, item.code, |item.payload|)|;
    var c := a;
    if item.payload != [] {
      BodyCalm(s, a, item.payload);
      c := a + |BodyText(item.payload)|;
    }
    TagCalm(s, c, ITEM_CLOSE, LETTER_I);
    EndsInNewline(s, i, item);
  }

  lemma EndsInNewline(s: bytes, i: nat, item: Item)
    requires At(s, i, Encoded(item))
    ensures i + |Encoded(item)| <= |s| && s[i + |Encoded(item)| - 1] == NEWLINE
  {
    var e := Encoded(item);
    assert s[i + (|e| - 1)] == e[|e| - 1];
  }

  // --- whole streams --------------------------------------------------------------

  /** Items standing back to back to the end of s, reached over a stretch with no item tag. */
  lemma {:induction false} ScanItems(s: bytes, n: nat, p: nat, items: seq<Item>, maxItem: usize)
    requires n <= p && At(s, p, Stream(items)) && |s| == p + |Stream(items)| && WithinLimit(items, maxItem)
    requires forall j :: n <= j < p ==> !At(s, j, ITEM_OPEN)
    ensures Scan(s, n, maxItem).events == AllAccepted(items, p)
    decreases |items|
  {
    hide Scan, EventAt, Encoded, FindFrom, At;
    if items == [] {
      AtBound(s, p, Stream(items));
      ScanNoTag(s, n, maxItem);
    } else {
      var e := Encoded(items[0]);
      AtConcat(s, p, e, Stream(items[1..]));
      ScanFirst(s, n, p, items[0], maxItem);
      EndsTagless(s, p, items[0]);
      ScanItems(s, p + |e| - 1, p + |e|, items[1..], maxItem);
    }
  }

  /** The newline an item ends with begins no tag. */
  lemma EndsTagless(s: bytes, p: nat, item: Item)
    requires At(s, p, Encoded(item))
    ensures !At(s, p + |Encoded(item)| - 1, ITEM_OPEN)
  {
    hide Encoded, At;
    EndsInNewline(s, p, item);
    Differs(s, p + |Encoded(item)| - 1, ITEM_OPEN, 0);
  }

  lemma ScanNoTag(s: bytes, n: nat, maxItem: usize)
    requires n <= |s| && forall j :: n <= j < |s| ==> !At(s, j, ITEM_OPEN)
    ensures Scan(s, n, maxItem).events == []
  {
  }

  lemma ScanFirst(s: bytes, n: nat, p: nat, item: Item, maxItem: usize)
    requires n <= p && At(s, p, Encoded(item)) && |item.payload| <= maxItem
    requires forall j :: n <= j < p ==> !At(s, j, ITEM_OPEN)
    ensures p + |Encoded(item)| <= |s|
    ensures var q := p + |Encoded(item)| - 1;
            && Scan(s, n, maxItem).events == [Accepted(p, q, Parsed(item, false))] + Scan(s, q, maxItem).events
            && !At(s, q, ITEM_OPEN)
  {
    hide EventAt, Encoded, FindFrom;
    AtBound(s, p, Encoded(item));
    FirstEvent(s, n, p, item, maxItem);
  }

  lemma FirstEvent(s: bytes, n: nat, p: nat, item: Item, maxItem: usize)
    requires n <= p && At(s, p, Encoded(item)) && |item.payload| <= maxItem
    requires forall j :: n <= j < p ==> !At(s, j, ITEM_OPEN)
    ensures FindFrom(s, n, ITEM_OPEN) == Some(p) && p < |s|
    ensures EventAt(s, p, maxItem) == Some(Accepted(p, p + |Encoded(item)| - 1, Parsed(item, false)))
    ensures !At(s, p + |Encoded(item)| - 1, ITEM_OPEN)
  {
    hide ParseItem, Encoded;
    EncodedStarts(s, p, item);
    FindIs(s, n, ITEM_OPEN, p);
    ParsesEncoded(s, p, item, maxItem);
    EndsInNewline(s, p, item);
    Differs(s, p + |Encoded(item)| - 1, ITEM_OPEN, 0);
  }

  lemma {:induction false} StreamSplit(items: seq<Item>, k: nat)
    requires k <= |items|
    ensures Stream(items) == Stream(items[..k]) + Stream(items[k..])
  {
    hide Encoded;
    if k == 0 {
      assert items[..0] == [] && items[0..] == items;
    } else {
      StreamSplit(items[1..], k - 1);
      assert items[..k][1..] == items[1..][..k - 1] && items[1..][k - 1..] == items[k..];
      assert items[..k][0] == items[0];
    }
  }

  lemma StreamAt(a: bytes, b: bytes)
    ensures At(a + b, |a|, b) && At(a + b, 0, a)
  {
    forall k | 0 <= k < |b| ensures (a + b)[|a| + k] == b[k] {
    }
  }

  /** No item tag starts from n up to the next item, when n is inside the item before it. */
  lemma NoTagBeforeNext(items: seq<Item>, n: nat, k: nat, maxItem: usize)
    requires k <= |items| && WithinLimit(items, maxItem) && n <= |Stream(items[..k])|
    requires k > 0 ==> |Stream(items[..k - 1])| < n
    ensures forall j :: n <= j < |Stream(items[..k])| ==> !At(Stream(items), j, ITEM_OPEN)
  {
    hide Encoded, At;
    if k > 0 {
      var s, a := Stream(items), |Stream(items[..k - 1])|;
      StreamSplit(items, k - 1);
      StreamSplit(items, k);
      StreamSplit(items[..k], k - 1);
      assert items[..k][..k - 1] == items[..k - 1] && items[..k][k - 1..] == [items[k - 1]];
      SingleStream(items[k - 1]);
      var e := Encoded(items[k - 1]);
      assert s == Stream(items[..k - 1]) + (e + Stream(items[k..]));
      StreamAt(Stream(items[..k - 1]), e + Stream(items[k..]));
      AtConcat(s, a, e, Stream(items[k..]));
      EncodedCalm(s, a, items[k - 1], maxItem);
      forall j | n <= j < a + |e| ensures !At(s, j, ITEM_OPEN) {
        CalmHasNoItem(s, a + 1, a + |e|, j);
      }
    }
  }

  lemma SingleStream(item: Item)
    ensures Stream([item]) == Encoded(item)
  {
    assert Stream([item][1..]) == [];
  }

  // --- joining part-way ------------------------------------------------------------

  function MovedEvent(e: Event, k: nat): Event {
    if e.Accepted? then Accepted(e.at + k, e.next + k, e.parsed) else Rejected(e.at + k, e.flaw)
  }

  function MovedEvents(es: seq<Event>, k: nat): (r: seq<Event>)
    ensures |r| == |es|
  {
    seq(|es|, i requires 0 <= i < |es| => MovedEvent(es[i], k))
  }

  /** A reader that joins at byte k makes the same decisions as the whole-stream scan does from k on. */
  lemma {:induction false} ScanShift(s: bytes, k: nat, p: nat, maxItem: usize)
    requires k + p <= |s|
    ensures Scan(s, k + p, maxItem)
         == Trace(MovedEvents(Scan(s[k..], p, maxItem).events, k), Scan(s[k..], p, maxItem).end + k)
    decreases |s| - p
  {
    hide EventAt, MovedEvents, At, FindFrom;
    var t := s[k..];
    FindShift(s, k, p, ITEM_OPEN);
    MovedNothing(k);
    match FindFrom(t, p, ITEM_OPEN)
    case None =>
    case Some(o) =>
      assert o < |t| by {
        assert At(t, o, ITEM_OPEN);
        AtBound(t, o, ITEM_OPEN);
      }
      EventShift(s, k, o, maxItem);
      if EventAt(t, o, maxItem).Some? {
        var e := EventAt(t, o, maxItem).value;
        ScanShift(s, k, e.After(), maxItem);
        var rest := Scan(t, e.After(), maxItem);
        MovedCons(e, rest.events, k);
      }
  }

  lemma EventShift(s: bytes, k: nat, o: nat, maxItem: usize)
    requires k + o < |s|
    ensures EventAt(s, k + o, maxItem)
         == match EventAt(s[k..], o, maxItem) case None => None case Some(e) => Some(MovedEvent(e, k))
  {
    hide ParseItem;
    ParseShift(s, k, o, maxItem);
  }

  lemma MovedNothing(k: nat)
    ensures MovedEvents([], k) == []
  {
  }

  lemma MovedCons(e: Event, rest: seq<Event>, k: nat)
    ensures MovedEvents([e] + rest, k) == [MovedEvent(e, k)] + MovedEvents(rest, k)
  {
  }

  lemma {:induction false} AcceptedShift(items: seq<Item>, p: nat, k: nat)
    ensures AllAccepted(items, p + k) == MovedEvents(AllAccepted(items, p), k)
  {
    hide Encoded;
    if items != [] {
      AcceptedShift(items[1..], p + |Encoded(items[0])|, k);
    }
  }

  lemma MovedInjective(a: seq<Event>, b: seq<Event>, k: nat)
    requires MovedEvents(a, k) == MovedEvents(b, k)
    ensures a == b
  {
    assert |a| == |MovedEvents(a, k)| == |b|;
    forall i | 0 <= i < |a| ensures a[i] == b[i] {
      assert MovedEvents(a, k)[i] == MovedEvents(b, k)[i];
    }
  }

  /** Drop any n leading bytes of an encoded stream: what is accepted is exactly
      the items whose encoding starts at or after n, with nothing rejected. */
  lemma RoundTripFrom(items: seq<Item>, n: nat, k: nat, maxItem: usize)
    requires WithinLimit(items, maxItem) && k <= |items| && n <= |Stream(items[..k])|
    requires k > 0 ==> |Stream(items[..k - 1])| < n
    ensures n <= |Stream(items)|
    ensures Scan(Stream(items)[n..], 0, maxItem).events
         == AllAccepted(items[k..], |Stream(items[..k])| - n)
  {
    hide Encoded, Scan, Stream, MovedEvents, AllAccepted, At;
    var s, p := Stream(items), |Stream(items[..k])|;
    StreamSplit(items, k);
    StreamAt(Stream(items[..k]), Stream(items[k..]));
    NoTagBeforeNext(items, n, k, maxItem);
    ScanItems(s, n, p, items[k..], maxItem);
    ScanShift(s, n, 0, maxItem);
    AcceptedShift(items[k..], p - n, n);
    MovedInjective(Scan(s[n..], 0, maxItem).events, AllAccepted(items[k..], p - n), n);
  }

  /** The whole stream gives back the whole list. */
  lemma RoundTrip(items: seq<Item>, maxItem: usize)
    requires WithinLimit(items, maxItem)
    ensures Scan(Stream(items), 0, maxItem).events == AllAccepted(items, 0)
  {
    hide Encoded, Scan, AllAccepted;
    assert items[..0] == [] && items[0..] == items && Stream(items)[0..] == Stream(items);
    RoundTripFrom(items, 0, 0, maxItem);
  }
}
