/** The whole stream at once: a parser that never compacts, keeps no hint and
    rescans from scratch. Its answer is what every way of feeding the
    incremental parser must agree with. */
module WholeScan {
  import opened Bytes
  import opened Wire
  import opened Containment
  import Encoder

  /** Bytes kept when no item tag is in sight, in case one is split across feeds. */
  const KEEP := |ITEM_OPEN| - 1

  /** Something the parser decided at an offset of the stream. */
  datatype Event = Accepted(at: nat, next: nat, parsed: Parsed) | Rejected(at: nat, flaw: Flaw) {
    /** Where the search for the next item resumes: past an accepted item, one byte into a bad one. */
    function After(): nat {
      if Accepted? then next else at + 1
    }

    function Extent(): int {
      After() - at
    }
  }

  /** The decision for an item tag at o, or None when the bytes so far do not settle it. */
  function EventAt(s: bytes, o: nat, maxItem: usize): (r: Option<Event>)
    requires o < |s|
    ensures r.Some? ==> r.value.at == o && o < r.value.After() <= |s|
  {
    match ParseItem(s, o, maxItem)
    case Done(parsed, next) => Some(Accepted(o, next, parsed))
    case Bad(flaw) => Some(Rejected(o, flaw))
    case Incomplete => None
  }

  /** Every decision made from p on, and where the search ends up. */
  datatype Trace = Trace(events: seq<Event>, end: nat)

  function Scan(s: bytes, p: nat, maxItem: usize): (r: Trace)
    requires p <= |s|
    ensures p <= r.end <= |s|
    decreases |s| - p
  {
    match FindFrom(s, p, ITEM_OPEN)
    case None => Trace([], if |s| - p <= KEEP then p else |s| - KEEP)
    case Some(o) =>
      match EventAt(s, o, maxItem)
      case None => Trace([], o)
      case Some(e) =>
        var rest := Scan(s, e.After(), maxItem);
        Trace([e] + rest.events, rest.end)
  }

  function Extents(es: seq<Event>): int {
    if es == [] then 0 else Extents(es[..|es| - 1]) + es[|es| - 1].Extent()
  }

  // --- decided histories -------------------------------------------------------

  /** No item tag starts in [p, q), and no later bytes can make one start there. */
  ghost predicate Gap(s: bytes, p: nat, q: nat) {
    && p <= q <= |s|
    && (p == q || q + KEEP <= |s|)
    && forall j :: p <= j < q ==> !At(s, j, ITEM_OPEN)
  }

  /** Starting from offset 0 of s, the events are exactly what was decided on the way to q. */
  ghost predicate Leads(s: bytes, es: seq<Event>, q: nat, maxItem: usize)
    decreases |es|
  {
    if es == [] then Gap(s, 0, q)
    else
      var e := es[|es| - 1];
      && Leads(s, es[..|es| - 1], e.at, maxItem)
      && At(s, e.at, ITEM_OPEN)
      && EventAt(s, e.at, maxItem) == Some(e)
      && Gap(s, e.After(), q)
  }

  lemma GapExtends(s: bytes, t: bytes, p: nat, q: nat)
    requires s <= t && Gap(s, p, q)
    ensures Gap(t, p, q)
  {
    forall j | p <= j < q ensures !At(t, j, ITEM_OPEN) {
      assert At(t, j, ITEM_OPEN) ==> At(s, j, ITEM_OPEN);
    }
  }

  /** A decided history stays the history of every longer stream. */
  lemma {:induction false} LeadsExtends(s: bytes, t: bytes, es: seq<Event>, q: nat, maxItem: usize)
    requires s <= t && Leads(s, es, q, maxItem)
    ensures Leads(t, es, q, maxItem)
    decreases |es|
  {
    hide ParseItem, Gap;
    if es == [] {
      GapExtends(s, t, 0, q);
    } else {
      var e := es[|es| - 1];
      LeadsExtends(s, t, es[..|es| - 1], e.at, maxItem);
      ParseExtends(s, t, e.at, maxItem);
      GapExtends(s, t, e.After(), q);
    }
  }

  lemma LeadsGap(s: bytes, es: seq<Event>, p: nat, q: nat, maxItem: usize)
    requires Leads(s, es, p, maxItem) && Gap(s, p, q)
    ensures Leads(s, es, q, maxItem)
  {
  }

  lemma LeadsEvent(s: bytes, es: seq<Event>, e: Event, maxItem: usize)
    requires Leads(s, es, e.at, maxItem) && At(s, e.at, ITEM_OPEN) && EventAt(s, e.at, maxItem) == Some(e)
    ensures Leads(s, es + [e], e.After(), maxItem)
    ensures Extents(es + [e]) == Extents(es) + e.Extent()
  {
    hide ParseItem;
    assert (es + [e])[..|es|] == es;
  }

  lemma GapScans(s: bytes, p: nat, q: nat, maxItem: usize)
    requires Gap(s, p, q)
    ensures Scan(s, p, maxItem) == Scan(s, q, maxItem)
  {
    hide EventAt;
    match FindFrom(s, q, ITEM_OPEN)
    case Some(o) => FindIs(s, p, ITEM_OPEN, o);
    case None =>
      assert forall j :: p <= j ==> !At(s, j, ITEM_OPEN);
  }

  lemma EventScans(s: bytes, e: Event, maxItem: usize)
    requires e.at < |s| && At(s, e.at, ITEM_OPEN) && EventAt(s, e.at, maxItem) == Some(e)
    ensures var rest := Scan(s, e.After(), maxItem);
            Scan(s, e.at, maxItem) == Trace([e] + rest.events, rest.end)
  {
    hide EventAt;
    FindIs(s, e.at, ITEM_OPEN, e.at);
  }

  /** A decided history is the beginning of what the whole-stream scan finds, and the scan resumes at q. */
  lemma {:induction false} LeadsScans(s: bytes, es: seq<Event>, q: nat, maxItem: usize)
    requires Leads(s, es, q, maxItem)
    ensures q <= |s|
    ensures Scan(s, 0, maxItem) == Trace(es + Scan(s, q, maxItem).events, Scan(s, q, maxItem).end)
    decreases |es|
  {
    hide EventAt, Scan, At;
    if es == [] {
      GapScans(s, 0, q, maxItem);
      assert es + Scan(s, q, maxItem).events == Scan(s, q, maxItem).events;
    } else {
      var init, e := es[..|es| - 1], es[|es| - 1];
      LeadsScans(s, init, e.at, maxItem);
      EventScans(s, e, maxItem);
      GapScans(s, e.After(), q, maxItem);
      assert es + Scan(s, q, maxItem).events == init + ([e] + Scan(s, q, maxItem).events);
    }
  }

  // --- damage containment ------------------------------------------------------

  /** The stream position o is reported as an accepted item. */
  ghost predicate Emitted(es: seq<Event>, o: nat, item: Item) {
    exists k :: 0 <= k < |es| && es[k] == Accepted(o, o + |Encoder.Encoded(item)| - 1, Parsed(item, false))
  }

  /** A validly encoded item, amid whatever junk and damage, is emitted, unless
      the scan is parked on an earlier item tag whose item is still incomplete. */
  lemma {:induction false} EncodedItemSurvives(s: bytes, p: nat, o: nat, item: Item, maxItem: usize)
    requires p <= o && At(s, o, Encoder.Encoded(item)) && |item.payload| <= maxItem
    ensures var scan := Scan(s, p, maxItem);
            || Emitted(scan.events, o, item)
            || (scan.end < o && ParseItem(s, scan.end, maxItem).Incomplete?)
    decreases |s| - p
  {
    hide ParseItem, Encoder.Encoded;
    EncodedStarts(s, o, item);
    var q := FindFrom(s, p, ITEM_OPEN).value;
    if q == o {
      Encoder.ParsesEncoded(s, o, item, maxItem);
      assert Scan(s, p, maxItem).events[0] == Accepted(o, o + |Encoder.Encoded(item)| - 1, Parsed(item, false));
    } else {
      var e := EventAt(s, q, maxItem);
      if e.Some? {
        if e.value.Accepted? && o < e.value.next {
          AcceptedItemsDoNotOverlap(s, q, maxItem, o);
        }
        EncodedItemSurvives(s, e.value.After(), o, item, maxItem);
        var rest := Scan(s, e.value.After(), maxItem);
        if Emitted(rest.events, o, item) {
          var k :| 0 <= k < |rest.events|
                && rest.events[k] == Accepted(o, o + |Encoder.Encoded(item)| - 1, Parsed(item, false));
          assert Scan(s, p, maxItem).events[k + 1] == rest.events[k];
        }
      }
    }
  }

  lemma EncodedStarts(s: bytes, o: nat, item: Item)
    requires At(s, o, Encoder.Encoded(item))
    ensures At(s, o, ITEM_TYPE) && At(s, o, ITEM_OPEN)
  {
    hide At, Encoder.Encoded;
    Encoder.EncodedParts(s, o, item);
    var header := Encoder.HeaderText(item.kind, item.code, |item.payload|);
    assert header == ITEM_TYPE + header[|ITEM_TYPE|..];
    Encoder.AtConcat(s, o, ITEM_TYPE, header[|ITEM_TYPE|..]);
    Encoder.AtConcat(s, o, ITEM_OPEN, TYPE_OPEN);
  }
}
