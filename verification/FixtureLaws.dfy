/** The packer is lossless exactly where it can be: unpacking gives back the
    canonical capture if and only if its truncated tail does not itself hold a
    reference tag. */
module FixtureLaws {
  import opened Bytes
  import opened Numerals
  import opened Wire
  import opened Containment
  import opened Encoder
  import opened WholeScan
  import opened Resync
  import opened Framing
  import opened Capture
  import opened Fixture

  /** The store can answer every reference the capture makes, with the right payload. */
  ghost predicate Answers(store: Store, items: seq<Item>, h: Digest) {
    forall k :: 0 <= k < |items| && IsArt(items[k]) ==>
      && IsDigest(h(items[k].payload))
      && h(items[k].payload) in store
      && store[h(items[k].payload)] == items[k].payload
  }

  // --- no reference tag in what the encoder writes ---------------------------------

  lemma HeaderHoldsNoData(s: bytes, i: nat, kind: u32, code: u32, length: nat, maxItem: usize)
    requires At(s, i, HeaderText(kind, code, length)) && length <= maxItem
    ensures Calm(s, i, i + |HeaderText(kind, code, length)|, LETTER_D)
    ensures Calm(s, i + 1, i + |HeaderText(kind, code, length)|, LETTER_I)
    ensures At(s, i, ITEM_OPEN)
  {
    hide HeaderText, At, ReadHeader;
    HeaderReads(s, i, kind, code, length, maxItem);
    HeaderCalm(s, i, maxItem, LETTER_D);
    HeaderCalm(s, i, maxItem, LETTER_I);
    HeaderOpens(s, i, kind, code, length);
  }

  lemma HeaderOpens(s: bytes, i: nat, kind: u32, code: u32, length: nat)
    requires At(s, i, HeaderText(kind, code, length))
    ensures At(s, i, ITEM_OPEN) && s[i + 1] != LETTER_D
  {
    var t := HeaderText(kind, code, length);
    forall k | 0 <= k < |ITEM_OPEN| ensures s[i + k] == ITEM_OPEN[k] {
      assert s[i + k] == t[k];
    }
    assert s[i + 1] == ITEM_OPEN[1];
  }

  lemma CalmHasNoRef(s: bytes, a: nat, b: nat, o: nat)
    requires Calm(s, a, b, LETTER_D) && a <= o < b
    ensures !At(s, o, REF_TAG)
  {
    if s[o] == LT {
      Differs(s, o, REF_TAG, 1);
    } else {
      Differs(s, o, REF_TAG, 0);
    }
  }

  /** The encoder's own data tag is not a reference tag, and its payload text holds no tag at all. */
  lemma BodyHoldsNoRef(s: bytes, i: nat, payload: bytes, o: nat)
    requires At(s, i, BodyText(payload)) && i <= o < i + |BodyText(payload)|
    ensures !At(s, o, REF_TAG)
  {
    hide RawText;
    var raw := RawText(payload);
    AtConcat(s, i, [NEWLINE] + DATA_TAG + raw, DATA_CLOSE);
    AtConcat(s, i, [NEWLINE] + DATA_TAG, raw);
    AtConcat(s, i, [NEWLINE], DATA_TAG);
    var d := i + 1 + |DATA_TAG|;
    if o == i {
      assert s[i + 0] == [NEWLINE][0];
      Differs(s, o, REF_TAG, 0);
    } else if o < d {
      TagHoldsNoRef(s, i + 1, o);
    } else if o < d + |raw| {
      assert s[d + (o - d)] == raw[o - d];
      Differs(s, o, REF_TAG, 0);
    } else {
      TagBytes(s, d + |raw|, DATA_CLOSE, o);
    }
  }

  lemma TagHoldsNoRef(s: bytes, i: nat, o: nat)
    requires At(s, i, DATA_TAG) && i <= o < i + |DATA_TAG|
    ensures !At(s, o, REF_TAG)
  {
    if o == i {
      assert s[i + 16] == DATA_TAG[16];
      Differs(s, o, REF_TAG, 16);
    } else {
      assert s[i + (o - i)] == DATA_TAG[o - i];
      Differs(s, o, REF_TAG, 0);
    }
  }

  /** Inside a closing tag, no reference tag starts. */
  lemma TagBytes(s: bytes, i: nat, tag: bytes, o: nat)
    requires At(s, i, tag) && i <= o < i + |tag| && Ordinary(tag, LETTER_D)
    ensures !At(s, o, REF_TAG)
  {
    TagCalm(s, i, tag, LETTER_D);
    CalmHasNoRef(s, i, i + |tag|, o);
  }

  /** The encoder never writes a reference tag, whatever follows. */
  lemma EncodedHoldsNoRef(s: bytes, i: nat, item: Item, maxItem: usize, o: nat)
    requires At(s, i, Encoded(item)) && |item.payload| <= maxItem && i <= o < i + |Encoded(item)|
    ensures !At(s, o, REF_TAG)
  {
    hide Encoded, HeaderText, BodyText, At;
    EncodedParts(s, i, item);
    var a := i + |HeaderText(item.kind, item.code, |item.payload|)|;
    var c := a + if item.payload == [] then 0 else |BodyText(item.payload)|;
    if o < a {
      HeaderHoldsNoData(s, i, item.kind, item.code, |item.payload|, maxItem);
      CalmHasNoRef(s, i, a, o);
    } else if o < c {
      BodyHoldsNoRef(s, a, item.payload, o);
    } else if o < c + |ITEM_CLOSE| {
      TagBytes(s, c, ITEM_CLOSE, o);
    } else {
      EndsInNewline(s, i, item);
      Differs(s, o, REF_TAG, 0);
    }
  }

  // --- a reference record resolves to its payload ---------------------------------------

  /** Where the parts of a reference record stand. */
  lemma RefParts(s: bytes, i: nat, item: Item, digest: bytes)
    requires At(s, i, RefText(item, digest))
    ensures var header := HeaderText(item.kind, item.code, |item.payload|);
            var t := i + |header| + 1;
            var b := t + |REF_TAG|;
            var c := b + 1 + |digest|;
            var e := c + |DATA_CLOSE|;
            && At(s, i, header) && s[t - 1] == NEWLINE && At(s, t, REF_TAG)
            && At(s, b, [NEWLINE] + digest) && At(s, c, DATA_CLOSE) && At(s, e, ITEM_CLOSE)
            && e + |ITEM_CLOSE| + 1 == i + |RefText(item, digest)| <= |s|
            && s[e + |ITEM_CLOSE|] == NEWLINE
  {
    hide At, HeaderText;
    var header := HeaderText(item.kind, item.code, |item.payload|);
    var t := i + |header| + 1;
    var b := t + |REF_TAG|;
    AtConcat(s, i, header + RefBody(digest) + ITEM_CLOSE, [NEWLINE]);
    AtConcat(s, i, header + RefBody(digest), ITEM_CLOSE);
    AtConcat(s, i, header, RefBody(digest));
    AtConcat(s, t - 1, [NEWLINE] + REF_TAG + ([NEWLINE] + digest), DATA_CLOSE);
    AtConcat(s, t - 1, [NEWLINE] + REF_TAG, [NEWLINE] + digest);
    AtConcat(s, t - 1, [NEWLINE], REF_TAG);
    SingleByte(s, t - 1);
    SingleByte(s, i + |RefText(item, digest)| - 1);
  }

  lemma SingleByte(s: bytes, i: nat)
    requires At(s, i, [NEWLINE])
    ensures i < |s| && s[i] == NEWLINE
  {
    assert s[i + 0] == [NEWLINE][0];
  }

  lemma DigestReads(digest: bytes)
    requires IsDigest(digest)
    ensures DecodeUtf8([NEWLINE] + digest) == Some([NEWLINE] + digest)
    ensures Trim([NEWLINE] + digest) == digest
  {
    DecodeAscii([NEWLINE] + digest);
    assert ([NEWLINE] + digest)[1..] == digest;
    assert IsHexDigit(digest[0]) && IsHexDigit(digest[|digest| - 1]);
    assert TrimStart(digest) == digest && TrimEnd(digest) == digest;
    assert TrimStart([NEWLINE] + digest) == digest;
  }

  /** From the reference tag on, the item closes only at the end of the record. */
  lemma CloseIsLast(s: bytes, t: nat, digest: bytes)
    requires IsDigest(digest) && At(s, t, REF_TAG) && At(s, t + |REF_TAG|, [NEWLINE] + digest)
    requires var c := t + |REF_TAG| + 1 + |digest|;
             At(s, c, DATA_CLOSE) && At(s, c + |DATA_CLOSE|, ITEM_CLOSE)
    ensures FindFrom(s, t, ITEM_CLOSE) == Some(t + |REF_TAG| + 1 + |digest| + |DATA_CLOSE|)
    ensures FindFrom(s, t + |REF_TAG|, DATA_CLOSE) == Some(t + |REF_TAG| + 1 + |digest|)
    ensures s[t + |REF_TAG|..t + |REF_TAG| + 1 + |digest|] == [NEWLINE] + digest
  {
    var b := t + |REF_TAG|;
    var body := [NEWLINE] + digest;
    var c := b + |body|;
    UntilReads(s, b, body, DATA_CLOSE);
    forall j | t <= j < c + |DATA_CLOSE| ensures !At(s, j, ITEM_CLOSE) {
      NoCloseBefore(s, t, body, j);
    }
    FindIs(s, t, ITEM_CLOSE, c + |DATA_CLOSE|);
  }

  lemma NoCloseBefore(s: bytes, t: nat, body: bytes, j: nat)
    requires At(s, t, REF_TAG) && At(s, t + |REF_TAG|, body) && LT !in body
    requires At(s, t + |REF_TAG| + |body|, DATA_CLOSE)
    requires t <= j < t + |REF_TAG| + |body| + |DATA_CLOSE|
    ensures !At(s, j, ITEM_CLOSE)
  {
    var b := t + |REF_TAG|;
    var c := b + |body|;
    if j < b {
      assert s[t + (j - t)] == REF_TAG[j - t];
      if j == t {
        assert s[t + 1] == REF_TAG[1];
        Differs(s, j, ITEM_CLOSE, 1);
      } else {
        Differs(s, j, ITEM_CLOSE, 0);
      }
    } else if j < c {
      assert s[b + (j - b)] == body[j - b];
      Differs(s, j, ITEM_CLOSE, 0);
    } else {
      assert s[c + (j - c)] == DATA_CLOSE[j - c];
      if j == c {
        assert s[c + 2] == DATA_CLOSE[2];
        Differs(s, j, ITEM_CLOSE, 2);
      } else {
        Differs(s, j, ITEM_CLOSE, 0);
      }
    }
  }

  /** The last item tag before the reference tag is the record's own. */
  lemma OwnItemTag(s: bytes, i: nat, t: nat)
    requires i < t <= |s| && At(s, i, ITEM_OPEN) && i + |ITEM_OPEN| <= t && Calm(s, i + 1, t, LETTER_I)
    ensures FindLast(s, t, ITEM_OPEN) == Some(i)
  {
    forall j | i < j && j + |ITEM_OPEN| <= t ensures !At(s, j, ITEM_OPEN) {
      CalmHasNoItem(s, i + 1, t, j);
    }
  }

  /** What a record that names a digest resolves to: the file of that name, if there is
      one and its contents have that digest. */
  function Referred(h: Digest, store: Store, digest: bytes, before: bytes, after: bytes): Reference {
    if digest !in store then NotOne(NoSuchFile)
    else if h(store[digest]) != digest then NotOne(WrongContents)
    else Reference(before, store[digest], after)
  }

  /** Resolving, once every search it makes is known. */
  lemma ResolveReads(s: bytes, i: nat, at: nat, close: nat, bodyEnd: nat, digest: bytes, h: Digest, store: Store)
    requires At(s, at, REF_TAG) && at + |REF_TAG| <= bodyEnd <= |s| && close + |ITEM_CLOSE| < |s| && i <= |s|
    requires FindLast(s, at, ITEM_OPEN) == Some(i)
    requires FindFrom(s, at, ITEM_CLOSE) == Some(close)
    requires FindFrom(s, at + |REF_TAG|, DATA_CLOSE) == Some(bodyEnd)
    requires DecodeUtf8(s[at + |REF_TAG|..bodyEnd]) == Some([NEWLINE] + digest)
    requires Trim([NEWLINE] + digest) == digest && IsDigest(digest)
    requires s[close + |ITEM_CLOSE|] == NEWLINE
    ensures Resolve(s, at, h, store) == Referred(h, store, digest, s[..i], s[close + |ITEM_CLOSE| + 1..])
  {
    hide FindLast, FindFrom, DecodeUtf8, Trim, At, IsDigest;
  }

  /** A reference record in a text whose earlier part holds no reference: it is
      found first, and it resolves to what the store has under its digest. */
  lemma RefResolves(s: bytes, i: nat, item: Item, h: Digest, store: Store, maxItem: usize)
    requires At(s, i, RefText(item, h(item.payload))) && |item.payload| <= maxItem
    requires IsDigest(h(item.payload))
    requires forall o :: 0 <= o < i ==> !At(s, o, REF_TAG)
    ensures i + |RefText(item, h(item.payload))| <= |s|
    ensures var t := i + |HeaderText(item.kind, item.code, |item.payload|)| + 1;
            && FindFrom(s, 0, REF_TAG) == Some(t)
            && Resolve(s, t, h, store)
               == Referred(h, store, h(item.payload), s[..i], s[i + |RefText(item, h(item.payload))|..])
  {
    hide HeaderText, RefText, At, FindFrom, FindLast, Resolve, IsDigest, Calm, Referred;
    var digest := h(item.payload);
    RefParts(s, i, item, digest);
    RefFrames(s, i, item, digest, maxItem);
    var t := i + |HeaderText(item.kind, item.code, |item.payload|)| + 1;
    RefFoundFirst(s, i, t);
    RefReadsBack(s, i, t, digest, h, store);
  }

  /** A record's body, framed as it is, resolves to what the store has under its digest. */
  lemma RefReadsBack(s: bytes, i: nat, t: nat, digest: bytes, h: Digest, store: Store)
    requires IsDigest(digest)
    requires At(s, t, REF_TAG) && i <= t && FindLast(s, t, ITEM_OPEN) == Some(i)
    requires At(s, t + |REF_TAG|, [NEWLINE] + digest)
    requires var c := t + |REF_TAG| + 1 + |digest|;
      && At(s, c, DATA_CLOSE) && At(s, c + |DATA_CLOSE|, ITEM_CLOSE)
      && c + |DATA_CLOSE| + |ITEM_CLOSE| < |s| && s[c + |DATA_CLOSE| + |ITEM_CLOSE|] == NEWLINE
    ensures Resolve(s, t, h, store) == Referred(h, store, digest, s[..i],
                                                s[t + |REF_TAG| + 1 + |digest| + |DATA_CLOSE| + |ITEM_CLOSE| + 1..])
  {
    hide At, FindFrom, FindLast, DecodeUtf8, Trim, Resolve, IsDigest, Referred;
    CloseIsLast(s, t, digest);
    DigestReads(digest);
    var c := t + |REF_TAG| + 1 + |digest|;
    ResolveReads(s, i, t, c + |DATA_CLOSE|, c, digest, h, store);
  }

  /** Up to its reference tag a record opens nothing but its own item. */
  lemma RefFrames(s: bytes, i: nat, item: Item, digest: bytes, maxItem: usize)
    requires At(s, i, RefText(item, digest)) && |item.payload| <= maxItem
    ensures var t := i + |HeaderText(item.kind, item.code, |item.payload|)| + 1;
      Calm(s, i, t - 1, LETTER_D) && t <= |s| && FindLast(s, t, ITEM_OPEN) == Some(i)
  {
    hide HeaderText, RefText, At, FindLast, Calm;
    RefParts(s, i, item, digest);
    var t := i + |HeaderText(item.kind, item.code, |item.payload|)| + 1;
    HeaderHoldsNoData(s, i, item.kind, item.code, |item.payload|, maxItem);
    HeaderEndsCalm(s, i, t);
    HeaderIsLong(item);
    OwnItemTag(s, i, t);
  }

  /** The newline between the header and the reference tag opens nothing. */
  lemma HeaderEndsCalm(s: bytes, i: nat, t: nat)
    requires i < t && Calm(s, i + 1, t - 1, LETTER_I) && t <= |s| && s[t - 1] == NEWLINE
    ensures Calm(s, i + 1, t, LETTER_I)
  {
  }

  lemma HeaderIsLong(item: Item)
    ensures |HeaderText(item.kind, item.code, |item.payload|)| >= |ITEM_OPEN|
  {
  }

  lemma RefFoundFirst(s: bytes, i: nat, t: nat)
    requires i < t && At(s, t, REF_TAG) && Calm(s, i, t - 1, LETTER_D) && s[t - 1] == NEWLINE
    requires forall o :: 0 <= o < i ==> !At(s, o, REF_TAG)
    ensures FindFrom(s, 0, REF_TAG) == Some(t)
  {
    forall o | 0 <= o < t ensures !At(s, o, REF_TAG) {
      if o == t - 1 {
        Differs(s, o, REF_TAG, 0);
      } else if o >= i {
        CalmHasNoRef(s, i, t - 1, o);
      }
    }
    FindIs(s, 0, REF_TAG, t);
  }

  // --- unpacking what was packed -----------------------------------------------------------

  ghost predicate HoldsNoRef(s: bytes) {
    forall o :: 0 <= o ==> !At(s, o, REF_TAG)
  }

  /** The artwork's file is there, and its contents have the digest it is named by. */
  predicate Intact(item: Item, h: Digest, store: Store) {
    IsArt(item) ==> h(item.payload) in store && h(store[h(item.payload)]) == h(item.payload)
  }

  /** What is wrong with the first artwork whose file is not intact. */
  function Trouble(items: seq<Item>, h: Digest, store: Store): Option<UnpackError> {
    if items == [] then None
    else if Intact(items[0], h, store) then Trouble(items[1..], h, store)
    else Some(if h(items[0].payload) in store then WrongContents else NoSuchFile)
  }

  /** The items with each artwork's payload as the store has it. */
  function Restored(items: seq<Item>, h: Digest, store: Store): seq<Item> {
    if items == [] then []
    else [RestoredItem(items[0], h, store)] + Restored(items[1..], h, store)
  }

  function RestoredItem(item: Item, h: Digest, store: Store): Item {
    if IsArt(item) && h(item.payload) in store then item.(payload := store[h(item.payload)]) else item
  }

  ghost predicate Digested(items: seq<Item>, h: Digest) {
    forall k :: 0 <= k < |items| && IsArt(items[k]) ==> IsDigest(h(items[k].payload))
  }

  /** What unpacking text makes of its first a bytes, the items packed after them, and a tail. */
  ghost predicate UnpacksTo(s: bytes, a: nat, items: seq<Item>, tail: bytes, h: Digest, store: Store)
    requires a <= |s|
  {
    && (Trouble(items, h, store).None? && HoldsNoRef(tail) ==>
          Unpack(s, h, store) == Ok(s[..a] + Stream(Restored(items, h, store)) + tail))
    && (Trouble(items, h, store).Some? ==> Unpack(s, h, store) == Err(Trouble(items, h, store).value))
  }

  /** Text whose first a bytes hold no reference and whose rest is packed items and a tail. */
  lemma {:induction false} UnpackFrom(s: bytes, a: nat, items: seq<Item>, tail: bytes, h: Digest, store: Store, maxItem: usize)
    requires a <= |s| && s[a..] == Packed(items, h) + tail
    requires forall o :: 0 <= o < a ==> !At(s, o, REF_TAG)
    requires WithinLimit(items, maxItem) && Digested(items, h)
    ensures UnpacksTo(s, a, items, tail, h, store)
    decreases |items|
  {
    hide UnpacksTo, PackedText, Encoded, At, HoldsNoRef, IsDigest;
    if items == [] {
      TailUnpacks(s, a, tail, h, store);
    } else {
      var rest := Packed(items[1..], h) + tail;
      var text := PackedText(items[0], h);
      assert Packed(items, h) + tail == text + rest;
      FirstRecord(s, a, text, rest, Packed(items, h) + tail);
      if IsArt(items[0]) {
        assert rest[0..] == rest;
        UnpackFrom(rest, 0, items[1..], tail, h, store, maxItem);
        ArtThenRest(s, a, items, rest, tail, h, store, maxItem);
      } else {
        PlainRecordClean(s, a, items[0], h, maxItem);
        UnpackFrom(s, a + |text|, items[1..], tail, h, store, maxItem);
        PlainThenRest(s, a, items, tail, h, store);
      }
    }
  }

  lemma TailUnpacks(s: bytes, a: nat, tail: bytes, h: Digest, store: Store)
    requires a <= |s| && s[a..] == Packed([], h) + tail
    requires forall o :: 0 <= o < a ==> !At(s, o, REF_TAG)
    ensures UnpacksTo(s, a, [], tail, h, store)
  {
    hide Unpack, At, HoldsNoRef, Stream, Restored;
    NothingRestored(h, store);
    assert s[a..] == tail;
    if HoldsNoRef(tail) {
      CleanTextPasses(s, a, tail, h, store);
      assert s == s[..a] + [] + tail;
    }
  }

  lemma NothingRestored(h: Digest, store: Store)
    ensures Stream(Restored([], h, store)) == []
  {
  }

  lemma PlainThenRest(s: bytes, a: nat, items: seq<Item>, tail: bytes, h: Digest, store: Store)
    requires items != [] && !IsArt(items[0])
    requires var b := a + |PackedText(items[0], h)|; b <= |s| && s[..b] == s[..a] + PackedText(items[0], h)
    requires UnpacksTo(s, a + |PackedText(items[0], h)|, items[1..], tail, h, store)
    ensures UnpacksTo(s, a, items, tail, h, store)
  {
    hide PackedText, Encoded, Stream, Unpack, HoldsNoRef;
    PlainText(items[0], h);
    var restored := Restored(items, h, store);
    StreamFirst(restored);
    assert restored[1..] == Restored(items[1..], h, store);
    var b := a + |PackedText(items[0], h)|;
    assert s[..b] + Stream(restored[1..]) == s[..a] + (Encoded(restored[0]) + Stream(restored[1..]));
  }

  /** An artwork's reference is resolved, and what follows it is unpacked by itself. */
  lemma ArtThenRest(s: bytes, a: nat, items: seq<Item>, rest: bytes, tail: bytes, h: Digest, store: Store, maxItem: usize)
    requires items != [] && IsArt(items[0]) && WithinLimit(items, maxItem) && Digested(items, h)
    requires a <= |s| && At(s, a, PackedText(items[0], h)) && a + |PackedText(items[0], h)| <= |s|
    requires s[a + |PackedText(items[0], h)|..] == rest
    requires forall o :: 0 <= o < a ==> !At(s, o, REF_TAG)
    requires UnpacksTo(rest, 0, items[1..], tail, h, store)
    ensures UnpacksTo(s, a, items, tail, h, store)
  {
    hide Unpack, PackedText, Encoded, At, Stream, IsDigest, HoldsNoRef;
    UnpackArt(s, a, items[0], rest, h, store, maxItem);
    var restored := Restored(items, h, store);
    StreamFirst(restored);
    assert restored[1..] == Restored(items[1..], h, store);
    JoinArt(s[..a], Encoded(restored[0]), rest[..0], Stream(restored[1..]), tail);
  }

  lemma StreamFirst(items: seq<Item>)
    requires items != []
    ensures Stream(items) == Encoded(items[0]) + Stream(items[1..])
  {
  }

  lemma JoinArt(front: bytes, record: bytes, nothing: bytes, more: bytes, tail: bytes)
    requires nothing == []
    ensures Prefixed(front + record, Ok(nothing + more + tail)) == Ok(front + (record + more) + tail)
  {
    assert front + record + (nothing + more + tail) == front + (record + more) + tail;
  }

  /** Where the first record stands, and what follows it. */
  lemma FirstRecord(s: bytes, a: nat, text: bytes, rest: bytes, packed: bytes)
    requires a <= |s| && s[a..] == packed && packed == text + rest
    ensures At(s, a, text) && a + |text| <= |s| && s[a + |text|..] == rest
    ensures s == s[..a] + (text + rest) && s[..a + |text|] == s[..a] + text
  {
    hide At;
    assert s == s[..a] + (text + rest);
    StreamAt(s[..a], text + rest);
    AtConcat(s, a, text, rest);
  }

  lemma PlainRecordClean(s: bytes, a: nat, item: Item, h: Digest, maxItem: usize)
    requires !IsArt(item) && At(s, a, PackedText(item, h)) && |item.payload| <= maxItem
    requires forall o :: 0 <= o < a ==> !At(s, o, REF_TAG)
    ensures forall o :: 0 <= o < a + |PackedText(item, h)| ==> !At(s, o, REF_TAG)
  {
    hide At, Encoded;
    PlainText(item, h);
    forall o | 0 <= o < a + |PackedText(item, h)| ensures !At(s, o, REF_TAG) {
      if o >= a {
        EncodedHoldsNoRef(s, a, item, maxItem, o);
      }
    }
  }

  lemma ArtText(item: Item, h: Digest)
    requires IsArt(item)
    ensures PackedText(item, h) == RefText(item, h(item.payload))
  {
  }

  lemma PlainText(item: Item, h: Digest)
    requires !IsArt(item)
    ensures PackedText(item, h) == Encoded(item)
  {
  }

  lemma CleanTextPasses(s: bytes, a: nat, tail: bytes, h: Digest, store: Store)
    requires a <= |s| && s[a..] == [] + tail && HoldsNoRef(tail)
    requires forall o :: 0 <= o < a ==> !At(s, o, REF_TAG)
    ensures Unpack(s, h, store) == Ok(s)
  {
    hide Resolve, At;
    forall o: int | 0 <= o ensures !At(s, o, REF_TAG) {
      if o >= a {
        AtShift(s, a, o - a, REF_TAG);
        assert s[a..] == tail;
      }
    }
    NoRefNoWork(s, h, store);
  }

  lemma NoRefNoWork(s: bytes, h: Digest, store: Store)
    requires HoldsNoRef(s)
    ensures Unpack(s, h, store) == Ok(s)
  {
    hide Resolve, At;
  }

  /** One round of the unpacking loop. */
  lemma UnpackStep(s: bytes, at: nat, h: Digest, store: Store, before: bytes, payload: bytes, after: bytes)
    requires FindFrom(s, 0, REF_TAG) == Some(at)
    requires Resolve(s, at, h, store) == Reference(before, payload, after)
    ensures |after| < |s|
    ensures Unpack(s, h, store) == Prefixed(before + Encoded(Item(SSNC, PICT, payload)), Unpack(after, h, store))
  {
    hide Resolve, At, Encoded, FindFrom;
  }

  lemma UnpackArt(s: bytes, a: nat, item: Item, rest: bytes, h: Digest, store: Store, maxItem: usize)
    requires IsArt(item) && |item.payload| <= maxItem
    requires a <= |s| && At(s, a, PackedText(item, h)) && a + |PackedText(item, h)| <= |s|
    requires s[a + |PackedText(item, h)|..] == rest
    requires forall o :: 0 <= o < a ==> !At(s, o, REF_TAG)
    requires IsDigest(h(item.payload))
    ensures !Intact(item, h, store) ==>
      Unpack(s, h, store) == Err(if h(item.payload) in store then WrongContents else NoSuchFile)
    ensures Intact(item, h, store) ==>
      && |rest| < |s|
      && Unpack(s, h, store) == Prefixed(s[..a] + Encoded(RestoredItem(item, h, store)), Unpack(rest, h, store))
  {
    hide RefText, Encoded, Resolve, FindFrom, At, HeaderText, PackedText, IsDigest, Unpack;
    ArtText(item, h);
    RefResolves(s, a, item, h, store, maxItem);
    var t := a + |HeaderText(item.kind, item.code, |item.payload|)| + 1;
    if Intact(item, h, store) {
      UnpackStep(s, t, h, store, s[..a], store[h(item.payload)], rest);
    } else {
      UnpackStops(s, t, h, store);
    }
  }

  lemma UnpackStops(s: bytes, at: nat, h: Digest, store: Store)
    requires FindFrom(s, 0, REF_TAG) == Some(at) && Resolve(s, at, h, store).NotOne?
    ensures Unpack(s, h, store) == Err(Resolve(s, at, h, store).error)
  {
    hide Resolve, At, Encoded, FindFrom;
  }

  // --- the exact condition ---------------------------------------------------------------------

  /** No reference tag crosses from text into an item tag that follows it. */
  lemma NoRefAcross(a: bytes, b: bytes, o: nat)
    requires o < |a| && |b| > 0 && b[0] == LT && !At(a, o, REF_TAG)
    ensures !At(a + b, o, REF_TAG)
  {
    var s := a + b;
    if o + |REF_TAG| <= |a| {
      var k :| 0 <= k < |REF_TAG| && a[o + k] != REF_TAG[k];
      Differs(s, o, REF_TAG, k);
    } else {
      assert s[o + (|a| - o)] == LT;
      Differs(s, o, REF_TAG, |a| - o);
    }
  }

  /** Whatever unpacking returns, no reference is left in it. */
  lemma {:induction false} UnpackedHoldsNoRef(s: bytes, h: Digest, store: Store, maxItem: usize)
    requires Unpack(s, h, store).Ok?
    requires forall d :: d in store ==> |store[d]| <= maxItem
    ensures HoldsNoRef(Unpack(s, h, store).text)
    decreases |s|
  {
    hide Resolve, Encoded, At;
    if FindFrom(s, 0, REF_TAG).Some? {
      var at := FindFrom(s, 0, REF_TAG).value;
      var r := Resolve(s, at, h, store);
      var d := ResolvesFromStore(s, at, h, store);
      UnpackedHoldsNoRef(r.after, h, store, maxItem);
      var rest := Unpack(r.after, h, store).text;
      var item := Item(SSNC, PICT, r.payload);
      forall o | 0 <= o < |r.before| ensures !At(r.before, o, REF_TAG) {
        PrefixHoldsNoRef(s, r.before, o);
      }
      JoinedHoldsNoRef(r.before, item, rest, maxItem);
      assert Unpack(s, h, store).text == r.before + Encoded(item) + rest;
    }
  }

  /** Whatever the text and the store, a reference that resolves named 64 hexadecimal
      digits between its tag and the next closing tag, white space aside, and the
      payload it gives is the file of that name, whose contents have that digest. */
  lemma ResolvesFromStore(s: bytes, at: nat, h: Digest, store: Store) returns (d: bytes)
    requires At(s, at, REF_TAG) && Resolve(s, at, h, store).Reference?
    ensures Names(s, at, d) && |d| == 64 && IsDigest(d)
    ensures d in store && h(store[d]) == d && Resolve(s, at, h, store).payload == store[d]
  {
    hide DecodeUtf8, Trim;
    var close := FindFrom(s, at + |REF_TAG|, DATA_CLOSE).value;
    var text := DecodeUtf8(s[at + |REF_TAG|..close]).value;
    ScalarsAsBytes(Trim(text));
    d := Trim(text);
  }

  lemma ScalarsAsBytes(d: scalars)
    requires IsDigest(d)
    ensures forall k :: 0 <= k < |d| ==> 0 <= d[k] < 256
  {
  }

  /** The record whose reference tag is there names d. */
  predicate Names(s: bytes, at: nat, d: bytes)
    requires At(s, at, REF_TAG)
  {
    var close := FindFrom(s, at + |REF_TAG|, DATA_CLOSE);
    close.Some? && close.value <= |s| && var text := DecodeUtf8(s[at + |REF_TAG|..close.value]);
    text.Some? && Trim(text.value) == d
  }

  /** An item tag ends before the reference, a closing item tag follows it, and so does a
      closing data tag. */
  ghost predicate Encloses(s: bytes, at: nat) {
    exists a: nat :: a + |ITEM_OPEN| <= at && At(s, a, ITEM_OPEN)
  }

  ghost predicate Follows(s: bytes, at: nat, tag: bytes) {
    exists c: nat :: at <= c && At(s, c, tag)
  }

  /** In any text, a reference is resolved or refused for the first of these reasons that
      holds: no item encloses it, the item is not closed, its data is not closed, or what
      it names is not text, is no digest, is no file, or is a file with another digest. */
  lemma ResolvesIff(s: bytes, at: nat, h: Digest, store: Store) returns (d: bytes)
    requires At(s, at, REF_TAG)
    ensures var r, body := Resolve(s, at, h, store), at + |REF_TAG|;
      if !Encloses(s, at) then r == NotOne(NoEnclosingItem)
      else if !Follows(s, at, ITEM_CLOSE) then r == NotOne(Unterminated)
      else if !Follows(s, body, DATA_CLOSE) then r == NotOne(NoDataClose)
      else
        var close := FindFrom(s, body, DATA_CLOSE);
        close.Some? && body <= close.value <= |s| && match DecodeUtf8(s[body..close.value]) {
          case None => r == NotOne(NotUtf8)
          case Some(text) =>
            if !IsDigest(Trim(text)) then r == NotOne(NotADigest)
            else d == Trim(text) && r == Referred(h, store, d, BeforeOf(r), AfterOf(r))
        }
  {
    hide DecodeUtf8, Trim;
    var body := at + |REF_TAG|;
    d := [];
    assert FindLast(s, at, ITEM_OPEN).Some? <==> Encloses(s, at);
    assert FindFrom(s, at, ITEM_CLOSE).Some? <==> Follows(s, at, ITEM_CLOSE);
    assert FindFrom(s, body, DATA_CLOSE).Some? <==> Follows(s, body, DATA_CLOSE);
    if Follows(s, body, DATA_CLOSE) {
      var close := FindFrom(s, body, DATA_CLOSE).value;
      var text := DecodeUtf8(s[body..close]);
      if text.Some? && IsDigest(Trim(text.value)) {
        ScalarsAsBytes(Trim(text.value));
        d := Trim(text.value);
      }
    }
  }

  function BeforeOf(r: Reference): bytes {
    if r.Reference? then r.before else []
  }

  function AfterOf(r: Reference): bytes {
    if r.Reference? then r.after else []
  }

  /** What a resolved reference takes out is the record from the last item tag before it
      to the first closing item tag after it, with one newline if one follows. */
  lemma ResolvedParts(s: bytes, at: nat, h: Digest, store: Store) returns (a: nat, c: nat)
    requires At(s, at, REF_TAG) && Resolve(s, at, h, store).Reference?
    ensures a + |ITEM_OPEN| <= at <= c && At(s, a, ITEM_OPEN) && At(s, c, ITEM_CLOSE)
    ensures forall k :: a < k && k + |ITEM_OPEN| <= at ==> !At(s, k, ITEM_OPEN)
    ensures forall k :: at <= k < c ==> !At(s, k, ITEM_CLOSE)
    ensures Resolve(s, at, h, store).before == s[..a]
    ensures Resolve(s, at, h, store).after ==
      if c + 7 < |s| && s[c + 7] == NEWLINE then s[c + 8..] else s[c + 7..]
  {
    hide DecodeUtf8, Trim;
    a := FindLast(s, at, ITEM_OPEN).value;
    c := FindFrom(s, at, ITEM_CLOSE).value;
  }

  /** A digest is 64 hexadecimal digits. */
  lemma DigestIff(d: scalars)
    ensures IsDigest(d) <==> |d| == 64 && forall k :: 0 <= k < |d| ==> DigitOf(d[k], 16).Some?
  {
    forall c: int ensures IsHexDigit(c) <==> DigitOf(c, 16).Some? {
    }
  }

  lemma PrefixHoldsNoRef(s: bytes, a: bytes, o: nat)
    requires a <= s && !At(s, o, REF_TAG)
    ensures !At(a, o, REF_TAG)
  {
    if At(a, o, REF_TAG) {
      AtGrows(a, s, o);
    }
  }

  lemma AtGrows(a: bytes, s: bytes, o: nat)
    requires a <= s && At(a, o, REF_TAG)
    ensures At(s, o, REF_TAG)
  {
    forall k | 0 <= k < |REF_TAG| ensures s[o + k] == REF_TAG[k] {
      assert a[o + k] == REF_TAG[k];
    }
  }

  lemma JoinedHoldsNoRef(a: bytes, item: Item, rest: bytes, maxItem: usize)
    requires |item.payload| <= maxItem && HoldsNoRef(rest)
    requires forall o :: 0 <= o < |a| ==> !At(a, o, REF_TAG)
    ensures HoldsNoRef(a + Encoded(item) + rest)
  {
    hide Encoded, At;
    var e := Encoded(item);
    var s := a + (e + rest);
    assert s == a + e + rest;
    StreamAt(a, e + rest);
    AtConcat(s, |a|, e, rest);
    EncodedStarts(s, |a|, item);
    OpensWithBracket(s, |a|);
    forall o: int | 0 <= o ensures !At(s, o, REF_TAG) {
      if o < |a| {
        NoRefAcross(a, e + rest, o);
      } else if o < |a| + |e| {
        EncodedHoldsNoRef(s, |a|, item, maxItem, o);
      } else {
        assert s[|a| + |e|..] == rest;
        AtShift(s, |a| + |e|, o - (|a| + |e|), REF_TAG);
      }
    }
  }

  lemma OpensWithBracket(s: bytes, i: nat)
    requires At(s, i, ITEM_OPEN)
    ensures i < |s| && s[i] == LT
  {
    assert s[i + 0] == ITEM_OPEN[0];
  }

  /** Unpacking a packed capture gives back the canonical capture exactly when
      the truncated tail holds no reference tag. */
  lemma UnpackPackedIff(items: seq<Item>, tail: bytes, h: Digest, store: Store, maxItem: usize)
    requires WithinLimit(items, maxItem) && Answers(store, items, h)
    requires forall d :: d in store ==> |store[d]| <= maxItem
    ensures Unpack(Packed(items, h) + tail, h, store) == Ok(Stream(items) + tail) <==> HoldsNoRef(tail)
  {
    hide Unpack, Packed, Stream, At;
    var s := Packed(items, h) + tail;
    if HoldsNoRef(tail) {
      AnswersRestore(items, h, store);
      assert s[0..] == s && s[..0] + Stream(items) == Stream(items);
      UnpackFrom(s, 0, items, tail, h, store, maxItem);
    } else if Unpack(s, h, store) == Ok(Stream(items) + tail) {
      UnpackedHoldsNoRef(s, h, store, maxItem);
      var o: int :| 0 <= o && At(tail, o, REF_TAG);
      assert (Stream(items) + tail)[|Stream(items)|..] == tail;
      AtShift(Stream(items) + tail, |Stream(items)|, o, REF_TAG);
      assert false;
    }
  }

  lemma {:induction false} AnswersRestore(items: seq<Item>, h: Digest, store: Store)
    requires Answers(store, items, h)
    ensures Trouble(items, h, store).None? && Restored(items, h, store) == items && Digested(items, h)
  {
    if items != [] {
      AnswersRestore(items[1..], h, store);
    }
  }

  /** Over any store at all: packed items are unpacked exactly when every artwork's file
      is there with contents of its digest, and otherwise the first that is not is
      reported for what it is. */
  lemma UnpackChecksFiles(items: seq<Item>, tail: bytes, h: Digest, store: Store, maxItem: usize)
    requires WithinLimit(items, maxItem) && Digested(items, h)
    ensures Trouble(items, h, store).Some? ==>
      Unpack(Packed(items, h) + tail, h, store) == Err(Trouble(items, h, store).value)
    ensures Trouble(items, h, store).None? && HoldsNoRef(tail) ==>
      Unpack(Packed(items, h) + tail, h, store) == Ok(Stream(Restored(items, h, store)) + tail)
    ensures Unpack(Packed(items, h) + tail, h, store).Ok? ==>
      forall k :: 0 <= k < |items| && IsArt(items[k]) ==>
        h(items[k].payload) in store && h(store[h(items[k].payload)]) == h(items[k].payload)
  {
    hide Unpack, Packed, Stream, At, IsArt, IsDigest, HoldsNoRef;
    var s := Packed(items, h) + tail;
    assert s[0..] == s && s[..0] + Stream(Restored(items, h, store)) == Stream(Restored(items, h, store));
    UnpackFrom(s, 0, items, tail, h, store, maxItem);
    NoTroubleMeansIntact(items, h, store);
  }

  lemma {:induction false} NoTroubleMeansIntact(items: seq<Item>, h: Digest, store: Store)
    ensures Trouble(items, h, store).None? <==> forall k :: 0 <= k < |items| ==> Intact(items[k], h, store)
  {
    hide Intact;
    if items != [] {
      NoTroubleMeansIntact(items[1..], h, store);
      forall k | 0 <= k < |items[1..]| ensures items[1..][k] == items[k + 1] {
      }
      if forall k :: 0 <= k < |items| ==> Intact(items[k], h, store) {
        forall k | 0 <= k < |items[1..]| ensures Intact(items[1..][k], h, store) {
          assert Intact(items[k + 1], h, store);
        }
      }
    }
  }

  // --- the store after packing --------------------------------------------------------------------

  /** Every file is named by its own digest, and no two artworks in play share one. */
  ghost predicate CollisionFree(items: seq<Item>, h: Digest, store: Store) {
    && (forall d :: d in store ==> h(store[d]) == d)
    && (forall k, d :: 0 <= k < |items| && IsArt(items[k]) && d in store && h(items[k].payload) == h(store[d])
          ==> items[k].payload == store[d])
    && (forall j, k :: 0 <= j < |items| && 0 <= k < |items| && IsArt(items[j]) && IsArt(items[k])
          && h(items[j].payload) == h(items[k].payload)
          ==> items[j].payload == items[k].payload)
  }

  /** Every file in the store after packing was there before, or is the payload of some artwork, under its digest. */
  ghost predicate FromStoreOrItems(after: Store, items: seq<Item>, h: Digest, store: Store) {
    forall d :: d in after ==>
      || (d in store && after[d] == store[d])
      || exists k :: 0 <= k < |items| && IsArt(items[k]) && d == h(items[k].payload) && after[d] == items[k].payload
  }

  lemma {:induction false} StoredFrom(items: seq<Item>, h: Digest, store: Store)
    ensures FromStoreOrItems(StoredAll(items, h, store), items, h, store)
    decreases |items|
  {
    if items != [] {
      var init, item := items[..|items| - 1], items[|items| - 1];
      StoredFrom(init, h, store);
      var before, after := StoredAll(init, h, store), StoredAll(items, h, store);
      assert after == Stored(item, h, before);
      forall d | d in after && !(d in store && after[d] == store[d])
        ensures exists k :: 0 <= k < |items| && IsArt(items[k]) && d == h(items[k].payload) && after[d] == items[k].payload
      {
        if d in before {
          var k :| 0 <= k < |init| && IsArt(init[k]) && d == h(init[k].payload) && before[d] == init[k].payload;
          assert items[k] == init[k];
        } else {
          assert items[|items| - 1] == item;
        }
      }
    }
  }

  /** A file already stored under an artwork's digest holds that artwork. */
  lemma StoredMeansSame(items: seq<Item>, n: nat, h: Digest, store: Store)
    requires n < |items| && IsArt(items[n]) && CollisionFree(items, h, store)
    requires h(items[n].payload) in StoredAll(items[..n], h, store)
    ensures StoredAll(items[..n], h, store)[h(items[n].payload)] == items[n].payload
  {
    hide IsArt, StoredAll;
    var init, d := items[..n], h(items[n].payload);
    var before := StoredAll(init, h, store);
    StoredFrom(init, h, store);
    if !(d in store && before[d] == store[d]) {
      var k :| 0 <= k < |init| && IsArt(init[k]) && d == h(init[k].payload) && before[d] == init[k].payload;
      assert items[k] == init[k];
    }
  }

  /** Packing into such a store leaves one that can answer every reference. */
  lemma {:induction false} PackedStoreAnswers(items: seq<Item>, n: nat, h: Digest, store: Store)
    requires n <= |items| && CollisionFree(items, h, store)
    requires forall k :: 0 <= k < |items| && IsArt(items[k]) ==> IsDigest(h(items[k].payload))
    ensures Answers(StoredAll(items[..n], h, store), items[..n], h)
    decreases n
  {
    hide IsArt, IsDigest, CollisionFree;
    if n > 0 {
      var init, item := items[..n - 1], items[n - 1];
      PackedStoreAnswers(items, n - 1, h, store);
      assert items[..n][..n - 1] == init;
      var before, after := StoredAll(init, h, store), StoredAll(items[..n], h, store);
      assert after == Stored(item, h, before);
      if IsArt(item) && h(item.payload) in before {
        StoredMeansSame(items, n - 1, h, store);
      }
      forall k | 0 <= k < n && IsArt(items[..n][k])
        ensures && IsDigest(h(items[k].payload)) && h(items[k].payload) in after
                && after[h(items[k].payload)] == items[k].payload
      {
        if k < n - 1 {
          assert init[k] == items[k];
        }
      }
    }
  }

  /** No file is longer than a byte count can say. */
  ghost predicate Addressable(store: Store) {
    forall d :: d in store ==> |store[d]| < USIZE_LIMIT
  }

  /** The whole claim, for any capture that parses: packing it and unpacking the
      result gives the canonical capture if and only if the truncated tail
      holds no reference tag. */
  lemma PackRoundTrip(input: bytes, h: Digest, store: Store)
    requires Reframe(input).Some? && Addressable(store)
    requires CollisionFree(Reframe(input).value.items, h, store)
    requires forall k :: 0 <= k < |Reframe(input).value.items| && IsArt(Reframe(input).value.items[k])
               ==> IsDigest(h(Reframe(input).value.items[k].payload))
    ensures var f := Reframe(input).value;
            var packed, stored := Packed(f.items, h) + f.tail, StoredAll(f.items, h, store);
            && Canonical(input).Some?
            && (Unpack(packed, h, stored) == Ok(Canonical(input).value) <==> HoldsNoRef(f.tail))
  {
    hide Reframe, Packed, Unpack, Stream, IsArt, IsDigest, CollisionFree;
    var f := Reframe(input).value;
    ReframedIsSound(input);
    assert f.items[..|f.items|] == f.items;
    PackedStoreAnswers(f.items, |f.items|, h, store);
    StoredIsAddressable(f.items, h, store);
    UnpackPackedIff(f.items, f.tail, h, StoredAll(f.items, h, store), USIZE_LIMIT - 1);
  }

  // --- a capture the packer cannot round-trip ---------------------------------------------------

  lemma RefTagReads(s: bytes, i: nat)
    requires At(s, i, REF_TAG)
    ensures WsEnd(s, i) == i && Choose(s, i) == Done(false, i)
    ensures DataOpen(s, i) == Done((), i + |REF_TAG|)
  {
    assert s[i + 0] == REF_TAG[0];
    forall k | 0 <= k < |DATA| ensures s[i + k] == DATA[k] {
      assert s[i + k] == REF_TAG[k];
    }
    assert s[i + 1] == DATA[1];
    Differs(s, i, ITEM_CLOSE, 1);
    var n := i + |REF_TAG| - 1;
    assert s[i + (|REF_TAG| - 1)] == REF_TAG[|REF_TAG| - 1];
    forall j | i + |DATA| <= j < n ensures !At(s, j, GT) {
      assert s[i + (j - i)] == REF_TAG[j - i] != GT[0];
      Differs(s, j, GT, 0);
    }
    FindIs(s, i + |DATA|, GT, n);
  }

  /** A header and a reference tag, and nothing after them. */
  const CUT_SHORT: bytes := HeaderText(SSNC, PICT, 0) + [NEWLINE] + REF_TAG

  lemma CutShortParts()
    ensures var a := |HeaderText(SSNC, PICT, 0)|;
      && At(CUT_SHORT, 0, HeaderText(SSNC, PICT, 0)) && At(CUT_SHORT, a + 1, REF_TAG)
      && |CUT_SHORT| == a + 1 + |REF_TAG| && WsEnd(CUT_SHORT, a) == a + 1
  {
    hide At, HeaderText;
    var header := HeaderText(SSNC, PICT, 0);
    var a := |header|;
    StreamAt(header, [NEWLINE] + REF_TAG);
    assert CUT_SHORT == header + ([NEWLINE] + REF_TAG);
    AtConcat(CUT_SHORT, a, [NEWLINE], REF_TAG);
    SingleByte(CUT_SHORT, a);
    RefTagReads(CUT_SHORT, a + 1);
  }

  lemma CutShortIsIncomplete(maxItem: usize)
    ensures ParseItem(CUT_SHORT, 0, maxItem).Incomplete? && At(CUT_SHORT, 0, ITEM_OPEN)
  {
    hide At, HeaderText, ReadHeader, DataOpen, Choose, WsEnd, ParseItem;
    var a := |HeaderText(SSNC, PICT, 0)|;
    CutShortParts();
    HeaderReads(CUT_SHORT, 0, SSNC, PICT, 0, maxItem);
    HeaderOpens(CUT_SHORT, 0, SSNC, PICT, 0);
    RefTagReads(CUT_SHORT, a + 1);
    CutAfterTag(CUT_SHORT, a, maxItem);
  }

  /** Text that ends with its data tag is waited for. */
  lemma CutAfterTag(s: bytes, a: nat, maxItem: usize)
    requires ReadHeader(s, 0, maxItem).Done? && ReadHeader(s, 0, maxItem).next == a < |s| && WsEnd(s, a) == a + 1
    requires Choose(s, a + 1) == Done(false, a + 1) && DataOpen(s, a + 1) == Done((), |s|)
    ensures ParseItem(s, 0, maxItem).Incomplete?
  {
    hide ReadHeader, DataOpen, Choose, WsEnd, Until;
    NoneAtEnd(s);
  }

  lemma NoneAtEnd(s: bytes)
    ensures Until(s, |s|, DATA_CLOSE).Incomplete?
  {
  }

  lemma CutShortIsShort()
    ensures |CUT_SHORT| <= LIMITS.maxBuffer
  {
    assert Decimal(0) == [DigitByte(0)];
  }

  /** Such a capture parses without error, yet packing it and unpacking the result,
      with any digest and an empty store, does not give it back. */
  lemma LossyCapture(h: Digest)
    ensures Reframe(CUT_SHORT) == Some(Reframed([], CUT_SHORT)) && Canonical(CUT_SHORT) == Some(CUT_SHORT)
    ensures Unpack(Packed([], h) + CUT_SHORT, h, StoredAll([], h, map[])) != Ok(CUT_SHORT)
  {
    hide Reframe, Unpack, At, HeaderText, ParseItem;
    CutShortIsIncomplete(LIMITS.maxItem);
    CutShortIsShort();
    CutShortParts();
    assert Stream([]) + CUT_SHORT == CUT_SHORT;
    CanonicalReads([], CUT_SHORT);
    PackRoundTrip(CUT_SHORT, h, map[]);
    var a := |HeaderText(SSNC, PICT, 0)| + 1;
    assert At(CUT_SHORT, a, REF_TAG);
  }

  lemma StoredIsAddressable(items: seq<Item>, h: Digest, store: Store)
    requires Addressable(store) && WithinLimit(items, LIMITS.maxItem)
    ensures Addressable(StoredAll(items, h, store))
  {
    StoredFrom(items, h, store);
  }
}
