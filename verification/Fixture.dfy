/** Packing a capture: cover art goes to a content-addressed store and leaves
    a reference behind; unpacking puts it back. */
module Fixture {
  import opened Bytes
  import opened Numerals
  import opened Wire
  import opened Containment
  import opened Encoder
  import opened WholeScan
  import opened Resync
  import opened Framing
  import opened Chunking
  import opened Capture

  const SSNC: u32 := 0x73736E63
  const PICT: u32 := 0x50494354

  /** <data encoding="lpcapture-ref"> */
  const REF_TAG: bytes := DATA + [0x20, 0x65, 0x6E, 0x63, 0x6F, 0x64, 0x69, 0x6E, 0x67, 0x3D, 0x22,
                                  0x6C, 0x70, 0x63, 0x61, 0x70, 0x74, 0x75, 0x72, 0x65, 0x2D, 0x72, 0x65, 0x66, 0x22] + GT

  const LETTER_D: byte := 0x64
  const DIGEST_LENGTH := 64

  /** The digest function: SHA-256 in lower-case hexadecimal, here any function with that shape of result. */
  type Digest = bytes -> bytes

  /** The art directory: payloads by digest. */
  type Store = map<bytes, bytes>

  predicate IsHexDigit(c: int) {
    0x30 <= c <= 0x39 || 0x41 <= c <= 0x46 || 0x61 <= c <= 0x66
  }

  predicate IsDigest(d: scalars) {
    |d| == DIGEST_LENGTH && forall k :: 0 <= k < |d| ==> IsHexDigit(d[k])
  }

  predicate IsArt(item: Item) {
    item.kind == SSNC && item.code == PICT && item.payload != []
  }

  // --- packing ---------------------------------------------------------------------

  function RefBody(digest: bytes): bytes {
    [NEWLINE] + REF_TAG + ([NEWLINE] + digest) + DATA_CLOSE
  }

  /** The record that stands in for an artwork item. */
  function RefText(item: Item, digest: bytes): bytes {
    HeaderText(item.kind, item.code, |item.payload|) + RefBody(digest) + ITEM_CLOSE + [NEWLINE]
  }

  function PackedText(item: Item, h: Digest): bytes {
    if IsArt(item) then RefText(item, h(item.payload)) else Encoded(item)
  }

  function Packed(items: seq<Item>, h: Digest): bytes {
    if items == [] then [] else PackedText(items[0], h) + Packed(items[1..], h)
  }

  /** An artwork file is written only when no file of that name exists. */
  function Stored(item: Item, h: Digest, store: Store): Store {
    if IsArt(item) && h(item.payload) !in store then store[h(item.payload) := item.payload] else store
  }

  function StoredAll(items: seq<Item>, h: Digest, store: Store): Store {
    if items == [] then store
    else Stored(items[|items| - 1], h, StoredAll(items[..|items| - 1], h, store))
  }

  /** One item: art goes to the store, unless its file is there, and a reference record takes its place. */
  method PackItem(item: Item, h: Digest, store: Store) returns (text: bytes, store': Store)
    ensures text == PackedText(item, h) && store' == Stored(item, h, store)
  {
    store' := store;
    if !IsArt(item) {
      text := EncodeItem(item.kind, item.code, item.payload);
      return;
    }
    var digest := h(item.payload);
    if digest !in store {
      store' := store[digest := item.payload];
    }
    text := RefText(item, digest);
  }

  /** The digests of the artwork among the items. */
  function Digests(items: seq<Item>, h: Digest): set<bytes> {
    set i | 0 <= i < |items| && IsArt(items[i]) :: h(items[i].payload)
  }

  /** Pack a capture, or refuse it if any of it does not parse. */
  method Pack(input: bytes, h: Digest, store: Store)
    returns (r: Option<bytes>, store': Store, digests: set<bytes>)
    ensures match Reframe(input)
            case None => r == None
            case Some(f) =>
              && r == Some(Packed(f.items, h) + f.tail) && store' == StoredAll(f.items, h, store)
              && digests == Digests(f.items, h)
  {
    hide Drained, StepFrom, HintOk, Counted, Leads, At, TailAt, PackedSoFar;
    var parser := new Parser(LIMITS);
    parser.Feed(input);
    assert parser.stream == input;
    var out: bytes := [];
    store', digests := store, {};
    ghost var got: seq<Reply> := [];
    NothingPacked(h, store);
    while true
      invariant parser.Valid() && parser.stream == input && parser.limits == LIMITS
      invariant fresh(parser)
      invariant PackedSoFar(got, out, store', digests, h, store)
      invariant var d, rest := Drained(input, 0, LIMITS), Drained(input, parser.Offset(), LIMITS);
                d.replies == got + rest.replies && d.end == rest.end
      decreases |input| - parser.Offset()
    {
      DrainStep(input, parser.Offset(), LIMITS);
      var reply := parser.NextItem();
      match reply {
        case Nothing =>
          break;
        case Failed(_) =>
          assert Drained(input, 0, LIMITS).replies[|got|] == reply;
          return None, store', digests;
        case Got(item) =>
          PackedMore(got, out, store', digests, item, h, store);
          var text;
          text, store' := PackItem(item, h, store');
          out := out + text;
          if IsArt(item) {
            digests := digests + {h(item.payload)};
          }
          got := got + [reply];
      }
    }
    assert Drained(input, 0, LIMITS).replies == got;
    AllPacked(got, out, store', digests, h, store);
    var tail := TrailingPartialItem(parser);
    return Some(out + tail), store', digests;
  }

  /** What the loop has made of the items got so far. */
  ghost predicate PackedSoFar(got: seq<Reply>, out: bytes, store': Store, digests: set<bytes>, h: Digest, store: Store) {
    && AllGot(got) && out == Packed(ItemsOf(got), h) && store' == StoredAll(ItemsOf(got), h, store)
    && digests == Digests(ItemsOf(got), h)
  }

  lemma NothingPacked(h: Digest, store: Store)
    ensures PackedSoFar([], [], store, {}, h, store)
  {
    NoDigests(h);
  }

  lemma PackedMore(got: seq<Reply>, out: bytes, store': Store, digests: set<bytes>, item: Item, h: Digest, store: Store)
    requires PackedSoFar(got, out, store', digests, h, store)
    ensures PackedSoFar(got + [Got(item)], out + PackedText(item, h), Stored(item, h, store'),
                        if IsArt(item) then digests + {h(item.payload)} else digests, h, store)
  {
    hide PackedText, Stored, Digests, IsArt, Packed, StoredAll;
    PackedSnoc(ItemsOf(got), item, h, store);
    DigestsSnoc(ItemsOf(got), item, h);
    assert ItemsOf(got + [Got(item)]) == ItemsOf(got) + [item];
  }

  lemma AllPacked(got: seq<Reply>, out: bytes, store': Store, digests: set<bytes>, h: Digest, store: Store)
    requires PackedSoFar(got, out, store', digests, h, store)
    ensures AllGot(got) && out == Packed(ItemsOf(got), h) && store' == StoredAll(ItemsOf(got), h, store)
    ensures digests == Digests(ItemsOf(got), h)
  {
  }

  lemma NoDigests(h: Digest)
    ensures Digests([], h) == {}
  {
  }

  lemma DigestsSnoc(items: seq<Item>, item: Item, h: Digest)
    ensures Digests(items + [item], h) == Digests(items, h) + if IsArt(item) then {h(item.payload)} else {}
  {
    var all := items + [item];
    forall d ensures d in Digests(all, h) <==>
      d in Digests(items, h) + if IsArt(item) then {h(item.payload)} else {}
    {
      if d in Digests(items, h) {
        var i :| 0 <= i < |items| && IsArt(items[i]) && h(items[i].payload) == d;
        assert all[i] == items[i];
      }
      if IsArt(item) {
        assert all[|items|] == item;
      }
    }
  }

  /** Packing adds files under exactly the digests it reports. */
  lemma {:induction false} StoredUnder(items: seq<Item>, h: Digest, store: Store)
    ensures StoredAll(items, h, store).Keys == store.Keys + Digests(items, h)
  {
    hide Digests, IsArt;
    NoDigests(h);
    if items != [] {
      var n := |items| - 1;
      StoredUnder(items[..n], h, store);
      DigestsSnoc(items[..n], items[n], h);
      assert items == items[..n] + [items[n]];
    }
  }

  lemma {:induction false} PackedSnoc(items: seq<Item>, item: Item, h: Digest, store: Store)
    ensures Packed(items + [item], h) == Packed(items, h) + PackedText(item, h)
    ensures StoredAll(items + [item], h, store) == Stored(item, h, StoredAll(items, h, store))
  {
    hide PackedText, Stored;
    assert (items + [item])[..|items|] == items;
    if items == [] {
      assert items + [item] == [item] && [item][1..] == [];
    } else {
      assert (items + [item])[1..] == items[1..] + [item];
      PackedSnoc(items[1..], item, h, store);
    }
  }

  // --- unpacking -------------------------------------------------------------------

  datatype UnpackError =
    NoEnclosingItem | Unterminated | NoDataClose | NotUtf8 | NotADigest | NoSuchFile | WrongContents

  datatype Unpacked = Ok(text: bytes) | Err(error: UnpackError)

  /** The last occurrence of a pattern that ends by the given bound. */
  function FindLast(s: bytes, bound: nat, pat: bytes): (r: Option<nat>)
    requires bound <= |s| && pat != []
    ensures r.Some? ==> At(s, r.value, pat) && r.value + |pat| <= bound
    ensures r.Some? ==> forall j :: r.value < j && j + |pat| <= bound ==> !At(s, j, pat)
    ensures r.None? ==> forall j :: j + |pat| <= bound ==> !At(s, j, pat)
  {
    if bound < |pat| then None
    else if At(s, bound - |pat|, pat) then Some(bound - |pat|)
    else FindLast(s, bound - 1, pat)
  }

  /** One reference: the text before its record, the payload it names, and the text after its record. */
  datatype Reference = Reference(before: bytes, payload: bytes, after: bytes) | NotOne(error: UnpackError)

  /** Resolve the reference whose tag is at the given offset. */
  function Resolve(s: bytes, at: nat, h: Digest, store: Store): (r: Reference)
    requires At(s, at, REF_TAG)
    ensures r.Reference? ==> |r.after| < |s|
    ensures r.Reference? ==> |r.before| <= at && r.before == s[..|r.before|] && At(s, |r.before|, ITEM_OPEN)
    ensures r.Reference? ==> exists k :: at < k <= |s| && r.after == s[k..]
  {
    match FindLast(s, at, ITEM_OPEN)
    case None => NotOne(NoEnclosingItem)
    case Some(start) =>
      match FindFrom(s, at, ITEM_CLOSE)
      case None => NotOne(Unterminated)
      case Some(close) =>
        var body := at + |REF_TAG|;
        match FindFrom(s, body, DATA_CLOSE)
        case None => NotOne(NoDataClose)
        case Some(bodyEnd) =>
          match DecodeUtf8(s[body..bodyEnd])
          case None => NotOne(NotUtf8)
          case Some(text) =>
            var digest := Trim(text);
            if !IsDigest(digest) then NotOne(NotADigest)
            else
              assert forall k :: 0 <= k < |digest| ==> 0 <= digest[k] < 256;
              if digest !in store then NotOne(NoSuchFile)
              else if h(store[digest]) != digest then NotOne(WrongContents)
              else
                var end := close + |ITEM_CLOSE|;
                var next := if end < |s| && s[end] == NEWLINE then end + 1 else end;
                Reference(s[..start], store[digest], s[next..])
  }

  /** Put every referenced payload back; text without references passes through untouched. */
  function Unpack(s: bytes, h: Digest, store: Store): Unpacked
    decreases |s|
  {
    match FindFrom(s, 0, REF_TAG)
    case None => Ok(s)
    case Some(at) =>
      match Resolve(s, at, h, store)
      case NotOne(error) => Err(error)
      case Reference(before, payload, after) =>
        match Unpack(after, h, store)
        case Err(error) => Err(error)
        case Ok(text) => Ok(before + Encoded(Item(SSNC, PICT, payload)) + text)
  }

  /** The unpacking loop as it runs. */
  method UnpackText(packed: bytes, h: Digest, store: Store) returns (r: Unpacked)
    ensures r == Unpack(packed, h, store)
  {
    hide Encoded, Resolve, At;
    var out: bytes := [];
    var rest := packed;
    while true
      invariant Unpack(packed, h, store) == Prefixed(out, Unpack(rest, h, store))
      decreases |rest|
    {
      match FindFrom(rest, 0, REF_TAG) {
        case None =>
          return Ok(out + rest);
        case Some(at) =>
          match Resolve(rest, at, h, store) {
            case NotOne(error) =>
              return Err(error);
            case Reference(before, payload, after) =>
              var text := EncodeItem(SSNC, PICT, payload);
              PrefixTwice(out, before + text, Unpack(after, h, store));
              out := out + (before + text);
              rest := after;
          }
      }
    }
  }

  function Prefixed(a: bytes, r: Unpacked): Unpacked {
    if r.Ok? then Ok(a + r.text) else r
  }

  lemma PrefixTwice(a: bytes, b: bytes, r: Unpacked)
    ensures Prefixed(a, Prefixed(b, r)) == Prefixed(a + b, r)
  {
    if r.Ok? {
      assert a + (b + r.text) == (a + b) + r.text;
    }
  }
}
