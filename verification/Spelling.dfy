/** What the stream's constants spell. */
module Spelling {
  import opened Bytes
  import opened Wire
  import opened Encoder
  import opened Fixture

  predicate Spells(b: seq<int>, text: string) {
    |b| == |text| && forall k :: 0 <= k < |b| ==> b[k] == text[k] as int
  }

  lemma FieldTagsAreSpelled()
    ensures Spells(ITEM_OPEN, "<item>") && Spells(ITEM_CLOSE, "</item>")
    ensures Spells(TYPE_OPEN, "<type>") && Spells(TYPE_CLOSE, "</type>")
    ensures Spells(CODE_OPEN, "<code>") && Spells(CODE_CLOSE, "</code>")
    ensures Spells(LENGTH_OPEN, "<length>") && Spells(LENGTH_CLOSE, "</length>")
  {
  }

  lemma DataTagsAreSpelled()
    ensures Spells(DATA, "<data") && Spells(GT, ">") && Spells(DATA_CLOSE, "</data>")
  {
  }

  lemma EncodedTagIsSpelled() returns (attribute: bytes)
    ensures DATA_TAG == DATA + attribute + GT && Spells(attribute, " encoding=\"base64\"")
  {
    attribute := [0x20, 0x65, 0x6E, 0x63, 0x6F, 0x64, 0x69, 0x6E, 0x67, 0x3D, 0x22, 0x62, 0x61, 0x73, 0x65, 0x36, 0x34, 0x22];
  }

  lemma ReferenceTagIsSpelled() returns (attribute: bytes)
    ensures REF_TAG == DATA + attribute + GT && Spells(attribute, " encoding=\"lpcapture-ref\"")
  {
    attribute := [0x20, 0x65, 0x6E, 0x63, 0x6F, 0x64, 0x69, 0x6E, 0x67, 0x3D, 0x22, 0x6C, 0x70]
                 + [0x63, 0x61, 0x70, 0x74, 0x75, 0x72, 0x65, 0x2D, 0x72, 0x65, 0x66, 0x22];
  }

  /** White space is space, tab, newline, form feed and carriage return. */
  lemma SpaceIff(b: byte)
    ensures IsSpace(b) <==> b in {' ' as int, '\t' as int, '\n' as int, 0x0C, '\r' as int}
  {
  }

  // --- lines ---------------------------------------------------------------------------

  /** Encoded text of n characters stands in lines of exactly 76, the last of which may be
      shorter but is not empty, and every line is ended. */
  lemma {:induction false} LinesAreFull(s: bytes)
    requires forall k :: 0 <= k < |s| ==> s[k] != NEWLINE
    ensures |Wrapped(s)| == |s| + (|s| + 75) / 76
    ensures forall j :: 0 <= j < |Wrapped(s)| ==>
      (Wrapped(s)[j] == NEWLINE <==> j % 77 == 76 || j == |Wrapped(s)| - 1)
    decreases |s|
  {
    if |s| > 76 {
      var rest, w := s[76..], Wrapped(s);
      LinesAreFull(rest);
      assert w == s[..76] + [NEWLINE] + Wrapped(rest);
      forall j | 77 <= j < |w| ensures w[j] == NEWLINE <==> j % 77 == 76 || j == |w| - 1 {
        assert w[j] == Wrapped(rest)[j - 77];
        assert (j - 77) % 77 == j % 77;
      }
      assert Wrapped(rest) != [];
    }
  }

  // --- artwork ----------------------------------------------------------------------------

  /** Four characters as one big-endian number. */
  function Code(text: string): int
    requires |text| == 4
  {
    ((text[0] as int * 0x100 + text[1] as int) * 0x100 + text[2] as int) * 0x100 + text[3] as int
  }

  /** What is packed out is a picture that is not empty, and nothing else. */
  lemma ArtIff(item: Item, h: Digest, store: Store)
    ensures PackedText(item, h) ==
      if item.kind == Code("ssnc") && item.code == Code("PICT") && |item.payload| > 0
      then RefText(item, h(item.payload)) else Encoded(item)
    ensures Stored(item, h, store) ==
      if item.kind == Code("ssnc") && item.code == Code("PICT") && |item.payload| > 0 && h(item.payload) !in store
      then store[h(item.payload) := item.payload] else store
  {
    hide RefText, Encoded;
  }

  /** The record that stands in for artwork has the artwork's own header, length and all;
      what follows it is the reference tag, the digest and the closing tags. */
  lemma RecordKeepsHeader(item: Item, digest: bytes) returns (header: bytes, body: bytes)
    requires item.payload != []
    ensures Encoded(item) == header + [NEWLINE] + body + ITEM_CLOSE + [NEWLINE] && DATA_TAG <= body
    ensures RefText(item, digest) ==
      header + [NEWLINE] + REF_TAG + [NEWLINE] + digest + DATA_CLOSE + ITEM_CLOSE + [NEWLINE]
  {
    hide HeaderText, RawText;
    header := HeaderText(item.kind, item.code, |item.payload|);
    body := DATA_TAG + RawText(item.payload) + DATA_CLOSE;
    assert BodyText(item.payload) == [NEWLINE] + body;
    assert RefBody(digest) == [NEWLINE] + REF_TAG + [NEWLINE] + digest + DATA_CLOSE;
  }
}
