/** Damage containment: an accepted item never swallows the start of another. */
module Containment {
  import opened Bytes
  import opened Numerals
  import opened Wire
  import Base64

  const LETTER_I: byte := 0x69

  /** The opening that every encoded item begins with: an item tag directly followed by a type tag. */
  const ITEM_TYPE := ITEM_OPEN + TYPE_OPEN

  /** No byte of s[a..b] opens a tag whose name starts with the letter c. */
  ghost predicate Calm(s: bytes, a: nat, b: nat, c: byte) {
    b <= |s| && forall o :: a <= o < b && s[o] == LT ==> o + 1 < |s| && s[o + 1] != c
  }

  lemma CalmHasNoItem(s: bytes, a: nat, b: nat, o: nat)
    requires Calm(s, a, b, LETTER_I) && a <= o < b
    ensures !At(s, o, ITEM_OPEN) && !At(s, o, ITEM_TYPE)
  {
    if s[o] == LT {
      Differs(s, o, ITEM_OPEN, 1);
      Differs(s, o, ITEM_TYPE, 1);
    } else {
      Differs(s, o, ITEM_OPEN, 0);
      Differs(s, o, ITEM_TYPE, 0);
    }
  }

  /** One byte that differs rules an occurrence out. */
  lemma Differs(s: bytes, o: nat, pat: bytes, k: nat)
    requires k < |pat| && (o + k < |s| ==> s[o + k] != pat[k])
    ensures !At(s, o, pat)
  {
  }

  /** A tag that opens once, at its first byte, and not with the letter c. */
  ghost predicate Ordinary(tag: bytes, c: byte) {
    |tag| >= 2 && tag[0] == LT && tag[1] != c && forall k :: 1 <= k < |tag| ==> tag[k] != LT
  }

  lemma TagCalm(s: bytes, i: nat, tag: bytes, c: byte)
    requires At(s, i, tag) && Ordinary(tag, c)
    ensures Calm(s, i, i + |tag|, c)
  {
    assert s[i + 1] == tag[1];
    forall o | i < o < i + |tag| ensures s[o] != LT {
      assert s[i + (o - i)] == tag[o - i];
    }
  }

  lemma FieldCalm(s: bytes, i: nat, f: FieldSpec, c: byte)
    requires i <= |s| && Field(s, i, f).Done? && f.radix <= 36
    requires Ordinary(f.open, c) && Ordinary(f.close, c)
    ensures Calm(s, i, Field(s, i, f).next, c)
  {
    hide ParseUnsigned, Trim, DecodeUtf8;
    var e := WsEnd(s, i);
    TagCalm(s, e, f.open, c);
    var a := e + |f.open|;
    var body := Until(s, a, f.close);
    NumberHasNoBracket(body.value, f.radix, f.limit);
    forall o | a <= o < body.next ensures s[o] != LT {
      assert s[o] == body.value[o - a];
    }
    TagCalm(s, body.next, f.close, c);
  }

  /** The letter c begins none of the header's tags but, perhaps, the item tag itself. */
  ghost predicate Foreign(c: byte) {
    && Ordinary(TYPE_OPEN, c) && Ordinary(TYPE_CLOSE, c) && Ordinary(CODE_OPEN, c) && Ordinary(CODE_CLOSE, c)
    && Ordinary(LENGTH_OPEN, c) && Ordinary(LENGTH_CLOSE, c)
  }

  lemma HeaderCalm(s: bytes, i: nat, maxItem: usize, c: byte)
    requires i <= |s| && ReadHeader(s, i, maxItem).Done? && Foreign(c)
    ensures Calm(s, i + 1, ReadHeader(s, i, maxItem).next, c)
  {
    hide Field;
    var a := i + |ITEM_OPEN|;
    forall o | i < o < a ensures s[o] != LT {
      assert s[i + (o - i)] == ITEM_OPEN[o - i];
    }
    var kind := Field(s, a, TYPE);
    FieldCalm(s, a, TYPE, c);
    var code := Field(s, kind.next, CODE);
    FieldCalm(s, kind.next, CODE, c);
    FieldCalm(s, code.next, LENGTH, c);
  }

  lemma DecodableHasNoBracket(raw: bytes, b: byte)
    requires Base64.Decode(StripSpace(raw)).Some? && b in raw
    ensures b != LT
  {
    hide Base64.Decode, StripSpace;
    assert IsSpace(b) || b in StripSpace(raw);
  }

  /** Payload text holds no opening bracket, because it decodes; what follows is two closing tags. */
  lemma BackCalm(s: bytes, d: nat, header: Header, maxItem: usize)
    requires d <= |s| && ReadBack(s, d, header, maxItem).Done?
    ensures Calm(s, d, ReadBack(s, d, header, maxItem).next, LETTER_I)
    ensures s[d] == LT ==> d + 1 < |s| && s[d + 1] == DATA_CLOSE[1]
  {
    hide Base64.Decode;
    var raw := Until(s, d, DATA_CLOSE);
    forall o | d <= o < raw.next ensures s[o] != LT {
      assert s[o] == raw.value[o - d];
      DecodableHasNoBracket(raw.value, s[o]);
    }
    TagCalm(s, raw.next, DATA_CLOSE, LETTER_I);
    TagCalm(s, WsEnd(s, raw.next + |DATA_CLOSE|), ITEM_CLOSE, LETTER_I);
    assert s[raw.next + 1] == DATA_CLOSE[1];
  }

  /** Attributes are skipped unread, so they may hold an item tag, but never one followed by a type tag. */
  lemma AttributesHoldNoStart(s: bytes, a: nat, d: nat, o: nat)
    requires 0 < d <= |s| && FindFrom(s, a, GT) == Some(d - 1) && a <= o < d
    requires d < |s| && s[d] == LT ==> d + 1 < |s| && s[d + 1] != TYPE_OPEN[1]
    ensures !At(s, o, ITEM_TYPE)
  {
    var p := d - 1;
    assert s[p] == GT[0];
    if o + 5 < p {
      assert !At(s, o + 5, GT);
      Differs(s, o, ITEM_TYPE, 5);
    } else if p < o + 5 {
      Differs(s, o, ITEM_TYPE, p - o);
    } else if d < |s| && s[d] == LT {
      Differs(s, o, ITEM_TYPE, 7);
    } else {
      Differs(s, o, ITEM_TYPE, 6);
    }
  }

  /** What follows the header: a closing tag, or a data tag and its attributes. */
  lemma DataOpenHoldsNoStart(s: bytes, e: nat, o: nat)
    requires e <= |s| && DataOpen(s, e).Done? && e <= o < DataOpen(s, e).next
    requires var d := DataOpen(s, e).next;
             d < |s| && s[d] == LT ==> d + 1 < |s| && s[d + 1] != TYPE_OPEN[1]
    ensures !At(s, o, ITEM_TYPE)
  {
    if o < e + |DATA| {
      TagCalm(s, e, DATA, LETTER_I);
      CalmHasNoItem(s, e, e + |DATA|, o);
    } else {
      AttributesHoldNoStart(s, e + |DATA|, DataOpen(s, e).next, o);
    }
  }

  lemma FrontHoldsNoStart(s: bytes, i: nat, maxItem: usize, o: nat)
    requires i <= |s| && ReadFront(s, i, maxItem).Done?
    requires i < o < ReadFront(s, i, maxItem).next
    requires var d := ReadFront(s, i, maxItem).next;
             d < |s| && s[d] == LT && ReadFront(s, i, maxItem).value.Open? ==>
               d + 1 < |s| && s[d + 1] != TYPE_OPEN[1]
    ensures !At(s, o, ITEM_TYPE)
  {
    hide ReadHeader, DataOpen, At;
    HeaderCalm(s, i, maxItem, LETTER_I);
    var a := ReadHeader(s, i, maxItem).next;
    var e := WsEnd(s, a);
    if o < e {
      assert Calm(s, i + 1, e, LETTER_I);
      CalmHasNoItem(s, i + 1, e, o);
    } else if ReadFront(s, i, maxItem).value.Closed? {
      TagCalm(s, e, ITEM_CLOSE, LETTER_I);
      CalmHasNoItem(s, e, e + |ITEM_CLOSE|, o);
    } else {
      DataOpenHoldsNoStart(s, e, o);
    }
  }

  /** If an item is accepted at i and ends at e, nothing strictly between begins an item and a type tag. */
  lemma AcceptedItemsDoNotOverlap(s: bytes, i: nat, maxItem: usize, o: nat)
    requires i <= |s| && ParseItem(s, i, maxItem).Done?
    requires i < o < ParseItem(s, i, maxItem).next
    ensures !At(s, o, ITEM_TYPE)
  {
    hide ReadFront, ReadBack;
    var front := ReadFront(s, i, maxItem);
    if front.value.Open? {
      BackCalm(s, front.next, front.value.header, maxItem);
      if o < front.next {
        FrontHoldsNoStart(s, i, maxItem, o);
      } else {
        CalmHasNoItem(s, front.next, ReadBack(s, front.next, front.value.header, maxItem).next, o);
      }
    } else {
      FrontHoldsNoStart(s, i, maxItem, o);
    }
  }
}
