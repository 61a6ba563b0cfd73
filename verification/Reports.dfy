/** What each answer of the parser says about the stream. */
module Reports {
  import opened Bytes
  import opened Wire
  import opened WholeScan
  import opened Framing

  predicate AllWhite(s: bytes, i: nat, j: nat)
    requires i <= j <= |s|
  {
    forall k :: i <= k < j ==> IsSpace(s[k])
  }

  /** The first item tag at or after i begins at o. */
  ghost predicate FirstTag(s: bytes, i: nat, o: nat) {
    i <= o <= |s| && At(s, o, ITEM_OPEN) && forall j :: i <= j < o ==> !At(s, j, ITEM_OPEN)
  }

  ghost predicate NoTag(s: bytes, i: nat) {
    forall j :: i <= j ==> !At(s, j, ITEM_OPEN)
  }

  /** Bytes that are not all white space are reported as junk, with their offset and number,
      when they stand before the next item tag or, without one, before the last five bytes;
      white space is passed in silence. */
  lemma JunkIff(s: bytes, p: nat, limits: Limits)
    requires p <= |s|
    ensures var r := StepFrom(s, p, limits);
      && (forall o: nat :: FirstTag(s, p, o) ==>
            if AllWhite(s, p, o) then !r.reply.Failed? || !r.reply.error.Junk?
            else r == Step(Failed(Junk(p, o - p)), None, o, o - p))
      && (NoTag(s, p) ==>
            var skip := if |s| - p > 5 then |s| - p - 5 else 0;
            r == Step(if AllWhite(s, p, p + skip) then Nothing else Failed(Junk(p, skip)), None, p + skip, skip))
  {
    hide EventAt;
    match FindFrom(s, p, ITEM_OPEN)
    case None =>
      var skip := if |s| - p > 5 then |s| - p - 5 else 0;
      SignificantIff(s, p, p + skip);
    case Some(o) =>
      SignificantIff(s, p, o);
      forall q | FirstTag(s, p, q) ensures q == o {
      }
  }

  lemma SignificantIff(s: bytes, i: nat, j: nat)
    requires i <= j <= |s|
    ensures Significant(s[i..j]) <==> !AllWhite(s, i, j)
  {
    if k :| i <= k < j && !IsSpace(s[k]) {
      assert s[i..j][k - i] == s[k];
    }
  }

  /** With nothing but white space before the next item tag, the answer is the item that
      stands there, or why it was refused and where, after which the search goes on one
      byte further; an item still arriving is waited for up to the buffer limit. */
  lemma AnswerIff(s: bytes, p: nat, o: nat, limits: Limits)
    requires p <= |s| && FirstTag(s, p, o) && AllWhite(s, p, o)
    ensures var r := StepFrom(s, p, limits);
      match ParseItem(s, o, limits.maxItem) {
        case Done(parsed, next) => r.reply == Got(parsed.item) && r.end == next
        case Bad(TooLarge(len)) => r.reply == Failed(TooLargeAt(o, len, limits.maxItem)) && r.end == o + 1
        case Bad(BadBase64) => r.reply == Failed(BadBase64At(o)) && r.end == o + 1
        case Bad(Malformed(reason)) => r.reply == Failed(MalformedAt(o, reason)) && r.end == o + 1
        case Incomplete =>
          if |s| - o > limits.maxBuffer then r.reply == Failed(BufferOverflow(limits.maxBuffer)) && r.end == o + 1
          else r.reply == Nothing && r.end == o
      }
  {
    hide ParseItem;
    SignificantIff(s, p, o);
    assert FindFrom(s, p, ITEM_OPEN) == Some(o);
  }
}
