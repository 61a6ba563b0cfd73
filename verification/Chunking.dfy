/** How a stream is cut into feeds is unobservable: draining after every feed
    reports the same decisions, at the same offsets, as feeding it whole. */
module Chunking {
  import opened Bytes
  import opened Wire
  import opened WholeScan
  import opened Framing

  /** The replies up to the first Nothing, with the decisions and the junk bytes behind them. */
  datatype Drain = Drain(replies: seq<Reply>, events: seq<Event>, end: nat, skipped: nat)

  function Drained(s: bytes, p: nat, limits: Limits): (r: Drain)
    requires p <= |s|
    ensures p <= r.end <= |s|
    decreases |s| - p
  {
    var step := StepFrom(s, p, limits);
    if step.reply.Nothing? then Drain([], Added(step), step.end, step.skipped)
    else
      var rest := Drained(s, step.end, limits);
      Drain([step.reply] + rest.replies, Added(step) + rest.events, rest.end, step.skipped + rest.skipped)
  }

  /** A parser's observable state after some feeds. */
  datatype Session = Session(stream: bytes, offset: nat, replies: seq<Reply>, events: seq<Event>, junk: nat)

  /** Feed the chunks one by one, draining after each. */
  function Fed(chunks: seq<bytes>, limits: Limits): (r: Session)
    ensures r.offset <= |r.stream| && r.stream == Flatten(chunks)
  {
    if chunks == [] then Session([], 0, [], [], 0)
    else
      var before := Fed(chunks[..|chunks| - 1], limits);
      var stream := before.stream + chunks[|chunks| - 1];
      var d := Drained(stream, before.offset, limits);
      Session(stream, d.end, before.replies + d.replies, before.events + d.events, before.junk + d.skipped)
  }

  function Flatten(chunks: seq<bytes>): bytes {
    if chunks == [] then [] else Flatten(chunks[..|chunks| - 1]) + chunks[|chunks| - 1]
  }

  predicate IsJunk(r: Reply) {
    r.Failed? && r.error.Junk?
  }

  /** Everything but the junk reports, which alone may be split across feeds. */
  function Decisions(replies: seq<Reply>): seq<Reply> {
    if replies == [] then []
    else Decisions(replies[..|replies| - 1])
         + (if IsJunk(replies[|replies| - 1]) then [] else [replies[|replies| - 1]])
  }

  function RepliesFor(es: seq<Event>, limits: Limits): seq<Reply> {
    if es == [] then [] else RepliesFor(es[..|es| - 1], limits) + [ReplyFor(es[|es| - 1], limits)]
  }

  lemma {:induction false} DecisionsConcat(a: seq<Reply>, b: seq<Reply>)
    ensures Decisions(a + b) == Decisions(a) + Decisions(b)
    decreases |b|
  {
    if b == [] {
      assert a + b == a;
    } else {
      assert (a + b)[..|a + b| - 1] == a + b[..|b| - 1];
      DecisionsConcat(a, b[..|b| - 1]);
    }
  }

  lemma {:induction false} RepliesConcat(a: seq<Event>, b: seq<Event>, limits: Limits)
    ensures RepliesFor(a + b, limits) == RepliesFor(a, limits) + RepliesFor(b, limits)
    decreases |b|
  {
    if b == [] {
      assert a + b == a;
    } else {
      assert (a + b)[..|a + b| - 1] == a + b[..|b| - 1];
      RepliesConcat(a, b[..|b| - 1], limits);
    }
  }

  /** Without overflow, one reply is a decision exactly when the step decided something. */
  lemma StepDecides(s: bytes, p: nat, limits: Limits)
    requires p <= |s| && !StepFrom(s, p, limits).reply.Nothing? && !IsOverflow(StepFrom(s, p, limits).reply)
    ensures var step := StepFrom(s, p, limits);
            Decisions([step.reply]) == RepliesFor(Added(step), limits)
  {
    hide EventAt, FindFrom;
    var step := StepFrom(s, p, limits);
    assert [step.reply][..0] == [];
    if step.event.Some? {
      assert Added(step)[..0] == [];
    }
  }

  /** The buffer limit was never hit. */
  predicate NoOverflow(replies: seq<Reply>) {
    forall i :: 0 <= i < |replies| ==> !IsOverflow(replies[i])
  }

  /** Draining extends the decided history to the end of what the whole-stream scan finds. */
  lemma {:induction false} DrainedLeads(s: bytes, es: seq<Event>, p: nat, limits: Limits)
    requires p <= |s| && Leads(s, es, p, limits.maxItem) && NoOverflow(Drained(s, p, limits).replies)
    ensures var d := Drained(s, p, limits);
            && Leads(s, es + d.events, d.end, limits.maxItem)
            && Scan(s, 0, limits.maxItem) == Trace(es + d.events, d.end)
            && d.end - Extents(es + d.events) == p - Extents(es) + d.skipped
            && Decisions(d.replies) == RepliesFor(d.events, limits)
    decreases |s| - p
  {
    hide StepFrom, Leads, Scan, Extents, Decisions, RepliesFor;
    var step := StepFrom(s, p, limits);
    DrainedWithin(s, p, limits);
    StepLeads(s, es, p, limits);
    if step.reply.Nothing? {
      NothingSkipsNoEvent(s, p, limits);
      assert es + [] == es;
      NothingMeansSettled(s, es, p, limits);
      NoDecisions(limits);
    } else {
      DrainedLeads(s, es + Added(step), step.end, limits);
      var rest := Drained(s, step.end, limits);
      assert es + (Added(step) + rest.events) == (es + Added(step)) + rest.events;
      StepDecides(s, p, limits);
      DecisionsConcat([step.reply], rest.replies);
      RepliesConcat(Added(step), rest.events, limits);
    }
  }

  /** Each part of a drain that hits no limit hits none. */
  lemma DrainedWithin(s: bytes, p: nat, limits: Limits)
    requires p <= |s| && NoOverflow(Drained(s, p, limits).replies)
    ensures var step := StepFrom(s, p, limits);
            && !IsOverflow(step.reply)
            && (!step.reply.Nothing? ==> NoOverflow(Drained(s, step.end, limits).replies))
  {
    hide StepFrom;
    var step := StepFrom(s, p, limits);
    if !step.reply.Nothing? {
      var replies, rest := Drained(s, p, limits).replies, Drained(s, step.end, limits).replies;
      assert replies[0] == step.reply;
      forall i | 0 <= i < |rest| ensures !IsOverflow(rest[i]) {
        assert replies[i + 1] == rest[i];
      }
    }
  }

  lemma NothingSkipsNoEvent(s: bytes, p: nat, limits: Limits)
    requires p <= |s| && StepFrom(s, p, limits).reply.Nothing?
    ensures Added(StepFrom(s, p, limits)) == []
  {
  }

  lemma NoDecisions(limits: Limits)
    ensures Decisions([]) == RepliesFor([], limits) == []
  {
  }

  /** After any sequence of feeds that hits no limit, the session is what the whole-stream
      scan of everything fed says. */
  lemma {:induction false} FedAgreesWithScan(chunks: seq<bytes>, limits: Limits)
    requires NoOverflow(Fed(chunks, limits).replies)
    ensures var f := Fed(chunks, limits);
            && Leads(f.stream, f.events, f.offset, limits.maxItem)
            && Scan(Flatten(chunks), 0, limits.maxItem) == Trace(f.events, f.offset)
            && f.junk == f.offset - Extents(f.events)
            && Decisions(f.replies) == RepliesFor(f.events, limits)
    decreases |chunks|
  {
    hide Leads, Scan, Extents, Drained, Decisions, RepliesFor;
    if chunks == [] {
      EmptySession(limits);
    } else {
      var init := chunks[..|chunks| - 1];
      FedWithin(chunks, limits);
      FedAgreesWithScan(init, limits);
      var before := Fed(init, limits);
      var stream := before.stream + chunks[|chunks| - 1];
      LeadsExtends(before.stream, stream, before.events, before.offset, limits.maxItem);
      DrainedLeads(stream, before.events, before.offset, limits);
      var d := Drained(stream, before.offset, limits);
      DecisionsConcat(before.replies, d.replies);
      RepliesConcat(before.events, d.events, limits);
    }
  }

  lemma EmptySession(limits: Limits)
    ensures Leads([], [], 0, limits.maxItem) && Scan([], 0, limits.maxItem) == Trace([], 0)
    ensures Extents([]) == 0 && Decisions([]) == RepliesFor([], limits)
  {
  }

  /** Each part of a session that hits no limit hits none. */
  lemma FedWithin(chunks: seq<bytes>, limits: Limits)
    requires chunks != [] && NoOverflow(Fed(chunks, limits).replies)
    ensures var before := Fed(chunks[..|chunks| - 1], limits);
            && NoOverflow(before.replies)
            && NoOverflow(Drained(before.stream + chunks[|chunks| - 1], before.offset, limits).replies)
  {
    hide Drained;
    var all, before := Fed(chunks, limits).replies, Fed(chunks[..|chunks| - 1], limits);
    var d := Drained(before.stream + chunks[|chunks| - 1], before.offset, limits).replies;
    assert all == before.replies + d;
    forall i | 0 <= i < |before.replies| ensures !IsOverflow(before.replies[i]) {
      assert all[i] == before.replies[i];
    }
    forall i | 0 <= i < |d| ensures !IsOverflow(d[i]) {
      assert all[|before.replies| + i] == d[i];
    }
  }

  /** Chunking is unobservable: any two splits of one stream, however long, give the
      same decisions at the same offsets, the same final position and the same number
      of junk bytes, as long as neither runs into the buffer limit. */
  lemma ChunkingIsUnobservable(chunks: seq<bytes>, others: seq<bytes>, limits: Limits)
    requires Flatten(chunks) == Flatten(others)
    requires NoOverflow(Fed(chunks, limits).replies) && NoOverflow(Fed(others, limits).replies)
    ensures var f, g := Fed(chunks, limits), Fed(others, limits);
            && Decisions(f.replies) == Decisions(g.replies)
            && f.offset == g.offset
            && f.junk == g.junk
  {
    hide Leads, Scan, Extents, Fed, Decisions, RepliesFor;
    FedAgreesWithScan(chunks, limits);
    FedAgreesWithScan(others, limits);
  }

  lemma {:induction false} ShortDrain(s: bytes, p: nat, limits: Limits)
    requires p <= |s| <= limits.maxBuffer
    ensures NoOverflow(Drained(s, p, limits).replies)
    decreases |s| - p
  {
    hide StepFrom;
    var step := StepFrom(s, p, limits);
    if !step.reply.Nothing? {
      ShortDrain(s, step.end, limits);
    }
  }

  /** A stream that fits the buffer never runs into its limit. */
  lemma {:induction false} ShortSession(chunks: seq<bytes>, limits: Limits)
    requires |Flatten(chunks)| <= limits.maxBuffer
    ensures NoOverflow(Fed(chunks, limits).replies)
  {
    hide Drained;
    if chunks != [] {
      var init := chunks[..|chunks| - 1];
      ShortSession(init, limits);
      var before := Fed(init, limits);
      ShortDrain(before.stream + chunks[|chunks| - 1], before.offset, limits);
    }
  }

  /** So every split of such a stream gives what feeding it whole does. */
  lemma ShortStreamsAgree(chunks: seq<bytes>, limits: Limits)
    requires |Flatten(chunks)| <= limits.maxBuffer
    ensures var f, whole := Fed(chunks, limits), Fed([Flatten(chunks)], limits);
            && Decisions(f.replies) == Decisions(whole.replies)
            && f.offset == whole.offset
            && f.junk == whole.junk
  {
    hide Fed, Decisions;
    var whole := [Flatten(chunks)];
    assert Flatten(whole) == Flatten(chunks) by {
      assert whole[..0] == [];
    }
    ShortSession(chunks, limits);
    ShortSession(whole, limits);
    ChunkingIsUnobservable(chunks, whole, limits);
  }

  lemma DrainStep(s: bytes, p: nat, limits: Limits)
    requires p <= |s|
    ensures var step, d := StepFrom(s, p, limits), Drained(s, p, limits);
            if step.reply.Nothing? then d == Drain([], Added(step), step.end, step.skipped)
            else
              var rest := Drained(s, step.end, limits);
              d == Drain([step.reply] + rest.replies, Added(step) + rest.events, rest.end, step.skipped + rest.skipped)
  {
    hide StepFrom;
  }

  /** Drain a parser: call it until it asks for more. */
  method DrainAll(parser: Parser) returns (replies: seq<Reply>)
    requires parser.Valid()
    modifies parser
    ensures parser.Valid() && parser.stream == old(parser.stream)
    ensures var d := Drained(parser.stream, old(parser.Offset()), parser.limits);
            && replies == d.replies && parser.Offset() == d.end
            && parser.events == old(parser.events) + d.events
            && parser.stats.junkBytes == old(parser.stats.junkBytes) + d.skipped
    ensures var held := |parser.stream| - parser.Offset(); held <= KEEP || held <= parser.limits.maxBuffer
  {
    hide StepFrom, Drained, HintOk, Counted, Leads;
    replies := [];
    ghost var s, p, es := parser.stream, parser.Offset(), parser.events;
    ghost var junk := parser.stats.junkBytes;
    while true
      invariant parser.Valid() && parser.stream == s
      invariant var d, rest := Drained(s, p, parser.limits), Drained(s, parser.Offset(), parser.limits);
                && d.replies == replies + rest.replies && d.end == rest.end
                && es + d.events == parser.events + rest.events
                && junk + d.skipped == parser.stats.junkBytes + rest.skipped
      decreases |s| - parser.Offset()
    {
      DrainStep(s, parser.Offset(), parser.limits);
      ghost var at := parser.Offset();
      var reply := parser.NextItem();
      if reply.Nothing? {
        BufferIsBounded(s, at, parser.limits);
        return;
      }
      replies := replies + [reply];
    }
  }

  lemma FedStep(chunks: seq<bytes>, k: nat, limits: Limits)
    requires k < |chunks|
    ensures var before, after := Fed(chunks[..k], limits), Fed(chunks[..k + 1], limits);
            var d := Drained(before.stream + chunks[k], before.offset, limits);
            after == Session(before.stream + chunks[k], d.end, before.replies + d.replies,
                             before.events + d.events, before.junk + d.skipped)
  {
    hide Drained;
    assert chunks[..k + 1][..k] == chunks[..k];
  }

  /** The parser's state, with the replies so far, is this session. */
  ghost predicate Matches(parser: Parser, replies: seq<Reply>, f: Session)
    reads parser
  {
    && parser.Valid()
    && f == Session(parser.stream, parser.Offset(), replies, parser.events, parser.stats.junkBytes)
  }

  /** Feed the chunks one by one, draining after each, on a real parser. */
  method FeedAll(chunks: seq<bytes>, limits: Limits) returns (replies: seq<Reply>, parser: Parser)
    ensures fresh(parser) && Matches(parser, replies, Fed(chunks, limits))
  {
    hide Drained, Fed, HintOk, Counted, Leads;
    parser := new Parser(limits);
    replies := [];
    FedNothing(chunks[..0], limits);
    for k := 0 to |chunks|
      invariant fresh(parser) && parser.limits == limits
      invariant Matches(parser, replies, Fed(chunks[..k], limits))
    {
      FedStep(chunks, k, limits);
      parser.Feed(chunks[k]);
      var more := DrainAll(parser);
      replies := replies + more;
    }
    assert chunks[..|chunks|] == chunks;
  }

  lemma FedNothing(chunks: seq<bytes>, limits: Limits)
    requires chunks == []
    ensures Fed(chunks, limits) == Session([], 0, [], [], 0)
  {
  }
}
