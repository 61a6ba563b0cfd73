# LP Frame: a verified model

A Dafny model of the parts of LP Frame whose correctness does not show in a few
examples. Functions and lemmas model code that computes; classes and methods with
loops model code that updates things in place, and each such method is proved equal
to a specification function about which the properties are then proved.

**The metadata stream.** `Bytes`, `Numerals` and `Base64` hold the ground: searching,
UTF-8 and number reading, and base64 (section 4 of RFC 4648) in both directions;
`Base64Laws` and `NumeralLaws` say which bytes these accept, without the code that reads
them. `Wire` is the item grammar as a function of a byte string and an offset, and `Grammar`
what a frame looks like and what becomes of it, said without the parser. `WholeScan` is the
plain reference reader: it sees the whole stream, never compacts, never resumes.
`Framing` is the parser that runs: a `Cursor` that advances and a `Parser` that buffers,
compacts, skips junk and resumes its terminator scan; its `Valid` says that its counters
account for every byte and that its history is the reference reader's. `Reports` says what
each of its answers means. `Containment`, `Resync`, `Encoder` and `Chunking` give damage
containment, resynchronisation, the encoder round trip, and the independence of how the
stream was cut.

**Captures.** `Capture` re-encodes a capture; `Fixture` and `FixtureLaws` pack its
artwork out into a content-addressed store and put it back. `Spelling` says what the tags,
codes and lines of the stream are in letters.

**The playback machine.** `MachineModel` is the machine as a value, `Machine` the object,
`MachineLaws` its laws over every run, reloads and manual overrides included. `MachinePower`
says when the amplifier and the display are on, `MachineBundles` and `MachineHistory` what
the published state tells of everything that has happened.

**Shared state.** `HubModel`, `HubLaws` and `Publication`: publisher, lossy queue, client.
`CacheModel`, `CacheLaws`, `CachePuts` and `ArtworkCache`: the artwork cache. `BucketModel`,
`BucketLaws` and `TokenBucket`: the rate limiter. `ConfigTree`, `TreeLaws`, `Overrides`,
`SettingsModel`, `SettingsStore`, `SettingsLaws`, `RequestModel`, `RequestLaws` and
`RequestRaces`: the override file, confirm-or-revert, and requests that overlap.
`LimiterModel`, `LimiterLaws` and `LoginLimiter`: the login limiter.

`Finite` counts sets and maps.

**Algorithms.** `Similarity` and `SimilarityLaws` (Jaro-Winkler), `Crc` (CRC-32) and
`Zlib` (Adler-32, stored deflate).

Some things the comments or the design promise do not hold as said. Each is stated with
the exact condition under which it holds, and shown to fail at a concrete input:

- Unpacking a packed capture restores it if and only if the truncated tail does not itself
  hold a reference tag (`FixtureLaws.PackRoundTrip`, `FixtureLaws.LossyCapture`).
- A configuration reload or a manual override evaluates no timeouts, so the deadline after
  it can already be past, exactly when a timeout is overdue
  (`MachineLaws.ReloadDeadlineInThePast`, `MachineLaws.OverrideDeadlineInThePast`,
  `MachineLaws.LateReload`, `MachineLaws.LateOverride`). After an input it never is.
- A reload does not time blanking from the moment of the reload, as its comment says
  (crates/artd/src/machine.rs:190-193), but from when the machine went idle; the two agree
  only if it went idle at that moment (`MachineLaws.ReloadCountsFromIdle`,
  `MachineLaws.ShorterBlankingIsImmediate`).
- Evicting a cache entry also takes the image of every entry with the same bytes
  (`CacheLaws.SweptAnswers`, `CacheLaws.EvictionTakesTheTwin`).
- The cache does not always find a recorded image whole after a crash. Puts of the same
  bytes share a temporary file, and one can rename and record what another has just
  emptied and not yet filled. A row has its image, with its digest, if and only if the
  image was not removed since it was last put in place and the last write into its file
  was a whole one that finished (`CachePuts.BackedIff`); where puts of the same bytes keep
  apart that is so at every crash (`CachePuts.PutsAreBacked`). The failing runs are
  `CachePuts.CrashLeavesTornImage`, `CachePuts.SecondWriteDecides` and, for a sweep that
  listed the rows too early, `CachePuts.SweepStrandsRow`. A lookup notices each of them.
- A settings request changes only the keys it names if and only if every other key reads,
  when the file is replaced, as it did when the request read the file
  (`RequestLaws.ReplaceKeepsIff`); it can undo another request's change otherwise
  (`RequestRaces.StaleTableLosesEdit`).
- A revert puts a display key back as it was if and only if it had that value when the
  first request to arm with the key took its note (`RequestLaws.RevertRestoresIff`). With
  nothing written to the key since, it does (`RequestLaws.UnwrittenIsRestored`), as it does
  for requests one after another (`SettingsLaws.RevertPutsBack`); requests that overlap
  need not, whether they arm out of turn or one notes before the other's countdown runs out
  (`RequestRaces.OutOfTurnRestoresUnconfirmed`, `RequestRaces.LateRestoresUnconfirmed`).

## Model

| member | source | states |
|---|---|---|
| Base64.RoundTrip | crates/spmeta/src/parser.rs:18-23 | Decoding an encoded payload gives it back, for every byte string. |
| Base64.PaddingIsOptional | crates/spmeta/src/parser.rs:18-23 | Taking a padding byte off anything that decodes, fully padded or not, changes nothing about what it decodes to. |
| Base64.DecodesUnpadded | crates/spmeta/src/parser.rs:18-23 | An encoded payload decodes to itself with any of its trailing padding left off. |
| Base64Laws.SymbolIsLetter | crates/spmeta/src/parser.rs:18-23 | The symbol written for a value is that letter of the alphabet of section 4 of RFC 4648, written out. |
| Base64Laws.SextetIff | crates/spmeta/src/parser.rs:18-23 | A byte has a value if and only if it is one of the 64 letters, and then its place among them. |
| Base64Laws.DecodesOnlyEncoded | crates/spmeta/src/parser.rs:18-23 | Whatever decodes is the encoding of what it decodes to, with some or none of its trailing padding left off: trailing bits, lone symbols and strangers are refused. |
| Base64Laws.DecodeIff | crates/spmeta/src/parser.rs:18-23 | A text decodes to a payload if and only if it is that payload's encoding with some or none of its trailing padding left off. |
| Base64Laws.StrangerRefused | crates/spmeta/src/parser.rs:339 | Text that holds a byte which is neither a letter nor padding does not decode. |
| Numerals.HexValue | crates/spmeta/src/lib.rs:41-49 | The zero-padded hexadecimal the encoder writes has the value it was written from. |
| Numerals.DecimalValue | crates/spmeta/src/lib.rs:41-49 | The same for the decimal length. |
| Numerals.DigitsReadBack | crates/spmeta/src/parser.rs:445-463 | UTF-8 decoding, trimming and the sign check leave written digits alone, and reading gives the value, if it is below the limit. |
| Numerals.NumberHasNoBracket | crates/spmeta/src/parser.rs:445-463 | A field that reads as a number, over all of Unicode white space and UTF-8, holds no angle bracket. |
| NumeralLaws.DecodeIff | crates/spmeta/src/parser.rs:445-463 | Bytes are text if and only if they are the UTF-8 encoding of some scalar values, and then of exactly those. |
| NumeralLaws.TrimCuts | crates/spmeta/src/parser.rs:445-463 | Trimming takes the white space off both ends and nothing else. |
| NumeralLaws.WhiteIff | crates/spmeta/src/parser.rs:445-463 | White space is the 25 Unicode characters that have the property. |
| NumeralLaws.NumberIff | crates/spmeta/src/parser.rs:445-463 | Text reads as a number if and only if it is one or more digits of the radix, in either case, after at most one plus sign, with that value and below the limit. |
| Wire.ParseExtends | crates/spmeta/src/parser.rs:281-354 | An item accepted or refused at an offset is accepted or refused the same way whatever bytes follow. |
| Wire.ParseShift | crates/spmeta/src/parser.rs:172-182 | Dropping the bytes before an item moves the outcome's offset and changes nothing else. |
| Grammar.FrameJudged | crates/spmeta/src/parser.rs:281-354 | A frame put together from any white space, fields, attributes, payload text and closing tags is accepted with its own type, code and payload, or refused for its own first flaw. |
| Grammar.AcceptedIff | crates/spmeta/src/parser.rs:281-354 | An item is accepted at an offset if and only if such a frame stands there, is without flaw and gives that item, with a mismatch exactly when its declared length is not its payload's. |
| Grammar.WaitsOnlyForFrames | crates/spmeta/src/parser.rs:281-354 | A complete frame is never waited for, and whatever is waited for is the beginning of some frame. |
| Grammar.StrangerInPayload | crates/spmeta/src/parser.rs:322-345 | An otherwise good frame whose payload text holds a byte that is neither white space, padding nor a letter of the alphabet is refused as bad base64. |
| Containment.AcceptedItemsDoNotOverlap | crates/spmeta/src/parser.rs:257-263 | No offset strictly inside an accepted item begins an item tag followed by a type tag. |
| Encoder.EncodeItem | crates/spmeta/src/lib.rs:39-65 | The growing buffer and its loop over 76-byte chunks build the wire form of the item, newline after every line included. |
| Encoder.UnwrapsTo | crates/spmeta/src/lib.rs:56-62 | Dropping white space undoes the wrapping at 76 columns. |
| Spelling.LinesAreFull | crates/spmeta/src/lib.rs:56-62 | Every line has exactly 76 columns but the last, which may be shorter but is not empty; every line is ended. |
| Spelling.SpaceIff | crates/spmeta/src/parser.rs:336-339 | White space in a payload and between tags is space, tab, newline, form feed and carriage return. |
| Spelling.FieldTagsAreSpelled | crates/spmeta/src/parser.rs:281-320 | The item, type, code and length tags, letter by letter. |
| Spelling.EncodedTagIsSpelled | crates/spmeta/src/lib.rs:54 | The data tag the encoder writes, its attribute letter by letter. |
| Encoder.ParsesEncoded | crates/spmeta/src/parser.rs:281-354 | An encoded item, standing anywhere in any stream, parses to exactly itself, without a length mismatch, ending at its closing tag. |
| WholeScan.LeadsExtends | crates/spmeta/src/parser.rs:196-276 | What was decided on a stream stays what was decided on every longer stream. |
| WholeScan.LeadsScans | crates/spmeta/src/parser.rs:196-276 | A decided history is the start of what a scan from scratch finds, and that scan resumes where the history ends. |
| WholeScan.EncodedItemSurvives | crates/spmeta/tests/framing.rs:240-262 | An encoded item amid any junk and damage is emitted, unless the scan is parked on an earlier incomplete frame. |
| Resync.EncodedCalm | crates/spmeta/src/lib.rs:39-65 | After its first byte an encoded item never opens another item or type tag. |
| Resync.ScanShift | crates/spmeta/src/parser.rs:196-276 | A reader that joins late decides as the whole-stream reader does from there on. |
| Resync.RoundTripFrom | crates/spmeta/src/lib.rs:39-65 | Dropping any n leading bytes of encoded items gives exactly the items that begin at or after n, with no errors and no mismatches. |
| Resync.RoundTrip | crates/spmeta/src/lib.rs:39-65 | Any list of encoded items within the limit parses to exactly that list. |
| Framing.StepFrom | crates/spmeta/src/parser.rs:194-276 | One call stays in the stream, every reply but "nothing yet" strictly advances, and overflow is reported only past the buffer limit. |
| Framing.StepLeads | crates/spmeta/src/parser.rs:194-276 | A call extends the decided history of the stream, and the bytes it passes are the accepted extents, one per rejection, and the junk it counts. |
| Reports.JunkIff | crates/spmeta/src/parser.rs:196-228 | Bytes before the next item tag, or without one before the last five, are reported as junk with their offset and number if and only if they are not all white space. |
| Reports.AnswerIff | crates/spmeta/src/parser.rs:230-275 | At an item tag with only white space before it, the answer is the item, or its flaw with the offset and one byte passed, or overflow exactly when more than the buffer limit is held, or nothing yet. |
| Framing.NothingMeansSettled | crates/spmeta/src/parser.rs:194-276 | When the parser asks for more, a scan from scratch has nothing further to report either, and stops at the same place. |
| Framing.BufferIsBounded | crates/spmeta/src/parser.rs:196-276 | Waiting for input, the parser leaves unconsumed no more than the buffer limit, or a tail too short for a tag. |
| Framing.Cursor.Choose | crates/spmeta/src/parser.rs:370-379 | Finds which alternative stands at the cursor, or that the input ends inside one. |
| Framing.Cursor.Until | crates/spmeta/src/parser.rs:406-416 | Finds the first terminator and stops in front of it. |
| Framing.Cursor.UntilHinted | crates/spmeta/src/parser.rs:421-443 | A scan resumed from a sound hint finds what a scan from the start would, and leaves a hint for the next. |
| Framing.ParseItemAt | crates/spmeta/src/parser.rs:281-354 | The cursor-driven parse with a resumed scan is the grammar's answer, which Grammar.AcceptedIff and Grammar.WaitsOnlyForFrames say without it, and its hint is again sound. |
| Framing.Parser.Feed | crates/spmeta/src/parser.rs:155-158 | Appends to the stream, decides nothing and keeps every invariant; the buffer then exceeds what is unconsumed by less than the compaction threshold. |
| Framing.Parser.Compact | crates/spmeta/src/parser.rs:172-182 | Moving the buffer down changes nothing that can be seen, and leaves less than the threshold consumed in it. |
| Framing.Parser.Remainder | crates/spmeta/src/parser.rs:166-168 | Gives exactly the unconsumed end of the stream. |
| Framing.Parser.SkipJunk | crates/spmeta/src/parser.rs:196-228 | Counts exactly the bytes it passes, and says whether any was worth reporting. |
| Framing.Parser.ParseHere | crates/spmeta/src/parser.rs:230-275 | Takes the stream's own decision at the cursor, or waits, or drops one byte past the limit. |
| Framing.Parser.Settle | crates/spmeta/src/parser.rs:233-275 | Moves past an accepted item, or one byte into a refused one, and reports it at its absolute offset. |
| Framing.Parser.NextItem | crates/spmeta/src/parser.rs:194-276 | Whatever was compacted or hinted before, does what the stateless step does, advances unless it has nothing, and keeps offset = accepted extents + junk + one per error. |
| Chunking.DrainedLeads | crates/spmeta/src/event.rs:153-159 | Draining extends the decided history to the end of what a whole scan finds. |
| Chunking.FedAgreesWithScan | crates/spmeta/src/parser.rs:155-276 | After any sequence of feeds that hits no buffer limit, the decisions, position and junk count are the whole-stream scan's. |
| Chunking.ChunkingIsUnobservable | crates/spmeta/src/parser.rs:155-276 | Any two splits of a stream of any length, neither hitting the buffer limit, give the same items and errors at the same offsets, the same final position and the same junk count. |
| Chunking.ShortSession | crates/spmeta/src/parser.rs:243-255 | A stream that fits the buffer never hits its limit, however it is split. |
| Chunking.ShortStreamsAgree | crates/spmeta/src/parser.rs:155-276 | So every split of such a stream agrees with feeding it whole. |
| Chunking.DrainAll | crates/spmeta/src/event.rs:153-159 | Calling the real parser until it has nothing ends, yields the specified drain, and leaves unconsumed no more than the buffer limit or a short tail. |
| Chunking.FeedAll | crates/spmeta/src/event.rs:138-159 | Feeding and draining the real parser is the session the chunking theorem speaks of. |
| Capture.Canonicalise | crates/lpcapture/src/fixture.rs:134-145 | Refuses a capture with any error; otherwise re-encodes every item and keeps the tail. |
| Capture.TrailingPartialItem | crates/lpcapture/src/fixture.rs:153-160 | The unconsumed tail without its leading white space. |
| Capture.CanonicalReads | crates/lpcapture/src/fixture.rs:134-160 | Items and a parked tail, written out, read back as those items and that tail. |
| Capture.CanonicalIsIdempotent | crates/lpcapture/src/fixture.rs:134-160 | Canonicalising twice is canonicalising once, truncated tail included. |
| Fixture.PackItem | crates/lpcapture/src/fixture.rs:30-78 | Artwork is stored unless a file of its name exists and leaves a reference record; anything else is re-encoded. |
| Fixture.Pack | crates/lpcapture/src/fixture.rs:30-78 | Every item is packed in order and the tail kept, with exactly the digests of the artwork reported; an unparseable capture is refused. |
| Fixture.StoredUnder | crates/lpcapture/src/fixture.rs:52-70 | Packing adds files under exactly the digests it reports. |
| Spelling.ArtIff | crates/lpcapture/src/fixture.rs:46-59 | Exactly the items of type ssnc and code PICT with a payload are packed out and stored. |
| Spelling.RecordKeepsHeader | crates/lpcapture/src/fixture.rs:60-71 | The record left behind has the artwork's own header, declared length included, then the reference tag, the digest and the closing tags. |
| Spelling.ReferenceTagIsSpelled | crates/lpcapture/src/fixture.rs:20 | The reference tag, its attribute letter by letter. |
| Fixture.FindLast | crates/lpcapture/src/fixture.rs:268-273 | The last occurrence that ends by the bound, or that there is none. |
| Fixture.UnpackText | crates/lpcapture/src/fixture.rs:81-127 | The loop resolves each reference in turn and stops at the first that cannot be; which those are, and that changed files are among them, is FixtureLaws.UnpackChecksFiles. |
| FixtureLaws.EncodedHoldsNoRef | crates/lpcapture/src/fixture.rs:81-127 | The encoder never writes a reference tag, whatever follows what it writes. |
| FixtureLaws.UnpackedHoldsNoRef | crates/lpcapture/src/fixture.rs:81-127 | Whatever unpacking returns holds no reference. |
| FixtureLaws.ResolvesFromStore | crates/lpcapture/src/fixture.rs:96-119 | In any text, a reference that resolves names 64 hexadecimal digits between its tag and the next closing tag, and gives the file of that name, whose contents have that digest. |
| FixtureLaws.ResolvesIff | crates/lpcapture/src/fixture.rs:88-116 | In any text, a reference is resolved, or refused for the first of these that holds: no enclosing item, item not closed, data not closed, not text, no digest, no such file, wrong contents. |
| FixtureLaws.ResolvedParts | crates/lpcapture/src/fixture.rs:88-124 | What is taken out is the record from the last item tag before the reference to the first closing item tag after it, and one newline. |
| FixtureLaws.DigestIff | crates/lpcapture/src/fixture.rs:106-108 | A digest is 64 hexadecimal digits, in either case. |
| FixtureLaws.UnpackChecksFiles | crates/lpcapture/src/fixture.rs:81-127 | For every store and tail: unpacking packed items fails with the first artwork whose file is missing or whose contents no longer have its digest, and succeeds only if every artwork's file is there and has it. |
| FixtureLaws.NoTroubleMeansIntact | crates/lpcapture/src/fixture.rs:110-116 | There is no such artwork if and only if every artwork's file is there with the digest it is named by. |
| FixtureLaws.UnpackPackedIff | crates/lpcapture/src/fixture.rs:30-127 | With a store that answers, unpacking undoes packing if and only if the tail holds no reference tag. |
| FixtureLaws.StoredMeansSame | crates/lpcapture/src/fixture.rs:52-59 | Skipping the write because the file exists is right when no two artworks in play share a digest. |
| FixtureLaws.PackedStoreAnswers | crates/lpcapture/src/fixture.rs:30-78 | After packing, the store holds the right payload for every reference made. |
| FixtureLaws.PackRoundTrip | crates/lpcapture/src/fixture.rs:30-160 | For every capture that parses: unpack(pack(x)) is the canonical x if and only if the truncated tail holds no reference tag. |
| FixtureLaws.LossyCapture | crates/lpcapture/src/fixture.rs:81-127 | A capture cut short after a reference tag parses without error, and packing and unpacking it does not give it back. |
| Machine.Machine.Apply | crates/artd/src/machine.rs:324-356 | An input does what the machine-as-a-value does, effects in order, and reports exactly whether the published state changed. |
| Machine.Machine.OnMeta | crates/artd/src/machine.rs:360-455 | Each metadata event's whole effect on state, timers and bundle. |
| Machine.Machine.CommitBundle | crates/artd/src/machine.rs:457-493 | Visiting the pending fields in key order builds the track they describe, and an empty bundle changes nothing. |
| Machine.Machine.EnterActive | crates/artd/src/machine.rs:509-525 | Starting a session clears every power-down timer and display override. |
| Machine.Machine.EnterIdle | crates/artd/src/machine.rs:527-544 | Ending a session drops the pending bundle and arms the timers from now. |
| Machine.Machine.EvaluateTimers | crates/artd/src/machine.rs:546-563 | A quiet session ends, a stalled stream counts as paused. |
| Machine.Machine.ApplyPower | crates/artd/src/machine.rs:565-634 | Outputs, surviving override, retired timers and effects, in order; what the outputs are is MachinePower.AmpAfterPower and MachinePower.DisplayAfterPower. |
| Machine.Machine.SetConfig | crates/artd/src/machine.rs:194-210 | A reload recomputes the idle timers from when the machine went idle. |
| Machine.Machine.OverrideAmp | crates/artd/src/machine.rs:217-224 | A manual amplifier switch. |
| Machine.Machine.OverrideDisplay | crates/artd/src/machine.rs:227-239 | A manual display switch, restarting the idle timers. |
| Machine.Machine.SetArtwork | crates/artd/src/machine.rs:248-276 | The same image again changes nothing; a new one gets the next revision. |
| Machine.Machine.NextDeadline | crates/artd/src/machine.rs:301-321 | The earliest pending deadline, or none. |
| MachineLaws.StepKeeps | crates/artd/src/machine.rs:194-239 | Every operation keeps: session active exactly when not idle, no power-down timer in a session, an ambient timer implies a later blank timer, and no timer left means dark and quiet. |
| MachineLaws.RunKeeps | crates/artd/src/machine.rs:324-356 | Every run of validated configurations, reloads and overrides included, stays within that invariant. |
| MachineLaws.NoDeadlineInThePast | crates/artd/src/machine.rs:301-356 | After an input at now, every pending deadline is strictly later than now, from any state at all. |
| MachineLaws.PowerLeavesOverdue | crates/artd/src/machine.rs:565-634 | Bringing the outputs up to date leaves a past deadline exactly when a timeout is overdue. |
| MachineLaws.ReloadDeadlineInThePast | crates/artd/src/machine.rs:194-210 | After a reload a deadline is at or before now exactly when a timeout is overdue by the new delays. |
| MachineLaws.OverrideDeadlineInThePast | crates/artd/src/machine.rs:217-239 | After a manual override, exactly when a timeout was overdue. |
| MachineLaws.LateReload | crates/artd/src/machine.rs:194-210 | A run from boot that ends in a reload with its deadline already past. |
| MachineLaws.LateOverride | crates/artd/src/machine.rs:217-239 | Runs from boot that end so in each of the manual overrides. |
| MachineLaws.ReloadCountsFromIdle | crates/artd/src/machine.rs:190-204 | An idle reload makes blanking due from when idle began, at once if that has passed; it is a full delay away only if idle began now. |
| MachineLaws.ShorterBlankingIsImmediate | crates/artd/src/machine.rs:190-204 | Half an hour into idleness, blanking cut to a minute turns the display off at once. |
| MachineLaws.PromptTickLowersRank | crates/artd/src/machine.rs:546-634 | A tick at or after a pending deadline uses one up, by a measure of at most five. |
| MachineLaws.NoDeadlineMeansDark | crates/artd/src/machine.rs:565-634 | Nothing pending means idle, display off, and amplifier off unless an override holds it on. |
| MachineLaws.SettleEnds | crates/artd/src/machine.rs:301-356 | Ticking at successive deadlines ends, within that measure, with nothing pending. |
| MachineLaws.SettlesDark | crates/artd/src/machine.rs:301-356 | From wherever a run is, at most five ticks lead to idle and dark. |
| MachineLaws.PowerIsReplay | crates/artd/src/machine.rs:565-634 | After every prefix of every run, replaying the effects gives the published power state, and the amplifier effects alternate. |
| MachineLaws.OneSwitchOnPerSession | crates/artd/src/machine.rs:509-525 | Without overrides or reloads, switch-ons never outnumber sessions, for either trigger. |
| MachinePower.AmpAfterPower | crates/artd/src/machine.rs:568-584 | After an evaluation a held override decides the amplifier; without one it is off when disabled, on in a session that switches it on at its beginning, on from when playing starts in one that waits for it, and when idle as before until the off delay is over. |
| MachinePower.DisplayAfterPower | crates/artd/src/machine.rs:586-606 | A held override that no idle timer has overtaken decides the display; else it is on in a session, off when blanking is due, dimmed when only that is due, and as before otherwise. |
| MachinePower.AsksForChanges | crates/artd/src/machine.rs:608-617 | The effects asked for are exactly the outputs that changed, the amplifier first. |
| MachinePower.RunLights | crates/artd/src/machine.rs:565-634 | At every point of every run, reloads and overrides included, the outputs agree with the session, the settings and the overrides held: no session plays into a dead amplifier. |
| MachinePower.SessionIsLit | crates/artd/src/machine.rs:568-580 | On runs driven by inputs alone, every session has its display on and, if enabled, its amplifier on from its beginning or from when playing starts, as configured. |
| MachinePower.OverridesLast | crates/artd/src/machine.rs:212-239 | An override lasts until a session begins or ends, the display's only until an idle timer is due. |
| MachinePower.QuietBeforeDeadline | crates/artd/src/machine.rs:299-321 | A tick before the next deadline changes nothing at all and asks for nothing. |
| MachinePower.IdleShows | crates/artd/src/machine.rs:565-634 | An idle machine's outputs at any time follow from its timers alone, however often and whenever it is looked at before. |
| MachinePower.AfterSessionEnds | crates/artd/src/machine.rs:527-634 | At any time after a session, the amplifier is as it was until the off delay and off from then on, and the display as it was, then dimmed, then off, wherever ticks fall. |
| MachinePower.SessionEndsIff | crates/artd/src/machine.rs:527-563 | A session ends if and only if the pipe or the sender ends it or nothing has been heard for the session timeout. |
| MachinePower.SessionBeginsIff | crates/artd/src/machine.rs:360-376 | One begins, and is counted, if and only if the sender begins one or begins to play. |
| MachinePower.SwitchedByHand | crates/artd/src/machine.rs:226-239 | An idle display switched by hand stays so and then dims and blanks as if the machine had just gone idle. |
| MachinePower.ReloadIsRetroactive | crates/artd/src/machine.rs:194-210 | A reload while idle acts as if its settings had been those the session ended under. |
| MachineHistory.PlaybackStandsAlone | crates/artd/src/machine.rs:360-455 | Playback and the time of the last event make a small machine of their own, written out; nothing else ever decides them. |
| MachineHistory.ProgressShown | crates/artd/src/machine.rs:360-455 | The position shown is the last reported, unless play or the session has ended since. |
| MachineHistory.PictureIsOpen | crates/artd/src/machine.rs:415-416 | A picture is on its way from its start to its end or the session's. |
| MachineHistory.SessionsAreCounted | crates/artd/src/machine.rs:509-525 | Over every run the session count is how often a session was begun while there was none. |
| MachineHistory.RunTellsAll | crates/artd/src/machine.rs:248-276 | At every point of every run, volume, client name, agent and address are the last reported, and the artwork is the last image stored since the sender cleared its picture, its revision counting changes and not repeats. |
| MachineHistory.PicturesPassOn | crates/artd/src/machine.rs:415-424 | Over every run the images handed on to be stored are exactly the pictures received, in order. |
| MachineHistory.TakenDownIff | crates/artd/src/machine.rs:415-424 | An image is asked to be taken down if and only if the sender clears one that is shown. |
| MachineBundles.RunFollows | crates/artd/src/machine.rs:404-413 | The pending fields and the track follow the run's history of bundle framing, fields and session ends. |
| MachineBundles.CommittedIsLastBundle | crates/artd/src/machine.rs:457-493 | What is committed are the fields between the last start and end with only fields between them. |
| MachineBundles.NothingCommittedWithoutBundle | crates/artd/src/machine.rs:457-493 | Without such a bundle nothing is committed; fields outside one count for nothing. |
| MachineBundles.TrackIsLastBundle | crates/artd/src/machine.rs:457-493 | At every point of every run the track is the one described by the last-wins field map of the last whole bundle. |
| MachineHistory.TrackSaysLastBundle | crates/artd/src/machine.rs:457-493 | At every point of every run each attribute of the track is what the last whole bundle's last field of that kind said, without its surrounding white space, and nothing if that leaves nothing; the identity is the sender's unless missing or zero. |
| MachineBundles.NoBundleNoTrack | crates/artd/src/machine.rs:457-493 | Until a whole bundle has closed there is no track. |
| Similarity.SidesAgree | crates/artd/src/enrich/text.rs:240-251 | Both flag arrays always hold equally many matches. |
| Similarity.ComputeJaro | crates/artd/src/enrich/text.rs:226-273 | The flag-array algorithm gives the specified score, every index in bounds. |
| SimilarityLaws.PartnersAreGreedy | crates/artd/src/enrich/text.rs:235-251 | The flags belong to the one assignment in which each character, in order, takes the first equal, untaken character no further away than half the longer string less one. |
| SimilarityLaws.GreedyIsUnique | crates/artd/src/enrich/text.rs:235-251 | There is only one such assignment. |
| SimilarityLaws.JaroIsPublished | crates/artd/src/enrich/text.rs:226-273 | With that assignment's m matches, t pairs of which differ taken in order, the score is a third of m/|a| + m/|b| + (m - t/2)/m, and 0 without matches. |
| SimilarityLaws.JaroWinklerIsPublished | crates/artd/src/enrich/text.rs:209-224 | Above 0.7, and only there, each of the first four characters in common adds a tenth of what is missing to 1. |
| SimilarityLaws.SplitIsBetweenSpaces | crates/artd/src/enrich/text.rs:294-302 | The tokens hold no space and, joined by spaces, are the text. |
| SimilarityLaws.IsNumberIff | crates/artd/src/enrich/text.rs:296-300 | A token is a number if and only if it has characters and they are all digits or all letters of roman numerals. |
| SimilarityLaws.NumbersDecide | crates/artd/src/enrich/text.rs:286-302 | The similarity is 0 unless the number tokens of both, in order, are the same, and Jaro-Winkler's score then. |
| Similarity.CountTranspositions | crates/artd/src/enrich/text.rs:256-269 | The walk over both arrays ends and counts the places where the matched characters differ. |
| Similarity.JaroIsExact | crates/artd/src/enrich/text.rs:226-273 | Scores lie in [0, 1] and are 1 exactly on equal strings. |
| Similarity.JaroWinklerIsExact | crates/artd/src/enrich/text.rs:209-224 | The prefix bonus keeps that, and never lowers a score. |
| Similarity.SimilarityIsExact | crates/artd/src/enrich/text.rs:286-302 | The gate's score keeps that too, and is 0 whenever the number tokens differ. |
| Crc.ShiftsLinear | crates/lpcapture/src/png.rs:13-22 | Shifting with feedback is linear over exclusive-or, for any number of shifts. |
| Crc.LookupStep | crates/lpcapture/src/png.rs:27 | Eight shifts of a word are one table lookup on its low byte against the rest moved down. |
| Crc.TakeByteByLookup | crates/lpcapture/src/png.rs:26-28 | Taking a byte in bit by bit is one turn of the table loop. |
| Crc.ShiftByte | crates/lpcapture/src/png.rs:13-22 | The inner loop is eight shifts. |
| Crc.FillTable | crates/lpcapture/src/png.rs:9-24 | Every one of the 256 entries is eight shifts of its index. |
| Crc.Crc32 | crates/lpcapture/src/png.rs:8-30 | The table-driven checksum is the bit-serial one of section 3.4 of RFC 2083, for every input. |
| Crc.CheckValue | crates/lpcapture/src/png.rs:8-30 | The checksum of the digits 1 to 9 is the published check value, CBF43926. |
| Zlib.Adler32 | crates/lpcapture/src/png.rs:32-39 | Reducing at every byte gives the checksum RFC 1950 defines by whole sums, and it fits 32 bits. |
| Zlib.CheckValue | crates/lpcapture/src/png.rs:32-39 | The checksum of the worked example, nine letters, is the published one, 11E60398. |
| Zlib.BlocksRead | crates/lpcapture/src/png.rs:51-65 | Reading stored blocks (section 3.2.4 of RFC 1951) up to the first final one gives the raw bytes, leaves what follows, and meets the expected number of blocks. |
| Zlib.ZlibStored | crates/lpcapture/src/png.rs:51-65 | A decoder of the format accepts the stream and returns the raw bytes, for every length, the empty one included; only the last block is final. |
| Publication.Hub.Record | crates/artd/src/hub.rs:94-100 | Under the lock, the new state and the next number are kept together. |
| Publication.Hub.Broadcast | crates/artd/src/hub.rs:105-106 | After the lock, the message recorded is the one broadcast. |
| Publication.Hub.PushNote | crates/artd/src/hub.rs:81-91 | Notes are newest first and never more than the capacity. |
| Publication.Connection.Snapshot | crates/artd/src/hub.rs:63-66 | What is taken is the hub's current number and state together. |
| Publication.Connection.Receive | crates/artd/src/ipc.rs:168-179 | The next queued message, or after a lag the move to the oldest retained one and a snapshot owed. |
| Publication.Connection.Write | crates/artd/src/ipc.rs:133-143 | A failed write stops all later ones. |
| HubLaws.StepKeeps | crates/artd/src/ipc.rs:116-181 | Every step of publisher and client keeps: the newest unread message is the current state, and a client with nothing unread was told it last. |
| HubLaws.Converged | crates/artd/src/ipc.rs:116-181 | In every interleaving, a drained client was last told the current state unless a publication is half done. |
| HubLaws.CatchesUp | crates/artd/src/ipc.rs:168-179 | From any reachable point, a connected client gets there within 133 steps of its own once publishing pauses. |
| HubLaws.NothingInvented | crates/artd/src/hub.rs:94-108 | Every message sent carries a state that was published, under the number it was given. |
| HubLaws.PublishedIsHandedIn | crates/artd/src/hub.rs:94-108 | The published states are exactly those handed in, in order, and number and state are the last one's. |
| HubLaws.QueueMissesNothing | crates/artd/src/hub.rs:94-108 | The queue holds, under consecutive numbers, every publication broadcast since the client subscribed. |
| HubLaws.KeepingUpNeverLags | crates/artd/src/ipc.rs:168-179 | A client never more than the queue's capacity behind never lags. |
| HubLaws.StepLags | crates/artd/src/ipc.rs:168-179 | It lags if and only if it reads more than the capacity behind, and then goes on at the oldest message still held. |
| HubLaws.AskingIsAnswered | crates/artd/src/ipc.rs:155-162 | A client that asks for the state is sent the current one and misses no message for it. |
| HubLaws.NothingMissed | crates/artd/src/ipc.rs:116-118 | A client that never lagged has been told everything queued since it subscribed, in order. |
| HubLaws.OlderCanFollowNewer | crates/artd/src/ipc.rs:168-179 | A run in which an older state is sent after a newer one, before the newest comes again. |
| ArtworkCache.Cache.Get | crates/artd/src/enrich/cache.rs:126-162 | Answers if and only if the row's file is there with the row's length and digest, and then with that file's bytes; marks the row used if it answers, drops it if not, and touches nothing else. |
| ArtworkCache.Cache.Put | crates/artd/src/enrich/cache.rs:165-209 | Its effect is that of its steps in order, which is: the image under its digest, a row that says its length and the time, no temporary file and no miss noted. |
| ArtworkCache.Cache.Missed | crates/artd/src/enrich/cache.rs:224-239 | Whether a miss was noted less than the lifetime ago. |
| ArtworkCache.Cache.Evict | crates/artd/src/enrich/cache.rs:282-300 | Evicts exactly the shortest front of the least-recently-used order that suffices. |
| ArtworkCache.Cache.Sweep | crates/artd/src/enrich/cache.rs:267-304 | Expires, evicts and removes unreferenced files, leaving exactly the specified store, and counts each. |
| ArtworkCache.Cache.RemoveUnreferencedFiles | crates/artd/src/enrich/cache.rs:307-338 | Leaves exactly the images some row names, and counts what it removed. |
| CacheLaws.GetIsTruthful | crates/artd/src/enrich/cache.rs:126-155 | Whatever steps, crashes and damage come before the row is read and between reading it and its file, a lookup answers nothing, or bytes with the length and digest of the payload last recorded for the key; and it answers that payload if the file holds it. |
| CacheLaws.PutThenGet | crates/artd/src/enrich/cache.rs:165-209 | Storing and then looking up gives the bytes back, over any store; no other row changes. |
| CacheLaws.RowsAreBacked | crates/artd/src/enrich/cache.rs:16-19 | Over every run of steps that records rows after their renames, renames only whole writes and lands only whole writes in the image, a row's image is present with its digest unless a step removed or damaged it. |
| CachePuts.PutsAreFileFirst | crates/artd/src/enrich/cache.rs:178-207 | Every interleaving of puts, each stopping where a step of it fails, records rows only after renames that succeeded. |
| CachePuts.WholeIff | crates/artd/src/enrich/cache.rs:178-184 | At every point of every run of puts and anything else, an image holds what its name says if and only if the last write into its file, under whatever name it then had, was a whole one that finished. |
| CachePuts.RenamesWholeIff | crates/artd/src/enrich/cache.rs:178-184 | A rename moves whole content if and only if the last write into the temporary file was a whole one that finished. |
| CachePuts.RowHasImageIff | crates/artd/src/enrich/cache.rs:307-338 | A row's image is there if and only if it was not removed since it was last put in place. |
| CachePuts.BackedIff | crates/artd/src/enrich/cache.rs:16-19 | Rows have their image with its digest, at every point and so at every crash, if and only if both hold. |
| CachePuts.PutsAreBacked | crates/artd/src/enrich/cache.rs:16-19 | Crash safety: where no put of the same bytes opens the temporary file between another's opening and last use of it, every row not removed or damaged has its image with its digest, stopped anywhere. |
| CachePuts.CrashLeavesTornImage | crates/artd/src/enrich/cache.rs:178-184 | Two puts of one cover and a crash: a recorded row is left with an empty image, which a lookup refuses. |
| CachePuts.SecondWriteDecides | crates/artd/src/enrich/cache.rs:178-184 | Without the crash the second put's write lands in that image: whole, and the row is good; cut short, and it stays torn. |
| CachePuts.SweepStrandsRow | crates/artd/src/enrich/cache.rs:307-338 | A sweep that listed the rows before a put recorded its own removes the image after its rename, and the row is left without one. |
| CacheLaws.TotalOfAny | crates/artd/src/enrich/cache.rs:247-254 | The recorded total does not depend on the order rows are listed in. |
| CacheLaws.ShortestIsUnique | crates/artd/src/enrich/cache.rs:290-300 | Only one number of evictions is the shortest that suffices. |
| CacheLaws.ShortestIff | crates/artd/src/enrich/cache.rs:290-300 | It is the first number that suffices: every smaller one leaves too much. |
| CacheLaws.LastUsedGoesLast | crates/artd/src/enrich/cache.rs:281-300 | A row used after every other is evicted only when no row is left, and never when it fits by itself. |
| CacheLaws.UseIsRecorded | crates/artd/src/enrich/cache.rs:157-161 | A put, and a lookup that answers, make the key the last used. |
| CacheLaws.SweptFits | crates/artd/src/enrich/cache.rs:267-304 | The rows left are the most recently used rest of the order, and their recorded total fits the budget. |
| CacheLaws.DiskFits | crates/artd/src/enrich/cache.rs:267-304 | So do the files left on disk, when rows record their lengths. |
| CacheLaws.SweptIsReferenced | crates/artd/src/enrich/cache.rs:307-338 | A sweep leaves a file, untouched, if and only if it is an image that some row left names and no evicted row named. |
| CacheLaws.SweptAnswers | crates/artd/src/enrich/cache.rs:295-296 | A sweep costs a lookup its answer exactly when an evicted row had the same digest. |
| CacheLaws.TwinsAreTwoPuts | crates/artd/src/enrich/cache.rs:165-209 | Storing one cover under two keys gives one image and two rows. |
| CacheLaws.EvictionTakesTheTwin | crates/artd/src/enrich/cache.rs:295-296 | Two keys with one cover: evicting one costs the other, whose row stays, its answer. |
| CacheLaws.SweepKeepsLiveMisses | crates/artd/src/enrich/cache.rs:269-276 | Expiring negative entries changes no present or later answer, and leaves none older than its lifetime. |
| CacheLaws.SkipsByHistory | crates/artd/src/enrich/cache.rs:203-239 | In every run, however its sweeps fall, the network is skipped for a key exactly while the last miss noted since it was last answered is younger than the lifetime. |
| TokenBucket.RateLimit.Refill | crates/artd/src/enrich/limit.rs:112-117 | Tokens grow with the time passed, up to the capacity. |
| TokenBucket.RateLimit.Take | crates/artd/src/enrich/limit.rs:120-134 | Paused, granted, or short: the new bucket and the wait. |
| TokenBucket.RateLimit.Pause | crates/artd/src/enrich/limit.rs:95-103 | Never shortens a pause in force. |
| TokenBucket.RateLimit.Acquire | crates/artd/src/enrich/limit.rs:74-92 | A lone caller is served at the first moment the bucket is neither paused nor short, after at most two sleeps, and its waiting leaves no trace in the bucket. |
| BucketLaws.RateBound | crates/artd/src/enrich/limit.rs:112-134 | In every run, every window hands out at most capacity + rate times its length. |
| BucketLaws.NoGrantDuringPause | crates/artd/src/enrich/limit.rs:95-134 | No token is handed out before the end of any earlier pause. |
| BucketLaws.PauseWasAsked | crates/artd/src/enrich/limit.rs:95-103 | A pause in force ends when some pause asked for in the run does. |
| BucketLaws.BurstIsServed | crates/artd/src/enrich/limit.rs:112-134 | A bucket that holds n tokens and is not paused serves n attempts at once. |
| BucketLaws.FullAgain | crates/artd/src/enrich/limit.rs:112-117 | Left alone for the time its capacity takes to earn, a bucket is full again. |
| BucketLaws.GrantedWhenReady | crates/artd/src/enrich/limit.rs:120-134 | An attempt succeeds exactly from the time the pause is over and a whole token is there. |
| BucketLaws.WaitingCostsNothing | crates/artd/src/enrich/limit.rs:74-92 | Sleeping the returned wait keeps the time of service, ends any pause, and with no pause in force reaches it. |
| BucketLaws.TooSmallNeverGrants | crates/artd/src/enrich/limit.rs:112-134 | A capacity below one token never grants, in any run. |
| TreeLaws.InsertRefusedIff | crates/lpframe-config/src/write.rs:145-162 | Setting a path is refused exactly when it runs through something that is not a table. |
| TreeLaws.GetInserted | crates/lpframe-config/src/write.rs:132-162 | A path reads as it was set. |
| TreeLaws.InsertFrames | crates/lpframe-config/src/write.rs:145-162 | Setting a path changes no unrelated one. |
| TreeLaws.GetRemoved | crates/lpframe-config/src/write.rs:169-181 | A dropped path reads as absent. |
| TreeLaws.RemoveFrames | crates/lpframe-config/src/write.rs:169-181 | Dropping a path changes nothing at any unrelated one. |
| TreeLaws.RemoveKeepsPruned | crates/lpframe-config/src/write.rs:164-181 | Dropping leaves no empty table behind. |
| TreeLaws.RemoveUndoesInsert | crates/lpframe-config/src/write.rs:164-181 | Dropping a key that was just set where there was none gives back the very table. |
| TreeLaws.MergeGet | crates/lpframe-config/src/lib.rs:636-653 | What the merged tree holds at any path: the overlay's leaf, the base where the overlay is silent, tables combined, and nothing beneath an overlay leaf. |
| TreeLaws.MergeIdempotent | crates/lpframe-config/src/lib.rs:636-653 | Merging the same overlay twice is merging it once. |
| TreeLaws.LeafPathsAre | crates/lpframe-config/src/lib.rs:655-673 | The collected paths are exactly those that hold a leaf. |
| TreeLaws.LeavesDetermine | crates/lpframe-config/src/write.rs:164-168 | With no empty tables, the leaves determine the table. |
| Overrides.Store.EditOverrides | crates/lpframe-config/src/write.rs:65-113 | All or nothing: the file holds the edited table, made from what it held or from nothing if it was missing, and the answer is a fresh load of it; or the file is as it was and the answer says why. |
| Overrides.OutcomeIs | crates/lpframe-config/src/write.rs:65-113 | Which answer means what: an unknown or blocked key, an unreadable file, a merged tree that is not accepted, a write that failed, or none of these and the merged tree with the overridden paths. |
| SettingsLaws.ApplyKeeps | crates/lpframe-config/src/write.rs:65-113 | Edits of known keys to an override that fits the schema never fail for want of a path, and leave one that fits. |
| SettingsLaws.ApplyKeepsPruned | crates/lpframe-config/src/write.rs:164-181 | Nor do they leave an empty table where there was none. |
| SettingsLaws.ApplyLeaf | crates/lpframe-config/src/write.rs:65-113 | After them each known key says what its last edit said, or what it said before. |
| SettingsLaws.EditShows | crates/lpframe-config/src/write.rs:50-55 | In the merged configuration a set key reads as set, and a dropped one falls back to the base. |
| SettingsStore.Countdown.SnapshotKeys | crates/artd/src/web/settings.rs:152-166 | Records what the override says about each key, absence included. |
| SettingsStore.Countdown.Arm | crates/artd/src/web/settings.rs:173-183 | The new countdown takes the old one's place, the older undo winning per key, under a fresh id. |
| SettingsStore.Countdown.ConfirmChange | crates/artd/src/web/settings.rs:187-196 | Ends the countdown if and only if the id is live. |
| SettingsStore.Countdown.ChangeSettings | crates/artd/src/web/mod.rs:614-645 | Notes the display keys, writes, and arms, or changes nothing. |
| SettingsStore.Countdown.RevertChange | crates/artd/src/web/settings.rs:200-215 | A stale id does nothing; a live one empties the slot and tries to put every noted key back. |
| SettingsLaws.StepKeeps | crates/artd/src/web/settings.rs:173-183 | The pending undo always holds the values from before the first unconfirmed change. |
| SettingsLaws.RevertPutsBack | crates/artd/src/web/settings.rs:200-215 | After any run of changes with none settled, the revert restores every touched display key and touches no other, or, if refused, leaves the file alone. |
| SettingsLaws.RevertIsExact | crates/artd/src/web/settings.rs:200-215 | When only display settings were changed the revert cannot be refused, and the override is the very table the run began with. |
| SettingsLaws.StaleStaysStale | crates/artd/src/web/settings.rs:187-208 | An id confirmed, reverted or superseded never acts again, in any run. |
| SettingsLaws.ChangeArms | crates/artd/src/web/mod.rs:614-645 | A change that is written starts a countdown, under a new id, if and only if it edits how the display is driven; what it will put back for each such key is what a running countdown would have, or else what the override said. |
| SettingsLaws.RefusedChangesNothing | crates/artd/src/web/mod.rs:614-645 | A change that is not written changes nothing and starts nothing. |
| SettingsLaws.UnreadableIsLeftAlone | crates/lpframe-config/src/write.rs:65-113 | An override file that cannot be read or holds no table is never written over. |
| SettingsLaws.ConfirmedIsKept | crates/artd/src/web/settings.rs:187-196 | Confirming leaves the override as it is, and whatever follows, that countdown never puts anything back. |
| SettingsLaws.LoadsIsSound | crates/lpframe-config/src/lib.rs:480-497 | An override that loads fits the schema, whatever empty sections it holds. |
| RequestLaws.ChangeIsFourSteps | crates/artd/src/web/mod.rs:614-645 | With no other step in between, a request's note, read, replacement and arming are the one change. |
| RequestLaws.RevertIsThreeSteps | crates/artd/src/web/settings.rs:200-215 | And so are a countdown's emptying of the slot, read and replacement. |
| RequestLaws.ResetIsThreeSteps | crates/artd/src/web/settings.rs:132-137 | And so are a reset's. |
| RequestLaws.MoveKeepsFine | crates/artd/src/web/mod.rs:614-645 | Every step of every overlap keeps an override that fits the schema, edited tables that do, and notes and undos of display keys that can be put back. |
| RequestLaws.ReplaceGives | crates/lpframe-config/src/write.rs:79-108 | In every run a replacement leaves at each key what its request last edits it to or, for a key it does not edit, the value the key had when the request read the file. |
| RequestLaws.ReplaceKeepsIff | crates/lpframe-config/src/write.rs:79-108 | So a key it does not edit survives if and only if it reads as it did then. |
| RequestLaws.RunUndoTraced | crates/artd/src/web/settings.rs:152-183 | At every point of every run, what the countdown holds for a key is what the override said when the first request to arm with it took its note. |
| RequestLaws.RevertGives | crates/artd/src/web/settings.rs:200-215 | Whatever overlapped, a revert leaves at each key it held the value of that moment, and at any other the value it read. |
| RequestLaws.RevertRestoresIff | crates/artd/src/web/settings.rs:168-183 | In every run, the revert restores the value a key had at a given point if and only if the key had it when the first request to arm with it took its note. |
| RequestLaws.UnwrittenIsRestored | crates/artd/src/web/settings.rs:168-183 | It does when between the two nothing edited the key or carried it over from an earlier reading of the file. |
| RequestRaces.OutOfTurnRestoresUnconfirmed | crates/artd/src/web/settings.rs:173-183 | Two requests that arm out of turn: the revert restores a value nobody confirmed. |
| RequestRaces.LateRestoresUnconfirmed | crates/artd/src/web/mod.rs:614-645 | A request that notes before another's countdown runs out and writes after it: its revert restores what the other's undid. |
| RequestRaces.StaleTableLosesEdit | crates/lpframe-config/src/write.rs:79-108 | A request that read the file before another replaced it takes the other's change away, without naming its key. |
| LimiterLaws.SweepForgetsNothing | crates/artd/src/web/auth.rs:235-240 | Sweeping changes nothing about the attempts still inside the window, now or later. |
| LimiterLaws.DecidesByHistory | crates/artd/src/web/auth.rs:229-255 | In every run, however the table was swept: an attempt is refused only if five accepted attempts of the address since its last clear lie inside the window, and then always, or if it has none there and at least 4096 other addresses each have one. |
| LimiterLaws.ActiveKeepsBudget | crates/artd/src/web/auth.rs:241-255 | An address with an attempt inside the window is accepted exactly while fewer than five are, however crowded the table. |
| LimiterLaws.NewcomerRefusedIff | crates/artd/src/web/auth.rs:235-246 | An address the table does not know is refused if and only if at least 4096 addresses have an accepted attempt inside the window. |
| LimiterLaws.OthersUntouched | crates/artd/src/web/auth.rs:232-255 | An attempt changes no other address's entry while the table is small or its own address is known. |
| LimiterLaws.AtMostFive | crates/artd/src/web/auth.rs:229-255 | In every run every 60-second window holds at most five accepted attempts per address since its last clear. |
| LimiterLaws.TableIsBounded | crates/artd/src/web/auth.rs:235-246 | The table never tracks more than 4096 addresses. |
| LoginLimiter.Attempts.NoteAttempt | crates/artd/src/web/auth.rs:229-255 | The decision and the table after it, sweep included. |

## Left out

- Chunking.ChunkingIsUnobservable: of sessions that hit the buffer limit nothing is said, because when an overflow is reported depends on how the stream was fed; only junk reports may be split differently.
- CachePuts.WholeIff: the bytes of one write land at once, when it finishes or is cut short; until then its file reads as it was opened or as another write has left it.
- CacheLaws.DiskFits: takes as given that a row records its image's length; damaged or colliding files need not have it.
- BucketLaws.RateBound: tokens, rates and times are reals, so the rounding of floating-point arithmetic and of sleep durations is not modelled; a window is measured at the clock reading that refills.
- TokenBucket.RateLimit.Acquire: the caller is alone and sleeps end on time; with others at the bucket only the bounds over runs hold.
- BucketLaws.GrantedWhenReady: the attempt's two clock readings coincide; the bounds over runs let them differ.
- Similarity.ComputeJaro: scores are reals, so floating-point rounding is not modelled.
- SettingsLaws.RevertPutsBack: a request's steps count as one; RequestLaws.RevertRestoresIff is the law when they do not.
- RequestLaws.RevertRestoresIff: hand edits of the override file while a countdown runs are not modelled. Replacing the file is one step; that two replacements at the same moment share a temporary file is not modelled.
- SettingsLaws.RevertIsExact: the override holds no empty tables to begin with; one written by hand may be pruned by the revert, which changes no value.
- LimiterLaws.NewcomerRefusedIff: whether an address with nothing inside the window is still in the table, and so no newcomer, depends on when sweeps came, and is not said of the history.
- Integer widths: parsed type, code and length fields and CRC words have theirs; counters, sequence numbers, offsets, revisions and times are unbounded, so their overflow is not modelled.
- SHA-256 is a parameter. Packing takes as given that artworks in play have digests of the right shape that do not collide; a cache answer is only said to have the recorded digest and length.
- Base64 follows RFC 4648 with the engine's defaults: non-zero bits after the last whole byte are refused.
- Track identities derived from text are kept as the text that would be hashed; lower-casing and hashing are not modelled.
- The machine's counters other than sessions, its log notes and its enrichment records.
- Global monotonicity of artwork revisions: they restart after the picture is cleared.
- A dotted key is the list of its parts, and paths and collected keys are such lists; quoting and the joined spelling of odd keys are not modelled. A table is edited as a value where the program walks into it in place.
- TOML text, atomic file replacement and the schema: a file holds a tree or is unreadable, writing succeeds or changes nothing, and which trees are accepted is a parameter; the individual checks of validation appear only where the machine needs them.
- SQLite: queries are answered from a map of rows, and the least-recently-used listing is given by its defining property; sums do not overflow and failed deletions of files do not occur. Stray files that are neither images nor partial writes are not in the store.
- The web event stream, which takes its snapshot before it subscribes, is not covered by convergence.
- Settings requests that are empty, name a secret key or hold a value of the wrong shape are refused before anything modelled here.
- Only one publisher; the client's hello line and its commands other than asking for the state carry no state.
- Login sessions, Argon2, tokens and single-flight: bookkeeping without a hard claim.
- PNG chunks and pixel rows around the checksums and the zlib stream.
- Decoding items into metadata events, golden files, normalisation of titles, colour, layout, rendering, networking, GPIO and the command lines.
