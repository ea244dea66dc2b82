# Verified model of governed artifact inspection

This project models, in Dafny, the part of the repository that decides what a caller may
believe: the chunk and Merkle manifests, the text index, the five inspector operations with
the evidence they leave, the gate that holds that evidence back until the receipt journal has
acknowledged it, and the read-tool governor. Four self-contained encoders and decisions stand
beside them: model-visible text with the wire response, canonical receipt bytes, strict base64 and
write containment.

`dafny verify dfyconfig.toml` checks everything.

## How to read it

| files | content |
|---|---|
| `Hashing`, `Merkle`, `ChunkManifest` | digests, the tree with duplicated odd nodes, manifests, inclusion proofs |
| `Governor`, `GovernorBudget`, `GovernorExact`, `GovernorProcess` | the limiter as a transition system over values, budgets over whole runs, exactly when a call is let in, and the classes that refine it |
| `EvidenceGate` | the observer gate (a class), and the protocol over every interleaving |
| `Utf8`, `Lines`, `Slug`, `HeadingIds`, `Headings`, `HeadingExact`, `TextIndex` | the text index |
| `Covering`, `Registry`, `Evidence` | covering chunks and the contract predicates, registry records, receipts and events |
| `Inspector`, `InspectorWhole`, `InspectorText`, `InspectorHeading`, `Search`, `InspectorSearch`, `InspectorGate` | stat and range, what the three text operations share, those three, and the operations behind the gate |
| `Answers`, `WholeAnswers` | the answers and refusals of the five operations, field by field |
| `Json`, `ModelText`, `Utf16`, `Wire`, `CanonicalJson`, `Base64`, `Containment`, `Sequences` | encoders and decisions |
| `Formats` | the byte and text formats against their published tables |

SHA-256 is a parameter `h` with 32-byte results; nothing else is assumed of it. Every soundness
statement therefore ends in "or here are two different messages with one digest", and returns
them. Injected dependencies (the resolver, the byte reader, the clock, NFC and lower-casing of
heading text) are parameters too. So is the size of the wire response, of which the inspector uses
one fact; `Wire.Size` is the size the code computes, and has that fact. Each operation of the
inspector is a method proved equal to a specification function that has fewer exits: the exits
that are missing there are the ones shown to be unreachable. The discipline and authenticity
lemmas are about those functions.

A `hide` statement in a proof only takes a definition away from that proof.

### Results that qualify what the code or its documentation says

* Up to an explicit collision, an accepted proof always carries a chunk of the source, and it is the
  chunk at the proof's index exactly when the source has a chunk there, whatever count the proof
  declares (`AcceptedChunkIsAuthentic`). Indexes past the end can be accepted: leaf lists `[a, b, c]`
  and `[a, b, c, c]` share a root. For n chunks the accepted indexes are exactly those below the next
  power of two (`AcceptedIndexesExactly`; `PhantomChunkVerifies` names the chunk).
* Between evictions a scope stays within its request budget (`SlidingWindowSafety`). Over whole runs
  it gets one budget more for each of its evictions (`BudgetPerEviction`), and no bound below that
  holds: for every policy and every number of evictions there is a run, within a single instant, that
  spends all of it (`BudgetPerEvictionAttained`).
* Different suffix numbers do not always give different heading candidates: the first candidate,
  which has no suffix, is also the one with suffix n exactly when the slug cut at 128 characters
  already ends in that suffix (`CandidatesCollideExactly`; `CollidingHeading` is such a heading).
  Identifiers are distinct all the same, because the loop skips every candidate already used.
* "Own output only if every receipt was acknowledged" holds for whole runs exactly when no
  different receipt is handed to the gate after commit has started (`OwnOutputExact`,
  `LateReceiptEscapes`). It holds outright for every operation that hands over nothing after it has
  resolved (`SilentOperationAcknowledged`), and so for runs that carry out an inspector call
  (`ReturnedIsAcknowledged`). The converse fails: an acknowledged and forwarded receipt may
  still be answered with a deadline error (`ForwardedYetDeadline`), exactly when a deadline or an
  abort decided the race (`AnswerExact`).
* The module comment of `artifact-inspector.ts` says that an unavailable artifact is never backed
  by a receipt. One path does it: searching an empty artifact (`UnavailableWithReceiptExactly`
  gives the exact condition, `EmptySearchLeavesReceipt` such a call). The code is followed.
* Every success needs a receipt that its schema accepts. Over an honest registry and store that
  costs an answer exactly when the clock is outside the years 0000 to 9999. The other conditions are
  about the request, the source, the record (its media type, and for stat its reference to a long
  list of chunk hashes) and the size of the wire response (`StatServesExactly`, `RangeServesExactly`,
  `LinesServesExactly`, `HeadingServesExactly`, `SearchServesExactly`).
* A request within its 8,192 bytes is not always answerable: 5,462 control characters without a
  short escape are too long for the wire with any integrity object (`ControlTextExceeds`). An answer
  past the last line always fits (`PastEndMeasured`), so its response-limit exit is unreachable.

## Model

| member | source | states |
|---|---|---|
| `Merkle.ExpectedDepthIsHalvings` | packages/server/src/artifact-chunk-manifest.ts:232-234 | the rounded-up binary logarithm is the number of ceil-halvings that take the count to 1 |
| `Merkle.DepthIsCeilLog2` | packages/server/src/artifact-chunk-manifest.ts:232-234 | the only d with count <= 2^d and not count <= 2^(d-1) is that number |
| `Merkle.BuildMerkleLevels` | packages/server/src/artifact-chunk-manifest.ts:206-230 | the loop builds the recursively defined levels: the leaves, then levels whose node i is the hash of a one byte, node 2i and node 2i+1 of the level below, or node 2i twice at the odd end; the hash of a two byte alone for no leaves |
| `Merkle.LevelsEndInRoot` | packages/server/src/artifact-chunk-manifest.ts:206-230 | the last level is the root alone, after exactly as many levels as the width has ceil-halvings |
| `Merkle.BuildProofNodesFromLevels` | packages/server/src/artifact-chunk-manifest.ts:242-272 | the nodes collected from the levels are the recursively defined proof |
| `Merkle.ProofNodeAt` | packages/server/src/artifact-chunk-manifest.ts:242-272 | node k of a proof is the neighbour, at level k, of the index halved k times: on the left of an odd position, on the right of an even one, itself at the odd end |
| `Merkle.WalkProof` | packages/server/src/artifact-chunk-manifest.ts:751-785 | the verifier loop agrees with the recursive acceptance predicate |
| `Merkle.LastStepWritten` | packages/server/src/artifact-chunk-manifest.ts:751-785 | one node is accepted exactly when the hash of a one byte and the two digests in the order of its position is the root, and its side and sibling are those its index allows |
| `Merkle.WalkComplete` | packages/server/src/artifact-chunk-manifest.ts:751-785 | for every leaf list and index the built proof is accepted against the root |
| `Merkle.WalkSound` | packages/server/src/artifact-chunk-manifest.ts:751-785 | an accepted walk starts at the leaf of that index and uses exactly the built nodes, or yields an explicit collision |
| `Merkle.WalkSoundAnyWidth` | packages/server/src/artifact-chunk-manifest.ts:751-785 | whatever width is declared, an accepted walk from a leaf digest has the depth of the tree and starts at one of its leaves, the one of its index if there is one; or a leaf is a parent digest; or an explicit collision |
| `Merkle.RootIgnoresDuplicatedLast` | packages/server/src/artifact-chunk-manifest.ts:206-230 | for every odd leaf list of at least three, appending a copy of its last leaf keeps the root |
| `Merkle.RootOfPad` | packages/server/src/artifact-chunk-manifest.ts:206-230 | up to the next power of two, every width whose last position stands for the last leaf has the root of the leaves, each position repeating the leaf it stands for |
| `ChunkManifest.PhantomChunkVerifies` | packages/server/src/artifact-chunk-manifest.ts:725-786 | at every index from the number of chunks up to the next power of two a shape-consistent proof is accepted, with the chunk that index stands for |
| `ChunkManifest.AcceptedIndexesExactly` | packages/server/src/artifact-chunk-manifest.ts:725-786 | some shape-consistent proof for an index is accepted against the root of a nonempty source if and only if the index is below the least power of two at least the number of chunks; or a collision |
| `ChunkManifest.PowerOfTwoPinsIndex` | packages/server/src/artifact-chunk-manifest.ts:725-786 | when the number of chunks is a power of two, an accepted index is below it, or a collision |
| `ChunkManifest.WidthCheckNeverFails` | packages/server/src/artifact-chunk-manifest.ts:778-785 | a shape-consistent proof brings the width down to exactly one, so the final width check never decides |
| `ChunkManifest.BuildArtifactChunkManifest` | packages/server/src/artifact-chunk-manifest.ts:579-645 | the loop builds the manifest of the source or reports the exact error, with the root in bytes for no chunk, one chunk and two chunks; the chunk-count exit never occurs |
| `ChunkManifest.BuildErrorWritten` | packages/server/src/artifact-chunk-manifest.ts:579-600 | a size other than 1,024, 4,096 and 8,192 is refused first, then a source of more than 1 MiB, and nothing else |
| `ChunkManifest.ManifestWritten` | packages/server/src/artifact-chunk-manifest.ts:579-645 | every field of the manifest and of each entry as bytes of the source |
| `ChunkManifest.RootIsTop` | packages/server/src/artifact-chunk-manifest.ts:579-645 | for every source the root is the one node of the last level over the leaf hashes of the chunks |
| `ChunkManifest.AssertManifestConsistent` | packages/server/src/artifact-chunk-manifest.ts:290-431 | accepts exactly the manifests with consistent geometry whose leaves close to the root; header errors are exact |
| `ChunkManifest.HeaderErrorWritten` | packages/server/src/artifact-chunk-manifest.ts:290-345 | the header errors in order, each with its exact condition |
| `ChunkManifest.BuiltIsConsistent` | packages/server/src/artifact-chunk-manifest.ts:579-645 | every built manifest is accepted by the validator |
| `ChunkManifest.BuildArtifactChunkProof` | packages/server/src/artifact-chunk-manifest.ts:654-694 | refuses exactly the inconsistent manifests and the out-of-range indexes, else returns the defined proof |
| `ChunkManifest.ProofWritten` | packages/server/src/artifact-chunk-manifest.ts:654-694 | every field of the built proof, from the manifest and the entry at the index |
| `ChunkManifest.ProofGeometryErrorExact` | packages/server/src/artifact-chunk-manifest.ts:439-526 | the ordered geometry checks accept exactly the proofs whose fields agree |
| `ChunkManifest.ProofErrorWritten` | packages/server/src/artifact-chunk-manifest.ts:439-526 | the geometry errors in order, each with its exact condition |
| `ChunkManifest.AssertProofShapeConsistent` | packages/server/src/artifact-chunk-manifest.ts:439-566 | accepts exactly the proofs of consistent shape |
| `ChunkManifest.VerifyArtifactChunkProof` | packages/server/src/artifact-chunk-manifest.ts:725-786 | throws exactly on malformed input; true exactly when length, digests and walk all agree |
| `ChunkManifest.ProofComplete` | packages/server/src/artifact-chunk-manifest.ts:654-786 | bytes with the declared digests verify with the built proof of a consistent manifest |
| `ChunkManifest.SourceChunkProvable` | packages/server/src/artifact-chunk-manifest.ts:579-786 | every chunk of every source at every allowed size verifies against its manifest's root |
| `ChunkManifest.ProofSound` | packages/server/src/artifact-chunk-manifest.ts:725-786 | acceptance against a consistent manifest gives one of its leaves, the one at the index if it exists, whatever count is declared; with the same count also exactly its nodes; or a collision, or a leaf that is a parent digest |
| `ChunkManifest.AcceptedChunkIsAuthentic` | packages/server/src/artifact-chunk-manifest.ts:725-786 | accepted bytes are a chunk of the source, and the one at the proof's index if and only if the source has a chunk there, whatever count is declared; or a collision |
| `ChunkManifest.VerifyArtifactSourceManifest` | packages/server/src/artifact-chunk-manifest.ts:804-839 | true if and only if the manifest is the one built from these bytes; no hash assumption |
| `Governor.VictimIsOldestIdle` | packages/server/src/read-tool-governor.ts:97-103 | filter, stable sort and first entry pick the first least recently touched idle scope; none exactly when no scope is idle |
| `Governor.RunKeepsInv` | packages/server/src/read-tool-governor.ts:91-107 | in every state of every run: active counts equal in-flight calls and respect the policy, held records are the mapped ones, at most 1,024 scopes, one event per finished call |
| `Governor.StepKeepsInv` | packages/server/src/read-tool-governor.ts:282-374 | every start and every end of a call keeps those invariants |
| `Governor.SlidingWindowSafety` | packages/server/src/read-tool-governor.ts:193-207 | in any stretch without eviction at most maxRequestsPerWindow calls of a scope pass in any window, whatever the interleaving |
| `Governor.StretchUsesOneRecord` | packages/server/src/read-tool-governor.ts:91-107 | between evictions all admissions of a scope are on one record |
| `GovernorBudget.BudgetPerEviction` | packages/server/src/read-tool-governor.ts:91-107 | over any stretch of any run a scope passes at most maxRequestsPerWindow times (1 + its evictions) in any window |
| `GovernorBudget.BudgetPerEvictionAttained` | packages/server/src/read-tool-governor.ts:91-107 | for every policy, scope and k there is a run with k evictions of the scope in which it passes exactly maxRequestsPerWindow times (1 + k) in one window |
| `GovernorExact.StepDecides` | packages/server/src/read-tool-governor.ts:282-374 | in every run, for every start and end of a call: it is admitted if and only if fewer than maxRequestsPerWindow admissions of its record lie within the window before it, and then goes in flight if and only if fewer than maxConcurrent calls hold the record; with the events and the change of the scope map, evicted scope included |
| `GovernorExact.RunTouches` | packages/server/src/read-tool-governor.ts:91-107 | in every run a record was last touched at the latest start on it, so least recently touched means least recently started |
| `Governor.Classify` | packages/server/src/read-tool-governor.ts:321-366 | each class of outcome exactly: a call that throws after an abort reads as timeout, one that resolves is classified by its result |
| `GovernorProcess.LimiterState.EnforceWindow` | packages/server/src/read-tool-governor.ts:193-207 | the in-place filter and push is the specified step of the record, and it passes if and only if fewer than maxRequestsPerWindow entries are later than the start of the window |
| `GovernorProcess.LimiterState.ReleaseConcurrency` | packages/server/src/read-tool-governor.ts:209-213 | gives back one slot, never below zero |
| `GovernorProcess.ReadToolGovernor.FindVictim` | packages/server/src/read-tool-governor.ts:98-101 | the scan finds the specified victim |
| `GovernorProcess.ReadToolGovernor.GetLimiterState` | packages/server/src/read-tool-governor.ts:91-107 | the map and heap change exactly as the specification's acquire step |
| `GovernorProcess.ReadToolGovernor.Begin` | packages/server/src/read-tool-governor.ts:282-308 | the synchronous prefix of a call refines the start step |
| `GovernorProcess.ReadToolGovernor.Finish` | packages/server/src/read-tool-governor.ts:367-374 | the finally block refines the end step |
| `EvidenceGate.ObserverGate.constructor` | packages/server/src/artifact-mcp-registration.ts:348-354 | a new gate is open, uncommitted and empty |
| `EvidenceGate.ObserverGate.Event` | packages/server/src/artifact-mcp-registration.ts:359-361 | buffers an event exactly while open and uncommitted |
| `EvidenceGate.ObserverGate.Receipt` | packages/server/src/artifact-mcp-registration.ts:362-364 | buffers a receipt exactly while open and uncommitted |
| `EvidenceGate.ObserverGate.CommitBeforeAwait` | packages/server/src/artifact-mcp-registration.ts:368-377 | refuses a closed, committed or ambiguous gate, else calls append once or not at all |
| `EvidenceGate.ObserverGate.CommitAfterAwait` | packages/server/src/artifact-mcp-registration.ts:378-394 | forwards the single receipt and then the events in order, or nothing after close |
| `EvidenceGate.ResumeReleases` | packages/server/src/artifact-mcp-registration.ts:378-394 | what an open gate passes on is the single receipt at the front, if there is just one, and then event k at place k; a closed gate passes nothing on |
| `EvidenceGate.ObserverGate.CloseGateNow` | packages/server/src/artifact-mcp-registration.ts:395-399 | closes and empties the gate |
| `EvidenceGate.StepKeepsInv` | packages/server/src/artifact-mcp-registration.ts:302-502 | every step of operation, journal, deadline, abort and close keeps the protocol invariant |
| `EvidenceGate.GateSafety` | packages/server/src/artifact-mcp-registration.ts:348-401 | over every interleaving: one append, one return, nothing appended or forwarded after close, evidence and own output only after the matching acknowledgement |
| `EvidenceGate.ReceiptBeforeEvents` | packages/server/src/artifact-mcp-registration.ts:378-394 | in every run no event is passed on before a receipt |
| `EvidenceGate.RepliesDecide` | packages/server/src/artifact-mcp-registration.ts:378-394 | in every run an appended receipt counts as acknowledged only after a reply with its own digest; any other reply, and a failure, closes the gate with nothing passed on |
| `EvidenceGate.OwnOutputExact` | packages/server/src/artifact-mcp-registration.ts:469-502 | when the own output is returned everything buffered was released, the single receipt first and then the events in order, and every receipt ever produced was acknowledged exactly when no different one arrived late |
| `EvidenceGate.ReportExact` | packages/server/src/artifact-mcp-registration.ts:496-501 | the registration reports a deadline output and a journal failure, and nothing else |
| `EvidenceGate.CommitRefusesExactly` | packages/server/src/artifact-mcp-registration.ts:368-377 | in every reachable state commit refuses exactly for a closed gate, two receipts or an invalid receipt |
| `EvidenceGate.LateReceiptEscapes` | packages/server/src/artifact-mcp-registration.ts:378-394 | the run in which a receipt arrives during the await: events and output go out, neither receipt does |
| `EvidenceGate.AnswerExact` | packages/server/src/artifact-mcp-registration.ts:331-340 | a finished run answers a deadline error exactly when a deadline or an abort decided the race, else the own output exactly when its evidence was committed |
| `EvidenceGate.SilentOperationAcknowledged` | packages/server/src/artifact-mcp-registration.ts:469-502 | an operation that hands over nothing after it has resolved: its output is returned only after every receipt was acknowledged, and exactly its receipts and events are released |
| `EvidenceGate.ForwardedYetDeadline` | packages/server/src/artifact-mcp-registration.ts:331-340 | the run in which the deadline wins while the acknowledgement is on its way |
| `Utf8.EncodeDecode` | packages/server/src/artifact-text-index.ts:126-132 | re-encoding fatally decoded bytes gives the same bytes |
| `Formats.DecodeExactly` | packages/server/src/artifact-text-index.ts:126-132 | fatal decoding gives a text exactly for the encoding of that text, and no text with a surrogate has one |
| `Formats.SequenceWritten` | packages/server/src/artifact-text-index.ts:126-132 | the bytes of a code point: their number, ranges and value, as in section 3 of RFC 3629 |
| `Utf8.SplitAt` | packages/server/src/artifact-text-index.ts:126-132 | valid bytes split at any non-continuation byte into two valid halves whose texts concatenate |
| `Lines.ScanLines` | packages/server/src/artifact-text-index.ts:142-185 | the scan returns the defined records, or stops exactly when there are more than 10,000 |
| `Lines.CanonicalPartition` | packages/server/src/artifact-text-index.ts:142-185 | records are contiguous, numbered, non-empty, cover the source and break only at LF or CRLF if and only if they are the scanned ones |
| `Lines.SpanIsConcatenation` | packages/server/src/artifact-text-index.ts:562-589 | the slice from first start to last end is the concatenation of the records |
| `Lines.AdvanceCursor` | packages/server/src/artifact-inspector.ts:1794-1799 | the moving cursor stops on the line that holds the offset |
| `Lines.LineOfOffsetUnique` | packages/server/src/artifact-inspector.ts:1794-1800 | only one line holds an offset, so the cursor equals a full lookup |
| `Slug.HeadingSlug` | packages/server/src/artifact-text-index.ts:248-271 | the loop renders the token sequence of the text, "heading" when there is none |
| `Slug.SlugDecodable` | packages/server/src/artifact-text-index.ts:248-271 | apart from that default, equal slugs come from equal token sequences |
| `Slug.SlugsEqualExactly` | packages/server/src/artifact-text-index.ts:248-271 | two texts share a slug if and only if their tokens are equal, or one has none and the other spells the default |
| `Slug.TokensAreKept` | packages/server/src/artifact-text-index.ts:248-271 | the tokens are exactly the ASCII letters, digits and non-ASCII code points of the text, in order |
| `Formats.SlugGrows` | packages/server/src/artifact-text-index.ts:248-271 | what one more code point adds to a slug: nothing, itself or its escape, with one hyphen for what was dropped between two that are kept |
| `Formats.HexWritten` | packages/server/src/artifact-text-index.ts:248-271 | escapes are lower-case hexadecimal, most significant digit first, without leading zeros |
| `Slug.AsciiNeverCollides` | packages/server/src/artifact-text-index.ts:248-271 | an all-ASCII text never shares its slug with one that holds a non-ASCII code point |
| `HeadingIds.CandidatesCollideExactly` | packages/server/src/artifact-text-index.ts:273-283 | two suffix numbers give one candidate if and only if the smaller is 1 and the slug cut at 128 characters ends in the suffix of the larger |
| `HeadingIds.CollidingHeading` | packages/server/src/artifact-text-index.ts:248-283 | the text of 126 letters, a space and a 2 has such a slug |
| `HeadingIds.SuffixBound` | packages/server/src/artifact-text-index.ts:273-283 | the suffix can not exceed the number of used identifiers plus two, so the loop ends |
| `HeadingIds.NextHeadingId` | packages/server/src/artifact-text-index.ts:273-283 | returns the first free candidate and records it |
| `HeadingIds.IdForAccepted` | packages/contracts/src/artifact-inspection.ts:140-144 | every identifier given to a slug is 1 to 128 characters long and matches the contract's pattern |
| `Headings.ParseFence` | packages/server/src/artifact-text-index.ts:198-206 | the parser agrees with the fence rule |
| `Headings.IsClosingFence` | packages/server/src/artifact-text-index.ts:208-218 | the loop agrees with the closing rule |
| `Headings.ParseAtxHeading` | packages/server/src/artifact-text-index.ts:226-242 | the parser agrees with the heading rule, the length limit included |
| `Headings.StripClosingExact` | packages/server/src/artifact-text-index.ts:234-237 | the text is cut at the leftmost run of blanks, hashes and blanks that reaches its end, with no blank left before the cut, and is unchanged when there is none |
| `Headings.ScanHeadings` | packages/server/src/artifact-text-index.ts:285-324 | the scan with its fence state and used set computes the defined fold, errors included |
| `Headings.HeadingsSound` | packages/server/src/artifact-text-index.ts:285-324 | headings are exactly the heading lines outside fences, in order, with distinct accepted identifiers |
| `HeadingExact.AtxWritten` | packages/server/src/artifact-text-index.ts:226-242 | a line is a heading if and only if it is at most three spaces, one to six hashes and a space; its text is the rest without its closing run, at most 512 characters |
| `HeadingExact.FenceWritten` | packages/server/src/artifact-text-index.ts:198-206 | a line opens a fence if and only if, after at most three spaces, it has three or more backticks or tildes; the fence has all of them |
| `HeadingExact.ClosesWritten` | packages/server/src/artifact-text-index.ts:208-218 | a line closes a fence if and only if, after at most three spaces, it is a run of the marker at least as long, then spaces and tabs |
| `HeadingExact.HeadingWritten` | packages/server/src/artifact-text-index.ts:285-324 | each heading comes from a marked line outside every fence: its text, normalised text, level, line number and bytes |
| `HeadingExact.IdWritten` | packages/server/src/artifact-text-index.ts:273-324 | the identifier of a heading is the slug of its normalised text with the least number, cut to 128 characters, that no earlier heading has |
| `HeadingExact.ScanFails` | packages/server/src/artifact-text-index.ts:285-324 | the scan fails exactly at the first heading that is too long or the 1,001st heading |
| `TextIndex.HeadingPlace` | packages/server/src/artifact-text-index.ts:285-324 | each heading names a real line and its content bytes, at least two of them |
| `TextIndex.IndexOf` | packages/server/src/artifact-text-index.ts:331-353 | every index has the canonical partition, distinct identifiers and headings within bounds whose bytes decode |
| `TextIndex.IndexWritten` | packages/server/src/artifact-text-index.ts:331-353 | every field of the index, and why there is none: size, then decoding, then the number of lines, then for Markdown the headings |
| `TextIndex.BuildArtifactTextIndex` | packages/server/src/artifact-text-index.ts:331-353 | builds that index or reports the exact error |
| `TextIndex.AssertConsistentIndex` | packages/server/src/artifact-text-index.ts:526-542 | accepts an index if and only if it is the rebuilt one |
| `TextIndex.LineRangeWritten` | packages/server/src/artifact-text-index.ts:562-576 | a line read goes ahead exactly for 1 to 200 lines that are all there, and which error comes first |
| `TextIndex.ReadIndexedLines` | packages/server/src/artifact-text-index.ts:562-589 | the text encodes exactly the requested records, or a bound of the profile stops the read |
| `TextIndex.AdjacentReads` | packages/server/src/artifact-text-index.ts:562-589 | adjacent reads concatenate to the combined read, as text |
| `TextIndex.ReadIndexedHeading` | packages/server/src/artifact-text-index.ts:592-609 | returns the bytes of the heading with that identifier, and refuses exactly unknown or oversized ones |
| `Covering.CoverGeometry` | packages/server/src/artifact-inspector.ts:1000-1012 | every in-bounds range of at most 8,192 bytes lies in its cover, which has at most 16,384 bytes and 9 chunks |
| `Covering.CoverBoundsAttained` | packages/server/src/artifact-inspector.ts:1004-1012 | both bounds are reached |
| `Covering.BuildAndVerifyCoveringChunks` | packages/server/src/artifact-inspector.ts:591-621 | succeeds exactly when every covering piece has the declared digests, and then lists the built proofs; nothing throws for a consistent manifest |
| `Covering.IntegrityAlwaysOk` | packages/contracts/src/artifact-inspection.ts:642-790 | every integrity object built over a cover that holds the returned range satisfies the whole schema |
| `Covering.PrefixAuthentic` | packages/server/src/artifact-inspector.ts:1043-1062 | chunk by chunk a verified cover is the source's own bytes, or a collision |
| `Covering.SliceAuthentic` | packages/server/src/artifact-inspector.ts:1061-1062 | the slice returned from a verified cover is the requested range of the source, or a collision |
| `Covering.HonestCover` | packages/server/src/artifact-inspector.ts:1043-1055 | any stretch of the true source passes verification |
| `Registry.BuildManifestFromRecord` | packages/server/src/artifact-inspector.ts:456-490 | rebuilds the manifest of a record, and fails exactly for mismatched hash lists |
| `Registry.RecordGeometry` | packages/server/src/artifact-inspector.ts:268-310 | a record that passes its schema always rebuilds a manifest of consistent geometry |
| `Registry.ValidateManifestConsistency` | packages/server/src/artifact-inspector.ts:503-526 | the delegated check accepts exactly the consistent manifests, the empty one included |
| `Registry.ResolveArtifact` | packages/server/src/artifact-inspector.ts:541-569 | null, malformed, foreign, expired and inconsistent records each end in their own outcome |
| `Answers.FrontWritten` | packages/server/src/artifact-inspector.ts:541-569 | from the context, the clock and the reply of the registry alone: the code, the calls and the evidence of a call that stops, and the session of one that goes on; a record is usable before it expires and at no instant from then on |
| `Evidence.SucceedExactly` | packages/contracts/src/artifact-inspection.ts:1145-1166 | for a validated session with a well-formed detail a success is answered exactly when the clock has a four-digit year, and is an internal error otherwise |
| `Formats.YearsWritten` | packages/contracts/src/artifact-inspection.ts:1145-1166 | the clock can be recorded exactly in the Gregorian years 0 to 9999, by counting days |
| `Evidence.FailClosedDisciplined` | packages/server/src/artifact-inspector.ts:741-766 | a closed failure leaves one event and at most one receipt of the same class |
| `Inspector.Begin` | packages/server/src/artifact-inspector.ts:955-974 | context, clock and resolution stop a call with the specified output and evidence, or admit it |
| `Inspector.FrontAdmits` | packages/server/src/artifact-inspector.ts:955-974 | an admitted call has a valid record of that artifact and a consistent manifest; a stopped one is disciplined |
| `Inspector.MetadataAlwaysOk` | packages/contracts/src/artifact-inspection.ts:487-550 | the metadata of a valid record always satisfies its schema |
| `Inspector.ArtifactStat` | packages/server/src/artifact-inspector.ts:802-920 | equals its specification, which has no schema exit, and keeps the evidence discipline without any read |
| `Answers.StatAnswered` | packages/server/src/artifact-inspector.ts:802-920 | a success has every field of the metadata from the resolved record, with one receipt and one event and no read; each cause of a refusal has its code and evidence |
| `Inspector.ArtifactReadRange` | packages/server/src/artifact-inspector.ts:926-1132 | equals its specification: the cover-size, chunk-count and schema exits are unreachable; its answers and refusals are written out in the next rows |
| `Answers.RangeAnswered` | packages/server/src/artifact-inspector.ts:926-1132 | a success has root, digests, sizes and every chunk entry from the resolved record, exactly the chunks that hold the range, and one read, one receipt and one event with their fields; each cause of a refusal before the read has its code and evidence |
| `Answers.RangeProven` | packages/server/src/artifact-inspector.ts:926-1132 | each chunk entry of a success is accepted by the verifier for the bytes of the source there, against the root in the same answer; or a collision |
| `Answers.RangeReadAnswered` | packages/server/src/artifact-inspector.ts:1013-1132 | the same from the read on: reply, digests, decoding, wire and clock, each with its code, receipt and event counts |
| `Inspector.RangeDisciplined` | packages/server/src/artifact-inspector.ts:926-1132 | one resolve and read at most, exactly one event, at most one receipt, and on success exactly one result receipt with the output's ranges and digest |
| `Inspector.RangeAuthentic` | packages/server/src/artifact-inspector.ts:926-1132 | the returned text encodes the requested bytes of any source the record describes, or a collision |
| `Inspector.StatServesExactly` | packages/server/src/artifact-inspector.ts:802-920 | over an honest registry metadata is answered exactly when its hashes can be given, it fits the wire and the clock can be recorded |
| `Inspector.RangeServesExactly` | packages/server/src/artifact-inspector.ts:926-1132 | over an honest registry and store a range is answered, with exactly its bytes, if and only if it is in bounds, decodes and fits the wire and the clock can be recorded |
| `InspectorWhole.ReadWhole` | packages/server/src/artifact-inspector.ts:1220-1258 | the complete read ends in the specified failure, or in bytes equal to what the manifest was built from with their index |
| `InspectorWhole.CoverWhole` | packages/server/src/artifact-inspector.ts:1359-1370 | covering proofs over a verified complete source never fail |
| `InspectorWhole.ReachSource` | packages/server/src/artifact-inspector.ts:1138-1258 | the checks before the text of lines, heading and search end in the specified outcome or at the verified and indexed source; the chunk-count exit of search is unreachable |
| `WholeAnswers.ReachedWritten` | packages/server/src/artifact-inspector.ts:1138-1258 | before the text: media type, empty source, size, reply, manifest and index, each with its code and evidence; else the call is at the bytes the store returned |
| `InspectorWhole.ReachedOk` | packages/server/src/artifact-inspector.ts:1138-1258 | a call that ends there is disciplined and has failed; one that goes on holds a valid record, verified bytes and their index |
| `InspectorWhole.ReachedHonest` | packages/server/src/artifact-inspector.ts:1138-1258 | over an honest registry and store exactly the sources of supported type and size that have an index are reached, and it is the true source |
| `Evidence.AnswerFacts` | packages/server/src/artifact-inspector.ts:1102-1132 | a candidate within its schema is answered with discipline, and returned if and only if the clock can be recorded and the response fits the wire |
| `InspectorText.ArtifactReadLines` | packages/server/src/artifact-inspector.ts:1138-1429 | equals its specification: covering failure, chunk count, oversize after the read and schema exits are unreachable, and so is the response limit past the end; its answers and refusals are written out in the next rows |
| `WholeAnswers.LinesAnswered` | packages/server/src/artifact-inspector.ts:1138-1429 | a success has every field from the request, the record and the bytes read, which have the recorded digest; its chunk entries are accepted for them against the root in the answer; one read, one receipt and one event with their fields; each cause of a refusal has its code and evidence |
| `InspectorText.PastEndFits` | packages/server/src/artifact-inspector.ts:1284-1311 | the past-end answer is within the response limit for every manifest and request, so that exit is unreachable |
| `InspectorText.LinesDisciplined` | packages/server/src/artifact-inspector.ts:1138-1429 | the evidence discipline for every line call |
| `InspectorText.LinesAuthentic` | packages/server/src/artifact-inspector.ts:1138-1429 | the returned text is exactly the requested lines, clipped at the end, of any source with the recorded digest, or a collision with it |
| `InspectorText.LinesServesExactly` | packages/server/src/artifact-inspector.ts:1138-1429 | over an honest registry and store lines are answered, with exactly their text, if and only if the source is indexable text of supported size, they fit one answer and the clock can be recorded |
| `InspectorHeading.ArtifactReadHeading` | packages/server/src/artifact-inspector.ts:1435-1622 | equals its specification, with the same unreachable exits; its answers and refusals are written out in the next rows |
| `WholeAnswers.HeadingAnswered` | packages/server/src/artifact-inspector.ts:1435-1622 | the same for a heading of the index of the bytes read; an unknown heading is unavailable |
| `InspectorHeading.HeadingDisciplined` | packages/server/src/artifact-inspector.ts:1435-1622 | the evidence discipline for every heading call |
| `InspectorHeading.HeadingAuthentic` | packages/server/src/artifact-inspector.ts:1435-1622 | the returned text is the heading line that the index of any source with the recorded digest names so, or a collision |
| `InspectorHeading.HeadingServesExactly` | packages/server/src/artifact-inspector.ts:1435-1622 | the same for headings: answered if and only if indexable Markdown has such a heading, its line fits one answer and the clock can be recorded |
| `Search.IndexOf` | packages/server/src/artifact-inspector.ts:1792-1793 | leftmost occurrence at or after an offset, -1 exactly when there is none |
| `Search.SearchExact` | packages/server/src/artifact-inspector.ts:1786-1811 | the hits are the leftmost-greedy disjoint occurrences on their lines, as many as asked for or all |
| `Search.HitsUnique` | packages/server/src/artifact-inspector.ts:1786-1811 | that definition has exactly one answer |
| `Search.ExhaustiveSearchIsMaximal` | packages/server/src/artifact-inspector.ts:1786-1811 | with fewer hits than asked for, every occurrence overlaps a hit and no disjoint family is larger |
| `Search.GreedyStaysAhead` | packages/server/src/artifact-inspector.ts:1786-1811 | the k-th hit is no later than the k-th member of any disjoint family |
| `InspectorSearch.EncodeScalarString` | packages/server/src/artifact-inspector.ts:108-129 | refuses exactly the strings with a lone surrogate, else gives their UTF-8 bytes; the re-decoding check never fails |
| `InspectorSearch.ArtifactSearchExact` | packages/server/src/artifact-inspector.ts:1628-1857 | equals its specification for the hits of the loop: chunk-count, proof and schema exits are unreachable; its answers and refusals are written out in the next rows |
| `WholeAnswers.SearchAnswered` | packages/server/src/artifact-inspector.ts:1628-1857 | a success has the hits of the row InspectorSearch.HitsAre, the fields of the integrity object, proofs accepted for the bytes read, the receipt of all hits and the event; each cause of a refusal has its code and evidence |
| `InspectorSearch.HitsAre` | packages/server/src/artifact-inspector.ts:1786-1811 | the hits of the loop as hits of the output: the query stands there, the line holds it, nothing was skipped |
| `InspectorSearch.SearchCandidateOk` | packages/contracts/src/artifact-inspection.ts:904-1008 | every search candidate satisfies the hit, order, distinctness and coverage refinements, and its receipt detail does too |
| `InspectorSearch.SearchDisciplined` | packages/server/src/artifact-inspector.ts:1628-1857 | the evidence discipline for every search call |
| `InspectorSearch.SearchAuthentic` | packages/server/src/artifact-inspector.ts:1628-1857 | the hits of a success are, for any source with the recorded digest, the places where the query stands, leftmost first, disjoint and with none left out, each with its range, digest, text and line; or a collision |
| `InspectorSearch.UnavailableWithReceiptExactly` | packages/server/src/artifact-inspector.ts:1706-1720 | an unavailable answer carries a receipt exactly for a search of an empty supported artifact |
| `InspectorSearch.EmptySearchLeavesReceipt` | packages/server/src/artifact-inspector.ts:1706-1720 | such a call, for every hash and context |
| `InspectorSearch.SearchServesExactly` | packages/server/src/artifact-inspector.ts:1628-1857 | the same for searches: answered, with the greedy hits, if and only if the source is nonempty indexable text of supported size, the answer fits the wire and the clock can be recorded |
| `InspectorGate.DisciplinedNeverTrips` | packages/server/src/artifact-mcp-registration.ts:369-377 | in every run whose actions carry out an inspector call an open gate never refuses it: no receipt, or one to append; a success always has one |
| `InspectorGate.ReturnedIsAcknowledged` | packages/server/src/artifact-mcp-registration.ts:469-502 | in every run whose actions carry out an inspector call, an own output that is returned is the call's, its receipt was acknowledged before, and exactly its receipt and event were released |
| `Json.ParseStringify` | packages/contracts/src/artifact-inspection.ts:310-310 | parsing a serialised value gives it back, member order included (string escapes of section 7 of RFC 8259) |
| `Formats.EscapeWritten` | packages/contracts/src/artifact-inspection.ts:310-310 | which units of a string have a two-unit escape, which a six-unit one in lower-case hexadecimal, and which stand for themselves |
| `ModelText.ModelTextRoundTrip` | packages/contracts/src/artifact-inspection.ts:309-317 | stripping the prefix and parsing recovers the output |
| `ModelText.ModelTextIsSafe` | packages/contracts/src/artifact-inspection.ts:303-317 | no listed confusing character remains and the marker occurs exactly once, at position 0 |
| `Formats.ShownUnchanged` | packages/contracts/src/artifact-inspection.ts:309-317 | a text without the marker and without confusing characters is shown as it is |
| `ModelText.PrefixesAreSafe` | packages/contracts/src/read-tools.ts:179-191 | both prefixes of the repository meet the condition of the previous row |
| `Wire.EmptyLinesFit` | packages/contracts/src/artifact-inspection.ts:319-358 | the JSON-RPC envelope of an output without data and with one proved chunk, measured in UTF-8 bytes, is within 65,536 |
| `Wire.PastEndMeasured` | packages/contracts/src/artifact-inspection.ts:319-358 | the computed wire response of every past-end answer is within 65,536 bytes |
| `Wire.ResponseAtLeast` | packages/contracts/src/artifact-inspection.ts:324-358 | every response is at least twice as long as the JSON of its output |
| `Wire.ControlTextExceeds` | packages/contracts/src/artifact-inspection.ts:351-358 | any range output whose data is 5,462 or more control characters without a short escape exceeds the limit |
| `CanonicalJson.CanonicalIsOrdered` | packages/server/src/artifact-receipt-journal.ts:61-74 | the recursion that joins members by sorted key is the plain serialisation of the value with every object put in key order |
| `Formats.CanonicalOrder` | packages/server/src/artifact-receipt-journal.ts:61-74 | the members of an object appear once each, by ascending key |
| `Formats.LessWritten` | packages/server/src/artifact-receipt-journal.ts:68-71 | keys compare by the first code unit that differs, a proper prefix first |
| `CanonicalJson.CanonicalIsExact` | packages/server/src/artifact-receipt-journal.ts:61-74 | two accepted values have equal canonical text if and only if they are equal apart from key order |
| `CanonicalJson.CanonicalBytesExact` | packages/server/src/artifact-receipt-journal.ts:76-85 | the same for the UTF-8 bytes that are hashed |
| `Base64.DecodeOfEncode` | packages/contracts/src/storage-bounds.ts:191-203 | decoding the encoding of section 4 of RFC 4648 is the identity, and every encoding matches the strict pattern |
| `Formats.EncodeWritten` | packages/contracts/src/storage-bounds.ts:191-203 | group k of an encoding is the group of bytes 3k to 3k+2, or of what is left there |
| `Formats.Quad3Written` | packages/contracts/src/storage-bounds.ts:191-203 | the four symbols of a group spell its 24-bit number, most significant first |
| `Base64.InlineBase64Exact` | packages/contracts/src/storage-bounds.ts:191-203 | accepted if and only if it is the canonical padded encoding of at most 32,768 bytes, with that length as result |
| `Base64.OversizedIsSizeExceeded` | packages/contracts/src/storage-bounds.ts:191-203 | the encoding of anything longer is refused for its size |
| `Containment.Evaluate` | packages/contracts/src/issue-2-authorized-write-containment.ts:86-138 | the nested loops with capped lists compute the specified decision |
| `Containment.AllowedExactly` | packages/contracts/src/issue-2-authorized-write-containment.ts:86-138 | allowed if and only if the input is valid and the writer's closure is contained in every reader's |
| `Containment.FlowsAreUnsafePairs` | packages/contracts/src/issue-2-authorized-write-containment.ts:98-128 | the uncapped diagnostics are exactly the unsafe pairs, each once, in input order |
| `Containment.DiagnosticsExact` | packages/contracts/src/issue-2-authorized-write-containment.ts:116-138 | visible plus omitted equals the number of unsafe pairs; the visible ones are the first in input order and describe their pairs |
| `Formats.DiagnosticsWritten` | packages/contracts/src/issue-2-authorized-write-containment.ts:98-138 | each visible diagnostic names the target and reader of its pair and lists the first 25 missing members, and the first 100 diagnostics are visible |
| `Containment.MissingCount` | packages/contracts/src/issue-2-authorized-write-containment.ts:100-114 | the number of missing members of a pair is the size of the set difference |
| `Containment.MissingInOrder` | packages/contracts/src/issue-2-authorized-write-containment.ts:100-114 | missing members are listed in the writer's order |

## Left out

- SHA-256 and hex text: the hash is a parameter and a digest field is its decoded bytes; a field that fails the 64-hex pattern is a byte string of another length.
- Numbers are their ECMAScript text, so the serialiser's number formatting is not modelled and the two zeros are one value.
- The 2,000 ms timer, `performance.now` and elapsed times: a deadline or an abort is a step that may come at any point; the two are one step because their effect is the same.
- Waiting is not bounded: safety of every run is proved, not that a run ends.
- JavaScript object hygiene (own keys, prototypes, accessors, frozen objects, cycles): values are immutable; a raw reply that fails such a check is one malformed case.
- The trusted context is valid or not as a whole; its identifier patterns are not spelled out.
- The timestamp `createdAt` of a record and the fields of the stat output that only copy it.
- NFC normalisation and lower-casing of heading text: an arbitrary function `norm`; full CommonMark: only the code's fence and heading rules.
- The timestamp text of a stat output is a parameter of the wire response: the model has times, not their text.
- The governor is modelled for one policy per process and with a clock that never goes back; a blank limiter record is allocated before it is known to be needed.
- The argument digest, row counting and error mapping tables of the read tools, beyond the class of the one event.
- Storage keys and prefixes, MIME types, bucket identifiers and the frozen closure manifest: easy members beside these.
- The fixed client, credential loading, startup, the command lines, memory and retrieval tools, authorization tables and leak scanning.
