/** Outputs, receipts, events and the calls an inspector operation makes, with the contract
    predicates of artifact-inspection.ts. */
module Evidence {
  import opened Hashing
  import opened Covering
  import opened HeadingIds
  import opened Registry
  import opened Utf8
  import Json
  import Utf16

  const MAX_ARTIFACT_RESPONSE_BYTES := 65_536
  const MAX_INLINE_CHUNK_HASHES := 64
  const MAX_SEARCH_HITS := 50
  const MAX_SEARCH_SNIPPET_LENGTH := 256

  datatype Code =
    | InvalidRequest | ResourceUnavailable | Unsupported | ResponseLimitExceeded
    | IntegrityFailure | DeadlineExceeded | InternalError

  datatype Operation = StatOp | RangeOp | LinesOp | HeadingOp | SearchOp

  datatype Context = Context(
    principalRef: string, inspectorClientRef: string, inspectorCapabilityRef: string, verifierAudience: string,
    policyVersion: string, deploymentGitCoordinate: string, requestCorrelationId: Option<string>)

  // ----- outputs -----

  datatype ChunkHashes = Inline(hashes: seq<Bytes>) | Reference(ref: string)

  datatype SourceMetadata = SourceMetadata(
    artifactId: string, objectVersionRef: string, sourceSha256: Bytes, byteLength: int, chunkSize: int, chunkCount: int,
    chunkHashes: ChunkHashes, merkleRoot: Bytes, media: Media, expiresAt: Option<int>)

  datatype SearchHit = SearchHit(
    matchRange: ByteRange, snippetRange: ByteRange, snippetSha256: Bytes, lineNumber: int, snippet: Json.Units)

  datatype Output =
    | Failure(code: Code)
    | StatResult(artifact: SourceMetadata)
    | RangeResult(data: Text, integrity: Integrity)
    | LinesResult(data: Text, returnedLineCount: int, integrity: Integrity)
    | HeadingResult(headingId: string, data: Text, integrity: Integrity)
    | SearchResult(hits: seq<SearchHit>, integrity: Integrity)

  function ClassOf(o: Output): Option<Code> { if o.Failure? then Some(o.code) else None }

  /** bindReturnedDataToIntegrity */
  predicate BindsData(h: Hash, data: Text, x: Integrity) {
    |Encode(data)| == x.returned.length && h(Encode(data)) == x.returnedByteSha256
  }

  predicate ChunkHashesOk(x: ChunkHashes) {
    match x
    case Inline(hashes) => |hashes| <= MAX_INLINE_CHUNK_HASHES && AllDigests(hashes)
    case Reference(ref) => OpaqueRef(ref, "chr_", 256)
  }

  /** SourceIntegrityMetadataSchema */
  predicate MetadataOk(x: SourceMetadata) {
    && ArtifactIdOk(x.artifactId) && VersionRefOk(x.objectVersionRef)
    && WellFormedDigest(x.sourceSha256) && WellFormedDigest(x.merkleRoot)
    && 0 <= x.byteLength && 1 <= x.chunkSize && 0 <= x.chunkCount && ChunkHashesOk(x.chunkHashes) && MediaOk(x.media)
    && if x.byteLength == 0 then x.chunkCount == 0 && x.chunkHashes == Inline([])
       else
         && 1 <= x.chunkCount
         && (x.chunkHashes.Inline? ==> |x.chunkHashes.hashes| == x.chunkCount)
         && x.chunkSize * (x.chunkCount - 1) + 1 <= x.byteLength <= x.chunkSize * x.chunkCount
  }

  /** ArtifactSearchHitSchema */
  predicate SearchHitOk(h: Hash, x: SearchHit) {
    var bytes := Encode(Utf16.CodePoints(x.snippet));
    && 0 <= x.matchRange.offset && 1 <= x.matchRange.length <= MAX_SEARCH_QUERY_LENGTH
    && ReturnedOk(x.snippetRange) && 1 <= x.snippetRange.length
    && WellFormedDigest(x.snippetSha256)
    && 1 <= x.lineNumber <= MAX_START_LINE && |x.snippet| <= MAX_SEARCH_SNIPPET_LENGTH
    && x.snippetRange.offset <= x.matchRange.offset
    && x.matchRange.offset + x.matchRange.length <= x.snippetRange.offset + x.snippetRange.length
    && |bytes| == x.snippetRange.length && h(bytes) == x.snippetSha256
  }

  predicate After(previous: SearchHit, current: SearchHit) {
    previous.snippetRange.offset + previous.snippetRange.length <= current.snippetRange.offset
  }

  /** ArtifactSearchExactSuccessSchema */
  predicate SearchOk(h: Hash, hits: seq<SearchHit>, x: Integrity) {
    && |hits| <= MAX_SEARCH_HITS && IntegrityOk(x)
    && (forall k :: 0 <= k < |hits| ==> SearchHitOk(h, hits[k]))
    && (forall k :: 1 <= k < |hits| ==> After(hits[k - 1], hits[k]))
    && (forall j, k :: 0 <= j < k < |hits| ==> hits[j].snippetRange != hits[k].snippetRange)
    && (forall k :: 0 <= k < |hits| ==> InCoverage(hits[k].snippetRange, x.verifiedChunks))
  }

  /** The output schemas, without the ceiling on the wire response. */
  predicate OutputOk(h: Hash, o: Output) {
    match o
    case Failure(_) => true
    case StatResult(artifact) => MetadataOk(artifact)
    case RangeResult(data, x) => IntegrityOk(x) && BindsData(h, data, x)
    case LinesResult(data, n, x) => 0 <= n <= MAX_LINE_COUNT && IntegrityOk(x) && BindsData(h, data, x)
    case HeadingResult(id, data, x) => HeadingIdOk(id) && IntegrityOk(x) && BindsData(h, data, x)
    case SearchResult(hits, x) => SearchOk(h, hits, x)
  }

  /** A one-chunk integrity object of a line request over a profile source. */
  ghost predicate OneChunk(x: Integrity) {
    && IntegrityFieldsOk(x) && x.requested.RequestedLines? && |x.verifiedChunks| == 1
    && |x.verifiedChunks[0].merkleProof| <= 12
    && x.startChunkIndex < 100_000_000 && x.endChunkIndex < 100_000_000 && x.returned.offset < 100_000_000
    && x.chunkSize < 100_000_000 && x.chunkCount < 100_000_000
    && x.verifiedChunks[0].chunkIndex < 100_000_000 && x.verifiedChunks[0].byteStart < 100_000_000
    && x.verifiedChunks[0].byteLength < 100_000_000
  }

  ghost predicate FitsEmptyLines(wire: Output -> nat) {
    forall x :: OneChunk(x) ==> wire(LinesResult([], 0, x)) <= MAX_ARTIFACT_RESPONSE_BYTES
  }

  /** The size of the complete wire response of an output, of which only this much is used: an answer
      without data and with one proved chunk is within the limit. */
  type WireSize = wire: Output -> nat | FitsEmptyLines(wire) witness _ => 0

  // ----- receipts -----

  datatype HitEvidence = HitEvidence(returned: ByteRange, returnedByteSha256: Bytes)

  datatype Detail =
    | StatDetail
    | RangeDetail(requested: ByteRange, returned: ByteRange, returnedByteSha256: Bytes)
    | LinesDetail(startLine: int, count: int, returned: ByteRange, returnedByteSha256: Bytes)
    | HeadingDetail(headingId: string, returned: ByteRange, returnedByteSha256: Bytes)
    | SearchDetail(queryLength: int, maxHits: int, returnedHits: seq<HitEvidence>)

  datatype Receipt = Receipt(
    context: Context, artifactId: string, objectVersionRef: string, sourceSha256: Bytes, merkleRoot: Bytes,
    media: Media, recordedAt: int, detail: Detail, errorClass: Option<Code>)

  predicate HitEvidenceOk(x: HitEvidence) {
    ReturnedOk(x.returned) && 1 <= x.returned.length && WellFormedDigest(x.returnedByteSha256)
  }

  predicate DetailOk(d: Detail) {
    match d
    case StatDetail => true
    case RangeDetail(requested, returned, sha256) =>
      RequestedOk(RequestedBytes(requested)) && ReturnedOk(returned) && WellFormedDigest(sha256)
    case LinesDetail(startLine, count, returned, sha256) =>
      RequestedOk(RequestedLines(startLine, count)) && ReturnedOk(returned) && WellFormedDigest(sha256)
    case HeadingDetail(headingId, returned, sha256) =>
      HeadingIdOk(headingId) && ReturnedOk(returned) && WellFormedDigest(sha256)
    case SearchDetail(queryLength, maxHits, hits) =>
      && 1 <= queryLength <= MAX_SEARCH_QUERY_LENGTH && 1 <= maxHits <= MAX_SEARCH_HITS && |hits| <= MAX_SEARCH_HITS
      && (forall k :: 0 <= k < |hits| ==> HitEvidenceOk(hits[k]))
      && (forall j, k :: 0 <= j < k < |hits| ==> hits[j].returned != hits[k].returned)
  }

  /** An instant whose ISO rendering has a four-digit year, in milliseconds since 1970. */
  predicate FourDigitYear(ms: int) { -62_167_219_200_000 <= ms <= 253_402_300_799_999 }

  /** ArtifactInspectionReceiptSchema */
  predicate ReceiptOk(r: Receipt) {
    && ArtifactIdOk(r.artifactId) && VersionRefOk(r.objectVersionRef)
    && WellFormedDigest(r.sourceSha256) && WellFormedDigest(r.merkleRoot)
    && FourDigitYear(r.recordedAt) && DetailOk(r.detail)
  }

  // ----- what a call does to its dependencies -----

  datatype Counts = Counts(requested: Option<int>, covering: Option<int>, returned: Option<int>)

  const NO_COUNTS := Counts(None, None, None)

  datatype Event = Event(operation: Operation, resultClass: Option<Code>, requestCorrelationId: Option<string>,
    counts: Counts)

  datatype Log = Log(resolves: seq<string>, fetches: seq<ReadCall>, receipts: seq<Receipt>, events: seq<Event>)

  const EMPTY_LOG := Log([], [], [], [])

  datatype Outcome = Outcome(output: Output, log: Log)

  /** A call that has resolved its artifact. */
  datatype Session = Session(op: Operation, context: Context, now: int, artifactId: string, record: Record, log: Log)

  function ReceiptFor(s: Session, detail: Detail, errorClass: Option<Code>): Receipt {
    Receipt(s.context, s.artifactId, s.record.objectVersionRef, s.record.sourceSha256, s.record.merkleRoot,
            s.record.media, s.now, detail, errorClass)
  }

  function EmitReceipt(log: Log, r: Receipt): Log {
    if ReceiptOk(r) then log.(receipts := log.receipts + [r]) else log
  }

  /** Emits the one event of the call and returns. */
  function Conclude(log: Log, op: Operation, correlation: Option<string>, output: Output, counts: Counts): Outcome {
    Outcome(output, log.(events := log.events + [Event(op, ClassOf(output), correlation, counts)]))
  }

  function ConcludeSession(s: Session, output: Output, counts: Counts): Outcome {
    Conclude(s.log, s.op, s.context.requestCorrelationId, output, counts)
  }

  function FailClosed(s: Session, detail: Detail, code: Code, counts: Counts): Outcome {
    ConcludeSession(s.(log := EmitReceipt(s.log, ReceiptFor(s, detail, Some(code)))), Failure(code), counts)
  }

  /** Success needs its receipt to be accepted by the receipt schema. */
  function Succeed(s: Session, detail: Detail, output: Output, counts: Counts, failureCounts: Counts): Outcome {
    var receipt := ReceiptFor(s, detail, None);
    if ReceiptOk(receipt) then ConcludeSession(s.(log := EmitReceipt(s.log, receipt)), output, counts)
    else ConcludeSession(s, Failure(InternalError), failureCounts)
  }

  // ----- the evidence discipline -----

  /** The receipt of a success says what the output says. */
  predicate Matches(detail: Detail, o: Output) {
    match o
    case Failure(_) => false
    case StatResult(_) => detail.StatDetail?
    case RangeResult(_, x) =>
      x.requested.RequestedBytes? && detail == RangeDetail(x.requested.range, x.returned, x.returnedByteSha256)
    case LinesResult(_, _, x) =>
      x.requested.RequestedLines?
        && detail == LinesDetail(x.requested.startLine, x.requested.count, x.returned, x.returnedByteSha256)
    case HeadingResult(id, _, x) =>
      x.requested == RequestedHeading(id) && detail == HeadingDetail(id, x.returned, x.returnedByteSha256)
    case SearchResult(hits, x) =>
      && detail.SearchDetail? && x.requested == RequestedSearch(detail.queryLength)
        && |detail.returnedHits| == |hits| <= detail.maxHits
      && forall k :: 0 <= k < |hits| ==>
        detail.returnedHits[k] == HitEvidence(hits[k].snippetRange, hits[k].snippetSha256)
  }

  /** One resolve and one read at most (none for stat), exactly one event that carries the class of
      the output, at most one receipt, of the same class; a success is within its schema and leaves
      exactly one result receipt that matches it. The deadline code belongs to the registration alone, and an
      unavailable artifact leaves no receipt (search excepted, see UnavailableWithReceiptExactly). */
  predicate Disciplined(h: Hash, op: Operation, o: Outcome) {
    && |o.log.resolves| <= 1 && |o.log.fetches| <= 1 && (op.StatOp? ==> o.log.fetches == [])
    && (o.log.fetches != [] || o.log.receipts != [] ==> o.log.resolves != [])
    && |o.log.events| == 1 && o.log.events[0].operation == op && o.log.events[0].resultClass == ClassOf(o.output)
    && |o.log.receipts| <= 1
    && (o.log.receipts != [] ==> ReceiptOk(o.log.receipts[0]) && o.log.receipts[0].errorClass == ClassOf(o.output))
    && OutputOk(h, o.output) && o.output != Failure(DeadlineExceeded)
    && (o.output == Failure(ResourceUnavailable) && !op.SearchOp? ==> o.log.receipts == [])
    && (!o.output.Failure? ==> o.log.receipts != [] && Matches(o.log.receipts[0].detail, o.output))
  }

  /** A session that has not yet reported anything. */
  predicate Fresh(s: Session) {
    && |s.log.resolves| == 1 && |s.log.fetches| <= 1 && (s.op.StatOp? ==> s.log.fetches == [])
    && s.log.receipts == [] && s.log.events == []
  }

  /** A validated session's receipt passes its schema exactly when its detail does and the clock
      reads a four-digit year. */
  lemma ReceiptOkExactly(s: Session, detail: Detail, errorClass: Option<Code>)
    requires ArtifactIdOk(s.artifactId) && RecordOk(s.record)
    ensures ReceiptOk(ReceiptFor(s, detail, errorClass)) <==> FourDigitYear(s.now) && DetailOk(detail)
  {
  }

  /** For a validated session whose receipt detail fits its schema, success depends on the clock alone. */
  lemma SucceedExactly(s: Session, detail: Detail, output: Output, counts: Counts, failureCounts: Counts)
    requires ArtifactIdOk(s.artifactId) && RecordOk(s.record) && DetailOk(detail) && !output.Failure?
    ensures Succeed(s, detail, output, counts, failureCounts).output == if FourDigitYear(s.now) then output
      else Failure(InternalError)
  {
    ReceiptOkExactly(s, detail, None);
  }

  lemma FailClosedOutput(s: Session, detail: Detail, code: Code, counts: Counts)
    ensures FailClosed(s, detail, code, counts).output == Failure(code)
  {
  }

  /** Failing before any receipt. */
  lemma ConcludeDisciplined(h: Hash, log: Log, op: Operation, correlation: Option<string>, code: Code, counts: Counts)
    requires |log.resolves| <= 1 && log.fetches == [] && log.receipts == [] && log.events == []
      && code != DeadlineExceeded
    ensures Disciplined(h, op, Conclude(log, op, correlation, Failure(code), counts))
  {
  }

  lemma FailClosedDisciplined(h: Hash, s: Session, detail: Detail, code: Code, counts: Counts)
    requires Fresh(s) && code != DeadlineExceeded && (code == ResourceUnavailable ==> s.op.SearchOp?)
    ensures Disciplined(h, s.op, FailClosed(s, detail, code, counts))
  {
  }

  lemma SucceedDisciplined(h: Hash, s: Session, detail: Detail, output: Output, counts: Counts, failureCounts: Counts)
    requires Fresh(s) && OutputOk(h, output) && Matches(detail, output)
    ensures Disciplined(h, s.op, Succeed(s, detail, output, counts, failureCounts))
  {
  }

  // ----- answering with a candidate -----

  /** What an operation is about to return: its output, the receipt detail and the event counts. */
  datatype Candidate = Candidate(output: Output, detail: Detail, counts: Counts, failureCounts: Counts)

  /** The end of every operation: the response is measured, then the receipt is left. The schema exit
      between the two does not occur. */
  function Answer(s: Session, wire: Output -> nat, c: Candidate, error: Detail, errorCounts: Counts): Outcome {
    if wire(c.output) > MAX_ARTIFACT_RESPONSE_BYTES then FailClosed(s, error, ResponseLimitExceeded, errorCounts)
    else Succeed(s, c.detail, c.output, c.counts, c.failureCounts)
  }

  method Send(h: Hash, s: Session, wire: Output -> nat, c: Candidate, error: Detail, errorCounts: Counts)
      returns (outcome: Outcome)
    requires OutputOk(h, c.output)
    ensures outcome == Answer(s, wire, c, error, errorCounts)
  {
    if wire(c.output) > MAX_ARTIFACT_RESPONSE_BYTES {
      return FailClosed(s, error, ResponseLimitExceeded, errorCounts);
    }
    if !OutputOk(h, c.output) { return FailClosed(s, error, InternalError, errorCounts); }
    return Succeed(s, c.detail, c.output, c.counts, c.failureCounts);
  }

  predicate CandidateOk(h: Hash, c: Candidate) {
    !c.output.Failure? && OutputOk(h, c.output) && DetailOk(c.detail) && Matches(c.detail, c.output)
  }

  /** A validated session that has not yet reported anything. */
  predicate Unreported(s: Session, op: Operation) {
    s.op == op && Fresh(s) && RecordOk(s.record) && ArtifactIdOk(s.artifactId)
  }

  /** When a candidate is returned: the clock can be recorded and the response fits the wire. */
  predicate Returnable(s: Session, wire: Output -> nat, o: Output) {
    FourDigitYear(s.now) && wire(o) <= MAX_ARTIFACT_RESPONSE_BYTES
  }

  /** A candidate within its schema is answered with discipline, and returned exactly when it is returnable. */
  lemma AnswerFacts(h: Hash, s: Session, wire: Output -> nat, c: Candidate, error: Detail, errorCounts: Counts)
    requires Unreported(s, s.op) && CandidateOk(h, c)
    ensures var o := Answer(s, wire, c, error, errorCounts);
      && Disciplined(h, s.op, o) && o.output != Failure(ResourceUnavailable)
      && (if Returnable(s, wire, c.output) then o.output == c.output else o.output.Failure?)
  {
    FailClosedDisciplined(h, s, error, ResponseLimitExceeded, errorCounts);
    SucceedDisciplined(h, s, c.detail, c.output, c.counts, c.failureCounts);
    hide OutputOk, DetailOk, Matches, Disciplined, RecordOk;
    SucceedExactly(s, c.detail, c.output, c.counts, c.failureCounts);
  }
}
