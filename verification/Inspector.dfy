/** Range and stat operations of artifact-inspector.ts, and the front they share with the others. */
module Inspector {
  import opened Hashing
  import opened ChunkManifest
  import opened Covering
  import opened Evidence
  import opened Headings
  import opened Registry
  import opened Utf8

  /** The injected dependencies, the hash, the heading normaliser and the size of the complete wire
      response, which module Wire computes. A clock that throws or is not finite reads None. */
  datatype Dependencies = Dependencies(
    h: Hash, norm: Normalizer, wire: WireSize, clock: Option<int>,
    resolve: string -> ResolveReply, read: ReadCall -> ReadReply)

  // ----- the front: context, clock and resolution -----

  datatype Front = Halt(outcome: Outcome) | Go(session: Session, manifest: Manifest)

  function Refuse(op: Operation): Outcome { Conclude(EMPTY_LOG, op, None, Failure(InvalidRequest), NO_COUNTS) }

  lemma RefuseDisciplined(h: Hash, op: Operation)
    ensures Disciplined(h, op, Refuse(op))
  {
  }

  /** `onInconsistent` is the receipt detail search leaves for a record whose manifest does not close. */
  function FrontOf(d: Dependencies, op: Operation, context: Option<Context>, artifactId: string, counts: Counts,
      onInconsistent: Option<Detail>): Front {
    if context.None? then Halt(Conclude(EMPTY_LOG, op, None, Failure(InternalError), counts))
    else if d.clock.None?
      then Halt(Conclude(EMPTY_LOG, op, context.value.requestCorrelationId, Failure(InternalError), counts))
    else
      var c := context.value;
      var log := EMPTY_LOG.(resolves := [artifactId]);
      match Resolution(d.h, d.resolve(artifactId), artifactId, d.clock.value)
      case Unavailable => Halt(Conclude(log, op, c.requestCorrelationId, Failure(ResourceUnavailable), counts))
      case Broken(r) =>
        if r.Some? && onInconsistent.Some? then
          Halt(FailClosed(Session(op, c, d.clock.value, artifactId, r.value, log), onInconsistent.value,
            IntegrityFailure, counts))
        else Halt(Conclude(log, op, c.requestCorrelationId, Failure(InternalError), counts))
      case Ready(record, manifest) => Go(Session(op, c, d.clock.value, artifactId, record, log), manifest)
  }

  /** What every operation may rely on once its front lets it through. */
  predicate Admitted(d: Dependencies, op: Operation, artifactId: string, s: Session, m: Manifest) {
    && s.op == op && s.artifactId == artifactId && RecordOk(s.record) && s.record.artifactId == artifactId
    && d.resolve(artifactId) == Found(s.record) && m == ManifestOfRecord(s.record) && Consistent(d.h, m)
    && s.log == EMPTY_LOG.(resolves := [artifactId])
  }

  lemma FrontAdmits(d: Dependencies, op: Operation, context: Option<Context>, artifactId: string, counts: Counts,
      onInconsistent: Option<Detail>)
    ensures match FrontOf(d, op, context, artifactId, counts, onInconsistent)
      case Go(s, m) => Admitted(d, op, artifactId, s, m)
      case Halt(outcome) => Disciplined(d.h, op, outcome) && outcome.output.Failure?
  {
    var f := FrontOf(d, op, context, artifactId, counts, onInconsistent);
    if context.None? {
      ConcludeDisciplined(d.h, EMPTY_LOG, op, None, InternalError, counts);
    } else if d.clock.None? {
      ConcludeDisciplined(d.h, EMPTY_LOG, op, context.value.requestCorrelationId, InternalError, counts);
    } else {
      var log := EMPTY_LOG.(resolves := [artifactId]);
      var r := Resolution(d.h, d.resolve(artifactId), artifactId, d.clock.value);
      match r
      case Unavailable => ConcludeDisciplined(d.h, log, op, context.value.requestCorrelationId, ResourceUnavailable,
        counts);
      case Broken(broken) =>
        if broken.Some? && onInconsistent.Some? {
          var s := Session(op, context.value, d.clock.value, artifactId, broken.value, log);
          FailClosedDisciplined(d.h, s, onInconsistent.value, IntegrityFailure, counts);
        } else {
          ConcludeDisciplined(d.h, log, op, context.value.requestCorrelationId, InternalError, counts);
        }
      case Ready(_, _) =>
    }
  }

  method Begin(d: Dependencies, op: Operation, context: Option<Context>, artifactId: string, counts: Counts,
      onInconsistent: Option<Detail>) returns (front: Front)
    ensures front == FrontOf(d, op, context, artifactId, counts, onInconsistent)
  {
    if context.None? { return Halt(Conclude(EMPTY_LOG, op, None, Failure(InternalError), counts)); }
    var c := context.value;
    if d.clock.None? { return Halt(Conclude(EMPTY_LOG, op, c.requestCorrelationId, Failure(InternalError), counts)); }
    var log := EMPTY_LOG.(resolves := [artifactId]);
    var resolved := ResolveArtifact(d.h, d.resolve(artifactId), artifactId, d.clock.value);
    match resolved
    case Unavailable => return Halt(Conclude(log, op, c.requestCorrelationId, Failure(ResourceUnavailable), counts));
    case Broken(r) =>
      if r.Some? && onInconsistent.Some? {
        return Halt(FailClosed(Session(op, c, d.clock.value, artifactId, r.value, log), onInconsistent.value,
          IntegrityFailure, counts));
      }
      return Halt(Conclude(log, op, c.requestCorrelationId, Failure(InternalError), counts));
    case Ready(record, manifest) => return Go(Session(op, c, d.clock.value, artifactId, record, log), manifest);
  }

  // ----- the one byte read -----

  function CallFor(s: Session, r: ByteRange): ReadCall { ReadCall(s.record.objectVersionRef, r.offset, r.length) }

  function Reading(s: Session, r: ByteRange): Session { s.(log := s.log.(fetches := s.log.fetches + [CallFor(s, r)])) }

  function FailureCode(f: ReadFailure): Code { if f.ReadBroken? then InternalError else IntegrityFailure }

  // ----- artifact_stat -----

  function StatMetadata(s: Session, hashes: ChunkHashes): SourceMetadata {
    var r := s.record;
    SourceMetadata(s.artifactId, r.objectVersionRef, r.sourceSha256, r.byteLength, r.chunkSize, r.chunkCount,
                   hashes, r.merkleRoot, r.media, r.expiresAt)
  }

  /** The chunk hashes of a record: inline up to 64, by reference above, if there is one. */
  function HashesOf(r: Record): Option<ChunkHashes> {
    if r.chunkCount <= MAX_INLINE_CHUNK_HASHES then Some(Inline(r.chunkSha256s))
    else match r.chunkHashesRef
      case None => None
      case Some(ref) => Some(Reference(ref))
  }

  function StatCandidate(s: Session, hashes: ChunkHashes): Candidate {
    Candidate(StatResult(StatMetadata(s, hashes)), StatDetail, NO_COUNTS, NO_COUNTS)
  }

  function StatSpec(d: Dependencies, context: Option<Context>, artifactId: string): Outcome {
    if !ArtifactIdOk(artifactId) then Refuse(StatOp)
    else
      match FrontOf(d, StatOp, context, artifactId, NO_COUNTS, None)
      case Halt(outcome) => outcome
      case Go(s, _) =>
        match HashesOf(s.record)
        case None => FailClosed(s, StatDetail, InternalError, NO_COUNTS)
        case Some(hashes) => Answer(s, d.wire, StatCandidate(s, hashes), StatDetail, NO_COUNTS)
  }

  /** Metadata of a valid record always satisfies its schema. */
  lemma MetadataAlwaysOk(s: Session, hashes: ChunkHashes)
    requires ArtifactIdOk(s.artifactId) && RecordOk(s.record) && HashesOf(s.record) == Some(hashes)
    ensures MetadataOk(StatMetadata(s, hashes))
  {
    var n, c, k := s.record.byteLength, s.record.chunkSize, s.record.chunkCount;
    CeilDivBounds(n, c);
    if n > 0 {
      ChunkStartInSource(n, c, k - 1);
    }
  }

  method ArtifactStat(d: Dependencies, context: Option<Context>, artifactId: string) returns (outcome: Outcome)
    ensures outcome == StatSpec(d, context, artifactId)
    ensures Disciplined(d.h, StatOp, outcome)
  {
    hide Consistent;
    if !ArtifactIdOk(artifactId) { return Refuse(StatOp); }
    var front := Begin(d, StatOp, context, artifactId, NO_COUNTS, None);
    FrontAdmits(d, StatOp, context, artifactId, NO_COUNTS, None);
    if front.Halt? { return front.outcome; }
    var s, m := front.session, front.manifest;
    var hashes := Reference("");
    if m.chunkCount <= MAX_INLINE_CHUNK_HASHES {
      hashes := Inline(s.record.chunkSha256s);
    } else if s.record.chunkHashesRef.None? {
      FailClosedDisciplined(d.h, s, StatDetail, InternalError, NO_COUNTS);
      return FailClosed(s, StatDetail, InternalError, NO_COUNTS);
    } else {
      hashes := Reference(s.record.chunkHashesRef.value);
    }
    MetadataAlwaysOk(s, hashes);
    AnswerFacts(d.h, s, d.wire, StatCandidate(s, hashes), StatDetail, NO_COUNTS);
    outcome := Send(d.h, s, d.wire, StatCandidate(s, hashes), StatDetail, NO_COUNTS);
  }

  // ----- artifact_read_range -----

  predicate RangeInputOk(artifactId: string, r: ByteRange) {
    ArtifactIdOk(artifactId) && RequestedOk(RequestedBytes(r))
  }

  function RangeCounts(r: ByteRange): Counts { Counts(Some(r.length), None, None) }

  function RangeError(h: Hash, r: ByteRange): Detail { RangeDetail(r, ByteRange(0, 0), h([])) }

  function CoverFor(m: Manifest, r: ByteRange): ByteRange
    requires m.chunkSize > 0
  {
    CoverRange(StartChunk(r, m.chunkSize), EndChunk(r, m.chunkSize), m.chunkSize, m.byteLength)
  }

  /** The bytes a cover holds for a range. */
  function Slice(cover: Bytes, base: int, r: ByteRange): Bytes {
    var from := r.offset - base;
    if 0 <= from <= from + r.length <= |cover| then cover[from..from + r.length] else []
  }

  function RangeOutput(h: Hash, m: Manifest, r: ByteRange, data: Text, bytes: Bytes): Output
    requires Consistent(h, m) && InBounds(r, m.byteLength)
  {
    RangeResult(data, IntegrityOfRange(h, m, RequestedBytes(r), r, h(bytes)))
  }

  /** The counts once the cover is verified. */
  function CoverCounts(m: Manifest, r: ByteRange): Counts
    requires m.chunkSize > 0
  {
    Counts(Some(r.length), Some(CoverFor(m, r).length), None)
  }

  function RangeCandidate(h: Hash, m: Manifest, r: ByteRange, data: Text, bytes: Bytes): Candidate
    requires Consistent(h, m) && InBounds(r, m.byteLength)
  {
    var counts := CoverCounts(m, r);
    Candidate(RangeOutput(h, m, r, data, bytes), RangeDetail(r, r, h(bytes)), counts.(returned := Some(r.length)),
      counts)
  }

  /** The answer to a verified slice. */
  function RangeAnswer(d: Dependencies, s: Session, m: Manifest, r: ByteRange, bytes: Bytes): Outcome
    requires Consistent(d.h, m) && InBounds(r, m.byteLength)
  {
    match Decode(bytes)
    case None => FailClosed(s, RangeError(d.h, r), Unsupported, CoverCounts(m, r))
    case Some(data) => Answer(s, d.wire, RangeCandidate(d.h, m, r, data, bytes), RangeError(d.h, r), CoverCounts(m, r))
  }

  function RangeTail(d: Dependencies, s: Session, m: Manifest, r: ByteRange, cover: Bytes): Outcome
    requires Consistent(d.h, m) && InBounds(r, m.byteLength)
  {
    CoverIsSmall(d.h, m, r);
    if !CoverMatches(d.h, m, StartChunk(r, m.chunkSize), EndChunk(r, m.chunkSize), cover, CoverFor(m, r).offset)
      then FailClosed(s, RangeError(d.h, r), IntegrityFailure, RangeCounts(r))
    else RangeAnswer(d, s, m, r, Slice(cover, CoverFor(m, r).offset, r))
  }

  /** The read and what follows it. The cover-size and chunk-count exits of the source do not occur. */
  function RangeRead(d: Dependencies, s: Session, m: Manifest, r: ByteRange): Outcome
    requires Consistent(d.h, m) && InBounds(r, m.byteLength)
  {
    var span := CoverFor(m, r);
    var t := Reading(s, span);
    match Fetch(CallFor(s, span), d.read(CallFor(s, span)))
    case Failed(f) => FailClosed(t, RangeError(d.h, r), FailureCode(f), RangeCounts(r))
    case Gone => ConcludeSession(t, Failure(ResourceUnavailable), RangeCounts(r))
    case Got(cover) => RangeTail(d, t, m, r, cover)
  }

  function RangeSpec(d: Dependencies, context: Option<Context>, artifactId: string, r: ByteRange): Outcome {
    if !RangeInputOk(artifactId, r) then Refuse(RangeOp)
    else
      FrontAdmits(d, RangeOp, context, artifactId, RangeCounts(r), None);
      match FrontOf(d, RangeOp, context, artifactId, RangeCounts(r), None)
      case Halt(outcome) => outcome
      case Go(s, m) =>
        if !InBounds(r, m.byteLength) then FailClosed(s, RangeError(d.h, r), IntegrityFailure, RangeCounts(r))
        else RangeRead(d, s, m, r)
  }

  /** A decoded slice of a verified cover satisfies the output schema and matches its receipt. */
  lemma RangeCandidateOk(h: Hash, m: Manifest, r: ByteRange, bytes: Bytes)
    requires Consistent(h, m) && InBounds(r, m.byteLength) && RequestedOk(RequestedBytes(r))
    requires |bytes| == r.length && Decode(bytes).Some?
    ensures var c := RangeCandidate(h, m, r, Decode(bytes).value, bytes);
      CandidateOk(h, c) && IsRange(c.output, r, bytes)
  {
    assert GeometryConsistent(m);
    hide Consistent, Decode, VerifiedRange, IntegrityFieldsOk;
    CoverGeometry(r, m.byteLength, m.chunkSize);
    IntegrityAlwaysOk(h, m, RequestedBytes(r), StartChunk(r, m.chunkSize), EndChunk(r, m.chunkSize), r, h(bytes));
    EncodeDecode(bytes);
  }

  /** When a range with these bytes is answered. */
  predicate BytesAnswerable(d: Dependencies, m: Manifest, r: ByteRange, bytes: Bytes, now: int)
    requires Consistent(d.h, m) && InBounds(r, m.byteLength)
  {
    && FourDigitYear(now) && Decode(bytes).Some?
    && d.wire(RangeOutput(d.h, m, r, Decode(bytes).value, bytes)) <= MAX_ARTIFACT_RESPONSE_BYTES
  }

  lemma RangeAnswerFacts(d: Dependencies, s: Session, m: Manifest, r: ByteRange, bytes: Bytes)
    requires Consistent(d.h, m) && InBounds(r, m.byteLength) && RequestedOk(RequestedBytes(r)) && |bytes| == r.length
    requires Unreported(s, RangeOp)
    ensures var o := RangeAnswer(d, s, m, r, bytes);
      && Disciplined(d.h, RangeOp, o)
      && (if BytesAnswerable(d, m, r, bytes, s.now) then IsRange(o.output, r, bytes) else o.output.Failure?)
  {
    assert m.chunkSize > 0;
    hide Consistent, RecordOk, Disciplined, Fresh, CandidateOk, IntegrityOfRange, FailClosed;
    FailClosedDisciplined(d.h, s, RangeError(d.h, r), Unsupported, CoverCounts(m, r));
    FailClosedOutput(s, RangeError(d.h, r), Unsupported, CoverCounts(m, r));
    if Decode(bytes).Some? {
      var c := RangeCandidate(d.h, m, r, Decode(bytes).value, bytes);
      RangeCandidateOk(d.h, m, r, bytes);
      AnswerFacts(d.h, s, d.wire, c, RangeError(d.h, r), CoverCounts(m, r));
    }
  }

  /** The output holds a range of the source. */
  predicate HoldsRange(source: Bytes, r: ByteRange, o: Output) {
    InBounds(r, |source|) && IsRange(o, r, Covered(source, r))
  }

  predicate IsRange(o: Output, r: ByteRange, bytes: Bytes) {
    o.RangeResult? && Encode(o.data) == bytes && o.integrity.returned == r
  }

  lemma RangeReadDisciplined(d: Dependencies, s: Session, m: Manifest, r: ByteRange)
    requires Consistent(d.h, m) && InBounds(r, m.byteLength) && RequestedOk(RequestedBytes(r))
    requires Unreported(s, RangeOp) && s.log.fetches == []
    ensures Disciplined(d.h, RangeOp, RangeRead(d, s, m, r))
  {
    assert AllowedChunkSize(m.chunkSize);
    hide Consistent, RangeAnswer, PieceMatches, FailClosed, RecordOk;
    CoverGeometry(r, m.byteLength, m.chunkSize);
    var span := CoverFor(m, r);
    var t, f := Reading(s, span), Fetch(CallFor(s, span), d.read(CallFor(s, span)));
    if f.Failed? {
      FailClosedDisciplined(d.h, t, RangeError(d.h, r), FailureCode(f.failure), RangeCounts(r));
    } else if f.Got? {
      FailClosedDisciplined(d.h, t, RangeError(d.h, r), IntegrityFailure, RangeCounts(r));
      RangeAnswerFacts(d, t, m, r, Slice(f.bytes, span.offset, r));
    }
  }

  /** Every range call keeps the evidence discipline. */
  lemma RangeDisciplined(d: Dependencies, context: Option<Context>, artifactId: string, r: ByteRange)
    ensures Disciplined(d.h, RangeOp, RangeSpec(d, context, artifactId, r))
  {
    hide FrontOf, RangeRead, FailClosed, Consistent, ManifestOfRecord;
    if RangeInputOk(artifactId, r) {
      FrontAdmits(d, RangeOp, context, artifactId, RangeCounts(r), None);
      var front := FrontOf(d, RangeOp, context, artifactId, RangeCounts(r), None);
      if front.Go? {
        FailClosedDisciplined(d.h, front.session, RangeError(d.h, r), IntegrityFailure, RangeCounts(r));
        if InBounds(r, front.manifest.byteLength) {
          RangeReadDisciplined(d, front.session, front.manifest, r);
        }
      }
    }
  }

  method ArtifactReadRange(d: Dependencies, context: Option<Context>, artifactId: string, r: ByteRange)
      returns (outcome: Outcome)
    ensures outcome == RangeSpec(d, context, artifactId, r)
  {
    hide RangeRead, FailClosed, FrontOf, Disciplined, Consistent;
    if !RangeInputOk(artifactId, r) { return Refuse(RangeOp); }
    var front := Begin(d, RangeOp, context, artifactId, RangeCounts(r), None);
    FrontAdmits(d, RangeOp, context, artifactId, RangeCounts(r), None);
    if front.Halt? { return front.outcome; }
    var s, m := front.session, front.manifest;
    if r.offset >= s.record.byteLength || r.offset + r.length > s.record.byteLength {
      return FailClosed(s, RangeError(d.h, r), IntegrityFailure, RangeCounts(r));
    }
    outcome := ReadCover(d, s, m, r);
  }

  /** The covering arithmetic of the source. */
  method CoverOf(m: Manifest, r: ByteRange) returns (start: int, end: int, span: ByteRange)
    requires m.chunkSize > 0
    ensures start == StartChunk(r, m.chunkSize) && end == EndChunk(r, m.chunkSize) && span == CoverFor(m, r)
  {
    start := r.offset / m.chunkSize;
    end := (r.offset + r.length - 1) / m.chunkSize;
    var coveringOffset := start * m.chunkSize;
    var coveringEnd := Min((end + 1) * m.chunkSize, m.byteLength);
    span := ByteRange(coveringOffset, coveringEnd - coveringOffset);
  }

  lemma CoverIsSmall(h: Hash, m: Manifest, r: ByteRange)
    requires Consistent(h, m) && InBounds(r, m.byteLength)
    ensures m.chunkSize > 0 && 0 <= StartChunk(r, m.chunkSize) <= EndChunk(r, m.chunkSize) < m.chunkCount
    ensures EndChunk(r, m.chunkSize) - StartChunk(r, m.chunkSize) < MAX_VERIFIED_CHUNKS_PER_READ
    ensures var span := CoverFor(m, r);
      && 0 <= span.offset <= r.offset && r.offset + r.length <= span.offset + span.length <= m.byteLength
      && span.length <= MAX_COVERING_FETCH_BYTES
  {
    CoverGeometry(r, m.byteLength, m.chunkSize);
  }

  method ReadCover(d: Dependencies, s: Session, m: Manifest, r: ByteRange) returns (outcome: Outcome)
    requires Consistent(d.h, m) && InBounds(r, m.byteLength) && RequestedOk(RequestedBytes(r))
    ensures outcome == RangeRead(d, s, m, r)
  {
    CoverIsSmall(d.h, m, r);
    hide RangeTail, Consistent, VersionRefOk, FailClosed, CoverFor, StartChunk, EndChunk;
    var startChunkIndex, endChunkIndex, span := CoverOf(m, r);
    if span.length > MAX_COVERING_FETCH_BYTES {
      return FailClosed(s, RangeError(d.h, r), ResponseLimitExceeded, RangeCounts(r));
    }
    var call := CallFor(s, span);
    var t := Reading(s, span);
    var fetched := Fetch(call, d.read(call));
    match fetched
    case Failed(f) => return FailClosed(t, RangeError(d.h, r), FailureCode(f), RangeCounts(r));
    case Gone => return ConcludeSession(t, Failure(ResourceUnavailable), RangeCounts(r));
    case Got(cover) => outcome := VerifyCover(d, t, m, r, cover, startChunkIndex, endChunkIndex, span);
  }

  method VerifyCover(d: Dependencies, s: Session, m: Manifest, r: ByteRange, cover: Bytes, start: int, end: int,
      span: ByteRange) returns (outcome: Outcome)
    requires Consistent(d.h, m) && InBounds(r, m.byteLength) && RequestedOk(RequestedBytes(r)) && |cover| == span.length
    requires start == StartChunk(r, m.chunkSize) && end == EndChunk(r, m.chunkSize) && span == CoverFor(m, r)
    ensures outcome == RangeTail(d, s, m, r, cover)
  {
    CoverIsSmall(d.h, m, r);
    hide RangeAnswer, Consistent, CoverMatches, FailClosed, CoverFor, StartChunk, EndChunk;
    var verified := BuildAndVerifyCoveringChunks(d.h, m, start, end, cover, span.offset);
    if verified.None? { return FailClosed(s, RangeError(d.h, r), IntegrityFailure, RangeCounts(r)); }
    if |verified.value| > MAX_VERIFIED_CHUNKS_PER_READ {
      return FailClosed(s, RangeError(d.h, r), ResponseLimitExceeded, RangeCounts(r));
    }
    var from := r.offset - span.offset;
    outcome := AnswerRange(d, s, m, r, cover[from..from + r.length], verified.value, span);
  }

  method AnswerRange(d: Dependencies, s: Session, m: Manifest, r: ByteRange, bytes: Bytes,
      verified: seq<VerifiedChunk>, span: ByteRange) returns (outcome: Outcome)
    requires Consistent(d.h, m) && InBounds(r, m.byteLength) && RequestedOk(RequestedBytes(r)) && |bytes| == r.length
    requires 0 <= StartChunk(r, m.chunkSize) <= EndChunk(r, m.chunkSize) < m.chunkCount
    requires verified == VerifiedRange(d.h, m, StartChunk(r, m.chunkSize), EndChunk(r, m.chunkSize))
      && span == CoverFor(m, r)
    ensures outcome == RangeAnswer(d, s, m, r, bytes)
  {
    hide Decode, VerifiedRange, FailClosed, Succeed, OutputOk, DetailOk, Matches;
    var counts := Counts(Some(r.length), Some(span.length), None);
    var data := Decode(bytes);
    if data.None? { return FailClosed(s, RangeError(d.h, r), Unsupported, counts); }
    var sha256 := d.h(bytes);
    var output := RangeResult(data.value,
      Integrity(RequestedBytes(r), StartChunk(r, m.chunkSize), EndChunk(r, m.chunkSize), r, m.chunkSize, m.chunkCount,
                verified, m.merkleRoot, sha256, m.sourceSha256));
    RangeCandidateOk(d.h, m, r, bytes);
    var candidate := Candidate(output, RangeDetail(r, r, sha256), counts.(returned := Some(r.length)), counts);
    outcome := Send(d.h, s, d.wire, candidate, RangeError(d.h, r), counts);
  }

  lemma RangeReadAuthentic(d: Dependencies, s: Session, m: Manifest, r: ByteRange, source: Bytes)
      returns (x: Bytes, y: Bytes)
    requires Describes(d.h, m, source) && InBounds(r, m.byteLength) && RequestedOk(RequestedBytes(r))
    requires Unreported(s, RangeOp) && s.log.fetches == [] && !RangeRead(d, s, m, r).output.Failure?
    ensures var o := RangeRead(d, s, m, r).output;
      o.RangeResult? && (Collision(d.h, x, y) || Encode(o.data) == Covered(source, r))
  {
    hide Decode, RangeAnswer, PieceMatches, RecordOk, BytesAnswerable, Disciplined;
    var span := CoverFor(m, r);
    var cover := Fetch(CallFor(s, span), d.read(CallFor(s, span))).bytes;
    CoverGeometry(r, m.byteLength, m.chunkSize);
    x, y := SliceAuthentic(d.h, m, source, r, cover);
    RangeAnswerFacts(d, Reading(s, span), m, r, Slice(cover, span.offset, r));
  }

  /** End to end: the text of a successful range read encodes exactly the requested bytes of any
      source the registry record describes, or two messages with one digest are in hand. */
  lemma RangeAuthentic(d: Dependencies, context: Option<Context>, artifactId: string, r: ByteRange, source: Bytes)
      returns (x: Bytes, y: Bytes)
    requires !RangeSpec(d, context, artifactId, r).output.Failure?
    requires var reply := d.resolve(artifactId);
      reply.Found? && RecordOk(reply.record) && Describes(d.h, ManifestOfRecord(reply.record), source)
    ensures RangeSpec(d, context, artifactId, r).output.RangeResult? && InBounds(r, |source|)
    ensures Collision(d.h, x, y) || Encode(RangeSpec(d, context, artifactId, r).output.data) == Covered(source, r)
  {
    hide RangeRead, Describes;
    FrontAdmits(d, RangeOp, context, artifactId, RangeCounts(r), None);
    var front := FrontOf(d, RangeOp, context, artifactId, RangeCounts(r), None);
    DescribedLength(d.h, front.manifest, source);
    x, y := RangeReadAuthentic(d, front.session, front.manifest, r, source);
  }

  lemma DescribedLength(h: Hash, m: Manifest, source: Bytes)
    requires Describes(h, m, source)
    ensures m.byteLength == |source|
  {
  }

  // ----- exactly when a call over an honest registry and store succeeds -----

  /** The store returns the source's bytes under the recorded version. */
  predicate HonestRead(d: Dependencies, record: Record, source: Bytes, call: ReadCall) {
    call.objectVersionRef == record.objectVersionRef && 0 <= call.offset && 0 <= call.length
      && call.offset + call.length <= |source|
    ==> d.read(call) == Read(source[call.offset..call.offset + call.length], record.objectVersionRef)
  }

  ghost predicate HonestStore(d: Dependencies, record: Record, source: Bytes) {
    forall call :: HonestRead(d, record, source, call)
  }

  /** The registry has an unexpired record of exactly this source, the store serves it, and the
      context and the clock are usable. */
  ghost predicate Honest(d: Dependencies, context: Option<Context>, artifactId: string, source: Bytes) {
    && ArtifactIdOk(artifactId) && context.Some? && d.clock.Some?
    && var reply := d.resolve(artifactId);
    && reply.Found? && RecordOk(reply.record) && reply.record.artifactId == artifactId
      && !Expired(reply.record.expiresAt, d.clock.value)
    && ManifestOfRecord(reply.record) == ManifestOf(d.h, source, reply.record.chunkSize)
    && HonestStore(d, reply.record, source)
  }

  /** A session over the true source. */
  ghost predicate TrueSession(d: Dependencies, s: Session, m: Manifest, source: Bytes) {
    && RecordOk(s.record) && ArtifactIdOk(s.artifactId) && HonestStore(d, s.record, source)
      && s.record.byteLength == |source|
    && BuildError(source, m.chunkSize).None? && m == ManifestOf(d.h, source, m.chunkSize) && Consistent(d.h, m)
  }

  lemma HonestFront(d: Dependencies, op: Operation, context: Option<Context>, artifactId: string, counts: Counts,
      onInconsistent: Option<Detail>, source: Bytes)
    requires Honest(d, context, artifactId, source)
    ensures var f := FrontOf(d, op, context, artifactId, counts, onInconsistent);
      && f.Go? && TrueSession(d, f.session, f.manifest, source)
      && f.session.record == d.resolve(artifactId).record && f.session.now == d.clock.value
      && f.manifest == ManifestOfRecord(f.session.record)
  {
    var r := d.resolve(artifactId).record;
    hide Consistent, EntryFor;
    BuiltIsConsistent(d.h, source, r.chunkSize);
  }

  /** When the metadata of an artifact is answered. */
  ghost predicate StatAnswerable(d: Dependencies, s: Session) {
    var hashes := HashesOf(s.record);
    hashes.Some? && Returnable(s, d.wire, StatResult(StatMetadata(s, hashes.value)))
  }

  lemma StatServesExactly(d: Dependencies, context: Option<Context>, artifactId: string, source: Bytes)
    requires Honest(d, context, artifactId, source)
    ensures var f := FrontOf(d, StatOp, context, artifactId, NO_COUNTS, None);
      f.Go? && (StatSpec(d, context, artifactId).output.StatResult? <==> StatAnswerable(d, f.session))
  {
    HonestFront(d, StatOp, context, artifactId, NO_COUNTS, None, source);
    FrontAdmits(d, StatOp, context, artifactId, NO_COUNTS, None);
    var s := FrontOf(d, StatOp, context, artifactId, NO_COUNTS, None).session;
    hide FrontOf, Honest, Answer, Consistent, ManifestOfRecord, Disciplined;
    var hashes := HashesOf(s.record);
    if hashes.Some? {
      MetadataAlwaysOk(s, hashes.value);
      AnswerFacts(d.h, s, d.wire, StatCandidate(s, hashes.value), StatDetail, NO_COUNTS);
    }
  }

  /** When a range of a source is answered: it is in bounds, decodes and fits the wire, and the clock
      can be recorded. */
  ghost predicate RangeAnswerable(d: Dependencies, artifactId: string, r: ByteRange, source: Bytes) {
    match (d.resolve(artifactId), d.clock)
    case (Found(record), Some(now)) => RecordOk(record) && RangeFits(d, ManifestOfRecord(record), r, source, now)
    case _ => false
  }

  ghost predicate RangeFits(d: Dependencies, m: Manifest, r: ByteRange, source: Bytes, now: int) {
    && Consistent(d.h, m) && m.byteLength == |source| && InBounds(r, |source|)
    && BytesAnswerable(d, m, r, Covered(source, r), now)
  }

  /** Over an honest registry and store a range read succeeds exactly then, with exactly those bytes. */
  lemma RangeServesExactly(d: Dependencies, context: Option<Context>, artifactId: string, r: ByteRange, source: Bytes)
    requires Honest(d, context, artifactId, source) && RangeInputOk(artifactId, r)
    ensures var o := RangeSpec(d, context, artifactId, r).output;
      if RangeAnswerable(d, artifactId, r, source) then HoldsRange(source, r, o) else o.Failure?
  {
    HonestFront(d, RangeOp, context, artifactId, RangeCounts(r), None, source);
    FrontAdmits(d, RangeOp, context, artifactId, RangeCounts(r), None);
    var f := FrontOf(d, RangeOp, context, artifactId, RangeCounts(r), None);
    hide FrontOf, Honest, RangeRead, Consistent, BytesAnswerable;
    if InBounds(r, |source|) {
      RangeReadServes(d, f.session, f.manifest, r, source);
    }
  }

  lemma RangeReadServes(d: Dependencies, s: Session, m: Manifest, r: ByteRange, source: Bytes)
    requires TrueSession(d, s, m, source) && InBounds(r, m.byteLength) && RequestedOk(RequestedBytes(r))
    requires Unreported(s, RangeOp) && s.log.fetches == []
    ensures var o := RangeRead(d, s, m, r).output;
      if RangeFits(d, m, r, source, s.now) then HoldsRange(source, r, o) else o.Failure?
  {
    var span := CoverFor(m, r);
    HonestSlice(d.h, m, r, source);
    assert HonestRead(d, s.record, source, CallFor(s, span));
    HonestFetch(d, s, source, span);
    hide RangeAnswer, Consistent, Decode, BytesAnswerable, CoverFor, Fetch, RecordOk, Disciplined, CoverMatches;
    RangeAnswerFacts(d, Reading(s, span), m, r, Covered(source, r));
  }

  lemma HonestFetch(d: Dependencies, s: Session, source: Bytes, span: ByteRange)
    requires RecordOk(s.record) && 0 <= span.offset && 0 <= span.length && span.offset + span.length <= |source|
    requires HonestRead(d, s.record, source, CallFor(s, span))
    ensures Fetch(CallFor(s, span), d.read(CallFor(s, span))) == Got(Covered(source, span))
  {
  }

  /** The cover of an honest read matches its manifest and holds the requested bytes. */
  lemma HonestSlice(h: Hash, m: Manifest, r: ByteRange, source: Bytes)
    requires BuildError(source, m.chunkSize).None? && m == ManifestOf(h, source, m.chunkSize)
      && InBounds(r, m.byteLength)
    ensures var span := CoverFor(m, r);
      && 0 <= span.offset && 0 <= span.length && span.offset + span.length <= |source|
      && 0 <= StartChunk(r, m.chunkSize) <= EndChunk(r, m.chunkSize) < |m.chunks|
      && CoverMatches(h, m, StartChunk(r, m.chunkSize), EndChunk(r, m.chunkSize), Covered(source, span), span.offset)
      && Slice(Covered(source, span), span.offset, r) == Covered(source, r)
  {
    var span := CoverFor(m, r);
    CoverGeometry(r, m.byteLength, m.chunkSize);
    var start, end := StartChunk(r, m.chunkSize), EndChunk(r, m.chunkSize);
    assert span == CoverRange(start, end, m.chunkSize, m.byteLength) && m.chunkCount == |m.chunks|;
    hide CoverFor, CoverRange, StartChunk, EndChunk, CeilDiv, CoverMatches, EntryFor;
    HonestCover(h, m, source, StartChunk(r, m.chunkSize), EndChunk(r, m.chunkSize), span.offset, Covered(source, span));
    SliceOfSlice(source, span.offset, span.length, r);
  }
}
