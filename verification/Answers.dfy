/** The answers of the five operations written out: every field of an output, of its receipt and of its
    event, from the registry record, the call and the source. */
module Answers {
  import opened Hashing
  import opened ChunkManifest
  import opened Covering
  import opened Evidence
  import opened Inspector
  import opened Registry
  import opened Utf8
  import Merkle

  // ----- integrity objects -----

  /** What an integrity object says of its artifact is what the registry records, chunk by chunk. */
  predicate AsRecorded(x: Integrity, r: Record) {
    && x.merkleRoot == r.merkleRoot && x.sourceSha256 == r.sourceSha256
    && x.chunkSize == r.chunkSize && x.chunkCount == r.chunkCount
    && 0 <= x.startChunkIndex <= x.endChunkIndex < |r.chunkSha256s|
    && |x.verifiedChunks| == x.endChunkIndex - x.startChunkIndex + 1
    && forall k :: 0 <= k < |x.verifiedChunks| ==> EntryRecorded(x.verifiedChunks[k], x.startChunkIndex + k, r)
  }

  predicate EntryRecorded(v: VerifiedChunk, i: int, r: Record) {
    && 0 <= i < |r.chunkSha256s| && v.chunkIndex == i && v.chunkSha256 == r.chunkSha256s[i]
    && v.byteStart == i * r.chunkSize
    && v.byteLength == (if i == r.chunkCount - 1 then r.byteLength - i * r.chunkSize else r.chunkSize)
  }

  /** The chunks are those that hold bytes first to last, and no others. */
  predicate ChunksOf(x: Integrity, first: int, last: int) {
    && x.startChunkIndex * x.chunkSize <= first < x.startChunkIndex * x.chunkSize + x.chunkSize
    && x.endChunkIndex * x.chunkSize <= last < x.endChunkIndex * x.chunkSize + x.chunkSize
  }

  /** The proof a reader who holds the bytes of an entry puts together from the integrity object. */
  function Presented(h: Hash, x: Integrity, length: int, v: VerifiedChunk, chunk: Bytes): ChunkProof {
    ChunkProof(PROFILE_VERSION, x.sourceSha256, length, x.chunkSize, x.chunkCount, v.chunkIndex, v.byteStart,
               v.byteLength, v.chunkSha256, h([0] + chunk), v.merkleProof)
  }

  /** The verifier accepts the entry, for the bytes of the source there, against the root beside it. */
  predicate Proven(h: Hash, x: Integrity, v: VerifiedChunk, source: Bytes) {
    && 0 <= v.byteStart <= v.byteStart + v.byteLength <= |source|
    && var chunk := source[v.byteStart..v.byteStart + v.byteLength];
       var p := Presented(h, x, |source|, v, chunk);
    && ProofShapeConsistent(p) && ProofAccepts(h, chunk, p, x.merkleRoot)
  }

  predicate AllProven(h: Hash, x: Integrity, source: Bytes) {
    forall k :: 0 <= k < |x.verifiedChunks| ==> Proven(h, x, x.verifiedChunks[k], source)
  }

  lemma EntryWritten(h: Hash, r: Record, i: nat)
    requires RecordOk(r) && i < r.chunkCount && Consistent(h, ManifestOfRecord(r))
    ensures EntryRecorded(VerifiedOf(h, ManifestOfRecord(r), i), i, r)
  {
    ProofWritten(h, ManifestOfRecord(r), i);
    hide RecordOk, Consistent;
  }

  lemma IntegrityRecorded(h: Hash, r: Record, requested: RequestedRange, start: nat, end: nat, returned: ByteRange,
      sha256: Digest)
    requires RecordOk(r) && Consistent(h, ManifestOfRecord(r)) && start <= end < r.chunkCount
    ensures AsRecorded(IntegrityFor(h, ManifestOfRecord(r), requested, start, end, returned, sha256), r)
  {
    assert |r.chunkSha256s| == r.chunkCount;
    hide Consistent, VerifiedOf, EntryRecorded, RecordOk;
    forall i: nat | i < r.chunkCount
      ensures EntryRecorded(VerifiedOf(h, ManifestOfRecord(r), i), i, r)
    {
      EntryWritten(h, r, i);
    }
  }

  lemma EntryProven(h: Hash, m: Manifest, x: Integrity, i: nat, source: Bytes)
    requires Consistent(h, m) && m.profileVersion == PROFILE_VERSION && m.byteLength == |source| && i < m.chunkCount
    requires x.sourceSha256 == m.sourceSha256 && x.merkleRoot == m.merkleRoot
      && x.chunkSize == m.chunkSize && x.chunkCount == m.chunkCount
    requires PieceMatches(h, m, i, source, 0)
    ensures Proven(h, x, VerifiedOf(h, m, i), source)
  {
    hide ProofShapeConsistent, ProofAccepts, CeilDiv, Merkle.Root, Merkle.ProofFor, Leaves, EntryConsistent;
    PieceBounds(m, i, i, i);
    var piece := Piece(m, i, source, 0);
    ProofComplete(h, m, i, piece);
    ProofWritten(h, m, i);
    hide Consistent, ProofOf, LeafDigest;
    var v := VerifiedOf(h, m, i);
    assert piece == source[v.byteStart..v.byteStart + v.byteLength];
    assert Presented(h, x, |source|, v, piece) == ProofOf(h, m, i);
  }

  // ----- evidence -----

  /** The receipt says who asked for which artifact when, and which version the registry had. */
  predicate Attests(t: Receipt, c: Context, now: int, artifactId: string, r: Record) {
    && t.context == c && t.recordedAt == now && t.artifactId == artifactId
    && t.objectVersionRef == r.objectVersionRef && t.sourceSha256 == r.sourceSha256
    && t.merkleRoot == r.merkleRoot && t.media == r.media
  }

  /** The log of a success: what was resolved and read, one result receipt and one success event. */
  predicate Evidenced(log: Log, op: Operation, c: Context, now: int, artifactId: string, r: Record,
      fetches: seq<ReadCall>, detail: Detail, counts: Counts) {
    && log.resolves == [artifactId] && log.fetches == fetches
    && |log.receipts| == 1 && Attests(log.receipts[0], c, now, artifactId, r)
    && log.receipts[0].detail == detail && log.receipts[0].errorClass == None
    && log.events == [Event(op, None, c.requestCorrelationId, counts)]
  }

  /** The log of a failure over a resolved record: one event with the class of the failure, and, but
      for an unavailable artifact, a receipt of that class with nothing returned, if the clock can be
      recorded. */
  predicate Blamed(o: Outcome, op: Operation, c: Context, now: int, artifactId: string, r: Record, error: Detail) {
    && o.output.Failure? && o.log.resolves == [artifactId] && |o.log.receipts| <= 1
    && (forall t <- o.log.receipts ::
      Attests(t, c, now, artifactId, r) && t.detail == error && t.errorClass == Some(o.output.code))
    && (o.output.code != ResourceUnavailable ==> (o.log.receipts != [] <==> FourDigitYear(now)))
    && |o.log.events| == 1 && o.log.events[0].operation == op && o.log.events[0].resultClass == Some(o.output.code)
      && o.log.events[0].requestCorrelationId == c.requestCorrelationId
  }

  predicate BlamedFor(s: Session, o: Outcome, error: Detail) {
    Blamed(o, s.op, s.context, s.now, s.artifactId, s.record, error)
  }

  predicate EvidencedFor(s: Session, log: Log, detail: Detail, counts: Counts) {
    Evidenced(log, s.op, s.context, s.now, s.artifactId, s.record, s.log.fetches, detail, counts)
  }

  /** A session about its own artifact, with nothing reported yet. */
  predicate Silent(s: Session) {
    && s.log.resolves == [s.artifactId] && s.log.receipts == [] && s.log.events == []
    && ArtifactIdOk(s.artifactId) && RecordOk(s.record)
  }

  /** The session of a call that the front lets through: the context, the clock and the registry record. */
  predicate Started(d: Dependencies, op: Operation, context: Option<Context>, artifactId: string, s: Session) {
    && context == Some(s.context) && d.clock == Some(s.now) && d.resolve(artifactId) == Found(s.record)
    && s.op == op && s.artifactId == artifactId && Silent(s)
  }

  lemma FailWritten(s: Session, error: Detail, code: Code, counts: Counts)
    requires Silent(s) && DetailOk(error)
    ensures var o := FailClosed(s, error, code, counts);
      && BlamedFor(s, o, error) && o.output == Failure(code) && o.log.fetches == s.log.fetches
      && o.log.events[0].counts == counts
    ensures code == ResourceUnavailable ==>
      var o := ConcludeSession(s, Failure(code), counts);
      && BlamedFor(s, o, error) && o.output == Failure(code) && o.log.fetches == s.log.fetches
      && o.log.events[0].counts == counts
  {
    ReceiptOkExactly(s, error, Some(code));
    hide RecordOk, DetailOk, ReceiptOk;
  }

  lemma AnswerWritten(s: Session, wire: Output -> nat, x: Candidate, error: Detail, errorCounts: Counts)
    requires Silent(s) && DetailOk(error) && DetailOk(x.detail) && !x.output.Failure?
    ensures var o := Answer(s, wire, x, error, errorCounts);
      if o.output.Failure? then
        && BlamedFor(s, o, error) && o.log.fetches == s.log.fetches
        && o.output.code == if wire(x.output) > 65_536 then ResponseLimitExceeded else InternalError
      else o.output == x.output && EvidencedFor(s, o.log, x.detail, x.counts)
  {
    FailWritten(s, error, ResponseLimitExceeded, errorCounts);
    ReceiptOkExactly(s, x.detail, None);
    hide RecordOk, DetailOk, ReceiptOk, FailClosed, FourDigitYear;
  }

  /** A failure that names no artifact version. */
  predicate Quiet(o: Outcome, op: Operation, correlation: Option<string>, resolves: seq<string>, code: Code,
      counts: Counts) {
    o == Outcome(Failure(code), Log(resolves, [], [], [Event(op, Some(code), correlation, counts)]))
  }

  /** What the front does, from the context, the clock and the registry: a record is usable at every
      instant before it expires, and at none from then on. */
  lemma FrontWritten(d: Dependencies, op: Operation, context: Option<Context>, artifactId: string, counts: Counts,
      onInconsistent: Option<Detail>)
    ensures match FrontOf(d, op, context, artifactId, counts, onInconsistent)
      case Go(s, m) =>
        && (ArtifactIdOk(artifactId) ==> Started(d, op, context, artifactId, s)) && s.log.fetches == []
        && m == ManifestOfRecord(s.record) && Consistent(d.h, m) && s.record.artifactId == artifactId
        && (s.record.expiresAt.Some? ==> s.now < s.record.expiresAt.value)
      case Halt(o) =>
        if context.None? then Quiet(o, op, None, [], InternalError, counts)
        else var id := context.value.requestCorrelationId;
          if d.clock.None? then Quiet(o, op, id, [], InternalError, counts)
          else match d.resolve(artifactId)
            case ResolveThrows => Quiet(o, op, id, [artifactId], InternalError, counts)
            case MalformedRecord => Quiet(o, op, id, [artifactId], InternalError, counts)
            case NoRecord => Quiet(o, op, id, [artifactId], ResourceUnavailable, counts)
            case Found(r) =>
              if !RecordOk(r) || r.artifactId != artifactId
                then Quiet(o, op, id, [artifactId], InternalError, counts)
              else if r.expiresAt.Some? && r.expiresAt.value <= d.clock.value
                then Quiet(o, op, id, [artifactId], ResourceUnavailable, counts)
              else
                && !Consistent(d.h, ManifestOfRecord(r))
                && if onInconsistent.None? then Quiet(o, op, id, [artifactId], InternalError, counts)
                   else o.output == Failure(IntegrityFailure) && (DetailOk(onInconsistent.value) ==>
                     Blamed(o, op, context.value, d.clock.value, artifactId, r, onInconsistent.value))
  {
    hide Consistent, ManifestOfRecord, DetailOk;
  }

  // ----- ranges -----

  /** The bytes that hold chunks first to last of a record. */
  function ChunkSpan(r: Record, first: int, last: int): ByteRange {
    var from := first * r.chunkSize;
    var to := last * r.chunkSize + r.chunkSize;
    ByteRange(from, if to <= r.byteLength then to - from else r.byteLength - from)
  }

  /** Every field of a range answer. */
  predicate RangeWritten(h: Hash, o: Output, r: ByteRange, record: Record) {
    && o.RangeResult? && AsRecorded(o.integrity, record)
    && ChunksOf(o.integrity, r.offset, r.offset + r.length - 1)
    && o.integrity.requested == RequestedBytes(r) && o.integrity.returned == r
    && o.integrity.returnedByteSha256 == h(Encode(o.data)) && |Encode(o.data)| == r.length
  }

  lemma ChunkHolds(x: int, c: int)
    requires AllowedChunkSize(c) && 0 <= x
    ensures x / c * c <= x < x / c * c + c && (x / c + 1) * c == x / c * c + c
  {
    DivBounds(x, c);
  }

  lemma SpanWritten(h: Hash, record: Record, requested: RequestedRange, r: ByteRange, sha256: Digest)
    requires RecordOk(record) && Consistent(h, ManifestOfRecord(record)) && InBounds(r, record.byteLength)
    ensures var m := ManifestOfRecord(record);
      var x := IntegrityOfRange(h, m, requested, r, sha256);
      && AsRecorded(x, record) && ChunksOf(x, r.offset, r.offset + r.length - 1)
      && x.requested == requested && x.returned == r && x.returnedByteSha256 == sha256
      && CoverFor(m, r) == ChunkSpan(record, x.startChunkIndex, x.endChunkIndex)
  {
    var m, c := ManifestOfRecord(record), record.chunkSize;
    hide Consistent, RecordOk, VerifiedRange, AsRecorded, CeilDiv, Merkle.Root;
    CoverIsSmall(h, m, r);
    ChunkHolds(r.offset, c);
    ChunkHolds(r.offset + r.length - 1, c);
    hide AllowedChunkSize, InBounds;
    IntegrityRecorded(h, record, requested, StartChunk(r, c), EndChunk(r, c), r, sha256);
  }

  lemma RangeCandidateWritten(h: Hash, record: Record, r: ByteRange, bytes: Bytes)
    requires RecordOk(record) && Consistent(h, ManifestOfRecord(record)) && InBounds(r, record.byteLength)
    requires RequestedOk(RequestedBytes(r)) && |bytes| == r.length && Decode(bytes).Some?
    ensures var c := RangeCandidate(h, ManifestOfRecord(record), r, Decode(bytes).value, bytes);
      && RangeWritten(h, c.output, r, record) && Encode(c.output.data) == bytes
      && var x := c.output.integrity;
         var span := ChunkSpan(record, x.startChunkIndex, x.endChunkIndex);
      && c.detail == RangeDetail(r, r, x.returnedByteSha256) && DetailOk(c.detail)
      && c.counts == Counts(Some(r.length), Some(span.length), Some(r.length))
  {
    hide Consistent, AsRecorded, ChunksOf, Decode, IntegrityOfRange, Encode;
    SpanWritten(h, record, RequestedBytes(r), r, h(bytes));
    RangeCandidateOk(h, ManifestOfRecord(record), r, bytes);
    EncodeDecode(bytes);
  }

  /** A range read that went through read its cover and answered with the slice. */
  lemma RangeReadCovers(d: Dependencies, s: Session, m: Manifest, r: ByteRange) returns (cover: Bytes, bytes: Bytes)
    requires Consistent(d.h, m) && InBounds(r, m.byteLength) && !RangeRead(d, s, m, r).output.Failure?
    ensures var span, start, end := CoverFor(m, r), StartChunk(r, m.chunkSize), EndChunk(r, m.chunkSize);
      && |cover| == span.length && end < |m.chunks| && 0 <= start <= end
      && CoverMatches(d.h, m, start, end, cover, span.offset)
      && bytes == Slice(cover, span.offset, r) && |bytes| == r.length
      && RangeRead(d, s, m, r) == RangeAnswer(d, Reading(s, span), m, r, bytes)
  {
    CoverIsSmall(d.h, m, r);
    var span := CoverFor(m, r);
    hide Consistent, RangeAnswer, CoverMatches, CoverFor;
    cover := Fetch(CallFor(s, span), d.read(CallFor(s, span))).bytes;
    bytes := Slice(cover, span.offset, r);
  }

  /** What is wrong with the reply to a read, as the code that ends the call. */
  function ReplyFault(call: ReadCall, reply: ReadReply): Option<Code> {
    match reply
    case ReadThrows => Some(InternalError)
    case MalformedRead => Some(InternalError)
    case VersionGone => Some(ResourceUnavailable)
    case Read(bytes, ref) =>
      if !VersionRefOk(ref) then Some(InternalError)
      else if ref == call.objectVersionRef && |bytes| == call.length then None
      else Some(IntegrityFailure)
  }

  lemma FetchWritten(call: ReadCall, reply: ReadReply)
    ensures match Fetch(call, reply)
      case Got(bytes) => ReplyFault(call, reply) == None && reply == Read(bytes, call.objectVersionRef)
      case Gone => ReplyFault(call, reply) == Some(ResourceUnavailable)
      case Failed(f) => ReplyFault(call, reply) == Some(FailureCode(f)) && FailureCode(f) != ResourceUnavailable
  {
    hide VersionRefOk;
  }

  /** Every chunk of the cover has the recorded digests. */
  predicate Covers(h: Hash, m: Manifest, r: ByteRange, cover: Bytes)
    requires Consistent(h, m) && InBounds(r, m.byteLength)
  {
    CoverIsSmall(h, m, r);
    CoverMatches(h, m, StartChunk(r, m.chunkSize), EndChunk(r, m.chunkSize), cover, CoverFor(m, r).offset)
  }

  /** Why verified bytes are not answered, given that they are not. */
  function SliceFault(d: Dependencies, m: Manifest, r: ByteRange, bytes: Bytes): Code
    requires Consistent(d.h, m) && InBounds(r, m.byteLength)
  {
    match Decode(bytes)
    case None => Unsupported
    case Some(data) =>
      if d.wire(RangeOutput(d.h, m, r, data, bytes)) > 65_536 then ResponseLimitExceeded else InternalError
  }

  /** What a success leaves: every field of the output, the receipt and the event. */
  predicate RangeEvidence(s: Session, h: Hash, o: Outcome, r: ByteRange) {
    && RangeWritten(h, o.output, r, s.record)
    && var x := o.output.integrity;
       var span := ChunkSpan(s.record, x.startChunkIndex, x.endChunkIndex);
    && Evidenced(o.log, s.op, s.context, s.now, s.artifactId, s.record,
         [ReadCall(s.record.objectVersionRef, span.offset, span.length)], RangeDetail(r, r, x.returnedByteSha256),
         Counts(Some(r.length), Some(span.length), Some(r.length)))
  }

  predicate RangeBlame(s: Session, h: Hash, o: Outcome, r: ByteRange, covering: Option<int>) {
    && BlamedFor(s, o, RangeDetail(r, ByteRange(0, 0), h([])))
    && o.log.events[0].counts == Counts(Some(r.length), covering, None)
  }

  /** The answer to verified bytes, or why there is none. */
  lemma SliceAnswered(d: Dependencies, s: Session, m: Manifest, r: ByteRange, bytes: Bytes)
    requires Silent(s) && m == ManifestOfRecord(s.record) && Consistent(d.h, m) && |bytes| == r.length
    requires InBounds(r, m.byteLength) && RequestedOk(RequestedBytes(r))
    ensures var t := Reading(s, CoverFor(m, r));
      var o := RangeAnswer(d, t, m, r, bytes);
      && o.log.fetches == t.log.fetches
      && if !o.output.Failure? then s.log.fetches == [] ==> RangeEvidence(s, d.h, o, r)
         else RangeBlame(s, d.h, o, r, Some(CoverFor(m, r).length)) && o.output.code == SliceFault(d, m, r, bytes)
  {
    var error, t := RangeError(d.h, r), Reading(s, CoverFor(m, r));
    assert DetailOk(error) && error == RangeDetail(r, ByteRange(0, 0), d.h([]));
    hide Consistent, Decode, RangeOutput, CoverFor, RecordOk, DetailOk, RangeError, FourDigitYear, ReceiptOk, Answer,
      FailClosed, RangeWritten, RangeCandidate, AsRecorded;
    FailWritten(t, error, Unsupported, CoverCounts(m, r));
    if Decode(bytes).Some? {
      var c := RangeCandidate(d.h, m, r, Decode(bytes).value, bytes);
      RangeCandidateWritten(d.h, s.record, r, bytes);
      AnswerWritten(t, d.wire, c, error, CoverCounts(m, r));
    }
  }

  /** A range read: its one read, and its answer or why there is none. */
  lemma RangeReadAnswered(d: Dependencies, s: Session, m: Manifest, r: ByteRange)
    requires Silent(s) && s.log.fetches == [] && m == ManifestOfRecord(s.record) && Consistent(d.h, m)
    requires InBounds(r, m.byteLength) && RequestedOk(RequestedBytes(r))
    ensures var o, span := RangeRead(d, s, m, r), CoverFor(m, r);
      var call := ReadCall(s.record.objectVersionRef, span.offset, span.length);
      && o.log.fetches == [call]
      && if !o.output.Failure? then RangeEvidence(s, d.h, o, r)
         else match ReplyFault(call, d.read(call))
           case Some(code) => RangeBlame(s, d.h, o, r, None) && o.output.code == code
           case None =>
             && d.read(call).Read?
             && var cover := d.read(call).bytes;
             if !Covers(d.h, m, r, cover) then RangeBlame(s, d.h, o, r, None) && o.output.code == IntegrityFailure
             else
               && RangeBlame(s, d.h, o, r, Some(span.length))
               && o.output.code == SliceFault(d, m, r, Slice(cover, span.offset, r))
  {
    CoverIsSmall(d.h, m, r);
    var span := CoverFor(m, r);
    var call, t := CallFor(s, span), Reading(s, span);
    var error := RangeError(d.h, r);
    assert DetailOk(error) && error == RangeDetail(r, ByteRange(0, 0), d.h([]));
    hide Consistent, RangeAnswer, CoverMatches, CoverFor, RecordOk, DetailOk, RangeError, Fetch, ReplyFault, SliceFault,
      ReceiptOk, FourDigitYear, RangeEvidence, FailClosed, ConcludeSession;
    FetchWritten(call, d.read(call));
    match Fetch(call, d.read(call))
    case Failed(f) => FailWritten(t, error, FailureCode(f), RangeCounts(r));
    case Gone => FailWritten(t, error, ResourceUnavailable, RangeCounts(r));
    case Got(cover) =>
      if Covers(d.h, m, r, cover) {
        SliceAnswered(d, s, m, r, Slice(cover, span.offset, r));
      } else {
        FailWritten(t, error, IntegrityFailure, RangeCounts(r));
      }
  }

  /** A piece of a stretch of the source is the piece of the source. */
  lemma PieceOfStretch(m: Manifest, i: nat, source: Bytes, base: nat, cover: Bytes)
    requires i < |m.chunks| && base <= m.chunks[i].byteStart && 0 <= m.chunks[i].byteLength
    requires m.chunks[i].byteStart + m.chunks[i].byteLength <= base + |cover| <= |source|
    requires cover == source[base..base + |cover|]
    ensures Piece(m, i, cover, base) == Piece(m, i, source, 0)
  {
    SliceOfSlice(source, base, |cover|, ByteRange(m.chunks[i].byteStart, m.chunks[i].byteLength));
  }

  /** Chunk i of a manifest lies within these bytes. */
  predicate Placed(m: Manifest, i: nat, base: int, length: int)
    requires i < |m.chunks|
  {
    && base <= m.chunks[i].byteStart && 0 <= m.chunks[i].byteLength
    && m.chunks[i].byteStart + m.chunks[i].byteLength <= base + length
  }

  lemma ChunkPlaced(m: Manifest, start: nat, end: nat, i: nat)
    requires GeometryConsistent(m) && start <= i <= end < m.chunkCount
    ensures var r := CoverRange(start, end, m.chunkSize, m.byteLength);
      Placed(m, i, start * m.chunkSize, r.length)
  {
    PieceBounds(m, start, end, i);
  }

  lemma StretchMatches(h: Hash, m: Manifest, source: Bytes, start: nat, end: nat, base: nat, cover: Bytes)
    requires end < |m.chunks| && base + |cover| <= |source| && cover == source[base..base + |cover|]
    requires CoverMatches(h, m, start, end, cover, base)
    requires forall i: nat | start <= i <= end :: Placed(m, i, base, |cover|)
    ensures CoverMatches(h, m, start, end, source, 0)
  {
    hide PieceMatches;
    forall i: nat | start <= i <= end
      ensures PieceMatches(h, m, i, source, 0)
    {
      assert PieceMatches(h, m, i, cover, base) && Placed(m, i, base, |cover|);
      SamePiece(h, m, i, source, base, cover);
    }
  }

  /** Where a verified cover is a stretch of the source, the source has the recorded digests there, or a
      collision is in hand. */
  lemma SourceMatches(h: Hash, m: Manifest, source: Bytes, start: nat, end: nat, cover: Bytes)
      returns (a: Bytes, b: Bytes)
    requires Describes(h, m, source) && start <= end < m.chunkCount
    requires |cover| == CoverRange(start, end, m.chunkSize, m.byteLength).length
    requires CoverMatches(h, m, start, end, cover, start * m.chunkSize)
    ensures Collision(h, a, b) || CoverMatches(h, m, start, end, source, 0)
  {
    hide CoverMatches, Merkle.Root, Describes, Consistent, GeometryConsistent, CoverRange;
    DescribesFacts(h, m, source);
    GeometryOf(h, m);
    a, b := StretchAuthentic(h, m, source, start, end, cover);
    var base := start * m.chunkSize;
    if !Collision(h, a, b) {
      forall i: nat | start <= i <= end
        ensures Placed(m, i, base, |cover|)
      {
        ChunkPlaced(m, start, end, i);
      }
      StretchMatches(h, m, source, start, end, base, cover);
    }
  }

  lemma GeometryOf(h: Hash, m: Manifest)
    requires Consistent(h, m)
    ensures GeometryConsistent(m)
  {
  }

  /** A verified cover is a stretch of the source, or a collision is in hand. */
  lemma StretchAuthentic(h: Hash, m: Manifest, source: Bytes, start: nat, end: nat, cover: Bytes)
      returns (a: Bytes, b: Bytes)
    requires Describes(h, m, source) && start <= end < m.chunkCount
    requires |cover| == CoverRange(start, end, m.chunkSize, m.byteLength).length
    requires end < |m.chunks| && CoverMatches(h, m, start, end, cover, start * m.chunkSize)
    ensures var base := start * m.chunkSize;
      && 0 <= base <= base + |cover| <= |source|
      && (Collision(h, a, b) || cover == source[base..base + |cover|])
  {
    a, b := PrefixAuthentic(h, m, source, start, end, end, cover);
    PieceBounds(m, start, end, end);
    hide CoverMatches, Merkle.Root, Describes, Consistent;
    assert cover[..|cover|] == cover;
  }

  lemma SamePiece(h: Hash, m: Manifest, i: nat, source: Bytes, base: nat, cover: Bytes)
    requires i < |m.chunks| && base <= m.chunks[i].byteStart && 0 <= m.chunks[i].byteLength
    requires m.chunks[i].byteStart + m.chunks[i].byteLength <= base + |cover| <= |source|
    requires cover == source[base..base + |cover|] && PieceMatches(h, m, i, cover, base)
    ensures PieceMatches(h, m, i, source, 0)
  {
    PieceOfStretch(m, i, source, base, cover);
    hide Piece;
  }

  /** Every entry of an integrity object is proven for a source with the recorded digests. */
  lemma EntriesProven(h: Hash, m: Manifest, requested: RequestedRange, start: nat, end: nat, returned: ByteRange,
      sha256: Digest, source: Bytes)
    requires Consistent(h, m) && m.profileVersion == PROFILE_VERSION && m.byteLength == |source|
    requires start <= end < m.chunkCount && CoverMatches(h, m, start, end, source, 0)
    ensures AllProven(h, IntegrityFor(h, m, requested, start, end, returned, sha256), source)
  {
    assert m.chunkCount == |m.chunks|;
    hide Consistent, PieceMatches, VerifiedOf, Proven;
    var x := IntegrityFor(h, m, requested, start, end, returned, sha256);
    forall k | 0 <= k < |x.verifiedChunks|
      ensures Proven(h, x, x.verifiedChunks[k], source)
    {
      assert PieceMatches(h, m, start + k, source, 0);
      EntryProven(h, m, x, start + k, source);
    }
  }

  lemma RangeOutputIs(d: Dependencies, s: Session, m: Manifest, r: ByteRange, bytes: Bytes)
    requires Consistent(d.h, m) && InBounds(r, m.byteLength) && !RangeAnswer(d, s, m, r, bytes).output.Failure?
    ensures var o := RangeAnswer(d, s, m, r, bytes).output;
      && o.RangeResult? && Decode(bytes) == Some(o.data)
      && o.integrity == IntegrityOfRange(d.h, m, RequestedBytes(r), r, d.h(bytes))
  {
    hide Consistent, Decode, IntegrityOfRange;
  }

  lemma RangeReadProven(d: Dependencies, s: Session, m: Manifest, r: ByteRange, source: Bytes)
      returns (a: Bytes, b: Bytes)
    requires Describes(d.h, m, source) && m.profileVersion == PROFILE_VERSION && InBounds(r, m.byteLength)
    requires !RangeRead(d, s, m, r).output.Failure?
    ensures var o := RangeRead(d, s, m, r).output;
      o.RangeResult? && (Collision(d.h, a, b) || AllProven(d.h, o.integrity, source))
  {
    CoverIsSmall(d.h, m, r);
    hide Consistent, Describes, CoverMatches, RangeRead, RangeAnswer, AllProven;
    var cover, bytes := RangeReadCovers(d, s, m, r);
    var start, end := StartChunk(r, m.chunkSize), EndChunk(r, m.chunkSize);
    RangeOutputIs(d, Reading(s, CoverFor(m, r)), m, r, bytes);
    DescribesFacts(d.h, m, source);
    a, b := SourceMatches(d.h, m, source, start, end, cover);
    if !Collision(d.h, a, b) {
      EntriesProven(d.h, m, RequestedBytes(r), start, end, r, d.h(bytes), source);
    }
  }

  lemma DescribesFacts(h: Hash, m: Manifest, source: Bytes)
    requires Describes(h, m, source)
    ensures Consistent(h, m) && m.byteLength == |source| && m.chunkCount == |m.chunks|
  {
  }

  /** A range call, end to end: malformed input, the front, a range that is out of bounds, or the read. A
      success has its text, integrity object, receipt and event from the call and the registry record. */
  lemma RangeAnswered(d: Dependencies, context: Option<Context>, artifactId: string, r: ByteRange)
    ensures var o := RangeSpec(d, context, artifactId, r);
      if !RangeInputOk(artifactId, r) then Quiet(o, RangeOp, None, [], InvalidRequest, NO_COUNTS)
      else match FrontOf(d, RangeOp, context, artifactId, RangeCounts(r), None)
        case Halt(stopped) => o == stopped && o.output.Failure?
        case Go(s, m) =>
          && Started(d, RangeOp, context, artifactId, s)
          && if r.offset + r.length > s.record.byteLength then
               RangeBlame(s, d.h, o, r, None) && o.output.code == IntegrityFailure && o.log.fetches == []
             else
               && Consistent(d.h, m) && InBounds(r, m.byteLength) && o == RangeRead(d, s, m, r)
               && if !o.output.Failure? then RangeEvidence(s, d.h, o, r)
                  else BlamedFor(s, o, RangeDetail(r, ByteRange(0, 0), d.h([])))
  {
    hide FrontOf, RangeRead, Consistent, RecordOk, FailClosed, RangeEvidence;
    FrontWritten(d, RangeOp, context, artifactId, RangeCounts(r), None);
    FrontAdmits(d, RangeOp, context, artifactId, RangeCounts(r), None);
    var f := FrontOf(d, RangeOp, context, artifactId, RangeCounts(r), None);
    if f.Go? && RangeInputOk(artifactId, r) {
      FailWritten(f.session, RangeDetail(r, ByteRange(0, 0), d.h([])), IntegrityFailure, RangeCounts(r));
      if InBounds(r, f.manifest.byteLength) {
        RangeReadAnswered(d, f.session, f.manifest, r);
      }
    }
  }

  /** The chunk proofs in a successful range answer are accepted for the source's own bytes against the
      root in the same answer, or a collision is in hand. */
  lemma RangeProven(d: Dependencies, context: Option<Context>, artifactId: string, r: ByteRange, source: Bytes)
      returns (a: Bytes, b: Bytes)
    requires !RangeSpec(d, context, artifactId, r).output.Failure?
    requires var reply := d.resolve(artifactId);
      reply.Found? && RecordOk(reply.record) && Describes(d.h, ManifestOfRecord(reply.record), source)
    ensures var o := RangeSpec(d, context, artifactId, r).output;
      o.RangeResult? && (Collision(d.h, a, b) || AllProven(d.h, o.integrity, source))
  {
    hide FrontOf, RangeRead, Consistent, RecordOk, Describes, AllProven;
    FrontWritten(d, RangeOp, context, artifactId, RangeCounts(r), None);
    var f := FrontOf(d, RangeOp, context, artifactId, RangeCounts(r), None);
    a, b := RangeReadProven(d, f.session, f.manifest, r, source);
  }

  // ----- metadata -----

  /** Every field of the metadata of an artifact. */
  predicate StatWritten(o: Output, artifactId: string, record: Record) {
    && o.StatResult?
    && var a := o.artifact;
    && a.artifactId == artifactId && a.objectVersionRef == record.objectVersionRef
    && a.sourceSha256 == record.sourceSha256 && a.merkleRoot == record.merkleRoot
    && a.byteLength == record.byteLength && a.chunkSize == record.chunkSize && a.chunkCount == record.chunkCount
    && a.media == record.media && a.expiresAt == record.expiresAt
    && if record.chunkCount <= 64 then a.chunkHashes == Inline(record.chunkSha256s)
       else a.chunkHashes.Reference? && record.chunkHashesRef == Some(a.chunkHashes.ref)
  }

  /** A stat call, end to end: malformed input, the front, missing chunk hashes, the wire or the clock. A
      success has every field from the registry record, with its receipt and event and no read. */
  lemma StatAnswered(d: Dependencies, context: Option<Context>, artifactId: string)
    ensures var o := StatSpec(d, context, artifactId);
      if !ArtifactIdOk(artifactId) then Quiet(o, StatOp, None, [], InvalidRequest, NO_COUNTS)
      else match FrontOf(d, StatOp, context, artifactId, NO_COUNTS, None)
        case Halt(stopped) => o == stopped && o.output.Failure?
        case Go(s, m) =>
          && Started(d, StatOp, context, artifactId, s) && o.log.fetches == []
          && if !o.output.Failure? then
               StatWritten(o.output, artifactId, s.record) && EvidencedFor(s, o.log, StatDetail, NO_COUNTS)
             else
               && BlamedFor(s, o, StatDetail)
               && o.output.code ==
                 if s.record.chunkCount > 64 && s.record.chunkHashesRef.None? then InternalError
                 else if d.wire(StatResult(StatMetadata(s, HashesOf(s.record).value))) > 65_536
                   then ResponseLimitExceeded
                 else InternalError
  {
    hide FrontOf, Consistent, RecordOk, ReceiptOk, FourDigitYear, FailClosed, Answer;
    FrontWritten(d, StatOp, context, artifactId, NO_COUNTS, None);
    FrontAdmits(d, StatOp, context, artifactId, NO_COUNTS, None);
    var f := FrontOf(d, StatOp, context, artifactId, NO_COUNTS, None);
    if f.Go? && ArtifactIdOk(artifactId) {
      FailWritten(f.session, StatDetail, InternalError, NO_COUNTS);
      if HashesOf(f.session.record).Some? {
        AnswerWritten(f.session, d.wire, StatCandidate(f.session, HashesOf(f.session.record).value), StatDetail,
          NO_COUNTS);
      }
    }
  }
}
