/** The answers of the operations that read their source in full, written out. */
module WholeAnswers {
  import opened Hashing
  import opened ChunkManifest
  import opened Covering
  import opened Evidence
  import opened Inspector
  import opened InspectorWhole
  import opened InspectorText
  import opened InspectorHeading
  import opened InspectorSearch
  import Headings
  import opened Lines
  import opened Registry
  import opened Utf8
  import opened Utf16
  import opened Json
  import opened Answers
  import Merkle
  import Search
  import TextIndex

  // ----- reaching the source -----

  /** What is wrong with a complete source, as the code that ends the call. */
  ghost function SourceFault(d: Dependencies, r: Record, bytes: Bytes): Option<Code>
    requires |r.chunkSha256s| == |r.merkleLeafSha256s| == r.chunkCount
  {
    if BuildError(bytes, r.chunkSize).Some? || ManifestOf(d.h, bytes, r.chunkSize) != ManifestOfRecord(r)
      then Some(IntegrityFailure)
    else match TextIndex.IndexOf(d.h, d.norm, bytes, MediaOf(r.media))
      case Ok(_) => None
      case Err(e) => Some(if e == TextIndex.InvalidUtf8 then IntegrityFailure else Code.ResponseLimitExceeded)
  }

  /** What is refused without a read. */
  function RecordFault(op: Operation, r: Record): Option<Code> {
    if r.media.OtherMedia? || (op == HeadingOp && r.media != MarkdownText) then Some(Unsupported)
    else if op == SearchOp && r.byteLength == 0 then Some(ResourceUnavailable)
    else if r.byteLength > (if op == SearchOp then 8_192 else 262_144) then Some(Code.ResponseLimitExceeded)
    else None
  }

  /** The session of a call once it has read its source in full. */
  function WithSource(s: Session): Session {
    s.(log := Log([s.artifactId], [ReadCall(s.record.objectVersionRef, 0, s.record.byteLength)], [], []))
  }

  lemma WholeWritten(d: Dependencies, s: Session, m: Manifest)
    requires RecordOk(s.record) && m == ManifestOfRecord(s.record)
    ensures var call := ReadCall(s.record.objectVersionRef, 0, s.record.byteLength);
      match WholeOf(d, s, m, MediaOf(s.record.media))
      case Whole(bytes, x) =>
        && d.read(call) == ReadReply.Read(bytes, s.record.objectVersionRef) && ReplyFault(call, d.read(call)).None?
        && SourceFault(d, s.record, bytes).None?
      case Vanished => ReplyFault(call, d.read(call)) == Some(ResourceUnavailable)
      case Stopped(code) =>
        && code != ResourceUnavailable
        && match ReplyFault(call, d.read(call))
           case Some(fault) => code == fault
           case None => d.read(call).Read? && SourceFault(d, s.record, d.read(call).bytes) == Some(code)
  {
    hide TextIndex.IndexOf, BuildError, ManifestOf, Fetch, ReplyFault, RecordOk;
    var call := CallFor(s, WholeRange(s));
    FetchWritten(call, d.read(call));
    if d.read(call).Read? {
      TextIndex.IndexWritten(d.h, d.norm, d.read(call).bytes, MediaOf(s.record.media));
    }

  }

  /** A call that reads its source in full ends at the front, for its record, for the reply to its one
      read or for the source, or it is at the recorded source with nothing reported yet. */
  lemma ReachedWritten(d: Dependencies, op: Operation, context: Option<Context>, artifactId: string, error: Detail)
    requires Indexed(op) && DetailOk(error) && ArtifactIdOk(artifactId)
    ensures match FrontFor(d, op, context, artifactId, error)
      case Halt(o) => Reached(d, op, context, artifactId, error) == Done(o)
      case Go(s, m) =>
        && Silent(s) && s.op == op && m == ManifestOfRecord(s.record)
        && SourceReached(d, s, Reached(d, op, context, artifactId, error), error)
  {
    hide FrontOf, SourceFor, Consistent, RecordOk, DetailOk, SourceReached;
    var onInconsistent := if op.SearchOp? then Some(error) else None;
    FrontWritten(d, op, context, artifactId, NO_COUNTS, onInconsistent);
    var f := FrontOf(d, op, context, artifactId, NO_COUNTS, onInconsistent);
    if f.Go? {
      SourceWritten(d, f.session, error);
    }
  }

  ghost predicate SourceReached(d: Dependencies, s: Session, a: Reach, error: Detail)
    requires Silent(s)
  {
    var call, fault := ReadCall(s.record.objectVersionRef, 0, s.record.byteLength), RecordFault(s.op, s.record);
    match a
    case At(t, m, bytes, x) =>
      && t == WithSource(s) && m == ManifestOfRecord(s.record) && fault.None?
      && d.read(call) == ReadReply.Read(bytes, s.record.objectVersionRef) && SourceFault(d, s.record, bytes).None?
    case Done(o) =>
      && BlamedFor(s, o, error) && o.log.events[0].counts == NO_COUNTS
      && if fault.Some? then o.log.fetches == [] && fault == Some(o.output.code)
         else
           && o.log.fetches == [call]
           && if ReplyFault(call, d.read(call)).Some? then ReplyFault(call, d.read(call)) == Some(o.output.code)
              else d.read(call).Read? && SourceFault(d, s.record, d.read(call).bytes) == Some(o.output.code)
  }

  lemma RefusalWritten(op: Operation, r: Record)
    ensures Refusal(op, r) == RecordFault(op, r)
  {
  }

  lemma SourceWritten(d: Dependencies, s: Session, error: Detail)
    requires Silent(s) && DetailOk(error) && Indexed(s.op) && s.log == Log([s.artifactId], [], [], [])
    ensures SourceReached(d, s, SourceFor(d, s, ManifestOfRecord(s.record), error), error)
  {
    var t, w := Reading(s, WholeRange(s)), WholeOf(d, s, ManifestOfRecord(s.record), MediaOf(s.record.media));
    hide ManifestOfRecord, RecordOk, DetailOk, WholeOf, SourceFault, ReplyFault, BlamedFor, FailClosed,
      ConcludeSession, Refusal, RecordFault;
    RefusalWritten(s.op, s.record);
    WholeWritten(d, s, ManifestOfRecord(s.record));
    if Refusal(s.op, s.record).Some? {
      FailWritten(s, error, Refusal(s.op, s.record).value, NO_COUNTS);
    } else {
      assert s.log.fetches + [CallFor(s, WholeRange(s))] == [CallFor(s, WholeRange(s))];
      match w
      case Stopped(code) => FailWritten(t, error, code, NO_COUNTS);
      case Vanished => FailWritten(t, error, ResourceUnavailable, NO_COUNTS);
      case Whole(_, _) =>
    }
  }

  /** What a call has in hand once it is at the source: the bytes the store returned for the recorded
      version, with the recorded digest and manifest, and their index. */
  ghost predicate SourceInHand(d: Dependencies, s: Session, m: Manifest, source: Bytes, x: TextIndex.Index) {
    && s.log.fetches == [ReadCall(s.record.objectVersionRef, 0, s.record.byteLength)]
    && d.read(s.log.fetches[0]) == ReadReply.Read(source, s.record.objectVersionRef)
    && d.h(source) == s.record.sourceSha256 && WholeMatches(d.h, m, source)
    && TextIndex.IndexHolds(d.h, d.norm, source, MediaOf(s.record.media), x)
  }

  lemma AtSource(d: Dependencies, op: Operation, context: Option<Context>, artifactId: string, error: Detail)
    requires Indexed(op) && DetailOk(error) && ArtifactIdOk(artifactId)
    ensures match Reached(d, op, context, artifactId, error)
      case Done(_) => true
      case At(t, m, source, x) =>
        && Started(d, op, context, artifactId, t) && m == ManifestOfRecord(t.record)
        && AtOk(d, op, artifactId, Reached(d, op, context, artifactId, error)) && SourceInHand(d, t, m, source, x)
  {
    hide FrontOf, SourceFor, Consistent, RecordOk, DetailOk, WholeMatches, TextIndex.IndexOf, BuildError, BlamedFor,
      TextIndex.IndexHolds, Disciplined, Merkle.Root, Reached;
    FrontWritten(d, op, context, artifactId, NO_COUNTS, if op.SearchOp? then Some(error) else None);
    ReachedWritten(d, op, context, artifactId, error);
    ReachedOk(d, op, context, artifactId, error);
    match Reached(d, op, context, artifactId, error)
    case Done(_) =>
    case At(t, m, source, x) => TextIndex.IndexWritten(d.h, d.norm, source, MediaOf(t.record.media));
  }

  // ----- lines -----

  /** The range runs from the start of line k + 1 to the end of the n-th line from there. */
  predicate LinesRange(lines: seq<TextLine>, k: int, n: int, r: ByteRange) {
    && 0 <= k && 1 <= n && k + n <= |lines| && r.offset == lines[k].byteStart
    && var last := lines[k + n - 1];
       r.offset + r.length == last.byteStart + last.contentByteLength + last.newlineByteLength
  }

  /** The data are the text of these bytes of the source. */
  predicate TextOf(source: Bytes, r: ByteRange, data: Text) {
    && 0 <= r.offset < r.offset + r.length <= |source|
    && Encode(data) == source[r.offset..r.offset + r.length]
  }

  /** Every field of an answer to a line request over a source with these lines. */
  predicate LinesWritten(h: Hash, o: Output, i: LineRequest, record: Record, source: Bytes, lines: seq<TextLine>) {
    && o.LinesResult? && AsRecorded(o.integrity, record)
    && o.integrity.requested == RequestedLines(i.startLine, i.count)
    && o.integrity.returnedByteSha256 == h(Encode(o.data))
    && var r, n := o.integrity.returned, o.returnedLineCount;
    if i.startLine > |lines| then
      && o.data == [] && n == 0 && r == ByteRange(record.byteLength, 0)
      && o.integrity.startChunkIndex == o.integrity.endChunkIndex == record.chunkCount - 1
    else
      && n <= i.count && (n == i.count || i.startLine - 1 + n == |lines|)
      && LinesRange(lines, i.startLine - 1, n, r) && TextOf(source, r, o.data)
      && ChunksOf(o.integrity, r.offset, r.offset + r.length - 1)
  }

  /** The integrity object of a range of a verified complete source: its fields, and proofs for its bytes. */
  lemma SpanAnswered(h: Hash, record: Record, requested: RequestedRange, r: ByteRange, source: Bytes)
    requires RecordOk(record) && WholeMatches(h, ManifestOfRecord(record), source) && InBounds(r, record.byteLength)
    ensures var x := IntegrityOfRange(h, ManifestOfRecord(record), requested, r, h(Covered(source, r)));
      && AsRecorded(x, record) && ChunksOf(x, r.offset, r.offset + r.length - 1) && AllProven(h, x, source)
      && x.requested == requested && x.returned == r && x.returnedByteSha256 == h(Covered(source, r))
  {
    var m := ManifestOfRecord(record);
    CoverIsSmall(h, m, r);
    hide Consistent, RecordOk, AllProven, PieceMatches, AsRecorded;
    SpanWritten(h, record, requested, r, h(Covered(source, r)));
    var start, end := StartChunk(r, m.chunkSize), EndChunk(r, m.chunkSize);
    EntriesProven(h, m, requested, start, end, r, h(Covered(source, r)), source);
  }

  lemma RecordsPlaced(source: Bytes, lines: seq<TextLine>, k: nat, n: nat) returns (r: ByteRange)
    requires Decode(source).Some? && Partition(source, lines) && 1 <= n && k + n <= |lines|
    ensures var records := Records(source, lines, k, n);
      && r == ByteRange(lines[k].byteStart, |records|) && LinesRange(lines, k, n, r)
      && 0 <= r.offset && 1 <= r.length && r.offset + r.length <= |source|
      && Covered(source, r) == records && Decode(records).Some? && TextOf(source, r, Decode(records).value)
      && Encode(Decode(records).value) == records
  {
    hide Decode, Partition, Records, Encode;
    LineRangeOk(source, lines, k, n);
    r := ByteRange(lines[k].byteStart, |Records(source, lines, k, n)|);
    EncodeDecode(Records(source, lines, k, n));
  }

  lemma LinesCandidateWritten(h: Hash, record: Record, i: LineRequest, n: nat, source: Bytes, lines: seq<TextLine>)
    requires RecordOk(record) && WholeMatches(h, ManifestOfRecord(record), source) && LinesInputOk(i)
    requires Decode(source).Some? && Partition(source, lines)
    requires 1 <= i.startLine <= |lines| && n == Min(i.count, |lines| - (i.startLine - 1))
    requires |Records(source, lines, i.startLine - 1, n)| <= MAX_RANGE_BYTES
    ensures var records := Records(source, lines, i.startLine - 1, n);
      var r := ByteRange(lines[i.startLine - 1].byteStart, |records|);
      && InBounds(r, record.byteLength) && Decode(records).Some?
      && var c := LinesCandidate(h, ManifestOfRecord(record), i, n, r, records);
      && LinesWritten(h, c.output, i, record, source, lines) && AllProven(h, c.output.integrity, source)
      && c.detail == LinesDetail(i.startLine, i.count, c.output.integrity.returned, h(Encode(c.output.data)))
      && DetailOk(c.detail) && c.counts == Counts(None, None, Some(c.output.integrity.returned.length))
  {
    hide Consistent, Decode, CoverMatches, IntegrityOfRange, AllProven, AsRecorded, ChunksOf, Partition, Records,
      RecordOk, Encode, ArtifactIdOk, LinesRange, TextOf, Covered;
    var r := RecordsPlaced(source, lines, i.startLine - 1, n);
    SpanAnswered(h, record, RequestedLines(i.startLine, i.count), r, source);
  }

  lemma PastEndWritten(h: Hash, record: Record, i: LineRequest, source: Bytes, lines: seq<TextLine>)
    requires RecordOk(record) && WholeMatches(h, ManifestOfRecord(record), source) && LinesInputOk(i)
    requires |lines| < i.startLine && 0 < record.chunkCount
    ensures var c := PastEndCandidate(h, ManifestOfRecord(record), i);
      && LinesWritten(h, c.output, i, record, source, lines) && AllProven(h, c.output.integrity, source)
      && c.detail == LinesDetail(i.startLine, i.count, c.output.integrity.returned, h(Encode(c.output.data)))
      && DetailOk(c.detail) && c.counts == Counts(None, None, Some(c.output.integrity.returned.length))
  {
    var m, last := ManifestOfRecord(record), record.chunkCount - 1;
    hide Consistent, PieceMatches, AsRecorded, AllProven, VerifiedRange, RecordOk, ArtifactIdOk;
    IntegrityRecorded(h, record, RequestedLines(i.startLine, i.count), last, last, ByteRange(m.byteLength, 0), h([]));
    EntriesProven(h, m, RequestedLines(i.startLine, i.count), last, last, ByteRange(m.byteLength, 0), h([]), source);
    assert Encode([]) == [];
  }

  predicate LinesEvidence(s: Session, h: Hash, o: Outcome, i: LineRequest, source: Bytes, lines: seq<TextLine>) {
    && LinesWritten(h, o.output, i, s.record, source, lines) && AllProven(h, o.output.integrity, source)
    && EvidencedFor(s, o.log, LinesDetail(i.startLine, i.count, o.output.integrity.returned, h(Encode(o.output.data))),
      Counts(None, None, Some(o.output.integrity.returned.length)))
  }

  lemma LinesErrorWritten(h: Hash, i: LineRequest)
    requires LinesInputOk(i)
    ensures DetailOk(LinesError(h, i)) && LinesError(h, i) == LinesDetail(i.startLine, i.count, ByteRange(0, 0), h([]))
  {
  }

  /** Why selected lines are not answered, given that they are not. */
  ghost function RecordsFault(d: Dependencies, m: Manifest, i: LineRequest, source: Bytes, lines: seq<TextLine>): Code
    requires TextOk(d.h, m, source, lines) && LinesInputOk(i) && i.startLine <= |lines|
  {
    var k := i.startLine - 1;
    var n := Min(i.count, |lines| - k);
    LineRangeOk(source, lines, k, n);
    var records := Records(source, lines, k, n);
    if |records| > 8_192 then Code.ResponseLimitExceeded
    else if d.wire(LinesOutput(d.h, m, i, n, ByteRange(lines[k].byteStart, |records|), records)) > 65_536
      then Code.ResponseLimitExceeded
    else InternalError
  }

  predicate LinesBlame(s: Session, h: Hash, o: Outcome, i: LineRequest) {
    && BlamedFor(s, o, LinesDetail(i.startLine, i.count, ByteRange(0, 0), h([])))
    && o.log.fetches == s.log.fetches
  }

  lemma PastEndAnswered(d: Dependencies, s: Session, m: Manifest, i: LineRequest, source: Bytes, lines: seq<TextLine>)
    requires Silent(s) && m == ManifestOfRecord(s.record) && WholeMatches(d.h, m, source) && LinesInputOk(i)
    requires i.startLine > |lines|
    ensures var o := PastEnd(d, s, m, i);
      if !o.output.Failure? then LinesEvidence(s, d.h, o, i, source, lines)
      else
        && LinesBlame(s, d.h, o, i)
        && o.output.code == if s.record.chunkCount == 0 then InvalidRequest else InternalError
  {
    assert 0 <= s.record.chunkCount && Consistent(d.h, m);
    hide WholeMatches, RecordOk, LinesWritten, AllProven, DetailOk, Consistent, LinesError, ReceiptOk, FailClosed;
    LinesErrorWritten(d.h, i);
    if m.chunkCount == 0 {
      FailWritten(s, LinesError(d.h, i), InvalidRequest, NO_COUNTS);
    } else {
      PastEndWritten(d.h, s.record, i, source, lines);
      ReceiptOkExactly(s, PastEndCandidate(d.h, m, i).detail, None);
    }
  }

  lemma SelectedAnswered(d: Dependencies, s: Session, m: Manifest, i: LineRequest, source: Bytes, lines: seq<TextLine>)
    requires Silent(s) && m == ManifestOfRecord(s.record) && WholeMatches(d.h, m, source) && LinesInputOk(i)
    requires TextOk(d.h, m, source, lines) && i.startLine <= |lines|
    ensures var o := LinesTail(d, s, m, i, source, lines);
      if !o.output.Failure? then LinesEvidence(s, d.h, o, i, source, lines)
      else LinesBlame(s, d.h, o, i) && o.output.code == RecordsFault(d, m, i, source, lines)
  {
    var k := i.startLine - 1;
    var n := Min(i.count, |lines| - k);
    hide WholeMatches, RecordOk, LinesWritten, AllProven, DetailOk, Consistent, LinesError, ReceiptOk, FailClosed,
      Decode, Partition, Records, LinesCandidate, Answer;
    LineRangeOk(source, lines, k, n);
    LinesErrorWritten(d.h, i);
    var records := Records(source, lines, k, n);
    FailWritten(s, LinesError(d.h, i), Code.ResponseLimitExceeded, NO_COUNTS);
    if |records| <= MAX_RANGE_BYTES {
      LinesCandidateWritten(d.h, s.record, i, n, source, lines);
      var c := LinesCandidate(d.h, m, i, n, ByteRange(lines[k].byteStart, |records|), records);
      LinesCandidateIs(d.h, m, i, n, ByteRange(lines[k].byteStart, |records|), records);
      AnswerWritten(s, d.wire, c, LinesError(d.h, i), c.counts);
    }
  }

  lemma LinesCandidateIs(h: Hash, m: Manifest, i: LineRequest, n: nat, r: ByteRange, bytes: Bytes)
    requires Consistent(h, m) && InBounds(r, m.byteLength) && Decode(bytes).Some?
    ensures LinesCandidate(h, m, i, n, r, bytes).output == LinesOutput(h, m, i, n, r, bytes)
  {
  }

  /** The rest of a line read: the answer written out, or why there is none. */
  lemma LinesTailWritten(d: Dependencies, s: Session, m: Manifest, i: LineRequest, source: Bytes, lines: seq<TextLine>)
    requires Silent(s) && m == ManifestOfRecord(s.record) && WholeMatches(d.h, m, source) && LinesInputOk(i)
    requires TextOk(d.h, m, source, lines)
    ensures var o := LinesTail(d, s, m, i, source, lines);
      if !o.output.Failure? then LinesEvidence(s, d.h, o, i, source, lines)
      else
        && LinesBlame(s, d.h, o, i)
        && if i.startLine > |lines| then
             o.output.code == if s.record.chunkCount == 0 then InvalidRequest else InternalError
           else o.output.code == RecordsFault(d, m, i, source, lines)
  {
    hide WholeMatches, PastEnd, LinesSelected, Decode, Partition, Records, RecordOk, LinesWritten, AllProven, DetailOk,
      Consistent, LinesError, LinesEvidence, LinesBlame, RecordsFault;
    if i.startLine > |lines| {
      PastEndAnswered(d, s, m, i, source, lines);
    } else {
      SelectedAnswered(d, s, m, i, source, lines);
    }
  }

  /** A line call, end to end: malformed input, what ReachedWritten says, or, with the bytes the store
      returned, which have the recorded digest, the answer written out or why there is none. */
  lemma LinesAnswered(d: Dependencies, context: Option<Context>, i: LineRequest)
    ensures var o, error := LinesSpec(d, context, i), LinesError(d.h, i);
      if !LinesInputOk(i) then Quiet(o, LinesOp, None, [], InvalidRequest, NO_COUNTS)
      else match Reached(d, LinesOp, context, i.artifactId, error)
        case Done(stopped) => o == stopped && o.output.Failure?
        case At(t, m, source, x) =>
          && Started(d, LinesOp, context, i.artifactId, t) && SourceInHand(d, t, m, source, x)
          && TextOk(d.h, m, source, x.lines)
          && if !o.output.Failure? then LinesEvidence(t, d.h, o, i, source, x.lines)
             else
               && LinesBlame(t, d.h, o, i)
               && o.output.code ==
                 if i.startLine > |x.lines| then (if t.record.chunkCount == 0 then InvalidRequest else InternalError)
                 else RecordsFault(d, m, i, source, x.lines)
  {
    hide Reached, LinesTail, Consistent, RecordOk, WholeMatches, TextIndex.IndexOf, LinesEvidence, LinesBlame,
      Disciplined, Decode, Partition, RecordsFault, SourceInHand;
    var error := LinesError(d.h, i);
    if LinesInputOk(i) {
      var a := Reached(d, LinesOp, context, i.artifactId, error);
      LinesErrorWritten(d.h, i);
      ReachedOk(d, LinesOp, context, i.artifactId, error);
      AtSource(d, LinesOp, context, i.artifactId, error);
      if a.At? {
        ReachedText(d, LinesOp, i.artifactId, a);
        LinesTailWritten(d, a.session, a.manifest, i, a.bytes, a.index.lines);
      }
    }
  }

  // ----- headings -----

  /** Every field of an answer to a heading request that found this heading. */
  predicate HeadingWritten(h: Hash, o: Output, i: HeadingRequest, record: Record, source: Bytes, y: Headings.Heading) {
    && o.HeadingResult? && o.headingId == i.headingId == y.headingId && AsRecorded(o.integrity, record)
    && o.integrity.requested == RequestedHeading(i.headingId)
    && o.integrity.returned == ByteRange(y.byteStart, y.byteLength) && TextOf(source, o.integrity.returned, o.data)
    && o.integrity.returnedByteSha256 == h(Encode(o.data))
    && ChunksOf(o.integrity, y.byteStart, y.byteStart + y.byteLength - 1)
  }

  lemma HeadingErrorWritten(h: Hash, i: HeadingRequest)
    requires HeadingInputOk(i)
    ensures DetailOk(HeadingError(h, i)) && HeadingError(h, i) == HeadingDetail(i.headingId, ByteRange(0, 0), h([]))
  {
  }

  lemma HeadingSlice(source: Bytes, y: Headings.Heading)
    requires HeadingRangeOk(source, y)
    ensures var r, bytes := ByteRange(y.byteStart, y.byteLength), TextIndex.HeadingBytes(source, y);
      && bytes == Covered(source, r) && TextOf(source, r, Decode(bytes).value) && Encode(Decode(bytes).value) == bytes
  {
    hide Decode, Encode;
    EncodeDecode(TextIndex.HeadingBytes(source, y));
  }

  lemma HeadingCandidateWritten(h: Hash, record: Record, i: HeadingRequest, source: Bytes, y: Headings.Heading)
    requires RecordOk(record) && WholeMatches(h, ManifestOfRecord(record), source) && HeadingInputOk(i)
    requires HeadingRangeOk(source, y) && y.headingId == i.headingId && y.byteLength <= MAX_RANGE_BYTES
    ensures var r, bytes := ByteRange(y.byteStart, y.byteLength), TextIndex.HeadingBytes(source, y);
      && InBounds(r, record.byteLength)
      && var c := HeadingCandidate(h, ManifestOfRecord(record), i, r, bytes);
      && c.output == HeadingOutput(h, ManifestOfRecord(record), i, r, bytes)
      && HeadingWritten(h, c.output, i, record, source, y) && AllProven(h, c.output.integrity, source)
      && c.detail == HeadingDetail(i.headingId, r, h(Encode(c.output.data))) && DetailOk(c.detail)
      && c.counts == Counts(None, Some(record.byteLength), Some(y.byteLength))
  {
    HeadingSlice(source, y);
    hide Consistent, Decode, CoverMatches, IntegrityOfRange, AllProven, AsRecorded, ChunksOf, TextIndex.HeadingBytes,
      RecordOk, Encode, ArtifactIdOk, TextOf, Covered;
    SpanAnswered(h, record, RequestedHeading(i.headingId), ByteRange(y.byteStart, y.byteLength), source);
  }

  predicate HeadingBlame(s: Session, h: Hash, o: Outcome, i: HeadingRequest) {
    && BlamedFor(s, o, HeadingDetail(i.headingId, ByteRange(0, 0), h([])))
    && o.log.fetches == s.log.fetches
  }

  predicate HeadingEvidence(s: Session, h: Hash, o: Outcome, i: HeadingRequest, source: Bytes, y: Headings.Heading) {
    && HeadingWritten(h, o.output, i, s.record, source, y) && AllProven(h, o.output.integrity, source)
    && EvidencedFor(s, o.log,
      HeadingDetail(i.headingId, ByteRange(y.byteStart, y.byteLength), h(Encode(o.output.data))),
      Counts(None, Some(s.record.byteLength), Some(y.byteLength)))
  }

  /** Why a heading that is there is not answered, given that it is not. */
  function HeadingFault(d: Dependencies, m: Manifest, i: HeadingRequest, source: Bytes, y: Headings.Heading)
      : (code: Code)
    requires Consistent(d.h, m) && m.byteLength == |source| && HeadingRangeOk(source, y)
    ensures code != ResourceUnavailable
  {
    var r := ByteRange(y.byteStart, y.byteLength);
    if y.byteLength > 8_192 then Code.ResponseLimitExceeded
    else if d.wire(HeadingOutput(d.h, m, i, r, TextIndex.HeadingBytes(source, y))) > 65_536
      then Code.ResponseLimitExceeded
    else InternalError
  }

  lemma HeadingSelectedWritten(d: Dependencies, s: Session, m: Manifest, i: HeadingRequest, source: Bytes,
      y: Headings.Heading)
    requires Silent(s) && m == ManifestOfRecord(s.record) && WholeMatches(d.h, m, source) && HeadingInputOk(i)
    requires HeadingRangeOk(source, y) && y.headingId == i.headingId
    ensures var o := HeadingSelected(d, s, m, i, source, y);
      if !o.output.Failure? then HeadingEvidence(s, d.h, o, i, source, y)
      else HeadingBlame(s, d.h, o, i) && o.output.code == HeadingFault(d, m, i, source, y)
  {
    assert Consistent(d.h, m) && m.byteLength == |source|;
    hide WholeMatches, RecordOk, HeadingWritten, AllProven, DetailOk, Consistent, HeadingError, ReceiptOk, FailClosed,
      Decode, HeadingRangeOk, HeadingCandidate, HeadingOutput, Answer;
    HeadingErrorWritten(d.h, i);
    FailWritten(s, HeadingError(d.h, i), Code.ResponseLimitExceeded, NO_COUNTS);
    if y.byteLength <= MAX_RANGE_BYTES {
      HeadingCandidateWritten(d.h, s.record, i, source, y);
      var r := ByteRange(y.byteStart, y.byteLength);
      var c := HeadingCandidate(d.h, m, i, r, TextIndex.HeadingBytes(source, y));
      AnswerWritten(s, d.wire, c, HeadingError(d.h, i), NO_COUNTS);
    }
  }

  /** The outcome over a source in hand: the one heading with this identifier, or unavailable. */
  ghost predicate HeadingOutcome(d: Dependencies, s: Session, m: Manifest, i: HeadingRequest, source: Bytes,
      x: TextIndex.Index, o: Outcome) {
    if !o.output.Failure? then exists k :: 0 <= k < |x.headings| && HeadingEvidence(s, d.h, o, i, source, x.headings[k])
    else
      && HeadingBlame(s, d.h, o, i)
      && if o.output.code == ResourceUnavailable
         then forall k :: 0 <= k < |x.headings| ==> x.headings[k].headingId != i.headingId
         else exists k :: HeadingRefusedAt(d, m, i, source, x, o.output.code, k)
  }

  predicate HeadingRefusedAt(d: Dependencies, m: Manifest, i: HeadingRequest, source: Bytes, x: TextIndex.Index,
      code: Code, k: int) {
    && 0 <= k < |x.headings| && x.headings[k].headingId == i.headingId && HeadingRangeOk(source, x.headings[k])
    && Consistent(d.h, m) && m.byteLength == |source| && code == HeadingFault(d, m, i, source, x.headings[k])
  }

  lemma HeadingTailWritten(d: Dependencies, s: Session, m: Manifest, i: HeadingRequest, source: Bytes,
      x: TextIndex.Index)
    requires Silent(s) && m == ManifestOfRecord(s.record) && WholeMatches(d.h, m, source) && HeadingInputOk(i)
    requires OutlineOk(d.h, m, source, x)
    ensures HeadingOutcome(d, s, m, i, source, x, HeadingTail(d, s, m, i, source, x))
  {
    hide WholeMatches, RecordOk, DetailOk, Consistent, HeadingError, ReceiptOk, HeadingEvidence, HeadingFault,
      HeadingSelected, HeadingRangeOk, Decode, ConcludeSession, Headings.IdsOk;
    HeadingErrorWritten(d.h, i);
    var k := Find(x.headings, i.headingId);
    if k >= 0 {
      HeadingSelectedWritten(d, s, m, i, source, x.headings[k]);
      var o := HeadingSelected(d, s, m, i, source, x.headings[k]);
      assert o.output.Failure? ==> HeadingRefusedAt(d, m, i, source, x, o.output.code, k);
    } else {
      FailWritten(s, HeadingError(d.h, i), ResourceUnavailable, NO_COUNTS);
      forall j | 0 <= j < |x.headings|
        ensures x.headings[j].headingId != i.headingId
      {
        assert !Names(x.headings, j, i.headingId);
      }
    }
  }

  /** A heading call, end to end: malformed input, what ReachedWritten says, or the outcome over the bytes
      the store returned, which have the recorded digest. */
  lemma HeadingAnswered(d: Dependencies, context: Option<Context>, i: HeadingRequest)
    ensures var o := HeadingSpec(d, context, i);
      if !HeadingInputOk(i) then Quiet(o, HeadingOp, None, [], InvalidRequest, NO_COUNTS)
      else match Reached(d, HeadingOp, context, i.artifactId, HeadingError(d.h, i))
        case Done(stopped) => o == stopped && o.output.Failure?
        case At(t, m, source, x) =>
          && Started(d, HeadingOp, context, i.artifactId, t) && SourceInHand(d, t, m, source, x)
          && HeadingOutcome(d, t, m, i, source, x, o)
  {
    hide Reached, HeadingTail, Consistent, RecordOk, WholeMatches, TextIndex.IndexOf, HeadingOutcome, Disciplined,
      OutlineOk, SourceInHand;
    var error := HeadingError(d.h, i);
    if HeadingInputOk(i) {
      var a := Reached(d, HeadingOp, context, i.artifactId, error);
      HeadingErrorWritten(d.h, i);
      ReachedOk(d, HeadingOp, context, i.artifactId, error);
      AtSource(d, HeadingOp, context, i.artifactId, error);
      if a.At? {
        ReachedOutline(d, HeadingOp, i.artifactId, a);
        HeadingTailWritten(d, a.session, a.manifest, i, a.bytes, a.index);
      }
    }
  }

  // ----- searches -----

  /** The query is the request without the white space around it. */
  lemma {:induction false} TrimStartIs(t: Units) returns (n: nat)
    ensures n <= |t| && TrimStart(t) == t[n..] && (forall k :: 0 <= k < n ==> WhiteSpace(t[k]))
    ensures n < |t| ==> !WhiteSpace(t[n])
  {
    if t != [] && WhiteSpace(t[0]) {
      var m := TrimStartIs(t[1..]);
      n := m + 1;
      assert t[1..][m..] == t[n..];
    } else {
      n := 0;
    }
  }

  lemma TrimIs(t: Units) returns (a: nat, b: nat)
    ensures a <= b <= |t| && Trim(t) == t[a..b]
    ensures forall k :: 0 <= k < a || b <= k < |t| ==> WhiteSpace(t[k])
    ensures a < b ==> !WhiteSpace(t[a]) && !WhiteSpace(t[b - 1])
  {
    a := TrimStartIs(t);
    Headings.TrimEndShape(t[a..]);
    b := a + |TrimEnd(t[a..])|;
  }

  /** Every field of an answer to a search. */
  predicate SearchWritten(h: Hash, o: Output, i: SearchRequest, record: Record, source: Bytes, lines: seq<TextLine>) {
    var q := Encode(CodePoints(Trim(i.query)));
    && o.SearchResult? && HitsWritten(h, o.hits, i.maxHits, Trim(i.query), q, source, lines)
    && AsRecorded(o.integrity, record) && o.integrity.requested == RequestedSearch(|q|)
    && o.integrity.startChunkIndex == 0 && o.integrity.endChunkIndex == record.chunkCount - 1
    && o.integrity.returned == ByteRange(0, record.byteLength) && o.integrity.returnedByteSha256 == h(source)
  }

  /** The receipt of a search lists the range and the digest of every hit. */
  predicate DetailWritten(detail: Detail, o: Output, i: SearchRequest) {
    && o.SearchResult? && detail.SearchDetail?
    && detail.queryLength == |Encode(CodePoints(Trim(i.query)))| && detail.maxHits == i.maxHits
    && |detail.returnedHits| == |o.hits|
    && forall k :: 0 <= k < |o.hits| ==>
         detail.returnedHits[k].returned == o.hits[k].matchRange
         && detail.returnedHits[k].returnedByteSha256 == o.hits[k].snippetSha256
  }

  lemma SearchCandidateWritten(h: Hash, record: Record, i: SearchRequest, source: Bytes, lines: seq<TextLine>,
      hits: seq<Search.Hit>)
    requires RecordOk(record) && WholeMatches(h, ManifestOfRecord(record), source) && QueryOk(i)
    requires SearchableOk(h, ManifestOfRecord(record), source, lines)
    requires Search.HitsOk(source, QueryBytes(i), lines, i.maxHits, hits)
    ensures var c := SearchCandidate(h, ManifestOfRecord(record), i, source, hits);
      && c.output == SearchOutput(h, ManifestOfRecord(record), i, source, hits)
      && SearchWritten(h, c.output, i, record, source, lines) && AllProven(h, c.output.integrity, source)
      && DetailWritten(c.detail, c.output, i) && DetailOk(c.detail)
      && c.counts == Counts(Some(|QueryBytes(i)|), Some(record.byteLength), Some(|c.output.hits| * |QueryBytes(i)|))
  {
    var m := ManifestOfRecord(record);
    var last, whole := m.chunkCount - 1, ByteRange(0, m.byteLength);
    SearchCandidateOk(h, m, i, source, lines, hits);
    hide Consistent, RecordOk, AllProven, AsRecorded, PieceMatches, VerifiedRange, Search.HitsOk, HitsWritten, QueryOk,
      Encode, CodePoints, Trim, Partition, OutputOk, Matches, DetailOk;
    HitsAre(h, Trim(i.query), QueryBytes(i), source, lines, i.maxHits, hits);
    IntegrityRecorded(h, record, RequestedSearch(|QueryBytes(i)|), 0, last, whole, h(source));
    EntriesProven(h, m, RequestedSearch(|QueryBytes(i)|), 0, last, whole, h(source), source);
  }

  predicate SearchEvidence(s: Session, h: Hash, o: Outcome, i: SearchRequest, source: Bytes, lines: seq<TextLine>) {
    && SearchWritten(h, o.output, i, s.record, source, lines) && AllProven(h, o.output.integrity, source)
    && |o.log.receipts| == 1 && DetailWritten(o.log.receipts[0].detail, o.output, i)
    && var n := |Encode(CodePoints(Trim(i.query)))|;
       EvidencedFor(s, o.log, o.log.receipts[0].detail,
         Counts(Some(n), Some(s.record.byteLength), Some(|o.output.hits| * n)))
  }

  /** Why a search is not answered, given that it is not: the wire or the clock. */
  predicate SearchBlame(d: Dependencies, s: Session, o: Outcome, i: SearchRequest, source: Bytes,
      hits: seq<Search.Hit>)
    requires Silent(s)
  {
    var m := ManifestOfRecord(s.record);
    && BlamedFor(s, o, SearchDetail(|Encode(CodePoints(Trim(i.query)))|, i.maxHits, []))
    && o.log.fetches == s.log.fetches && Consistent(d.h, m) && 0 < m.chunkCount
    && o.output.code == (if d.wire(SearchOutput(d.h, m, i, source, hits)) > 65_536
       then Code.ResponseLimitExceeded else InternalError)
  }

  lemma SearchAnswerWritten(d: Dependencies, s: Session, m: Manifest, i: SearchRequest, source: Bytes,
      lines: seq<TextLine>, hits: seq<Search.Hit>)
    requires Silent(s) && m == ManifestOfRecord(s.record) && WholeMatches(d.h, m, source) && QueryOk(i)
    requires SearchableOk(d.h, m, source, lines) && Search.HitsOk(source, QueryBytes(i), lines, i.maxHits, hits)
    ensures var o := SearchAnswer(d, s, m, i, source, hits);
      if !o.output.Failure? then SearchEvidence(s, d.h, o, i, source, lines)
      else SearchBlame(d, s, o, i, source, hits)
  {
    SearchErrorOk(i);
    assert Consistent(d.h, m) && m.chunkCount > 0;
    hide Consistent, SearchCandidate, SearchWritten, AllProven, Search.HitsOk, Encode, CodePoints, Trim, DetailOk,
      SearchableOk, QueryOk, RecordOk, WholeMatches, Answer, DetailWritten, SearchOutput;
    SearchCandidateWritten(d.h, s.record, i, source, lines, hits);
    AnswerWritten(s, d.wire, SearchCandidate(d.h, m, i, source, hits), SearchError(i), NO_COUNTS);
  }

  /** A search call, end to end: malformed input, what ReachedWritten says, or, with the bytes the store
      returned, which have the recorded digest, the answer written out or why there is none. */
  lemma SearchAnswered(d: Dependencies, context: Option<Context>, i: SearchRequest, hits: seq<Search.Hit>)
    requires HitsFor(d, context, i, hits)
    ensures var o := SearchSpec(d, context, i, hits);
      if !QueryOk(i) then Quiet(o, SearchOp, None, [], InvalidRequest, NO_COUNTS)
      else match Reached(d, SearchOp, context, i.artifactId, SearchError(i))
        case Done(stopped) => o == stopped && o.output.Failure?
        case At(t, m, source, x) =>
          && Started(d, SearchOp, context, i.artifactId, t) && SourceInHand(d, t, m, source, x)
          && if !o.output.Failure? then SearchEvidence(t, d.h, o, i, source, x.lines)
             else SearchBlame(d, t, o, i, source, hits)
  {
    hide Reached, SearchAnswer, Consistent, RecordOk, WholeMatches, TextIndex.IndexOf, SearchBlame, SearchEvidence,
      Disciplined, Search.HitsOk, Encode, CodePoints, Trim, SearchableOk, WellPaired, SourceInHand;
    var error := SearchError(i);
    if QueryOk(i) {
      var a := Reached(d, SearchOp, context, i.artifactId, error);
      SearchErrorOk(i);
      ReachedOk(d, SearchOp, context, i.artifactId, error);
      AtSource(d, SearchOp, context, i.artifactId, error);
      if a.At? {
        ReachedSearchable(d, i.artifactId, a);
        SearchAnswerWritten(d, a.session, a.manifest, i, a.bytes, a.index.lines, hits);
      }
    }
  }
}
