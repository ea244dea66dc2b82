/** Line reads of artifact-inspector.ts. */
module InspectorText {
  import opened Hashing
  import opened ChunkManifest
  import opened Covering
  import opened Evidence
  import opened Inspector
  import opened InspectorWhole
  import opened Lines
  import opened Registry
  import opened Utf8
  import TextIndex

  datatype LineRequest = LineRequest(artifactId: string, startLine: int, count: int)

  predicate LinesInputOk(i: LineRequest) {
    ArtifactIdOk(i.artifactId) && RequestedOk(RequestedLines(i.startLine, i.count))
  }

  function LinesError(h: Hash, i: LineRequest): Detail { LinesDetail(i.startLine, i.count, ByteRange(0, 0), h([])) }

  function Returned(n: int): Counts { Counts(None, None, Some(n)) }

  /** A request past the last line of a nonempty source: an empty result anchored at its end. */
  function PastEndOutput(h: Hash, m: Manifest, i: LineRequest): Output
    requires Consistent(h, m) && m.chunkCount > 0
  {
    var last, requested := m.chunkCount - 1, RequestedLines(i.startLine, i.count);
    LinesResult([], 0, IntegrityFor(h, m, requested, last, last, ByteRange(m.byteLength, 0), h([])))
  }

  function PastEndCandidate(h: Hash, m: Manifest, i: LineRequest): Candidate
    requires Consistent(h, m) && m.chunkCount > 0
  {
    var detail := LinesDetail(i.startLine, i.count, ByteRange(m.byteLength, 0), h([]));
    Candidate(PastEndOutput(h, m, i), detail, Returned(0), NO_COUNTS)
  }

  function PastEnd(d: Dependencies, s: Session, m: Manifest, i: LineRequest): Outcome
    requires Consistent(d.h, m)
  {
    if m.chunkCount == 0 then FailClosed(s, LinesError(d.h, i), InvalidRequest, NO_COUNTS)
    else
      var c := PastEndCandidate(d.h, m, i);
      Succeed(s, c.detail, c.output, c.counts, c.failureCounts)
  }

  function LinesOutput(h: Hash, m: Manifest, i: LineRequest, n: nat, r: ByteRange, bytes: Bytes): Output
    requires Consistent(h, m) && InBounds(r, m.byteLength) && Decode(bytes).Some?
  {
    LinesResult(Decode(bytes).value, n, IntegrityOfRange(h, m, RequestedLines(i.startLine, i.count), r, h(bytes)))
  }

  function LinesCandidate(h: Hash, m: Manifest, i: LineRequest, n: nat, r: ByteRange, bytes: Bytes): Candidate
    requires Consistent(h, m) && InBounds(r, m.byteLength) && Decode(bytes).Some?
  {
    var counts := Returned(r.length);
    Candidate(LinesOutput(h, m, i, n, r, bytes), LinesDetail(i.startLine, i.count, r, h(bytes)), counts, counts)
  }

  /** The records of some lines: a nonempty stretch of the source that decodes. */
  predicate Stretch(m: Manifest, offset: nat, records: Bytes) {
    1 <= |records| && offset + |records| <= m.byteLength && Decode(records).Some?
  }

  function LinesSelected(d: Dependencies, s: Session, m: Manifest, i: LineRequest, n: nat, offset: nat,
      records: Bytes): Outcome
    requires Consistent(d.h, m) && Stretch(m, offset, records)
  {
    if |records| > MAX_RANGE_BYTES then FailClosed(s, LinesError(d.h, i), Code.ResponseLimitExceeded, NO_COUNTS)
    else
      var c := LinesCandidate(d.h, m, i, n, ByteRange(offset, |records|), records);
      Answer(s, d.wire, c, LinesError(d.h, i), c.counts)
  }

  /** A source in full, with the partition into its lines. */
  predicate TextOk(h: Hash, m: Manifest, bytes: Bytes, lines: seq<TextLine>) {
    Consistent(h, m) && m.byteLength == |bytes| && Decode(bytes).Some? && Partition(bytes, lines)
  }

  /** The byte range of the lines is in bounds and its bytes are the records, which decode. */
  lemma LineRangeOk(bytes: Bytes, lines: seq<TextLine>, k: nat, n: nat)
    requires Decode(bytes).Some? && Partition(bytes, lines) && 1 <= n && k + n <= |lines|
    ensures var records := Records(bytes, lines, k, n);
      && 0 <= lines[k].byteStart && lines[k].byteStart + |records| == lines[k + n - 1].End() <= |bytes|
      && 1 <= |records| && bytes[lines[k].byteStart..lines[k].byteStart + |records|] == records
      && Decode(records).Some?
  {
    SpanOrdered(bytes, lines, k, n);
    SpanIsConcatenation(bytes, lines, k, n);
    SpanDecodes(bytes, lines, k, n);
  }

  ghost function LinesTail(d: Dependencies, s: Session, m: Manifest, i: LineRequest, bytes: Bytes,
      lines: seq<TextLine>): Outcome
    requires TextOk(d.h, m, bytes, lines) && LinesInputOk(i)
  {
    var k := i.startLine - 1;
    if k >= |lines| then PastEnd(d, s, m, i)
    else
      var n := Min(i.count, |lines| - k);
      LineRangeOk(bytes, lines, k, n);
      LinesSelected(d, s, m, i, n, lines[k].byteStart, Records(bytes, lines, k, n))
  }

  lemma ReachedText(d: Dependencies, op: Operation, artifactId: string, a: Reach)
    requires AtOk(d, op, artifactId, a)
    ensures TextOk(d.h, a.manifest, a.bytes, a.index.lines) && a.index.lineCount == |a.index.lines|
  {
    hide TextIndex.IndexOf, Decode, Partition, Consistent, RecordOk, CoverMatches;
  }

  ghost function LinesSpec(d: Dependencies, context: Option<Context>, i: LineRequest): Outcome {
    if !LinesInputOk(i) then Refuse(LinesOp)
    else
      var a := Reached(d, LinesOp, context, i.artifactId, LinesError(d.h, i));
      ReachedOk(d, LinesOp, context, i.artifactId, LinesError(d.h, i));
      match a
      case Done(outcome) => outcome
      case At(s, m, bytes, x) =>
        ReachedText(d, LinesOp, i.artifactId, a);
        LinesTail(d, s, m, i, bytes, x.lines)
  }

  method ArtifactReadLines(d: Dependencies, context: Option<Context>, i: LineRequest) returns (outcome: Outcome)
    ensures outcome == LinesSpec(d, context, i)
  {
    hide Reached, LinesSelected, PastEnd, Decode, Partition, Consistent, Disciplined, RecordOk, TextIndex.IndexOf;
    if !LinesInputOk(i) { return Refuse(LinesOp); }
    var a := ReachSource(d, LinesOp, context, i.artifactId, LinesError(d.h, i));
    ReachedOk(d, LinesOp, context, i.artifactId, LinesError(d.h, i));
    match a
    case Done(o) => return o;
    case At(s, m, bytes, x) =>
      ReachedText(d, LinesOp, i.artifactId, a);
      if i.startLine - 1 >= x.lineCount {
        outcome := ReadPastEnd(d, s, m, i, bytes);
      } else {
        outcome := ReadClipped(d, s, m, i, Min(i.count, x.lineCount - (i.startLine - 1)), bytes, x);
      }
  }

  method ReadPastEnd(d: Dependencies, s: Session, m: Manifest, i: LineRequest, bytes: Bytes) returns (outcome: Outcome)
    requires WholeMatches(d.h, m, bytes) && LinesInputOk(i)
    ensures outcome == PastEnd(d, s, m, i)
  {
    hide CoverMatches, VerifiedOf, Succeed, FailClosed, OutputOk;
    if m.chunkCount == 0 { return FailClosed(s, LinesError(d.h, i), InvalidRequest, NO_COUNTS); }
    var last := m.chunkCount - 1;
    var verified := CoverWhole(d.h, m, bytes, last, last);
    if verified.None? { return FailClosed(s, LinesError(d.h, i), IntegrityFailure, NO_COUNTS); }
    var returned := ByteRange(m.byteLength, 0);
    var candidate := LinesResult([], 0,
      Integrity(RequestedLines(i.startLine, i.count), last, last, returned, m.chunkSize, m.chunkCount, verified.value,
        m.merkleRoot, d.h([]), m.sourceSha256));
    PastEndOk(d.h, m, i);
    PastEndFits(d, m, i);
    if !OutputOk(d.h, candidate) || d.wire(candidate) > MAX_ARTIFACT_RESPONSE_BYTES {
      return FailClosed(s, LinesError(d.h, i), InternalError, NO_COUNTS);
    }
    return Succeed(s, LinesDetail(i.startLine, i.count, returned, d.h([])), candidate, Returned(0), NO_COUNTS);
  }

  /** One chunk, its proof and no data: the answer past the end is far below the response limit. */
  lemma PastEndFits(d: Dependencies, m: Manifest, i: LineRequest)
    requires Consistent(d.h, m) && m.chunkCount > 0 && LinesInputOk(i)
    ensures d.wire(PastEndOutput(d.h, m, i)) <= MAX_ARTIFACT_RESPONSE_BYTES
  {
    PastEndIsSmall(d.h, m, i);
    hide OneChunk;
  }

  lemma PastEndIsSmall(h: Hash, m: Manifest, i: LineRequest)
    requires Consistent(h, m) && m.chunkCount > 0 && LinesInputOk(i)
    ensures OneChunk(PastEndOutput(h, m, i).integrity)
  {
    PastEndOk(h, m, i);
    var last, x := m.chunkCount - 1, PastEndOutput(h, m, i).integrity;
    VerifiedShape(h, m, last);
    assert x.verifiedChunks == [VerifiedOf(h, m, last)];
  }

  lemma PastEndOk(h: Hash, m: Manifest, i: LineRequest)
    requires Consistent(h, m) && m.chunkCount > 0 && LinesInputOk(i)
    ensures CandidateOk(h, PastEndCandidate(h, m, i))
  {
    var last := m.chunkCount - 1;
    PieceBounds(m, last, last, last);
    ChunkStartInSource(m.byteLength, m.chunkSize, last);
    assert (last + 1) * m.chunkSize == last * m.chunkSize + m.chunkSize;
    IntegrityAlwaysOk(h, m, RequestedLines(i.startLine, i.count), last, last, ByteRange(m.byteLength, 0), h([]));
  }

  /** A clipped line request of an accepted index fails only for its size. */
  method SelectLines(d: Dependencies, bytes: Bytes, x: TextIndex.Index, startLine: int, n: nat)
      returns (data: Result<Text, TextIndex.TextError>)
    requires TextIndex.IndexOf(d.h, d.norm, bytes, x.mediaType) == Ok(x) && Partition(bytes, x.lines)
      && x.lineCount == |x.lines|
    requires 1 <= startLine && 1 <= n <= MAX_LINE_COUNT && startLine - 1 + n <= |x.lines|
    ensures var records := Records(bytes, x.lines, startLine - 1, n);
      if |records| > MAX_RANGE_BYTES then data == Err(TextIndex.ResponseLimitExceeded)
        else data.Ok? && Decode(records) == Some(data.value)
  {
    data := TextIndex.ReadIndexedLines(d.h, d.norm, bytes, x, startLine, n);
  }

  method ReadClipped(d: Dependencies, s: Session, m: Manifest, i: LineRequest, n: nat, bytes: Bytes,
      x: TextIndex.Index) returns (outcome: Outcome)
    requires WholeMatches(d.h, m, bytes) && TextOk(d.h, m, bytes, x.lines) && LinesInputOk(i)
    requires TextIndex.IndexOf(d.h, d.norm, bytes, x.mediaType) == Ok(x) && x.lineCount == |x.lines|
    requires i.startLine <= |x.lines| && n == Min(i.count, |x.lines| - (i.startLine - 1))
    ensures outcome == LinesTail(d, s, m, i, bytes, x.lines)
  {
    hide LinesSelected, Decode, Partition, Consistent, CoverMatches, Records, TextIndex.IndexOf;
    var start := i.startLine - 1;
    LineRangeOk(bytes, x.lines, start, n);
    ghost var records := Records(bytes, x.lines, start, n);
    var text := SelectLines(d, bytes, x, i.startLine, n);
    outcome := FinishLines(d, s, m, i, n, x.lines[start], x.lines[start + n - 1], bytes, records, text);
  }

  method FinishLines(d: Dependencies, s: Session, m: Manifest, i: LineRequest, n: nat, first: TextLine, last: TextLine,
      bytes: Bytes, ghost records: Bytes, text: Result<Text, TextIndex.TextError>) returns (outcome: Outcome)
    requires WholeMatches(d.h, m, bytes) && LinesInputOk(i) && n <= i.count
    requires 0 <= first.byteStart && Stretch(m, first.byteStart, records)
      && first.byteStart + |records| == last.End() <= |bytes|
    requires if |records| > MAX_RANGE_BYTES then text == Err(TextIndex.ResponseLimitExceeded)
      else text.Ok? && Decode(records) == Some(text.value)
    ensures outcome == LinesSelected(d, s, m, i, n, first.byteStart, records)
  {
    hide CoverMatches, FailClosed, Succeed, OutputOk, IntegrityOfRange;
    if text.Err? { return FailClosed(s, LinesError(d.h, i), MapTextError(text.error), NO_COUNTS); }
    var r := ByteRange(first.byteStart,
      last.byteStart + last.contentByteLength + last.newlineByteLength - first.byteStart);
    if r.length > MAX_RANGE_BYTES { return FailClosed(s, LinesError(d.h, i), Code.ResponseLimitExceeded, NO_COUNTS); }
    LinesCandidateOk(d.h, m, i, n, r, records);
    var sha256 := d.h(Encode(text.value));
    var x, code := IntegrityOfSpan(d.h, m, bytes, RequestedLines(i.startLine, i.count), r, sha256);
    if x.None? { return FailClosed(s, LinesError(d.h, i), code, NO_COUNTS); }
    var counts := Returned(r.length);
    var candidate :=
      Candidate(LinesResult(text.value, n, x.value), LinesDetail(i.startLine, i.count, r, sha256), counts, counts);
    outcome := Send(d.h, s, d.wire, candidate, LinesError(d.h, i), counts);
  }

  lemma LinesCandidateOk(h: Hash, m: Manifest, i: LineRequest, n: nat, r: ByteRange, bytes: Bytes)
    requires Consistent(h, m) && InBounds(r, m.byteLength) && Decode(bytes).Some? && |bytes| == r.length
    requires LinesInputOk(i) && n <= i.count
    ensures CandidateOk(h, LinesCandidate(h, m, i, n, r, bytes)) && Encode(Decode(bytes).value) == bytes
  {
    hide Decode, Consistent, IntegrityOfRange, IntegrityOk, ArtifactIdOk, Encode, SearchOk, MetadataOk;
    SpanIntegrityOk(h, m, RequestedLines(i.startLine, i.count), r, bytes);
  }

  // ----- what the rest of a line read does -----

  /** The requested lines of a partition, clipped at its end. */
  ghost predicate HoldsLines(source: Bytes, lines: seq<TextLine>, i: LineRequest, o: Output)
    requires Partition(source, lines) && 1 <= i.startLine && 1 <= i.count
  {
    var k := i.startLine - 1;
    && o.LinesResult?
    && if k >= |lines| then o.returnedLineCount == 0 && o.data == []
       else
         var n := Min(i.count, |lines| - k);
         o.returnedLineCount == n && Encode(o.data) == Records(source, lines, k, n)
  }

  predicate RecordsFit(d: Dependencies, m: Manifest, i: LineRequest, n: nat, offset: nat, records: Bytes)
    requires Consistent(d.h, m) && Stretch(m, offset, records)
  {
    |records| <= MAX_RANGE_BYTES
      && d.wire(LinesOutput(d.h, m, i, n, ByteRange(offset, |records|), records)) <= MAX_ARTIFACT_RESPONSE_BYTES
  }

  /** The requested lines fit one answer: within 8,192 bytes and within the wire, or past the end of a
      nonempty source. */
  ghost predicate LinesFit(d: Dependencies, m: Manifest, i: LineRequest, bytes: Bytes, lines: seq<TextLine>)
    requires TextOk(d.h, m, bytes, lines) && LinesInputOk(i)
  {
    var k := i.startLine - 1;
    if k >= |lines| then m.chunkCount > 0
    else
      var n := Min(i.count, |lines| - k);
      LineRangeOk(bytes, lines, k, n);
      RecordsFit(d, m, i, n, lines[k].byteStart, Records(bytes, lines, k, n))
  }

  lemma LinesSelectedFacts(d: Dependencies, s: Session, m: Manifest, i: LineRequest, n: nat, offset: nat,
      records: Bytes)
    requires Consistent(d.h, m) && Stretch(m, offset, records) && LinesInputOk(i) && n <= i.count
    requires Unreported(s, LinesOp)
    ensures var o := LinesSelected(d, s, m, i, n, offset, records);
      && Disciplined(d.h, LinesOp, o)
      && if FourDigitYear(s.now) && RecordsFit(d, m, i, n, offset, records)
         then o.output.LinesResult? && o.output.returnedLineCount == n && Encode(o.output.data) == records
         else o.output.Failure?
  {
    hide Consistent, Decode, Disciplined, RecordOk, IntegrityOfRange, CandidateOk, FailClosed;
    if |records| > MAX_RANGE_BYTES {
      FailClosedDisciplined(d.h, s, LinesError(d.h, i), Code.ResponseLimitExceeded, NO_COUNTS);
      FailClosedOutput(s, LinesError(d.h, i), Code.ResponseLimitExceeded, NO_COUNTS);
    } else {
      var r := ByteRange(offset, |records|);
      var c := LinesCandidate(d.h, m, i, n, r, records);
      LinesCandidateOk(d.h, m, i, n, r, records);
      AnswerFacts(d.h, s, d.wire, c, LinesError(d.h, i), c.counts);
      hide Answer;
    }
  }

  lemma PastEndFacts(d: Dependencies, s: Session, m: Manifest, i: LineRequest)
    requires Consistent(d.h, m) && LinesInputOk(i) && Unreported(s, LinesOp)
    ensures var o := PastEnd(d, s, m, i);
      && Disciplined(d.h, LinesOp, o)
      && if FourDigitYear(s.now) && m.chunkCount > 0
         then o.output.LinesResult? && o.output.returnedLineCount == 0 && o.output.data == []
         else o.output.Failure?
  {
    assert m.chunkCount >= 0;
    hide Consistent, Disciplined, RecordOk, IntegrityFor, FailClosed, OutputOk, DetailOk;
    if m.chunkCount == 0 {
      FailClosedDisciplined(d.h, s, LinesError(d.h, i), InvalidRequest, NO_COUNTS);
      FailClosedOutput(s, LinesError(d.h, i), InvalidRequest, NO_COUNTS);
    } else {
      var c := PastEndCandidate(d.h, m, i);
      PastEndOk(d.h, m, i);
      SucceedDisciplined(d.h, s, c.detail, c.output, c.counts, c.failureCounts);
      SucceedExactly(s, c.detail, c.output, c.counts, c.failureCounts);
      hide Succeed, Matches;
    }
  }

  lemma LinesTailFacts(d: Dependencies, s: Session, m: Manifest, i: LineRequest, bytes: Bytes, lines: seq<TextLine>)
    requires TextOk(d.h, m, bytes, lines) && LinesInputOk(i) && Unreported(s, LinesOp)
    ensures var o := LinesTail(d, s, m, i, bytes, lines);
      && Disciplined(d.h, LinesOp, o)
      && if FourDigitYear(s.now) && LinesFit(d, m, i, bytes, lines) then HoldsLines(bytes, lines, i, o.output)
         else o.output.Failure?
  {
    hide PastEnd, LinesSelected, RecordsFit, Disciplined, Consistent, Decode, Partition, Records, RecordOk;
    var k := i.startLine - 1;
    if k >= |lines| {
      PastEndFacts(d, s, m, i);
    } else {
      var n := Min(i.count, |lines| - k);
      LineRangeOk(bytes, lines, k, n);
      LinesSelectedFacts(d, s, m, i, n, lines[k].byteStart, Records(bytes, lines, k, n));
    }
  }

  // ----- line reads end to end -----

  /** Every line call keeps the evidence discipline. */
  lemma LinesDisciplined(d: Dependencies, context: Option<Context>, i: LineRequest)
    ensures Disciplined(d.h, LinesOp, LinesSpec(d, context, i))
  {
    hide Reached, LinesTail, LinesFit, TextOk, Disciplined, RecordOk, WholeMatches, TextIndex.IndexOf, HoldsLines;
    if LinesInputOk(i) {
      var a := Reached(d, LinesOp, context, i.artifactId, LinesError(d.h, i));
      ReachedOk(d, LinesOp, context, i.artifactId, LinesError(d.h, i));
      if a.At? {
        ReachedText(d, LinesOp, i.artifactId, a);
        LinesTailFacts(d, a.session, a.manifest, i, a.bytes, a.index.lines);
      }
    } else {
      RefuseDisciplined(d.h, LinesOp);
    }
  }

  /** What a line read of a source has to say. */
  ghost predicate LinesOfSource(source: Bytes, i: LineRequest, o: Output) {
    CanonicalPartition(source, LinesOf(source));
    LinesInputOk(i) && HoldsLines(source, LinesOf(source), i, o)
  }

  /** End to end: a successful line read returns exactly the requested lines of any source with the
      recorded digest, or a collision with it is in hand. */
  lemma LinesAuthentic(d: Dependencies, context: Option<Context>, i: LineRequest, source: Bytes) returns (other: Bytes)
    requires !LinesSpec(d, context, i).output.Failure? && Recorded(d, i.artifactId, source)
    ensures Collision(d.h, other, source) || LinesOfSource(source, i, LinesSpec(d, context, i).output)
  {
    hide Reached, LinesTail, LinesFit, Disciplined, RecordOk, WholeMatches, TextIndex.IndexOf, Consistent, Decode;
    var a := Reached(d, LinesOp, context, i.artifactId, LinesError(d.h, i));
    ReachedOk(d, LinesOp, context, i.artifactId, LinesError(d.h, i));
    ReachedAuthentic(d, LinesOp, context, i.artifactId, LinesError(d.h, i), source);
    other := source;
    if a.At? {
      ReachedText(d, LinesOp, i.artifactId, a);
      LinesTailFacts(d, a.session, a.manifest, i, a.bytes, a.index.lines);
      CanonicalPartition(a.bytes, a.index.lines);
      other := a.bytes;
    }
  }

  /** When the requested lines of a source are answered. */
  ghost predicate LinesAnswerable(d: Dependencies, i: LineRequest, source: Bytes) {
    match (d.resolve(i.artifactId), d.clock)
    case (Found(record), Some(now)) =>
      && LinesInputOk(i) && RecordOk(record) && Refusal(LinesOp, record).None? && FourDigitYear(now)
      && var m := ManifestOfRecord(record);
      (match TextIndex.IndexOf(d.h, d.norm, source, MediaOf(record.media))
       case Err(_) => false
       case Ok(x) => TextOk(d.h, m, source, x.lines) && LinesFit(d, m, i, source, x.lines))
    case _ => false
  }

  /** Over an honest registry and store a line read succeeds exactly when its lines are answerable,
      and then it returns those lines. */
  lemma LinesServesExactly(d: Dependencies, context: Option<Context>, i: LineRequest, source: Bytes)
    requires Honest(d, context, i.artifactId, source)
    ensures var o := LinesSpec(d, context, i).output;
      if LinesAnswerable(d, i, source) then LinesOfSource(source, i, o) else o.Failure?
  {
    hide Reached, Honest, LinesTail, LinesFit, TextOk, Disciplined, WholeMatches, TextIndex.IndexOf, Consistent, Decode;
    if LinesInputOk(i) {
      var a := Reached(d, LinesOp, context, i.artifactId, LinesError(d.h, i));
      ReachedOk(d, LinesOp, context, i.artifactId, LinesError(d.h, i));
      ReachedHonest(d, LinesOp, context, i.artifactId, LinesError(d.h, i), source);
      if a.At? {
        ReachedText(d, LinesOp, i.artifactId, a);
        LinesTailFacts(d, a.session, a.manifest, i, a.bytes, a.index.lines);
        CanonicalPartition(a.bytes, a.index.lines);
      }
    }
  }
}
