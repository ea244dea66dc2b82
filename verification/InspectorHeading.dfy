/** Heading reads of artifact-inspector.ts. */
module InspectorHeading {
  import opened Hashing
  import opened ChunkManifest
  import opened Covering
  import opened Evidence
  import opened HeadingIds
  import opened Headings
  import opened Inspector
  import opened InspectorWhole
  import opened Registry
  import opened Utf8
  import TextIndex

  datatype HeadingRequest = HeadingRequest(artifactId: string, headingId: string)

  predicate HeadingInputOk(i: HeadingRequest) { ArtifactIdOk(i.artifactId) && HeadingIdOk(i.headingId) }

  function HeadingError(h: Hash, i: HeadingRequest): Detail { HeadingDetail(i.headingId, ByteRange(0, 0), h([])) }

  function HeadingOutput(h: Hash, m: Manifest, i: HeadingRequest, r: ByteRange, bytes: Bytes): Output
    requires Consistent(h, m) && InBounds(r, m.byteLength) && Decode(bytes).Some?
  {
    var x := IntegrityOfRange(h, m, RequestedHeading(i.headingId), r, h(bytes));
    HeadingResult(i.headingId, Decode(bytes).value, x)
  }

  function HeadingCandidate(h: Hash, m: Manifest, i: HeadingRequest, r: ByteRange, bytes: Bytes): Candidate
    requires Consistent(h, m) && InBounds(r, m.byteLength) && Decode(bytes).Some?
  {
    var counts := Counts(None, Some(m.byteLength), Some(r.length));
    Candidate(HeadingOutput(h, m, i, r, bytes), HeadingDetail(i.headingId, r, h(bytes)), counts,
      Counts(None, None, Some(r.length)))
  }

  /** The byte range of a heading record is in bounds and decodes. */
  predicate HeadingRangeOk(bytes: Bytes, y: Heading) {
    && 0 <= y.byteStart && 1 <= y.byteLength && y.byteStart + y.byteLength <= |bytes|
    && |TextIndex.HeadingBytes(bytes, y)| == y.byteLength && Decode(TextIndex.HeadingBytes(bytes, y)).Some?
  }

  function HeadingSelected(d: Dependencies, s: Session, m: Manifest, i: HeadingRequest, bytes: Bytes,
      y: Heading): Outcome
    requires Consistent(d.h, m) && m.byteLength == |bytes| && HeadingRangeOk(bytes, y)
  {
    if y.byteLength > MAX_RANGE_BYTES then FailClosed(s, HeadingError(d.h, i), Code.ResponseLimitExceeded, NO_COUNTS)
    else
      var r := ByteRange(y.byteStart, y.byteLength);
      var c := HeadingCandidate(d.h, m, i, r, TextIndex.HeadingBytes(bytes, y));
      Answer(s, d.wire, c, HeadingError(d.h, i), NO_COUNTS)
  }

  predicate Names(headings: seq<Heading>, k: int, id: string) { 0 <= k < |headings| && headings[k].headingId == id }

  /** The heading with this identifier; an index never has two. */
  ghost function Find(headings: seq<Heading>, id: string): (k: int)
    ensures if exists j :: Names(headings, j, id) then Names(headings, k, id) else k == -1
  {
    if exists j :: Names(headings, j, id) then var j :| Names(headings, j, id); j else -1
  }

  /** A source in full, with its headings. */
  ghost predicate OutlineOk(h: Hash, m: Manifest, bytes: Bytes, x: TextIndex.Index) {
    && Consistent(h, m) && m.byteLength == |bytes| && IdsOk(x.headings)
    && forall k :: 0 <= k < |x.headings| ==> HeadingRangeOk(bytes, x.headings[k])
  }

  ghost function HeadingTail(d: Dependencies, s: Session, m: Manifest, i: HeadingRequest, bytes: Bytes,
      x: TextIndex.Index): Outcome
    requires OutlineOk(d.h, m, bytes, x)
  {
    var k := Find(x.headings, i.headingId);
    if k < 0 then ConcludeSession(s, Failure(ResourceUnavailable), NO_COUNTS)
    else HeadingSelected(d, s, m, i, bytes, x.headings[k])
  }

  lemma ReachedOutline(d: Dependencies, op: Operation, artifactId: string, a: Reach)
    requires AtOk(d, op, artifactId, a)
    ensures OutlineOk(d.h, a.manifest, a.bytes, a.index)
  {
    hide TextIndex.IndexOf, Decode, Consistent, RecordOk, CoverMatches, IdsOk;
    forall k | 0 <= k < |a.index.headings|
      ensures HeadingRangeOk(a.bytes, a.index.headings[k])
    {
      assert TextIndex.HeadingFacts(a.bytes, a.index.lineCount, a.index.headings[k]);
    }
  }

  ghost function HeadingSpec(d: Dependencies, context: Option<Context>, i: HeadingRequest): Outcome {
    if !HeadingInputOk(i) then Refuse(HeadingOp)
    else
      var a := Reached(d, HeadingOp, context, i.artifactId, HeadingError(d.h, i));
      ReachedOk(d, HeadingOp, context, i.artifactId, HeadingError(d.h, i));
      match a
      case Done(outcome) => outcome
      case At(s, m, bytes, x) =>
        ReachedOutline(d, HeadingOp, i.artifactId, a);
        HeadingTail(d, s, m, i, bytes, x)
  }

  method ArtifactReadHeading(d: Dependencies, context: Option<Context>, i: HeadingRequest) returns (outcome: Outcome)
    ensures outcome == HeadingSpec(d, context, i)
  {
    hide Reached, HeadingTail, Decode, Consistent, Disciplined, RecordOk, TextIndex.IndexOf;
    if !HeadingInputOk(i) { return Refuse(HeadingOp); }
    var a := ReachSource(d, HeadingOp, context, i.artifactId, HeadingError(d.h, i));
    ReachedOk(d, HeadingOp, context, i.artifactId, HeadingError(d.h, i));
    match a
    case Done(o) => return o;
    case At(s, m, bytes, x) =>
      ReachedOutline(d, HeadingOp, i.artifactId, a);
      outcome := SelectHeading(d, s, m, i, bytes, x);
  }

  lemma FindUnique(headings: seq<Heading>, id: string, k: int)
    requires IdsOk(headings) && Names(headings, k, id)
    ensures Find(headings, id) == k
  {
    assert Names(headings, Find(headings, id), id);
  }

  /** Reading through an accepted index and then looking the heading up agree. */
  method HeadingText(d: Dependencies, bytes: Bytes, x: TextIndex.Index, id: string)
      returns (text: Result<Text, TextIndex.TextError>, k: int)
    requires TextIndex.IndexOf(d.h, d.norm, bytes, x.mediaType) == Ok(x)
    ensures k == Find(x.headings, id) && TextIndex.HeadingAnswer(bytes, x, id, k, text)
  {
    ghost var i;
    text, i := TextIndex.ReadIndexedHeading(d.h, d.norm, bytes, x, id);
    k := TextIndex.FindHeading(x, id);
    hide TextIndex.IndexOf;
    if k >= 0 {
      FindUnique(x.headings, id, k);
      assert i < 0 || Names(x.headings, i, id);
      if i >= 0 {
        FindUnique(x.headings, id, i);
      }
    }
  }

  method SelectHeading(d: Dependencies, s: Session, m: Manifest, i: HeadingRequest, bytes: Bytes, x: TextIndex.Index)
      returns (outcome: Outcome)
    requires WholeMatches(d.h, m, bytes) && TextIndex.IndexOf(d.h, d.norm, bytes, x.mediaType) == Ok(x)
    requires OutlineOk(d.h, m, bytes, x) && HeadingInputOk(i)
    ensures outcome == HeadingTail(d, s, m, i, bytes, x)
  {
    hide HeadingSelected, Decode, Consistent, CoverMatches, TextIndex.IndexOf, IdsOk;
    var text, k := HeadingText(d, bytes, x, i.headingId);
    if text == Err(TextIndex.InvalidHeadingId) || k < 0 {
      return ConcludeSession(s, Failure(ResourceUnavailable), NO_COUNTS);
    }
    outcome := FinishHeading(d, s, m, i, bytes, x.headings[k], text);
  }

  method FinishHeading(d: Dependencies, s: Session, m: Manifest, i: HeadingRequest, bytes: Bytes, y: Heading,
      text: Result<Text, TextIndex.TextError>) returns (outcome: Outcome)
    requires WholeMatches(d.h, m, bytes) && HeadingRangeOk(bytes, y) && HeadingInputOk(i)
    requires if y.byteLength > MAX_RANGE_BYTES then text == Err(TextIndex.ResponseLimitExceeded)
             else text.Ok? && Decode(TextIndex.HeadingBytes(bytes, y)) == Some(text.value)
    ensures outcome == HeadingSelected(d, s, m, i, bytes, y)
  {
    hide CoverMatches, FailClosed, Succeed, OutputOk, IntegrityOfRange;
    if text.Err? { return FailClosed(s, HeadingError(d.h, i), MapTextError(text.error), NO_COUNTS); }
    var r := ByteRange(y.byteStart, y.byteLength);
    if r.length > MAX_RANGE_BYTES { return FailClosed(s, HeadingError(d.h, i), Code.ResponseLimitExceeded, NO_COUNTS); }
    var slice := TextIndex.HeadingBytes(bytes, y);
    HeadingCandidateOk(d.h, m, i, r, slice);
    var sha256 := d.h(slice);
    var x, code := IntegrityOfSpan(d.h, m, bytes, RequestedHeading(i.headingId), r, sha256);
    if x.None? { return FailClosed(s, HeadingError(d.h, i), code, NO_COUNTS); }
    var candidate := Candidate(HeadingResult(i.headingId, text.value, x.value), HeadingDetail(i.headingId, r, sha256),
      Counts(None, Some(m.byteLength), Some(r.length)), Counts(None, None, Some(r.length)));
    outcome := Send(d.h, s, d.wire, candidate, HeadingError(d.h, i), NO_COUNTS);
  }

  lemma HeadingCandidateOk(h: Hash, m: Manifest, i: HeadingRequest, r: ByteRange, bytes: Bytes)
    requires Consistent(h, m) && InBounds(r, m.byteLength) && Decode(bytes).Some? && |bytes| == r.length
    requires HeadingInputOk(i)
    ensures CandidateOk(h, HeadingCandidate(h, m, i, r, bytes)) && Encode(Decode(bytes).value) == bytes
  {
    hide Decode, Consistent, IntegrityOfRange, IntegrityOk, ArtifactIdOk, Encode, SearchOk, MetadataOk;
    SpanIntegrityOk(h, m, RequestedHeading(i.headingId), r, bytes);
  }

  // ----- what the rest of a heading read does -----

  predicate HoldsHeading(source: Bytes, y: Heading, o: Output) {
    && o.HeadingResult? && o.headingId == y.headingId && o.integrity.returned == ByteRange(y.byteStart, y.byteLength)
    && Encode(o.data) == TextIndex.HeadingBytes(source, y)
  }

  predicate HeadingFits(d: Dependencies, m: Manifest, i: HeadingRequest, bytes: Bytes, y: Heading)
    requires Consistent(d.h, m) && m.byteLength == |bytes| && HeadingRangeOk(bytes, y)
  {
    var r := ByteRange(y.byteStart, y.byteLength);
    && y.byteLength <= MAX_RANGE_BYTES
    && d.wire(HeadingOutput(d.h, m, i, r, TextIndex.HeadingBytes(bytes, y))) <= MAX_ARTIFACT_RESPONSE_BYTES
  }

  lemma HeadingSelectedFacts(d: Dependencies, s: Session, m: Manifest, i: HeadingRequest, bytes: Bytes, y: Heading)
    requires Consistent(d.h, m) && m.byteLength == |bytes| && HeadingRangeOk(bytes, y)
    requires HeadingInputOk(i) && y.headingId == i.headingId && Unreported(s, HeadingOp)
    ensures var o := HeadingSelected(d, s, m, i, bytes, y);
      && Disciplined(d.h, HeadingOp, o)
      && if FourDigitYear(s.now) && HeadingFits(d, m, i, bytes, y) then HoldsHeading(bytes, y, o.output)
         else o.output.Failure?
  {
    hide Consistent, Decode, Disciplined, RecordOk, CandidateOk, FailClosed, VerifiedRange;
    if y.byteLength > MAX_RANGE_BYTES {
      FailClosedDisciplined(d.h, s, HeadingError(d.h, i), Code.ResponseLimitExceeded, NO_COUNTS);
      FailClosedOutput(s, HeadingError(d.h, i), Code.ResponseLimitExceeded, NO_COUNTS);
    } else {
      var r, slice := ByteRange(y.byteStart, y.byteLength), TextIndex.HeadingBytes(bytes, y);
      var c := HeadingCandidate(d.h, m, i, r, slice);
      HeadingCandidateOk(d.h, m, i, r, slice);
      AnswerFacts(d.h, s, d.wire, c, HeadingError(d.h, i), NO_COUNTS);
      hide Answer;
    }
  }

  /** There is a heading with this identifier and its line fits one answer. */
  ghost predicate OutlineFits(d: Dependencies, m: Manifest, i: HeadingRequest, bytes: Bytes, x: TextIndex.Index) {
    && OutlineOk(d.h, m, bytes, x)
    && exists k :: Names(x.headings, k, i.headingId) && HeadingFits(d, m, i, bytes, x.headings[k])
  }

  /** The output holds the heading line that the index gives this identifier. */
  ghost predicate HoldsNamed(source: Bytes, x: TextIndex.Index, id: string, o: Output) {
    exists k :: Names(x.headings, k, id) && HoldsHeading(source, x.headings[k], o)
  }

  lemma HeadingTailFacts(d: Dependencies, s: Session, m: Manifest, i: HeadingRequest, bytes: Bytes, x: TextIndex.Index)
    requires OutlineOk(d.h, m, bytes, x) && HeadingInputOk(i) && Unreported(s, HeadingOp)
    ensures var o := HeadingTail(d, s, m, i, bytes, x);
      && Disciplined(d.h, HeadingOp, o)
      && if FourDigitYear(s.now) && OutlineFits(d, m, i, bytes, x) then HoldsNamed(bytes, x, i.headingId, o.output)
         else o.output.Failure?
  {
    hide HeadingSelected, HeadingFits, HoldsHeading, Decode, RecordOk, Consistent, IdsOk;
    var found := Find(x.headings, i.headingId);
    if found >= 0 {
      hide Disciplined;
      HeadingSelectedFacts(d, s, m, i, bytes, x.headings[found]);
      forall k | Names(x.headings, k, i.headingId)
        ensures k == found
      {
        FindUnique(x.headings, i.headingId, k);
      }
    }
  }

  // ----- heading reads end to end -----

  /** Every heading call keeps the evidence discipline. */
  lemma HeadingDisciplined(d: Dependencies, context: Option<Context>, i: HeadingRequest)
    ensures Disciplined(d.h, HeadingOp, HeadingSpec(d, context, i))
  {
    hide Reached, HeadingTail, OutlineFits, OutlineOk, Disciplined, RecordOk, WholeMatches, TextIndex.IndexOf,
      HoldsNamed;
    if HeadingInputOk(i) {
      var a := Reached(d, HeadingOp, context, i.artifactId, HeadingError(d.h, i));
      ReachedOk(d, HeadingOp, context, i.artifactId, HeadingError(d.h, i));
      if a.At? {
        ReachedOutline(d, HeadingOp, i.artifactId, a);
        HeadingTailFacts(d, a.session, a.manifest, i, a.bytes, a.index);
      }
    } else {
      RefuseDisciplined(d.h, HeadingOp);
    }
  }

  /** The output holds the heading line that the index of the source gives this identifier. */
  ghost predicate HeadingOfSource(d: Dependencies, source: Bytes, id: string, o: Output) {
    match TextIndex.IndexOf(d.h, d.norm, source, TextIndex.Markdown)
    case Err(_) => false
    case Ok(x) => HoldsNamed(source, x, id, o)
  }

  /** End to end: a successful heading read returns the bytes of the heading that the index of any
      source with the recorded digest names so, or a collision with it is in hand. */
  lemma HeadingAuthentic(d: Dependencies, context: Option<Context>, i: HeadingRequest, source: Bytes)
      returns (other: Bytes)
    requires !HeadingSpec(d, context, i).output.Failure? && Recorded(d, i.artifactId, source)
    ensures Collision(d.h, other, source) || HeadingOfSource(d, source, i.headingId, HeadingSpec(d, context, i).output)
  {
    hide Reached, HeadingTail, OutlineFits, Disciplined, RecordOk, WholeMatches, TextIndex.IndexOf, HoldsNamed;
    var a := Reached(d, HeadingOp, context, i.artifactId, HeadingError(d.h, i));
    ReachedOk(d, HeadingOp, context, i.artifactId, HeadingError(d.h, i));
    ReachedAuthentic(d, HeadingOp, context, i.artifactId, HeadingError(d.h, i), source);
    other := source;
    if a.At? {
      ReachedOutline(d, HeadingOp, i.artifactId, a);
      HeadingTailFacts(d, a.session, a.manifest, i, a.bytes, a.index);
      other := a.bytes;
    }
  }

  /** When the heading with an identifier is answered. */
  ghost predicate HeadingAnswerable(d: Dependencies, i: HeadingRequest, source: Bytes) {
    match (d.resolve(i.artifactId), d.clock)
    case (Found(record), Some(now)) =>
      && HeadingInputOk(i) && RecordOk(record) && Refusal(HeadingOp, record).None? && FourDigitYear(now)
      && var m := ManifestOfRecord(record);
      (match TextIndex.IndexOf(d.h, d.norm, source, TextIndex.Markdown)
       case Err(_) => false
       case Ok(x) => OutlineFits(d, m, i, source, x))
    case _ => false
  }

  /** Over an honest registry and store a heading read succeeds exactly when the source has such a
      heading and it is answerable, and then it returns that heading. */
  lemma HeadingServesExactly(d: Dependencies, context: Option<Context>, i: HeadingRequest, source: Bytes)
    requires Honest(d, context, i.artifactId, source)
    ensures var o := HeadingSpec(d, context, i).output;
      if HeadingAnswerable(d, i, source) then HeadingOfSource(d, source, i.headingId, o) else o.Failure?
  {
    hide Reached, Honest, HeadingTail, OutlineFits, Disciplined, WholeMatches, TextIndex.IndexOf, Consistent;
    if HeadingInputOk(i) {
      var a := Reached(d, HeadingOp, context, i.artifactId, HeadingError(d.h, i));
      ReachedOk(d, HeadingOp, context, i.artifactId, HeadingError(d.h, i));
      ReachedHonest(d, HeadingOp, context, i.artifactId, HeadingError(d.h, i), source);
      if a.At? {
        ReachedOutline(d, HeadingOp, i.artifactId, a);
        HeadingTailFacts(d, a.session, a.manifest, i, a.bytes, a.index);
      }
    }
  }
}
