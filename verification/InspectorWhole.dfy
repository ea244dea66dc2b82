/** The complete-source read of artifact-inspector.ts, up to the text index: what lines, heading and
    search have in common. */
module InspectorWhole {
  import opened Hashing
  import opened ChunkManifest
  import opened Covering
  import opened Evidence
  import opened Inspector
  import opened Registry
  import opened Utf8
  import TextIndex

  const MAX_LINE_SOURCE_SCAN_BYTES := 262_144
  const MAX_EXACT_SEARCH_SOURCE_BYTES := 8_192

  function MapTextError(e: TextIndex.TextError): Code {
    match e
    case SourceTooLarge => Code.ResponseLimitExceeded
    case TooManyLines => Code.ResponseLimitExceeded
    case TooManyHeadingLines => Code.ResponseLimitExceeded
    case ResponseLimitExceeded => Code.ResponseLimitExceeded
    case SourceMismatch => IntegrityFailure
    case InconsistentIndex => IntegrityFailure
    case InvalidUtf8 => IntegrityFailure
    case InvalidLineRange => InvalidRequest
    case InvalidHeadingId => InternalError
  }

  datatype Whole = Stopped(code: Code) | Vanished | Whole(bytes: Bytes, index: TextIndex.Index)

  function WholeRange(s: Session): ByteRange { ByteRange(0, s.record.byteLength) }

  /** The source in full, proved equal to what the manifest declares, with its text index. */
  ghost function WholeOf(d: Dependencies, s: Session, m: Manifest, media: TextIndex.MediaType): Whole {
    var call := CallFor(s, WholeRange(s));
    match Fetch(call, d.read(call))
    case Failed(f) => Stopped(FailureCode(f))
    case Gone => Vanished
    case Got(bytes) =>
      if BuildError(bytes, m.chunkSize).Some? || m != ManifestOf(d.h, bytes, m.chunkSize) then Stopped(IntegrityFailure)
      else
        match TextIndex.IndexOf(d.h, d.norm, bytes, media)
        case Err(e) => Stopped(MapTextError(e))
        case Ok(index) => Whole(bytes, index)
  }

  function MediaOf(media: Media): TextIndex.MediaType {
    if media.MarkdownText? then TextIndex.Markdown else TextIndex.Plain
  }

  method ReadWhole(d: Dependencies, s: Session, m: Manifest, media: TextIndex.MediaType) returns (w: Whole)
    requires Consistent(d.h, m)
    ensures w == WholeOf(d, s, m, media)
  {
    var call := CallFor(s, WholeRange(s));
    var fetched := Fetch(call, d.read(call));
    match fetched
    case Failed(f) => return Stopped(FailureCode(f));
    case Gone => return Vanished;
    case Got(bytes) =>
      var verified := VerifyArtifactSourceManifest(d.h, bytes, m);
      if verified != Ok(true) { return Stopped(IntegrityFailure); }
      var index := TextIndex.BuildArtifactTextIndex(d.h, d.norm, bytes, media);
      if index.Err? { return Stopped(MapTextError(index.error)); }
      return Whole(bytes, index.value);
  }

  /** Covering proofs over a verified complete source never fail. */
  method CoverWhole(h: Hash, m: Manifest, bytes: Bytes, start: nat, end: nat)
      returns (verified: Option<seq<VerifiedChunk>>)
    requires WholeMatches(h, m, bytes) && start <= end < m.chunkCount
    ensures verified == Some(VerifiedRange(h, m, start, end))
  {
    verified := BuildAndVerifyCoveringChunks(h, m, start, end, bytes, 0);
  }

  /** The integrity object of a range of a verified complete source. The exits for a failed cover and
      for too many chunks do not occur. */
  method IntegrityOfSpan(h: Hash, m: Manifest, bytes: Bytes, requested: RequestedRange, r: ByteRange, sha256: Digest)
      returns (x: Option<Integrity>, code: Code)
    requires WholeMatches(h, m, bytes) && InBounds(r, m.byteLength)
    ensures x == Some(IntegrityOfRange(h, m, requested, r, sha256))
  {
    hide VerifiedOf, CoverMatches;
    CoverGeometry(r, m.byteLength, m.chunkSize);
    var start, end := r.offset / m.chunkSize, (r.offset + r.length - 1) / m.chunkSize;
    var verified := CoverWhole(h, m, bytes, start, end);
    code := IntegrityFailure;
    if verified.None? { return None, code; }
    if |verified.value| > MAX_VERIFIED_CHUNKS_PER_READ { return None, Code.ResponseLimitExceeded; }
    x := Some(Integrity(requested, start, end, r, m.chunkSize, m.chunkCount, verified.value, m.merkleRoot, sha256,
      m.sourceSha256));
  }

  lemma SpanIntegrityOk(h: Hash, m: Manifest, requested: RequestedRange, r: ByteRange, bytes: Bytes)
    requires Consistent(h, m) && InBounds(r, m.byteLength) && RequestedOk(requested) && !requested.RequestedBytes?
    requires |bytes| == r.length <= MAX_RANGE_BYTES && Decode(bytes).Some?
    ensures var x := IntegrityOfRange(h, m, requested, r, h(bytes));
      IntegrityOk(x) && BindsData(h, Decode(bytes).value, x) && x.requested == requested && x.returned == r
    ensures Encode(Decode(bytes).value) == bytes
  {
    assert GeometryConsistent(m);
    hide Consistent, Decode, VerifiedRange, IntegrityFieldsOk;
    CoverGeometry(r, m.byteLength, m.chunkSize);
    IntegrityAlwaysOk(h, m, requested, StartChunk(r, m.chunkSize), EndChunk(r, m.chunkSize), r, h(bytes));
    EncodeDecode(bytes);
  }

  // ----- reaching the indexed source -----

  /** The operations that read their source in full. */
  predicate Indexed(op: Operation) { op.LinesOp? || op.HeadingOp? || op.SearchOp? }

  /** What is refused before the source is read: its media type, an empty source to search, its size. */
  function Refusal(op: Operation, r: Record): Option<Code> {
    if r.media.OtherMedia? || (op.HeadingOp? && !r.media.MarkdownText?) then Some(Unsupported)
    else if op.SearchOp? && r.byteLength == 0 then Some(ResourceUnavailable)
    else if r.byteLength > (if op.SearchOp? then MAX_EXACT_SEARCH_SOURCE_BYTES else MAX_LINE_SOURCE_SCAN_BYTES)
      then Some(Code.ResponseLimitExceeded)
    else None
  }

  /** The call has ended, or it is at the verified and indexed source. */
  datatype Reach = Done(outcome: Outcome) | At(session: Session, manifest: Manifest, bytes: Bytes,
    index: TextIndex.Index)

  /** A search leaves its error detail even for a record whose manifest does not close. */
  function FrontFor(d: Dependencies, op: Operation, context: Option<Context>, artifactId: string,
      error: Detail): Front {
    FrontOf(d, op, context, artifactId, NO_COUNTS, if op.SearchOp? then Some(error) else None)
  }

  ghost function SourceFor(d: Dependencies, s: Session, m: Manifest, error: Detail): Reach {
    match Refusal(s.op, s.record)
    case Some(code) => Done(FailClosed(s, error, code, NO_COUNTS))
    case None =>
      var t := Reading(s, WholeRange(s));
      match WholeOf(d, s, m, MediaOf(s.record.media))
      case Stopped(code) => Done(FailClosed(t, error, code, NO_COUNTS))
      case Vanished => Done(ConcludeSession(t, Failure(ResourceUnavailable), NO_COUNTS))
      case Whole(bytes, x) => At(t, m, bytes, x)
  }

  ghost function Reached(d: Dependencies, op: Operation, context: Option<Context>, artifactId: string,
      error: Detail): Reach {
    match FrontFor(d, op, context, artifactId, error)
    case Halt(outcome) => Done(outcome)
    case Go(s, m) => SourceFor(d, s, m, error)
  }

  method ReachSource(d: Dependencies, op: Operation, context: Option<Context>, artifactId: string, error: Detail)
      returns (a: Reach)
    ensures a == Reached(d, op, context, artifactId, error)
  {
    hide FailClosed, WholeOf, Consistent, Disciplined, RecordOk, FrontOf;
    var onInconsistent := if op.SearchOp? then Some(error) else None;
    var front := Begin(d, op, context, artifactId, NO_COUNTS, onInconsistent);
    FrontAdmits(d, op, context, artifactId, NO_COUNTS, onInconsistent);
    if front.Halt? { return Done(front.outcome); }
    a := FetchSource(d, front.session, front.manifest, error);
  }

  /** The chunk-count exit of a search does not occur. */
  method FetchSource(d: Dependencies, s: Session, m: Manifest, error: Detail) returns (a: Reach)
    requires Consistent(d.h, m) && m.byteLength == s.record.byteLength
    ensures a == SourceFor(d, s, m, error)
  {
    CountPositive(m);
    hide FailClosed, WholeOf, Consistent;
    var media := s.record.media;
    if media.OtherMedia? || (s.op.HeadingOp? && !media.MarkdownText?) {
      return Done(FailClosed(s, error, Unsupported, NO_COUNTS));
    }
    var limit := MAX_LINE_SOURCE_SCAN_BYTES;
    if s.op.SearchOp? {
      if s.record.byteLength == 0 { return Done(FailClosed(s, error, ResourceUnavailable, NO_COUNTS)); }
      limit := MAX_EXACT_SEARCH_SOURCE_BYTES;
    }
    if s.record.byteLength > limit { return Done(FailClosed(s, error, Code.ResponseLimitExceeded, NO_COUNTS)); }
    if s.op.SearchOp? && m.chunkCount > MAX_VERIFIED_CHUNKS_PER_READ {
      return Done(FailClosed(s, error, Code.ResponseLimitExceeded, NO_COUNTS));
    }
    var w := ReadWhole(d, s, m, MediaOf(media));
    var t := Reading(s, WholeRange(s));
    match w
    case Stopped(code) => return Done(FailClosed(t, error, code, NO_COUNTS));
    case Vanished => return Done(ConcludeSession(t, Failure(ResourceUnavailable), NO_COUNTS));
    case Whole(bytes, x) => return At(t, m, bytes, x);
  }

  lemma CountPositive(m: Manifest)
    requires GeometryConsistent(m)
    ensures m.byteLength > 0 ==> 0 < m.chunkCount
    ensures m.byteLength <= MAX_EXACT_SEARCH_SOURCE_BYTES ==> m.chunkCount <= 8
  {
    CeilDivBounds(m.byteLength, m.chunkSize);
    if m.chunkSize == 1_024 {
    } else if m.chunkSize == 4_096 {
    } else {
    }
  }

  // ----- what a reached source brings with it -----

  ghost predicate AtOk(d: Dependencies, op: Operation, artifactId: string, a: Reach) {
    && a.At? && Unreported(a.session, op) && a.session.artifactId == artifactId && Refusal(op, a.session.record).None?
    && d.resolve(artifactId) == Found(a.session.record) && a.manifest == ManifestOfRecord(a.session.record)
    && WholeMatches(d.h, a.manifest, a.bytes)
    && TextIndex.IndexOf(d.h, d.norm, a.bytes, MediaOf(a.session.record.media)) == Ok(a.index)
  }

  /** A call that ends early is disciplined and has failed; one that goes on has a verified source. */
  lemma ReachedOk(d: Dependencies, op: Operation, context: Option<Context>, artifactId: string, error: Detail)
    requires Indexed(op)
    ensures var a := Reached(d, op, context, artifactId, error);
      match a
      case Done(o) => Disciplined(d.h, op, o) && o.output.Failure?
      case At(_, _, _, _) => AtOk(d, op, artifactId, a)
  {
    var onInconsistent := if op.SearchOp? then Some(error) else None;
    FrontAdmits(d, op, context, artifactId, NO_COUNTS, onInconsistent);
    var f := FrontOf(d, op, context, artifactId, NO_COUNTS, onInconsistent);
    hide FrontOf, Consistent, SourceFor, Disciplined, WholeMatches, TextIndex.IndexOf;
    if f.Go? {
      SourceOk(d, f.session, f.manifest, error);
    }
  }

  lemma SourceOk(d: Dependencies, s: Session, m: Manifest, error: Detail)
    requires Consistent(d.h, m) && Unreported(s, s.op) && s.log.fetches == [] && Indexed(s.op)
    ensures var a := SourceFor(d, s, m, error);
      match a
      case Done(o) => Disciplined(d.h, s.op, o) && o.output.Failure?
      case At(t, n, bytes, x) =>
        && n == m && t == Reading(s, WholeRange(s)) && Unreported(t, s.op) && Refusal(s.op, s.record).None?
        && WholeMatches(d.h, m, bytes) && TextIndex.IndexOf(d.h, d.norm, bytes, MediaOf(s.record.media)) == Ok(x)
  {
    var t, media := Reading(s, WholeRange(s)), MediaOf(s.record.media);
    WholeIsOk(d, s, m, media);
    hide WholeOf, TextIndex.IndexOf, WholeMatches, RecordOk, FailClosed, Consistent;
    var refusal, w := Refusal(s.op, s.record), WholeOf(d, s, m, media);
    if refusal.Some? {
      FailClosedDisciplined(d.h, s, error, refusal.value, NO_COUNTS);
      FailClosedOutput(s, error, refusal.value, NO_COUNTS);
    } else if w.Stopped? {
      FailClosedDisciplined(d.h, t, error, w.code, NO_COUNTS);
      FailClosedOutput(t, error, w.code, NO_COUNTS);
    }
  }

  lemma WholeIsOk(d: Dependencies, s: Session, m: Manifest, media: TextIndex.MediaType)
    ensures match WholeOf(d, s, m, media)
      case Whole(bytes, x) => WholeMatches(d.h, m, bytes) && TextIndex.IndexOf(d.h, d.norm, bytes, media) == Ok(x)
      case Stopped(code) => code != DeadlineExceeded && code != ResourceUnavailable
      case Vanished => true
  {
    hide TextIndex.IndexOf, ManifestOf, BuildError, CoverMatches, Consistent;
    var w := WholeOf(d, s, m, media);
    if w.Whole? {
      BuiltMatches(d.h, m, w.bytes);
    }
  }

  /** The bytes reached are those of any source with the recorded digest, or the two collide. */
  lemma ReachedAuthentic(d: Dependencies, op: Operation, context: Option<Context>, artifactId: string, error: Detail,
      source: Bytes)
    requires Recorded(d, artifactId, source)
    ensures match Reached(d, op, context, artifactId, error)
      case Done(_) => true
      case At(_, _, bytes, _) => Collision(d.h, bytes, source) || bytes == source
  {
    var onInconsistent := if op.SearchOp? then Some(error) else None;
    FrontAdmits(d, op, context, artifactId, NO_COUNTS, onInconsistent);
    hide FrontOf, TextIndex.IndexOf, RecordOk, Consistent, FailClosed, Disciplined;
  }

  /** The registry records the digest of this source. */
  predicate Recorded(d: Dependencies, artifactId: string, source: Bytes) {
    match d.resolve(artifactId)
    case Found(record) => record.sourceSha256 == d.h(source)
    case _ => false
  }

  /** Over an honest registry and store exactly the sources that are not refused and that have an
      index are reached, and then it is the true source. */
  lemma ReachedHonest(d: Dependencies, op: Operation, context: Option<Context>, artifactId: string, error: Detail,
      source: Bytes)
    requires Honest(d, context, artifactId, source)
    ensures match d.resolve(artifactId)
      case Found(record) =>
        var index := TextIndex.IndexOf(d.h, d.norm, source, MediaOf(record.media));
        (match Reached(d, op, context, artifactId, error)
         case Done(_) => Refusal(op, record).Some? || index.Err?
         case At(s, m, bytes, x) =>
           && Refusal(op, record).None? && bytes == source && index == Ok(x)
           && d.clock == Some(s.now) && s.record == record)
      case _ => false
  {
    var onInconsistent := if op.SearchOp? then Some(error) else None;
    HonestFront(d, op, context, artifactId, NO_COUNTS, onInconsistent, source);
    var f := FrontOf(d, op, context, artifactId, NO_COUNTS, onInconsistent);
    FrontAdmits(d, op, context, artifactId, NO_COUNTS, onInconsistent);
    HonestWhole(d, f.session, f.manifest, MediaOf(f.session.record.media), source);
    hide FrontOf, WholeOf, TextIndex.IndexOf, TrueSession, Honest, FailClosed, Disciplined;
  }

  lemma HonestWhole(d: Dependencies, s: Session, m: Manifest, media: TextIndex.MediaType, source: Bytes)
    requires TrueSession(d, s, m, source)
    ensures WholeOf(d, s, m, media) == match TextIndex.IndexOf(d.h, d.norm, source, media)
                                       case Ok(x) => Whole(source, x)
                                       case Err(e) => Stopped(MapTextError(e))
  {
    hide TextIndex.IndexOf, Consistent;
    assert HonestRead(d, s.record, source, CallFor(s, WholeRange(s)));
    HonestFetch(d, s, source, WholeRange(s));
    assert Covered(source, WholeRange(s)) == source;
  }
}
