/** The text index of artifact-text-index.ts: building it, re-checking a foreign one against
    the source, and reading lines and headings through it. */
module TextIndex {
  import opened Hashing
  import opened Utf8
  import opened Lines
  import opened HeadingIds
  import opened Headings

  const MAX_TEXT_INDEX_BYTES := 262_144
  const MAX_LINE_READ_COUNT := 200
  const MAX_TEXT_READ_BYTES := 8_192

  datatype MediaType = Plain | Markdown
  datatype Index = Index(
    sourceSha256: Bytes, byteLength: int, mediaType: MediaType, lineCount: int, lines: seq<TextLine>,
      headings: seq<Heading>)
  datatype TextError =
    | SourceTooLarge | TooManyLines | TooManyHeadingLines | InvalidUtf8 | InvalidLineRange | InvalidHeadingId
    | ResponseLimitExceeded | SourceMismatch | InconsistentIndex

  function HeadingFailure(e: HeadingError): TextError {
    match e case HeadingTextTooLong => ResponseLimitExceeded case TooManyHeadings => TooManyHeadingLines
  }

  // ----- facts about headings -----

  /** Each expected record comes from one heading line. */
  lemma {:induction false} ExpectedFrom(norm: Normalizer, s: Bytes, lines: seq<TextLine>, k: nat, i: nat)
      returns (j: nat)
    requires Decode(s).Some? && Partition(s, lines) && k <= |lines| && i < |Expected(norm, s, lines, k)|
    ensures j < k && |BodyAt(norm, s, lines, j)| == 1 && BodyAt(norm, s, lines, j)[0] == Expected(norm, s, lines, k)[i]
    decreases k
  {
    hide Decode, Partition, BodyAt, HeadingLine;
    ExpectedEmpty(norm, s, lines);
    ExpectedSplit(norm, s, lines, k);
    var n := |Expected(norm, s, lines, k - 1)|;
    if i < n {
      j := ExpectedFrom(norm, s, lines, k - 1, i);
    } else {
      j := k - 1;
    }
  }

  lemma ExpectedEmpty(norm: Normalizer, s: Bytes, lines: seq<TextLine>)
    requires Decode(s).Some? && Partition(s, lines)
    ensures Expected(norm, s, lines, 0) == []
  {
  }

  lemma ExpectedSplit(norm: Normalizer, s: Bytes, lines: seq<TextLine>, k: nat)
    requires Decode(s).Some? && Partition(s, lines) && 0 < k <= |lines|
    ensures var all, before, body := Expected(norm, s, lines, k), Expected(norm, s, lines, k - 1),
      BodyAt(norm, s, lines, k - 1);
            && |before| <= |all| && (forall i | 0 <= i < |before| :: all[i] == before[i])
            && (forall i | |before| <= i < |all| :: i == |before| && |body| == 1 && all[i] == body[0])
  {
  }

  /** A scanned heading names a real line, whose content is at least two bytes long. */
  lemma HeadingPlace(norm: Normalizer, s: Bytes, lines: seq<TextLine>, headings: seq<Heading>, i: nat) returns (j: nat)
    requires Decode(s).Some? && Partition(s, lines) && HeadingsOf(norm, s, lines) == Ok(headings) && i < |headings|
    ensures j < |lines| && LineOk(s, lines[j])
    ensures var y := headings[i];
            && y.lineNumber == j + 1 && y.byteStart == lines[j].byteStart
              && 2 <= y.byteLength == lines[j].contentByteLength
            && 1 <= y.level <= MAX_HEADING_LEVEL && |y.rawText| <= MAX_HEADING_TEXT_CHARS && HeadingIdOk(y.headingId)
  {
    HeadingsSound(norm, s, lines, |lines|);
    assert Unnamed(headings)[i] == Expected(norm, s, lines, |lines|)[i];
    j := ExpectedFrom(norm, s, lines, |lines|, i);
    RecordAt(s, lines, j);
    ContentDecodes(s, lines, j);
    TextNoLongerThanBytes(s[lines[j].byteStart..lines[j].ContentEnd()]);
    assert BodyAt(norm, s, lines, j)[0] == headings[i].(headingId := "");
  }

  function HeadingBytes(s: Bytes, y: Heading): Bytes {
    if 0 <= y.byteStart && 0 <= y.byteLength && y.byteStart + y.byteLength <= |s|
      then s[y.byteStart..y.byteStart + y.byteLength] else []
  }

  /** A heading within the bounds of the profile whose bytes lie in the source and decode. */
  predicate HeadingFacts(s: Bytes, lineCount: int, y: Heading) {
    && 1 <= y.lineNumber <= lineCount && 1 <= y.level <= MAX_HEADING_LEVEL && |y.rawText| <= MAX_HEADING_TEXT_CHARS
    && 0 <= y.byteStart && 2 <= y.byteLength && y.byteStart + y.byteLength <= |s|
    && Decode(HeadingBytes(s, y)).Some?
  }

  lemma OneHeadingFacts(norm: Normalizer, s: Bytes, lines: seq<TextLine>, headings: seq<Heading>, i: nat)
    requires Decode(s).Some? && Partition(s, lines) && HeadingsOf(norm, s, lines) == Ok(headings) && i < |headings|
    ensures HeadingFacts(s, |lines|, headings[i])
  {
    hide Decode, Partition, HeadingsOf;
    var j := HeadingPlace(norm, s, lines, headings, i);
    LineContent(s, lines, j, headings[i].byteStart, headings[i].byteLength);
  }

  lemma LineContent(s: Bytes, lines: seq<TextLine>, j: nat, start: int, length: int)
    requires Decode(s).Some? && Partition(s, lines) && j < |lines|
    requires start == lines[j].byteStart && length == lines[j].contentByteLength
    ensures 0 <= start && 0 <= length && start + length <= |s| && Decode(s[start..start + length]).Some?
  {
    RecordAt(s, lines, j);
    var end := start + length;
    assert end == lines[j].ContentEnd();
    ContentDecodes(s, lines, j);
  }

  lemma HeadingsFacts(norm: Normalizer, s: Bytes, lines: seq<TextLine>, headings: seq<Heading>)
    requires Decode(s).Some? && Partition(s, lines) && HeadingsOf(norm, s, lines) == Ok(headings)
    ensures IdsOk(headings) && forall k | 0 <= k < |headings| :: HeadingFacts(s, |lines|, headings[k])
  {
    HeadingsSound(norm, s, lines, |lines|);
    forall k | 0 <= k < |headings| ensures HeadingFacts(s, |lines|, headings[k]) {
      OneHeadingFacts(norm, s, lines, headings, k);
    }
  }

  // ----- the index -----

  /** What every built index satisfies. */
  ghost predicate IndexFacts(s: Bytes, media: MediaType, x: Index) {
    && x.mediaType == media && WellFormedDigest(x.sourceSha256)
    && x.byteLength == |s| <= MAX_TEXT_INDEX_BYTES && Decode(s).Some?
    && Partition(s, x.lines) && x.lineCount == |x.lines| <= MAX_TEXT_INDEX_LINES
    && IdsOk(x.headings) && forall k | 0 <= k < |x.headings| :: HeadingFacts(s, x.lineCount, x.headings[k])
  }

  /** The one index of a source, or the reason it has none. */
  ghost function IndexOf(h: Hash, norm: Normalizer, s: Bytes, media: MediaType): (r: Result<Index, TextError>)
    ensures r.Ok? ==> IndexFacts(s, media, r.value)
  {
    if |s| > MAX_TEXT_INDEX_BYTES then Err(SourceTooLarge)
    else if Decode(s).None? then Err(InvalidUtf8)
    else if |LinesOf(s)| > MAX_TEXT_INDEX_LINES then Err(TooManyLines)
    else
      CanonicalPartition(s, LinesOf(s));
      var lines := LinesOf(s);
      match (if media.Plain? then Ok([]) else HeadingsOf(norm, s, lines))
      case Err(e) => Err(HeadingFailure(e))
      case Ok(headings) =>
        if media.Markdown? then
          HeadingsFacts(norm, s, lines, headings);
          Ok(Index(h(s), |s|, media, |lines|, lines, headings))
        else Ok(Index(h(s), |s|, media, |lines|, lines, []))
  }

  method BuildArtifactTextIndex(h: Hash, norm: Normalizer, s: Bytes, media: MediaType)
      returns (r: Result<Index, TextError>)
    ensures r == IndexOf(h, norm, s, media)
  {
    hide Decode, LinesOf, Partition, HeadingsOf, IndexFacts;
    if |s| > MAX_TEXT_INDEX_BYTES { return Err(SourceTooLarge); }
    if Decode(s).None? { return Err(InvalidUtf8); }
    var scanned := ScanLines(s);
    if scanned.None? { return Err(TooManyLines); }
    var lines := scanned.value;
    CanonicalPartition(s, lines);
    var headings: seq<Heading> := [];
    if media.Markdown? {
      var found := ScanHeadings(norm, s, lines);
      if found.Err? { return Err(HeadingFailure(found.error)); }
      headings := found.value;
    }
    return Ok(Index(h(s), |s|, media, |lines|, lines, headings));
  }

  // ----- accepting a foreign index -----

  predicate LineShape(x: Index, l: TextLine) {
    && 1 <= l.lineNumber <= MAX_TEXT_INDEX_LINES
    && 0 <= l.byteStart <= x.byteLength && 0 <= l.contentByteLength <= x.byteLength
    && 0 <= l.newlineByteLength <= 2
  }

  predicate HeadingShape(x: Index, y: Heading) {
    && 1 <= |y.headingId| <= MAX_HEADING_ID_LENGTH && |y.rawText| <= MAX_HEADING_TEXT_CHARS
    && 1 <= y.level <= MAX_HEADING_LEVEL && 1 <= y.lineNumber <= x.lineCount
    && 0 <= y.byteStart <= x.byteLength && 0 <= y.byteLength <= x.byteLength
  }

  /** assertIndexShape, on typed fields. */
  predicate IndexShape(x: Index) {
    && WellFormedDigest(x.sourceSha256)
    && 0 <= x.byteLength <= MAX_TEXT_INDEX_BYTES && 0 <= x.lineCount <= MAX_TEXT_INDEX_LINES
    && |x.lines| == x.lineCount && |x.headings| <= MAX_TEXT_INDEX_HEADINGS
    && (forall k | 0 <= k < |x.lines| :: LineShape(x, x.lines[k]))
    && (forall k | 0 <= k < |x.headings| :: HeadingShape(x, x.headings[k]))
  }

  lemma LineShapes(s: Bytes, x: Index)
    requires Partition(s, x.lines) && |x.lines| <= MAX_TEXT_INDEX_LINES && x.byteLength == |s|
    ensures forall k | 0 <= k < |x.lines| :: LineShape(x, x.lines[k])
  {
    forall k | 0 <= k < |x.lines| ensures LineShape(x, x.lines[k]) {
      RecordAt(s, x.lines, k);
    }
  }

  lemma HeadingShapes(s: Bytes, x: Index)
    requires x.byteLength == |s| && IdsOk(x.headings) && forall k | 0 <= k < |x.headings| ::
      HeadingFacts(s, x.lineCount, x.headings[k])
    ensures forall k | 0 <= k < |x.headings| :: HeadingShape(x, x.headings[k])
  {
  }

  lemma BuiltShape(s: Bytes, x: Index)
    requires IndexFacts(s, x.mediaType, x)
    ensures IndexShape(x)
  {
    LineShapes(s, x);
    HeadingShapes(s, x);
  }

  lemma IndexDigest(h: Hash, norm: Normalizer, s: Bytes, media: MediaType)
    ensures IndexOf(h, norm, s, media).Ok? ==> IndexOf(h, norm, s, media).value.sourceSha256 == h(s)
  {
  }

  /** Every field of an index. */
  ghost predicate IndexHolds(h: Hash, norm: Normalizer, s: Bytes, media: MediaType, x: Index) {
    && |s| <= 262_144 && Decode(s).Some? && |LinesOf(s)| <= 10_000
    && x.sourceSha256 == h(s) && x.byteLength == |s| && x.mediaType == media
    && x.lines == LinesOf(s) && x.lineCount == |LinesOf(s)| && Partition(s, x.lines)
    && if media.Plain? then x.headings == [] else HeadingsOf(norm, s, x.lines) == Ok(x.headings)
  }

  /** Why there is no index: too large, then not decodable, then too many lines, and for Markdown too
      many headings or one that is too long. */
  ghost predicate IndexFault(norm: Normalizer, s: Bytes, media: MediaType, e: TextError) {
    if |s| > 262_144 then e == SourceTooLarge
    else if Decode(s).None? then e == InvalidUtf8
    else if |LinesOf(s)| > 10_000 then e == TooManyLines
    else
      && media.Markdown? && Partition(s, LinesOf(s)) && HeadingsOf(norm, s, LinesOf(s)).Err?
      && e == if HeadingsOf(norm, s, LinesOf(s)).error.TooManyHeadings? then TooManyHeadingLines
         else ResponseLimitExceeded
  }

  lemma IndexWritten(h: Hash, norm: Normalizer, s: Bytes, media: MediaType)
    ensures match IndexOf(h, norm, s, media)
      case Ok(x) => IndexHolds(h, norm, s, media, x)
      case Err(e) => IndexFault(norm, s, media, e)
  {
    hide Decode, LinesOf, Partition, HeadingsOf;
    CanonicalPartition(s, LinesOf(s));
  }

  /** Exact: an index is accepted if and only if it is the one rebuilt from the source. */
  method AssertConsistentIndex(h: Hash, norm: Normalizer, s: Bytes, x: Index) returns (error: Option<TextError>)
    ensures error.None? <==> IndexOf(h, norm, s, x.mediaType) == Ok(x)
    ensures IndexShape(x) && x.sourceSha256 == h(s) && IndexOf(h, norm, s, x.mediaType).Err? ==>
              error == Some(IndexOf(h, norm, s, x.mediaType).error)
    ensures IndexShape(x) && x.sourceSha256 != h(s) ==> error == Some(SourceMismatch)
  {
    hide *;
    if IndexOf(h, norm, s, x.mediaType) == Ok(x) {
      BuiltShape(s, x);
      IndexDigest(h, norm, s, x.mediaType);
    }
    if !IndexShape(x) { return Some(InconsistentIndex); }
    if x.sourceSha256 != h(s) { return Some(SourceMismatch); }
    var expected := BuildArtifactTextIndex(h, norm, s, x.mediaType);
    if expected.Err? { return Some(expected.error); }
    if x != expected.value { return Some(InconsistentIndex); }
    return None;
  }

  // ----- reads -----

  /** What stops a read of an accepted index. */
  function LineRangeError(lineCount: int, startLine: int, count: int): Option<TextError> {
    if startLine < 1 || count < 1 then Some(InvalidLineRange)
    else if count > MAX_LINE_READ_COUNT then Some(ResponseLimitExceeded)
    else if startLine + count - 1 > lineCount then Some(InvalidLineRange)
    else None
  }

  /** A read goes ahead exactly for 1 to 200 lines that are all there, and what is out of place is named
      before what is too much. */
  lemma LineRangeWritten(lineCount: int, startLine: int, count: int)
    ensures LineRangeError(lineCount, startLine, count) == None <==>
      1 <= startLine && 1 <= count <= 200 && startLine + count <= lineCount + 1
    ensures LineRangeError(lineCount, startLine, count) == Some(ResponseLimitExceeded) <==>
      1 <= startLine && 200 < count
  {
  }

  /** The answer to a line read of an accepted index: exactly the concatenation of the requested
      records, unless a bound of the profile stops it. Decoding can not fail. */
  ghost predicate LinesAnswer(s: Bytes, x: Index, startLine: int, count: int, r: Result<Text, TextError>) {
    match LineRangeError(x.lineCount, startLine, count)
    case Some(e) => r == Err(e)
    case None =>
      && Partition(s, x.lines) && x.lineCount == |x.lines|
      && var bytes := Records(s, x.lines, startLine - 1, count);
         if |bytes| > MAX_TEXT_READ_BYTES then r == Err(ResponseLimitExceeded)
         else r.Ok? && Decode(bytes) == Some(r.value) && Encode(r.value) == bytes
  }

  method ReadIndexedLines(h: Hash, norm: Normalizer, s: Bytes, x: Index, startLine: int, count: int)
    returns (r: Result<Text, TextError>)
    ensures r.Ok? ==> IndexOf(h, norm, s, x.mediaType) == Ok(x)
    ensures IndexOf(h, norm, s, x.mediaType) == Ok(x) ==> LinesAnswer(s, x, startLine, count, r)
  {
    if |s| > MAX_TEXT_INDEX_BYTES { return Err(SourceTooLarge); }
    if Decode(s).None? { return Err(InvalidUtf8); }
    var error := AssertConsistentIndex(h, norm, s, x);
    if error.Some? { return Err(error.value); }
    CanonicalPartition(s, x.lines);
    r := ReadAcceptedLines(s, x, startLine, count);
  }

  method ReadAcceptedLines(s: Bytes, x: Index, startLine: int, count: int) returns (r: Result<Text, TextError>)
    requires Decode(s).Some? && Partition(s, x.lines) && x.lineCount == |x.lines|
    ensures LinesAnswer(s, x, startLine, count, r)
  {
    if startLine < 1 || count < 1 { return Err(InvalidLineRange); }
    if count > MAX_LINE_READ_COUNT { return Err(ResponseLimitExceeded); }
    var endLine := startLine + count - 1;
    if endLine > x.lineCount { return Err(InvalidLineRange); }
    r := SliceLines(s, x.lines, startLine - 1, count);
  }

  method SliceLines(s: Bytes, lines: seq<TextLine>, k: nat, count: nat) returns (r: Result<Text, TextError>)
    requires Decode(s).Some? && Partition(s, lines) && 1 <= count && k + count <= |lines|
    ensures r.Ok? ==>
      Decode(Records(s, lines, k, count)) == Some(r.value) && Encode(r.value) == Records(s, lines, k, count)
    ensures if |Records(s, lines, k, count)| > MAX_TEXT_READ_BYTES then r == Err(ResponseLimitExceeded) else r.Ok?
  {
    SpanOrdered(s, lines, k, count);
    SpanIsConcatenation(s, lines, k, count);
    var bytes := s[lines[k].byteStart..lines[k + count - 1].End()];
    assert bytes == Span(s, lines, k, count);
    if |bytes| > MAX_TEXT_READ_BYTES { return Err(ResponseLimitExceeded); }
    SpanDecodes(s, lines, k, count);
    EncodeDecode(bytes);
    return Ok(Decode(bytes).value);
  }

  lemma StartsScalar(y: Bytes)
    requires y != [] && Decode(y).Some?
    ensures !Continuation(y[0])
  {
    HeadShape(y);
  }

  /** Adjacent reads concatenate to the combined read, as text and not only as bytes. */
  lemma AdjacentReads(s: Bytes, lines: seq<TextLine>, k: nat, a: nat, b: nat)
    requires Decode(s).Some? && Partition(s, lines) && 1 <= a && 1 <= b && k + a + b <= |lines|
    ensures var x, y, z := Decode(Span(s, lines, k, a)), Decode(Span(s, lines, k + a, b)),
      Decode(Span(s, lines, k, a + b));
            x.Some? && y.Some? && z == Some(x.value + y.value)
  {
    hide Decode, DecodeHead;
    SpanDecodes(s, lines, k, a);
    SpanDecodes(s, lines, k + a, b);
    SpanOrdered(s, lines, k + a, b);
    SpansConcatenate(s, lines, k, a, b);
    SpanDecodes(s, lines, k, a + b);
    var x, y, z := Span(s, lines, k, a), Span(s, lines, k + a, b), Span(s, lines, k, a + b);
    assert z[..|x|] == x && z[|x|..] == y;
    StartsScalar(y);
    assert y[0] == z[|x|];
    SplitAt(z, |x|);
  }

  method FindHeading(x: Index, headingId: string) returns (i: int)
    ensures -1 <= i
    ensures i < 0 ==> forall k | 0 <= k < |x.headings| :: x.headings[k].headingId != headingId
    ensures 0 <= i ==> i < |x.headings| && x.headings[i].headingId == headingId
  {
    for k := 0 to |x.headings|
      invariant forall j | 0 <= j < k :: x.headings[j].headingId != headingId
    {
      if x.headings[k].headingId == headingId { return k; }
    }
    return -1;
  }

  /** The answer to a heading read of an accepted index: the source bytes of heading i, which is the
      one with this identifier, unless there is none (i < 0) or it is too long. */
  ghost predicate HeadingAnswer(s: Bytes, x: Index, headingId: string, i: int, r: Result<Text, TextError>) {
    if i < 0 then r == Err(InvalidHeadingId) && forall k | 0 <= k < |x.headings| :: x.headings[k].headingId != headingId
    else
      && i < |x.headings| && x.headings[i].headingId == headingId
      && if x.headings[i].byteLength > MAX_TEXT_READ_BYTES then r == Err(ResponseLimitExceeded)
         else
           && r.Ok? && Decode(HeadingBytes(s, x.headings[i])) == Some(r.value)
           && Encode(r.value) == HeadingBytes(s, x.headings[i])
  }

  method ReadIndexedHeading(h: Hash, norm: Normalizer, s: Bytes, x: Index, headingId: string)
    returns (r: Result<Text, TextError>, ghost i: int)
    ensures r.Ok? ==> IndexOf(h, norm, s, x.mediaType) == Ok(x)
    ensures IndexOf(h, norm, s, x.mediaType) == Ok(x) ==> HeadingAnswer(s, x, headingId, i, r)
  {
    i := -1;
    if |s| > MAX_TEXT_INDEX_BYTES { return Err(SourceTooLarge), -1; }
    if Decode(s).None? { return Err(InvalidUtf8), -1; }
    var error := AssertConsistentIndex(h, norm, s, x);
    if error.Some? { return Err(error.value), -1; }
    r, i := ReadAcceptedHeading(s, x, headingId);
  }

  method ReadAcceptedHeading(s: Bytes, x: Index, headingId: string)
    returns (r: Result<Text, TextError>, ghost i: int)
    requires IdsOk(x.headings) && forall k | 0 <= k < |x.headings| :: HeadingFacts(s, x.lineCount, x.headings[k])
    ensures HeadingAnswer(s, x, headingId, i, r)
  {
    if |headingId| == 0 || |headingId| > MAX_HEADING_ID_LENGTH {
      NoSuchId(x.headings, headingId);
      return Err(InvalidHeadingId), -1;
    }
    var found := FindHeading(x, headingId);
    if found < 0 { return Err(InvalidHeadingId), -1; }
    r := SliceContent(s, x.lineCount, x.headings[found]);
    i := found;
  }

  lemma NoSuchId(headings: seq<Heading>, headingId: string)
    requires IdsOk(headings) && !(1 <= |headingId| <= MAX_HEADING_ID_LENGTH)
    ensures forall k | 0 <= k < |headings| :: headings[k].headingId != headingId
  {
  }

  method SliceContent(s: Bytes, ghost lineCount: int, y: Heading) returns (r: Result<Text, TextError>)
    requires HeadingFacts(s, lineCount, y)
    ensures r.Ok? ==> Decode(HeadingBytes(s, y)) == Some(r.value) && Encode(r.value) == HeadingBytes(s, y)
    ensures if y.byteLength > MAX_TEXT_READ_BYTES then r == Err(ResponseLimitExceeded) else r.Ok?
  {
    var bytes := s[y.byteStart..y.byteStart + y.byteLength];
    if |bytes| > MAX_TEXT_READ_BYTES { return Err(ResponseLimitExceeded); }
    EncodeDecode(bytes);
    return Ok(Decode(bytes).value);
  }
}
