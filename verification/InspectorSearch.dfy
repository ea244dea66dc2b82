/** Exact search of artifact-inspector.ts. */
module InspectorSearch {
  import opened Hashing
  import opened ChunkManifest
  import opened Covering
  import opened Evidence
  import opened Inspector
  import opened InspectorWhole
  import opened Lines
  import opened Registry
  import opened Utf8
  import opened Json
  import opened Utf16
  import Headings
  import Merkle
  import Search
  import TextIndex

  // ----- the query -----

  function TrimStart(t: Units): (r: Units)
    ensures |r| <= |t|
  {
    if t != [] && WhiteSpace(t[0]) then TrimStart(t[1..]) else t
  }

  function Trim(t: Units): Units {
    var u := TrimStart(t);
    u[..|TrimEnd(u)|]
  }

  /** encodeUnicodeScalarValueString: refuses exactly the strings with a lone surrogate. */
  method EncodeScalarString(value: Units) returns (r: Option<Bytes>)
    ensures r == if WellPaired(value) then Some(Encode(CodePoints(value))) else None
  {
    var index := 0;
    while index < |value|
      invariant 0 <= index <= |value|
      invariant WellPaired(value) == WellPaired(value[index..])
    {
      var rest := value[index..];
      if Lead(value[index]) {
        if !(index + 1 < |value| && Trail(value[index + 1])) { return None; }
        assert rest[2..] == value[index + 2..];
        index := index + 2;
      } else if Trail(value[index]) {
        return None;
      } else {
        assert rest[1..] == value[index + 1..];
        index := index + 1;
      }
    }
    assert value[index..] == [];
    var bytes := Encode(CodePoints(value));
    PairedIsScalar(value);
    DecodeEncode(CodePoints(value));
    if Decode(bytes) != Some(CodePoints(value)) { return None; }
    return Some(bytes);
  }

  datatype SearchRequest = SearchRequest(artifactId: string, query: Units, maxHits: int)

  predicate SearchInputOk(i: SearchRequest) {
    ArtifactIdOk(i.artifactId) && 1 <= |Trim(i.query)| <= MAX_SEARCH_QUERY_LENGTH && 1 <= i.maxHits <= MAX_SEARCH_HITS
  }

  function QueryBytes(i: SearchRequest): Bytes { Encode(CodePoints(Trim(i.query))) }

  predicate QueryOk(i: SearchRequest) {
    SearchInputOk(i) && WellPaired(Trim(i.query)) && |QueryBytes(i)| <= MAX_SEARCH_QUERY_LENGTH
  }

  lemma QueryNotEmpty(i: SearchRequest)
    requires QueryOk(i)
    ensures 1 <= |QueryBytes(i)|
  {
    var points := CodePoints(Trim(i.query));
    assert points != [];
    assert Encode(points) == EncodeOne(points[0]) + Encode(points[1..]);
  }

  // ----- hits -----

  function HitOf(h: Hash, query: Units, q: Bytes, x: Search.Hit): SearchHit {
    var r := ByteRange(x.offset, |q|);
    SearchHit(r, r, h(q), x.lineNumber, query)
  }

  function HitsOf(h: Hash, query: Units, q: Bytes, hits: seq<Search.Hit>): (r: seq<SearchHit>)
    ensures |r| == |hits| && forall k :: 0 <= k < |hits| ==> r[k] == HitOf(h, query, q, hits[k])
  {
    seq(|hits|, k requires 0 <= k < |hits| => HitOf(h, query, q, hits[k]))
  }

  function EvidenceOf(h: Hash, q: Bytes, hits: seq<Search.Hit>): (r: seq<HitEvidence>)
    ensures |r| == |hits| && forall k :: 0 <= k < |hits| ==> r[k] == HitEvidence(ByteRange(hits[k].offset, |q|), h(q))
  {
    seq(|hits|, k requires 0 <= k < |hits| => HitEvidence(ByteRange(hits[k].offset, |q|), h(q)))
  }

  function SearchError(i: SearchRequest): Detail { SearchDetail(|QueryBytes(i)|, i.maxHits, []) }

  function SearchOutput(h: Hash, m: Manifest, i: SearchRequest, bytes: Bytes, hits: seq<Search.Hit>): Output
    requires Consistent(h, m) && m.chunkCount > 0
  {
    var q := QueryBytes(i);
    SearchResult(HitsOf(h, Trim(i.query), q, hits),
                 IntegrityFor(h, m, RequestedSearch(|q|), 0, m.chunkCount - 1, ByteRange(0, m.byteLength), h(bytes)))
  }

  function SearchCounts(i: SearchRequest, m: Manifest, hits: seq<Search.Hit>): Counts {
    Counts(Some(|QueryBytes(i)|), Some(m.byteLength), Some(|hits| * |QueryBytes(i)|))
  }

  function SearchCandidate(h: Hash, m: Manifest, i: SearchRequest, bytes: Bytes, hits: seq<Search.Hit>): Candidate
    requires Consistent(h, m) && m.chunkCount > 0
  {
    var counts, q := SearchCounts(i, m, hits), QueryBytes(i);
    Candidate(SearchOutput(h, m, i, bytes, hits), SearchDetail(|q|, i.maxHits, EvidenceOf(h, q, hits)), counts,
      counts.(returned := None))
  }

  function SearchAnswer(d: Dependencies, s: Session, m: Manifest, i: SearchRequest, bytes: Bytes,
      hits: seq<Search.Hit>): Outcome
    requires Consistent(d.h, m) && m.chunkCount > 0
  {
    Answer(s, d.wire, SearchCandidate(d.h, m, i, bytes, hits), SearchError(i), NO_COUNTS)
  }

  // ----- artifact_search_exact -----

  /** A small nonempty source in full, with the partition into its lines. */
  predicate SearchableOk(h: Hash, m: Manifest, bytes: Bytes, lines: seq<TextLine>) {
    && Consistent(h, m) && 0 < m.byteLength == |bytes| <= MAX_EXACT_SEARCH_SOURCE_BYTES && Partition(bytes, lines)
    && 0 < m.chunkCount <= MAX_VERIFIED_CHUNKS_PER_READ
  }

  lemma ReachedSearchable(d: Dependencies, artifactId: string, a: Reach)
    requires AtOk(d, SearchOp, artifactId, a)
    ensures SearchableOk(d.h, a.manifest, a.bytes, a.index.lines) && a.index.lines == LinesOf(a.bytes)
  {
    CountPositive(a.manifest);
    hide TextIndex.IndexOf, Decode, RecordOk, CoverMatches, LinesOf, Partition;
    CanonicalPartition(a.bytes, a.index.lines);
  }

  /** `hits` stands for the result of the search loop, reached only after every check. The
      chunk-count, proof and schema exits of the source do not occur. */
  ghost function SearchSpec(d: Dependencies, context: Option<Context>, i: SearchRequest,
      hits: seq<Search.Hit>): Outcome {
    if !QueryOk(i) then Refuse(SearchOp)
    else
      var a := Reached(d, SearchOp, context, i.artifactId, SearchError(i));
      ReachedOk(d, SearchOp, context, i.artifactId, SearchError(i));
      match a
      case Done(outcome) => outcome
      case At(s, m, bytes, x) =>
        ReachedSearchable(d, i.artifactId, a);
        SearchAnswer(d, s, m, i, bytes, hits)
  }

  /** The hits are those of the source, once every check before the loop has passed. */
  ghost predicate HitsFor(d: Dependencies, context: Option<Context>, i: SearchRequest, hits: seq<Search.Hit>) {
    match Reached(d, SearchOp, context, i.artifactId, SearchError(i))
    case Done(_) => true
    case At(_, _, bytes, x) => QueryOk(i) ==> Search.HitsOk(bytes, QueryBytes(i), x.lines, i.maxHits, hits)
  }

  /** Some hits that answer the search explain the outcome; by Search.HitsUnique there is one choice. */
  method ArtifactSearchExact(d: Dependencies, context: Option<Context>, i: SearchRequest) returns (outcome: Outcome)
    ensures exists hits :: HitsFor(d, context, i, hits) && outcome == SearchSpec(d, context, i, hits)
  {
    hide Reached, SearchAnswer, Consistent, Disciplined, RecordOk, Search.HitsOk, TextIndex.IndexOf, CoverMatches;
    hide WellPaired, CodePoints, Encode;
    ghost var hits: seq<Search.Hit> := [];
    if !SearchInputOk(i) {
      assert HitsFor(d, context, i, hits);
      return Refuse(SearchOp);
    }
    var query := EncodeScalarString(Trim(i.query));
    if query.None? || |query.value| > MAX_SEARCH_QUERY_LENGTH {
      assert HitsFor(d, context, i, hits);
      return Refuse(SearchOp);
    }
    var a := ReachSource(d, SearchOp, context, i.artifactId, SearchDetail(|query.value|, i.maxHits, []));
    ReachedOk(d, SearchOp, context, i.artifactId, SearchError(i));
    match a
    case Done(o) =>
      assert HitsFor(d, context, i, hits);
      return o;
    case At(s, m, bytes, x) =>
      ReachedSearchable(d, i.artifactId, a);
      outcome, hits := FindHits(d, s, m, i, query.value, bytes, x.lines);
      assert HitsFor(d, context, i, hits);
  }

  method FindHits(d: Dependencies, s: Session, m: Manifest, i: SearchRequest, q: Bytes, bytes: Bytes,
      lines: seq<TextLine>) returns (outcome: Outcome, ghost hits: seq<Search.Hit>)
    requires WholeMatches(d.h, m, bytes) && SearchableOk(d.h, m, bytes, lines) && QueryOk(i) && q == QueryBytes(i)
    ensures outcome == SearchAnswer(d, s, m, i, bytes, hits)
    ensures Search.HitsOk(bytes, q, lines, i.maxHits, hits)
  {
    hide CoverMatches, VerifiedOf, FailClosed, Succeed, OutputOk, Encode, CodePoints, WellPaired, Search.HitsOk,
      Partition;
    QueryNotEmpty(i);
    var verified := CoverWhole(d.h, m, bytes, 0, m.chunkCount - 1);
    var found := Search.SearchExact(bytes, q, lines, i.maxHits);
    hits := found;
    if verified.None? || |verified.value| != m.chunkCount {
      return FailClosed(s, SearchError(i), IntegrityFailure, NO_COUNTS), found;
    }
    SearchCandidateOk(d.h, m, i, bytes, lines, found);
    var output := SearchResult(HitsOf(d.h, Trim(i.query), q, found),
      Integrity(RequestedSearch(|q|), 0, m.chunkCount - 1, ByteRange(0, m.byteLength), m.chunkSize, m.chunkCount,
        verified.value, m.merkleRoot, d.h(bytes), m.sourceSha256));
    var counts := SearchCounts(i, m, found);
    var candidate :=
      Candidate(output, SearchDetail(|q|, i.maxHits, EvidenceOf(d.h, q, found)), counts, counts.(returned := None));
    outcome := Send(d.h, s, d.wire, candidate, SearchError(i), NO_COUNTS);
  }

  // ----- the contract always holds -----

  lemma OneHitOk(h: Hash, i: SearchRequest, bytes: Bytes, lines: seq<TextLine>, hits: seq<Search.Hit>, k: nat)
    requires QueryOk(i) && |bytes| <= MAX_EXACT_SEARCH_SOURCE_BYTES && Partition(bytes, lines) && k < |hits|
    requires Search.Greedy(bytes, QueryBytes(i), hits) && Search.OnLine(lines, hits[k])
    ensures SearchHitOk(h, HitOf(h, Trim(i.query), QueryBytes(i), hits[k]))
      && hits[k].offset + |QueryBytes(i)| <= |bytes|
  {
    QueryNotEmpty(i);
    assert Search.GreedyAt(bytes, QueryBytes(i), hits, k);
    LineCountBounded(bytes, lines, |lines|);
  }

  /** Records are not empty, so there are no more of them than bytes. */
  lemma {:induction false} LineCountBounded(s: Bytes, lines: seq<TextLine>, n: nat)
    requires Partition(s, lines) && n <= |lines|
    ensures n <= |s|
    ensures n > 0 ==> n <= lines[n - 1].End() <= |s|
    decreases n
  {
    if n > 0 {
      LineCountBounded(s, lines, n - 1);
      RecordAt(s, lines, n - 1);
    }
  }

  lemma SearchCandidateOk(h: Hash, m: Manifest, i: SearchRequest, bytes: Bytes, lines: seq<TextLine>,
      hits: seq<Search.Hit>)
    requires QueryOk(i) && SearchableOk(h, m, bytes, lines)
    requires Search.HitsOk(bytes, QueryBytes(i), lines, i.maxHits, hits)
    ensures CandidateOk(h, SearchCandidate(h, m, i, bytes, hits))
  {
    hide Encode, Search.HitsOk, Consistent, SearchHitOk, VerifiedOf, CodePoints, WellPaired, ArtifactIdOk, Partition;
    HitListOk(h, i, bytes, lines, hits);
    WholeIntegrityOk(h, m, |QueryBytes(i)|, h(bytes));
  }

  /** The complete source is its own cover. */
  lemma WholeIntegrityOk(h: Hash, m: Manifest, queryLength: nat, sha256: Digest)
    requires Consistent(h, m) && 0 < m.byteLength <= MAX_EXACT_SEARCH_SOURCE_BYTES
      && 0 < m.chunkCount <= MAX_VERIFIED_CHUNKS_PER_READ
    requires 1 <= queryLength <= MAX_SEARCH_QUERY_LENGTH
    ensures var x := IntegrityFor(h, m, RequestedSearch(queryLength), 0, m.chunkCount - 1, ByteRange(0, m.byteLength),
      sha256);
      && IntegrityOk(x)
      && forall r: ByteRange :: 0 <= r.offset && r.offset + r.length <= m.byteLength ==> InCoverage(r, x.verifiedChunks)
  {
    LastEnd(m);
    IntegrityAlwaysOk(h, m, RequestedSearch(queryLength), 0, m.chunkCount - 1, ByteRange(0, m.byteLength), sha256);
    CoverageIsCover(h, m, 0, m.chunkCount - 1);
  }

  lemma HitListOk(h: Hash, i: SearchRequest, bytes: Bytes, lines: seq<TextLine>, hits: seq<Search.Hit>)
    requires QueryOk(i) && |bytes| <= MAX_EXACT_SEARCH_SOURCE_BYTES && Partition(bytes, lines)
    requires Search.HitsOk(bytes, QueryBytes(i), lines, i.maxHits, hits)
    ensures |hits| <= i.maxHits && 1 <= |QueryBytes(i)|
    ensures forall k :: 0 <= k < |hits| ==>
      SearchHitOk(h, HitOf(h, Trim(i.query), QueryBytes(i), hits[k])) && hits[k].offset + |QueryBytes(i)| <= |bytes|
    ensures forall k :: 1 <= k < |hits| ==> hits[k - 1].offset + |QueryBytes(i)| <= hits[k].offset
    ensures forall j, k :: 0 <= j < k < |hits| ==> hits[j].offset != hits[k].offset
  {
    hide Encode, SearchHitOk;
    var q := QueryBytes(i);
    QueryNotEmpty(i);
    forall k | 0 <= k < |hits|
      ensures SearchHitOk(h, HitOf(h, Trim(i.query), q, hits[k])) && hits[k].offset + |q| <= |bytes|
    {
      OneHitOk(h, i, bytes, lines, hits, k);
    }
    forall k | 1 <= k < |hits|
      ensures hits[k - 1].offset + |q| <= hits[k].offset
    {
      Search.HitsAscend(bytes, q, hits, k);
    }
    OffsetsDiffer(bytes, q, hits);
  }

  lemma LastEnd(m: Manifest)
    requires GeometryConsistent(m) && m.chunkCount > 0
    ensures CoverRange(0, m.chunkCount - 1, m.chunkSize, m.byteLength) == ByteRange(0, m.byteLength)
  {
    CeilDivBounds(m.byteLength, m.chunkSize);
  }

  lemma OffsetsDiffer(s: Bytes, q: Bytes, hits: seq<Search.Hit>)
    requires q != [] && Search.Greedy(s, q, hits)
    ensures forall j, k :: 0 <= j < k < |hits| ==> hits[j].offset != hits[k].offset
  {
    forall j, k | 0 <= j < k < |hits|
      ensures hits[j].offset < hits[k].offset
    {
      OffsetsAscend(s, q, hits, j, k);
    }
  }

  lemma {:induction false} OffsetsAscend(s: Bytes, q: Bytes, hits: seq<Search.Hit>, j: nat, k: nat)
    requires q != [] && Search.Greedy(s, q, hits) && j < k < |hits|
    ensures hits[j].offset < hits[k].offset
    decreases k
  {
    Search.HitsAscend(s, q, hits, k);
    if j < k - 1 {
      OffsetsAscend(s, q, hits, j, k - 1);
    }
  }

  // ----- searches end to end -----

  lemma SearchAnswerFacts(d: Dependencies, s: Session, m: Manifest, i: SearchRequest, bytes: Bytes,
      lines: seq<TextLine>, hits: seq<Search.Hit>)
    requires QueryOk(i) && SearchableOk(d.h, m, bytes, lines) && Unreported(s, SearchOp)
    requires Search.HitsOk(bytes, QueryBytes(i), lines, i.maxHits, hits)
    ensures var o, output := SearchAnswer(d, s, m, i, bytes, hits), SearchOutput(d.h, m, i, bytes, hits);
      && Disciplined(d.h, SearchOp, o) && o.output != Failure(ResourceUnavailable)
      && if Returnable(s, d.wire, output) then o.output == output else o.output.Failure?
  {
    hide Search.HitsOk, QueryOk, CandidateOk, Disciplined, RecordOk, Answer, SearchOutput, EvidenceOf, SearchError;
    SearchCandidateOk(d.h, m, i, bytes, lines, hits);
    AnswerFacts(d.h, s, d.wire, SearchCandidate(d.h, m, i, bytes, hits), SearchError(i), NO_COUNTS);
  }

  /** Every search call keeps the evidence discipline. */
  lemma SearchDisciplined(d: Dependencies, context: Option<Context>, i: SearchRequest, hits: seq<Search.Hit>)
    requires HitsFor(d, context, i, hits)
    ensures Disciplined(d.h, SearchOp, SearchSpec(d, context, i, hits))
  {
    hide Reached, SearchAnswer, Disciplined, RecordOk, WholeMatches, TextIndex.IndexOf, Search.HitsOk, QueryOk,
      SearchableOk;
    if QueryOk(i) {
      var a := Reached(d, SearchOp, context, i.artifactId, SearchError(i));
      ReachedOk(d, SearchOp, context, i.artifactId, SearchError(i));
      if a.At? {
        ReachedSearchable(d, i.artifactId, a);
        SearchAnswerFacts(d, a.session, a.manifest, i, a.bytes, a.index.lines, hits);
      }
    } else {
      RefuseDisciplined(d.h, SearchOp);
    }
  }

  /** An unavailable answer that is backed by a receipt: a search of an empty artifact. */
  ghost predicate EmptyText(f: Front) {
    match f
    case Halt(_) => false
    case Go(s, _) => FourDigitYear(s.now) && !s.record.media.OtherMedia? && s.record.byteLength == 0
  }

  predicate UnavailableWithReceipt(o: Outcome) { o.output == Failure(ResourceUnavailable) && o.log.receipts != [] }

  /** That is the one case. */
  lemma UnavailableWithReceiptExactly(d: Dependencies, context: Option<Context>, i: SearchRequest,
      hits: seq<Search.Hit>)
    requires HitsFor(d, context, i, hits)
    ensures UnavailableWithReceipt(SearchSpec(d, context, i, hits)) <==>
      QueryOk(i) && EmptyText(FrontFor(d, SearchOp, context, i.artifactId, SearchError(i)))
  {
    hide Reached, FrontFor, SearchAnswer, RecordOk, WholeMatches, TextIndex.IndexOf, Search.HitsOk, SearchableOk;
    if QueryOk(i) {
      var a := Reached(d, SearchOp, context, i.artifactId, SearchError(i));
      ReachedOk(d, SearchOp, context, i.artifactId, SearchError(i));
      UnavailableEarly(d, context, i);
      hide QueryOk, SearchError, Disciplined;
      if a.At? {
        ReachedSearchable(d, i.artifactId, a);
        SearchAnswerFacts(d, a.session, a.manifest, i, a.bytes, a.index.lines, hits);
      }
    }
  }

  lemma SearchErrorOk(i: SearchRequest)
    requires QueryOk(i)
    ensures DetailOk(SearchError(i))
  {
    QueryNotEmpty(i);
  }

  lemma UnavailableEarly(d: Dependencies, context: Option<Context>, i: SearchRequest)
    requires QueryOk(i)
    ensures var empty := EmptyText(FrontFor(d, SearchOp, context, i.artifactId, SearchError(i)));
      match Reached(d, SearchOp, context, i.artifactId, SearchError(i))
      case Done(o) => UnavailableWithReceipt(o) <==> empty
      case At(_, _, _, _) => !empty
  {
    var error, f := SearchError(i), FrontFor(d, SearchOp, context, i.artifactId, SearchError(i));
    FrontAdmits(d, SearchOp, context, i.artifactId, NO_COUNTS, Some(error));
    SearchErrorOk(i);
    hide QueryOk, SearchError, Encode, CodePoints, Consistent, TextIndex.IndexOf, Disciplined;
    if f.Go? {
      var s := f.session;
      ReceiptOkExactly(s, error, Some(ResourceUnavailable));
      WholeIsOk(d, s, f.manifest, MediaOf(s.record.media));
      hide FrontFor, WholeOf, ReceiptOk, RecordOk;
    } else {
      hide ReceiptOk, RecordOk;
    }
  }

  // A call that takes this path: searching a zero-byte text artifact for one letter.

  function Opaque(prefix: string): string { prefix + seq(20, _ => 'a') }

  function EmptyRecord(h: Hash): Record {
    Record(Opaque("art_"), Opaque("ov_"), h([]), 0, 1_024, 0, [], [], Merkle.Root(h, []), PlainText, None, None)
  }

  function EmptyRegistry(h: Hash, norm: Headings.Normalizer,
      wire: WireSize): Dependencies {
    Dependencies(h, norm, wire, Some(0), _ => Found(EmptyRecord(h)), _ => VersionGone)
  }

  const LETTER_REQUEST := SearchRequest(Opaque("art_"), [0x61], 1)

  lemma LetterRequestOk()
    ensures QueryOk(LETTER_REQUEST)
  {
    var q: Units := [0x61];
    assert TrimStart(q) == q && TrimEnd(q) == q;
    assert Trim(q) == q;
    assert q[1..] == [] && WellPaired(q);
    assert CodePoints(q) == [0x61];
    assert Encode([0x61]) == EncodeOne(0x61) + Encode([0x61][1..]);
  }

  lemma EmptyRecordResolves(h: Hash)
    ensures RecordOk(EmptyRecord(h)) && Consistent(h, ManifestOfRecord(EmptyRecord(h)))
  {
    var r := EmptyRecord(h);
    assert "art_" <= r.artifactId && "ov_" <= r.objectVersionRef;
    RecordGeometry(r);
    assert Leaves(ManifestOfRecord(r)) == [];
  }

  /** It does happen, whatever the hash and the context: an unavailable answer with a receipt. */
  lemma EmptySearchLeavesReceipt(h: Hash, norm: Headings.Normalizer, wire: WireSize,
      context: Context, hits: seq<Search.Hit>)
    ensures var d := EmptyRegistry(h, norm, wire);
      && HitsFor(d, Some(context), LETTER_REQUEST, hits)
      && var o := SearchSpec(d, Some(context), LETTER_REQUEST, hits);
         UnavailableWithReceipt(o)
  {
    hide Consistent, RecordOk, ManifestOfRecord, QueryOk, WholeOf, Search.HitsOk;
    var d, i := EmptyRegistry(h, norm, wire), LETTER_REQUEST;
    LetterRequestOk();
    EmptyRecordResolves(h);
    var front := FrontFor(d, SearchOp, Some(context), i.artifactId, SearchError(i));
    assert front.Go? && front.session.record == EmptyRecord(h) && front.session.now == 0;
    assert HitsFor(d, Some(context), i, hits);
    UnavailableWithReceiptExactly(d, Some(context), i, hits);
  }

  // ----- hits, one by one -----

  /** The bytes q stand at this place of the source. */
  predicate Stands(source: Bytes, q: Bytes, i: int) { 0 <= i && i + |q| <= |source| && source[i..i + |q|] == q }

  /** A hit: the query stands there, the snippet is the match, and the line is the one that holds it. */
  predicate HitWritten(h: Hash, x: SearchHit, query: Units, q: Bytes, source: Bytes, lines: seq<TextLine>) {
    var i := x.matchRange.offset;
    && Stands(source, q, i) && x.matchRange == x.snippetRange == ByteRange(i, |q|)
    && x.snippet == query && x.snippetSha256 == h(q)
    && 1 <= x.lineNumber <= |lines|
    && var line := lines[x.lineNumber - 1];
       line.byteStart <= i < line.byteStart + line.contentByteLength + line.newlineByteLength
  }

  /** Where the search for hit k starts: at the end of the hit before it. */
  function From(hits: seq<SearchHit>, n: nat, k: nat): int
    requires k <= |hits|
  {
    if k == 0 then 0 else hits[k - 1].matchRange.offset + n
  }

  /** Each hit is the first place from the end of the hit before it, and none is left out unless as many
      were found as asked for. */
  predicate HitsWritten(h: Hash, hits: seq<SearchHit>, maxHits: int, query: Units, q: Bytes, source: Bytes,
      lines: seq<TextLine>) {
    && |hits| <= maxHits
    && (forall k :: 0 <= k < |hits| ==> HitWritten(h, hits[k], query, q, source, lines))
    && (forall k :: 0 <= k < |hits| ==> From(hits, |q|, k) <= hits[k].matchRange.offset)
    && (forall k, i {:trigger hits[k], Stands(source, q, i)} ::
      0 <= k < |hits| && From(hits, |q|, k) <= i < hits[k].matchRange.offset ==> !Stands(source, q, i))
    && (|hits| < maxHits ==>
      forall i :: From(hits, |q|, |hits|) <= i <= |source| - |q| ==> !Stands(source, q, i))
  }

  lemma HitIs(h: Hash, query: Units, q: Bytes, source: Bytes, lines: seq<TextLine>, hits: seq<Search.Hit>, k: nat)
    requires Search.Greedy(source, q, hits) && k < |hits| && Search.OnLine(lines, hits[k])
    ensures HitWritten(h, HitOf(h, query, q, hits[k]), query, q, source, lines)
    ensures Search.Resume(q, hits[..k]) == if k == 0 then 0 else hits[k - 1].offset + |q|
    ensures Search.Resume(q, hits[..k]) <= hits[k].offset
    ensures forall i :: Search.Resume(q, hits[..k]) <= i < hits[k].offset ==> !Stands(source, q, i)
  {
    assert Search.GreedyAt(source, q, hits, k);
    assert k > 0 ==> hits[..k][|hits[..k]| - 1] == hits[k - 1];
    forall i | Search.Resume(q, hits[..k]) <= i < hits[k].offset
      ensures !Stands(source, q, i)
    {
      assert !Search.Occurs(source, q, i);
    }
  }

  lemma HitsAre(h: Hash, query: Units, q: Bytes, source: Bytes, lines: seq<TextLine>, maxHits: nat,
      hits: seq<Search.Hit>)
    requires Search.HitsOk(source, q, lines, maxHits, hits)
    ensures HitsWritten(h, HitsOf(h, query, q, hits), maxHits, query, q, source, lines)
  {
    var out := HitsOf(h, query, q, hits);
    forall k | 0 <= k < |hits|
      ensures HitWritten(h, out[k], query, q, source, lines) && From(out, |q|, k) <= out[k].matchRange.offset
      ensures From(out, |q|, k) == Search.Resume(q, hits[..k])
      ensures forall i :: From(out, |q|, k) <= i < out[k].matchRange.offset ==> !Stands(source, q, i)
    {
      HitIs(h, query, q, source, lines, hits, k);
    }
    hide HitWritten, Search.Greedy, Search.OnLine;
    assert hits[..|hits|] == hits;
    if |hits| < maxHits {
      forall i | From(out, |q|, |hits|) <= i <= |source| - |q|
        ensures !Stands(source, q, i)
      {
        assert !Search.Occurs(source, q, i);
      }
    }
  }

  /** The output lists the one greedy answer for this source, hit by hit. */
  ghost predicate SearchOfSource(h: Hash, source: Bytes, i: SearchRequest, hits: seq<Search.Hit>, o: Output) {
    && 0 <= i.maxHits && Search.HitsOk(source, QueryBytes(i), LinesOf(source), i.maxHits, hits)
    && o.SearchResult?
    && HitsWritten(h, o.hits, i.maxHits, Trim(i.query), Encode(CodePoints(Trim(i.query))), source, LinesOf(source))
  }

  lemma SearchHolds(h: Hash, m: Manifest, i: SearchRequest, bytes: Bytes, lines: seq<TextLine>, hits: seq<Search.Hit>)
    requires QueryOk(i) && SearchableOk(h, m, bytes, lines) && lines == LinesOf(bytes)
    requires Search.HitsOk(bytes, QueryBytes(i), lines, i.maxHits, hits)
    ensures SearchOfSource(h, bytes, i, hits, SearchOutput(h, m, i, bytes, hits))
  {
    hide Search.HitsOk, HitsWritten, Encode, CodePoints, Trim, LinesOf, IntegrityFor, Consistent, Partition;
    HitsAre(h, Trim(i.query), QueryBytes(i), bytes, lines, i.maxHits, hits);
  }

  /** End to end: the hits of a successful search are the greedy answer for any source with the
      recorded digest, or a collision with it is in hand. */
  lemma SearchAuthentic(d: Dependencies, context: Option<Context>, i: SearchRequest, hits: seq<Search.Hit>,
      source: Bytes) returns (other: Bytes)
    requires HitsFor(d, context, i, hits) && !SearchSpec(d, context, i, hits).output.Failure?
    requires Recorded(d, i.artifactId, source)
    ensures Collision(d.h, other, source)
      || SearchOfSource(d.h, source, i, hits, SearchSpec(d, context, i, hits).output)
  {
    hide Reached, SearchAnswer, Disciplined, RecordOk, WholeMatches, TextIndex.IndexOf, Search.HitsOk, SearchableOk;
    hide LinesOf, WellPaired, CodePoints, Encode, Trim, SearchOfSource, SearchOutput;
    var a := Reached(d, SearchOp, context, i.artifactId, SearchError(i));
    ReachedOk(d, SearchOp, context, i.artifactId, SearchError(i));
    ReachedAuthentic(d, SearchOp, context, i.artifactId, SearchError(i), source);
    other := source;
    if a.At? {
      ReachedSearchable(d, i.artifactId, a);
      SearchAnswerFacts(d, a.session, a.manifest, i, a.bytes, a.index.lines, hits);
      SearchHolds(d.h, a.manifest, i, a.bytes, a.index.lines, hits);
      other := a.bytes;
    }
  }

  // ----- exactly when a search over an honest registry and store succeeds -----

  /** When a search of a source is answered. */
  ghost predicate SearchAnswerable(d: Dependencies, i: SearchRequest, source: Bytes, hits: seq<Search.Hit>) {
    match (d.resolve(i.artifactId), d.clock)
    case (Found(record), Some(now)) =>
      && QueryOk(i) && RecordOk(record) && Refusal(SearchOp, record).None? && FourDigitYear(now)
      && TextIndex.IndexOf(d.h, d.norm, source, MediaOf(record.media)).Ok?
      && var m := ManifestOfRecord(record);
      && Consistent(d.h, m) && 0 < m.chunkCount
      && d.wire(SearchOutput(d.h, m, i, source, hits)) <= MAX_ARTIFACT_RESPONSE_BYTES
    case _ => false
  }

  /** Over an honest registry and store a search succeeds exactly when it is answerable, and then its
      hits are the greedy answer for the source. */
  lemma SearchServesExactly(d: Dependencies, context: Option<Context>, i: SearchRequest, hits: seq<Search.Hit>,
      source: Bytes)
    requires Honest(d, context, i.artifactId, source) && HitsFor(d, context, i, hits)
    ensures var o := SearchSpec(d, context, i, hits).output;
      if SearchAnswerable(d, i, source, hits) then SearchOfSource(d.h, source, i, hits, o) else o.Failure?
  {
    hide Reached, SearchAnswer, Disciplined, WholeMatches, TextIndex.IndexOf, Search.HitsOk, LinesOf, WellPaired,
      Encode, SearchOfSource, SearchOutput, CodePoints, Trim;
    if QueryOk(i) {
      var a := Reached(d, SearchOp, context, i.artifactId, SearchError(i));
      ReachedOk(d, SearchOp, context, i.artifactId, SearchError(i));
      ReachedHonest(d, SearchOp, context, i.artifactId, SearchError(i), source);
      if a.At? {
        ReachedSearchable(d, i.artifactId, a);
        SearchAnswerFacts(d, a.session, a.manifest, i, a.bytes, a.index.lines, hits);
        SearchHolds(d.h, a.manifest, i, a.bytes, a.index.lines, hits);
      }
    }
  }
}
