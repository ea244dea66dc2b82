/** Covering-chunk geometry of artifact-inspector.ts and the partial-read integrity contract of
    artifact-inspection.ts. */
module Covering {
  import opened Hashing
  import opened Merkle
  import opened ChunkManifest
  import opened HeadingIds

  const MAX_RANGE_BYTES := 8_192
  const MAX_ARTIFACT_BYTE_OFFSET := 1_099_511_627_776
  const MAX_START_LINE := 1_000_000
  const MAX_LINE_COUNT := 200
  const MAX_SEARCH_QUERY_LENGTH := 256
  const MAX_COVERING_FETCH_BYTES := 16_384
  const MAX_VERIFIED_CHUNKS_PER_READ := 16
  const MAX_MERKLE_PROOF_DEPTH := 32

  // ----- the integrity object and its schema -----

  datatype ByteRange = ByteRange(offset: int, length: int)

  datatype RequestedRange =
    | RequestedBytes(range: ByteRange)
    | RequestedLines(startLine: int, count: int)
    | RequestedHeading(headingId: string)
    | RequestedSearch(queryLength: int)

  datatype VerifiedChunk = VerifiedChunk(
    chunkIndex: int, byteStart: int, byteLength: int, chunkSha256: Bytes, merkleProof: seq<ProofNode>)

  datatype Integrity = Integrity(
    requested: RequestedRange, startChunkIndex: int, endChunkIndex: int, returned: ByteRange,
    chunkSize: int, chunkCount: int, verifiedChunks: seq<VerifiedChunk>,
    merkleRoot: Bytes, returnedByteSha256: Bytes, sourceSha256: Bytes)

  predicate RequestedOk(r: RequestedRange) {
    match r
    case RequestedBytes(b) => 0 <= b.offset <= MAX_ARTIFACT_BYTE_OFFSET && 1 <= b.length <= MAX_RANGE_BYTES
    case RequestedLines(startLine, count) => 1 <= startLine <= MAX_START_LINE && 1 <= count <= MAX_LINE_COUNT
    case RequestedHeading(id) => HeadingIdOk(id)
    case RequestedSearch(n) => 1 <= n <= MAX_SEARCH_QUERY_LENGTH
  }

  predicate ReturnedOk(r: ByteRange) { 0 <= r.offset && 0 <= r.length <= MAX_RANGE_BYTES }

  predicate VerifiedChunkOk(c: VerifiedChunk) {
    && 0 <= c.chunkIndex && 0 <= c.byteStart && 1 <= c.byteLength && WellFormedDigest(c.chunkSha256)
    && |c.merkleProof| <= MAX_MERKLE_PROOF_DEPTH
    && forall n <- c.merkleProof :: !n.position.Malformed? && WellFormedDigest(n.sibling)
  }

  predicate InCoverage(r: ByteRange, chunks: seq<VerifiedChunk>)
    requires chunks != []
  {
    var last := chunks[|chunks| - 1];
    chunks[0].byteStart <= r.offset && r.offset + r.length <= last.byteStart + last.byteLength
  }

  /** Field types and ceilings. */
  predicate IntegrityFieldsOk(x: Integrity) {
    && RequestedOk(x.requested) && ReturnedOk(x.returned)
    && 0 <= x.startChunkIndex <= x.endChunkIndex
    && 1 <= x.chunkSize && 1 <= x.chunkCount
    && 1 <= |x.verifiedChunks| <= MAX_VERIFIED_CHUNKS_PER_READ
    && (forall k :: 0 <= k < |x.verifiedChunks| ==> VerifiedChunkOk(x.verifiedChunks[k]))
    && WellFormedDigest(x.merkleRoot) && WellFormedDigest(x.returnedByteSha256) && WellFormedDigest(x.sourceSha256)
  }

  /** Each chunk follows its predecessor by index and by byte. */
  predicate Follows(previous: VerifiedChunk, current: VerifiedChunk) {
    && current.chunkIndex == previous.chunkIndex + 1
    && current.byteStart == previous.byteStart + previous.byteLength
  }

  predicate ChunkFits(x: Integrity, c: VerifiedChunk) {
    && c.chunkIndex < x.chunkCount
    && (if c.chunkIndex == x.chunkCount - 1 then c.byteLength <= x.chunkSize else c.byteLength == x.chunkSize)
    && (x.chunkCount > 1 ==> c.merkleProof != [])
  }

  /** PartialReadIntegritySchema with its cross-field refinement. */
  predicate IntegrityOk(x: Integrity) {
    && IntegrityFieldsOk(x)
    && (forall j, k :: 0 <= j < k < |x.verifiedChunks| ==>
      x.verifiedChunks[j].chunkIndex != x.verifiedChunks[k].chunkIndex)
    && (forall k :: 1 <= k < |x.verifiedChunks| ==> Follows(x.verifiedChunks[k - 1], x.verifiedChunks[k]))
    && x.verifiedChunks[0].chunkIndex == x.startChunkIndex
    && x.verifiedChunks[|x.verifiedChunks| - 1].chunkIndex == x.endChunkIndex
    && (forall k :: 0 <= k < |x.verifiedChunks| ==> ChunkFits(x, x.verifiedChunks[k]))
    && InCoverage(x.returned, x.verifiedChunks)
    && (x.requested.RequestedBytes? ==> InCoverage(x.requested.range, x.verifiedChunks))
  }

  // ----- covering arithmetic -----

  function StartChunk(r: ByteRange, c: int): int
    requires c > 0
  {
    r.offset / c
  }

  function EndChunk(r: ByteRange, c: int): int
    requires c > 0
  {
    (r.offset + r.length - 1) / c
  }

  /** The bytes of chunks start..end of an n-byte source. */
  function CoverRange(start: int, end: int, c: int, n: int): ByteRange {
    ByteRange(start * c, Min((end + 1) * c, n) - start * c)
  }

  predicate InBounds(r: ByteRange, n: int) {
    0 <= r.offset && 1 <= r.length <= MAX_RANGE_BYTES && r.offset + r.length <= n
  }

  lemma DivBounds(x: int, c: int)
    requires AllowedChunkSize(c) && 0 <= x
    ensures 0 <= x / c && x / c * c <= x < (x / c + 1) * c
  {
    if c == 1_024 {
    } else if c == 4_096 {
    } else {
    }
  }

  lemma EndAfterStart(x: int, y: int, c: int)
    requires AllowedChunkSize(c) && 0 <= x <= y < x + MAX_RANGE_BYTES
    ensures x / c <= y / c <= x / c + 8
    ensures (y / c + 1) * c - x / c * c <= MAX_COVERING_FETCH_BYTES
  {
    if c == 1_024 {
    } else if c == 4_096 {
    } else {
    }
  }

  lemma EndInCount(y: int, n: int, c: int)
    requires AllowedChunkSize(c) && 0 <= y < n
    ensures y / c < CeilDiv(n, c)
  {
    CeilDivIs(n, c);
    if c == 1_024 {
    } else if c == 4_096 {
    } else {
    }
  }

  /** Every in-bounds range of at most 8,192 bytes lies in its cover, which spans at most 16,384
      bytes and 9 chunks. */
  lemma CoverGeometry(r: ByteRange, n: int, c: int)
    requires AllowedChunkSize(c) && InBounds(r, n)
    ensures 0 <= StartChunk(r, c) <= EndChunk(r, c) < CeilDiv(n, c)
    ensures EndChunk(r, c) - StartChunk(r, c) + 1 <= 9
    ensures var cover := CoverRange(StartChunk(r, c), EndChunk(r, c), c, n);
      && 0 <= cover.offset <= r.offset && r.offset + r.length <= cover.offset + cover.length <= n
      && cover.length <= MAX_COVERING_FETCH_BYTES
  {
    var last := r.offset + r.length - 1;
    EndAfterStart(r.offset, last, c);
    EndInCount(last, n, c);
    CoverHolds(r.offset, last, n, c);
  }

  /** The covering arithmetic for the bytes x to y. */
  lemma CoverHolds(x: int, y: int, n: int, c: int)
    requires AllowedChunkSize(c) && 0 <= x <= y < n
    ensures 0 <= x / c * c <= x && y < Min((y / c + 1) * c, n) <= n
    ensures 0 <= x / c
  {
    DivBounds(x, c);
    DivBounds(y, c);
  }

  /** Neither bound can be lowered. */
  lemma CoverBoundsAttained()
    ensures var r := ByteRange(1, 8_192);
      && InBounds(r, 16_384)
      && EndChunk(r, 1_024) - StartChunk(r, 1_024) + 1 == 9
      && CoverRange(StartChunk(r, 8_192), EndChunk(r, 8_192), 8_192, 16_384).length == MAX_COVERING_FETCH_BYTES
  {
    assert 8_192 / 1_024 == 8 && 1 / 1_024 == 0 && 8_192 / 8_192 == 1 && 1 / 8_192 == 0;
  }

  // ----- building and verifying the covering chunks -----

  function VerifiedOf(h: Hash, m: Manifest, i: nat): VerifiedChunk
    requires GeometryConsistent(m) && i < m.chunkCount
  {
    var p := ProofOf(h, m, i);
    VerifiedChunk(p.chunkIndex, p.byteStart, p.byteLength, p.chunkSha256, p.proof)
  }

  function VerifiedRange(h: Hash, m: Manifest, start: nat, end: int): seq<VerifiedChunk>
    requires GeometryConsistent(m) && start <= end + 1 && end < m.chunkCount
  {
    seq(end + 1 - start, k requires 0 <= k < end + 1 - start => VerifiedOf(h, m, start + k))
  }

  /** The part of a cover that starts at byte `base` which holds chunk i. */
  function Piece(m: Manifest, i: nat, cover: Bytes, base: int): Bytes
    requires i < |m.chunks|
  {
    var from := m.chunks[i].byteStart - base;
    var to := from + m.chunks[i].byteLength;
    if 0 <= from <= to <= |cover| then cover[from..to] else []
  }

  /** The bytes have the digests the manifest declares for chunk i. */
  predicate PieceMatches(h: Hash, m: Manifest, i: nat, cover: Bytes, base: int)
    requires i < |m.chunks|
  {
    var piece := Piece(m, i, cover, base);
    && |piece| == m.chunks[i].byteLength && h(piece) == m.chunks[i].chunkSha256
    && LeafDigest(h, piece) == m.chunks[i].merkleLeafSha256
  }

  predicate CoverMatches(h: Hash, m: Manifest, start: nat, end: int, cover: Bytes, base: int)
    requires end < |m.chunks|
  {
    forall i: nat :: start <= i <= end ==> PieceMatches(h, m, i, cover, base)
  }

  /** One iteration: for a consistent manifest neither the proof builder nor the verifier throws,
      and the verifier says yes exactly when the digests match. */
  method VerifyPiece(h: Hash, m: Manifest, i: nat, cover: Bytes, base: int) returns (r: Option<VerifiedChunk>)
    requires Consistent(h, m) && i < m.chunkCount
    ensures r.Some? <==> PieceMatches(h, m, i, cover, base)
    ensures r.Some? ==> r.value == VerifiedOf(h, m, i)
  {
    var piece := Piece(m, i, cover, base);
    var built := BuildArtifactChunkProof(h, m, i);
    if built.Err? { return None; }
    var proof := built.value;
    var ok := VerifyArtifactChunkProof(h, piece, proof, m.merkleRoot);
    BuiltShape(h, m, i);
    if PieceMatches(h, m, i, cover, base) {
      ProofComplete(h, m, i, piece);
    }
    if ok != Ok(true) { return None; }
    return Some(VerifiedChunk(proof.chunkIndex, proof.byteStart, proof.byteLength, proof.chunkSha256, proof.proof));
  }

  method BuildAndVerifyCoveringChunks(h: Hash, m: Manifest, start: nat, end: int, cover: Bytes, base: int)
    returns (r: Option<seq<VerifiedChunk>>)
    requires Consistent(h, m) && start <= end < m.chunkCount
    ensures r.Some? <==> CoverMatches(h, m, start, end, cover, base)
    ensures r.Some? ==> r.value == VerifiedRange(h, m, start, end)
  {
    assert m.chunkCount == |m.chunks|;
    hide Root, PieceMatches, VerifiedOf;
    var verified: seq<VerifiedChunk> := [];
    var i := start;
    while i <= end
      invariant start <= i <= end + 1
      invariant verified == VerifiedRange(h, m, start, i - 1)
      invariant CoverMatches(h, m, start, i - 1, cover, base)
    {
      var chunk := VerifyPiece(h, m, i, cover, base);
      if chunk.None? { return None; }
      assert VerifiedRange(h, m, start, i) == VerifiedRange(h, m, start, i - 1) + [VerifiedOf(h, m, i)];
      verified := verified + [chunk.value];
      i := i + 1;
    }
    return Some(verified);
  }

  // ----- the contract always holds -----

  lemma VerifiedShape(h: Hash, m: Manifest, i: nat)
    requires GeometryConsistent(m) && i < m.chunkCount
    ensures var v := VerifiedOf(h, m, i);
      && VerifiedChunkOk(v) && v.chunkIndex == i && v.byteStart == i * m.chunkSize
      && v.byteLength == Min(m.chunkSize, m.byteLength - i * m.chunkSize)
      && (m.chunkCount > 1 ==> v.merkleProof != []) && |v.merkleProof| <= 12
  {
    assert EntryConsistent(m, i);
    ChunkStartInSource(m.byteLength, m.chunkSize, i);
    BuiltShape(h, m, i);
    ChunkCountBounded(m.byteLength, m.chunkSize);
    ProofDepthBounded(m.chunkCount);
  }

  /** The coverage of chunks start..end is the covering range. */
  lemma CoverageIsCover(h: Hash, m: Manifest, start: nat, end: nat)
    requires GeometryConsistent(m) && start <= end < m.chunkCount
    ensures var v, cover := VerifiedRange(h, m, start, end), CoverRange(start, end, m.chunkSize, m.byteLength);
      && v[0].byteStart == cover.offset
      && v[|v| - 1].byteStart + v[|v| - 1].byteLength == cover.offset + cover.length
  {
    VerifiedShape(h, m, start);
    VerifiedShape(h, m, end);
    assert (end + 1) * m.chunkSize == end * m.chunkSize + m.chunkSize;
  }

  lemma ChunkFollows(h: Hash, m: Manifest, i: nat)
    requires GeometryConsistent(m) && 1 <= i < m.chunkCount
    ensures Follows(VerifiedOf(h, m, i - 1), VerifiedOf(h, m, i))
  {
    VerifiedShape(h, m, i - 1);
    VerifiedShape(h, m, i);
    ChunkStartInSource(m.byteLength, m.chunkSize, i - 1);
    assert (i - 1 + 1) * m.chunkSize == (i - 1) * m.chunkSize + m.chunkSize;
  }

  function IntegrityFor(h: Hash, m: Manifest, requested: RequestedRange, start: nat, end: nat, returned: ByteRange,
      sha256: Digest): Integrity
    requires GeometryConsistent(m) && start <= end < m.chunkCount
  {
    Integrity(requested, start, end, returned, m.chunkSize, m.chunkCount, VerifiedRange(h, m, start, end),
              m.merkleRoot, sha256, m.sourceSha256)
  }

  /** The integrity object of an in-bounds range. */
  function IntegrityOfRange(h: Hash, m: Manifest, requested: RequestedRange, r: ByteRange, sha256: Digest): Integrity
    requires GeometryConsistent(m) && InBounds(r, m.byteLength)
  {
    CoverGeometry(r, m.byteLength, m.chunkSize);
    IntegrityFor(h, m, requested, StartChunk(r, m.chunkSize), EndChunk(r, m.chunkSize), r, sha256)
  }

  /** The builder satisfies the contract: whatever the operation, an integrity object whose returned
      range lies in the cover is accepted by the schema. */
  lemma IntegrityAlwaysOk(h: Hash, m: Manifest, requested: RequestedRange, start: nat, end: nat, returned: ByteRange,
      sha256: Digest)
    requires GeometryConsistent(m) && start <= end < m.chunkCount && end - start < MAX_VERIFIED_CHUNKS_PER_READ
    requires RequestedOk(requested) && ReturnedOk(returned)
    requires var cover := CoverRange(start, end, m.chunkSize, m.byteLength);
      cover.offset <= returned.offset && returned.offset + returned.length <= cover.offset + cover.length
    requires requested.RequestedBytes? ==> requested.range == returned
    ensures IntegrityOk(IntegrityFor(h, m, requested, start, end, returned, sha256))
  {
    var x := IntegrityFor(h, m, requested, start, end, returned, sha256);
    var v := x.verifiedChunks;
    forall k | 0 <= k < |v|
      ensures VerifiedChunkOk(v[k]) && ChunkFits(x, v[k]) && v[k].chunkIndex == start + k
    {
      VerifiedShape(h, m, start + k);
      ChunkStartInSource(m.byteLength, m.chunkSize, start + k);
      assert (start + k + 1) * m.chunkSize == (start + k) * m.chunkSize + m.chunkSize;
    }
    forall k | 1 <= k < |v|
      ensures Follows(v[k - 1], v[k])
    {
      ChunkFollows(h, m, start + k);
    }
    CoverageIsCover(h, m, start, end);
  }

  // ----- authenticity -----

  /** The bytes of the source between two chunk boundaries. */
  function Covered(source: Bytes, r: ByteRange): Bytes
    requires 0 <= r.offset && 0 <= r.length && r.offset + r.length <= |source|
  {
    source[r.offset..r.offset + r.length]
  }

  /** A manifest that shares root, length and chunk size with the manifest of a source. */
  ghost predicate Describes(h: Hash, m: Manifest, source: Bytes) {
    && Consistent(h, m) && m.byteLength == |source|
    && m.merkleRoot == Root(h, SourceLeaves(h, source, m.chunkSize))
  }

  /** Chunk i of a described source: the declared leaf is the source's leaf, or a collision. */
  lemma LeafAuthentic(h: Hash, m: Manifest, source: Bytes, i: nat) returns (x: Bytes, y: Bytes)
    requires Describes(h, m, source) && i < m.chunkCount
    ensures Collision(h, x, y) || m.chunks[i].merkleLeafSha256 == LeafDigest(h, Chunk(source, m.chunkSize, i))
  {
    var leaves, declared := SourceLeaves(h, source, m.chunkSize), Leaves(m);
    assert |leaves| == |declared| && declared[i] == m.chunks[i].merkleLeafSha256;
    WalkComplete(h, declared, i);
    x, y := WalkSound(h, leaves, declared[i], i, ProofFor(h, declared, i));
  }

  /** A piece that matches the registry's digests is the source's chunk, or a collision. */
  lemma PieceAuthentic(h: Hash, m: Manifest, source: Bytes, i: nat, cover: Bytes, base: int)
      returns (x: Bytes, y: Bytes)
    requires Describes(h, m, source) && i < m.chunkCount && PieceMatches(h, m, i, cover, base)
    ensures Collision(h, x, y) || Piece(m, i, cover, base) == Chunk(source, m.chunkSize, i)
  {
    x, y := LeafAuthentic(h, m, source, i);
    if !Collision(h, x, y) {
      var piece, chunk := Piece(m, i, cover, base), Chunk(source, m.chunkSize, i);
      x, y := LeafMessage(piece), LeafMessage(chunk);
      if x == y {
        LeafMessageInjective(piece, chunk);
      }
    }
  }

  /** Where chunk i ends. */
  function ChunkEnd(m: Manifest, i: nat): int { Min(i * m.chunkSize + m.chunkSize, m.byteLength) }

  lemma Ordered(c: int, start: nat, i: nat, end: nat)
    requires AllowedChunkSize(c) && start <= i <= end
    ensures start * c <= i * c && i * c + c <= (end + 1) * c
    ensures start < i ==> start * c <= (i - 1) * c && (i - 1) * c + c == i * c
  {
    if c == 1_024 {
    } else if c == 4_096 {
    } else {
    }
  }

  lemma PieceBounds(m: Manifest, start: nat, end: nat, i: nat)
    requires GeometryConsistent(m) && start <= i <= end < m.chunkCount
    ensures var r := CoverRange(start, end, m.chunkSize, m.byteLength);
      && r.offset <= i * m.chunkSize < ChunkEnd(m, i) <= r.offset + r.length <= m.byteLength
      && (i == end ==> ChunkEnd(m, i) == r.offset + r.length)
    ensures m.chunks[i].byteStart == i * m.chunkSize && m.chunks[i].byteStart + m.chunks[i].byteLength == ChunkEnd(m, i)
    ensures start < i ==> ChunkEnd(m, i - 1) == i * m.chunkSize
  {
    assert EntryConsistent(m, i);
    ChunkStartInSource(m.byteLength, m.chunkSize, i);
    Ordered(m.chunkSize, start, i, end);
    Ordered(m.chunkSize, end, end, end);
    assert (end + 1) * m.chunkSize == end * m.chunkSize + m.chunkSize;
  }

  lemma PieceIsSource(h: Hash, m: Manifest, source: Bytes, start: nat, end: nat, i: nat, cover: Bytes)
      returns (x: Bytes, y: Bytes)
    requires Describes(h, m, source) && start <= i <= end < m.chunkCount
    requires |cover| == CoverRange(start, end, m.chunkSize, m.byteLength).length
    requires CoverMatches(h, m, start, end, cover, start * m.chunkSize)
    ensures var base := start * m.chunkSize;
      && 0 <= base <= i * m.chunkSize <= ChunkEnd(m, i) <= base + |cover| <= |source|
      && (Collision(h, x, y)
        || cover[i * m.chunkSize - base..ChunkEnd(m, i) - base] == source[i * m.chunkSize..ChunkEnd(m, i)])
  {
    PieceBounds(m, start, end, i);
    assert PieceMatches(h, m, i, cover, start * m.chunkSize);
    x, y := PieceAuthentic(h, m, source, i, cover, start * m.chunkSize);
  }

  /** Chunk by chunk, a verified cover is the source's own bytes, or a collision is in hand. */
  lemma {:induction false} PrefixAuthentic(h: Hash, m: Manifest, source: Bytes, start: nat, end: nat, i: nat,
      cover: Bytes) returns (x: Bytes, y: Bytes)
    requires Describes(h, m, source) && start <= i <= end < m.chunkCount
    requires |cover| == CoverRange(start, end, m.chunkSize, m.byteLength).length
    requires CoverMatches(h, m, start, end, cover, start * m.chunkSize)
    ensures var base := start * m.chunkSize;
      && 0 <= base <= ChunkEnd(m, i) <= base + |cover| <= |source|
      && (Collision(h, x, y) || cover[..ChunkEnd(m, i) - base] == source[base..ChunkEnd(m, i)])
    decreases i
  {
    var base, lo, hi := start * m.chunkSize, i * m.chunkSize, ChunkEnd(m, i);
    x, y := PieceIsSource(h, m, source, start, end, i, cover);
    if !Collision(h, x, y) && start < i {
      x, y := PrefixAuthentic(h, m, source, start, end, i - 1, cover);
      PieceBounds(m, start, end, i);
      if !Collision(h, x, y) {
        JoinSlices(cover, source, base, lo, hi);
      }
    }
  }

  lemma JoinSlices(cover: Bytes, source: Bytes, base: int, lo: int, hi: int)
    requires 0 <= base <= lo <= hi <= |source| && hi - base <= |cover|
    requires cover[..lo - base] == source[base..lo]
    requires cover[lo - base..hi - base] == source[lo..hi]
    ensures cover[..hi - base] == source[base..hi]
  {
    assert cover[..hi - base] == cover[..lo - base] + cover[lo - base..hi - base];
    assert source[base..hi] == source[base..lo] + source[lo..hi];
  }

  /** The slice an operation returns from a verified cover is the requested range of the source,
      or two different messages with one digest have been found. */
  lemma SliceAuthentic(h: Hash, m: Manifest, source: Bytes, r: ByteRange, cover: Bytes) returns (x: Bytes, y: Bytes)
    requires Describes(h, m, source) && InBounds(r, |source|)
    requires var start, end := StartChunk(r, m.chunkSize), EndChunk(r, m.chunkSize);
      && 0 <= start <= end < |m.chunks|
      && |cover| == CoverRange(start, end, m.chunkSize, m.byteLength).length
      && CoverMatches(h, m, start, end, cover, start * m.chunkSize)
    ensures var from := r.offset - StartChunk(r, m.chunkSize) * m.chunkSize;
      && 0 <= from <= from + r.length <= |cover|
      && (Collision(h, x, y) || cover[from..from + r.length] == Covered(source, r))
  {
    hide PieceMatches, Root, CeilDiv, SourceLeaves, CoverMatches;
    var start, end := StartChunk(r, m.chunkSize), EndChunk(r, m.chunkSize);
    var base := start * m.chunkSize;
    CoverGeometry(r, |source|, m.chunkSize);
    x, y := PrefixAuthentic(h, m, source, start, end, end, cover);
    PieceBounds(m, start, end, end);
    assert cover[..|cover|] == cover;
    if !Collision(h, x, y) {
      SliceOfSlice(source, base, |cover|, r);
    }
  }

  lemma SliceOfSlice(source: Bytes, base: int, n: int, r: ByteRange)
    requires 0 <= base <= r.offset && 0 <= r.length && r.offset + r.length <= base + n <= |source|
    ensures source[base..base + n][r.offset - base..r.offset - base + r.length] == source[r.offset..r.offset + r.length]
  {
  }

  /** Honest bytes always match: any stretch of the source that holds chunk i. */
  lemma HonestPiece(h: Hash, m: Manifest, source: Bytes, i: nat, base: int, cover: Bytes)
    requires BuildError(source, m.chunkSize).None? && m == ManifestOf(h, source, m.chunkSize) && i < m.chunkCount
    requires 0 <= base <= i * m.chunkSize && ChunkEnd(m, i) <= base + |cover| <= |source|
    requires cover == source[base..base + |cover|]
    ensures PieceMatches(h, m, i, cover, base)
  {
    ChunkStartInSource(|source|, m.chunkSize, i);
    var lo, hi := i * m.chunkSize, ChunkEnd(m, i);
    assert m.chunks[i] == EntryFor(h, source, m.chunkSize, i);
    assert Chunk(source, m.chunkSize, i) == source[lo..hi];
    SliceOfSlice(source, base, |cover|, ByteRange(lo, hi - lo));
    assert Piece(m, i, cover, base) == cover[lo - base..hi - base];
  }

  lemma HonestCover(h: Hash, m: Manifest, source: Bytes, start: nat, end: nat, base: int, cover: Bytes)
    requires BuildError(source, m.chunkSize).None? && m == ManifestOf(h, source, m.chunkSize)
      && start <= end < m.chunkCount
    requires var r := CoverRange(start, end, m.chunkSize, m.byteLength);
      0 <= base <= r.offset && r.offset + r.length <= base + |cover| <= |source|
    requires cover == source[base..base + |cover|]
    ensures CoverMatches(h, m, start, end, cover, base)
  {
    BuiltIsConsistent(h, source, m.chunkSize);
    forall i: nat | start <= i <= end
      ensures PieceMatches(h, m, i, cover, base)
    {
      PieceBounds(m, start, end, i);
      HonestPiece(h, m, source, i, base, cover);
    }
  }

  /** A complete source whose every chunk has the declared digests. */
  predicate WholeMatches(h: Hash, m: Manifest, bytes: Bytes) {
    Consistent(h, m) && m.byteLength == |bytes| && CoverMatches(h, m, 0, m.chunkCount - 1, bytes, 0)
  }

  lemma BuiltMatches(h: Hash, m: Manifest, source: Bytes)
    requires BuildError(source, m.chunkSize).None? && m == ManifestOf(h, source, m.chunkSize)
    ensures WholeMatches(h, m, source)
  {
    BuiltIsConsistent(h, source, m.chunkSize);
    if m.chunkCount > 0 {
      PieceBounds(m, 0, m.chunkCount - 1, m.chunkCount - 1);
      assert source[0..|source|] == source;
      HonestCover(h, m, source, 0, m.chunkCount - 1, 0, source);
    }
  }
}
