/** Chunk manifests and per-chunk inclusion proofs of artifact-chunk-manifest.ts. */
module ChunkManifest {
  import opened Hashing
  import opened Merkle

  const PROFILE_VERSION := "artifact-chunk-merkle/0.1"
  const MAX_SOURCE_BYTES := 1_048_576
  const MAX_CHUNK_COUNT := 4_096
  const MAX_PROOF_DEPTH := 32

  datatype ErrorCode =
    | UnsupportedChunkSize | SourceTooLarge | ChunkCountExceeded | ProofDepthExceeded
    | InvalidChunkIndex | MalformedDigest | MalformedProofPosition | InconsistentManifest

  datatype ChunkEntry = ChunkEntry(
    chunkIndex: int, byteStart: int, byteLength: int, chunkSha256: Bytes, merkleLeafSha256: Bytes)

  datatype Manifest = Manifest(
    profileVersion: string, sourceSha256: Bytes, byteLength: int, chunkSize: int, chunkCount: int,
    chunks: seq<ChunkEntry>, merkleRoot: Bytes)

  datatype ChunkProof = ChunkProof(
    profileVersion: string, sourceSha256: Bytes, sourceByteLength: int, chunkSize: int, totalChunkCount: int,
    chunkIndex: int, byteStart: int, byteLength: int, chunkSha256: Bytes, merkleLeafSha256: Bytes,
    proof: seq<ProofNode>)

  predicate AllowedChunkSize(n: int) { n == 1_024 || n == 4_096 || n == 8_192 }

  function Min(a: int, b: int): int { if a <= b then a else b }

  /** ceil(n / c), by counting full chunks. */
  function CeilDiv(n: nat, c: nat): nat
    requires c > 0
  {
    if n == 0 then 0 else if n <= c then 1 else 1 + CeilDiv(n - c, c)
  }

  /** It is the rounded-up quotient. */
  lemma {:induction false} CeilDivIs(n: nat, c: nat)
    requires AllowedChunkSize(c)
    ensures CeilDiv(n, c) == (n + c - 1) / c
    decreases n
  {
    if n > c {
      CeilDivIs(n - c, c);
    }
    if c == 1_024 {
    } else if c == 4_096 {
    } else {
    }
  }

  lemma CeilDivBounds(n: nat, c: nat)
    requires AllowedChunkSize(c)
    ensures n <= CeilDiv(n, c) * c < n + c
  {
    CeilDivIs(n, c);
    if c == 1_024 {
    } else if c == 4_096 {
    } else {
    }
  }

  lemma ChunkStartInSource(n: nat, c: nat, i: nat)
    requires AllowedChunkSize(c) && i < CeilDiv(n, c)
    ensures 0 <= i * c < n
    ensures i + 1 < CeilDiv(n, c) ==> (i + 1) * c < n
    ensures i + 1 == CeilDiv(n, c) ==> n <= (i + 1) * c
  {
    CeilDivBounds(n, c);
    if c == 1_024 {
    } else if c == 4_096 {
    } else {
    }
  }

  lemma ChunkCountBounded(n: nat, c: nat)
    requires AllowedChunkSize(c) && n <= MAX_SOURCE_BYTES
    ensures CeilDiv(n, c) <= 1_024
  {
    CeilDivBounds(n, c);
    if c == 1_024 {
    } else if c == 4_096 {
    } else {
    }
  }

  // ----- the manifest of a source -----

  /** The bytes of chunk `i`, clamped to the source. */
  function Chunk(source: Bytes, c: nat, i: nat): Bytes
  {
    source[Min(i * c, |source|)..Min(i * c + c, |source|)]
  }

  function EntryFor(h: Hash, source: Bytes, c: nat, i: nat): ChunkEntry {
    var chunk := Chunk(source, c, i);
    ChunkEntry(i, i * c, |chunk|, h(chunk), LeafDigest(h, chunk))
  }

  function SourceLeaves(h: Hash, source: Bytes, c: nat): seq<Digest>
    requires c > 0
  {
    seq(CeilDiv(|source|, c), i requires 0 <= i => LeafDigest(h, Chunk(source, c, i)))
  }

  function ManifestOf(h: Hash, source: Bytes, c: nat): Manifest
    requires c > 0
  {
    var n := CeilDiv(|source|, c);
    Manifest(PROFILE_VERSION, h(source), |source|, c, n,
             seq(n, i requires 0 <= i => EntryFor(h, source, c, i)), Root(h, SourceLeaves(h, source, c)))
  }

  function BuildError(source: Bytes, c: int): Option<ErrorCode> {
    if !AllowedChunkSize(c) then Some(UnsupportedChunkSize)
    else if |source| > MAX_SOURCE_BYTES then Some(SourceTooLarge)
    else None
  }

  /** The chunk-count ceiling check of the source is dead: it never decides the outcome. */
  method BuildArtifactChunkManifest(h: Hash, source: Bytes, chunkSize: int) returns (r: Result<Manifest, ErrorCode>)
    ensures r == match BuildError(source, chunkSize)
                 case Some(code) => Err(code)
                 case None => Ok(ManifestOf(h, source, chunkSize))
    ensures r.Ok? && source == [] ==> r.value.merkleRoot == h([2])
    ensures r.Ok? && 0 < |source| <= chunkSize ==> r.value.merkleRoot == h([0] + source)
    ensures r.Ok? && chunkSize < |source| <= 2 * chunkSize ==>
      r.value.merkleRoot == h([1] + h([0] + source[..chunkSize]) + h([0] + source[chunkSize..]))
  {
    hide CeilDiv, LeafDigest, Root;
    if !AllowedChunkSize(chunkSize) { return Err(UnsupportedChunkSize); }
    if |source| > MAX_SOURCE_BYTES { return Err(SourceTooLarge); }
    var chunkCount := if |source| == 0 then 0 else CeilDiv(|source|, chunkSize);
    ChunkCountBounded(|source|, chunkSize);
    assert chunkCount == CeilDiv(|source|, chunkSize) by {
      if |source| == 0 { CeilDivBounds(0, chunkSize); }
    }
    if chunkCount > MAX_CHUNK_COUNT { return Err(ChunkCountExceeded); }
    var chunks: seq<ChunkEntry> := [];
    var leaves: seq<Digest> := [];
    var i := 0;
    while i < chunkCount
      invariant 0 <= i <= chunkCount
      invariant |chunks| == |leaves| == i
      invariant forall k | 0 <= k < i :: chunks[k] == EntryFor(h, source, chunkSize, k)
      invariant forall k | 0 <= k < i :: leaves[k] == LeafDigest(h, Chunk(source, chunkSize, k))
    {
      ChunkStartInSource(|source|, chunkSize, i);
      var start := i * chunkSize;
      var end := Min(start + chunkSize, |source|);
      var chunk := source[start..end];
      assert chunk == Chunk(source, chunkSize, i);
      leaves := leaves + [LeafDigest(h, chunk)];
      chunks := chunks + [ChunkEntry(i, start, end - start, h(chunk), LeafDigest(h, chunk))];
      i := i + 1;
    }
    assert leaves == SourceLeaves(h, source, chunkSize);
    assert chunks == ManifestOf(h, source, chunkSize).chunks;
    RootWritten(h, source, chunkSize);
    var root := MerkleRoot(h, leaves);
    r := Ok(Manifest(PROFILE_VERSION, h(source), |source|, chunkSize, chunkCount, chunks, root));
  }

  /** What the builder reports, as bytes: the three sizes of the profile, the ceiling, and every field. */
  lemma BuildErrorWritten(source: Bytes, c: int)
    ensures BuildError(source, c) == Some(UnsupportedChunkSize) <==> c !in {1_024, 4_096, 8_192}
    ensures BuildError(source, c) == Some(SourceTooLarge) <==> c in {1_024, 4_096, 8_192} && |source| > 1_048_576
    ensures BuildError(source, c).None? <==> c in {1_024, 4_096, 8_192} && |source| <= 1_048_576
  {
    assert forall x: int :: x in {1_024, 4_096, 8_192} <==> AllowedChunkSize(x);
  }

  lemma ManifestWritten(h: Hash, source: Bytes, c: nat)
    requires BuildError(source, c).None?
    ensures var m := ManifestOf(h, source, c);
      && m.profileVersion == "artifact-chunk-merkle/0.1" && m.sourceSha256 == h(source) && m.byteLength == |source|
      && m.chunkSize == c && m.chunkCount == |m.chunks| && m.chunkCount * c - c < |source| <= m.chunkCount * c
    ensures forall i :: 0 <= i < |ManifestOf(h, source, c).chunks| ==>
      var e, end := ManifestOf(h, source, c).chunks[i], if (i + 1) * c <= |source| then (i + 1) * c else |source|;
      && 0 <= i * c < end && e.chunkIndex == i && e.byteStart == i * c && e.byteStart + e.byteLength == end
      && e.chunkSha256 == h(source[i * c..end]) && e.merkleLeafSha256 == h([0] + source[i * c..end])
  {
    var m := ManifestOf(h, source, c);
    CeilDivBounds(|source|, c);
    forall i | 0 <= i < |m.chunks|
      ensures 0 <= i * c < |source| && (i + 1) * c == i * c + c
    {
      ChunkStartInSource(|source|, c, i);
    }
    hide CeilDiv, Root;
  }

  /** The root of the smallest sources as bytes; Merkle.LevelNodes has the step for every width. */
  lemma RootWritten(h: Hash, source: Bytes, c: nat)
    requires BuildError(source, c).None?
    ensures var root := ManifestOf(h, source, c).merkleRoot;
      && (source == [] ==> root == h([2]))
      && (0 < |source| <= c ==> root == h([0] + source))
      && (c < |source| <= 2 * c ==> root == h([1] + h([0] + source[..c]) + h([0] + source[c..])))
  {
    var leaves := SourceLeaves(h, source, c);
    if source != [] && |source| <= 2 * c {
      assert |source| > c ==> CeilDiv(|source|, c) == 1 + CeilDiv(|source| - c, c);
      assert |leaves| == (if |source| <= c then 1 else 2);
      assert Chunk(source, c, 0) == (if |source| <= c then source else source[..c]);
      if c < |source| {
        assert Chunk(source, c, 1) == source[c..];
        RootOfNext(h, leaves);
        var top := NextLevel(h, leaves);
        assert top[0] == ParentDigest(h, leaves[0], leaves[1]);
        assert Root(h, top) == top[0];
      }
    }
  }

  /** For every source the root is the one node of the last level over the leaves of the entries. */
  lemma RootIsTop(h: Hash, source: Bytes, c: nat)
    requires BuildError(source, c).None?
    ensures var m := ManifestOf(h, source, c);
      && Consistent(h, m) && Levels(h, Leaves(m))[|Levels(h, Leaves(m))| - 1] == [m.merkleRoot]
      && forall k :: 0 <= k < |m.chunks| ==> Leaves(m)[k] == m.chunks[k].merkleLeafSha256
  {
    BuiltIsConsistent(h, source, c);
    LevelsEndInRoot(h, Leaves(ManifestOf(h, source, c)));
  }

  // ----- manifest consistency -----

  function HeaderError(m: Manifest): Option<ErrorCode> {
    if m.profileVersion != PROFILE_VERSION then Some(InconsistentManifest)
    else if !AllowedChunkSize(m.chunkSize) then Some(UnsupportedChunkSize)
    else if m.byteLength < 0 then Some(InconsistentManifest)
    else if m.chunkCount > MAX_CHUNK_COUNT then Some(ChunkCountExceeded)
    else if m.byteLength > MAX_SOURCE_BYTES then Some(SourceTooLarge)
    else if m.chunkCount != (if m.byteLength == 0 then 0 else CeilDiv(m.byteLength, m.chunkSize))
      then Some(InconsistentManifest)
    else if !WellFormedDigest(m.sourceSha256) then Some(MalformedDigest)
    else if !WellFormedDigest(m.merkleRoot) then Some(MalformedDigest)
    else if |m.chunks| != m.chunkCount then Some(InconsistentManifest)
    else None
  }

  function EntryError(m: Manifest, i: nat, expectedStart: int): Option<ErrorCode>
    requires i < |m.chunks|
  {
    var e := m.chunks[i];
    var expectedByteLength := if i == |m.chunks| - 1 then m.byteLength - e.byteStart else m.chunkSize;
    if e.chunkIndex != i then Some(InconsistentManifest)
    else if e.byteStart != i * m.chunkSize then Some(InconsistentManifest)
    else if e.byteStart != expectedStart then Some(InconsistentManifest)
    else if e.byteLength != expectedByteLength then Some(InconsistentManifest)
    else if e.byteLength < 1 || e.byteLength > m.chunkSize then Some(InconsistentManifest)
    else if !WellFormedDigest(e.chunkSha256) then Some(MalformedDigest)
    else if !WellFormedDigest(e.merkleLeafSha256) then Some(MalformedDigest)
    else None
  }

  /** What the geometry of an entry has to be, as the documentation states it. */
  predicate EntryConsistent(m: Manifest, i: nat)
    requires i < |m.chunks|
  {
    var e := m.chunks[i];
    && e.chunkIndex == i && e.byteStart == i * m.chunkSize
    && e.byteLength == Min(m.chunkSize, m.byteLength - i * m.chunkSize)
    && WellFormedDigest(e.chunkSha256) && WellFormedDigest(e.merkleLeafSha256)
  }

  predicate GeometryConsistent(m: Manifest) {
    && m.profileVersion == PROFILE_VERSION && AllowedChunkSize(m.chunkSize)
    && 0 <= m.byteLength <= MAX_SOURCE_BYTES
    && m.chunkCount == |m.chunks| == CeilDiv(m.byteLength, m.chunkSize)
    && WellFormedDigest(m.sourceSha256) && WellFormedDigest(m.merkleRoot)
    && forall i | 0 <= i < |m.chunks| :: EntryConsistent(m, i)
  }

  function LeafOf(m: Manifest, i: nat): Digest
    requires i < |m.chunks| && EntryConsistent(m, i)
  {
    m.chunks[i].merkleLeafSha256
  }

  function Leaves(m: Manifest): seq<Digest>
    requires forall i | 0 <= i < |m.chunks| :: EntryConsistent(m, i)
  {
    seq(|m.chunks|, i requires 0 <= i < |m.chunks| => LeafOf(m, i))
  }

  predicate Consistent(h: Hash, m: Manifest) {
    GeometryConsistent(m) && m.merkleRoot == Root(h, Leaves(m))
  }

  /** The ordered checks of one entry accept exactly the consistent one, and move on to the next start. */
  lemma EntryErrorExact(m: Manifest, i: nat)
    requires HeaderError(m).None? && i < |m.chunks|
    ensures var start := Min(i * m.chunkSize, m.byteLength);
      && (EntryError(m, i, start).None? <==> EntryConsistent(m, i))
      && (EntryError(m, i, start).Some? ==> EntryError(m, i, start).value in {InconsistentManifest, MalformedDigest})
      && (EntryConsistent(m, i) ==>
        start + m.chunks[i].byteLength == Min((i + 1) * m.chunkSize, m.byteLength)
        && |m.chunks[i].merkleLeafSha256| == 32)
  {
    ChunkStartInSource(m.byteLength, m.chunkSize, i);
    hide CeilDiv;
    assert (i + 1) * m.chunkSize == i * m.chunkSize + m.chunkSize;
  }

  /** The structural validator. It accepts exactly the consistent manifests. */
  method AssertManifestConsistent(h: Hash, m: Manifest) returns (error: Option<ErrorCode>)
    ensures error.None? <==> Consistent(h, m)
    ensures HeaderError(m).Some? ==> error == HeaderError(m)
    ensures error.Some? && HeaderError(m).None? ==> error.value in {InconsistentManifest, MalformedDigest}
    ensures GeometryConsistent(m) && m.merkleRoot != Root(h, Leaves(m)) ==> error == Some(InconsistentManifest)
  {
    error := HeaderError(m);
    if error.Some? {
      if GeometryConsistent(m) { ChunkCountBounded(m.byteLength, m.chunkSize); }
      return;
    }
    if m.byteLength == 0 { CeilDivBounds(0, m.chunkSize); }
    hide EntryError, EntryConsistent, CeilDiv;
    var leaves: seq<Digest> := [];
    var expectedStart := 0;
    var i := 0;
    while i < |m.chunks|
      invariant 0 <= i <= |m.chunks|
      invariant forall k | 0 <= k < i :: EntryConsistent(m, k)
      invariant expectedStart == Min(i * m.chunkSize, m.byteLength)
      invariant |leaves| == i && forall k | 0 <= k < i :: leaves[k] == m.chunks[k].merkleLeafSha256
    {
      EntryErrorExact(m, i);
      error := EntryError(m, i, expectedStart);
      if error.Some? { return; }
      leaves := leaves + [m.chunks[i].merkleLeafSha256];
      expectedStart := expectedStart + m.chunks[i].byteLength;
      i := i + 1;
    }
    CeilDivBounds(m.byteLength, m.chunkSize);
    if expectedStart != m.byteLength { return Some(InconsistentManifest); }
    assert leaves == Leaves(m);
    var root := MerkleRoot(h, leaves);
    if root != m.merkleRoot { return Some(InconsistentManifest); }
    return None;
  }

  /** Every manifest the builder returns is accepted by the validator. */
  lemma BuiltIsConsistent(h: Hash, source: Bytes, c: nat)
    requires BuildError(source, c).None?
    ensures Consistent(h, ManifestOf(h, source, c))
    ensures Leaves(ManifestOf(h, source, c)) == SourceLeaves(h, source, c)
  {
    var m := ManifestOf(h, source, c);
    forall i | 0 <= i < |m.chunks| ensures EntryConsistent(m, i) {
      ChunkStartInSource(|source|, c, i);
    }
    assert Leaves(m) == SourceLeaves(h, source, c);
  }

  // ----- proofs -----

  function ProofOf(h: Hash, m: Manifest, i: nat): ChunkProof
    requires GeometryConsistent(m) && i < m.chunkCount
  {
    var e := m.chunks[i];
    ChunkProof(m.profileVersion, m.sourceSha256, m.byteLength, m.chunkSize, m.chunkCount,
               e.chunkIndex, e.byteStart, e.byteLength, e.chunkSha256, e.merkleLeafSha256,
               ProofFor(h, Leaves(m), i))
  }

  /** Every field of the built proof; Merkle.ProofNodeAt has its nodes. */
  lemma ProofWritten(h: Hash, m: Manifest, i: nat)
    requires Consistent(h, m) && i < m.chunkCount
    ensures var p, e := ProofOf(h, m, i), m.chunks[i];
      && p.profileVersion == m.profileVersion && p.sourceSha256 == m.sourceSha256
      && p.sourceByteLength == m.byteLength && p.chunkSize == m.chunkSize && p.totalChunkCount == m.chunkCount
      && p.chunkIndex == i && p.byteStart == i * m.chunkSize && p.byteLength == e.byteLength
      && p.chunkSha256 == e.chunkSha256 && p.merkleLeafSha256 == e.merkleLeafSha256
      && p.proof == ProofFor(h, Leaves(m), i)
      && forall k :: 0 <= k < |m.chunks| ==> Leaves(m)[k] == m.chunks[k].merkleLeafSha256
  {
    assert EntryConsistent(m, i);
  }

  lemma ProofDepthBounded(n: nat)
    requires n <= MAX_CHUNK_COUNT
    ensures Depth(n) <= 12
  {
    assert Pow2(12) == 4_096;
    DepthBound(n, 12);
  }

  method BuildArtifactChunkProof(h: Hash, m: Manifest, chunkIndex: int) returns (r: Result<ChunkProof, ErrorCode>)
    ensures !Consistent(h, m) <==> r.Err? && r != Err(InvalidChunkIndex)
    ensures r == Err(InvalidChunkIndex) <==> Consistent(h, m) && !(0 <= chunkIndex < m.chunkCount)
    ensures HeaderError(m).Some? ==> r == Err(HeaderError(m).value)
    ensures r.Ok? ==> r.value == ProofOf(h, m, chunkIndex)
  {
    var error := AssertManifestConsistent(h, m);
    if error.Some? { return Err(error.value); }
    if !(0 <= chunkIndex < m.chunkCount) { return Err(InvalidChunkIndex); }
    var leaves := Leaves(m);
    var levels := BuildMerkleLevels(h, leaves);
    var nodes := BuildProofNodesFromLevels(h, leaves, levels, chunkIndex);
    ChunkCountBounded(m.byteLength, m.chunkSize);
    ProofDepthBounded(m.chunkCount);
    if |nodes| > MAX_PROOF_DEPTH { return Err(ProofDepthExceeded); }
    var e := m.chunks[chunkIndex];
    return Ok(ChunkProof(m.profileVersion, m.sourceSha256, m.byteLength, m.chunkSize, m.chunkCount,
                         e.chunkIndex, e.byteStart, e.byteLength, e.chunkSha256, e.merkleLeafSha256, nodes));
  }

  predicate ProofGeometryConsistent(p: ChunkProof) {
    && p.profileVersion == PROFILE_VERSION && AllowedChunkSize(p.chunkSize)
    && 1 <= p.sourceByteLength <= MAX_SOURCE_BYTES
    && p.totalChunkCount == CeilDiv(p.sourceByteLength, p.chunkSize)
    && 0 <= p.chunkIndex < p.totalChunkCount
    && p.byteStart == p.chunkIndex * p.chunkSize
    && p.byteLength == Min(p.chunkSize, p.sourceByteLength - p.byteStart)
  }

  /** Every field of a proof agrees with every other field. */
  predicate ProofShapeConsistent(p: ChunkProof) {
    && ProofGeometryConsistent(p)
    && WellFormedDigest(p.sourceSha256) && WellFormedDigest(p.chunkSha256) && WellFormedDigest(p.merkleLeafSha256)
    && |p.proof| == Depth(p.totalChunkCount)
    && forall n | n in p.proof :: !n.position.Malformed? && WellFormedDigest(n.sibling)
  }

  function ProofGeometryError(p: ChunkProof): Option<ErrorCode> {
    if p.profileVersion != PROFILE_VERSION then Some(InconsistentManifest)
    else if !AllowedChunkSize(p.chunkSize) then Some(UnsupportedChunkSize)
    else if |p.proof| > MAX_PROOF_DEPTH then Some(ProofDepthExceeded)
    else if p.sourceByteLength < 1 || p.sourceByteLength > MAX_SOURCE_BYTES then Some(InconsistentManifest)
    else if p.totalChunkCount < 1 then Some(InconsistentManifest)
    else if p.totalChunkCount > MAX_CHUNK_COUNT then Some(ChunkCountExceeded)
    else if p.totalChunkCount != CeilDiv(p.sourceByteLength, p.chunkSize) then Some(InconsistentManifest)
    else if p.chunkIndex < 0 then Some(InvalidChunkIndex)
    else if p.chunkIndex >= p.totalChunkCount then Some(InvalidChunkIndex)
    else if p.byteStart != p.chunkIndex * p.chunkSize then Some(InconsistentManifest)
    else
      var expectedByteLength :=
        if p.chunkIndex == p.totalChunkCount - 1 then p.sourceByteLength - p.byteStart else p.chunkSize;
      if p.byteLength != expectedByteLength then Some(InconsistentManifest)
      else if p.byteLength < 1 || p.byteLength > p.chunkSize then Some(InconsistentManifest)
      else None
  }

  /** The ordered geometry checks accept exactly the consistent geometry. */
  lemma ProofGeometryErrorExact(p: ChunkProof)
    ensures ProofGeometryError(p).None? <==> |p.proof| <= MAX_PROOF_DEPTH && ProofGeometryConsistent(p)
  {
    if AllowedChunkSize(p.chunkSize) && 1 <= p.sourceByteLength <= MAX_SOURCE_BYTES {
      ChunkCountBounded(p.sourceByteLength, p.chunkSize);
      if 0 <= p.chunkIndex < CeilDiv(p.sourceByteLength, p.chunkSize) {
        ChunkStartInSource(p.sourceByteLength, p.chunkSize, p.chunkIndex);
        assert (p.chunkIndex + 1) * p.chunkSize == p.chunkIndex * p.chunkSize + p.chunkSize;
      }
    }
  }

  /** Which check each code of the geometry checks stands for; all others report InconsistentManifest. */
  lemma ProofErrorWritten(p: ChunkProof)
    ensures var e := ProofGeometryError(p);
      var versionOk := p.profileVersion == "artifact-chunk-merkle/0.1";
      var sizeOk := p.chunkSize in {1_024, 4_096, 8_192};
      var lengthOk := 1 <= p.sourceByteLength <= 1_048_576;
      && (e == Some(UnsupportedChunkSize) <==> versionOk && !sizeOk)
      && (e == Some(ProofDepthExceeded) <==> versionOk && sizeOk && |p.proof| > 32)
      && (e == Some(ChunkCountExceeded) <==>
            versionOk && sizeOk && |p.proof| <= 32 && lengthOk && p.totalChunkCount > 4_096)
      && (e == Some(InvalidChunkIndex) <==>
            && versionOk && sizeOk && |p.proof| <= 32 && lengthOk && 1 <= p.totalChunkCount <= 4_096
            && p.totalChunkCount * p.chunkSize - p.chunkSize < p.sourceByteLength <= p.totalChunkCount * p.chunkSize
            && !(0 <= p.chunkIndex < p.totalChunkCount))
      && (e.None? || e.value in {UnsupportedChunkSize, ProofDepthExceeded, ChunkCountExceeded, InvalidChunkIndex,
                                 InconsistentManifest})
  {
    assert forall x: int :: x in {1_024, 4_096, 8_192} <==> AllowedChunkSize(x);
    if AllowedChunkSize(p.chunkSize) && 1 <= p.sourceByteLength && 1 <= p.totalChunkCount {
      CountIs(p.sourceByteLength, p.chunkSize, p.totalChunkCount);
    }
  }

  /** The count is the one number of chunks that just covers the source. */
  lemma CountIs(n: nat, c: nat, k: nat)
    requires AllowedChunkSize(c) && 1 <= k
    ensures CeilDiv(n, c) == k <==> k * c - c < n <= k * c
  {
    CeilDivBounds(n, c);
    var q := CeilDiv(n, c);
    if q < k {
      assert q * c <= (k - 1) * c;
    } else if k < q {
      assert k * c + c <= q * c;
    }
  }

  /** Which check each code of the manifest header stands for; all others report InconsistentManifest. */
  lemma HeaderErrorWritten(m: Manifest)
    ensures var e := HeaderError(m);
      var versionOk := m.profileVersion == "artifact-chunk-merkle/0.1";
      var sizeOk := m.chunkSize in {1_024, 4_096, 8_192};
      && (e == Some(UnsupportedChunkSize) <==> versionOk && !sizeOk)
      && (e == Some(ChunkCountExceeded) <==> versionOk && sizeOk && 0 <= m.byteLength && m.chunkCount > 4_096)
      && (e == Some(SourceTooLarge) <==> versionOk && sizeOk && m.chunkCount <= 4_096 && m.byteLength > 1_048_576)
      && (e == Some(MalformedDigest) ==> |m.sourceSha256| != 32 || |m.merkleRoot| != 32)
      && (e.None? || e.value in {UnsupportedChunkSize, ChunkCountExceeded, SourceTooLarge, MalformedDigest,
                                 InconsistentManifest})
  {
    hide CeilDiv;
    assert forall x: int :: x in {1_024, 4_096, 8_192} <==> AllowedChunkSize(x);
  }

  method AssertProofShapeConsistent(p: ChunkProof) returns (error: Option<ErrorCode>)
    ensures error.None? <==> ProofShapeConsistent(p)
    ensures ProofGeometryError(p).Some? ==> error == ProofGeometryError(p)
    ensures ProofGeometryError(p).None? ==>
      var digestsOk := |p.sourceSha256| == 32 && |p.chunkSha256| == 32 && |p.merkleLeafSha256| == 32;
      && (!digestsOk ==> error == Some(MalformedDigest))
      && (digestsOk && |p.proof| != Depth(p.totalChunkCount) ==> error == Some(InconsistentManifest))
      && (digestsOk && |p.proof| == Depth(p.totalChunkCount) && error.Some? ==>
            exists k :: FirstBadNode(p.proof, k) && error.value == NodeFault(p.proof[k]))
  {
    ProofGeometryErrorExact(p);
    error := ProofGeometryError(p);
    if error.Some? {
      if ProofShapeConsistent(p) {
        ChunkCountBounded(p.sourceByteLength, p.chunkSize);
        ProofDepthBounded(p.totalChunkCount);
      }
      return;
    }
    if !WellFormedDigest(p.sourceSha256) { return Some(MalformedDigest); }
    if !WellFormedDigest(p.chunkSha256) { return Some(MalformedDigest); }
    if !WellFormedDigest(p.merkleLeafSha256) { return Some(MalformedDigest); }
    var depth := ExpectedProofDepthFor(p.totalChunkCount);
    ExpectedDepthIsHalvings(p.totalChunkCount);
    if |p.proof| != depth { return Some(InconsistentManifest); }
    error := NodeShapeError(p.proof);
  }

  /** Node k is the first with another position than left or right or with a malformed digest. */
  predicate FirstBadNode(proof: seq<ProofNode>, k: int) {
    && 0 <= k < |proof| && (proof[k].position.Malformed? || |proof[k].sibling| != 32)
    && forall i | 0 <= i < k :: !proof[i].position.Malformed? && |proof[i].sibling| == 32
  }

  function NodeFault(n: ProofNode): ErrorCode {
    if n.position.Malformed? then MalformedProofPosition else MalformedDigest
  }

  method NodeShapeError(proof: seq<ProofNode>) returns (error: Option<ErrorCode>)
    ensures error.None? <==> forall n | n in proof :: !n.position.Malformed? && WellFormedDigest(n.sibling)
    ensures error.Some? ==> exists k :: FirstBadNode(proof, k) && error.value == NodeFault(proof[k])
  {
    for i := 0 to |proof|
      invariant forall k | 0 <= k < i :: !proof[k].position.Malformed? && WellFormedDigest(proof[k].sibling)
    {
      if proof[i].position.Malformed? {
        assert FirstBadNode(proof, i);
        return Some(MalformedProofPosition);
      }
      if !WellFormedDigest(proof[i].sibling) {
        assert FirstBadNode(proof, i);
        return Some(MalformedDigest);
      }
    }
    return None;
  }

  predicate ProofAccepts(h: Hash, chunk: Bytes, p: ChunkProof, root: Bytes)
    requires ProofShapeConsistent(p)
  {
    && |chunk| == p.byteLength && h(chunk) == p.chunkSha256 && LeafDigest(h, chunk) == p.merkleLeafSha256
    && WalkAccepts(h, LeafDigest(h, chunk), p.chunkIndex, p.totalChunkCount, p.proof, root)
  }

  method VerifyArtifactChunkProof(h: Hash, chunk: Bytes, p: ChunkProof, expectedRoot: Bytes)
    returns (r: Result<bool, ErrorCode>)
    ensures r.Err? <==> !ProofShapeConsistent(p) || !WellFormedDigest(expectedRoot)
    ensures ProofGeometryError(p).Some? ==> r == Err(ProofGeometryError(p).value)
    ensures ProofShapeConsistent(p) && !WellFormedDigest(expectedRoot) ==> r == Err(MalformedDigest)
    ensures r == Ok(true) <==>
      ProofShapeConsistent(p) && WellFormedDigest(expectedRoot) && ProofAccepts(h, chunk, p, expectedRoot)
  {
    var error := AssertProofShapeConsistent(p);
    if error.Some? { return Err(error.value); }
    if !WellFormedDigest(expectedRoot) { return Err(MalformedDigest); }
    if |chunk| != p.byteLength { return Ok(false); }
    if h(chunk) != p.chunkSha256 { return Ok(false); }
    var leaf := LeafDigest(h, chunk);
    if leaf != p.merkleLeafSha256 { return Ok(false); }
    WidthCheckNeverFails(h, leaf, p, expectedRoot);
    var ok := WalkProof(h, leaf, p.chunkIndex, p.totalChunkCount, p.proof, expectedRoot);
    return Ok(ok);
  }

  // ----- theorems about single-chunk proofs -----

  /** The verifier's final width check never fails: a proof of consistent shape has exactly as many
      nodes as it takes to bring the width down to one. */
  lemma WidthCheckNeverFails(h: Hash, leaf: Digest, p: ChunkProof, root: Bytes)
    requires ProofShapeConsistent(p)
    ensures Halved(p.totalChunkCount, |p.proof|) == 1
    ensures WalkAccepts(h, leaf, p.chunkIndex, p.totalChunkCount, p.proof, root)
      <==> WalkDigest(h, leaf, p.chunkIndex, p.totalChunkCount, p.proof) == Some(root)
  {
    WidthReachesOne(p.totalChunkCount);
    WalkSplits(h, leaf, p.chunkIndex, p.totalChunkCount, p.proof, root);
  }

  /** Completeness: for a consistent manifest and bytes that hash to an entry, the built proof
      has a consistent shape and is accepted against the manifest's root. */
  lemma ProofComplete(h: Hash, m: Manifest, i: nat, chunk: Bytes)
    requires Consistent(h, m) && i < m.chunkCount
    requires |chunk| == m.chunks[i].byteLength && h(chunk) == m.chunks[i].chunkSha256
    requires LeafDigest(h, chunk) == m.chunks[i].merkleLeafSha256
    ensures ProofShapeConsistent(ProofOf(h, m, i))
    ensures ProofAccepts(h, chunk, ProofOf(h, m, i), m.merkleRoot)
  {
    BuiltShape(h, m, i);
    WalkComplete(h, Leaves(m), i);
    assert EntryConsistent(m, i) && Leaves(m)[i] == LeafDigest(h, chunk);
  }

  lemma BuiltShape(h: Hash, m: Manifest, i: nat)
    requires GeometryConsistent(m) && i < m.chunkCount
    ensures ProofShapeConsistent(ProofOf(h, m, i))
  {
    assert EntryConsistent(m, i);
    ChunkStartInSource(m.byteLength, m.chunkSize, i);
    ProofNodesWellFormed(h, Leaves(m), i);
  }

  lemma {:induction false} ProofNodesWellFormed(h: Hash, level: seq<Digest>, i: nat)
    requires i < |level|
    ensures forall n | n in ProofFor(h, level, i) :: !n.position.Malformed? && WellFormedDigest(n.sibling)
    decreases |level|
  {
    if |level| > 1 {
      ProofNodesWellFormed(h, NextLevel(h, level), i / 2);
    }
  }

  /** Every chunk of every buildable source is provable. */
  lemma SourceChunkProvable(h: Hash, source: Bytes, c: nat, i: nat)
    requires BuildError(source, c).None? && i < CeilDiv(|source|, c)
    ensures var m := ManifestOf(h, source, c);
            && Consistent(h, m) && ProofShapeConsistent(ProofOf(h, m, i))
            && ProofAccepts(h, Chunk(source, c, i), ProofOf(h, m, i), m.merkleRoot)
  {
    BuiltIsConsistent(h, source, c);
    ProofComplete(h, ManifestOf(h, source, c), i, Chunk(source, c, i));
  }

  /** Soundness, whatever chunk count the proof declares: acceptance against the root of a consistent
      manifest means that the bytes hash to one of its leaves, the one at the proof's index if there is
      one; or a declared leaf is itself a parent digest; or (x, y) collide. With the manifest's own
      count the leaf is the one at the index and the proof is the built one, or (x, y) collide. */
  lemma ProofSound(h: Hash, m: Manifest, chunk: Bytes, p: ChunkProof)
    returns (i: nat, l: Digest, r: Digest, x: Bytes, y: Bytes)
    requires Consistent(h, m) && ProofShapeConsistent(p) && ProofAccepts(h, chunk, p, m.merkleRoot)
    ensures || Collision(h, x, y)
            || (i < m.chunkCount && m.chunks[i].merkleLeafSha256 == ParentDigest(h, l, r))
            || (&& i < m.chunkCount && LeafDigest(h, chunk) == m.chunks[i].merkleLeafSha256
                && (p.chunkIndex < m.chunkCount ==> i == p.chunkIndex) && |p.proof| == Depth(m.chunkCount))
    ensures p.totalChunkCount == m.chunkCount ==>
              || Collision(h, x, y)
              || (&& LeafDigest(h, chunk) == m.chunks[p.chunkIndex].merkleLeafSha256
                  && p.proof == ProofFor(h, Leaves(m), p.chunkIndex))
  {
    var leaves := Leaves(m);
    assert forall k | 0 <= k < |leaves| :: leaves[k] == m.chunks[k].merkleLeafSha256;
    if p.totalChunkCount == m.chunkCount {
      i, l, r := p.chunkIndex, EmptyRoot(h), EmptyRoot(h);
      x, y := WalkSound(h, leaves, LeafDigest(h, chunk), p.chunkIndex, p.proof);
    } else {
      i, l, r, x, y := WalkSoundAnyWidth(h, leaves, chunk, p.chunkIndex, p.totalChunkCount, p.proof);
    }
  }

  /** End to end, and exact: whatever count it declares, a proof that is accepted against the root of a
      source carries one of that source's chunks, and it is the chunk at the proof's index if and only
      if the source has a chunk there; or a collision is in hand. */
  lemma AcceptedChunkIsAuthentic(h: Hash, source: Bytes, c: nat, chunk: Bytes, p: ChunkProof)
    returns (i: nat, x: Bytes, y: Bytes)
    requires BuildError(source, c).None? && ProofShapeConsistent(p)
    requires ProofAccepts(h, chunk, p, ManifestOf(h, source, c).merkleRoot)
    ensures var n := CeilDiv(|source|, c);
      || Collision(h, x, y)
      || (&& i < n && chunk == Chunk(source, c, i) && |p.proof| == Depth(n)
          && (chunk == Chunk(source, c, p.chunkIndex) <==> p.chunkIndex < n))
  {
    hide Root, ProofFor, WalkAccepts, Depth, CeilDiv, Consistent;
    var m, n := ManifestOf(h, source, c), CeilDiv(|source|, c);
    var l, r;
    BuiltIsConsistent(h, source, c);
    i, l, r, x, y := ProofSound(h, m, chunk, p);
    if !Collision(h, x, y) {
      var own := Chunk(source, c, i);
      assert m.chunks[i] == EntryFor(h, source, c, i);
      if LeafDigest(h, own) == ParentDigest(h, l, r) {
        LeafParentCollide(h, own, l, r);
        x, y := LeafMessage(own), ParentMessage(l, r);
      } else {
        x, y := LeafMessage(chunk), LeafMessage(own);
        if x == y {
          LeafMessageInjective(chunk, own);
          PastEndIsEmpty(source, c, p.chunkIndex);
          DeclaresBytes(p);
        }
      }
    }
  }

  lemma DeclaresBytes(p: ChunkProof)
    requires ProofShapeConsistent(p)
    ensures p.byteLength >= 1
  {
    ChunkStartInSource(p.sourceByteLength, p.chunkSize, p.chunkIndex);
  }

  lemma PastEndIsEmpty(source: Bytes, c: nat, i: nat)
    requires AllowedChunkSize(c)
    ensures i >= CeilDiv(|source|, c) ==> Chunk(source, c, i) == []
  {
    var n := CeilDiv(|source|, c);
    CeilDivBounds(|source|, c);
    hide CeilDiv;
    if i >= n {
      assert i * c == n * c + (i - n) * c;
    }
  }

  /** The chunk count that a proof past the end declares. */
  function PhantomWidth(n: nat, i: nat): nat
    requires n > 0
  {
    if Origin(n, i) == n - 1 then i + 1 else Pow2(Depth(n))
  }

  lemma PhantomWidthOk(n: nat, i: nat)
    requires 0 < n <= i < Pow2(Depth(n))
    ensures var width := PhantomWidth(n, i);
      n <= width <= Pow2(Depth(n)) && Origin(n, width - 1) == n - 1 && i < width
    ensures Origin(n, i) < n - 1 ==> i < PhantomWidth(n, i) - 1
  {
    OriginOfLast(n);
  }

  /** Past the end, every index below the next power of two is accepted, with the chunk it stands for. */
  lemma PhantomChunkVerifies(h: Hash, source: Bytes, c: nat, i: nat) returns (p: ChunkProof)
    requires BuildError(source, c).None? && 0 < CeilDiv(|source|, c) <= i < Pow2(Depth(CeilDiv(|source|, c)))
    ensures p.chunkIndex == i && ProofShapeConsistent(p)
    ensures var own := Chunk(source, c, Origin(CeilDiv(|source|, c), i));
      ProofAccepts(h, own, p, ManifestOf(h, source, c).merkleRoot)
  {
    hide Root, ProofFor, WalkAccepts, CeilDiv, Depth, Origin, Pow2, Chunk;
    var n, leaves := CeilDiv(|source|, c), SourceLeaves(h, source, c);
    var width, own := PhantomWidth(n, i), Chunk(source, c, Origin(n, i));
    PhantomWidthOk(n, i);
    var size := PhantomSize(|source|, c, i);
    hide PhantomWidth;
    RootOfPad(h, leaves, width);
    var wide := Pad(leaves, width);
    p := ChunkProof(PROFILE_VERSION, h(source), size, c, width, i, i * c, |own|, h(own), LeafDigest(h, own),
                    ProofFor(h, wide, i));
    ChunkLength(source, c, Origin(n, i));
    assert wide[i] == LeafDigest(h, own);
    ProofNodesWellFormed(h, wide, i);
    WalkComplete(h, wide, i);
  }

  lemma ChunkLength(source: Bytes, c: nat, i: nat)
    requires AllowedChunkSize(c) && i < CeilDiv(|source|, c)
    ensures |Chunk(source, c, i)| == Min(c, |source| - i * c)
  {
    ChunkStartInSource(|source|, c, i);
  }

  /** The source length that goes with it: the chunk at the index is as long as the one it stands for. */
  lemma PhantomSize(length: nat, c: nat, i: nat) returns (size: nat)
    requires AllowedChunkSize(c) && length <= MAX_SOURCE_BYTES
    requires 0 < CeilDiv(length, c) <= i < Pow2(Depth(CeilDiv(length, c)))
    ensures var n := CeilDiv(length, c);
      var o := Origin(n, i);
      && 0 < size <= MAX_SOURCE_BYTES && CeilDiv(size, c) == PhantomWidth(n, i)
      && 0 <= o * c < length && 0 <= i * c < size && Min(c, size - i * c) == Min(c, length - o * c)
  {
    var n := CeilDiv(length, c);
    var o, width := Origin(n, i), PhantomWidth(n, i);
    PhantomWidthOk(n, i);
    PowerFits(length, c);
    ChunkStartInSource(length, c, o);
    CeilDivBounds(length, c);
    hide Origin, PhantomWidth, Depth, Pow2, CeilDiv;
    var last := if o == n - 1 then length - o * c else c;
    assert 1 <= last <= c && (o < n - 1 ==> (o + 1) * c <= (n - 1) * c);
    size := (width - 1) * c + last;
    assert (width - 1) * c + c == width * c <= MAX_SOURCE_BYTES;
    CeilDivOf(width - 1, last, c);
    if o < n - 1 {
      assert (i + 1) * c <= (width - 1) * c;
    } else {
      assert width == i + 1;
    }
  }

  lemma {:induction false} CeilDivOf(q: nat, r: nat, c: nat)
    requires 1 <= r <= c
    ensures CeilDiv(q * c + r, c) == q + 1
    decreases q
  {
    if q > 0 {
      CeilDivOf(q - 1, r, c);
      assert q * c + r == (q - 1) * c + r + c;
    }
  }

  /** Sources are at most a power of two of chunks long. */
  lemma PowerFits(length: nat, c: nat)
    requires AllowedChunkSize(c) && length <= MAX_SOURCE_BYTES
    ensures Pow2(Depth(CeilDiv(length, c))) * c <= MAX_SOURCE_BYTES
  {
    CeilDivBounds(length, c);
    var n, d := CeilDiv(length, c), if c == 1_024 then 10 else if c == 4_096 then 8 else 7;
    assert Pow2(10) == 1_024 && Pow2(8) == 256 && Pow2(7) == 128;
    DepthBound(n, d);
    PowerGrows(Depth(n), d);
  }

  /** Some well-formed proof for this index is accepted against the root. */
  ghost predicate AcceptedIndex(h: Hash, root: Bytes, i: nat) {
    exists chunk, p :: ProofShapeConsistent(p) && ProofAccepts(h, chunk, p, root) && p.chunkIndex == i
  }

  /** The accepted indexes are exactly those below the next power of two, or a collision is in hand. */
  lemma AcceptedIndexesExactly(h: Hash, source: Bytes, c: nat, i: nat) returns (x: Bytes, y: Bytes)
    requires BuildError(source, c).None? && source != []
    ensures Collision(h, x, y) ||
      (AcceptedIndex(h, ManifestOf(h, source, c).merkleRoot, i) <==> i < Pow2(Depth(CeilDiv(|source|, c))))
  {
    hide ProofShapeConsistent, ProofAccepts, Root, Chunk, CeilDiv, Leaves, ProofFor, Consistent;
    var n, root := CeilDiv(|source|, c), ManifestOf(h, source, c).merkleRoot;
    x, y := [], [];
    CeilDivBounds(|source|, c);
    if i < n {
      SourceChunkProvable(h, source, c, i);
      assert ProofAccepts(h, Chunk(source, c, i), ProofOf(h, ManifestOf(h, source, c), i), root);
      WidthBelowPower(n);
    } else if i < Pow2(Depth(n)) {
      var p := PhantomChunkVerifies(h, source, c, i);
    } else if AcceptedIndex(h, root, i) {
      var chunk, p :| ProofShapeConsistent(p) && ProofAccepts(h, chunk, p, root) && p.chunkIndex == i;
      x, y := PastPowerCollides(h, source, c, chunk, p);
    }
  }

  lemma PastPowerCollides(h: Hash, source: Bytes, c: nat, chunk: Bytes, p: ChunkProof) returns (x: Bytes, y: Bytes)
    requires BuildError(source, c).None? && ProofShapeConsistent(p)
    requires ProofAccepts(h, chunk, p, ManifestOf(h, source, c).merkleRoot)
    ensures Collision(h, x, y) || p.chunkIndex < Pow2(Depth(CeilDiv(|source|, c)))
  {
    hide Root, Depth, CeilDiv, Pow2, ManifestOf, WalkAccepts;
    var i;
    i, x, y := AcceptedChunkIsAuthentic(h, source, c, chunk, p);
    WidthBelowPower(p.totalChunkCount);
  }

  /** When the number of chunks is a power of two, no index past the end is accepted. */
  lemma PowerOfTwoPinsIndex(h: Hash, source: Bytes, c: nat, chunk: Bytes, p: ChunkProof, d: nat)
      returns (x: Bytes, y: Bytes)
    requires BuildError(source, c).None? && ProofShapeConsistent(p) && CeilDiv(|source|, c) == Pow2(d)
    requires ProofAccepts(h, chunk, p, ManifestOf(h, source, c).merkleRoot)
    ensures Collision(h, x, y) || p.chunkIndex < CeilDiv(|source|, c)
  {
    x, y := PastPowerCollides(h, source, c, chunk, p);
    DepthOfPower(d);
  }

  // ----- whole-source verification -----

  /** Exact, with no assumption on the hash: true if and only if the manifest is the one the
      builder computes from these bytes at the manifest's chunk size. */
  method VerifyArtifactSourceManifest(h: Hash, source: Bytes, m: Manifest) returns (r: Result<bool, ErrorCode>)
    ensures r.Err? <==> !Consistent(h, m)
    ensures r == Ok(true) <==> BuildError(source, m.chunkSize).None? && m == ManifestOf(h, source, m.chunkSize)
  {
    if BuildError(source, m.chunkSize).None? && m == ManifestOf(h, source, m.chunkSize) {
      BuiltIsConsistent(h, source, m.chunkSize);
    }
    var error := AssertManifestConsistent(h, m);
    if error.Some? { return Err(error.value); }
    if |source| != m.byteLength { return Ok(false); }
    if h(source) != m.sourceSha256 { return Ok(false); }
    var leaves := RecomputeLeaves(h, source, m);
    if leaves.None? { return Ok(false); }
    var root := MerkleRoot(h, leaves.value);
    return Ok(root == m.merkleRoot);
  }

  /** Rehashes every declared chunk range; None as soon as one declared hash differs. */
  method RecomputeLeaves(h: Hash, source: Bytes, m: Manifest) returns (r: Option<seq<Digest>>)
    requires GeometryConsistent(m) && |source| == m.byteLength
    ensures r.Some? <==> m.chunks == ManifestOf(h, source, m.chunkSize).chunks
    ensures r.Some? ==> r.value == SourceLeaves(h, source, m.chunkSize)
  {
    hide LeafDigest, CeilDiv, Root;
    ghost var c := m.chunkSize;
    ghost var built := ManifestOf(h, source, c).chunks;
    var leaves: seq<Digest> := [];
    for i := 0 to |m.chunks|
      invariant |leaves| == i && forall k | 0 <= k < i :: leaves[k] == LeafDigest(h, Chunk(source, c, k))
      invariant forall k | 0 <= k < i :: m.chunks[k] == EntryFor(h, source, c, k)
    {
      var e := m.chunks[i];
      assert EntryConsistent(m, i);
      ChunkStartInSource(|source|, c, i);
      var chunk := source[e.byteStart..e.byteStart + e.byteLength];
      assert chunk == Chunk(source, c, i);
      assert built[i] == EntryFor(h, source, c, i);
      if h(chunk) != e.chunkSha256 { return None; }
      var leaf := LeafDigest(h, chunk);
      if leaf != e.merkleLeafSha256 { return None; }
      leaves := leaves + [leaf];
    }
    assert m.chunks == built;
    assert leaves == SourceLeaves(h, source, c);
    return Some(leaves);
  }
}
