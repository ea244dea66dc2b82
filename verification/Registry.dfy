/** Registry records, their manifests, and the two injected dependencies of artifact-inspector.ts. */
module Registry {
  import opened Hashing
  import opened ChunkManifest
  import opened HeadingIds

  datatype Media = PlainText | MarkdownText | OtherMedia(name: string)

  datatype Record = Record(
    artifactId: string, objectVersionRef: string, sourceSha256: Bytes, byteLength: int, chunkSize: int, chunkCount: int,
    chunkSha256s: seq<Bytes>, merkleLeafSha256s: seq<Bytes>, merkleRoot: Bytes,
    media: Media, expiresAt: Option<int>, chunkHashesRef: Option<string>)

  /** A prefix, then letters, digits, '_' and '-', 20 to `max` characters in all. */
  predicate OpaqueRef(s: string, prefix: string, max: int) {
    && 20 <= |s| <= max && prefix <= s
    && forall k :: |prefix| <= k < |s| ==> IdChar(s[k])
  }

  predicate ArtifactIdOk(s: string) { OpaqueRef(s, "art_", 128) }

  predicate VersionRefOk(s: string) { OpaqueRef(s, "ov_", 256) }

  predicate AllDigests(s: seq<Bytes>) { forall k :: 0 <= k < |s| ==> WellFormedDigest(s[k]) }

  predicate MediaOk(m: Media) { m.OtherMedia? ==> 1 <= |m.name| <= 255 }

  /** AuthorizedArtifactMetadataSchema with its cross-field refinement. */
  predicate RecordOk(r: Record) {
    && ArtifactIdOk(r.artifactId) && VersionRefOk(r.objectVersionRef)
    && WellFormedDigest(r.sourceSha256) && WellFormedDigest(r.merkleRoot)
    && 0 <= r.byteLength <= MAX_SOURCE_BYTES && AllowedChunkSize(r.chunkSize)
    && 0 <= r.chunkCount <= MAX_CHUNK_COUNT
    && |r.chunkSha256s| <= MAX_CHUNK_COUNT && AllDigests(r.chunkSha256s)
    && |r.merkleLeafSha256s| <= MAX_CHUNK_COUNT && AllDigests(r.merkleLeafSha256s)
    && MediaOk(r.media)
    && (r.chunkHashesRef.Some? ==> OpaqueRef(r.chunkHashesRef.value, "chr_", 256))
    && r.chunkCount == (if r.byteLength == 0 then 0 else CeilDiv(r.byteLength, r.chunkSize))
    && |r.chunkSha256s| == r.chunkCount && |r.merkleLeafSha256s| == r.chunkCount
  }

  // ----- the manifest of a record -----

  function EntryOf(r: Record, i: nat): ChunkEntry
    requires i < |r.chunkSha256s| && i < |r.merkleLeafSha256s|
  {
    var byteStart := i * r.chunkSize;
    ChunkEntry(i, byteStart, if i == r.chunkCount - 1 then r.byteLength - byteStart else r.chunkSize,
               r.chunkSha256s[i], r.merkleLeafSha256s[i])
  }

  function ManifestOfRecord(r: Record): Manifest
    requires |r.chunkSha256s| == |r.merkleLeafSha256s| == r.chunkCount
  {
    Manifest(PROFILE_VERSION, r.sourceSha256, r.byteLength, r.chunkSize, r.chunkCount,
             seq(r.chunkCount, i requires 0 <= i < r.chunkCount => EntryOf(r, i)), r.merkleRoot)
  }

  method BuildManifestFromRecord(r: Record) returns (m: Result<Manifest, ErrorCode>)
    ensures m.Ok? <==> |r.chunkSha256s| == r.chunkCount && |r.merkleLeafSha256s| == r.chunkCount
    ensures m.Ok? ==> m.value == ManifestOfRecord(r)
  {
    if |r.chunkSha256s| != r.chunkCount || |r.merkleLeafSha256s| != r.chunkCount {
      return Err(InconsistentManifest);
    }
    var chunks: seq<ChunkEntry> := [];
    for i := 0 to r.chunkCount
      invariant |chunks| == i && forall k :: 0 <= k < i ==> chunks[k] == EntryOf(r, k)
    {
      var byteStart := i * r.chunkSize;
      var byteLength := if i == r.chunkCount - 1 then r.byteLength - byteStart else r.chunkSize;
      chunks := chunks + [ChunkEntry(i, byteStart, byteLength, r.chunkSha256s[i], r.merkleLeafSha256s[i])];
    }
    assert chunks == ManifestOfRecord(r).chunks;
    return Ok(Manifest(PROFILE_VERSION, r.sourceSha256, r.byteLength, r.chunkSize, r.chunkCount, chunks, r.merkleRoot));
  }

  /** A valid record always rebuilds a manifest of consistent geometry. */
  lemma RecordGeometry(r: Record)
    requires RecordOk(r)
    ensures GeometryConsistent(ManifestOfRecord(r))
  {
    var m := ManifestOfRecord(r);
    CeilDivBounds(r.byteLength, r.chunkSize);
    forall i | 0 <= i < |m.chunks|
      ensures EntryConsistent(m, i)
    {
      ChunkStartInSource(r.byteLength, r.chunkSize, i);
      assert (i + 1) * r.chunkSize == i * r.chunkSize + r.chunkSize;
    }
  }

  /** The delegated validation accepts exactly the manifests whose leaves close to the root. */
  method ValidateManifestConsistency(h: Hash, m: Manifest) returns (ok: bool)
    requires GeometryConsistent(m)
    ensures ok <==> Consistent(h, m)
  {
    if m.chunkCount > 0 {
      var proof := BuildArtifactChunkProof(h, m, 0);
      return proof.Ok?;
    }
    if m.byteLength != 0 || |m.chunks| != 0 {
      return false;
    }
    assert Leaves(m) == [];
    if m.merkleRoot != EmptyRoot(h) { return false; }
    return WellFormedDigest(m.sourceSha256);
  }

  // ----- the dependencies -----

  datatype ResolveReply = ResolveThrows | NoRecord | MalformedRecord | Found(record: Record)

  datatype Resolved = Unavailable | Broken(inconsistent: Option<Record>) | Ready(record: Record, manifest: Manifest)

  predicate Expired(expiresAt: Option<int>, now: int) { expiresAt.Some? && expiresAt.value <= now }

  /** What resolving one artifact amounts to. */
  function Resolution(h: Hash, reply: ResolveReply, artifactId: string, now: int): Resolved {
    match reply
    case ResolveThrows => Broken(None)
    case NoRecord => Unavailable
    case MalformedRecord => Broken(None)
    case Found(r) =>
      if !RecordOk(r) || r.artifactId != artifactId then Broken(None)
      else if Expired(r.expiresAt, now) then Unavailable
      else if Consistent(h, ManifestOfRecord(r)) then Ready(r, ManifestOfRecord(r))
      else Broken(Some(r))
  }

  method ResolveArtifact(h: Hash, reply: ResolveReply, artifactId: string, now: int) returns (resolved: Resolved)
    ensures resolved == Resolution(h, reply, artifactId, now)
    ensures resolved.Ready? ==> RecordOk(resolved.record) && Consistent(h, resolved.manifest)
  {
    match reply
    case ResolveThrows => return Broken(None);
    case NoRecord => return Unavailable;
    case MalformedRecord => return Broken(None);
    case Found(r) =>
      if !RecordOk(r) || r.artifactId != artifactId { return Broken(None); }
      if Expired(r.expiresAt, now) { return Unavailable; }
      var built := BuildManifestFromRecord(r);
      if built.Err? { return Broken(Some(r)); }
      RecordGeometry(r);
      var consistent := ValidateManifestConsistency(h, built.value);
      if !consistent { return Broken(Some(r)); }
      return Ready(r, built.value);
  }

  datatype ReadCall = ReadCall(objectVersionRef: string, offset: int, length: int)

  datatype ReadReply = ReadThrows | VersionGone | MalformedRead | Read(bytes: Bytes, objectVersionRef: string)

  datatype ReadFailure = ReadBroken | ReadMismatch

  datatype Fetched = Failed(failure: ReadFailure) | Gone | Got(bytes: Bytes)

  /** The checks every operation applies to the reply of its one byte read. */
  function Fetch(call: ReadCall, reply: ReadReply): (f: Fetched)
    ensures f.Got? ==> |f.bytes| == call.length
  {
    match reply
    case ReadThrows => Failed(ReadBroken)
    case VersionGone => Gone
    case MalformedRead => Failed(ReadBroken)
    case Read(bytes, ref) =>
      if !VersionRefOk(ref) then Failed(ReadBroken)
      else if ref != call.objectVersionRef || |bytes| != call.length then Failed(ReadMismatch)
      else Got(bytes)
  }
}
