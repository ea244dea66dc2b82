/** Bytes, digests and the three domain-separated hashes of the profile
    `artifact-chunk-merkle/0.1`. SHA-256 is a parameter `h`: nothing is assumed
    of it except that its output is 32 bytes long. */
module Hashing {
  type Byte = n: int | 0 <= n < 256
  type Bytes = seq<Byte>
  type Digest = d: Bytes | |d| == 32 witness seq(32, _ => 0)
  type Hash = Bytes -> Digest

  datatype Option<+T> = None | Some(value: T)
  datatype Result<+T, +E> = Ok(value: T) | Err(error: E)

  /** Two different messages with one digest. */
  ghost predicate Collision(h: Hash, x: Bytes, y: Bytes) {
    x != y && h(x) == h(y)
  }

  /** The 64-lowercase-hex pattern, on the decoded bytes of a digest field. */
  predicate WellFormedDigest(d: Bytes) {
    |d| == 32
  }

  function LeafMessage(chunk: Bytes): Bytes { [0] + chunk }

  function ParentMessage(left: Digest, right: Digest): Bytes { [1] + left + right }

  function LeafDigest(h: Hash, chunk: Bytes): Digest { h(LeafMessage(chunk)) }

  function ParentDigest(h: Hash, left: Digest, right: Digest): Digest { h(ParentMessage(left, right)) }

  function EmptyRoot(h: Hash): Digest { h([2]) }

  /** Fixed digest length makes the parent message decodable into its two children. */
  lemma ParentMessageInjective(l: Digest, r: Digest, l': Digest, r': Digest)
    requires ParentMessage(l, r) == ParentMessage(l', r')
    ensures l == l' && r == r'
  {
    var m, m' := ParentMessage(l, r), ParentMessage(l', r');
    assert m[1..33] == l && m[33..65] == r;
    assert m'[1..33] == l' && m'[33..65] == r';
  }

  lemma LeafMessageInjective(c: Bytes, c': Bytes)
    requires LeafMessage(c) == LeafMessage(c')
    ensures c == c'
  {
    assert LeafMessage(c)[1..] == c && LeafMessage(c')[1..] == c';
  }
}
