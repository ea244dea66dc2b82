/** Strict inline base64 of storage-bounds.ts against the encoding of section 4 of RFC 4648. */
module Base64 {
  import opened Hashing

  const STORAGE_MAX_INLINE_BYTES := 32_768
  const STORAGE_MAX_OBJECT_BYTES := 5_242_880
  const MAX_SAFE_INTEGER := 9_007_199_254_740_991

  datatype Rejection = InvalidSize | SizeExceeded | InvalidBase64
  datatype SizeMode = Inline | Signed

  // ----- alphabet -----

  type Sextet = n: int | 0 <= n < 64

  function Symbol(v: Sextet): char {
    if v < 26 then 'A' + v as char
    else if v < 52 then 'a' + (v - 26) as char
    else if v < 62 then '0' + (v - 52) as char
    else if v == 62 then '+' else '/'
  }

  predicate InAlphabet(c: char) {
    'A' <= c <= 'Z' || 'a' <= c <= 'z' || '0' <= c <= '9' || c == '+' || c == '/'
  }

  function SextetOf(c: char): Sextet
    requires InAlphabet(c)
  {
    if 'A' <= c <= 'Z' then (c - 'A') as int
    else if 'a' <= c <= 'z' then (c - 'a') as int + 26
    else if '0' <= c <= '9' then (c - '0') as int + 52
    else if c == '+' then 62 else 63
  }

  lemma SymbolOfSextet(v: Sextet)
    ensures InAlphabet(Symbol(v)) && SextetOf(Symbol(v)) == v
  {
  }

  lemma SextetOfSymbol(c: char)
    requires InAlphabet(c)
    ensures Symbol(SextetOf(c)) == c
  {
  }

  // ----- encoding and decoding -----

  function Quad3(a: Byte, b: Byte, c: Byte): string {
    [Symbol(a / 4), Symbol(a % 4 * 16 + b / 16), Symbol(b % 16 * 4 + c / 64), Symbol(c % 64)]
  }

  function Quad2(a: Byte, b: Byte): string {
    [Symbol(a / 4), Symbol(a % 4 * 16 + b / 16), Symbol(b % 16 * 4), '=']
  }

  function Quad1(a: Byte): string { [Symbol(a / 4), Symbol(a % 4 * 16), '=', '='] }

  /** Buffer.toString('base64'). */
  function Encode(b: Bytes): (s: string)
    ensures |s| == (|b| + 2) / 3 * 4
  {
    if b == [] then ""
    else if |b| == 1 then Quad1(b[0])
    else if |b| == 2 then Quad2(b[0], b[1])
    else Quad3(b[0], b[1], b[2]) + Encode(b[3..])
  }

  predicate FullQuad(q: string) {
    |q| == 4 && InAlphabet(q[0]) && InAlphabet(q[1]) && InAlphabet(q[2]) && InAlphabet(q[3])
  }

  predicate OnePad(q: string) { |q| == 4 && InAlphabet(q[0]) && InAlphabet(q[1]) && InAlphabet(q[2]) && q[3] == '=' }

  predicate TwoPads(q: string) { |q| == 4 && InAlphabet(q[0]) && InAlphabet(q[1]) && q[2] == '=' && q[3] == '=' }

  /** The strict pattern: full quads, the last one possibly padded. */
  predicate StrictBase64(s: string)
    decreases |s|
  {
    || s == "" || OnePad(s) || TwoPads(s)
    || (|s| >= 4 && FullQuad(s[..4]) && StrictBase64(s[4..]))
  }

  function First(q: string): Byte
    requires |q| >= 2 && InAlphabet(q[0]) && InAlphabet(q[1])
  {
    SextetOf(q[0]) * 4 + SextetOf(q[1]) / 16
  }

  function Second(q: string): Byte
    requires |q| >= 3 && InAlphabet(q[1]) && InAlphabet(q[2])
  {
    SextetOf(q[1]) % 16 * 16 + SextetOf(q[2]) / 4
  }

  function Third(q: string): Byte
    requires |q| >= 4 && InAlphabet(q[2]) && InAlphabet(q[3])
  {
    SextetOf(q[2]) % 4 * 64 + SextetOf(q[3])
  }

  /** Buffer.from(s, 'base64') on strict input; unused low bits are dropped. */
  function Decode(s: string): (b: Bytes)
    requires StrictBase64(s)
    ensures |s| % 4 == 0 && |b| == |s| / 4 * 3 - Padding(s)
    decreases |s|
  {
    if s == "" then []
    else if TwoPads(s) then [First(s)]
    else if OnePad(s) then [First(s), Second(s)]
    else
      PaddingOfTail(s);
      [First(s), Second(s), Third(s)] + Decode(s[4..])
  }

  /** "==" counts two, a single "=" one. */
  function Padding(s: string): nat {
    if |s| >= 2 && s[|s| - 1] == '=' && s[|s| - 2] == '=' then 2
    else if |s| >= 1 && s[|s| - 1] == '=' then 1
    else 0
  }

  lemma PaddingOfTail(s: string)
    requires |s| >= 4 && FullQuad(s[..4])
    ensures Padding(s[4..]) == Padding(s)
  {
    assert s[..4][3] == s[3] && s[..4][2] == s[2];
    if |s| > 4 { assert s[4..][|s| - 5] == s[|s| - 1]; }
    if |s| > 5 { assert s[4..][|s| - 6] == s[|s| - 2]; }
  }

  // ----- round trips -----

  lemma Quad3RoundTrip(a: Byte, b: Byte, c: Byte)
    ensures var q := Quad3(a, b, c); FullQuad(q) && First(q) == a && Second(q) == b && Third(q) == c
  {
    hide Symbol, SextetOf;
    var w, x, y, z := a / 4, a % 4 * 16 + b / 16, b % 16 * 4 + c / 64, c % 64;
    SymbolOfSextet(w);
    SymbolOfSextet(x);
    SymbolOfSextet(y);
    SymbolOfSextet(z);
    assert x / 16 == a % 4 && x % 16 == b / 16 && y / 4 == b % 16 && y % 4 == c / 64;
  }

  lemma PaddedRoundTrip(a: Byte, b: Byte)
    ensures var q := Quad2(a, b); OnePad(q) && First(q) == a && Second(q) == b
    ensures var q := Quad1(a); TwoPads(q) && First(q) == a
  {
    SymbolOfSextet(a / 4);
    SymbolOfSextet(a % 4 * 16 + b / 16);
    SymbolOfSextet(b % 16 * 4);
    SymbolOfSextet(a % 4 * 16);
  }

  lemma DecodeCons(q: string, rest: string)
    requires FullQuad(q) && StrictBase64(rest)
    ensures StrictBase64(q + rest) && Decode(q + rest) == [First(q), Second(q), Third(q)] + Decode(rest)
  {
    var s := q + rest;
    assert s[..4] == q && s[4..] == rest;
    assert s[0] == q[0] && s[1] == q[1] && s[2] == q[2] && s[3] == q[3];
    assert InAlphabet(s[3]) && !InAlphabet('=');
    assert First(s) == First(q) && Second(s) == Second(q) && Third(s) == Third(q);
  }

  lemma EncodeCons(a: Byte, b: Byte, c: Byte, rest: Bytes)
    ensures Encode([a, b, c] + rest) == Quad3(a, b, c) + Encode(rest)
  {
    assert ([a, b, c] + rest)[3..] == rest;
  }

  lemma {:induction false} DecodeOfEncode(b: Bytes)
    ensures StrictBase64(Encode(b)) && Decode(Encode(b)) == b
    decreases |b|
  {
    if 1 <= |b| <= 2 {
      PaddedRoundTrip(b[0], if |b| == 2 then b[1] else 0);
    } else if |b| >= 3 {
      var x, y, z, rest: Bytes := b[0], b[1], b[2], b[3..];
      assert b == [x, y, z] + rest;
      EncodeCons(x, y, z, rest);
      Quad3RoundTrip(x, y, z);
      DecodeOfEncode(rest);
      DecodeCons(Quad3(x, y, z), Encode(rest));
    }
  }

  lemma FullQuadRoundTrip(q: string)
    requires FullQuad(q)
    ensures Quad3(First(q), Second(q), Third(q)) == q
  {
    SextetOfSymbol(q[0]);
    SextetOfSymbol(q[1]);
    SextetOfSymbol(q[2]);
    SextetOfSymbol(q[3]);
    var x, y, z, w := SextetOf(q[0]), SextetOf(q[1]), SextetOf(q[2]), SextetOf(q[3]);
    assert First(q) / 4 == x && First(q) % 4 == y / 16;
    assert Second(q) / 16 == y % 16 && Second(q) % 16 == z / 4;
    assert Third(q) / 64 == z % 4 && Third(q) % 64 == w;
  }

  /** Without padding nothing is dropped, so re-encoding is the identity. */
  lemma {:induction false} EncodeOfDecodeUnpadded(s: string)
    requires StrictBase64(s) && Padding(s) == 0
    ensures Encode(Decode(s)) == s
    decreases |s|
  {
    if s != "" {
      var q, rest := s[..4], s[4..];
      PaddingOfTail(s);
      EncodeOfDecodeUnpadded(rest);
      FullQuadRoundTrip(q);
      assert s == q + rest;
      DecodeCons(q, rest);
      EncodeCons(First(q), Second(q), Third(q), Decode(rest));
    }
  }

  // ----- the checks -----

  function CheckStorageSize(size: int, mode: SizeMode): Result<int, Rejection> {
    if size < 0 || size > MAX_SAFE_INTEGER then Err(InvalidSize)
    else if size > (if mode.Inline? then STORAGE_MAX_INLINE_BYTES else STORAGE_MAX_OBJECT_BYTES) then Err(SizeExceeded)
    else Ok(size)
  }

  function CheckStorageInlineBase64(content: string): Result<int, Rejection> {
    var maxEncoded := (STORAGE_MAX_INLINE_BYTES + 2) / 3 * 4;
    if |content| > maxEncoded then Err(SizeExceeded)
    else if |content| % 4 != 0 || !StrictBase64(content) then Err(InvalidBase64)
    else
      var padding := Padding(content);
      if padding > 0 && Encode(Decode(content)) != content then Err(InvalidBase64)
      else CheckStorageSize(|content| / 4 * 3 - padding, Inline)
  }

  lemma AcceptedIsCanonical(content: string)
    requires CheckStorageInlineBase64(content).Ok?
    ensures StrictBase64(content) && |Decode(content)| <= STORAGE_MAX_INLINE_BYTES && Encode(Decode(content)) == content
  {
    if Padding(content) == 0 {
      EncodeOfDecodeUnpadded(content);
    }
  }

  lemma EncodedLengthBound(n: nat)
    requires n <= STORAGE_MAX_INLINE_BYTES
    ensures (n + 2) / 3 * 4 <= (STORAGE_MAX_INLINE_BYTES + 2) / 3 * 4
  {
  }

  lemma RoundTripAccepted(s: string)
    requires |s| <= (STORAGE_MAX_INLINE_BYTES + 2) / 3 * 4 && StrictBase64(s)
    requires Encode(Decode(s)) == s && |Decode(s)| <= STORAGE_MAX_INLINE_BYTES
    ensures CheckStorageInlineBase64(s) == Ok(|Decode(s)|)
  {
  }

  lemma CanonicalIsAccepted(b: Bytes)
    requires |b| <= STORAGE_MAX_INLINE_BYTES
    ensures CheckStorageInlineBase64(Encode(b)) == Ok(|b|)
  {
    EncodedLengthBound(|b|);
    DecodeOfEncode(b);
    RoundTripAccepted(Encode(b));
  }

  /** Accepted exactly for the canonical padded encodings of at most 32,768 bytes, and the
      reported size is the length of the encoded bytes. */
  lemma InlineBase64Exact(content: string)
    ensures CheckStorageInlineBase64(content).Ok? <==>
      exists b: Bytes :: |b| <= STORAGE_MAX_INLINE_BYTES && Encode(b) == content
    ensures forall b: Bytes | |b| <= STORAGE_MAX_INLINE_BYTES && Encode(b) == content ::
      CheckStorageInlineBase64(content) == Ok(|b|)
  {
    if CheckStorageInlineBase64(content).Ok? {
      AcceptedIsCanonical(content);
    }
    forall b: Bytes | |b| <= STORAGE_MAX_INLINE_BYTES && Encode(b) == content
      ensures CheckStorageInlineBase64(content) == Ok(|b|)
    {
      CanonicalIsAccepted(b);
    }
  }

  /** An oversized but well-formed encoding is refused for its size, not its form. */
  lemma OversizedIsSizeExceeded(b: Bytes)
    requires |b| > STORAGE_MAX_INLINE_BYTES
    ensures CheckStorageInlineBase64(Encode(b)) == Err(SizeExceeded)
  {
    DecodeOfEncode(b);
  }
}
