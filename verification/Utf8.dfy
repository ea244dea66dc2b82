/** The fatal UTF-8 decoder and its encoder, as far as the text index and the inspector use
    them: decoding is exact, and splits cleanly at every non-continuation byte. */
module Utf8 {
  import opened Hashing

  type CodePoint = n: int | 0 <= n < 0x11_0000
  type Text = seq<CodePoint>

  /** ECMAScript white space and line terminators. */
  predicate WhiteSpace(c: CodePoint) {
    || 0x09 <= c <= 0x0D || c == 0x20 || c == 0xA0 || c == 0x1680 || 0x2000 <= c <= 0x200A
    || c == 0x2028 || c == 0x2029 || c == 0x202F || c == 0x205F || c == 0x3000 || c == 0xFEFF
  }

  function TrimEnd(t: Text): (r: Text)
    ensures |r| <= |t|
  {
    if t != [] && WhiteSpace(t[|t| - 1]) then TrimEnd(t[..|t| - 1]) else t
  }

  predicate Continuation(b: Byte) { 0x80 <= b < 0xC0 }

  /** Appends the six payload bits of a continuation byte. */
  function Shift(high: nat, b: Byte): nat
    requires Continuation(b)
  {
    high * 64 + (b - 0x80)
  }

  lemma ShiftParts(high: nat, b: Byte)
    requires Continuation(b)
    ensures Shift(high, b) / 64 == high && 0x80 + Shift(high, b) % 64 == b
  {
  }

  /** The first scalar value of a non-empty byte string and its encoded length. */
  function DecodeHead(s: Bytes): (r: Option<(CodePoint, nat)>)
    requires s != []
    ensures r.Some? ==> 1 <= r.value.1 <= |s|
  {
    var b: int := s[0];
    if b < 0x80 then Some((b, 1))
    else if 0xC2 <= b < 0xE0 then
      if |s| >= 2 && Continuation(s[1]) then Some((Shift(b - 0xC0, s[1]), 2)) else None
    else if 0xE0 <= b < 0xF0 then
      if |s| >= 3 && Continuation(s[1]) && Continuation(s[2])
         && (b == 0xE0 ==> s[1] >= 0xA0) && (b == 0xED ==> s[1] < 0xA0)
      then Some((Shift(Shift(b - 0xE0, s[1]), s[2]), 3)) else None
    else if 0xF0 <= b < 0xF5 then
      if |s| >= 4 && Continuation(s[1]) && Continuation(s[2]) && Continuation(s[3])
         && (b == 0xF0 ==> s[1] >= 0x90) && (b == 0xF4 ==> s[1] < 0x90)
      then Some((Shift(Shift(Shift(b - 0xF0, s[1]), s[2]), s[3]), 4)) else None
    else None
  }

  /** A head starts with a non-continuation byte and goes on with continuation bytes. */
  lemma HeadShape(s: Bytes)
    requires s != [] && DecodeHead(s).Some?
    ensures var (c, n) := DecodeHead(s).value;
            !Continuation(s[0]) && (forall i | 1 <= i < n :: Continuation(s[i])) && (c < 0x80 ==> c == s[0] && n == 1)
  {
  }

  function Decode(s: Bytes): Option<Text> {
    if s == [] then Some([])
    else match DecodeHead(s)
      case None => None
      case Some((c, n)) =>
        match Decode(s[n..])
        case None => None
        case Some(rest) => Some([c] + rest)
  }

  function EncodeOne(c: CodePoint): Bytes {
    if c < 0x80 then [c]
    else if c < 0x800 then [0xC0 + c / 64, 0x80 + c % 64]
    else if c < 0x1_0000 then [0xE0 + c / 64 / 64, 0x80 + c / 64 % 64, 0x80 + c % 64]
    else [0xF0 + c / 64 / 64 / 64, 0x80 + c / 64 / 64 % 64, 0x80 + c / 64 % 64, 0x80 + c % 64]
  }

  function Encode(t: Text): Bytes {
    if t == [] then [] else EncodeOne(t[0]) + Encode(t[1..])
  }

  lemma HeadReencodes(s: Bytes)
    requires s != [] && DecodeHead(s).Some?
    ensures EncodeOne(DecodeHead(s).value.0) == s[..DecodeHead(s).value.1]
  {
    var (c, n) := DecodeHead(s).value;
    var b: int := s[0];
    if n == 2 {
      ShiftParts(b - 0xC0, s[1]);
    } else if n == 3 {
      ShiftParts(b - 0xE0, s[1]);
      ShiftParts(Shift(b - 0xE0, s[1]), s[2]);
    } else if n == 4 {
      ShiftParts(b - 0xF0, s[1]);
      ShiftParts(Shift(b - 0xF0, s[1]), s[2]);
      ShiftParts(Shift(Shift(b - 0xF0, s[1]), s[2]), s[3]);
    }
  }

  /** Re-encoding decoded text gives back the very bytes. */
  lemma {:induction false} EncodeDecode(s: Bytes)
    requires Decode(s).Some?
    ensures Encode(Decode(s).value) == s
    decreases |s|
  {
    hide DecodeHead, EncodeOne;
    if s != [] {
      var (c, n) := DecodeHead(s).value;
      HeadReencodes(s);
      EncodeDecode(s[n..]);
      EncodeCons(c, Decode(s[n..]).value);
      assert s == s[..n] + s[n..];
    }
  }

  lemma EncodeCons(c: CodePoint, rest: Text)
    ensures Encode([c] + rest) == EncodeOne(c) + Encode(rest)
  {
    assert ([c] + rest)[1..] == rest;
  }

  lemma HeadOfPrefix(s: Bytes, i: nat)
    requires s != [] && DecodeHead(s).Some? && DecodeHead(s).value.1 <= i <= |s|
    ensures DecodeHead(s[..i]) == DecodeHead(s)
  {
  }

  lemma DecodeStep(s: Bytes)
    requires s != [] && DecodeHead(s).Some? && Decode(s[DecodeHead(s).value.1..]).Some?
    ensures var (c, n) := DecodeHead(s).value; Decode(s) == Some([c] + Decode(s[n..]).value)
  {
  }

  /** If the tail splits, so does the whole. */
  lemma SplitCons(s: Bytes, i: nat)
    requires s != [] && DecodeHead(s).Some? && DecodeHead(s).value.1 <= i <= |s|
    requires var n := DecodeHead(s).value.1;
      var rest, k := s[n..], i - n;
      && Decode(rest[..k]).Some? && Decode(rest[k..]).Some?
      && Decode(rest) == Some(Decode(rest[..k]).value + Decode(rest[k..]).value)
    ensures Decode(s[..i]).Some? && Decode(s[i..]).Some?
    ensures Decode(s) == Some(Decode(s[..i]).value + Decode(s[i..]).value)
  {
    hide Decode, DecodeHead;
    var (c, n) := DecodeHead(s).value;
    var rest, pre, k := s[n..], s[..i], i - n;
    HeadOfPrefix(s, i);
    assert pre[n..] == rest[..k];
    assert rest[k..] == s[i..];
    var a, b := Decode(rest[..k]).value, Decode(rest[k..]).value;
    DecodeStep(pre);
    DecodeStep(s);
    assert [c] + (a + b) == [c] + a + b;
  }

  /** Valid text may be cut before any byte that is not a continuation byte. */
  lemma {:induction false} SplitAt(s: Bytes, i: nat)
    requires Decode(s).Some? && i <= |s| && (i == |s| || !Continuation(s[i]))
    ensures Decode(s[..i]).Some? && Decode(s[i..]).Some?
    ensures Decode(s).value == Decode(s[..i]).value + Decode(s[i..]).value
    decreases |s|
  {
    if i == 0 {
      assert s[0..] == s && s[..0] == [];
    } else {
      var n := DecodeHead(s).value.1;
      HeadShape(s);
      assert n <= i;
      var rest, k := s[n..], i - n;
      assert i < |s| ==> rest[k] == s[i];
      SplitAt(rest, k);
      SplitCons(s, i);
    }
  }

  /** A byte after an ASCII byte starts a new scalar value. */
  lemma {:induction false} AsciiEndsScalar(s: Bytes, i: nat)
    requires Decode(s).Some? && 0 < i < |s| && s[i - 1] < 0x80
    ensures !Continuation(s[i])
    decreases |s|
  {
    var n := DecodeHead(s).value.1;
    HeadShape(s);
    if i <= n {
      assert i == n;
      assert s[n..] != [] && DecodeHead(s[n..]).Some?;
      HeadShape(s[n..]);
    } else {
      AsciiEndsScalar(s[n..], i - n);
    }
  }

  predicate ScalarBoundary(s: Bytes, i: nat) {
    i <= |s| && (i == |s| || !Continuation(s[i]))
  }

  /** Valid text may be sliced between any two scalar boundaries. */
  lemma SliceDecodes(s: Bytes, i: nat, j: nat)
    requires Decode(s).Some? && i <= j && ScalarBoundary(s, i) && ScalarBoundary(s, j)
    ensures Decode(s[i..j]).Some?
  {
    SplitAt(s, j);
    SplitAt(s[..j], i);
    assert s[..j][i..] == s[i..j];
  }

  lemma {:induction false} TextNoLongerThanBytes(s: Bytes)
    requires Decode(s).Some?
    ensures |Decode(s).value| <= |s|
    decreases |s|
  {
    if s != [] {
      TextNoLongerThanBytes(s[DecodeHead(s).value.1..]);
    }
  }

  predicate Scalar(c: CodePoint) { c < 0xD800 || c >= 0xE000 }

  lemma DecodeOne(c: CodePoint, rest: Bytes)
    requires Scalar(c)
    ensures DecodeHead(EncodeOne(c) + rest) == Some((c, |EncodeOne(c)|))
  {
    var s := EncodeOne(c) + rest;
    assert forall i | 0 <= i < |EncodeOne(c)| :: s[i] == EncodeOne(c)[i];
    if 0x800 <= c < 0x1_0000 {
      assert c == (c / 64 / 64 * 64 + c / 64 % 64) * 64 + c % 64;
    } else if c >= 0x1_0000 {
      assert c == ((c / 64 / 64 / 64 * 64 + c / 64 / 64 % 64) * 64 + c / 64 % 64) * 64 + c % 64;
    }
  }

  /** Decoding encoded scalar values gives them back. */
  lemma {:induction false} DecodeEncode(t: Text)
    requires forall i | 0 <= i < |t| :: Scalar(t[i])
    ensures Decode(Encode(t)) == Some(t)
  {
    if t != [] {
      DecodeOne(t[0], Encode(t[1..]));
      DecodeEncode(t[1..]);
      assert Encode(t)[|EncodeOne(t[0])|..] == Encode(t[1..]);
      assert t == [t[0]] + t[1..];
    }
  }
}
