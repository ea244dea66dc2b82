/** Code units and code points, and serialised text free of lone surrogates. */
module Utf16 {
  import opened Utf8
  import opened Json

  /** The first code point: pairs combine, a lone surrogate stands for itself. */
  function FirstCodePoint(t: Units): CodePoint
    requires t != []
  {
    if StartsPair(t) then
      var lead: int, trail: int := t[0], t[1];
      0x1_0000 + (lead - 0xD800) * 0x400 + (trail - 0xDC00)
    else t[0]
  }

  /** Iteration by code point. */
  function CodePoints(t: Units): Text {
    if t == [] then [] else [FirstCodePoint(t)] + CodePoints(t[HeadLength(t)..])
  }

  function UnitsOf(c: CodePoint): Units {
    if c < 0x1_0000 then [c] else [0xD800 + (c - 0x1_0000) / 0x400, 0xDC00 + (c - 0x1_0000) % 0x400]
  }

  function Unpack(cs: Text): Units {
    if cs == [] then [] else UnitsOf(cs[0]) + Unpack(cs[1..])
  }

  lemma UnpackFirst(t: Units)
    requires t != []
    ensures UnitsOf(FirstCodePoint(t)) == t[..HeadLength(t)]
  {
  }

  /** Code points determine the units. */
  lemma {:induction false} UnitsOfCodePoints(t: Units)
    ensures Unpack(CodePoints(t)) == t
    decreases |t|
  {
    if t != [] {
      var n := HeadLength(t);
      UnitsOfCodePoints(t[n..]);
      UnpackFirst(t);
      UnpackCons(FirstCodePoint(t), CodePoints(t[n..]));
      Rejoin(t, n);
    }
  }

  lemma Rejoin(t: Units, n: nat)
    requires n <= |t|
    ensures t[..n] + t[n..] == t
  {
  }

  lemma UnpackCons(c: CodePoint, cs: Text)
    ensures Unpack([c] + cs) == UnitsOf(c) + Unpack(cs)
  {
    assert ([c] + cs)[1..] == cs;
  }

  predicate Surrogate(c: Unit) { Lead(c) || Trail(c) }

  /** Surrogates only occur in pairs. */
  predicate WellPaired(t: Units) {
    t == [] || (if StartsPair(t) then WellPaired(t[2..]) else !Surrogate(t[0]) && WellPaired(t[1..]))
  }

  lemma {:induction false} PairedIsScalar(t: Units)
    requires WellPaired(t)
    ensures forall i | 0 <= i < |CodePoints(t)| :: Scalar(CodePoints(t)[i])
    decreases |t|
  {
    if t != [] {
      PairedIsScalar(t[HeadLength(t)..]);
    }
  }

  lemma {:induction false} PairedAppend(a: Units, b: Units)
    requires WellPaired(a) && WellPaired(b)
    ensures WellPaired(a + b)
    decreases |a|
  {
    if a == [] {
      assert a + b == b;
    } else {
      var n := HeadLength(a);
      PairedAppend(a[n..], b);
      assert (a + b)[n..] == a[n..] + b;
      assert (a + b)[0] == a[0] && (n == 2 ==> (a + b)[1] == a[1]);
    }
  }

  lemma {:induction false} PlainPaired(t: Units)
    requires forall i | 0 <= i < |t| :: t[i] < 0xD800
    ensures WellPaired(t)
  {
    if t != [] {
      PlainPaired(t[1..]);
    }
  }

  lemma {:induction false} QuoteBodyPaired(s: Units)
    ensures WellPaired(QuoteBody(s))
    decreases |s|
  {
    if s != [] {
      QuoteBodyPaired(s[HeadLength(s)..]);
      HeadTextPaired(s);
      PairedAppend(HeadText(s), QuoteBody(s[HeadLength(s)..]));
    }
  }

  lemma HeadTextPaired(s: Units)
    requires s != []
    ensures WellPaired(HeadText(s))
  {
    if StartsPair(s) {
      assert s[..2][2..] == [];
    } else if !Surrogate(s[0]) && |EscapeUnit(s[0])| == 1 {
      assert [s[0]][1..] == [];
    } else {
      PlainPaired(EscapeUnit(s[0]));
    }
  }

  lemma BracketPaired(open: Unit, inner: Units, close: Unit)
    requires open < 0xD800 && close < 0xD800 && WellPaired(inner)
    ensures WellPaired([open] + inner + [close])
  {
    PlainPaired([open]);
    PlainPaired([close]);
    PairedAppend([open], inner);
    PairedAppend([open] + inner, [close]);
  }

  lemma SeparatedPaired(a: Units, c: Unit, b: Units)
    requires WellPaired(a) && c < 0xD800 && WellPaired(b)
    ensures WellPaired(a + ([c] + b))
  {
    PlainPaired([c]);
    PairedAppend([c], b);
    PairedAppend(a, [c] + b);
  }

  lemma QuotePaired(s: Units)
    ensures WellPaired(Quote(s))
  {
    QuoteBodyPaired(s);
    BracketPaired(QUOTE, QuoteBody(s), QUOTE);
  }
}
