/** JSON text as UTF-16 code units: the serialisation JSON.stringify produces, and an
    independent reader for RFC 8259 text (a lexer and a token parser). */
module Json {
  import opened Hashing

  type Unit = n: int | 0 <= n < 0x1_0000
  type Units = seq<Unit>

  /** A finite number is represented by its ECMAScript text, so 0 and -0 are one value. */
  datatype Value =
    | Null | Bool(b: bool) | Num(text: Units) | Str(s: Units) | Arr(items: seq<Value>) | Obj(members: seq<Member>)
  datatype Member = Member(key: Units, value: Value)

  const QUOTE: Unit := 0x22
  const BACKSLASH: Unit := 0x5C
  const COMMA: Unit := 0x2C
  const COLON: Unit := 0x3A
  const LBRACKET: Unit := 0x5B
  const RBRACKET: Unit := 0x5D
  const LBRACE: Unit := 0x7B
  const RBRACE: Unit := 0x7D
  const NULL_WORD: Units := [0x6E, 0x75, 0x6C, 0x6C]
  const TRUE_WORD: Units := [0x74, 0x72, 0x75, 0x65]
  const FALSE_WORD: Units := [0x66, 0x61, 0x6C, 0x73, 0x65]

  // ----- number tokens: section 6 of RFC 8259 -----

  predicate Digit(c: Unit) { 0x30 <= c <= 0x39 }

  predicate Digits(w: Units) { w != [] && forall i | 0 <= i < |w| :: Digit(w[i]) }

  function SplitDigits(w: Units, from: nat): (k: nat)
    requires from <= |w|
    ensures from <= k <= |w| && forall i | from <= i < k :: Digit(w[i])
    decreases |w| - from
  {
    if from < |w| && Digit(w[from]) then SplitDigits(w, from + 1) else from
  }

  predicate Exponent(w: Units) {
    || w == []
    || (w[0] in {0x65, 0x45} &&
        (Digits(w[1..]) || (|w| >= 2 && w[1] in {0x2B, 0x2D} && Digits(w[2..]))))
  }

  predicate Fraction(w: Units) {
    if w != [] && w[0] == 0x2E then var k := SplitDigits(w, 1); k > 1 && Exponent(w[k..]) else Exponent(w)
  }

  predicate NumberText(w: Units) {
    var u := if w != [] && w[0] == 0x2D then w[1..] else w;
    var k := SplitDigits(u, 0);
    k > 0 && (k > 1 ==> u[0] != 0x30) && Fraction(u[k..])
  }

  /** Characters of numbers and of the three literal names. */
  predicate WordUnit(c: Unit) {
    || Digit(c) || c in {0x2B, 0x2D, 0x2E, 0x45}
    || c in {0x61, 0x65, 0x66, 0x6C, 0x6E, 0x72, 0x73, 0x74, 0x75}
  }

  lemma NumberIsAWord(w: Units)
    requires NumberText(w)
    ensures w != [] && w != NULL_WORD && w != TRUE_WORD && w != FALSE_WORD
    ensures forall i | 0 <= i < |w| :: WordUnit(w[i])
  {
    var d := if w[0] == 0x2D then 1 else 0;
    var u := w[d..];
    var k := SplitDigits(u, 0);
    assert Digit(u[0]);
    var f := u[k..];
    var e := if f != [] && f[0] == 0x2E then SplitDigits(f, 1) else 0;
    ExponentIsAWord(f[e..]);
    assert forall i | 0 <= i < |f| :: WordUnit(f[i]) by {
      forall i | 0 <= i < |f| ensures WordUnit(f[i]) {
        if i >= e { assert f[i] == f[e..][i - e]; }
      }
    }
    forall i | 0 <= i < |w| ensures WordUnit(w[i]) {
      if i >= d { assert w[i] == u[i - d]; }
      if i >= d + k { assert w[i] == f[i - d - k]; }
    }
  }

  lemma ExponentIsAWord(w: Units)
    requires Exponent(w)
    ensures forall i | 0 <= i < |w| :: WordUnit(w[i])
  {
    if w != [] {
      var d := if Digits(w[1..]) then 1 else 2;
      forall i | 0 <= i < |w| ensures WordUnit(w[i]) {
        if i >= d { assert w[i] == w[d..][i - d]; }
      }
    }
  }

  predicate NumbersOk(v: Value) {
    match v
    case Num(text) => NumberText(text)
    case Arr(items) => forall i | 0 <= i < |items| :: NumbersOk(items[i])
    case Obj(members) => forall i | 0 <= i < |members| :: NumbersOk(members[i].value)
    case _ => true
  }

  // ----- JSON.stringify -----

  predicate Lead(c: Unit) { 0xD800 <= c < 0xDC00 }
  predicate Trail(c: Unit) { 0xDC00 <= c < 0xE000 }

  function HexUnit(d: nat): Unit
    requires d < 16
  {
    if d < 10 then 0x30 + d else 0x61 + (d - 10)
  }

  /** A backslash, a "u" and four lower-case hexadecimal digits. */
  function UnicodeEscape(c: Unit): Units {
    [BACKSLASH, 0x75, HexUnit(c / 4096), HexUnit(c / 256 % 16), HexUnit(c / 16 % 16), HexUnit(c % 16)]
  }

  function EscapeUnit(c: Unit): Units {
    if c == 0x08 then [BACKSLASH, 0x62]
    else if c == 0x09 then [BACKSLASH, 0x74]
    else if c == 0x0A then [BACKSLASH, 0x6E]
    else if c == 0x0C then [BACKSLASH, 0x66]
    else if c == 0x0D then [BACKSLASH, 0x72]
    else if c == QUOTE || c == BACKSLASH then [BACKSLASH, c]
    else if c < 0x20 || Lead(c) || Trail(c) then UnicodeEscape(c)
    else [c]
  }

  /** Surrogate pairs stay, lone surrogates are escaped. */
  predicate StartsPair(s: Units) { |s| >= 2 && Lead(s[0]) && Trail(s[1]) }

  function HeadLength(s: Units): nat { if StartsPair(s) then 2 else 1 }

  function HeadText(s: Units): Units
    requires s != []
  {
    if StartsPair(s) then s[..2] else EscapeUnit(s[0])
  }

  function QuoteBody(s: Units): Units {
    if s == [] then [] else HeadText(s) + QuoteBody(s[HeadLength(s)..])
  }

  function Quote(s: Units): Units { [QUOTE] + QuoteBody(s) + [QUOTE] }

  function Stringify(v: Value): Units
    decreases v
  {
    match v
    case Null => NULL_WORD
    case Bool(b) => if b then TRUE_WORD else FALSE_WORD
    case Num(text) => text
    case Str(s) => Quote(s)
    case Arr(items) => [LBRACKET] + StringifyItems(items) + [RBRACKET]
    case Obj(members) => [LBRACE] + StringifyMembers(members) + [RBRACE]
  }

  function StringifyItems(items: seq<Value>): Units
    decreases items
  {
    if items == [] then []
    else if |items| == 1 then Stringify(items[0])
    else Stringify(items[0]) + ([COMMA] + StringifyItems(items[1..]))
  }

  function StringifyMember(m: Member): Units
    decreases m
  {
    Quote(m.key) + ([COLON] + Stringify(m.value))
  }

  function StringifyMembers(members: seq<Member>): Units
    decreases members
  {
    if members == [] then []
    else if |members| == 1 then StringifyMember(members[0])
    else StringifyMember(members[0]) + ([COMMA] + StringifyMembers(members[1..]))
  }

  // ----- the lexer -----

  datatype Token = Punct(c: Unit) | Word(w: Units) | Text(s: Units)

  datatype Lex =
    | Outside(toks: seq<Token>, word: Units)
    | InString(toks: seq<Token>, acc: Units)
    | InEscape(toks: seq<Token>, acc: Units)
    | InHex(toks: seq<Token>, acc: Units, count: nat, value: nat)
    | Failed

  predicate Punctuation(c: Unit) { c in {COMMA, COLON, LBRACKET, RBRACKET, LBRACE, RBRACE} }

  predicate Blank(c: Unit) { c in {0x20, 0x09, 0x0A, 0x0D} }

  function Flush(toks: seq<Token>, word: Units): seq<Token> {
    if word == [] then toks else toks + [Word(word)]
  }

  function HexOf(c: Unit): Option<nat> {
    if Digit(c) then Some(c - 0x30)
    else if 0x61 <= c <= 0x66 then Some(c - 0x61 + 10)
    else if 0x41 <= c <= 0x46 then Some(c - 0x41 + 10)
    else None
  }

  /** The string escapes of section 7 of RFC 8259, one character long. */
  function ShortEscape(c: Unit): Option<Unit> {
    if c == QUOTE || c == BACKSLASH || c == 0x2F then Some(c)
    else if c == 0x62 then Some(0x08)
    else if c == 0x66 then Some(0x0C)
    else if c == 0x6E then Some(0x0A)
    else if c == 0x72 then Some(0x0D)
    else if c == 0x74 then Some(0x09)
    else None
  }

  function LexStep(st: Lex, c: Unit): Lex {
    match st
    case Failed => Failed
    case Outside(toks, word) =>
      if c == QUOTE then InString(Flush(toks, word), [])
      else if Punctuation(c) then Outside(Flush(toks, word) + [Punct(c)], [])
      else if Blank(c) then Outside(Flush(toks, word), [])
      else if WordUnit(c) then Outside(toks, word + [c])
      else Failed
    case InString(toks, acc) =>
      if c == QUOTE then Outside(toks + [Text(acc)], [])
      else if c == BACKSLASH then InEscape(toks, acc)
      else if c < 0x20 then Failed
      else InString(toks, acc + [c])
    case InEscape(toks, acc) =>
      if c == 0x75 then InHex(toks, acc, 0, 0)
      else match ShortEscape(c) { case Some(u) => InString(toks, acc + [u]) case None => Failed }
    case InHex(toks, acc, count, value) =>
      match HexOf(c) {
        case None => Failed
        case Some(d) =>
          var v := 16 * value + d;
          if count < 3 then InHex(toks, acc, count + 1, v)
          else if v < 0x1_0000 then InString(toks, acc + [v])
          else Failed
      }
  }

  function Run(st: Lex, t: Units): Lex
    decreases |t|
  {
    if t == [] then st else Run(LexStep(st, t[0]), t[1..])
  }

  function Tokenize(t: Units): Option<seq<Token>> {
    match Run(Outside([], []), t)
    case Outside(toks, word) => Some(Flush(toks, word))
    case _ => None
  }

  lemma {:induction false} RunAppend(st: Lex, a: Units, b: Units)
    ensures Run(st, a + b) == Run(Run(st, a), b)
    decreases |a|
  {
    if a == [] {
      assert a + b == b;
    } else {
      assert (a + b)[0] == a[0] && (a + b)[1..] == a[1..] + b;
      RunAppend(LexStep(st, a[0]), a[1..], b);
    }
  }

  lemma RunOne(st: Lex, c: Unit)
    ensures Run(st, [c]) == LexStep(st, c)
  {
    assert [c][1..] == [];
  }

  lemma RunCons(st: Lex, c: Unit, rest: Units)
    ensures Run(st, [c] + rest) == Run(LexStep(st, c), rest)
  {
    assert ([c] + rest)[1..] == rest;
  }

  lemma {:induction false} RunFailed(t: Units)
    ensures Run(Failed, t) == Failed
  {
    if t != [] {
      RunFailed(t[1..]);
    }
  }

  lemma HexUnitValue(d: nat)
    requires d < 16
    ensures HexOf(HexUnit(d)) == Some(d)
  {
  }

  /** An escape reads as the unit it was written for. */
  lemma RunUnicodeEscape(toks: seq<Token>, acc: Units, c: Unit)
    ensures Run(InString(toks, acc), UnicodeEscape(c)) == InString(toks, acc + [c])
  {
    var a, b, d, e := c / 4096, c / 256 % 16, c / 16 % 16, c % 16;
    HexDigitsOf(c);
    RunFourHex(toks, acc, a, b, d, e);
    assert UnicodeEscape(c) == [BACKSLASH] + ([0x75] + [HexUnit(a), HexUnit(b), HexUnit(d), HexUnit(e)]);
    RunCons(InString(toks, acc), BACKSLASH, [0x75] + [HexUnit(a), HexUnit(b), HexUnit(d), HexUnit(e)]);
    RunCons(InEscape(toks, acc), 0x75, [HexUnit(a), HexUnit(b), HexUnit(d), HexUnit(e)]);
  }

  lemma HexDigitsOf(c: Unit)
    ensures 16 * (16 * (16 * (c / 4096) + c / 256 % 16) + c / 16 % 16) + c % 16 == c
  {
    var x := c / 16;
    var y := x / 16;
    var z := y / 16;
    assert c == 16 * x + c % 16 && x == 16 * y + x % 16 && y == 16 * z + y % 16;
    assert c / 256 == y && c / 4096 == z;
  }

  lemma RunFourHex(toks: seq<Token>, acc: Units, a: nat, b: nat, d: nat, e: nat)
    requires a < 16 && b < 16 && d < 16 && e < 16
    ensures Run(InHex(toks, acc, 0, 0), [HexUnit(a), HexUnit(b), HexUnit(d), HexUnit(e)]) ==
            InString(toks, acc + [16 * (16 * (16 * a + b) + d) + e])
  {
    var s2 := InHex(toks, acc, 1, a);
    var s3 := InHex(toks, acc, 2, 16 * a + b);
    var s4 := InHex(toks, acc, 3, 16 * (16 * a + b) + d);
    assert [HexUnit(a), HexUnit(b), HexUnit(d), HexUnit(e)] == [HexUnit(a)] + [HexUnit(b), HexUnit(d), HexUnit(e)];
    RunCons(InHex(toks, acc, 0, 0), HexUnit(a), [HexUnit(b), HexUnit(d), HexUnit(e)]);
    assert [HexUnit(b), HexUnit(d), HexUnit(e)] == [HexUnit(b)] + [HexUnit(d), HexUnit(e)];
    RunCons(s2, HexUnit(b), [HexUnit(d), HexUnit(e)]);
    assert [HexUnit(d), HexUnit(e)] == [HexUnit(d)] + [HexUnit(e)];
    RunCons(s3, HexUnit(d), [HexUnit(e)]);
    RunOne(s4, HexUnit(e));
    HexUnitValue(a);
    HexUnitValue(b);
    HexUnitValue(d);
    HexUnitValue(e);
  }

  predicate RawUnit(c: Unit) { c >= 0x20 && c != QUOTE && c != BACKSLASH }

  lemma {:induction false} RunRaw(toks: seq<Token>, acc: Units, w: Units)
    requires forall i | 0 <= i < |w| :: RawUnit(w[i])
    ensures Run(InString(toks, acc), w) == InString(toks, acc + w)
    decreases |w|
  {
    if w == [] {
      assert acc + w == acc;
    } else {
      assert RawUnit(w[0]);
      RunRaw(toks, acc + [w[0]], w[1..]);
      assert (acc + [w[0]]) + w[1..] == acc + w;
    }
  }

  lemma RunEscapeUnit(toks: seq<Token>, acc: Units, c: Unit)
    ensures Run(InString(toks, acc), EscapeUnit(c)) == InString(toks, acc + [c])
  {
    var t := EscapeUnit(c);
    if |t| == 1 {
      RunOne(InString(toks, acc), c);
    } else if |t| == 2 {
      assert t[1..] == [t[1]];
      RunOne(InEscape(toks, acc), t[1]);
    } else {
      RunUnicodeEscape(toks, acc, c);
    }
  }

  lemma RunHeadText(toks: seq<Token>, acc: Units, s: Units)
    requires s != []
    ensures Run(InString(toks, acc), HeadText(s)) == InString(toks, acc + s[..HeadLength(s)])
  {
    if StartsPair(s) {
      RunRaw(toks, acc, s[..2]);
    } else {
      RunEscapeUnit(toks, acc, s[0]);
      assert s[..1] == [s[0]];
    }
  }

  lemma {:induction false} RunQuoteBody(toks: seq<Token>, acc: Units, s: Units)
    ensures Run(InString(toks, acc), QuoteBody(s)) == InString(toks, acc + s)
    decreases |s|
  {
    if s == [] {
      assert acc + s == acc;
    } else {
      var n := HeadLength(s);
      RunHeadText(toks, acc, s);
      RunQuoteBody(toks, acc + s[..n], s[n..]);
      RunTwoPieces(toks, acc, s[..n], HeadText(s), s[n..], QuoteBody(s[n..]));
      assert s[..n] + s[n..] == s;
    }
  }

  lemma RunTwoPieces(toks: seq<Token>, acc: Units, a: Units, at: Units, b: Units, bt: Units)
    requires Run(InString(toks, acc), at) == InString(toks, acc + a)
    requires Run(InString(toks, acc + a), bt) == InString(toks, (acc + a) + b)
    ensures Run(InString(toks, acc), at + bt) == InString(toks, acc + (a + b))
  {
    RunAppend(InString(toks, acc), at, bt);
    assert (acc + a) + b == acc + (a + b);
  }

  lemma RunQuote(toks: seq<Token>, s: Units)
    ensures Run(Outside(toks, []), Quote(s)) == Outside(toks + [Text(s)], [])
  {
    var open, body := Outside(toks, []), QuoteBody(s);
    RunAppend(open, [QUOTE] + body, [QUOTE]);
    RunCons(open, QUOTE, body);
    RunQuoteBody(toks, [], s);
    assert [] + s == s;
    RunOne(InString(toks, s), QUOTE);
  }

  // ----- tokens of a value -----

  function Toks(v: Value): seq<Token>
    decreases v
  {
    match v
    case Null => [Word(NULL_WORD)]
    case Bool(b) => [Word(if b then TRUE_WORD else FALSE_WORD)]
    case Num(text) => [Word(text)]
    case Str(s) => [Text(s)]
    case Arr(items) => [Punct(LBRACKET)] + ItemToks(items) + [Punct(RBRACKET)]
    case Obj(members) => [Punct(LBRACE)] + MemberToks(members) + [Punct(RBRACE)]
  }

  function ItemToks(items: seq<Value>): seq<Token>
    decreases items
  {
    if items == [] then []
    else if |items| == 1 then Toks(items[0])
    else Toks(items[0]) + ([Punct(COMMA)] + ItemToks(items[1..]))
  }

  function OneMember(m: Member): seq<Token>
    decreases m
  {
    [Text(m.key)] + ([Punct(COLON)] + Toks(m.value))
  }

  function MemberToks(members: seq<Member>): seq<Token>
    decreases members
  {
    if members == [] then []
    else if |members| == 1 then OneMember(members[0])
    else OneMember(members[0]) + ([Punct(COMMA)] + MemberToks(members[1..]))
  }

  // ----- the lexer reads a serialisation back into its tokens -----

  /** A pending bare word is complete as soon as anything else follows it. */
  predicate Reads(st: Lex, toks: seq<Token>) {
    st.Outside? && Flush(st.toks, st.word) == toks
  }

  lemma ReadsThenPunct(st: Lex, toks: seq<Token>, c: Unit)
    requires Reads(st, toks) && Punctuation(c)
    ensures LexStep(st, c) == Outside(toks + [Punct(c)], [])
  {
  }

  lemma {:induction false} RunWord(toks: seq<Token>, word: Units, w: Units)
    requires forall i | 0 <= i < |w| :: WordUnit(w[i])
    ensures Run(Outside(toks, word), w) == Outside(toks, word + w)
    decreases |w|
  {
    if w == [] {
      assert word + w == word;
    } else {
      assert WordUnit(w[0]);
      RunWord(toks, word + [w[0]], w[1..]);
      assert (word + [w[0]]) + w[1..] == word + w;
    }
  }

  lemma RunWholeWord(toks: seq<Token>, w: Units)
    requires w != [] && forall i | 0 <= i < |w| :: WordUnit(w[i])
    ensures Reads(Run(Outside(toks, []), w), toks + [Word(w)])
  {
    RunWord(toks, [], w);
    assert [] + w == w;
  }

  lemma {:induction false} LexValue(v: Value, toks: seq<Token>)
    requires NumbersOk(v)
    ensures Reads(Run(Outside(toks, []), Stringify(v)), toks + Toks(v))
    decreases v
  {
    match v
    case Null => RunWholeWord(toks, NULL_WORD);
    case Bool(b) => RunWholeWord(toks, if b then TRUE_WORD else FALSE_WORD);
    case Num(text) => NumberIsAWord(text); RunWholeWord(toks, text);
    case Str(s) => RunQuote(toks, s);
    case Arr(items) =>
      LexItems(items, toks + [Punct(LBRACKET)]);
      LexBracketed(toks, LBRACKET, StringifyItems(items), ItemToks(items), RBRACKET);
    case Obj(members) =>
      LexMembers(members, toks + [Punct(LBRACE)]);
      LexBracketed(toks, LBRACE, StringifyMembers(members), MemberToks(members), RBRACE);
  }

  lemma LexBracketed(toks: seq<Token>, open: Unit, inner: Units, ts: seq<Token>, close: Unit)
    requires Punctuation(open) && Punctuation(close)
    requires Reads(Run(Outside(toks + [Punct(open)], []), inner), (toks + [Punct(open)]) + ts)
    ensures Reads(Run(Outside(toks, []), [open] + inner + [close]), toks + ([Punct(open)] + ts + [Punct(close)]))
  {
    RunAppend(Outside(toks, []), [open] + inner, [close]);
    RunCons(Outside(toks, []), open, inner);
    var st := Run(Outside(toks + [Punct(open)], []), inner);
    ReadsThenPunct(st, (toks + [Punct(open)]) + ts, close);
    RunOne(st, close);
    assert (toks + [Punct(open)]) + ts + [Punct(close)] == toks + ([Punct(open)] + ts + [Punct(close)]);
  }

  /** Head, comma, tail: the list form shared by arrays and objects. */
  lemma LexSeparated(toks: seq<Token>, head: Units, hs: seq<Token>, c: Unit, tail: Units, ts: seq<Token>)
    requires Punctuation(c) && Reads(Run(Outside(toks, []), head), toks + hs)
    requires Reads(Run(Outside((toks + hs) + [Punct(c)], []), tail), ((toks + hs) + [Punct(c)]) + ts)
    ensures Reads(Run(Outside(toks, []), head + ([c] + tail)), toks + (hs + ([Punct(c)] + ts)))
  {
    RunAppend(Outside(toks, []), head, [c] + tail);
    var st := Run(Outside(toks, []), head);
    RunCons(st, c, tail);
    ReadsThenPunct(st, toks + hs, c);
    assert ((toks + hs) + [Punct(c)]) + ts == toks + (hs + ([Punct(c)] + ts));
  }

  lemma {:induction false} LexItems(items: seq<Value>, toks: seq<Token>)
    requires forall i | 0 <= i < |items| :: NumbersOk(items[i])
    ensures Reads(Run(Outside(toks, []), StringifyItems(items)), toks + ItemToks(items))
    decreases items
  {
    if items == [] {
      assert toks + [] == toks;
    } else {
      LexValue(items[0], toks);
      if |items| > 1 {
        var hs := Toks(items[0]);
        LexItems(items[1..], (toks + hs) + [Punct(COMMA)]);
        LexSeparated(toks, Stringify(items[0]), hs, COMMA, StringifyItems(items[1..]), ItemToks(items[1..]));
      }
    }
  }

  lemma LexMember(m: Member, toks: seq<Token>)
    requires NumbersOk(m.value)
    ensures Reads(Run(Outside(toks, []), StringifyMember(m)), toks + OneMember(m))
    decreases m
  {
    RunQuote(toks, m.key);
    LexValue(m.value, (toks + [Text(m.key)]) + [Punct(COLON)]);
    LexSeparated(toks, Quote(m.key), [Text(m.key)], COLON, Stringify(m.value), Toks(m.value));
  }

  lemma {:induction false} LexMembers(members: seq<Member>, toks: seq<Token>)
    requires forall i | 0 <= i < |members| :: NumbersOk(members[i].value)
    ensures Reads(Run(Outside(toks, []), StringifyMembers(members)), toks + MemberToks(members))
    decreases members
  {
    if members == [] {
      assert toks + [] == toks;
    } else {
      LexMember(members[0], toks);
      if |members| > 1 {
        var hs := OneMember(members[0]);
        LexMembers(members[1..], (toks + hs) + [Punct(COMMA)]);
        LexSeparated(toks, StringifyMember(members[0]), hs, COMMA, StringifyMembers(members[1..]),
          MemberToks(members[1..]));
      }
    }
  }

  // ----- the token parser -----

  datatype Parsed<T> = Fail | Got(value: T, rest: seq<Token>)

  function WordValue(w: Units): Option<Value> {
    if w == NULL_WORD then Some(Null)
    else if w == TRUE_WORD then Some(Bool(true))
    else if w == FALSE_WORD then Some(Bool(false))
    else if NumberText(w) then Some(Num(w))
    else None
  }

  function ParseValue(ts: seq<Token>): (r: Parsed<Value>)
    ensures r.Got? ==> |r.rest| < |ts|
    decreases |ts|, 0
  {
    if ts == [] then Fail
    else match ts[0]
      case Word(w) => (match WordValue(w) case Some(v) => Got(v, ts[1..]) case None => Fail)
      case Text(s) => Got(Str(s), ts[1..])
      case Punct(c) =>
        if c == LBRACKET then
          if |ts| > 1 && ts[1] == Punct(RBRACKET) then Got(Arr([]), ts[2..])
          else match ParseItems(ts[1..]) { case Got(items, rest) => Got(Arr(items), rest) case Fail => Fail }
        else if c == LBRACE then
          if |ts| > 1 && ts[1] == Punct(RBRACE) then Got(Obj([]), ts[2..])
          else match ParseMembers(ts[1..]) { case Got(members, rest) => Got(Obj(members), rest) case Fail => Fail }
        else Fail
  }

  /** One or more values, separated by commas, up to and including the closing bracket. */
  function ParseItems(ts: seq<Token>): (r: Parsed<seq<Value>>)
    ensures r.Got? ==> |r.rest| < |ts|
    decreases |ts|, 1
  {
    match ParseValue(ts)
    case Fail => Fail
    case Got(v, rest) =>
      if rest == [] then Fail
      else if rest[0] == Punct(RBRACKET) then Got([v], rest[1..])
      else if rest[0] == Punct(COMMA) then
        match ParseItems(rest[1..]) { case Got(vs, rest') => Got([v] + vs, rest') case Fail => Fail }
      else Fail
  }

  function ParseMembers(ts: seq<Token>): (r: Parsed<seq<Member>>)
    ensures r.Got? ==> |r.rest| < |ts|
    decreases |ts|, 1
  {
    if |ts| < 2 || !ts[0].Text? || ts[1] != Punct(COLON) then Fail
    else match ParseValue(ts[2..])
      case Fail => Fail
      case Got(v, rest) =>
        var m := Member(ts[0].s, v);
        if rest == [] then Fail
        else if rest[0] == Punct(RBRACE) then Got([m], rest[1..])
        else if rest[0] == Punct(COMMA) then
          match ParseMembers(rest[1..]) { case Got(ms, rest') => Got([m] + ms, rest') case Fail => Fail }
        else Fail
  }

  /** Reading a complete JSON text. */
  function Parse(t: Units): Option<Value> {
    match Tokenize(t)
    case None => None
    case Some(ts) =>
      match ParseValue(ts)
      case Got(v, rest) => if rest == [] then Some(v) else None
      case Fail => None
  }

  lemma {:induction false} ParseToks(v: Value, rest: seq<Token>)
    requires NumbersOk(v)
    ensures ParseValue(Toks(v) + rest) == Got(v, rest)
    decreases v
  {
    match v
    case Null => assert (Toks(v) + rest)[1..] == rest;
    case Bool(b) => assert (Toks(v) + rest)[1..] == rest;
    case Num(text) => NumberIsAWord(text); assert (Toks(v) + rest)[1..] == rest;
    case Str(s) => assert (Toks(v) + rest)[1..] == rest;
    case Arr(items) =>
      if items != [] {
        ParseItemToks(items, rest);
        FirstToken(items[0]);
        assert ItemToks(items)[0] == Toks(items[0])[0];
      }
      ParseArray(items, ItemToks(items), rest);
    case Obj(members) =>
      if members != [] {
        ParseMemberToks(members, rest);
        assert MemberToks(members)[0] == Text(members[0].key);
      }
      ParseObject(members, MemberToks(members), rest);
  }

  lemma ParseArray(items: seq<Value>, inner: seq<Token>, rest: seq<Token>)
    requires items == [] ==> inner == []
    requires items != [] ==>
      inner != [] && inner[0] != Punct(RBRACKET) && ParseItems(inner + ([Punct(RBRACKET)] + rest)) == Got(items, rest)
    ensures ParseValue(([Punct(LBRACKET)] + inner + [Punct(RBRACKET)]) + rest) == Got(Arr(items), rest)
  {
    var ts := ([Punct(LBRACKET)] + inner + [Punct(RBRACKET)]) + rest;
    if items == [] {
      assert ts[2..] == rest;
    } else {
      assert ts[1..] == inner + ([Punct(RBRACKET)] + rest);
    }
  }

  lemma ParseObject(members: seq<Member>, inner: seq<Token>, rest: seq<Token>)
    requires members == [] ==> inner == []
    requires members != [] ==>
      inner != [] && inner[0] != Punct(RBRACE) && ParseMembers(inner + ([Punct(RBRACE)] + rest)) == Got(members, rest)
    ensures ParseValue(([Punct(LBRACE)] + inner + [Punct(RBRACE)]) + rest) == Got(Obj(members), rest)
  {
    hide ParseMembers, ParseItems;
    var ts := ([Punct(LBRACE)] + inner + [Punct(RBRACE)]) + rest;
    if members == [] {
      assert ts[2..] == rest;
    } else {
      assert ts[1..] == inner + ([Punct(RBRACE)] + rest);
    }
  }

  lemma FirstToken(v: Value)
    ensures |Toks(v)| > 0 && Toks(v)[0] != Punct(RBRACKET)
  {
  }

  lemma ItemsEnd(ts: seq<Token>, v: Value, rest: seq<Token>)
    requires ParseValue(ts) == Got(v, [Punct(RBRACKET)] + rest)
    ensures ParseItems(ts) == Got([v], rest)
  {
    assert ([Punct(RBRACKET)] + rest)[1..] == rest;
  }

  lemma ItemsContinue(ts: seq<Token>, v: Value, tail: seq<Token>, vs: seq<Value>, rest: seq<Token>)
    requires ParseValue(ts) == Got(v, [Punct(COMMA)] + tail) && ParseItems(tail) == Got(vs, rest)
    ensures ParseItems(ts) == Got([v] + vs, rest)
  {
    assert ([Punct(COMMA)] + tail)[1..] == tail;
  }

  lemma {:induction false} ParseItemToks(items: seq<Value>, rest: seq<Token>)
    requires items != [] && forall i | 0 <= i < |items| :: NumbersOk(items[i])
    ensures ParseItems(ItemToks(items) + ([Punct(RBRACKET)] + rest)) == Got(items, rest)
    decreases items
  {
    var close := [Punct(RBRACKET)] + rest;
    if |items| == 1 {
      ParseToks(items[0], close);
      ItemsEnd(Toks(items[0]) + close, items[0], rest);
      assert [items[0]] == items;
    } else {
      var tail := ItemToks(items[1..]) + close;
      ParseToks(items[0], [Punct(COMMA)] + tail);
      ParseItemToks(items[1..], rest);
      ItemsContinue(Toks(items[0]) + ([Punct(COMMA)] + tail), items[0], tail, items[1..], rest);
      Regroup(Toks(items[0]), COMMA, ItemToks(items[1..]), close);
      assert [items[0]] + items[1..] == items;
    }
  }

  lemma Regroup(a: seq<Token>, c: Unit, b: seq<Token>, close: seq<Token>)
    ensures (a + ([Punct(c)] + b)) + close == a + ([Punct(c)] + (b + close))
  {
  }

  lemma MembersEnd(key: Units, ts: seq<Token>, v: Value, rest: seq<Token>)
    requires ParseValue(ts) == Got(v, [Punct(RBRACE)] + rest)
    ensures ParseMembers([Text(key)] + ([Punct(COLON)] + ts)) == Got([Member(key, v)], rest)
  {
    assert ([Text(key)] + ([Punct(COLON)] + ts))[2..] == ts;
    assert ([Punct(RBRACE)] + rest)[1..] == rest;
  }

  lemma MembersContinue(key: Units, ts: seq<Token>, v: Value, tail: seq<Token>, ms: seq<Member>, rest: seq<Token>)
    requires ParseValue(ts) == Got(v, [Punct(COMMA)] + tail) && ParseMembers(tail) == Got(ms, rest)
    ensures ParseMembers([Text(key)] + ([Punct(COLON)] + ts)) == Got([Member(key, v)] + ms, rest)
  {
    assert ([Text(key)] + ([Punct(COLON)] + ts))[2..] == ts;
    assert ([Punct(COMMA)] + tail)[1..] == tail;
  }

  lemma {:induction false} ParseMemberToks(members: seq<Member>, rest: seq<Token>)
    requires members != [] && forall i | 0 <= i < |members| :: NumbersOk(members[i].value)
    ensures ParseMembers(MemberToks(members) + ([Punct(RBRACE)] + rest)) == Got(members, rest)
    decreases members
  {
    var close := [Punct(RBRACE)] + rest;
    var m := members[0];
    var value := Toks(m.value);
    if |members| == 1 {
      ParseToks(m.value, close);
      MembersEnd(m.key, value + close, m.value, rest);
      RegroupMember(m.key, value, close);
      assert [m] == members;
    } else {
      var tail := MemberToks(members[1..]) + close;
      var more := [Punct(COMMA)] + tail;
      ParseToks(m.value, more);
      ParseMemberToks(members[1..], rest);
      MembersContinue(m.key, value + more, m.value, tail, members[1..], rest);
      RegroupMember(m.key, value, more);
      Regroup(OneMember(m), COMMA, MemberToks(members[1..]), close);
      assert [m] + members[1..] == members;
    }
  }

  lemma RegroupMember(key: Units, value: seq<Token>, after: seq<Token>)
    ensures ([Text(key)] + ([Punct(COLON)] + value)) + after == [Text(key)] + ([Punct(COLON)] + (value + after))
  {
  }

  /** Parsing a serialisation gives back the value, member order included. */
  lemma ParseStringify(v: Value)
    requires NumbersOk(v)
    ensures Parse(Stringify(v)) == Some(v)
  {
    LexValue(v, []);
    assert [] + Toks(v) == Toks(v);
    ParseToks(v, []);
    assert Toks(v) + [] == Toks(v);
  }
}
