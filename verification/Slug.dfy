/** headingSlug of artifact-text-index.ts: an ASCII rendering of heading text that escapes
    every non-ASCII code point, shown decodable by an explicit decoder. */
module Slug {
  import opened Sequences
  import opened Utf8

  /** What survives of a heading: lower-case letters and digits, escaped code points, and
      one gap wherever other ASCII characters separated two of them. */
  datatype Token = Letter(c: char) | Escape(code: CodePoint) | Gap

  predicate Alnum(code: CodePoint) { 0x61 <= code <= 0x7A || 0x30 <= code <= 0x39 }

  predicate AlnumChar(c: char) { 'a' <= c <= 'z' || '0' <= c <= '9' }

  // ----- hexadecimal -----

  function HexDigit(d: nat): char
    requires d < 16
  {
    if d < 10 then '0' + d as char else 'a' + (d - 10) as char
  }

  function HexValue(c: char): nat {
    if '0' <= c <= '9' then (c - '0') as nat
    else if 'a' <= c <= 'f' then (c - 'a') as nat + 10
    else 0
  }

  function Hex(n: nat): (s: string)
    ensures |s| > 0 && forall i | 0 <= i < |s| :: s[i] != '-' && AlnumChar(s[i])
  {
    if n < 16 then [HexDigit(n)] else Hex(n / 16) + [HexDigit(n % 16)]
  }

  function ParseHex(s: string): nat {
    if s == "" then 0 else 16 * ParseHex(s[..|s| - 1]) + HexValue(s[|s| - 1])
  }

  lemma HexDigitValue(d: nat)
    requires d < 16
    ensures HexValue(HexDigit(d)) == d
  {
  }

  lemma {:induction false} ParseHexOfHex(n: nat)
    ensures ParseHex(Hex(n)) == n
  {
    HexDigitValue(n % 16);
    if n < 16 {
      assert [HexDigit(n)][..0] == "";
    } else {
      ParseHexOfHex(n / 16);
      assert Hex(n)[..|Hex(n)| - 1] == Hex(n / 16);
    }
  }

  // ----- tokens and rendering -----

  datatype Scan = Scan(tokens: seq<Token>, separator: bool)

  /** One loop iteration: separators are only remembered, and only matter between tokens. */
  function Step(s: Scan, code: CodePoint): Scan {
    var gap := if s.separator && s.tokens != [] then [Gap] else [];
    if Alnum(code) then Scan(s.tokens + gap + [Letter(code as char)], false)
    else if code > 0x7F then Scan(s.tokens + gap + [Escape(code)], false)
    else Scan(s.tokens, true)
  }

  function ScanText(text: Text): Scan {
    if text == [] then Scan([], false) else Step(ScanText(text[..|text| - 1]), text[|text| - 1])
  }

  function TokensOf(text: Text): seq<Token> { ScanText(text).tokens }

  function RenderToken(t: Token): string {
    match t
    case Letter(c) => [c]
    case Escape(code) => "u--" + Hex(code) + "--"
    case Gap => "-"
  }

  function Pieces(ts: seq<Token>): seq<string> { seq(|ts|, i requires 0 <= i < |ts| => RenderToken(ts[i])) }

  function Render(ts: seq<Token>): string { Flat(Pieces(ts)) }

  function SlugOf(text: Text): string {
    if TokensOf(text) == [] then "heading" else Render(TokensOf(text))
  }

  lemma RenderAppend(a: seq<Token>, b: seq<Token>)
    ensures Render(a + b) == Render(a) + Render(b)
  {
    assert Pieces(a + b) == Pieces(a) + Pieces(b);
    FlatAppend(Pieces(a), Pieces(b));
  }

  lemma RenderCons(ts: seq<Token>)
    requires ts != []
    ensures Render(ts) == RenderToken(ts[0]) + Render(ts[1..])
  {
    assert Pieces(ts)[1..] == Pieces(ts[1..]);
  }

  lemma RenderOne(t: Token)
    ensures Render([t]) == RenderToken(t)
  {
    assert Pieces([t]) == [RenderToken(t)];
    FlatOne(RenderToken(t));
  }

  /** What one loop iteration appends to the slug. */
  lemma RenderStep(s: Scan, code: CodePoint)
    ensures var gap := if s.separator && s.tokens != [] then "-" else "";
            Render(Step(s, code).tokens) ==
              if Alnum(code) then (Render(s.tokens) + gap) + RenderToken(Letter(code as char))
              else if code > 0x7F then (Render(s.tokens) + gap) + RenderToken(Escape(code))
              else Render(s.tokens)
  {
    var gap := if s.separator && s.tokens != [] then [Gap] else [];
    RenderAppend(s.tokens, gap);
    RenderOne(Gap);
    if Alnum(code) {
      RenderAppend(s.tokens + gap, [Letter(code as char)]);
      RenderOne(Letter(code as char));
    } else if code > 0x7F {
      RenderAppend(s.tokens + gap, [Escape(code)]);
      RenderOne(Escape(code));
    }
  }

  lemma RenderNonEmpty(ts: seq<Token>)
    requires ts != []
    ensures |Render(ts)| > 0
  {
    RenderCons(ts);
    assert |RenderToken(ts[0])| > 0;
  }

  lemma ScanNext(text: Text, i: nat)
    requires i < |text|
    ensures ScanText(text[..i + 1]) == Step(ScanText(text[..i]), text[i])
  {
    assert text[..i + 1][..i] == text[..i];
  }

  lemma RenderEmpty()
    ensures Render([]) == ""
  {
  }

  /** RenderStep with the tokens written out. */
  lemma AppendIsStep(s: Scan, code: CodePoint)
    ensures var gap := if s.separator && s.tokens != [] then "-" else "";
            Render(Step(s, code).tokens) ==
              if Alnum(code) then (Render(s.tokens) + gap) + [code as char]
              else if code > 0x7F then (Render(s.tokens) + gap) + ("u--" + Hex(code) + "--")
              else Render(s.tokens)
  {
    RenderStep(s, code);
    hide Render;
  }

  /** One iteration of the loop. */
  method AppendCode(slug: string, separator: bool, code: CodePoint, ghost before: Scan)
      returns (slug': string, separator': bool)
    requires slug == Render(before.tokens) && separator == before.separator
    ensures slug' == Render(Step(before, code).tokens) && separator' == Step(before, code).separator
  {
    hide Render, Hex, RenderToken;
    RenderEmpty();
    if before.tokens != [] { RenderNonEmpty(before.tokens); }
    AppendIsStep(before, code);
    slug' := slug;
    if Alnum(code) {
      if separator && |slug| > 0 { slug' := slug' + "-"; }
      slug' := slug' + [code as char];
      separator' := false;
    } else if code > 0x7F {
      if separator && |slug| > 0 { slug' := slug' + "-"; }
      slug' := slug' + ("u--" + Hex(code) + "--");
      separator' := false;
    } else {
      separator' := true;
    }
  }

  method HeadingSlug(text: Text) returns (slug: string)
    ensures slug == SlugOf(text) && |slug| > 0
  {
    assert Render([]) == "" && ScanText([]) == Scan([], false);
    assert text[..0] == [];
    if TokensOf(text) != [] { RenderNonEmpty(TokensOf(text)); }
    hide Render, ScanText;
    slug := "";
    var separator := false;
    for i := 0 to |text|
      invariant separator == ScanText(text[..i]).separator
      invariant slug == Render(ScanText(text[..i]).tokens)
    {
      ScanNext(text, i);
      slug, separator := AppendCode(slug, separator, text[i], ScanText(text[..i]));
    }
    assert text[..|text|] == text;
    if slug == "" { slug := "heading"; }
  }

  // ----- decoding -----

  function HexRun(s: string, from: nat): (k: nat)
    requires from <= |s|
    ensures from <= k <= |s| && (forall i | from <= i < k :: s[i] != '-') && (k < |s| ==> s[k] == '-')
    decreases |s| - from
  {
    if from < |s| && s[from] != '-' then HexRun(s, from + 1) else from
  }

  /** The left-to-right decoder; what it gives on strings that are no rendering does not matter. */
  function DecodeSlug(s: string): seq<Token>
    decreases |s|
  {
    if s == "" then []
    else if "u--" <= s then
      var k := HexRun(s, 3);
      var code := ParseHex(s[3..k]);
      if code < 0x11_0000 && k + 2 <= |s| then [Escape(code)] + DecodeSlug(s[k + 2..]) else []
    else if s[0] == '-' then [Gap] + DecodeSlug(s[1..])
    else [Letter(s[0])] + DecodeSlug(s[1..])
  }

  /** Gaps never touch each other and never end a token list; letters are letters. */
  ghost predicate WellFormed(ts: seq<Token>) {
    && (forall i | 0 <= i < |ts| && ts[i].Gap? :: i + 1 < |ts| && !ts[i + 1].Gap?)
    && (forall i | 0 <= i < |ts| && ts[i].Letter? :: AlnumChar(ts[i].c))
    && (forall i | 0 <= i < |ts| && ts[i].Escape? :: ts[i].code > 0x7F)
  }

  lemma {:induction false} ScanWellFormed(text: Text)
    ensures WellFormed(TokensOf(text))
  {
    if text != [] {
      ScanWellFormed(text[..|text| - 1]);
    }
  }

  lemma RenderStart(ts: seq<Token>)
    requires WellFormed(ts) && ts != []
    ensures |Render(ts)| > 0
    ensures !ts[0].Gap? ==> Render(ts)[0] != '-'
  {
    RenderCons(ts);
  }

  lemma WellFormedTail(ts: seq<Token>)
    requires WellFormed(ts) && ts != []
    ensures WellFormed(ts[1..])
  {
    forall i | 0 <= i < |ts[1..]| && ts[1..][i].Gap? ensures i + 1 < |ts[1..]| && !ts[1..][i + 1].Gap? {
      assert ts[i + 1].Gap?;
    }
  }

  /** A rendering never continues a plain letter with two hyphens, so "u--" always opens an escape. */
  lemma NoDoubleHyphenAhead(ts: seq<Token>)
    requires WellFormed(ts)
    ensures !("--" <= Render(ts))
  {
    if ts != [] {
      var s := Render(ts);
      RenderCons(ts);
      if ts[0].Gap? {
        WellFormedTail(ts);
        RenderStart(ts[1..]);
        assert s == "-" + Render(ts[1..]) && s[1] == Render(ts[1..])[0];
      } else {
        RenderStart(ts);
      }
    }
  }

  lemma HexRunStops(hex: string, rest: string)
    requires forall i | 0 <= i < |hex| :: hex[i] != '-'
    ensures HexRun("u--" + hex + "--" + rest, 3) == 3 + |hex|
  {
    var s := "u--" + hex + "--" + rest;
    assert forall i | 3 <= i < 3 + |hex| :: s[i] == hex[i - 3];
    assert s[3 + |hex|] == '-';
  }

  lemma {:induction false} DecodeRender(ts: seq<Token>)
    requires WellFormed(ts)
    ensures DecodeSlug(Render(ts)) == ts
    decreases |ts|
  {
    if ts != [] {
      var s, rest := Render(ts), Render(ts[1..]);
      RenderCons(ts);
      WellFormedTail(ts);
      DecodeRender(ts[1..]);
      NoDoubleHyphenAhead(ts[1..]);
      assert ts == [ts[0]] + ts[1..];
      match ts[0]
      case Gap =>
        assert s[0] == '-' && s[1..] == rest;
      case Letter(c) =>
        assert s[0] == c && s[1..] == rest;
        assert "u--" <= s ==> "--" <= rest;
      case Escape(code) =>
        DecodeEscape(code, rest);
    }
  }

  lemma DecodeEscape(code: CodePoint, rest: string)
    ensures DecodeSlug(RenderToken(Escape(code)) + rest) == [Escape(code)] + DecodeSlug(rest)
  {
    var hex := Hex(code);
    var s := "u--" + hex + "--" + rest;
    HexRunStops(hex, rest);
    ParseHexOfHex(code);
    assert s[3..3 + |hex|] == hex && s[3 + |hex| + 2..] == rest;
    assert "u--" <= s;
  }

  /** The slug determines the tokens, apart from the default for empty ones. */
  lemma SlugDecodable(a: Text, b: Text)
    requires TokensOf(a) != [] && TokensOf(b) != [] && SlugOf(a) == SlugOf(b)
    ensures TokensOf(a) == TokensOf(b)
  {
    ScanWellFormed(a);
    ScanWellFormed(b);
    DecodeRender(TokensOf(a));
    DecodeRender(TokensOf(b));
  }

  /** Two texts share a slug exactly when their tokens agree, or one has no token and the other
      spells the default. */
  lemma SlugsEqualExactly(a: Text, b: Text)
    ensures SlugOf(a) == SlugOf(b) <==>
      || TokensOf(a) == TokensOf(b)
      || (TokensOf(a) == [] && Render(TokensOf(b)) == "heading")
      || (TokensOf(b) == [] && Render(TokensOf(a)) == "heading")
  {
    if TokensOf(a) != [] && TokensOf(b) != [] {
      if SlugOf(a) == SlugOf(b) {
        SlugDecodable(a, b);
      }
      assert Render([]) == "";
    }
  }

  // ----- what the tokens say about the text -----

  function Kept(text: Text): seq<Token> {
    if text == [] then []
    else
      var code := text[|text| - 1];
      Kept(text[..|text| - 1]) +
        (if Alnum(code) then [Letter(code as char)] else if code > 0x7F then [Escape(code)] else [])
  }

  function NoGaps(ts: seq<Token>): seq<Token> {
    if ts == [] then []
    else NoGaps(ts[..|ts| - 1]) + (if ts[|ts| - 1].Gap? then [] else [ts[|ts| - 1]])
  }

  lemma NoGapsAppend(ts: seq<Token>, t: Token)
    ensures NoGaps(ts + [t]) == NoGaps(ts) + (if t.Gap? then [] else [t])
  {
    assert (ts + [t])[..|ts|] == ts;
  }

  lemma KeptOne(code: CodePoint)
    ensures Kept([code]) == if Alnum(code) then [Letter(code as char)] else if code > 0x7F then [Escape(code)] else []
  {
    assert Kept([code][..0]) == [];
  }

  lemma NoGapsStep(s: Scan, code: CodePoint)
    ensures NoGaps(Step(s, code).tokens) == NoGaps(s.tokens) + Kept([code])
  {
    hide NoGaps, Kept;
    KeptOne(code);
    var gap := if s.separator && s.tokens != [] then [Gap] else [];
    if Alnum(code) || code > 0x7F {
      var t := if Alnum(code) then Letter(code as char) else Escape(code);
      assert Step(s, code).tokens == (s.tokens + gap) + [t];
      NoGapsAppend(s.tokens + gap, t);
      if gap == [Gap] {
        NoGapsAppend(s.tokens, Gap);
      } else {
        assert s.tokens + gap == s.tokens;
      }
    }
  }

  /** Forgetting gaps, the tokens are exactly the kept characters, in order. */
  lemma {:induction false} TokensAreKept(text: Text)
    ensures NoGaps(TokensOf(text)) == Kept(text)
  {
    if text != [] {
      TokensAreKept(text[..|text| - 1]);
      NoGapsStep(ScanText(text[..|text| - 1]), text[|text| - 1]);
      assert [text[|text| - 1]][..0] == [];
    }
  }

  predicate Ascii(text: Text) { forall i | 0 <= i < |text| :: text[i] <= 0x7F }

  lemma {:induction false} AsciiHasNoEscape(text: Text)
    ensures Ascii(text) <==> forall i | 0 <= i < |TokensOf(text)| :: !TokensOf(text)[i].Escape?
  {
    if text != [] {
      var last := |text| - 1;
      AsciiHasNoEscape(text[..last]);
      var before, after := TokensOf(text[..last]), TokensOf(text);
      assert forall i | 0 <= i < |before| :: after[i] == before[i];
      if text[last] > 0x7F {
        assert after[|after| - 1].Escape?;
      } else {
        assert Ascii(text) <==> Ascii(text[..last]);
        assert forall i | |before| <= i < |after| :: !after[i].Escape?;
      }
    }
  }

  /** An all-ASCII heading never shares a slug with one that has a non-ASCII code point. */
  lemma AsciiNeverCollides(a: Text, b: Text)
    requires Ascii(a) && !Ascii(b)
    ensures SlugOf(a) != SlugOf(b)
  {
    AsciiHasNoEscape(a);
    AsciiHasNoEscape(b);
    if SlugOf(a) == SlugOf(b) {
      var i :| 0 <= i < |TokensOf(b)| && TokensOf(b)[i].Escape?;
      if TokensOf(a) == [] {
        EscapeShowsHyphen(TokensOf(b), i);
      } else {
        SlugDecodable(a, b);
      }
    }
  }

  /** A rendered escape shows a hyphen, which the default slug does not have. */
  lemma {:induction false} EscapeShowsHyphen(ts: seq<Token>, i: nat)
    requires i < |ts| && ts[i].Escape?
    ensures '-' in Render(ts)
    decreases i
  {
    RenderCons(ts);
    if i == 0 {
      assert RenderToken(ts[0])[1] == '-';
    } else {
      EscapeShowsHyphen(ts[1..], i - 1);
    }
  }
}
