/** The byte and text formats the program writes, against their published tables. */
module Formats {
  import opened Hashing
  import opened Json
  import Base64
  import CanonicalJson
  import Containment
  import Evidence
  import ModelText
  import Slug
  import Utf8

  // ----- UTF-8: sections 3 and 4 of RFC 3629 -----

  /** The bytes of one code point: how many, their ranges and, read back, their value. */
  predicate Spells(e: seq<int>, c: int) {
    && (forall k :: 1 <= k < |e| ==> 0x80 <= e[k] <= 0xBF)
    && if c <= 0x7F then |e| == 1 && e[0] == c
       else if c <= 0x7FF then |e| == 2 && 0xC2 <= e[0] <= 0xDF && c == (e[0] - 0xC0) * 0x40 + (e[1] - 0x80)
       else if c <= 0xFFFF then
         && |e| == 3 && 0xE0 <= e[0] <= 0xEF
         && c == (e[0] - 0xE0) * 0x1000 + (e[1] - 0x80) * 0x40 + (e[2] - 0x80)
       else
         && |e| == 4 && 0xF0 <= e[0] <= 0xF4
         && c == (e[0] - 0xF0) * 0x4_0000 + (e[1] - 0x80) * 0x1000 + (e[2] - 0x80) * 0x40 + (e[3] - 0x80)
  }

  lemma SequenceWritten(c: Utf8.CodePoint)
    ensures Spells(Utf8.EncodeOne(c), c)
  {
  }

  /** No surrogates. */
  predicate Scalars(t: Utf8.Text) { forall k :: 0 <= k < |t| ==> !(0xD800 <= t[k] <= 0xDFFF) }

  lemma HeadIsScalar(s: Bytes)
    requires s != [] && Utf8.DecodeHead(s).Some?
    ensures !(0xD800 <= Utf8.DecodeHead(s).value.0 <= 0xDFFF)
  {
  }

  lemma {:induction false} DecodedIsScalar(s: Bytes)
    requires Utf8.Decode(s).Some?
    ensures Scalars(Utf8.Decode(s).value)
    decreases |s|
  {
    hide Utf8.DecodeHead;
    if s != [] {
      HeadIsScalar(s);
      DecodedIsScalar(s[Utf8.DecodeHead(s).value.1..]);
    }
  }

  /** The fatal decoder gives a text exactly for the encoding of that text, and only texts without
      surrogates have one. */
  lemma DecodeExactly(s: Bytes, t: Utf8.Text)
    ensures Utf8.Decode(s) == Some(t) <==> Scalars(t) && s == Utf8.Encode(t)
  {
    hide Utf8.Decode, Utf8.Encode;
    if Utf8.Decode(s) == Some(t) {
      DecodedIsScalar(s);
      Utf8.EncodeDecode(s);
    }
    if Scalars(t) {
      Utf8.DecodeEncode(t);
    }
  }

  // ----- slugs -----

  /** Neither an ASCII letter or digit in lower case nor a non-ASCII code point. */
  predicate Dropped(c: Utf8.CodePoint) { c <= 0x7F && !(0x61 <= c <= 0x7A) && !(0x30 <= c <= 0x39) }

  lemma SeparatorIs(text: Utf8.Text)
    ensures Slug.ScanText(text).separator <==> text != [] && Dropped(text[|text| - 1])
  {
  }

  /** The slug of a text, one code point at a time: a dropped one leaves no trace of its own, a letter
      or digit stands for itself, any other is escaped, and one hyphen stands for what was dropped
      between two that are kept. */
  lemma SlugGrows(text: Utf8.Text, c: Utf8.CodePoint)
    ensures var before, after := Slug.Render(Slug.TokensOf(text)), Slug.Render(Slug.TokensOf(text + [c]));
      var gap := if before != "" && Dropped(text[|text| - 1]) then "-" else "";
      after == if Dropped(c) then before
        else if c <= 0x7F then before + gap + [c as char] else before + gap + "u--" + Slug.Hex(c) + "--"
  {
    var s := Slug.ScanText(text);
    assert (text + [c])[..|text|] == text;
    SeparatorIs(text);
    Slug.AppendIsStep(s, c);
    Slug.RenderEmpty();
    if s.tokens != [] {
      Slug.RenderNonEmpty(s.tokens);
    }
    hide Slug.Render, Slug.Hex;
    assert Slug.TokensOf(text + [c]) == Slug.Step(s, c).tokens;
    assert Slug.Render([]) == "";
  }

  /** The digits run from 0 to 9 and on from a to f. */
  lemma HexDigitsRun(d: nat)
    requires d < 15
    ensures Slug.HexDigit(0) == '0' && Slug.HexDigit(10) == 'a' && Slug.HexDigit(15) == 'f'
    ensures d != 9 ==> Slug.HexDigit(d + 1) == Slug.HexDigit(d) + 1 as char
  {
  }

  /** A number in hexadecimal, most significant digit first and without leading zeros. */
  lemma {:induction false} HexWritten(n: nat)
    ensures Slug.Hex(n) == (if n < 16 then "" else Slug.Hex(n / 16)) + [Slug.HexDigit(n % 16)]
    ensures n > 0 ==> Slug.Hex(n)[0] != '0'
    decreases n
  {
    if n >= 16 {
      HexWritten(n / 16);
      assert Slug.Hex(n)[0] == Slug.Hex(n / 16)[0];
    }
  }

  // ----- base64: table 1 and section 4 of RFC 4648 -----

  /** The alphabet: A to Z, a to z, 0 to 9, + and /. */
  lemma AlphabetRuns(v: nat)
    requires v < 63
    ensures Base64.Symbol(0) == 'A' && Base64.Symbol(26) == 'a' && Base64.Symbol(52) == '0'
    ensures Base64.Symbol(62) == '+' && Base64.Symbol(63) == '/'
    ensures v !in {25, 51, 61, 62} ==> Base64.Symbol(v + 1) == Base64.Symbol(v) + 1 as char
  {
  }

  /** Four symbols that spell a 24-bit number, most significant first. */
  ghost predicate SpellsQuad(q: string, n: int) {
    exists w: Base64.Sextet, x: Base64.Sextet, y: Base64.Sextet, z: Base64.Sextet ::
      && q == [Base64.Symbol(w), Base64.Symbol(x), Base64.Symbol(y), Base64.Symbol(z)]
      && n == ((w * 64 + x) * 64 + y) * 64 + z
  }

  lemma Quad3Written(a: Byte, b: Byte, c: Byte)
    ensures SpellsQuad(Base64.Quad3(a, b, c), (a * 256 + b) * 256 + c)
  {
    var w, x, y, z := a / 4, a % 4 * 16 + b / 16, b % 16 * 4 + c / 64, c % 64;
    hide Base64.Symbol;
    assert Base64.Quad3(a, b, c) == [Base64.Symbol(w), Base64.Symbol(x), Base64.Symbol(y), Base64.Symbol(z)];
    assert (a * 256 + b) * 256 + c == ((w * 64 + x) * 64 + y) * 64 + z;
  }

  /** Shorter tails are filled with zero bits, and the symbols that hold only filling are '='. */
  lemma TailsWritten(a: Byte, b: Byte)
    ensures Base64.Quad2(a, b)[..3] == Base64.Quad3(a, b, 0)[..3] && Base64.Quad2(a, b)[3..] == "="
    ensures Base64.Quad1(a)[..2] == Base64.Quad3(a, 0, 0)[..2] && Base64.Quad1(a)[2..] == "=="
  {
  }

  /** The group for the first bytes of a tail. */
  function GroupOf(b: Bytes): string
    requires b != []
  {
    if |b| >= 3 then Base64.Quad3(b[0], b[1], b[2]) else if |b| == 2 then Base64.Quad2(b[0], b[1])
    else Base64.Quad1(b[0])
  }

  lemma EncodeHead(b: Bytes)
    requires b != []
    ensures |Base64.Encode(b)| >= 4 && Base64.Encode(b)[..4] == GroupOf(b)
    ensures |b| >= 3 ==> Base64.Encode(b)[4..] == Base64.Encode(b[3..])
  {
    hide Base64.Symbol;
  }

  /** Every three bytes become four symbols, in order. */
  lemma {:induction false} EncodeWritten(b: Bytes, k: nat)
    requires 3 * k < |b|
    ensures |Base64.Encode(b)| >= 4 * k + 4 && Base64.Encode(b)[4 * k..4 * k + 4] == GroupOf(b[3 * k..])
    decreases k
  {
    hide Base64.Encode, GroupOf;
    EncodeHead(b);
    if k == 0 {
      assert b[3 * k..] == b;
    } else {
      var s, t := Base64.Encode(b), Base64.Encode(b[3..]);
      EncodeWritten(b[3..], k - 1);
      assert s[4 * k..4 * k + 4] == t[4 * (k - 1)..4 * (k - 1) + 4];
      assert b[3 * k..] == b[3..][3 * (k - 1)..];
    }
  }

  // ----- JSON: section 7 of RFC 8259, and JSON.stringify -----

  /** The seven escapes with a letter or the unit itself. */
  function ShortEscape(c: Unit): Option<Unit> {
    match c
    case 0x08 => Some(0x62)
    case 0x09 => Some(0x74)
    case 0x0A => Some(0x6E)
    case 0x0C => Some(0x66)
    case 0x0D => Some(0x72)
    case 0x22 => Some(0x22)
    case 0x5C => Some(0x5C)
    case _ => None
  }

  /** A lower-case hexadecimal digit and its value. */
  predicate HexPlace(c: int, v: int) { (0 <= v <= 9 && c == 0x30 + v) || (10 <= v <= 15 && c == 0x61 + v - 10) }

  /** A backslash, a "u" and the unit in four hexadecimal digits. */
  ghost predicate LongEscape(e: Units, c: Unit) {
    |e| == 6 && e[0] == 0x5C && e[1] == 0x75 && exists w, x, y, z :: SpellsUnit(e, c, w, x, y, z)
  }

  predicate SpellsUnit(e: Units, c: Unit, w: int, x: int, y: int, z: int)
    requires |e| == 6
  {
    && HexPlace(e[2], w) && HexPlace(e[3], x) && HexPlace(e[4], y) && HexPlace(e[5], z)
    && c == ((w * 16 + x) * 16 + y) * 16 + z
  }

  lemma LongEscapeWritten(c: Unit)
    ensures LongEscape(UnicodeEscape(c), c)
  {
    hide HexPlace;
    HexUnitIs(c / 4096);
    HexUnitIs(c / 256 % 16);
    HexUnitIs(c / 16 % 16);
    HexUnitIs(c % 16);
    hide HexUnit;
    UnitParts(c);
    assert SpellsUnit(UnicodeEscape(c), c, c / 4096, c / 256 % 16, c / 16 % 16, c % 16);
  }

  lemma UnitParts(c: Unit)
    ensures c == ((c / 4096 * 16 + c / 256 % 16) * 16 + c / 16 % 16) * 16 + c % 16
  {
    assert c / 256 == c / 4096 * 16 + c / 256 % 16;
    assert c / 16 == c / 256 * 16 + c / 16 % 16;
  }

  lemma HexUnitIs(d: nat)
    requires d < 16
    ensures HexPlace(HexUnit(d), d)
  {
  }

  /** A unit in a string: its short escape if it has one, the long one for the other controls and for a
      lone surrogate, and otherwise itself. */
  lemma EscapeWritten(c: Unit)
    ensures match ShortEscape(c)
      case Some(e) => EscapeUnit(c) == [0x5C, e]
      case None => if c <= 0x1F || 0xD800 <= c <= 0xDFFF then LongEscape(EscapeUnit(c), c) else EscapeUnit(c) == [c]
  {
    LongEscapeWritten(c);
    hide LongEscape;
  }

  /** Nothing is added between items or members but one comma. */
  lemma {:induction false} ItemsWritten(items: seq<Value>)
    ensures |StringifyItems(items)| == TextSize(items) + if items == [] then 0 else |items| - 1
  {
    if |items| > 1 {
      ItemsWritten(items[1..]);
    } else if |items| == 1 {
      assert items[1..] == [];
    }
  }

  function TextSize(items: seq<Value>): nat {
    if items == [] then 0 else |Stringify(items[0])| + TextSize(items[1..])
  }

  lemma {:induction false} MembersWritten(members: seq<Member>)
    ensures |StringifyMembers(members)| == PairSize(members) + if members == [] then 0 else |members| - 1
  {
    if |members| > 1 {
      MembersWritten(members[1..]);
    } else if |members| == 1 {
      assert members[1..] == [];
    }
  }

  /** A key, a colon and a value. */
  function PairSize(members: seq<Member>): nat {
    if members == [] then 0 else |Quote(members[0].key)| + 1 + |Stringify(members[0].value)| + PairSize(members[1..])
  }

  // ----- the text a model sees -----

  lemma MarkerWritten()
    ensures var text := "SECURITY BOUNDARY:";
      |ModelText.MARKER| == |text| && forall i :: 0 <= i < |text| ==> ModelText.MARKER[i] == text[i] as int
  {
  }

  lemma ConfusingWritten(c: Unit)
    ensures ModelText.Confusing(c) <==> c in {
      0x200B, 0x200C, 0x200D, 0x2028, 0x2029, 0x202A, 0x202B, 0x202C, 0x202D, 0x202E, 0x2066, 0x2067, 0x2068, 0x2069,
      0xFEFF}
  {
  }

  /** Only confusing units change, each by itself into its long escape. */
  lemma ReplacedHead(c: Unit, rest: Units)
    ensures ModelText.ReplaceConfusing([c] + rest)
      == ModelText.ReplaceConfusing([c]) + ModelText.ReplaceConfusing(rest)
  {
    hide ModelText.Confusing, UnicodeEscape;
    assert ([c] + rest)[1..] == rest && [c][1..] == [];
  }

  lemma ReplacedOne(c: Unit)
    ensures var r := ModelText.ReplaceConfusing([c]);
      if ModelText.Confusing(c) then LongEscape(r, c) else r == [c]
  {
    LongEscapeWritten(c);
    hide LongEscape, ModelText.Confusing, UnicodeEscape;
    assert [c][1..] == [] && ModelText.ReplaceConfusing([]) == [];
    assert UnicodeEscape(c) + [] == UnicodeEscape(c) && [c] + [] == [c];
  }

  lemma {:induction false} PlainKept(t: Units)
    requires forall k :: 0 <= k < |t| ==> !ModelText.Confusing(t[k])
    ensures ModelText.ReplaceConfusing(t) == t
  {
    if t != [] {
      PlainKept(t[1..]);
    }
  }

  predicate Occurs(t: Units, m: Units, i: int) { 0 <= i && i + |m| <= |t| && t[i..i + |m|] == m }

  /** A text without the marker and without confusing units is shown as it is. */
  lemma ShownUnchanged(prefix: Units, v: Value)
    requires forall k :: 0 <= k < |Stringify(v)| ==> !ModelText.Confusing(Stringify(v)[k])
    requires forall i :: !Occurs(Stringify(v), ModelText.MARKER, i)
    ensures ModelText.ModelVisible(prefix, v) == prefix + Stringify(v)
  {
    NothingReplaced(Stringify(v), ModelText.MARKER, ModelText.ESCAPED_MARKER);
    PlainKept(Stringify(v));
  }

  lemma {:induction false} NothingReplaced(t: Units, m: Units, e: Units)
    requires m != [] && forall i :: !Occurs(t, m, i)
    ensures ModelText.ReplaceAll(t, m, e) == t
  {
    if t != [] {
      assert m <= t ==> Occurs(t, m, 0);
      forall i
        ensures !Occurs(t[1..], m, i)
      {
        assert Occurs(t[1..], m, i) ==> Occurs(t, m, i + 1);
      }
      NothingReplaced(t[1..], m, e);
    }
  }

  // ----- key order -----

  /** By the first unit that differs, and a proper prefix comes first. */
  predicate ComesBefore(a: Units, b: Units, k: int) {
    && 0 <= k <= |a| && k < |b| && (forall j :: 0 <= j < k ==> a[j] == b[j])
    && (k == |a| || a[k] < b[k])
  }

  lemma ComesBeforeTail(a: Units, b: Units, k: int)
    requires a != [] && b != [] && a[0] == b[0] && 1 <= k
    ensures ComesBefore(a, b, k) <==> ComesBefore(a[1..], b[1..], k - 1)
  {
    if ComesBefore(a[1..], b[1..], k - 1) {
      forall j | 0 <= j < k
        ensures a[j] == b[j]
      {
        assert j > 0 ==> a[1..][j - 1] == b[1..][j - 1];
      }
    }
  }

  lemma {:induction false} LessWritten(a: Units, b: Units)
    ensures CanonicalJson.Less(a, b) <==> exists k :: ComesBefore(a, b, k)
  {
    if b == [] || a == [] || a[0] != b[0] {
      assert CanonicalJson.Less(a, b) ==> ComesBefore(a, b, 0);
    } else {
      LessWritten(a[1..], b[1..]);
      forall k | ComesBefore(a[1..], b[1..], k)
        ensures ComesBefore(a, b, k + 1)
      {
        ComesBeforeTail(a, b, k + 1);
      }
      forall k | ComesBefore(a, b, k)
        ensures ComesBefore(a[1..], b[1..], k - 1)
      {
        ComesBeforeTail(a, b, k);
      }
    }
  }

  ghost predicate KeysAscend(m: Member, n: Member) { exists k :: ComesBefore(m.key, n.key, k) }

  /** The canonical text of an object lists each of its members once, by ascending key. */
  lemma CanonicalOrder(ms: seq<Member>)
    requires CanonicalJson.DistinctKeys(ms)
    ensures var sorted := CanonicalJson.SortByKey(ms);
      && |sorted| == |ms| && (forall m :: m in sorted <==> m in ms)
      && forall i, j :: 0 <= i < j < |sorted| ==> KeysAscend(sorted[i], sorted[j])
  {
    CanonicalJson.SortAscending(ms);
    var sorted := CanonicalJson.SortByKey(ms);
    forall m
      ensures m in sorted <==> m in ms
    {
      CanonicalJson.SortElements(ms, m);
    }
    forall i, j | 0 <= i < j < |sorted|
      ensures KeysAscend(sorted[i], sorted[j])
    {
      LessWritten(sorted[i].key, sorted[j].key);
    }
  }

  // ----- white space and years -----

  /** What is trimmed: the white space and line terminators of ECMAScript. */
  lemma WhiteSpaceWritten(c: Utf8.CodePoint)
    ensures Utf8.WhiteSpace(c) <==> c in {
      0x0009, 0x000A, 0x000B, 0x000C, 0x000D, 0x0020, 0x00A0, 0x1680, 0x2000, 0x2001, 0x2002, 0x2003, 0x2004, 0x2005,
      0x2006, 0x2007, 0x2008, 0x2009, 0x200A, 0x2028, 0x2029, 0x202F, 0x205F, 0x3000, 0xFEFF}
  {
  }

  /** Days of the Gregorian years 0 to n - 1. */
  function DaysBefore(n: nat): nat {
    365 * n + (n + 3) / 4 - (n + 99) / 100 + (n + 399) / 400
  }

  /** The instants that can be recorded are those of the years 0 to 9999, counted from 1970. */
  lemma YearsWritten(ms: int)
    ensures Evidence.FourDigitYear(ms) <==>
      0 <= ms + DaysBefore(1_970) * 86_400_000 < DaysBefore(10_000) * 86_400_000
  {
  }

  // ----- containment diagnostics -----

  /** A decision against writing: each diagnostic names the target and the reader of its pair, lists the
      first 25 members that reader lacks and counts the others, and at most 100 are listed. */
  lemma DiagnosticsWritten(input: Containment.Input) returns (at: seq<Containment.Pair>)
    requires Containment.DecisionOf(input).UnsafeFlows?
    ensures (set p <- at) == Containment.UnsafePairs(input)
    ensures forall k, l :: 0 <= k < l < |at| ==> Containment.Before(at[k], at[l])
    ensures var d := Containment.DecisionOf(input);
      && |d.unsafeFlows| == (if |at| <= 100 then |at| else 100) && d.omittedUnsafeFlowCount == |at| - |d.unsafeFlows|
      && forall k :: 0 <= k < |d.unsafeFlows| ==>
        Containment.IsPair(input, at[k]) && DiagnosticWritten(input, at[k], d.unsafeFlows[k])
  {
    at := Containment.DiagnosticsExact(input);
  }

  predicate DiagnosticWritten(input: Containment.Input, p: Containment.Pair, f: Containment.UnsafeFlow)
    requires Containment.IsPair(input, p)
  {
    var target := input.writableTargets[p.target];
    var lacking := Containment.Missing(input.writer.readClosure, target.readers[p.reader].readClosure);
    var n := if |lacking| <= 25 then |lacking| else 25;
    && f.targetId == target.targetId && f.readerPrincipalId == target.readers[p.reader].principalId
    && f.missingFromReaderClosure == lacking[..n] && f.omittedMissingMemberCount == |lacking| - n
  }
}
