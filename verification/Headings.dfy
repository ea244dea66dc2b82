/** Fence-aware ATX headings of artifact-text-index.ts. The Unicode normalisation of heading
    text is the parameter `norm`. */
module Headings {
  import opened Hashing
  import opened Utf8
  import opened Lines
  import opened Slug
  import opened HeadingIds

  const MAX_HEADING_LEVEL := 6
  const MAX_HEADING_TEXT_CHARS := 512
  const SPACE: CodePoint := 0x20
  const TAB: CodePoint := 0x09
  const HASH: CodePoint := 0x23
  const BACKTICK: CodePoint := 0x60
  const TILDE: CodePoint := 0x7E

  type Normalizer = Text -> Text

  datatype Heading = Heading(
    headingId: string, level: int, rawText: Text, normalizedText: Text, lineNumber: int, byteStart: int,
      byteLength: int)
  datatype Fence = Fence(marker: CodePoint, length: nat)
  datatype Atx = NotAtx | AtxTooLong | Atx(level: nat, rawText: Text)
  datatype HeadingError = HeadingTextTooLong | TooManyHeadings

  // ----- line syntax -----

  /** End of the maximal run of `c` from `from`, but not past `limit`. */
  function RunEnd(t: Text, from: nat, c: CodePoint, limit: nat): (end: nat)
    requires from <= |t|
    ensures from <= end <= |t| && (forall i | from <= i < end :: t[i] == c)
    ensures (end < |t| && end < limit ==> t[end] != c) && (from <= limit ==> end <= limit)
    decreases |t| - from
  {
    if from < |t| && from < limit && t[from] == c then RunEnd(t, from + 1, c, limit) else from
  }

  method CountRun(t: Text, from: nat, c: CodePoint, limit: nat) returns (end: nat)
    requires from <= |t|
    ensures end == RunEnd(t, from, c, limit)
  {
    end := from;
    while end < |t| && end < limit && t[end] == c
      invariant from <= end <= |t| && RunEnd(t, end, c, limit) == RunEnd(t, from, c, limit)
    {
      end := end + 1;
    }
  }

  function Indent(t: Text): nat { RunEnd(t, 0, SPACE, |t|) }

  /** At most three spaces, then three or more backticks or tildes. */
  function FenceOf(t: Text): Option<Fence> {
    var i := Indent(t);
    if i > 3 || i == |t| || (t[i] != BACKTICK && t[i] != TILDE) then None
    else
      var end := RunEnd(t, i, t[i], |t|);
      if end - i >= 3 then Some(Fence(t[i], end - i)) else None
  }

  method ParseFence(t: Text) returns (f: Option<Fence>)
    ensures f == FenceOf(t)
  {
    var indent := CountRun(t, 0, SPACE, |t|);
    if indent > 3 || indent == |t| { return None; }
    var marker := t[indent];
    if marker != BACKTICK && marker != TILDE { return None; }
    var end := CountRun(t, indent, marker, |t|);
    return if end - indent >= 3 then Some(Fence(marker, end - indent)) else None;
  }

  /** A run of the opening marker at least as long, with only blanks after it. */
  predicate Closes(t: Text, f: Fence) {
    var i := Indent(t);
    && i <= 3 && i < |t| && t[i] == f.marker
    && var end := RunEnd(t, i, f.marker, |t|);
       end - i >= f.length && forall k | end <= k < |t| :: t[k] == SPACE || t[k] == TAB
  }

  method IsClosingFence(t: Text, f: Fence) returns (b: bool)
    ensures b == Closes(t, f)
  {
    var indent := CountRun(t, 0, SPACE, |t|);
    if indent > 3 || indent == |t| || t[indent] != f.marker { return false; }
    var end := CountRun(t, indent, f.marker, |t|);
    if end - indent < f.length { return false; }
    for offset := end to |t|
      invariant forall k | end <= k < offset :: t[k] == SPACE || t[k] == TAB
    {
      if t[offset] != SPACE && t[offset] != TAB { return false; }
    }
    return true;
  }

  function TrimHashes(t: Text): (r: Text)
    ensures |r| <= |t|
  {
    if t != [] && t[|t| - 1] == HASH then TrimHashes(t[..|t| - 1]) else t
  }

  /** Drops a closing hash run, with the blanks around it, only when blanks precede the run. */
  function StripClosing(raw: Text): (r: Text)
    ensures |r| <= |raw|
  {
    var a := TrimEnd(raw);
    var b := TrimHashes(a);
    if |b| < |a| && b != [] && WhiteSpace(b[|b| - 1]) then TrimEnd(b) else raw
  }

  /** From n on, the text is a run of blanks, a run of hashes and blanks to its end. */
  ghost predicate ClosingAt(raw: Text, n: nat) {
    exists w, g :: ClosingRuns(raw, n, w, g)
  }

  ghost predicate ClosingRuns(raw: Text, n: nat, w: nat, g: nat) {
    && n < w < g <= |raw| && Blank(raw, n, w)
    && (forall k | w <= k < g :: raw[k] == HASH)
    && Blank(raw, g, |raw|)
  }

  ghost predicate Blank(t: Text, i: nat, j: nat) {
    i <= j <= |t| && forall k | i <= k < j :: WhiteSpace(t[k])
  }

  lemma {:induction false} TrimEndShape(t: Text)
    ensures var n := |TrimEnd(t)|;
      n <= |t| && TrimEnd(t) == t[..n] && Blank(t, n, |t|) && (n > 0 ==> !WhiteSpace(t[n - 1]))
  {
    if t != [] && WhiteSpace(t[|t| - 1]) {
      TrimEndShape(t[..|t| - 1]);
      assert forall k | 0 <= k < |t| - 1 :: t[..|t| - 1][k] == t[k];
    }
  }

  lemma {:induction false} TrimHashesShape(t: Text)
    ensures var n := |TrimHashes(t)|;
      && n <= |t| && TrimHashes(t) == t[..n] && (forall k | n <= k < |t| :: t[k] == HASH)
      && (n > 0 ==> t[n - 1] != HASH)
  {
    if t != [] && t[|t| - 1] == HASH {
      TrimHashesShape(t[..|t| - 1]);
      assert forall k | 0 <= k < |t| - 1 :: t[..|t| - 1][k] == t[k];
    }
  }

  /** The three trims of StripClosing find the runs of any closing, and its leftmost start. */
  lemma TrimsFindRuns(raw: Text, n: nat, w: nat, g: nat)
    requires ClosingRuns(raw, n, w, g)
    ensures var a := TrimEnd(raw);
      var b := TrimHashes(a);
      |a| == g && b == raw[..w] && |TrimEnd(b)| <= n && ClosingRuns(raw, |TrimEnd(b)|, w, g)
  {
    var a := TrimEnd(raw);
    var b := TrimHashes(a);
    TrimEndShape(raw);
    TrimHashesShape(a);
    TrimEndShape(b);
    hide TrimEnd, TrimHashes;
    assert raw[g - 1] == HASH && WhiteSpace(raw[w - 1]);
    assert |a| == g;
    assert |b| == w by {
      assert a[w - 1] == raw[w - 1];
    }
  }

  ghost predicate ClosesFirstAt(raw: Text, n: nat) {
    ClosingAt(raw, n) && forall m: nat :: m < n ==> !ClosingAt(raw, m)
  }

  /** StripClosing cuts at the leftmost closing run, which no blank precedes, and keeps a text without one. */
  lemma StripClosingExact(raw: Text)
    ensures (forall n: nat :: !ClosingAt(raw, n)) ==> StripClosing(raw) == raw
    ensures forall n: nat :: ClosesFirstAt(raw, n) ==>
      n < |raw| && StripClosing(raw) == raw[..n] && (n > 0 ==> !WhiteSpace(raw[n - 1]))
  {
    var a := TrimEnd(raw);
    var b := TrimHashes(a);
    TrimEndShape(raw);
    TrimHashesShape(a);
    TrimEndShape(b);
    hide TrimEnd, TrimHashes;
    assert b == raw[..|b|];
    if |b| < |a| && b != [] && WhiteSpace(b[|b| - 1]) {
      assert ClosingRuns(raw, |TrimEnd(b)|, |b|, |a|);
      assert ClosingAt(raw, |TrimEnd(b)|);
    }
    forall n: nat | ClosesFirstAt(raw, n)
      ensures n < |raw| && StripClosing(raw) == raw[..n] && (n > 0 ==> !WhiteSpace(raw[n - 1]))
    {
      var w, g :| ClosingRuns(raw, n, w, g);
      TrimsFindRuns(raw, n, w, g);
      assert ClosingAt(raw, |TrimEnd(b)|);
      assert WhiteSpace(raw[w - 1]);
    }
  }

  function AtxOf(t: Text): (a: Atx)
    ensures a.Atx? ==> 1 <= a.level <= MAX_HEADING_LEVEL && |a.rawText| <= MAX_HEADING_TEXT_CHARS && |t| >= 2
  {
    var i := Indent(t);
    if i > 3 then NotAtx
    else
      var end := RunEnd(t, i, HASH, i + MAX_HEADING_LEVEL + 1);
      if end - i < 1 || end - i > MAX_HEADING_LEVEL || end == |t| || t[end] != SPACE then NotAtx
      else
        var raw := StripClosing(t[end + 1..]);
        if |raw| > MAX_HEADING_TEXT_CHARS then AtxTooLong else Atx(end - i, raw)
  }

  method ParseAtxHeading(t: Text) returns (a: Atx)
    ensures a == AtxOf(t)
  {
    hide StripClosing, RunEnd;
    var indent := CountRun(t, 0, SPACE, |t|);
    if indent > 3 { return NotAtx; }
    var markerEnd := CountRun(t, indent, HASH, indent + MAX_HEADING_LEVEL + 1);
    var level := markerEnd - indent;
    if level < 1 || level > MAX_HEADING_LEVEL || markerEnd == |t| || t[markerEnd] != SPACE { return NotAtx; }
    var rawText := StripClosing(t[markerEnd + 1..]);
    if |rawText| > MAX_HEADING_TEXT_CHARS { return AtxTooLong; }
    return Atx(level, rawText);
  }

  // ----- the scan over lines -----

  datatype ScanState = ScanState(fence: Option<Fence>, headings: seq<Heading>)

  ghost function Ids(hs: seq<Heading>): set<string> { set k | 0 <= k < |hs| :: hs[k].headingId }

  ghost function StepLine(norm: Normalizer, st: ScanState, line: TextLine, t: Text): Result<ScanState, HeadingError> {
    if st.fence.Some? then Ok(if Closes(t, st.fence.value) then st.(fence := None) else st)
    else if FenceOf(t).Some? then Ok(st.(fence := FenceOf(t)))
    else match AtxOf(t)
      case NotAtx => Ok(st)
      case AtxTooLong => Err(HeadingTextTooLong)
      case Atx(level, raw) =>
        var id := IdFor(SlugOf(norm(raw)), Ids(st.headings));
        var hs := st.headings
          + [Heading(id, level, raw, norm(raw), line.lineNumber, line.byteStart, line.contentByteLength)];
        if |hs| > MAX_TEXT_INDEX_HEADINGS then Err(TooManyHeadings) else Ok(st.(headings := hs))
  }

  /** The text of line k, which decodes because the source does. */
  function LineText(s: Bytes, lines: seq<TextLine>, k: nat): Text
    requires Decode(s).Some? && Partition(s, lines) && k < |lines|
  {
    ContentDecodes(s, lines, k);
    Decode(s[lines[k].byteStart..lines[k].ContentEnd()]).value
  }

  ghost function ScanUpTo(norm: Normalizer, s: Bytes, lines: seq<TextLine>, k: nat): Result<ScanState, HeadingError>
    requires Decode(s).Some? && Partition(s, lines) && k <= |lines|
  {
    if k == 0 then Ok(ScanState(None, []))
    else match ScanUpTo(norm, s, lines, k - 1)
      case Err(e) => Err(e)
      case Ok(st) => StepLine(norm, st, lines[k - 1], LineText(s, lines, k - 1))
  }

  lemma {:induction false} ErrorSticks(norm: Normalizer, s: Bytes, lines: seq<TextLine>, j: nat, k: nat)
    requires Decode(s).Some? && Partition(s, lines) && j <= k <= |lines|
    requires ScanUpTo(norm, s, lines, j).Err?
    ensures ScanUpTo(norm, s, lines, k) == ScanUpTo(norm, s, lines, j)
  {
    if j < k {
      ErrorSticks(norm, s, lines, j, k - 1);
    }
  }

  /** Headings of a Markdown source; a plain-text source has none. */
  ghost function HeadingsOf(norm: Normalizer, s: Bytes, lines: seq<TextLine>): Result<seq<Heading>, HeadingError>
    requires Decode(s).Some? && Partition(s, lines)
  {
    match ScanUpTo(norm, s, lines, |lines|)
    case Err(e) => Err(e)
    case Ok(st) => Ok(st.headings)
  }

  method ScanHeadings(norm: Normalizer, s: Bytes, lines: seq<TextLine>) returns (r: Result<seq<Heading>, HeadingError>)
    requires Decode(s).Some? && Partition(s, lines)
    ensures r == HeadingsOf(norm, s, lines)
  {
    var headings: seq<Heading> := [];
    var ids: set<string> := {};
    var fence: Option<Fence> := None;
    for k := 0 to |lines|
      invariant ScanUpTo(norm, s, lines, k) == Ok(ScanState(fence, headings))
      invariant ids == Ids(headings)
    {
      var text := LineText(s, lines, k);
      var error;
      error, fence, headings, ids := ScanLine(norm, fence, headings, ids, lines[k], text);
      if error.Some? {
        ErrorSticks(norm, s, lines, k + 1, |lines|);
        return Err(error.value);
      }
    }
    return Ok(headings);
  }

  /** The loop body. */
  method ScanLine(norm: Normalizer, fence: Option<Fence>, headings: seq<Heading>, ids: set<string>, line: TextLine,
      text: Text)
    returns (error: Option<HeadingError>, fence': Option<Fence>, headings': seq<Heading>, ids': set<string>)
    requires ids == Ids(headings)
    ensures ids' == Ids(headings')
    ensures StepLine(norm, ScanState(fence, headings), line, text) ==
            match error case Some(e) => Err(e) case None => Ok(ScanState(fence', headings'))
  {
    error, fence', headings', ids' := None, fence, headings, ids;
    var foundFence := ParseFence(text);
    if fence.Some? {
      var closes := IsClosingFence(text, fence.value);
      if closes { fence' := None; }
      return;
    }
    if foundFence.Some? {
      fence' := foundFence;
      return;
    }
    var parsed := ParseAtxHeading(text);
    if parsed.AtxTooLong? {
      error := Some(HeadingTextTooLong);
    } else if parsed.Atx? {
      var normalized := norm(parsed.rawText);
      var id;
      id, ids' := AssignId(normalized, ids);
      var heading := Heading(id, parsed.level, parsed.rawText, normalized, line.lineNumber, line.byteStart,
        line.contentByteLength);
      headings' := headings + [heading];
      IdsAppend(headings, heading);
      if |headings'| > MAX_TEXT_INDEX_HEADINGS {
        error := Some(TooManyHeadings);
      }
    }
  }

  method AssignId(normalized: Text, ids: set<string>) returns (id: string, ids': set<string>)
    ensures id == IdFor(SlugOf(normalized), ids) && ids' == ids + {id}
  {
    var slug := HeadingSlug(normalized);
    ghost var n;
    id, ids', n := NextHeadingId(slug, ids);
    IdForIsFirstFree(slug, ids, n);
  }

  lemma IdsAppend(hs: seq<Heading>, x: Heading)
    ensures Ids(hs + [x]) == Ids(hs) + {x.headingId}
  {
    var all := hs + [x];
    assert all[|hs|] == x;
    forall id | id in Ids(hs) ensures id in Ids(all) {
      var k :| 0 <= k < |hs| && hs[k].headingId == id;
      assert all[k].headingId == id;
    }
  }

  // ----- theorems -----

  /** The fence in force after k lines, on its own. */
  ghost function FenceAfter(s: Bytes, lines: seq<TextLine>, k: nat): Option<Fence>
    requires Decode(s).Some? && Partition(s, lines) && k <= |lines|
  {
    if k == 0 then None
    else
      var f, t := FenceAfter(s, lines, k - 1), LineText(s, lines, k - 1);
      if f.Some? then (if Closes(t, f.value) then None else f) else FenceOf(t)
  }

  /** Outside every fence, opening none, and an ATX heading. */
  ghost predicate HeadingLine(s: Bytes, lines: seq<TextLine>, k: nat)
    requires Decode(s).Some? && Partition(s, lines) && k < |lines|
  {
    var t := LineText(s, lines, k);
    FenceAfter(s, lines, k).None? && FenceOf(t).None? && AtxOf(t).Atx?
  }

  /** The record line k deserves, identifier left blank. */
  ghost function BodyAt(norm: Normalizer, s: Bytes, lines: seq<TextLine>, k: nat): (body: seq<Heading>)
    requires Decode(s).Some? && Partition(s, lines) && k < |lines|
    ensures |body| == if HeadingLine(s, lines, k) then 1 else 0
  {
    if HeadingLine(s, lines, k) then
      var a, l := AtxOf(LineText(s, lines, k)), lines[k];
      [Heading("", a.level, a.rawText, norm(a.rawText), l.lineNumber, l.byteStart, l.contentByteLength)]
    else []
  }

  /** One record per heading line, in source order. */
  ghost function Expected(norm: Normalizer, s: Bytes, lines: seq<TextLine>, k: nat): seq<Heading>
    requires Decode(s).Some? && Partition(s, lines) && k <= |lines|
  {
    if k == 0 then [] else Expected(norm, s, lines, k - 1) + BodyAt(norm, s, lines, k - 1)
  }

  ghost function Unnamed(hs: seq<Heading>): seq<Heading> {
    seq(|hs|, i requires 0 <= i < |hs| => hs[i].(headingId := ""))
  }

  /** Identifiers are pairwise distinct and accepted by the contract schema. */
  ghost predicate IdsOk(hs: seq<Heading>) {
    && |hs| <= MAX_TEXT_INDEX_HEADINGS
    && (forall i | 0 <= i < |hs| :: HeadingIdOk(hs[i].headingId))
    && (forall i, j | 0 <= i < j < |hs| :: hs[i].headingId != hs[j].headingId)
  }

  lemma IdsSize(hs: seq<Heading>)
    ensures |Ids(hs)| <= |hs|
  {
    if hs == [] {
      assert Ids(hs) == {};
    } else {
      var last := |hs| - 1;
      IdsSize(hs[..last]);
      IdsAppend(hs[..last], hs[last]);
      assert hs == hs[..last] + [hs[last]];
    }
  }

  /** A freshly assigned identifier is new and acceptable. */
  lemma FreshId(normalized: Text, hs: seq<Heading>)
    requires |hs| <= MAX_TEXT_INDEX_HEADINGS
    ensures var id := IdFor(SlugOf(normalized), Ids(hs));
            HeadingIdOk(id) && forall i | 0 <= i < |hs| :: hs[i].headingId != id
  {
    IdsSize(hs);
    SlugHasShape(normalized);
    IdForAccepted(SlugOf(normalized), Ids(hs));
    forall i | 0 <= i < |hs| ensures hs[i].headingId in Ids(hs) {
    }
  }

  lemma IdsOkGrows(hs: seq<Heading>, x: Heading)
    requires IdsOk(hs) && |hs| < MAX_TEXT_INDEX_HEADINGS && x.headingId == IdFor(SlugOf(x.normalizedText), Ids(hs))
    ensures IdsOk(hs + [x]) && Unnamed(hs + [x]) == Unnamed(hs) + [x.(headingId := "")]
  {
    FreshId(x.normalizedText, hs);
    var all := hs + [x];
    forall i, j | 0 <= i < j < |all| ensures all[i].headingId != all[j].headingId {
      assert all[i] == hs[i];
      assert j < |hs| ==> all[j] == hs[j];
    }
  }

  lemma SoundStep(norm: Normalizer, s: Bytes, lines: seq<TextLine>, k: nat, st: ScanState, st': ScanState)
    requires Decode(s).Some? && Partition(s, lines) && k < |lines|
    requires st.fence == FenceAfter(s, lines, k) && IdsOk(st.headings)
    requires StepLine(norm, st, lines[k], LineText(s, lines, k)) == Ok(st')
    ensures st'.fence == FenceAfter(s, lines, k + 1) && IdsOk(st'.headings)
    ensures Unnamed(st'.headings) == Unnamed(st.headings) + BodyAt(norm, s, lines, k)
  {
    if HeadingLine(s, lines, k) {
      var x := st'.headings[|st.headings|];
      assert st'.headings == st.headings + [x];
      IdsOkGrows(st.headings, x);
    } else {
      assert st'.headings == st.headings;
    }
  }

  /** Every index: identifiers are pairwise distinct and accepted by the contract, and apart from
      them the headings are exactly the ATX lines outside fences, in order. */
  lemma {:induction false} HeadingsSound(norm: Normalizer, s: Bytes, lines: seq<TextLine>, k: nat)
    requires Decode(s).Some? && Partition(s, lines) && k <= |lines|
    requires ScanUpTo(norm, s, lines, k).Ok?
    ensures var st := ScanUpTo(norm, s, lines, k).value;
            && st.fence == FenceAfter(s, lines, k) && IdsOk(st.headings)
            && Unnamed(st.headings) == Expected(norm, s, lines, k)
  {
    if k > 0 {
      HeadingsSound(norm, s, lines, k - 1);
      SoundStep(norm, s, lines, k - 1, ScanUpTo(norm, s, lines, k - 1).value, ScanUpTo(norm, s, lines, k).value);
    }
  }
}
