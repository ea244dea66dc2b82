/** The line rules of the heading scan written out, and every field, identifier and error of its result. */
module HeadingExact {
  import opened Hashing
  import opened HeadingIds
  import opened Headings
  import opened Lines
  import opened Slug
  import opened Utf8
  import TextIndex

  // ----- lines -----

  /** A run of n code points c that starts at i, after nothing but spaces, at most three. */
  predicate Opens(t: Text, i: int, n: int, c: CodePoint) {
    && 0 <= i <= 3 && 0 <= n && i + n <= |t|
    && (forall k :: 0 <= k < i ==> t[k] == 0x20)
    && forall k :: i <= k < i + n ==> t[k] == c
  }

  /** One to six hashes and then a space. */
  predicate Marked(t: Text, i: int, n: int) { 1 <= n <= 6 && Opens(t, i, n, 0x23) && i + n < |t| && t[i + n] == 0x20 }

  /** A marked line is a heading of its number of hashes, with the text after the space without its
      closing run, unless that is longer than 512 code points; no other line is. */
  lemma AtxWritten(t: Text)
    ensures forall i, n :: Marked(t, i, n) ==>
      var raw := StripClosing(t[i + n + 1..]);
      AtxOf(t) == if |raw| > 512 then AtxTooLong else Atx(n, raw)
    ensures AtxOf(t) != NotAtx ==> exists i, n :: Marked(t, i, n)
  {
    hide StripClosing;
    var i := Indent(t);
    if i <= 3 {
      var end := RunEnd(t, i, HASH, i + MAX_HEADING_LEVEL + 1);
      assert AtxOf(t) != NotAtx ==> Marked(t, i, end - i);
    }
    forall a, n | Marked(t, a, n)
      ensures a == i && RunEnd(t, i, HASH, i + MAX_HEADING_LEVEL + 1) == i + n
    {
      assert t[a] == HASH;
    }
  }

  /** A run of all its backticks or tildes, at least three. */
  predicate FenceAt(t: Text, i: int, f: Fence) {
    && (f.marker == 0x60 || f.marker == 0x7E) && 3 <= f.length && Opens(t, i, f.length, f.marker)
    && (i + f.length < |t| ==> t[i + f.length] != f.marker)
  }

  lemma FenceWritten(t: Text)
    ensures forall i, f :: FenceAt(t, i, f) ==> FenceOf(t) == Some(f)
    ensures FenceOf(t).Some? ==> exists i :: FenceAt(t, i, FenceOf(t).value)
  {
    var i := Indent(t);
    if FenceOf(t).Some? {
      assert FenceAt(t, i, FenceOf(t).value);
    }
    forall a, f | FenceAt(t, a, f)
      ensures FenceOf(t) == Some(f)
    {
      assert t[a] == f.marker;
      assert i == a;
    }
  }

  /** A run of at least as many of the opening marker, and only spaces and tabs behind it. */
  predicate ClosesAt(t: Text, f: Fence, i: int, n: int) {
    && f.length <= n && Opens(t, i, n, f.marker)
    && forall k :: i + n <= k < |t| ==> t[k] == 0x20 || t[k] == 0x09
  }

  lemma ClosesWritten(t: Text, f: Fence)
    requires 3 <= f.length && (f.marker == 0x60 || f.marker == 0x7E)
    ensures Closes(t, f) <==> exists i, n :: ClosesAt(t, f, i, n)
  {
    var i := Indent(t);
    if Closes(t, f) {
      assert ClosesAt(t, f, i, RunEnd(t, i, f.marker, |t|) - i);
    }
    forall a, n | ClosesAt(t, f, a, n)
      ensures Closes(t, f)
    {
      assert t[a] == f.marker;
      assert i == a;
      var end := RunEnd(t, i, f.marker, |t|);
      assert end >= a + n;
    }
  }

  // ----- records -----

  /** Heading y comes from line j: a line with its text, outside every fence, and every field but the
      identifier. */
  ghost predicate FromLine(norm: Normalizer, s: Bytes, lines: seq<TextLine>, y: Heading, j: int, t: Text, a: int)
    requires Decode(s).Some? && Partition(s, lines)
  {
    && 0 <= j < |lines| && FenceAfter(s, lines, j).None? && FenceOf(t).None?
    && 0 <= lines[j].byteStart <= lines[j].byteStart + lines[j].contentByteLength <= |s|
    && Decode(s[lines[j].byteStart..lines[j].byteStart + lines[j].contentByteLength]) == Some(t)
    && Marked(t, a, y.level) && y.rawText == StripClosing(t[a + y.level + 1..]) && |y.rawText| <= 512
    && y.normalizedText == norm(y.rawText) && y.lineNumber == j + 1
    && y.byteStart == lines[j].byteStart && y.byteLength == lines[j].contentByteLength
  }

  lemma LineTextIs(s: Bytes, lines: seq<TextLine>, j: nat)
    requires Decode(s).Some? && Partition(s, lines) && j < |lines|
    ensures lines[j].lineNumber == j + 1
    ensures 0 <= lines[j].byteStart <= lines[j].byteStart + lines[j].contentByteLength <= |s|
    ensures Decode(s[lines[j].byteStart..lines[j].byteStart + lines[j].contentByteLength])
      == Some(LineText(s, lines, j))
  {
    hide Decode;
    RecordAt(s, lines, j);
    ContentDecodes(s, lines, j);
  }

  lemma HeadingWritten(norm: Normalizer, s: Bytes, lines: seq<TextLine>, headings: seq<Heading>, i: nat)
      returns (j: int, t: Text, a: int)
    requires Decode(s).Some? && Partition(s, lines) && HeadingsOf(norm, s, lines) == Ok(headings) && i < |headings|
    ensures FromLine(norm, s, lines, headings[i], j, t, a)
  {
    hide Decode, Partition, BodyAt, FromLine;
    HeadingsSound(norm, s, lines, |lines|);
    assert Unnamed(headings)[i] == Expected(norm, s, lines, |lines|)[i];
    j := TextIndex.ExpectedFrom(norm, s, lines, |lines|, i);
    t, a := BodyWritten(norm, s, lines, headings[i], j);
  }

  lemma BodyWritten(norm: Normalizer, s: Bytes, lines: seq<TextLine>, y: Heading, j: nat) returns (t: Text, a: int)
    requires Decode(s).Some? && Partition(s, lines) && j < |lines| && BodyAt(norm, s, lines, j) == [y.(headingId := "")]
    ensures FromLine(norm, s, lines, y, j, t, a)
  {
    hide Decode, Partition, StripClosing, AtxOf, FenceOf, LineText, FenceAfter, Opens;
    LineTextIs(s, lines, j);
    t := LineText(s, lines, j);
    assert y.(headingId := "") == BodyAt(norm, s, lines, j)[0];
    AtxWritten(t);
    var b, n :| Marked(t, b, n);
    a := b;
  }

  // ----- identifiers -----

  /** Every identifier is the first candidate for its slug that no earlier heading has. */
  lemma {:induction false} IdsNamed(norm: Normalizer, s: Bytes, lines: seq<TextLine>, k: nat)
    requires Decode(s).Some? && Partition(s, lines) && k <= |lines| && ScanUpTo(norm, s, lines, k).Ok?
    ensures var hs := ScanUpTo(norm, s, lines, k).value.headings;
      forall i :: 0 <= i < |hs| ==> hs[i].headingId == IdFor(SlugOf(hs[i].normalizedText), Ids(hs[..i]))
  {
    hide Decode, Partition, AtxOf, FenceOf, Closes, IdFor, SlugOf, Ids;
    if k > 0 {
      IdsNamed(norm, s, lines, k - 1);
      var before, after := ScanUpTo(norm, s, lines, k - 1).value.headings, ScanUpTo(norm, s, lines, k).value.headings;
      forall i | 0 <= i < |after|
        ensures after[i].headingId == IdFor(SlugOf(after[i].normalizedText), Ids(after[..i]))
      {
        if i < |before| {
          assert after[i] == before[i] && after[..i] == before[..i];
        } else {
          assert after[..i] == before;
        }
      }
    }
  }

  /** The identifier with suffix number n for a slug: cut so that both fit 128 characters. */
  predicate Numbered(id: string, slug: string, n: int) {
    if n == 1 then id == if |slug| <= 128 then slug else slug[..128]
    else
      && 2 <= n
      && var suffix := "-" + Decimal(n);
      && |suffix| <= 128
      && id == (if |slug| <= 128 - |suffix| then slug else slug[..128 - |suffix|]) + suffix
  }

  predicate Taken(hs: seq<Heading>, id: string) { exists i :: 0 <= i < |hs| && hs[i].headingId == id }

  /** The identifier of a heading has the least number whose identifier no earlier heading has. */
  lemma IdWritten(norm: Normalizer, s: Bytes, lines: seq<TextLine>, headings: seq<Heading>, i: nat) returns (n: nat)
    requires Decode(s).Some? && Partition(s, lines) && HeadingsOf(norm, s, lines) == Ok(headings) && i < |headings|
    ensures var slug := SlugOf(headings[i].normalizedText);
      && 1 <= n <= i + 2 && Numbered(headings[i].headingId, slug, n) && !Taken(headings[..i], headings[i].headingId)
      && forall m, id :: 1 <= m < n && Numbered(id, slug, m) ==> Taken(headings[..i], id)
  {
    hide Decode, Partition, SlugOf, ScanUpTo;
    HeadingsSound(norm, s, lines, |lines|);
    IdsNamed(norm, s, lines, |lines|);
    var slug, used := SlugOf(headings[i].normalizedText), Ids(headings[..i]);
    n := SuffixFor(slug, used);
    IdsSize(headings[..i]);
    NumberedIs(slug, n);
    forall m, id | 1 <= m < n && Numbered(id, slug, m)
      ensures Taken(headings[..i], id)
    {
      NumberedIs(slug, m);
      assert Candidate(slug, m) in used;
    }
  }

  lemma NumberedIs(slug: string, n: nat)
    requires 1 <= n <= 1_002
    ensures forall id :: Numbered(id, slug, n) <==> id == Candidate(slug, n)
  {
    assert Pow10(4) == 10_000;
    DecimalLength(n, 4);
  }

  // ----- errors -----

  /** A heading line outside every fence whose text is too long. */
  ghost predicate TooLong(s: Bytes, lines: seq<TextLine>, j: int)
    requires Decode(s).Some? && Partition(s, lines)
  {
    && 0 <= j < |lines| && FenceAfter(s, lines, j).None?
    && FenceOf(LineText(s, lines, j)).None? && AtxOf(LineText(s, lines, j)).AtxTooLong?
  }

  lemma FailsStep(norm: Normalizer, s: Bytes, lines: seq<TextLine>, k: nat)
    requires Decode(s).Some? && Partition(s, lines) && k < |lines| && ScanUpTo(norm, s, lines, k).Ok?
    requires forall j :: 0 <= j < k ==> !TooLong(s, lines, j)
    ensures match ScanUpTo(norm, s, lines, k + 1)
      case Ok(_) => !TooLong(s, lines, k) && |Expected(norm, s, lines, k + 1)| <= 1_000
      case Err(e) => FailsAt(norm, s, lines, e, k)
  {
    hide Decode, Partition, AtxOf, FenceOf, Closes, IdFor, SlugOf, Ids;
    HeadingsSound(norm, s, lines, k);
    assert |ScanUpTo(norm, s, lines, k).value.headings| == |Expected(norm, s, lines, k)|;
    if ScanUpTo(norm, s, lines, k + 1).Ok? {
      HeadingsSound(norm, s, lines, k + 1);
      assert |ScanUpTo(norm, s, lines, k + 1).value.headings| == |Expected(norm, s, lines, k + 1)|;
    }
  }

  lemma ScanStarts(norm: Normalizer, s: Bytes, lines: seq<TextLine>)
    requires Decode(s).Some? && Partition(s, lines)
    ensures ScanUpTo(norm, s, lines, 0).Ok? && Expected(norm, s, lines, 0) == []
  {
  }

  lemma ScanNext(norm: Normalizer, s: Bytes, lines: seq<TextLine>, k: nat)
    requires Decode(s).Some? && Partition(s, lines) && k < |lines|
    ensures ScanUpTo(norm, s, lines, k).Err? ==> ScanUpTo(norm, s, lines, k + 1) == ScanUpTo(norm, s, lines, k)
  {
  }

  /** The scan fails at the first line that is too long a heading or the 1,001st heading, and only there. */
  lemma {:induction false} ScanFails(norm: Normalizer, s: Bytes, lines: seq<TextLine>, k: nat) returns (j: int)
    requires Decode(s).Some? && Partition(s, lines) && k <= |lines|
    ensures match ScanUpTo(norm, s, lines, k)
      case Ok(_) => (forall i :: 0 <= i < k ==> !TooLong(s, lines, i)) && |Expected(norm, s, lines, k)| <= 1_000
      case Err(e) => 0 <= j < k && FailsAt(norm, s, lines, e, j)
  {
    hide Decode, Partition, ScanUpTo, Expected, TooLong, FailsAt;
    ScanStarts(norm, s, lines);
    j := 0;
    if k > 0 {
      j := ScanFails(norm, s, lines, k - 1);
      ScanNext(norm, s, lines, k - 1);
      if ScanUpTo(norm, s, lines, k - 1).Ok? {
        FailsStep(norm, s, lines, k - 1);
        j := k - 1;
      }
    }
  }

  ghost predicate FailsAt(norm: Normalizer, s: Bytes, lines: seq<TextLine>, e: HeadingError, j: int)
    requires Decode(s).Some? && Partition(s, lines)
  {
    && 0 <= j < |lines| && (forall i :: 0 <= i < j ==> !TooLong(s, lines, i))
    && |Expected(norm, s, lines, j)| <= 1_000
    && match e
       case HeadingTextTooLong => TooLong(s, lines, j)
       case TooManyHeadings => !TooLong(s, lines, j) && |Expected(norm, s, lines, j + 1)| == 1_001
  }
}
