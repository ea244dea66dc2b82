/** Line records of artifact-text-index.ts. */
module Lines {
  import opened Hashing
  import opened Utf8

  const MAX_TEXT_INDEX_LINES := 10_000
  const LF: Byte := 0x0A
  const CR: Byte := 0x0D

  datatype NewlineKind = NoNewline | Lf | CrLf
  datatype TextLine = TextLine(
    lineNumber: int, byteStart: int, contentByteLength: int, newlineByteLength: int, newlineKind: NewlineKind)
  {
    function ContentEnd(): int { byteStart + contentByteLength }
    function End(): int { byteStart + contentByteLength + newlineByteLength }
  }

  /** An LF, or the CR of a CRLF. */
  predicate BreakAt(s: Bytes, i: nat) {
    i < |s| && (s[i] == LF || (s[i] == CR && i + 1 < |s| && s[i + 1] == LF))
  }

  // ----- what a line index has to be -----

  /** A non-empty record whose content holds no break and which ends at a break or at the end of the source. */
  predicate LineOk(s: Bytes, l: TextLine) {
    && 0 <= l.byteStart && 0 <= l.contentByteLength && 0 <= l.newlineByteLength
    && l.byteStart < l.End() <= |s|
    && (forall i | l.byteStart <= i < l.ContentEnd() :: !BreakAt(s, i))
    && match l.newlineKind
       case NoNewline => l.newlineByteLength == 0 && l.End() == |s|
       case Lf => l.newlineByteLength == 1 && s[l.ContentEnd()] == LF
       case CrLf => l.newlineByteLength == 2 && s[l.ContentEnd()] == CR && s[l.ContentEnd() + 1] == LF
  }

  predicate Joined(lines: seq<TextLine>, k: nat, start: nat)
    requires k < |lines|
  {
    lines[k].byteStart == if k == 0 then start else lines[k - 1].End()
  }

  predicate Numbered(s: Bytes, lines: seq<TextLine>, k: nat, number: nat)
    requires k < |lines|
  {
    LineOk(s, lines[k]) && lines[k].lineNumber == number + k
  }

  /** Records from byte `start` and line `number` on: contiguous, numbered, covering the rest exactly. */
  predicate PartitionFrom(s: Bytes, start: nat, number: nat, lines: seq<TextLine>) {
    && (forall k {:trigger Numbered(s, lines, k, number)} | 0 <= k < |lines| :: Numbered(s, lines, k, number))
    && (forall k {:trigger Joined(lines, k, start)} | 0 <= k < |lines| :: Joined(lines, k, start))
    && (if lines == [] then start == |s| else lines[|lines| - 1].End() == |s|)
  }

  predicate Partition(s: Bytes, lines: seq<TextLine>) { PartitionFrom(s, 0, 1, lines) }

  // ----- the scan -----

  function NextBreak(s: Bytes, from: nat): (i: nat)
    requires from <= |s|
    ensures from <= i <= |s| && (i < |s| ==> BreakAt(s, i))
    decreases |s| - from
  {
    if from == |s| || BreakAt(s, from) then from else NextBreak(s, from + 1)
  }

  function NewlineAt(s: Bytes, i: nat): NewlineKind {
    if i >= |s| then NoNewline else if s[i] == CR then CrLf else Lf
  }

  function Width(k: NewlineKind): nat {
    match k
    case NoNewline => 0
    case Lf => 1
    case CrLf => 2
  }

  /** The record of the line whose content runs from `start` to `end`. */
  function LineAt(s: Bytes, start: nat, end: nat, number: nat): TextLine {
    var kind := NewlineAt(s, end);
    TextLine(number, start, end - start, Width(kind), kind)
  }

  function LineFrom(s: Bytes, start: nat, number: nat): (l: TextLine)
    requires start < |s|
    ensures l.byteStart == start < l.End() <= |s|
  {
    LineAt(s, start, NextBreak(s, start), number)
  }

  lemma {:induction false} NextBreakIsFirst(s: Bytes, from: nat)
    requires from <= |s|
    ensures forall k | from <= k < NextBreak(s, from) :: !BreakAt(s, k)
    decreases |s| - from
  {
    if from < |s| && !BreakAt(s, from) {
      NextBreakIsFirst(s, from + 1);
    }
  }

  lemma LineFromOk(s: Bytes, start: nat, number: nat)
    requires start < |s|
    ensures LineOk(s, LineFrom(s, start, number)) && LineFrom(s, start, number).lineNumber == number
  {
    NextBreakIsFirst(s, start);
  }

  function LinesFrom(s: Bytes, start: nat, number: nat): seq<TextLine>
    requires start <= |s|
    decreases |s| - start
  {
    if start == |s| then []
    else var l := LineFrom(s, start, number); [l] + LinesFrom(s, l.End(), number + 1)
  }

  /** The canonical line records of a source. */
  function LinesOf(s: Bytes): seq<TextLine> { LinesFrom(s, 0, 1) }

  method ScanLines(s: Bytes) returns (r: Option<seq<TextLine>>)
    ensures r == if |LinesOf(s)| > MAX_TEXT_INDEX_LINES then None else Some(LinesOf(s))
  {
    hide LinesFrom, NextBreak;
    var lines: seq<TextLine> := [];
    var start: nat, lineNumber: nat, offset: nat := 0, 1, 0;
    while offset < |s|
      invariant start <= offset <= |s| && |lines| <= MAX_TEXT_INDEX_LINES
      invariant NoBreak(s, start, offset)
      invariant Pending(s, lines, start, lineNumber)
    {
      var current := s[offset];
      if current == LF || (current == CR && offset + 1 < |s| && s[offset + 1] == LF) {
        var newlineByteLength := if current == CR then 2 else 1;
        var line := TextLine(lineNumber, start, offset - start, newlineByteLength, if current == CR then CrLf else Lf);
        PendingStep(s, lines, start, offset, lineNumber, line);
        lines := lines + [line];
        if |lines| > MAX_TEXT_INDEX_LINES { return None; }
        offset := offset + newlineByteLength;
        start := offset;
        lineNumber := lineNumber + 1;
      } else {
        offset := offset + 1;
      }
    }
    if start < |s| {
      var line := TextLine(lineNumber, start, |s| - start, 0, NoNewline);
      PendingStep(s, lines, start, offset, lineNumber, line);
      lines, start, lineNumber := lines + [line], |s|, lineNumber + 1;
    }
    PendingEnd(s, lines, lineNumber);
    if |lines| > MAX_TEXT_INDEX_LINES { return None; }
    return Some(lines);
  }

  /** The scan invariant: what is collected plus what is still to come is the whole answer. */
  ghost predicate Pending(s: Bytes, lines: seq<TextLine>, start: nat, number: nat) {
    start <= |s| && lines + LinesFrom(s, start, number) == LinesOf(s)
  }

  lemma PendingStep(s: Bytes, lines: seq<TextLine>, start: nat, offset: nat, number: nat, line: TextLine)
    requires start <= offset <= |s| && start < |s| && NoBreak(s, start, offset) && Pending(s, lines, start, number)
    requires offset < |s| ==> BreakAt(s, offset)
    requires line == LineAt(s, start, offset, number)
    ensures Pending(s, lines + [line], line.End(), number + 1)
    ensures |lines| + 1 <= |LinesOf(s)|
  {
    NextLine(s, start, offset, number, line);
    Snoc(lines, line, LinesFrom(s, line.End(), number + 1));
  }

  lemma Snoc(before: seq<TextLine>, line: TextLine, after: seq<TextLine>)
    ensures before + ([line] + after) == (before + [line]) + after
  {
  }

  lemma PendingEnd(s: Bytes, lines: seq<TextLine>, number: nat)
    requires Pending(s, lines, |s|, number)
    ensures lines == LinesOf(s)
  {
    assert LinesFrom(s, |s|, number) == [];
  }

  predicate NoBreak(s: Bytes, from: nat, to: nat) { forall k | from <= k < to :: !BreakAt(s, k) }

  /** Whatever break (or end of source) comes first decides the next record. */
  lemma NextLine(s: Bytes, start: nat, offset: nat, number: nat, line: TextLine)
    requires start <= offset <= |s| && start < |s| && NoBreak(s, start, offset)
    requires offset < |s| ==> BreakAt(s, offset)
    requires line == LineAt(s, start, offset, number)
    ensures line.End() <= |s| && LinesFrom(s, start, number) == [line] + LinesFrom(s, line.End(), number + 1)
  {
    NextBreakUnique(s, start, offset);
  }

  lemma {:induction false} NextBreakUnique(s: Bytes, from: nat, i: nat)
    requires from <= i <= |s| && (i == |s| || BreakAt(s, i))
    requires forall k | from <= k < i :: !BreakAt(s, k)
    ensures NextBreak(s, from) == i
    decreases |s| - from
  {
    if from < i {
      NextBreakUnique(s, from + 1, i);
    }
  }

  // ----- theorems -----

  lemma {:induction false} LinesFromPartition(s: Bytes, start: nat, number: nat)
    requires start <= |s|
    ensures PartitionFrom(s, start, number, LinesFrom(s, start, number))
    decreases |s| - start
  {
    if start < |s| {
      var l := LineFrom(s, start, number);
      LineFromOk(s, start, number);
      var rest := LinesFrom(s, l.End(), number + 1);
      LinesFromPartition(s, l.End(), number + 1);
      ConsPartition(s, l, rest, number);
    }
  }

  lemma ConsPartition(s: Bytes, l: TextLine, rest: seq<TextLine>, number: nat)
    requires LineOk(s, l) && l.lineNumber == number && PartitionFrom(s, l.End(), number + 1, rest)
    ensures PartitionFrom(s, l.byteStart, number, [l] + rest)
  {
    var lines := [l] + rest;
    forall k | 0 <= k < |lines| ensures Numbered(s, lines, k, number) && Joined(lines, k, l.byteStart) {
      if k > 0 {
        assert Numbered(s, rest, k - 1, number + 1) && Joined(rest, k - 1, l.End());
      }
    }
  }

  lemma TailPartition(s: Bytes, start: nat, lines: seq<TextLine>, number: nat)
    requires lines != [] && PartitionFrom(s, start, number, lines)
    ensures LineOk(s, lines[0]) && lines[0].byteStart == start && lines[0].lineNumber == number
    ensures PartitionFrom(s, lines[0].End(), number + 1, lines[1..])
  {
    var rest, next, from := lines[1..], number + 1, lines[0].End();
    assert Numbered(s, lines, 0, number) && Joined(lines, 0, start);
    forall k | 0 <= k < |rest| ensures Numbered(s, rest, k, next) && Joined(rest, k, from) {
      assert Numbered(s, lines, k + 1, number) && Joined(lines, k + 1, start);
    }
    if rest != [] {
      assert rest[|rest| - 1] == lines[|lines| - 1];
    }
  }

  lemma LineUnique(s: Bytes, l: TextLine, l': TextLine)
    requires LineOk(s, l) && LineOk(s, l') && l.byteStart == l'.byteStart && l.lineNumber == l'.lineNumber
    ensures l == l'
  {
    if l.ContentEnd() < |s| { assert BreakAt(s, l.ContentEnd()); }
    if l'.ContentEnd() < |s| { assert BreakAt(s, l'.ContentEnd()); }
  }

  /** The partition is canonical: the predicate determines the records. */
  lemma {:induction false} PartitionUnique(s: Bytes, start: nat, number: nat, lines: seq<TextLine>)
    requires start <= |s| && PartitionFrom(s, start, number, lines)
    ensures lines == LinesFrom(s, start, number)
    decreases |lines|
  {
    if lines != [] {
      TailPartition(s, start, lines, number);
      var l := LineFrom(s, start, number);
      LineFromOk(s, start, number);
      LineUnique(s, lines[0], l);
      PartitionUnique(s, l.End(), number + 1, lines[1..]);
      assert lines == [l] + lines[1..];
    }
  }

  /** The scan produces the one and only partition of the source into lines. */
  lemma CanonicalPartition(s: Bytes, lines: seq<TextLine>)
    ensures Partition(s, lines) <==> lines == LinesOf(s)
  {
    LinesFromPartition(s, 0, 1);
    if Partition(s, lines) {
      PartitionUnique(s, 0, 1, lines);
    }
  }

  // ----- reading lines -----

  /** Record k of a partition, with its link to the record before it. */
  lemma RecordAt(s: Bytes, lines: seq<TextLine>, k: nat)
    requires Partition(s, lines) && k < |lines|
    ensures LineOk(s, lines[k]) && lines[k].lineNumber == k + 1
    ensures lines[k].byteStart == if k == 0 then 0 else lines[k - 1].End()
  {
    assert Numbered(s, lines, k, 1) && Joined(lines, k, 0);
  }

  function LineBytes(s: Bytes, lines: seq<TextLine>, k: nat): Bytes
    requires Partition(s, lines) && k < |lines|
  {
    RecordAt(s, lines, k);
    s[lines[k].byteStart..lines[k].End()]
  }

  /** The concatenation of `count` records from record k on. */
  function Records(s: Bytes, lines: seq<TextLine>, k: nat, count: nat): Bytes
    requires Partition(s, lines) && k + count <= |lines|
    decreases count
  {
    if count == 0 then [] else LineBytes(s, lines, k) + Records(s, lines, k + 1, count - 1)
  }

  /** What readIndexedLines slices: from the start of the first record to the end of the last. */
  function Span(s: Bytes, lines: seq<TextLine>, k: nat, count: nat): Bytes
    requires Partition(s, lines) && 1 <= count && k + count <= |lines|
  {
    SpanOrdered(s, lines, k, count);
    s[lines[k].byteStart..lines[k + count - 1].End()]
  }

  lemma {:induction false} SpanOrdered(s: Bytes, lines: seq<TextLine>, k: nat, count: nat)
    requires Partition(s, lines) && 1 <= count && k + count <= |lines|
    ensures 0 <= lines[k].byteStart < lines[k + count - 1].End() <= |s|
    decreases count
  {
    RecordAt(s, lines, k + count - 1);
    if count > 1 {
      SpanOrdered(s, lines, k, count - 1);
    }
  }

  /** Adjacent spans concatenate to the combined span. */
  lemma SpansConcatenate(s: Bytes, lines: seq<TextLine>, k: nat, a: nat, b: nat)
    requires Partition(s, lines) && 1 <= a && 1 <= b && k + a + b <= |lines|
    ensures Span(s, lines, k, a) + Span(s, lines, k + a, b) == Span(s, lines, k, a + b)
  {
    SpanOrdered(s, lines, k, a);
    SpanOrdered(s, lines, k + a, b);
    SpanOrdered(s, lines, k, a + b);
    RecordAt(s, lines, k + a);
    hide Partition;
    var i, j, n := lines[k].byteStart, lines[k + a].byteStart, lines[k + a + b - 1].End();
    assert Span(s, lines, k, a) == s[i..j] && Span(s, lines, k + a, b) == s[j..n]
      && Span(s, lines, k, a + b) == s[i..n];
    assert s[i..j] + s[j..n] == s[i..n];
  }

  /** A span is exactly the concatenation of its line records, line endings included. */
  lemma {:induction false} SpanIsConcatenation(s: Bytes, lines: seq<TextLine>, k: nat, count: nat)
    requires Partition(s, lines) && 1 <= count && k + count <= |lines|
    ensures Span(s, lines, k, count) == Records(s, lines, k, count)
    decreases count
  {
    if count == 1 {
      assert Records(s, lines, k + 1, 0) == [];
    } else {
      SpanIsConcatenation(s, lines, k + 1, count - 1);
      SpansConcatenate(s, lines, k, 1, count - 1);
    }
  }

  /** In valid text every record start, content end and record end is a scalar boundary. */
  lemma BoundariesAreScalar(s: Bytes, lines: seq<TextLine>, k: nat)
    requires Decode(s).Some? && Partition(s, lines) && k < |lines|
    ensures LineOk(s, lines[k])
    ensures ScalarBoundary(s, lines[k].byteStart) && ScalarBoundary(s, lines[k].ContentEnd())
      && ScalarBoundary(s, lines[k].End())
  {
    RecordAt(s, lines, k);
    BoundaryAfterBreak(s, lines[k]);
    if k > 0 {
      RecordAt(s, lines, k - 1);
      BoundaryAfterBreak(s, lines[k - 1]);
    } else {
      assert DecodeHead(s).Some?;
    }
  }

  lemma BoundaryAfterBreak(s: Bytes, l: TextLine)
    requires Decode(s).Some? && LineOk(s, l)
    ensures ScalarBoundary(s, l.End()) && (l.newlineByteLength > 0 ==> ScalarBoundary(s, l.ContentEnd()))
  {
    if l.End() < |s| {
      assert s[l.End() - 1] == LF;
      AsciiEndsScalar(s, l.End());
    }
  }

  /** So no span of lines of a valid source, and no line content, can fail to decode. */
  lemma SpanDecodes(s: Bytes, lines: seq<TextLine>, k: nat, count: nat)
    requires Partition(s, lines) && 1 <= count && k + count <= |lines|
    requires Decode(s).Some?
    ensures Decode(Span(s, lines, k, count)).Some?
  {
    SpanOrdered(s, lines, k, count);
    BoundariesAreScalar(s, lines, k);
    BoundariesAreScalar(s, lines, k + count - 1);
    SliceDecodes(s, lines[k].byteStart, lines[k + count - 1].End());
  }

  lemma ContentDecodes(s: Bytes, lines: seq<TextLine>, k: nat)
    requires Partition(s, lines) && k < |lines| && Decode(s).Some?
    ensures LineOk(s, lines[k]) && Decode(s[lines[k].byteStart..lines[k].ContentEnd()]).Some?
  {
    BoundariesAreScalar(s, lines, k);
    SliceDecodes(s, lines[k].byteStart, lines[k].ContentEnd());
  }

  // ----- looking up the line of an offset -----

  /** The moving cursor of the search: advance while the next line starts at or before the offset. */
  method AdvanceCursor(lines: seq<TextLine>, s: Bytes, from: nat, offset: nat) returns (k: nat)
    requires Partition(s, lines) && from < |lines| && lines[from].byteStart <= offset < |s|
    ensures from <= k < |lines| && lines[k].byteStart <= offset < lines[k].End()
  {
    k := from;
    RecordAt(s, lines, |lines| - 1);
    while k + 1 < |lines| && lines[k + 1].byteStart <= offset
      invariant from <= k < |lines| && lines[k].byteStart <= offset
    {
      k := k + 1;
    }
    if k + 1 < |lines| {
      RecordAt(s, lines, k + 1);
    }
  }

  /** A full lookup has one answer, so the cursor agrees with it. */
  lemma LineOfOffsetUnique(s: Bytes, lines: seq<TextLine>, j: nat, k: nat, offset: nat)
    requires Partition(s, lines) && j < |lines| && k < |lines|
    requires lines[j].byteStart <= offset < lines[j].End() && lines[k].byteStart <= offset < lines[k].End()
    ensures j == k
  {
    if j < k { StartsIncrease(s, lines, j, k); }
    if k < j { StartsIncrease(s, lines, k, j); }
  }

  lemma {:induction false} StartsIncrease(s: Bytes, lines: seq<TextLine>, j: nat, k: nat)
    requires Partition(s, lines) && j < k < |lines|
    ensures lines[j].End() <= lines[k].byteStart
    decreases k
  {
    RecordAt(s, lines, k);
    if j < k - 1 {
      StartsIncrease(s, lines, j, k - 1);
      RecordAt(s, lines, k - 1);
    }
  }
}
