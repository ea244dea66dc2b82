/** The exact search loop of artifact-inspector.ts against a naive definition of occurrences. */
module Search {
  import opened Hashing
  import opened Lines

  predicate Occurs(s: Bytes, q: Bytes, i: nat) {
    i + |q| <= |s| && s[i..i + |q|] == q
  }

  /** Leftmost occurrence at or after `from`, or -1. */
  method IndexOf(s: Bytes, q: Bytes, from: nat) returns (i: int)
    ensures i < 0 ==> forall k: nat | from <= k :: !Occurs(s, q, k)
    ensures 0 <= i ==> from <= i && Occurs(s, q, i) && forall k: nat | from <= k < i :: !Occurs(s, q, k)
  {
    i := from;
    while i + |q| <= |s|
      invariant from <= i
      invariant forall k: nat | from <= k < i :: !Occurs(s, q, k)
    {
      if s[i..i + |q|] == q { return; }
      i := i + 1;
    }
    return -1;
  }

  datatype Hit = Hit(offset: nat, lineNumber: int)

  /** Where the next search resumes: after the last hit. */
  function Resume(q: Bytes, hits: seq<Hit>): nat {
    if hits == [] then 0 else hits[|hits| - 1].offset + |q|
  }

  /** Hits are the leftmost-greedy disjoint occurrences, in order. */
  ghost predicate GreedyAt(s: Bytes, q: Bytes, hits: seq<Hit>, k: nat)
    requires k < |hits|
  {
    var from := Resume(q, hits[..k]);
    && from <= hits[k].offset && Occurs(s, q, hits[k].offset)
    && forall i: nat | from <= i < hits[k].offset :: !Occurs(s, q, i)
  }

  ghost predicate Greedy(s: Bytes, q: Bytes, hits: seq<Hit>) {
    forall k {:trigger GreedyAt(s, q, hits, k)} | 0 <= k < |hits| :: GreedyAt(s, q, hits, k)
  }

  ghost predicate OnLine(lines: seq<TextLine>, x: Hit) {
    1 <= x.lineNumber <= |lines| && lines[x.lineNumber - 1].byteStart <= x.offset < lines[x.lineNumber - 1].End()
  }

  /** Nothing is left to find after the hits. */
  ghost predicate Exhausted(s: Bytes, q: Bytes, hits: seq<Hit>) {
    forall i: nat | Resume(q, hits) <= i :: !Occurs(s, q, i)
  }

  method SearchExact(s: Bytes, q: Bytes, lines: seq<TextLine>, maxHits: nat) returns (hits: seq<Hit>)
    requires q != [] && s != [] && Partition(s, lines)
    ensures HitsOk(s, q, lines, maxHits, hits)
  {
    hits := [];
    var searchOffset: nat, lineIndex: nat := 0, 0;
    RecordAt(s, lines, 0);
    while |hits| < maxHits && searchOffset + |q| <= |s|
      invariant |hits| <= maxHits && searchOffset == Resume(q, hits) && Greedy(s, q, hits)
      invariant forall k | 0 <= k < |hits| :: OnLine(lines, hits[k])
      invariant lineIndex < |lines| && lines[lineIndex].byteStart <= searchOffset
      decreases maxHits - |hits|
    {
      var matchOffset := IndexOf(s, q, searchOffset);
      if matchOffset < 0 { break; }
      lineIndex := AdvanceCursor(lines, s, lineIndex, matchOffset);
      RecordAt(s, lines, lineIndex);
      var hit := Hit(matchOffset, lines[lineIndex].lineNumber);
      GreedyExtends(s, q, hits, hit);
      hits := hits + [hit];
      searchOffset := matchOffset + |q|;
    }
  }

  lemma GreedyExtends(s: Bytes, q: Bytes, hits: seq<Hit>, x: Hit)
    requires Greedy(s, q, hits) && Resume(q, hits) <= x.offset && Occurs(s, q, x.offset)
    requires forall i: nat | Resume(q, hits) <= i < x.offset :: !Occurs(s, q, i)
    ensures Greedy(s, q, hits + [x])
  {
    var all := hits + [x];
    forall k | 0 <= k < |all| ensures GreedyAt(s, q, all, k) {
      if k < |hits| {
        assert GreedyAt(s, q, hits, k);
        assert all[..k] == hits[..k];
      } else {
        assert all[..k] == hits;
      }
    }
  }

  // ----- theorems about greedy hits -----

  lemma HitsAscend(s: Bytes, q: Bytes, hits: seq<Hit>, k: nat)
    requires Greedy(s, q, hits) && 0 < k < |hits|
    ensures hits[k - 1].offset + |q| <= hits[k].offset
  {
    assert GreedyAt(s, q, hits, k);
    assert hits[..k][|hits[..k]| - 1] == hits[k - 1];
  }

  predicate Overlaps(q: Bytes, i: nat, j: nat) { i < j + |q| && j < i + |q| }

  /** An occurrence that starts before the end of the hits overlaps one of them. */
  lemma {:induction false} OccurrenceOverlaps(s: Bytes, q: Bytes, hits: seq<Hit>, i: nat) returns (k: nat)
    requires q != [] && Greedy(s, q, hits) && Occurs(s, q, i) && i < Resume(q, hits)
    ensures k < |hits| && Overlaps(q, hits[k].offset, i)
    decreases |hits|
  {
    var last := |hits| - 1;
    assert GreedyAt(s, q, hits, last);
    if hits[last].offset <= i || Resume(q, hits[..last]) <= i {
      k := last;
    } else {
      GreedyPrefix(s, q, hits, last);
      k := OccurrenceOverlaps(s, q, hits[..last], i);
    }
  }

  lemma GreedyPrefix(s: Bytes, q: Bytes, hits: seq<Hit>, n: nat)
    requires Greedy(s, q, hits) && n <= |hits|
    ensures Greedy(s, q, hits[..n])
  {
    forall k | 0 <= k < n ensures GreedyAt(s, q, hits[..n], k) {
      assert GreedyAt(s, q, hits, k);
      assert hits[..n][..k] == hits[..k];
    }
  }

  /** Disjoint occurrences in ascending order. */
  ghost predicate Disjoint(s: Bytes, q: Bytes, offsets: seq<nat>) {
    && (forall k | 0 <= k < |offsets| :: Occurs(s, q, offsets[k]))
    && (forall j, k | 0 <= j < k < |offsets| :: offsets[j] + |q| <= offsets[k])
  }

  /** Greedy stays ahead: the k-th hit is no later than the k-th member of any disjoint family. */
  lemma {:induction false} GreedyStaysAhead(s: Bytes, q: Bytes, hits: seq<Hit>, offsets: seq<nat>, k: nat)
    requires Greedy(s, q, hits) && Disjoint(s, q, offsets) && k < |hits| && k < |offsets|
    ensures hits[k].offset <= offsets[k]
    decreases k
  {
    assert GreedyAt(s, q, hits, k);
    if k > 0 {
      GreedyStaysAhead(s, q, hits, offsets, k - 1);
      assert hits[..k][|hits[..k]| - 1] == hits[k - 1];
      assert offsets[k - 1] + |q| <= offsets[k];
    }
  }

  lemma SurplusComesAfter(s: Bytes, q: Bytes, hits: seq<Hit>, offsets: seq<nat>)
    requires Greedy(s, q, hits) && Disjoint(s, q, offsets) && |offsets| > |hits|
    ensures Resume(q, hits) <= offsets[|hits|] && Occurs(s, q, offsets[|hits|])
  {
    var n := |hits|;
    if n > 0 {
      GreedyStaysAhead(s, q, hits, offsets, n - 1);
      assert offsets[n - 1] + |q| <= offsets[n];
    }
  }

  /** When the search ends by exhaustion, every occurrence overlaps a hit and no disjoint
      family of occurrences is larger. */
  lemma ExhaustiveSearchIsMaximal(s: Bytes, q: Bytes, hits: seq<Hit>, offsets: seq<nat>)
    requires q != [] && Greedy(s, q, hits) && Exhausted(s, q, hits) && Disjoint(s, q, offsets)
    ensures |offsets| <= |hits|
    ensures forall i: nat | Occurs(s, q, i) :: exists k :: 0 <= k < |hits| && Overlaps(q, hits[k].offset, i)
  {
    forall i: nat | Occurs(s, q, i) ensures exists k :: 0 <= k < |hits| && Overlaps(q, hits[k].offset, i) {
      var k := OccurrenceOverlaps(s, q, hits, i);
    }
    if |offsets| > |hits| {
      SurplusComesAfter(s, q, hits, offsets);
    }
  }

  /** The naive definition: leftmost-greedy disjoint occurrences on their lines, as many as asked
      for or all there are. */
  ghost predicate HitsOk(s: Bytes, q: Bytes, lines: seq<TextLine>, maxHits: nat, hits: seq<Hit>) {
    && |hits| <= maxHits && Greedy(s, q, hits)
    && (|hits| < maxHits ==> Exhausted(s, q, hits))
    && forall k | 0 <= k < |hits| :: OnLine(lines, hits[k])
  }

  /** Hit k is determined by the hits before it. */
  lemma SameHit(s: Bytes, q: Bytes, lines: seq<TextLine>, a: seq<Hit>, b: seq<Hit>, k: nat)
    requires Partition(s, lines) && Greedy(s, q, a) && Greedy(s, q, b) && k < |a| && k < |b| && a[..k] == b[..k]
    requires OnLine(lines, a[k]) && OnLine(lines, b[k])
    ensures a[k] == b[k]
  {
    assert GreedyAt(s, q, a, k) && GreedyAt(s, q, b, k);
    assert a[k].offset == b[k].offset;
    LineOfOffsetUnique(s, lines, a[k].lineNumber - 1, b[k].lineNumber - 1, a[k].offset);
  }

  lemma {:induction false} SamePrefix(s: Bytes, q: Bytes, lines: seq<TextLine>, max: nat, a: seq<Hit>, b: seq<Hit>,
      k: nat)
    requires Partition(s, lines) && HitsOk(s, q, lines, max, a) && HitsOk(s, q, lines, max, b) && k <= |a| && k <= |b|
    ensures a[..k] == b[..k]
    decreases k
  {
    if k > 0 {
      SamePrefix(s, q, lines, max, a, b, k - 1);
      SameHit(s, q, lines, a, b, k - 1);
      assert a[..k] == a[..k - 1] + [a[k - 1]] && b[..k] == b[..k - 1] + [b[k - 1]];
    }
  }

  lemma NextHit(s: Bytes, q: Bytes, hits: seq<Hit>, n: nat)
    requires Greedy(s, q, hits) && n < |hits|
    ensures Resume(q, hits[..n]) <= hits[n].offset && Occurs(s, q, hits[n].offset)
  {
    assert GreedyAt(s, q, hits, n);
  }

  lemma NoMoreHits(s: Bytes, q: Bytes, lines: seq<TextLine>, max: nat, a: seq<Hit>, b: seq<Hit>)
    requires Partition(s, lines) && HitsOk(s, q, lines, max, a) && HitsOk(s, q, lines, max, b)
    ensures |b| <= |a|
  {
    if |a| < |b| {
      SamePrefix(s, q, lines, max, a, b, |a|);
      assert a[..|a|] == a;
      NextHit(s, q, b, |a|);
    }
  }

  /** The definition leaves no choice: there is exactly one answer to a search. */
  lemma HitsUnique(s: Bytes, q: Bytes, lines: seq<TextLine>, max: nat, a: seq<Hit>, b: seq<Hit>)
    requires Partition(s, lines) && HitsOk(s, q, lines, max, a) && HitsOk(s, q, lines, max, b)
    ensures a == b
  {
    NoMoreHits(s, q, lines, max, a, b);
    NoMoreHits(s, q, lines, max, b, a);
    SamePrefix(s, q, lines, max, a, b, |a|);
    assert a[..|a|] == a && b[..|b|] == b;
  }
}
