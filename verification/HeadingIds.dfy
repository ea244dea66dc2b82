/** nextHeadingId of artifact-text-index.ts: distinct, bounded identifiers and the reason the
    suffix loop stops. */
module HeadingIds {
  import opened Utf8
  import opened Slug

  const MAX_HEADING_ID_LENGTH := 128
  const MAX_TEXT_INDEX_HEADINGS := 1_000

  /** HeadingIdSchema of the contracts package. */
  predicate IdChar(c: char) { 'A' <= c <= 'Z' || AlnumChar(c) || c == '_' || c == '-' }

  predicate HeadingIdOk(id: string) {
    && 1 <= |id| <= MAX_HEADING_ID_LENGTH
    && id[0] != '_' && id[0] != '-'
    && forall i | 0 <= i < |id| :: IdChar(id[i])
  }

  // ----- decimal suffixes -----

  function Decimal(n: nat): (s: string)
    ensures |s| > 0 && forall i | 0 <= i < |s| :: '0' <= s[i] <= '9'
  {
    if n < 10 then ['0' + n as char] else Decimal(n / 10) + ['0' + (n % 10) as char]
  }

  function ParseDecimal(s: string): int {
    if s == "" then 0 else 10 * ParseDecimal(s[..|s| - 1]) + (s[|s| - 1] as int - '0' as int)
  }

  lemma {:induction false} ParseDecimalOfDecimal(n: nat)
    ensures ParseDecimal(Decimal(n)) == n
  {
    if n < 10 {
      assert Decimal(n)[..0] == "";
    } else {
      ParseDecimalOfDecimal(n / 10);
      assert Decimal(n)[..|Decimal(n)| - 1] == Decimal(n / 10);
    }
  }

  function Pow10(k: nat): nat { if k == 0 then 1 else 10 * Pow10(k - 1) }

  lemma {:induction false} DecimalLength(n: nat, k: nat)
    requires k > 0 && n < Pow10(k)
    ensures |Decimal(n)| <= k
  {
    if n >= 10 {
      assert k > 1;
      DecimalLength(n / 10, k - 1);
    }
  }

  // ----- candidates -----

  function Take(s: string, k: nat): string { if k < |s| then s[..k] else s }

  /** The suffix-n candidate; the first one has no suffix. */
  function Candidate(slug: string, n: nat): string
    requires n >= 1
  {
    if n == 1 then Take(slug, MAX_HEADING_ID_LENGTH)
    else
      var suffix := "-" + Decimal(n);
      Take(slug, if |suffix| <= MAX_HEADING_ID_LENGTH then MAX_HEADING_ID_LENGTH - |suffix| else 0) + suffix
  }

  lemma SuffixUnique(p: string, d: string, p': string, d': string)
    requires p + ("-" + d) == p' + ("-" + d')
    requires (forall i | 0 <= i < |d| :: d[i] != '-') && (forall i | 0 <= i < |d'| :: d'[i] != '-')
    ensures d == d'
  {
    var s := p + ("-" + d);
    assert s[|p|] == '-' && s[|p| + 1..] == d;
    assert s[|p'|] == '-' && s[|p'| + 1..] == d';
  }

  /** Different suffix numbers from 2 on give different candidates, even after truncation. */
  lemma CandidatesDiffer(slug: string, m: nat, n: nat)
    requires 2 <= m && 2 <= n && Candidate(slug, m) == Candidate(slug, n)
    ensures m == n
  {
    var p := Take(slug, if |"-" + Decimal(m)| <= 128 then 128 - |"-" + Decimal(m)| else 0);
    var p' := Take(slug, if |"-" + Decimal(n)| <= 128 then 128 - |"-" + Decimal(n)| else 0);
    SuffixUnique(p, Decimal(m), p', Decimal(n));
    ParseDecimalOfDecimal(m);
    ParseDecimalOfDecimal(n);
  }

  /** The first candidate has no suffix, and it coincides with a suffixed one exactly when the slug,
      cut at 128 characters, already ends in that suffix. */
  lemma FirstCandidateCollides(slug: string, n: nat)
    requires 2 <= n
    ensures var suffix := "-" + Decimal(n);
      Candidate(slug, 1) == Candidate(slug, n)
      <==>
        |suffix| <= MAX_HEADING_ID_LENGTH <= |slug|
        && slug[MAX_HEADING_ID_LENGTH - |suffix|..MAX_HEADING_ID_LENGTH] == suffix
  {
    var suffix, max := "-" + Decimal(n), MAX_HEADING_ID_LENGTH;
    var first, other := Candidate(slug, 1), Candidate(slug, n);
    if |suffix| <= max <= |slug| {
      var cut := max - |suffix|;
      assert first == slug[..cut] + slug[cut..max];
      assert first[cut..] == slug[cut..max];
      assert other == slug[..cut] + suffix;
      assert other[cut..] == suffix;
    }
  }

  /** Which suffix numbers a slug can confuse: none from 2 on, and 1 with n under that condition. */
  lemma CandidatesCollideExactly(slug: string, m: nat, n: nat)
    requires 1 <= m < n
    ensures var suffix := "-" + Decimal(n);
      Candidate(slug, m) == Candidate(slug, n)
      <==> && m == 1 && |suffix| <= MAX_HEADING_ID_LENGTH <= |slug|
           && slug[MAX_HEADING_ID_LENGTH - |suffix|..MAX_HEADING_ID_LENGTH] == suffix
  {
    if m == 1 {
      FirstCandidateCollides(slug, n);
    } else if Candidate(slug, m) == Candidate(slug, n) {
      CandidatesDiffer(slug, m, n);
    }
  }

  function LettersA(n: nat): Text { seq(n, _ => 0x61) }

  function TokensA(n: nat): seq<Token> { seq(n, _ => Letter('a')) }

  function StringA(n: nat): string { seq(n, _ => 'a') }

  lemma {:induction false} LettersScanned(n: nat)
    ensures ScanText(LettersA(n)) == Scan(TokensA(n), false)
  {
    if n == 0 {
      assert LettersA(0) == [] && TokensA(0) == [];
    } else {
      LettersScanned(n - 1);
      ScanNext(LettersA(n), n - 1);
      assert LettersA(n)[..n - 1] == LettersA(n - 1) && LettersA(n)[..n] == LettersA(n);
      assert TokensA(n) == TokensA(n - 1) + [Letter('a')];
    }
  }

  lemma {:induction false} LettersRendered(n: nat)
    ensures Render(TokensA(n)) == StringA(n)
  {
    if n == 0 {
      assert TokensA(0) == [] && StringA(0) == "" && Render([]) == "";
    } else {
      LettersRendered(n - 1);
      assert TokensA(n) == TokensA(n - 1) + [Letter('a')];
      RenderAppend(TokensA(n - 1), [Letter('a')]);
      RenderOne(Letter('a'));
      assert StringA(n) == StringA(n - 1) + ['a'];
    }
  }

  lemma LettersScan(n: nat)
    ensures ScanText(LettersA(n)) == Scan(TokensA(n), false) && Render(TokensA(n)) == StringA(n)
  {
    LettersScanned(n);
    LettersRendered(n);
  }

  lemma LettersThenTwo(n: nat)
    requires n > 0
    ensures SlugOf(LettersA(n) + [0x20, 0x32]) == StringA(n) + "-2"
  {
    LettersScan(n);
    var text, tokens := LettersA(n) + [0x20, 0x32], TokensA(n);
    assert text[..n] == LettersA(n) && text[..n + 2] == text;
    ScanNext(text, n);
    ScanNext(text, n + 1);
    hide ScanText, Render;
    assert ScanText(text).tokens == tokens + [Gap] + [Letter('2')];
    RenderAppend(tokens + [Gap], [Letter('2')]);
    RenderAppend(tokens, [Gap]);
    RenderOne(Gap);
    RenderOne(Letter('2'));
    assert StringA(n) + "-" + "2" == StringA(n) + "-2";
  }

  /** A heading text that meets the condition: 126 letters, a space and a 2. Its slug is its own
      first candidate and also the one with suffix 2. */
  lemma CollidingHeading() returns (text: Text)
    ensures text == LettersA(126) + [0x20, 0x32] && SlugOf(text) == StringA(126) + "-2"
    ensures Candidate(SlugOf(text), 1) == Candidate(SlugOf(text), 2)
  {
    text := LettersA(126) + [0x20, 0x32];
    LettersThenTwo(126);
    assert Decimal(2) == "2";
    hide SlugOf, Candidate;
    var slug := SlugOf(text);
    assert slug[126..128] == "-2";
    FirstCandidateCollides(slug, 2);
  }

  ghost function Tried(slug: string, k: nat): set<string> {
    set n | 2 <= n < k + 2 :: Candidate(slug, n)
  }

  lemma {:induction false} TriedSize(slug: string, k: nat)
    ensures |Tried(slug, k)| == k
  {
    if k == 0 {
      assert Tried(slug, 0) == {};
    } else {
      TriedSize(slug, k - 1);
      NewCandidate(slug, k + 1);
      TriedStep(slug, k);
    }
  }

  lemma NewCandidate(slug: string, n: nat)
    requires 2 <= n
    ensures Candidate(slug, n) !in Tried(slug, n - 2)
  {
    hide Candidate;
    forall m | 2 <= m < n
      ensures Candidate(slug, m) != Candidate(slug, n)
    {
      if Candidate(slug, m) == Candidate(slug, n) {
        CandidatesDiffer(slug, m, n);
      }
    }
  }

  lemma TriedStep(slug: string, k: nat)
    requires 0 < k
    ensures Tried(slug, k) == Tried(slug, k - 1) + {Candidate(slug, k + 1)}
  {
  }

  lemma SubsetSize<T>(a: set<T>, b: set<T>)
    requires a <= b
    ensures |a| <= |b|
  {
    assert b == a + (b - a);
    assert |b| == |a| + |b - a|;
  }

  /** Pigeonhole: more than |used| suffixes cannot all be taken. */
  lemma SuffixBound(slug: string, used: set<string>, n: nat)
    requires n >= 2 && forall m | 2 <= m < n :: Candidate(slug, m) in used
    ensures n <= |used| + 2
  {
    TriedSize(slug, n - 2);
    assert Tried(slug, n - 2) <= used;
    SubsetSize(Tried(slug, n - 2), used);
  }

  ghost predicate FirstFree(slug: string, used: set<string>, n: nat) {
    n >= 1 && Candidate(slug, n) !in used && forall m | 1 <= m < n :: Candidate(slug, m) in used
  }

  lemma FirstFreeUnique(slug: string, used: set<string>, m: nat, n: nat)
    requires FirstFree(slug, used, m) && FirstFree(slug, used, n)
    ensures m == n
  {
  }

  /** Terminates on every input, with the first candidate that is free. */
  method NextHeadingId(slug: string, used: set<string>) returns (id: string, used': set<string>, ghost n: nat)
    ensures FirstFree(slug, used, n) && n <= |used| + 2
    ensures id == Candidate(slug, n) && id !in used && used' == used + {id}
  {
    var suffixNumber: nat := 1;
    id := Take(slug, MAX_HEADING_ID_LENGTH);
    while id in used
      invariant suffixNumber >= 1 && id == Candidate(slug, suffixNumber)
      invariant forall m | 1 <= m < suffixNumber :: Candidate(slug, m) in used
      invariant suffixNumber <= |used| + 2
      decreases |used| + 2 - suffixNumber
    {
      SuffixBound(slug, used, suffixNumber + 1);
      suffixNumber := suffixNumber + 1;
      var suffix := "-" + Decimal(suffixNumber);
      id := Take(slug, if |suffix| <= MAX_HEADING_ID_LENGTH then MAX_HEADING_ID_LENGTH - |suffix| else 0) + suffix;
    }
    n := suffixNumber;
    used' := used + {id};
  }

  ghost function SuffixFor(slug: string, used: set<string>): (n: nat)
    ensures FirstFree(slug, used, n) && n <= |used| + 2
  {
    SomeFree(slug, used, 1);
    var n: nat :| FirstFree(slug, used, n) && n <= |used| + 2;
    n
  }

  /** The identifier as a function of slug and used set. */
  ghost function IdFor(slug: string, used: set<string>): string { Candidate(slug, SuffixFor(slug, used)) }

  lemma {:induction false} SomeFree(slug: string, used: set<string>, from: nat)
    requires from >= 1 && from <= |used| + 2 && forall m | 1 <= m < from :: Candidate(slug, m) in used
    ensures exists n: nat :: FirstFree(slug, used, n) && n <= |used| + 2
    decreases |used| + 2 - from
  {
    if Candidate(slug, from) in used {
      SuffixBound(slug, used, from + 1);
      SomeFree(slug, used, from + 1);
    } else {
      assert FirstFree(slug, used, from);
    }
  }

  // ----- acceptance by the contract schema -----

  /** The shape of a slug that identifiers inherit. */
  ghost predicate SlugShape(slug: string) {
    && |slug| > 0 && AlnumChar(slug[0])
    && forall i | 0 <= i < |slug| :: AlnumChar(slug[i]) || slug[i] == '-'
  }

  lemma {:induction false} RenderShape(ts: seq<Token>)
    requires WellFormed(ts)
    ensures forall i | 0 <= i < |Render(ts)| :: AlnumChar(Render(ts)[i]) || Render(ts)[i] == '-'
    decreases |ts|
  {
    if ts != [] {
      WellFormedTail(ts);
      RenderShape(ts[1..]);
      RenderCons(ts);
      TokenShape(ts[0]);
    }
  }

  lemma TokenShape(t: Token)
    requires t.Letter? ==> AlnumChar(t.c)
    ensures forall i | 0 <= i < |RenderToken(t)| :: AlnumChar(RenderToken(t)[i]) || RenderToken(t)[i] == '-'
    ensures !t.Gap? ==> AlnumChar(RenderToken(t)[0])
  {
  }

  lemma {:induction false} FirstTokenIsNoGap(text: Text)
    ensures TokensOf(text) != [] ==> !TokensOf(text)[0].Gap?
  {
    if text != [] {
      FirstTokenIsNoGap(text[..|text| - 1]);
    }
  }

  lemma SlugHasShape(text: Text)
    ensures SlugShape(SlugOf(text))
  {
    var ts := TokensOf(text);
    if ts != [] {
      ScanWellFormed(text);
      FirstTokenIsNoGap(text);
      RenderShape(ts);
      RenderCons(ts);
      TokenShape(ts[0]);
    }
  }

  /** Every identifier the index can assign is accepted by the contract. */
  lemma IdAccepted(slug: string, n: nat)
    requires SlugShape(slug) && 1 <= n <= MAX_TEXT_INDEX_HEADINGS + 2
    ensures HeadingIdOk(Candidate(slug, n))
  {
    assert Pow10(4) == 10_000;
    DecimalLength(n, 4);
  }

  lemma IdForAccepted(slug: string, used: set<string>)
    requires SlugShape(slug) && |used| <= MAX_TEXT_INDEX_HEADINGS
    ensures HeadingIdOk(IdFor(slug, used)) && IdFor(slug, used) !in used
  {
    IdAccepted(slug, SuffixFor(slug, used));
  }

  /** The loop computes the function. */
  lemma IdForIsFirstFree(slug: string, used: set<string>, n: nat)
    requires FirstFree(slug, used, n)
    ensures IdFor(slug, used) == Candidate(slug, n)
  {
    FirstFreeUnique(slug, used, SuffixFor(slug, used), n);
  }
}
