/** The write-containment decision of issue-2-authorized-write-containment.ts. */
module Containment {
  import opened Utf8
  import Json

  const IDENTIFIER_LENGTH := 256
  const CLOSURE_MEMBERS := 100
  const WRITABLE_TARGETS := 100
  const READERS_PER_TARGET := 100
  const UNSAFE_FLOW_DIAGNOSTICS := 100
  const MISSING_MEMBERS_PER_DIAGNOSTIC := 25

  type Identifier = Json.Units

  datatype ReaderClosure = ReaderClosure(principalId: Identifier, readClosure: seq<Identifier>)
  datatype WritableTarget = WritableTarget(targetId: Identifier, readerAudienceComplete: bool,
    readers: seq<ReaderClosure>)
  datatype Input = Input(writer: ReaderClosure, writableTargets: seq<WritableTarget>)

  datatype UnsafeFlow = UnsafeFlow(
    targetId: Identifier,
    readerPrincipalId: Identifier,
    missingFromReaderClosure: seq<Identifier>,
    omittedMissingMemberCount: nat)

  datatype Decision =
    | Contained
    | UnsafeFlows(unsafeFlows: seq<UnsafeFlow>, omittedUnsafeFlowCount: nat)
    | InvalidInput

  // ----- the input schema -----

  /** A length of 1 to 256 and no white space at either end. */
  predicate IdentifierOk(id: Identifier) {
    && 1 <= |id| <= IDENTIFIER_LENGTH
    && !WhiteSpace(id[0]) && !WhiteSpace(id[|id| - 1])
  }

  predicate NoDuplicates<T(==)>(s: seq<T>) {
    forall i, j :: 0 <= i < j < |s| ==> s[i] != s[j]
  }

  predicate ClosureOk(c: ReaderClosure) {
    && IdentifierOk(c.principalId)
    && |c.readClosure| <= CLOSURE_MEMBERS
    && (forall id <- c.readClosure :: IdentifierOk(id))
    && NoDuplicates(c.readClosure)
  }

  predicate TargetOk(t: WritableTarget) {
    && IdentifierOk(t.targetId)
    && t.readerAudienceComplete
    && |t.readers| <= READERS_PER_TARGET
    && (forall r <- t.readers :: ClosureOk(r))
    && NoDuplicates(seq(|t.readers|, i requires 0 <= i < |t.readers| => t.readers[i].principalId))
  }

  predicate InputOk(input: Input) {
    && ClosureOk(input.writer)
    && |input.writableTargets| <= WRITABLE_TARGETS
    && (forall t <- input.writableTargets :: TargetOk(t))
    && NoDuplicates(seq(|input.writableTargets|,
      i requires 0 <= i < |input.writableTargets| => input.writableTargets[i].targetId))
  }

  // ----- what the diagnostics should say, without caps -----

  /** The members of `closure` a reader lacks, in the writer's order. */
  function Missing(closure: seq<Identifier>, reader: seq<Identifier>): (m: seq<Identifier>)
    ensures |m| <= |closure|
  {
    if closure == [] then []
    else
      var last := closure[|closure| - 1];
      var before := Missing(closure[..|closure| - 1], reader);
      if last in reader then before else before + [last]
  }

  function Visible<T>(s: seq<T>, cap: nat): (v: seq<T>) {
    if |s| <= cap then s else s[..cap]
  }

  /** The diagnostic of one target and reader, if its flow is unsafe. */
  function FlowsOfReader(writer: ReaderClosure, target: WritableTarget, reader: ReaderClosure): (f: seq<UnsafeFlow>) {
    var missing := Missing(writer.readClosure, reader.readClosure);
    if missing == [] then []
    else
      var visible := Visible(missing, MISSING_MEMBERS_PER_DIAGNOSTIC);
      [UnsafeFlow(target.targetId, reader.principalId, visible, |missing| - |visible|)]
  }

  /** The diagnostics of the first n readers of a target. */
  function FlowsOfTarget(writer: ReaderClosure, target: WritableTarget, n: nat): (f: seq<UnsafeFlow>)
    requires n <= |target.readers|
  {
    if n == 0 then []
    else FlowsOfTarget(writer, target, n - 1) + FlowsOfReader(writer, target, target.readers[n - 1])
  }

  /** The diagnostics of the first n targets. */
  function FlowsUpTo(input: Input, n: nat): (f: seq<UnsafeFlow>)
    requires n <= |input.writableTargets|
  {
    if n == 0 then []
    else
      var t := input.writableTargets[n - 1];
      FlowsUpTo(input, n - 1) + FlowsOfTarget(input.writer, t, |t.readers|)
  }

  function AllFlows(input: Input): seq<UnsafeFlow> { FlowsUpTo(input, |input.writableTargets|) }

  function DecisionOf(input: Input): Decision {
    if !InputOk(input) then InvalidInput
    else
      var flows := AllFlows(input);
      if flows == [] then Contained
      else
        var visible := Visible(flows, UNSAFE_FLOW_DIAGNOSTICS);
        UnsafeFlows(visible, |flows| - |visible|)
  }

  // ----- the implementation -----

  /** One step of a list that stops growing at its cap while the counter goes on. */
  lemma VisibleSnoc<T>(s: seq<T>, x: T, cap: nat)
    ensures Visible(s + [x], cap) == if |Visible(s, cap)| < cap then Visible(s, cap) + [x] else Visible(s, cap)
  {
  }

  method CollectMissing(closure: seq<Identifier>, reader: seq<Identifier>)
    returns (missing: seq<Identifier>, count: nat)
    ensures var all := Missing(closure, reader);
            count == |all| && missing == Visible(all, MISSING_MEMBERS_PER_DIAGNOSTIC)
  {
    missing, count := [], 0;
    for i := 0 to |closure|
      invariant count == |Missing(closure[..i], reader)|
      invariant missing == Visible(Missing(closure[..i], reader), MISSING_MEMBERS_PER_DIAGNOSTIC)
    {
      assert closure[..i + 1][..i] == closure[..i];
      if closure[i] !in reader {
        VisibleSnoc(Missing(closure[..i], reader), closure[i], MISSING_MEMBERS_PER_DIAGNOSTIC);
        count := count + 1;
        if |missing| < MISSING_MEMBERS_PER_DIAGNOSTIC {
          missing := missing + [closure[i]];
        }
      }
    }
    assert closure[..|closure|] == closure;
  }

  method Evaluate(input: Input) returns (decision: Decision)
    ensures decision == DecisionOf(input)
  {
    hide InputOk;
    if !InputOk(input) {
      return InvalidInput;
    }
    var unsafeFlows: seq<UnsafeFlow>, unsafeFlowCount: nat := [], 0;
    for t := 0 to |input.writableTargets|
      invariant unsafeFlowCount == |FlowsUpTo(input, t)|
      invariant unsafeFlows == Visible(FlowsUpTo(input, t), UNSAFE_FLOW_DIAGNOSTICS)
    {
      var target := input.writableTargets[t];
      ghost var done := FlowsUpTo(input, t);
      for r := 0 to |target.readers|
        invariant unsafeFlowCount == |done + FlowsOfTarget(input.writer, target, r)|
        invariant unsafeFlows == Visible(done + FlowsOfTarget(input.writer, target, r), UNSAFE_FLOW_DIAGNOSTICS)
      {
        var reader := target.readers[r];
        var missing, count := CollectMissing(input.writer.readClosure, reader.readClosure);
        ghost var flows := done + FlowsOfTarget(input.writer, target, r);
        ghost var more := FlowsOfReader(input.writer, target, reader);
        assert done + FlowsOfTarget(input.writer, target, r + 1) == flows + more;
        if count > 0 {
          var flow := UnsafeFlow(target.targetId, reader.principalId, missing, count - |missing|);
          assert more == [flow];
          VisibleSnoc(flows, flow, UNSAFE_FLOW_DIAGNOSTICS);
          unsafeFlowCount := unsafeFlowCount + 1;
          if |unsafeFlows| < UNSAFE_FLOW_DIAGNOSTICS {
            unsafeFlows := unsafeFlows + [flow];
          }
        } else {
          assert flows + more == flows;
        }
      }
    }
    if unsafeFlows == [] {
      decision := Contained;
    } else {
      decision := UnsafeFlows(unsafeFlows, unsafeFlowCount - |unsafeFlows|);
    }
  }

  // ----- what the decision means -----

  /** Every member the writer reads is readable by this reader. */
  predicate Contains(writer: ReaderClosure, reader: ReaderClosure) {
    forall id <- writer.readClosure :: id in reader.readClosure
  }

  /** Missing is the set difference, in input order and without repetition. */
  lemma {:induction false} MissingIsDifference(closure: seq<Identifier>, reader: seq<Identifier>)
    ensures forall id :: id in Missing(closure, reader) <==> id in closure && id !in reader
    ensures NoDuplicates(closure) ==> NoDuplicates(Missing(closure, reader))
    decreases |closure|
  {
    if closure != [] {
      var before, last := closure[..|closure| - 1], closure[|closure| - 1];
      MissingIsDifference(before, reader);
      assert closure == before + [last];
    }
  }

  /** The number of missing members is the size of the set difference. */
  lemma MissingCount(closure: seq<Identifier>, reader: seq<Identifier>)
    requires NoDuplicates(closure)
    ensures |Missing(closure, reader)| == |(set id <- closure) - (set id <- reader)|
  {
    MissingIsDifference(closure, reader);
    var m := Missing(closure, reader);
    DistinctSize(m);
    assert (set id <- m) == (set id <- closure) - (set id <- reader);
  }

  lemma {:induction false} DistinctSize<T>(s: seq<T>)
    requires NoDuplicates(s)
    ensures |(set x <- s)| == |s|
    decreases |s|
  {
    if s != [] {
      var before, last := s[..|s| - 1], s[|s| - 1];
      DistinctSize(before);
      assert (set x <- s) == (set x <- before) + {last};
      assert last !in before;
    }
  }

  /** Input order: a smaller position in the writer's closure stays first. */
  predicate SubsequenceAt(sub: seq<Identifier>, full: seq<Identifier>, at: seq<nat>) {
    && |at| == |sub|
    && (forall k :: 0 <= k < |at| ==> at[k] < |full| && full[at[k]] == sub[k])
    && (forall k, l :: 0 <= k < l < |at| ==> at[k] < at[l])
  }

  lemma {:induction false} MissingInOrder(closure: seq<Identifier>, reader: seq<Identifier>) returns (at: seq<nat>)
    ensures SubsequenceAt(Missing(closure, reader), closure, at)
    decreases |closure|
  {
    at := [];
    if closure != [] {
      var before, last := closure[..|closure| - 1], closure[|closure| - 1];
      at := MissingInOrder(before, reader);
      assert SubsequenceAt(Missing(before, reader), closure, at);
      if last !in reader {
        at := at + [|closure| - 1];
        assert Missing(closure, reader) == Missing(before, reader) + [last];
      }
    }
  }

  /** A target and one of its readers, by position in the input. */
  datatype Pair = Pair(target: nat, reader: nat)

  predicate IsPair(input: Input, p: Pair) {
    p.target < |input.writableTargets| && p.reader < |input.writableTargets[p.target].readers|
  }

  predicate UnsafePair(input: Input, p: Pair) {
    IsPair(input, p) && !Contains(input.writer, input.writableTargets[p.target].readers[p.reader])
  }

  ghost function UnsafePairs(input: Input): set<Pair> {
    set t, r | 0 <= t < |input.writableTargets| && 0 <= r < |input.writableTargets[t].readers|
      && UnsafePair(input, Pair(t, r)) :: Pair(t, r)
  }

  predicate Before(p: Pair, q: Pair) {
    p.target < q.target || (p.target == q.target && p.reader < q.reader)
  }

  /** What a diagnostic must say about its pair: the true number of missing members is the
      visible plus the omitted ones, and the visible ones come first in the writer's order. */
  predicate Describes(input: Input, p: Pair, f: UnsafeFlow)
    requires IsPair(input, p)
  {
    var target := input.writableTargets[p.target];
    var reader := target.readers[p.reader];
    var missing := Missing(input.writer.readClosure, reader.readClosure);
    && f.targetId == target.targetId
    && f.readerPrincipalId == reader.principalId
    && f.missingFromReaderClosure == Visible(missing, MISSING_MEMBERS_PER_DIAGNOSTIC)
    && |f.missingFromReaderClosure| + f.omittedMissingMemberCount == |missing|
  }

  /** `at` lists unsafe pairs among the first n targets in input order, one per diagnostic. */
  ghost predicate Lists(input: Input, n: nat, at: seq<Pair>, flows: seq<UnsafeFlow>) {
    && |at| == |flows|
    && (forall k :: 0 <= k < |at| ==> at[k].target < n && UnsafePair(input, at[k]) && Describes(input, at[k], flows[k]))
    && (forall k, l :: 0 <= k < l < |at| ==> Before(at[k], at[l]))
  }

  /** Every unsafe pair up to reader `r` of target `t` (exclusive) is listed. */
  ghost predicate ListsAll(input: Input, t: nat, r: nat, at: seq<Pair>) {
    forall p: Pair :: UnsafePair(input, p) && Before(p, Pair(t, r)) ==> p in at
  }

  lemma ReaderUnsafe(writer: ReaderClosure, target: WritableTarget, reader: ReaderClosure)
    ensures FlowsOfReader(writer, target, reader) == [] <==> Contains(writer, reader)
  {
    MissingIsDifference(writer.readClosure, reader.readClosure);
    var missing := Missing(writer.readClosure, reader.readClosure);
    if missing != [] {
      assert missing[0] in missing;
    }
  }

  lemma ListsSnoc(input: Input, t: nat, at: seq<Pair>, flows: seq<UnsafeFlow>, p: Pair, f: UnsafeFlow)
    requires Lists(input, t + 1, at, flows) && p.target == t && UnsafePair(input, p) && Describes(input, p, f)
    requires forall k :: 0 <= k < |at| ==> Before(at[k], p)
    ensures Lists(input, t + 1, at + [p], flows + [f])
  {
  }

  lemma UpToNext(input: Input, t: nat, r: nat, at: seq<Pair>)
    requires forall p: Pair :: UnsafePair(input, p) && Before(p, Pair(t, r)) ==> p in at
    requires UnsafePair(input, Pair(t, r)) ==> Pair(t, r) in at
    ensures ListsAll(input, t, r + 1, at)
  {
    forall p: Pair | UnsafePair(input, p) && Before(p, Pair(t, r + 1))
      ensures p in at
    {
      assert p == Pair(t, r) || Before(p, Pair(t, r));
    }
  }

  lemma {:induction false} ListTarget(input: Input, t: nat, n: nat, before: seq<Pair>, flows: seq<UnsafeFlow>)
      returns (at: seq<Pair>)
    requires t < |input.writableTargets| && n <= |input.writableTargets[t].readers|
    requires Lists(input, t, before, flows) && ListsAll(input, t, 0, before)
    ensures Lists(input, t + 1, at, flows + FlowsOfTarget(input.writer, input.writableTargets[t], n))
    ensures forall k :: 0 <= k < |at| ==> Before(at[k], Pair(t, n))
    ensures ListsAll(input, t, n, at)
  {
    var target := input.writableTargets[t];
    if n == 0 {
      at := before;
      assert flows + FlowsOfTarget(input.writer, target, 0) == flows;
    } else {
      at := ListTarget(input, t, n - 1, before, flows);
      var reader, p := target.readers[n - 1], Pair(t, n - 1);
      var soFar := flows + FlowsOfTarget(input.writer, target, n - 1);
      var more := FlowsOfReader(input.writer, target, reader);
      assert flows + FlowsOfTarget(input.writer, target, n) == soFar + more;
      ReaderUnsafe(input.writer, target, reader);
      if more == [] {
        assert soFar + more == soFar;
      } else {
        ListsSnoc(input, t, at, soFar, p, more[0]);
        at := at + [p];
      }
      UpToNext(input, t, n - 1, at);
    }
  }

  lemma {:induction false} ListUpTo(input: Input, n: nat) returns (at: seq<Pair>)
    requires n <= |input.writableTargets|
    ensures Lists(input, n, at, FlowsUpTo(input, n)) && ListsAll(input, n, 0, at)
  {
    at := [];
    if n > 0 {
      var before := ListUpTo(input, n - 1);
      var target := input.writableTargets[n - 1];
      at := ListTarget(input, n - 1, |target.readers|, before, FlowsUpTo(input, n - 1));
    }
  }

  /** The uncapped diagnostics are exactly the unsafe pairs, each once, in input order. */
  lemma FlowsAreUnsafePairs(input: Input) returns (at: seq<Pair>)
    ensures Lists(input, |input.writableTargets|, at, AllFlows(input))
    ensures (set p <- at) == UnsafePairs(input)
    ensures |AllFlows(input)| == |UnsafePairs(input)|
  {
    at := ListUpTo(input, |input.writableTargets|);
    forall p: Pair
      ensures p in at <==> p in UnsafePairs(input)
    {
      if p in UnsafePairs(input) {
        assert Before(p, Pair(|input.writableTargets|, 0));
      }
      if p in at {
        assert UnsafePair(input, p);
      }
    }
    DistinctSize(at);
    assert (set p <- at) == UnsafePairs(input);
  }

  predicate EveryReaderContains(input: Input) {
    forall t, r :: 0 <= t < |input.writableTargets| && 0 <= r < |input.writableTargets[t].readers| ==>
      Contains(input.writer, input.writableTargets[t].readers[r])
  }

  lemma NoFlowsExactly(input: Input)
    ensures AllFlows(input) == [] <==> EveryReaderContains(input)
  {
    var at := FlowsAreUnsafePairs(input);
    if AllFlows(input) == [] {
      forall t, r | 0 <= t < |input.writableTargets| && 0 <= r < |input.writableTargets[t].readers|
        ensures Contains(input.writer, input.writableTargets[t].readers[r])
      {
        assert Pair(t, r) !in UnsafePairs(input);
      }
    } else {
      assert UnsafePair(input, at[0]);
    }
  }

  /** Writing is allowed exactly when every reader of every target may read all the writer may. */
  lemma AllowedExactly(input: Input)
    ensures DecisionOf(input) == Contained <==> InputOk(input) && EveryReaderContains(input)
    ensures DecisionOf(input) == InvalidInput <==> !InputOk(input)
  {
    NoFlowsExactly(input);
  }

  /** Capped diagnostics: visible plus omitted is the true number of unsafe pairs, and the visible
      ones describe the first unsafe pairs in input order. */
  lemma DiagnosticsExact(input: Input) returns (at: seq<Pair>)
    requires DecisionOf(input).UnsafeFlows?
    ensures (set p <- at) == UnsafePairs(input)
    ensures forall k, l :: 0 <= k < l < |at| ==> Before(at[k], at[l])
    ensures var d := DecisionOf(input);
      && |d.unsafeFlows| + d.omittedUnsafeFlowCount == |UnsafePairs(input)| == |at|
      && 1 <= |d.unsafeFlows| <= UNSAFE_FLOW_DIAGNOSTICS
      && (d.omittedUnsafeFlowCount > 0 ==> |d.unsafeFlows| == UNSAFE_FLOW_DIAGNOSTICS)
      && forall k :: 0 <= k < |d.unsafeFlows| ==> IsPair(input, at[k]) && Describes(input, at[k], d.unsafeFlows[k])
  {
    at := FlowsAreUnsafePairs(input);
  }
}
