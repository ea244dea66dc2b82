/** The operation-scoped observer gate of artifact-mcp-registration.ts and its race with the
    deadline, as a protocol over every interleaving of its parties. */
module EvidenceGate {
  import opened Hashing

  /** The journal's reply to one append. A raw acknowledgement that fails its schema is Malformed. */
  datatype Reply = Rejected | Malformed | Acknowledged(receiptSha256: Digest)

  /** Receipt digests and validity, and recognition of the fixed deadline output. */
  datatype Env<!R, !O> = Env(digest: R -> Digest, receiptOk: R -> bool, isDeadline: O -> bool)

  datatype Output<O> = Own(value: O) | InternalError | DeadlineExceeded

  datatype Registration = DeadlineEvent | InternalErrorEvent

  /** What the outside world sees, in order. */
  datatype Entry<R, E, O> =
    | Append(receipt: R, sha256: Digest)
    | AckMatched(receipt: R)
    | ForwardReceipt(receipt: R)
    | ForwardEvent(event: E)
    | Close
    | Registered(registration: Registration)
    | Return(output: Output<O>)

  predicate IsForward<R, E, O>(e: Entry<R, E, O>) { e.ForwardReceipt? || e.ForwardEvent? }

  // ----- the gate -----

  datatype Gate<R, E> = Gate(open: bool, committed: bool, events: seq<E>, receipts: seq<R>)

  function NewGate<R, E>(): Gate<R, E> { Gate(true, false, [], []) }

  function EmitEvent<R, E>(g: Gate<R, E>, e: E): Gate<R, E> {
    if g.open && !g.committed then g.(events := g.events + [e]) else g
  }

  function EmitReceipt<R, E>(g: Gate<R, E>, r: R): Gate<R, E> {
    if g.open && !g.committed then g.(receipts := g.receipts + [r]) else g
  }

  /** The part of commit before its await. */
  datatype CommitStart<R> = GateFailed | NeedsAppend(receipt: R, sha256: Digest) | NothingToAppend

  function StartCommit<R, E, O>(env: Env<R, O>, g: Gate<R, E>): CommitStart<R> {
    if !g.open || g.committed || |g.receipts| > 1 then GateFailed
    else if |g.receipts| == 1 then
      if env.receiptOk(g.receipts[0]) then NeedsAppend(g.receipts[0], env.digest(g.receipts[0])) else GateFailed
    else NothingToAppend
  }

  predicate AckMatches(reply: Reply, expected: Digest) {
    reply.Acknowledged? && reply.receiptSha256 == expected
  }

  function ForwardEvents<R, E, O>(events: seq<E>): (t: seq<Entry<R, E, O>>)
    ensures |t| == |events| && forall k :: 0 <= k < |t| ==> t[k] == ForwardEvent(events[k])
  {
    if events == [] then [] else ForwardEvents(events[..|events| - 1]) + [ForwardEvent(events[|events| - 1])]
  }

  function ForwardBlock<R, E, O>(receipts: seq<R>, events: seq<E>): seq<Entry<R, E, O>> {
    (if |receipts| == 1 then [ForwardReceipt(receipts[0])] else []) + ForwardEvents(events)
  }

  /** The part of commit after its await: the new gate and what is forwarded. */
  function ResumeCommit<R, E, O>(g: Gate<R, E>): (Gate<R, E>, seq<Entry<R, E, O>>) {
    if !g.open then (g, []) else (g.(committed := true), ForwardBlock(g.receipts, g.events))
  }

  function CloseGate<R, E>(g: Gate<R, E>): Gate<R, E> { g.(open := false, events := [], receipts := []) }

  /** The closure variables of the gate and the outer observers' log. */
  class ObserverGate<R(==), E(==), O(==)> {
    var open: bool
    var committed: bool
    var events: seq<E>
    var receipts: seq<R>
    var log: seq<Entry<R, E, O>>

    ghost function Model(): Gate<R, E>
      reads this
    {
      Gate(open, committed, events, receipts)
    }

    constructor ()
      ensures Model() == NewGate() && log == []
    {
      open, committed, events, receipts, log := true, false, [], [], [];
    }

    method Event(e: E)
      modifies this`events
      ensures Model() == EmitEvent(old(Model()), e)
    {
      if open && !committed {
        events := events + [e];
      }
    }

    method Receipt(r: R)
      modifies this`receipts
      ensures Model() == EmitReceipt(old(Model()), r)
    {
      if open && !committed {
        receipts := receipts + [r];
      }
    }

    method CommitBeforeAwait(env: Env<R, O>) returns (start: CommitStart<R>)
      modifies this`log
      ensures start == StartCommit(env, Model())
      ensures log == old(log) + if start.NeedsAppend? then [Append(start.receipt, start.sha256)] else []
    {
      if !open || committed || |receipts| > 1 {
        return GateFailed;
      }
      if |receipts| == 1 {
        var receipt := receipts[0];
        if !env.receiptOk(receipt) {
          return GateFailed;
        }
        var digest := env.digest(receipt);
        log := log + [Append(receipt, digest)];
        return NeedsAppend(receipt, digest);
      }
      return NothingToAppend;
    }

    method CommitAfterAwait()
      modifies this`committed, this`log
      ensures Model() == ResumeCommit<R, E, O>(old(Model())).0
      ensures log == old(log) + ResumeCommit<R, E, O>(old(Model())).1
    {
      if !open {
        assert log == log + [];
        return;
      }
      committed := true;
      ghost var start := log + if |receipts| == 1 then [ForwardReceipt(receipts[0])] else [];
      if |receipts| == 1 {
        log := log + [ForwardReceipt(receipts[0])];
      }
      for i := 0 to |events|
        invariant committed
        invariant log == start + ForwardEvents(events[..i])
      {
        assert events[..i + 1][..i] == events[..i];
        log := log + [ForwardEvent(events[i])];
      }
      assert events[..|events|] == events;
      assert log == old(log) + ForwardBlock<R, E, O>(receipts, events);
    }

    method CloseGateNow()
      modifies this`open, this`events, this`receipts
      ensures Model() == CloseGate(old(Model()))
    {
      open, events, receipts := false, [], [];
    }
  }

  // ----- the protocol -----

  /** Where the operation's own async function stands. */
  datatype Phase<R, O> =
    | Inspecting
    | Inspected(output: O)
    | Appending(output: O, receipt: R)
    | Acked(output: O, receipt: R)
    | Committed(output: O)
    | Failed

  /** The last four fields remember what the inspector handed to the gate: receipts before commit
      starts, between that and the moment the gate is committed, and after it; and the events up to
      that moment. */
  datatype World<R, E, O> = World(
    gate: Gate<R, E>,
    phase: Phase<R, O>,
    journalFailure: bool,
    winner: Option<Output<O>>,
    returned: bool,
    trace: seq<Entry<R, E, O>>,
    early: seq<R>,
    late: seq<R>,
    tooLate: seq<R>,
    emitted: seq<E>)

  function Start<R, E, O>(): World<R, E, O> {
    World(NewGate(), Inspecting, false, None, false, [], [], [], [], [])
  }

  datatype Action<R, E, O> =
    | DoEvent(event: E)
    | DoReceipt(receipt: R)
    | InspectResolves(output: O)
    | InspectRejects
    | CommitStarts
    | JournalReplies(reply: Reply)
    | CommitResumes
    | OperationSettles
    | DeadlineOrAbort
    | Finish

  predicate Enabled<R, E, O>(w: World<R, E, O>, a: Action<R, E, O>) {
    match a
    case DoEvent(_) => true
    case DoReceipt(_) => true
    case InspectResolves(_) => w.phase.Inspecting?
    case InspectRejects => w.phase.Inspecting?
    case CommitStarts => w.phase.Inspected?
    case JournalReplies(_) => w.phase.Appending?
    case CommitResumes => w.phase.Acked?
    case OperationSettles => w.winner.None? && (w.phase.Committed? || w.phase.Failed?)
    case DeadlineOrAbort => w.winner.None?
    case Finish => w.winner.Some? && !w.returned
  }

  predicate Started<R, O>(p: Phase<R, O>) { !p.Inspecting? && !p.Inspected? }

  function OnEvent<R, E, O>(w: World<R, E, O>, e: E): World<R, E, O> {
    w.(gate := EmitEvent(w.gate, e), emitted := if w.gate.committed then w.emitted else w.emitted + [e])
  }

  function OnReceipt<R, E, O>(w: World<R, E, O>, r: R): World<R, E, O> {
    var g := EmitReceipt(w.gate, r);
    if w.gate.committed then w.(gate := g, tooLate := w.tooLate + [r])
    else if Started(w.phase) then w.(gate := g, late := w.late + [r])
    else w.(gate := g, early := w.early + [r])
  }

  function OnResume<R, E, O>(w: World<R, E, O>, output: O): World<R, E, O> {
    var (g, forwarded) := ResumeCommit<R, E, O>(w.gate);
    w.(gate := g, trace := w.trace + forwarded, phase := Committed(output))
  }

  function OnCommit<R, E, O>(env: Env<R, O>, w: World<R, E, O>): World<R, E, O>
    requires w.phase.Inspected?
  {
    match StartCommit(env, w.gate)
    case GateFailed => w.(phase := Failed, journalFailure := true)
    case NeedsAppend(r, digest) => w.(phase := Appending(w.phase.output, r), trace := w.trace + [Append(r, digest)])
    case NothingToAppend => OnResume(w, w.phase.output)
  }

  function OnReply<R, E, O>(env: Env<R, O>, w: World<R, E, O>, reply: Reply): World<R, E, O>
    requires w.phase.Appending?
  {
    var r := w.phase.receipt;
    if AckMatches(reply, env.digest(r)) then w.(phase := Acked(w.phase.output, r), trace := w.trace + [AckMatched(r)])
    else w.(phase := Failed, journalFailure := true)
  }

  predicate IsDeadlineOutput<R, O>(env: Env<R, O>, o: Output<O>) {
    o.DeadlineExceeded? || (o.Own? && env.isDeadline(o.value))
  }

  function FinishBlock<R, E, O>(env: Env<R, O>, o: Output<O>, journalFailure: bool): seq<Entry<R, E, O>> {
    [Close]
    + (if IsDeadlineOutput(env, o) then [Registered(DeadlineEvent)]
       else if journalFailure then [Registered(InternalErrorEvent)]
       else [])
    + [Return(o)]
  }

  function Apply<R, E, O>(env: Env<R, O>, w: World<R, E, O>, a: Action<R, E, O>): World<R, E, O>
    requires Enabled(w, a)
  {
    match a
    case DoEvent(e) => OnEvent(w, e)
    case DoReceipt(r) => OnReceipt(w, r)
    case InspectResolves(o) => w.(phase := Inspected(o))
    case InspectRejects => w.(phase := Failed)
    case CommitStarts => OnCommit(env, w)
    case JournalReplies(reply) => OnReply(env, w, reply)
    case CommitResumes => OnResume(w, w.phase.output)
    case OperationSettles => w.(winner := Some(if w.phase.Failed? then InternalError else Own(w.phase.output)))
    case DeadlineOrAbort => w.(winner := Some(DeadlineExceeded))
    case Finish =>
      w.(gate := CloseGate(w.gate), returned := true,
         trace := w.trace + FinishBlock(env, w.winner.value, w.journalFailure))
  }

  /** The world a run reaches; None if some action was not enabled. */
  function RunOf<R, E, O>(env: Env<R, O>, actions: seq<Action<R, E, O>>): Option<World<R, E, O>>
    decreases |actions|
  {
    if actions == [] then Some(Start())
    else
      match RunOf(env, actions[..|actions| - 1])
      case None => None
      case Some(w) => if Enabled(w, actions[|actions| - 1]) then Some(Apply(env, w, actions[|actions| - 1])) else None
  }

  // ----- properties of traces -----

  type Trace<R, E, O> = seq<Entry<R, E, O>>

  function Forwarded<R, E, O>(t: Trace<R, E, O>): Trace<R, E, O> {
    if t == [] then []
    else
      var last := t[|t| - 1];
      Forwarded(t[..|t| - 1]) + if IsForward(last) then [last] else []
  }

  predicate AckBefore<R(==), E(==), O(==)>(env: Env<R, O>, t: Trace<R, E, O>, k: int, r: R) {
    exists i, j :: 0 <= i < j < k <= |t| && t[i] == Append(r, env.digest(r)) && t[j] == AckMatched(r)
  }

  predicate OneAppend<R, E, O>(t: Trace<R, E, O>) {
    forall i, j :: 0 <= i < |t| && 0 <= j < |t| && t[i].Append? && t[j].Append? ==> i == j
  }

  predicate OneReturn<R, E, O>(t: Trace<R, E, O>) {
    forall i, j :: 0 <= i < |t| && 0 <= j < |t| && t[i].Return? && t[j].Return? ==> i == j
  }

  /** Nothing is appended or forwarded once the gate has closed. */
  predicate SilentAfterClose<R, E, O>(t: Trace<R, E, O>) {
    forall i, j :: 0 <= i < j < |t| && t[i].Close? ==> !IsForward(t[j]) && !t[j].Append?
  }

  /** Whatever is forwarded comes after the matching acknowledgement of every receipt the inspector
      had produced, and the only receipt ever forwarded is that one. */
  predicate Justified<R(==), E(==), O(==)>(env: Env<R, O>, t: Trace<R, E, O>, early: seq<R>) {
    forall k :: 0 <= k < |t| && IsForward(t[k]) ==>
      && |early| <= 1
      && (forall r <- early :: AckBefore(env, t, k, r))
      && (t[k].ForwardReceipt? ==> early == [t[k].receipt])
  }

  /** The inspector's own output is returned only after those acknowledgements. */
  predicate ReturnJustified<R(==), E(==), O(==)>(env: Env<R, O>, t: Trace<R, E, O>, early: seq<R>) {
    forall k :: 0 <= k < |t| && t[k].Return? && t[k].output.Own? ==>
      |early| <= 1 && forall r <- early :: AckBefore(env, t, k, r)
  }

  predicate AppendsEarly<R(==), E, O>(t: Trace<R, E, O>, early: seq<R>) {
    forall k :: 0 <= k < |t| && t[k].Append? ==> early == [t[k].receipt]
  }

  predicate Quiet<R, E, O>(t: Trace<R, E, O>) { forall k :: 0 <= k < |t| ==> !IsForward(t[k]) }

  predicate NoAppend<R, E, O>(t: Trace<R, E, O>) { forall k :: 0 <= k < |t| ==> !t[k].Append? }

  predicate NotClosed<R, E, O>(t: Trace<R, E, O>) {
    forall k :: 0 <= k < |t| ==> !t[k].Close? && !t[k].Return? && !t[k].Registered?
  }

  lemma {:induction false} ForwardedAppend<R, E, O>(t: Trace<R, E, O>, u: Trace<R, E, O>)
    ensures Forwarded(t + u) == Forwarded(t) + Forwarded(u)
    decreases |u|
  {
    if u == [] {
      assert t + u == t;
    } else {
      var before := u[..|u| - 1];
      assert (t + u)[..|t + u| - 1] == t + before;
      ForwardedAppend(t, before);
    }
  }

  lemma {:induction false} ForwardedQuiet<R, E, O>(t: Trace<R, E, O>)
    requires Quiet(t)
    ensures Forwarded(t) == []
    decreases |t|
  {
    if t != [] {
      ForwardedQuiet(t[..|t| - 1]);
    }
  }

  lemma {:induction false} ForwardedAll<R, E, O>(t: Trace<R, E, O>)
    requires forall k :: 0 <= k < |t| ==> IsForward(t[k])
    ensures Forwarded(t) == t
    decreases |t|
  {
    if t != [] {
      ForwardedAll(t[..|t| - 1]);
      assert t == t[..|t| - 1] + [t[|t| - 1]];
    }
  }

  lemma AckBeforeExtends<R, E, O>(env: Env<R, O>, t: Trace<R, E, O>, u: Trace<R, E, O>, k: int, r: R)
    requires AckBefore(env, t, k, r)
    ensures AckBefore(env, t + u, k, r)
  {
    var i, j :| 0 <= i < j < k <= |t| && t[i] == Append(r, env.digest(r)) && t[j] == AckMatched(r);
    assert (t + u)[i] == t[i] && (t + u)[j] == t[j];
  }

  lemma AckBeforeLater<R, E, O>(env: Env<R, O>, t: Trace<R, E, O>, k: int, l: int, r: R)
    requires AckBefore(env, t, k, r) && k <= l <= |t|
    ensures AckBefore(env, t, l, r)
  {
  }

  lemma ConcatAt<T>(t: seq<T>, u: seq<T>, k: nat)
    requires k < |t + u|
    ensures (t + u)[k] == if k < |t| then t[k] else u[k - |t|]
  {
  }

  /** Quiet entries change nothing that was justified. */
  lemma JustifiedQuiet<R, E, O>(env: Env<R, O>, t: Trace<R, E, O>, u: Trace<R, E, O>, early: seq<R>)
    requires Justified(env, t, early) && Quiet(u)
    ensures Justified(env, t + u, early)
  {
    forall k | 0 <= k < |t + u| && IsForward((t + u)[k])
      ensures |early| <= 1
      ensures forall r <- early :: AckBefore(env, t + u, k, r)
      ensures (t + u)[k].ForwardReceipt? ==> early == [(t + u)[k].receipt]
    {
      ConcatAt(t, u, k);
      forall r <- early
        ensures AckBefore(env, t + u, k, r)
      {
        AckBeforeExtends(env, t, u, k, r);
      }
    }
  }

  /** A forward block after the acknowledgement is justified. */
  lemma JustifiedBlock<R, E, O>(env: Env<R, O>, t: Trace<R, E, O>, u: Trace<R, E, O>, early: seq<R>)
    requires Quiet(t) && |early| <= 1
    requires forall r <- early :: AckBefore(env, t, |t|, r)
    requires forall k :: 0 <= k < |u| ==> u[k].ForwardReceipt? ==> early == [u[k].receipt]
    ensures Justified(env, t + u, early)
  {
    forall k | 0 <= k < |t + u| && IsForward((t + u)[k])
      ensures forall r <- early :: AckBefore(env, t + u, k, r)
      ensures (t + u)[k].ForwardReceipt? ==> early == [(t + u)[k].receipt]
    {
      ConcatAt(t, u, k);
      forall r <- early
        ensures AckBefore(env, t + u, k, r)
      {
        AckBeforeExtends(env, t, u, |t|, r);
        AckBeforeLater(env, t + u, |t|, k, r);
      }
    }
  }

  lemma ExtendOpen<R, E, O>(t: Trace<R, E, O>, u: Trace<R, E, O>)
    requires OneAppend(t) && NotClosed(t) && NoAppend(u) && OneReturn(u) && SilentAfterClose(u)
    ensures OneAppend(t + u) && OneReturn(t + u) && SilentAfterClose(t + u)
  {
    var v := t + u;
    forall i | 0 <= i < |v|
      ensures v[i] == if i < |t| then t[i] else u[i - |t|]
    {
    }
  }

  lemma ExtendOne<R, E, O>(t: Trace<R, E, O>, e: Entry<R, E, O>)
    requires OneAppend(t) && OneReturn(t) && SilentAfterClose(t) && !IsForward(e) && !e.Return?
    requires e.Append? ==> NoAppend(t) && NotClosed(t)
    ensures OneAppend(t + [e]) && OneReturn(t + [e]) && SilentAfterClose(t + [e])
  {
  }

  lemma ReturnJustifiedOpen<R, E, O>(env: Env<R, O>, t: Trace<R, E, O>, u: Trace<R, E, O>, early: seq<R>)
    requires NotClosed(t)
    requires (forall k :: 0 <= k < |u| && u[k].Return? ==> !u[k].output.Own?)
      || (|early| <= 1 && forall r <- early :: AckBefore(env, t, |t|, r))
    ensures ReturnJustified(env, t + u, early)
  {
    forall k | 0 <= k < |t + u| && (t + u)[k].Return? && (t + u)[k].output.Own?
      ensures |early| <= 1 && forall r <- early :: AckBefore(env, t + u, k, r)
    {
      ConcatAt(t, u, k);
      forall r <- early ensures AckBefore(env, t + u, k, r) {
        AckBeforeExtends(env, t, u, |t|, r);
        AckBeforeLater(env, t + u, |t|, k, r);
      }
    }
  }

  lemma ReturnJustifiedOne<R, E, O>(env: Env<R, O>, t: Trace<R, E, O>, e: Entry<R, E, O>, early: seq<R>)
    requires ReturnJustified(env, t, early) && !e.Return?
    ensures ReturnJustified(env, t + [e], early)
  {
    forall k | 0 <= k < |t + [e]| && (t + [e])[k].Return? && (t + [e])[k].output.Own?
      ensures |early| <= 1 && forall r <- early :: AckBefore(env, t + [e], k, r)
    {
      ConcatAt(t, [e], k);
      forall r <- early ensures AckBefore(env, t + [e], k, r) {
        AckBeforeExtends(env, t, [e], k, r);
      }
    }
  }

  lemma FinishBlockShape<R, E, O>(env: Env<R, O>, o: Output<O>, journalFailure: bool)
    ensures var u := FinishBlock<R, E, O>(env, o, journalFailure);
      && Quiet(u) && NoAppend(u) && OneReturn(u) && SilentAfterClose(u)
      && (forall k :: 0 <= k < |u| && u[k].Return? ==> u[k].output == o)
      && (Registered(DeadlineEvent) in u <==> IsDeadlineOutput(env, o))
      && (Registered(InternalErrorEvent) in u <==> !IsDeadlineOutput(env, o) && journalFailure)
  {
  }

  lemma ForwardBlockShape<R, E, O>(receipts: seq<R>, events: seq<E>)
    ensures var u := ForwardBlock<R, E, O>(receipts, events);
      && NoAppend(u) && OneReturn(u) && SilentAfterClose(u) && NotClosed(u)
      && (forall k :: 0 <= k < |u| ==> IsForward(u[k]))
      && (forall k :: 0 <= k < |u| && u[k].ForwardReceipt? ==> receipts == [u[k].receipt])
  {
  }

  // ----- the invariant -----

  ghost predicate PhaseInv<R(!new), E(!new), O(!new)>(env: Env<R, O>, w: World<R, E, O>) {
    match w.phase
    case Inspecting => NoAppend(w.trace)
    case Inspected(_) => NoAppend(w.trace)
    case Appending(_, r) => w.early == [r] && (exists i :: 0 <= i < |w.trace| && w.trace[i] == Append(r, env.digest(r)))
    case Acked(_, r) => w.early == [r] && AckBefore(env, w.trace, |w.trace|, r)
    case Committed(_) =>
      && |w.early| <= 1
      && (forall r <- w.early :: AckBefore(env, w.trace, |w.trace|, r))
      && (w.early == [] ==> w.gate.committed && w.late == [])
      && (w.gate.open ==> w.gate.committed)
    case Failed => true
  }

  ghost predicate GateInv<R(!new), E(!new), O(!new)>(w: World<R, E, O>) {
    && w.gate.open == !w.returned
    && (w.gate.open ==> w.gate.receipts == w.early + w.late && w.gate.events == w.emitted)
    && (w.gate.committed ==>
      w.phase.Committed? && Forwarded(w.trace) == ForwardBlock<R, E, O>(w.early + w.late, w.emitted))
    && (!w.gate.committed ==> Quiet(w.trace) && w.tooLate == [])
    && (!Started(w.phase) ==> w.late == [])
    && (w.journalFailure ==> w.phase.Failed?)
  }

  ghost predicate RaceInv<R(!new), E(!new), O(!new)>(w: World<R, E, O>) {
    && (w.returned ==> w.winner.Some?)
    && (w.winner.Some? && w.winner.value.Own? ==> w.gate.committed && w.phase == Committed(w.winner.value.value))
    && (w.winner.Some? && w.winner.value.InternalError? ==> w.phase.Failed?)
    && (!w.returned ==> NotClosed(w.trace))
    && (forall k :: 0 <= k < |w.trace| && w.trace[k].Return? ==> w.winner == Some(w.trace[k].output))
  }

  ghost predicate TraceInv<R(!new), E(!new), O(!new)>(env: Env<R, O>, w: World<R, E, O>) {
    && OneAppend(w.trace) && OneReturn(w.trace) && SilentAfterClose(w.trace)
    && Justified(env, w.trace, w.early) && ReturnJustified(env, w.trace, w.early) && AppendsEarly(w.trace, w.early)
  }

  /** The registration reports a deadline output or a journal failure, and nothing else. */
  ghost predicate ReportInv<R(!new), E(!new), O(!new)>(env: Env<R, O>, w: World<R, E, O>) {
    w.returned && w.winner.Some? ==>
      && (Registered(DeadlineEvent) in w.trace <==> IsDeadlineOutput(env, w.winner.value))
      && (Registered(InternalErrorEvent) in w.trace <==> w.winner.value.InternalError? && w.journalFailure)
  }

  ghost predicate Inv<R(!new), E(!new), O(!new)>(env: Env<R, O>, w: World<R, E, O>) {
    PhaseInv(env, w) && GateInv(w) && RaceInv(w) && TraceInv(env, w) && ReportInv(env, w)
  }

  lemma EventKeepsInv<R(!new), E(!new), O(!new)>(env: Env<R, O>, w: World<R, E, O>, e: E)
    requires Inv(env, w)
    ensures Inv(env, OnEvent(w, e))
  {
  }

  lemma ReceiptKeepsInv<R(!new), E(!new), O(!new)>(env: Env<R, O>, w: World<R, E, O>, r: R)
    requires Inv(env, w)
    ensures Inv(env, OnReceipt(w, r))
  {
    var v := OnReceipt(w, r);
    if !w.gate.committed {
      if Started(w.phase) {
        assert w.early + (w.late + [r]) == w.early + w.late + [r];
      } else {
        assert v.early + v.late == v.early;
        assert TraceInv(env, v);
      }
    }
  }

  /** What the forward block adds to a trace that had forwarded nothing. */
  lemma ForwardBlockAdds<R(!new), E(!new), O(!new)>(env: Env<R, O>, t: Trace<R, E, O>, early: seq<R>, late: seq<R>,
      events: seq<E>)
    requires Quiet(t) && NotClosed(t) && OneAppend(t) && |early| <= 1 && (early == [] ==> late == [])
    requires forall r <- early :: AckBefore(env, t, |t|, r)
    ensures var u := t + ForwardBlock<R, E, O>(early + late, events);
      && Forwarded(u) == ForwardBlock<R, E, O>(early + late, events)
      && OneAppend(u) && OneReturn(u) && SilentAfterClose(u) && NotClosed(u) && Justified(env, u, early)
      && ReturnJustified(env, u, early) && (AppendsEarly(t, early) ==> AppendsEarly(u, early))
      && (forall r <- early :: AckBefore(env, u, |u|, r))
  {
    hide OneAppend, OneReturn, SilentAfterClose, Justified, ReturnJustified, AckBefore, Forwarded, ForwardBlock;
    var receipts := early + late;
    var u := ForwardBlock<R, E, O>(receipts, events);
    ForwardBlockShape<R, E, O>(receipts, events);
    assert early != [] && |receipts| == 1 ==> receipts == early;
    JustifiedBlock(env, t, u, early);
    ForwardedAppend(t, u);
    ForwardedQuiet(t);
    ForwardedAll(u);
    ExtendOpen(t, u);
    ReturnJustifiedOpen(env, t, u, early);
    forall r <- early ensures AckBefore(env, t + u, |t + u|, r) {
      AckBeforeExtends(env, t, u, |t|, r);
      AckBeforeLater(env, t + u, |t|, |t + u|, r);
    }
  }

  lemma ResumeKeepsInv<R(!new), E(!new), O(!new)>(env: Env<R, O>, w: World<R, E, O>, output: O)
    requires Inv(env, w) && !w.gate.committed
    requires (w.phase.Acked? && w.phase.output == output)
      || (w.phase == Inspected(output) && w.gate.open && w.early == [])
    ensures Inv(env, OnResume(w, output))
  {
    if w.gate.open {
      ForwardBlockAdds(env, w.trace, w.early, w.late, w.emitted);
    } else {
      assert w.trace + [] == w.trace;
    }
  }

  /** Every enabled step keeps the invariant. */
  lemma StepKeepsInv<R(!new), E(!new), O(!new)>(env: Env<R, O>, w: World<R, E, O>, a: Action<R, E, O>)
    requires Inv(env, w) && Enabled(w, a)
    ensures Inv(env, Apply(env, w, a))
  {
    match a
    case DoEvent(e) => EventKeepsInv(env, w, e);
    case DoReceipt(r) => ReceiptKeepsInv(env, w, r);
    case InspectResolves(_) =>
    case InspectRejects =>
    case CommitStarts => CommitKeepsInv(env, w);
    case JournalReplies(reply) => ReplyKeepsInv(env, w, reply);
    case CommitResumes => ResumeKeepsInv(env, w, w.phase.output);
    case OperationSettles =>
    case DeadlineOrAbort =>
    case Finish => FinishKeepsInv(env, w);
  }

  lemma QuietSuffix<R(!new), E(!new), O(!new)>(env: Env<R, O>, w: World<R, E, O>, u: Trace<R, E, O>)
    requires Justified(env, w.trace, w.early) && Quiet(u)
    ensures Justified(env, w.trace + u, w.early)
    ensures Forwarded(w.trace + u) == Forwarded(w.trace)
    ensures Quiet(w.trace) ==> Quiet(w.trace + u)
    ensures forall r <- w.early ::
      AckBefore(env, w.trace, |w.trace|, r) ==> AckBefore(env, w.trace + u, |w.trace + u|, r)
  {
    JustifiedQuiet(env, w.trace, u, w.early);
    ForwardedAppend(w.trace, u);
    ForwardedQuiet(u);
    forall r <- w.early | AckBefore(env, w.trace, |w.trace|, r)
      ensures AckBefore(env, w.trace + u, |w.trace + u|, r)
    {
      AckBeforeExtends(env, w.trace, u, |w.trace|, r);
      AckBeforeLater(env, w.trace + u, |w.trace|, |w.trace + u|, r);
    }
  }

  lemma CommitKeepsInv<R(!new), E(!new), O(!new)>(env: Env<R, O>, w: World<R, E, O>)
    requires Inv(env, w) && w.phase.Inspected?
    ensures Inv(env, OnCommit(env, w))
  {
    hide Justified, ReturnJustified, OneAppend, OneReturn, SilentAfterClose;
    match StartCommit(env, w.gate)
    case GateFailed =>
    case NeedsAppend(r, digest) =>
      var u: Trace<R, E, O> := [Append(r, digest)];
      assert w.early + w.late == w.early;
      QuietSuffix(env, w, u);
      ExtendOne(w.trace, Append(r, digest));
      ReturnJustifiedOne(env, w.trace, Append(r, digest), w.early);
      assert (w.trace + u)[|w.trace|] == Append(r, digest);
    case NothingToAppend =>
      assert w.early + w.late == w.early;
      ResumeKeepsInv(env, w, w.phase.output);
  }

  lemma ReplyKeepsInv<R(!new), E(!new), O(!new)>(env: Env<R, O>, w: World<R, E, O>, reply: Reply)
    requires Inv(env, w) && w.phase.Appending?
    ensures Inv(env, OnReply(env, w, reply))
  {
    hide Quiet, NotClosed, Forwarded, ForwardBlock;
    var r := w.phase.receipt;
    if AckMatches(reply, env.digest(r)) {
      AckAdds(env, w, r);
      hide TraceInv, AckBefore, IsDeadlineOutput;
      var v := OnReply(env, w, reply);
      assert PhaseInv(env, v) && GateInv(v);
      assert RaceInv(v) && ReportInv(env, v);
    }
  }

  /** The acknowledgement of the appended receipt joins the trace and changes nothing else. */
  lemma AckAdds<R(!new), E(!new), O(!new)>(env: Env<R, O>, w: World<R, E, O>, r: R)
    requires TraceInv(env, w) && w.early == [r]
    requires exists i :: 0 <= i < |w.trace| && w.trace[i] == Append(r, env.digest(r))
    ensures var t: Trace<R, E, O> := w.trace + [AckMatched(r)];
      && TraceInv(env, w.(trace := t)) && AckBefore(env, t, |t|, r) && Forwarded(t) == Forwarded(w.trace)
      && (Quiet(w.trace) ==> Quiet(t)) && (NotClosed(w.trace) ==> NotClosed(t))
  {
    hide Justified, ReturnJustified, OneAppend, OneReturn, SilentAfterClose;
    var u: Trace<R, E, O> := [AckMatched(r)];
    QuietSuffix(env, w, u);
    ExtendOne(w.trace, AckMatched(r));
    ReturnJustifiedOne(env, w.trace, AckMatched(r), w.early);
    var t := w.trace + u;
    var i :| 0 <= i < |w.trace| && w.trace[i] == Append(r, env.digest(r));
    assert t[i] == w.trace[i] && t[|w.trace|] == AckMatched(r);
    assert AckBefore(env, t, |t|, r);
  }

  lemma FinishKeepsInv<R(!new), E(!new), O(!new)>(env: Env<R, O>, w: World<R, E, O>)
    requires Inv(env, w) && w.winner.Some? && !w.returned
    ensures Inv(env, Apply(env, w, Finish))
  {
    var u := FinishBlock<R, E, O>(env, w.winner.value, w.journalFailure);
    FinishBlockShape<R, E, O>(env, w.winner.value, w.journalFailure);
    QuietSuffix(env, w, u);
    FinishKeepsTrace(env, w, u);
    var v := Apply(env, w, Finish);
    assert PhaseInv(env, v) by {
      if w.phase.Appending? {
        var i :| 0 <= i < |w.trace| && w.trace[i] == Append(w.phase.receipt, env.digest(w.phase.receipt));
        assert (w.trace + u)[i] == w.trace[i];
      }
    }
  }

  lemma FinishKeepsTrace<R(!new), E(!new), O(!new)>(env: Env<R, O>, w: World<R, E, O>, u: Trace<R, E, O>)
    requires Inv(env, w) && w.winner.Some? && !w.returned
    requires Quiet(u) && NoAppend(u) && OneReturn(u) && SilentAfterClose(u)
    requires forall k :: 0 <= k < |u| && u[k].Return? ==> u[k].output == w.winner.value
    ensures TraceInv(env, w.(trace := w.trace + u))
    ensures NoAppend(w.trace) ==> NoAppend(w.trace + u)
    ensures forall k :: 0 <= k < |w.trace + u| && (w.trace + u)[k].Return? ==> (w.trace + u)[k].output == w.winner.value
  {
    JustifiedQuiet(env, w.trace, u, w.early);
    ExtendOpen(w.trace, u);
    ReturnJustifiedOpen(env, w.trace, u, w.early);
  }

  lemma {:induction false} RunKeepsInv<R(!new), E(!new), O(!new)>(env: Env<R, O>, actions: seq<Action<R, E, O>>)
    requires RunOf(env, actions).Some?
    ensures Inv(env, RunOf(env, actions).value)
    decreases |actions|
  {
    if actions != [] {
      var before := actions[..|actions| - 1];
      RunKeepsInv(env, before);
      StepKeepsInv(env, RunOf(env, before).value, actions[|actions| - 1]);
    }
  }

  // ----- main results -----

  /** Over every interleaving: at most one append and one return, evidence only after the matching
      acknowledgement, silence after close, and the own output only after the acknowledgement. */
  lemma GateSafety<R(!new), E(!new), O(!new)>(env: Env<R, O>, actions: seq<Action<R, E, O>>)
    requires RunOf(env, actions).Some?
    ensures var w := RunOf(env, actions).value;
      && OneAppend(w.trace) && OneReturn(w.trace) && SilentAfterClose(w.trace)
      && Justified(env, w.trace, w.early) && ReturnJustified(env, w.trace, w.early)
  {
    RunKeepsInv(env, actions);
  }

  /** The single receipt first, if there is just one, and then every event, in the order given. */
  predicate ReleasedAs<R(==), E(==), O(==)>(f: Trace<R, E, O>, receipts: seq<R>, events: seq<E>) {
    var n := if |receipts| == 1 then 1 else 0;
    && |f| == n + |events| && (n == 1 ==> f[0] == ForwardReceipt(receipts[0]))
    && forall k :: 0 <= k < |events| ==> f[n + k] == ForwardEvent(events[k])
  }

  lemma BlockIsReleased<R, E, O>(receipts: seq<R>, events: seq<E>)
    ensures ReleasedAs(ForwardBlock<R, E, O>(receipts, events), receipts, events)
  {
  }

  /** What an open gate passes on when its commit resumes; a closed one passes nothing on. */
  lemma ResumeReleases<R, E, O>(g: Gate<R, E>)
    ensures var (after, f) := ResumeCommit<R, E, O>(g);
      if g.open then ReleasedAs(f, g.receipts, g.events) && after == g.(committed := true) else f == [] && after == g
  {
    BlockIsReleased<R, E, O>(g.receipts, g.events);
    hide ReleasedAs;
  }

  /** Two forwarded entries keep their order. */
  lemma {:induction false} OrderKept<R, E, O>(t: Trace<R, E, O>, i: nat, j: nat) returns (a: nat, b: nat)
    requires i < j < |t| && IsForward(t[i]) && IsForward(t[j])
    ensures a < b < |Forwarded(t)| && Forwarded(t)[a] == t[i] && Forwarded(t)[b] == t[j]
    decreases |t|
  {
    var before := t[..|t| - 1];
    if j == |t| - 1 {
      a := PlaceKept(before, i);
      b := |Forwarded(before)|;
    } else {
      a, b := OrderKept(before, i, j);
    }
  }

  lemma {:induction false} PlaceKept<R, E, O>(t: Trace<R, E, O>, i: nat) returns (a: nat)
    requires i < |t| && IsForward(t[i])
    ensures a < |Forwarded(t)| && Forwarded(t)[a] == t[i]
    decreases |t|
  {
    var before := t[..|t| - 1];
    if i == |t| - 1 {
      a := |Forwarded(before)|;
    } else {
      a := PlaceKept(before, i);
    }
  }

  /** In every run no receipt is passed on after an event. */
  lemma ReceiptBeforeEvents<R(!new), E(!new), O(!new)>(env: Env<R, O>, actions: seq<Action<R, E, O>>, i: nat, j: nat)
    requires RunOf(env, actions).Some? && i < j < |RunOf(env, actions).value.trace|
    ensures var t := RunOf(env, actions).value.trace; !(t[i].ForwardEvent? && t[j].ForwardReceipt?)
  {
    RunKeepsInv(env, actions);
    var w := RunOf(env, actions).value;
    if w.trace[i].ForwardEvent? && w.trace[j].ForwardReceipt? {
      var a, b := OrderKept(w.trace, i, j);
      ForwardedQuietOr(env, w);
      BlockIsReleased<R, E, O>(w.early + w.late, w.emitted);
    }
  }

  lemma ForwardedQuietOr<R(!new), E(!new), O(!new)>(env: Env<R, O>, w: World<R, E, O>)
    requires Inv(env, w)
    ensures Forwarded(w.trace) == if w.gate.committed then ForwardBlock<R, E, O>(w.early + w.late, w.emitted) else []
  {
    if !w.gate.committed {
      ForwardedQuiet(w.trace);
    }
  }

  // ----- what the journal replied -----

  /** A receipt counts as acknowledged only by a reply with its own digest; any other reply fails the
      operation for good. */
  ghost predicate Replied<R(!new), E(!new), O(!new)>(env: Env<R, O>, actions: seq<Action<R, E, O>>, w: World<R, E, O>) {
    && (forall r :: AckMatched(r) in w.trace ==> JournalReplies(Acknowledged(env.digest(r))) in actions)
    && (forall reply :: JournalReplies(reply) in actions ==>
          w.phase.Failed? || exists r :: AckMatched(r) in w.trace && reply == Acknowledged(env.digest(r)))
  }

  lemma StepReplied<R(!new), E(!new), O(!new)>(env: Env<R, O>, before: seq<Action<R, E, O>>, w: World<R, E, O>,
      a: Action<R, E, O>)
    requires Enabled(w, a) && Replied(env, before, w)
    ensures Replied(env, before + [a], Apply(env, w, a))
  {
    hide ForwardBlock;
    var v := Apply(env, w, a);
    assert w.trace <= v.trace;
    forall r | AckMatched(r) in v.trace
      ensures AckMatched(r) in w.trace || (a.JournalReplies? && a.reply == Acknowledged(env.digest(r)))
    {
      AckAddedByReply(env, w, a, r);
    }
    forall reply | JournalReplies(reply) in before + [a] && !v.phase.Failed?
      ensures exists r :: AckMatched(r) in v.trace && reply == Acknowledged(env.digest(r))
    {
      if JournalReplies(reply) in before {
        var r :| AckMatched(r) in w.trace && reply == Acknowledged(env.digest(r));
        assert AckMatched(r) in v.trace;
      } else {
        assert AckMatched(w.phase.receipt) in v.trace;
      }
    }
  }

  lemma AckAddedByReply<R(!new), E(!new), O(!new)>(env: Env<R, O>, w: World<R, E, O>, a: Action<R, E, O>, r: R)
    requires Enabled(w, a) && AckMatched(r) in Apply(env, w, a).trace
    ensures AckMatched(r) in w.trace || (a.JournalReplies? && a.reply == Acknowledged(env.digest(r)))
  {
    hide ForwardBlock, FinishBlock, EmitEvent, EmitReceipt;
    BlockHasNoAck<R, E, O>(w.gate.receipts, w.gate.events, r);
    if a.Finish? {
      FinishHasNoAck<R, E, O>(env, w.winner.value, w.journalFailure, r);
    }
  }

  lemma BlockHasNoAck<R, E, O>(receipts: seq<R>, events: seq<E>, r: R)
    ensures AckMatched(r) !in ForwardBlock<R, E, O>(receipts, events)
  {
  }

  lemma FinishHasNoAck<R, E, O>(env: Env<R, O>, o: Output<O>, journalFailure: bool, r: R)
    ensures AckMatched(r) !in FinishBlock<R, E, O>(env, o, journalFailure)
  {
  }

  lemma {:induction false} RepliesDecide<R(!new), E(!new), O(!new)>(env: Env<R, O>, actions: seq<Action<R, E, O>>)
    requires RunOf(env, actions).Some?
    ensures Replied(env, actions, RunOf(env, actions).value)
    decreases |actions|
  {
    if actions != [] {
      var before, last := actions[..|actions| - 1], actions[|actions| - 1];
      RepliesDecide(env, before);
      StepReplied(env, before, RunOf(env, before).value, last);
      assert actions == before + [last];
    }
  }

  predicate AllAcknowledged<R(==), E(==), O(==)>(env: Env<R, O>, t: Trace<R, E, O>, receipts: seq<R>) {
    forall r <- receipts :: AckBefore(env, t, |t|, r)
  }

  /** When the own output is returned, the gate has released everything it held; every receipt the
      inspector ever produced was acknowledged exactly when it produced no different one after
      commit started; and the receipt itself is passed on exactly when none arrived while the
      append was awaited. */
  lemma OwnOutputExact<R(!new), E(!new), O(!new)>(env: Env<R, O>, actions: seq<Action<R, E, O>>, o: O)
    requires RunOf(env, actions).Some? && Return(Own(o)) in RunOf(env, actions).value.trace
    ensures var w := RunOf(env, actions).value;
      && |w.early| <= 1
      && ReleasedAs(Forwarded(w.trace), w.early + w.late, w.emitted)
      && (AllAcknowledged(env, w.trace, w.early + w.late + w.tooLate) <==>
        forall r <- w.late + w.tooLate :: r in w.early)
      && (forall r <- w.early :: ForwardReceipt(r) in w.trace <==> w.late == [])
  {
    RunKeepsInv(env, actions);
    var w := RunOf(env, actions).value;
    assert w.gate.committed && AppendsEarly(w.trace, w.early);
    hide TraceInv, ReportInv, ForwardBlock, AckBefore, AppendsEarly, RunOf;
    BlockIsReleased<R, E, O>(w.early + w.late, w.emitted);
    forall r | AckBefore(env, w.trace, |w.trace|, r)
      ensures r in w.early
    {
      AckedIsEarly(env, w.trace, w.early, r);
    }
    hide ReleasedAs;
    forall r <- w.early
      ensures ForwardReceipt(r) in w.trace <==> w.late == []
    {
      InForwarded(w.trace, ForwardReceipt(r));
      ReleasedReceipt(Forwarded(w.trace), w.early + w.late, w.emitted, r);
      assert w.late == [] ==> w.early + w.late == [r];
    }
  }

  lemma AckedIsEarly<R, E, O>(env: Env<R, O>, t: Trace<R, E, O>, early: seq<R>, r: R)
    requires AppendsEarly(t, early) && AckBefore(env, t, |t|, r)
    ensures r in early
  {
    var i, j :| 0 <= i < j < |t| && t[i] == Append(r, env.digest(r)) && t[j] == AckMatched(r);
  }

  lemma ReleasedReceipt<R, E, O>(f: Trace<R, E, O>, receipts: seq<R>, events: seq<E>, r: R)
    requires ReleasedAs(f, receipts, events)
    ensures ForwardReceipt(r) in f <==> receipts == [r]
  {
    var n := |f| - |events|;
    forall k | n <= k < |f|
      ensures f[k] == ForwardEvent(events[k - n])
    {
      assert f[n + (k - n)] == ForwardEvent(events[k - n]);
    }
    if receipts == [r] {
      assert f[0] == ForwardReceipt(r);
    }
  }

  lemma {:induction false} InForwarded<R, E, O>(t: Trace<R, E, O>, e: Entry<R, E, O>)
    requires IsForward(e)
    ensures e in t <==> e in Forwarded(t)
    decreases |t|
  {
    if t != [] {
      InForwarded(t[..|t| - 1], e);
      assert t == t[..|t| - 1] + [t[|t| - 1]];
    }
  }

  /** Every return is reported by the registration exactly as its kind demands. */
  lemma ReportExact<R(!new), E(!new), O(!new)>(env: Env<R, O>, actions: seq<Action<R, E, O>>, o: Output<O>)
    requires RunOf(env, actions).Some? && Return(o) in RunOf(env, actions).value.trace
    ensures var w := RunOf(env, actions).value;
      && (Registered(DeadlineEvent) in w.trace <==> IsDeadlineOutput(env, o))
      && (Registered(InternalErrorEvent) in w.trace <==> o.InternalError? && w.journalFailure)
      && (o.Own? ==> !w.journalFailure)
  {
    RunKeepsInv(env, actions);
  }

  /** In every reachable state commit refuses exactly for a closed gate, more than one receipt, or a
      receipt its schema rejects; an inspector that emits one valid receipt never trips it. */
  lemma CommitRefusesExactly<R(!new), E(!new), O(!new)>(env: Env<R, O>, actions: seq<Action<R, E, O>>)
    requires RunOf(env, actions).Some? && RunOf(env, actions).value.phase.Inspected?
    ensures var w := RunOf(env, actions).value;
      StartCommit(env, w.gate).GateFailed?
      <==> w.returned || |w.early| > 1 || (|w.early| == 1 && !env.receiptOk(w.early[0]))
  {
    RunKeepsInv(env, actions);
    var w := RunOf(env, actions).value;
    assert w.early + w.late == w.early;
  }

  /** A deadline or an abort is a step only while the race is open, so it decides the race. */
  lemma {:induction false} DeadlineDecides<R(!new), E(!new), O(!new)>(env: Env<R, O>, actions: seq<Action<R, E, O>>)
    requires RunOf(env, actions).Some?
    ensures var w := RunOf(env, actions).value;
      && (w.winner == Some(DeadlineExceeded) <==> DeadlineOrAbort in actions)
      && (w.returned ==> w.winner.Some? && Return(w.winner.value) in w.trace)
    decreases |actions|
  {
    if actions != [] {
      var before, last := actions[..|actions| - 1], actions[|actions| - 1];
      DeadlineDecides(env, before);
      RunKeepsInv(env, before);
      StepRace(env, RunOf(env, before).value, last);
      assert actions == before + [last];
    }
  }

  lemma StepRace<R(!new), E(!new), O(!new)>(env: Env<R, O>, w: World<R, E, O>, a: Action<R, E, O>)
    requires Inv(env, w) && Enabled(w, a)
    ensures var v := Apply(env, w, a);
      && (v.winner == Some(DeadlineExceeded) <==> a == DeadlineOrAbort || w.winner == Some(DeadlineExceeded))
      && w.trace <= v.trace
      && (v.returned && !w.returned ==> v.winner.Some? && Return(v.winner.value) in v.trace)
      && (w.winner.Some? ==> v.winner == w.winner)
  {
    match a
    case Finish =>
      var block := FinishBlock<R, E, O>(env, w.winner.value, w.journalFailure);
      assert block[|block| - 1] == Return(w.winner.value);
      assert (w.trace + block)[|w.trace + block| - 1] == block[|block| - 1];
    case _ =>
  }

  /** What a finished run answers, read off its actions and its last phase. */
  function AnswerOf<R(==), E(==), O(==)>(actions: seq<Action<R, E, O>>, phase: Phase<R, O>): Output<O> {
    if DeadlineOrAbort in actions then DeadlineExceeded
    else if phase.Committed? then Own(phase.output)
    else InternalError
  }

  /** The answer of every finished run: a deadline error exactly when a deadline or an abort decided
      the race, and otherwise the own output exactly when the evidence was committed. */
  lemma AnswerExact<R(!new), E(!new), O(!new)>(env: Env<R, O>, actions: seq<Action<R, E, O>>, o: Output<O>)
    requires RunOf(env, actions).Some? && RunOf(env, actions).value.returned
    ensures var w := RunOf(env, actions).value;
      && (Return(o) in w.trace <==> o == AnswerOf(actions, w.phase))
      && (Return(DeadlineExceeded) in w.trace <==> DeadlineOrAbort in actions)
      && (w.gate.committed ==>
        w.phase.Committed? && (Return(Own(w.phase.output)) in w.trace <==> DeadlineOrAbort !in actions))
  {
    RunKeepsInv(env, actions);
    DeadlineDecides(env, actions);
    var w := RunOf(env, actions).value;
    assert w.winner == Some(AnswerOf(actions, w.phase));
  }

  // ----- operations that are silent once they have returned -----

  /** The receipts an operation hands to the gate in a run, in order. */
  function ReceiptsOf<R, E, O>(actions: seq<Action<R, E, O>>): seq<R> {
    if actions == [] then []
    else
      var last := actions[|actions| - 1];
      ReceiptsOf(actions[..|actions| - 1]) + if last.DoReceipt? then [last.receipt] else []
  }

  function EventsOf<R, E, O>(actions: seq<Action<R, E, O>>): seq<E> {
    if actions == [] then []
    else
      var last := actions[|actions| - 1];
      EventsOf(actions[..|actions| - 1]) + if last.DoEvent? then [last.event] else []
  }

  /** The operation resolves, and hands nothing to the gate afterwards. */
  predicate SilentOnceResolved<R, E, O>(actions: seq<Action<R, E, O>>) {
    && (forall k :: 0 <= k < |actions| ==> !actions[k].InspectRejects?)
    && (forall i, j :: 0 <= i < j < |actions| && actions[i].InspectResolves? ==>
      !actions[j].DoReceipt? && !actions[j].DoEvent?)
  }

  predicate HasOutput<R, O>(p: Phase<R, O>) { !p.Inspecting? && !p.Failed? }

  predicate Resolves<R, E, O>(actions: seq<Action<R, E, O>>) {
    exists k :: 0 <= k < |actions| && actions[k].InspectResolves?
  }

  ghost predicate HistoryOk<R(!new), E(!new), O(!new)>(actions: seq<Action<R, E, O>>, w: World<R, E, O>) {
    && w.early == ReceiptsOf(actions) && w.emitted == EventsOf(actions) && w.late == [] && w.tooLate == []
    && (w.phase.Inspecting? <==> !Resolves(actions))
    && (HasOutput(w.phase) ==> InspectResolves(w.phase.output) in actions)
  }

  lemma StepHistory<R(!new), E(!new), O(!new)>(env: Env<R, O>, before: seq<Action<R, E, O>>, w: World<R, E, O>,
      a: Action<R, E, O>)
    requires Inv(env, w) && Enabled(w, a) && HistoryOk(before, w) && SilentOnceResolved(before + [a])
    ensures HistoryOk(before + [a], Apply(env, w, a))
  {
    hide TraceInv, PhaseInv, ReportInv, RaceInv;
    var actions, v := before + [a], Apply(env, w, a);
    assert actions[..|actions| - 1] == before && actions[|before|] == a;
    ResolvesSnoc(before, a);
    if a.DoReceipt? || a.DoEvent? {
      EmitsBeforeResolving(before, a);
    }
    if !a.DoReceipt? {
      assert ReceiptsOf(before) + [] == ReceiptsOf(before);
    }
    if !a.DoEvent? {
      assert EventsOf(before) + [] == EventsOf(before);
    }
    hide Resolves;
    assert HasOutput(v.phase) ==> InspectResolves(v.phase.output) in actions;
  }

  lemma ResolvesSnoc<R, E, O>(before: seq<Action<R, E, O>>, a: Action<R, E, O>)
    ensures Resolves(before + [a]) <==> Resolves(before) || a.InspectResolves?
  {
    var actions := before + [a];
    assert actions[|before|] == a;
    if Resolves(before) {
      var k :| 0 <= k < |before| && before[k].InspectResolves?;
      assert actions[k].InspectResolves?;
    }
  }

  lemma EmitsBeforeResolving<R, E, O>(before: seq<Action<R, E, O>>, a: Action<R, E, O>)
    requires SilentOnceResolved(before + [a]) && (a.DoReceipt? || a.DoEvent?)
    ensures !Resolves(before)
  {
    var actions := before + [a];
    forall k | 0 <= k < |before|
      ensures !before[k].InspectResolves?
    {
      assert actions[k] == before[k] && actions[|before|] == a;
    }
  }

  /** The history fields of the world are what the actions of such a run say they are. */
  lemma {:induction false} RunHistory<R(!new), E(!new), O(!new)>(env: Env<R, O>, actions: seq<Action<R, E, O>>)
    requires RunOf(env, actions).Some? && SilentOnceResolved(actions)
    ensures HistoryOk(actions, RunOf(env, actions).value)
    decreases |actions|
  {
    if actions != [] {
      var before, last := actions[..|actions| - 1], actions[|actions| - 1];
      assert actions == before + [last];
      RunHistory(env, before);
      RunKeepsInv(env, before);
      StepHistory(env, before, RunOf(env, before).value, last);
    }
  }

  /** For such operations the acknowledgement law needs no condition: when the own output is returned,
      every receipt was acknowledged before, and exactly the operation's receipts and events went out. */
  lemma SilentOperationAcknowledged<R(!new), E(!new), O(!new)>(env: Env<R, O>, actions: seq<Action<R, E, O>>, k: nat)
    requires RunOf(env, actions).Some? && SilentOnceResolved(actions)
    requires var t := RunOf(env, actions).value.trace; k < |t| && t[k].Return? && t[k].output.Own?
    ensures var t := RunOf(env, actions).value.trace;
      && InspectResolves(t[k].output.value) in actions
      && (forall r <- ReceiptsOf(actions) :: AckBefore(env, t, k, r))
      && ReleasedAs(Forwarded(t), ReceiptsOf(actions), EventsOf(actions))
  {
    GateSafety(env, actions);
    RunKeepsInv(env, actions);
    RunHistory(env, actions);
    var w := RunOf(env, actions).value;
    OwnOutputExact(env, actions, w.trace[k].output.value);
    assert w.early + w.late == ReceiptsOf(actions);
  }

  lemma RunStart<R, E, O>(env: Env<R, O>)
    ensures RunOf<R, E, O>(env, []) == Some(Start())
  {
  }

  lemma RunStep<R, E, O>(env: Env<R, O>, run: seq<Action<R, E, O>>, v: World<R, E, O>, a: Action<R, E, O>,
      w: World<R, E, O>)
    requires RunOf(env, run) == Some(v) && Enabled(v, a) && Apply(env, v, a) == w
    ensures RunOf(env, run + [a]) == Some(w)
  {
    assert (run + [a])[..|run|] == run;
  }

  function LateRun<R, E, O>(env: Env<R, O>, o: O, e: E, r: R, late: R): seq<Action<R, E, O>> {
    [DoEvent(e), DoReceipt(r), InspectResolves(o), CommitStarts, DoReceipt(late),
     JournalReplies(Acknowledged(env.digest(r))), CommitResumes, OperationSettles, Finish]
  }

  /** The guarantee needs the inspector to fall silent once it has returned: a second receipt handed
      over while the append is awaited is never acknowledged and also keeps the acknowledged one
      from being passed on, yet the events and the own output go out. */
  lemma LateReceiptEscapes<R, E, O>(env: Env<R, O>, o: O, e: E, r: R, late: R)
    requires env.receiptOk(r) && r != late && !env.isDeadline(o)
    ensures var run := RunOf(env, LateRun<R, E, O>(env, o, e, r, late));
      run.Some? && run.value.trace == [Append(r, env.digest(r)), AckMatched(r), ForwardEvent(e), Close, Return(Own(o))]
  {
    hide RunOf, LateRun;
    var run: seq<Action<R, E, O>> := [];
    var w: World<R, E, O> := Start();
    RunStart<R, E, O>(env);
    var v := w.(gate := Gate(true, false, [e], []), emitted := [e]);
    RunStep(env, run, w, DoEvent(e), v);
    run := run + [DoEvent(e)];
    w := v.(gate := Gate(true, false, [e], [r]), early := [r]);
    RunStep(env, run, v, DoReceipt(r), w);
    run := run + [DoReceipt(r)];
    v := w.(phase := Inspected(o));
    RunStep(env, run, w, InspectResolves(o), v);
    run := run + [InspectResolves(o)];
    LateRunCommits(env, o, e, r, late, run, v);
  }

  lemma LateRunCommits<R, E, O>(env: Env<R, O>, o: O, e: E, r: R, late: R, start: seq<Action<R, E, O>>,
      w0: World<R, E, O>)
    requires env.receiptOk(r) && r != late && !env.isDeadline(o)
    requires start == [DoEvent(e), DoReceipt(r), InspectResolves(o)] && RunOf(env, start) == Some(w0)
    requires w0 == World(Gate(true, false, [e], [r]), Inspected(o), false, None, false, [], [r], [], [], [e])
    ensures var run := RunOf(env, LateRun<R, E, O>(env, o, e, r, late));
      run.Some? && run.value.trace == [Append(r, env.digest(r)), AckMatched(r), ForwardEvent(e), Close, Return(Own(o))]
  {
    hide RunOf;
    var run := start;
    var w := w0.(phase := Appending(o, r), trace := [Append(r, env.digest(r))]);
    RunStep(env, run, w0, CommitStarts, w);
    run := run + [CommitStarts];
    var v := w.(gate := Gate(true, false, [e], [r, late]), late := [late]);
    RunStep(env, run, w, DoReceipt(late), v);
    run := run + [DoReceipt(late)];
    var reply := JournalReplies(Acknowledged(env.digest(r)));
    w := v.(phase := Acked(o, r), trace := [Append(r, env.digest(r)), AckMatched(r)]);
    RunStep(env, run, v, reply, w);
    run := run + [reply];
    v := w.(gate := w.gate.(committed := true), phase := Committed(o), trace := w.trace + [ForwardEvent(e)]);
    assert ForwardBlock<R, E, O>([r, late], [e]) == [ForwardEvent(e)];
    RunStep(env, run, w, CommitResumes, v);
    run := run + [CommitResumes];
    w := v.(winner := Some(Own(o)));
    RunStep(env, run, v, OperationSettles, w);
    run := run + [OperationSettles];
    RunStep(env, run, w, Finish, Apply(env, w, Finish));
    assert LateRun<R, E, O>(env, o, e, r, late) == run + [Finish];
  }

  function DeadlineRun<R, E, O>(env: Env<R, O>, o: O, r: R): seq<Action<R, E, O>> {
    [DoReceipt(r), InspectResolves(o), CommitStarts, DeadlineOrAbort,
     JournalReplies(Acknowledged(env.digest(r))), CommitResumes, Finish]
  }

  /** The converse of the guarantee fails: the deadline may win while the acknowledgement is already
      on its way, so an acknowledged and forwarded receipt does not imply the own output. */
  lemma ForwardedYetDeadline<R, E, O>(env: Env<R, O>, o: O, r: R)
    requires env.receiptOk(r)
    ensures var run := RunOf(env, DeadlineRun<R, E, O>(env, o, r));
      && run.Some?
      && run.value.trace == [Append(r, env.digest(r)), AckMatched(r), ForwardReceipt(r), Close,
        Registered(DeadlineEvent), Return(DeadlineExceeded)]
  {
    hide RunOf, DeadlineRun;
    var run: seq<Action<R, E, O>> := [];
    var w: World<R, E, O> := Start();
    RunStart<R, E, O>(env);
    var v := w.(gate := Gate(true, false, [], [r]), early := [r]);
    RunStep(env, run, w, DoReceipt(r), v);
    run := run + [DoReceipt(r)];
    w := v.(phase := Inspected(o));
    RunStep(env, run, v, InspectResolves(o), w);
    run := run + [InspectResolves(o)];
    DeadlineRunCommits(env, o, r, run, w);
  }

  lemma DeadlineRunCommits<R, E, O>(env: Env<R, O>, o: O, r: R, start: seq<Action<R, E, O>>, w0: World<R, E, O>)
    requires env.receiptOk(r) && start == [DoReceipt(r), InspectResolves(o)] && RunOf(env, start) == Some(w0)
    requires w0 == World(Gate(true, false, [], [r]), Inspected(o), false, None, false, [], [r], [], [], [])
    ensures var run := RunOf(env, DeadlineRun<R, E, O>(env, o, r));
      && run.Some?
      && run.value.trace == [Append(r, env.digest(r)), AckMatched(r), ForwardReceipt(r), Close,
        Registered(DeadlineEvent), Return(DeadlineExceeded)]
  {
    hide RunOf;
    var run := start;
    var w := w0.(phase := Appending(o, r), trace := [Append(r, env.digest(r))]);
    RunStep(env, run, w0, CommitStarts, w);
    run := run + [CommitStarts];
    var v := w.(winner := Some(DeadlineExceeded));
    RunStep(env, run, w, DeadlineOrAbort, v);
    run := run + [DeadlineOrAbort];
    var reply := JournalReplies(Acknowledged(env.digest(r)));
    w := v.(phase := Acked(o, r), trace := [Append(r, env.digest(r)), AckMatched(r)]);
    RunStep(env, run, v, reply, w);
    run := run + [reply];
    v := w.(gate := w.gate.(committed := true), phase := Committed(o), trace := w.trace + [ForwardReceipt(r)]);
    assert ForwardBlock<R, E, O>([r], []) == [ForwardReceipt(r)];
    RunStep(env, run, w, CommitResumes, v);
    run := run + [CommitResumes];
    RunStep(env, run, v, Finish, Apply(env, v, Finish));
    assert DeadlineRun<R, E, O>(env, o, r) == run + [Finish];
  }
}
