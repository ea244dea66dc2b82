/** The inspector behind the gate: its evidence discipline and the gate protocol together. */
module InspectorGate {
  import opened Hashing
  import opened Evidence
  import EvidenceGate

  type GateEnv = EvidenceGate.Env<Receipt, Output>
  type GateAction = EvidenceGate.Action<Receipt, Event, Output>

  /** The registration's view of receipts and of the fixed deadline output. */
  ghost predicate Faithful(env: GateEnv) {
    && (forall r: Receipt :: env.receiptOk(r) <==> ReceiptOk(r))
    && (forall o: Output :: env.isDeadline(o) <==> o == Failure(DeadlineExceeded))
  }

  /** The run carries out this inspector call: the actions hand over exactly its receipts and its
      events, in order and before it resolves, and it resolves with its output. */
  ghost predicate Carries(actions: seq<GateAction>, o: Outcome) {
    && EvidenceGate.SilentOnceResolved(actions)
    && EvidenceGate.ReceiptsOf(actions) == o.log.receipts && EvidenceGate.EventsOf(actions) == o.log.events
    && forall k :: 0 <= k < |actions| && actions[k].InspectResolves? ==> actions[k].output == o.output
  }

  /** An open gate never refuses a disciplined call: no receipt, or one valid receipt to append. The
      more-than-one-receipt branch does not occur, and a success always goes through the journal. */
  lemma DisciplinedNeverTrips(env: GateEnv, actions: seq<GateAction>, h: Hash, op: Operation, o: Outcome)
    requires Faithful(env) && Disciplined(h, op, o) && Carries(actions, o)
    requires var run := EvidenceGate.RunOf(env, actions); run.Some? && run.value.phase.Inspected? && !run.value.returned
    ensures var start := EvidenceGate.StartCommit(env, EvidenceGate.RunOf(env, actions).value.gate);
      if o.log.receipts == [] then start.NothingToAppend?
      else start == EvidenceGate.NeedsAppend(o.log.receipts[0], env.digest(o.log.receipts[0]))
    ensures !o.output.Failure? ==> o.log.receipts != []
  {
    EvidenceGate.CommitRefusesExactly(env, actions);
    EvidenceGate.RunKeepsInv(env, actions);
    EvidenceGate.RunHistory(env, actions);
    var w := EvidenceGate.RunOf(env, actions).value;
    assert w.early + w.late == w.early;
  }

  /** Whenever an own output is returned in a run that carries out a disciplined call, it is the
      output of that call, every receipt of the call was appended and acknowledged before, what passed
      the gate is exactly the call's receipt and event, and the registration adds nothing. */
  lemma ReturnedIsAcknowledged(env: GateEnv, actions: seq<GateAction>, h: Hash, op: Operation, o: Outcome, k: nat)
    requires Faithful(env) && Disciplined(h, op, o) && Carries(actions, o) && EvidenceGate.RunOf(env, actions).Some?
    requires var t := EvidenceGate.RunOf(env, actions).value.trace; k < |t| && t[k].Return? && t[k].output.Own?
    ensures var t := EvidenceGate.RunOf(env, actions).value.trace;
      && t[k].output == EvidenceGate.Own(o.output)
      && (forall r <- o.log.receipts :: EvidenceGate.AckBefore(env, t, k, r))
      && EvidenceGate.Forwarded(t) ==
        (if o.log.receipts == [] then [] else [EvidenceGate.ForwardReceipt(o.log.receipts[0])])
        + [EvidenceGate.ForwardEvent(o.log.events[0])]
      && EvidenceGate.Registered(EvidenceGate.DeadlineEvent) !in t
      && EvidenceGate.Registered(EvidenceGate.InternalErrorEvent) !in t
  {
    EvidenceGate.SilentOperationAcknowledged(env, actions, k);
    EvidenceGate.ReportExact(env, actions, EvidenceGate.Own(o.output));
    ReleasedOne(EvidenceGate.Forwarded(EvidenceGate.RunOf(env, actions).value.trace), o.log.receipts, o.log.events);
  }

  lemma ReleasedOne(f: EvidenceGate.Trace<Receipt, Event, Output>, receipts: seq<Receipt>, events: seq<Event>)
    requires EvidenceGate.ReleasedAs(f, receipts, events) && |receipts| <= 1 && |events| == 1
    ensures f == (if receipts == [] then [] else [EvidenceGate.ForwardReceipt(receipts[0])])
      + [EvidenceGate.ForwardEvent(events[0])]
  {
  }
}
