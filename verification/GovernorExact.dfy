/** What each step of the read-tool governor decides over whole runs, said in terms of the admission
    log, the calls in flight and the start times alone. */
module GovernorExact {
  import opened Hashing
  import opened Governor

  // ----- the budget of a record, read off the admission log -----

  /** Admissions on one record with a time after `since` and not after `until`. */
  ghost function AdmittedWithin<R>(log: seq<Admission<R>>, r: R, since: int, until: int): nat {
    if log == [] then 0
    else
      var x := log[|log| - 1];
      AdmittedWithin(log[..|log| - 1], r, since, until) + if x.record == r && since < x.time <= until then 1 else 0
  }

  ghost function CountLater(times: seq<int>, since: int): nat {
    if times == [] then 0 else (if times[0] > since then 1 else 0) + CountLater(times[1..], since)
  }

  lemma {:induction false} CountLaterAppend(times: seq<int>, x: int, since: int)
    ensures CountLater(times + [x], since) == CountLater(times, since) + if x > since then 1 else 0
  {
    if times != [] {
      CountLaterAppend(times[1..], x, since);
      assert (times + [x])[1..] == times[1..] + [x];
    }
  }

  lemma {:induction false} RecentCounts(times: seq<int>, since: int)
    ensures |Recent(times, since)| == CountLater(times, since)
  {
    if times != [] {
      RecentCounts(times[1..], since);
    }
  }

  /** Entries that are not later do not count. */
  lemma {:induction false} CountLaterSuffix(times: seq<int>, d: nat, since: int)
    requires d <= |times| && forall i | 0 <= i < d :: times[i] <= since
    ensures CountLater(times[d..], since) == CountLater(times, since)
    decreases d
  {
    if d > 0 {
      assert times[1..][d - 1..] == times[d..];
      CountLaterSuffix(times[1..], d - 1, since);
    } else {
      assert times[0..] == times;
    }
  }

  lemma {:induction false} WithinIsLater<R>(log: seq<Admission<R>>, r: R, since: int, until: int)
    requires forall i | 0 <= i < |TimesOf(log, r)| :: TimesOf(log, r)[i] <= until
    ensures AdmittedWithin(log, r, since, until) == CountLater(TimesOf(log, r), since)
  {
    if log != [] {
      var before, x := log[..|log| - 1], log[|log| - 1];
      var times := TimesOf(before, r);
      assert x.record == r ==> TimesOf(log, r)[|times|] == x.time;
      assert forall i | 0 <= i < |times| :: times[i] == TimesOf(log, r)[i];
      WithinIsLater(before, r, since, until);
      CountLaterAppend(times, x.time, since);
      assert x.record != r ==> TimesOf(log, r) == times;
    }
  }

  /** What a record remembers of its admissions is what the log has of the window. */
  lemma BudgetIsLog<R>(p: Policy, w: World<R>, r: R, now: int)
    requires WindowInv(p, w) && r in w.heap && w.now <= now
    ensures |Recent(w.heap[r].timestamps, now - p.windowMs)| == AdmittedWithin(w.admitted, r, now - p.windowMs, now)
  {
    assert RecordWindow(p, w, r);
    var kept, times, since := w.heap[r].timestamps, TimesOf(w.admitted, r), now - p.windowMs;
    hide Recent, TimesOf;
    RecentCounts(kept, since);
    CountLaterSuffix(times, |times| - |kept|, since);
    WithinIsLater(w.admitted, r, since, now);
  }

  lemma {:induction false} UnusedHasNoEntries<R>(log: seq<Admission<R>>, r: R, since: int, until: int)
    requires forall k | 0 <= k < |log| :: log[k].record != r
    ensures AdmittedWithin(log, r, since, until) == 0
  {
    if log != [] {
      UnusedHasNoEntries(log[..|log| - 1], r, since, until);
    }
  }

  // ----- what a start decides -----

  /** No call in flight holds the record of this scope. */
  ghost predicate Quiescent<R>(w: World<R>, s: string) {
    s in w.table && forall c | c in w.inFlight :: w.inFlight[c].record != w.table[s]
  }

  lemma IdleIsQuiescent<R>(p: Policy, w: World<R>, s: string)
    requires Core(p, w)
    ensures Idle(s, w.table, w.heap) <==> Quiescent(w, s)
  {
    if s in w.table {
      var r := w.table[s];
      assert SlotOk(p, w, r);
      if Idle(s, w.table, w.heap) {
        assert HeldBy(w, r) == {};
        forall c | c in w.inFlight
          ensures w.inFlight[c].record != r
        {
          assert c !in HeldBy(w, r);
        }
      }
      if Quiescent(w, s) {
        assert HeldBy(w, r) == {};
      }
    }
  }

  /** A scope gets a record when it has one, when the map has room or when some scope can make room. */
  ghost predicate HasRecord<R>(w: World<R>, s: string) {
    s in w.table || |w.order| < 1_024 || exists v :: Quiescent(w, v)
  }

  /** A valid call of a scope with a record is logged if and only if the log has fewer than maxRequests
      entries on that record within the window that ends now. It then goes in flight if and only if
      fewer than maxConcurrent calls hold the record. A call that does not go in flight is reported
      at once: as invalid, or else as unavailable. */
  ghost predicate StartDecided<R>(p: Policy, w: World<R>, w': World<R>, call: nat, scope: string, inputOk: bool, t: int,
      unused: R) {
    var r := if scope in w.table then w.table[scope] else unused;
    var budget := inputOk && HasRecord(w, scope)
      && AdmittedWithin(w.admitted, r, t - p.windowMs, t) < p.maxRequests;
    var slot := |set c | c in w.inFlight && w.inFlight[c].record == r| < p.maxConcurrent;
    && w'.started == w.started + {call} && w'.now == t
    && w'.admitted == w.admitted + (if budget then [Admission(scope, r, t)] else [])
    && w'.inFlight == (if budget && slot then w.inFlight[call := Ticket(scope, r)] else w.inFlight)
    && w'.events == w.events +
      (if budget && slot then [] else [Event(call, scope, Blocked(if inputOk then Unavailable else Validation))])
  }

  lemma AcquiredRecord<R>(p: Policy, w: World<R>, scope: string, now: int, unused: R)
    requires Core(p, w) && unused !in w.heap
    ensures var (v, held) := Acquire(w, scope, now, unused);
      && (held.Some? <==> HasRecord(w, scope))
      && v == w.(order := v.order, table := v.table, heap := v.heap)
      && match held
         case None => v == w
         case Some(r) =>
           && r == (if scope in w.table then w.table[scope] else unused)
           && r in v.heap && v.heap[r].active == (if r in w.heap then w.heap[r].active else 0)
           && v.heap[r].timestamps == (if r in w.heap then w.heap[r].timestamps else [])
  {
    VictimIsOldestIdle(w.order, w.table, w.heap);
    forall s
      ensures Idle(s, w.table, w.heap) <==> Quiescent(w, s)
    {
      IdleIsQuiescent(p, w, s);
    }
    AcquireFrame(w, scope, now, unused);
    hide Victim, Quiescent, SlotInv, WindowInv;
    assert forall s :: s in w.order <==> s in w.table;
  }

  lemma BeginIs<R>(p: Policy, w: World<R>, call: nat, scope: string, inputOk: bool, t1: int, t2: int, unused: R)
    ensures var w1 := w.(started := w.started + {call}, now := t2);
      Begin(p, w, call, scope, inputOk, t1, t2, unused) ==
        if !inputOk then w1.(events := w.events + [Event(call, scope, Blocked(Validation))])
        else match Acquire(w1, scope, t1, unused)
          case (v, None) => v.(events := v.events + [Event(call, scope, Blocked(Unavailable))])
          case (v, Some(r)) => BeginOn(p, v, call, scope, r, t2)
  {
  }

  lemma ClockChangesNoRecord<R>(w: World<R>, call: nat, t: int, scope: string)
    ensures HasRecord(w.(started := w.started + {call}, now := t), scope) <==> HasRecord(w, scope)
  {
    var v := w.(started := w.started + {call}, now := t);
    forall s
      ensures Quiescent(v, s) <==> Quiescent(w, s)
    {
    }
  }

  lemma StartDecides<R>(p: Policy, w: World<R>, call: nat, scope: string, inputOk: bool, t1: int, t2: int, unused: R)
    requires Inv(p, w) && Enabled(w, Starts(call, scope, inputOk, t1, t2, unused))
    ensures StartDecided(p, w, Begin(p, w, call, scope, inputOk, t1, t2, unused), call, scope, inputOk, t2, unused)
  {
    hide Begin, BeginOn, Acquire, HasRecord, AdmittedWithin, Inv, Core, Recent;
    var w1 := w.(started := w.started + {call}, now := t2);
    BeginIs(p, w, call, scope, inputOk, t1, t2, unused);
    if inputOk {
      var (v, held) := Acquire(w1, scope, t1, unused);
      LaterInv(p, w, call, t2);
      AcquiredRecord(p, w1, scope, t1, unused);
      ClockChangesNoRecord(w, call, t2, scope);
      if held.Some? {
        RecordFacts(p, w, held.value, t2);
        BeginOnDoes(p, v, call, scope, held.value, t2);
      }
    }
  }

  lemma BeginOnDoes<R>(p: Policy, v: World<R>, call: nat, scope: string, r: R, t: int)
    requires r in v.heap
    ensures var w', l := BeginOn(p, v, call, scope, r, t), v.heap[r];
      var budget, slot := |Recent(l.timestamps, t - p.windowMs)| < p.maxRequests, l.active < p.maxConcurrent;
      && w'.started == v.started && w'.now == v.now && w'.order == v.order && w'.table == v.table
      && w'.admitted == v.admitted + (if budget then [Admission(scope, r, t)] else [])
      && w'.inFlight == (if budget && slot then v.inFlight[call := Ticket(scope, r)] else v.inFlight)
      && w'.events == v.events + (if budget && slot then [] else [Event(call, scope, Blocked(Unavailable))])
      && w'.heap.Keys == v.heap.Keys && w'.heap[r].lastTouchedAt == t
      && forall o :: o in v.heap && o != r ==> w'.heap[o] == v.heap[o]
  {
  }

  /** Budget and slots of a record, in use or not. */
  lemma RecordFacts<R>(p: Policy, w: World<R>, r: R, now: int)
    requires Inv(p, w) && w.now <= now
    ensures var l := Fields(w, r);
      && |Recent(l.timestamps, now - p.windowMs)| == AdmittedWithin(w.admitted, r, now - p.windowMs, now)
      && l.active == |set c | c in w.inFlight && w.inFlight[c].record == r|
  {
    assert HeldBy(w, r) == set c | c in w.inFlight && w.inFlight[c].record == r;
    if r in w.heap {
      BudgetIsLog(p, w, r, now);
      assert SlotOk(p, w, r);
    } else {
      UnusedHasNoEntries(w.admitted, r, now - p.windowMs, now);
      forall c | c in w.inFlight
        ensures w.inFlight[c].record != r
      {
        assert TicketOk(w, c);
      }
      assert HeldBy(w, r) == {};
    }
  }

  lemma LaterInv<R>(p: Policy, w: World<R>, call: nat, t: int)
    requires Inv(p, w) && w.now <= t && call !in w.started
    ensures var v := w.(started := w.started + {call}, now := t);
      Core(p, v)
  {
    LogKeeps(p, w, w.started + {call}, t, w.events);
  }

  // ----- whom a start evicts -----

  /** The time of the last valid start of a scope. */
  ghost function LastStart<R>(actions: seq<Action<R>>, s: string): Option<int> {
    if actions == [] then None
    else
      var a := actions[|actions| - 1];
      if a.Starts? && a.scope == s && a.inputOk then Some(a.t2) else LastStart(actions[..|actions| - 1], s)
  }

  /** Every tracked scope has its own record, and the record's last touch is the scope's last valid start. */
  ghost predicate Touched<R>(w: World<R>, actions: seq<Action<R>>) {
    && (forall s | s in w.table :: w.table[s] in w.heap)
    && (forall s | s in w.table :: LastStart(actions, s) == Some(w.heap[w.table[s]].lastTouchedAt))
    && (forall s, v | s in w.table && v in w.table && s != v :: w.table[s] != w.table[v])
  }

  /** How a start changes the map: nothing for a tracked scope; a new entry at the end otherwise, in a
      full map after the removal of the quiescent scope whose last valid start is earliest, the first of
      these in map order. */
  ghost predicate MapStep<R>(w: World<R>, w': World<R>, before: seq<Action<R>>, scope: string, unused: R) {
    if scope in w.table then w'.order == w.order && w'.table == w.table
    else if |w.order| < 1_024 then w'.order == w.order + [scope] && w'.table == w.table[scope := unused]
    else exists k ::
      && LeastRecent(w, before, k) && w'.order == w.order[..k] + w.order[k + 1..] + [scope]
      && w'.table == (w.table - {w.order[k]})[scope := unused]
  }

  ghost predicate LeastRecent<R>(w: World<R>, before: seq<Action<R>>, k: int) {
    && 0 <= k < |w.order| && Quiescent(w, w.order[k]) && LastStart(before, w.order[k]).Some?
    && forall j | 0 <= j < |w.order| && Quiescent(w, w.order[j]) ::
         && LastStart(before, w.order[j]).Some?
         && LastStart(before, w.order[k]).value <= LastStart(before, w.order[j]).value
         && (j < k ==> LastStart(before, w.order[k]).value < LastStart(before, w.order[j]).value)
  }

  lemma TouchedAtIsLastStart<R>(p: Policy, w: World<R>, before: seq<Action<R>>, s: string)
    requires Core(p, w) && Touched(w, before)
    ensures Idle(s, w.table, w.heap) <==> Quiescent(w, s)
    ensures Idle(s, w.table, w.heap) ==> LastStart(before, s) == Some(TouchedAt(s, w.table, w.heap))
  {
    IdleIsQuiescent(p, w, s);
  }

  lemma OldestIsLeastRecent<R>(p: Policy, w: World<R>, before: seq<Action<R>>, k: nat)
    requires Core(p, w) && Touched(w, before) && k < |w.order| && Idle(w.order[k], w.table, w.heap)
    requires forall j | 0 <= j < |w.order| && Idle(w.order[j], w.table, w.heap) ::
      && TouchedAt(w.order[k], w.table, w.heap) <= TouchedAt(w.order[j], w.table, w.heap)
      && (j < k ==> TouchedAt(w.order[k], w.table, w.heap) < TouchedAt(w.order[j], w.table, w.heap))
    ensures LeastRecent(w, before, k)
  {
    hide Core, Touched, Quiescent, LastStart, TouchedAt, Idle;
    TouchedAtIsLastStart(p, w, before, w.order[k]);
    forall j | 0 <= j < |w.order| && Quiescent(w, w.order[j])
      ensures Idle(w.order[j], w.table, w.heap)
      ensures LastStart(before, w.order[j]) == Some(TouchedAt(w.order[j], w.table, w.heap))
    {
      TouchedAtIsLastStart(p, w, before, w.order[j]);
    }
  }

  lemma VictimPlace<R>(order: seq<string>, table: map<string, R>, heap: map<R, Limiter>) returns (k: nat)
    requires Victim(order, table, heap).Some?
    ensures k < |order| && Idle(order[k], table, heap) && Victim(order, table, heap) == Some(order[k])
    ensures forall j | 0 <= j < |order| && Idle(order[j], table, heap) ::
      && TouchedAt(order[k], table, heap) <= TouchedAt(order[j], table, heap)
      && (j < k ==> TouchedAt(order[k], table, heap) < TouchedAt(order[j], table, heap))
  {
    VictimIsOldestIdle(order, table, heap);
    hide Victim, Idle, TouchedAt;
    var s := Victim(order, table, heap).value;
    k :| 0 <= k < |order| && order[k] == s &&
      forall j | 0 <= j < k && Idle(order[j], table, heap) ::
        TouchedAt(s, table, heap) < TouchedAt(order[j], table, heap);
  }

  lemma VictimIsLeastRecent<R>(p: Policy, w: World<R>, before: seq<Action<R>>) returns (k: nat)
    requires Core(p, w) && Touched(w, before) && Victim(w.order, w.table, w.heap).Some?
    ensures LeastRecent(w, before, k) && Victim(w.order, w.table, w.heap) == Some(w.order[k])
    ensures Without(w.order, w.order[k]) == w.order[..k] + w.order[k + 1..]
  {
    assert Distinct(w.order);
    hide Core, Touched, Victim, Without, Distinct, Idle, TouchedAt, LeastRecent;
    k := VictimPlace(w.order, w.table, w.heap);
    OldestIsLeastRecent(p, w, before, k);
    WithoutAt(w.order, k);
  }

  lemma AcquireMap<R>(p: Policy, w: World<R>, before: seq<Action<R>>, scope: string, t1: int, unused: R)
    requires Core(p, w) && Touched(w, before) && unused !in w.heap
    ensures var (v, held) := Acquire(w, scope, t1, unused);
      match held
      case None => v == w && scope !in w.table
      case Some(r) => MapStep(w, v, before, scope, unused)
  {
    hide LeastRecent, Without, Victim, Core, Touched;
    if scope !in w.table && |w.order| >= 1_024 && Victim(w.order, w.table, w.heap).Some? {
      var k := VictimIsLeastRecent(p, w, before);
    }
  }

  /** The record that is handed out is the scope's own or fresh, and no other record changes. */
  lemma AcquireTouches<R>(p: Policy, w: World<R>, before: seq<Action<R>>, scope: string, t1: int, unused: R)
    requires Core(p, w) && Touched(w, before) && unused !in w.heap
    ensures var (v, held) := Acquire(w, scope, t1, unused);
      held.Some? ==>
        && scope in v.table && v.table[scope] == held.value && held.value in v.heap
        && (forall s :: s in v.table && s != scope ==>
          s in w.table && v.table[s] == w.table[s] && v.table[s] != held.value)
        && (forall s :: s in v.table && s != scope ==> v.table[s] in v.heap && v.heap[v.table[s]] == w.heap[w.table[s]])
  {
    hide Victim, Without, SlotInv, WindowInv;
  }

  /** A start that gets no record leaves the touches alone; its scope is not tracked or it is invalid. */
  lemma TouchedWithout<R>(w: World<R>, w': World<R>, before: seq<Action<R>>, a: Action<R>)
    requires Touched(w, before) && w'.table == w.table && w'.heap == w.heap
    requires a.Starts? && (!a.inputOk || a.scope !in w.table)
    ensures Touched(w', before + [a])
  {
    assert (before + [a])[..|before|] == before;
  }

  lemma TouchedWith<R>(w: World<R>, w': World<R>, before: seq<Action<R>>, a: Action<R>)
    requires Touched(w, before) && a.Starts? && a.inputOk && a.scope in w'.table
    requires var r := w'.table[a.scope];
      && r in w'.heap && w'.heap[r].lastTouchedAt == a.t2
      && forall s :: s in w'.table && s != a.scope ==>
        && s in w.table && w'.table[s] == w.table[s] && w'.table[s] != r
        && w'.table[s] in w'.heap && w'.heap[w'.table[s]] == w.heap[w.table[s]]
    ensures Touched(w', before + [a])
  {
    assert (before + [a])[..|before|] == before;
  }

  lemma StartKeepsTouched<R>(p: Policy, w: World<R>, before: seq<Action<R>>, a: Action<R>)
    requires Inv(p, w) && Enabled(w, a) && a.Starts? && Touched(w, before)
    ensures Touched(Apply(p, w, a), before + [a])
  {
    var w1 := w.(started := w.started + {a.call}, now := a.t2);
    LaterInv(p, w, a.call, a.t2);
    assert Touched(w1, before);
    hide Begin, BeginOn, Acquire, HasRecord, Inv, Core, Touched;
    BeginIs(p, w, a.call, a.scope, a.inputOk, a.t1, a.t2, a.unused);
    var (v, held) := Acquire(w1, a.scope, a.t1, a.unused);
    AcquireMap(p, w1, before, a.scope, a.t1, a.unused);
    AcquireTouches(p, w1, before, a.scope, a.t1, a.unused);
    hide MapStep;
    if a.inputOk && held.Some? {
      BeginOnDoes(p, v, a.call, a.scope, held.value, a.t2);
      TouchedWith(w1, Apply(p, w, a), before, a);
    } else {
      TouchedWithout(w1, Apply(p, w, a), before, a);
    }
  }

  lemma StartMaps<R>(p: Policy, w: World<R>, before: seq<Action<R>>, a: Action<R>)
    requires Inv(p, w) && Enabled(w, a) && a.Starts? && Touched(w, before)
    ensures if a.inputOk && HasRecord(w, a.scope) then MapStep(w, Apply(p, w, a), before, a.scope, a.unused)
      else Apply(p, w, a).order == w.order && Apply(p, w, a).table == w.table
  {
    var w1 := w.(started := w.started + {a.call}, now := a.t2);
    LaterInv(p, w, a.call, a.t2);
    assert Touched(w1, before);
    hide Begin, BeginOn, Acquire, HasRecord, Inv, Core, Touched, MapStep;
    BeginIs(p, w, a.call, a.scope, a.inputOk, a.t1, a.t2, a.unused);
    var (v, held) := Acquire(w1, a.scope, a.t1, a.unused);
    AcquireMap(p, w1, before, a.scope, a.t1, a.unused);
    AcquiredRecord(p, w1, a.scope, a.t1, a.unused);
    ClockChangesNoRecord(w, a.call, a.t2, a.scope);
    if a.inputOk && held.Some? {
      BeginOnDoes(p, v, a.call, a.scope, held.value, a.t2);
      SameMapStep(w, w1, v, Apply(p, w, a), before, a.scope, a.unused);
    }
  }

  lemma SameMapStep<R>(w: World<R>, w1: World<R>, v: World<R>, w': World<R>, before: seq<Action<R>>, scope: string,
      unused: R)
    requires w1.order == w.order && w1.table == w.table && w1.inFlight == w.inFlight
    requires w'.order == v.order && w'.table == v.table
    ensures MapStep(w1, v, before, scope, unused) ==> MapStep(w, w', before, scope, unused)
  {
    forall s
      ensures Quiescent(w1, s) <==> Quiescent(w, s)
    {
    }
    forall k
      ensures LeastRecent(w1, before, k) <==> LeastRecent(w, before, k)
    {
      hide Quiescent, LastStart;
    }
  }

  lemma EndTouches<R>(p: Policy, w: World<R>, before: seq<Action<R>>, a: Action<R>)
    requires Inv(p, w) && Enabled(w, a) && a.Ends? && Touched(w, before)
    ensures Touched(Apply(p, w, a), before + [a])
  {
    assert (before + [a])[..|before|] == before;
    assert TicketOk(w, a.call);
  }

  lemma {:induction false} RunTouches<R>(p: Policy, run: seq<World<R>>, actions: seq<Action<R>>, k: nat)
    requires p.Valid() && IsRun(p, run, actions) && k < |run|
    ensures Touched(run[k], actions[..k])
  {
    if k > 0 {
      hide Touched, Inv, Begin, Finish;
      var a := actions[k - 1];
      RunTouches(p, run, actions, k - 1);
      RunKeepsInv(p, run, actions, k - 1);
      assert actions[..k] == actions[..k - 1] + [a];
      if a.Starts? {
        StartKeepsTouched(p, run[k - 1], actions[..k - 1], a);
      } else {
        EndTouches(p, run[k - 1], actions[..k - 1], a);
      }
    }
  }

  // ----- every step of every run -----

  /** An end frees the slot, reports the classified outcome under the scope of the call, and leaves the
      map and the admission log alone. */
  ghost predicate EndDecided<R>(w: World<R>, w': World<R>, call: nat, result: Execution, limits: Limits) {
    && call in w.inFlight && w'.inFlight == w.inFlight - {call}
    && w'.events == w.events + [Event(call, w.inFlight[call].scope, Classify(result, limits))]
    && w'.order == w.order && w'.table == w.table && w'.admitted == w.admitted
    && w'.started == w.started && w'.now == w.now
  }

  /** The whole effect of every step of every run. */
  lemma StepDecides<R>(p: Policy, run: seq<World<R>>, actions: seq<Action<R>>, k: nat)
    requires p.Valid() && IsRun(p, run, actions) && k < |actions|
    ensures match actions[k]
      case Starts(call, scope, inputOk, _, t, unused) =>
        && StartDecided(p, run[k], run[k + 1], call, scope, inputOk, t, unused)
        && (if inputOk && HasRecord(run[k], scope) then MapStep(run[k], run[k + 1], actions[..k], scope, unused)
            else run[k + 1].order == run[k].order && run[k + 1].table == run[k].table)
      case Ends(call, result, limits) => EndDecided(run[k], run[k + 1], call, result, limits)
  {
    hide StartDecided, HasRecord, MapStep, Touched, Inv, Begin;
    RunKeepsInv(p, run, actions, k);
    RunTouches(p, run, actions, k);
    match actions[k]
    case Starts(call, scope, inputOk, t1, t2, unused) =>
      StartDecides(p, run[k], call, scope, inputOk, t1, t2, unused);
      StartMaps(p, run[k], actions[..k], actions[k]);
    case Ends(_, _, _) =>
  }
}
