/** The process-global limiter of read-tool-governor.ts as a transition system over
    values. `R` is the identity of a limiter record, so that "the record a call holds"
    and "the record the map holds" can be told apart. */
module Governor {
  import opened Hashing

  const MAX_TRACKED_SCOPES := 1_024

  datatype Policy = Policy(maxConcurrent: nat, maxRequests: nat, windowMs: nat) {
    predicate Valid() { maxConcurrent > 0 && maxRequests > 0 && windowMs > 0 }
  }

  datatype Limiter = Limiter(active: nat, timestamps: seq<int>, lastTouchedAt: int)
  datatype Ticket<R> = Ticket(scope: string, record: R)
  datatype Admission<R> = Admission(scope: string, record: R, time: int)

  /** The descriptor's error-mapping classes, or the code of a tool's own error result. */
  datatype Denial = Validation | Unavailable | ResponseLimit | Timeout | Unexpected | ToolError(code: string)
  datatype Outcome = Success | Blocked(denial: Denial)
  datatype Event = Event(call: nat, scope: string, outcome: Outcome)

  datatype World<R> = World(
    order: seq<string>,            // iteration order of limiterStates
    table: map<string, R>,         // limiterStates
    heap: map<R, Limiter>,         // every record allocated so far
    inFlight: map<nat, Ticket<R>>, // calls between the slot increment and the finally block
    started: set<nat>,
    now: int,
    admitted: seq<Admission<R>>,   // history: calls that passed enforceWindow
    events: seq<Event>)            // history: emitted operational events

  /** The fields of a record; a dangling identity reads as a blank record, and the invariant
      below shows that no reachable world has one. */
  function Fields<R(==)>(w: World<R>, r: R): Limiter {
    if r in w.heap then w.heap[r] else Limiter(0, [], 0)
  }

  function Init<R(==)>(): World<R> { World([], map[], map[], map[], {}, 0, [], []) }

  // ----- enforceWindow -----

  function Recent(timestamps: seq<int>, windowStart: int): (kept: seq<int>)
    ensures |kept| <= |timestamps|
    ensures forall t | t in kept :: t in timestamps
  {
    if timestamps == [] then []
    else (if timestamps[0] > windowStart then [timestamps[0]] else []) + Recent(timestamps[1..], windowStart)
  }

  /** The entries later than the start of a window. */
  ghost function LaterThan(timestamps: seq<int>, windowStart: int): set<nat> {
    set k: nat | k < |timestamps| && timestamps[k] > windowStart
  }

  lemma {:induction false} RecentAreLater(timestamps: seq<int>, windowStart: int)
    ensures |Recent(timestamps, windowStart)| == |LaterThan(timestamps, windowStart)|
  {
    if timestamps == [] {
      assert LaterThan(timestamps, windowStart) == {};
    } else {
      var rest := timestamps[1..];
      RecentAreLater(rest, windowStart);
      var shifted := set k | k in LaterThan(rest, windowStart) :: k + 1;
      ShiftKeepsSize(LaterThan(rest, windowStart), shifted);
      forall k | k in LaterThan(timestamps, windowStart) && k > 0
        ensures k in shifted
      {
        assert rest[k - 1] == timestamps[k] && k - 1 in LaterThan(rest, windowStart);
      }
      forall k | k in shifted
        ensures k in LaterThan(timestamps, windowStart)
      {
        assert rest[k - 1] == timestamps[k];
      }
      assert 0 !in shifted;
      assert LaterThan(timestamps, windowStart) == shifted + if timestamps[0] > windowStart then {0} else {};
    }
  }

  lemma {:induction false} ShiftKeepsSize(a: set<nat>, b: set<nat>)
    requires forall k: nat :: k in b <==> 1 <= k && k - 1 in a
    ensures |b| == |a|
  {
    if a != {} {
      var x :| x in a;
      assert x + 1 in b;
      ShiftKeepsSize(a - {x}, b - {x + 1});
    }
  }

  function Touch(l: Limiter, now: int): Limiter { l.(lastTouchedAt := now) }

  predicate Passes(l: Limiter, now: int, p: Policy) {
    |Recent(l.timestamps, now - p.windowMs)| < p.maxRequests
  }

  function Enforce(l: Limiter, now: int, p: Policy): Limiter {
    var kept := Recent(l.timestamps, now - p.windowMs);
    Limiter(l.active, if Passes(l, now, p) then kept + [now] else kept, now)
  }

  // ----- getLimiterState -----

  predicate Idle<R(==)>(s: string, table: map<string, R>, heap: map<R, Limiter>) {
    s in table && table[s] in heap && heap[table[s]].active == 0
  }

  function TouchedAt<R(==)>(s: string, table: map<string, R>, heap: map<R, Limiter>): int
    requires Idle(s, table, heap)
  {
    heap[table[s]].lastTouchedAt
  }

  /** Filtering the idle scopes, sorting them stably by last touch and taking the first. */
  function Victim<R(==)>(order: seq<string>, table: map<string, R>, heap: map<R, Limiter>): Option<string> {
    if order == [] then None
    else
      var v := Victim(order[..|order| - 1], table, heap);
      var s := order[|order| - 1];
      if !Idle(s, table, heap) then v
      else if v.None? then Some(s)
      else if Idle(v.value, table, heap) && TouchedAt(v.value, table, heap) <= TouchedAt(s, table, heap) then v
      else Some(s)
  }

  /** The victim is idle, least recently touched among the idle, and the first such in map order;
      there is none exactly when no tracked scope is idle. */
  lemma {:induction false} VictimIsOldestIdle<R>(order: seq<string>, table: map<string, R>, heap: map<R, Limiter>)
    ensures var v := Victim(order, table, heap);
            && (v.None? <==> forall s | s in order :: !Idle(s, table, heap))
            && (v.Some? ==>
                && v.value in order && Idle(v.value, table, heap)
                && (forall s | s in order && Idle(s, table, heap) ::
                  TouchedAt(v.value, table, heap) <= TouchedAt(s, table, heap))
                && exists k :: 0 <= k < |order| && order[k] == v.value &&
                     forall j | 0 <= j < k && Idle(order[j], table, heap) ::
                       TouchedAt(v.value, table, heap) < TouchedAt(order[j], table, heap))
  {
    if order != [] {
      var last := |order| - 1;
      VictimIsOldestIdle(order[..last], table, heap);
      assert order == order[..last] + [order[last]];
      var v := Victim(order, table, heap);
      if v.Some? && v != Victim(order[..last], table, heap) {
        assert order[last] == v.value;
      }
    }
  }

  function Without(order: seq<string>, s: string): (rest: seq<string>)
    ensures forall x :: x in rest <==> x in order && x != s
    ensures Distinct(order) ==> Distinct(rest)
    ensures |rest| <= |order| && (s in order ==> |rest| < |order|)
  {
    if order == [] then []
    else
      var others := Without(order[1..], s);
      assert forall x :: x in order <==> x == order[0] || x in order[1..];
      assert Distinct(order) ==> Distinct(order[1..]) && order[0] !in order[1..];
      if order[0] == s then others else [order[0]] + others
  }

  predicate Distinct(order: seq<string>) {
    forall i, j | 0 <= i < j < |order| :: order[i] != order[j]
  }

  lemma {:induction false} WithoutAt(order: seq<string>, k: nat)
    requires k < |order| && Distinct(order)
    ensures Without(order, order[k]) == order[..k] + order[k + 1..]
  {
    if k > 0 {
      WithoutAt(order[1..], k - 1);
    } else {
      WithoutAbsent(order[1..], order[0]);
    }
  }

  lemma {:induction false} WithoutAbsent(order: seq<string>, s: string)
    requires s !in order
    ensures Without(order, s) == order
  {
    if order != [] {
      WithoutAbsent(order[1..], s);
    }
  }

  /** The world after getLimiterState, and the record it hands out, if any. */
  function Acquire<R(==)>(w: World<R>, scope: string, now: int, unused: R): (World<R>, Option<R>) {
    if scope in w.table then
      var r := w.table[scope];
      (w.(heap := w.heap[r := Touch(Fields(w, r), now)]), Some(r))
    else if |w.order| >= MAX_TRACKED_SCOPES then
      match Victim(w.order, w.table, w.heap)
      case None => (w, None)
      case Some(v) => (Insert(w.(order := Without(w.order, v), table := w.table - {v}), scope, now, unused),
        Some(unused))
    else (Insert(w, scope, now, unused), Some(unused))
  }

  function Insert<R(==)>(w: World<R>, scope: string, now: int, r: R): World<R> {
    w.(order := w.order + [scope], table := w.table[scope := r], heap := w.heap[r := Limiter(0, [], now)])
  }

  // ----- one call -----

  datatype Execution =
    | Resolved(parses: bool, toolError: Option<string>, rowCount: nat, wireBytes: nat)
    | Threw(cause: Cause, aborted: bool)
  datatype Cause = InvalidRequest | ResponseTooLarge | Other
  datatype Limits = Limits(maxRows: nat, maxResponseBytes: nat)

  /** The try/catch of the executor: what the single event of a started execution reports. */
  function Classify(x: Execution, l: Limits): (o: Outcome)
    ensures o == Success <==>
      x.Resolved? && x.parses && x.toolError.None? && x.rowCount <= l.maxRows && x.wireBytes <= l.maxResponseBytes
    ensures o == Blocked(Timeout) <==> x.Threw? && x.aborted
    ensures o == Blocked(Validation) <==> x.Threw? && !x.aborted && x.cause.InvalidRequest?
    ensures o == Blocked(Unexpected) <==> (x.Resolved? && !x.parses) || (x.Threw? && !x.aborted && x.cause.Other?)
    ensures o.Blocked? && o.denial.ToolError? <==> x.Resolved? && x.parses && x.toolError.Some?
    ensures o.Blocked? && o.denial.ToolError? ==> o.denial.code == x.toolError.value
    ensures o != Blocked(Unavailable)
  {
    match x
    case Resolved(parses, toolError, rows, bytes) =>
      if !parses then Blocked(Unexpected)
      else if toolError.Some? then Blocked(ToolError(toolError.value))
      else if rows > l.maxRows then Blocked(ResponseLimit)
      else if bytes > l.maxResponseBytes then Blocked(ResponseLimit)
      else Success
    case Threw(cause, aborted) =>
      if aborted then Blocked(Timeout)
      else match cause
        case InvalidRequest => Blocked(Validation)
        case ResponseTooLarge => Blocked(ResponseLimit)
        case Other => Blocked(Unexpected)
  }

  function Emit<R>(w: World<R>, call: nat, scope: string, o: Outcome): World<R> {
    w.(events := w.events + [Event(call, scope, o)])
  }

  /** The executor from enforceWindow on, with the record it holds. */
  function BeginOn<R(==)>(p: Policy, w: World<R>, call: nat, scope: string, r: R, t2: int): World<R> {
    var l := Fields(w, r);
    var w := w.(heap := w.heap[r := Enforce(l, t2, p)]);
    if !Passes(l, t2, p) then Emit(w, call, scope, Blocked(Unavailable))
    else
      var w := w.(admitted := w.admitted + [Admission(scope, r, t2)]);
      if l.active >= p.maxConcurrent then Emit(w, call, scope, Blocked(Unavailable))
      else
        w.(heap := w.heap[r := Fields(w, r).(active := l.active + 1)],
           inFlight := w.inFlight[call := Ticket(scope, r)])
  }

  /** The synchronous prefix of the executor: everything up to the await. The clock is read
      once by getLimiterState (t1) and once by enforceWindow (t2). */
  function Begin<R(==)>(p: Policy, w: World<R>, call: nat, scope: string, inputOk: bool, t1: int, t2: int,
      unused: R): World<R> {
    var w := w.(started := w.started + {call}, now := t2);
    if !inputOk then Emit(w, call, scope, Blocked(Validation))
    else
      var (w, held) := Acquire(w, scope, t1, unused);
      match held
      case None => Emit(w, call, scope, Blocked(Unavailable))
      case Some(r) => BeginOn(p, w, call, scope, r, t2)
  }

  function Release(l: Limiter): Limiter {
    if l.active > 0 then l.(active := l.active - 1) else l
  }

  /** The finally block: give the slot back to the held record, emit the event. */
  function Finish<R(==)>(w: World<R>, call: nat, o: Outcome): World<R>
    requires call in w.inFlight
  {
    var Ticket(scope, r) := w.inFlight[call];
    Emit(w.(heap := w.heap[r := Release(Fields(w, r))], inFlight := w.inFlight - {call}), call, scope, o)
  }

  // ----- runs: any interleaving of calls -----

  datatype Action<R> =
    | Starts(call: nat, scope: string, inputOk: bool, t1: int, t2: int, unused: R)
    | Ends(call: nat, result: Execution, limits: Limits)

  ghost predicate Enabled<R>(w: World<R>, a: Action<R>) {
    match a
    case Starts(call, scope, _, t1, t2, unused) =>
      call !in w.started && w.now <= t1 <= t2 && unused !in w.heap
    case Ends(call, _, _) => call in w.inFlight
  }

  ghost function Apply<R>(p: Policy, w: World<R>, a: Action<R>): World<R>
    requires Enabled(w, a)
  {
    match a
    case Starts(call, scope, inputOk, t1, t2, unused) => Begin(p, w, call, scope, inputOk, t1, t2, unused)
    case Ends(call, result, limits) => Finish(w, call, Classify(result, limits))
  }

  ghost predicate IsRun<R>(p: Policy, run: seq<World<R>>, actions: seq<Action<R>>) {
    && |run| == |actions| + 1 && run[0] == Init()
    && forall k | 0 <= k < |actions| ::
         Enabled(run[k], actions[k]) && run[k + 1] == Apply(p, run[k], actions[k])
  }

  // ----- the invariant of every run -----

  ghost function HeldBy<R>(w: World<R>, r: R): set<nat> {
    set c | c in w.inFlight && w.inFlight[c].record == r
  }

  /** Admission times of one record, oldest first. */
  ghost function TimesOf<R>(log: seq<Admission<R>>, r: R): seq<int> {
    if log == [] then []
    else
      var last := |log| - 1;
      TimesOf(log[..last], r) + (if log[last].record == r then [log[last].time] else [])
  }

  ghost function EventsOf(events: seq<Event>, call: nat): nat {
    if events == [] then 0
    else EventsOf(events[..|events| - 1], call) + (if events[|events| - 1].call == call then 1 else 0)
  }

  /** The limiter map is well formed and bounded. */
  ghost predicate TableInv<R>(w: World<R>) {
    && Distinct(w.order) && |w.order| <= MAX_TRACKED_SCOPES
    && (forall s :: s in w.order <==> s in w.table)
    && (forall s | s in w.table :: w.table[s] in w.heap)
  }

  /** The record an in-flight call holds is the one its scope is mapped to. */
  ghost predicate TicketOk<R>(w: World<R>, c: nat)
    requires c in w.inFlight
  {
    w.inFlight[c].scope in w.table && w.inFlight[c].record == w.table[w.inFlight[c].scope]
  }

  /** A record's active count is the number of calls holding it, and within the policy. */
  ghost predicate SlotOk<R>(p: Policy, w: World<R>, r: R)
    requires r in w.heap
  {
    w.heap[r].active == |HeldBy(w, r)| && w.heap[r].active <= p.maxConcurrent
  }

  ghost predicate SlotInv<R>(p: Policy, w: World<R>) {
    && (forall c {:trigger TicketOk(w, c)} | c in w.inFlight :: TicketOk(w, c))
    && (forall r {:trigger SlotOk(p, w, r)} | r in w.heap :: SlotOk(p, w, r))
  }

  /** One event per call that is no longer in flight, none before. */
  ghost predicate EventInv<R>(w: World<R>) {
    && w.inFlight.Keys <= w.started
    && forall c: nat :: EventsOf(w.events, c) == (if c in w.started && c !in w.inFlight then 1 else 0)
  }

  ghost predicate Sorted(times: seq<int>) {
    forall i, j | 0 <= i < j < |times| :: times[i] <= times[j]
  }

  /** Any `max + 1` consecutive admissions span at least one window. */
  ghost predicate Spaced(p: Policy, times: seq<int>) {
    forall i, j | 0 <= i && i + p.maxRequests <= j < |times| :: times[j] - times[i] >= p.windowMs
  }

  /** `kept` is what remains of `times` after dropping entries at least one window old. */
  ghost predicate Remembers(p: Policy, kept: seq<int>, times: seq<int>, now: int) {
    && |kept| <= |times| && kept == times[|times| - |kept|..]
    && forall i | 0 <= i < |times| - |kept| :: times[i] <= now - p.windowMs
  }

  ghost predicate WindowOf(p: Policy, kept: seq<int>, times: seq<int>, now: int) {
    && Sorted(times) && Spaced(p, times)
    && (forall i | 0 <= i < |times| :: times[i] <= now)
    && Remembers(p, kept, times, now)
  }

  ghost predicate RecordWindow<R>(p: Policy, w: World<R>, r: R)
    requires r in w.heap
  {
    WindowOf(p, w.heap[r].timestamps, TimesOf(w.admitted, r), w.now)
  }

  ghost predicate WindowInv<R>(p: Policy, w: World<R>) {
    && (forall k | 0 <= k < |w.admitted| :: w.admitted[k].record in w.heap)
    && forall r {:trigger RecordWindow(p, w, r)} | r in w.heap :: RecordWindow(p, w, r)
  }

  ghost predicate Inv<R>(p: Policy, w: World<R>) {
    p.Valid() && TableInv(w) && SlotInv(p, w) && EventInv(w) && WindowInv(p, w)
  }

  // ----- small facts -----

  lemma RecentHead(times: seq<int>, windowStart: int)
    ensures times == [] ==> Recent(times, windowStart) == []
    ensures times != [] && times[0] <= windowStart ==> Recent(times, windowStart) == Recent(times[1..], windowStart)
  {
  }

  lemma {:induction false} RecentIsSuffix(times: seq<int>, windowStart: int)
    requires Sorted(times)
    ensures var kept := Recent(times, windowStart);
            && |kept| <= |times| && kept == times[|times| - |kept|..]
            && (forall i | 0 <= i < |times| - |kept| :: times[i] <= windowStart)
  {
    hide Recent;
    RecentHead(times, windowStart);
    if times != [] {
      if times[0] > windowStart {
        RecentKeepsAll(times, windowStart);
      } else {
        var rest, kept := times[1..], Recent(times, windowStart);
        RecentIsSuffix(rest, windowStart);
        var n := |rest| - |kept|;
        assert rest[n..] == times[n + 1..];
        forall i | 0 <= i < n + 1
          ensures times[i] <= windowStart
        {
          assert i > 0 ==> times[i] == rest[i - 1];
        }
      }
    }
  }

  lemma {:induction false} RecentKeepsAll(times: seq<int>, windowStart: int)
    requires forall i | 0 <= i < |times| :: times[i] > windowStart
    ensures Recent(times, windowStart) == times
  {
    if times != [] {
      assert times == [times[0]] + times[1..];
      RecentKeepsAll(times[1..], windowStart);
    }
  }

  lemma TimesOfAppend<R>(log: seq<Admission<R>>, a: Admission<R>, r: R)
    ensures TimesOf(log + [a], r) == TimesOf(log, r) + (if a.record == r then [a.time] else [])
  {
    assert (log + [a])[..|log|] == log;
  }

  lemma {:induction false} TimesOfUnused<R>(log: seq<Admission<R>>, r: R)
    requires forall k | 0 <= k < |log| :: log[k].record != r
    ensures TimesOf(log, r) == []
  {
    if log != [] {
      TimesOfUnused(log[..|log| - 1], r);
    }
  }

  lemma EventsOfAppend(events: seq<Event>, e: Event, call: nat)
    ensures EventsOf(events + [e], call) == EventsOf(events, call) + (if e.call == call then 1 else 0)
  {
    assert (events + [e])[..|events|] == events;
  }

  // ----- the sliding window of one record -----

  lemma KeptSorted(times: seq<int>, n: nat)
    requires Sorted(times) && n <= |times|
    ensures Sorted(times[n..])
  {
  }

  /** Re-filtering at a later time keeps the summary exact. */
  lemma RememberLater(p: Policy, kept: seq<int>, times: seq<int>, before: int, now: int)
    requires Sorted(times) && Remembers(p, kept, times, before) && before <= now
    ensures Remembers(p, Recent(kept, now - p.windowMs), times, now)
  {
    hide Recent;
    KeptSorted(times, |times| - |kept|);
    RecentIsSuffix(kept, now - p.windowMs);
    hide Sorted;
    var dropped, left := |times| - |kept|, Recent(kept, now - p.windowMs);
    var more := |kept| - |left|;
    assert times[dropped..][more..] == times[dropped + more..];
    forall i | 0 <= i < dropped + more
      ensures times[i] <= now - p.windowMs
    {
      assert i >= dropped ==> times[i] == kept[i - dropped];
    }
  }

  /** Admitting one more call keeps the spacing: the full window before it held fewer than `max`. */
  lemma AdmitKeepsSpacing(p: Policy, kept: seq<int>, times: seq<int>, now: int)
    requires p.Valid() && Sorted(times) && Spaced(p, times) && Remembers(p, kept, times, now)
    requires (forall i | 0 <= i < |times| :: times[i] <= now) && |kept| < p.maxRequests
    ensures Sorted(times + [now]) && Spaced(p, times + [now]) && Remembers(p, kept + [now], times + [now], now)
  {
    var longer := times + [now];
    forall i, j | 0 <= i < j < |longer| ensures longer[i] <= longer[j] {
      assert longer[i] == times[i];
    }
    forall i, j | 0 <= i && i + p.maxRequests <= j < |longer| ensures longer[j] - longer[i] >= p.windowMs {
      assert longer[i] == times[i];
      if j == |times| {
        assert i < |times| - |kept|;
      } else {
        assert longer[j] == times[j];
      }
    }
    var dropped := |times| - |kept|;
    assert longer[dropped..] == times[dropped..] + [now];
    assert |kept + [now]| == |kept| + 1;
    forall i | 0 <= i < dropped ensures longer[i] <= now - p.windowMs {
      assert longer[i] == times[i];
    }
  }

  // ----- every step keeps the invariant -----

  ghost predicate Core<R>(p: Policy, w: World<R>) {
    p.Valid() && TableInv(w) && SlotInv(p, w) && WindowInv(p, w)
  }

  /** The window part reads only timestamps, the admission log and the clock. */
  lemma WindowFrame<R>(p: Policy, w: World<R>, w': World<R>)
    requires WindowInv(p, w) && w'.admitted == w.admitted && w.now <= w'.now
    requires w.heap.Keys <= w'.heap.Keys
    requires forall r | r in w'.heap :: w'.heap[r].timestamps == (if r in w.heap then w.heap[r].timestamps else [])
    ensures WindowInv(p, w')
  {
    forall r | r in w'.heap ensures RecordWindow(p, w', r) {
      if r in w.heap {
        assert RecordWindow(p, w, r);
      } else {
        TimesOfUnused(w.admitted, r);
      }
    }
  }

  /** The slot part reads only active counts, tickets and the mapping of ticketed scopes. */
  lemma SlotFrame<R>(p: Policy, w: World<R>, w': World<R>)
    requires SlotInv(p, w) && w'.inFlight == w.inFlight && TableInv(w)
    requires forall r | r in w'.heap :: w'.heap[r].active == (if r in w.heap then w.heap[r].active else 0)
    requires forall c {:trigger TicketOk(w', c)} | c in w.inFlight :: TicketOk(w, c) ==> TicketOk(w', c)
    ensures SlotInv(p, w')
  {
    forall c | c in w.inFlight ensures TicketOk(w', c) {
      assert TicketOk(w, c);
    }
    forall r | r in w'.heap ensures SlotOk(p, w', r) {
      assert HeldBy(w', r) == HeldBy(w, r);
      if r in w.heap {
        assert SlotOk(p, w, r);
      } else {
        forall c | c in w.inFlight ensures w.inFlight[c].record != r {
          assert TicketOk(w, c);
        }
        assert HeldBy(w, r) == {};
      }
    }
  }

  lemma InsertKeeps<R>(p: Policy, w: World<R>, scope: string, now: int, r: R)
    requires Core(p, w) && scope !in w.table && r !in w.heap && |w.order| < MAX_TRACKED_SCOPES
    ensures Core(p, Insert(w, scope, now, r))
  {
    var w' := Insert(w, scope, now, r);
    WindowFrame(p, w, w');
    SlotFrame(p, w, w');
    assert scope !in w.order;
    assert TableInv(w');
  }

  /** Only an idle scope is dropped, so no in-flight call loses its record. */
  lemma IdleHoldsNoTicket<R>(p: Policy, w: World<R>, v: string, c: nat)
    requires SlotInv(p, w) && Idle(v, w.table, w.heap) && c in w.inFlight
    ensures w.inFlight[c].scope != v
  {
    assert SlotOk(p, w, w.table[v]) && TicketOk(w, c);
    assert c !in HeldBy(w, w.table[v]);
  }

  lemma EvictKeeps<R>(p: Policy, w: World<R>, v: string)
    requires Core(p, w) && Idle(v, w.table, w.heap)
    ensures Core(p, w.(order := Without(w.order, v), table := w.table - {v}))
  {
    var w' := w.(order := Without(w.order, v), table := w.table - {v});
    forall c | c in w.inFlight ensures w.inFlight[c].scope != v {
      IdleHoldsNoTicket(p, w, v, c);
    }
    WindowFrame(p, w, w');
    SlotFrame(p, w, w');
  }

  lemma AcquireKeeps<R>(p: Policy, w: World<R>, scope: string, now: int, unused: R)
    requires Core(p, w) && unused !in w.heap
    ensures var (w', held) := Acquire(w, scope, now, unused);
            && Core(p, w')
            && (held.Some? ==> scope in w'.table && w'.table[scope] == held.value && held.value in w'.heap)
  {
    var (w', _) := Acquire(w, scope, now, unused);
    if scope in w.table {
      WindowFrame(p, w, w');
      SlotFrame(p, w, w');
    } else if |w.order| >= MAX_TRACKED_SCOPES {
      var v := Victim(w.order, w.table, w.heap);
      VictimIsOldestIdle(w.order, w.table, w.heap);
      if v.Some? {
        EvictKeeps(p, w, v.value);
        InsertKeeps(p, w.(order := Without(w.order, v.value), table := w.table - {v.value}), scope, now, unused);
      }
    } else {
      InsertKeeps(p, w, scope, now, unused);
    }
  }

  lemma AcquireFrame<R>(w: World<R>, scope: string, now: int, unused: R)
    ensures var w' := Acquire(w, scope, now, unused).0;
            w' == w.(order := w'.order, table := w'.table, heap := w'.heap)
  {
  }

  /** enforceWindow on the held record, with the admission logged exactly when it passes. */
  ghost function Enforced<R>(p: Policy, w: World<R>, scope: string, r: R, now: int): World<R>
    requires r in w.heap
  {
    var l := w.heap[r];
    w.(heap := w.heap[r := Enforce(l, now, p)],
       admitted := if Passes(l, now, p) then w.admitted + [Admission(scope, r, now)] else w.admitted)
  }

  lemma EnforceKeepsRecord(p: Policy, l: Limiter, times: seq<int>, now: int)
    requires p.Valid() && WindowOf(p, l.timestamps, times, now)
    ensures WindowOf(p, Enforce(l, now, p).timestamps, if Passes(l, now, p) then times + [now] else times, now)
  {
    hide Recent, Spaced, Sorted, Remembers;
    RememberLater(p, l.timestamps, times, now, now);
    if Passes(l, now, p) {
      AdmitKeepsSpacing(p, Recent(l.timestamps, now - p.windowMs), times, now);
    }
  }

  lemma EnforceKeepsWindow<R>(p: Policy, w: World<R>, scope: string, r: R)
    requires p.Valid() && WindowInv(p, w) && r in w.heap
    ensures WindowInv(p, Enforced(p, w, scope, r, w.now))
  {
    var w' := Enforced(p, w, scope, r, w.now);
    var passes := Passes(w.heap[r], w.now, p);
    forall x | x in w'.heap ensures RecordWindow(p, w', x) {
      assert RecordWindow(p, w, x);
      if passes {
        TimesOfAppend(w.admitted, Admission(scope, r, w.now), x);
      }
      if x == r {
        EnforceKeepsRecord(p, w.heap[r], TimesOf(w.admitted, r), w.now);
      } else {
        assert TimesOf(w'.admitted, x) == TimesOf(w.admitted, x);
      }
    }
  }

  lemma EnforceKeeps<R>(p: Policy, w: World<R>, scope: string, r: R)
    requires Core(p, w) && r in w.heap
    ensures Core(p, Enforced(p, w, scope, r, w.now))
  {
    EnforceKeepsWindow(p, w, scope, r);
    SlotFrame(p, w, Enforced(p, w, scope, r, w.now));
  }

  ghost function SlotTaken<R>(w: World<R>, call: nat, scope: string, r: R): World<R>
    requires r in w.heap
  {
    w.(heap := w.heap[r := w.heap[r].(active := w.heap[r].active + 1)],
      inFlight := w.inFlight[call := Ticket(scope, r)])
  }

  lemma TakeSlotKeeps<R>(p: Policy, w: World<R>, call: nat, scope: string, r: R)
    requires Core(p, w) && call !in w.inFlight && scope in w.table && w.table[scope] == r && r in w.heap
    requires w.heap[r].active < p.maxConcurrent
    ensures Core(p, SlotTaken(w, call, scope, r))
  {
    TakeSlotCounts(p, w, call, scope, r);
    WindowFrame(p, w, SlotTaken(w, call, scope, r));
  }

  lemma TakeSlotCounts<R>(p: Policy, w: World<R>, call: nat, scope: string, r: R)
    requires SlotInv(p, w) && call !in w.inFlight && scope in w.table && w.table[scope] == r && r in w.heap
    requires w.heap[r].active < p.maxConcurrent
    ensures SlotInv(p, SlotTaken(w, call, scope, r))
  {
    var w' := SlotTaken(w, call, scope, r);
    forall x | x in w'.heap ensures SlotOk(p, w', x) {
      assert SlotOk(p, w, x);
      assert HeldBy(w', x) == HeldBy(w, x) + (if x == r then {call} else {});
    }
    forall c | c in w'.inFlight ensures TicketOk(w', c) {
      assert c == call || TicketOk(w, c);
    }
  }

  lemma FinishKeeps<R>(p: Policy, w: World<R>, call: nat, o: Outcome)
    requires Core(p, w) && call in w.inFlight
    ensures Core(p, Finish(w, call, o))
  {
    var w' := Finish(w, call, o);
    var r := w.inFlight[call].record;
    assert TicketOk(w, call) && call in HeldBy(w, r);
    WindowFrame(p, w, w');
    forall x | x in w'.heap ensures SlotOk(p, w', x) {
      assert SlotOk(p, w, x);
      assert HeldBy(w', x) == HeldBy(w, x) - (if x == r then {call} else {});
    }
    forall c | c in w'.inFlight ensures TicketOk(w', c) {
      assert TicketOk(w, c);
    }
  }

  /** Logging an event, starting a call and advancing the clock touch nothing else. */
  lemma LogKeeps<R>(p: Policy, w: World<R>, started: set<nat>, now: int, events: seq<Event>)
    requires Core(p, w) && w.now <= now
    ensures Core(p, w.(started := started, now := now, events := events))
  {
    var w' := w.(started := started, now := now, events := events);
    WindowFrame(p, w, w');
    SlotFrame(p, w, w');
  }

  lemma BeginOnKeeps<R>(p: Policy, w: World<R>, call: nat, scope: string, r: R)
    requires Core(p, w) && call !in w.inFlight && scope in w.table && w.table[scope] == r && r in w.heap
    ensures Core(p, BeginOn(p, w, call, scope, r, w.now))
  {
    hide SlotInv, WindowInv, TableInv, Recent;
    EnforceKeeps(p, w, scope, r);
    var w' := Enforced(p, w, scope, r, w.now);
    if Passes(w.heap[r], w.now, p) && w.heap[r].active < p.maxConcurrent {
      TakeSlotKeeps(p, w', call, scope, r);
      assert BeginOn(p, w, call, scope, r, w.now) == SlotTaken(w', call, scope, r);
    } else {
      LogKeeps(p, w', w'.started, w'.now, BeginOn(p, w, call, scope, r, w.now).events);
    }
  }

  lemma BeginKeepsCore<R>(p: Policy, w: World<R>, call: nat, scope: string, inputOk: bool, t1: int, t2: int, unused: R)
    requires Core(p, w) && call !in w.inFlight && w.now <= t2 && unused !in w.heap
    ensures Core(p, Begin(p, w, call, scope, inputOk, t1, t2, unused))
  {
    var w' := Begin(p, w, call, scope, inputOk, t1, t2, unused);
    var w1 := w.(started := w.started + {call}, now := t2);
    LogKeeps(p, w, w.started + {call}, t2, w.events);
    if !inputOk {
      LogKeeps(p, w1, w1.started, t2, w'.events);
    } else {
      AcquireKeeps(p, w1, scope, t1, unused);
      AcquireFrame(w1, scope, t1, unused);
      var (w2, held) := Acquire(w1, scope, t1, unused);
      if held.None? {
        LogKeeps(p, w2, w2.started, t2, w'.events);
      } else {
        BeginOnKeeps(p, w2, call, scope, held.value);
      }
    }
  }

  /** A call that starts either goes in flight silently or emits its one event at once. */
  lemma BeginLogs<R>(p: Policy, w: World<R>, call: nat, scope: string, inputOk: bool, t1: int, t2: int, unused: R)
    ensures var w' := Begin(p, w, call, scope, inputOk, t1, t2, unused);
            && w'.started == w.started + {call}
            && ((exists o :: w'.inFlight == w.inFlight && w'.events == w.events + [Event(call, scope, o)])
                || (exists r :: w'.inFlight == w.inFlight[call := Ticket(scope, r)] && w'.events == w.events))
  {
    var w1 := w.(started := w.started + {call}, now := t2);
    AcquireFrame(w1, scope, t1, unused);
  }

  /** Each started call is in flight without an event, or has exactly one event. */
  lemma BeginKeepsEvents<R>(p: Policy, w: World<R>, call: nat, scope: string, inputOk: bool, t1: int, t2: int,
      unused: R)
    requires EventInv(w) && call !in w.started
    ensures EventInv(Begin(p, w, call, scope, inputOk, t1, t2, unused))
  {
    var w' := Begin(p, w, call, scope, inputOk, t1, t2, unused);
    BeginLogs(p, w, call, scope, inputOk, t1, t2, unused);
    if w'.inFlight == w.inFlight {
      var o :| w'.events == w.events + [Event(call, scope, o)];
      forall c: nat ensures EventsOf(w'.events, c) == EventsOf(w.events, c) + (if c == call then 1 else 0) {
        EventsOfAppend(w.events, Event(call, scope, o), c);
      }
    }
  }

  lemma FinishKeepsEvents<R>(w: World<R>, call: nat, o: Outcome)
    requires EventInv(w) && call in w.inFlight
    ensures EventInv(Finish(w, call, o))
  {
    var w' := Finish(w, call, o);
    var e := Event(call, w.inFlight[call].scope, o);
    forall c: nat ensures EventsOf(w'.events, c) == EventsOf(w.events, c) + (if c == call then 1 else 0) {
      EventsOfAppend(w.events, e, c);
    }
  }

  lemma StepKeepsInv<R>(p: Policy, w: World<R>, a: Action<R>)
    requires Inv(p, w) && Enabled(w, a)
    ensures Inv(p, Apply(p, w, a))
  {
    match a
    case Starts(call, scope, inputOk, t1, t2, unused) =>
      BeginKeepsCore(p, w, call, scope, inputOk, t1, t2, unused);
      BeginKeepsEvents(p, w, call, scope, inputOk, t1, t2, unused);
    case Ends(call, result, limits) =>
      FinishKeeps(p, w, call, Classify(result, limits));
      FinishKeepsEvents(w, call, Classify(result, limits));
  }

  /** Conservation: in every state of every run, under any interleaving, slots equal in-flight calls
      and never exceed the policy, held records are the mapped ones, the map is bounded and every
      call that is over has emitted exactly one event. */
  lemma {:induction false} RunKeepsInv<R>(p: Policy, run: seq<World<R>>, actions: seq<Action<R>>, k: nat)
    requires p.Valid() && IsRun(p, run, actions) && k < |run|
    ensures Inv(p, run[k])
  {
    if k == 0 {
      assert forall c: nat :: EventsOf([], c) == 0;
    } else {
      RunKeepsInv(p, run, actions, k - 1);
      StepKeepsInv(p, run[k - 1], actions[k - 1]);
    }
  }

  // ----- the sliding window of a scope, over whole runs -----

  /** How many of the times fall in the half-open window [t, t + length). */
  ghost function CountIn(times: seq<int>, t: int, length: int): nat {
    if times == [] then 0
    else CountIn(times[..|times| - 1], t, length) + (if t <= times[|times| - 1] < t + length then 1 else 0)
  }

  lemma {:induction false} CountFromIndex(times: seq<int>, t: int, length: int, from: nat)
    requires from <= |times| && forall i | 0 <= i < from :: times[i] < t
    ensures CountIn(times, t, length) <= |times| - from
  {
    if times != [] {
      var shorter := times[..|times| - 1];
      CountFromIndex(shorter, t, length, if from < |times| then from else from - 1);
    }
  }

  /** Spacing is exactly what bounds every window. */
  lemma {:induction false} SpacedBoundsWindow(p: Policy, times: seq<int>, t: int)
    requires Sorted(times) && Spaced(p, times)
    ensures CountIn(times, t, p.windowMs) <= p.maxRequests
  {
    if times != [] {
      var last := |times| - 1;
      if t <= times[last] < t + p.windowMs {
        CountFromIndex(times, t, p.windowMs, if last + 1 <= p.maxRequests then 0 else last + 1 - p.maxRequests);
      } else {
        SpacedBoundsWindow(p, times[..last], t);
      }
    }
  }

  /** Admissions of a scope in the tail of a log from index `from`, within [t, t + length). */
  ghost function AdmissionsIn<R>(log: seq<Admission<R>>, from: nat, s: string, t: int, length: int): nat {
    if |log| <= from then 0
    else
      var last := |log| - 1;
      AdmissionsIn(log[..last], from, s, t, length)
        + (if log[last].scope == s && t <= log[last].time < t + length then 1 else 0)
  }

  lemma {:induction false} ScopeCountWithinRecord<R>(log: seq<Admission<R>>, from: nat, s: string, r: R, t: int,
      length: int)
    requires forall k | from <= k < |log| && log[k].scope == s :: log[k].record == r
    ensures AdmissionsIn(log, from, s, t, length) <= CountIn(TimesOf(log, r), t, length)
    decreases |log|
  {
    if |log| > from {
      var last := |log| - 1;
      var shorter := log[..last];
      ScopeCountWithinRecord(shorter, from, s, r, t, length);
      if log[last].record == r {
        assert TimesOf(log, r)[..|TimesOf(shorter, r)|] == TimesOf(shorter, r);
      } else {
        assert TimesOf(log, r) == TimesOf(shorter, r);
      }
    }
  }

  /** The scope is never dropped from the map between states i and j. */
  ghost predicate NotEvicted<R>(run: seq<World<R>>, s: string, i: nat, j: nat)
    requires i <= j < |run|
  {
    forall k | i <= k < j :: s in run[k].table ==> s in run[k + 1].table
  }

  /** One step logs at most one admission, of a mapped record, and never remaps a mapped scope. */
  ghost predicate Linked<R>(w: World<R>, w': World<R>) {
    && (forall s | s in w.table && s in w'.table :: w'.table[s] == w.table[s])
    && (w'.admitted == w.admitted
        || (&& |w'.admitted| == |w.admitted| + 1 && w.admitted <= w'.admitted
            && var x := w'.admitted[|w.admitted|]; x.scope in w'.table && w'.table[x.scope] == x.record))
  }

  lemma StepLinks<R>(p: Policy, w: World<R>, a: Action<R>)
    requires Enabled(w, a)
    ensures Linked(w, Apply(p, w, a))
  {
    match a
    case Ends(_, _, _) =>
    case Starts(call, scope, inputOk, t1, t2, unused) =>
      var w1 := w.(started := w.started + {call}, now := t2);
      AcquireFrame(w1, scope, t1, unused);
      var w' := Apply(p, w, a);
      if w'.admitted != w.admitted {
        var r := Acquire(w1, scope, t1, unused).1.value;
        assert w'.admitted == w.admitted + [Admission(scope, r, t2)];
      }
  }

  /** All admissions of a scope in a stretch without eviction are on one record. */
  lemma {:induction false} StretchUsesOneRecord<R>(run: seq<World<R>>, s: string, i: nat, j: nat)
    requires i <= j < |run| && NotEvicted(run, s, i, j)
    requires forall k | i <= k < j :: Linked(run[k], run[k + 1])
    ensures run[i].admitted <= run[j].admitted
    ensures forall k | |run[i].admitted| <= k < |run[j].admitted| && run[j].admitted[k].scope == s ::
              s in run[j].table && run[j].admitted[k].record == run[j].table[s]
    decreases j
  {
    if i < j {
      StretchUsesOneRecord(run, s, i, j - 1);
      assert Linked(run[j - 1], run[j]);
    }
  }

  /** Sliding-window safety: whatever the interleaving, in any stretch of any run in which a scope is
      not evicted, at most maxRequests of its calls pass enforceWindow in any window of windowMs. */
  lemma SlidingWindowSafety<R>(p: Policy, run: seq<World<R>>, actions: seq<Action<R>>, s: string, i: nat, j: nat,
      t: int)
    requires p.Valid() && IsRun(p, run, actions) && i <= j < |run| && NotEvicted(run, s, i, j)
    ensures AdmissionsIn(run[j].admitted, |run[i].admitted|, s, t, p.windowMs) <= p.maxRequests
  {
    var w, from := run[j], |run[i].admitted|;
    forall k | i <= k < j ensures Linked(run[k], run[k + 1]) {
      StepLinks(p, run[k], actions[k]);
    }
    StretchUsesOneRecord(run, s, i, j);
    RunKeepsInv(p, run, actions, j);
    if s in w.table {
      var r := w.table[s];
      assert RecordWindow(p, w, r);
      SpacedBoundsWindow(p, TimesOf(w.admitted, r), t);
      ScopeCountWithinRecord(w.admitted, from, s, r, t, p.windowMs);
    } else {
      NoAdmissions(w.admitted, from, s, t, p.windowMs);
    }
  }

  lemma {:induction false} NoAdmissions<R>(log: seq<Admission<R>>, from: nat, s: string, t: int, length: int)
    requires forall k | from <= k < |log| :: log[k].scope != s
    ensures AdmissionsIn(log, from, s, t, length) == 0
    decreases |log|
  {
    if |log| > from {
      NoAdmissions(log[..|log| - 1], from, s, t, length);
    }
  }
}
