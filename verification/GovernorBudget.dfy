/** The request budget of a scope over whole runs of the read-tool governor, evictions included. */
module GovernorBudget {
  import opened Hashing
  import opened Governor

  // ----- at most one budget per eviction -----

  ghost predicate Evicts<R>(w: World<R>, w': World<R>, s: string) { s in w.table && s !in w'.table }

  ghost function Evictions<R>(run: seq<World<R>>, s: string, i: nat, j: nat): nat
    requires i <= j < |run|
    decreases j
  {
    if i == j then 0 else Evictions(run, s, i, j - 1) + if Evicts(run[j - 1], run[j], s) then 1 else 0
  }

  /** Where the last stretch without eviction begins. */
  ghost function LastCut<R>(run: seq<World<R>>, s: string, i: nat, j: nat): (k: nat)
    requires i <= j < |run|
    ensures i <= k <= j && NotEvicted(run, s, k, j)
    ensures Evictions(run, s, i, j) == if k == i then 0 else Evictions(run, s, i, k - 1) + 1
    ensures k > i ==> Evicts(run[k - 1], run[k], s)
    decreases j
  {
    if i == j then i else if Evicts(run[j - 1], run[j], s) then j else LastCut(run, s, i, j - 1)
  }

  lemma {:induction false} LogGrows<R>(p: Policy, run: seq<World<R>>, actions: seq<Action<R>>, i: nat, j: nat)
    requires IsRun(p, run, actions) && i <= j < |run|
    ensures run[i].admitted <= run[j].admitted
    decreases j
  {
    hide Apply, Enabled;
    if i < j {
      LogGrows(p, run, actions, i, j - 1);
      StepLinks(p, run[j - 1], actions[j - 1]);
      assert Linked(run[j - 1], run[j]);
    }
  }

  lemma {:induction false} AdmissionsSplit<R>(log: seq<Admission<R>>, from: nat, mid: nat, s: string, t: int,
      length: int)
    requires from <= mid <= |log|
    ensures AdmissionsIn(log, from, s, t, length)
      == AdmissionsIn(log[..mid], from, s, t, length) + AdmissionsIn(log, mid, s, t, length)
    decreases |log|
  {
    if mid == |log| {
      assert log[..mid] == log;
    } else {
      var before := log[..|log| - 1];
      AdmissionsSplit(before, from, mid, s, t, length);
      assert before[..mid] == log[..mid];
    }
  }

  lemma AdmissionsSnoc<R>(log: seq<Admission<R>>, x: Admission<R>, from: nat, s: string, t: int, length: int)
    requires from <= |log|
    ensures AdmissionsIn(log + [x], from, s, t, length)
      == AdmissionsIn(log, from, s, t, length) + if x.scope == s && t <= x.time < t + length then 1 else 0
  {
    assert (log + [x])[..|log|] == log;
  }

  /** The step that evicts a scope admits no call of it. */
  lemma EvictingStepAdmitsOthers<R>(p: Policy, w: World<R>, a: Action<R>, s: string, from: nat, t: int, length: int)
    requires Enabled(w, a) && Evicts(w, Apply(p, w, a), s) && from <= |w.admitted|
    ensures AdmissionsIn(Apply(p, w, a).admitted, from, s, t, length) == AdmissionsIn(w.admitted, from, s, t, length)
  {
    StepLinks(p, w, a);
    var w' := Apply(p, w, a);
    hide Apply;
    if w'.admitted != w.admitted {
      var x := w'.admitted[|w.admitted|];
      assert w'.admitted == w.admitted + [x];
      AdmissionsSnoc(w.admitted, x, from, s, t, length);
    }
  }

  lemma RunAt<R>(p: Policy, run: seq<World<R>>, actions: seq<Action<R>>, k: nat)
    requires IsRun(p, run, actions) && k + 1 < |run|
    ensures |run| == |actions| + 1 && Enabled(run[k], actions[k]) && run[k + 1] == Apply(p, run[k], actions[k])
  {
  }

  lemma SplitLog<R>(first: seq<Admission<R>>, before: seq<Admission<R>>, after: seq<Admission<R>>,
      last: seq<Admission<R>>, s: string, t: int, length: int)
    requires first <= before <= after <= last
    requires AdmissionsIn(after, |first|, s, t, length) == AdmissionsIn(before, |first|, s, t, length)
    ensures AdmissionsIn(last, |first|, s, t, length)
      == AdmissionsIn(before, |first|, s, t, length) + AdmissionsIn(last, |after|, s, t, length)
  {
    hide AdmissionsIn;
    AdmissionsSplit(last, |first|, |after|, s, t, length);
    assert last[..|after|] == after;
  }

  /** Admissions of a scope before and after a step that evicts it. */
  lemma EvictionSplits<R>(p: Policy, run: seq<World<R>>, actions: seq<Action<R>>, s: string, i: nat, k: nat, j: nat,
      t: int)
    requires IsRun(p, run, actions) && i < k <= j < |run| && Evicts(run[k - 1], run[k], s)
    ensures |run[i].admitted| <= |run[k - 1].admitted|
    ensures var from := |run[i].admitted|;
      AdmissionsIn(run[j].admitted, from, s, t, p.windowMs)
        == AdmissionsIn(run[k - 1].admitted, from, s, t, p.windowMs)
          + AdmissionsIn(run[j].admitted, |run[k].admitted|, s, t, p.windowMs)
  {
    hide IsRun, Apply, Enabled, AdmissionsIn, Evicts;
    var before, after := run[k - 1], run[k];
    LogGrows(p, run, actions, i, k - 1);
    LogGrows(p, run, actions, k - 1, k);
    LogGrows(p, run, actions, k, j);
    RunAt(p, run, actions, k - 1);
    EvictingStepAdmitsOthers(p, before, actions[k - 1], s, |run[i].admitted|, t, p.windowMs);
    SplitLog(run[i].admitted, before.admitted, after.admitted, run[j].admitted, s, t, p.windowMs);
  }

  /** Over any stretch of any run, whatever the interleaving, a scope passes enforceWindow at most
      maxRequests times per window for each of its records: the first and one per eviction. */
  lemma {:induction false} BudgetPerEviction<R>(p: Policy, run: seq<World<R>>, actions: seq<Action<R>>, s: string,
      i: nat, j: nat, t: int)
    requires p.Valid() && IsRun(p, run, actions) && i <= j < |run|
    ensures AdmissionsIn(run[j].admitted, |run[i].admitted|, s, t, p.windowMs)
      <= p.maxRequests * (1 + Evictions(run, s, i, j))
    decreases j
  {
    hide IsRun, AdmissionsIn, Evicts, NotEvicted;
    var k := LastCut(run, s, i, j);
    SlidingWindowSafety(p, run, actions, s, k, j, t);
    if k > i {
      var evicted := Evictions(run, s, i, k - 1);
      BudgetPerEviction(p, run, actions, s, i, k - 1, t);
      EvictionSplits(p, run, actions, s, i, k, j, t);
      assert p.maxRequests * (1 + evicted) + p.maxRequests == p.maxRequests * (1 + (evicted + 1));
    }
  }

  // ----- the bound is reached -----

  /** A run with its actions. */
  datatype Course = Course(run: seq<World<nat>>, actions: seq<Action<nat>>) {
    ghost function Last(): World<nat>
      requires run != []
    {
      run[|run| - 1]
    }
  }

  ghost predicate CourseOk(p: Policy, c: Course) { c.run != [] && IsRun(p, c.run, c.actions) }

  ghost function EvictionsOf(c: Course, s: string): nat
    requires c.run != []
  {
    Evictions(c.run, s, 0, |c.run| - 1)
  }

  ghost function Then(p: Policy, c: Course, a: Action<nat>): Course
    requires CourseOk(p, c) && Enabled(c.Last(), a)
  {
    Course(c.run + [Apply(p, c.Last(), a)], c.actions + [a])
  }

  lemma {:induction false} SameEvictions<R>(run: seq<World<R>>, w: World<R>, s: string, j: nat)
    requires j < |run|
    ensures Evictions(run + [w], s, 0, j) == Evictions(run, s, 0, j)
  {
    if j > 0 {
      SameEvictions(run, w, s, j - 1);
    }
  }

  lemma ThenOk(p: Policy, c: Course, a: Action<nat>, s: string)
    requires CourseOk(p, c) && Enabled(c.Last(), a)
    ensures var d := Then(p, c, a);
      && CourseOk(p, d) && d.Last() == Apply(p, c.Last(), a)
      && EvictionsOf(d, s) == EvictionsOf(c, s) + if Evicts(c.Last(), d.Last(), s) then 1 else 0
  {
    hide Enabled, Apply;
    var w, n := Apply(p, c.Last(), a), |c.run|;
    SameEvictions(c.run, w, s, n - 1);
    var run, actions := c.run + [w], c.actions + [a];
    forall k | 0 <= k < |actions|
      ensures Enabled(run[k], actions[k]) && run[k + 1] == Apply(p, run[k], actions[k])
    {
    }
  }

  // A visit: one call of a scope, started and ended at time 0.

  const DONE := Execution.Resolved(true, None, 0, 0)
  const NO_LIMITS := Limits(0, 0)

  /** Calls and records are numbered from below n. */
  ghost predicate Below(w: World<nat>, n: nat) {
    w.now == 0 && (forall c <- w.started :: c < n) && (forall r: nat :: r in w.heap ==> r < n)
  }

  function Arrive(scope: string, n: nat): Action<nat> { Starts(n, scope, true, 0, 0, n) }

  function Leave(n: nat): Action<nat> { Ends(n, DONE, NO_LIMITS) }

  /** The world of a call when getLimiterState has run. */
  ghost function Acquired(w: World<nat>, scope: string, n: nat): (World<nat>, Option<nat>) {
    Acquire(w.(started := w.started + {n}, now := 0), scope, 0, n)
  }

  /** The limiter of a record that has let a call through at time 0. */
  function Charged(p: Policy, l: Limiter, active: nat): Limiter {
    Limiter(active, Recent(l.timestamps, 0 - p.windowMs) + [0], 0)
  }

  /** v is the world after an idle record r has let a call of the scope through. */
  ghost predicate Admits(p: Policy, held: World<nat>, scope: string, r: nat, v: World<nat>, active: nat) {
    && r in held.heap
    && v.order == held.order && v.table == held.table && v.started == held.started && v.now == held.now
    && v.heap == held.heap[r := Charged(p, held.heap[r], active)]
    && v.admitted == held.admitted + [Admission(scope, r, 0)]
  }

  lemma Arrives(p: Policy, w: World<nat>, scope: string, n: nat, held: World<nat>, r: nat)
    requires p.Valid() && Below(w, n) && Acquired(w, scope, n) == (held, Some(r))
    requires r in held.heap && held.heap[r].active == 0 && |held.heap[r].timestamps| < p.maxRequests
    ensures Enabled(w, Arrive(scope, n))
    ensures var v := Apply(p, w, Arrive(scope, n));
      Admits(p, held, scope, r, v, 1) && n in v.inFlight && v.inFlight[n] == Ticket(scope, r)
  {
    hide Acquire;
    assert n !in w.started && n !in w.heap;
  }

  lemma Leaves(p: Policy, held: World<nat>, scope: string, r: nat, n: nat, v: World<nat>)
    requires Admits(p, held, scope, r, v, 1) && n in v.inFlight && v.inFlight[n] == Ticket(scope, r)
    ensures Enabled(v, Leave(n)) && Admits(p, held, scope, r, Apply(p, v, Leave(n)), 0)
  {
    var u := Apply(p, v, Leave(n));
    assert u.heap == held.heap[r := Charged(p, held.heap[r], 0)];
  }

  /** The course after a start and, with `ends`, the end of that call. */
  lemma Visit(p: Policy, c: Course, s: string, scope: string, n: nat, held: World<nat>, r: nat, ends: bool)
      returns (d: Course)
    requires p.Valid() && CourseOk(p, c) && Below(c.Last(), n) && Acquired(c.Last(), scope, n) == (held, Some(r))
    requires r in held.heap && held.heap[r].active == 0 && |held.heap[r].timestamps| < p.maxRequests
    ensures CourseOk(p, d) && Admits(p, held, scope, r, d.Last(), if ends then 0 else 1)
    ensures EvictionsOf(d, s) == EvictionsOf(c, s) + if s in c.Last().table && s !in held.table then 1 else 0
  {
    Arrives(p, c.Last(), scope, n, held, r);
    ThenOk(p, c, Arrive(scope, n), s);
    d := Then(p, c, Arrive(scope, n));
    hide Apply, Enabled, Acquire, IsRun;
    if ends {
      var v := d.Last();
      Leaves(p, held, scope, r, n, v);
      ThenOk(p, d, Leave(n), s);
      d := Then(p, d, Leave(n));
    }
  }

  lemma CountAdmitted(p: Policy, held: World<nat>, s: string, scope: string, r: nat, v: World<nat>, active: nat)
    requires p.Valid() && Admits(p, held, scope, r, v, active)
    ensures Passed(p, v, s) == Passed(p, held, s) + if scope == s then 1 else 0
  {
    AdmissionsSnoc(held.admitted, Admission(scope, r, 0), 0, s, 0, p.windowMs);
  }

  /** Passes of a scope in the window that starts at time 0. */
  ghost function Passed(p: Policy, w: World<nat>, s: string): nat { AdmissionsIn(w.admitted, 0, s, 0, p.windowMs) }

  // Filling the map with scopes that have a call in flight each.

  function Filler(s: string, i: nat): string { s + seq(i + 1, _ => 'x') }

  lemma FillersDiffer(s: string, i: nat, j: nat)
    ensures Filler(s, i) != s && (Filler(s, i) == Filler(s, j) ==> i == j)
  {
    assert |Filler(s, i)| == |s| + i + 1 && |Filler(s, j)| == |s| + j + 1;
  }

  ghost predicate Busy(w: World<nat>, scope: string) { !Idle(scope, w.table, w.heap) }

  ghost predicate Filled(p: Policy, w: World<nat>, s: string, m: nat) {
    && Below(w, m) && TableInv(w) && |w.order| == m && Passed(p, w, s) == 0
    && (forall t | t in w.table :: Busy(w, t))
    && (forall t | t in w.table :: exists i: nat :: i < m && t == Filler(s, i))
  }

  lemma NewInFilled(p: Policy, w: World<nat>, s: string, m: nat, i: nat)
    requires Filled(p, w, s, m) && m <= i
    ensures s !in w.table && Filler(s, i) !in w.table
  {
    forall t | t in w.table
      ensures t != s && t != Filler(s, i)
    {
      var j: nat :| j < m && t == Filler(s, j);
      FillersDiffer(s, i, j);
      FillersDiffer(s, j, i);
    }
  }

  lemma InsertAcquires(w: World<nat>, scope: string, n: nat)
    requires Below(w, n) && scope !in w.table && |w.order| < MAX_TRACKED_SCOPES
    ensures Acquired(w, scope, n) == (Insert(w.(started := w.started + {n}), scope, 0, n), Some(n))
  {
  }

  lemma FillerAdded(p: Policy, w: World<nat>, s: string, m: nat, v: World<nat>)
    requires p.Valid() && Filled(p, w, s, m) && TableInv(v)
    requires Admits(p, Insert(w.(started := w.started + {m}), Filler(s, m), 0, m), Filler(s, m), m, v, 1)
    ensures Filled(p, v, s, m + 1)
  {
    FillersDiffer(s, m, m);
    CountAdmitted(p, Insert(w.(started := w.started + {m}), Filler(s, m), 0, m), s, Filler(s, m), m, v, 1);
    hide Filler, AdmissionsIn, Recent;
  }

  lemma FillStep(p: Policy, c: Course, s: string, m: nat) returns (d: Course)
    requires p.Valid() && CourseOk(p, c) && Filled(p, c.Last(), s, m) && m < MAX_TRACKED_SCOPES
    ensures CourseOk(p, d) && Filled(p, d.Last(), s, m + 1) && EvictionsOf(d, s) == EvictionsOf(c, s)
  {
    hide Filler, IsRun, AdmissionsIn, Recent, Acquire;
    var w, f := c.Last(), Filler(s, m);
    NewInFilled(p, w, s, m, m);
    InsertAcquires(w, f, m);
    d := Visit(p, c, s, f, m, Insert(w.(started := w.started + {m}), f, 0, m), m, false);
    RunKeepsInv(p, d.run, d.actions, |d.run| - 1);
    FillerAdded(p, w, s, m, d.Last());
  }

  lemma {:induction false} Fill(p: Policy, s: string, m: nat) returns (c: Course)
    requires p.Valid() && m <= MAX_TRACKED_SCOPES
    ensures CourseOk(p, c) && Filled(p, c.Last(), s, m) && EvictionsOf(c, s) == 0
  {
    if m == 0 {
      c := Course([Init()], []);
    } else {
      hide Filled, IsRun;
      c := Fill(p, s, m - 1);
      c := FillStep(p, c, s, m - 1);
    }
  }

  // One idle scope in a full map.

  /** The map is full, `a` is its only idle scope and has at most `used` passes on its record. */
  ghost predicate Lone(w: World<nat>, a: string, n: nat, used: nat) {
    && Below(w, n) && TableInv(w) && |w.order| == MAX_TRACKED_SCOPES
    && Idle(a, w.table, w.heap) && |w.heap[w.table[a]].timestamps| <= used
    && forall t | t in w.table && t != a :: Busy(w, t)
  }

  /** The scope itself takes the last place. */
  lemma TakeLastPlace(p: Policy, s: string) returns (c: Course)
    requires p.Valid()
    ensures CourseOk(p, c) && EvictionsOf(c, s) == 0
    ensures Lone(c.Last(), s, MAX_TRACKED_SCOPES, 1) && Passed(p, c.Last(), s) == 1
    ensures Filler(s, MAX_TRACKED_SCOPES) !in c.Last().table
  {
    hide Filler, IsRun, AdmissionsIn, Recent, Acquire;
    var m := MAX_TRACKED_SCOPES - 1;
    c := Fill(p, s, m);
    var w := c.Last();
    NewInFilled(p, w, s, m, MAX_TRACKED_SCOPES);
    FillersDiffer(s, MAX_TRACKED_SCOPES, MAX_TRACKED_SCOPES);
    InsertAcquires(w, s, m);
    var held := Insert(w.(started := w.started + {m}), s, 0, m);
    c := Visit(p, c, s, s, m, held, m, true);
    RunKeepsInv(p, c.run, c.actions, |c.run| - 1);
    CountAdmitted(p, held, s, s, m, c.Last(), 0);
  }

  /** The world in which a mapped scope has been touched by call n. */
  ghost function Touched(w: World<nat>, s: string, n: nat): World<nat>
    requires s in w.table
  {
    w.(started := w.started + {n}, heap := w.heap[w.table[s] := Touch(Fields(w, w.table[s]), 0)])
  }

  lemma StillLone(p: Policy, w: World<nat>, s: string, n: nat, used: nat, v: World<nat>)
    requires Lone(w, s, n, used) && TableInv(v) && Admits(p, Touched(w, s, n), s, w.table[s], v, 0)
    ensures Lone(v, s, n + 1, used + 1) && v.table == w.table
  {
    hide Recent;
    forall t | t in v.table && t != s
      ensures Busy(v, t)
    {
      assert Busy(w, t);
    }
  }

  lemma TouchAcquires(w: World<nat>, s: string, n: nat, used: nat)
    requires Lone(w, s, n, used)
    ensures Acquired(w, s, n) == (Touched(w, s, n), Some(w.table[s]))
  {
  }

  /** The idle scope passes once more on its record. */
  lemma PassAgain(p: Policy, c: Course, s: string, n: nat, used: nat) returns (d: Course)
    requires p.Valid() && CourseOk(p, c) && Lone(c.Last(), s, n, used) && used < p.maxRequests
    ensures CourseOk(p, d) && EvictionsOf(d, s) == EvictionsOf(c, s)
    ensures Lone(d.Last(), s, n + 1, used + 1) && d.Last().table == c.Last().table
    ensures Passed(p, d.Last(), s) == Passed(p, c.Last(), s) + 1
  {
    hide IsRun, AdmissionsIn, Recent, Acquire, Busy;
    var w := c.Last();
    var held, r := Touched(w, s, n), w.table[s];
    TouchAcquires(w, s, n, used);
    d := Visit(p, c, s, s, n, held, r, true);
    RunKeepsInv(p, d.run, d.actions, |d.run| - 1);
    CountAdmitted(p, held, s, s, r, d.Last(), 0);
    StillLone(p, w, s, n, used, d.Last());
  }

  lemma {:induction false} PassMore(p: Policy, c: Course, s: string, n: nat, used: nat) returns (d: Course, n': nat)
    requires p.Valid() && CourseOk(p, c) && Lone(c.Last(), s, n, used) && used <= p.maxRequests
    ensures CourseOk(p, d) && EvictionsOf(d, s) == EvictionsOf(c, s)
    ensures Lone(d.Last(), s, n', p.maxRequests) && d.Last().table == c.Last().table
    ensures Passed(p, d.Last(), s) == Passed(p, c.Last(), s) + p.maxRequests - used
    decreases p.maxRequests - used
  {
    hide Lone, IsRun, AdmissionsIn;
    d, n' := c, n;
    if used < p.maxRequests {
      d := PassAgain(p, c, s, n, used);
      d, n' := PassMore(p, d, s, n + 1, used + 1);
    }
  }

  lemma WithoutOne(order: seq<string>, s: string)
    requires Distinct(order) && s in order
    ensures |Without(order, s)| == |order| - 1
  {
    var k :| 0 <= k < |order| && order[k] == s;
    WithoutAt(order, k);
  }

  lemma LoneIsVictim(w: World<nat>, a: string, n: nat, used: nat)
    requires Lone(w, a, n, used)
    ensures Victim(w.order, w.table, w.heap) == Some(a)
  {
    VictimIsOldestIdle(w.order, w.table, w.heap);
  }

  /** The world after `a` has made room for `b`. */
  ghost function Swapped(w: World<nat>, a: string, b: string, n: nat): World<nat> {
    Insert(w.(started := w.started + {n}, order := Without(w.order, a), table := w.table - {a}), b, 0, n)
  }

  lemma SwapAcquires(w: World<nat>, a: string, b: string, n: nat, used: nat)
    requires Lone(w, a, n, used) && b !in w.table
    ensures Acquired(w, b, n) == (Swapped(w, a, b, n), Some(n)) && |Swapped(w, a, b, n).order| == MAX_TRACKED_SCOPES
  {
    LoneIsVictim(w, a, n, used);
    WithoutOne(w.order, a);
    hide Victim, Without;
  }

  /** A scope that is not in the map takes the place of the idle one. */
  lemma Swap(p: Policy, c: Course, s: string, a: string, b: string, n: nat, used: nat) returns (d: Course)
    requires p.Valid() && CourseOk(p, c) && Lone(c.Last(), a, n, used) && b !in c.Last().table
    ensures CourseOk(p, d) && EvictionsOf(d, s) == EvictionsOf(c, s) + if s == a then 1 else 0
    ensures Lone(d.Last(), b, n + 1, 1) && a !in d.Last().table
    ensures Passed(p, d.Last(), s) == Passed(p, c.Last(), s) + if s == b then 1 else 0
  {
    hide IsRun, AdmissionsIn, Recent, Acquire, Without;
    var w, held := c.Last(), Swapped(c.Last(), a, b, n);
    SwapAcquires(w, a, b, n, used);
    d := Visit(p, c, s, b, n, held, n, true);
    RunKeepsInv(p, d.run, d.actions, |d.run| - 1);
    CountAdmitted(p, held, s, b, n, d.Last(), 0);
  }

  /** Each newcomer evicts the spent scope and is evicted in turn by its next call, which starts a
      whole new budget. */
  lemma {:induction false} Respend(p: Policy, s: string, k: nat) returns (c: Course, n: nat)
    requires p.Valid()
    ensures CourseOk(p, c) && EvictionsOf(c, s) == k && Passed(p, c.Last(), s) == p.maxRequests * (1 + k)
    ensures Lone(c.Last(), s, n, p.maxRequests) && Filler(s, MAX_TRACKED_SCOPES) !in c.Last().table
  {
    hide Lone, IsRun, AdmissionsIn, Filler;
    var x := Filler(s, MAX_TRACKED_SCOPES);
    if k == 0 {
      c := TakeLastPlace(p, s);
      c, n := PassMore(p, c, s, MAX_TRACKED_SCOPES, 1);
    } else {
      c, n := Respend(p, s, k - 1);
      FillersDiffer(s, MAX_TRACKED_SCOPES, MAX_TRACKED_SCOPES);
      c := Swap(p, c, s, s, x, n, p.maxRequests);
      c := Swap(p, c, s, x, s, n + 1, 1);
      c, n := PassMore(p, c, s, n + 2, 1);
      assert p.maxRequests * k + p.maxRequests == p.maxRequests * (1 + k);
    }
  }

  /** The bound of BudgetPerEviction is attained under every policy, for every scope and every number
      of evictions, at a single instant: other scopes fill the map with calls in flight, so that the
      spent scope is the only one that can be evicted. */
  lemma BudgetPerEvictionAttained(p: Policy, s: string, k: nat) returns (c: Course)
    requires p.Valid()
    ensures CourseOk(p, c) && EvictionsOf(c, s) == k
    ensures AdmissionsIn(c.Last().admitted, 0, s, 0, p.windowMs) == p.maxRequests * (1 + k)
  {
    hide Lone, IsRun, AdmissionsIn, Filler;
    var n;
    c, n := Respend(p, s, k);
  }
}
