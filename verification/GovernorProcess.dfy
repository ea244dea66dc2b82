/** read-tool-governor.ts with its own mutable state: a map from scopes to limiter objects
    that in-flight calls share by reference. Every method is proved to perform exactly one
    step of the transition system of module Governor. */
module GovernorProcess {
  import opened Hashing
  import G = Governor

  class LimiterState {
    var active: nat
    var requestTimestamps: seq<int>
    var lastTouchedAt: int

    constructor (now: int)
      ensures active == 0 && requestTimestamps == [] && lastTouchedAt == now
    {
      active, requestTimestamps, lastTouchedAt := 0, [], now;
    }

    ghost function Value(): G.Limiter
      reads this
    {
      G.Limiter(active, requestTimestamps, lastTouchedAt)
    }

    method EnforceWindow(now: int, policy: G.Policy) returns (ok: bool)
      modifies this
      ensures Value() == G.Enforce(old(Value()), now, policy)
      ensures ok == G.Passes(old(Value()), now, policy)
      ensures ok <==> |G.LaterThan(old(requestTimestamps), now - policy.windowMs)| < policy.maxRequests
    {
      G.RecentAreLater(requestTimestamps, now - policy.windowMs);
      lastTouchedAt := now;
      var windowStart := now - policy.windowMs;
      requestTimestamps := G.Recent(requestTimestamps, windowStart);
      if |requestTimestamps| >= policy.maxRequests {
        return false;
      }
      requestTimestamps := requestTimestamps + [now];
      return true;
    }

    method ReleaseConcurrency()
      modifies this
      ensures Value() == G.Release(old(Value()))
    {
      if active > 0 {
        active := active - 1;
      }
    }
  }

  class ReadToolGovernor {
    const policy: G.Policy
    var order: seq<string>
    var limiterStates: map<string, LimiterState>
    var inFlight: map<nat, G.Ticket<LimiterState>>
    var events: seq<G.Event>
    ghost var heap: map<LimiterState, G.Limiter>  // every record allocated so far, with its fields
    ghost var started: set<nat>
    ghost var now: int
    ghost var admitted: seq<G.Admission<LimiterState>>

    /** The transition-system state this object stands for. */
    ghost function Model(): G.World<LimiterState>
      reads this
    {
      G.World(order, limiterStates, heap, inFlight, started, now, admitted, events)
    }

    ghost predicate InSync()
      reads this, heap.Keys
    {
      forall r | r in heap :: heap[r] == r.Value()
    }

    ghost predicate Valid()
      reads this, heap.Keys
    {
      InSync() && G.Inv(policy, Model())
    }

    constructor (policy: G.Policy)
      requires policy.Valid()
      ensures Valid() && Model() == G.Init() && this.policy == policy
    {
      this.policy := policy;
      order, limiterStates, inFlight, heap := [], map[], map[], map[];
      started, now, admitted, events := {}, 0, [], [];
      assert forall c: nat :: G.EventsOf([], c) == 0;
    }

    /** The idle scope least recently touched, first in map order among equals. */
    method FindVictim() returns (v: Option<string>)
      requires InSync() && forall s | s in order :: s in limiterStates && limiterStates[s] in heap
      ensures v == G.Victim(order, limiterStates, heap) && unchanged(this)
    {
      v := None;
      for i := 0 to |order|
        invariant v == G.Victim(order[..i], limiterStates, heap)
        invariant v.Some? ==>
          v.value in limiterStates && limiterStates[v.value] in heap && heap[limiterStates[v.value]].active == 0
      {
        var s := order[i];
        assert order[..i + 1][..i] == order[..i];
        var state := limiterStates[s];
        if state.active == 0 {
          if v.None? || state.lastTouchedAt < limiterStates[v.value].lastTouchedAt {
            v := Some(s);
          }
        }
      }
      assert order[..|order|] == order;
    }

    method GetLimiterState(scope: string, t: int, blank: LimiterState) returns (state: LimiterState?)
      requires InSync() && G.TableInv(Model()) && blank !in heap
      requires blank.Value() == G.Limiter(0, [], t)
      modifies this, heap.Keys
      ensures InSync() && heap.Keys <= old(heap.Keys) + {blank}
      ensures Model() == G.Acquire(old(Model()), scope, t, blank).0
      ensures state == (match G.Acquire(old(Model()), scope, t, blank).1 case None => null case Some(r) => r)
      ensures state != null ==> state in heap
    {
      hide G.Victim, G.Without;
      if scope in limiterStates {
        state := limiterStates[scope];
        state.lastTouchedAt := t;
        heap := heap[state := G.Touch(heap[state], t)];
        return;
      }
      if |order| >= G.MAX_TRACKED_SCOPES {
        var evictable := FindVictim();
        if evictable.None? {
          return null;
        }
        order := G.Without(order, evictable.value);
        limiterStates := limiterStates - {evictable.value};
      }
      state := blank;
      order, limiterStates := order + [scope], limiterStates[scope := blank];
      heap := heap[blank := blank.Value()];
    }

    method BeginStep(call: nat, scope: string, inputOk: bool, t1: int, t2: int, blank: LimiterState)
      requires InSync() && G.TableInv(Model()) && blank !in heap
      requires blank.Value() == G.Limiter(0, [], t1)
      modifies this, heap.Keys, blank
      ensures InSync() && heap.Keys <= old(heap.Keys) + {blank}
      ensures Model() == G.Begin(policy, old(Model()), call, scope, inputOk, t1, t2, blank)
    {
      started, now := started + {call}, t2;
      if !inputOk {
        events := events + [G.Event(call, scope, G.Blocked(G.Validation))];
        return;
      }
      var state := GetLimiterState(scope, t1, blank);
      if state == null {
        events := events + [G.Event(call, scope, G.Blocked(G.Unavailable))];
        return;
      }
      BeginOn(call, scope, state, t2);
    }

    method BeginOn(call: nat, scope: string, state: LimiterState, t2: int)
      requires InSync() && state in heap
      modifies this, state
      ensures InSync() && heap.Keys == old(heap.Keys)
      ensures Model() == G.BeginOn(policy, old(Model()), call, scope, state, t2)
    {
      hide G.Recent;
      var ok := state.EnforceWindow(t2, policy);
      heap := heap[state := G.Enforce(heap[state], t2, policy)];
      if !ok {
        events := events + [G.Event(call, scope, G.Blocked(G.Unavailable))];
        return;
      }
      admitted := admitted + [G.Admission(scope, state, t2)];
      if state.active >= policy.maxConcurrent {
        events := events + [G.Event(call, scope, G.Blocked(G.Unavailable))];
        return;
      }
      state.active := state.active + 1;
      heap := heap[state := heap[state].(active := heap[state].active + 1)];
      inFlight := inFlight[call := G.Ticket(scope, state)];
    }

    /** The executor up to its await. `blank` becomes the scope's record if the map has none. */
    method Begin(call: nat, scope: string, inputOk: bool, t1: int, t2: int) returns (ghost blank: LimiterState)
      requires Valid() && call !in started && now <= t1 <= t2
      modifies this, heap.Keys
      ensures Valid() && fresh(blank) && heap.Keys <= old(heap.Keys) + {blank}
      ensures Model() == G.Begin(policy, old(Model()), call, scope, inputOk, t1, t2, blank)
    {
      var record := new LimiterState(t1);
      blank := record;
      assert InSync();
      BeginStep(call, scope, inputOk, t1, t2, record);
      G.StepKeepsInv(policy, old(Model()), G.Starts(call, scope, inputOk, t1, t2, blank));
    }

    /** The finally block of a started execution. */
    method Finish(call: nat, result: G.Execution, limits: G.Limits)
      requires Valid() && call in inFlight
      modifies this, heap.Keys
      ensures Valid() && heap.Keys == old(heap.Keys)
      ensures Model() == G.Finish(old(Model()), call, G.Classify(result, limits))
    {
      assert G.TicketOk(Model(), call);
      FinishStep(call, G.Classify(result, limits));
      G.StepKeepsInv(policy, old(Model()), G.Ends(call, result, limits));
    }

    method FinishStep(call: nat, outcome: G.Outcome)
      requires InSync() && call in inFlight && inFlight[call].record in heap
      modifies this, heap.Keys
      ensures InSync() && heap.Keys == old(heap.Keys)
      ensures Model() == G.Finish(old(Model()), call, outcome)
    {
      var ticket := inFlight[call];
      ticket.record.ReleaseConcurrency();
      heap := heap[ticket.record := G.Release(heap[ticket.record])];
      inFlight := inFlight - {call};
      events := events + [G.Event(call, ticket.scope, outcome)];
    }
  }
}
