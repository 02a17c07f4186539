/**
 Every interleaving of concurrent `resolve` calls on one dispatcher: a call chooses its start (for
 round-robin, by one atomic fetch-and-add), then tries resolvers one at a time until one succeeds
 or all have failed, while any number of other calls do the same.
 */
module DispatchRuns {
  import opened Basics
  import opened UpstreamStrategy

  datatype Config = Config(strategy: Strategy, n: nat)

  datatype Attempt = Attempt(resolver: nat, outcome: Outcome)

  datatype Call = Call(start: nat, attempts: seq<Attempt>)

  datatype State = State(counter: nat, calls: map<nat, Call>)

  datatype Event =
    | Begin(id: nat, draw: nat)
    | Try(id: nat, resolver: nat, outcome: Outcome)
    | Finish(id: nat, result: Outcome)

  const Init := State(0, map[])

  function FirstOf(cfg: Config, counter: nat, draw: nat): nat {
    if cfg.n == 0 then 0 else StartOf(cfg.strategy, counter, cfg.n, draw)
  }

  predicate Done(cfg: Config, c: Call) {
    |c.attempts| == cfg.n || (|c.attempts| > 0 && c.attempts[|c.attempts| - 1].outcome.Ok?)
  }

  /** The last outcome; a call without resolvers has none and reports that all failed. */
  function ResultOf(c: Call): Outcome {
    if |c.attempts| == 0 then Err(AllFailed) else c.attempts[|c.attempts| - 1].outcome
  }

  ghost predicate Step(cfg: Config, s: State, e: Event, t: State) {
    match e
    case Begin(id, draw) =>
      && id !in s.calls && (cfg.n > 0 ==> draw < cfg.n) && s.counter < WORD
      && t == State(CounterAfter(cfg.strategy, s.counter, cfg.n), s.calls[id := Call(FirstOf(cfg, s.counter, draw), [])])
    case Try(id, resolver, outcome) =>
      && cfg.n > 0 && id in s.calls && !Done(cfg, s.calls[id])
      && (var c := s.calls[id];
          && resolver == (c.start + |c.attempts|) % cfg.n
          && t == s.(calls := s.calls[id := c.(attempts := c.attempts + [Attempt(resolver, outcome)])]))
    case Finish(id, result) =>
      && id in s.calls && Done(cfg, s.calls[id]) && result == ResultOf(s.calls[id])
      && t == s.(calls := s.calls - {id})
  }

  ghost predicate Run(cfg: Config, states: seq<State>, events: seq<Event>) {
    && |states| == |events| + 1 && states[0] == Init
    && forall i :: 0 <= i < |events| ==> Step(cfg, states[i], events[i], states[i + 1])
  }

  // ----- Every call is a rotation of its own -----

  /** What call `id` tried from event `a` on and before event `b`. */
  function AttemptsIn(events: seq<Event>, id: nat, a: nat, b: nat): seq<Attempt>
    requires b <= |events|
  {
    if a >= b then []
    else
      AttemptsIn(events, id, a, b - 1) +
      (if events[b - 1].Try? && events[b - 1].id == id then [Attempt(events[b - 1].resolver, events[b - 1].outcome)] else [])
  }

  /** The attempts follow the rotation from the call's start, and only the last can have succeeded. */
  ghost predicate FollowsRotation(cfg: Config, start: nat, attempts: seq<Attempt>) {
    && |attempts| <= cfg.n
    && forall j :: 0 <= j < |attempts| ==>
         && attempts[j].resolver == Rotation(start, cfg.n)[j]
         && (j < |attempts| - 1 ==> attempts[j].outcome.Err?)
  }

  ghost predicate BegunAt(cfg: Config, states: seq<State>, events: seq<Event>, k: nat, id: nat, start: nat) {
    && k < |events| < |states| && events[k].Begin? && events[k].id == id
    && start == FirstOf(cfg, states[k].counter, events[k].draw)
  }

  /** How one step may change a call. */
  lemma StepCall(cfg: Config, s: State, e: Event, t: State, id: nat)
    requires Step(cfg, s, e, t) && id in t.calls
    ensures || (e.Begin? && e.id == id && id !in s.calls && t.calls[id] == Call(FirstOf(cfg, s.counter, e.draw), []))
            || (&& id in s.calls && e.Try? && e.id == id && cfg.n > 0 && !Done(cfg, s.calls[id])
                && e.resolver == (s.calls[id].start + |s.calls[id].attempts|) % cfg.n
                && t.calls[id] == s.calls[id].(attempts := s.calls[id].attempts + [Attempt(e.resolver, e.outcome)]))
            || (id in s.calls && !(e.Try? && e.id == id) && t.calls[id] == s.calls[id])
  {
  }

  lemma OneMoreAttempt(cfg: Config, c: Call, a: Attempt)
    requires cfg.n > 0 && FollowsRotation(cfg, c.start, c.attempts) && !Done(cfg, c)
    requires a.resolver == (c.start + |c.attempts|) % cfg.n
    ensures FollowsRotation(cfg, c.start, c.attempts + [a])
  {
    assert Rotation(c.start, cfg.n)[|c.attempts|] == a.resolver;
  }

  /** Every call in flight began at some step and has since tried exactly what the events say. */
  lemma {:induction false} CallStands(cfg: Config, states: seq<State>, events: seq<Event>, i: nat, id: nat)
      returns (k: nat)
    requires Run(cfg, states, events) && i < |states| && id in states[i].calls
    ensures k < i && BegunAt(cfg, states, events, k, id, states[i].calls[id].start)
    ensures states[i].calls[id].attempts == AttemptsIn(events, id, k + 1, i)
    ensures FollowsRotation(cfg, states[i].calls[id].start, states[i].calls[id].attempts)
    decreases i
  {
    hide Step, FollowsRotation, Done;
    assert i > 0;
    var s, e, t := states[i - 1], events[i - 1], states[i];
    assert Step(cfg, s, e, t);
    StepCall(cfg, s, e, t, id);
    if e.Begin? && e.id == id && id !in s.calls {
      k := i - 1;
      NothingTried(cfg, t.calls[id].start);
    } else {
      k := CallStands(cfg, states, events, i - 1, id);
      if e.Try? && e.id == id {
        OneMoreAttempt(cfg, s.calls[id], Attempt(e.resolver, e.outcome));
      }
    }
  }

  lemma NothingTried(cfg: Config, start: nat)
    ensures FollowsRotation(cfg, start, [])
  {
  }

  function Resolvers(attempts: seq<Attempt>): seq<nat> {
    seq(|attempts|, j requires 0 <= j < |attempts| => attempts[j].resolver)
  }

  /** The resolvers' outcomes, as far as the attempts reveal them. */
  ghost predicate Reveals(attempts: seq<Attempt>, outcomes: seq<Outcome>) {
    forall j :: 0 <= j < |attempts| ==>
      attempts[j].resolver < |outcomes| && outcomes[attempts[j].resolver] == attempts[j].outcome
  }

  lemma {:induction false} Revealed(cfg: Config, start: nat, attempts: seq<Attempt>) returns (outcomes: seq<Outcome>)
    requires cfg.n > 0 && FollowsRotation(cfg, start, attempts)
    ensures |outcomes| == cfg.n && Reveals(attempts, outcomes)
    decreases |attempts|
  {
    if |attempts| == 0 {
      outcomes := seq(cfg.n, _ => Err(AllFailed));
    } else {
      var last := |attempts| - 1;
      var front := attempts[..last];
      outcomes := Revealed(cfg, start, front);
      var x := attempts[last].resolver;
      RotationVisitsOnce(start, cfg.n, x);
      forall j | 0 <= j < last
        ensures attempts[j].resolver != x && outcomes[attempts[j].resolver] == attempts[j].outcome
      {
        assert front[j] == attempts[j];
      }
      outcomes := outcomes[x := attempts[last].outcome];
    }
  }

  lemma RotationPrefix(cfg: Config, start: nat, attempts: seq<Attempt>)
    requires cfg.n > 0 && FollowsRotation(cfg, start, attempts)
    ensures Resolvers(attempts) <= Rotation(start, cfg.n)
  {
  }

  /**
   In every interleaving a finished call (begun at step `k`) is the first success of its own
   rotation: it tried a prefix of the rotation from its start, no resolver twice, and reports the
   last outcome, an error only if every resolver failed it.
   */
  lemma FinishedCall(cfg: Config, states: seq<State>, events: seq<Event>, i: nat) returns (k: nat, outcomes: seq<Outcome>)
    requires Run(cfg, states, events) && i < |events| && events[i].Finish?
    ensures k < i && k < |states| && events[k].Begin? && events[k].id == events[i].id
    ensures var attempts := AttemptsIn(events, events[i].id, k + 1, i);
            if cfg.n == 0 then attempts == [] && events[i].result == Err(AllFailed)
            else
              && |outcomes| == cfg.n && Reveals(attempts, outcomes)
              && FirstSuccess(outcomes, StartOf(cfg.strategy, states[k].counter, cfg.n, events[k].draw),
                              events[i].result, Resolvers(attempts))
  {
    hide AttemptsIn, Rotation, StartOf;
    var id := events[i].id;
    assert Step(cfg, states[i], events[i], states[i + 1]);
    k := CallStands(cfg, states, events, i, id);
    var c := states[i].calls[id];
    outcomes := [];
    if cfg.n > 0 {
      outcomes := Revealed(cfg, c.start, c.attempts);
      RotationPrefix(cfg, c.start, c.attempts);
      EndsWithFirstSuccess(cfg, c, outcomes);
    }
  }

  lemma EndsWithFirstSuccess(cfg: Config, c: Call, outcomes: seq<Outcome>)
    requires cfg.n > 0 && FollowsRotation(cfg, c.start, c.attempts) && Done(cfg, c)
    requires |outcomes| == cfg.n && Reveals(c.attempts, outcomes)
    ensures FirstSuccess(outcomes, c.start, ResultOf(c), Resolvers(c.attempts))
  {
    hide Rotation;
    RotationPrefix(cfg, c.start, c.attempts);
  }

  // ----- Fairness of round-robin over runs -----

  /** How many calls begin from event `a` on and before event `b`. */
  function Begins(events: seq<Event>, a: nat, b: nat): nat
    requires a <= b <= |events|
    decreases b - a
  {
    if a == b then 0 else (if events[a].Begin? then 1 else 0) + Begins(events, a + 1, b)
  }

  predicate StartsAt(s: State, e: Event, r: nat) { e.Begin? && e.id in s.calls && s.calls[e.id].start == r }

  /** How many of these calls start their rotation at resolver `r`. */
  function BeginsAt(states: seq<State>, events: seq<Event>, a: nat, b: nat, r: nat): nat
    requires a <= b <= |events| < |states|
    decreases b - a
  {
    if a == b then 0 else (if StartsAt(states[a + 1], events[a], r) then 1 else 0) + BeginsAt(states, events, a + 1, b, r)
  }

  lemma {:induction false} RunCountsStarts(cfg: Config, states: seq<State>, events: seq<Event>, a: nat, b: nat, r: nat)
    requires Run(cfg, states, events) && cfg.strategy == RoundRobin && cfg.n > 0 && a <= b <= |events|
    ensures states[a].counter < WORD
    ensures BeginsAt(states, events, a, b, r) == CounterStarts(states[a].counter, Begins(events, a, b), cfg.n, r)
    decreases b - a
  {
    CounterInRange(cfg, states, events, a);
    if a < b {
      assert Step(cfg, states[a], events[a], states[a + 1]);
      RunCountsStarts(cfg, states, events, a + 1, b, r);
    }
  }

  lemma {:induction false} CounterInRange(cfg: Config, states: seq<State>, events: seq<Event>, i: nat)
    requires Run(cfg, states, events) && i < |states|
    ensures states[i].counter < WORD
  {
    if i > 0 {
      CounterInRange(cfg, states, events, i - 1);
      assert Step(cfg, states[i - 1], events[i - 1], states[i]);
    }
  }

  /**
   In every interleaving: in any stretch of a run in which k*n calls begin and the counter does
   not wrap, each of the n resolvers is the start of exactly k of them.
   */
  lemma RunsAreFair(cfg: Config, states: seq<State>, events: seq<Event>, a: nat, b: nat, k: nat, r: nat)
    requires Run(cfg, states, events) && cfg.strategy == RoundRobin && r < cfg.n && a <= b <= |events|
    requires Begins(events, a, b) == k * cfg.n && states[a].counter + k * cfg.n <= WORD
    ensures BeginsAt(states, events, a, b, r) == k
  {
    hide Step, CounterStarts;
    RunCountsStarts(cfg, states, events, a, b, r);
    RoundRobinIsFair(states[a].counter, k, cfg.n, r);
  }

  /** Each of the n resolvers is the start of exactly k of the calls that begin in the stretch. */
  ghost predicate FairStretch(states: seq<State>, events: seq<Event>, a: nat, b: nat, k: nat, n: nat)
    requires a <= b <= |events| < |states|
  {
    forall r :: 0 <= r < n ==> BeginsAt(states, events, a, b, r) == k
  }

  lemma StretchIsWindow(cfg: Config, states: seq<State>, events: seq<Event>, a: nat, b: nat, k: nat)
    requires Run(cfg, states, events) && cfg.strategy == RoundRobin && cfg.n > 0 && a <= b <= |events|
    requires Begins(events, a, b) == k * cfg.n
    ensures states[a].counter < WORD
    ensures FairStretch(states, events, a, b, k, cfg.n) <==> FairWindow(states[a].counter, k, cfg.n)
  {
    hide Step, CounterStarts, BeginsAt;
    CounterInRange(cfg, states, events, a);
    forall r: nat | r < cfg.n
      ensures BeginsAt(states, events, a, b, r) == CounterStarts(states[a].counter, k * cfg.n, cfg.n, r)
    {
      RunCountsStarts(cfg, states, events, a, b, r);
    }
  }

  /** If the counter does wrap, the stretch is fair exactly when n divides its range or the part before the wrap. */
  lemma RunsAcrossWrapAreFairExactlyWhen(cfg: Config, states: seq<State>, events: seq<Event>, a: nat, b: nat, k: nat)
    requires Run(cfg, states, events) && cfg.strategy == RoundRobin && cfg.n > 0 && a <= b <= |events|
    requires Begins(events, a, b) == k * cfg.n && k * cfg.n <= WORD < states[a].counter + k * cfg.n
    ensures states[a].counter < WORD
    ensures FairStretch(states, events, a, b, k, cfg.n) <==>
            WORD % cfg.n == 0 || (WORD - states[a].counter) % cfg.n == 0
  {
    hide Step, FairStretch, FairWindow;
    StretchIsWindow(cfg, states, events, a, b, k);
    FairAcrossWrapExactlyWhen(states[a].counter, k, cfg.n);
  }
}
