/**
 Requests in a server that is being reloaded and toggled: each request runs its stages one at a
 time while mutations, reloads, toggles and other requests go on. Its reply is what the pipeline
 that was in the slot when it arrived computes in one go, under the switch as it stood when the
 request's filter stage ran.
 */
module RequestRuns {
  import opened Basics
  import opened DnsMessage
  import opened HotReload
  import RP = RequestPipeline

  const FILTER_POSITION: nat := 1

  /** What is left of the chain from a position on. */
  function Rest(r: Request, filtering: bool): RP.Handled
    requires r.next <= |StagesOf(r)|
  {
    RP.Chain(Meets(r, filtering), StagesOf(r)[r.next..], r.query)
  }

  /** The whole chain, under the given switch value, amounts to what the request has done and has left. */
  ghost predicate OnTrack(r: Request, filtering: bool) {
    && r.next <= |StagesOf(r)|
    && RP.Chain(Meets(r, filtering), StagesOf(r), r.query) ==
       if r.response.Some? then RP.Handled(r.response, r.asked)
       else RP.Handled(Rest(r, filtering).response, r.asked + Rest(r, filtering).asked)
  }

  /** Only the filter stage reads the switch. */
  lemma OthersIgnoreSwitch(w: RP.World, stage: RP.Stage, query: RP.Request, filtering: bool)
    requires !stage.FilterStage?
    ensures RP.Handle(w.(filteringEnabled := filtering), stage, query) == RP.Handle(w, stage, query)
  {
  }

  lemma FilterIsAlone(r: Request)
    requires r.next < |StagesOf(r)| && r.next != FILTER_POSITION
    ensures !StagesOf(r)[r.next].FilterStage?
  {
  }

  /** Running a stage keeps a request on track; at the filter, for the switch value it sees. */
  lemma AdvanceKeepsOnTrack(r: Request, seen: bool, filtering: bool)
    requires Running(r) && OnTrack(r, seen)
    requires r.next == FILTER_POSITION ==> seen == filtering
    ensures OnTrack(Advance(r, filtering), seen)
  {
    hide RP.Handle, RP.Chain, RP.Stages;
    RP.ChainStep(Meets(r, seen), StagesOf(r), r.next, r.query);
    if r.next != FILTER_POSITION {
      FilterIsAlone(r);
      OthersIgnoreSwitch(Meets(r, filtering), StagesOf(r)[r.next], r.query, seen);
    }
  }

  /** Step `k` of the run is the arrival of the request. */
  ghost predicate TakenAt(states: seq<State>, events: seq<Event>, k: nat, id: nat, r: Request) {
    && k < |events| < |states| && events[k].TakePipeline? && events[k].id == id
    && r.pipeline == states[k].slot && r.query == RP.NewRequest(events[k].query)
    && r.codec == events[k].codec && r.resolve == events[k].resolve
  }

  /** Step `f` of the run is the request's filter stage. */
  ghost predicate FilteredAt(states: seq<State>, events: seq<Event>, f: nat, id: nat) {
    && f < |events| < |states| && events[f] == RunStage(id)
    && id in states[f].requests && states[f].requests[id].next == FILTER_POSITION
  }

  /** How one step may change a request. */
  lemma StepRequest(s: State, e: Event, id: nat)
    requires Enabled(s, e) && id in Apply(s, e).requests
    ensures var t := Apply(s, e);
            || (&& e.TakePipeline? && e.id == id
                && t.requests[id] == HotReload.NewRequest(s.slot, e.query, e.codec, e.resolve))
            || (&& e == RunStage(id) && id in s.requests && Running(s.requests[id])
                && t.requests[id] == Advance(s.requests[id], s.filtering))
            || (id in s.requests && t.requests[id] == s.requests[id])
  {
    hide Advance, Running, HotReload.NewRequest;
  }

  lemma ArrivalIsOnTrack(r: Request, filtering: bool)
    requires r.next == 0 && r.response.None? && r.asked == []
    ensures OnTrack(r, filtering)
  {
    assert StagesOf(r)[0..] == StagesOf(r);
  }

  /** The first stage alone determines a request that has run no other. */
  ghost predicate FirstStageOnly(r: Request) {
    && 0 < |StagesOf(r)|
    && (r.next == 0 ==> r.response.None? && r.asked == [])
    && (r.next == 1 ==> RP.Handled(r.response, r.asked) == RP.Handle(Meets(r, true), StagesOf(r)[0], r.query))
  }

  lemma AdvanceKeepsFirstStage(r: Request, filtering: bool)
    requires Running(r) && FirstStageOnly(r)
    ensures FirstStageOnly(Advance(r, filtering))
  {
    hide RP.Handle, RP.Stages;
    if r.next == 0 {
      FilterIsAlone(r);
      OthersIgnoreSwitch(Meets(r, filtering), StagesOf(r)[0], r.query, true);
      assert [] + RP.Handle(Meets(r, filtering), StagesOf(r)[0], r.query).asked ==
             RP.Handle(Meets(r, filtering), StagesOf(r)[0], r.query).asked;
    }
  }

  /**
   Where a request stands: before its filter stage it is on track whatever the switch will be,
   after it for the value the switch had at that step.
   */
  ghost predicate Standing(states: seq<State>, events: seq<Event>, id: nat, r: Request, k: nat, f: nat) {
    && TakenAt(states, events, k, id, r) && FirstStageOnly(r)
    && if r.next <= FILTER_POSITION then OnTrack(r, true) && OnTrack(r, false)
       else k < f && FilteredAt(states, events, f, id) && OnTrack(r, states[f].filtering)
  }

  lemma Arrives(states: seq<State>, events: seq<Event>, k: nat, id: nat)
    requires k < |events| < |states| && events[k].TakePipeline? && events[k].id == id
    ensures Standing(states, events, id,
                     HotReload.NewRequest(states[k].slot, events[k].query, events[k].codec, events[k].resolve), k, k)
  {
    hide RP.Chain, RP.Handle;
    var r := HotReload.NewRequest(states[k].slot, events[k].query, events[k].codec, events[k].resolve);
    ArrivalIsOnTrack(r, true);
    ArrivalIsOnTrack(r, false);
  }

  lemma Proceeds(states: seq<State>, events: seq<Event>, i: nat, id: nat, r: Request, k: nat, f: nat) returns (f': nat)
    requires i < |events| < |states| && k < i && (r.next > FILTER_POSITION ==> f < i)
    requires Standing(states, events, id, r, k, f) && Running(r)
    requires events[i] == RunStage(id) && id in states[i].requests && states[i].requests[id] == r
    ensures Standing(states, events, id, Advance(r, states[i].filtering), k, f')
    ensures Advance(r, states[i].filtering).next > FILTER_POSITION ==> f' <= i
  {
    hide OnTrack, FirstStageOnly, Running, RP.Stages, RP.Handle, RP.Chain;
    var filtering := states[i].filtering;
    AdvanceKeepsFirstStage(r, filtering);
    AdvanceMoves(r, filtering);
    if r.next < FILTER_POSITION {
      f' := f;
      AdvanceKeepsOnTrack(r, true, filtering);
      AdvanceKeepsOnTrack(r, false, filtering);
    } else if r.next == FILTER_POSITION {
      f' := i;
      AdvanceKeepsOnTrack(r, filtering, filtering);
    } else {
      f' := f;
      AdvanceKeepsOnTrack(r, states[f].filtering, filtering);
    }
  }

  lemma AdvanceMoves(r: Request, filtering: bool)
    requires Running(r)
    ensures var t := Advance(r, filtering);
            && t.next == r.next + 1 && t.pipeline == r.pipeline && t.query == r.query
            && t.codec == r.codec && t.resolve == r.resolve
  {
  }

  /** Every request in flight, at every state of every run. */
  lemma {:induction false} RequestStands(states: seq<State>, events: seq<Event>, i: nat, id: nat)
      returns (k: nat, f: nat)
    requires Run(states, events) && i < |states| && id in states[i].requests
    ensures k < i && Standing(states, events, id, states[i].requests[id], k, f)
    ensures states[i].requests[id].next > FILTER_POSITION ==> f < i
    decreases i
  {
    hide Standing, Apply, Enabled, Advance, Running, HotReload.NewRequest;
    NoRequestsAtFirst(states, events);
    assert i > 0;
    assert Step(states[i - 1], events[i - 1], states[i]);
    StepRequest(states[i - 1], events[i - 1], id);
    var s, e, r := states[i - 1], events[i - 1], states[i].requests[id];
    if e.TakePipeline? && e.id == id && r == HotReload.NewRequest(s.slot, e.query, e.codec, e.resolve) {
      k, f := i - 1, i - 1;
      Arrives(states, events, i - 1, id);
    } else if e == RunStage(id) && id in s.requests && Running(s.requests[id]) && r == Advance(s.requests[id], s.filtering) {
      k, f := RequestStands(states, events, i - 1, id);
      var f' := Proceeds(states, events, i - 1, id, s.requests[id], k, f);
      AdvanceMoves(s.requests[id], s.filtering);
      f := f';
    } else {
      k, f := RequestStands(states, events, i - 1, id);
    }
  }

  lemma NoRequestsAtFirst(states: seq<State>, events: seq<Event>)
    requires Run(states, events)
    ensures states[0].requests == map[]
  {
  }

  /**
   In every run, a finished request was answered, and its reply and the resolvers it asked are
   exactly what the chain built from the slot's configuration at its arrival (step `k`) computes
   with the switch as last toggled before its filter stage (step `f`), whatever was written,
   reloaded, installed or toggled in between.
   */
  lemma FinishedRequest(states: seq<State>, events: seq<Event>, i: nat, id: nat) returns (k: nat, f: nat)
    requires Run(states, events) && i < |events| && events[i] == Finish(id)
    ensures k < i && id in states[i].requests && TakenAt(states, events, k, id, states[i].requests[id])
    ensures f <= i && (states[i].requests[id].next > FILTER_POSITION ==> k < f && FilteredAt(states, events, f, id))
    ensures var r := states[i].requests[id];
            && r.response.Some? && FirstStageOnly(r) && !Running(r)
            && RP.Handled(r.response, r.asked) ==
               RP.Chain(Meets(r, LastToggle(events[..f])), RP.Stages(states[k].slot.plan.config), r.query)
  {
    hide RP.Chain, RP.Stages, RP.Handle, Advance, LastToggle, FirstStageOnly;
    FinishIsEnabled(states, events, i, id);
    k, f := RequestStands(states, events, i, id);
    var r := states[i].requests[id];
    if r.next <= FILTER_POSITION {
      f := k;
    }
    SwitchIsLastToggle(states, events, f);
    FinishedOnTrack(r, states[f].filtering);
  }

  lemma FinishIsEnabled(states: seq<State>, events: seq<Event>, i: nat, id: nat)
    requires Run(states, events) && i < |events| && events[i] == Finish(id)
    ensures id in states[i].requests && !Running(states[i].requests[id])
  {
    hide Apply, Running;
    assert Step(states[i], events[i], states[i + 1]);
  }

  lemma FinishedOnTrack(r: Request, filtering: bool)
    requires OnTrack(r, filtering) && !Running(r)
    ensures r.response.Some?
    ensures RP.Handled(r.response, r.asked) == RP.Chain(Meets(r, filtering), StagesOf(r), r.query)
  {
    hide RP.Chain, RP.Stages, RP.Handle;
    var w := Meets(r, filtering);
    RP.PipelineAlwaysAnswers(r.pipeline.plan.config, w, r.query);
    if r.response.None? {
      RP.ChainEnd(w, StagesOf(r), r.query);
    }
  }

  /** The request asks for a name that its pipeline blocks and no bypass zone serves. */
  ghost predicate AsksForBlocked(r: Request) {
    var q := RP.FirstQuestion(r.codec, r.query.query);
    && q.Some? && r.pipeline.plan.decide(q.value.name) == RP.Block
    && RP.ResponsibleZone(r.pipeline.plan.config, true, q.value.name).None?
  }

  lemma NotDoneAfterFirstStage(r: Request)
    requires FirstStageOnly(r) && !Running(r) && AsksForBlocked(r)
    ensures r.next > FILTER_POSITION
  {
    hide RP.Chain, RP.ResponsibleZone;
    RP.ZoneStageAnswer(r.pipeline.plan.config, Meets(r, true), true, r.query);
  }

  /**
   The switch decides, and its last setting before the filter stage counts: a query for a blocked
   name is sinkholed without asking anyone when filtering was on, and when it was off the name is
   handed to a resolver (unless it is an ANY query that policy refuses).
   */
  lemma SwitchDecidesBlocking(states: seq<State>, events: seq<Event>, i: nat, id: nat) returns (k: nat, f: nat)
    requires Run(states, events) && i < |events| && events[i] == Finish(id)
    requires id in states[i].requests && AsksForBlocked(states[i].requests[id])
    ensures k < f <= i && TakenAt(states, events, k, id, states[i].requests[id]) && FilteredAt(states, events, f, id)
    ensures var r := states[i].requests[id];
            var q := RP.FirstQuestion(r.codec, r.query.query).value;
            if LastToggle(events[..f]) then
              r.asked == [] && r.response == Some(RP.SinkholeResponse(Meets(r, true), r.codec.decode(r.query.query).value))
            else if q.qtype == ANY && r.pipeline.plan.config.policy != RP.Passthrough then r.asked == []
            else |r.asked| > 0
  {
    hide TakenAt, FilteredAt, RP.Chain, RP.Stages, FirstStageOnly, Running, AsksForBlocked;
    k, f := FinishedRequest(states, events, i, id);
    NotDoneAfterFirstStage(states[i].requests[id]);
    SameSlot(states, events, k, id, states[i].requests[id]);
    BlockedChain(states[i].requests[id], LastToggle(events[..f]));
  }

  lemma SameSlot(states: seq<State>, events: seq<Event>, k: nat, id: nat, r: Request)
    requires TakenAt(states, events, k, id, r)
    ensures r.pipeline == states[k].slot
  {
  }

  lemma BlockedChain(r: Request, filtering: bool)
    requires AsksForBlocked(r)
    ensures var h := RP.Chain(Meets(r, filtering), RP.Stages(r.pipeline.plan.config), r.query);
            var q := RP.FirstQuestion(r.codec, r.query.query).value;
            if filtering then
              h == RP.Handled(Some(RP.SinkholeResponse(Meets(r, true), r.codec.decode(r.query.query).value)), [])
            else if q.qtype == ANY && r.pipeline.plan.config.policy != RP.Passthrough then h.asked == []
            else |h.asked| > 0
  {
    hide RP.Chain, RP.Stages, RP.SinkholeResponse, RP.ErrorResponse, RP.FixId, RP.ResponsibleZone, RP.IsDnssecNodata;
    RP.PipelineRefinesRoute(r.pipeline.plan.config, Meets(r, filtering), r.query);
  }
}
