/**
 Hot reload: API mutations, a bounded channel of reload tokens, a reload task that reads the
 database table by table, and requests that take the current pipeline from a shared slot and run
 its stages one by one. Each step below is atomic in the server (a database step is one SQL
 statement); all interleavings of the steps are runs.
 */
module HotReload {
  import opened Basics
  import opened DnsMessage
  import opened UpstreamStrategy
  import RequestPipeline

  /** The tables of the operational configuration, each read by one SELECT, in reading order. */
  datatype Section =
    | FilterLists
    | Filtering
    | ResolverConfig
    | BootstrapResolvers
    | UpstreamServers
    | ZoneRows
    | ZoneServers
    | DiscoveryRows
    | DiscoveryTypes

  const READ_ORDER: seq<Section> :=
    [FilterLists, Filtering, ResolverConfig, BootstrapResolvers, UpstreamServers, ZoneRows, ZoneServers,
     DiscoveryRows, DiscoveryTypes]

  const CHANNEL_CAPACITY: nat := 4

  /** A version number per section; every write of a section makes a new version. */
  type Versions = map<Section, nat>

  ghost predicate Total(v: Versions) { forall s :: s in v }

  ghost predicate AtLeast(v: Versions, w: Versions)
    requires Total(v) && Total(w)
  {
    forall s :: v[s] >= w[s]
  }

  datatype Phase = Writing | Sending | Succeeded | Failed

  /** A mutating API operation and the latest version it wrote of each section it touched. */
  datatype Op = Op(phase: Phase, wrote: Versions)

  /** What a build makes of the sections it read: the stages' configuration and the domain filter. */
  datatype Plan = Plan(
    config: RequestPipeline.Config, decide: string -> RequestPipeline.Decision, sinkholeV4: u32, sinkholeV6: nat)

  datatype Pipeline = Pipeline(built: Versions, plan: Plan)

  datatype Reload = Idle | Reading(done: Versions, next: nat)

  /**
   A request in flight: the pipeline it took, how the resolvers will answer it, the position of its
   next stage, the resolvers it has asked, and its response once a stage has given one.
   */
  datatype Request = Request(
    pipeline: Pipeline, query: RequestPipeline.Request, codec: Codec, resolve: nat -> Outcome,
    next: nat, asked: seq<nat>, response: Option<Bytes>)

  datatype State = State(
    db: Versions, ops: map<nat, Op>, queue: nat, reload: Reload, atReceive: Versions, lastOk: bool,
    slot: Pipeline, filtering: bool, requests: map<nat, Request>)

  datatype Event =
    | OpBegin(id: nat)
    | OpWrite(id: nat, section: Section)
    | OpFail(id: nat)
    | OpWritten(id: nat)
    | OpSend(id: nat)
    | Signal
    | Receive
    | ReadSection
    | ReloadFail
    | Install(plan: Plan)
    | SetFiltering(enabled: bool)
    | TakePipeline(id: nat, query: Bytes, codec: Codec, resolve: nat -> Outcome)
    | RunStage(id: nat)
    | Finish(id: nat)

  const ZERO: Versions :=
    map[FilterLists := 0, Filtering := 0, ResolverConfig := 0, BootstrapResolvers := 0, UpstreamServers := 0,
        ZoneRows := 0, ZoneServers := 0, DiscoveryRows := 0, DiscoveryTypes := 0]

  /** After start-up: the first pipeline was built from the database and filtering is on. */
  function Init(plan: Plan): State { State(ZERO, map[], 0, Idle, ZERO, true, Pipeline(ZERO, plan), true, map[]) }

  predicate InPhase(s: State, id: nat, phase: Phase) { id in s.ops && s.ops[id].phase == phase }

  function SetPhase(s: State, id: nat, phase: Phase): State
    requires id in s.ops
  {
    s.(ops := s.ops[id := s.ops[id].(phase := phase)])
  }

  // ----- Running a request -----

  function StagesOf(r: Request): seq<RequestPipeline.Stage> { RequestPipeline.Stages(r.pipeline.plan.config) }

  /** What a stage of the request meets while the shared switch has the given value. */
  function Meets(r: Request, filtering: bool): RequestPipeline.World {
    var plan := r.pipeline.plan;
    RequestPipeline.World(r.codec, r.resolve, filtering, plan.decide, plan.sinkholeV4, plan.sinkholeV6)
  }

  predicate Running(r: Request) { r.response.None? && r.next < |StagesOf(r)| }

  /** Runs the next stage of a request; a stage that reads the shared switch reads it now. */
  function Advance(r: Request, filtering: bool): Request {
    if !Running(r) then r
    else
      var h := RequestPipeline.Handle(Meets(r, filtering), StagesOf(r)[r.next], r.query);
      r.(next := r.next + 1, asked := r.asked + h.asked, response := h.response)
  }

  function NewRequest(pipeline: Pipeline, query: Bytes, codec: Codec, resolve: nat -> Outcome): Request {
    Request(pipeline, RequestPipeline.NewRequest(query), codec, resolve, 0, [], None)
  }

  // ----- Steps -----

  predicate Enabled(s: State, e: Event) {
    match e
    case OpBegin(id) => id !in s.ops
    case OpWrite(id, section) => InPhase(s, id, Writing) && section in s.db
    case OpFail(id) => InPhase(s, id, Writing)
    case OpWritten(id) => InPhase(s, id, Writing)
    case OpSend(id) => InPhase(s, id, Sending) && s.queue < CHANNEL_CAPACITY
    case Signal => s.queue < CHANNEL_CAPACITY
    case Receive => s.reload.Idle? && s.queue > 0
    case ReadSection => s.reload.Reading? && s.reload.next < |READ_ORDER| && READ_ORDER[s.reload.next] in s.db
    case ReloadFail => s.reload.Reading?
    case Install(_) => s.reload.Reading? && s.reload.next == |READ_ORDER|
    case SetFiltering(_) => true
    case TakePipeline(id, _, _, _) => id !in s.requests
    case RunStage(id) => id in s.requests && Running(s.requests[id])
    case Finish(id) => id in s.requests && !Running(s.requests[id])
  }

  function Apply(s: State, e: Event): State
    requires Enabled(s, e)
  {
    match e
    case OpBegin(id) => s.(ops := s.ops[id := Op(Writing, map[])])
    case OpWrite(id, section) =>
      var v := s.db[section] + 1;
      s.(db := s.db[section := v], ops := s.ops[id := s.ops[id].(wrote := s.ops[id].wrote[section := v])])
    case OpFail(id) => SetPhase(s, id, Failed)
    case OpWritten(id) => SetPhase(s, id, Sending)
    case OpSend(id) => SetPhase(s, id, Succeeded).(queue := s.queue + 1)
    case Signal => s.(queue := s.queue + 1)
    case Receive => s.(queue := s.queue - 1, reload := Reading(map[], 0), atReceive := s.db)
    case ReadSection =>
      var section := READ_ORDER[s.reload.next];
      s.(reload := Reading(s.reload.done[section := s.db[section]], s.reload.next + 1))
    case ReloadFail => s.(reload := Idle, lastOk := false)
    case Install(plan) => s.(reload := Idle, lastOk := true, slot := Pipeline(s.reload.done, plan))
    case SetFiltering(enabled) => s.(filtering := enabled)
    case TakePipeline(id, query, codec, resolve) =>
      s.(requests := s.requests[id := NewRequest(s.slot, query, codec, resolve)])
    case RunStage(id) => s.(requests := s.requests[id := Advance(s.requests[id], s.filtering)])
    case Finish(id) => s.(requests := s.requests - {id})
  }

  ghost predicate Step(s: State, e: Event, t: State) { Enabled(s, e) && t == Apply(s, e) }

  ghost predicate Run(states: seq<State>, events: seq<Event>) {
    && |states| == |events| + 1 && states[0] == Init(states[0].slot.plan)
    && forall i :: 0 <= i < |events| ==> Step(states[i], events[i], states[i + 1])
  }

  // ----- The server, one method per atomic step -----

  class Server {
    var db: Versions
    var ops: map<nat, Op>
    var queue: nat
    var reload: Reload
    ghost var atReceive: Versions
    var lastOk: bool
    var slot: Pipeline
    var filtering: bool
    var requests: map<nat, Request>

    ghost function View(): State
      reads this
    {
      State(db, ops, queue, reload, atReceive, lastOk, slot, filtering, requests)
    }

    constructor (plan: Plan)
      ensures View() == Init(plan)
    {
      db, ops, queue, reload, atReceive, lastOk := ZERO, map[], 0, Idle, ZERO, true;
      slot, filtering, requests := Pipeline(ZERO, plan), true, map[];
    }

    method BeginOp(id: nat)
      requires id !in ops
      modifies this
      ensures Step(old(View()), OpBegin(id), View())
    {
      ops := ops[id := Op(Writing, map[])];
    }

    /** One repository write of a mutating operation. */
    method WriteSection(id: nat, section: Section)
      requires Enabled(View(), OpWrite(id, section))
      modifies this
      ensures Step(old(View()), OpWrite(id, section), View())
    {
      db := db[section := db[section] + 1];
      ops := ops[id := ops[id].(wrote := ops[id].wrote[section := db[section]])];
    }

    /** The end of an operation's writes: an error is reported at once, else a token has to be sent first. */
    method EndWrites(id: nat, ok: bool)
      requires InPhase(View(), id, Writing)
      modifies this
      ensures Step(old(View()), if ok then OpWritten(id) else OpFail(id), View())
    {
      ops := ops[id := ops[id].(phase := if ok then Sending else Failed)];
    }

    /** A reload requested by signal or control socket, once the channel has room. */
    method SignalReload()
      requires queue < CHANNEL_CAPACITY
      modifies this
      ensures Step(old(View()), Signal, View())
    {
      queue := queue + 1;
    }

    /** `reload_after_mutation`: waits while the channel is full; only then does the caller report success. */
    method SendToken(id: nat) returns (sent: bool)
      requires InPhase(View(), id, Sending)
      modifies this
      ensures sent <==> old(queue) < 4
      ensures if sent then Step(old(View()), OpSend(id), View()) else View() == old(View())
    {
      sent := queue < CHANNEL_CAPACITY;
      if sent {
        queue := queue + 1;
        ops := ops[id := ops[id].(phase := Succeeded)];
      }
    }

    /** The reload task picks up a token and starts over. */
    method ReceiveToken() returns (received: bool)
      requires reload.Idle?
      modifies this
      ensures received <==> old(queue) > 0
      ensures if received then Step(old(View()), Receive, View()) else View() == old(View())
    {
      received := queue > 0;
      if received {
        queue := queue - 1;
        reload := Reading(map[], 0);
        atReceive := db;
      }
    }

    /** The next section read of `apply_db_config`. */
    method ReadNext()
      requires Enabled(View(), ReadSection)
      modifies this
      ensures Step(old(View()), ReadSection, View())
    {
      var section := READ_ORDER[reload.next];
      reload := Reading(reload.done[section := db[section]], reload.next + 1);
    }

    /** The end of a reload: swap the slot once everything is read and built, or keep it on any error. */
    method FinishReload(built: Option<Plan>)
      requires reload.Reading? && (built.Some? ==> reload.next == |READ_ORDER|)
      modifies this
      ensures Step(old(View()), if built.Some? then Install(built.value) else ReloadFail, View())
    {
      if built.Some? {
        slot := Pipeline(reload.done, built.value);
      }
      reload := Idle;
      lastOk := built.Some?;
    }

    method SetSwitch(enabled: bool)
      modifies this
      ensures Step(old(View()), SetFiltering(enabled), View())
    {
      filtering := enabled;
    }

    /** `handle_request` locks the slot just long enough to clone the pipeline. */
    method Take(id: nat, query: Bytes, codec: Codec, resolve: nat -> Outcome)
      requires id !in requests
      modifies this
      ensures Step(old(View()), TakePipeline(id, query, codec, resolve), View())
    {
      requests := requests[id := NewRequest(slot, query, codec, resolve)];
    }

    method RunNextStage(id: nat)
      requires id in requests && Running(requests[id])
      modifies this
      ensures Step(old(View()), RunStage(id), View())
    {
      requests := requests[id := Advance(requests[id], filtering)];
    }

    method Reply(id: nat) returns (response: Option<Bytes>)
      requires id in requests && !Running(requests[id])
      modifies this
      ensures Step(old(View()), Finish(id), View()) && response == old(requests[id].response)
    {
      response := requests[id].response;
      requests := requests - {id};
    }
  }

  // ----- The invariant -----

  /** Versions are complete and never run ahead of the database. */
  ghost predicate VersionsOk(s: State) {
    && Total(s.db) && Total(s.atReceive) && Total(s.slot.built)
    && AtLeast(s.db, s.atReceive) && AtLeast(s.db, s.slot.built)
    && OpsBounded(s) && AllWritten(s)
  }

  ghost predicate OpsBounded(s: State)
    requires Total(s.db)
  {
    forall id, c :: id in s.ops && c in s.ops[id].wrote ==> s.ops[id].wrote[c] <= s.db[c]
  }

  /** Every version but the first was written by some operation. */
  ghost predicate AllWritten(s: State)
    requires Total(s.db)
  {
    forall c :: s.db[c] > 0 ==> Written(s, c)
  }

  /** Some operation wrote the current version of the section. */
  ghost predicate Written(s: State, c: Section)
    requires c in s.db
  {
    exists id :: id in s.ops && c in s.ops[id].wrote && s.ops[id].wrote[c] == s.db[c]
  }

  /** What the reload task has read is complete up to its position and no older than its token. */
  ghost predicate ReadingOk(s: State)
    requires Total(s.db) && Total(s.atReceive)
  {
    s.reload.Reading? ==>
      && s.reload.next <= |READ_ORDER|
      && (forall i :: 0 <= i < s.reload.next ==> READ_ORDER[i] in s.reload.done)
      && (forall c :: c in s.reload.done ==> s.atReceive[c] <= s.reload.done[c] <= s.db[c])
  }

  /** With an empty channel, the last token was received after every operation that succeeded. */
  ghost predicate TokensOk(s: State)
    requires Total(s.atReceive)
  {
    && s.queue <= CHANNEL_CAPACITY
    && (s.queue == 0 ==>
          forall id, c :: InPhase(s, id, Succeeded) && c in s.ops[id].wrote ==> s.ops[id].wrote[c] <= s.atReceive[c])
  }

  ghost predicate SlotOk(s: State)
    requires Total(s.atReceive) && Total(s.slot.built)
  {
    && (s.reload.Idle? && s.lastOk ==> AtLeast(s.slot.built, s.atReceive))
    && (s.reload.Reading? ==> AtLeast(s.atReceive, s.slot.built))
  }

  ghost predicate Inv(s: State) {
    VersionsOk(s) && ReadingOk(s) && TokensOk(s) && SlotOk(s)
  }

  lemma ReadOrderIsComplete(c: Section)
    ensures exists i :: 0 <= i < |READ_ORDER| && READ_ORDER[i] == c
  {
    var i := match c
      case FilterLists => 0
      case Filtering => 1
      case ResolverConfig => 2
      case BootstrapResolvers => 3
      case UpstreamServers => 4
      case ZoneRows => 5
      case ZoneServers => 6
      case DiscoveryRows => 7
      case DiscoveryTypes => 8;
    assert READ_ORDER[i] == c;
  }

  lemma InstalledIsTotal(s: State)
    requires VersionsOk(s) && ReadingOk(s) && s.reload.Reading? && s.reload.next == |READ_ORDER|
    ensures Total(s.reload.done) && AtLeast(s.db, s.reload.done) && AtLeast(s.reload.done, s.atReceive)
  {
    forall c
      ensures c in s.reload.done
    {
      ReadOrderIsComplete(c);
    }
  }

  lemma StepGrowsDb(s: State, e: Event)
    requires Total(s.db) && Enabled(s, e)
    ensures Total(Apply(s, e).db) && AtLeast(Apply(s, e).db, s.db)
  {
    hide Running, Advance, NewRequest;
  }

  /** How one step may change what an operation has written. */
  lemma StepOp(s: State, e: Event, id: nat)
    requires Enabled(s, e) && id in Apply(s, e).ops
    ensures var w := Apply(s, e).ops[id].wrote;
            if id !in s.ops then w == map[]
            else if e.OpWrite? && e.id == id then
              && e.section in Apply(s, e).db && e.section in s.db && Apply(s, e).db[e.section] == s.db[e.section] + 1
              && w == s.ops[id].wrote[e.section := s.db[e.section] + 1]
            else w == s.ops[id].wrote
    ensures InPhase(Apply(s, e), id, Succeeded) && !InPhase(s, id, Succeeded) ==>
              e == OpSend(id) && Apply(s, e).queue > 0
    ensures InPhase(s, id, Succeeded) ==> !(e.OpWrite? && e.id == id)
  {
    hide Running, Advance, NewRequest;
  }

  lemma StepKeepsBounds(s: State, e: Event)
    requires Total(s.db) && OpsBounded(s) && Enabled(s, e) && Total(Apply(s, e).db)
    ensures OpsBounded(Apply(s, e))
  {
    StepGrowsDb(s, e);
    var t := Apply(s, e);
    hide Apply, Enabled;
    forall id, c | id in t.ops && c in t.ops[id].wrote
      ensures t.ops[id].wrote[c] <= t.db[c]
    {
      StepOp(s, e, id);
    }
  }

  lemma StepKeepsWritten(s: State, e: Event)
    requires Total(s.db) && AllWritten(s) && Enabled(s, e) && Total(Apply(s, e).db)
    ensures AllWritten(Apply(s, e))
  {
    hide Running, Advance, NewRequest;
    var t := Apply(s, e);
    forall c | t.db[c] > 0
      ensures Written(t, c)
    {
      if e.OpWrite? && c == e.section {
        assert e.id in t.ops && t.ops[e.id].wrote[c] == t.db[c];
      } else {
        assert t.db[c] == s.db[c];
        assert Written(s, c);
        var id :| id in s.ops && c in s.ops[id].wrote && s.ops[id].wrote[c] == s.db[c];
        assert id in t.ops && c in t.ops[id].wrote && t.ops[id].wrote[c] == t.db[c];
      }
    }
  }

  lemma StepKeepsVersions(s: State, e: Event)
    requires VersionsOk(s) && ReadingOk(s) && Enabled(s, e)
    ensures VersionsOk(Apply(s, e))
  {
    hide Running, Advance, NewRequest, OpsBounded, AllWritten;
    StepGrowsDb(s, e);
    StepKeepsBounds(s, e);
    StepKeepsWritten(s, e);
    if e.Install? {
      InstalledIsTotal(s);
    }
  }

  lemma StepKeepsReading(s: State, e: Event)
    requires VersionsOk(s) && ReadingOk(s) && Enabled(s, e) && VersionsOk(Apply(s, e))
    ensures ReadingOk(Apply(s, e))
  {
    hide OpsBounded, AllWritten;
    var t := Apply(s, e);
    StepGrowsDb(s, e);
    StepReading(s, e);
    hide Apply, Enabled;
    if e.ReadSection? {
      forall i | 0 <= i < t.reload.next
        ensures READ_ORDER[i] in t.reload.done
      {
        assert i < s.reload.next || i == s.reload.next;
      }
    }
  }

  /** How one step may change the reload task. */
  lemma StepReading(s: State, e: Event)
    requires Enabled(s, e)
    ensures var t := Apply(s, e);
            || (t.reload.Idle? && (s.reload.Idle? || e.ReloadFail? || e.Install?))
            || (e.Receive? && t.reload == Reading(map[], 0))
            || (e.ReadSection? && s.reload.Reading? && s.reload.next < |READ_ORDER| && t.db == s.db &&
                t.atReceive == s.atReceive && READ_ORDER[s.reload.next] in s.db &&
                t.reload == Reading(s.reload.done[READ_ORDER[s.reload.next] := s.db[READ_ORDER[s.reload.next]]],
                                    s.reload.next + 1))
            || (!e.ReadSection? && t.reload == s.reload && t.atReceive == s.atReceive)
  {
    hide Running, Advance, NewRequest;
  }

  lemma StepKeepsTokens(s: State, e: Event)
    requires VersionsOk(s) && TokensOk(s) && Enabled(s, e) && VersionsOk(Apply(s, e))
    ensures TokensOk(Apply(s, e))
  {
    hide Running, Advance, NewRequest, AllWritten;
    var t := Apply(s, e);
    if t.queue == 0 {
      forall id, c | InPhase(t, id, Succeeded) && c in t.ops[id].wrote
        ensures t.ops[id].wrote[c] <= t.atReceive[c]
      {
        StepOp(s, e, id);
        if e.Receive? {
          assert id in s.ops && c in s.ops[id].wrote;
        } else {
          assert InPhase(s, id, Succeeded) && c in s.ops[id].wrote;
        }
      }
    }
  }

  lemma StepKeepsSlot(s: State, e: Event)
    requires VersionsOk(s) && ReadingOk(s) && SlotOk(s) && Enabled(s, e) && VersionsOk(Apply(s, e))
    ensures SlotOk(Apply(s, e))
  {
    hide Running, Advance, NewRequest, OpsBounded, AllWritten;
    if e.Install? {
      InstalledIsTotal(s);
    }
  }

  /** Every step of every task keeps the invariant. */
  lemma StepKeepsInv(s: State, e: Event)
    requires Inv(s) && Enabled(s, e)
    ensures Inv(Apply(s, e))
  {
    hide VersionsOk, ReadingOk, TokensOk, SlotOk, Apply, Enabled;
    StepKeepsVersions(s, e);
    StepKeepsReading(s, e);
    StepKeepsTokens(s, e);
    StepKeepsSlot(s, e);
  }

  lemma InitInv(plan: Plan)
    ensures Inv(Init(plan))
  {
    forall c: Section
      ensures c in ZERO && ZERO[c] == 0
    {
      ReadOrderIsComplete(c);
    }
  }

  lemma {:induction false} RunKeepsInv(states: seq<State>, events: seq<Event>, i: nat)
    requires Run(states, events) && i < |states|
    ensures Inv(states[i])
  {
    hide Inv, Apply, Enabled;
    if i == 0 {
      InitInv(states[0].slot.plan);
    } else {
      RunKeepsInv(states, events, i - 1);
      assert Step(states[i - 1], events[i - 1], states[i]);
      StepKeepsInv(states[i - 1], events[i - 1]);
    }
  }

  // ----- What operators may rely on -----

  /** No token is queued, no reload is running, and the last one succeeded. */
  predicate Settled(s: State) { s.queue == 0 && s.reload.Idle? && s.lastOk }

  /**
   In every run: once settled, the installed pipeline was built from reads made after every write
   of every operation that reported success.
   */
  lemma SuccessfulWritesAreInstalled(states: seq<State>, events: seq<Event>, i: nat, id: nat, c: Section)
    requires Run(states, events) && i < |states| && Settled(states[i])
    requires InPhase(states[i], id, Succeeded) && c in states[i].ops[id].wrote
    ensures c in states[i].slot.built && states[i].ops[id].wrote[c] <= states[i].slot.built[c]
  {
    hide Run;
    RunKeepsInv(states, events, i);
  }

  /** No operation that failed or is still in progress has written a version the slot lacks. */
  ghost predicate NothingUnreported(s: State) {
    forall id, c :: id in s.ops && s.ops[id].phase != Succeeded && c in s.ops[id].wrote ==>
      c in s.slot.built && s.ops[id].wrote[c] <= s.slot.built[c]
  }

  lemma SettledState(s: State)
    requires Inv(s) && Settled(s) && NothingUnreported(s)
    ensures s.slot.built == s.db
  {
    forall c
      ensures s.slot.built[c] == s.db[c]
    {
      if s.db[c] > 0 {
        assert Written(s, c);
        var id :| id in s.ops && c in s.ops[id].wrote && s.ops[id].wrote[c] == s.db[c];
        assert s.ops[id].phase == Succeeded ==> InPhase(s, id, Succeeded);
      }
    }
    assert s.slot.built.Keys == s.db.Keys;
  }

  /**
   Once settled, the installed pipeline is built from exactly the current database if and only if
   no unreported write is newer than what it was built from.
   */
  lemma SettledMatchesDatabaseExactlyWhen(states: seq<State>, events: seq<Event>, i: nat)
    requires Run(states, events) && i < |states| && Settled(states[i])
    ensures states[i].slot.built == states[i].db <==> NothingUnreported(states[i])
  {
    hide Run;
    RunKeepsInv(states, events, i);
    if NothingUnreported(states[i]) {
      SettledState(states[i]);
    }
  }

  /** An operation that fails after a write sends no token: the pipeline can stay behind for good. */
  lemma PartialWriteIsNotInstalled(plan: Plan) returns (states: seq<State>, events: seq<Event>)
    ensures Run(states, events) && Settled(states[|events|])
    ensures var s := states[|events|];
            ZoneRows in s.db && ZoneRows in s.slot.built && s.db[ZoneRows] == 1 && s.slot.built[ZoneRows] == 0
    ensures events == [OpBegin(0), OpWrite(0, ZoneRows), OpFail(0)]
  {
    events := [OpBegin(0), OpWrite(0, ZoneRows), OpFail(0)];
    var s1 := Apply(Init(plan), events[0]);
    var s2 := Apply(s1, events[1]);
    var s3 := Apply(s2, events[2]);
    states := [Init(plan), s1, s2, s3];
  }

  /** The slot, the versions at the last token and the switch each have one event that changes them. */
  lemma StepKeepsFields(s: State, e: Event)
    requires Enabled(s, e)
    ensures !e.Install? ==> Apply(s, e).slot == s.slot
    ensures !e.Receive? ==> Apply(s, e).atReceive == s.atReceive
    ensures Apply(s, e).filtering == if e.SetFiltering? then e.enabled else s.filtering
  {
    hide Running, Advance, NewRequest;
  }

  /** The slot changes only when a reload succeeds; in particular a failed reload leaves it alone. */
  lemma {:induction false} SlotChangesOnlyOnInstall(states: seq<State>, events: seq<Event>, i: nat, j: nat)
    requires Run(states, events) && i <= j < |states|
    requires forall k :: i <= k < j ==> !events[k].Install?
    ensures states[j].slot == states[i].slot
    decreases j - i
  {
    hide Apply, Enabled;
    if i < j {
      SlotChangesOnlyOnInstall(states, events, i, j - 1);
      assert Step(states[j - 1], events[j - 1], states[j]);
      StepKeepsFields(states[j - 1], events[j - 1]);
      assert !events[j - 1].Install?;
    }
  }

  /** A reload never rolls the server back: no section of the installed pipeline ever gets older. */
  lemma {:induction false} SlotNeverRollsBack(states: seq<State>, events: seq<Event>, i: nat, j: nat, c: Section)
    requires Run(states, events) && i <= j < |states|
    ensures c in states[i].slot.built && c in states[j].slot.built
    ensures states[i].slot.built[c] <= states[j].slot.built[c]
    decreases j - i
  {
    hide Inv, Apply, Enabled;
    if i == j {
      RunKeepsInv(states, events, j);
      SlotIsTotal(states[j], c);
    } else {
      SlotNeverRollsBack(states, events, i, j - 1, c);
      assert Step(states[j - 1], events[j - 1], states[j]);
      RunKeepsInv(states, events, j - 1);
      StepSlot(states[j - 1], events[j - 1], c);
    }
  }

  lemma SlotIsTotal(s: State, c: Section)
    requires Inv(s)
    ensures c in s.slot.built
  {
  }

  lemma StepSlot(s: State, e: Event, c: Section)
    requires Inv(s) && Enabled(s, e)
    ensures var t := Apply(s, e); c in s.slot.built && c in t.slot.built && s.slot.built[c] <= t.slot.built[c]
  {
    hide Running, Advance, NewRequest, OpsBounded, AllWritten, TokensOk;
    if e.Install? {
      InstalledIsTotal(s);
    }
  }

  /** What a reload installs is no older, in any section, than the database when its token arrived. */
  lemma InstallCoversReceive(states: seq<State>, events: seq<Event>, i: nat, j: nat, c: Section)
    requires Run(states, events) && i < j < |events| && events[i].Receive? && events[j].Install?
    requires forall k :: i < k < j ==> !events[k].Receive?
    ensures c in states[i].db && c in states[j + 1].slot.built && states[i].db[c] <= states[j + 1].slot.built[c]
  {
    RunKeepsInv(states, events, i);
    RunKeepsInv(states, events, j + 1);
    assert Step(states[i], events[i], states[i + 1]);
    assert Step(states[j], events[j], states[j + 1]);
    ReceivedVersionsStay(states, events, i + 1, j);
  }

  lemma {:induction false} ReceivedVersionsStay(states: seq<State>, events: seq<Event>, i: nat, j: nat)
    requires Run(states, events) && i <= j < |states| && forall k :: i <= k < j ==> !events[k].Receive?
    ensures states[j].atReceive == states[i].atReceive
    decreases j - i
  {
    hide Apply, Enabled;
    if i < j {
      ReceivedVersionsStay(states, events, i, j - 1);
      assert Step(states[j - 1], events[j - 1], states[j]);
      StepKeepsFields(states[j - 1], events[j - 1]);
      assert !events[j - 1].Receive?;
    }
  }

  /** Step `k` of the run is the reload task reading section `c` in version `v`. */
  ghost predicate ReadAt(states: seq<State>, events: seq<Event>, k: nat, c: Section, v: nat) {
    && k < |events| < |states| && events[k].ReadSection?
    && states[k].reload.Reading? && states[k].reload.next < |READ_ORDER| && READ_ORDER[states[k].reload.next] == c
    && c in states[k].db && states[k].db[c] == v
  }

  /** Whatever the reload task holds, it read since the token it is serving arrived. */
  lemma {:induction false} ReadsAreReal(states: seq<State>, events: seq<Event>, i: nat, j: nat, c: Section) returns (k: nat)
    requires Run(states, events) && i < j < |states| && events[i].Receive?
    requires forall n :: i < n < j ==> !events[n].Receive? && !events[n].Install? && !events[n].ReloadFail?
    requires states[j].reload.Reading? && c in states[j].reload.done
    ensures i < k < j && ReadAt(states, events, k, c, states[j].reload.done[c])
    decreases j - i
  {
    hide Apply, Enabled;
    var s, e := states[j - 1], events[j - 1];
    assert Step(s, e, states[j]);
    StepReading(s, e);
    if j - 1 == i {
      ReceiveStartsOver(s);
      assert false;
    } else if e.ReadSection? && READ_ORDER[s.reload.next] == c {
      k := j - 1;
    } else {
      k := ReadsAreReal(states, events, i, j - 1, c);
    }
  }

  lemma ReceiveStartsOver(s: State)
    requires Enabled(s, Receive)
    ensures Apply(s, Receive).reload == Reading(map[], 0)
  {
    hide Running, Advance, NewRequest;
  }

  /** Every section of an installed pipeline is in the version of a read made between its token and its installation. */
  lemma InstalledVersionsWereRead(states: seq<State>, events: seq<Event>, i: nat, j: nat, c: Section) returns (k: nat)
    requires Run(states, events) && i < j < |events| && events[i].Receive? && events[j].Install?
    requires forall n :: i < n < j ==> !events[n].Receive? && !events[n].Install? && !events[n].ReloadFail?
    ensures c in states[j + 1].slot.built
    ensures i < k < j && ReadAt(states, events, k, c, states[j + 1].slot.built[c])
  {
    hide Step, Inv, ReadAt;
    RunKeepsInv(states, events, j);
    InstalledFromDone(states, events, j, c);
    k := ReadsAreReal(states, events, i, j, c);
  }

  lemma InstalledFromDone(states: seq<State>, events: seq<Event>, j: nat, c: Section)
    requires Run(states, events) && j < |events| && events[j].Install? && j < |states| && Inv(states[j])
    ensures j + 1 < |states| && states[j].reload.Reading? && c in states[j].reload.done
    ensures states[j + 1].slot.built == states[j].reload.done
  {
    hide Running, Advance, NewRequest, OpsBounded, AllWritten, TokensOk;
    assert Step(states[j], events[j], states[j + 1]);
    InstalledIsTotal(states[j]);
  }

  // ----- The reload task can always catch up -----

  /** Performing the events one after the other from `s` is possible and ends in `t`. */
  ghost predicate Leads(s: State, events: seq<Event>, t: State)
    decreases |events|
  {
    if |events| == 0 then t == s
    else Enabled(s, events[0]) && Leads(Apply(s, events[0]), events[1..], t)
  }

  /** Only the reload task moves, and none of its reloads fails. */
  predicate ReloadsOnly(events: seq<Event>) {
    forall i :: 0 <= i < |events| ==> events[i].Receive? || events[i].ReadSection? || events[i].Install?
  }

  lemma {:induction false} LeadsOn(s: State, a: seq<Event>, t: State, b: seq<Event>, u: State)
    requires Leads(s, a, t) && Leads(t, b, u)
    ensures Leads(s, a + b, u)
    decreases |a|
  {
    hide Apply, Enabled;
    if |a| == 0 {
      assert a + b == b;
    } else {
      assert (a + b)[1..] == a[1..] + b;
      LeadsOn(Apply(s, a[0]), a[1..], t, b, u);
    }
  }

  lemma LeadsOne(s: State, e: Event)
    requires Enabled(s, e)
    ensures Leads(s, [e], Apply(s, e))
  {
    assert [e][1..] == [];
  }

  /** Everything read so far is still current. */
  ghost predicate ReadsCurrent(s: State) {
    s.reload.Reading? && forall c :: c in s.reload.done ==> c in s.db && s.reload.done[c] == s.db[c]
  }

  /** An undisturbed reload completes; if its reads are current it installs the database as it is. */
  lemma {:induction false} ReloadCompletes(s: State, plan: Plan) returns (events: seq<Event>, t: State)
    requires Inv(s) && s.reload.Reading?
    ensures Leads(s, events, t) && ReloadsOnly(events) && Inv(t)
    ensures t.reload.Idle? && t.lastOk && t.queue == s.queue && t.db == s.db && t.ops == s.ops
    ensures ReadsCurrent(s) ==> t.slot.built == s.db
    decreases |READ_ORDER| - s.reload.next
  {
    hide Running, Advance, NewRequest, Inv, Leads;
    if s.reload.next == |READ_ORDER| {
      events, t := [Install(plan)], Apply(s, Install(plan));
      LeadsOne(s, Install(plan));
      StepKeepsInv(s, Install(plan));
      if ReadsCurrent(s) {
        InstallsCurrent(s, plan);
      }
    } else {
      ReadIsEnabled(s);
      var s' := Apply(s, ReadSection);
      StepKeepsInv(s, ReadSection);
      LeadsOne(s, ReadSection);
      var rest, u := ReloadCompletes(s', plan);
      LeadsOn(s, [ReadSection], s', rest, u);
      events, t := [ReadSection] + rest, u;
    }
  }

  lemma ReadIsEnabled(s: State)
    requires Inv(s) && s.reload.Reading? && s.reload.next != |READ_ORDER|
    ensures Enabled(s, ReadSection)
  {
  }

  lemma InstallsCurrent(s: State, plan: Plan)
    requires Inv(s) && ReadsCurrent(s) && s.reload.next == |READ_ORDER|
    ensures Apply(s, Install(plan)).slot.built == s.db
  {
    hide Running, Advance, NewRequest;
    InstalledIsTotal(s);
    assert s.reload.done.Keys == s.db.Keys;
  }

  /**
   From every reachable state, whatever tokens are queued and wherever a reload stands, the reload
   task can run to a settled state on its own; and if a token was queued, the pipeline it then
   leaves installed is built from exactly the database, partial writes of failed operations included.
   */
  lemma {:induction false} TokensDrain(s: State, plan: Plan) returns (events: seq<Event>, t: State)
    requires Inv(s) && (s.queue > 0 || s.reload.Reading?)
    ensures Leads(s, events, t) && ReloadsOnly(events) && Inv(t)
    ensures Settled(t) && t.db == s.db && t.ops == s.ops
    ensures s.queue > 0 ==> t.slot.built == s.db
    decreases s.queue, if s.reload.Reading? then 1 else 0
  {
    hide Inv, Leads;
    var first, u := [], s;
    if s.reload.Idle? {
      u := Apply(s, Receive);
      first := [Receive];
      LeadsOne(s, Receive);
      StepKeepsInv(s, Receive);
    } else {
      LeadsNowhere(s);
    }
    var second, v := ReloadCompletes(u, plan);
    LeadsOn(s, first, u, second, v);
    events, t := first + second, v;
    if v.queue > 0 {
      var rest, w := TokensDrain(v, plan);
      LeadsOn(s, events, v, rest, w);
      events, t := events + rest, w;
    }
  }

  /**
   A reload signal is served: wherever the server stands, once the signal is in the channel the
   reload task can by itself reach a settled state whose pipeline is built from exactly the
   database at the signal.
   */
  lemma SignalIsServed(s: State, plan: Plan) returns (events: seq<Event>, t: State)
    requires Inv(s) && Enabled(s, Signal)
    ensures Leads(s, [Signal] + events, t) && ReloadsOnly(events)
    ensures Settled(t) && t.slot.built == s.db && t.db == s.db
  {
    hide Leads, Inv;
    var signalled := Apply(s, Signal);
    StepKeepsInv(s, Signal);
    LeadsOne(s, Signal);
    events, t := TokensDrain(signalled, plan);
    LeadsOn(s, [Signal], signalled, events, t);
  }

  lemma LeadsNowhere(s: State)
    ensures Leads(s, [], s)
  {
  }

  /** The last value the toggle was set to; filtering starts out on. */
  function LastToggle(events: seq<Event>): bool {
    if |events| == 0 then true
    else
      var e := events[|events| - 1];
      if e.SetFiltering? then e.enabled else LastToggle(events[..|events| - 1])
  }

  lemma {:induction false} SwitchIsLastToggle(states: seq<State>, events: seq<Event>, i: nat)
    requires Run(states, events) && i < |states|
    ensures states[i].filtering == LastToggle(events[..i])
  {
    hide Apply, Enabled;
    if i > 0 {
      SwitchIsLastToggle(states, events, i - 1);
      assert Step(states[i - 1], events[i - 1], states[i]);
      StepKeepsFields(states[i - 1], events[i - 1]);
      assert events[..i][..i - 1] == events[..i - 1];
    }
  }
}
