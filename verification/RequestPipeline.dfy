/**
 The request pipeline: a chain of six stages with early exit, shown to refine a routing table
 stated directly over the configuration.
 */
module RequestPipeline {
  import opened Basics
  import opened DnsMessage
  import opened StableSort
  import opened UpstreamStrategy
  import opened ZoneForwarding
  import opened ZoneNames

  datatype Decision = Allow | Neutral | Block

  datatype AnyPolicy = Passthrough | RefuseAny | NotImpAny

  /** What one request meets: the codec, each resolver's outcome, the filter and its switch. */
  datatype World = World(
    codec: Codec, resolve: nat -> Outcome, filteringEnabled: bool, decide: string -> Decision,
    sinkholeV4: u32, sinkholeV6: nat)

  datatype Request = Request(query: Bytes, clientId: u16)

  function NewRequest(query: Bytes): Request { Request(query, QueryId(query)) }

  datatype Stage =
    | ZoneStage(entries: seq<ZoneEntry>)
    | FilterStage
    | AnyStage(policy: AnyPolicy)
    | UpstreamStage(resolver: nat)
    | ServfailStage

  /** A response, if there is one, and the resolvers that were asked. */
  datatype Handled = Handled(response: Option<Bytes>, asked: seq<nat>)

  const Pass := Handled(None, [])

  // ----- Response builders -----

  function Encoded(c: Codec, m: Message): Bytes {
    var e := c.encode(m);
    if e.Some? then e.value else []
  }

  /** `build_error_response`: the code, with the query's identifier and questions if it parses. */
  function ErrorResponse(c: Codec, query: Bytes, code: ResponseCode): Bytes {
    var r := NewResponse(0).(recursionAvailable := true, code := code);
    var q := c.decode(query);
    if q.None? then Encoded(c, r)
    else Encoded(c, r.(id := q.value.id, recursionDesired := q.value.recursionDesired, questions := q.value.questions))
  }

  const SINKHOLE_TTL: u32 := 60

  function SinkholeAnswers(q: Question, v4: u32, v6: nat): seq<Record> {
    match q.qtype
    case A => [Record(q.name, SINKHOLE_TTL, V4(v4))]
    case AAAA => [Record(q.name, SINKHOLE_TTL, V6(v6))]
    case ANY => [Record(q.name, SINKHOLE_TTL, V4(v4)), Record(q.name, SINKHOLE_TTL, V6(v6))]
    case _ => []
  }

  /** `build_sinkhole_response`. */
  function SinkholeResponse(w: World, m: Message): Bytes {
    Encoded(w.codec,
            NewResponse(m.id).(recursionDesired := m.recursionDesired, recursionAvailable := true,
                               questions := m.questions,
                               answers := if |m.questions| == 0 then []
                                          else SinkholeAnswers(m.questions[0], w.sinkholeV4, w.sinkholeV6)))
  }

  /** `fix_response_id`: a reply that does not parse is passed on unchanged. */
  function FixId(c: Codec, response: Bytes, id: u16): Bytes {
    var m := c.decode(response);
    if m.None? then response
    else
      var e := c.encode(m.value.(id := id));
      if e.Some? then e.value else response
  }

  predicate Contains(s: string, t: string) {
    t <= s || (|s| > 0 && Contains(s[1..], t))
  }

  /** A validated denial that the resolver library reports as a protocol error. */
  predicate IsDnssecNodata(e: ResolveError) {
    match e
    case Protocol(detail) => Contains(detail, "Dns(Nsec") || Contains(detail, "Nsec {")
    case WithSource(_, inner) => IsDnssecNodata(inner)
    case _ => false
  }

  // ----- The stages -----

  /** The first question of a query that parses. */
  function FirstQuestion(c: Codec, query: Bytes): Option<Question> {
    var m := c.decode(query);
    if m.None? || |m.value.questions| == 0 then None else Some(m.value.questions[0])
  }

  /** What a zone's resolver makes of a request. */
  function AskZone(w: World, e: ZoneEntry, req: Request): Handled {
    match w.resolve(e.resolver)
    case Ok(response) => Handled(Some(FixId(w.codec, response, req.clientId)), [e.resolver])
    case Err(_) =>
      if e.fallback then Handled(None, [e.resolver])
      else Handled(Some(ErrorResponse(w.codec, req.query, ServFail)), [e.resolver])
  }

  function AskUpstream(w: World, resolver: nat, req: Request): Handled {
    match w.resolve(resolver)
    case Ok(response) => Handled(Some(FixId(w.codec, response, req.clientId)), [resolver])
    case Err(error) =>
      Handled(Some(ErrorResponse(w.codec, req.query, if IsDnssecNodata(error) then NoError else ServFail)), [resolver])
  }

  function Handle(w: World, stage: Stage, req: Request): Handled {
    var q := FirstQuestion(w.codec, req.query);
    match stage
    case ZoneStage(entries) =>
      if q.None? then Pass
      else
        var e := MatchingEntry(entries, q.value.name);
        if e.None? then Pass else AskZone(w, e.value, req)
    case FilterStage =>
      if !w.filteringEnabled || q.None? || w.decide(q.value.name) != Block then Pass
      else Handled(Some(SinkholeResponse(w, w.codec.decode(req.query).value)), [])
    case AnyStage(policy) =>
      if policy == Passthrough || q.None? || q.value.qtype != ANY then Pass
      else Handled(Some(ErrorResponse(w.codec, req.query, if policy == RefuseAny then Refused else NotImp)), [])
    case UpstreamStage(resolver) => AskUpstream(w, resolver, req)
    case ServfailStage => Handled(Some(ErrorResponse(w.codec, req.query, ServFail)), [])
  }

  /** Runs `first`, and `second` only if the first had no response. */
  function Then(first: Handled, second: Handled): Handled {
    if first.response.Some? then first else Handled(second.response, first.asked + second.asked)
  }

  function Chain(w: World, stages: seq<Stage>, req: Request): Handled {
    if |stages| == 0 then Pass else Then(Handle(w, stages[0], req), Chain(w, stages[1..], req))
  }

  /** `AsyncPipelineHandler::handle_request`. No stage of this pipeline returns an error. */
  method HandleRequest(w: World, stages: seq<Stage>, req: Request) returns (r: Handled)
    ensures r == Chain(w, stages, req)
  {
    hide Chain, Handle;
    var asked: seq<nat> := [];
    assert stages[0..] == stages;
    for i := 0 to |stages|
      invariant Chain(w, stages, req) ==
                Handled(Chain(w, stages[i..], req).response, asked + Chain(w, stages[i..], req).asked)
    {
      ChainStep(w, stages, i, req);
      var h := Handle(w, stages[i], req);
      if h.response.Some? {
        return Handled(h.response, asked + h.asked);
      }
      asked := asked + h.asked;
    }
    ChainEnd(w, stages, req);
    return Handled(None, asked);
  }

  // ----- Assembly -----

  datatype Config = Config(entries: seq<ZoneEntry>, policy: AnyPolicy, upstream: nat)

  function StageEntries(cfg: Config, bypass: bool): seq<ZoneEntry> {
    Sort(ByLength, Retained(cfg.entries, bypass))
  }

  function Stages(cfg: Config): seq<Stage> {
    [ZoneStage(StageEntries(cfg, true)), FilterStage, AnyStage(cfg.policy), ZoneStage(StageEntries(cfg, false)),
     UpstreamStage(cfg.upstream), ServfailStage]
  }

  /** `build_dns_request_pipeline_full`. */
  method BuildPipeline(cfg: Config) returns (stages: seq<Stage>)
    ensures stages == Stages(cfg)
  {
    var bypass := BuildStage(cfg.entries, true);
    var filtered := BuildStage(cfg.entries, false);
    stages := [ZoneStage(bypass), FilterStage, AnyStage(cfg.policy), ZoneStage(filtered), UpstreamStage(cfg.upstream),
               ServfailStage];
  }

  // ----- The routing table -----

  /** The zone of the given kind that is responsible for a name, read off the configuration. */
  function ResponsibleZone(cfg: Config, bypass: bool, name: string): Option<ZoneEntry> {
    var domain := NormalizeZone(name);
    if domain.None? then None else Longest(Retained(cfg.entries, bypass), domain.value)
  }

  /** What the responsible zone of the given kind contributes, if there is a question and a zone. */
  function ZoneAnswer(cfg: Config, w: World, bypass: bool, req: Request): Handled {
    var q := FirstQuestion(w.codec, req.query);
    var e := if q.None? then None else ResponsibleZone(cfg, bypass, q.value.name);
    if e.None? then Pass else AskZone(w, e.value, req)
  }

  predicate Blocked(w: World, req: Request) {
    var q := FirstQuestion(w.codec, req.query);
    w.filteringEnabled && q.Some? && w.decide(q.value.name) == Block
  }

  /** The routing table: the first row that applies gives the answer. */
  function Route(cfg: Config, w: World, req: Request): Handled {
    var q := FirstQuestion(w.codec, req.query);
    var bypass := ZoneAnswer(cfg, w, true, req);
    var zone := ZoneAnswer(cfg, w, false, req);
    if bypass.response.Some? then bypass
    else if Blocked(w, req) then Handled(Some(SinkholeResponse(w, w.codec.decode(req.query).value)), bypass.asked)
    else if q.Some? && q.value.qtype == ANY && cfg.policy != Passthrough then
      Handled(Some(ErrorResponse(w.codec, req.query, if cfg.policy == RefuseAny then Refused else NotImp)), bypass.asked)
    else if zone.response.Some? then Handled(zone.response, bypass.asked + zone.asked)
    else
      var up := AskUpstream(w, cfg.upstream, req);
      Handled(up.response, bypass.asked + zone.asked + up.asked)
  }

  lemma ZoneStageAnswer(cfg: Config, w: World, bypass: bool, req: Request)
    ensures Handle(w, ZoneStage(StageEntries(cfg, bypass)), req) == ZoneAnswer(cfg, w, bypass, req)
  {
    hide AskZone, Longest, FirstMatch, Sort, NormalizeZone;
    var q := FirstQuestion(w.codec, req.query);
    if q.Some? {
      var domain := NormalizeZone(q.value.name);
      if domain.Some? {
        FirstMatchIsLongest(Retained(cfg.entries, bypass), domain.value);
      }
    }
  }

  lemma ChainStep(w: World, stages: seq<Stage>, i: nat, req: Request)
    requires i < |stages|
    ensures Chain(w, stages[i..], req) == Then(Handle(w, stages[i], req), Chain(w, stages[i + 1..], req))
  {
    assert stages[i..][1..] == stages[i + 1..];
  }

  lemma ChainEnd(w: World, stages: seq<Stage>, req: Request)
    ensures Chain(w, stages[|stages|..], req) == Pass
  {
  }

  /** The last three stages: zone, upstream, and a fallback that is never reached. */
  lemma ChainTail(cfg: Config, w: World, req: Request)
    ensures var zone := ZoneAnswer(cfg, w, false, req);
            var up := AskUpstream(w, cfg.upstream, req);
            Chain(w, Stages(cfg)[3..], req) ==
            if zone.response.Some? then zone else Handled(up.response, zone.asked + up.asked)
  {
    hide AskZone, ErrorResponse, SinkholeResponse, FixId, IsDnssecNodata, FirstQuestion, MatchingEntry, Sort,
         ResponsibleZone, Chain;
    ZoneStageAnswer(cfg, w, false, req);
    ChainStep(w, Stages(cfg), 3, req);
    ChainStep(w, Stages(cfg), 4, req);
  }

  /** The chain of stages refines the routing table. */
  lemma PipelineRefinesRoute(cfg: Config, w: World, req: Request)
    ensures Chain(w, Stages(cfg), req) == Route(cfg, w, req)
  {
    hide AskZone, ErrorResponse, SinkholeResponse, FixId, IsDnssecNodata, FirstQuestion, MatchingEntry, Sort,
         ResponsibleZone, Chain, AskUpstream;
    var s := Stages(cfg);
    ZoneStageAnswer(cfg, w, true, req);
    assert s[0..] == s;
    ChainStep(w, s, 0, req);
    ChainStep(w, s, 1, req);
    ChainStep(w, s, 2, req);
    ChainTail(cfg, w, req);
  }

  // ----- What clients may rely on -----

  /** Every request gets a response. */
  lemma PipelineAlwaysAnswers(cfg: Config, w: World, req: Request)
    ensures Chain(w, Stages(cfg), req).response.Some?
  {
    PipelineRefinesRoute(cfg, w, req);
  }

  /**
   With filtering on, a query for a blocked name reaches no resolver but the one of its bypass
   zone; and unless that zone answers, or fails without fallback, the reply is the sinkhole.
   */
  lemma BlockedNamesAreSinkholed(cfg: Config, w: World, req: Request)
    requires Blocked(w, req)
    ensures var h := Chain(w, Stages(cfg), req);
            var m := w.codec.decode(req.query).value;
            match ResponsibleZone(cfg, true, m.questions[0].name)
            case None => h == Handled(Some(SinkholeResponse(w, m)), [])
            case Some(e) =>
              && h.asked == [e.resolver]
              && (w.resolve(e.resolver).Err? && e.fallback ==> h.response == Some(SinkholeResponse(w, m)))
              && (w.resolve(e.resolver).Err? && !e.fallback ==>
                    h.response == Some(ErrorResponse(w.codec, req.query, ServFail)))
              && (w.resolve(e.resolver).Ok? ==>
                    h.response == Some(FixId(w.codec, w.resolve(e.resolver).value, req.clientId)))
  {
    hide Chain, SinkholeResponse, ErrorResponse, FixId, ResponsibleZone;
    PipelineRefinesRoute(cfg, w, req);
  }

  /** The sinkhole reply decodes to NOERROR with the sinkhole address of the asked type, if it has one. */
  lemma SinkholeContent(w: World, req: Request)
    requires Faithful(w.codec) && Blocked(w, req)
    requires w.codec.decode(SinkholeResponse(w, w.codec.decode(req.query).value)).Some?
    ensures var q := w.codec.decode(req.query).value;
            var m := w.codec.decode(SinkholeResponse(w, q)).value;
            && m.id == q.id && m.isResponse && m.code == NoError && m.questions == q.questions
            && m.recursionDesired == q.recursionDesired && m.recursionAvailable && !m.authoritative && !m.truncated
            && m.authorities == [] && m.additionals == []
            && |m.answers| == (if q.questions[0].qtype == ANY then 2 else if q.questions[0].qtype in {A, AAAA} then 1 else 0)
            && (forall i :: 0 <= i < |m.answers| ==>
                  && m.answers[i].name == q.questions[0].name && m.answers[i].ttl == 60
                  && (m.answers[i].data == V4(w.sinkholeV4) || m.answers[i].data == V6(w.sinkholeV6)))
            && (V4(w.sinkholeV4) in (set r | r in m.answers :: r.data) <==> q.questions[0].qtype in {A, ANY})
            && (V6(w.sinkholeV6) in (set r | r in m.answers :: r.data) <==> q.questions[0].qtype in {AAAA, ANY})
  {
    var q := w.codec.decode(req.query).value;
    EncodedDecodes(w.codec, NewResponse(q.id).(recursionDesired := q.recursionDesired, recursionAvailable := true,
                               questions := q.questions,
                               answers := SinkholeAnswers(q.questions[0], w.sinkholeV4, w.sinkholeV6)));
    var m := w.codec.decode(SinkholeResponse(w, q)).value;
    assert m.answers == SinkholeAnswers(q.questions[0], w.sinkholeV4, w.sinkholeV6);
    SinkholeData(q.questions[0], w.sinkholeV4, w.sinkholeV6);
  }

  lemma SinkholeData(q: Question, v4: u32, v6: nat)
    ensures var data := set r | r in SinkholeAnswers(q, v4, v6) :: r.data;
            && (V4(v4) in data <==> q.qtype in {A, ANY})
            && (V6(v6) in data <==> q.qtype in {AAAA, ANY})
  {
    var s := SinkholeAnswers(q, v4, v6);
    if q.qtype in {A, ANY} {
      assert s[0].data == V4(v4);
    }
    if q.qtype == AAAA {
      assert s[0].data == V6(v6);
    }
    if q.qtype == ANY {
      assert s[1].data == V6(v6);
    }
  }

  lemma EncodedDecodes(c: Codec, m: Message)
    requires Faithful(c)
    ensures c.decode(Encoded(c, m)).Some? ==> c.decode(Encoded(c, m)) == Some(m)
  {
  }

  lemma FixIdSetsId(c: Codec, response: Bytes, id: u16)
    requires Faithful(c)
    ensures c.decode(response).Some? <==> c.decode(FixId(c, response, id)).Some?
    ensures c.decode(response).Some? ==> c.decode(FixId(c, response, id)) == Some(c.decode(response).value.(id := id))
    ensures c.decode(response).None? ==> FixId(c, response, id) == response
  {
    var m := c.decode(response);
    if m.Some? {
      Reencodes(c, response, m.value.(id := id));
    }
  }

  /** An error reply decodes to the code and the query's identifier and questions, and nothing more. */
  lemma ErrorContent(c: Codec, query: Bytes, code: ResponseCode)
    requires Faithful(c)
    ensures var r := c.decode(ErrorResponse(c, query, code));
            var q := c.decode(query);
            r.Some? ==>
              && r.value.code == code && r.value.isResponse && r.value.id == (if q.Some? then q.value.id else 0)
              && r.value.recursionAvailable && !r.value.authoritative && !r.value.truncated
              && r.value.recursionDesired == (q.Some? && q.value.recursionDesired)
              && r.value.questions == (if q.Some? then q.value.questions else [])
              && r.value.answers == [] && r.value.authorities == [] && r.value.additionals == []
  {
    var r := NewResponse(0).(recursionAvailable := true, code := code);
    var q := c.decode(query);
    EncodedDecodes(c, r);
    if q.Some? {
      EncodedDecodes(c, r.(id := q.value.id, recursionDesired := q.value.recursionDesired, questions := q.value.questions));
    }
  }

  /** An ANY query that is neither bypassed nor blocked is refused by policy without asking anyone. */
  lemma AnyQueriesAreAnsweredByPolicy(cfg: Config, w: World, req: Request)
    requires Faithful(w.codec) && !Blocked(w, req) && cfg.policy != Passthrough
    requires var q := FirstQuestion(w.codec, req.query);
             q.Some? && q.value.qtype == ANY && ResponsibleZone(cfg, true, q.value.name).None?
    ensures var h := Chain(w, Stages(cfg), req);
            && h.response.Some? && h.asked == []
            && (var r := w.codec.decode(h.response.value);
                r.Some? ==> r.value.code == (if cfg.policy == RefuseAny then Refused else NotImp) && r.value.answers == [])
  {
    hide Faithful, Chain, ErrorResponse, FixId, SinkholeResponse, ResponsibleZone;
    PipelineRefinesRoute(cfg, w, req);
    ErrorContent(w.codec, req.query, if cfg.policy == RefuseAny then Refused else NotImp);
  }

  /**
   Everything else goes to the default resolver, once: its reply comes back under the client's
   identifier, and its errors become SERVFAIL, or an empty NOERROR for a validated denial.
   */
  lemma DefaultResolverAnswers(cfg: Config, w: World, req: Request)
    requires Faithful(w.codec) && !Blocked(w, req)
    requires var q := FirstQuestion(w.codec, req.query);
             q.Some? ==>
               && (q.value.qtype == ANY ==> cfg.policy == Passthrough)
               && ResponsibleZone(cfg, true, q.value.name).None? && ResponsibleZone(cfg, false, q.value.name).None?
    ensures var h := Chain(w, Stages(cfg), req);
            && h.response.Some? && h.asked == [cfg.upstream]
            && (var r := w.codec.decode(h.response.value);
                match w.resolve(cfg.upstream)
                case Ok(reply) =>
                  var m := w.codec.decode(reply);
                  if m.None? then h.response.value == reply else r == Some(m.value.(id := req.clientId))
                case Err(e) =>
                  r.Some? ==> r.value.code == (if IsDnssecNodata(e) then NoError else ServFail) && r.value.answers == [])
  {
    hide Faithful, Chain, ErrorResponse, SinkholeResponse, ResponsibleZone, IsDnssecNodata;
    PipelineRefinesRoute(cfg, w, req);
    match w.resolve(cfg.upstream)
    case Ok(reply) => FixIdSetsId(w.codec, reply, req.clientId);
    case Err(e) => ErrorContent(w.codec, req.query, if IsDnssecNodata(e) then NoError else ServFail);
  }

  /** The responsible zone is a configured entry of the asked kind that matches, and none such is longer. */
  lemma ResponsibleZoneExactly(cfg: Config, bypass: bool, name: string)
    ensures var domain := NormalizeZone(name);
            match ResponsibleZone(cfg, bypass, name)
            case Some(e) =>
              && domain.Some? && e in cfg.entries && e.bypassFilter == bypass && Matches(e, domain.value)
              && forall f :: f in cfg.entries && f.bypassFilter == bypass && Matches(f, domain.value) ==>
                   ByteLen(f.zone) <= ByteLen(e.zone)
            case None =>
              domain.Some? ==> forall f :: f in cfg.entries && f.bypassFilter == bypass ==> !Matches(f, domain.value)
  {
    hide Longest, Matches, ByteLen, NormalizeZone, Retained;
    var domain := NormalizeZone(name);
    if domain.Some? {
      RetainedExactly(cfg.entries, bypass);
      var i := LongestChosenAt(Retained(cfg.entries, bypass), domain.value);
    }
  }

  lemma {:induction false} RetainedExactly(entries: seq<ZoneEntry>, bypass: bool)
    ensures forall e :: e in Retained(entries, bypass) <==> e in entries && e.bypassFilter == bypass
  {
    if |entries| > 0 {
      RetainedExactly(entries[1..], bypass);
      assert entries == [entries[0]] + entries[1..];
    }
  }

  /** The reply as a client sees it: a reply that parses comes back under the client's identifier, any other unchanged. */
  ghost predicate PassedOn(c: Codec, reply: Bytes, id: u16, response: Bytes) {
    var m := c.decode(reply);
    if m.None? then response == reply else c.decode(response) == Some(m.value.(id := id))
  }

  /** An error as a client sees it, if it can be encoded: the code and no answers. */
  ghost predicate Failure(c: Codec, code: ResponseCode, response: Bytes) {
    var r := c.decode(response);
    r.Some? ==> r.value.code == code && r.value.answers == []
  }

  /**
   A query for a name in a zone of the ordinary kind, neither bypassed nor blocked nor refused by
   policy, asks that zone's resolver. Its reply is passed on; if it fails, the client gets SERVFAIL,
   or with fallback whatever the default resolver, asked next, makes of the query.
   */
  lemma ZoneResolverAnswers(cfg: Config, w: World, req: Request)
    requires Faithful(w.codec) && !Blocked(w, req) && FirstQuestion(w.codec, req.query).Some?
    requires var q := FirstQuestion(w.codec, req.query).value;
             && (q.qtype == ANY ==> cfg.policy == Passthrough)
             && ResponsibleZone(cfg, true, q.name).None? && ResponsibleZone(cfg, false, q.name).Some?
    ensures var q := FirstQuestion(w.codec, req.query).value;
            var e := ResponsibleZone(cfg, false, q.name).value;
            var h := Chain(w, Stages(cfg), req);
            && h.response.Some?
            && match w.resolve(e.resolver)
               case Ok(reply) => h.asked == [e.resolver] && PassedOn(w.codec, reply, req.clientId, h.response.value)
               case Err(_) =>
                 if !e.fallback then h.asked == [e.resolver] && Failure(w.codec, ServFail, h.response.value)
                 else
                   && h.asked == [e.resolver, cfg.upstream]
                   && match w.resolve(cfg.upstream)
                      case Ok(reply) => PassedOn(w.codec, reply, req.clientId, h.response.value)
                      case Err(error) =>
                        Failure(w.codec, if IsDnssecNodata(error) then NoError else ServFail, h.response.value)
  {
    hide Faithful, Chain, ErrorResponse, SinkholeResponse, ResponsibleZone, IsDnssecNodata, FixId;
    PipelineRefinesRoute(cfg, w, req);
    var e := ResponsibleZone(cfg, false, FirstQuestion(w.codec, req.query).value.name).value;
    if w.resolve(e.resolver).Ok? {
      FixIdSetsId(w.codec, w.resolve(e.resolver).value, req.clientId);
    }
    if w.resolve(cfg.upstream).Ok? {
      FixIdSetsId(w.codec, w.resolve(cfg.upstream).value, req.clientId);
    }
    ErrorContent(w.codec, req.query, ServFail);
    ErrorContent(w.codec, req.query, NoError);
  }

  lemma {:induction false} ContainsIsSubstring(s: string, t: string)
    ensures Contains(s, t) <==> exists i :: 0 <= i <= |s| && t <= s[i..]
  {
    assert s[0..] == s;
    if |s| > 0 {
      ContainsIsSubstring(s[1..], t);
      assert forall i :: 0 <= i <= |s| - 1 ==> s[1..][i..] == s[i + 1..];
      if exists i :: 0 <= i <= |s| && t <= s[i..] {
        var i :| 0 <= i <= |s| && t <= s[i..];
        if i > 0 {
          assert t <= s[1..][i - 1..];
        }
      }
    }
  }

  /** The error below all the resolver labels that were put around it. */
  function Innermost(e: ResolveError): ResolveError {
    if e.WithSource? then Innermost(e.inner) else e
  }

  /** An upstream error counts as a validated denial exactly when its text has one of two marks, under whatever labels. */
  lemma {:induction false} DenialExactlyWhen(e: ResolveError)
    ensures IsDnssecNodata(e) <==>
            var inner := Innermost(e);
            && inner.Protocol?
            && exists i :: 0 <= i <= |inner.detail| && ("Dns(Nsec" <= inner.detail[i..] || "Nsec {" <= inner.detail[i..])
  {
    match e
    case WithSource(_, inner) => DenialExactlyWhen(inner);
    case Protocol(detail) =>
      hide Contains;
      ContainsIsSubstring(detail, "Dns(Nsec");
      ContainsIsSubstring(detail, "Nsec {");
    case _ =>
  }

  /** The response, if it parses, carries the identifier. */
  ghost predicate HasId(c: Codec, response: Bytes, id: u16) {
    c.decode(response).Some? ==> c.decode(response).value.id == id
  }

  /** The request is for a query that parses, and knows its identifier. */
  ghost predicate KnowsId(c: Codec, req: Request) {
    c.decode(req.query).Some? && req.clientId == c.decode(req.query).value.id
  }

  lemma NewRequestKnowsId(c: Codec, query: Bytes)
    requires Faithful(c) && c.decode(query).Some?
    ensures KnowsId(c, NewRequest(query)) && NewRequest(query).query == query
  {
  }

  lemma ErrorHasId(c: Codec, req: Request, code: ResponseCode)
    requires Faithful(c) && KnowsId(c, req)
    ensures HasId(c, ErrorResponse(c, req.query, code), req.clientId)
  {
    hide Faithful, ErrorResponse;
    ErrorContent(c, req.query, code);
  }

  lemma SinkholeHasId(w: World, req: Request)
    requires Faithful(w.codec) && KnowsId(w.codec, req)
    ensures HasId(w.codec, SinkholeResponse(w, w.codec.decode(req.query).value), req.clientId)
  {
    var m := w.codec.decode(req.query).value;
    EncodedDecodes(w.codec,
                   NewResponse(m.id).(recursionDesired := m.recursionDesired, recursionAvailable := true,
                               questions := m.questions,
                               answers := if |m.questions| == 0 then []
                                          else SinkholeAnswers(m.questions[0], w.sinkholeV4, w.sinkholeV6)));
  }

  lemma AskZoneHasId(w: World, e: ZoneEntry, req: Request)
    requires Faithful(w.codec) && KnowsId(w.codec, req)
    ensures var r := AskZone(w, e, req).response; r.Some? ==> HasId(w.codec, r.value, req.clientId)
  {
    hide Faithful, ErrorResponse, FixId, KnowsId;
    match w.resolve(e.resolver)
    case Ok(response) => FixIdSetsId(w.codec, response, req.clientId);
    case Err(_) => ErrorHasId(w.codec, req, ServFail);
  }

  lemma AskUpstreamHasId(w: World, resolver: nat, req: Request)
    requires Faithful(w.codec) && KnowsId(w.codec, req)
    ensures var r := AskUpstream(w, resolver, req).response; r.Some? && HasId(w.codec, r.value, req.clientId)
  {
    hide Faithful, ErrorResponse, FixId, KnowsId, IsDnssecNodata;
    match w.resolve(resolver)
    case Ok(response) => FixIdSetsId(w.codec, response, req.clientId);
    case Err(error) => ErrorHasId(w.codec, req, if IsDnssecNodata(error) then NoError else ServFail);
  }

  lemma ZoneAnswerHasId(cfg: Config, w: World, bypass: bool, req: Request)
    requires Faithful(w.codec) && KnowsId(w.codec, req)
    ensures var r := ZoneAnswer(cfg, w, bypass, req).response; r.Some? ==> HasId(w.codec, r.value, req.clientId)
  {
    hide Faithful, KnowsId, AskZone, HasId, ResponsibleZone;
    var q := FirstQuestion(w.codec, req.query);
    var e := if q.None? then None else ResponsibleZone(cfg, bypass, q.value.name);
    if e.Some? {
      AskZoneHasId(w, e.value, req);
    }
  }

  lemma RouteHasId(cfg: Config, w: World, req: Request)
    requires Faithful(w.codec) && KnowsId(w.codec, req)
    ensures var r := Route(cfg, w, req).response; r.Some? && HasId(w.codec, r.value, req.clientId)
  {
    hide Faithful, KnowsId, HasId, ErrorResponse, SinkholeResponse, ZoneAnswer, AskUpstream, FirstQuestion, Blocked;
    ZoneAnswerHasId(cfg, w, true, req);
    ZoneAnswerHasId(cfg, w, false, req);
    AskUpstreamHasId(w, cfg.upstream, req);
    ErrorHasId(w.codec, req, Refused);
    ErrorHasId(w.codec, req, NotImp);
    SinkholeHasId(w, req);
  }

  /** Whenever the reply to a parseable query parses, it carries the client's identifier. */
  lemma RepliesCarryClientId(cfg: Config, w: World, query: Bytes)
    requires Faithful(w.codec) && w.codec.decode(query).Some?
    ensures var r := Chain(w, Stages(cfg), NewRequest(query)).response;
            r.Some? && (w.codec.decode(r.value).Some? ==>
                          w.codec.decode(r.value).value.id == w.codec.decode(query).value.id)
  {
    hide Faithful, Chain, Stages, Route, NewRequest;
    NewRequestKnowsId(w.codec, query);
    PipelineRefinesRoute(cfg, w, NewRequest(query));
    RouteHasId(cfg, w, NewRequest(query));
  }
}
