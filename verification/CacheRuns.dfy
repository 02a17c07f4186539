/**
 Every interleaving of concurrent `resolve` calls on one cache: each call reads the clock, looks
 up, waits for its upstream and inserts, and any number of calls proceed step by step at once.
 */
module CacheRuns {
  import opened Basics
  import opened DnsMessage
  import opened ResolverCache

  datatype Config = Config(codec: Codec, settings: Settings)

  /** A `resolve` call between two of its steps; `began` is its first clock reading. */
  datatype Call =
    | Begun(query: Bytes, began: nat)
    | Waiting(query: Bytes, began: nat)
    | Answered(query: Bytes, began: nat, response: Bytes, receivedAt: nat)

  datatype State = State(entries: Entries, clock: nat, calls: map<nat, Call>)

  datatype Event =
    | Tick(to: nat)
    | Begin(id: nat, query: Bytes)
    | Hit(id: nat, answer: Bytes)
    | Miss(id: nat)
    | UpstreamReply(id: nat, response: Bytes)
    | UpstreamError(id: nat)
    | Store(id: nat, answer: Bytes)

  const Init := State(map[], 0, map[])

  ghost predicate Step(cfg: Config, s: State, e: Event, t: State) {
    match e
    case Tick(to) => s.clock <= to && t == s.(clock := to)
    case Begin(id, query) => id !in s.calls && t == s.(calls := s.calls[id := Begun(query, s.clock)])
    case Hit(id, answer) =>
      && id in s.calls && s.calls[id].Begun? && s.calls[id].began <= s.clock
      && Found(cfg.codec, s.entries, s.calls[id].query, s.calls[id].began, s.clock) == Some(answer)
      && t == s.(calls := s.calls - {id})
    case Miss(id) =>
      && id in s.calls && s.calls[id].Begun? && s.calls[id].began <= s.clock
      && Found(cfg.codec, s.entries, s.calls[id].query, s.calls[id].began, s.clock) == None
      && t == s.(calls := s.calls[id := Waiting(s.calls[id].query, s.calls[id].began)])
    case UpstreamReply(id, response) =>
      && id in s.calls && s.calls[id].Waiting?
      && t == s.(calls := s.calls[id := Answered(s.calls[id].query, s.calls[id].began, response, s.clock)])
    case UpstreamError(id) => id in s.calls && s.calls[id].Waiting? && t == s.(calls := s.calls - {id})
    case Store(id, answer) =>
      && id in s.calls && s.calls[id].Answered? && answer == s.calls[id].response
      && (var c := s.calls[id];
          Inserted(cfg.codec, cfg.settings, s.entries, c.query, c.began, c.response, t.entries))
      && t.clock == s.clock && t.calls == s.calls - {id}
  }

  /** A finite run: one more state than events. */
  ghost predicate Run(cfg: Config, states: seq<State>, events: seq<Event>) {
    && |states| == |events| + 1 && states[0] == Init
    && forall i :: 0 <= i < |events| ==> Step(cfg, states[i], events[i], states[i + 1])
  }

  /** Event `j` of the run is an upstream reply to call `c`, which it left in the answered phase. */
  ghost predicate RepliedAt(states: seq<State>, events: seq<Event>, j: nat, c: Call) {
    && j < |events| < |states| && c.Answered?
    && events[j].UpstreamReply? && events[j].response == c.response
    && events[j].id in states[j].calls && states[j].calls[events[j].id] == Waiting(c.query, c.began)
    && states[j].clock == c.receivedAt && c.began <= c.receivedAt
  }

  /** The entry is exactly what the answered call `c` stores under its key. */
  ghost predicate StoredBy(cfg: Config, key: Bytes, entry: Entry, c: Call) {
    && c.Answered? && Key(c.query) == key
    && CacheTtl(cfg.codec, cfg.settings, c.response).Some?
    && entry == Entry(Scrub(cfg.codec, c.response), c.began,
                      c.began + CacheTtl(cfg.codec, cfg.settings, c.response).value)
  }

  ghost predicate Explained(cfg: Config, states: seq<State>, events: seq<Event>, i: nat, key: Bytes, entry: Entry) {
    exists j: nat, c :: j < i && RepliedAt(states, events, j, c) && StoredBy(cfg, key, entry, c)
  }

  ghost predicate OwnReply(states: seq<State>, events: seq<Event>, j: nat, id: nat, c: Call) {
    RepliedAt(states, events, j, c) && events[j].id == id
  }

  /** An answered call in flight holds the reply that its own upstream gave it. */
  ghost predicate CallExplained(states: seq<State>, events: seq<Event>, i: nat, clock: nat, id: nat, c: Call) {
    && c.began <= clock
    && (c.Answered? ==>
          c.receivedAt <= clock && exists j: nat :: j < i && OwnReply(states, events, j, id, c))
  }

  ghost predicate EntriesExplained(cfg: Config, states: seq<State>, events: seq<Event>, i: nat, s: State) {
    forall k :: k in s.entries ==> Explained(cfg, states, events, i, k, s.entries[k]) && s.entries[k].storedAt <= s.clock
  }

  /** The invariant at state `i`: capacity, and an earlier upstream reply behind every entry. */
  ghost predicate Inv(cfg: Config, states: seq<State>, events: seq<Event>, i: nat)
    requires i < |states|
  {
    var s := states[i];
    && |s.entries| <= Max(1, cfg.settings.maxEntries)
    && EntriesExplained(cfg, states, events, i, s)
    && (forall id :: id in s.calls ==> CallExplained(states, events, i, s.clock, id, s.calls[id]))
  }

  lemma ExplainedLater(cfg: Config, states: seq<State>, events: seq<Event>, i: nat, key: Bytes, entry: Entry)
    requires Explained(cfg, states, events, i, key, entry)
    ensures Explained(cfg, states, events, i + 1, key, entry)
  {
    var j: nat, c :| j < i && RepliedAt(states, events, j, c) && StoredBy(cfg, key, entry, c);
    assert j < i + 1;
  }

  lemma CallExplainedLater(states: seq<State>, events: seq<Event>, i: nat, clock: nat, clock': nat, id: nat,
                           c: Call)
    requires CallExplained(states, events, i, clock, id, c) && clock <= clock'
    ensures CallExplained(states, events, i + 1, clock', id, c)
  {
    if c.Answered? {
      var j: nat :| j < i && OwnReply(states, events, j, id, c);
      assert j < i + 1;
    }
  }

  /** What an insertion leaves behind was either there before or is the inserted entry. */
  lemma InsertedFrom(c: Codec, s: Settings, before: Entries, query: Bytes, now: nat, response: Bytes,
                     after: Entries, k: Bytes)
    requires Inserted(c, s, before, query, now, response, after) && k in after
    ensures || (k in before && after[k] == before[k])
            || (k == Key(query) && CacheTtl(c, s, response).Some? &&
                after[k] == Entry(Scrub(c, response), now, now + CacheTtl(c, s, response).value))
  {
    hide CacheTtl, Scrub, Key;
  }

  lemma StoreKeepsEntries(cfg: Config, states: seq<State>, events: seq<Event>, i: nat)
    requires i < |events| < |states| && Inv(cfg, states, events, i)
    requires events[i].Store? && Step(cfg, states[i], events[i], states[i + 1])
    ensures EntriesExplained(cfg, states, events, i + 1, states[i + 1])
    ensures |states[i + 1].entries| <= Max(1, cfg.settings.maxEntries)
  {
    hide Inserted, CacheTtl, Scrub, Key, RepliedAt;
    var s, t := states[i], states[i + 1];
    var c := s.calls[events[i].id];
    InsertedCapacity(cfg.codec, cfg.settings, s.entries, c.query, c.began, c.response, t.entries);
    assert CallExplained(states, events, i, s.clock, events[i].id, c);
    var j: nat :| j < i && OwnReply(states, events, j, events[i].id, c);
    forall k | k in t.entries
      ensures Explained(cfg, states, events, i + 1, k, t.entries[k]) && t.entries[k].storedAt <= t.clock
    {
      InsertedFrom(cfg.codec, cfg.settings, s.entries, c.query, c.began, c.response, t.entries, k);
      if k in s.entries && t.entries[k] == s.entries[k] {
        ExplainedLater(cfg, states, events, i, k, s.entries[k]);
      } else {
        assert StoredBy(cfg, k, t.entries[k], c);
        assert j < i + 1 && RepliedAt(states, events, j, c);
      }
    }
  }

  lemma StepKeepsCalls(cfg: Config, states: seq<State>, events: seq<Event>, i: nat, id: nat)
    requires i < |events| < |states| && Inv(cfg, states, events, i)
    requires Step(cfg, states[i], events[i], states[i + 1]) && id in states[i + 1].calls
    ensures CallExplained(states, events, i + 1, states[i + 1].clock, id, states[i + 1].calls[id])
  {
    hide Inserted, Found;
    var s, t, e := states[i], states[i + 1], events[i];
    if id in s.calls {
      CallExplainedLater(states, events, i, s.clock, t.clock, id, s.calls[id]);
      if e.UpstreamReply? && e.id == id {
        assert OwnReply(states, events, i, id, t.calls[id]);
      }
    }
  }

  lemma StepKeepsInv(cfg: Config, states: seq<State>, events: seq<Event>, i: nat)
    requires i < |events| < |states| && Inv(cfg, states, events, i)
    requires Step(cfg, states[i], events[i], states[i + 1])
    ensures Inv(cfg, states, events, i + 1)
  {
    hide Inserted, Found, Explained, CallExplained;
    var s, t, e := states[i], states[i + 1], events[i];
    forall id | id in t.calls
      ensures CallExplained(states, events, i + 1, t.clock, id, t.calls[id])
    {
      StepKeepsCalls(cfg, states, events, i, id);
    }
    if e.Store? {
      StoreKeepsEntries(cfg, states, events, i);
    } else {
      assert t.entries == s.entries;
      forall k | k in s.entries
        ensures Explained(cfg, states, events, i + 1, k, s.entries[k])
      {
        ExplainedLater(cfg, states, events, i, k, s.entries[k]);
      }
    }
  }

  /** The invariant holds at every state of every run. */
  lemma {:induction false} RunKeepsInv(cfg: Config, states: seq<State>, events: seq<Event>, i: nat)
    requires Run(cfg, states, events) && i < |states|
    ensures Inv(cfg, states, events, i)
  {
    hide Inv, Step;
    if i == 0 {
      InitInv(cfg, states, events);
    } else {
      RunKeepsInv(cfg, states, events, i - 1);
      StepKeepsInv(cfg, states, events, i - 1);
    }
  }

  lemma InitInv(cfg: Config, states: seq<State>, events: seq<Event>)
    requires |states| > 0 && states[0] == Init
    ensures Inv(cfg, states, events, 0)
  {
  }

  /** Capacity in every reachable state. */
  lemma CapacityAlways(cfg: Config, states: seq<State>, events: seq<Event>, i: nat)
    requires Run(cfg, states, events) && i < |states|
    ensures |states[i].entries| <= Max(1, cfg.settings.maxEntries)
  {
    RunKeepsInv(cfg, states, events, i);
  }

  /**
   An insertion drops an entry only from a full cache; an entry that had not expired when the
   inserting call began only if removing the expired ones did not make room, and then no surviving
   entry expires before the dropped one.
   */
  lemma LiveEntriesDropOnlyUnderPressure(cfg: Config, s: State, e: Event, t: State, k: Bytes)
    requires Step(cfg, s, e, t) && k in s.entries && k !in t.entries
    ensures e.Store? && e.id in s.calls && |s.entries| >= cfg.settings.maxEntries
    ensures var c := s.calls[e.id];
            s.entries[k].expiresAt > c.began ==>
              && LiveCount(s.entries, c.began) >= cfg.settings.maxEntries
              && forall k' :: k' in t.entries && k' != Key(c.query) ==>
                   k' in s.entries && s.entries[k].expiresAt <= s.entries[k'].expiresAt
  {
    hide CacheTtl, Scrub, Key, Found;
    var c := s.calls[e.id];
    UnexpiredCount(s.entries, c.began);
    if s.entries[k].expiresAt > c.began {
      assert k in Unexpired(s.entries, c.began);
    }
  }

  /** An insertion into a full cache leaves no other entry that had expired when its call began. */
  lemma ExpiredEntriesGoFirst(cfg: Config, s: State, e: Event, t: State, k: Bytes)
    requires Step(cfg, s, e, t) && e.Store? && |s.entries| >= cfg.settings.maxEntries && k in t.entries
    requires CacheTtl(cfg.codec, cfg.settings, s.calls[e.id].response).Some?
    ensures var c := s.calls[e.id];
            Key(c.query) == k || (k in s.entries && t.entries[k] == s.entries[k] && c.began < s.entries[k].expiresAt)
  {
    hide CacheTtl, Scrub, Key, Found;
    var c := s.calls[e.id];
    assert forall x :: x in Unexpired(s.entries, c.began) ==> x in s.entries && c.began < s.entries[x].expiresAt;
  }

  /** If dropping expired entries makes no room, half the capacity survives beside the new entry. */
  lemma HalfSurvivesPressure(cfg: Config, s: State, e: Event, t: State)
    requires Step(cfg, s, e, t) && e.Store? && CacheTtl(cfg.codec, cfg.settings, s.calls[e.id].response).Some?
    requires LiveCount(s.entries, s.calls[e.id].began) >= cfg.settings.maxEntries
    ensures var half := cfg.settings.maxEntries / 2; half <= |t.entries| <= half + 1
  {
    hide CacheTtl, Scrub, Key, Found, Evicted, LiveCount;
    var c := s.calls[e.id];
    var ttl := CacheTtl(cfg.codec, cfg.settings, c.response).value;
    var entry := Entry(Scrub(cfg.codec, c.response), c.began, c.began + ttl);
    var kept :| Evicted(cfg.settings, s.entries, c.began, kept) && t.entries == kept[Key(c.query) := entry];
    HalfIsKept(cfg.settings, s.entries, c.began, kept);
    OneMoreKey(kept, Key(c.query), entry);
    OneMoreIsMore(kept, Key(c.query), entry);
  }

  lemma HalfIsKept(s: Settings, before: Entries, now: nat, kept: Entries)
    requires Evicted(s, before, now, kept) && LiveCount(before, now) >= s.maxEntries
    ensures |kept| == s.maxEntries / 2
  {
    UnexpiredCount(before, now);
    UnexpiredIsFewer(before, now);
  }

  lemma OneMoreIsMore(kept: Entries, k: Bytes, entry: Entry)
    ensures |kept| <= |kept[k := entry]|
  {
    SubsetIsFewer(kept.Keys, kept[k := entry].Keys);
    assert |kept.Keys| == |kept| && |kept[k := entry].Keys| == |kept[k := entry]|;
  }

  lemma UnexpiredIsFewer(entries: Entries, now: nat)
    ensures |Unexpired(entries, now)| <= |entries|
  {
    assert Unexpired(entries, now).Keys <= entries.Keys;
    SubsetIsFewer(Unexpired(entries, now).Keys, entries.Keys);
    assert |Unexpired(entries, now).Keys| == |Unexpired(entries, now)| && |entries.Keys| == |entries|;
  }

  lemma {:induction false} SubsetIsFewer(a: set<Bytes>, b: set<Bytes>)
    requires a <= b
    ensures |a| <= |b|
  {
    if a != {} {
      var x :| x in a;
      SubsetIsFewer(a - {x}, b - {x});
    }
  }

  /** The entry under a key survives one step unless an insertion replaces or drops it. */
  lemma StepEntry(cfg: Config, s: State, e: Event, t: State, k: Bytes)
    requires Step(cfg, s, e, t) && k in s.entries
    ensures || (k in t.entries && t.entries[k] == s.entries[k])
            || (&& e.Store? && e.id in s.calls
                && (var d := s.calls[e.id];
                    || Key(d.query) == k
                    || s.entries[k].expiresAt <= d.began
                    || LiveCount(s.entries, d.began) >= cfg.settings.maxEntries))
  {
    hide Inserted, Found, Key, LiveCount;
    if k !in t.entries {
      LiveEntriesDropOnlyUnderPressure(cfg, s, e, t, k);
    } else if e.Store? {
      var d := s.calls[e.id];
      InsertedFrom(cfg.codec, cfg.settings, s.entries, d.query, d.began, d.response, t.entries, k);
    }
  }

  /** An entry that is gone or changed was replaced or dropped by some insertion in between. */
  lemma {:induction false} LostEntry(cfg: Config, states: seq<State>, events: seq<Event>, i: nat, j: nat, k: Bytes)
      returns (n: nat)
    requires Run(cfg, states, events) && i <= j < |states| && k in states[i].entries
    requires !(k in states[j].entries && states[j].entries[k] == states[i].entries[k])
    ensures i <= n < j && events[n].Store? && events[n].id in states[n].calls
    ensures var d := states[n].calls[events[n].id];
            || Key(d.query) == k
            || states[i].entries[k].expiresAt <= d.began
            || LiveCount(states[n].entries, d.began) >= cfg.settings.maxEntries
    decreases j - i
  {
    hide Step, Key, LiveCount;
    StepEntry(cfg, states[i], events[i], states[i + 1], k);
    if k in states[i + 1].entries && states[i + 1].entries[k] == states[i].entries[k] {
      n := LostEntry(cfg, states, events, i + 1, j, k);
    } else {
      n := i;
    }
  }

  lemma StoredNow(cfg: Config, states: seq<State>, events: seq<Event>, i: nat)
    requires Run(cfg, states, events) && i < |events| && events[i].Store?
    ensures i + 1 < |states| && events[i].id in states[i].calls
    ensures var c := states[i].calls[events[i].id];
            c.Answered? && (var ttl := CacheTtl(cfg.codec, cfg.settings, c.response);
            ttl.Some? ==> Key(c.query) in states[i + 1].entries &&
                          states[i + 1].entries[Key(c.query)].expiresAt == c.began + ttl.value)
  {
    hide CacheTtl, Scrub, Key, Evicted;
    assert Step(cfg, states[i], events[i], states[i + 1]);
  }

  lemma MissedKey(cfg: Config, states: seq<State>, events: seq<Event>, j: nat)
    requires Run(cfg, states, events) && j < |events| && events[j].Miss?
    ensures j < |states| && events[j].id in states[j].calls
    ensures var m := states[j].calls[events[j].id]; var k := Key(m.query);
            k in states[j].entries ==> states[j].entries[k].expiresAt <= m.began
  {
    hide Rehydrate, Key;
    assert Step(cfg, states[j], events[j], states[j + 1]);
  }

  /**
   Why a query can miss although a reply to it was stored (step `i`) and had not expired when the
   query began: some insertion in between (step `n`) was for the same query, or began after the
   entry's expiry, or found no room even without the entries that had expired when it began.
   */
  lemma MissIsExplained(cfg: Config, states: seq<State>, events: seq<Event>, i: nat, j: nat) returns (n: nat)
    requires Run(cfg, states, events) && i < j < |events| && events[i].Store? && events[j].Miss?
    requires events[i].id in states[i].calls && events[j].id in states[j].calls
    requires var c, m := states[i].calls[events[i].id], states[j].calls[events[j].id];
             && c.Answered? && SameButId(c.query, m.query)
             && (var ttl := CacheTtl(cfg.codec, cfg.settings, c.response); ttl.Some? && m.began < c.began + ttl.value)
    ensures i < n < j && events[n].Store? && events[n].id in states[n].calls
    ensures var c, d := states[i].calls[events[i].id], states[n].calls[events[n].id];
            || SameButId(d.query, c.query)
            || c.began + CacheTtl(cfg.codec, cfg.settings, c.response).value <= d.began
            || LiveCount(states[n].entries, d.began) >= cfg.settings.maxEntries
  {
    hide Step, Key, LiveCount, CacheTtl, SameButId;
    var c, m := states[i].calls[events[i].id], states[j].calls[events[j].id];
    StoredNow(cfg, states, events, i);
    MissedKey(cfg, states, events, j);
    KeysIdentifyQueries(c.query, m.query);
    n := LostEntry(cfg, states, events, i + 1, j, Key(c.query));
    KeysIdentifyQueries(states[n].calls[events[n].id].query, c.query);
  }

  /** Every stored lifetime is positive and, when the bounds validate, within them. */
  lemma LifetimesWithinBounds(cfg: Config, states: seq<State>, events: seq<Event>, i: nat, k: Bytes)
    requires Run(cfg, states, events) && i < |states| && k in states[i].entries
    ensures var e := states[i].entries[k]; var s := cfg.settings;
            && e.storedAt < e.expiresAt
            && (ValidBounds(s) && s.minTtl.Some? ==> s.minTtl.value <= e.expiresAt - e.storedAt)
            && (s.maxTtl.Some? ==> e.expiresAt - e.storedAt <= s.maxTtl.value)
  {
    RunKeepsInv(cfg, states, events, i);
    var _, _ := Explanation(cfg, states, events, i, k);
  }

  /**
   `answer`, served at `clock` to `query`, is the reply that call `c` received: a reply to a query
   equal to this one but for its identifier, untruncated, NOERROR or NXDOMAIN, and changed only by
   taking the client's identifier and lowering each TTL by the whole seconds since `c` began, down
   to 0.
   */
  ghost predicate IsAgedReply(cfg: Config, query: Bytes, c: Call, clock: nat, answer: Bytes) {
    && c.Answered? && c.began <= c.receivedAt <= clock
    && SameButId(c.query, query)
    && CacheTtl(cfg.codec, cfg.settings, c.response).Some?
    && (var reply, served := cfg.codec.decode(c.response), cfg.codec.decode(answer);
        && reply.Some? && !reply.value.truncated && reply.value.code in {NoError, NXDomain}
        && served.Some? && ClientId(query, served.value.id) && AgedCopy(served.value, reply.value, clock - c.began))
  }

  lemma StoredIsAgedReply(cfg: Config, query: Bytes, entry: Entry, c: Call, clock: nat)
    requires Faithful(cfg.codec) && StoredBy(cfg, Key(query), entry, c) && c.began <= c.receivedAt <= clock
    ensures var answer := Rehydrate(cfg.codec, entry.response, Max(0, clock - entry.storedAt), QueryId(query));
            && IsAgedReply(cfg, query, c, clock, answer)
            && cfg.codec.decode(answer) ==
               Some(Aged(cfg.codec.decode(c.response).value, AgeSeconds(clock - c.began), QueryId(query)))
  {
    hide Rehydrate, Scrub, Aged, Key, CacheTtl, AgeSeconds, Faithful, SameButId, QueryId, TruncatedBit, AgedCopy, ClientId;
    KeysIdentifyQueries(c.query, query);
    CacheableReply(cfg, c.response);
    RehydratedScrub(cfg.codec, c.response, clock - c.began, QueryId(query));
    QueryIdIsClientId(query);
  }

  /** In every run, every hit is an aged copy of an earlier upstream reply, unexpired when the call began. */
  lemma HitIsAnEarlierReply(cfg: Config, states: seq<State>, events: seq<Event>, i: nat)
      returns (j: nat, c: Call)
    requires Run(cfg, states, events) && Faithful(cfg.codec)
    requires i < |events| && events[i].Hit?
    ensures j < i && RepliedAt(states, events, j, c)
    ensures i < |states| && events[i].id in states[i].calls
    ensures IsAgedReply(cfg, states[i].calls[events[i].id].query, c, states[i].clock, events[i].answer)
    ensures states[i].calls[events[i].id].began < c.began + CacheTtl(cfg.codec, cfg.settings, c.response).value
  {
    hide *;
    j, c := HitDecodes(cfg, states, events, i);
  }

  lemma HitDecodes(cfg: Config, states: seq<State>, events: seq<Event>, i: nat) returns (j: nat, c: Call)
    requires Run(cfg, states, events) && Faithful(cfg.codec)
    requires i < |events| && events[i].Hit?
    ensures j < i && RepliedAt(states, events, j, c)
    ensures i < |states| && events[i].id in states[i].calls
    ensures var call := states[i].calls[events[i].id];
            && IsAgedReply(cfg, call.query, c, states[i].clock, events[i].answer)
            && c.Answered? && c.began <= states[i].clock && cfg.codec.decode(c.response).Some?
            && CacheTtl(cfg.codec, cfg.settings, c.response).Some?
            && call.began < c.began + CacheTtl(cfg.codec, cfg.settings, c.response).value
            && cfg.codec.decode(events[i].answer) ==
               Some(Aged(cfg.codec.decode(c.response).value, AgeSeconds(states[i].clock - c.began), QueryId(call.query)))
  {
    hide *;
    HitFound(cfg, states, events, i);
    RunKeepsInv(cfg, states, events, i);
    var s := states[i];
    var query := s.calls[events[i].id].query;
    j, c := Explanation(cfg, states, events, i, Key(query));
    ClockGrows(cfg, states, events, j, i);
    StoredIsAgedReply(cfg, query, s.entries[Key(query)], c, s.clock);
    StoredExpiry(cfg, Key(query), s.entries[Key(query)], c);
    AgedReplyParts(cfg, query, c, s.clock, events[i].answer);
  }

  lemma StoredExpiry(cfg: Config, key: Bytes, entry: Entry, c: Call)
    requires StoredBy(cfg, key, entry, c)
    ensures CacheTtl(cfg.codec, cfg.settings, c.response).Some?
    ensures entry.expiresAt == c.began + CacheTtl(cfg.codec, cfg.settings, c.response).value
  {
    hide CacheTtl, Scrub, Key;
  }

  lemma AgedReplyParts(cfg: Config, query: Bytes, c: Call, clock: nat, answer: Bytes)
    requires IsAgedReply(cfg, query, c, clock, answer)
    ensures c.Answered? && c.began <= c.receivedAt <= clock && cfg.codec.decode(c.response).Some?
  {
    hide CacheTtl, SameButId, AgedCopy, ClientId;
  }

  /**
   Every call that returns a reply (it hits, or it stores what it was sent) returns its own
   upstream's reply unchanged, or an aged copy of an earlier upstream reply to the same query.
   */
  lemma RepliesAreUpstreamReplies(cfg: Config, states: seq<State>, events: seq<Event>, i: nat)
      returns (j: nat, c: Call)
    requires Run(cfg, states, events) && Faithful(cfg.codec)
    requires i < |events| && (events[i].Hit? || events[i].Store?)
    ensures j < i && RepliedAt(states, events, j, c)
    ensures i < |states| && events[i].id in states[i].calls
    ensures var query := states[i].calls[events[i].id].query;
            if events[i].Store? then events[j].id == events[i].id && c.query == query && events[i].answer == c.response
            else IsAgedReply(cfg, query, c, states[i].clock, events[i].answer)
  {
    if events[i].Hit? {
      j, c := HitIsAnEarlierReply(cfg, states, events, i);
    } else {
      j, c := StoredReply(cfg, states, events, i);
    }
  }

  lemma StoredReply(cfg: Config, states: seq<State>, events: seq<Event>, i: nat) returns (j: nat, c: Call)
    requires Run(cfg, states, events) && i < |events| && events[i].Store?
    ensures j < i && RepliedAt(states, events, j, c) && events[j].id == events[i].id
    ensures i < |states| && events[i].id in states[i].calls && states[i].calls[events[i].id] == c
    ensures events[i].answer == c.response
  {
    hide Inserted, RepliedAt, EntriesExplained;
    assert Step(cfg, states[i], events[i], states[i + 1]);
    RunKeepsInv(cfg, states, events, i);
    c := states[i].calls[events[i].id];
    assert CallExplained(states, events, i, states[i].clock, events[i].id, c);
    j :| j < i && OwnReply(states, events, j, events[i].id, c);
  }

  lemma HitFound(cfg: Config, states: seq<State>, events: seq<Event>, i: nat)
    requires Run(cfg, states, events) && i < |events| && events[i].Hit?
    ensures i < |states| && events[i].id in states[i].calls
    ensures var s := states[i]; var query := s.calls[events[i].id].query;
            && Key(query) in s.entries && s.calls[events[i].id].began < s.entries[Key(query)].expiresAt
            && events[i].answer == Rehydrate(cfg.codec, s.entries[Key(query)].response,
                                             Max(0, s.clock - s.entries[Key(query)].storedAt), QueryId(query))
  {
    assert Step(cfg, states[i], events[i], states[i + 1]);
  }

  lemma Explanation(cfg: Config, states: seq<State>, events: seq<Event>, i: nat, k: Bytes) returns (j: nat, c: Call)
    requires i < |states| && Inv(cfg, states, events, i) && k in states[i].entries
    ensures j < i && RepliedAt(states, events, j, c) && StoredBy(cfg, k, states[i].entries[k], c)
    ensures states[i].entries[k].storedAt <= states[i].clock && states[j].clock == c.receivedAt && c.Answered? && c.began <= c.receivedAt
  {
    hide StoredBy;
    assert Explained(cfg, states, events, i, k, states[i].entries[k]);
    j, c :| j < i && RepliedAt(states, events, j, c) && StoredBy(cfg, k, states[i].entries[k], c);
  }

  lemma CacheableReply(cfg: Config, response: Bytes)
    requires Faithful(cfg.codec) && CacheTtl(cfg.codec, cfg.settings, response).Some?
    ensures var m := cfg.codec.decode(response);
            m.Some? && !m.value.truncated && m.value.code in {NoError, NXDomain}
  {
  }

  lemma {:induction false} ClockGrows(cfg: Config, states: seq<State>, events: seq<Event>, j: nat, i: nat)
    requires Run(cfg, states, events) && j <= i < |states|
    ensures states[j].clock <= states[i].clock
    decreases i - j
  {
    hide Inserted, Found;
    if j < i {
      ClockGrows(cfg, states, events, j, i - 1);
      assert Step(cfg, states[i - 1], events[i - 1], states[i]);
    }
  }

  /** No record is served with more time than it had left. */
  ghost predicate WithinTimeLeft(served: seq<Record>, original: seq<Record>, elapsed: nat) {
    |served| == |original| && forall n :: 0 <= n < |served| ==> served[n].ttl <= Max(0, original[n].ttl - elapsed)
  }

  lemma LoweredWithinTimeLeft(records: seq<Record>, began: nat, receivedAt: nat, servedAt: nat)
    requires began <= receivedAt <= servedAt
    ensures WithinTimeLeft(LowerTtls(records, AgeSeconds(servedAt - began)), records, (servedAt - receivedAt) / NANOS)
  {
    forall n | 0 <= n < |records|
      ensures SaturatingSub(records[n].ttl, AgeSeconds(servedAt - began)) <=
              Max(0, records[n].ttl - (servedAt - receivedAt) / NANOS)
    {
      ServedTtlIsConservative(records[n].ttl, began, receivedAt, servedAt);
    }
  }

  /**
   Every record of a hit has at most the time its reply had left since receipt; and while the
   entry is live, without `min_ttl`, no answer of a NOERROR reply is served with TTL 0.
   */
  lemma HitTtlsAreSound(cfg: Config, states: seq<State>, events: seq<Event>, i: nat) returns (j: nat, c: Call)
    requires Run(cfg, states, events) && Faithful(cfg.codec)
    requires i < |events| && events[i].Hit?
    ensures j < i && RepliedAt(states, events, j, c) && c.receivedAt <= states[i].clock
    ensures cfg.codec.decode(c.response).Some? && CacheTtl(cfg.codec, cfg.settings, c.response).Some?
    ensures cfg.codec.decode(events[i].answer).Some?
    ensures var served := cfg.codec.decode(events[i].answer).value;
            var original := cfg.codec.decode(c.response).value;
            var elapsed := (states[i].clock - c.receivedAt) / NANOS;
            && WithinTimeLeft(served.answers, original.answers, elapsed)
            && WithinTimeLeft(served.authorities, original.authorities, elapsed)
            && WithinTimeLeft(served.additionals, original.additionals, elapsed)
            && (cfg.settings.minTtl.None? && original.code == NoError &&
                states[i].clock < c.began + CacheTtl(cfg.codec, cfg.settings, c.response).value ==>
                  forall n :: 0 <= n < |served.answers| ==> served.answers[n].ttl > 0)
  {
    hide Run, Step, CacheTtl, WithinTimeLeft, LowerTtls, AgeSeconds, IsAgedReply;
    j, c := HitDecodes(cfg, states, events, i);
    AgedReplyParts(cfg, states[i].calls[events[i].id].query, c, states[i].clock, events[i].answer);
    var m := cfg.codec.decode(c.response).value;
    var clock := states[i].clock;
    LoweredWithinTimeLeft(m.answers, c.began, c.receivedAt, clock);
    LoweredWithinTimeLeft(m.authorities, c.began, c.receivedAt, clock);
    LoweredWithinTimeLeft(m.additionals, c.began, c.receivedAt, clock);
    if cfg.settings.minTtl.None? && m.code == NoError &&
       clock < c.began + CacheTtl(cfg.codec, cfg.settings, c.response).value {
      NoErrorStaysPositive(cfg.codec, cfg.settings, c.response);
      PositiveNow(m, CacheTtl(cfg.codec, cfg.settings, c.response).value, clock - c.began);
    }
  }

  lemma PositiveNow(m: Message, lifetime: nat, age: nat)
    requires PositiveUntilExpiry(m, lifetime) && age < lifetime
    ensures forall n :: 0 <= n < |m.answers| ==> LowerTtls(m.answers, AgeSeconds(age))[n].ttl > 0
    ensures |LowerTtls(m.answers, AgeSeconds(age))| == |m.answers|
  {
    assert Aged(m, AgeSeconds(age), 0).answers == LowerTtls(m.answers, AgeSeconds(age));
  }
}
