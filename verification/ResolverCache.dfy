/**
 The TTL-bounded response cache in front of an upstream resolver: the pure helpers, the two
 critical sections of `resolve` (lookup under the read lock, insertion under the write lock)
 as methods of a class, and the exact effect of each.
 */
module ResolverCache {
  import opened Basics
  import opened DnsMessage
  import opened StableSort

  datatype Settings = Settings(minTtl: Option<nat>, maxTtl: Option<nat>, maxEntries: nat)

  datatype Entry = Entry(response: Bytes, storedAt: nat, expiresAt: nat)

  type Entries = map<Bytes, Entry>

  // ----- Lifetimes -----

  /** `validate`: configured bounds must not cross. */
  predicate ValidBounds(s: Settings) {
    s.minTtl.Some? && s.maxTtl.Some? ==> s.minTtl.value <= s.maxTtl.value
  }

  function ClampTtl(s: Settings, ttl: nat): (r: Option<nat>)
    ensures r.Some? ==> r.value > 0
    ensures r.Some? && ValidBounds(s) && s.minTtl.Some? ==> r.value >= s.minTtl.value
    ensures r.Some? && s.maxTtl.Some? ==> r.value <= s.maxTtl.value
    ensures r.Some? ==> r.value == ttl || s.minTtl == Some(r.value) || s.maxTtl == Some(r.value)
    ensures ttl > 0 && (s.minTtl.Some? ==> s.minTtl.value <= ttl) && (s.maxTtl.Some? ==> ttl <= s.maxTtl.value) ==>
              r == Some(ttl)
    ensures r.Some? && s.minTtl.None? ==> r.value <= ttl
    ensures r.None? <==> s.maxTtl == Some(0) || (ttl == 0 && (s.minTtl.None? || s.minTtl.value == 0))
  {
    var t := if s.minTtl.Some? then Max(ttl, s.minTtl.value) else ttl;
    var t' := if s.maxTtl.Some? then Min(t, s.maxTtl.value) else t;
    if t' == 0 then None else Some(t')
  }

  function MinRecordTtl(records: seq<Record>): (r: Option<nat>)
    ensures r.None? <==> |records| == 0
    ensures r.Some? ==> forall i :: 0 <= i < |records| ==> r.value <= records[i].ttl
    ensures r.Some? ==> exists i :: 0 <= i < |records| && r.value == records[i].ttl
  {
    if |records| == 0 then None
    else
      var rest := MinRecordTtl(records[1..]);
      if rest.None? then Some(records[0].ttl) else Some(Min(records[0].ttl, rest.value))
  }

  /** Section 5 of RFC 2308: the smaller of the first SOA record's TTL and its MINIMUM field. */
  function NegativeTtl(authorities: seq<Record>): (r: Option<nat>)
    ensures r.None? <==> forall i :: 0 <= i < |authorities| ==> !authorities[i].data.SoaData?
    ensures r.Some? ==> exists i :: 0 <= i < |authorities| && authorities[i].data.SoaData? &&
                                    (forall j :: 0 <= j < i ==> !authorities[j].data.SoaData?) &&
                                    r.value == Min(authorities[i].ttl, authorities[i].data.minimum)
  {
    if |authorities| == 0 then None
    else if authorities[0].data.SoaData? then Some(Min(authorities[0].ttl, authorities[0].data.minimum))
    else
      var r := NegativeTtl(authorities[1..]);
      assert r.Some? ==> exists i :: 0 <= i < |authorities[1..]| && authorities[1..][i].data.SoaData? &&
                                     (forall j :: 0 <= j < i ==> !authorities[1..][j].data.SoaData?) &&
                                     r.value == Min(authorities[1..][i].ttl, authorities[1..][i].data.minimum) &&
                                     authorities[i + 1] == authorities[1..][i];
      r
  }

  /** Seconds a decoded reply may be cached for, before clamping. */
  function ReplyTtl(m: Message): Option<nat> {
    match m.code
    case NoError =>
      var t := MinRecordTtl(m.answers);
      if t.Some? then t else NegativeTtl(m.authorities)
    case NXDomain => NegativeTtl(m.authorities)
    case _ => None
  }

  /** `cache_ttl`, in nanoseconds. */
  function CacheTtl(c: Codec, s: Settings, response: Bytes): (r: Option<nat>)
    ensures r.Some? ==> r.value > 0 && !TruncatedBit(response) && c.decode(response).Some?
    ensures r.Some? ==> c.decode(response).value.code in {NoError, NXDomain}
  {
    if TruncatedBit(response) then None
    else
      var m := c.decode(response);
      if m.None? then None
      else
        var ttl := ReplyTtl(m.value);
        if ttl.None? then None else ClampTtl(s, ttl.value * NANOS)
  }

  /** `secs` is the smallest TTL among the records. */
  ghost predicate SmallestTtl(records: seq<Record>, secs: nat) {
    && (forall i :: 0 <= i < |records| ==> secs <= records[i].ttl)
    && exists i :: 0 <= i < |records| && secs == records[i].ttl
  }

  /** `secs` is the bound that the first SOA record sets: its TTL or its MINIMUM, whichever is less. */
  ghost predicate SoaBound(records: seq<Record>, secs: nat) {
    exists i :: 0 <= i < |records| && records[i].data.SoaData? && secs == Min(records[i].ttl, records[i].data.minimum) &&
                forall j :: 0 <= j < i ==> !records[j].data.SoaData?
  }

  /** How long a reply is good for: answers by their smallest TTL, denials by their SOA. */
  ghost predicate GoodFor(m: Message, secs: nat) {
    if m.code == NXDomain || (m.code == NoError && m.answers == []) then SoaBound(m.authorities, secs)
    else m.code == NoError && SmallestTtl(m.answers, secs)
  }

  lemma ReplyTtlIsGoodFor(m: Message, secs: nat)
    ensures ReplyTtl(m) == Some(secs) <==> GoodFor(m, secs)
  {
  }

  /** A reply is cached for `lifetime` exactly when it is intact and that is its clamped good time. */
  lemma CachedExactlyWhen(c: Codec, s: Settings, response: Bytes, lifetime: nat)
    ensures CacheTtl(c, s, response) == Some(lifetime) <==>
            && !TruncatedBit(response) && c.decode(response).Some?
            && exists secs: nat :: GoodFor(c.decode(response).value, secs) && ClampTtl(s, secs * NANOS) == Some(lifetime)
  {
    hide GoodFor, ReplyTtl, ClampTtl;
    if c.decode(response).Some? {
      var m := c.decode(response).value;
      forall secs: nat
        ensures ReplyTtl(m) == Some(secs) <==> GoodFor(m, secs)
      {
        ReplyTtlIsGoodFor(m, secs);
      }
    }
  }

  // ----- Keys and identifiers -----

  /** `normalize_cache_key`: the query with its identifier zeroed. */
  function Key(query: Bytes): Bytes {
    if |query| >= 2 then query[0 := 0][1 := 0] else query
  }

  /** Equal in everything but the two identifier octets. */
  predicate SameButId(p: Bytes, q: Bytes) {
    |p| == |q| && (forall i :: 2 <= i < |p| ==> p[i] == q[i]) && (|p| < 2 ==> p == q)
  }

  lemma KeysIdentifyQueries(p: Bytes, q: Bytes)
    ensures Key(p) == Key(q) <==> SameButId(p, q)
  {
    if Key(p) == Key(q) {
      assert |Key(p)| == |p| && |Key(q)| == |q|;
      if |p| >= 2 {
        forall i | 2 <= i < |p|
          ensures p[i] == q[i]
        {
          assert Key(p)[i] == p[i] && Key(q)[i] == q[i];
        }
      }
    }
    if SameButId(p, q) && |p| >= 2 {
      forall i | 0 <= i < |p|
        ensures Key(p)[i] == Key(q)[i]
      {
      }
    }
  }

  function SaturatingSub(a: u32, b: u32): u32 { if a >= b then a - b else 0 }

  function LowerTtls(records: seq<Record>, secs: u32): seq<Record> {
    seq(|records|, i requires 0 <= i < |records| => records[i].(ttl := SaturatingSub(records[i].ttl, secs)))
  }

  /** The message as a client receives it `secs` seconds later under its own identifier. */
  function Aged(m: Message, secs: u32, id: u16): Message {
    m.(id := id, answers := LowerTtls(m.answers, secs), authorities := LowerTtls(m.authorities, secs),
       additionals := LowerTtls(m.additionals, secs))
  }

  /** `scrub_response_id`. */
  function Scrub(c: Codec, response: Bytes): Bytes {
    var m := c.decode(response);
    if m.None? then response
    else
      var e := c.encode(m.value.(id := 0));
      if e.Some? then e.value else response
  }

  /** Whole seconds of an age, capped to 32 bits. */
  function AgeSeconds(age: nat): u32 { Min(age / NANOS, 0xFFFF_FFFF) }

  /** `rehydrate_cached_response`. */
  function Rehydrate(c: Codec, response: Bytes, age: nat, id: u16): Bytes {
    var m := c.decode(response);
    if m.None? then response
    else
      var e := c.encode(Aged(m.value, AgeSeconds(age), id));
      if e.Some? then e.value else response
  }

  /** The whole seconds in an age, as far as 32 bits can hold them. */
  predicate WholeSeconds(age: nat, secs: nat) {
    && secs <= 0xFFFF_FFFF && secs * 1_000_000_000 <= age
    && (age < (secs + 1) * 1_000_000_000 || secs == 0xFFFF_FFFF)
  }

  /** The same records, each with exactly `secs` less to live, or none at all. */
  predicate AgedBy(served: seq<Record>, original: seq<Record>, secs: nat) {
    && |served| == |original|
    && forall n :: 0 <= n < |served| ==>
         && served[n].name == original[n].name && served[n].data == original[n].data
         && if secs <= original[n].ttl then served[n].ttl + secs == original[n].ttl else served[n].ttl == 0
  }

  /** The same message but for its identifier and `age` worth of TTLs. */
  ghost predicate AgedCopy(served: Message, original: Message, age: nat) {
    && served.(id := 0, answers := [], authorities := [], additionals := []) ==
       original.(id := 0, answers := [], authorities := [], additionals := [])
    && exists secs: nat :: WholeSeconds(age, secs) && AgedBy(served.answers, original.answers, secs) &&
         AgedBy(served.authorities, original.authorities, secs) && AgedBy(served.additionals, original.additionals, secs)
  }

  lemma AgedIsAgedCopy(m: Message, age: nat, id: u16)
    ensures Aged(m, AgeSeconds(age), id).id == id && AgedCopy(Aged(m, AgeSeconds(age), id), m, age)
  {
    var secs := AgeSeconds(age);
    AgeInSeconds(age);
    LoweredIsAged(m.answers, secs);
    LoweredIsAged(m.authorities, secs);
    LoweredIsAged(m.additionals, secs);
    hide AgeSeconds, LowerTtls, AgedBy, WholeSeconds;
    assert WholeSeconds(age, secs);
  }

  lemma AgeInSeconds(age: nat)
    ensures WholeSeconds(age, AgeSeconds(age))
  {
  }

  lemma LoweredIsAged(records: seq<Record>, secs: u32)
    ensures AgedBy(LowerTtls(records, secs), records, secs)
  {
  }

  /** The identifier a client put in its query; 0 if the query is too short to hold one. */
  predicate ClientId(query: Bytes, id: int) {
    if |query| >= 2 then id == query[0] as int * 256 + query[1] as int else id == 0
  }

  lemma QueryIdIsClientId(query: Bytes)
    ensures ClientId(query, QueryId(query))
  {
  }

  lemma LoweringKeepsRecords(records: seq<Record>, secs: u32)
    ensures Untimed(LowerTtls(records, secs)) == Untimed(records)
  {
  }

  /**
   What is stored of a reply carries identifier 0; rehydrated, it decodes to the reply under the
   given identifier, with each TTL lowered by the whole seconds of its age, down to 0.
   */
  lemma RehydratedScrub(c: Codec, response: Bytes, age: nat, id: u16)
    requires Faithful(c) && c.decode(response).Some?
    ensures c.decode(Scrub(c, response)) == Some(c.decode(response).value.(id := 0))
    ensures c.decode(Rehydrate(c, Scrub(c, response), age, id)) ==
            Some(Aged(c.decode(response).value, AgeSeconds(age), id))
    ensures var served := c.decode(Rehydrate(c, Scrub(c, response), age, id)).value;
            served.id == id && AgedCopy(served, c.decode(response).value, age)
  {
    AgedIsAgedCopy(c.decode(response).value, age, id);
    RehydratedDecodes(c, response, age, id);
    hide AgedCopy, Scrub, Rehydrate, Aged, AgeSeconds;
  }

  lemma RehydrateDecodes(c: Codec, response: Bytes, age: nat, query: Bytes)
    requires Faithful(c) && c.decode(response).Some?
    ensures var served := c.decode(Rehydrate(c, response, age, QueryId(query)));
            served.Some? && ClientId(query, served.value.id) && AgedCopy(served.value, c.decode(response).value, age)
  {
    var m, secs, id := c.decode(response).value, AgeSeconds(age), QueryId(query);
    LoweringKeepsRecords(m.answers, secs);
    LoweringKeepsRecords(m.authorities, secs);
    LoweringKeepsRecords(m.additionals, secs);
    Reencodes(c, response, Aged(m, secs, id));
    AgedIsAgedCopy(m, age, id);
    QueryIdIsClientId(query);
    hide AgedCopy, Aged, AgeSeconds, QueryId, ClientId, Faithful;
  }

  lemma RehydratedDecodes(c: Codec, response: Bytes, age: nat, id: u16)
    requires Faithful(c) && c.decode(response).Some?
    ensures c.decode(Scrub(c, response)) == Some(c.decode(response).value.(id := 0))
    ensures c.decode(Rehydrate(c, Scrub(c, response), age, id)) ==
            Some(Aged(c.decode(response).value, AgeSeconds(age), id))
  {
    var m := c.decode(response).value;
    var m0 := m.(id := 0);
    Reencodes(c, response, m0);
    var secs := AgeSeconds(age);
    LoweringKeepsRecords(m.answers, secs);
    LoweringKeepsRecords(m.authorities, secs);
    LoweringKeepsRecords(m.additionals, secs);
    Reencodes(c, Scrub(c, response), Aged(m0, secs, id));
  }

  // ----- Eviction -----

  function Unexpired(entries: Entries, now: nat): Entries {
    map k | k in entries && entries[k].expiresAt > now :: entries[k]
  }

  /**
   What eviction must achieve before an insertion by a call that began at `now`: nothing while
   there is room; then drop what had expired; and only if that is not enough, keep half the
   capacity, giving up no entry that expires later than one it keeps.
   */
  ghost predicate Evicted(s: Settings, before: Entries, now: nat, after: Entries) {
    if |before| < s.maxEntries then after == before
    else if |Unexpired(before, now)| < s.maxEntries then after == Unexpired(before, now)
    else
      && after.Keys <= Unexpired(before, now).Keys
      && (forall k :: k in after ==> after[k] == before[k])
      && |after| == s.maxEntries / 2
      && forall gone, kept :: gone in Unexpired(before, now) && gone !in after && kept in after ==>
           before[gone].expiresAt <= after[kept].expiresAt
  }

  /** The cache after a reply has been offered to it. */
  ghost predicate Inserted(c: Codec, s: Settings, before: Entries, query: Bytes, now: nat, response: Bytes,
                           after: Entries)
  {
    var ttl := CacheTtl(c, s, response);
    if ttl.None? then after == before
    else
      exists kept: Entries :: Evicted(s, before, now, kept) &&
        after == kept[Key(query) := Entry(Scrub(c, response), now, now + ttl.value)]
  }

  /** The answer served from the cache, if any: `now` is read first, `later` after the expiry check. */
  function Found(c: Codec, entries: Entries, query: Bytes, now: nat, later: nat): Option<Bytes>
    requires now <= later
  {
    var k := Key(query);
    if k in entries && entries[k].expiresAt > now
    then Some(Rehydrate(c, entries[k].response, Max(0, later - entries[k].storedAt), QueryId(query)))
    else None
  }

  /** How many entries have not expired at `now`. */
  ghost function LiveCount(entries: Entries, now: nat): nat { |set k | k in entries && now < entries[k].expiresAt| }

  lemma UnexpiredCount(entries: Entries, now: nat)
    ensures |Unexpired(entries, now)| == LiveCount(entries, now)
  {
    assert Unexpired(entries, now).Keys == set k | k in entries && now < entries[k].expiresAt;
    assert |Unexpired(entries, now)| == |Unexpired(entries, now).Keys|;
  }

  ghost predicate Distinct<T>(s: seq<T>) {
    forall i, j :: 0 <= i < j < |s| ==> s[i] != s[j]
  }

  ghost function Elements<T>(s: seq<T>): set<T> { set x | x in s }

  lemma {:induction false} DistinctCardinality<T>(s: seq<T>)
    ensures |Elements(s)| <= |s|
    ensures Distinct(s) <==> |Elements(s)| == |s|
  {
    if |s| > 0 {
      var front, x := s[..|s| - 1], s[|s| - 1];
      DistinctCardinality(front);
      assert s == front + [x];
      assert Elements(s) == Elements(front) + {x};
      if Distinct(s) {
        assert x !in Elements(front);
      } else if Distinct(front) {
        assert x in Elements(front);
      }
    }
  }

  lemma EmptyDistinct<T>()
    ensures Distinct<T>([])
  {
  }

  lemma AppendDistinct<T>(s: seq<T>, x: T)
    requires Distinct(s) && x !in s
    ensures Distinct(s + [x]) && Elements(s + [x]) == Elements(s) + {x}
  {
  }

  lemma SortKeepsDistinct<T>(key: T -> int, s: seq<T>)
    requires Distinct(s)
    ensures var r := Sort(key, s); Distinct(r) && Elements(r) == Elements(s) && |r| == |s| && Sorted(key, r)
  {
    hide Sort, Sorted, Distinct;
    var r := Sort(key, s);
    SortPermutes(key, s);
    SortIsStable(key, s);
    SameElements(r, s);
    DistinctCardinality(s);
    DistinctCardinality(r);
  }

  lemma SameElements<T>(r: seq<T>, s: seq<T>)
    requires multiset(r) == multiset(s)
    ensures Elements(r) == Elements(s)
  {
    forall x
      ensures x in r <==> x in s
    {
      assert x in multiset(r) <==> x in multiset(s);
    }
  }

  /** In sorted order, what is cut from the front has keys no larger than what is left. */
  lemma PrefixIsSmallest<T>(key: T -> int, s: seq<T>, n: nat, x: T, y: T)
    requires Sorted(key, s) && n <= |s| && x in s[..n] && y in s && y !in s[..n]
    ensures key(x) <= key(y)
  {
    assert forall q :: 0 <= q < n ==> s[..n][q] == s[q];
    var i :| 0 <= i < n && s[..n][i] == x;
    var j :| 0 <= j < |s| && s[j] == y;
    assert s[i] == x;
  }

  /** The keys in the order a hash map happens to yield them. */
  method CollectKeys(entries: Entries) returns (keys: seq<Bytes>)
    ensures Distinct(keys) && Elements(keys) == entries.Keys && |keys| == |entries|
  {
    hide Distinct;
    keys := [];
    EmptyDistinct<Bytes>();
    var rest := entries.Keys;
    while rest != {}
      invariant Distinct(keys) && Elements(keys) + rest == entries.Keys && Elements(keys) !! rest
      decreases rest
    {
      var k :| k in rest;
      AppendDistinct(keys, k);
      keys := keys + [k];
      rest := rest - {k};
    }
    DistinctCardinality(keys);
  }

  /** Keeps the `maxEntries / 2` entries that expire last. */
  method EvictByExpiry(s: Settings, live: Entries) returns (entries: Entries)
    requires |live| >= s.maxEntries
    ensures entries.Keys <= live.Keys && (forall k :: k in entries ==> entries[k] == live[k])
    ensures |entries| == s.maxEntries / 2
    ensures forall gone, kept :: gone in live && gone !in entries && kept in entries ==>
              live[gone].expiresAt <= live[kept].expiresAt
  {
    var order := CollectKeys(live);
    var expiry := (k: Bytes) => if k in live then live[k].expiresAt else 0;
    SortKeepsDistinct(expiry, order);
    hide Sort, Sorted, Distinct;
    var byExpiry := Sort(expiry, order);
    var toRemove: nat := |live| - s.maxEntries / 2;
    entries := RemoveAll(live, byExpiry[..toRemove]);
    RemovedPrefix(byExpiry, toRemove, live.Keys);
    forall gone, kept | gone in live && gone !in entries && kept in entries
      ensures live[gone].expiresAt <= live[kept].expiresAt
    {
      PrefixIsSmallest(expiry, byExpiry, toRemove, gone, kept);
    }
  }

  method RemoveAll(live: Entries, keys: seq<Bytes>) returns (entries: Entries)
    ensures entries.Keys == live.Keys - Elements(keys)
    ensures forall k :: k in entries ==> entries[k] == live[k]
  {
    entries := live;
    for i := 0 to |keys|
      invariant entries.Keys == live.Keys - Elements(keys[..i])
      invariant forall k :: k in entries ==> entries[k] == live[k]
    {
      assert Elements(keys[..i + 1]) == Elements(keys[..i]) + {keys[i]};
      entries := entries - {keys[i]};
    }
    assert keys[..|keys|] == keys;
  }

  lemma RemovedPrefix(s: seq<Bytes>, n: nat, all: set<Bytes>)
    requires Distinct(s) && n <= |s| && Elements(s) == all
    ensures |all - Elements(s[..n])| == |s| - n
    ensures forall k :: k in all - Elements(s[..n]) ==> k !in s[..n] && k in s
  {
    DistinctCardinality(s);
    DistinctCardinality(s[..n]);
    assert Elements(s[..n]) <= all;
  }

  /** What is served from an entry, if it decodes, is the entry's reply aged since it was stored, under the client's identifier. */
  ghost predicate ServesAged(c: Codec, entry: Entry, query: Bytes, later: nat, answer: Bytes) {
    c.decode(entry.response).Some? ==>
      && c.decode(answer).Some? && ClientId(query, c.decode(answer).value.id)
      && AgedCopy(c.decode(answer).value, c.decode(entry.response).value, Max(0, later - entry.storedAt))
  }

  lemma FoundServesAged(c: Codec, entries: Entries, query: Bytes, now: nat, later: nat)
    requires now <= later && Faithful(c)
    ensures var r := Found(c, entries, query, now, later);
            r.Some? ==> Key(query) in entries && ServesAged(c, entries[Key(query)], query, later, r.value)
  {
    hide Faithful, AgedCopy, ClientId, Rehydrate, QueryId, Key;
    if Key(query) in entries && c.decode(entries[Key(query)].response).Some? {
      var entry := entries[Key(query)];
      RehydrateDecodes(c, entry.response, Max(0, later - entry.storedAt), query);
    }
  }

  class CachedResolver {
    const codec: Codec
    const settings: Settings
    var entries: Entries

    constructor (codec: Codec, settings: Settings)
      ensures this.codec == codec && this.settings == settings && entries == map[]
    {
      this.codec := codec;
      this.settings := settings;
      entries := map[];
    }

    /** The read-locked section. */
    method Lookup(query: Bytes, now: nat, later: nat) returns (r: Option<Bytes>)
      requires now <= later
      ensures r == Found(codec, entries, query, now, later)
      ensures r.Some? <==> Key(query) in entries && now < entries[Key(query)].expiresAt
      ensures r.Some? && Faithful(codec) ==> ServesAged(codec, entries[Key(query)], query, later, r.value)
    {
      if Faithful(codec) {
        FoundServesAged(codec, entries, query, now, later);
      }
      hide Faithful, ServesAged, Rehydrate, QueryId, Key;
      var key := Key(query);
      if key in entries {
        var entry := entries[key];
        if entry.expiresAt > now {
          var age := if later >= entry.storedAt then later - entry.storedAt else 0;
          return Some(Rehydrate(codec, entry.response, age, QueryId(query)));
        }
      }
      return None;
    }

    /** The write-locked section, run by a call that began at `now` once its upstream has replied. */
    method Insert(query: Bytes, now: nat, response: Bytes)
      modifies this
      ensures Inserted(codec, settings, old(entries), query, now, response, entries)
    {
      hide CacheTtl, Scrub;
      var ttl := CacheTtl(codec, settings, response);
      if ttl.Some? {
        if |entries| >= settings.maxEntries {
          entries := Unexpired(entries, now);
        }
        if |entries| >= settings.maxEntries {
          entries := EvictByExpiry(settings, entries);
        }
        ghost var kept := entries;
        assert Evicted(settings, old(entries), now, kept);
        entries := entries[Key(query) := Entry(Scrub(codec, response), now, now + ttl.value)];
      }
    }
  }

  lemma EvictedMakesRoom(s: Settings, before: Entries, now: nat, after: Entries)
    requires Evicted(s, before, now, after)
    ensures |after| < Max(1, s.maxEntries)
  {
  }

  lemma OneMoreKey<K, V>(m: map<K, V>, k: K, v: V)
    ensures |m[k := v]| <= |m| + 1
  {
    assert m[k := v].Keys == m.Keys + {k};
    assert |m[k := v].Keys| == |m[k := v]| && |m.Keys| == |m|;
  }

  /** Capacity: an insertion leaves at most max(1, `maxEntries`) entries. */
  lemma InsertedCapacity(c: Codec, s: Settings, before: Entries, query: Bytes, now: nat, response: Bytes,
                         after: Entries)
    requires Inserted(c, s, before, query, now, response, after)
    requires |before| <= Max(1, s.maxEntries)
    ensures |after| <= Max(1, s.maxEntries)
  {
    hide CacheTtl, Scrub, Key, Evicted;
    var ttl := CacheTtl(c, s, response);
    if ttl.Some? {
      var key, entry := Key(query), Entry(Scrub(c, response), now, now + ttl.value);
      var kept :| Evicted(s, before, now, kept) && after == kept[key := entry];
      EvictedMakesRoom(s, before, now, kept);
      OneMoreKey(kept, key, entry);
    }
  }

  // ----- What clients see -----

  /** All answer TTLs of a cached reply stay positive until its entry expires. */
  ghost predicate PositiveUntilExpiry(m: Message, lifetime: nat) {
    forall age: nat, i :: age < lifetime && 0 <= i < |m.answers| ==> Aged(m, AgeSeconds(age), 0).answers[i].ttl > 0
  }

  /** That is so exactly when no answer record lives shorter than the entry. */
  lemma PositiveIffOutlived(m: Message, lifetime: nat)
    requires lifetime > 0
    ensures PositiveUntilExpiry(m, lifetime) <==>
            forall i :: 0 <= i < |m.answers| ==> lifetime <= m.answers[i].ttl * NANOS
  {
    if PositiveUntilExpiry(m, lifetime) {
      forall i | 0 <= i < |m.answers|
        ensures lifetime <= m.answers[i].ttl * NANOS
      {
        assert Aged(m, AgeSeconds(lifetime - 1), 0).answers[i].ttl > 0;
      }
    }
  }

  /**
   A TTL lasts at least as long as the entry of a reply that is good for `secs`: the maximum cuts
   the entry down to it, or it covers both the good time and the minimum.
   */
  predicate Outlasts(s: Settings, secs: nat, ttl: nat) {
    || (s.maxTtl.Some? && s.maxTtl.value <= ttl * NANOS)
    || (secs <= ttl && (s.minTtl.Some? ==> s.minTtl.value <= ttl * NANOS))
  }

  lemma OutlastsLifetime(s: Settings, secs: nat, ttl: nat)
    requires ClampTtl(s, secs * NANOS).Some?
    ensures ClampTtl(s, secs * NANOS).value <= ttl * NANOS <==> Outlasts(s, secs, ttl)
  {
  }

  /**
   For every cached reply: its answers keep a positive TTL for as long as its entry lives, exactly
   when each of them outlasts the reply's good time under the configured bounds. For a NOERROR
   reply with answers the good time is the smallest of these TTLs, so only a minimum can break
   this; for NXDOMAIN the good time comes from the SOA, so an alias TTL below it breaks it too.
   */
  lemma PositiveExactlyWhen(c: Codec, s: Settings, response: Bytes, secs: nat)
    requires CacheTtl(c, s, response).Some? && GoodFor(c.decode(response).value, secs)
    ensures var m := c.decode(response).value;
            PositiveUntilExpiry(m, CacheTtl(c, s, response).value) <==>
            forall i :: 0 <= i < |m.answers| ==> Outlasts(s, secs, m.answers[i].ttl)
  {
    var m := c.decode(response).value;
    var lifetime := CacheTtl(c, s, response).value;
    ReplyTtlIsGoodFor(m, secs);
    assert ClampTtl(s, secs * NANOS) == Some(lifetime);
    hide CacheTtl, ClampTtl, GoodFor, ReplyTtl, PositiveUntilExpiry, Outlasts;
    PositiveIffOutlived(m, lifetime);
    forall i | 0 <= i < |m.answers|
      ensures lifetime <= m.answers[i].ttl * NANOS <==> Outlasts(s, secs, m.answers[i].ttl)
    {
      OutlastsLifetime(s, secs, m.answers[i].ttl);
    }
  }

  /** Without `min_ttl`, every NOERROR reply qualifies. */
  lemma NoErrorStaysPositive(c: Codec, s: Settings, response: Bytes)
    requires s.minTtl.None? && CacheTtl(c, s, response).Some?
    requires c.decode(response).value.code == NoError
    ensures PositiveUntilExpiry(c.decode(response).value, CacheTtl(c, s, response).value)
  {
    PositiveIffOutlived(c.decode(response).value, CacheTtl(c, s, response).value);
  }

  /** An NXDOMAIN reply with a ten-second alias and a five-minute SOA. */
  const ALIAS_DENIAL :=
    NewResponse(7).(code := NXDomain, answers := [Record("a.", 10, CnameData("b."))],
                    authorities := [Record(".", 300, SoaData("m.", "r.", 1, 300))])

  /** It is cached for five minutes and serves its alias with TTL 0 for most of them. */
  lemma NxDomainAliasReachesZero(c: Codec, s: Settings, response: Bytes)
    requires c.decode(response) == Some(ALIAS_DENIAL) && !TruncatedBit(response)
    requires s.minTtl.None? && s.maxTtl.None?
    ensures CacheTtl(c, s, response) == Some(300 * NANOS)
    ensures !PositiveUntilExpiry(ALIAS_DENIAL, 300 * NANOS)
  {
    assert ALIAS_DENIAL.authorities[0].data.SoaData?;
    assert SoaBound(ALIAS_DENIAL.authorities, 300);
    ReplyTtlIsGoodFor(ALIAS_DENIAL, 300);
    hide ReplyTtl, PositiveUntilExpiry;
    PositiveExactlyWhen(c, s, response, 300);
    assert !Outlasts(s, 300, ALIAS_DENIAL.answers[0].ttl);
  }

  /** A served TTL never exceeds what the reply had left, counted from its receipt. */
  lemma ServedTtlIsConservative(ttl: u32, startedAt: nat, receivedAt: nat, servedAt: nat)
    requires startedAt <= receivedAt <= servedAt
    ensures SaturatingSub(ttl, AgeSeconds(servedAt - startedAt)) <= Max(0, ttl - (servedAt - receivedAt) / NANOS)
  {
    assert (servedAt - receivedAt) / NANOS <= (servedAt - startedAt) / NANOS;
  }
}
