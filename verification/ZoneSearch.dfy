/** Record search: each zone ranks and truncates its matches, then the registry merges the zones. */
module ZoneSearch {
  import opened Basics
  import opened StableSort

  const MAX_RESULTS: nat := 500

  datatype StoredRecord = StoredRecord(recordType: string, ttl: nat, data: string)

  /** One bucket of a zone's index. */
  datatype Owner = Owner(name: string, records: seq<StoredRecord>)

  /** A zone with its index in the order in which the hash map yields it. */
  datatype Zone = Zone(name: string, owners: seq<Owner>)

  datatype Hit = Hit(name: string, record: StoredRecord, zone: string, score: int)

  /** What is asked: a fuzzy score per owner name, and optionally one record type or one zone. */
  datatype Query = Query(score: string -> Option<int>, recordType: Option<string>, zone: Option<string>)

  function Rank(h: Hit): int { -h.score }

  // ----- All matches, before any truncation -----

  function RecordMatches(zone: Zone, owner: Owner, q: Query, score: int, n: nat): seq<Hit>
    requires n <= |owner.records|
  {
    if n == 0 then []
    else
      var r := owner.records[n - 1];
      RecordMatches(zone, owner, q, score, n - 1) +
      (if q.recordType.None? || r.recordType == q.recordType.value then [Hit(owner.name, r, zone.name, score)] else [])
  }

  function OwnerMatches(zone: Zone, owner: Owner, q: Query): seq<Hit> {
    var score := q.score(owner.name);
    if score.None? then [] else RecordMatches(zone, owner, q, score.value, |owner.records|)
  }

  function ZoneMatches(zone: Zone, q: Query, n: nat): seq<Hit>
    requires n <= |zone.owners|
  {
    if n == 0 then [] else ZoneMatches(zone, q, n - 1) + OwnerMatches(zone, zone.owners[n - 1], q)
  }

  predicate Selected(zone: Zone, q: Query) { q.zone.None? || zone.name == q.zone.value }

  /** Matches of one zone; none when the zone filter excludes it. */
  function Matches(zone: Zone, q: Query): seq<Hit> {
    if Selected(zone, q) then ZoneMatches(zone, q, |zone.owners|) else []
  }

  function AllMatches(zones: seq<Zone>, q: Query): seq<Hit> {
    if |zones| == 0 then [] else Matches(zones[0], q) + AllMatches(zones[1..], q)
  }

  function Ranked(zone: Zone, q: Query, limit: nat): seq<Hit> {
    Take(limit, Sort(Rank, Matches(zone, q)))
  }

  /** Per-zone results one after the other, each already ranked and truncated. */
  function Truncated(zones: seq<Zone>, q: Query, limit: nat): seq<Hit> {
    if |zones| == 0 then []
    else Ranked(zones[0], q, limit) + Truncated(zones[1..], q, limit)
  }

  // ----- What a ranking is -----

  /** The hits with the given score, in their order in `s`. */
  function WithScore(s: seq<Hit>, score: int): seq<Hit> {
    if |s| == 0 then []
    else (if s[0].score == score then [s[0]] else []) + WithScore(s[1..], score)
  }

  /**
   `top` is the best `limit` of `all`: scores descend, nothing left out scores higher than anything
   returned, and hits with equal scores keep their order, the earlier ones being preferred.
   */
  ghost predicate BestOf(all: seq<Hit>, limit: nat, top: seq<Hit>) {
    && |top| == Min(limit, |all|)
    && (forall i, j :: 0 <= i < j < |top| ==> top[i].score >= top[j].score)
    && multiset(top) <= multiset(all)
    && (forall h, i :: h in multiset(all) - multiset(top) && 0 <= i < |top| ==> top[i].score >= h.score)
    && (forall score :: WithScore(top, score) <= WithScore(all, score))
  }

  lemma {:induction false} ScoreIsRank(s: seq<Hit>, score: int)
    ensures WithScore(s, score) == WithKey(Rank, s, -score)
  {
    if |s| > 0 {
      ScoreIsRank(s[1..], score);
    }
  }

  lemma {:induction false} WithScoreConcat(a: seq<Hit>, b: seq<Hit>, score: int)
    ensures WithScore(a + b, score) == WithScore(a, score) + WithScore(b, score)
  {
    if |a| == 0 {
      assert a + b == b;
    } else {
      WithScoreConcat(a[1..], b, score);
      assert (a + b)[1..] == a[1..] + b;
      assert (a + b)[0] == a[0];
      Reassociate(if a[0].score == score then [a[0]] else [], WithScore(a[1..], score), WithScore(b, score));
    }
  }

  /** The first `limit` of the stable sort are the best `limit`. */
  lemma SortedPrefixIsBest(all: seq<Hit>, limit: nat)
    ensures BestOf(all, limit, Take(limit, Sort(Rank, all)))
  {
    hide Sort, WithScore;
    var sorted := Sort(Rank, all);
    var top := Take(limit, sorted);
    SortIsStable(Rank, all);
    SortPermutes(Rank, all);
    var rest := sorted[|top|..];
    assert sorted == top + rest;
    assert multiset(sorted) == multiset(top) + multiset(rest);
    SortedParts(sorted, |top|);
    forall h, i | h in multiset(all) - multiset(top) && 0 <= i < |top|
      ensures top[i].score >= h.score
    {
      assert h in rest;
    }
    forall score
      ensures WithScore(top, score) <= WithScore(all, score)
    {
      ScoreIsRank(sorted, score);
      ScoreIsRank(all, score);
      WithScoreConcat(top, rest, score);
    }
  }

  lemma SortedParts(sorted: seq<Hit>, n: nat)
    requires Sorted(Rank, sorted) && n <= |sorted|
    ensures forall i, j :: 0 <= i < j < n ==> sorted[i].score >= sorted[j].score
    ensures forall i, h :: 0 <= i < n && h in sorted[n..] ==> sorted[i].score >= h.score
  {
    forall i, j | 0 <= i < j < |sorted|
      ensures sorted[i].score >= sorted[j].score
    {
      assert Rank(sorted[i]) <= Rank(sorted[j]);
    }
  }

  /** The record is in the zone's index at the hit's name, and the query asks for it. */
  predicate Asked(zone: Zone, owner: Owner, r: StoredRecord, q: Query, h: Hit) {
    && h == Hit(owner.name, r, zone.name, h.score) && q.score(owner.name) == Some(h.score)
    && (q.recordType.Some? ==> r.recordType == q.recordType.value)
    && (q.zone.Some? ==> zone.name == q.zone.value)
  }

  /** A hit is a match exactly when some zone, owner and record ask for it. */
  lemma {:induction false} MatchesExactly(zones: seq<Zone>, q: Query, h: Hit)
    ensures h in AllMatches(zones, q) <==>
            exists z, o, r :: z in zones && o in z.owners && r in o.records && Asked(z, o, r, q, h)
  {
    hide Asked, Matches;
    if |zones| > 0 {
      MatchesExactly(zones[1..], q, h);
      ZoneHasMatch(zones[0], q, h);
      assert zones == [zones[0]] + zones[1..];
      if exists z, o, r :: z in zones && o in z.owners && r in o.records && Asked(z, o, r, q, h) {
        var z, o, r :| z in zones && o in z.owners && r in o.records && Asked(z, o, r, q, h);
        assert z == zones[0] || z in zones[1..];
      }
    }
  }

  lemma ZoneHasMatch(zone: Zone, q: Query, h: Hit)
    ensures h in Matches(zone, q) <==> exists o, r :: o in zone.owners && r in o.records && Asked(zone, o, r, q, h)
  {
    hide ZoneMatches, Asked;
    SelectedByAsked(zone, q, h);
    if Selected(zone, q) {
      OwnersHaveMatch(zone, q, |zone.owners|, h);
      assert zone.owners[..|zone.owners|] == zone.owners;
    }
  }

  lemma SelectedByAsked(zone: Zone, q: Query, h: Hit)
    ensures forall o, r :: Asked(zone, o, r, q, h) ==> Selected(zone, q)
    ensures Selected(zone, q) <==> q.zone.None? || zone.name == q.zone.value
  {
  }

  lemma {:induction false} OwnersHaveMatch(zone: Zone, q: Query, n: nat, h: Hit)
    requires n <= |zone.owners| && Selected(zone, q)
    ensures h in ZoneMatches(zone, q, n) <==>
            exists o, r :: o in zone.owners[..n] && r in o.records && Asked(zone, o, r, q, h)
  {
    hide Asked, OwnerMatches;
    if n > 0 {
      var last := zone.owners[n - 1];
      OwnersHaveMatch(zone, q, n - 1, h);
      OwnerHasMatch(zone, last, q, h);
      assert zone.owners[..n] == zone.owners[..n - 1] + [last];
    }
  }

  lemma OwnerHasMatch(zone: Zone, owner: Owner, q: Query, h: Hit)
    requires Selected(zone, q)
    ensures h in OwnerMatches(zone, owner, q) <==> exists r :: r in owner.records && Asked(zone, owner, r, q, h)
  {
    var score := q.score(owner.name);
    if score.Some? {
      RecordsHaveMatch(zone, owner, q, score.value, |owner.records|, h);
      assert owner.records[..|owner.records|] == owner.records;
    }
  }

  lemma {:induction false} RecordsHaveMatch(zone: Zone, owner: Owner, q: Query, score: int, n: nat, h: Hit)
    requires n <= |owner.records| && q.score(owner.name) == Some(score) && Selected(zone, q)
    ensures h in RecordMatches(zone, owner, q, score, n) <==>
            exists r :: r in owner.records[..n] && Asked(zone, owner, r, q, h)
  {
    if n > 0 {
      RecordsHaveMatch(zone, owner, q, score, n - 1, h);
      var last := owner.records[n - 1];
      assert owner.records[..n] == owner.records[..n - 1] + [last];
      assert Asked(zone, owner, last, q, h) <==>
             h == Hit(owner.name, last, zone.name, score) && (q.recordType.None? || last.recordType == q.recordType.value);
      hide Asked;
      assert last in owner.records[..n];
    }
  }

  // ----- The code -----

  /** `ZoneAuthorityResolver::search_records`. */
  method SearchZone(zone: Zone, q: Query, limit: nat) returns (scored: seq<Hit>)
    ensures scored == Take(limit, Sort(Rank, ZoneMatches(zone, q, |zone.owners|)))
    ensures BestOf(ZoneMatches(zone, q, |zone.owners|), limit, scored)
  {
    hide BestOf, Sort, Take;
    scored := [];
    for i := 0 to |zone.owners|
      invariant scored == ZoneMatches(zone, q, i)
    {
      var owner := zone.owners[i];
      var score := q.score(owner.name);
      var found: seq<Hit> := [];
      for j := 0 to |owner.records|
        invariant found == if score.None? then [] else RecordMatches(zone, owner, q, score.value, j)
      {
        var r := owner.records[j];
        if (q.recordType.None? || r.recordType == q.recordType.value) && score.Some? {
          found := found + [Hit(owner.name, r, zone.name, score.value)];
        }
      }
      scored := scored + found;
    }
    SortedPrefixIsBest(scored, limit);
    scored := Take(limit, Sort(Rank, scored));
  }

  /**
   `ZoneRegistry::search_records`. Although every zone is truncated first, the results are the
   best `limit` of all matches of all selected zones.
   */
  method SearchRecords(zones: seq<Zone>, q: Query, requested: nat) returns (results: seq<Hit>, total: nat)
    ensures BestOf(AllMatches(zones, q), Min(requested, 500), results)
    ensures total == |Truncated(zones, q, Min(requested, 500))|
  {
    hide BestOf, Sort, Take, Matches, Ranked, AllMatches, Truncated;
    var limit := Min(requested, MAX_RESULTS);
    results := [];
    assert zones[0..] == zones;
    for i := 0 to |zones|
      invariant Truncated(zones, q, limit) == results + Truncated(zones[i..], q, limit)
    {
      TruncatedStep(zones, q, limit, i);
      if !Selected(zones[i], q) {
        continue;
      }
      var scored := SearchZone(zones[i], q, limit);
      results := results + scored;
    }
    NoZonesLeft(zones, q, limit);
    assert results == Truncated(zones, q, limit);
    SortIsStable(Rank, results);
    TruncationIsHarmless(zones, q, limit);
    SortedPrefixIsBest(AllMatches(zones, q), limit);
    results := Sort(Rank, results);
    total := |results|;
    results := Take(limit, results);
  }

  // ----- Proof -----

  lemma TruncatedStep(zones: seq<Zone>, q: Query, limit: nat, i: nat)
    requires i < |zones|
    ensures Truncated(zones[i..], q, limit) ==
            (if Selected(zones[i], q) then Take(limit, Sort(Rank, ZoneMatches(zones[i], q, |zones[i].owners|))) else [])
            + Truncated(zones[i + 1..], q, limit)
  {
    assert zones[i..][1..] == zones[i + 1..];
  }

  lemma NoZonesLeft(zones: seq<Zone>, q: Query, limit: nat)
    ensures Truncated(zones[|zones|..], q, limit) == []
  {
  }

  lemma SortedIsFixed(s: seq<Hit>, limit: nat)
    ensures Sort(Rank, Take(limit, Sort(Rank, s))) == Take(limit, Sort(Rank, s))
  {
    SortIsStable(Rank, s);
    var t := Take(limit, Sort(Rank, s));
    assert IsStableSortOf(Rank, t, t);
    OnlyStableSort(Rank, t, t);
  }

  /** Ranking truncated zones and ranking whole zones agree on the first `limit` results. */
  lemma {:induction false} TruncationIsHarmless(zones: seq<Zone>, q: Query, limit: nat)
    ensures Take(limit, Sort(Rank, Truncated(zones, q, limit))) == Take(limit, Sort(Rank, AllMatches(zones, q)))
  {
    if |zones| > 0 {
      hide Sort, Merge, Matches;
      var m, rest := Matches(zones[0], q), zones[1..];
      var ranked := Sort(Rank, m);
      var cut, whole := Sort(Rank, Truncated(rest, q, limit)), Sort(Rank, AllMatches(rest, q));
      TruncationIsHarmless(rest, q, limit);
      calc {
        Take(limit, Sort(Rank, Truncated(zones, q, limit)));
        { SortConcat(Rank, Take(limit, ranked), Truncated(rest, q, limit)); SortedIsFixed(m, limit); }
        Take(limit, Merge(Rank, Take(limit, ranked), cut));
        { TakeMerge(Rank, Take(limit, ranked), cut, |ranked| + limit, limit, limit); }
        Take(limit, Merge(Rank, Take(limit, ranked), Take(limit, cut)));
        Take(limit, Merge(Rank, Take(limit, ranked), Take(limit, whole)));
        { TakeMerge(Rank, ranked, whole, limit, limit, limit); }
        Take(limit, Merge(Rank, ranked, whole));
        { SortConcat(Rank, m, AllMatches(rest, q)); }
        Take(limit, Sort(Rank, AllMatches(zones, q)));
      }
    }
  }

  /** The reported total counts truncated zones: it is the number of matches iff no zone overflowed. */
  lemma {:induction false} TotalIsExact(zones: seq<Zone>, q: Query, limit: nat)
    ensures |Truncated(zones, q, limit)| <= |AllMatches(zones, q)|
    ensures |Truncated(zones, q, limit)| == |AllMatches(zones, q)| <==>
            forall i :: 0 <= i < |zones| ==> |Matches(zones[i], q)| <= limit
  {
    if |zones| > 0 {
      SortIsStable(Rank, Matches(zones[0], q));
      TotalIsExact(zones[1..], q, limit);
      var rest := zones[1..];
      assert zones == [zones[0]] + rest;
    }
  }

  /** One zone with one owner and one match more than the limit: the total is short by one. */
  lemma TotalCanFallShort(zone: Zone, q: Query, limit: nat)
    requires q.zone.None? && q.recordType.None? && |zone.owners| == 1
    requires q.score(zone.owners[0].name).Some? && |zone.owners[0].records| == limit + 1
    ensures |AllMatches([zone], q)| == limit + 1 && |Truncated([zone], q, limit)| == limit
  {
    var owner := zone.owners[0];
    AllRecordsMatch(zone, owner, q, q.score(owner.name).value, |owner.records|);
    assert ZoneMatches(zone, q, 0) == [];
    assert ZoneMatches(zone, q, 1) == OwnerMatches(zone, owner, q);
    assert [zone][1..] == [];
    SortIsStable(Rank, Matches(zone, q));
  }

  lemma {:induction false} AllRecordsMatch(zone: Zone, owner: Owner, q: Query, score: int, n: nat)
    requires q.recordType.None? && n <= |owner.records|
    ensures |RecordMatches(zone, owner, q, score, n)| == n
  {
    if n > 0 {
      AllRecordsMatch(zone, owner, q, score, n - 1);
    }
  }
}
