/** The zone forwarding stages: which configured zone serves a domain. */
module ZoneForwarding {
  import opened Basics
  import opened StableSort
  import opened ZoneNames

  /** `resolver` numbers the entry's own use of a resolver, so entries that share one may fare differently. */
  datatype ZoneEntry = ZoneEntry(zone: string, bypassFilter: bool, fallback: bool, resolver: nat)

  /** `ZoneEntry::new`. */
  function NewEntry(zone: string, bypassFilter: bool, fallback: bool, resolver: nat): (r: Option<ZoneEntry>)
    ensures r.Some? ==> Normalised(r.value.zone) && NormalizeZone(zone) == Some(r.value.zone)
    ensures r.Some? ==> r.value.bypassFilter == bypassFilter && r.value.fallback == fallback && r.value.resolver == resolver
    ensures r.None? <==> NormalizeZone(zone).None?
  {
    var z := NormalizeZone(zone);
    if z.None? then None else Some(ZoneEntry(z.value, bypassFilter, fallback, resolver))
  }

  predicate WellFormed(entries: seq<ZoneEntry>) {
    forall i :: 0 <= i < |entries| ==> Normalised(entries[i].zone)
  }

  /** Longest zone first. */
  function ByLength(e: ZoneEntry): int { 0 - ByteLen(e.zone) }

  /** The entries one stage keeps, in configuration order. */
  function Retained(entries: seq<ZoneEntry>, bypass: bool): seq<ZoneEntry> {
    if |entries| == 0 then []
    else (if entries[0].bypassFilter == bypass then [entries[0]] else []) + Retained(entries[1..], bypass)
  }

  /** `bypass_only` and `non_bypass`: retain in place, then sort. */
  method BuildStage(entries: seq<ZoneEntry>, bypass: bool) returns (stage: seq<ZoneEntry>)
    ensures stage == Sort(ByLength, Retained(entries, bypass))
  {
    hide Sort, Retained;
    stage := [];
    assert entries[0..] == entries;
    for i := 0 to |entries|
      invariant stage + Retained(entries[i..], bypass) == Retained(entries, bypass)
    {
      RetainedStep(entries, bypass, i);
      if entries[i].bypassFilter == bypass {
        stage := stage + [entries[i]];
      }
    }
    RetainedEnd(entries, bypass);
    assert stage + [] == stage;
    stage := Sort(ByLength, stage);
  }

  lemma RetainedStep(entries: seq<ZoneEntry>, bypass: bool, i: nat)
    requires i < |entries|
    ensures Retained(entries[i..], bypass) ==
            (if entries[i].bypassFilter == bypass then [entries[i]] else []) + Retained(entries[i + 1..], bypass)
  {
    assert entries[i..][1..] == entries[i + 1..];
  }

  lemma RetainedEnd(entries: seq<ZoneEntry>, bypass: bool)
    ensures Retained(entries[|entries|..], bypass) == []
  {
  }

  predicate Matches(e: ZoneEntry, domain: string) { DomainMatchesZone(domain, e.zone) }

  function FirstMatch(stage: seq<ZoneEntry>, domain: string): Option<ZoneEntry> {
    if |stage| == 0 then None
    else if Matches(stage[0], domain) then Some(stage[0])
    else FirstMatch(stage[1..], domain)
  }

  /** `matching_entry`. */
  function MatchingEntry(stage: seq<ZoneEntry>, name: string): Option<ZoneEntry> {
    var domain := NormalizeZone(name);
    if domain.None? then None else FirstMatch(stage, domain.value)
  }

  /** Neither the letter case of a configured zone nor that of a queried name matters. */
  lemma CaseDoesNotMatter(stage: seq<ZoneEntry>, s: string, t: string, bypassFilter: bool, fallback: bool, resolver: nat)
    requires SameSpelling(s, t)
    ensures MatchingEntry(stage, s) == MatchingEntry(stage, t)
    ensures NewEntry(s, bypassFilter, fallback, resolver) == NewEntry(t, bypassFilter, fallback, resolver)
  {
    SpellingDoesNotMatter(s, t);
    hide NormalizeZone, FirstMatch;
  }

  // ----- First match after sorting is the longest match before sorting -----

  /** The longest matching entry, the earliest one on ties, without any sorting. */
  function Longest(entries: seq<ZoneEntry>, domain: string): Option<ZoneEntry> {
    if |entries| == 0 then None
    else
      var e, rest := entries[0], Longest(entries[1..], domain);
      if Matches(e, domain) && (rest.None? || ByteLen(e.zone) >= ByteLen(rest.value.zone)) then Some(e) else rest
  }

  lemma {:induction false} FirstMatchIsFirst(stage: seq<ZoneEntry>, domain: string)
    requires Sorted(ByLength, stage)
    ensures FirstMatch(stage, domain).Some? ==>
              |stage| > 0 && ByLength(stage[0]) <= ByLength(FirstMatch(stage, domain).value)
  {
    if |stage| > 0 && !Matches(stage[0], domain) {
      FirstMatchIsFirst(stage[1..], domain);
    }
  }

  lemma {:induction false} FirstMatchAfterInsert(e: ZoneEntry, s: seq<ZoneEntry>, domain: string)
    requires Sorted(ByLength, s)
    ensures FirstMatch(Insert(ByLength, e, s), domain) ==
            var m := FirstMatch(s, domain);
            if Matches(e, domain) && (m.None? || ByLength(e) <= ByLength(m.value)) then Some(e) else m
  {
    hide Matches, ByLength;
    var r := Insert(ByLength, e, s);
    if |s| == 0 || ByLength(e) <= ByLength(s[0]) {
      assert r[1..] == s;
      FirstMatchIsFirst(s, domain);
    } else {
      assert r[1..] == Insert(ByLength, e, s[1..]);
      FirstMatchAfterInsert(e, s[1..], domain);
    }
  }

  lemma {:induction false} FirstMatchIsLongest(entries: seq<ZoneEntry>, domain: string)
    ensures FirstMatch(Sort(ByLength, entries), domain) == Longest(entries, domain)
  {
    if |entries| > 0 {
      FirstMatchIsLongest(entries[1..], domain);
      SortIsStable(ByLength, entries[1..]);
      FirstMatchAfterInsert(entries[0], Sort(ByLength, entries[1..]), domain);
    }
  }

  /** The chosen entry at position `i`: it matches, none is longer, none as long comes earlier. */
  ghost predicate ChosenAt(entries: seq<ZoneEntry>, domain: string, i: int) {
    && 0 <= i < |entries| && Matches(entries[i], domain)
    && (forall j :: 0 <= j < |entries| && Matches(entries[j], domain) ==>
          ByteLen(entries[j].zone) <= ByteLen(entries[i].zone) &&
          (j < i ==> ByteLen(entries[j].zone) < ByteLen(entries[i].zone)))
  }

  lemma {:induction false} LongestChosenAt(entries: seq<ZoneEntry>, domain: string) returns (i: int)
    ensures Longest(entries, domain).None? ==> forall j :: 0 <= j < |entries| ==> !Matches(entries[j], domain)
    ensures Longest(entries, domain).Some? ==>
              ChosenAt(entries, domain, i) && entries[i] == Longest(entries, domain).value
  {
    hide Matches, ByteLen;
    i := 0;
    if |entries| > 0 {
      var rest := entries[1..];
      var i' := LongestChosenAt(rest, domain);
      assert forall j :: 0 < j < |entries| ==> entries[j] == rest[j - 1];
      if Longest(rest, domain).Some? && Longest(entries, domain) != Some(entries[0]) {
        i := i' + 1;
      } else if Longest(rest, domain).Some? && Matches(entries[0], domain) &&
                ByteLen(entries[0].zone) < ByteLen(Longest(rest, domain).value.zone) {
        i := i' + 1;
      }
    }
  }

  // ----- Most specific -----

  /** `e` matches and lies inside every other zone that matches. */
  ghost predicate MostSpecific(entries: seq<ZoneEntry>, domain: string, e: ZoneEntry) {
    && Matches(e, domain)
    && forall j :: 0 <= j < |entries| && Matches(entries[j], domain) ==> DomainMatchesZone(e.zone, entries[j].zone)
  }

  /**
   A root entry and a later one-byte zone match, every other matching zone is also one byte long
   and comes after that root entry: then the two tie and the root entry wins.
   */
  ghost predicate RootShadows(entries: seq<ZoneEntry>, domain: string) {
    exists i, j :: 0 <= i < j < |entries| && ShadowsFrom(entries, domain, i) && entries[j].zone != "." && Matches(entries[j], domain)
  }

  /** A root entry at position `i`, before all other matching zones, which are all one byte long. */
  ghost predicate ShadowsFrom(entries: seq<ZoneEntry>, domain: string, i: int) {
    && 0 <= i < |entries| && entries[i].zone == "."
    && forall k :: 0 <= k < |entries| && entries[k].zone != "." && Matches(entries[k], domain) ==>
         i < k && ByteLen(entries[k].zone) == 1
  }

  lemma RootByteLen()
    ensures ByteLen(".") == 1
  {
    assert "."[1..] == "";
    assert ByteLen("."[1..]) == 0;
  }

  /**
   The entry a stage serves a domain from is the most specific matching zone, except exactly when
   a root entry configured earlier shadows a one-byte zone.
   */
  lemma ChosenIsMostSpecific(entries: seq<ZoneEntry>, domain: string)
    requires WellFormed(entries) && FirstMatch(Sort(ByLength, entries), domain).Some?
    ensures MostSpecific(entries, domain, FirstMatch(Sort(ByLength, entries), domain).value) <==>
            !RootShadows(entries, domain)
  {
    hide Longest, ByteLen, FirstMatch, Sort, RootShadows, MostSpecific, Matches;
    FirstMatchIsLongest(entries, domain);
    var i := LongestChosenAt(entries, domain);
    ShadowedExactlyWhen(entries, domain, i);
    if entries[i].zone == "." {
      RootMostSpecific(entries, domain, i);
    } else {
      NonRootMostSpecific(entries, domain, i);
    }
  }

  /** The condition on the configuration says when the root is chosen although another zone matches. */
  lemma ShadowedExactlyWhen(entries: seq<ZoneEntry>, domain: string, i: int)
    requires WellFormed(entries) && ChosenAt(entries, domain, i)
    ensures RootShadows(entries, domain) <==>
            entries[i].zone == "." && exists j :: 0 <= j < |entries| && Matches(entries[j], domain) && entries[j].zone != "."
  {
    hide Matches, ByteLen;
    RootByteLen();
    forall k | 0 <= k < |entries| && entries[k].zone != "."
      ensures ByteLen(entries[k].zone) >= 1
    {
      ByteLenAtLeast(entries[k].zone);
    }
    RootAlwaysMatches(entries, domain);
    if entries[i].zone == "." && exists j :: 0 <= j < |entries| && Matches(entries[j], domain) && entries[j].zone != "." {
      assert ShadowsFrom(entries, domain, i);
    }
  }

  lemma RootAlwaysMatches(entries: seq<ZoneEntry>, domain: string)
    ensures forall k :: 0 <= k < |entries| && entries[k].zone == "." ==> Matches(entries[k], domain)
  {
  }

  lemma RootMostSpecific(entries: seq<ZoneEntry>, domain: string, i: int)
    requires WellFormed(entries) && ChosenAt(entries, domain, i) && entries[i].zone == "."
    ensures MostSpecific(entries, domain, entries[i]) <==>
            !exists j :: 0 <= j < |entries| && Matches(entries[j], domain) && entries[j].zone != "."
  {
    hide ByteLen, SuffixMatch;
    forall j | 0 <= j < |entries| && Matches(entries[j], domain) && DomainMatchesZone(".", entries[j].zone)
      ensures entries[j].zone == "."
    {
      RootInsideOnlyRoot(entries[j].zone);
    }
  }

  lemma NonRootMostSpecific(entries: seq<ZoneEntry>, domain: string, i: int)
    requires ChosenAt(entries, domain, i) && entries[i].zone != "."
    ensures MostSpecific(entries, domain, entries[i])
  {
    hide ByteLen;
    var e := entries[i];
    forall j | 0 <= j < |entries| && Matches(entries[j], domain)
      ensures DomainMatchesZone(e.zone, entries[j].zone)
    {
      if entries[j].zone != "." {
        SuffixByteLen(domain, e.zone, entries[j].zone);
        MatchesAreNested(domain, e.zone, entries[j].zone);
      }
    }
  }

  /** A root entry configured before the zone `a` takes the queries for `a`. */
  lemma RootCanShadow(root: ZoneEntry, a: ZoneEntry)
    requires root.zone == "." && a.zone == "a"
    ensures RootShadows([root, a], "a")
    ensures FirstMatch(Sort(ByLength, [root, a]), "a") == Some(root)
    ensures !MostSpecific([root, a], "a", root)
  {
    hide Sort, FirstMatch, Longest, MostSpecific, RootShadows;
    var entries := [root, a];
    FirstMatchIsLongest(entries, "a");
    var i := LongestChosenAt(entries, "a");
    OneByteEach();
    assert Matches(entries[0], "a") && Matches(entries[1], "a");
    assert i == 0;
    ShadowedExactlyWhen(entries, "a", 0);
    RootMostSpecific(entries, "a", 0);
    SomeMatch(entries, "a");
  }

  lemma SomeMatch(entries: seq<ZoneEntry>, domain: string)
    requires exists j :: 0 <= j < |entries| && Matches(entries[j], domain)
    ensures Longest(entries, domain).Some?
  {
    var i := LongestChosenAt(entries, domain);
  }

  lemma OneByteEach()
    ensures ByteLen(".") == 1 && ByteLen("a") == 1
  {
    RootByteLen();
    assert "a"[1..] == "";
    assert ByteLen("a"[1..]) == 0;
  }

  lemma RootInsideOnlyRoot(zone: string)
    requires Normalised(zone) && DomainMatchesZone(".", zone)
    ensures zone == "."
  {
  }

  // ----- Independence of configuration order -----

  ghost predicate DistinctZones(entries: seq<ZoneEntry>) {
    forall i, j :: 0 <= i < j < |entries| ==> entries[i].zone != entries[j].zone
  }

  /** No matching one-byte zone stands beside a root entry. */
  ghost predicate NoRootTie(entries: seq<ZoneEntry>, domain: string) {
    !exists e, f :: e in entries && f in entries && e.zone == "." && f.zone != "." &&
                    Matches(f, domain) && ByteLen(f.zone) == 1
  }

  /** Reordering the configuration does not change which entry serves a domain. */
  lemma OrderDoesNotMatter(xs: seq<ZoneEntry>, ys: seq<ZoneEntry>, domain: string)
    requires WellFormed(xs) && multiset(xs) == multiset(ys) && DistinctZones(xs) && NoRootTie(xs, domain)
    ensures FirstMatch(Sort(ByLength, xs), domain) == FirstMatch(Sort(ByLength, ys), domain)
  {
    hide Longest, Matches, ByteLen, FirstMatch, Sort;
    FirstMatchIsLongest(xs, domain);
    FirstMatchIsLongest(ys, domain);
    SameMembers(xs, ys);
    var i := LongestChosenAt(xs, domain);
    var j := LongestChosenAt(ys, domain);
    if Longest(xs, domain).Some? {
      assert xs[i] in ys;
    }
    if Longest(ys, domain).Some? {
      assert ys[j] in xs;
      var k :| 0 <= k < |xs| && xs[k] == ys[j];
      var l :| 0 <= l < |ys| && ys[l] == xs[i];
      assert ByteLen(xs[i].zone) == ByteLen(ys[j].zone);
      SameLengthSameZone(xs, domain, xs[i], xs[k]);
    }
  }

  lemma SameMembers(xs: seq<ZoneEntry>, ys: seq<ZoneEntry>)
    requires multiset(xs) == multiset(ys)
    ensures forall e :: e in xs <==> e in ys
  {
    forall e
      ensures e in xs <==> e in ys
    {
      assert e in multiset(xs) <==> e in multiset(ys);
    }
  }

  lemma SameLengthSameZone(entries: seq<ZoneEntry>, domain: string, e: ZoneEntry, f: ZoneEntry)
    requires WellFormed(entries) && NoRootTie(entries, domain) && e in entries && f in entries
    requires Matches(e, domain) && Matches(f, domain) && ByteLen(e.zone) == ByteLen(f.zone)
    ensures e.zone == f.zone
  {
    RootByteLen();
    if e.zone != "." && f.zone != "." {
      SuffixByteLen(domain, e.zone, f.zone);
      SuffixByteLen(domain, f.zone, e.zone);
    }
  }
}
