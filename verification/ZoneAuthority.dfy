/** Authoritative zones: loading a JSON document into a snapshot, refreshing it, and answering from it. */
module ZoneAuthority {
  import opened Basics
  import opened DnsMessage
  import opened UpstreamStrategy
  import opened ZoneForwarding
  import opened ZoneNames

  /** One JSON record; `data` is absent when its type or fields do not parse. */
  datatype JsonRecord = JsonRecord(name: string, ttl: Option<u32>, data: Option<RData>)

  /** A JSON zone document; `serial` is absent when it is missing or not a number. */
  datatype Document = Document(zone: string, ttlDefault: Option<u32>, serial: Option<u32>, records: seq<JsonRecord>)

  type Index = map<string, seq<Record>>

  datatype Snapshot = Snapshot(zone: string, index: Index, soa: Option<Record>)

  /** Which presentation-format names the DNS library accepts. */
  type NameCheck = string -> bool

  function Bucket(index: Index, k: string): seq<Record> { if k in index then index[k] else [] }

  /** `fqdn_to_name`. */
  function FqdnToName(ok: NameCheck, value: string): Option<string> {
    var n := NormalizeName(value);
    if n.None? || !ok(n.value + ".") then None else Some(n.value + ".")
  }

  /** `resolve_record_name`. */
  function RecordKey(zone: string, name: string): Option<string> {
    var owner := Trim(name);
    if |owner| == 0 then None
    else if owner == "@" then Some(zone)
    else if owner[|owner| - 1] == '.' then NormalizeName(owner)
    else NormalizeName(owner + "." + zone)
  }

  lemma TrimmedEnds(s: string)
    ensures var t := Trim(s); |t| > 0 ==> !IsWhitespace(t[0]) && !IsWhitespace(t[|t| - 1])
  {
    TrimStartFirst(s);
    TrimEndLast(TrimStart(s));
  }

  lemma {:induction false} TrimStartFirst(s: string)
    ensures |TrimStart(s)| > 0 ==> !IsWhitespace(TrimStart(s)[0])
  {
    if |s| > 0 && IsWhitespace(s[0]) {
      TrimStartFirst(s[1..]);
    }
  }

  lemma {:induction false} TrimEndLast(s: string)
    ensures |TrimEnd(s)| > 0 ==> !IsWhitespace(TrimEnd(s)[|TrimEnd(s)| - 1])
    ensures |TrimEnd(s)| > 0 ==> |s| > 0 && TrimEnd(s)[0] == s[0]
  {
    if |s| > 0 && IsWhitespace(s[|s| - 1]) {
      TrimEndLast(s[..|s| - 1]);
    }
  }

  /** A record name without a trailing dot is filed inside its zone, one label sequence below the apex. */
  lemma RelativeNamesLieInZone(zone: string, name: string)
    requires Normalised(zone) && zone != "." && Lower(zone) == zone && !IsWhitespace(zone[|zone| - 1])
    requires var t := Trim(name); |t| > 0 && t[|t| - 1] != '.'
    ensures RecordKey(zone, name).Some? && SuffixMatch(RecordKey(zone, name).value, zone)
    ensures Trim(name) != "@" ==> RecordKey(zone, name) == Some(Lower(Trim(name)) + "." + zone)
  {
    var t := Trim(name);
    if t != "@" {
      var s := t + "." + zone;
      TrimmedEnds(name);
      assert TrimStart(s) == s && TrimEnd(s) == s;
      assert s[|s| - 1] == zone[|zone| - 1];
      assert TrimDots(s) == s;
      assert Lower(s) == Lower(t) + "." + Lower(zone);
      var k := Lower(t) + "." + zone;
      assert k[|k| - |zone|..] == zone && k[|k| - |zone| - 1] == '.';
    }
  }

  function TtlDefault(doc: Document): u32 { if doc.ttlDefault.Some? then doc.ttlDefault.value else 3600 }

  /** The record a JSON entry denotes and the key it is filed under. */
  function Parsed(ok: NameCheck, zone: string, ttlDefault: u32, entry: JsonRecord): Option<(string, Record)> {
    var key := RecordKey(zone, entry.name);
    if key.None? then None
    else
      var name := FqdnToName(ok, key.value);
      if name.None? || entry.data.None? then None
      else
        var ttl := if entry.ttl.Some? then entry.ttl.value else ttlDefault;
        Some((key.value, Record(name.value, ttl, entry.data.value)))
  }

  predicate AllParse(ok: NameCheck, zone: string, ttlDefault: u32, records: seq<JsonRecord>) {
    forall i :: 0 <= i < |records| ==> Parsed(ok, zone, ttlDefault, records[i]).Some?
  }

  /** The records of a document that belong under key `k`, in document order. */
  function Filed(ok: NameCheck, zone: string, ttlDefault: u32, records: seq<JsonRecord>, k: string): seq<Record>
    requires AllParse(ok, zone, ttlDefault, records)
  {
    if |records| == 0 then []
    else
      var front, last := records[..|records| - 1], records[|records| - 1];
      var p := Parsed(ok, zone, ttlDefault, last).value;
      Filed(ok, zone, ttlDefault, front, k) + (if p.0 == k then [p.1] else [])
  }

  /** All records of a document, in document order. */
  function ParsedRecords(ok: NameCheck, zone: string, ttlDefault: u32, records: seq<JsonRecord>): seq<Record>
    requires AllParse(ok, zone, ttlDefault, records)
  {
    seq(|records|, i requires 0 <= i < |records| => Parsed(ok, zone, ttlDefault, records[i]).value.1)
  }

  /** Everything the buckets under `keys` hold together. */
  ghost function Records(index: Index, keys: set<string>): multiset<Record>
    requires keys <= index.Keys
  {
    if keys == {} then multiset{}
    else
      var k :| k in keys;
      multiset(index[k]) + Records(index, keys - {k})
  }

  lemma {:induction false} RecordsSplit(index: Index, keys: set<string>, k: string)
    requires keys <= index.Keys && k in keys
    ensures Records(index, keys) == multiset(index[k]) + Records(index, keys - {k})
    decreases keys
  {
    var k0 :| k0 in keys && Records(index, keys) == multiset(index[k0]) + Records(index, keys - {k0});
    if k0 != k {
      RecordsSplit(index, keys - {k0}, k);
      RecordsSplit(index, keys - {k}, k0);
      assert keys - {k0} - {k} == keys - {k} - {k0};
    }
  }

  lemma {:induction false} RecordsFrame(a: Index, b: Index, keys: set<string>)
    requires keys <= a.Keys && keys <= b.Keys && forall k :: k in keys ==> a[k] == b[k]
    ensures Records(a, keys) == Records(b, keys)
    decreases keys
  {
    if keys != {} {
      var k :| k in keys;
      RecordsSplit(a, keys, k);
      RecordsSplit(b, keys, k);
      RecordsFrame(a, b, keys - {k});
    }
  }

  lemma FilingAddsOne(index: Index, k: string, r: Record)
    ensures var more := index[k := Bucket(index, k) + [r]];
            Records(more, more.Keys) == Records(index, index.Keys) + multiset{r}
  {
    var more := index[k := Bucket(index, k) + [r]];
    assert more.Keys - {k} == index.Keys - {k};
    RecordsSplit(more, more.Keys, k);
    RecordsFrame(more, index, index.Keys - {k});
    if k in index {
      RecordsSplit(index, index.Keys, k);
    } else {
      assert index.Keys - {k} == index.Keys;
    }
  }

  predicate HasType(records: seq<Record>, t: RecordType) {
    exists i :: 0 <= i < |records| && records[i].data.Type() == t
  }

  function FirstSoa(records: seq<Record>): Option<Record> {
    if |records| == 0 then None
    else if records[0].data.Type() == SOA then Some(records[0])
    else FirstSoa(records[1..])
  }

  /** `ensure_default_apex_ns`: the NS record added when the apex has none. */
  function DefaultNs(ok: NameCheck, zone: string, ttlDefault: u32): Option<Record> {
    var target, owner := FqdnToName(ok, "ns1." + zone), FqdnToName(ok, zone);
    if target.None? || owner.None? then None else Some(Record(owner.value, ttlDefault, NsData(target.value)))
  }

  /** `build_default_soa_record`; refresh, retry and expire are fixed and not part of the model. */
  function DefaultSoa(ok: NameCheck, zone: string, ttlDefault: u32, serial: Option<u32>): Option<Record> {
    var owner, mname, rname :=
      FqdnToName(ok, zone), FqdnToName(ok, "ns1." + zone), FqdnToName(ok, "hostmaster." + zone);
    if owner.None? || mname.None? || rname.None? then None
    else
      var s := if serial.Some? then serial.value else 1;
      Some(Record(owner.value, ttlDefault, SoaData(mname.value, rname.value, s, 300)))
  }

  /** The defaults a document needs at its apex: NS first, then SOA; absent if one cannot be named. */
  function Defaults(ok: NameCheck, zone: string, ttlDefault: u32, serial: Option<u32>, apex: seq<Record>): Option<seq<Record>> {
    var ns := if HasType(apex, NS) then Some([]) else
                var r := DefaultNs(ok, zone, ttlDefault);
                if r.None? then None else Some([r.value]);
    var soa := if FirstSoa(apex).Some? then Some([]) else
                 var r := DefaultSoa(ok, zone, ttlDefault, serial);
                 if r.None? then None else Some([r.value]);
    if ns.None? || soa.None? then None else Some(ns.value + soa.value)
  }

  /** A document that can be installed for the configured zone. */
  ghost predicate Loadable(ok: NameCheck, expected: string, doc: Document) {
    var zone := NormalizeName(doc.zone);
    && zone.Some? && NormalizeName(expected) == zone
    && AllParse(ok, zone.value, TtlDefault(doc), doc.records)
    && Defaults(ok, zone.value, TtlDefault(doc), doc.serial,
                Filed(ok, zone.value, TtlDefault(doc), doc.records, zone.value)).Some?
  }

  /**
   The index of a document: every bucket holds exactly the document's records for its name, the
   apex bucket also those `added`; no bucket is empty; and all buckets together hold the
   document's records, the added ones and nothing else.
   */
  ghost predicate Indexes(ok: NameCheck, zone: string, ttl: u32, records: seq<JsonRecord>, added: seq<Record>, index: Index)
    requires AllParse(ok, zone, ttl, records)
  {
    && (forall k :: Bucket(index, k) == Filed(ok, zone, ttl, records, k) + (if k == zone then added else []))
    && (forall k :: k in index ==> index[k] != [])
    && Records(index, index.Keys) == multiset(ParsedRecords(ok, zone, ttl, records)) + multiset(added)
  }

  /** What loading must produce: the index with the needed defaults, and its apex bucket's first SOA. */
  ghost predicate Loaded(ok: NameCheck, expected: string, doc: Document, snap: Snapshot) {
    && Loadable(ok, expected, doc)
    && var zone := NormalizeName(doc.zone).value;
       var ttl := TtlDefault(doc);
       var apex := Filed(ok, zone, ttl, doc.records, zone);
       && snap.zone == zone
       && Indexes(ok, zone, ttl, doc.records, Defaults(ok, zone, ttl, doc.serial, apex).value, snap.index)
       && snap.soa == FirstSoa(Bucket(snap.index, zone))
  }

  lemma IndexesOneMore(ok: NameCheck, zone: string, ttl: u32, records: seq<JsonRecord>, added: seq<Record>,
                       index: Index, r: Record)
    requires AllParse(ok, zone, ttl, records) && Indexes(ok, zone, ttl, records, added, index)
    ensures Indexes(ok, zone, ttl, records, added + [r], index[zone := Bucket(index, zone) + [r]])
  {
    hide Filed, ParsedRecords, Records, Bucket;
    FilingAddsOne(index, zone, r);
    var more := index[zone := Bucket(index, zone) + [r]];
    BucketUpdate(index, zone, Bucket(index, zone) + [r]);
    forall k
      ensures Bucket(more, k) == Filed(ok, zone, ttl, records, k) + (if k == zone then added + [r] else [])
    {
      var f := Filed(ok, zone, ttl, records, k);
      assert Bucket(index, k) == f + (if k == zone then added else []);
      if k == zone {
        assert (f + added) + [r] == f + (added + [r]);
      }
    }
  }

  lemma BucketUpdate(index: Index, k: string, s: seq<Record>)
    ensures Bucket(index[k := s], k) == s && forall j :: j != k ==> Bucket(index[k := s], j) == Bucket(index, j)
  {
  }

  lemma {:induction false} FirstSoaAppend(a: seq<Record>, b: seq<Record>)
    ensures FirstSoa(a + b) == if FirstSoa(a).Some? then FirstSoa(a) else FirstSoa(b)
  {
    if |a| == 0 {
      assert a + b == b;
    } else {
      assert (a + b)[1..] == a[1..] + b;
      FirstSoaAppend(a[1..], b);
    }
  }

  lemma FirstSoaOne(r: Record)
    ensures FirstSoa([r]) == if r.data.Type() == SOA then Some(r) else None
  {
    assert [r][1..] == [];
  }

  /** The loop of `load_snapshot`: files every record, remembering the first apex SOA. */
  method FileRecords(ok: NameCheck, zone: string, ttl: u32, records: seq<JsonRecord>)
      returns (index: Option<Index>, soa: Option<Record>)
    ensures index.Some? <==> AllParse(ok, zone, ttl, records)
    ensures index.Some? ==>
              && Indexes(ok, zone, ttl, records, [], index.value)
              && soa == FirstSoa(Filed(ok, zone, ttl, records, zone))
  {
    hide Parsed, Filed, FirstSoa, Indexes;
    FiledNothing(ok, zone, ttl, records);
    var built: Index := map[];
    soa := None;
    assert records[..|records|] == records;
    for i := 0 to |records|
      invariant AllParse(ok, zone, ttl, records[..i])
      invariant Indexes(ok, zone, ttl, records[..i], [], built)
      invariant soa == FirstSoa(Filed(ok, zone, ttl, records[..i], zone))
    {
      var p := Parsed(ok, zone, ttl, records[i]);
      if p.None? {
        return None, None;
      }
      var (key, record) := p.value;
      FiledStep(ok, zone, ttl, records, i);
      FirstSoaAppend(Filed(ok, zone, ttl, records[..i], zone), [record]);
      FirstSoaOne(record);
      if record.data.Type() == SOA && key == zone && soa.None? {
        soa := Some(record);
      }
      IndexesStep(ok, zone, ttl, records, i, built);
      built := built[key := Bucket(built, key) + [record]];
    }
    index := Some(built);
  }

  lemma IndexesStep(ok: NameCheck, zone: string, ttl: u32, records: seq<JsonRecord>, i: nat, index: Index)
    requires i < |records| && AllParse(ok, zone, ttl, records[..i]) && AllParse(ok, zone, ttl, records[..i + 1])
    requires Parsed(ok, zone, ttl, records[i]).Some? && Indexes(ok, zone, ttl, records[..i], [], index)
    ensures var (key, record) := Parsed(ok, zone, ttl, records[i]).value;
            Indexes(ok, zone, ttl, records[..i + 1], [], index[key := Bucket(index, key) + [record]])
  {
    hide Parsed, Filed, Records, ParsedRecords, Bucket;
    BucketUpdate(index, Parsed(ok, zone, ttl, records[i]).value.0,
                 Bucket(index, Parsed(ok, zone, ttl, records[i]).value.0) + [Parsed(ok, zone, ttl, records[i]).value.1]);
    var (key, record) := Parsed(ok, zone, ttl, records[i]).value;
    var more := index[key := Bucket(index, key) + [record]];
    FiledStep(ok, zone, ttl, records, i);
    FilingAddsOne(index, key, record);
    ParsedRecordsStep(ok, zone, ttl, records, i);
    forall k
      ensures Bucket(more, k) == Filed(ok, zone, ttl, records[..i + 1], k) + []
    {
      assert Bucket(index, k) == Filed(ok, zone, ttl, records[..i], k) + [];
    }
  }

  lemma FiledNothing(ok: NameCheck, zone: string, ttl: u32, records: seq<JsonRecord>)
    ensures AllParse(ok, zone, ttl, records[..0])
    ensures Indexes(ok, zone, ttl, records[..0], [], map[])
    ensures FirstSoa(Filed(ok, zone, ttl, records[..0], zone)) == None
  {
  }

  lemma ParsedRecordsStep(ok: NameCheck, zone: string, ttl: u32, records: seq<JsonRecord>, i: nat)
    requires i < |records| && AllParse(ok, zone, ttl, records[..i + 1]) && AllParse(ok, zone, ttl, records[..i])
    requires Parsed(ok, zone, ttl, records[i]).Some?
    ensures multiset(ParsedRecords(ok, zone, ttl, records[..i + 1])) ==
            multiset(ParsedRecords(ok, zone, ttl, records[..i])) + multiset{Parsed(ok, zone, ttl, records[i]).value.1}
  {
    hide Parsed;
    assert ParsedRecords(ok, zone, ttl, records[..i + 1]) ==
           ParsedRecords(ok, zone, ttl, records[..i]) + [Parsed(ok, zone, ttl, records[i]).value.1];
  }

  lemma FiledStep(ok: NameCheck, zone: string, ttl: u32, records: seq<JsonRecord>, i: nat)
    requires i < |records| && AllParse(ok, zone, ttl, records[..i]) && Parsed(ok, zone, ttl, records[i]).Some?
    ensures AllParse(ok, zone, ttl, records[..i + 1])
    ensures var p := Parsed(ok, zone, ttl, records[i]).value;
            forall k :: Filed(ok, zone, ttl, records[..i + 1], k) ==
                        if p.0 == k then Filed(ok, zone, ttl, records[..i], k) + [p.1]
                        else Filed(ok, zone, ttl, records[..i], k)
  {
    hide Parsed;
    var s := records[..i + 1];
    assert s[..|s| - 1] == records[..i];
  }

  /** `load_snapshot` on a document that has been read and parsed. */
  method LoadSnapshot(ok: NameCheck, expected: string, doc: Document) returns (r: Option<Snapshot>)
    ensures r.Some? <==> Loadable(ok, expected, doc)
    ensures r.Some? ==> Loaded(ok, expected, doc, r.value)
  {
    hide Filed, FirstSoa, DefaultNs, DefaultSoa, NormalizeName, HasType, Indexes;
    var jsonZone := NormalizeName(doc.zone);
    if jsonZone.None? { return None; }
    var zone := jsonZone.value;
    if NormalizeName(expected) != jsonZone { return None; }
    var ttl := TtlDefault(doc);
    var filed, soa := FileRecords(ok, zone, ttl, doc.records);
    if filed.None? { return None; }
    var index := filed.value;
    ghost var ns, own: seq<Record> := [], [];
    ApexBucket(ok, zone, ttl, doc.records, [], index);
    ghost var apex := Filed(ok, zone, ttl, doc.records, zone);
    assert Bucket(index, zone) == apex;
    if !HasType(Bucket(index, zone), NS) {
      var record := DefaultNs(ok, zone, ttl);
      if record.None? { return None; }
      IndexesOneMore(ok, zone, ttl, doc.records, [], index, record.value);
      NsIsNotSoa(ok, zone, ttl, apex);
      ns := [record.value];
      assert [] + ns == ns;
      index := index[zone := Bucket(index, zone) + [record.value]];
    }
    if soa.None? {
      soa := DefaultSoa(ok, zone, ttl, doc.serial);
      if soa.None? { return None; }
      IndexesOneMore(ok, zone, ttl, doc.records, ns, index, soa.value);
      FirstSoaAppend(Bucket(index, zone), [soa.value]);
      SoaIsSoa(ok, zone, ttl, doc.serial);
      own := [soa.value];
      index := index[zone := Bucket(index, zone) + [soa.value]];
    } else {
      assert ns + own == ns;
    }
    assert Defaults(ok, zone, ttl, doc.serial, apex) == Some(ns + own);
    r := Some(Snapshot(zone, index, soa));
  }

  lemma ApexBucket(ok: NameCheck, zone: string, ttl: u32, records: seq<JsonRecord>, added: seq<Record>, index: Index)
    requires AllParse(ok, zone, ttl, records) && Indexes(ok, zone, ttl, records, added, index)
    ensures Bucket(index, zone) == Filed(ok, zone, ttl, records, zone) + added
  {
  }

  lemma NsIsNotSoa(ok: NameCheck, zone: string, ttl: u32, apex: seq<Record>)
    requires DefaultNs(ok, zone, ttl).Some?
    ensures FirstSoa(apex + [DefaultNs(ok, zone, ttl).value]) == FirstSoa(apex)
  {
    hide FqdnToName, FirstSoa;
    FirstSoaAppend(apex, [DefaultNs(ok, zone, ttl).value]);
    FirstSoaOne(DefaultNs(ok, zone, ttl).value);
  }

  lemma SoaIsSoa(ok: NameCheck, zone: string, ttl: u32, serial: Option<u32>)
    requires DefaultSoa(ok, zone, ttl, serial).Some?
    ensures FirstSoa([DefaultSoa(ok, zone, ttl, serial).value]) == DefaultSoa(ok, zone, ttl, serial)
  {
    hide FqdnToName, FirstSoa;
    FirstSoaOne(DefaultSoa(ok, zone, ttl, serial).value);
  }

  // ----- What a load guarantees -----

  lemma {:induction false} FirstSoaInBucket(records: seq<Record>)
    ensures FirstSoa(records).Some? <==> HasType(records, SOA)
    ensures FirstSoa(records).Some? ==> FirstSoa(records).value in records
  {
    if |records| > 0 {
      FirstSoaInBucket(records[1..]);
      if records[0].data.Type() != SOA {
        if HasType(records, SOA) {
          var i :| 0 <= i < |records| && records[i].data.Type() == SOA;
          assert records[1..][i - 1] == records[i];
        }
        if HasType(records[1..], SOA) {
          var i :| 0 <= i < |records[1..]| && records[1..][i].data.Type() == SOA;
          assert records[i + 1] == records[1..][i];
        }
      }
    }
  }

  /** Every loaded zone has an apex NS, and an SOA that is itself in the apex bucket. */
  lemma LoadedApexIsComplete(ok: NameCheck, expected: string, doc: Document, snap: Snapshot)
    requires Loaded(ok, expected, doc, snap)
    ensures snap.zone in snap.index && HasType(snap.index[snap.zone], NS)
    ensures snap.soa.Some? && snap.soa.value in snap.index[snap.zone] && snap.soa.value.data.Type() == SOA
  {
    hide Filed, NormalizeName, Indexes, FirstSoa, Defaults, HasType;
    var zone, ttl := snap.zone, TtlDefault(doc);
    var apex := Filed(ok, zone, ttl, doc.records, zone);
    var added := Defaults(ok, zone, ttl, doc.serial, apex).value;
    ApexBucket(ok, zone, ttl, doc.records, added, snap.index);
    DefaultsComplete(ok, zone, ttl, doc.serial, apex);
    FirstSoaInBucket(apex + added);
    FirstSoaType(apex + added);
    EmptyHasNoType(NS);
  }

  lemma EmptyHasNoType(t: RecordType)
    ensures !HasType([], t)
  {
  }

  lemma DefaultsComplete(ok: NameCheck, zone: string, ttl: u32, serial: Option<u32>, apex: seq<Record>)
    requires Defaults(ok, zone, ttl, serial, apex).Some?
    ensures var b := apex + Defaults(ok, zone, ttl, serial, apex).value; HasType(b, NS) && FirstSoa(b).Some?
  {
    hide FqdnToName, FirstSoa;
    var d := Defaults(ok, zone, ttl, serial, apex).value;
    var b := apex + d;
    if HasType(apex, NS) {
      var i :| 0 <= i < |apex| && apex[i].data.Type() == NS;
      assert b[i] == apex[i];
    } else {
      assert b[|apex|] == DefaultNs(ok, zone, ttl).value;
    }
    FirstSoaAppend(apex, d);
    if FirstSoa(apex).None? {
      SoaIsSoa(ok, zone, ttl, serial);
      FirstSoaAppend(d[..|d| - 1], [DefaultSoa(ok, zone, ttl, serial).value]);
      assert d == d[..|d| - 1] + [DefaultSoa(ok, zone, ttl, serial).value];
    }
  }

  lemma {:induction false} FirstSoaType(records: seq<Record>)
    ensures FirstSoa(records).Some? ==> FirstSoa(records).value.data.Type() == SOA
  {
    if |records| > 0 {
      FirstSoaType(records[1..]);
    }
  }

  /** Each filed record bears the name of its bucket. */
  lemma {:induction false} FiledUnderOwner(ok: NameCheck, zone: string, ttl: u32, records: seq<JsonRecord>, k: string, i: nat)
    requires AllParse(ok, zone, ttl, records) && i < |Filed(ok, zone, ttl, records, k)|
    ensures Some(Filed(ok, zone, ttl, records, k)[i].name) == FqdnToName(ok, k)
  {
    hide FqdnToName, RecordKey;
    var front := records[..|records| - 1];
    if i < |Filed(ok, zone, ttl, front, k)| {
      FiledUnderOwner(ok, zone, ttl, front, k, i);
    }
  }

  /** Every record of the document is in the bucket of its own key. */
  lemma {:induction false} EveryRecordIsFiled(ok: NameCheck, zone: string, ttl: u32, records: seq<JsonRecord>, i: nat)
    requires AllParse(ok, zone, ttl, records) && i < |records|
    ensures var p := Parsed(ok, zone, ttl, records[i]).value; p.1 in Filed(ok, zone, ttl, records, p.0)
    decreases |records|
  {
    hide Parsed;
    if i < |records| - 1 {
      EveryRecordIsFiled(ok, zone, ttl, records[..|records| - 1], i);
    }
  }

  // ----- Answering -----

  /** `filter_answers`: exactly the records of the asked type, all of them for ANY. */
  function FilterAnswers(records: seq<Record>, t: RecordType): (r: seq<Record>)
    ensures forall x :: multiset(r)[x] == if t == ANY || x.data.Type() == t then multiset(records)[x] else 0
    ensures t == ANY ==> r == records
  {
    if t == ANY then records
    else if |records| == 0 then []
    else
      assert records == [records[0]] + records[1..];
      (if records[0].data.Type() == t then [records[0]] else []) + FilterAnswers(records[1..], t)
  }

  /** The asked type, or else the aliases. */
  function Answers(records: seq<Record>, t: RecordType): seq<Record> {
    var a := FilterAnswers(records, t);
    if a == [] && t != CNAME then FilterAnswers(records, CNAME) else a
  }

  /** A positive answer is exactly the records of the asked type, or else exactly the aliases. */
  lemma AnswersExactly(records: seq<Record>, t: RecordType)
    ensures forall x :: multiset(Answers(records, t))[x] ==
                        if t == ANY || x.data.Type() == t || (x.data.Type() == CNAME && !HasType(records, t))
                        then multiset(records)[x] else 0
  {
    hide FilterAnswers;
    var a := FilterAnswers(records, t);
    if t != ANY {
      if HasType(records, t) {
        var i :| 0 <= i < |records| && records[i].data.Type() == t;
        assert records[i] in multiset(records);
        assert multiset(a)[records[i]] > 0;
      } else {
        assert forall x: Record :: x in records ==> x.data.Type() != t;
      }
    }
  }

  /** The record data that answers a question of the given type directly. */
  predicate IsData(d: RData, t: RecordType) {
    match t
    case A => d.V4?
    case AAAA => d.V6?
    case NS => d.NsData?
    case CNAME => d.CnameData?
    case SOA => d.SoaData?
    case ANY => true
    case OtherType(code) => d.OtherData? && d.code == code
  }

  /** The same, told by what the records hold. */
  lemma AnswersByData(records: seq<Record>, t: RecordType)
    ensures var direct := exists i :: 0 <= i < |records| && IsData(records[i].data, t);
            forall x :: multiset(Answers(records, t))[x] ==
                        if IsData(x.data, t) || (!direct && x.data.CnameData?) then multiset(records)[x] else 0
  {
    AnswersExactly(records, t);
    hide Answers;
    if t == ANY {
      assert forall x: Record :: IsData(x.data, t);
    } else {
      assert forall x: Record :: IsData(x.data, t) <==> x.data.Type() == t;
    }
    assert forall x: Record :: x.data.CnameData? <==> x.data.Type() == CNAME;
  }

  /** Record equality of the DNS library: the time-to-live does not count. */
  predicate SameRecord(a: Record, b: Record) { a.name == b.name && a.data == b.data }

  predicate IsAddress(r: Record) { r.data.Type() == A || r.data.Type() == AAAA }

  /** `r` is an address record indexed at the target of an answered NS record. */
  ghost predicate IsGlue(r: Record, answers: seq<Record>, index: Index) {
    exists i :: 0 <= i < |answers| && GlueFrom(r, answers[i], index)
  }

  ghost predicate GlueFrom(r: Record, answer: Record, index: Index) {
    && answer.data.NsData? && NormalizeName(answer.data.target).Some?
    && r in Bucket(index, NormalizeName(answer.data.target).value) && (r.data.V4? || r.data.V6?)
  }

  ghost predicate Covered(r: Record, glue: seq<Record>) {
    exists j :: 0 <= j < |glue| && glue[j].name == r.name && glue[j].data == r.data
  }

  ghost predicate NoDuplicates(glue: seq<Record>) {
    forall i, j :: 0 <= i < j < |glue| ==> glue[i].name != glue[j].name || glue[i].data != glue[j].data
  }

  method AddGlue(glue: seq<Record>, candidate: Record) returns (r: seq<Record>)
    requires NoDuplicates(glue)
    ensures NoDuplicates(r) && Covered(candidate, r) && (r == glue || r == glue + [candidate])
  {
    for i := 0 to |glue|
      invariant forall j :: 0 <= j < i ==> !SameRecord(glue[j], candidate)
    {
      if SameRecord(glue[i], candidate) {
        return glue;
      }
    }
    r := glue + [candidate];
    assert SameRecord(r[|glue|], candidate);
  }

  lemma CoveredGrows(x: Record, glue: seq<Record>, more: seq<Record>)
    requires Covered(x, glue) && glue <= more
    ensures Covered(x, more)
  {
    var j :| 0 <= j < |glue| && glue[j].name == x.name && glue[j].data == x.data;
    assert more[j] == glue[j];
  }

  /** Adds the address records of one bucket. */
  method AddBucketGlue(glue: seq<Record>, bucket: seq<Record>) returns (r: seq<Record>)
    requires NoDuplicates(glue)
    ensures NoDuplicates(r) && glue <= r
    ensures forall i :: |glue| <= i < |r| ==> r[i] in bucket && (r[i].data.V4? || r[i].data.V6?)
    ensures forall x :: x in bucket && (x.data.V4? || x.data.V6?) ==> Covered(x, r)
  {
    hide NoDuplicates, Covered;
    r := glue;
    for i := 0 to |bucket|
      invariant NoDuplicates(r) && glue <= r
      invariant forall j :: |glue| <= j < |r| ==> r[j] in bucket && IsAddress(r[j])
      invariant forall j :: 0 <= j < i && IsAddress(bucket[j]) ==> Covered(bucket[j], r)
    {
      if IsAddress(bucket[i]) {
        var before := r;
        r := AddGlue(before, bucket[i]);
        forall j | 0 <= j < i && IsAddress(bucket[j])
          ensures Covered(bucket[j], r)
        {
          CoveredGrows(bucket[j], before, r);
        }
      }
    }
  }

  /** `collect_ns_glue_records`: all the glue, nothing but glue, and no record twice. */
  method CollectGlue(answers: seq<Record>, index: Index) returns (glue: seq<Record>)
    ensures NoDuplicates(glue)
    ensures forall i :: 0 <= i < |glue| ==> IsGlue(glue[i], answers, index)
    ensures forall x :: IsGlue(x, answers, index) ==> Covered(x, glue)
  {
    hide Covered, NormalizeName;
    glue := [];
    for i := 0 to |answers|
      invariant NoDuplicates(glue)
      invariant forall j :: 0 <= j < |glue| ==> IsGlue(glue[j], answers, index)
      invariant forall x, j :: 0 <= j < i && GlueFrom(x, answers[j], index) ==> Covered(x, glue)
    {
      var answer := answers[i];
      if !answer.data.NsData? {
        continue;
      }
      var key := NormalizeName(answer.data.target);
      if key.None? {
        continue;
      }
      if key.value !in index {
        continue;
      }
      var before := glue;
      glue := AddBucketGlue(before, index[key.value]);
      GlueStep(answers, index, i, before, glue);
    }
  }

  lemma GlueStep(answers: seq<Record>, index: Index, i: nat, before: seq<Record>, glue: seq<Record>)
    requires i < |answers| && answers[i].data.NsData? && NormalizeName(answers[i].data.target).Some?
    requires NormalizeName(answers[i].data.target).value in index && before <= glue
    requires forall j :: 0 <= j < |before| ==> IsGlue(before[j], answers, index)
    requires var b := index[NormalizeName(answers[i].data.target).value];
             && (forall j :: |before| <= j < |glue| ==> glue[j] in b && (glue[j].data.V4? || glue[j].data.V6?))
             && (forall x :: x in b && (x.data.V4? || x.data.V6?) ==> Covered(x, glue))
    requires forall x, j :: 0 <= j < i && GlueFrom(x, answers[j], index) ==> Covered(x, before)
    ensures forall j :: 0 <= j < |glue| ==> IsGlue(glue[j], answers, index)
    ensures forall x, j :: 0 <= j < i + 1 && GlueFrom(x, answers[j], index) ==> Covered(x, glue)
  {
    hide Covered, NormalizeName;
    forall j | 0 <= j < |glue|
      ensures IsGlue(glue[j], answers, index)
    {
      if j >= |before| {
        assert GlueFrom(glue[j], answers[i], index);
      } else {
        assert glue[j] == before[j];
      }
    }
    forall x, j | 0 <= j < i + 1 && GlueFrom(x, answers[j], index)
      ensures Covered(x, glue)
    {
      if j < i {
        CoveredGrows(x, before, glue);
      }
    }
  }

  /** The normalised name a request asks for. */
  function QueryName(m: Message): Option<string> {
    if |m.questions| == 0 then None else NormalizeName(m.questions[0].name)
  }

  /** What every reply from a snapshot must look like. */
  ghost predicate CorrectReply(snap: Snapshot, m: Message, reply: Message)
    requires QueryName(m).Some?
  {
    var name, q := QueryName(m).value, m.questions[0];
    && reply.id == m.id && reply.isResponse && reply.authoritative && reply.questions == [q]
    && !reply.truncated && !reply.recursionAvailable && reply.recursionDesired == m.recursionDesired
    && (reply.code == Refused <==> !SuffixMatch(name, snap.zone))
    && (reply.code == Refused ==> reply.answers == [] && reply.authorities == [] && reply.additionals == [])
    && (reply.code != Refused ==>
          && (reply.code == NXDomain <==> name !in snap.index)
          && (reply.code == NoError <==> name in snap.index)
          && reply.answers == Answers(Bucket(snap.index, name), q.qtype)
          && (reply.answers == [] ==> snap.soa.Some? && reply.authorities == [snap.soa.value] && reply.additionals == [])
          && (reply.answers != [] ==> reply.authorities == [])
          && NoDuplicates(reply.additionals)
          && (forall i :: 0 <= i < |reply.additionals| ==> IsGlue(reply.additionals[i], reply.answers, snap.index))
          && (forall x :: IsGlue(x, reply.answers, snap.index) ==> Covered(x, reply.additionals)))
  }

  lemma NoAnswersNoGlue(index: Index, t: RecordType)
    ensures forall x :: !IsGlue(x, [], index)
    ensures Answers([], t) == []
  {
  }

  class AuthorityResolver {
    const ok: NameCheck
    const zone: string
    var snapshot: Snapshot

    /** The configured zone is named, and the snapshot was loaded for it. */
    ghost predicate Valid()
      reads this
    {
      NormalizeName(zone) == Some(snapshot.zone) && snapshot.soa.Some?
    }

    /** `from_source`, once the initial load has succeeded. */
    constructor (ok: NameCheck, zone: string, doc: Document, initial: Snapshot)
      requires Loaded(ok, zone, doc, initial)
      ensures Valid() && this.zone == zone && this.ok == ok && snapshot == initial
    {
      LoadedApexIsComplete(ok, zone, doc, initial);
      this.ok := ok;
      this.zone := zone;
      this.snapshot := initial;
    }

    /** One round of the refresh task; `fetched` is absent when download or JSON parsing failed. */
    method Refresh(fetched: Option<Document>)
      requires Valid()
      modifies this
      ensures Valid()
      ensures fetched.Some? && Loadable(ok, zone, fetched.value) ==> Loaded(ok, zone, fetched.value, snapshot)
      ensures fetched.None? || !Loadable(ok, zone, fetched.value) ==> snapshot == old(snapshot)
    {
      if fetched.Some? {
        var loaded := LoadSnapshot(ok, zone, fetched.value);
        if loaded.Some? {
          LoadedApexIsComplete(ok, zone, fetched.value, loaded.value);
          snapshot := loaded.value;
        }
      }
    }

    /** What `resolve` answers to a request that decodes. */
    method Answer(m: Message) returns (r: Result<Message, ResolveError>)
      requires Valid()
      ensures r.Ok? <==> QueryName(m).Some?
      ensures r.Ok? ==> CorrectReply(snapshot, m, r.value)
    {
      hide NormalizeName, SuffixMatch, IsGlue, Covered, NoDuplicates, FilterAnswers;
      if |m.questions| == 0 {
        return Err(Protocol("DNS query has no question"));
      }
      var question := m.questions[0];
      var name := NormalizeName(question.name);
      if name.None? {
        return Err(Protocol("invalid query name"));
      }
      var reply := NewResponse(m.id).(recursionDesired := m.recursionDesired, authoritative := true,
                                      questions := [question]);
      if !SuffixMatch(name.value, snapshot.zone) {
        return Ok(reply.(code := Refused));
      }
      NoAnswersNoGlue(snapshot.index, question.qtype);
      EmptyNoDuplicates();
      var soa := if snapshot.soa.Some? then [snapshot.soa.value] else [];
      if name.value in snapshot.index {
        var records := snapshot.index[name.value];
        var answers := FilterAnswers(records, question.qtype);
        if answers == [] && question.qtype != CNAME {
          answers := FilterAnswers(records, CNAME);
        }
        assert answers == Answers(records, question.qtype);
        if answers == [] {
          reply := reply.(code := NoError, authorities := soa);
        } else {
          var glue := CollectGlue(answers, snapshot.index);
          reply := reply.(code := NoError, answers := answers, additionals := glue);
        }
      } else {
        reply := reply.(code := NXDomain, authorities := soa);
      }
      r := Ok(reply);
    }

    /** `resolve`: an undecodable or unnamed query and an unencodable reply are protocol errors. */
    method Resolve(c: Codec, query: Bytes) returns (r: Result<Bytes, ResolveError>)
      requires Valid()
      ensures r.Err? ==> r.error.Protocol?
      ensures var q := c.decode(query);
              if q.None? || QueryName(q.value).None? then r.Err?
              else exists reply :: CorrectReply(snapshot, q.value, reply) &&
                                   if r.Ok? then c.encode(reply) == Some(r.value) else c.encode(reply) == None
    {
      hide CorrectReply, QueryName;
      var q := c.decode(query);
      if q.None? {
        return Err(Protocol("invalid DNS query"));
      }
      var reply := Answer(q.value);
      if reply.Err? {
        return Err(Protocol("invalid query name"));
      }
      var encoded := c.encode(reply.value);
      assert CorrectReply(snapshot, q.value, reply.value);
      if encoded.None? {
        return Err(Protocol("failed to encode DNS response"));
      }
      return Ok(encoded.value);
    }
  }

  lemma EmptyNoDuplicates()
    ensures NoDuplicates([])
  {
  }

  // ----- Never REFUSED behind the forwarding stage -----

  ghost predicate LoadedFor(ok: NameCheck, zone: string, snap: Snapshot) {
    exists doc :: Loaded(ok, zone, doc, snap)
  }

  /** The snapshots of one resolver over time: each refresh installs a loaded document or changes nothing. */
  ghost predicate RefreshRun(ok: NameCheck, zone: string, snaps: seq<Snapshot>) {
    && |snaps| > 0 && LoadedFor(ok, zone, snaps[0])
    && forall i :: 0 <= i < |snaps| - 1 ==> snaps[i + 1] == snaps[i] || LoadedFor(ok, zone, snaps[i + 1])
  }

  lemma {:induction false} RefreshKeepsZone(ok: NameCheck, zone: string, snaps: seq<Snapshot>, i: nat)
    requires RefreshRun(ok, zone, snaps) && i < |snaps|
    ensures NormalizeName(zone) == Some(snaps[i].zone)
  {
    hide NormalizeName, Loaded;
    if i > 0 {
      RefreshKeepsZone(ok, zone, snaps, i - 1);
      assert snaps[i - 1 + 1] == snaps[i];
    }
    if LoadedFor(ok, zone, snaps[i]) {
      var doc :| Loaded(ok, zone, doc, snaps[i]);
      LoadedZone(ok, zone, doc, snaps[i]);
    }
  }

  lemma LoadedZone(ok: NameCheck, zone: string, doc: Document, snap: Snapshot)
    requires Loaded(ok, zone, doc, snap)
    ensures NormalizeName(zone) == Some(snap.zone)
  {
  }

  /**
   An authoritative zone is only asked for names inside it: after any refreshes, a request that the
   forwarding stage hands to the zone's entry is answered, and never with REFUSED.
   */
  lemma ForwardedQueriesAreNotRefused(ok: NameCheck, zone: string, snaps: seq<Snapshot>, i: nat,
                                      entry: ZoneEntry, m: Message, reply: Message)
    requires RefreshRun(ok, zone, snaps) && i < |snaps|
    requires NewEntry(zone, entry.bypassFilter, entry.fallback, entry.resolver) == Some(entry)
    requires |m.questions| > 0 && NormalizeZone(m.questions[0].name).Some?
    requires Matches(entry, NormalizeZone(m.questions[0].name).value)
    ensures QueryName(m).Some?
    ensures CorrectReply(snaps[i], m, reply) ==> reply.code != Refused
  {
    hide Loaded, RefreshRun, NormalizeZone, NormalizeName;
    RefreshKeepsZone(ok, zone, snaps, i);
    NormalisersAgree(zone);
    NormalisersAgree(m.questions[0].name);
    if NormalizeZone(m.questions[0].name) == Some(".") {
      RootInsideOnlyRoot(entry.zone);
    }
  }

  // ----- Loading, told from the document alone -----

  /** The rule for record names: `@` is the apex, a trailing dot marks a full name, others are in the zone. */
  ghost predicate NamesOwner(zone: string, name: string, key: string) {
    var t := Trim(name);
    && |t| > 0
    && if t == "@" then key == zone
       else if t[|t| - 1] == '.' then IsNormalForm(t, key)
       else IsNormalForm(t + "." + zone, key)
  }

  /** The record is the document's entry, under the owner name that its key denotes. */
  ghost predicate IsRecordOf(doc: Document, entry: JsonRecord, key: string, r: Record) {
    && entry.data == Some(r.data)
    && r.ttl == (if entry.ttl.Some? then entry.ttl.value else if doc.ttlDefault.Some? then doc.ttlDefault.value else 3600)
    && IsFullName(key, r.name)
  }

  /** The name written out with its closing dot. */
  ghost predicate IsFullName(name: string, full: string) {
    |full| > 0 && full[|full| - 1] == '.' && IsNormalForm(name, full[..|full| - 1])
  }

  lemma KeyIsOwner(zone: string, name: string, key: string)
    ensures RecordKey(zone, name) == Some(key) <==> NamesOwner(zone, name, key)
  {
    hide Trim, NormalizeName, IsNormalForm;
    NormalizeNameExactly(Trim(name), key);
    NormalizeNameExactly(Trim(name) + "." + zone, key);
  }

  lemma FqdnIsFullName(ok: NameCheck, name: string, full: string)
    requires FqdnToName(ok, name) == Some(full)
    ensures IsFullName(name, full)
  {
    hide NormalizeName, IsNormalForm;
    var n := NormalizeName(name).value;
    NormalizeNameExactly(name, n);
    assert full[..|full| - 1] == n;
  }

  lemma ParsedIsRecordOf(ok: NameCheck, zone: string, doc: Document, entry: JsonRecord)
    requires Parsed(ok, zone, TtlDefault(doc), entry).Some?
    ensures var p := Parsed(ok, zone, TtlDefault(doc), entry).value;
            NamesOwner(zone, entry.name, p.0) && IsRecordOf(doc, entry, p.0, p.1)
  {
    hide RecordKey, FqdnToName, NamesOwner, IsFullName;
    var p := Parsed(ok, zone, TtlDefault(doc), entry).value;
    KeyIsOwner(zone, entry.name, p.0);
    FqdnIsFullName(ok, p.0, p.1.name);
  }

  /**
   Every entry of a loaded document is in the bucket its name denotes (the apex for `@`), with its
   own data, its own TTL or else the document's default, and its full owner name.
   */
  lemma EntriesAreFiledByName(ok: NameCheck, expected: string, doc: Document, snap: Snapshot, i: nat)
      returns (key: string, r: Record)
    requires Loaded(ok, expected, doc, snap) && i < |doc.records|
    ensures NamesOwner(snap.zone, doc.records[i].name, key) && IsRecordOf(doc, doc.records[i], key, r)
    ensures key in snap.index && r in snap.index[key]
    ensures IsNormalForm(doc.zone, snap.zone)
  {
    hide Filed, FirstSoa, Defaults, Parsed, Records, ParsedRecords, NamesOwner, IsRecordOf, NormalizeName, IsNormalForm;
    var zone, ttl := snap.zone, TtlDefault(doc);
    NormalizeNameExactly(doc.zone, zone);
    var p := Parsed(ok, zone, ttl, doc.records[i]).value;
    key, r := p.0, p.1;
    ParsedIsRecordOf(ok, zone, doc, doc.records[i]);
    EveryRecordIsFiled(ok, zone, ttl, doc.records, i);
    InBucket(ok, zone, ttl, doc.records, Defaults(ok, zone, ttl, doc.serial, Filed(ok, zone, ttl, doc.records, zone)).value,
             snap.index, key, r);
  }

  lemma InBucket(ok: NameCheck, zone: string, ttl: u32, records: seq<JsonRecord>, added: seq<Record>, index: Index,
                 k: string, r: Record)
    requires AllParse(ok, zone, ttl, records) && Indexes(ok, zone, ttl, records, added, index)
    requires r in Filed(ok, zone, ttl, records, k)
    ensures k in index && r in index[k]
  {
    hide Filed, Records, ParsedRecords, AllParse;
    assert r in Filed(ok, zone, ttl, records, k) + (if k == zone then added else []);
    assert r in Bucket(index, k);
  }

  /** The entry is an SOA at the apex of the zone. */
  ghost predicate IsApexSoa(zone: string, entry: JsonRecord) {
    entry.data.Some? && entry.data.value.SoaData? && NamesOwner(zone, entry.name, zone)
  }

  ghost predicate IsApexNs(zone: string, entry: JsonRecord) {
    entry.data.Some? && entry.data.value.NsData? && NamesOwner(zone, entry.name, zone)
  }

  /** The first SOA filed at the apex is the document's first apex SOA entry. */
  lemma {:induction false} FirstFiledSoa(ok: NameCheck, zone: string, doc: Document, records: seq<JsonRecord>) returns (i: int)
    requires AllParse(ok, zone, TtlDefault(doc), records)
    ensures var soa := FirstSoa(Filed(ok, zone, TtlDefault(doc), records, zone));
            if soa.None? then forall j :: 0 <= j < |records| ==> !IsApexSoa(zone, records[j])
            else 0 <= i < |records| && IsApexSoa(zone, records[i]) && IsRecordOf(doc, records[i], zone, soa.value) &&
                 forall j :: 0 <= j < i ==> !IsApexSoa(zone, records[j])
  {
    hide Parsed, Filed, AllParse, FirstSoa, IsApexSoa, IsRecordOf;
    var ttl := TtlDefault(doc);
    i := 0;
    if |records| == 0 {
      NothingFiled(ok, zone, ttl, zone);
      NoFirstSoa();
    } else {
      var front, last := records[..|records| - 1], records[|records| - 1];
      FiledLast(ok, zone, ttl, records, zone);
      i := FirstFiledSoa(ok, zone, doc, front);
      assert forall j :: 0 <= j < |front| ==> front[j] == records[j];
      var p := Parsed(ok, zone, ttl, last).value;
      var more := if p.0 == zone then [p.1] else [];
      FirstSoaAppend(Filed(ok, zone, ttl, front, zone), more);
      FirstSoaOne(p.1);
      NoFirstSoa();
      LastApexSoa(ok, zone, doc, last);
      if FirstSoa(Filed(ok, zone, ttl, front, zone)).None? {
        i := |front|;
      }
    }
  }

  lemma NoFirstSoa()
    ensures FirstSoa([]) == None
  {
  }

  lemma LastApexSoa(ok: NameCheck, zone: string, doc: Document, entry: JsonRecord)
    requires Parsed(ok, zone, TtlDefault(doc), entry).Some?
    ensures var p := Parsed(ok, zone, TtlDefault(doc), entry).value;
            && (IsApexSoa(zone, entry) <==> p.0 == zone && p.1.data.Type() == SOA)
            && (p.0 == zone ==> IsRecordOf(doc, entry, zone, p.1))
            && (IsApexNs(zone, entry) <==> p.0 == zone && p.1.data.Type() == NS)
  {
    hide RecordKey, NamesOwner, Parsed, IsFullName;
    ParsedIsRecordOf(ok, zone, doc, entry);
    ParsedKey(ok, zone, TtlDefault(doc), entry);
    KeyIsOwner(zone, entry.name, zone);
  }

  /**
   The SOA of a loaded zone is the document's first apex SOA entry; if it has none, one that names
   `ns1` and `hostmaster` in the zone, with the document's serial or else 1, and MINIMUM 300.
   */
  lemma LoadedSoa(ok: NameCheck, expected: string, doc: Document, snap: Snapshot) returns (i: int)
    requires Loaded(ok, expected, doc, snap)
    ensures snap.soa.Some?
    ensures if forall j :: 0 <= j < |doc.records| ==> !IsApexSoa(snap.zone, doc.records[j])
            then IsDefaultSoa(doc, snap.zone, snap.soa.value)
            else 0 <= i < |doc.records| && IsApexSoa(snap.zone, doc.records[i]) &&
                 (forall j :: 0 <= j < i ==> !IsApexSoa(snap.zone, doc.records[j])) &&
                 IsRecordOf(doc, doc.records[i], snap.zone, snap.soa.value)
  {
    hide Filed, NormalizeName, Indexes, FirstSoa, Defaults, HasType, IsApexSoa, IsRecordOf, IsDefaultSoa;
    var zone, ttl := snap.zone, TtlDefault(doc);
    LoadedApexIsComplete(ok, expected, doc, snap);
    var apex := Filed(ok, zone, ttl, doc.records, zone);
    var added := Defaults(ok, zone, ttl, doc.serial, apex).value;
    ApexBucket(ok, zone, ttl, doc.records, added, snap.index);
    FirstSoaAppend(apex, added);
    i := FirstFiledSoa(ok, zone, doc, doc.records);
    if FirstSoa(apex).None? {
      DefaultSoaIsFirst(ok, zone, doc, apex);
    }
  }

  ghost predicate IsDefaultSoa(doc: Document, zone: string, r: Record) {
    && r.data.SoaData? && IsFullName(zone, r.name)
    && r.ttl == (if doc.ttlDefault.Some? then doc.ttlDefault.value else 3600)
    && IsFullName("ns1." + zone, r.data.mname) && IsFullName("hostmaster." + zone, r.data.rname)
    && r.data.serial == (if doc.serial.Some? then doc.serial.value else 1) && r.data.minimum == 300
  }

  lemma DefaultSoaIsFirst(ok: NameCheck, zone: string, doc: Document, apex: seq<Record>)
    requires Defaults(ok, zone, TtlDefault(doc), doc.serial, apex).Some? && FirstSoa(apex).None?
    ensures var soa := FirstSoa(Defaults(ok, zone, TtlDefault(doc), doc.serial, apex).value);
            soa.Some? && IsDefaultSoa(doc, zone, soa.value)
  {
    hide FqdnToName, FirstSoa, IsFullName;
    var ttl := TtlDefault(doc);
    var d := Defaults(ok, zone, ttl, doc.serial, apex).value;
    var soa := DefaultSoa(ok, zone, ttl, doc.serial).value;
    FqdnIsFullName(ok, zone, soa.name);
    FqdnIsFullName(ok, "ns1." + zone, soa.data.mname);
    FqdnIsFullName(ok, "hostmaster." + zone, soa.data.rname);
    SoaIsSoa(ok, zone, ttl, doc.serial);
    NoFirstSoa();
    if HasType(apex, NS) {
      assert d == [soa];
    } else {
      var ns := DefaultNs(ok, zone, ttl).value;
      assert d == [ns] + [soa];
      FirstSoaOne(ns);
      FirstSoaAppend([ns], [soa]);
    }
  }

  /** A loaded zone without an apex NS entry has one that names `ns1` in the zone. */
  lemma LoadedNs(ok: NameCheck, expected: string, doc: Document, snap: Snapshot) returns (r: Record)
    requires Loaded(ok, expected, doc, snap)
    requires forall j :: 0 <= j < |doc.records| ==> !IsApexNs(snap.zone, doc.records[j])
    ensures snap.zone in snap.index && r in snap.index[snap.zone]
    ensures r.data.NsData? && IsFullName(snap.zone, r.name) && IsFullName("ns1." + snap.zone, r.data.target)
    ensures r.ttl == (if doc.ttlDefault.Some? then doc.ttlDefault.value else 3600)
  {
    hide Filed, NormalizeName, Indexes, FirstSoa, IsApexNs, FqdnToName, IsFullName, DefaultSoa, HasType;
    var zone, ttl := snap.zone, TtlDefault(doc);
    LoadedApexIsComplete(ok, expected, doc, snap);
    var apex := Filed(ok, zone, ttl, doc.records, zone);
    var added := Defaults(ok, zone, ttl, doc.serial, apex).value;
    ApexBucket(ok, zone, ttl, doc.records, added, snap.index);
    NoNsFiled(ok, zone, doc, doc.records);
    r := DefaultNs(ok, zone, ttl).value;
    assert (apex + added)[|apex|] == r;
    FqdnIsFullName(ok, zone, r.name);
    FqdnIsFullName(ok, "ns1." + zone, r.data.target);
  }

  lemma {:induction false} NoNsFiled(ok: NameCheck, zone: string, doc: Document, records: seq<JsonRecord>)
    requires AllParse(ok, zone, TtlDefault(doc), records)
    requires forall j :: 0 <= j < |records| ==> !IsApexNs(zone, records[j])
    ensures !HasType(Filed(ok, zone, TtlDefault(doc), records, zone), NS)
  {
    hide Parsed, Filed, AllParse, IsApexNs;
    var ttl := TtlDefault(doc);
    if |records| == 0 {
      NothingFiled(ok, zone, ttl, zone);
    } else {
      var front, last := records[..|records| - 1], records[|records| - 1];
      FiledLast(ok, zone, ttl, records, zone);
      assert forall j :: 0 <= j < |front| ==> front[j] == records[j];
      NoNsFiled(ok, zone, doc, front);
      LastApexSoa(ok, zone, doc, last);
      assert !IsApexNs(zone, records[|records| - 1]);
    }
  }

  /** However its letters are cased, a question asks for the same name. */
  lemma QuestionCaseDoesNotMatter(m: Message, n: Message)
    requires |m.questions| > 0 && |n.questions| > 0 && SameSpelling(m.questions[0].name, n.questions[0].name)
    ensures QueryName(m) == QueryName(n)
  {
    SpellingDoesNotMatter(m.questions[0].name, n.questions[0].name);
    hide NormalizeName;
  }

  // ----- Names that exist only as parents of other names -----

  /** Some record of the document is filed under the name. */
  ghost predicate OwnerAt(zone: string, records: seq<JsonRecord>, name: string) {
    exists i :: 0 <= i < |records| && RecordKey(zone, records[i].name) == Some(name)
  }

  /** Some record of the document is filed at or below the name. */
  ghost predicate OwnerAtOrBelow(zone: string, records: seq<JsonRecord>, name: string) {
    exists i :: 0 <= i < |records| && IsAtOrBelow(RecordKey(zone, records[i].name), name)
  }

  predicate IsAtOrBelow(key: Option<string>, name: string) { key.Some? && SuffixMatch(key.value, name) }

  lemma {:induction false} FiledExactlyWhen(ok: NameCheck, zone: string, ttl: u32, records: seq<JsonRecord>, k: string)
    requires AllParse(ok, zone, ttl, records)
    ensures Filed(ok, zone, ttl, records, k) != [] <==> OwnerAt(zone, records, k)
  {
    hide RecordKey, Parsed, OwnerAt, Filed, AllParse;
    if |records| == 0 {
      NothingFiled(ok, zone, ttl, k);
    } else {
      var front, last := records[..|records| - 1], records[|records| - 1];
      FiledLast(ok, zone, ttl, records, k);
      FiledExactlyWhen(ok, zone, ttl, front, k);
      ParsedKey(ok, zone, ttl, last);
      OwnerOneMore(zone, front, last, k);
      assert records == front + [last];
    }
  }

  lemma NothingFiled(ok: NameCheck, zone: string, ttl: u32, k: string)
    ensures AllParse(ok, zone, ttl, []) && Filed(ok, zone, ttl, [], k) == [] && !OwnerAt(zone, [], k)
  {
  }

  lemma FiledLast(ok: NameCheck, zone: string, ttl: u32, records: seq<JsonRecord>, k: string)
    requires AllParse(ok, zone, ttl, records) && |records| > 0
    ensures var front, last := records[..|records| - 1], records[|records| - 1];
            && AllParse(ok, zone, ttl, front) && Parsed(ok, zone, ttl, last).Some?
            && (var p := Parsed(ok, zone, ttl, last).value;
                Filed(ok, zone, ttl, records, k) == Filed(ok, zone, ttl, front, k) + (if p.0 == k then [p.1] else []))
  {
    hide Parsed;
  }

  lemma ParsedKey(ok: NameCheck, zone: string, ttl: u32, entry: JsonRecord)
    requires Parsed(ok, zone, ttl, entry).Some?
    ensures RecordKey(zone, entry.name) == Some(Parsed(ok, zone, ttl, entry).value.0)
  {
    hide RecordKey, FqdnToName;
  }

  lemma OwnerOneMore(zone: string, front: seq<JsonRecord>, last: JsonRecord, k: string)
    ensures OwnerAt(zone, front + [last], k) <==> OwnerAt(zone, front, k) || RecordKey(zone, last.name) == Some(k)
  {
    hide RecordKey;
    var records := front + [last];
    assert records[|front|] == last;
    if OwnerAt(zone, front, k) {
      var i :| 0 <= i < |front| && RecordKey(zone, front[i].name) == Some(k);
      assert records[i] == front[i];
    }
  }

  /** The buckets of a loaded zone are its apex and the names its document files records under. */
  lemma LoadedKeys(ok: NameCheck, expected: string, doc: Document, snap: Snapshot, k: string)
    requires Loaded(ok, expected, doc, snap)
    ensures k in snap.index <==> k == snap.zone || OwnerAt(snap.zone, doc.records, k)
  {
    hide Filed, NormalizeName, FirstSoa, Defaults, HasType, Records, ParsedRecords, OwnerAt;
    LoadedApexIsComplete(ok, expected, doc, snap);
    FiledExactlyWhen(ok, snap.zone, TtlDefault(doc), doc.records, k);
    if k != snap.zone {
      assert Bucket(snap.index, k) == Filed(ok, snap.zone, TtlDefault(doc), doc.records, k) + [];
    }
  }

  lemma InEachOther(a: string, b: string)
    requires SuffixMatch(a, b) && SuffixMatch(b, a)
    ensures a == b
  {
  }

  lemma BucketsAtOrBelow(ok: NameCheck, expected: string, doc: Document, snap: Snapshot, name: string)
    requires Loaded(ok, expected, doc, snap) && SuffixMatch(name, snap.zone)
    ensures (exists k :: k in snap.index && SuffixMatch(k, name)) <==>
            name == snap.zone || OwnerAtOrBelow(snap.zone, doc.records, name)
  {
    hide Loaded, SuffixMatch, RecordKey;
    if exists k :: k in snap.index && SuffixMatch(k, name) {
      var k :| k in snap.index && SuffixMatch(k, name);
      LoadedKeys(ok, expected, doc, snap, k);
      if k == snap.zone {
        InEachOther(k, name);
      } else {
        var i :| 0 <= i < |doc.records| && RecordKey(snap.zone, doc.records[i].name) == Some(k);
        assert IsAtOrBelow(RecordKey(snap.zone, doc.records[i].name), name);
      }
    }
    if name == snap.zone {
      LoadedKeys(ok, expected, doc, snap, name);
      MatchesItself(name);
    } else if OwnerAtOrBelow(snap.zone, doc.records, name) {
      var i :| 0 <= i < |doc.records| && IsAtOrBelow(RecordKey(snap.zone, doc.records[i].name), name);
      LoadedKeys(ok, expected, doc, snap, RecordKey(snap.zone, doc.records[i].name).value);
    }
  }

  lemma MatchesItself(name: string)
    ensures SuffixMatch(name, name)
  {
  }

  /**
   For every in-zone question, NXDOMAIN means that the document has no record at the name, which is
   not the apex. That it also means that nothing exists below the name (section 2 of RFC 8020)
   holds exactly when the name is the apex, has a record of its own, or has none below it.
   */
  lemma NxDomainMeansNothingBelowExactlyWhen(ok: NameCheck, expected: string, doc: Document, snap: Snapshot,
                                             m: Message, reply: Message)
    requires Loaded(ok, expected, doc, snap) && QueryName(m).Some? && CorrectReply(snap, m, reply)
    requires SuffixMatch(QueryName(m).value, snap.zone)
    ensures var name := QueryName(m).value;
            reply.code == NXDomain <==> name != snap.zone && !OwnerAt(snap.zone, doc.records, name)
    ensures var name := QueryName(m).value;
            (reply.code == NXDomain <==> !exists k :: k in snap.index && SuffixMatch(k, name)) <==>
            name == snap.zone || OwnerAt(snap.zone, doc.records, name) || !OwnerAtOrBelow(snap.zone, doc.records, name)
  {
    var name := QueryName(m).value;
    NxDomainIsNoBucket(snap, m, reply);
    hide Loaded, SuffixMatch, RecordKey, CorrectReply, OwnerAt, OwnerAtOrBelow, QueryName;
    LoadedKeys(ok, expected, doc, snap, name);
    BucketsAtOrBelow(ok, expected, doc, snap, name);
    AtIsAtOrBelow(snap.zone, doc.records, name);
  }

  lemma NxDomainIsNoBucket(snap: Snapshot, m: Message, reply: Message)
    requires QueryName(m).Some? && CorrectReply(snap, m, reply) && SuffixMatch(QueryName(m).value, snap.zone)
    ensures reply.code == NXDomain <==> QueryName(m).value !in snap.index
  {
    hide SuffixMatch, IsGlue, Covered, NoDuplicates, QueryName, Answers;
  }

  lemma AtIsAtOrBelow(zone: string, records: seq<JsonRecord>, name: string)
    ensures OwnerAt(zone, records, name) ==> OwnerAtOrBelow(zone, records, name)
  {
    hide RecordKey;
    if OwnerAt(zone, records, name) {
      var i :| 0 <= i < |records| && RecordKey(zone, records[i].name) == Some(name);
      assert IsAtOrBelow(RecordKey(zone, records[i].name), name);
    }
  }

  lemma PlainName(s: string)
    requires |s| > 0 && !IsWhitespace(s[0]) && !IsWhitespace(s[|s| - 1]) && s[|s| - 1] != '.'
    ensures NormalizeName(s) == Some(Lower(s))
  {
  }

  lemma PlainTrim(s: string)
    requires |s| > 0 && !IsWhitespace(s[0]) && !IsWhitespace(s[|s| - 1])
    ensures Trim(s) == s
  {
  }

  predicate AnyName(s: string) { true }

  /** A zone `z` whose only record is at `a.b`. */
  const NESTED := Document("z", None, None, [JsonRecord("a.b", None, Some(V4(1)))])

  lemma NestedNames()
    ensures NormalizeName("z") == Some("z") && NormalizeName("b.z") == Some("b.z") && NormalizeName("a.b.z").Some?
    ensures NormalizeName("ns1.z").Some? && NormalizeName("hostmaster.z").Some?
    ensures SuffixMatch("b.z", "z") && SuffixMatch("a.b.z", "b.z")
  {
    PlainName("z");
    PlainName("b.z");
    PlainName("a.b.z");
    PlainName("ns1.z");
    PlainName("hostmaster.z");
    hide NormalizeName;
    assert Lower("z") == "z" && Lower("b.z") == "b.z";
    assert "b.z"[2..] == "z" && "a.b.z"[2..] == "b.z";
  }

  lemma NestedKey()
    ensures RecordKey("z", "a.b") == Some("a.b.z")
  {
    hide Trim, RecordKey, SuffixMatch;
    PlainTrim("a.b");
    assert Lower("z") == "z";
    RelativeNamesLieInZone("z", "a.b");
    assert Lower("a.b") == "a.b";
    assert "a.b" + "." + "z" == "a.b.z";
  }

  lemma NestedIsLoadable()
    ensures Loadable(AnyName, "z", NESTED)
  {
    NestedNames();
    NestedKey();
    hide NormalizeName, RecordKey, Filed, HasType, FirstSoa;
    assert "ns1." + "z" == "ns1.z" && "hostmaster." + "z" == "hostmaster.z";
    assert Parsed(AnyName, "z", 3600, NESTED.records[0]).Some?;
  }

  lemma NestedBuckets(snap: Snapshot)
    requires Loaded(AnyName, "z", NESTED, snap)
    ensures snap.zone == "z" && "b.z" !in snap.index && "a.b.z" in snap.index
  {
    NestedNames();
    NestedKey();
    LoadedZone(AnyName, "z", NESTED, snap);
    hide NormalizeName, RecordKey, Loaded, SuffixMatch;
    LoadedKeys(AnyName, "z", NESTED, snap, "b.z");
    LoadedKeys(AnyName, "z", NESTED, snap, "a.b.z");
    assert NESTED.records[0].name == "a.b" && |NESTED.records| == 1;
    assert |"a.b.z"| != |"b.z"| && |"z"| != |"b.z"|;
  }

  /** The zone's server denies `b.z` although it has a record at `a.b.z`. */
  method ParentGetsNxDomain() returns (snap: Snapshot, m: Message, reply: Message)
    ensures Loaded(AnyName, "z", NESTED, snap) && QueryName(m) == Some("b.z") && CorrectReply(snap, m, reply)
    ensures reply.code == NXDomain && "a.b.z" in snap.index && SuffixMatch("a.b.z", "b.z")
  {
    NestedIsLoadable();
    NestedNames();
    hide Loaded, Loadable, NormalizeName, CorrectReply, SuffixMatch;
    var loaded := LoadSnapshot(AnyName, "z", NESTED);
    snap := loaded.value;
    NestedBuckets(snap);
    var resolver := new AuthorityResolver(AnyName, "z", NESTED, snap);
    m := NewResponse(7).(isResponse := false, questions := [Question("b.z", A)]);
    var answer := resolver.Answer(m);
    reply := answer.value;
    NxDomainIsNoBucket(snap, m, reply);
  }
}
