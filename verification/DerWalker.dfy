/**
 The hand-written DER walker that finds notAfter in an X.509 certificate, characterised exactly:
 it succeeds on precisely the byte strings a certificate printer can produce (up to the lengths
 declared by the three enclosing SEQUENCE headers, which it does not check).
 */
module DerWalker {
  import opened Basics
  import Asn1Time

  const SEQUENCE: byte := 0x30
  const VERSION_TAG: byte := 0xA0

  // ----- What the walker computes -----

  function BigEndian(s: Bytes): nat {
    if |s| == 0 then 0 else BigEndian(s[..|s| - 1]) * 256 + s[|s| - 1]
  }

  /** The length octets at `pos`: the length they denote and the position after them. */
  function LengthAt(der: Bytes, pos: nat): Option<(nat, nat)> {
    if pos >= |der| then None
    else if der[pos] < 0x80 then Some((der[pos], pos + 1))
    else
      var n := der[pos] - 0x80;
      if n > 4 || pos + 1 + n > |der| then None
      else Some((BigEndian(der[pos + 1..pos + 1 + n]), pos + 1 + n))
  }

  function AfterHeader(der: Bytes, pos: nat, tag: byte): Option<nat> {
    if pos >= |der| || der[pos] != tag then None
    else
      var l := LengthAt(der, pos + 1);
      if l.None? then None else Some(l.value.1)
  }

  function AfterTlv(der: Bytes, pos: nat): Option<nat> {
    var l := LengthAt(der, pos + 1);
    if l.None? then None else Some(l.value.0 + l.value.1)
  }

  function TlvAt(der: Bytes, pos: nat): Option<(byte, Bytes)> {
    if pos >= |der| then None
    else
      var l := LengthAt(der, pos + 1);
      if l.None? || l.value.1 + l.value.0 > |der| then None
      else Some((der[pos], der[l.value.1..l.value.1 + l.value.0]))
  }

  /** From the validity SEQUENCE on: tag and content of its second field. */
  function WalkValidity(der: Bytes, pos: nat): Option<(byte, Bytes)> {
    var notBefore := AfterHeader(der, pos, SEQUENCE);
    if notBefore.None? then None else
    var notAfter := AfterTlv(der, notBefore.value);
    if notAfter.None? then None else TlvAt(der, notAfter.value)
  }

  /** From the serial number on. */
  function WalkFields(der: Bytes, pos: nat): Option<(byte, Bytes)> {
    var algorithm := AfterTlv(der, pos);
    if algorithm.None? then None else
    var issuer := AfterTlv(der, algorithm.value);
    if issuer.None? then None else
    var validity := AfterTlv(der, issuer.value);
    if validity.None? then None else WalkValidity(der, validity.value)
  }

  /** Tag and content of the notAfter field. */
  function NotAfterField(der: Bytes): Option<(byte, Bytes)> {
    var tbs := AfterHeader(der, 0, SEQUENCE);
    if tbs.None? then None else
    var fields := AfterHeader(der, tbs.value, SEQUENCE);
    if fields.None? || fields.value >= |der| then None else
    var serial := if der[fields.value] == VERSION_TAG then AfterTlv(der, fields.value) else fields;
    if serial.None? then None else WalkFields(der, serial.value)
  }

  function NotAfter(der: Bytes): Option<nat> {
    var f := NotAfterField(der);
    if f.None? then None else Asn1Time.ParseTime(f.value.0, f.value.1)
  }

  // ----- The walker -----

  /** Positions fit in a 64-bit word whenever the input itself does. */
  predicate InWord(der: Bytes, pos: nat) { |der| < 0x8000_0000_0000_0000 ==> pos < 0x1_0000_0000_0000_0000 }

  lemma BigEndianBound(s: Bytes)
    requires |s| <= 4
    ensures BigEndian(s) < 0x1_0000_0000
  {
    if |s| > 0 {
      var a := s[..|s| - 1];
      if |a| > 0 {
        var b := a[..|a| - 1];
        if |b| > 0 {
          assert BigEndian(b[..|b| - 1]) < 256;
        }
      }
    }
  }

  method ParseAsn1Length(der: Bytes, pos: nat) returns (r: Option<(nat, nat)>)
    ensures r == LengthAt(der, pos)
    ensures r.Some? ==> r.value.0 < 0x1_0000_0000 && r.value.1 <= |der|
  {
    if pos >= |der| { return None; }
    var first := der[pos];
    var p := pos + 1;
    if first < 0x80 { return Some((first, p)); }
    var numBytes := first - 0x80;
    if numBytes > 4 { return None; }
    var len: nat := 0;
    for i := 0 to numBytes
      invariant p == pos + 1 + i <= |der|
      invariant len == BigEndian(der[pos + 1..p])
    {
      if p >= |der| { return None; }
      assert der[pos + 1..p + 1][..i] == der[pos + 1..p];
      len := len * 256 + der[p];
      p := p + 1;
    }
    BigEndianBound(der[pos + 1..p]);
    return Some((len, p));
  }

  method SkipTagAndLength(der: Bytes, pos: nat, expectedTag: byte) returns (r: Option<nat>)
    ensures r == AfterHeader(der, pos, expectedTag)
    ensures r.Some? ==> InWord(der, r.value)
  {
    if pos >= |der| || der[pos] != expectedTag { return None; }
    var l := ParseAsn1Length(der, pos + 1);
    if l.None? { return None; }
    return Some(l.value.1);
  }

  method SkipTlv(der: Bytes, pos: nat) returns (r: Option<nat>)
    ensures r == AfterTlv(der, pos)
    ensures r.Some? ==> InWord(der, r.value)
  {
    var l := ParseAsn1Length(der, pos + 1);
    if l.None? { return None; }
    return Some(l.value.1 + l.value.0);
  }

  /** `parse_x509_not_after`: no input makes it index out of range or overflow a position. */
  method ParseX509NotAfter(der: Bytes) returns (r: Option<nat>)
    ensures r == NotAfter(der)
  {
    hide AfterTlv, AfterHeader, LengthAt, BigEndian, Asn1Time.ParseTime;
    var p := SkipTagAndLength(der, 0, SEQUENCE);
    if p.None? { return None; }
    p := SkipTagAndLength(der, p.value, SEQUENCE);
    if p.None? || p.value >= |der| { return None; }
    if der[p.value] == VERSION_TAG {
      p := SkipTlv(der, p.value);
      if p.None? { return None; }
    }
    p := SkipTlv(der, p.value);
    if p.None? { return None; }
    p := SkipTlv(der, p.value);
    if p.None? { return None; }
    p := SkipTlv(der, p.value);
    if p.None? { return None; }
    p := SkipTagAndLength(der, p.value, SEQUENCE);
    if p.None? { return None; }
    p := SkipTlv(der, p.value);
    if p.None? || p.value >= |der| { return None; }
    var tag := der[p.value];
    var l := ParseAsn1Length(der, p.value + 1);
    if l.None? { return None; }
    if l.value.1 + l.value.0 > |der| { return None; }
    var timeBytes := der[l.value.1..l.value.1 + l.value.0];
    r := Asn1Time.ParseTime(tag, timeBytes);
  }

  // ----- The printer (section 8.1.3 of X.690, section 4.1 of RFC 5280) -----

  datatype Form = Short | Long(octets: nat)

  function Power256(n: nat): nat { if n == 0 then 1 else 256 * Power256(n - 1) }

  predicate Fits(form: Form, len: nat) {
    match form
    case Short => len < 0x80
    case Long(n) => n <= 4 && len < Power256(n)
  }

  function BigEndianBytes(v: nat, n: nat): (s: Bytes)
    ensures |s| == n
  {
    if n == 0 then [] else BigEndianBytes(v / 256, n - 1) + [v % 256]
  }

  function EncodeLength(form: Form, len: nat): Bytes
    requires Fits(form, len)
  {
    match form
    case Short => [len]
    case Long(n) => [0x80 + n] + BigEndianBytes(len, n)
  }

  datatype Tlv = Tlv(tag: byte, form: Form, content: Bytes) {
    predicate Valid() { Fits(form, |content|) }

    function Encode(): Bytes
      requires Valid()
    {
      [tag] + EncodeLength(form, |content|) + content
    }
  }

  /** The opening of a SEQUENCE with the length it declares. */
  datatype Header = Header(form: Form, declared: nat) {
    predicate Valid() { Fits(form, declared) }

    function Encode(): Bytes
      requires Valid()
    {
      [0x30] + EncodeLength(form, declared)
    }
  }

  datatype Validity = Validity(header: Header, notBefore: Tlv, notAfter: Tlv, rest: Bytes) {
    predicate Valid() { header.Valid() && notBefore.Valid() && notAfter.Valid() }

    function Encode(): Bytes
      requires Valid()
    {
      header.Encode() + (notBefore.Encode() + (notAfter.Encode() + rest))
    }
  }

  datatype Fields = Fields(serial: Tlv, algorithm: Tlv, issuer: Tlv, validity: Validity) {
    predicate Valid() { serial.Valid() && algorithm.Valid() && issuer.Valid() && validity.Valid() }

    function Encode(): Bytes
      requires Valid()
    {
      serial.Encode() + (algorithm.Encode() + (issuer.Encode() + validity.Encode()))
    }
  }

  /** A certificate: optional version, the fields up to notAfter, then arbitrary remaining bytes. */
  datatype Certificate = Certificate(outer: Header, tbs: Header, version: Option<Tlv>, fields: Fields) {
    predicate Valid() {
      && outer.Valid() && tbs.Valid() && fields.Valid()
      && (version.Some? ==> version.value.Valid() && version.value.tag == 0xA0)
      && (version.None? ==> fields.serial.tag != 0xA0)
    }

    function EncodeBody(): Bytes
      requires Valid()
    {
      (if version.None? then [] else version.value.Encode()) + fields.Encode()
    }

    function Encode(): Bytes
      requires Valid()
    {
      outer.Encode() + (tbs.Encode() + EncodeBody())
    }
  }

  // ----- Reading what was printed -----

  /** `s` is exactly what remains of `der` from `pos` on. */
  predicate Remains(der: Bytes, pos: nat, s: Bytes) { pos <= |der| && der[pos..] == s }

  lemma WholeRemains(der: Bytes)
    ensures Remains(der, 0, der)
  {
  }

  lemma SplitRemains(der: Bytes, pos: nat, a: Bytes, b: Bytes)
    requires Remains(der, pos, a + b)
    ensures pos + |a| <= |der| && der[pos..pos + |a|] == a && Remains(der, pos + |a|, b)
  {
    assert der[pos..][..|a|] == a;
    assert der[pos..][|a|..] == b;
  }

  lemma JoinRemains(der: Bytes, pos: nat, a: Bytes, b: Bytes)
    requires pos + |a| <= |der| && der[pos..pos + |a|] == a && Remains(der, pos + |a|, b)
    ensures Remains(der, pos, a + b)
  {
    assert der[pos..] == der[pos..pos + |a|] + der[pos + |a|..];
  }

  lemma {:induction false} BigEndianInverts(v: nat, n: nat)
    requires v < Power256(n)
    ensures BigEndian(BigEndianBytes(v, n)) == v
  {
    if n > 0 {
      BigEndianInverts(v / 256, n - 1);
      var s := BigEndianBytes(v, n);
      assert s[..|s| - 1] == BigEndianBytes(v / 256, n - 1);
    }
  }

  lemma {:induction false} BigEndianBytesInverts(s: Bytes)
    ensures BigEndian(s) < Power256(|s|) && BigEndianBytes(BigEndian(s), |s|) == s
  {
    if |s| > 0 {
      BigEndianBytesInverts(s[..|s| - 1]);
    }
  }

  /** A header or TLV is a tag, length octets and content (none for a header). */
  lemma TagLengthContent(der: Bytes, pos: nat, tag: byte, l: Bytes, content: Bytes)
    requires var s := [tag] + l + content; pos + |s| <= |der| && der[pos..pos + |s|] == s
    ensures der[pos] == tag
    ensures der[pos + 1..pos + 1 + |l|] == l
    ensures der[pos + 1 + |l|..pos + 1 + |l| + |content|] == content
  {
    var s := [tag] + l + content;
    SliceOf(der, pos, s, 0, 1);
    SliceOf(der, pos, s, 1, 1 + |l|);
    SliceOf(der, pos, s, 1 + |l|, |s|);
    assert s[0..1] == [tag] && s[1..1 + |l|] == l && s[1 + |l|..|s|] == content;
    assert der[pos..pos + 1][0] == tag;
  }

  /** A slice of a slice is a slice. */
  lemma SliceOf(der: Bytes, pos: nat, s: Bytes, lo: nat, hi: nat)
    requires lo <= hi <= |s| && pos + |s| <= |der| && der[pos..pos + |s|] == s
    ensures der[pos + lo..pos + hi] == s[lo..hi]
  {
    forall i | 0 <= i < hi - lo
      ensures der[pos + lo..pos + hi][i] == s[lo..hi][i]
    {
      assert der[pos + (lo + i)] == der[pos..pos + |s|][lo + i];
    }
  }

  lemma ReadLength(der: Bytes, pos: nat, form: Form, len: nat)
    requires Fits(form, len)
    requires var e := EncodeLength(form, len); pos + |e| <= |der| && der[pos..pos + |e|] == e
    ensures LengthAt(der, pos) == Some((len, pos + |EncodeLength(form, len)|))
  {
    hide BigEndian, BigEndianBytes, Power256;
    if form.Short? {
      assert [len] == [len] + [] + [];
      TagLengthContent(der, pos, len, [], []);
    } else {
      ReadLongLength(der, pos, form.octets, len);
    }
  }

  lemma ReadLongLength(der: Bytes, pos: nat, n: nat, len: nat)
    requires n <= 4 && len < Power256(n)
    requires pos + 1 + n <= |der| && der[pos..pos + 1 + n] == [0x80 + n] + BigEndianBytes(len, n)
    ensures LengthAt(der, pos) == Some((len, pos + 1 + n))
  {
    hide BigEndian, BigEndianBytes, Power256;
    var octets := BigEndianBytes(len, n);
    assert [0x80 + n] + octets + [] == [0x80 + n] + octets;
    TagLengthContent(der, pos, 0x80 + n, octets, []);
    BigEndianInverts(len, n);
  }

  lemma ReadHeader(der: Bytes, pos: nat, h: Header, tail: Bytes)
    requires h.Valid() && Remains(der, pos, h.Encode() + tail)
    ensures AfterHeader(der, pos, SEQUENCE) == Some(pos + |h.Encode()|)
    ensures Remains(der, pos + |h.Encode()|, tail)
  {
    hide LengthAt, EncodeLength, Fits, Remains;
    var l := EncodeLength(h.form, h.declared);
    SplitRemains(der, pos, h.Encode(), tail);
    assert h.Encode() == [SEQUENCE] + l + [];
    TagLengthContent(der, pos, SEQUENCE, l, []);
    ReadLength(der, pos + 1, h.form, h.declared);
  }

  lemma ReadTlv(der: Bytes, pos: nat, t: Tlv, tail: Bytes)
    requires t.Valid() && Remains(der, pos, t.Encode() + tail)
    ensures pos < |der| && der[pos] == t.tag
    ensures AfterTlv(der, pos) == Some(pos + |t.Encode()|)
    ensures TlvAt(der, pos) == Some((t.tag, t.content))
    ensures Remains(der, pos + |t.Encode()|, tail)
  {
    hide LengthAt, EncodeLength, Fits, Remains;
    SplitRemains(der, pos, t.Encode(), tail);
    TagLengthContent(der, pos, t.tag, EncodeLength(t.form, |t.content|), t.content);
    ReadLength(der, pos + 1, t.form, |t.content|);
  }

  lemma ReadValidity(der: Bytes, pos: nat, v: Validity)
    requires v.Valid() && Remains(der, pos, v.Encode())
    ensures WalkValidity(der, pos) == Some((v.notAfter.tag, v.notAfter.content))
  {
    hide AfterTlv, AfterHeader, TlvAt, LengthAt, Tlv.Encode, Header.Encode, EncodeLength, Fits, BigEndian;
    ReadHeader(der, pos, v.header, v.notBefore.Encode() + (v.notAfter.Encode() + v.rest));
    var p := pos + |v.header.Encode()|;
    ReadTlv(der, p, v.notBefore, v.notAfter.Encode() + v.rest);
    ReadTlv(der, p + |v.notBefore.Encode()|, v.notAfter, v.rest);
  }

  lemma ReadFields(der: Bytes, pos: nat, f: Fields)
    requires f.Valid() && Remains(der, pos, f.Encode())
    ensures pos < |der| && der[pos] == f.serial.tag
    ensures WalkFields(der, pos) == Some((f.validity.notAfter.tag, f.validity.notAfter.content))
  {
    hide AfterTlv, WalkValidity, TlvAt, LengthAt, Tlv.Encode, Validity.Encode, EncodeLength, Fits, BigEndian;
    ReadTlv(der, pos, f.serial, f.algorithm.Encode() + (f.issuer.Encode() + f.validity.Encode()));
    var p := pos + |f.serial.Encode()|;
    ReadTlv(der, p, f.algorithm, f.issuer.Encode() + f.validity.Encode());
    var q := p + |f.algorithm.Encode()|;
    ReadTlv(der, q, f.issuer, f.validity.Encode());
    ReadValidity(der, q + |f.issuer.Encode()|, f.validity);
  }

  lemma ReadBody(der: Bytes, pos: nat, c: Certificate)
    requires c.Valid() && Remains(der, pos, c.EncodeBody())
    ensures pos < |der|
    ensures var serial := if der[pos] == VERSION_TAG then AfterTlv(der, pos) else Some(pos);
            var n := c.fields.validity.notAfter;
            serial.Some? && WalkFields(der, serial.value) == Some((n.tag, n.content))
  {
    hide AfterTlv, WalkFields, TlvAt, LengthAt, Tlv.Encode, Fields.Encode, EncodeLength, Fits, Remains;
    if c.version.Some? {
      ReadTlv(der, pos, c.version.value, c.fields.Encode());
      ReadFields(der, pos + |c.version.value.Encode()|, c.fields);
    } else {
      assert c.EncodeBody() == c.fields.Encode();
      ReadFields(der, pos, c.fields);
    }
  }

  /** The walker finds notAfter in every printed certificate, whatever length forms were used. */
  lemma WalkerReadsPrinted(c: Certificate)
    requires c.Valid()
    ensures var n := c.fields.validity.notAfter; NotAfterField(c.Encode()) == Some((n.tag, n.content))
  {
    hide AfterTlv, AfterHeader, WalkFields, TlvAt, LengthAt, Tlv.Encode, Header.Encode, EncodeLength, Fits, Remains,
         Certificate.EncodeBody, Tlv.Valid, Fields.Valid, Header.Valid;
    var der := c.Encode();
    WholeRemains(der);
    ReadHeader(der, 0, c.outer, c.tbs.Encode() + c.EncodeBody());
    var p := |c.outer.Encode()|;
    ReadHeader(der, p, c.tbs, c.EncodeBody());
    ReadBody(der, p + |c.tbs.Encode()|, c);
  }

  // ----- Whatever the walker reads was printed -----

  lemma UnreadLength(der: Bytes, pos: nat) returns (form: Form)
    requires LengthAt(der, pos).Some?
    ensures var (len, after) := LengthAt(der, pos).value;
            Fits(form, len) && pos < after <= |der| && der[pos..after] == EncodeLength(form, len)
  {
    hide BigEndian, Power256, BigEndianBytes;
    if der[pos] < 0x80 {
      form := Short;
    } else {
      var n := der[pos] - 0x80;
      form := Long(n);
      var s := der[pos + 1..pos + 1 + n];
      BigEndianBytesInverts(s);
      assert der[pos..pos + 1 + n] == [der[pos]] + s;
    }
  }

  lemma UnreadHeader(der: Bytes, pos: nat) returns (h: Header)
    requires AfterHeader(der, pos, SEQUENCE).Some?
    ensures h.Valid()
    ensures var after := AfterHeader(der, pos, SEQUENCE).value;
            pos < after <= |der| && der[pos..after] == h.Encode()
  {
    hide LengthAt, EncodeLength, Fits;
    var form := UnreadLength(der, pos + 1);
    var (len, after) := LengthAt(der, pos + 1).value;
    h := Header(form, len);
    assert der[pos..after] == [der[pos]] + der[pos + 1..after];
  }

  lemma UnreadTlv(der: Bytes, pos: nat) returns (t: Tlv)
    requires AfterTlv(der, pos).Some? && AfterTlv(der, pos).value <= |der|
    ensures t.Valid() && t.tag == der[pos]
    ensures var after := AfterTlv(der, pos).value; pos < after && der[pos..after] == t.Encode()
    ensures TlvAt(der, pos) == Some((t.tag, t.content))
  {
    hide LengthAt, EncodeLength, Fits;
    var form := UnreadLength(der, pos + 1);
    var (len, after) := LengthAt(der, pos + 1).value;
    t := Tlv(der[pos], form, der[after..after + len]);
    assert der[pos..after + len] == [der[pos]] + der[pos + 1..after] + der[after..after + len];
  }

  lemma UnreadValidity(der: Bytes, pos: nat) returns (v: Validity)
    requires WalkValidity(der, pos).Some?
    ensures v.Valid() && Remains(der, pos, v.Encode()) && pos < |der|
    ensures WalkValidity(der, pos) == Some((v.notAfter.tag, v.notAfter.content))
  {
    hide LengthAt, Tlv.Encode, Header.Encode, EncodeLength, Fits, BigEndian;
    var header := UnreadHeader(der, pos);
    var p := AfterHeader(der, pos, SEQUENCE).value;
    var notBefore := UnreadTlv(der, p);
    var q := AfterTlv(der, p).value;
    var notAfter := UnreadTlv(der, q);
    var r := AfterTlv(der, q).value;
    v := Validity(header, notBefore, notAfter, der[r..]);
    JoinRemains(der, q, notAfter.Encode(), der[r..]);
    JoinRemains(der, p, notBefore.Encode(), notAfter.Encode() + der[r..]);
    JoinRemains(der, pos, header.Encode(), notBefore.Encode() + (notAfter.Encode() + der[r..]));
  }

  lemma UnreadFields(der: Bytes, pos: nat) returns (f: Fields)
    requires WalkFields(der, pos).Some?
    ensures f.Valid() && Remains(der, pos, f.Encode()) && pos < |der| && f.serial.tag == der[pos]
    ensures WalkFields(der, pos) == Some((f.validity.notAfter.tag, f.validity.notAfter.content))
  {
    hide AfterHeader, WalkValidity, TlvAt, Tlv.Encode, Validity.Encode, EncodeLength, Fits, BigEndian;
    var p := AfterTlv(der, pos).value;
    var q := AfterTlv(der, p).value;
    var r := AfterTlv(der, q).value;
    var validity := UnreadValidity(der, r);
    var issuer := UnreadTlv(der, q);
    var algorithm := UnreadTlv(der, p);
    var serial := UnreadTlv(der, pos);
    f := Fields(serial, algorithm, issuer, validity);
    JoinRemains(der, q, issuer.Encode(), validity.Encode());
    JoinRemains(der, p, algorithm.Encode(), issuer.Encode() + validity.Encode());
    JoinRemains(der, pos, serial.Encode(), algorithm.Encode() + (issuer.Encode() + validity.Encode()));
  }

  /** The optional version and the fields from the serial number on. */
  lemma UnreadBody(der: Bytes, pos: nat) returns (version: Option<Tlv>, fields: Fields)
    requires pos < |der|
    requires var serial := if der[pos] == VERSION_TAG then AfterTlv(der, pos) else Some(pos);
             serial.Some? && WalkFields(der, serial.value).Some?
    ensures fields.Valid() && (version.Some? ==> version.value.Valid() && version.value.tag == VERSION_TAG)
    ensures version.None? ==> fields.serial.tag != VERSION_TAG
    ensures Remains(der, pos, (if version.None? then [] else version.value.Encode()) + fields.Encode())
    ensures var n := fields.validity.notAfter;
            var serial := if der[pos] == VERSION_TAG then AfterTlv(der, pos) else Some(pos);
            WalkFields(der, serial.value) == Some((n.tag, n.content))
  {
    hide AfterTlv, WalkFields, TlvAt, LengthAt, Tlv.Encode, Fields.Encode, EncodeLength, Fits, Tlv.Valid, Fields.Valid;
    if der[pos] == VERSION_TAG {
      var after := AfterTlv(der, pos).value;
      fields := UnreadFields(der, after);
      var tlv := UnreadTlv(der, pos);
      version := Some(tlv);
      JoinRemains(der, pos, tlv.Encode(), fields.Encode());
    } else {
      version := None;
      fields := UnreadFields(der, pos);
      assert [] + fields.Encode() == fields.Encode();
    }
  }

  /** On arbitrary bytes: whatever the walker accepts is a printed certificate with that notAfter. */
  lemma WalkerReadsOnlyPrinted(der: Bytes) returns (c: Certificate)
    requires NotAfterField(der).Some?
    ensures c.Valid() && c.Encode() == der
    ensures var n := c.fields.validity.notAfter; NotAfterField(der) == Some((n.tag, n.content))
  {
    hide AfterTlv, AfterHeader, WalkFields, TlvAt, LengthAt, Tlv.Encode, Header.Encode, Fields.Encode, EncodeLength, Fits,
         Tlv.Valid, Fields.Valid, Header.Valid;
    var outer := UnreadHeader(der, 0);
    var p := AfterHeader(der, 0, SEQUENCE).value;
    var tbs := UnreadHeader(der, p);
    var q := AfterHeader(der, p, SEQUENCE).value;
    var version, fields := UnreadBody(der, q);
    c := Certificate(outer, tbs, version, fields);
    JoinRemains(der, p, tbs.Encode(), c.EncodeBody());
    JoinRemains(der, 0, outer.Encode(), tbs.Encode() + c.EncodeBody());
  }

  /** End to end: a certificate whose notAfter prints a valid time yields that time in Unix seconds. */
  lemma ExpiryIsPrintedTime(c: Certificate, t: Asn1Time.Timestamp)
    requires var n := c.fields.validity.notAfter;
             c.Valid() && Asn1Time.Printable(n.tag, t) && n.content == Asn1Time.Print(n.tag, t)
    ensures NotAfter(c.Encode()) ==
            if Asn1Time.UnixSeconds(t) < 0 then None else Some(Asn1Time.UnixSeconds(t))
  {
    hide NotAfterField, Asn1Time.ParseTime, Asn1Time.Print;
    WalkerReadsPrinted(c);
    Asn1Time.PrintedTimeReadsBack(c.fields.validity.notAfter.tag, t);
  }
}
