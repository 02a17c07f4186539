/** DNS messages, and the wire codec as a parameter with the laws the proofs rely on. */
module DnsMessage {
  import opened Basics

  datatype RecordType = A | AAAA | NS | CNAME | SOA | ANY | OtherType(code: nat)

  datatype RData =
    | V4(v4: u32)
    | V6(v6: nat)
    | NsData(target: string)
    | CnameData(alias: string)
    | SoaData(mname: string, rname: string, serial: u32, minimum: u32)
    | OtherData(code: nat, octets: Bytes)
  {
    function Type(): RecordType {
      match this
      case V4(_) => A
      case V6(_) => AAAA
      case NsData(_) => NS
      case CnameData(_) => CNAME
      case SoaData(_, _, _, _) => SOA
      case OtherData(code, _) => OtherType(code)
    }
  }

  datatype Record = Record(name: string, ttl: u32, data: RData)

  datatype Question = Question(name: string, qtype: RecordType)

  datatype ResponseCode = NoError | ServFail | NXDomain | NotImp | Refused | OtherCode(value: nat)

  datatype Message = Message(
    id: u16, isResponse: bool, authoritative: bool, truncated: bool,
    recursionDesired: bool, recursionAvailable: bool, code: ResponseCode,
    questions: seq<Question>, answers: seq<Record>, authorities: seq<Record>, additionals: seq<Record>)

  /** An empty response, as `Message::new` makes it. */
  function NewResponse(id: u16): Message {
    Message(id, true, false, false, false, false, NoError, [], [], [], [])
  }

  /** The two leading octets of a query, big-endian; 0 when there are fewer. */
  function QueryId(query: Bytes): u16 {
    if |query| >= 2 then var high: int := query[0]; high * 256 + query[1] else 0
  }

  predicate TruncatedBit(response: Bytes) { |response| > 2 && (response[2] / 2) % 2 == 1 }

  /** `Message::from_vec` and `Message::to_vec`. */
  datatype Codec = Codec(decode: Bytes -> Option<Message>, encode: Message -> Option<Bytes>)

  function Untimed(records: seq<Record>): seq<Record> {
    seq(|records|, i requires 0 <= i < |records| => records[i].(ttl := 0))
  }

  /** The messages agree except for identifier and time-to-live fields. */
  predicate SameButIdAndTtl(m: Message, n: Message) {
    m.(id := 0, answers := Untimed(m.answers), authorities := Untimed(m.authorities),
       additionals := Untimed(m.additionals)) ==
    n.(id := 0, answers := Untimed(n.answers), authorities := Untimed(n.authorities),
       additionals := Untimed(n.additionals))
  }

  /**
   What is taken for granted about the wire codec: header fields sit where section 4.1.1 of
   RFC 1035 puts them, decoding undoes encoding, and a message that came off the wire still fits
   on it after its identifier and time-to-live fields (all fixed width) are rewritten.
   */
  ghost predicate Faithful(c: Codec) {
    && (forall b :: c.decode(b).Some? ==>
          && |b| >= 12 && c.decode(b).value.id == b[0] as int * 256 + b[1] as int
          && (c.decode(b).value.truncated <==> b[2] % 4 == 2 || b[2] % 4 == 3))
    && (forall m :: c.encode(m).Some? ==> c.decode(c.encode(m).value) == Some(m))
    && (forall b, m :: c.decode(b).Some? && SameButIdAndTtl(c.decode(b).value, m) ==> c.encode(m).Some?)
  }

  lemma Reencodes(c: Codec, b: Bytes, m: Message)
    requires Faithful(c) && c.decode(b).Some? && SameButIdAndTtl(c.decode(b).value, m)
    ensures c.encode(m).Some? && c.decode(c.encode(m).value) == Some(m)
  {
  }
}
