/** DNS messages as the resolver sees them once decoded, and the envelopes it builds. */
module Messages {
  import opened Wrappers
  import Text

  datatype RecordType = A | AAAA | OPT | OtherType(code: u16)

  datatype RData = NullV4 | NullV6 | Data(bytes: seq<u8>)

  datatype Record = Record(name: string, rtype: RecordType, ttl: u32, rdata: RData)

  datatype Code = NoError | FormErr | ServFail | NXDomain | Refused | OtherCode(code: u16)

  datatype OpCode = Query | OtherOp(code: u8)

  datatype Edns = Edns(maxPayload: u16, version: u8, dnssecOk: bool)

  datatype Question = Question(name: string, qtype: RecordType, qclass: u16)

  datatype Message = Message(
    id: u16,
    isQuery: bool,
    opcode: OpCode,
    code: Code,
    authoritative: bool,
    truncated: bool,
    recursionDesired: bool,
    recursionAvailable: bool,
    checkingDisabled: bool,
    queries: seq<Question>,
    answers: seq<Record>,
    authorities: seq<Record>,
    additionals: seq<Record>,
    edns: Option<Edns>
  )

  /** Bytes on the wire, judged only by whether they decode and to what. */
  datatype Wire = Garbage | Encoded(msg: Message)

  /** Seconds for which a client may keep a null address. */
  const BLOCK_TTL: u32 := 60

  const FIREFOX_CANARY: string := "use-application-dns.net"

  function ResponseEdns(request: Message, ourMaxPayload: u16): Option<Edns> {
    match request.edns
    case None => None
    case Some(e) => Some(Edns(Min(e.maxPayload, ourMaxPayload), 0, e.dnssecOk))
  }

  function BaseResponse(request: Message, ourMaxPayload: u16): Message {
    Message(
      request.id, false, Query, NoError, false, false,
      request.recursionDesired, true, request.checkingDisabled,
      request.queries, [], [], [], ResponseEdns(request, ourMaxPayload))
  }

  function ErrorResponse(request: Message, code: Code, ourMaxPayload: u16): Message {
    BaseResponse(request, ourMaxPayload).(code := code)
  }

  function NullAnswer(q: Question, qtype: RecordType): seq<Record> {
    match qtype
    case A => [Record(q.name, A, BLOCK_TTL, NullV4)]
    case AAAA => [Record(q.name, AAAA, BLOCK_TTL, NullV6)]
    case _ => []
  }

  /** The answer for a blocked name: NXDOMAIN, or the null address for address queries. */
  function Sinkhole(request: Message, qtype: RecordType, nxdomain: bool, ourMaxPayload: u16): Message {
    var resp := BaseResponse(request, ourMaxPayload);
    if nxdomain then resp.(code := NXDomain)
    else if request.queries == [] then resp
    else resp.(answers := NullAnswer(request.queries[0], qtype))
  }

  /** The name as the blocklist and the cache spell it. */
  function CanonicalName(name: string): string {
    Text.Lower(Text.TrimEndDots(name))
  }

  /** Whether a reply answers this request's question rather than merely sharing its id. */
  predicate AnswersRequest(req: Message, resp: Message) {
    && resp.id == req.id
    && req.queries != [] && resp.queries != []
    && var q, a := req.queries[0], resp.queries[0];
       q.qtype == a.qtype && q.qclass == a.qclass && Text.EqIgnoreCase(q.name, a.name)
  }

  /** A client's DNSSEC-OK bit. */
  predicate WantsDnssec(msg: Message) {
    msg.edns.Some? && msg.edns.value.dnssecOk
  }
}
