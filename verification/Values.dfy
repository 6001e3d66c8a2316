/**
 JSON values as the gateway exchanges them. Strings are their UTF-8 octets; the object keys the
 codec tables mention are constructors of Name, every other key is Other.
 */
module Values {
  import opened Bytes

  datatype Name =
    // header words
    | CommandNameKey | CommandIdKey | CommandStatus | SequenceNumber
    // mandatory fields
    | SystemId | Password | SystemType | InterfaceVersion | AddrTon | AddrNpi | AddressRange
    | ServiceType | SourceAddrTon | SourceAddrNpi | SourceAddr
    | DestAddrTon | DestAddrNpi | DestinationAddr
    | EsmClass | ProtocolId | PriorityFlag | ScheduleDeliveryTime | ValidityPeriod
    | RegisteredDelivery | ReplaceIfPresentFlag | DataCoding | SmDefaultMsgId | ShortMessage
    | MessageId | FinalDate | ErrorCode
    | DestAddresses | DlName | UnsuccessSmes | ErrorStatusCode
    | EsmeAddrTon | EsmeAddrNpi | EsmeAddr
    // an optional field, by the tag of its TLV
    | Optional(tag: u16)
    // any key no table mentions
    | Other(key: bytes)

  // optional fields the rest of the model speaks about
  const AlertOnMessageDelivery := Optional(0x130C)
  const DestAddrNpCountry := Optional(0x0613)
  const MessagePayload := Optional(0x0424)
  const MessageState := Optional(0x0427)
  const QosTimeToLive := Optional(0x0017)
  const ScInterfaceVersion := Optional(0x0210)

  /** A JSON value; numbers that are not integers are Decimal. */
  datatype Value =
    | Null
    | Bool(b: bool)
    | Number(n: int)
    | Decimal(r: real)
    | String(s: bytes)
    | Array(items: seq<Value>)
    | Object(fields: Message)

  type Message = map<Name, Value>

  function Get(m: Message, k: Name): (v: Option<Value>)
  {
    if k in m then Some(m[k]) else None
  }

  /** The unsigned 64-bit reading of a number, when it has one. */
  function AsU64(v: Value): (n: Option<nat>)
    ensures n.Some? ==> n.value < U64_LIMIT
  {
    if v.Number? && 0 <= v.n < U64_LIMIT then Some(v.n) else None
  }

  /** `get(k).and_then(as_u64).unwrap_or(0)`. */
  function NumberOr0(m: Message, k: Name): (n: nat)
  {
    if k in m && AsU64(m[k]).Some? then AsU64(m[k]).value else 0
  }

  /** `get(k).and_then(as_str).unwrap_or("")`. */
  function StringOrEmpty(m: Message, k: Name): (s: bytes)
  {
    if k in m && m[k].String? then m[k].s else []
  }
}
