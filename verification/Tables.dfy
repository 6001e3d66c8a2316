/** The SMPP v5.0 tables: which fields a PDU has, in what order, and how each one is encoded. */
module Tables {
  import opened Bytes
  import opened Values
  import opened Codec
  import opened CommandIds

  // ---- optional fields --------------------------------------------------------------------

  /** An optional field: its TLV tag and the codec of its value. */
  datatype Tlv = Tlv(tag: u16, codec: Codec)

  /** TLVs holding one octet. */
  const U8_TAGS: set<u16> := {
    0x0608,  // broadcast_area_success
    0x0600,  // broadcast_channel_indicator
    0x0603,  // broadcast_message_class
    0x0302,  // callback_num_pres_ind
    0x0428,  // congestion_state
    0x0425,  // delivery_failure_reason
    0x0611,  // dest_addr_np_resolution
    0x0005,  // dest_addr_subunit
    0x0007,  // dest_bearer_type
    0x0006,  // dest_network_type
    0x1201,  // display_time
    0x0420,  // dpf_result
    0x1380,  // its_reply_type
    0x020D,  // language_indicator
    0x0427,  // message_state
    0x0426,  // more_messages_to_send
    0x0422,  // ms_availability_status
    0x0030,  // ms_msg_wait_facilities
    0x0304,  // number_of_messages
    0x0019,  // payload_type
    0x0201,  // privacy_indicator
    0x020F,  // sar_segment_seqnum
    0x020E,  // sar_total_segments
    0x0210,  // sc_interface_version
    0x0421,  // set_dpf
    0x000D,  // source_addr_subunit
    0x000F,  // source_bearer_type
    0x000E,  // source_network_type
    0x0010,  // source_telematics_id
    0x0205,  // user_response_code
    0x0501}  // ussd_service_op

  /** TLVs holding two octets. */
  const U16_TAGS: set<u16> := {
    0x0604,  // broadcast_rep_num
    0x0008,  // dest_telematics_id
    0x020B,  // dest_port
    0x020C,  // sar_msg_ref_num
    0x1203,  // sms_signal
    0x020A,  // source_port
    0x0204}  // user_message_reference

  /** TLVs holding four octets. */
  const U32_TAGS: set<u16> := {
    0x0607,  // broadcast_error_status
    0x0017}  // qos_time_to_live

  /** TLVs holding an octet string. */
  const OCTET_TAGS: set<u16> := {
    0x060B,  // billing_identification
    0x0606,  // broadcast_area_identifier
    0x0602,  // broadcast_content_type_info
    0x0601,  // broadcast_content_type
    0x0605,  // broadcast_frequency_interval
    0x060A,  // broadcast_service_group
    0x0381,  // callback_num
    0x0303,  // callback_num_atag
    0x0612,  // dest_addr_np_information
    0x0610,  // dest_node_id
    0x0203,  // dest_subaddress
    0x1383,  // its_session_info
    0x0424,  // message_payload
    0x1204,  // ms_validity
    0x0423,  // network_error_code
    0x060F,  // source_node_id
    0x0202}  // source_subaddress

  /** The codec of a TLV, by tag. */
  function TlvCodec(tag: u16): (c: Option<Codec>)
  {
    if tag in U8_TAGS then Some(U8)
    else if tag in U16_TAGS then Some(U16)
    else if tag in U32_TAGS then Some(U32)
    else if tag in OCTET_TAGS then Some(Octet(false, 1))
    else if tag == 0x001D then Some(COctetStr(256))   // additional_status_info_text
    else if tag == 0x0609 then Some(COctetStr(16))    // broadcast_end_time
    else if tag == 0x060E then Some(COctetStr(65))    // dest_network_id
    else if tag == 0x060D then Some(COctetStr(65))    // source_network_id
    else if tag == 0x001E then Some(COctetStr(65))    // receipted_message_id
    else if tag == 0x130C then Some(OptionalU8(0))    // alert_on_message_delivery
    else if tag == 0x0613 then Some(VarLengthInt)     // dest_addr_np_country
    else None
  }

  /** The TLV of an optional field, by name. */
  function TlvOf(n: Name): (t: Option<Tlv>)
  {
    if n.Optional? && TlvCodec(n.tag).Some? then Some(Tlv(n.tag, TlvCodec(n.tag).value)) else None
  }

  /** The optional field with a given TLV tag. */
  function TlvNamed(tag: u16): (n: Option<Name>)
    ensures forall k :: n == Some(k) <==> TlvOf(k).Some? && TlvOf(k).value.tag == tag
  {
    if TlvCodec(tag).Some? then Some(Optional(tag)) else None
  }

  // ---- mandatory fields -------------------------------------------------------------------

  const UNSUCCESS_SME := Composite([
    Member(DestAddrTon, U8), Member(DestAddrNpi, U8), Member(DestinationAddr, COctetStr(21)),
    Member(ErrorStatusCode, U32)])

  const SYSTEM_ID := Member(SystemId, COctetStr(16))
  const PASSWORD := Member(Password, COctetStr(9))
  const SYSTEM_TYPE := Member(SystemType, COctetStr(13))
  const INTERFACE_VERSION := Member(InterfaceVersion, U8)
  const ADDR_TON := Member(AddrTon, U8)
  const ADDR_NPI := Member(AddrNpi, U8)
  const ADDRESS_RANGE := Member(AddressRange, COctetStr(41))
  const SERVICE_TYPE := Member(ServiceType, COctetStr(6))
  const SOURCE_ADDR_TON := Member(SourceAddrTon, U8)
  const SOURCE_ADDR_NPI := Member(SourceAddrNpi, U8)
  const SOURCE_ADDR := Member(SourceAddr, COctetStr(21))
  const DEST_ADDR_TON := Member(DestAddrTon, U8)
  const DEST_ADDR_NPI := Member(DestAddrNpi, U8)
  const DESTINATION_ADDR := Member(DestinationAddr, COctetStr(21))
  const ESM_CLASS := Member(EsmClass, U8)
  const PROTOCOL_ID := Member(ProtocolId, U8)
  const PRIORITY_FLAG := Member(PriorityFlag, U8)
  const SCHEDULE_DELIVERY_TIME := Member(ScheduleDeliveryTime, COctetStr(17))
  const VALIDITY_PERIOD := Member(ValidityPeriod, COctetStr(17))
  const REGISTERED_DELIVERY := Member(RegisteredDelivery, U8)
  const REPLACE_IF_PRESENT_FLAG := Member(ReplaceIfPresentFlag, U8)
  const DATA_CODING := Member(DataCoding, U8)
  const SM_DEFAULT_MSG_ID := Member(SmDefaultMsgId, U8)
  const SHORT_MESSAGE := Member(ShortMessage, Octet(true, 1))
  const MESSAGE_ID := Member(MessageId, COctetStr(65))
  const FINAL_DATE := Member(FinalDate, COctetStr(17))
  const MESSAGE_STATE := Member(MessageState, U8)
  const ERROR_CODE := Member(ErrorCode, U8)
  const DEST_ADDRESSES := Member(DestAddresses, DestAddressList)
  const UNSUCCESS_SMES := Member(UnsuccessSmes, ListOf(UNSUCCESS_SME, true))
  const ESME_ADDR_TON := Member(EsmeAddrTon, U8)
  const ESME_ADDR_NPI := Member(EsmeAddrNpi, U8)
  const ESME_ADDR := Member(EsmeAddr, COctetStr(65))

  /** A mandatory field of a PDU, and the value used when the message has none. */
  datatype Field = Field(member: Member, fallback: Option<Value>)

  function Required(k: Member): (f: Field)
  {
    Field(k, None)
  }

  function Or(k: Member, n: byte): (f: Field)
  {
    Field(k, Some(Number(n)))
  }

  function OrEmpty(k: Member): (f: Field)
  {
    Field(k, Some(String([])))
  }

  function BindFields(): (fs: seq<Field>)
  {
    [Required(SYSTEM_ID), Required(PASSWORD), Required(SYSTEM_TYPE), Or(INTERFACE_VERSION, 0x34),
     Or(ADDR_TON, 0), Or(ADDR_NPI, 0), Required(ADDRESS_RANGE)]
  }

  function OutbindFields(): (fs: seq<Field>)
  {
    [Required(SYSTEM_ID), Required(PASSWORD)]
  }

  function AlertFields(): (fs: seq<Field>)
  {
    [Or(SOURCE_ADDR_TON, 0), Or(SOURCE_ADDR_NPI, 0), Required(SOURCE_ADDR), Or(ESME_ADDR_TON, 0),
     Or(ESME_ADDR_NPI, 0), Required(ESME_ADDR)]
  }

  function SmFields(): (fs: seq<Field>)
  {
    [OrEmpty(SERVICE_TYPE), Or(SOURCE_ADDR_TON, 0), Or(SOURCE_ADDR_NPI, 0), OrEmpty(SOURCE_ADDR),
     Or(DEST_ADDR_TON, 0), Or(DEST_ADDR_NPI, 0), Required(DESTINATION_ADDR), Or(ESM_CLASS, 0),
     Or(PROTOCOL_ID, 0), Or(PRIORITY_FLAG, 0), OrEmpty(SCHEDULE_DELIVERY_TIME), OrEmpty(VALIDITY_PERIOD),
     Or(REGISTERED_DELIVERY, 0), Or(REPLACE_IF_PRESENT_FLAG, 0), Or(DATA_CODING, 0),
     Or(SM_DEFAULT_MSG_ID, 0), Required(SHORT_MESSAGE)]
  }

  function DataFields(): (fs: seq<Field>)
  {
    [OrEmpty(SERVICE_TYPE), Or(SOURCE_ADDR_TON, 0), Or(SOURCE_ADDR_NPI, 0), OrEmpty(SOURCE_ADDR),
     Or(DEST_ADDR_TON, 0), Or(DEST_ADDR_NPI, 0), Required(DESTINATION_ADDR), Or(ESM_CLASS, 0),
     Or(REGISTERED_DELIVERY, 0), Or(DATA_CODING, 0)]
  }

  function MultiFields(): (fs: seq<Field>)
  {
    [OrEmpty(SERVICE_TYPE), Or(SOURCE_ADDR_TON, 0), Or(SOURCE_ADDR_NPI, 0), OrEmpty(SOURCE_ADDR),
     Required(DEST_ADDRESSES), Or(ESM_CLASS, 0), Or(PROTOCOL_ID, 0), Or(PRIORITY_FLAG, 0),
     OrEmpty(SCHEDULE_DELIVERY_TIME), OrEmpty(VALIDITY_PERIOD), Or(REGISTERED_DELIVERY, 0),
     Or(REPLACE_IF_PRESENT_FLAG, 0), Or(DATA_CODING, 0), Or(SM_DEFAULT_MSG_ID, 0), Required(SHORT_MESSAGE)]
  }

  function BroadcastFields(): (fs: seq<Field>)
  {
    [OrEmpty(SERVICE_TYPE), Or(SOURCE_ADDR_TON, 0), Or(SOURCE_ADDR_NPI, 0), OrEmpty(SOURCE_ADDR),
     OrEmpty(MESSAGE_ID), Or(PRIORITY_FLAG, 0), OrEmpty(SCHEDULE_DELIVERY_TIME), OrEmpty(VALIDITY_PERIOD),
     Or(REPLACE_IF_PRESENT_FLAG, 0), Or(DATA_CODING, 0), Or(SM_DEFAULT_MSG_ID, 0)]
  }

  function CancelFields(): (fs: seq<Field>)
  {
    [OrEmpty(SERVICE_TYPE), OrEmpty(MESSAGE_ID), Or(SOURCE_ADDR_TON, 0), Or(SOURCE_ADDR_NPI, 0),
     OrEmpty(SOURCE_ADDR), Or(DEST_ADDR_TON, 0), Or(DEST_ADDR_NPI, 0), OrEmpty(DESTINATION_ADDR)]
  }

  function QueryFields(): (fs: seq<Field>)
  {
    [Required(MESSAGE_ID), Or(SOURCE_ADDR_TON, 0), Or(SOURCE_ADDR_NPI, 0), OrEmpty(SOURCE_ADDR)]
  }

  function QueryRespFields(): (fs: seq<Field>)
  {
    [Required(MESSAGE_ID), Required(FINAL_DATE), Required(MESSAGE_STATE), Required(ERROR_CODE)]
  }

  function ReplaceFields(): (fs: seq<Field>)
  {
    [Required(MESSAGE_ID), Or(SOURCE_ADDR_TON, 0), Or(SOURCE_ADDR_NPI, 0), OrEmpty(SOURCE_ADDR),
     OrEmpty(SCHEDULE_DELIVERY_TIME), OrEmpty(VALIDITY_PERIOD), Or(REGISTERED_DELIVERY, 0),
     Or(SM_DEFAULT_MSG_ID, 0), Required(SHORT_MESSAGE)]
  }

  function QueryBroadcastFields(): (fs: seq<Field>)
  {
    [OrEmpty(MESSAGE_ID), Or(SOURCE_ADDR_TON, 0), Or(SOURCE_ADDR_NPI, 0), OrEmpty(SOURCE_ADDR)]
  }

  function CancelBroadcastFields(): (fs: seq<Field>)
  {
    [OrEmpty(SERVICE_TYPE), OrEmpty(MESSAGE_ID), Or(SOURCE_ADDR_TON, 0), Or(SOURCE_ADDR_NPI, 0),
     OrEmpty(SOURCE_ADDR)]
  }

  /** The mandatory fields of a PDU in wire order. */
  function FieldsOf(c: CommandId): (fs: seq<Field>)
  {
    match c
    case BindTransmitter | BindReceiver | BindTransceiver => BindFields()
    case BindTransmitterResp | BindReceiverResp | BindTransceiverResp => [Required(SYSTEM_ID)]
    case Outbind => OutbindFields()
    case Unbind | UnbindResp | EnquireLink | EnquireLinkResp | GenericNack
      | CancelSmResp | ReplaceSmResp | CancelBroadcastSmResp => []
    case AlertNotification => AlertFields()
    case SubmitSm | DeliverSm => SmFields()
    case SubmitSmResp | DataSmResp | DeliverSmResp | BroadcastSmResp => [Required(MESSAGE_ID)]
    case DataSm => DataFields()
    case SubmitMulti => MultiFields()
    case SubmitMultiResp => [Required(MESSAGE_ID), Required(UNSUCCESS_SMES)]
    case BroadcastSm => BroadcastFields()
    case CancelSm => CancelFields()
    case QuerySm => QueryFields()
    case QuerySmResp => QueryRespFields()
    case ReplaceSm => ReplaceFields()
    case QueryBroadcastSm => QueryBroadcastFields()
    case QueryBroadcastSmResp => [Required(MESSAGE_ID), Required(MESSAGE_STATE)]
    case CancelBroadcastSm => CancelBroadcastFields()
  }

  function MembersOf(c: CommandId): (ms: seq<Member>)
    ensures |ms| == |FieldsOf(c)|
    ensures forall i :: 0 <= i < |ms| ==> ms[i] == FieldsOf(c)[i].member
  {
    var fs := FieldsOf(c);
    seq(|fs|, i requires 0 <= i < |fs| => fs[i].member)
  }

  // ---- what the laws about PDUs need of the tables ----------------------------------------

  predicate HeaderName(n: Name)
  {
    n == CommandNameKey || n == CommandIdKey || n == CommandStatus || n == SequenceNumber
  }

  /**
   A field of a plain codec that is no header word; the one mandatory field that is also a TLV,
   message_state, is a single octet in both places and has no default.
   */
  predicate SoundField(f: Field)
  {
    var n, c := f.member.name, f.member.codec;
    && !HeaderName(n) && PlainCodec(c)
    && (n.Optional? ==> n == MessageState && c == U8 && f.fallback.None?)
  }

  predicate PlainCodec(c: Codec)
  {
    c == U8 || c.COctetStr? || c == Octet(true, 1) || c == DestAddressList || c == ListOf(UNSUCCESS_SME, true)
  }

  lemma PlainCodecs(c: Codec)
    requires PlainCodec(c)
    ensures WellFormed(c) && SelfDelimiting(c) && !UsesVarLengthInt(c)
  {
    if c == ListOf(UNSUCCESS_SME, true) {
      UnsuccessSmesIsPlain();
    }
  }

  lemma UnsuccessSmesIsPlain()
    ensures var c := ListOf(UNSUCCESS_SME, true); WellFormed(c) && SelfDelimiting(c) && !UsesVarLengthInt(c)
  {
    CompositeOfScalars(UNSUCCESS_SME.members);
  }

  lemma CompositeOfScalars(ms: seq<Member>)
    requires forall k <- ms :: k.codec == U8 || k.codec == U32 || k.codec.COctetStr?
    requires forall i, j :: 0 <= i < j < |ms| ==> ms[i].name != ms[j].name
    ensures var c := Composite(ms); WellFormed(c) && SelfDelimiting(c) && !UsesVarLengthInt(c)
  {}

  /** A field list names each field once and has only sound fields. */
  predicate SoundFields(fs: seq<Field>)
  {
    && (forall i, j :: 0 <= i < j < |fs| ==> fs[i].member.name != fs[j].member.name)
    && forall i :: 0 <= i < |fs| ==> SoundField(fs[i])
  }

  lemma SmFieldsAreSound()
    ensures forall i, j :: 0 <= i < j < |SmFields()| ==> SmFields()[i].member.name != SmFields()[j].member.name
    ensures forall i :: 0 <= i < |SmFields()| ==> SoundField(SmFields()[i])
  {}

  lemma MultiFieldsAreSound()
    ensures forall i, j :: 0 <= i < j < |MultiFields()| ==> MultiFields()[i].member.name != MultiFields()[j].member.name
    ensures forall i :: 0 <= i < |MultiFields()| ==> SoundField(MultiFields()[i])
  {}

  lemma BroadcastFieldsAreSound()
    ensures forall i, j :: 0 <= i < j < |BroadcastFields()|
              ==> BroadcastFields()[i].member.name != BroadcastFields()[j].member.name
    ensures forall i :: 0 <= i < |BroadcastFields()| ==> SoundField(BroadcastFields()[i])
  {}

  lemma DataFieldsAreSound()
    ensures forall i, j :: 0 <= i < j < |DataFields()| ==> DataFields()[i].member.name != DataFields()[j].member.name
    ensures forall i :: 0 <= i < |DataFields()| ==> SoundField(DataFields()[i])
  {}

  lemma ReplaceFieldsAreSound()
    ensures forall i, j :: 0 <= i < j < |ReplaceFields()|
              ==> ReplaceFields()[i].member.name != ReplaceFields()[j].member.name
    ensures forall i :: 0 <= i < |ReplaceFields()| ==> SoundField(ReplaceFields()[i])
  {}

  lemma CancelFieldsAreSound()
    ensures forall i, j :: 0 <= i < j < |CancelFields()|
              ==> CancelFields()[i].member.name != CancelFields()[j].member.name
    ensures forall i :: 0 <= i < |CancelFields()| ==> SoundField(CancelFields()[i])
  {}

  lemma BindFieldsAreSound()
    ensures forall i, j :: 0 <= i < j < |BindFields()| ==> BindFields()[i].member.name != BindFields()[j].member.name
    ensures forall i :: 0 <= i < |BindFields()| ==> SoundField(BindFields()[i])
  {}

  lemma OutbindFieldsAreSound()
    ensures forall i, j :: 0 <= i < j < |OutbindFields()|
              ==> OutbindFields()[i].member.name != OutbindFields()[j].member.name
    ensures forall i :: 0 <= i < |OutbindFields()| ==> SoundField(OutbindFields()[i])
  {}

  lemma AlertFieldsAreSound()
    ensures forall i, j :: 0 <= i < j < |AlertFields()| ==> AlertFields()[i].member.name != AlertFields()[j].member.name
    ensures forall i :: 0 <= i < |AlertFields()| ==> SoundField(AlertFields()[i])
  {}

  lemma QueryFieldsAreSound()
    ensures forall i, j :: 0 <= i < j < |QueryFields()| ==> QueryFields()[i].member.name != QueryFields()[j].member.name
    ensures forall i :: 0 <= i < |QueryFields()| ==> SoundField(QueryFields()[i])
  {}

  lemma QueryRespFieldsAreSound()
    ensures forall i, j :: 0 <= i < j < |QueryRespFields()|
              ==> QueryRespFields()[i].member.name != QueryRespFields()[j].member.name
    ensures forall i :: 0 <= i < |QueryRespFields()| ==> SoundField(QueryRespFields()[i])
  {}

  lemma QueryBroadcastFieldsAreSound()
    ensures forall i, j :: 0 <= i < j < |QueryBroadcastFields()|
              ==> QueryBroadcastFields()[i].member.name != QueryBroadcastFields()[j].member.name
    ensures forall i :: 0 <= i < |QueryBroadcastFields()| ==> SoundField(QueryBroadcastFields()[i])
  {}

  lemma CancelBroadcastFieldsAreSound()
    ensures forall i, j :: 0 <= i < j < |CancelBroadcastFields()|
              ==> CancelBroadcastFields()[i].member.name != CancelBroadcastFields()[j].member.name
    ensures forall i :: 0 <= i < |CancelBroadcastFields()| ==> SoundField(CancelBroadcastFields()[i])
  {}

  lemma ShortFieldsAreSound()
    ensures SoundFields([]) && SoundFields([Required(SYSTEM_ID)]) && SoundFields([Required(MESSAGE_ID)])
    ensures SoundFields([Required(MESSAGE_ID), Required(UNSUCCESS_SMES)])
    ensures SoundFields([Required(MESSAGE_ID), Required(MESSAGE_STATE)])
  {}

  lemma FieldsAreSound(c: CommandId)
    ensures SoundFields(FieldsOf(c))
  {
    hide SoundField, BindFields, OutbindFields, AlertFields, SmFields, DataFields, MultiFields, BroadcastFields;
    hide CancelFields, QueryFields, QueryRespFields, ReplaceFields, QueryBroadcastFields, CancelBroadcastFields;
    ShortFieldsAreSound();
    OutbindFieldsAreSound();
    AlertFieldsAreSound();
    QueryFieldsAreSound();
    QueryRespFieldsAreSound();
    QueryBroadcastFieldsAreSound();
    CancelBroadcastFieldsAreSound();
    SmFieldsAreSound();
    MultiFieldsAreSound();
    BroadcastFieldsAreSound();
    DataFieldsAreSound();
    ReplaceFieldsAreSound();
    CancelFieldsAreSound();
    BindFieldsAreSound();
  }

  lemma TlvsAreSound(n: Name)
    requires TlvOf(n).Some?
    ensures WellFormed(TlvOf(n).value.codec) && !HeaderName(n)
  {}
}
