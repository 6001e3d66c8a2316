/** The responses of the server: when they can be encoded, and what their header says. */
module Responses {
  import opened Bytes
  import opened Values
  import opened Codec
  import opened CommandIds
  import opened Tables
  import opened Pdu
  import opened PduLaws
  import opened WireLaws
  import opened SmppMessage
  import opened Forwarding
  import opened StatusCodes

  /** The message the server answers with; the given fields come last and may override the header. */
  function CreateJsonResponse(c: CommandId, sequence: u32, status: u32, fields: Message): (r: Message)
  {
    map[CommandIdKey := String(HexText(ResponseId(AsU32(c)))),
        CommandStatus := Number(status),
        SequenceNumber := Number(sequence)] + fields
  }

  /** A response that cannot be encoded is sent as nothing at all. */
  function Encoded(m: Message, order: seq<Name>): (b: bytes)
  {
    var r := FromJson(m, order);
    if r.Some? then r.value else []
  }

  /** The command whose identifier is that of `c` with the response bit, if there is one. */
  function ResponseCommand(c: CommandId): (r: Option<CommandId>)
  {
    FromU32(ResponseId(AsU32(c)))
  }

  /** The fields are all a command's PDU needs, and each can be encoded. */
  predicate Suffices(c: CommandId, fields: Message)
  {
    && (forall x <- MembersOf(c) :: x.name in fields && Encode(x.codec, fields[x.name]).Some?)
    && (forall n <- fields | TlvOf(n).Some? :: EncodableTlv(fields, n))
  }

  predicate NoHeader(fields: Message)
  {
    forall n <- fields :: !HeaderName(n)
  }

  lemma ResponsesHaveNoDefaults(c: CommandId, m: Message)
    requires IsResponse(c)
    ensures WithDefaults(FieldsOf(c), m) == m
  {
    hide WithDefaults;
    RequiredOnly(c);
    NoDefaults(FieldsOf(c), m);
  }

  lemma RequiredOnly(c: CommandId)
    requires IsResponse(c)
    ensures forall f <- FieldsOf(c) :: f.fallback.None?
  {
    hide BindFields, OutbindFields, AlertFields, SmFields, DataFields, MultiFields, BroadcastFields;
    hide CancelFields, QueryFields, QueryRespFields, ReplaceFields, QueryBroadcastFields, CancelBroadcastFields;
    QueryRespHasNoDefaults();
  }

  lemma QueryRespHasNoDefaults()
    ensures forall f <- QueryRespFields() :: f.fallback.None?
  {}

  lemma {:induction false} NoDefaults(fs: seq<Field>, m: Message)
    requires forall f <- fs :: f.fallback.None?
    ensures WithDefaults(fs, m) == m
  {
    if fs != [] { NoDefaults(fs[1..], m); }
  }

  lemma ResponseIdIsResponse(c: CommandId)
    requires ResponseCommand(c).Some?
    ensures var r := ResponseCommand(c).value; IsResponse(r) && AsU32(r) == ResponseId(AsU32(c))
  {
    NumbersAreUnique(ResponseCommand(c).value, ResponseId(AsU32(c)));
  }

  lemma ResponseFields(c: CommandId, sequence: u32, status: u32, fields: Message)
    requires NoHeader(fields)
    ensures var m := CreateJsonResponse(c, sequence, status, fields);
            && Get(m, CommandIdKey) == Some(String(HexText(ResponseId(AsU32(c)))))
            && HeaderNumber(m, CommandStatus) == status && HeaderNumber(m, SequenceNumber) == sequence
            && NumericHeaders(m)
            && (forall n :: !HeaderName(n) ==> Get(m, n) == Get(fields, n))
  {
    hide HexText, ResponseId, AsU32, HeaderName;
    forall n ensures HeaderName(n) <==> n in {CommandNameKey, CommandIdKey, CommandStatus, SequenceNumber} {
      HeaderNames(n);
    }
  }

  /** A response can be encoded exactly when its command exists and the fields suffice for it. */
  lemma ResponseEncodesIff(c: CommandId, sequence: u32, status: u32, fields: Message, order: seq<Name>)
    requires NoHeader(fields) && Enumerates(order)
    ensures var m := CreateJsonResponse(c, sequence, status, fields);
            && (FromJson(m, order).Some? <==> ResponseCommand(c).Some? && Suffices(ResponseCommand(c).value, fields))
            && (ResponseCommand(c).Some? ==> FromJson(m, order) == EncodePdu(ResponseCommand(c).value, m, order))
  {
    hide TlvOf, FieldsOf, MembersOf, WithDefaults, HeaderName, FromU32, HexText, FromStr, AsU32, Encode, Chunks;
    hide EncodePdu, Enumerates, CreateJsonResponse, EncodeMembers, HeaderNumber;
    var m := CreateJsonResponse(c, sequence, status, fields);
    ResponseFields(c, sequence, status, fields);
    FromHexText(ResponseId(AsU32(c)));
    if ResponseCommand(c).Some? {
      var r := ResponseCommand(c).value;
      ResponseIdIsResponse(c);
      ResponsesHaveNoDefaults(r, m);
      EncodableMembers(MembersOf(r), m);
      MembersAreSound(r);
      ResponseTlvs(m, fields, order);
    }
  }

  lemma ResponseTlvs(m: Message, fields: Message, order: seq<Name>)
    requires NoHeader(fields) && Enumerates(order)
    requires forall n :: !HeaderName(n) ==> Get(m, n) == Get(fields, n)
    ensures Chunks(order, m).Some? <==> (forall n <- fields | TlvOf(n).Some? :: EncodableTlv(fields, n))
  {
    hide TlvOf, HeaderName, Encode, Chunks, Enumerates;
    forall n | TlvOf(n).Some?
      ensures Get(m, n) == Get(fields, n) && (n in fields ==> EncodableTlv(m, n) == EncodableTlv(fields, n)) {
      TlvsAreSound(n);
    }
    if TlvsEncodable(m) { ChunksExist(order, m); }
    if Chunks(order, m).Some? { ChunksNeedEncodable(order, m); }
    assert TlvsEncodable(m) <==> (forall n <- fields | TlvOf(n).Some? :: EncodableTlv(fields, n));
  }

  // ---- the header of a response -----------------------------------------------------------

  /** Octets with a correct length word, the identifier of `c` with the response bit, and the given numbers. */
  predicate AnswerTo(c: CommandId, sequence: u32, status: u32, b: bytes)
  {
    && |b| >= HEADER_LENGTH
    && b[..4] == Be32(|b| % U32_LIMIT)
    && b[4..8] == Be32(ResponseId(AsU32(c)))
    && b[8..12] == Be32(status)
    && b[12..16] == Be32(sequence)
  }

  /** A response with sufficient fields answers its request by number and identifier; any other is sent as nothing. */
  lemma ResponseAnswers(c: CommandId, sequence: u32, status: u32, fields: Message, order: seq<Name>)
    requires NoHeader(fields) && Enumerates(order)
    ensures var b := Encoded(CreateJsonResponse(c, sequence, status, fields), order);
            if ResponseCommand(c).Some? && Suffices(ResponseCommand(c).value, fields)
            then AnswerTo(c, sequence, status, b) else b == []
  {
    hide CreateJsonResponse, FromJson, EncodePdu, Suffices, Enumerates, Be32, NumericHeaders, HeaderNumber, NoHeader;
    var m := CreateJsonResponse(c, sequence, status, fields);
    ResponseEncodesIff(c, sequence, status, fields, order);
    if FromJson(m, order).Some? {
      var r := ResponseCommand(c).value;
      ResponseIdIsResponse(c);
      ResponseFields(c, sequence, status, fields);
      Layout(r, m, order);
    }
  }

  // ---- the fields of each response --------------------------------------------------------

  function BindResponseFields(systemId: bytes, version: byte): (m: Message)
  {
    map[SystemId := String(systemId), ScInterfaceVersion := Number(version)]
  }

  function MessageIdField(id: bytes): (m: Message)
  {
    map[MessageId := String(id)]
  }

  function QueryResponseFields(id: bytes): (m: Message)
  {
    map[MessageId := String(id), FinalDate := String([]), MessageState := Number(5), ErrorCode := Number(0)]
  }

  /** One destination a submit_multi did not reach. */
  function FailureFields(a: Address): (m: Message)
  {
    map[DestAddrTon := Number(a.ton), DestAddrNpi := Number(a.npi), DestinationAddr := String(a.address),
        ErrorStatusCode := Number(ESME_RUNKNOWNERR)]
  }

  function Failure(a: Address): (v: Value)
  {
    Object(FailureFields(a))
  }

  function Failures(failed: seq<Address>): (vs: seq<Value>)
    ensures |vs| == |failed|
  {
    if failed == [] then [] else [Failure(failed[0])] + Failures(failed[1..])
  }

  function MultiResponseFields(id: bytes, failed: seq<Address>): (m: Message)
  {
    map[MessageId := String(id), UnsuccessSmes := Array(Failures(failed))]
  }

  lemma OneMember(c: CommandId, x: Member, fields: Message)
    requires FieldsOf(c) == [Required(x)] && x.name in fields && Encode(x.codec, fields[x.name]).Some?
    requires forall n <- fields | TlvOf(n).Some? :: EncodableTlv(fields, n)
    ensures Suffices(c, fields)
  {
    hide FieldsOf, Encode, TlvOf;
    assert MembersOf(c) == [x];
  }

  lemma BindResponseSuffices(c: CommandId, systemId: bytes, version: byte)
    requires c == BindTransmitterResp || c == BindReceiverResp || c == BindTransceiverResp
    ensures Suffices(c, BindResponseFields(systemId, version))
  {
    hide Suffices;
    OneMember(c, SYSTEM_ID, BindResponseFields(systemId, version));
  }

  lemma MessageIdSuffices(c: CommandId, id: bytes)
    requires c == SubmitSmResp || c == DataSmResp
    ensures Suffices(c, MessageIdField(id))
  {
    hide Suffices;
    OneMember(c, MESSAGE_ID, MessageIdField(id));
  }

  lemma NothingSuffices(c: CommandId)
    requires FieldsOf(c) == []
    ensures Suffices(c, map[])
  {
    hide FieldsOf;
    assert MembersOf(c) == [];
  }

  lemma QueryResponseSuffices(id: bytes)
    ensures Suffices(QuerySmResp, QueryResponseFields(id))
  {
    hide MembersOf;
    assert FieldsOf(QuerySmResp) == QueryRespFields();
    forall x <- MembersOf(QuerySmResp)
      ensures x.name in QueryResponseFields(id) && Encode(x.codec, QueryResponseFields(id)[x.name]).Some?
    {
      var k :| 0 <= k < 4 && x == QueryRespFields()[k].member;
    }
  }

  lemma FailureEncodes(a: Address)
    ensures Encode(UNSUCCESS_SME, Failure(a)).Some?
  {
    hide Encode, EncodeMembers;
    var ms, m := UNSUCCESS_SME.members, FailureFields(a);
    EncodableMembers(ms, m);
    FailureParts(a);
    assert Encode(UNSUCCESS_SME, Failure(a)) == EncodeMembers(ms, m) by { CompositeEncodes(ms, m); }
  }

  lemma CompositeEncodes(ms: seq<Member>, m: Message)
    ensures Encode(Composite(ms), Object(m)) == EncodeMembers(ms, m)
  {}

  lemma FailureParts(a: Address)
    ensures forall x <- UNSUCCESS_SME.members ::
              x.name in FailureFields(a) && Encode(x.codec, FailureFields(a)[x.name]).Some?
  {}

  lemma {:induction false} FailuresEncode(failed: seq<Address>)
    ensures EncodeItems(UNSUCCESS_SME, Failures(failed)).Some?
  {
    hide Encode, Failure;
    if failed != [] {
      FailureEncodes(failed[0]);
      FailuresEncode(failed[1..]);
    }
  }

  /** A submit_multi_resp can list at most 255 failures. */
  lemma MultiResponseSufficesIff(id: bytes, failed: seq<Address>)
    ensures Suffices(SubmitMultiResp, MultiResponseFields(id, failed)) <==> |failed| <= 255
  {
    hide Failures, EncodeItems;
    FailuresEncode(failed);
    assert MembersOf(SubmitMultiResp) == [MESSAGE_ID, UNSUCCESS_SMES];
    assert UNSUCCESS_SMES in MembersOf(SubmitMultiResp);
  }

  /** Requests without an implementation: none of their responses can be encoded without fields. */
  lemma UnansweredRequests(c: CommandId)
    requires c in {BroadcastSm, QueryBroadcastSm, Outbind, AlertNotification, DeliverSm}
    ensures !(ResponseCommand(c).Some? && Suffices(ResponseCommand(c).value, map[]))
  {
    hide Suffices, ResponseCommand, FieldsOf, MessageIdFirst;
    UnimplementedResponses();
    MessageIdComesFirst();
    MessageIdComesFirstInQuery();
    NeedsMessageId(BroadcastSmResp);
    NeedsMessageId(QueryBroadcastSmResp);
    NeedsMessageId(DeliverSmResp);
  }

  lemma UnimplementedResponses()
    ensures ResponseCommand(BroadcastSm) == Some(BroadcastSmResp)
    ensures ResponseCommand(QueryBroadcastSm) == Some(QueryBroadcastSmResp)
    ensures ResponseCommand(DeliverSm) == Some(DeliverSmResp)
    ensures ResponseCommand(Outbind).None? && ResponseCommand(AlertNotification).None?
  {
    hide FromU32, AsU32;
    UnimplementedNumbers();
    NumbersAreUnique(BroadcastSmResp, 0x8000_0111);
    NumbersAreUnique(QueryBroadcastSmResp, 0x8000_0112);
    NumbersAreUnique(DeliverSmResp, 0x8000_0005);
    NoSuchResponse();
  }

  lemma UnimplementedNumbers()
    ensures AsU32(BroadcastSm) == 0x111 && AsU32(QueryBroadcastSm) == 0x112 && AsU32(DeliverSm) == 0x5
    ensures AsU32(BroadcastSmResp) == 0x8000_0111 && AsU32(QueryBroadcastSmResp) == 0x8000_0112
    ensures AsU32(DeliverSmResp) == 0x8000_0005 && AsU32(Outbind) == 0xB && AsU32(AlertNotification) == 0x102
  {}

  lemma NoSuchResponse()
    ensures FromU32(0x8000_000B).None? && FromU32(0x8000_0102).None?
  {}

  lemma MessageIdComesFirst()
    ensures MessageIdFirst(BroadcastSmResp)
    ensures MessageIdFirst(DeliverSmResp)
  {
    hide BindFields, OutbindFields, AlertFields, SmFields, DataFields, MultiFields, BroadcastFields;
    hide CancelFields, QueryFields, QueryRespFields, ReplaceFields, QueryBroadcastFields, CancelBroadcastFields;
  }

  lemma MessageIdComesFirstInQuery()
    ensures MessageIdFirst(QueryBroadcastSmResp)
  {
    hide BindFields, OutbindFields, AlertFields, SmFields, DataFields, MultiFields, BroadcastFields;
    hide CancelFields, QueryFields, QueryRespFields, ReplaceFields, QueryBroadcastFields, CancelBroadcastFields;
  }

  predicate MessageIdFirst(c: CommandId)
  {
    FieldsOf(c) != [] && FieldsOf(c)[0].member == MESSAGE_ID
  }

  lemma NeedsMessageId(c: CommandId)
    requires MessageIdFirst(c)
    ensures !Suffices(c, map[])
  {
    hide FieldsOf;
    assert MembersOf(c)[0] == MESSAGE_ID && MESSAGE_ID in MembersOf(c);
  }
}
