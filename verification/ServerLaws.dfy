/** What the server answers to the octets it receives. */
module ServerLaws {
  import opened Bytes
  import opened Values
  import opened Codec
  import opened CommandIds
  import opened Tables
  import opened Pdu
  import opened PduLaws
  import opened WireLaws
  import opened SmppMessage
  import opened Forwarding
  import opened Responses
  import opened Storage
  import opened Correlation
  import opened StatusCodes
  import opened Server
  import Transactions
  import EsmClasses

  // ---- the header of a decoded message ----------------------------------------------------

  lemma DecodedHeader(b: bytes, n: Name)
    requires DecodePdu(b).Some? && HeaderName(n)
    ensures Get(DecodePdu(b).value, n) == Get(HeaderMessage(CommandOf(b), OfBe32(b[8..12]), OfBe32(b[12..16])), n)
    ensures |b| >= HEADER_LENGTH
  {
    hide TlvOf, MembersOf, HeaderMessage, FieldsOf, FromU32, DecodeMembers, DecodeTlvs;
    var c, p := CommandOf(b), DecodeFixed(b);
    var h := HeaderMessage(c, OfBe32(b[8..12]), OfBe32(b[12..16]));
    MembersAreSound(c);
    HeaderPresent(c, OfBe32(b[8..12]), OfBe32(b[12..16]), n);
    MembersKeep(MembersOf(c), b[16..], h, n);
    if TlvOf(n).Some? { TlvsAreSound(n); }
    TlvLoopKeeps(p.rest, p.v, n);
  }

  lemma HeaderPresent(c: CommandId, status: u32, sequence: u32, n: Name)
    requires HeaderName(n)
    ensures n in HeaderMessage(c, status, sequence)
  {}

  /** The dispatch sees the command and the number that are in the header. */
  lemma DecodedCommand(b: bytes)
    requires DecodePdu(b).Some?
    ensures |b| >= HEADER_LENGTH
    ensures ExtractCommandId(DecodePdu(b).value) == Some(CommandOf(b))
    ensures SequenceOf(DecodePdu(b).value) == OfBe32(b[12..16])
  {
    hide TlvOf, DecodePdu, FromU32, HexText, AsU32, NameOf, FromStr;
    HeaderNames(CommandIdKey);
    HeaderNames(SequenceNumber);
    DecodedHeader(b, CommandIdKey);
    DecodedHeader(b, SequenceNumber);
    var c := CommandOf(b);
    FromHexText(AsU32(c));
    NumbersAreUnique(c, AsU32(c));
  }

  // ---- requests with a fixed answer -------------------------------------------------------

  ghost predicate Answered(c: CommandId, sequence: u32, data: bytes)
  {
    exists status: u32 :: AnswerTo(c, sequence, status, data)
  }

  predicate HasFixedAnswer(c: CommandId)
  {
    c in {BindTransmitter, BindReceiver, BindTransceiver, Unbind, EnquireLink, QuerySm, CancelSm, ReplaceSm,
          CancelBroadcastSm}
  }

  function FixedFields(cfg: Config, c: CommandId, m: Message): (f: Message)
  {
    match c
    case BindTransmitter | BindReceiver | BindTransceiver =>
      BindResponseFields(StringOrEmpty(m, SystemId), cfg.interfaceVersion)
    case QuerySm => QueryResponseFields(StringOrEmpty(m, MessageId))
    case _ => map[]
  }

  function FixedStatus(s: Server, a: Answers, c: CommandId, m: Message): (n: u32)
  {
    match c
    case BindTransmitter | BindReceiver | BindTransceiver => if a.authenticated then ESME_ROK else ESME_RBINDFAIL
    case QuerySm => ESME_RQUERYFAIL
    case CancelSm => if Gone(s.store.messages, CancelSieve(m)) != {} then ESME_ROK else ESME_RCANCELFAIL
    case ReplaceSm => if ReplaceRefusal(s.store, m, a.times).None? then ESME_ROK else ESME_RREPLACEFAIL
    case CancelBroadcastSm => ESME_RBCASTCANCELFAIL
    case _ => ESME_ROK
  }

  lemma FixedResponse(cfg: Config, s: Server, a: Answers, m: Message, c: CommandId)
    requires ExtractCommandId(m) == Some(c) && HasFixedAnswer(c)
    ensures var h := Handle(cfg, s, a, m);
            && h.Sends? && !h.onFailure.Fatal?
            && h.data
               == Encoded(CreateJsonResponse(c, SequenceOf(m), FixedStatus(s, a, c, m), FixedFields(cfg, c, m)),
                          a.order)
  {
    hide ExtractCommandId, CreateJsonResponse, Encoded, BindResponseFields, QueryResponseFields, Gone;
  }

  lemma FixedFieldsSuffice(cfg: Config, c: CommandId, m: Message)
    requires HasFixedAnswer(c)
    ensures ResponseCommand(c).Some? && Suffices(ResponseCommand(c).value, FixedFields(cfg, c, m))
    ensures NoHeader(FixedFields(cfg, c, m))
  {
    hide Suffices, ResponseCommand, StringOrEmpty, FieldsOf, NoHeader, BindResponseFields, QueryResponseFields;
    FixedResponseCommand(c);
    NoHeaderInFixed(StringOrEmpty(m, SystemId), cfg.interfaceVersion);
    NoHeaderInFixed(StringOrEmpty(m, MessageId), cfg.interfaceVersion);
    if c == BindTransmitter || c == BindReceiver || c == BindTransceiver {
      BindResponseSuffices(ResponseCommand(c).value, StringOrEmpty(m, SystemId), cfg.interfaceVersion);
    } else if c == QuerySm {
      QueryResponseSuffices(StringOrEmpty(m, MessageId));
    } else {
      NoFields();
      NothingSuffices(ResponseCommand(c).value);
    }
  }

  lemma NoFields()
    ensures FieldsOf(UnbindResp) == []
    ensures FieldsOf(EnquireLinkResp) == []
    ensures FieldsOf(CancelSmResp) == []
    ensures FieldsOf(ReplaceSmResp) == []
    ensures FieldsOf(CancelBroadcastSmResp) == []
  {}

  lemma NoHeaderInFixed(text: bytes, version: byte)
    ensures NoHeader(map[]) && NoHeader(MessageIdField(text))
    ensures NoHeader(BindResponseFields(text, version)) && NoHeader(QueryResponseFields(text))
  {}

  lemma FixedResponseCommand(c: CommandId)
    requires HasFixedAnswer(c)
    ensures ResponseCommand(c) == match c
      case BindTransmitter => Some(BindTransmitterResp)
      case BindReceiver => Some(BindReceiverResp)
      case BindTransceiver => Some(BindTransceiverResp)
      case Unbind => Some(UnbindResp)
      case EnquireLink => Some(EnquireLinkResp)
      case QuerySm => Some(QuerySmResp)
      case CancelSm => Some(CancelSmResp)
      case ReplaceSm => Some(ReplaceSmResp)
      case _ => Some(CancelBroadcastSmResp)
  {
    var r := match c
      case BindTransmitter => BindTransmitterResp
      case BindReceiver => BindReceiverResp
      case BindTransceiver => BindTransceiverResp
      case Unbind => UnbindResp
      case EnquireLink => EnquireLinkResp
      case QuerySm => QuerySmResp
      case CancelSm => CancelSmResp
      case ReplaceSm => ReplaceSmResp
      case _ => CancelBroadcastSmResp;
    NumbersAreUnique(r, ResponseId(AsU32(c))) by { hide FromU32; }
  }

  /** Binds, unbind, enquire_link, query, cancel and replace are always answered, with the request's number. */
  lemma FixedAnswer(cfg: Config, s: Server, a: Answers, b: bytes)
    requires DecodePdu(b).Some? && HasFixedAnswer(CommandOf(b)) && Enumerates(a.order)
    ensures var c, m, h := CommandOf(b), DecodePdu(b).value, Handle(cfg, s, a, DecodePdu(b).value);
            |b| >= 16 && h.Sends? && !h.onFailure.Fatal?
            && AnswerTo(c, OfBe32(b[12..16]), FixedStatus(s, a, c, m), h.data)
  {
    hide DecodePdu, CommandOf, Handle, HasFixedAnswer, FixedFields, FixedStatus, CreateJsonResponse, Encoded;
    hide Suffices, NoHeader, Enumerates, AnswerTo, ResponseCommand, ExtractCommandId, SequenceOf;
    var c, m := CommandOf(b), DecodePdu(b).value;
    DecodedCommand(b);
    FixedResponse(cfg, s, a, m, c);
    FixedFieldsSuffice(cfg, c, m);
    ResponseAnswers(c, SequenceOf(m), FixedStatus(s, a, c, m), FixedFields(cfg, c, m), a.order);
  }

  /** Requests the server does not implement get no octets at all, not even a refusal. */
  lemma UnimplementedIsSilent(cfg: Config, s: Server, a: Answers, b: bytes)
    requires DecodePdu(b).Some? && Enumerates(a.order)
    requires CommandOf(b) in {BroadcastSm, QueryBroadcastSm, Outbind, AlertNotification, DeliverSm}
    ensures var h := Handle(cfg, s, a, DecodePdu(b).value);
            h.Sends? && h.data == [] && h.server == s && h.onFailure.EndsBatch?
  {
    hide DecodePdu, CommandOf, FromJson, CreateJsonResponse, Enumerates, ExtractCommandId, SequenceOf, Suffices;
    hide ResponseCommand;
    var c, m := CommandOf(b), DecodePdu(b).value;
    DecodedCommand(b);
    UnansweredRequests(c);
    ResponseAnswers(c, SequenceOf(m), ESME_RINVCMDID, map[], a.order);
    ResponseAnswers(c, SequenceOf(m), ESME_RBCASTFAIL, map[], a.order);
    ResponseAnswers(c, SequenceOf(m), ESME_RBCASTQUERYFAIL, map[], a.order);
  }

  /** Responses the server receives are not answered. */
  lemma ResponsesAreNotAnswered(cfg: Config, s: Server, a: Answers, b: bytes)
    requires DecodePdu(b).Some? && IsResponse(CommandOf(b))
    ensures Handle(cfg, s, a, DecodePdu(b).value).Quiet?
  {
    hide DecodePdu, CommandOf, ExtractCommandId, SequenceOf;
    DecodedCommand(b);
  }

  // ---- submit_sm and data_sm --------------------------------------------------------------

  /** How far a message is from being sent on: all fields of a submit_sm, and which nulls are in the way. */
  predicate SubmitReady(m: Message)
  {
    HasSubmitFields(m) && NullOrEncodable(m)
  }

  lemma PutKeepsReady(m: Message, k: Name, v: Value)
    requires SubmitReady(m) && TlvOf(k).None?
    requires forall x <- MembersOf(SubmitSm) :: x.name == k ==> Encode(x.codec, v).Some?
    ensures SubmitReady(m[k := v]) && (NoNullTlvs(m[k := v]) <==> NoNullTlvs(m))
  {
    hide MembersOf, TlvOf, Encode;
    forall n <- m | TlvOf(n).Some? ensures Get(m[k := v], n) == Get(m, n) {}
  }

  lemma PreparableCodecs()
    ensures forall x <- MembersOf(SubmitSm) ::
              && (x.name == ServiceType ==> x.codec.COctetStr?)
              && (x.name == SmDefaultMsgId ==> x.codec == U8)
              && (x.name == ShortMessage ==> x.codec == Octet(true, 1))
              && x.name != SequenceNumber
    ensures TlvOf(ServiceType).None? && TlvOf(SmDefaultMsgId).None? && TlvOf(ShortMessage).None?
            && TlvOf(SequenceNumber).None?
  {
    forall x <- MembersOf(SubmitSm)
      ensures (x.name == ServiceType ==> x.codec.COctetStr?) && (x.name == SmDefaultMsgId ==> x.codec == U8)
              && (x.name == ShortMessage ==> x.codec == Octet(true, 1)) && x.name != SequenceNumber
    {
      var i :| 0 <= i < |SmFields()| && SmFields()[i].member == x;
    }
  }

  lemma PreparableValues()
    ensures Encode(U8, Number(0)).Some?
    ensures forall text, n: nat ::
              Encode(COctetStr(n), String(text)).Some? && Encode(Octet(true, 1), String(text)).Some?
  {
    hide Payload;
  }

  /** A submit_sm as it is handled: predefined text, default service type and a number of its own. */
  function Prepared(cfg: Config, s: Server, m: Message): (r: Option<Message>)
  {
    var p := WithPredefined(cfg, m);
    if p.None? then None else Some(WithServiceType(cfg, p.value)[SequenceNumber := Number(NumberOf(s.numbers))])
  }

  lemma PredefinedKeepsReady(cfg: Config, m: Message)
    requires SubmitReady(m) && ShortMessage in m
    ensures WithPredefined(cfg, m).Some?
    ensures SubmitReady(WithPredefined(cfg, m).value) && (NoNullTlvs(WithPredefined(cfg, m).value) <==> NoNullTlvs(m))
  {
    hide MembersOf, TlvOf, SubmitReady, NoNullTlvs, ExtractCommandId, StringOrEmpty, NumberOr0, Encode;
    PreparableCodecs();
    PreparableValues();
    var k := NumberOr0(m, SmDefaultMsgId);
    if 0 < k <= |cfg.predefined| {
      PutKeepsReady(m, SmDefaultMsgId, Number(0));
      PutKeepsReady(m[SmDefaultMsgId := Number(0)], ShortMessage, String(cfg.predefined[k - 1]));
    }
  }

  lemma PreparedSubmit(cfg: Config, s: Server, m: Message)
    requires SubmitReady(m) && ShortMessage in m
    ensures Prepared(cfg, s, m).Some? && SubmitReady(Prepared(cfg, s, m).value)
    ensures NoNullTlvs(Prepared(cfg, s, m).value) <==> NoNullTlvs(m)
  {
    hide MembersOf, TlvOf, SubmitReady, NoNullTlvs, StringOrEmpty, Encode, WithPredefined;
    PreparableCodecs();
    PreparableValues();
    PredefinedKeepsReady(cfg, m);
    var p := WithPredefined(cfg, m).value;
    PutKeepsReady(p, ServiceType, String(cfg.defaultServiceType));
    PutKeepsReady(WithServiceType(cfg, p), SequenceNumber, Number(NumberOf(s.numbers)));
  }

  lemma PreparedData(cfg: Config, s: Server, m: Message)
    requires ShortMessage !in m && SmDefaultMsgId !in m
    ensures Prepared(cfg, s, m).Some? && ShortMessage !in Prepared(cfg, s, m).value
  {}

  // ---- what each mode answers -------------------------------------------------------------

  lemma ServedCommands(c: CommandId, id: bytes)
    requires c == SubmitSm || c == DataSm
    ensures ResponseCommand(c).Some? && Suffices(ResponseCommand(c).value, MessageIdField(id))
            && NoHeader(MessageIdField(id))
  {
    hide Suffices, FieldsOf, MessageIdField, FromU32;
    NumbersAreUnique(SubmitSmResp, ResponseId(AsU32(SubmitSm)));
    NumbersAreUnique(DataSmResp, ResponseId(AsU32(DataSm)));
    MessageIdSuffices(ResponseCommand(c).value, id);
    NoHeaderInFixed(id, 0);
  }

  lemma MessageIdAnswers(c: CommandId, sequence: u32, status: u32, id: bytes, order: seq<Name>)
    requires (c == SubmitSm || c == DataSm) && Enumerates(order)
    ensures Answered(c, sequence, Encoded(CreateJsonResponse(c, sequence, status, MessageIdField(id)), order))
  {
    hide Suffices, CreateJsonResponse, Encoded, AnswerTo, ResponseCommand, MessageIdField, NoHeader, Enumerates;
    ServedCommands(c, id);
    ResponseAnswers(c, sequence, status, MessageIdField(id), order);
  }

  ghost predicate IsReply(c: CommandId, sequence: u32, response: Message)
  {
    exists status: u32, text :: response == CreateJsonResponse(c, sequence, status, MessageIdField(text))
  }

  lemma StoringReplies(cfg: Config, s: Server, a: Answers, c: CommandId, sequence: u32, id: bytes, m: Message)
    ensures var v := StoreAndForward(cfg, s, a, c, sequence, id, m); v.Verdict? && IsReply(c, sequence, v.response)
  {
    hide CreateJsonResponse, MessageIdField, TimesRejection, SaveRefusal, Save, RejectedWith, IsReply;
    var r := TimesRejection(cfg, a, m);
    if r.Some? { RejectionReplies(s, m, c, sequence, r.value.status, r.value.text); }
    RejectionReplies(s, m, c, sequence, ESME_RUNKNOWNERR, "fail-to-store");
    ReplyIs(c, sequence, ESME_ROK, id);
  }

  lemma RejectionReplies(s: Server, m: Message, c: CommandId, sequence: u32, status: u32, text: string)
    ensures var v := RejectedWith(s, m, c, sequence, status, text); v.Verdict? && IsReply(c, sequence, v.response)
  {
    hide CreateJsonResponse, MessageIdField, Ascii;
  }

  lemma ReplyIs(c: CommandId, sequence: u32, status: u32, id: bytes)
    ensures IsReply(c, sequence, CreateJsonResponse(c, sequence, status, MessageIdField(id)))
  {
    hide CreateJsonResponse, MessageIdField;
  }

  /** Every mode's verdict is a response with a message_id under the request's own number. */
  lemma VerdictsAreResponses(cfg: Config, s: Server, a: Answers, c: CommandId, sequence: u32, id: bytes,
                             m: Message, mode: EsmClasses.MessageMode)
    ensures var v := ByMode(cfg, s, a, c, sequence, id, m, mode); v.Verdict? ==> IsReply(c, sequence, v.response)
    ensures var v := ByMode(cfg, s, a, c, sequence, id, m, mode);
            v.Panic? <==> mode.Transaction? && Handing(AsDeliverSm(m, NumberOf(s.numbers))) != []
                          && FromJson(AsDeliverSm(m, NumberOf(s.numbers)), a.order).None?
  {
    hide CreateJsonResponse, MessageIdField, FromJson, AsDeliverSm, Handing, Transactions.StatusOf, StoreAndForward;
    StoringReplies(cfg, s, a, c, sequence, id, m);
  }

  lemma LocalReplyAnswers(a: Answers, c: CommandId, sequence: u32, m: Message)
    requires (c == SubmitSm || c == DataSm) && Enumerates(a.order)
    ensures Answered(c, sequence, LocalReply(a, c, sequence, m))
  {
    hide Suffices, CreateJsonResponse, FromJson, AnswerTo, ResponseCommand, MessageIdField, NoHeader;
    hide Enumerates, TlvFields;
    MessageIdAnswers(c, sequence, ESME_RUNKNOWNERR, a.errorId, a.order);
    var answer := a.local(m);
    if answer.Some? {
      var fields := MessageIdField(StringOrEmpty(answer.value, MessageId)) + TlvFields(answer.value);
      NoHeaderInLocal(StringOrEmpty(answer.value, MessageId), answer.value);
      ResponseAnswers(c, sequence, ESME_ROK, fields, a.order);
      ResponseEncodesIff(c, sequence, ESME_ROK, fields, a.order);
    }
  }

  lemma NoHeaderInLocal(id: bytes, answer: Message)
    ensures NoHeader(MessageIdField(id) + TlvFields(answer))
  {
    hide TlvOf, HeaderName;
    NoHeaderInFixed(id, 0);
    forall n | TlvOf(n).Some? ensures !HeaderName(n) { TlvsAreSound(n); }
  }

  /**
   A decoded submit_sm or data_sm is answered once, under its own number, unless it is to be forwarded
   in transaction mode and cannot be encoded as deliver_sm: then the connection panics.
   */
  lemma SubmissionAnswer(cfg: Config, s: Server, a: Answers, b: bytes)
    requires DecodePdu(b).Some? && Enumerates(a.order)
    requires CommandOf(b) == SubmitSm || CommandOf(b) == DataSm
    ensures var m, h := DecodePdu(b).value, Handle(cfg, s, a, DecodePdu(b).value);
            && |b| >= 16 && Prepared(cfg, s, m).Some?
            && (h.Sends? || h.Dies?)
            && (h.Sends? ==> Answered(CommandOf(b), OfBe32(b[12..16]), h.data) && h.onFailure.EndsBatch?)
            && (h.Dies? ==> ModeFor(cfg, Prepared(cfg, s, m).value).Transaction?
                            && !a.own(StringOrEmpty(Prepared(cfg, s, m).value, DestinationAddr))
                            && FromJson(AsDeliverSm(Prepared(cfg, s, m).value, NumberOf(s.numbers + 1)), a.order).None?)
  {
    hide DecodePdu, CommandOf, FromJson, CreateJsonResponse, Enumerates, ExtractCommandId, SequenceOf, Encoded;
    hide LocalReply, ByMode, Answered, ModeFor, AsDeliverSm, WithServiceType, WithPredefined, MessageIdField;
    hide Handing;
    var c, m := CommandOf(b), DecodePdu(b).value;
    DecodedCommand(b);
    DecodedIsPreparable(cfg, s, b);
    var p, sequence := Prepared(cfg, s, m).value, SequenceOf(m);
    var s1 := s.(numbers := s.numbers + 1);
    assert Handle(cfg, s, a, m) == HandleDataSubmit(cfg, s, a, c, m);
    LocalReplyAnswers(a, c, sequence, p);
    VerdictsAreResponses(cfg, s1, a, c, sequence, a.messageId, p, ModeFor(cfg, p));
    var v := ByMode(cfg, s1, a, c, sequence, a.messageId, p, ModeFor(cfg, p));
    if v.Verdict? {
      assert IsReply(c, sequence, v.response);
      var status: u32, text :| v.response == CreateJsonResponse(c, sequence, status, MessageIdField(text));
      MessageIdAnswers(c, sequence, status, text, a.order);
    }
  }

  lemma DestinationMember(c: CommandId) returns (x: Member)
    requires c == SubmitSm || c == DataSm
    ensures x in MembersOf(c) && x == DESTINATION_ADDR && TlvOf(x.name).None?
  {
    x := MembersOf(c)[6];
    if c == SubmitSm { assert SmFields()[6].member == x; } else { assert DataFields()[6].member == x; }
  }

  lemma DecodedHasDestination(cfg: Config, s: Server, b: bytes)
    requires DecodePdu(b).Some? && (CommandOf(b) == SubmitSm || CommandOf(b) == DataSm)
    requires Prepared(cfg, s, DecodePdu(b).value).Some?
    ensures forall n :: Handing(AsDeliverSm(Prepared(cfg, s, DecodePdu(b).value).value, n)) != []
  {
    hide DecodePdu, CommandOf, MembersOf, TlvOf, NullOrEncodable, HeaderName, ExtractCommandId, NumberOr0;
    hide StringOrEmpty;
    var m := DecodePdu(b).value;
    DecodedMembersSound(b);
    var x := DestinationMember(CommandOf(b));
    assert DestinationAddr in m && m[DestinationAddr].String?;
    var p := Prepared(cfg, s, m).value;
    assert Get(p, DestinationAddr) == Get(m, DestinationAddr);
  }

  lemma DecodedIsPreparable(cfg: Config, s: Server, b: bytes)
    requires DecodePdu(b).Some? && (CommandOf(b) == SubmitSm || CommandOf(b) == DataSm)
    ensures var m := DecodePdu(b).value;
            && Prepared(cfg, s, m).Some?
            && (CommandOf(b) == SubmitSm ==>
                  SubmitReady(Prepared(cfg, s, m).value) && (NoNullTlvs(Prepared(cfg, s, m).value) <==> NoNullTlvs(m)))
            && (CommandOf(b) == DataSm ==> ShortMessage !in Prepared(cfg, s, m).value)
  {
    hide DecodePdu, CommandOf, Prepared, NoNullTlvs, MembersOf;
    var m := DecodePdu(b).value;
    if CommandOf(b) == SubmitSm {
      DecodedSubmitFields(b);
      var x := SubmitHas(ShortMessage);
      PreparedSubmit(cfg, s, m);
    } else {
      DecodedDataHasNoText(b);
      PreparedData(cfg, s, m);
    }
  }

  /**
   The panic in terms of what was received: a data_sm in transaction mode always, a submit_sm exactly
   when the last TLV of some tag but that of alert_on_message_delivery cannot be read.
   */
  lemma ForwardingPanicsIff(cfg: Config, s: Server, a: Answers, b: bytes)
    requires DecodePdu(b).Some? && Enumerates(a.order)
    requires CommandOf(b) == SubmitSm || CommandOf(b) == DataSm
    requires var p := Prepared(cfg, s, DecodePdu(b).value);
             p.Some? && ModeFor(cfg, p.value).Transaction? && !a.own(StringOrEmpty(p.value, DestinationAddr))
    ensures Handle(cfg, s, a, DecodePdu(b).value).Dies? <==> (CommandOf(b) == SubmitSm ==> !LastTlvsReadable(b))
  {
    hide DecodePdu, CommandOf, FromJson, CreateJsonResponse, Enumerates, ExtractCommandId, SequenceOf, Encoded;
    hide LocalReply, ByMode, ModeFor, WithServiceType, WithPredefined, MessageIdField, Handing, NoNullTlvs;
    hide LastTlvsReadable;
    var c, m := CommandOf(b), DecodePdu(b).value;
    DecodedCommand(b);
    DecodedIsPreparable(cfg, s, b);
    DecodedHasDestination(cfg, s, b);
    var p, n := Prepared(cfg, s, m).value, NumberOf(s.numbers + 1);
    assert Handle(cfg, s, a, m) == HandleDataSubmit(cfg, s, a, c, m);
    VerdictsAreResponses(cfg, s.(numbers := s.numbers + 1), a, c, SequenceOf(m), a.messageId, p, ModeFor(cfg, p));
    if c == SubmitSm {
      NoNullsIffReadable(b);
      RelabelledEncodesIff(p, n, a.order);
    } else {
      RelabelledNeedsText(p, n, a.order);
    }
  }

  /**
   A message is stored exactly when it has a destination and some time, nothing of it lies in the past
   and it is not scheduled after its validity ends; otherwise the store stays as it is.
   */
  lemma StoredIff(cfg: Config, s: Server, a: Answers, c: CommandId, sequence: u32, id: bytes, m: Message)
    ensures var v := StoreAndForward(cfg, s, a, c, sequence, id, m);
            var schedule, validity := ScheduleTime(m, a.times), ValidityTime(m, cfg.defaultValidity, a.times);
            && v.Verdict?
            && (v.accepted <==> && StringOrEmpty(m, DestinationAddr) != []
                                && (schedule.Some? || validity.Some?)
                                && (schedule.Some? ==> a.times.now <= schedule.value)
                                && (validity.Some? ==> a.times.now <= validity.value)
                                && (schedule.Some? && validity.Some? ==> schedule.value <= validity.value))
            && v.server.store == (if v.accepted then Save(s.store, id, m, cfg.defaultValidity, a.times) else s.store)
  {
    hide ScheduleTime, ValidityTime, CreateJsonResponse, MessageIdField, Save, RejectedWith;
    var r := TimesRejection(cfg, a, m);
    if r.Some? { RejectedStays(s, m, c, sequence, r.value.status, r.value.text); }
    RejectedStays(s, m, c, sequence, ESME_RUNKNOWNERR, "fail-to-store");
  }

  lemma RejectedStays(s: Server, m: Message, c: CommandId, sequence: u32, status: u32, text: string)
    ensures var v := RejectedWith(s, m, c, sequence, status, text);
            v.Verdict? && !v.accepted && v.server.store == s.store
  {
    hide CreateJsonResponse, MessageIdField, Ascii;
  }

  /** Preparing a message changes neither its mode nor its destination. */
  lemma PreparedSame(cfg: Config, s: Server, m: Message)
    requires Prepared(cfg, s, m).Some?
    ensures var p := Prepared(cfg, s, m).value;
            ModeFor(cfg, p) == ModeFor(cfg, m) && StringOrEmpty(p, DestinationAddr) == StringOrEmpty(m, DestinationAddr)
  {
    hide ExtractCommandId;
  }

  /**
   Octets that panic the connection that receives them: a data_sm, or a submit_sm with an unreadable
   last TLV, that is to be forwarded in transaction mode.
   */
  predicate Kills(cfg: Config, a: Answers, b: bytes)
  {
    && DecodePdu(b).Some?
    && (CommandOf(b) == DataSm || (CommandOf(b) == SubmitSm && !LastTlvsReadable(b)))
    && ModeFor(cfg, DecodePdu(b).value).Transaction?
    && !a.own(StringOrEmpty(DecodePdu(b).value, DestinationAddr))
  }

  /** Exactly these octets end in a panic before anything is written, whatever state the server is in. */
  lemma DiesIffKills(cfg: Config, s: Server, a: Answers, b: bytes)
    requires DecodePdu(b).Some? && (CommandOf(b) == SubmitSm || CommandOf(b) == DataSm) && Enumerates(a.order)
    ensures Handle(cfg, s, a, DecodePdu(b).value).Dies? <==> Kills(cfg, a, b)
  {
    hide DecodePdu, CommandOf, Handle, Enumerates, ModeFor, LastTlvsReadable, Prepared, StringOrEmpty, Answered;
    SubmissionAnswer(cfg, s, a, b);
    var m := DecodePdu(b).value;
    PreparedSame(cfg, s, m);
    if ModeFor(cfg, m).Transaction? && !a.own(StringOrEmpty(m, DestinationAddr)) {
      ForwardingPanicsIff(cfg, s, a, b);
    }
  }

  // ---- success in transaction mode --------------------------------------------------------

  /** What the waiter for an allocation gets is what it resolves with in some run of the server's waiters. */
  ghost predicate Explains(ms: seq<Transactions.Move>, a: Answers, index: nat)
  {
    var t := Transactions.Moves(Transactions.NOBODY, ms);
    t.Some? && Transactions.At(t.value, index, Transactions.Resolved(a.acknowledged(index)))
  }

  /** A response with status 0 and the number of the forwarded message, arrived after its waiter was registered. */
  ghost predicate AcknowledgedBy(ms: seq<Transactions.Move>, index: nat, r: Response)
  {
    && r.number == NumberOf(index)
    && CommandStatus in r.message && NumberOr0(r.message, CommandStatus) % U32_LIMIT == ESME_ROK
    && exists j, k :: 0 <= j < k < |ms| && ms[j] == Transactions.Enter(index) && ms[k] == Transactions.Arrive(r)
  }

  lemma SuccessExplained(ms: seq<Transactions.Move>, a: Answers, index: nat)
    requires Explains(ms, a, index) && Transactions.StatusOf(a.acknowledged(index)) == ESME_ROK
    ensures a.acknowledged(index).Some? && AcknowledgedBy(ms, index, a.acknowledged(index).value)
  {
    hide Transactions.Moves, Transactions.StatusOf, NumberOf;
    Transactions.SuccessWasAcknowledged(ms, index, a.acknowledged(index));
  }

  /** An accepted message was forwarded once, under a number that was acknowledged. */
  lemma AcceptedWasAcknowledged(s: Server, a: Answers, c: CommandId, sequence: u32, id: bytes, m: Message,
                                ms: seq<Transactions.Move>)
    requires Get(m, DestinationAddr).Some? && m[DestinationAddr].String? && Explains(ms, a, s.numbers)
    requires var v := SendTransaction(s, a, c, sequence, id, m); v.Verdict? && v.accepted
    ensures var v, r := SendTransaction(s, a, c, sequence, id, m), a.acknowledged(s.numbers);
            && r.Some? && AcknowledgedBy(ms, s.numbers, r.value)
            && exists d :: v.server.log == s.log + [Forwarded(d)] && SequenceOf(d) == r.value.number
  {
    hide CreateJsonResponse, MessageIdField, FromJson, NumberOf, Explains, AcknowledgedBy, Transactions.StatusOf;
    SuccessExplained(ms, a, s.numbers);
    var d := AsDeliverSm(m, NumberOf(s.numbers));
    assert Handing(d) == [Forwarded(d)] && SequenceOf(d) == NumberOf(s.numbers)
      by { RelabelledNumber(m, NumberOf(s.numbers)); }
    assert a.acknowledged(s.numbers).value.number == NumberOf(s.numbers)
      by { NumberOfAcknowledged(ms, s.numbers, a.acknowledged(s.numbers).value); }
  }

  lemma RelabelledNumber(m: Message, n: u32)
    requires Get(m, DestinationAddr).Some? && m[DestinationAddr].String?
    ensures var d := AsDeliverSm(m, n); Handing(d) == [Forwarded(d)] && SequenceOf(d) == n
  {}

  lemma NumberOfAcknowledged(ms: seq<Transactions.Move>, index: nat, r: Response)
    requires AcknowledgedBy(ms, index, r)
    ensures r.number == NumberOf(index)
  {}

  /**
   Transaction mode from octets to octets: a received submit_sm that is to be forwarded is answered with
   status 0 only when a response with status 0 and the number it was forwarded under arrived after its
   waiter was registered.
   */
  lemma ReportedSuccess(cfg: Config, s: Server, a: Answers, b: bytes, ms: seq<Transactions.Move>)
    requires DecodePdu(b).Some? && CommandOf(b) == SubmitSm && Enumerates(a.order)
    requires var p := Prepared(cfg, s, DecodePdu(b).value);
             p.Some? && ModeFor(cfg, p.value).Transaction? && !a.own(StringOrEmpty(p.value, DestinationAddr))
    requires Explains(ms, a, s.numbers + 1)
    requires var h := Handle(cfg, s, a, DecodePdu(b).value);
             h.Sends? && AnswerTo(SubmitSm, OfBe32(b[12..16]), ESME_ROK, h.data)
    ensures var h, r := Handle(cfg, s, a, DecodePdu(b).value), a.acknowledged(s.numbers + 1);
            && r.Some? && AcknowledgedBy(ms, s.numbers + 1, r.value)
            && exists d :: h.server.log == s.log + [Forwarded(d)] && SequenceOf(d) == r.value.number
  {
    hide DecodePdu, CommandOf, Enumerates, ExtractCommandId, Explains, AcknowledgedBy, Handing, AsDeliverSm, FromJson;
    hide ModeFor, WithServiceType, WithPredefined, CreateJsonResponse, Encoded, MessageIdField, AnswerTo;
    var m := DecodePdu(b).value;
    DecodedCommand(b);
    DecodedHasDestination(cfg, s, b);
    var p, sequence, s1 := Prepared(cfg, s, m).value, SequenceOf(m), s.(numbers := s.numbers + 1);
    assert Handle(cfg, s, a, m) == HandleDataSubmit(cfg, s, a, SubmitSm, m);
    HandedIsText(p, 0);
    var status := Transactions.StatusOf(a.acknowledged(s1.numbers));
    TransactionOctets(s1, a, sequence, a.messageId, p);
    StatusIsWritten(sequence, status, ESME_ROK, Handle(cfg, s, a, m).data);
    AcceptedWasAcknowledged(s1, a, SubmitSm, sequence, a.messageId, p, ms);
  }

  lemma HandedIsText(m: Message, n: u32)
    requires Handing(AsDeliverSm(m, n)) != []
    ensures Get(m, DestinationAddr).Some? && m[DestinationAddr].String?
  {}

  /** The octets of a verdict of transaction mode carry the waiter's status. */
  lemma TransactionOctets(s: Server, a: Answers, sequence: u32, id: bytes, m: Message)
    requires Enumerates(a.order) && SendTransaction(s, a, SubmitSm, sequence, id, m).Verdict?
    ensures var v, status := SendTransaction(s, a, SubmitSm, sequence, id, m),
            Transactions.StatusOf(a.acknowledged(s.numbers));
            && AnswerTo(SubmitSm, sequence, status, Encoded(v.response, a.order))
            && (v.accepted <==> status == ESME_ROK)
  {
    hide Suffices, CreateJsonResponse, Encoded, AnswerTo, ResponseCommand, MessageIdField, NoHeader, Enumerates;
    hide Handing, AsDeliverSm, FromJson, Transactions.StatusOf;
    ServedCommands(SubmitSm, id);
    ResponseAnswers(SubmitSm, sequence, Transactions.StatusOf(a.acknowledged(s.numbers)), MessageIdField(id), a.order);
  }

  lemma StatusIsWritten(sequence: u32, x: u32, y: u32, data: bytes)
    requires AnswerTo(SubmitSm, sequence, x, data) && AnswerTo(SubmitSm, sequence, y, data)
    ensures x == y
  {
    hide ResponseId, AsU32;
    assert OfBe32(Be32(x)) == x && OfBe32(Be32(y)) == y;
  }

  /**
   What becomes of a stored message when it is due: a data_sm panics the delivery, a submit_sm does
   exactly when the last TLV of some tag but that of alert_on_message_delivery cannot be read.
   */
  lemma ScheduledPanicsIff(cfg: Config, s: Server, s': Server, a: Answers, b: bytes)
    requires DecodePdu(b).Some? && (CommandOf(b) == SubmitSm || CommandOf(b) == DataSm) && Enumerates(a.order)
    ensures var m := DecodePdu(b).value;
            && Prepared(cfg, s, m).Some?
            && (HandleScheduled(s', a, Prepared(cfg, s, m).value).None?
                <==> (CommandOf(b) == SubmitSm ==> !LastTlvsReadable(b)))
  {
    hide DecodePdu, CommandOf, FromJson, Enumerates, ExtractCommandId, Handing, NoNullTlvs, LastTlvsReadable, Prepared;
    var m := DecodePdu(b).value;
    DecodedCommand(b);
    DecodedIsPreparable(cfg, s, b);
    DecodedHasDestination(cfg, s, b);
    var p, n := Prepared(cfg, s, m).value, NumberOf(s'.numbers);
    PreparedCommand(cfg, s, m);
    if CommandOf(b) == SubmitSm {
      NoNullsIffReadable(b);
      RelabelledEncodesIff(p, n, a.order);
    } else {
      RelabelledNeedsText(p, n, a.order);
    }
  }

  lemma PreparedCommand(cfg: Config, s: Server, m: Message)
    requires Prepared(cfg, s, m).Some?
    ensures ExtractCommandId(Prepared(cfg, s, m).value) == ExtractCommandId(m)
  {
    hide FromStr, FromU32;
  }
}
