/**
 What becomes of a received submit_sm or data_sm: the store, what is handed on and the octets of the
 answer, for each mode.
 */
module SubmissionLaws {
  import opened Bytes
  import opened Values
  import opened Codec
  import opened CommandIds
  import opened Tables
  import opened Pdu
  import opened PduLaws
  import opened WireLaws
  import opened SmppMessage
  import opened Forwarding
  import opened Responses
  import opened Storage
  import opened Correlation
  import opened StatusCodes
  import opened Server
  import opened ServerLaws
  import opened MultiLaws
  import opened LayoutLaws
  import EsmClasses

  // ---- the octets of the answer -----------------------------------------------------------

  /** A submit_sm_resp or data_sm_resp with the given optional part. */
  function Reply(c: CommandId, status: u32, sequence: u32, id: bytes, tlvs: bytes): (b: bytes)
  {
    Packet(if c.SubmitSm? then 0x8000_0004 else 0x8000_0103, status, sequence, Terminated(id, 65) + tlvs)
  }

  predicate IsSubmission(c: CommandId)
  {
    c.SubmitSm? || c.DataSm?
  }

  lemma SubmissionResponse(c: CommandId)
    requires IsSubmission(c)
    ensures ResponseId(AsU32(c)) == if c.SubmitSm? then 0x8000_0004 else 0x8000_0103
    ensures ResponseCommand(c).Some? && AllFit(FieldsOf(ResponseCommand(c).value), [Text(MessageId, 65)])
    ensures FieldsOf(ResponseCommand(c).value) == [Required(MESSAGE_ID)]
  {
    hide FromU32;
    NumbersAreUnique(SubmitSmResp, 0x8000_0004);
    NumbersAreUnique(DataSmResp, 0x8000_0103);
  }

  lemma ReplyIs(c: CommandId, sequence: u32, status: u32, id: bytes, more: Message, order: seq<Name>)
    requires IsSubmission(c) && Enumerates(order) && forall n <- more :: TlvOf(n).Some? && EncodableTlv(more, n)
    ensures Chunks(order, more).Some?
    ensures Encoded(CreateJsonResponse(c, sequence, status, MessageIdField(id) + more), order)
         == Reply(c, status, sequence, id, Flatten(Chunks(order, more).value))
  {
    hide CreateJsonResponse, Enumerates, FieldsOf, ResponseCommand, Encoded, TlvOf, AsU32, ResponseId, HeaderName;
    var fields := MessageIdField(id) + more;
    SubmissionResponse(c);
    MessageIdIsNoTlv();
    HeaderNames(MessageId);
    forall n <- more ensures !HeaderName(n) && n != MessageId { TlvCodecKinds(n); }
    OneMember(ResponseCommand(c).value, MESSAGE_ID, fields);
    AnswerOctets(c, sequence, status, fields, order, [Text(MessageId, 65)]);
    SameOptional(order, fields, more);
    OnePlace(fields, id);
  }

  lemma MessageIdIsNoTlv()
    ensures TlvOf(MessageId).None?
  {}

  lemma OnePlace(m: Message, id: bytes)
    requires Get(m, MessageId) == Some(String(id))
    ensures Octets(m, [Text(MessageId, 65)]) == Terminated(id, 65)
  {
    var none: seq<Place> := [];
    assert [Text(MessageId, 65)][1..] == none && Octets(m, none) == [];
  }

  lemma PlainReplyIs(c: CommandId, sequence: u32, status: u32, id: bytes, order: seq<Name>)
    requires IsSubmission(c) && Enumerates(order)
    ensures Encoded(CreateJsonResponse(c, sequence, status, MessageIdField(id)), order)
         == Reply(c, status, sequence, id, [])
  {
    hide CreateJsonResponse, Enumerates, Encoded, TlvOf;
    ReplyIs(c, sequence, status, id, map[], order);
    NoChunks(order, map[]);
    assert MessageIdField(id) + map[] == MessageIdField(id);
  }

  // ---- the message that is handled --------------------------------------------------------

  /**
   The received message with a number of the server's own and, when it gives none, the default service
   type; a predefined text it names is struck out.
   */
  ghost predicate HandledAs(cfg: Config, m: Message, number: u32, p: Message)
  {
    forall n :: Get(p, n) ==
      if n == SequenceNumber then Some(Number(number))
      else if n == ServiceType && StringOrEmpty(m, ServiceType) == [] && cfg.defaultServiceType != []
      then Some(String(cfg.defaultServiceType))
      else if n == SmDefaultMsgId && 0 < NumberOr0(m, SmDefaultMsgId) <= |cfg.predefined| then Some(Number(0))
      else Get(m, n)
  }

  lemma SubmissionMembers(c: CommandId)
    requires IsSubmission(c)
    ensures SERVICE_TYPE in MembersOf(c) && ESM_CLASS in MembersOf(c) && DESTINATION_ADDR in MembersOf(c)
    ensures c.SubmitSm? ==> SCHEDULE_DELIVERY_TIME in MembersOf(c) && VALIDITY_PERIOD in MembersOf(c)
    ensures c.SubmitSm? ==> SHORT_MESSAGE in MembersOf(c)
  {
    hide MembersOf;
    if c.SubmitSm? {
      FieldIsMember(c, SmFields(), 0);
      FieldIsMember(c, SmFields(), 6);
      FieldIsMember(c, SmFields(), 7);
      FieldIsMember(c, SmFields(), 10);
      FieldIsMember(c, SmFields(), 11);
      FieldIsMember(c, SmFields(), 16);
    } else {
      FieldIsMember(c, DataFields(), 0);
      FieldIsMember(c, DataFields(), 6);
      FieldIsMember(c, DataFields(), 7);
    }
  }

  lemma NoSuchTlv()
    ensures TlvOf(ServiceType).None? && TlvOf(DestinationAddr).None? && TlvOf(ScheduleDeliveryTime).None?
    ensures TlvOf(ValidityPeriod).None? && TlvOf(ShortMessage).None? && TlvOf(EsmClass).None?
  {}

  /** Which fields a received submission certainly has. */
  lemma SubmissionFields(b: bytes)
    requires DecodePdu(b).Some? && IsSubmission(CommandOf(b))
    ensures var m := DecodePdu(b).value;
            && ServiceType in m && m[ServiceType].String? && DestinationAddr in m && m[DestinationAddr].String?
            && (CommandOf(b).SubmitSm? ==>
                  && ScheduleDeliveryTime in m && m[ScheduleDeliveryTime].String?
                  && ValidityPeriod in m && m[ValidityPeriod].String?
                  && StringOrEmpty(m, ShortMessage) != [])
  {
    hide DecodePdu, CommandOf, MembersOf, TlvOf, Decode;
    var c := CommandOf(b);
    SubmissionMembers(c);
    NoSuchTlv();
    var at := DecodedField(b, SERVICE_TYPE);
    DecodedText(SERVICE_TYPE, at);
    at := DecodedField(b, DESTINATION_ADDR);
    DecodedText(DESTINATION_ADDR, at);
    if c.SubmitSm? {
      at := DecodedField(b, SCHEDULE_DELIVERY_TIME);
      DecodedText(SCHEDULE_DELIVERY_TIME, at);
      at := DecodedField(b, VALIDITY_PERIOD);
      DecodedText(VALIDITY_PERIOD, at);
      at := DecodedField(b, SHORT_MESSAGE);
      DecodedTextIsNotEmpty(at);
    }
  }

  lemma DecodedText(x: Member, at: bytes)
    requires x.codec.COctetStr? && Decode(x.codec, at).Got?
    ensures Decode(x.codec, at).v.String?
  {}

  /** Any submission is handled as `HandledAs` says. */
  lemma PreparedIs(cfg: Config, s: Server, b: bytes)
    requires DecodePdu(b).Some? && IsSubmission(CommandOf(b))
    ensures Prepared(cfg, s, DecodePdu(b).value).Some?
    ensures HandledAs(cfg, DecodePdu(b).value, NumberOf(s.numbers), Prepared(cfg, s, DecodePdu(b).value).value)
  {
    hide DecodePdu, CommandOf, NumberOf, WithPredefined, WithServiceType, StringOrEmpty, NumberOr0, HandledAs;
    var m := DecodePdu(b).value;
    DecodedIsPreparable(cfg, s, b);
    SubmissionFields(b);
    if CommandOf(b).DataSm? { DecodedDataHasNoText(b); }
    var q := WithPredefined(cfg, m).value;
    var p := Prepared(cfg, s, m).value;
    forall n { TextStays(cfg, m, n); }
    assert Get(q, ServiceType) == Get(m, ServiceType);
    forall n { ServiceTypeIs(cfg, q, n); }
    TextOf(m, q, ServiceType);
    PreparedFields(cfg, m, q, p, NumberOf(s.numbers));
  }

  lemma PreparedFields(cfg: Config, m: Message, q: Message, p: Message, number: u32)
    requires p == WithServiceType(cfg, q)[SequenceNumber := Number(number)]
    requires StringOrEmpty(q, ServiceType) == StringOrEmpty(m, ServiceType)
    requires forall n :: Get(q, n) ==
               if n == SmDefaultMsgId && 0 < NumberOr0(m, n) <= |cfg.predefined| then Some(Number(0)) else Get(m, n)
    requires forall n :: Get(WithServiceType(cfg, q), n) ==
               if n == ServiceType && StringOrEmpty(q, n) == [] && cfg.defaultServiceType != []
               then Some(String(cfg.defaultServiceType)) else Get(q, n)
    ensures HandledAs(cfg, m, number, p)
  {
    hide WithServiceType, StringOrEmpty, NumberOr0;
  }

  lemma TextStays(cfg: Config, m: Message, n: Name)
    requires WithPredefined(cfg, m).Some?
    requires StringOrEmpty(m, ShortMessage) != [] || SmDefaultMsgId !in m
    ensures Get(WithPredefined(cfg, m).value, n)
         == if n == SmDefaultMsgId && 0 < NumberOr0(m, n) <= |cfg.predefined| then Some(Number(0)) else Get(m, n)
  {
    hide ExtractCommandId;
  }

  lemma ServiceTypeIs(cfg: Config, m: Message, n: Name)
    requires ServiceType in m
    ensures Get(WithServiceType(cfg, m), n)
         == if n == ServiceType && StringOrEmpty(m, n) == [] && cfg.defaultServiceType != []
            then Some(String(cfg.defaultServiceType)) else Get(m, n)
  {}

  // ---- modes ------------------------------------------------------------------------------

  /** The two lowest bits of esm_class. */
  function ModeBits(m: Message): (n: nat)
  {
    NumberOr0(m, EsmClass) % 4
  }

  predicate AsksForDatagram(cfg: Config, m: Message)
  {
    ModeBits(m) == 1 || (ModeBits(m) == 0 && cfg.defaultMode.Datagram?)
  }

  predicate AsksForTransaction(cfg: Config, m: Message)
  {
    ModeBits(m) == 2 || (ModeBits(m) == 0 && cfg.defaultMode.Transaction?)
  }

  predicate AsksForStorage(cfg: Config, m: Message)
  {
    ModeBits(m) == 3 || (ModeBits(m) == 0 && cfg.defaultMode.StoreAndForward?)
  }

  predicate AsksForNothing(cfg: Config, m: Message)
  {
    ModeBits(m) == 0 && cfg.defaultMode.DefaultMode?
  }

  lemma ModeIs(cfg: Config, m: Message)
    ensures ModeFor(cfg, m).Datagram? <==> AsksForDatagram(cfg, m)
    ensures ModeFor(cfg, m).Transaction? <==> AsksForTransaction(cfg, m)
    ensures ModeFor(cfg, m).StoreAndForward? <==> AsksForStorage(cfg, m)
    ensures ModeFor(cfg, m).DefaultMode? <==> AsksForNothing(cfg, m)
  {
    hide NumberOr0;
  }

  /** Handling a submission that is not local, up to the choice of mode. */
  lemma ByItsMode(cfg: Config, s: Server, a: Answers, b: bytes) returns (p: Message)
    requires DecodePdu(b).Some? && IsSubmission(CommandOf(b))
    requires !a.own(StringOrEmpty(DecodePdu(b).value, DestinationAddr))
    ensures HandledAs(cfg, DecodePdu(b).value, NumberOf(s.numbers), p) && |b| >= 16
    ensures var c, m, sequence := CommandOf(b), DecodePdu(b).value, OfBe32(b[12..16]);
            var v := ByMode(cfg, s.(numbers := s.numbers + 1), a, c, sequence, a.messageId, p, ModeFor(cfg, m));
            Handle(cfg, s, a, m) == if v.Panic? then Dies else Sends(Encoded(v.response, a.order), v.server, EndsBatch)
  {
    hide DecodePdu, CommandOf, ByMode, ModeFor, Encoded, WithServiceType, WithPredefined, HandledAs, SequenceOf;
    hide ExtractCommandId, NumberOf;
    var m := DecodePdu(b).value;
    DecodedCommand(b);
    PreparedIs(cfg, s, b);
    PreparedSame(cfg, s, m);
    p := Prepared(cfg, s, m).value;
    assert Handle(cfg, s, a, m) == HandleDataSubmit(cfg, s, a, CommandOf(b), m);
  }

  // ---- store and forward ------------------------------------------------------------------

  /** What speaks against storing a message: the status and the text in place of its id. */
  function Objection(now: Time, schedule: Option<Time>, validity: Option<Time>, dest: bytes): (r: Option<(u32, string)>)
  {
    if schedule.Some? && schedule.value < now then Some((0x61, "invalid-schedule-delivery-time"))
    else if validity.Some? && validity.value < now then Some((0x62, "invalid-validity-period"))
    else if schedule.Some? && validity.Some? && validity.value < schedule.value
    then Some((0x61, "schedule-delivery-time-after-validity-period"))
    else if dest == [] || (schedule.None? && validity.None?) then Some((0xFF, "fail-to-store"))
    else None
  }

  /** When a received submission is to be sent: a submit_sm says, a data_sm cannot. */
  function AskedSchedule(a: Answers, c: CommandId, m: Message): (r: Option<Time>)
  {
    if c.SubmitSm? then a.times.parse(StringOrEmpty(m, ScheduleDeliveryTime)) else None
  }

  /** When it expires: a submit_sm says, a data_sm gets the default from now on. */
  function AskedValidity(cfg: Config, a: Answers, c: CommandId, m: Message): (r: Option<Time>)
  {
    if c.SubmitSm? then a.times.parse(StringOrEmpty(m, ValidityPeriod)) else Some(a.times.now + cfg.defaultValidity)
  }

  /** The store with one more entry, at the end of the list of its id and with its id listed for its user. */
  function WithEntry(s: Store, i: Id, e: Entry): (r: Store)
  {
    Store(s.messages[i := (if i in s.messages then s.messages[i] else []) + [e]],
          s.users[e.user := (if e.user in s.users then s.users[e.user] else []) + [i]])
  }

  lemma AskedTimes(cfg: Config, a: Answers, b: bytes, number: u32, p: Message)
    requires DecodePdu(b).Some? && IsSubmission(CommandOf(b)) && HandledAs(cfg, DecodePdu(b).value, number, p)
    ensures var c, m := CommandOf(b), DecodePdu(b).value;
            && ScheduleTime(p, a.times) == AskedSchedule(a, c, m)
            && ValidityTime(p, cfg.defaultValidity, a.times) == AskedValidity(cfg, a, c, m)
            && StringOrEmpty(p, DestinationAddr) == StringOrEmpty(m, DestinationAddr)
  {
    hide DecodePdu, CommandOf, StringOrEmpty, NumberOr0;
    var m := DecodePdu(b).value;
    assert Get(p, ScheduleDeliveryTime) == Get(m, ScheduleDeliveryTime);
    assert Get(p, ValidityPeriod) == Get(m, ValidityPeriod);
    assert Get(p, QosTimeToLive) == Get(m, QosTimeToLive);
    assert Get(p, DestinationAddr) == Get(m, DestinationAddr);
    TextsAsGiven(b);
    TextOf(m, p, DestinationAddr);
  }

  lemma TextOf(m: Message, p: Message, n: Name)
    requires Get(m, n) == Get(p, n)
    ensures StringOrEmpty(m, n) == StringOrEmpty(p, n)
  {}

  lemma TextsAsGiven(b: bytes)
    requires DecodePdu(b).Some? && IsSubmission(CommandOf(b))
    ensures var m := DecodePdu(b).value;
            if CommandOf(b).SubmitSm?
            then && Get(m, ScheduleDeliveryTime) == Some(String(StringOrEmpty(m, ScheduleDeliveryTime)))
                 && Get(m, ValidityPeriod) == Some(String(StringOrEmpty(m, ValidityPeriod)))
            else && Get(m, ScheduleDeliveryTime).None? && Get(m, ValidityPeriod).None?
                 && (QosTimeToLive in m ==> !m[QosTimeToLive].String?)
  {
    hide DecodePdu, CommandOf;
    SubmissionFields(b);
    if CommandOf(b).DataSm? {
      DataHasNoTimes(b);
      TimeToLiveIsNumber(b);
    }
  }

  lemma DataHasNoTimes(b: bytes)
    requires DecodePdu(b).Some? && CommandOf(b).DataSm?
    ensures ScheduleDeliveryTime !in DecodePdu(b).value && ValidityPeriod !in DecodePdu(b).value
  {
    hide DecodePdu, CommandOf, MembersOf, TlvOf, HeaderName, NullOrEncodable;
    DecodedMembersSound(b);
    NoSuchTlv();
    HeaderNames(ScheduleDeliveryTime);
    HeaderNames(ValidityPeriod);
    DataMembers();
  }

  lemma DataMembers()
    ensures forall x <- MembersOf(DataSm) :: x.name != ScheduleDeliveryTime && x.name != ValidityPeriod
  {
    forall x <- MembersOf(DataSm) ensures x.name != ScheduleDeliveryTime && x.name != ValidityPeriod {
      var i :| 0 <= i < |DataFields()| && DataFields()[i].member == x;
    }
  }

  lemma TimeToLiveIsNumber(b: bytes)
    requires DecodePdu(b).Some?
    ensures QosTimeToLive in DecodePdu(b).value ==> !DecodePdu(b).value[QosTimeToLive].String?
  {
    hide DecodePdu, CommandOf, MembersOf, HeaderName;
    DecodedMembersSound(b);
    TimeToLiveCodec();
  }

  lemma TimeToLiveCodec()
    ensures TlvOf(QosTimeToLive) == Some(Tlv(0x0017, U32))
  {}

  /** The outcome of storing, once the times are known. */
  lemma StoringIs(cfg: Config, s: Server, a: Answers, c: CommandId, sequence: u32, p: Message)
    requires IsSubmission(c) && Enumerates(a.order)
    ensures var schedule, validity := ScheduleTime(p, a.times), ValidityTime(p, cfg.defaultValidity, a.times);
            var dest := StringOrEmpty(p, DestinationAddr);
            var v := StoreAndForward(cfg, s, a, c, sequence, a.messageId, p);
            v.Verdict? &&
            match Objection(a.times.now, schedule, validity, dest)
            case Some((status, text)) =>
              && v.server == s.(log := s.log + [NotKept(p)])
              && Encoded(v.response, a.order) == Reply(c, status, sequence, Ascii(text), [])
            case None =>
              && v.server == s.(store := WithEntry(s.store, a.messageId, Entry(dest, p, schedule, validity)),
                                log := s.log + [Kept(p)])
              && Encoded(v.response, a.order) == Reply(c, 0, sequence, a.messageId, [])
  {
    hide ScheduleTime, ValidityTime, CreateJsonResponse, Encoded, MessageIdField, Enumerates, Reply, StringOrEmpty;
    hide Ascii;
    var r := Objection(a.times.now, ScheduleTime(p, a.times), ValidityTime(p, cfg.defaultValidity, a.times),
                       StringOrEmpty(p, DestinationAddr));
    PlainReplyIs(c, sequence, 0, a.messageId, a.order);
    if r.Some? { PlainReplyIs(c, sequence, r.value.0, Ascii(r.value.1), a.order); }
  }

  /**
   A submission that asks to be stored: exactly when nothing speaks against it, its entry is the one more
   in the store and the answer is its id with status 0. Otherwise the store stays as it is, and the answer
   says what speaks against it. Nothing is forwarded.
   */
  lemma StoredSubmission(cfg: Config, s: Server, a: Answers, b: bytes) returns (p: Message)
    requires DecodePdu(b).Some? && IsSubmission(CommandOf(b)) && Enumerates(a.order)
    requires AsksForStorage(cfg, DecodePdu(b).value) && !a.own(StringOrEmpty(DecodePdu(b).value, DestinationAddr))
    ensures HandledAs(cfg, DecodePdu(b).value, NumberOf(s.numbers), p) && |b| >= 16
    ensures var c, m, sequence := CommandOf(b), DecodePdu(b).value, OfBe32(b[12..16]);
            var dest, schedule, validity :=
              StringOrEmpty(m, DestinationAddr), AskedSchedule(a, c, m), AskedValidity(cfg, a, c, m);
            Handle(cfg, s, a, m) ==
            match Objection(a.times.now, schedule, validity, dest)
            case Some((status, text)) =>
              Sends(Reply(c, status, sequence, Ascii(text), []),
                    s.(numbers := s.numbers + 1, log := s.log + [NotKept(p)]), EndsBatch)
            case None =>
              Sends(Reply(c, 0, sequence, a.messageId, []),
                    Server(WithEntry(s.store, a.messageId, Entry(dest, p, schedule, validity)),
                           s.numbers + 1, s.log + [Kept(p)]), EndsBatch)
  {
    hide DecodePdu, CommandOf, Handle, ModeFor, Encoded, HandledAs, NumberOf, AskedSchedule, AskedValidity, Objection;
    hide StoreAndForward, Reply, WithEntry, ScheduleTime, ValidityTime, Enumerates, AsksForStorage, Ascii;
    p := ByItsMode(cfg, s, a, b);
    var c, m, sequence := CommandOf(b), DecodePdu(b).value, OfBe32(b[12..16]);
    ModeIs(cfg, m);
    AskedTimes(cfg, a, b, NumberOf(s.numbers), p);
    StoringIs(cfg, s.(numbers := s.numbers + 1), a, c, sequence, p);
  }

  // ---- forwarding -------------------------------------------------------------------------

  /** A message as it is handed on: as deliver_sm, under a number of its own, and otherwise the same. */
  ghost predicate HandedOnAs(p: Message, number: u32, d: Message)
  {
    forall n :: Get(d, n) ==
      if n == CommandIdKey then Some(Number(5)) else if n == SequenceNumber then Some(Number(number)) else Get(p, n)
  }

  lemma RelabelledIs(p: Message, number: u32)
    ensures HandedOnAs(p, number, AsDeliverSm(p, number))
  {}

  lemma HandsOn(cfg: Config, m: Message, number: u32, p: Message, n: u32)
    requires HandledAs(cfg, m, number, p) && Get(m, DestinationAddr).Some? && m[DestinationAddr].String?
    ensures Handing(AsDeliverSm(p, n)) == [Forwarded(AsDeliverSm(p, n))]
  {
    assert Get(p, DestinationAddr) == Get(m, DestinationAddr);
  }

  /** In datagram mode it is handed on once and accepted at once; nothing is stored. */
  lemma DatagramSubmission(cfg: Config, s: Server, a: Answers, b: bytes) returns (p: Message, d: Message)
    requires DecodePdu(b).Some? && IsSubmission(CommandOf(b)) && Enumerates(a.order)
    requires AsksForDatagram(cfg, DecodePdu(b).value) && !a.own(StringOrEmpty(DecodePdu(b).value, DestinationAddr))
    ensures HandledAs(cfg, DecodePdu(b).value, NumberOf(s.numbers), p) && |b| >= 16
    ensures HandedOnAs(p, NumberOf(s.numbers + 1), d)
    ensures Handle(cfg, s, a, DecodePdu(b).value)
         == Sends(Reply(CommandOf(b), 0, OfBe32(b[12..16]), a.messageId, []),
                  Server(s.store, s.numbers + 2, s.log + [Forwarded(d)]), EndsBatch)
  {
    hide DecodePdu, CommandOf, Handle, ModeFor, Encoded, HandledAs, HandedOnAs, NumberOf, Reply, Enumerates, Handing;
    hide AsksForDatagram, AsDeliverSm, CreateJsonResponse, MessageIdField;
    p := ByItsMode(cfg, s, a, b);
    var m := DecodePdu(b).value;
    ModeIs(cfg, m);
    SubmissionFields(b);
    d := AsDeliverSm(p, NumberOf(s.numbers + 1));
    RelabelledIs(p, NumberOf(s.numbers + 1));
    HandsOn(cfg, m, NumberOf(s.numbers), p, NumberOf(s.numbers + 1));
    PlainReplyIs(CommandOf(b), OfBe32(b[12..16]), 0, a.messageId, a.order);
  }

  /**
   The status reported in transaction mode: that of the acknowledgement, 0xFF when it has none, and 0x45
   when none came.
   */
  function ReportedStatus(answer: Option<Response>): (status: u32)
  {
    match answer
    case None => 0x45
    case Some(r) => if NumericHeader(r.message, CommandStatus) && CommandStatus in r.message
                    then NumberOr0(r.message, CommandStatus) % U32_LIMIT else 0xFF
  }

  /** In transaction mode it is handed on once, unless that panics, and the client's answer is reported. */
  lemma TransactionSubmission(cfg: Config, s: Server, a: Answers, b: bytes) returns (p: Message, d: Message)
    requires DecodePdu(b).Some? && IsSubmission(CommandOf(b)) && Enumerates(a.order)
    requires AsksForTransaction(cfg, DecodePdu(b).value)
    requires !a.own(StringOrEmpty(DecodePdu(b).value, DestinationAddr))
    ensures HandledAs(cfg, DecodePdu(b).value, NumberOf(s.numbers), p) && |b| >= 16
    ensures HandedOnAs(p, NumberOf(s.numbers + 1), d)
    ensures Handle(cfg, s, a, DecodePdu(b).value)
         == if CommandOf(b).DataSm? || !LastTlvsReadable(b) then Dies
            else Sends(Reply(CommandOf(b), ReportedStatus(a.acknowledged(s.numbers + 1)), OfBe32(b[12..16]),
                             a.messageId, []),
                       Server(s.store, s.numbers + 2, s.log + [Forwarded(d)]), EndsBatch)
  {
    hide DecodePdu, CommandOf, Handle, Encoded, HandledAs, HandedOnAs, NumberOf, Reply, Enumerates, Handing, FromJson;
    hide AsksForTransaction, AsDeliverSm, CreateJsonResponse, MessageIdField, LastTlvsReadable, ModeFor;
    p := ByItsMode(cfg, s, a, b);
    var m := DecodePdu(b).value;
    ModeIs(cfg, m);
    DiesIffKills(cfg, s, a, b);
    SubmissionFields(b);
    d := AsDeliverSm(p, NumberOf(s.numbers + 1));
    RelabelledIs(p, NumberOf(s.numbers + 1));
    HandsOn(cfg, m, NumberOf(s.numbers), p, NumberOf(s.numbers + 1));
    var status := ReportedStatus(a.acknowledged(s.numbers + 1));
    PlainReplyIs(CommandOf(b), OfBe32(b[12..16]), status, a.messageId, a.order);
  }

  /** Without any mode it is accepted and dropped. */
  lemma DroppedSubmission(cfg: Config, s: Server, a: Answers, b: bytes)
    requires DecodePdu(b).Some? && IsSubmission(CommandOf(b)) && Enumerates(a.order)
    requires AsksForNothing(cfg, DecodePdu(b).value) && !a.own(StringOrEmpty(DecodePdu(b).value, DestinationAddr))
    ensures |b| >= 16
    ensures Handle(cfg, s, a, DecodePdu(b).value)
         == Sends(Reply(CommandOf(b), 0, OfBe32(b[12..16]), a.messageId, []), s.(numbers := s.numbers + 1), EndsBatch)
  {
    hide DecodePdu, CommandOf, Handle, Encoded, HandledAs, NumberOf, Reply, Enumerates, CreateJsonResponse;
    hide MessageIdField, AsksForNothing, ModeFor;
    var p := ByItsMode(cfg, s, a, b);
    ModeIs(cfg, DecodePdu(b).value);
    PlainReplyIs(CommandOf(b), OfBe32(b[12..16]), 0, a.messageId, a.order);
  }

  // ---- local handling ---------------------------------------------------------------------

  /** The optional fields of a handler's answer can all be written. */
  predicate OptionalFieldsWritable(answer: Message)
  {
    forall n <- answer | TlvOf(n).Some? :: EncodableTlv(answer, n)
  }

  /**
   A submission for an address of the message handler goes to it alone. Its answer is passed on with its
   id and its optional fields; without one, or when those cannot be written, the answer is an error.
   */
  lemma LocalSubmission(cfg: Config, s: Server, a: Answers, b: bytes) returns (p: Message)
    requires DecodePdu(b).Some? && IsSubmission(CommandOf(b)) && Enumerates(a.order)
    requires a.own(StringOrEmpty(DecodePdu(b).value, DestinationAddr))
    ensures HandledAs(cfg, DecodePdu(b).value, NumberOf(s.numbers), p) && |b| >= 16
    ensures var c, h, sequence := CommandOf(b), Handle(cfg, s, a, DecodePdu(b).value), OfBe32(b[12..16]);
            && h.Sends? && h.onFailure.EndsBatch?
            && h.server == Server(s.store, s.numbers + 1, s.log + [HandledLocally(p)])
            && match a.local(p)
               case Some(answer) =>
                 if OptionalFieldsWritable(answer)
                 then && Chunks(a.order, answer).Some?
                      && h.data == Reply(c, 0, sequence, StringOrEmpty(answer, MessageId),
                                         Flatten(Chunks(a.order, answer).value))
                 else h.data == Reply(c, 0xFF, sequence, a.errorId, [])
               case None => h.data == Reply(c, 0xFF, sequence, a.errorId, [])
  {
    hide DecodePdu, CommandOf, Encoded, HandledAs, NumberOf, Reply, Enumerates, LocalReply, OptionalFieldsWritable;
    hide WithServiceType, WithPredefined, ExtractCommandId, SequenceOf, Chunks;
    var m := DecodePdu(b).value;
    DecodedCommand(b);
    PreparedIs(cfg, s, b);
    PreparedSame(cfg, s, m);
    p := Prepared(cfg, s, m).value;
    assert Handle(cfg, s, a, m) == HandleDataSubmit(cfg, s, a, CommandOf(b), m);
    LocalReplyIs(a, CommandOf(b), OfBe32(b[12..16]), p);
  }

  lemma LocalReplyIs(a: Answers, c: CommandId, sequence: u32, p: Message)
    requires IsSubmission(c) && Enumerates(a.order)
    ensures match a.local(p)
            case Some(answer) =>
              if OptionalFieldsWritable(answer)
              then && Chunks(a.order, answer).Some?
                   && LocalReply(a, c, sequence, p)
                      == Reply(c, 0, sequence, StringOrEmpty(answer, MessageId), Flatten(Chunks(a.order, answer).value))
              else LocalReply(a, c, sequence, p) == Reply(c, 0xFF, sequence, a.errorId, [])
            case None => LocalReply(a, c, sequence, p) == Reply(c, 0xFF, sequence, a.errorId, [])
  {
    hide CreateJsonResponse, MessageIdField, Enumerates, Reply, FromJson, TlvOf, StringOrEmpty, Suffices, Chunks;
    hide NoHeader, ResponseCommand;
    PlainReplyIs(c, sequence, 0xFF, a.errorId, a.order);
    if a.local(p).Some? {
      var answer := a.local(p).value;
      var id, more := StringOrEmpty(answer, MessageId), TlvFields(answer);
      NoHeaderInLocal(id, answer);
      ResponseEncodesIff(c, sequence, 0, MessageIdField(id) + more, a.order);
      LocalSufficesIff(c, id, answer);
      if OptionalFieldsWritable(answer) {
        ReplyIs(c, sequence, 0, id, more, a.order);
        SameOptional(a.order, more, answer);
      }
    }
  }

  lemma LocalSufficesIff(c: CommandId, id: bytes, answer: Message)
    requires IsSubmission(c)
    ensures ResponseCommand(c).Some?
    ensures Suffices(ResponseCommand(c).value, MessageIdField(id) + TlvFields(answer))
       <==> OptionalFieldsWritable(answer)
  {
    hide TlvOf, FieldsOf, ResponseCommand, ResponseId, AsU32;
    SubmissionResponse(c);
    MessageIdIsNoTlv();
    var fields := MessageIdField(id) + TlvFields(answer);
    forall n | TlvOf(n).Some? ensures Get(fields, n) == Get(answer, n) { assert n != MessageId; }
    if OptionalFieldsWritable(answer) {
      OneMember(ResponseCommand(c).value, MESSAGE_ID, fields);
    } else {
      var n :| n in answer && TlvOf(n).Some? && !EncodableTlv(answer, n);
      assert n in fields && fields[n] == answer[n];
    }
  }

  // ---- scheduled delivery -----------------------------------------------------------------

  /**
   A stored submission that is due: handed on once, under a number of the server's and otherwise as it was
   stored, unless that panics.
   */
  lemma ScheduledDelivery(cfg: Config, s: Server, s': Server, a: Answers, b: bytes, p: Message) returns (d: Message)
    requires DecodePdu(b).Some? && IsSubmission(CommandOf(b)) && Enumerates(a.order)
    requires HandledAs(cfg, DecodePdu(b).value, NumberOf(s.numbers), p)
    ensures HandedOnAs(p, NumberOf(s'.numbers), d)
    ensures HandleScheduled(s', a, p)
         == if CommandOf(b).DataSm? || !LastTlvsReadable(b) then None
            else Some(Server(s'.store, s'.numbers + 1, s'.log + [Forwarded(d)]))
  {
    hide DecodePdu, CommandOf, HandedOnAs, NumberOf, Enumerates, FromJson, Handing, AsDeliverSm, LastTlvsReadable;
    hide ExtractCommandId, HandledAs, Prepared;
    var m := DecodePdu(b).value;
    PreparedIs(cfg, s, b);
    SameHandled(cfg, m, NumberOf(s.numbers), p, Prepared(cfg, s, m).value);
    ScheduledPanicsIff(cfg, s, s', a, b);
    PreparedCommand(cfg, s, m);
    DecodedCommand(b);
    SubmissionFields(b);
    d := AsDeliverSm(p, NumberOf(s'.numbers));
    RelabelledIs(p, NumberOf(s'.numbers));
    HandsOn(cfg, m, NumberOf(s.numbers), p, NumberOf(s'.numbers));
  }

  lemma SameHandled(cfg: Config, m: Message, number: u32, p: Message, q: Message)
    requires HandledAs(cfg, m, number, p) && HandledAs(cfg, m, number, q)
    ensures p == q
  {
    hide NumberOr0, StringOrEmpty;
    forall n ensures Get(p, n) == Get(q, n) {}
    SameMessage(p, q);
  }
}
