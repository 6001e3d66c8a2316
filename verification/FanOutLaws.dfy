/** What a received submit_multi does, destination by destination, and the octets of its answer. */
module FanOutLaws {
  import opened Bytes
  import opened Values
  import opened Codec
  import opened CommandIds
  import opened Tables
  import opened Pdu
  import opened PduLaws
  import opened WireLaws
  import opened SmppMessage
  import opened Forwarding
  import opened Responses
  import opened Storage
  import opened Correlation
  import opened StatusCodes
  import opened Server
  import opened ServerLaws
  import opened MultiLaws
  import opened LayoutLaws
  import opened SubmissionLaws
  import EsmClasses
  import Framing

  // ---- one destination --------------------------------------------------------------------

  /** The fields a projected submit_sm takes over as they are. */
  predicate TakenOver(n: Name)
  {
    n in {SourceAddrTon, SourceAddrNpi, SourceAddr, EsmClass, ProtocolId, PriorityFlag, ScheduleDeliveryTime,
          ValidityPeriod, RegisteredDelivery, ReplaceIfPresentFlag, DataCoding, ShortMessage}
  }

  /** The submit_sm for one destination, under a number of the server's own, field by field. */
  ghost predicate ProjectedAs(cfg: Config, m: Message, dest: Address, number: u32, p: Message)
  {
    forall n :: Get(p, n) == ProjectedValue(cfg, m, dest, number, n)
  }

  function ProjectedValue(cfg: Config, m: Message, dest: Address, number: u32, n: Name): (v: Option<Value>)
  {
    match n
    case CommandIdKey => Some(Number(4))
    case CommandStatus => Some(Number(0))
    case SequenceNumber => Some(Number(number))
    case DestAddrTon => Some(Number(dest.ton))
    case DestAddrNpi => Some(Number(dest.npi))
    case DestinationAddr => Some(String(dest.address))
    case ServiceType =>
      if ServiceType in m && StringOrEmpty(m, ServiceType) == [] && cfg.defaultServiceType != []
      then Some(String(cfg.defaultServiceType)) else Get(m, n)
    case SmDefaultMsgId =>
      if 0 < NumberOr0(m, SmDefaultMsgId) <= |cfg.predefined| then Some(Number(0)) else Get(m, n)
    case _ => if TakenOver(n) then Get(m, n) else None
  }

  /** The times of a received submit_multi, as those of a submit_sm. */
  ghost predicate HasTexts(m: Message)
  {
    && ScheduleDeliveryTime in m && m[ScheduleDeliveryTime].String?
    && ValidityPeriod in m && m[ValidityPeriod].String?
  }

  /**
   What a destination does: a local one goes to the handler; in datagram and transaction mode it is handed
   on; in the other modes it is stored under the id of the whole submit_multi unless something speaks
   against it.
   */
  ghost predicate Dispatches(cfg: Config, s: Server, a: Answers, m: Message, mode: EsmClasses.MessageMode,
                             dest: Address, s': Server)
  {
    exists p, d :: ProjectedAs(cfg, m, dest, NumberOf(s.numbers), p) && HandedOnAs(p, NumberOf(s.numbers + 1), d) &&
      if a.own(dest.address) then s' == Server(s.store, s.numbers + 1, s.log + [HandledLocally(p)])
      else if mode.Datagram? || mode.Transaction? then s' == Server(s.store, s.numbers + 2, s.log + [Forwarded(d)])
      else
        var schedule := a.times.parse(StringOrEmpty(m, ScheduleDeliveryTime));
        var validity := a.times.parse(StringOrEmpty(m, ValidityPeriod));
        if Objection(a.times.now, schedule, validity, dest.address).Some?
        then s' == Server(s.store, s.numbers + 1, s.log + [NotKept(p)])
        else s' == Server(WithEntry(s.store, a.messageId, Entry(dest.address, p, schedule, validity)),
                          s.numbers + 1, s.log + [Kept(p)])
  }

  /** The message as it is prepared before the fan-out. */
  function PreparedMulti(cfg: Config, m: Message): (p: Message)
    requires WithPredefined(cfg, m).Some?
  {
    WithServiceType(cfg, WithPredefined(cfg, m).value)
  }

  lemma PreparedMultiIs(cfg: Config, m: Message, n: Name)
    requires ExtractCommandId(m) == Some(SubmitMulti)
    ensures WithPredefined(cfg, m).Some?
    ensures Get(PreparedMulti(cfg, m), n) ==
            if n == ServiceType && n in m && StringOrEmpty(m, n) == [] && cfg.defaultServiceType != []
            then Some(String(cfg.defaultServiceType))
            else if n == SmDefaultMsgId && 0 < NumberOr0(m, n) <= |cfg.predefined| then Some(Number(0))
            else Get(m, n)
  {
    hide FromStr, FromU32, NumberOr0;
  }

  lemma SharedIs(n: Name)
    ensures IsShared(n) <==> n == ServiceType || n == SmDefaultMsgId || TakenOver(n)
  {}

  lemma ProjectedField(m: Message, dest: Address, number: u32, n: Name)
    ensures Get(ProjectSubmitSm(m, dest)[SequenceNumber := Number(number)], n) ==
      match n
      case CommandIdKey => Some(Number(4))
      case CommandStatus => Some(Number(0))
      case SequenceNumber => Some(Number(number))
      case DestAddrTon => Some(Number(dest.ton))
      case DestAddrNpi => Some(Number(dest.npi))
      case DestinationAddr => Some(String(dest.address))
      case _ => if IsShared(n) then Get(m, n) else None
  {
    hide IsShared, AsU32, DestinationOf, ProjectSubmitSm, Get;
    NotShared();
    if n != SequenceNumber { ProjectionParts(m, dest, n); }
    DestinationGet(dest, n);
    PutGet(ProjectSubmitSm(m, dest), SequenceNumber, Number(number), n);
    assert Get(m, n) == if n in m then Some(m[n]) else None by { GetIs(m, n); }
  }

  lemma PutGet(m: Message, k: Name, v: Value, n: Name)
    ensures Get(m[k := v], n) == if n == k then Some(v) else Get(m, n)
  {}

  lemma GetIs(m: Message, n: Name)
    ensures Get(m, n) == if n in m then Some(m[n]) else None
  {}

  lemma ProjectionParts(m: Message, dest: Address, n: Name)
    requires n != SequenceNumber
    ensures Get(ProjectSubmitSm(m, dest), n)
         == if IsShared(n) && n in m then Some(m[n])
            else if Get(DestinationOf(dest), n).Some? then Get(DestinationOf(dest), n)
            else if n == CommandIdKey then Some(Number(4))
            else if n == CommandStatus then Some(Number(0))
            else None
  {
    hide IsShared, DestinationOf;
  }

  lemma DestinationGet(dest: Address, n: Name)
    ensures Get(DestinationOf(dest), n)
         == match n
            case DestAddrTon => Some(Number(dest.ton))
            case DestAddrNpi => Some(Number(dest.npi))
            case DestinationAddr => Some(String(dest.address))
            case _ => None
  {}

  lemma NotShared()
    ensures !IsShared(CommandIdKey) && !IsShared(CommandStatus) && !IsShared(SequenceNumber)
    ensures !IsShared(DestAddrTon) && !IsShared(DestAddrNpi) && !IsShared(DestinationAddr)
  {}

  lemma ProjectionIs(cfg: Config, m: Message, dest: Address, number: u32)
    requires ExtractCommandId(m) == Some(SubmitMulti)
    ensures WithPredefined(cfg, m).Some?
    ensures ProjectedAs(cfg, m, dest, number,
                        ProjectSubmitSm(PreparedMulti(cfg, m), dest)[SequenceNumber := Number(number)])
  {
    hide ExtractCommandId, IsShared, TakenOver, StringOrEmpty, NumberOr0, WithPredefined, PreparedMulti;
    hide ProjectSubmitSm;
    PreparedMultiIs(cfg, m, ServiceType);
    var p := ProjectSubmitSm(PreparedMulti(cfg, m), dest)[SequenceNumber := Number(number)];
    forall n ensures Get(p, n) == ProjectedValue(cfg, m, dest, number, n) {
      ProjectedField(PreparedMulti(cfg, m), dest, number, n);
      SharedIs(n);
      PreparedMultiIs(cfg, m, n);
      NotTakenOver(n);
    }
  }

  lemma NotTakenOver(n: Name)
    ensures TakenOver(n) ==> !(n in {CommandIdKey, CommandStatus, SequenceNumber, DestAddrTon, DestAddrNpi,
                                     DestinationAddr, ServiceType, SmDefaultMsgId})
  {}

  /** The times of a projected message are those the submit_multi gives. */
  lemma ProjectedTimesAre(cfg: Config, a: Answers, m: Message, dest: Address, number: u32, p: Message)
    requires ProjectedAs(cfg, m, dest, number, p) && HasTexts(m)
    ensures ScheduleTime(p, a.times) == a.times.parse(StringOrEmpty(m, ScheduleDeliveryTime))
    ensures ValidityTime(p, cfg.defaultValidity, a.times) == a.times.parse(StringOrEmpty(m, ValidityPeriod))
    ensures StringOrEmpty(p, DestinationAddr) == dest.address
  {
    hide ProjectedValue;
    ValuesAre(cfg, m, dest, number);
    assert Get(p, ScheduleDeliveryTime) == Get(m, ScheduleDeliveryTime);
    assert Get(p, ValidityPeriod) == Get(m, ValidityPeriod);
    assert Get(p, DestinationAddr) == Some(String(dest.address));
  }

  lemma ValuesAre(cfg: Config, m: Message, dest: Address, number: u32)
    ensures ProjectedValue(cfg, m, dest, number, ScheduleDeliveryTime) == Get(m, ScheduleDeliveryTime)
    ensures ProjectedValue(cfg, m, dest, number, ValidityPeriod) == Get(m, ValidityPeriod)
    ensures ProjectedValue(cfg, m, dest, number, DestinationAddr) == Some(String(dest.address))
  {}

  /** One turn of the fan-out. */
  lemma DispatchIs(cfg: Config, s: Server, a: Answers, sequence: u32, m: Message, mode: EsmClasses.MessageMode,
                   dest: Address)
    requires ExtractCommandId(m) == Some(SubmitMulti) && HasTexts(m) && Enumerates(a.order)
    ensures WithPredefined(cfg, m).Some?
    ensures var v := DispatchOne(cfg, s, a, sequence, PreparedMulti(cfg, m), mode, dest);
            v.Verdict? ==> Dispatches(cfg, s, a, m, mode, dest, v.server)
  {
    hide ExtractCommandId, StringOrEmpty, WithPredefined, PreparedMulti, ProjectSubmitSm, ProjectedAs, HandedOnAs;
    hide Handing, AsDeliverSm, CreateJsonResponse, MessageIdField, FromJson, NumberOf, StoreAndForward, HasTexts;
    hide ScheduleTime, ValidityTime, Objection, WithEntry, Enumerates, Transactions.StatusOf, Reply, Encoded, Ascii;
    ProjectionIs(cfg, m, dest, NumberOf(s.numbers));
    var prepared := PreparedMulti(cfg, m);
    var p := ProjectSubmitSm(prepared, dest)[SequenceNumber := Number(NumberOf(s.numbers))];
    var s1, number := s.(numbers := s.numbers + 1), NumberOf(s.numbers + 1);
    RelabelledIs(p, number);
    ProjectedAddress(prepared, dest, Number(NumberOf(s.numbers)), number);
    ProjectedTimesAre(cfg, a, m, dest, NumberOf(s.numbers), p);
    StoringIs(cfg, s1, a, SubmitSm, sequence, p);
    assert HandedOnAs(p, number, AsDeliverSm(p, number));
  }

  // ---- all destinations -------------------------------------------------------------------

  /** The server from destination to destination. */
  ghost predicate DispatchesAll(cfg: Config, a: Answers, m: Message, mode: EsmClasses.MessageMode,
                                dests: seq<Address>, states: seq<Server>)
  {
    && |states| == |dests| + 1
    && forall k :: 0 <= k < |dests| ==> Dispatches(cfg, states[k], a, m, mode, dests[k], states[k + 1])
  }

  lemma {:induction false} FanOutIs(cfg: Config, s: Server, a: Answers, sequence: u32, m: Message,
                                    mode: EsmClasses.MessageMode, dests: seq<Address>)
    returns (states: seq<Server>)
    requires ExtractCommandId(m) == Some(SubmitMulti) && HasTexts(m) && Enumerates(a.order)
    requires WithPredefined(cfg, m).Some? && FanOut(cfg, s, a, sequence, PreparedMulti(cfg, m), mode, dests).Fanout?
    ensures DispatchesAll(cfg, a, m, mode, dests, states) && states[0] == s
    ensures states[|dests|] == FanOut(cfg, s, a, sequence, PreparedMulti(cfg, m), mode, dests).server
    decreases |dests|
  {
    hide ExtractCommandId, WithPredefined, PreparedMulti, HasTexts, Enumerates, Dispatches, DispatchOne;
    if dests == [] {
      states := [s];
    } else {
      DispatchIs(cfg, s, a, sequence, m, mode, dests[0]);
      var s1 := DispatchOne(cfg, s, a, sequence, PreparedMulti(cfg, m), mode, dests[0]).server;
      var rest := FanOutIs(cfg, s1, a, sequence, m, mode, dests[1..]);
      states := [s] + rest;
    }
  }

  lemma MultiTexts(b: bytes)
    requires DecodePdu(b).Some? && CommandOf(b).SubmitMulti?
    ensures HasTexts(DecodePdu(b).value)
  {
    hide DecodePdu, CommandOf, MembersOf, TlvOf, Decode;
    MultiTimeMembers();
    NoSuchTlv();
    var at := DecodedField(b, SCHEDULE_DELIVERY_TIME);
    DecodedText(SCHEDULE_DELIVERY_TIME, at);
    at := DecodedField(b, VALIDITY_PERIOD);
    DecodedText(VALIDITY_PERIOD, at);
  }

  lemma MultiTimeMembers()
    ensures SCHEDULE_DELIVERY_TIME in MembersOf(SubmitMulti) && VALIDITY_PERIOD in MembersOf(SubmitMulti)
  {
    hide MembersOf;
    FieldIsMember(SubmitMulti, MultiFields(), 8);
    FieldIsMember(SubmitMulti, MultiFields(), 9);
  }

  /**
   Whatever submit_multi was received: its destinations, that is, its addresses and the members of its
   lists, are dispatched one after the other, in order and each by the mode its esm_class asks for.
   */
  lemma MultiDispatched(cfg: Config, s: Server, a: Answers, b: bytes)
    returns (ts: seq<Target>, mode: EsmClasses.MessageMode, states: seq<Server>)
    requires DecodePdu(b).Some? && CommandOf(b).SubmitMulti? && Enumerates(a.order)
    ensures var m, h := DecodePdu(b).value, Handle(cfg, s, a, DecodePdu(b).value);
            && Get(m, DestAddresses).Some? && m[DestAddresses].Array? && Denotes(m[DestAddresses].items, ts)
            && (mode.Datagram? <==> AsksForDatagram(cfg, m))
            && (mode.Transaction? <==> AsksForTransaction(cfg, m))
            && DispatchesAll(cfg, a, m, mode, Expand(ts, cfg.lists), states)
            && h.Sends? && states[0] == s && states[|Expand(ts, cfg.lists)|] == h.server
  {
    hide DecodePdu, CommandOf, Handle, Enumerates, ExtractCommandId, WithPredefined, PreparedMulti, HasTexts;
    hide ModeFor, FanOut, Destinations, AsksForDatagram, AsksForTransaction, Denotes, Expand, DispatchesAll;
    hide MultiFailures, AnswerTo, MultiResponse, SequenceOf;
    var m := DecodePdu(b).value;
    DecodedCommand(b);
    ts := DestinationsOfDecoded(b, cfg.lists);
    mode := ModeFor(cfg, m);
    ModeIs(cfg, m);
    MultiTexts(b);
    MultiAnswer(cfg, s, a, b);
    PreparedMultiKeeps(cfg, m);
    SameAddressesSameDestinations(m, WithServiceType(cfg, WithPredefined(cfg, m).value), cfg.lists);
    PreparedMultiUnfolds(cfg, m);
    states := FanOutIs(cfg, s, a, SequenceOf(m), m, mode, Expand(ts, cfg.lists));
  }

  lemma PreparedMultiUnfolds(cfg: Config, m: Message)
    requires WithPredefined(cfg, m).Some?
    ensures PreparedMulti(cfg, m) == WithServiceType(cfg, WithPredefined(cfg, m).value)
  {}

  // ---- the octets of the answer -----------------------------------------------------------

  /** The entries of a list of failures: type of number, numbering plan, address and the status 0xFF. */
  function FailureOctets(failed: seq<Address>): (b: bytes)
  {
    if failed == [] then []
    else
      [failed[0].ton, failed[0].npi] + Terminated(failed[0].address, 21) + [0, 0, 0, 0xFF] + FailureOctets(failed[1..])
  }

  lemma FailureIs(x: Address)
    ensures Encode(UNSUCCESS_SME, Failure(x)) == Some([x.ton, x.npi] + Terminated(x.address, 21) + [0, 0, 0, 0xFF])
  {
    hide Encode, EncodeMembers, Terminated;
    var ms, m := UNSUCCESS_SME.members, FailureFields(x);
    FailurePieces(x);
    var ps := [[x.ton], [x.npi], Terminated(x.address, 21), [0, 0, 0, 0xFF]];
    MembersJoin(ms, m, ps);
    CompositeEncodes(ms, m);
    JoinFour(ps[0], ps[1], ps[2], ps[3]);
    assert [x.ton] + [x.npi] == [x.ton, x.npi];
  }

  lemma FailurePieces(x: Address)
    ensures var ms, m := UNSUCCESS_SME.members, FailureFields(x);
            var ps := [[x.ton], [x.npi], Terminated(x.address, 21), [0, 0, 0, 0xFF]];
            forall k :: 0 <= k < 4 ==> ms[k].name in m && Encode(ms[k].codec, m[ms[k].name]) == Some(ps[k])
  {
    assert Be32(0xFF) == [0, 0, 0, 0xFF];
  }

  lemma JoinFour(a: bytes, b: bytes, c: bytes, d: bytes)
    ensures Framing.Concat([a, b, c, d]) == a + b + c + d
  {
    JoinTwo(c, d);
    assert [a, b, c, d][1..] == [b, c, d] && [b, c, d][1..] == [c, d];
  }

  lemma JoinTwo(a: bytes, b: bytes)
    ensures Framing.Concat([a, b]) == a + b
  {
    var none: seq<bytes> := [];
    assert [a, b][1..] == [b] && [b][1..] == none && Framing.Concat(none) == [];
  }

  /** The members of a composite, or of a PDU, are written one after the other. */
  lemma {:induction false} MembersJoin(ms: seq<Member>, m: Message, ps: seq<bytes>)
    requires |ms| == |ps|
    requires forall k :: 0 <= k < |ms| ==> ms[k].name in m && Encode(ms[k].codec, m[ms[k].name]) == Some(ps[k])
    ensures EncodeMembers(ms, m) == Some(Framing.Concat(ps))
    decreases |ms|
  {
    hide Encode;
    if ms != [] { MembersJoin(ms[1..], m, ps[1..]); }
  }

  lemma {:induction false} FailuresAre(failed: seq<Address>)
    ensures EncodeItems(UNSUCCESS_SME, Failures(failed)) == Some(FailureOctets(failed))
  {
    hide Encode, Failure, Terminated;
    if failed != [] {
      FailureIs(failed[0]);
      FailuresAre(failed[1..]);
    }
  }

  /**
   The octets of the answer to any submit_multi: its number, status 0 exactly when everything was reached,
   the id, and exactly the destinations not reached; nothing at all for more than 255 of them.
   */
  lemma MultiAnswerOctets(cfg: Config, s: Server, a: Answers, b: bytes)
    requires DecodePdu(b).Some? && CommandOf(b).SubmitMulti? && Enumerates(a.order)
    ensures var m := DecodePdu(b).value;
            var failed, h := MultiFailures(cfg, a, m, s.numbers), Handle(cfg, s, a, m);
            && |b| >= 16 && h.Sends?
            && h.data == if |failed| > 255 then []
                         else Packet(0x8000_0021, if failed == [] then 0 else 0xFF, OfBe32(b[12..16]),
                                     Terminated(a.messageId, 65) + [|failed|] + FailureOctets(failed))
  {
    hide DecodePdu, CommandOf, Handle, Enumerates, MultiFailures, AnswerTo, Packet, Terminated, FailureOctets;
    hide MultiOutcome, Destinations, WithPredefined, Encoded, MultiResponse;
    MultiAnswer(cfg, s, a, b);
    var failed := MultiFailures(cfg, a, DecodePdu(b).value, s.numbers);
    if |failed| <= 255 { MultiResponseOctets(a, OfBe32(b[12..16]), failed); }
  }

  lemma MultiResponseOctets(a: Answers, sequence: u32, failed: seq<Address>)
    requires Enumerates(a.order) && |failed| <= 255
    ensures Encoded(MultiResponse(a, sequence, failed), a.order)
         == Packet(0x8000_0021, if failed == [] then 0 else 0xFF, sequence,
                   Terminated(a.messageId, 65) + [|failed|] + FailureOctets(failed))
  {
    hide Enumerates, FailureOctets, FieldsOf, CreateJsonResponse, EncodePdu, EncodeMandatory, NoHeader, Suffices;
    hide Failures, Be32, Terminated, FromJson, Packet, Chunks, HeaderName, AsU32, ResponseCommand, NumericHeaders;
    var id, f := a.messageId, MultiResponseFields(a.messageId, failed);
    var status := if failed == [] then 0 else 0xFF;
    var m := CreateJsonResponse(SubmitMulti, sequence, status, f);
    MultiResponseCommand();
    MultiResponseSufficesIff(id, failed);
    NoHeaderInMulti(id, failed);
    ResponseFields(SubmitMulti, sequence, status, f);
    ResponseEncodesIff(SubmitMulti, sequence, status, f, a.order);
    Layout(SubmitMultiResp, m, a.order);
    FieldsAreGiven(m, id, failed);
    MultiMandatory(m, id, failed);
    NoChunks(a.order, m);
    var body := Terminated(id, 65) + [|failed|] + FailureOctets(failed);
    assert Flatten([]) == [] && body + [] == body;
    MultiIds();
    PacketOf(FromJson(m, a.order).value, 0x8000_0021, status, sequence, body);
  }

  lemma FieldsAreGiven(m: Message, id: bytes, failed: seq<Address>)
    requires forall n :: !HeaderName(n) ==> Get(m, n) == Get(MultiResponseFields(id, failed), n)
    ensures Get(m, MessageId) == Some(String(id)) && Get(m, UnsuccessSmes) == Some(Array(Failures(failed)))
    ensures forall n <- m :: TlvOf(n).None?
  {
    hide Failures, HeaderName, TlvOf;
    HeaderNames(MessageId);
    HeaderNames(UnsuccessSmes);
    MultiMembers();
    forall n <- m ensures TlvOf(n).None? {
      if TlvOf(n).Some? {
        TlvsAreSound(n);
        assert Get(m, n) == Get(MultiResponseFields(id, failed), n);
      }
    }
  }

  lemma MultiMandatory(m: Message, id: bytes, failed: seq<Address>)
    requires Get(m, MessageId) == Some(String(id)) && Get(m, UnsuccessSmes) == Some(Array(Failures(failed)))
    requires |failed| <= 255
    ensures EncodeMandatory(SubmitMultiResp, m)
         == Some(Terminated(id, 65) + [|failed|] + FailureOctets(failed))
  {
    hide Failures, FailureOctets, Encode, EncodeMembers, WithDefaults, FieldsOf, MembersOf, Terminated;
    hide MESSAGE_ID, UNSUCCESS_SMES;
    ResponsesHaveNoDefaults(SubmitMultiResp, m);
    MultiRespMembers();
    MultiPieces(m, id, failed);
    TwoMembers(MESSAGE_ID, UNSUCCESS_SMES, m, Terminated(id, 65), [|failed|] + FailureOctets(failed));
    Regrouped(Terminated(id, 65), [|failed|], FailureOctets(failed));
  }

  lemma TwoMembers(x: Member, y: Member, m: Message, p: bytes, q: bytes)
    requires x.name in m && Encode(x.codec, m[x.name]) == Some(p)
    requires y.name in m && Encode(y.codec, m[y.name]) == Some(q)
    ensures EncodeMembers([x, y], m) == Some(p + q)
  {
    hide Encode, EncodeMembers;
    MembersJoin([x, y], m, [p, q]);
    JoinTwo(p, q);
  }

  lemma Regrouped(a: bytes, b: bytes, c: bytes)
    ensures a + (b + c) == a + b + c
  {}

  lemma MultiPieces(m: Message, id: bytes, failed: seq<Address>)
    requires Get(m, MessageId) == Some(String(id)) && Get(m, UnsuccessSmes) == Some(Array(Failures(failed)))
    requires |failed| <= 255
    ensures MESSAGE_ID.name == MessageId && UNSUCCESS_SMES.name == UnsuccessSmes
    ensures Encode(MESSAGE_ID.codec, m[MessageId]) == Some(Terminated(id, 65))
    ensures Encode(UNSUCCESS_SMES.codec, m[UnsuccessSmes]) == Some([|failed|] + FailureOctets(failed))
  {
    hide Failures, FailureOctets, EncodeItems;
    FailuresAre(failed);
  }

  lemma MultiRespMembers()
    ensures MembersOf(SubmitMultiResp) == [MESSAGE_ID, UNSUCCESS_SMES]
  {}

  lemma MultiIds()
    ensures AsU32(SubmitMultiResp) == 0x8000_0021
  {}
}
