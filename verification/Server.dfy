/**
 The server's side of one connection, as values: what each decoded request does to the server and what
 is written back. The connection that works in place is in `ServerConnection`.
 */
module Server {
  import opened Bytes
  import opened Values
  import opened Codec
  import opened CommandIds
  import opened Tables
  import opened Pdu
  import opened WireLaws
  import opened Forwarding
  import opened Responses
  import opened Storage
  import opened Correlation
  import opened StatusCodes
  import Transactions
  import EsmClasses

  // ---- configuration and environment ------------------------------------------------------

  datatype Config = Config(
    defaultMode: EsmClasses.MessageMode,
    defaultServiceType: bytes,
    predefined: seq<bytes>,
    interfaceVersion: byte,
    defaultValidity: nat,
    lists: map<bytes, seq<Address>>)

  /** What the surroundings answer while one message is handled. */
  datatype Answers = Answers(
    authenticated: bool,
    messageId: bytes,
    errorId: bytes,
    own: bytes -> bool,                       // addresses the message handler is responsible for
    local: Message -> Option<Message>,        // the message handler's answer
    acknowledged: nat -> Option<Response>,    // what the waiter for an allocation gets
    times: Times,
    order: seq<Name>)                         // the iteration order of the optional fields

  /** What a request was turned into. */
  datatype Dispatch =
    | HandledLocally(m: Message)
    | Forwarded(m: Message)
    | Kept(m: Message)
    | NotKept(m: Message)
    | Acknowledged(r: Response)

  datatype Server = Server(store: Store, numbers: nat, log: seq<Dispatch>)

  /** The number of a decoded message. */
  function SequenceOf(m: Message): (n: u32)
  {
    NumberOr0(m, SequenceNumber) % U32_LIMIT
  }

  // ---- preparation ------------------------------------------------------------------------

  /** A message that names a predefined text gets it, if it has a short_message and that is empty. */
  function WithPredefined(cfg: Config, m: Message): (r: Option<Message>)
  {
    var k := NumberOr0(m, SmDefaultMsgId);
    if k == 0 || k > |cfg.predefined| then Some(m)
    else
      var m1 := m[SmDefaultMsgId := Number(0)];
      match ExtractCommandId(m1)
      case Some(SubmitSm) | Some(DataSm) | Some(DeliverSm) =>
        if ShortMessage !in m1 then None
        else if StringOrEmpty(m1, ShortMessage) == [] then Some(m1[ShortMessage := String(cfg.predefined[k - 1])])
        else Some(m1)
      case _ => Some(m1)
  }

  function WithServiceType(cfg: Config, m: Message): (r: Message)
  {
    if ServiceType in m && StringOrEmpty(m, ServiceType) == [] && cfg.defaultServiceType != []
    then m[ServiceType := String(cfg.defaultServiceType)] else m
  }

  function ModeFor(cfg: Config, m: Message): (mode: EsmClasses.MessageMode)
  {
    var mode := EsmClasses.ModeOf(NumberOr0(m, EsmClass) % 256);
    if mode.DefaultMode? then cfg.defaultMode else mode
  }

  // ---- the three modes and local handling -------------------------------------------------

  /** A mode's verdict on one message; forwarding a message that cannot be encoded panics. */
  datatype Verdict = Verdict(accepted: bool, response: Message, server: Server) | Panic

  function AsDeliverSm(m: Message, number: u32): (r: Message)
  {
    Relabel(m, Number(AsU32(DeliverSm)), number)
  }

  /** What is handed on; a message without destination is not. */
  function Handing(d: Message): (r: seq<Dispatch>)
  {
    if Get(d, DestinationAddr).Some? && d[DestinationAddr].String? then [Forwarded(d)] else []
  }

  /** Accepted at once; the forwarding happens in a task of its own. */
  function SendDatagram(s: Server, c: CommandId, sequence: u32, id: bytes, m: Message): (v: Verdict)
  {
    Verdict(true, CreateJsonResponse(c, sequence, ESME_ROK, MessageIdField(id)),
            s.(numbers := s.numbers + 1, log := s.log + Handing(AsDeliverSm(m, NumberOf(s.numbers)))))
  }

  /** Accepted when the client acknowledges with status 0. */
  function SendTransaction(s: Server, a: Answers, c: CommandId, sequence: u32, id: bytes, m: Message): (v: Verdict)
  {
    var d := AsDeliverSm(m, NumberOf(s.numbers));
    if Handing(d) != [] && FromJson(d, a.order).None? then Panic
    else
      var status := Transactions.StatusOf(a.acknowledged(s.numbers));
      Verdict(status == ESME_ROK, CreateJsonResponse(c, sequence, status, MessageIdField(id)),
              s.(numbers := s.numbers + 1, log := s.log + Handing(d)))
  }

  function RejectedWith(s: Server, m: Message, c: CommandId, sequence: u32, status: u32, text: string): (v: Verdict)
  {
    Verdict(false, CreateJsonResponse(c, sequence, status, MessageIdField(Ascii(text))),
        s.(log := s.log + [NotKept(m)]))
  }

  datatype Rejection = Rejection(status: u32, text: string)

  /** What is wrong with the times of a message that is to be stored. */
  function TimesRejection(cfg: Config, a: Answers, m: Message): (r: Option<Rejection>)
  {
    var schedule, validity := ScheduleTime(m, a.times), ValidityTime(m, cfg.defaultValidity, a.times);
    if schedule.Some? && schedule.value < a.times.now then
      Some(Rejection(ESME_RINVSCHED, "invalid-schedule-delivery-time"))
    else if validity.Some? && validity.value < a.times.now then
      Some(Rejection(ESME_RINVEXPIRY, "invalid-validity-period"))
    else if schedule.Some? && validity.Some? && schedule.value > validity.value then
      Some(Rejection(ESME_RINVSCHED, "schedule-delivery-time-after-validity-period"))
    else None
  }

  /** Accepted when the times are in order and the store takes the message. */
  function StoreAndForward(cfg: Config, s: Server, a: Answers, c: CommandId, sequence: u32, id: bytes,
                           m: Message): (v: Verdict)
  {
    var r := TimesRejection(cfg, a, m);
    if r.Some? then RejectedWith(s, m, c, sequence, r.value.status, r.value.text)
    else if SaveRefusal(m, cfg.defaultValidity, a.times).Some? then
      RejectedWith(s, m, c, sequence, ESME_RUNKNOWNERR, "fail-to-store")
    else
      Verdict(true, CreateJsonResponse(c, sequence, ESME_ROK, MessageIdField(id)),
              s.(store := Save(s.store, id, m, cfg.defaultValidity, a.times), log := s.log + [Kept(m)]))
  }

  /** The optional fields of a handler's answer. */
  function TlvFields(m: Message): (r: Message)
  {
    map n <- m | TlvOf(n).Some? :: m[n]
  }

  /** The octets of the answer to a message the handler takes; when they cannot be encoded, those of an error. */
  function LocalReply(a: Answers, c: CommandId, sequence: u32, m: Message): (data: bytes)
  {
    var answer := a.local(m);
    var failure := CreateJsonResponse(c, sequence, ESME_RUNKNOWNERR, MessageIdField(a.errorId));
    var response := if answer.None? then failure
                    else CreateJsonResponse(c, sequence, ESME_ROK,
                                            MessageIdField(StringOrEmpty(answer.value, MessageId))
                                            + TlvFields(answer.value));
    var encoded := FromJson(response, a.order);
    if encoded.Some? then encoded.value else Encoded(failure, a.order)
  }

  // ---- one request ------------------------------------------------------------------------

  /** What a failed write leads to: nothing, the end of the current batch of messages, or a panic. */
  datatype Consequence = Ignored | EndsBatch | Fatal

  /** The outcome of handling one message, up to and including what is to be written. */
  datatype Handled =
    | Sends(data: bytes, server: Server, onFailure: Consequence)
    | Quiet(server: Server)
    | Refused(server: Server)     // an error before anything was written
    | Dies                        // a panic

  function SendResponse(s: Server, a: Answers, c: CommandId, sequence: u32, status: u32, fields: Message): (h: Handled)
  {
    Sends(Encoded(CreateJsonResponse(c, sequence, status, fields), a.order), s, EndsBatch)
  }

  function HandleDataSubmit(cfg: Config, s: Server, a: Answers, c: CommandId, m: Message): (h: Handled)
  {
    var p := WithPredefined(cfg, m);
    if p.None? then Refused(s) else
    var prepared := WithServiceType(cfg, p.value)[SequenceNumber := Number(NumberOf(s.numbers))];
    var s1 := s.(numbers := s.numbers + 1);
    if a.own(StringOrEmpty(prepared, DestinationAddr)) then
      Sends(LocalReply(a, c, SequenceOf(m), prepared), s1.(log := s1.log + [HandledLocally(prepared)]), EndsBatch)
    else
      var v := ByMode(cfg, s1, a, c, SequenceOf(m), a.messageId, prepared, ModeFor(cfg, prepared));
      if v.Panic? then Dies else Sends(Encoded(v.response, a.order), v.server, EndsBatch)
  }

  function ByMode(cfg: Config, s: Server, a: Answers, c: CommandId, sequence: u32, id: bytes, m: Message,
                  mode: EsmClasses.MessageMode): (v: Verdict)
  {
    match mode
    case Datagram => SendDatagram(s, c, sequence, id, m)
    case Transaction => SendTransaction(s, a, c, sequence, id, m)
    case StoreAndForward => StoreAndForward(cfg, s, a, c, sequence, id, m)
    case DefaultMode => Verdict(true, CreateJsonResponse(c, sequence, ESME_ROK, MessageIdField(id)), s)
  }

  // ---- submit_multi -----------------------------------------------------------------------

  /** The addresses one entry of dest_addresses stands for. */
  function Resolve(v: Value, lists: map<bytes, seq<Address>>): (r: seq<Address>)
  {
    var m := if v.Object? then v.fields else map[];
    if DestAddrTon in m && AsU64(m[DestAddrTon]).Some? && DestAddrNpi in m && AsU64(m[DestAddrNpi]).Some?
       && DestinationAddr in m && m[DestinationAddr].String?
    then [Address(NumberOr0(m, DestAddrTon) % 256, NumberOr0(m, DestAddrNpi) % 256, m[DestinationAddr].s)]
    else if DlName in m && m[DlName].String? && m[DlName].s in lists then lists[m[DlName].s]
    else []
  }

  function ResolveAll(vs: seq<Value>, lists: map<bytes, seq<Address>>): (r: seq<Address>)
  {
    if vs == [] then [] else Resolve(vs[0], lists) + ResolveAll(vs[1..], lists)
  }

  /** The destinations of a message, in order. */
  function Destinations(m: Message, lists: map<bytes, seq<Address>>): (r: seq<Address>)
  {
    match ExtractCommandId(m)
    case Some(SubmitSm) | Some(DataSm) | Some(DeliverSm) =>
      if DestAddrTon in m && DestAddrNpi in m && DestinationAddr in m
         && AsU64(m[DestAddrTon]).Some? && AsU64(m[DestAddrNpi]).Some? && m[DestinationAddr].String?
      then [Address(NumberOr0(m, DestAddrTon) % 256, NumberOr0(m, DestAddrNpi) % 256, m[DestinationAddr].s)]
      else []
    case Some(SubmitMulti) =>
      if DestAddresses in m && m[DestAddresses].Array? then ResolveAll(m[DestAddresses].items, lists) else []
    case _ => []
  }

  /** One destination of a submit_multi; in default mode it is stored. */
  function DispatchOne(cfg: Config, s: Server, a: Answers, sequence: u32, m: Message, mode: EsmClasses.MessageMode,
                       dest: Address): (v: Verdict)
  {
    var submit := ProjectSubmitSm(m, dest)[SequenceNumber := Number(NumberOf(s.numbers))];
    var s1 := s.(numbers := s.numbers + 1);
    if a.own(dest.address) then
      Verdict(true, map[], s1.(log := s1.log + [HandledLocally(submit)]))
    else
      match mode
      case Datagram => SendDatagram(s1, SubmitMulti, sequence, a.messageId, submit)
      case Transaction => SendTransaction(s1, a, SubmitMulti, sequence, a.messageId, submit)
      case _ => StoreAndForward(cfg, s1, a, SubmitSm, sequence, a.messageId, submit)
  }

  /** All destinations, one after the other. */
  datatype Fanout = Fanout(failed: seq<Address>, server: Server) | FanoutPanic

  function FanOut(cfg: Config, s: Server, a: Answers, sequence: u32, m: Message, mode: EsmClasses.MessageMode,
                  dests: seq<Address>): (r: Fanout)
    decreases |dests|
  {
    if dests == [] then Fanout([], s) else
    var v := DispatchOne(cfg, s, a, sequence, m, mode, dests[0]);
    if v.Panic? then FanoutPanic else
    var rest := FanOut(cfg, v.server, a, sequence, m, mode, dests[1..]);
    if rest.FanoutPanic? then FanoutPanic
    else rest.(failed := (if v.accepted then [] else [dests[0]]) + rest.failed)
  }

  function HandleSubmitMulti(cfg: Config, s: Server, a: Answers, m: Message): (h: Handled)
  {
    var mode := ModeFor(cfg, m);
    var p := WithPredefined(cfg, m);
    if p.None? then Refused(s) else
    var prepared := WithServiceType(cfg, p.value);
    var r := FanOut(cfg, s, a, SequenceOf(m), prepared, mode, Destinations(prepared, cfg.lists));
    if r.FanoutPanic? then Dies
    else
      var status := if r.failed == [] then ESME_ROK else ESME_RUNKNOWNERR;
      var fields := MultiResponseFields(a.messageId, r.failed);
      Sends(Encoded(CreateJsonResponse(SubmitMulti, SequenceOf(m), status, fields), a.order),
            r.server, Fatal)
  }

  // ---- dispatch ---------------------------------------------------------------------------

  function Handle(cfg: Config, s: Server, a: Answers, m: Message): (h: Handled)
  {
    var n := SequenceOf(m);
    match ExtractCommandId(m)
    case None => Quiet(s)
    case Some(c) =>
      match c
      case BindTransmitter | BindReceiver | BindTransceiver =>
        SendResponse(s, a, c, n, if a.authenticated then ESME_ROK else ESME_RBINDFAIL,
                     BindResponseFields(StringOrEmpty(m, SystemId), cfg.interfaceVersion)).(onFailure := Ignored)
      case Unbind => SendResponse(s, a, c, n, ESME_ROK, map[])
      case EnquireLink => SendResponse(s, a, c, n, ESME_ROK, map[])
      case SubmitSm => HandleDataSubmit(cfg, s, a, c, m)
      case DataSm => HandleDataSubmit(cfg, s, a, c, m)
      case SubmitMulti => HandleSubmitMulti(cfg, s, a, m)
      case QuerySm => SendResponse(s, a, c, n, ESME_RQUERYFAIL, QueryResponseFields(StringOrEmpty(m, MessageId)))
      case CancelSm =>
        var found := Gone(s.store.messages, CancelSieve(m)) != {};
        SendResponse(s.(store := Cancel(s.store, m)), a, c, n, if found then ESME_ROK else ESME_RCANCELFAIL, map[])
      case ReplaceSm =>
        SendResponse(s.(store := Replace(s.store, m, a.times)), a, c, n,
                     if ReplaceRefusal(s.store, m, a.times).None? then ESME_ROK else ESME_RREPLACEFAIL, map[])
      case BroadcastSm => SendResponse(s, a, c, n, ESME_RBCASTFAIL, map[])
      case QueryBroadcastSm => SendResponse(s, a, c, n, ESME_RBCASTQUERYFAIL, map[])
      case CancelBroadcastSm => SendResponse(s, a, c, n, ESME_RBCASTCANCELFAIL, map[])
      case EnquireLinkResp => Quiet(s)
      case DeliverSmResp => Quiet(s.(log := s.log + [Acknowledged(Response(n, m))]))
      case _ => if IsResponse(c) then Quiet(s) else SendResponse(s, a, c, n, ESME_RINVCMDID, map[])
  }

  // ---- scheduled delivery -----------------------------------------------------------------

  /** The delivery of a stored message: it never fails, but panics where forwarding does. */
  function HandleScheduled(s: Server, a: Answers, m: Message): (r: Option<Server>)
  {
    match ExtractCommandId(m)
    case Some(SubmitSm) | Some(DataSm) =>
      var d := AsDeliverSm(m, NumberOf(s.numbers));
      if Handing(d) != [] && FromJson(d, a.order).None? then None
      else Some(s.(numbers := s.numbers + 1, log := s.log + Handing(d)))
    case _ => Some(s)
  }
}
