/** One connection of the server as it runs: handlers that update the store, the counter and the log in place. */
module ServerConnection {
  import opened Bytes
  import opened Values
  import opened CommandIds
  import opened Tables
  import opened Pdu
  import opened Forwarding
  import opened Framing
  import opened Responses
  import opened Storage
  import opened StorageLaws
  import opened MessageStorage
  import opened Correlation
  import opened StatusCodes
  import opened Server
  import opened ServerStream
  import Transactions
  import EsmClasses

  /** What a handler wants written, or how it ended otherwise. */
  datatype Reply = Writes(data: bytes, onFailure: Consequence) | NoWrite | Error | Panics

  function ReplyOf(h: Handled): (r: Reply)
  {
    match h
    case Sends(data, _, onFailure) => Writes(data, onFailure)
    case Quiet(_) => NoWrite
    case Refused(_) => Error
    case Dies => Panics
  }

  /** All destinations of a message, collected entry by entry. */
  method ExtractDestinationAddresses(m: Message, lists: map<bytes, seq<Address>>) returns (result: seq<Address>)
    ensures result == Destinations(m, lists)
  {
    hide ExtractCommandId, Resolve;
    result := [];
    var c := ExtractCommandId(m);
    if c == Some(SubmitSm) || c == Some(DataSm) || c == Some(DeliverSm) {
      if DestAddrTon in m && DestAddrNpi in m && DestinationAddr in m
         && AsU64(m[DestAddrTon]).Some? && AsU64(m[DestAddrNpi]).Some? && m[DestinationAddr].String?
      {
        result := [Address(AsU64(m[DestAddrTon]).value % 256, AsU64(m[DestAddrNpi]).value % 256, m[DestinationAddr].s)];
      }
    } else if c == Some(SubmitMulti) && DestAddresses in m && m[DestAddresses].Array? {
      var items := m[DestAddresses].items;
      for k := 0 to |items|
        invariant ResolveAll(items, lists) == result + ResolveAll(items[k..], lists)
      {
        assert items[k..][0] == items[k] && items[k..][1..] == items[k + 1..];
        result := result + Resolve(items[k], lists);
      }
    }
  }

  class SmscServerConnection {
    const cfg: Config
    const storage: InMemoryMessageStorage
    var numbers: nat
    var log: seq<Dispatch>

    ghost predicate Valid()
      reads this, storage
    {
      storage.Valid() && storage.defaultValidityPeriod == cfg.defaultValidity
    }

    ghost function State(): Server
      reads this, storage
    {
      Server(storage.State(), numbers, log)
    }

    constructor (cfg: Config, storage: InMemoryMessageStorage)
      requires storage.Valid() && storage.defaultValidityPeriod == cfg.defaultValidity
      ensures this.cfg == cfg && this.storage == storage
      ensures Valid() && State() == Server(storage.State(), 0, [])
    {
      this.cfg, this.storage := cfg, storage;
      numbers, log := 0, [];
    }

    method NextNumber() returns (n: u32)
      modifies this`numbers
      ensures n == NumberOf(old(numbers)) && numbers == old(numbers) + 1
    {
      n := NumberOf(numbers);
      numbers := numbers + 1;
    }

    method SendMessageInDatagramMode(c: CommandId, sequence: u32, id: bytes, m: Message) returns (response: Message)
      modifies this
      ensures SendDatagram(old(State()), c, sequence, id, m) == Verdict(true, response, State())
    {
      hide CreateJsonResponse, MessageIdField, AsDeliverSm, Handing;
      var n := NextNumber();
      log := log + Handing(AsDeliverSm(m, n));
      response := CreateJsonResponse(c, sequence, ESME_ROK, MessageIdField(id));
    }

    method SendMessageInTransactionMode(a: Answers, c: CommandId, sequence: u32, id: bytes, m: Message)
      returns (panics: bool, ok: bool, response: Message)
      modifies this
      ensures SendTransaction(old(State()), a, c, sequence, id, m)
              == if panics then Panic else Verdict(ok, response, State())
    {
      hide CreateJsonResponse, MessageIdField, AsDeliverSm, Handing, FromJson, Transactions.StatusOf;
      ok, response := false, map[];
      var answer := a.acknowledged(numbers);
      var n := NextNumber();
      var d := AsDeliverSm(m, n);
      panics := Handing(d) != [] && FromJson(d, a.order).None?;
      if panics { return; }
      log := log + Handing(d);
      var status := Transactions.StatusOf(answer);
      response := CreateJsonResponse(c, sequence, status, MessageIdField(id));
      ok := status == ESME_ROK;
    }

    method Reject(m: Message, c: CommandId, sequence: u32, status: u32, text: string) returns (response: Message)
      modifies this`log
      ensures RejectedWith(old(State()), m, c, sequence, status, text) == Verdict(false, response, State())
    {
      hide CreateJsonResponse, MessageIdField, Ascii;
      log := log + [NotKept(m)];
      response := CreateJsonResponse(c, sequence, status, MessageIdField(Ascii(text)));
    }

    method StoreAndForwardMessage(a: Answers, c: CommandId, sequence: u32, id: bytes, m: Message)
      returns (ok: bool, response: Message)
      requires Valid()
      modifies this, storage
      ensures Valid()
      ensures StoreAndForward(cfg, old(State()), a, c, sequence, id, m) == Verdict(ok, response, State())
    {
      hide CreateJsonResponse, MessageIdField, TimesRejection, SaveRefusal, Storage.Save, RejectedWith, NoEmptyLists;
      ok := false;
      var r := CheckTimes(cfg, a, m);
      if r.Some? {
        response := Reject(m, c, sequence, r.value.status, r.value.text);
        return;
      }
      RefusedSaveKeeps(storage.State(), id, m, cfg.defaultValidity, a.times);
      var refusal := storage.Save(id, m, a.times);
      if refusal.Some? {
        response := Reject(m, c, sequence, ESME_RUNKNOWNERR, "fail-to-store");
        return;
      }
      log := log + [Kept(m)];
      ok, response := true, CreateJsonResponse(c, sequence, ESME_ROK, MessageIdField(id));
    }

    /** The mode's handling of a message; panics where forwarding does. */
    method SendByMode(a: Answers, c: CommandId, sequence: u32, m: Message, mode: EsmClasses.MessageMode)
      returns (panics: bool, ok: bool, response: Message)
      requires Valid()
      modifies this, storage
      ensures !panics ==> Valid()
      ensures ByMode(cfg, old(State()), a, c, sequence, a.messageId, m, mode)
              == if panics then Panic else Verdict(ok, response, State())
    {
      hide CreateJsonResponse, MessageIdField, StoreAndForward, SendDatagram, SendTransaction;
      panics, ok := false, true;
      match mode
      case Datagram => response := SendMessageInDatagramMode(c, sequence, a.messageId, m);
      case Transaction => panics, ok, response := SendMessageInTransactionMode(a, c, sequence, a.messageId, m);
      case StoreAndForward => ok, response := StoreAndForwardMessage(a, c, sequence, a.messageId, m);
      case DefaultMode => response := CreateJsonResponse(c, sequence, ESME_ROK, MessageIdField(a.messageId));
    }

    method HandleDataSubmitSm(a: Answers, c: CommandId, m: Message) returns (reply: Reply)
      requires Valid()
      modifies this, storage
      ensures reply == ReplyOf(HandleDataSubmit(cfg, old(State()), a, c, m))
      ensures !reply.Panics? ==> Valid() && HandleDataSubmit(cfg, old(State()), a, c, m).server == State()
    {
      hide Encoded, LocalReply, ByMode, ModeFor, WithServiceType, WithPredefined, SequenceOf;
      var p := WithPredefined(cfg, m);
      if p.None? { return Error; }
      var decoded := WithServiceType(cfg, p.value);
      var n := NextNumber();
      decoded := decoded[SequenceNumber := Number(n)];
      if a.own(StringOrEmpty(decoded, DestinationAddr)) {
        log := log + [HandledLocally(decoded)];
        reply := Writes(LocalReply(a, c, SequenceOf(m), decoded), EndsBatch);
      } else {
        var panics, ok, response := SendByMode(a, c, SequenceOf(m), decoded, ModeFor(cfg, decoded));
        reply := if panics then Panics else Writes(Encoded(response, a.order), EndsBatch);
      }
    }

    /** One destination of a submit_multi. */
    method DispatchDestination(a: Answers, sequence: u32, m: Message, mode: EsmClasses.MessageMode, dest: Address)
      returns (panics: bool, ok: bool)
      requires Valid()
      modifies this, storage
      ensures !panics ==> Valid()
      ensures var v := DispatchOne(cfg, old(State()), a, sequence, m, mode, dest);
              if panics then v.Panic? else v.Verdict? && v.accepted == ok && v.server == State()
    {
      hide ProjectSubmitSm, StoreAndForward, SendDatagram, SendTransaction;
      panics, ok := false, true;
      var submit := ProjectSubmitSm(m, dest);
      var n := NextNumber();
      submit := submit[SequenceNumber := Number(n)];
      var response;
      if a.own(dest.address) {
        log := log + [HandledLocally(submit)];
      } else if mode.Datagram? {
        response := SendMessageInDatagramMode(SubmitMulti, sequence, a.messageId, submit);
      } else if mode.Transaction? {
        panics, ok, response := SendMessageInTransactionMode(a, SubmitMulti, sequence, a.messageId, submit);
      } else {
        ok, response := StoreAndForwardMessage(a, SubmitSm, sequence, a.messageId, submit);
      }
    }

    method HandleSubmitMultiSm(a: Answers, m: Message) returns (reply: Reply)
      requires Valid()
      modifies this, storage
      ensures reply == ReplyOf(HandleSubmitMulti(cfg, old(State()), a, m))
      ensures !reply.Panics? ==> Valid() && HandleSubmitMulti(cfg, old(State()), a, m).server == State()
    {
      hide Encoded, CreateJsonResponse, MultiResponseFields, ModeFor, WithServiceType, WithPredefined;
      hide SequenceOf, DispatchOne, Destinations;
      ghost var before := State();
      var mode := ModeFor(cfg, m);
      var p := WithPredefined(cfg, m);
      if p.None? { return Error; }
      var decoded := WithServiceType(cfg, p.value);
      var sequence := SequenceOf(m);
      var dests := ExtractDestinationAddresses(decoded, cfg.lists);
      var failed: seq<Address> := [];
      var k := 0;
      ghost var whole := FanOut(cfg, before, a, sequence, decoded, mode, dests);
      assert dests[0..] == dests;
      assert whole.Fanout? ==> [] + whole.failed == whole.failed;
      while k < |dests|
        invariant k <= |dests| && Valid()
        invariant whole == AfterFailures(failed, FanOut(cfg, State(), a, sequence, decoded, mode, dests[k..]))
      {
        assert dests[k..][0] == dests[k] && dests[k..][1..] == dests[k + 1..];
        FanOutStep(cfg, State(), a, sequence, decoded, mode, dests[k..], failed);
        var panics, ok := DispatchDestination(a, sequence, decoded, mode, dests[k]);
        if panics { return Panics; }
        if !ok { failed := failed + [dests[k]]; }
        k := k + 1;
      }
      assert dests[k..] == [] && failed + [] == failed;
      assert whole == Fanout(failed, State());
      var status := if failed == [] then ESME_ROK else ESME_RUNKNOWNERR;
      var response := CreateJsonResponse(SubmitMulti, sequence, status, MultiResponseFields(a.messageId, failed));
      reply := Writes(Encoded(response, a.order), Fatal);
    }

    /** The dispatch on the command of a decoded message. */
    method HandleMessage(a: Answers, m: Message) returns (reply: Reply)
      requires Valid()
      modifies this, storage
      ensures reply == ReplyOf(Handle(cfg, old(State()), a, m))
      ensures !reply.Panics? ==> Valid() && Handle(cfg, old(State()), a, m).server == State()
    {
      hide ExtractCommandId, Encoded, CreateJsonResponse, HandleDataSubmit, HandleSubmitMulti, SequenceOf;
      hide BindResponseFields, QueryResponseFields, Cancel, Replace, ReplaceRefusal, StringOrEmpty;
      hide NoEmptyLists, AsU32, Gone, CancelSieve;
      var command := ExtractCommandId(m);
      if command.None? { return NoWrite; }
      var c, n := command.value, SequenceOf(m);
      match c
      case BindTransmitter | BindReceiver | BindTransceiver =>
        var status := if a.authenticated then ESME_ROK else ESME_RBINDFAIL;
        var fields := BindResponseFields(StringOrEmpty(m, SystemId), cfg.interfaceVersion);
        reply := Writes(Encoded(CreateJsonResponse(c, n, status, fields), a.order), Ignored);
      case SubmitSm => reply := HandleDataSubmitSm(a, c, m);
      case DataSm => reply := HandleDataSubmitSm(a, c, m);
      case SubmitMulti => reply := HandleSubmitMultiSm(a, m);
      case QuerySm => reply := Respond(a, c, n, ESME_RQUERYFAIL, QueryResponseFields(StringOrEmpty(m, MessageId)));
      case CancelSm =>
        CancelChangesIff(storage.State(), m);
        var found := storage.CancelMessage(m);
        reply := Respond(a, c, n, if found then ESME_ROK else ESME_RCANCELFAIL, map[]);
      case ReplaceSm =>
        var refusal := storage.ReplaceMessage(m, a.times);
        reply := Respond(a, c, n, if refusal.None? then ESME_ROK else ESME_RREPLACEFAIL, map[]);
      case BroadcastSm => reply := Respond(a, c, n, ESME_RBCASTFAIL, map[]);
      case QueryBroadcastSm => reply := Respond(a, c, n, ESME_RBCASTQUERYFAIL, map[]);
      case CancelBroadcastSm => reply := Respond(a, c, n, ESME_RBCASTCANCELFAIL, map[]);
      case Unbind => reply := Respond(a, c, n, ESME_ROK, map[]);
      case EnquireLink => reply := Respond(a, c, n, ESME_ROK, map[]);
      case EnquireLinkResp => reply := NoWrite;
      case DeliverSmResp =>
        log := log + [Acknowledged(Response(n, m))];
        reply := NoWrite;
      case _ =>
        if IsResponse(c) { return NoWrite; }
        reply := Respond(a, c, n, ESME_RINVCMDID, map[]);
    }

    /** A stored message that is due is sent on; the call reports success or panics. */
    method HandleScheduleDeliveryMessage(a: Answers, m: Message) returns (panics: bool)
      requires Valid()
      modifies this
      ensures panics <==> HandleScheduled(old(State()), a, m).None?
      ensures !panics ==> Valid() && HandleScheduled(old(State()), a, m) == Some(State())
    {
      hide ExtractCommandId, FromJson, AsDeliverSm, Handing, NoEmptyLists;
      panics := false;
      var c := ExtractCommandId(m);
      if c == Some(SubmitSm) || c == Some(DataSm) {
        var n := NextNumber();
        var d := AsDeliverSm(m, n);
        panics := Handing(d) != [] && FromJson(d, a.order).None?;
        if !panics { log := log + Handing(d); }
      }
    }

    method Respond(a: Answers, c: CommandId, sequence: u32, status: u32, fields: Message) returns (reply: Reply)
      ensures reply == Writes(Encoded(CreateJsonResponse(c, sequence, status, fields), a.order), EndsBatch)
    {
      hide Encoded, CreateJsonResponse;
      reply := Writes(Encoded(CreateJsonResponse(c, sequence, status, fields), a.order), EndsBatch);
    }
  }

  method CheckTimes(cfg: Config, a: Answers, m: Message) returns (r: Option<Rejection>)
    ensures r == TimesRejection(cfg, a, m)
  {
    hide ScheduleTime, ValidityTime;
    var schedule, validity := ScheduleTime(m, a.times), ValidityTime(m, cfg.defaultValidity, a.times);
    if schedule.Some? && schedule.value < a.times.now {
      return Some(Rejection(ESME_RINVSCHED, "invalid-schedule-delivery-time"));
    }
    if validity.Some? && validity.value < a.times.now {
      return Some(Rejection(ESME_RINVEXPIRY, "invalid-validity-period"));
    }
    if schedule.Some? && validity.Some? && schedule.value > validity.value {
      return Some(Rejection(ESME_RINVSCHED, "schedule-delivery-time-after-validity-period"));
    }
    r := None;
  }

  function AfterFailures(failed: seq<Address>, r: Fanout): (f: Fanout)
  {
    if r.FanoutPanic? then r else r.(failed := failed + r.failed)
  }

  lemma FanOutStep(cfg: Config, s: Server, a: Answers, sequence: u32, m: Message, mode: EsmClasses.MessageMode,
                   dests: seq<Address>, failed: seq<Address>)
    requires dests != []
    ensures var v := DispatchOne(cfg, s, a, sequence, m, mode, dests[0]);
            AfterFailures(failed, FanOut(cfg, s, a, sequence, m, mode, dests))
            == if v.Panic? then FanoutPanic
               else AfterFailures(if v.accepted then failed else failed + [dests[0]],
                                  FanOut(cfg, v.server, a, sequence, m, mode, dests[1..]))
  {
    hide DispatchOne;
    var v := DispatchOne(cfg, s, a, sequence, m, mode, dests[0]);
    if v.Verdict? {
      var rest := FanOut(cfg, v.server, a, sequence, m, mode, dests[1..]);
      if rest.Fanout? {
        assert failed + ([dests[0]] + rest.failed) == failed + [dests[0]] + rest.failed;
        assert [] + rest.failed == rest.failed;
      }
    }
  }

  lemma RefusedSaveKeeps(s: Store, i: Id, m: Message, fallback: nat, t: Times)
    ensures SaveRefusal(m, fallback, t).Some? ==> Storage.Save(s, i, m, fallback, t) == s
  {}

  /** The receiving loop of a connection, with the PDUs it handled and what was written for each. */
  class Session {
    const connection: SmscServerConnection
    const buffer: SmppMessageBuffer
    var seen: seq<bytes>
    var written: seq<bytes>

    ghost predicate Valid()
      reads this, connection, connection.storage
    {
      connection.Valid() && |seen| == |written|
    }

    ghost function State(): Machine
      reads this, connection, connection.storage
    {
      Machine(connection.State(), seen, written)
    }

    constructor (connection: SmscServerConnection)
      requires connection.Valid()
      ensures this.connection == connection && fresh(buffer) && buffer.buffer == []
      ensures Valid() && State() == Machine(connection.State(), [], [])
    {
      this.connection := connection;
      buffer := new SmppMessageBuffer();
      seen, written := [], [];
    }

    /** One extracted PDU. */
    method OnMessage(env: Environment, frame: bytes) returns (next: Next)
      requires Valid()
      modifies this, connection, connection.storage
      ensures next == HandleFrame(connection.cfg, env, old(State()), frame).1
      ensures !next.Halts? ==> Valid() && State() == HandleFrame(connection.cfg, env, old(State()), frame).0
    {
      hide DecodePdu, Handle;
      var k := |seen|;
      var m := DecodePdu(frame);
      var data := [];
      next := Goes;
      if m.Some? {
        var reply := connection.HandleMessage(env.answers(k), m.value);
        match reply
        case Panics => return Halts;
        case NoWrite =>
        case Error => next := Stops;
        case Writes(octets, onFailure) =>
          if env.writes(k) {
            data := octets;
          } else {
            next := match onFailure case Ignored => Goes case EndsBatch => Stops case Fatal => Halts;
          }
      }
      seen, written := seen + [frame], written + [data];
    }

    /** One read: everything complete is extracted and handled until an error. */
    method OnChunk(env: Environment, chunk: bytes) returns (fate: Fate)
      requires Valid()
      modifies this, buffer, connection, connection.storage
      ensures fate == Batch(connection.cfg, env, old(State()), old(buffer.buffer) + chunk).fate
      ensures fate.Alive? ==> Valid()
                              && Batch(connection.cfg, env, old(State()), old(buffer.buffer) + chunk)
                                 == Progress(State(), buffer.buffer, Alive)
    {
      hide HandleFrame;
      buffer.Write(chunk);
      ghost var whole := Batch(connection.cfg, env, State(), buffer.buffer);
      while true
        invariant Valid() && Batch(connection.cfg, env, State(), buffer.buffer) == whole
        decreases |buffer.buffer|
      {
        ghost var b := buffer.buffer;
        var message := buffer.ExtractMessage();
        if message.None? { return Alive; }
        DropPrefix(message.value, buffer.buffer);
        if message.value == [] {
          // the same empty message would be extracted for ever
          return Spinning;
        }
        var next := OnMessage(env, message.value);
        match next
        case Goes =>
        case Stops => return Alive;
        case Halts => return Dead;
      }
    }

    method Run(env: Environment, chunks: seq<bytes>) returns (fate: Fate)
      requires Valid()
      modifies this, buffer, connection, connection.storage
      ensures fate == Serve(connection.cfg, env, old(State()), old(buffer.buffer), chunks).fate
      ensures fate.Alive? ==> Valid()
                              && Serve(connection.cfg, env, old(State()), old(buffer.buffer), chunks)
                                 == Progress(State(), buffer.buffer, Alive)
    {
      hide Batch;
      ghost var whole := Serve(connection.cfg, env, State(), buffer.buffer, chunks);
      for k := 0 to |chunks|
        invariant Valid() && Serve(connection.cfg, env, State(), buffer.buffer, chunks[k..]) == whole
      {
        assert chunks[k..][0] == chunks[k] && chunks[k..][1..] == chunks[k + 1..];
        fate := OnChunk(env, chunks[k]);
        if !fate.Alive? { return; }
      }
      fate := Alive;
    }
  }
}
