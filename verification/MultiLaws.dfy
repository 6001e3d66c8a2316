/** submit_multi: who is reached, who is reported as not reached, and what the sender reads of it. */
module MultiLaws {
  import opened Bytes
  import opened Values
  import opened Codec
  import opened CommandIds
  import opened Tables
  import opened Pdu
  import opened PduLaws
  import opened WireLaws
  import opened SmppMessage
  import opened Forwarding
  import opened Responses
  import opened Storage
  import opened StorageLaws
  import opened Correlation
  import opened StatusCodes
  import opened Server
  import opened ServerLaws
  import EsmClasses
  import SqlCancel

  // ---- whom a submit_multi addresses ------------------------------------------------------

  /** An entry of dest_addresses: one address, or a distribution list. */
  datatype Target = Direct(address: Address) | DistributionList(name: bytes)

  function TargetValue(t: Target): (v: Value)
  {
    match t
    case Direct(a) =>
      Object(map[DestAddrTon := Number(a.ton), DestAddrNpi := Number(a.npi), DestinationAddr := String(a.address)])
    case DistributionList(n) => Object(map[DlName := String(n)])
  }

  /** The addresses in order, lists replaced by their members; an unknown list has none. */
  function Expand(ts: seq<Target>, lists: map<bytes, seq<Address>>): (r: seq<Address>)
  {
    if ts == [] then []
    else
      (match ts[0]
       case Direct(a) => [a]
       case DistributionList(n) => if n in lists then lists[n] else []) + Expand(ts[1..], lists)
  }

  ghost predicate Denotes(vs: seq<Value>, ts: seq<Target>)
  {
    |vs| == |ts| && forall k :: 0 <= k < |vs| ==> vs[k] == TargetValue(ts[k])
  }

  lemma ResolveTarget(t: Target, lists: map<bytes, seq<Address>>)
    ensures Resolve(TargetValue(t), lists) ==
            match t case Direct(a) => [a] case DistributionList(n) => if n in lists then lists[n] else []
  {}

  lemma {:induction false} ResolveIsExpand(vs: seq<Value>, ts: seq<Target>, lists: map<bytes, seq<Address>>)
    requires Denotes(vs, ts)
    ensures ResolveAll(vs, lists) == Expand(ts, lists)
  {
    hide Resolve, TargetValue;
    if vs != [] {
      ResolveTarget(ts[0], lists);
      ResolveIsExpand(vs[1..], ts[1..], lists);
    }
  }

  lemma DecodedTarget(b: bytes) returns (t: Target)
    requires Decode(DestAddress, b).Got?
    ensures Decode(DestAddress, b).v == TargetValue(t) && (t.Direct? ==> 0 !in t.address.address)
  {
    var m := Decode(DestAddress, b).v.fields;
    if b[0] == 1 {
      t := Direct(Address(b[1], b[2], m[DestinationAddr].s));
    } else {
      t := DistributionList(m[DlName].s);
    }
  }

  lemma {:induction false} DecodedTargets(n: nat, b: bytes) returns (ts: seq<Target>)
    requires DecodeItems(DestAddress, n, b).Got?
    ensures Denotes(DecodeItems(DestAddress, n, b).v, ts)
    ensures forall t <- ts :: t.Direct? ==> 0 !in t.address.address
    decreases n
  {
    hide Decode;
    if n == 0 { return []; }
    var t := DecodedTarget(b);
    var p := Decode(DestAddress, b);
    var rest := DecodedTargets(n - 1, p.rest);
    ts := [t] + rest;
  }

  /** The value of a mandatory field is what its codec made of some octets. */
  lemma {:induction false} DecodedMember(ms: seq<Member>, b: bytes, acc: Message, x: Member) returns (at: bytes)
    requires DecodeMembers(ms, b, acc).Got? && x in ms
    requires forall i, j :: 0 <= i < j < |ms| ==> ms[i].name != ms[j].name
    ensures Decode(x.codec, at).Got?
    ensures Get(DecodeMembers(ms, b, acc).v, x.name) == Some(Decode(x.codec, at).v)
    decreases |ms|
  {
    hide Decode;
    var p := Decode(ms[0].codec, b);
    var acc' := acc[ms[0].name := p.v];
    if x == ms[0] {
      MembersKeep(ms[1..], p.rest, acc', x.name);
      at := b;
    } else {
      assert x in ms[1..];
      at := DecodedMember(ms[1..], p.rest, acc', x);
    }
  }

  lemma DecodedField(b: bytes, x: Member) returns (at: bytes)
    requires DecodePdu(b).Some? && x in MembersOf(CommandOf(b)) && TlvOf(x.name).None?
    ensures Decode(x.codec, at).Got? && Get(DecodePdu(b).value, x.name) == Some(Decode(x.codec, at).v)
  {
    hide Decode, DecodeMembers, DecodeTlvs, MembersOf, TlvOf, HeaderMessage, FromU32;
    var c, p := CommandOf(b), DecodeFixed(b);
    MembersAreSound(c);
    at := DecodedMember(MembersOf(c), b[16..], HeaderMessage(c, OfBe32(b[8..12]), OfBe32(b[12..16])), x);
    TlvLoopKeeps(p.rest, p.v, x.name);
  }

  lemma AddressesMember()
    ensures DEST_ADDRESSES in MembersOf(SubmitMulti) && TlvOf(DestAddresses).None?
  {
    assert MembersOf(SubmitMulti)[4] == DEST_ADDRESSES;
  }

  /** Whatever submit_multi was received: its destinations are the in-order expansion of its entries. */
  lemma DestinationsOfDecoded(b: bytes, lists: map<bytes, seq<Address>>) returns (ts: seq<Target>)
    requires DecodePdu(b).Some? && CommandOf(b) == SubmitMulti
    ensures var v := Get(DecodePdu(b).value, DestAddresses);
            v.Some? && v.value.Array? && Denotes(v.value.items, ts)
    ensures Destinations(DecodePdu(b).value, lists) == Expand(ts, lists)
    ensures forall t <- ts :: t.Direct? ==> 0 !in t.address.address
  {
    hide DecodePdu, CommandOf, MembersOf, TlvOf, ExtractCommandId, Denotes, ResolveAll, Expand;
    AddressesMember();
    var at := DecodedField(b, DEST_ADDRESSES);
    ts := DecodedTargets(at[0], at[1..]);
    DecodedCommand(b);
    ResolveIsExpand(DecodePdu(b).value[DestAddresses].items, ts, lists);
  }

  // ---- the fan-out ------------------------------------------------------------------------

  /** `a` is what remains of `b` after leaving out some elements. */
  predicate IsSubsequence<T(==)>(a: seq<T>, b: seq<T>)
  {
    if a == [] then true
    else if b == [] then false
    else if a[0] == b[0] && IsSubsequence(a[1..], b[1..]) then true
    else IsSubsequence(a, b[1..])
  }

  function MessageIn(d: Dispatch): (m: Message)
  {
    match d
    case HandledLocally(m) => m
    case Forwarded(m) => m
    case Kept(m) => m
    case NotKept(m) => m
    case Acknowledged(r) => r.message
  }

  function AddressOf(m: Message): (a: Address)
  {
    Address(Storage.Octet(m, DestAddrTon), Storage.Octet(m, DestAddrNpi), StringOrEmpty(m, DestinationAddr))
  }

  lemma ProjectedAddress(m: Message, dest: Address, v: Value, n: u32)
    ensures var p := ProjectSubmitSm(m, dest)[SequenceNumber := v];
            AddressOf(p) == dest && AddressOf(AsDeliverSm(p, n)) == dest
                && Handing(AsDeliverSm(p, n)) == [Forwarded(AsDeliverSm(p, n))]
  {
    hide ProjectSubmitSm;
    var p := ProjectSubmitSm(m, dest)[SequenceNumber := v];
    ProjectedDestination(m, dest);
    SameAddress(p, dest);
    SameAddress(AsDeliverSm(p, n), dest);
  }

  lemma SameAddress(p: Message, dest: Address)
    requires Get(p, DestAddrTon) == Some(Number(dest.ton)) && Get(p, DestAddrNpi) == Some(Number(dest.npi))
    requires Get(p, DestinationAddr) == Some(String(dest.address))
    ensures AddressOf(p) == dest
  {}

  lemma ProjectedDestination(m: Message, dest: Address)
    ensures var p := ProjectSubmitSm(m, dest);
            && Get(p, DestAddrTon) == Some(Number(dest.ton)) && Get(p, DestAddrNpi) == Some(Number(dest.npi))
            && Get(p, DestinationAddr) == Some(String(dest.address))
  {
    hide SharedIndex;
    DestinationNotShared();
  }

  lemma DestinationNotShared()
    ensures !IsShared(DestAddrTon) && !IsShared(DestAddrNpi) && !IsShared(DestinationAddr)
  {}

  /** A verdict that adds one entry to the log, for the given destination. */
  predicate LogsOne(s: Server, v: Verdict, dest: Address)
  {
    v.Verdict? ==>
      && |v.server.log| == |s.log| + 1 && v.server.log[..|s.log|] == s.log
      && AddressOf(MessageIn(v.server.log[|s.log|])) == dest
  }

  lemma SendingLogsOne(s: Server, a: Answers, c: CommandId, sequence: u32, id: bytes, m: Message, dest: Address)
    requires var d := AsDeliverSm(m, NumberOf(s.numbers)); AddressOf(d) == dest && Handing(d) == [Forwarded(d)]
    ensures LogsOne(s, SendDatagram(s, c, sequence, id, m), dest)
    ensures LogsOne(s, SendTransaction(s, a, c, sequence, id, m), dest)
  {
    hide AddressOf, CreateJsonResponse, MessageIdField, FromJson, AsDeliverSm, Transactions.StatusOf;
  }

  lemma StoringLogsOne(cfg: Config, s: Server, a: Answers, c: CommandId, sequence: u32, id: bytes, m: Message)
    ensures LogsOne(s, StoreAndForward(cfg, s, a, c, sequence, id, m), AddressOf(m))
  {
    hide LogsOne, AddressOf, CreateJsonResponse, TimesRejection, SaveRefusal, Save, RejectedWith;
    var r := TimesRejection(cfg, a, m);
    if r.Some? { RejectionLogsOne(s, m, c, sequence, r.value.status, r.value.text); }
    RejectionLogsOne(s, m, c, sequence, ESME_RUNKNOWNERR, "fail-to-store");
    KeepingLogsOne(s, m, CreateJsonResponse(c, sequence, ESME_ROK, MessageIdField(id)),
                   Save(s.store, id, m, cfg.defaultValidity, a.times));
  }

  lemma RejectionLogsOne(s: Server, m: Message, c: CommandId, sequence: u32, status: u32, text: string)
    ensures LogsOne(s, RejectedWith(s, m, c, sequence, status, text), AddressOf(m))
  {
    hide AddressOf, CreateJsonResponse, MessageIdField, Ascii;
  }

  lemma KeepingLogsOne(s: Server, m: Message, response: Message, store: Store)
    ensures LogsOne(s, Verdict(true, response, s.(store := store, log := s.log + [Kept(m)])), AddressOf(m))
  {
    hide AddressOf;
  }

  /** One destination makes one entry in the log, and the entry is for that destination. */
  lemma DispatchLogged(cfg: Config, s: Server, a: Answers, sequence: u32, m: Message, mode: EsmClasses.MessageMode,
                       dest: Address)
    ensures LogsOne(s, DispatchOne(cfg, s, a, sequence, m, mode, dest), dest)
  {
    hide ProjectSubmitSm, AddressOf, SendDatagram, SendTransaction, StoreAndForward, AsDeliverSm;
    var p := ProjectSubmitSm(m, dest)[SequenceNumber := Number(NumberOf(s.numbers))];
    var s1 := s.(numbers := s.numbers + 1);
    ProjectedAddress(m, dest, Number(NumberOf(s.numbers)), NumberOf(s.numbers + 1));
    SendingLogsOne(s1, a, SubmitMulti, sequence, a.messageId, p, dest);
    StoringLogsOne(cfg, s1, a, SubmitSm, sequence, a.messageId, p);
  }

  /**
   Conservation: every destination is dispatched exactly once and in order, and the failures are a
   subsequence of the destinations.
   */
  lemma {:induction false} FanOutConserves(cfg: Config, s: Server, a: Answers, sequence: u32, m: Message,
                                           mode: EsmClasses.MessageMode, dests: seq<Address>)
    requires FanOut(cfg, s, a, sequence, m, mode, dests).Fanout?
    ensures var r := FanOut(cfg, s, a, sequence, m, mode, dests);
            && |r.server.log| == |s.log| + |dests| && r.server.log[..|s.log|] == s.log
            && (forall k :: 0 <= k < |dests| ==> AddressOf(MessageIn(r.server.log[|s.log| + k])) == dests[k])
            && IsSubsequence(r.failed, dests)
    decreases |dests|
  {
    hide DispatchOne, AddressOf, MessageIn, IsSubsequence;
    if dests == [] {
      NothingSkipped<Address>();
    } else {
      DispatchLogged(cfg, s, a, sequence, m, mode, dests[0]);
      var v := DispatchOne(cfg, s, a, sequence, m, mode, dests[0]);
      var rest := FanOut(cfg, v.server, a, sequence, m, mode, dests[1..]);
      FanOutConserves(cfg, v.server, a, sequence, m, mode, dests[1..]);
      var n := |s.log|;
      LoggedNext(s.log, v.server.log, rest.server.log, dests);
      Skipping(rest.failed, dests[1..], dests[0]);
      assert [dests[0]] + dests[1..] == dests && [] + rest.failed == rest.failed;
    }
  }

  /** A log grown by one entry for the first destination and then by one for each of the others. */
  lemma LoggedNext(log: seq<Dispatch>, log1: seq<Dispatch>, log2: seq<Dispatch>, dests: seq<Address>)
    requires dests != [] && |log1| == |log| + 1 && log1[..|log|] == log && AddressOf(MessageIn(log1[|log|])) == dests[0]
    requires |log2| == |log1| + |dests| - 1 && log2[..|log1|] == log1
    requires forall k :: 0 <= k < |dests| - 1 ==> AddressOf(MessageIn(log2[|log1| + k])) == dests[1..][k]
    ensures log2[..|log|] == log
    ensures forall k :: 0 <= k < |dests| ==> AddressOf(MessageIn(log2[|log| + k])) == dests[k]
  {
    hide AddressOf, MessageIn;
    var n := |log|;
    assert log2[..n] == log2[..n + 1][..n];
    forall k | 0 <= k < |dests| ensures AddressOf(MessageIn(log2[n + k])) == dests[k] {
      if k == 0 {
        assert log2[n] == log2[..n + 1][n];
      } else {
        assert dests[k] == dests[1..][k - 1];
        assert log2[n + k] == log2[|log1| + (k - 1)];
      }
    }
  }

  lemma NothingSkipped<T>()
    ensures IsSubsequence<T>([], [])
  {}

  lemma {:induction false} Skipping<T>(a: seq<T>, b: seq<T>, x: T)
    requires IsSubsequence(a, b)
    ensures IsSubsequence(a, [x] + b) && IsSubsequence([x] + a, [x] + b)
  {
    assert ([x] + b)[1..] == b && ([x] + a)[1..] == a;
  }

  // ---- who is not reached -----------------------------------------------------------------

  /** The times of a message let it be stored: some time, none past, and no schedule after its validity. */
  predicate TimesAllow(cfg: Config, a: Answers, m: Message)
  {
    var schedule, validity := ScheduleTime(m, a.times), ValidityTime(m, cfg.defaultValidity, a.times);
    && (schedule.Some? || validity.Some?)
    && (schedule.Some? ==> a.times.now <= schedule.value)
    && (validity.Some? ==> a.times.now <= validity.value)
    && (schedule.Some? && validity.Some? ==> schedule.value <= validity.value)
  }

  /**
   A destination is not reached: never in datagram mode, in transaction mode when its acknowledgement
   is not a success, and in the other modes when it or the message's times cannot be stored. The
   projected message does not take qos_time_to_live over.
   */
  predicate NotReached(cfg: Config, a: Answers, m: Message, mode: EsmClasses.MessageMode, dest: Address, numbers: nat)
  {
    !a.own(dest.address) &&
    match mode
    case Datagram => false
    case Transaction => Transactions.StatusOf(a.acknowledged(numbers + 1)) != ESME_ROK
    case _ => dest.address == [] || !TimesAllow(cfg, a, m - {QosTimeToLive})
  }

  /** Numbers taken for a destination. */
  function Taken(a: Answers, mode: EsmClasses.MessageMode, dest: Address): (n: nat)
  {
    if !a.own(dest.address) && (mode.Datagram? || mode.Transaction?) then 2 else 1
  }

  /** The destinations not reached, with the numbers counted on from the given one. */
  function Unreached(cfg: Config, a: Answers, m: Message, mode: EsmClasses.MessageMode, dests: seq<Address>,
                     numbers: nat): (r: seq<Address>)
  {
    if dests == [] then []
    else
      (if NotReached(cfg, a, m, mode, dests[0], numbers) then [dests[0]] else [])
      + Unreached(cfg, a, m, mode, dests[1..], numbers + Taken(a, mode, dests[0]))
  }

  lemma ProjectedTimes(m: Message, dest: Address, v: Value, fallback: nat, t: Times)
    ensures var p := ProjectSubmitSm(m, dest)[SequenceNumber := v];
            && ScheduleTime(p, t) == ScheduleTime(m - {QosTimeToLive}, t)
            && ValidityTime(p, fallback, t) == ValidityTime(m - {QosTimeToLive}, fallback, t)
  {
    hide ProjectSubmitSm;
    TimesTakenOver(m, dest);
  }

  lemma TimesTakenOver(m: Message, dest: Address)
    ensures var p := ProjectSubmitSm(m, dest);
            && Get(p, ScheduleDeliveryTime) == Get(m, ScheduleDeliveryTime)
            && Get(p, ValidityPeriod) == Get(m, ValidityPeriod) && Get(p, QosTimeToLive).None?
  {
    hide SharedIndex;
    TimeFieldsShared();
  }

  lemma TimeFieldsShared()
    ensures IsShared(ScheduleDeliveryTime) && IsShared(ValidityPeriod) && !IsShared(QosTimeToLive)
  {}

  lemma VerdictIs(cfg: Config, s: Server, a: Answers, sequence: u32, m: Message, mode: EsmClasses.MessageMode,
                  dest: Address)
    ensures var v := DispatchOne(cfg, s, a, sequence, m, mode, dest);
            v.Verdict? ==>
              && (v.accepted <==> !NotReached(cfg, a, m, mode, dest, s.numbers))
              && v.server.numbers == s.numbers + Taken(a, mode, dest)
  {
    hide ProjectSubmitSm, ScheduleTime, ValidityTime, CreateJsonResponse, MessageIdField, AsDeliverSm, FromJson;
    hide StoreAndForward, Handing, AddressOf, Transactions.StatusOf;
    var n := Number(NumberOf(s.numbers));
    var p, s1 := ProjectSubmitSm(m, dest)[SequenceNumber := n], s.(numbers := s.numbers + 1);
    ProjectedAddress(m, dest, n, 0);
    AddressText(p);
    ProjectedTimes(m, dest, n, cfg.defaultValidity, a.times);
    StoredIff(cfg, s1, a, SubmitSm, sequence, a.messageId, p);
    StoringTakesNone(cfg, s1, a, sequence, p);
  }

  lemma StoringTakesNone(cfg: Config, s: Server, a: Answers, sequence: u32, m: Message)
    ensures var v := StoreAndForward(cfg, s, a, SubmitSm, sequence, a.messageId, m);
            v.Verdict? && v.server.numbers == s.numbers
  {
    hide TimesRejection, SaveRefusal, Save, CreateJsonResponse, MessageIdField, Ascii;
  }

  /** Exactly those destinations fail, in order, whatever the store holds. */
  lemma {:induction false} FanOutFails(cfg: Config, s: Server, a: Answers, sequence: u32, m: Message,
                                       mode: EsmClasses.MessageMode, dests: seq<Address>)
    requires FanOut(cfg, s, a, sequence, m, mode, dests).Fanout?
    ensures FanOut(cfg, s, a, sequence, m, mode, dests).failed == Unreached(cfg, a, m, mode, dests, s.numbers)
    decreases |dests|
  {
    hide DispatchOne, NotReached, Taken;
    if dests != [] {
      VerdictIs(cfg, s, a, sequence, m, mode, dests[0]);
      FanOutFails(cfg, DispatchOne(cfg, s, a, sequence, m, mode, dests[0]).server, a, sequence, m, mode, dests[1..]);
    }
  }

  // ---- no panic ---------------------------------------------------------------------------

  /** Every field a projected submit_sm takes over is there and can be encoded. */
  predicate MultiReady(m: Message)
  {
    forall x <- MembersOf(SubmitSm) | IsShared(x.name) :: x.name in m && Encode(x.codec, m[x.name]).Some?
  }

  lemma DecodedMultiReady(b: bytes)
    requires DecodePdu(b).Some? && CommandOf(b) == SubmitMulti
    ensures MultiReady(DecodePdu(b).value)
  {
    hide DecodePdu, CommandOf, MembersOf, TlvOf, Encode, NullOrEncodable, HeaderName, SharedIndex;
    DecodedMembersSound(b);
    forall x <- MembersOf(SubmitSm) | IsShared(x.name)
      ensures x.name in DecodePdu(b).value && Encode(x.codec, DecodePdu(b).value[x.name]).Some?
    {
      var y := BothHaveShared(x.name);
      SameName(SubmitSm, x, y);
      SharedIsField(x.name);
    }
  }

  lemma PutKeepsMultiReady(m: Message, k: Name, v: Value)
    requires MultiReady(m)
    requires forall x <- MembersOf(SubmitSm) :: x.name == k ==> Encode(x.codec, v).Some?
    ensures MultiReady(m[k := v])
  {
    hide MembersOf, Encode, SharedIndex;
  }

  lemma PreparedMultiReady(cfg: Config, m: Message)
    requires MultiReady(m) && ExtractCommandId(m) == Some(SubmitMulti)
    ensures WithPredefined(cfg, m).Some? && MultiReady(WithServiceType(cfg, WithPredefined(cfg, m).value))
    ensures Get(WithServiceType(cfg, WithPredefined(cfg, m).value), DestAddresses) == Get(m, DestAddresses)
    ensures ExtractCommandId(WithServiceType(cfg, WithPredefined(cfg, m).value)) == Some(SubmitMulti)
  {
    hide MembersOf, MultiReady, StringOrEmpty, NumberOr0, Encode, FromStr, FromU32;
    PreparableCodecs();
    PreparableValues();
    PutKeepsMultiReady(m, SmDefaultMsgId, Number(0));
    var p := WithPredefined(cfg, m).value;
    PutKeepsMultiReady(p, ServiceType, String(cfg.defaultServiceType));
  }

  /** A projected submit_sm can always be sent on as deliver_sm. */
  lemma ProjectedForwards(m: Message, dest: Address, v: Value, number: u32, order: seq<Name>)
    requires MultiReady(m) && Enumerates(order)
    ensures FromJson(AsDeliverSm(ProjectSubmitSm(m, dest)[SequenceNumber := v], number), order).Some?
  {
    hide MembersOf, TlvOf, Encode, FromJson, ProjectSubmitSm, SharedIndex, Enumerates;
    var p := ProjectSubmitSm(m, dest)[SequenceNumber := v];
    SubmitFields();
    PreparableCodecs();
    forall x <- MembersOf(SubmitSm) ensures x.name in p && Encode(x.codec, p[x.name]).Some? {
      if IsShared(x.name) { SharedTakenOver(m, dest, x.name); } else { DestinationField(m, dest, x); }
    }
    NoTlvsProjected(m, dest);
    assert forall n <- p :: TlvOf(n).None?;
    RelabelledEncodesIff(p, number, order);
  }

  lemma SharedTakenOver(m: Message, dest: Address, n: Name)
    requires IsShared(n) && n in m
    ensures Get(ProjectSubmitSm(m, dest), n) == Some(m[n])
  {
    hide SharedIndex, TlvOf;
    SharedIsField(n);
  }

  lemma {:induction false} FanOutNeverPanics(cfg: Config, s: Server, a: Answers, sequence: u32, m: Message,
                                             mode: EsmClasses.MessageMode, dests: seq<Address>)
    requires MultiReady(m) && Enumerates(a.order)
    ensures FanOut(cfg, s, a, sequence, m, mode, dests).Fanout?
    decreases |dests|
  {
    hide MultiReady, Enumerates, ProjectSubmitSm, AsDeliverSm, FromJson, StoreAndForward, SendDatagram;
    hide CreateJsonResponse;
    if dests != [] {
      var s1 := s.(numbers := s.numbers + 1);
      ProjectedForwards(m, dests[0], Number(NumberOf(s.numbers)), NumberOf(s1.numbers), a.order);
      var p := ProjectSubmitSm(m, dests[0])[SequenceNumber := Number(NumberOf(s.numbers))];
      StoringReplies(cfg, s1, a, SubmitSm, sequence, a.messageId, p);
      assert SendDatagram(s1, SubmitMulti, sequence, a.messageId, p).Verdict?
        by { DatagramReplies(s1, sequence, a.messageId, p); }
      FanOutNeverPanics(cfg, DispatchOne(cfg, s, a, sequence, m, mode, dests[0]).server, a, sequence, m, mode,
          dests[1..]);
    }
  }

  lemma DatagramReplies(s: Server, sequence: u32, id: bytes, m: Message)
    ensures SendDatagram(s, SubmitMulti, sequence, id, m).Verdict?
  {}

  // ---- the answer -------------------------------------------------------------------------

  /** What the handling of a received submit_multi comes to. */
  function MultiOutcome(cfg: Config, s: Server, a: Answers, m: Message): (r: Fanout)
    requires WithPredefined(cfg, m).Some?
  {
    var p := WithServiceType(cfg, WithPredefined(cfg, m).value);
    FanOut(cfg, s, a, SequenceOf(m), p, ModeFor(cfg, m), Destinations(p, cfg.lists))
  }

  lemma MultiResponseCommand()
    ensures ResponseCommand(SubmitMulti) == Some(SubmitMultiResp)
  {
    hide FromU32;
    NumbersAreUnique(SubmitMultiResp, ResponseId(AsU32(SubmitMulti)));
  }

  lemma NoHeaderInMulti(id: bytes, failed: seq<Address>)
    ensures NoHeader(MultiResponseFields(id, failed))
  {}

  /** Preparing a submit_multi changes neither its destinations nor its times. */
  lemma PreparedMultiKeeps(cfg: Config, m: Message)
    requires ExtractCommandId(m) == Some(SubmitMulti)
    ensures WithPredefined(cfg, m).Some?
    ensures var p := WithServiceType(cfg, WithPredefined(cfg, m).value);
            && ExtractCommandId(p) == Some(SubmitMulti) && Get(p, DestAddresses) == Get(m, DestAddresses)
            && Get(p, ScheduleDeliveryTime) == Get(m, ScheduleDeliveryTime)
               && Get(p, ValidityPeriod) == Get(m, ValidityPeriod)
  {
    hide StringOrEmpty, NumberOr0, FromStr, FromU32;
  }

  lemma SameAddressesSameDestinations(m: Message, p: Message, lists: map<bytes, seq<Address>>)
    requires ExtractCommandId(m) == Some(SubmitMulti) == ExtractCommandId(p)
    requires Get(p, DestAddresses) == Get(m, DestAddresses)
    ensures Destinations(p, lists) == Destinations(m, lists)
  {
    hide ExtractCommandId, ResolveAll;
  }

  lemma {:induction false} SameTimesSameUnreached(cfg: Config, a: Answers, m: Message, p: Message,
                                                  mode: EsmClasses.MessageMode, dests: seq<Address>, numbers: nat)
    requires Get(p, ScheduleDeliveryTime) == Get(m, ScheduleDeliveryTime)
            && Get(p, ValidityPeriod) == Get(m, ValidityPeriod)
    ensures Unreached(cfg, a, p, mode, dests, numbers) == Unreached(cfg, a, m, mode, dests, numbers)
    decreases |dests|
  {
    hide Transactions.StatusOf;
    if dests != [] {
      assert TimesAllow(cfg, a, p - {QosTimeToLive}) == TimesAllow(cfg, a, m - {QosTimeToLive});
      SameTimesSameUnreached(cfg, a, m, p, mode, dests[1..], numbers + Taken(a, mode, dests[0]));
    }
  }

  /** Those a message's own fields, the configuration and the acknowledgements say are not reached. */
  function MultiFailures(cfg: Config, a: Answers, m: Message, numbers: nat): (r: seq<Address>)
  {
    Unreached(cfg, a, m, ModeFor(cfg, m), Destinations(m, cfg.lists), numbers)
  }

  lemma OutcomeFails(cfg: Config, s: Server, a: Answers, m: Message)
    requires MultiReady(m) && ExtractCommandId(m) == Some(SubmitMulti) && Enumerates(a.order)
    ensures WithPredefined(cfg, m).Some? && MultiOutcome(cfg, s, a, m).Fanout?
    ensures MultiOutcome(cfg, s, a, m).failed == MultiFailures(cfg, a, m, s.numbers)
    ensures |MultiFailures(cfg, a, m, s.numbers)| <= |Destinations(m, cfg.lists)|
  {
    hide FanOut, Enumerates, ExtractCommandId, SequenceOf, WithPredefined, WithServiceType, ModeFor, Destinations;
    hide MultiReady, Unreached, IsSubsequence;
    PreparedMultiReady(cfg, m);
    PreparedMultiKeeps(cfg, m);
    var p, mode := WithServiceType(cfg, WithPredefined(cfg, m).value), ModeFor(cfg, m);
    SameAddressesSameDestinations(m, p, cfg.lists);
    var dests := Destinations(m, cfg.lists);
    FanOutNeverPanics(cfg, s, a, SequenceOf(m), p, mode, dests);
    FanOutFails(cfg, s, a, SequenceOf(m), p, mode, dests);
    FanOutConserves(cfg, s, a, SequenceOf(m), p, mode, dests);
    SameTimesSameUnreached(cfg, a, m, p, mode, dests, s.numbers);
    SubsequenceIsShorter(MultiFailures(cfg, a, m, s.numbers), dests);
  }

  lemma {:induction false} SubsequenceIsShorter<T>(a: seq<T>, b: seq<T>)
    requires IsSubsequence(a, b)
    ensures |a| <= |b|
    decreases |b|
  {
    if a != [] {
      if a[0] == b[0] && IsSubsequence(a[1..], b[1..]) {
        SubsequenceIsShorter(a[1..], b[1..]);
      } else {
        SubsequenceIsShorter(a, b[1..]);
      }
    }
  }

  /**
   A received submit_multi never panics the connection before the answer: all destinations are
   dispatched, exactly those not reached fail, and the answer, under the request's number, has status 0
   exactly when there is none. It can be encoded exactly for at most 255 failures.
   */
  lemma MultiAnswer(cfg: Config, s: Server, a: Answers, b: bytes)
    requires DecodePdu(b).Some? && CommandOf(b) == SubmitMulti && Enumerates(a.order)
    ensures var m, h := DecodePdu(b).value, Handle(cfg, s, a, DecodePdu(b).value);
            var failed := MultiFailures(cfg, a, m, s.numbers);
            && |b| >= 16 && WithPredefined(cfg, m).Some? && MultiOutcome(cfg, s, a, m).Fanout?
            && MultiOutcome(cfg, s, a, m).failed == failed && |failed| <= |Destinations(m, cfg.lists)|
            && h.Sends? && h.onFailure.Fatal? && h.server == MultiOutcome(cfg, s, a, m).server
            && h.data == Encoded(MultiResponse(a, OfBe32(b[12..16]), failed), a.order)
            && (if |failed| <= 255
                then AnswerTo(SubmitMulti, OfBe32(b[12..16]),
                              if failed == [] then ESME_ROK else ESME_RUNKNOWNERR, h.data)
                else h.data == [])
  {
    hide DecodePdu, CommandOf, FanOut, CreateJsonResponse, Encoded, Enumerates, ExtractCommandId, SequenceOf;
    hide WithPredefined, WithServiceType, ModeFor, Destinations, MultiReady, MultiResponseFields, Suffices, AnswerTo;
    hide ResponseCommand, NoHeader, MultiFailures;
    var m := DecodePdu(b).value;
    DecodedCommand(b);
    DecodedMultiReady(b);
    OutcomeFails(cfg, s, a, m);
    var failed := MultiFailures(cfg, a, m, s.numbers);
    assert Handle(cfg, s, a, m) == HandleSubmitMulti(cfg, s, a, m);
    MultiResponseCommand();
    MultiResponseSufficesIff(a.messageId, failed);
    NoHeaderInMulti(a.messageId, failed);
    ResponseAnswers(SubmitMulti, SequenceOf(m), if failed == [] then ESME_ROK else ESME_RUNKNOWNERR,
                    MultiResponseFields(a.messageId, failed), a.order);
  }

  function MultiResponse(a: Answers, sequence: u32, failed: seq<Address>): (m: Message)
  {
    CreateJsonResponse(SubmitMulti, sequence, if failed == [] then ESME_ROK else ESME_RUNKNOWNERR,
                       MultiResponseFields(a.messageId, failed))
  }

  // ---- what the sender reads --------------------------------------------------------------

  /** The addresses as a response can carry them: at most 21 octets. */
  function Shortened(failed: seq<Address>): (r: seq<Address>)
    ensures |r| == |failed|
  {
    if failed == [] then [] else [failed[0].(address := Truncate(failed[0].address, 21))] + Shortened(failed[1..])
  }

  predicate Printable(a: Address)
  {
    0 !in Truncate(a.address, 21)
  }

  /**
   A decoded list of failures: for each address, in order, its type of number, its numbering plan, at most
   21 octets of it and the status 0xFF, and nothing else.
   */
  predicate ListsExactly(v: Option<Value>, failed: seq<Address>)
  {
    && v.Some? && v.value.Array? && |v.value.items| == |failed|
    && forall k :: 0 <= k < |failed| ==>
         v.value.items[k] == Object(map[
           DestAddrTon := Number(failed[k].ton),
           DestAddrNpi := Number(failed[k].npi),
           DestinationAddr := String(if |failed[k].address| > 21 then failed[k].address[..21] else failed[k].address),
           ErrorStatusCode := Number(0xFF)])
  }

  lemma {:induction false} FailureAt(failed: seq<Address>, k: nat)
    requires k < |failed|
    ensures |Failures(Shortened(failed))| == |failed|
    ensures Failures(Shortened(failed))[k] == Failure(failed[k].(address := Truncate(failed[k].address, 21)))
  {
    hide Failure, Truncate;
    if k > 0 { FailureAt(failed[1..], k - 1); }
  }

  lemma FailuresList(failed: seq<Address>)
    ensures ListsExactly(Some(Array(Failures(Shortened(failed)))), failed)
  {
    hide Failures, Shortened;
    forall k | 0 <= k < |failed| { FailureAt(failed, k); }
  }

  lemma FailureSurvives(a: Address)
    requires Printable(a)
    ensures Encode(UNSUCCESS_SME, Failure(a)).Some? && Good(UNSUCCESS_SME, Failure(a))
    ensures Normal(UNSUCCESS_SME, Failure(a)) == Failure(a.(address := Truncate(a.address, 21)))
  {
    hide Encode, EncodeMembers, Good, Normal, NormalMembers, GoodMembers, Truncate, FailureFields, Printable;
    var ms, m := UNSUCCESS_SME.members, FailureFields(a);
    forall x <- UNSUCCESS_SME.members { FailurePartSurvives(a, x); }
    EncodableMembers(ms, m);
    CompositeParts(ms, m);
    GoodMembersAre(ms, m);
    NormalFailure(a);
  }

  lemma NormalFailure(a: Address)
    requires EncodeMembers(UNSUCCESS_SME.members, FailureFields(a)).Some?
    ensures Object(NormalMembers(UNSUCCESS_SME.members, FailureFields(a), map[]))
            == Failure(a.(address := Truncate(a.address, 21)))
  {
    hide Encode, EncodeMembers, Good, Normal, NormalMembers, Truncate, FailureFields, Printable;
    var ms, m, short := UNSUCCESS_SME.members, FailureFields(a), FailureFields(a.(address := Truncate(a.address, 21)));
    forall x <- UNSUCCESS_SME.members { FailurePartSurvives(a, x); }
    DistinctParts();
    NormalKeys(ms, m, map[]);
    var r := NormalMembers(ms, m, map[]);
    forall n ensures Get(r, n) == Get(short, n) {
      FailureNames(a, n);
      PartNames(n);
      if x :| x in ms && x.name == n { NormalAt(ms, m, map[], x); }
    }
    SameMessage(r, short);
  }

  lemma DistinctParts()
    ensures var ms := UNSUCCESS_SME.members; forall i, j :: 0 <= i < j < |ms| ==> ms[i].name != ms[j].name
  {}

  predicate PartName(n: Name)
  {
    n == DestAddrTon || n == DestAddrNpi || n == DestinationAddr || n == ErrorStatusCode
  }

  lemma PartNames(n: Name)
    ensures PartName(n) <==> exists x <- UNSUCCESS_SME.members :: x.name == n
  {
    var ms := UNSUCCESS_SME.members;
    if PartName(n) {
      var i := match n case DestAddrTon => 0 case DestAddrNpi => 1 case DestinationAddr => 2 case _ => 3;
      assert ms[i] in ms && ms[i].name == n;
    }
  }

  /** The parts of a failure, and of the same with a shortened address. */
  lemma FailureNames(a: Address, n: Name)
    ensures var short := FailureFields(a.(address := Truncate(a.address, 21)));
            && (n in short <==> PartName(n)) && (n in FailureFields(a) <==> PartName(n))
            && (n in short ==> short[n] == if n == DestinationAddr then String(Truncate(a.address, 21))
               else FailureFields(a)[n])
  {
    hide Truncate;
  }

  lemma CompositeParts(ms: seq<Member>, m: Message)
    requires EncodeMembers(ms, m).Some?
    ensures Encode(Composite(ms), Object(m)).Some?
    ensures Good(Composite(ms), Object(m)) == GoodMembers(ms, m)
    ensures Normal(Composite(ms), Object(m)) == Object(NormalMembers(ms, m, map[]))
  {}

  lemma FailurePartSurvives(a: Address, x: Member)
    requires x in UNSUCCESS_SME.members
    ensures x.name in FailureFields(a) && Encode(x.codec, FailureFields(a)[x.name]).Some?
    ensures Printable(a) ==> Good(x.codec, FailureFields(a)[x.name])
    ensures Normal(x.codec, FailureFields(a)[x.name])
            == if x.name == DestinationAddr then String(Truncate(a.address, 21)) else FailureFields(a)[x.name]
  {
    hide Truncate;
  }

  lemma {:induction false} FailuresSurvive(failed: seq<Address>)
    requires forall a <- failed :: Printable(a)
    ensures EncodeItems(UNSUCCESS_SME, Failures(failed)).Some? && GoodItems(UNSUCCESS_SME, Failures(failed))
    ensures NormalItems(UNSUCCESS_SME, Failures(failed)) == Failures(Shortened(failed))
  {
    hide Encode, Good, Normal, Failure, Printable, Truncate;
    if failed != [] {
      FailureSurvives(failed[0]);
      FailuresSurvive(failed[1..]);
    }
  }

  lemma MessageIdSurvives(id: bytes)
    requires 0 !in Truncate(id, 65)
    ensures Encode(MESSAGE_ID.codec, String(id)).Some? && Good(MESSAGE_ID.codec, String(id))
    ensures Normal(MESSAGE_ID.codec, String(id)) == String(Truncate(id, 65))
  {
    hide Truncate;
  }

  lemma FailureListSurvives(failed: seq<Address>)
    requires |failed| <= 255 && forall a <- failed :: Printable(a)
    ensures var c, v := UNSUCCESS_SMES.codec, Array(Failures(failed));
            Encode(c, v).Some? && Good(c, v) && Normal(c, v) == Array(Failures(Shortened(failed)))
  {
    hide Failures, EncodeItems, GoodItems, NormalItems, Shortened, Printable;
    FailuresSurvive(failed);
  }

  lemma MultiMembers()
    ensures forall x <- MembersOf(SubmitMultiResp) :: x == MESSAGE_ID || x == UNSUCCESS_SMES
    ensures UNSUCCESS_SMES in MembersOf(SubmitMultiResp) && MESSAGE_ID in MembersOf(SubmitMultiResp)
    ensures TlvOf(MessageId).None? && TlvOf(UnsuccessSmes).None?
  {
    assert MembersOf(SubmitMultiResp) == [MESSAGE_ID, UNSUCCESS_SMES];
  }

  lemma CutId(id: bytes)
    ensures Truncate(id, 65) == if |id| > 65 then id[..65] else id
  {}

  /** The fields of the answer survive the wire; the list of failures with shortened addresses. */
  lemma MultiFieldsSurvive(m: Message, id: bytes, failed: seq<Address>)
    requires |failed| <= 255 && 0 !in Truncate(id, 65) && forall a <- failed :: Printable(a)
    requires forall n :: !HeaderName(n) ==> Get(m, n) == Get(MultiResponseFields(id, failed), n)
    ensures forall x <- MembersOf(SubmitMultiResp) ::
              x.name in m && Encode(x.codec, m[x.name]).Some? && Good(x.codec, m[x.name])
    ensures Get(m, UnsuccessSmes) == Some(Array(Failures(failed))) && Get(m, MessageId) == Some(String(id))
    ensures forall n <- m :: TlvOf(n).None?
  {
    hide Failures, Truncate, Printable, MembersOf, Encode, Good, Normal, HeaderName, TlvOf;
    MultiMembers();
    HeaderNames(MessageId);
    HeaderNames(UnsuccessSmes);
    assert Get(m, MessageId) == Some(String(id));
    MessageIdSurvives(id);
    FailureListSurvives(failed);
    forall n <- m ensures TlvOf(n).None? {
      if HeaderName(n) {
        if TlvOf(n).Some? { TlvsAreSound(n); }
      } else {
        assert Get(m, n) == Get(MultiResponseFields(id, failed), n);
      }
    }
  }

  /** The answer to a submit_multi with at most 255 failures decodes to its id and exactly those failures, in order. */
  lemma FailuresReadBack(sequence: u32, status: u32, id: bytes, failed: seq<Address>, order: seq<Name>)
    requires Enumerates(order) && |failed| <= 255 && 0 !in Truncate(id, 65) && forall a <- failed :: Printable(a)
    ensures var r := CreateJsonResponse(SubmitMulti, sequence, status, MultiResponseFields(id, failed));
            var d := DecodePdu(Encoded(r, order));
            && d.Some? && ListsExactly(Get(d.value, UnsuccessSmes), failed)
            && Get(d.value, MessageId) == Some(String(if |id| > 65 then id[..65] else id))
  {
    hide CreateJsonResponse, MultiResponseFields, Suffices, EncodePdu, DecodePdu, FromJson, Truncate, Printable;
    hide Failures, Shortened, ResponseCommand, NoHeader, Enumerates, HeaderName, ListsExactly;
    FailuresList(failed);
    CutId(id);
    var f := MultiResponseFields(id, failed);
    var m := CreateJsonResponse(SubmitMulti, sequence, status, f);
    MultiResponseCommand();
    MultiResponseSufficesIff(id, failed);
    NoHeaderInMulti(id, failed);
    ResponseFields(SubmitMulti, sequence, status, f);
    ResponseEncodesIff(SubmitMulti, sequence, status, f, order);
    MultiReadBack(m, id, failed, order);
  }

  lemma MultiReadBack(m: Message, id: bytes, failed: seq<Address>, order: seq<Name>)
    requires Enumerates(order) && |failed| <= 255 && 0 !in Truncate(id, 65) && forall a <- failed :: Printable(a)
    requires EncodePdu(SubmitMultiResp, m, order).Some? && NumericHeaders(m)
    requires forall n :: !HeaderName(n) ==> Get(m, n) == Get(MultiResponseFields(id, failed), n)
    ensures var d := DecodePdu(EncodePdu(SubmitMultiResp, m, order).value);
            && d.Some? && Get(d.value, UnsuccessSmes) == Some(Array(Failures(Shortened(failed))))
            && Get(d.value, MessageId) == Some(String(Truncate(id, 65)))
  {
    hide FieldsOf, MembersOf, TlvOf, HeaderName, Encode, Good, Normal, EncodeMembers, GoodMembers;
    hide NormalMembers, WithDefaults, MultiResponseFields, EncodePdu, DecodePdu, Truncate, Printable, Failures;
    hide Shortened, Enumerates, NormalPdu;
    ResponsesHaveNoDefaults(SubmitMultiResp, m);
    MultiFieldsSurvive(m, id, failed);
    FailureListSurvives(failed);
    MultiMembers();
    MembersAreSound(SubmitMultiResp);
    GoodMembersAre(MembersOf(SubmitMultiResp), m);
    RoundTrip(SubmitMultiResp, m, order);
    NormalValues(SubmitMultiResp, m, UNSUCCESS_SMES);
    NormalAt(MembersOf(SubmitMultiResp), m, HeaderOf(SubmitMultiResp, m), UNSUCCESS_SMES);
    NormalValues(SubmitMultiResp, m, MESSAGE_ID);
    NormalAt(MembersOf(SubmitMultiResp), m, HeaderOf(SubmitMultiResp, m), MESSAGE_ID);
    MessageIdSurvives(id);
  }

  lemma {:induction false} ExpandIsPrintable(ts: seq<Target>, lists: map<bytes, seq<Address>>)
    requires forall t <- ts :: t.Direct? ==> 0 !in t.address.address
    requires forall n <- lists, x <- lists[n] :: Printable(x)
    ensures forall x <- Expand(ts, lists) :: Printable(x)
  {
    if ts != [] { ExpandIsPrintable(ts[1..], lists); }
  }

  lemma {:induction false} UnreachedAreDestinations(cfg: Config, a: Answers, m: Message,
                                                    mode: EsmClasses.MessageMode, dests: seq<Address>, numbers: nat)
    ensures forall x <- Unreached(cfg, a, m, mode, dests, numbers) :: x in dests
    decreases |dests|
  {
    hide NotReached, Taken;
    if dests != [] { UnreachedAreDestinations(cfg, a, m, mode, dests[1..], numbers + Taken(a, mode, dests[0])); }
  }

  /**
   What the sender of a submit_multi reads: the octets written for it decode to exactly the destinations
   not reached, in order.
   */
  lemma SenderReadsFailures(cfg: Config, s: Server, a: Answers, b: bytes)
    requires DecodePdu(b).Some? && CommandOf(b) == SubmitMulti && Enumerates(a.order)
    requires 0 !in Truncate(a.messageId, 65) && forall n <- cfg.lists, x <- cfg.lists[n] :: Printable(x)
    requires |MultiFailures(cfg, a, DecodePdu(b).value, s.numbers)| <= 255
    ensures var m := DecodePdu(b).value;
            var failed, h := MultiFailures(cfg, a, m, s.numbers), Handle(cfg, s, a, m);
            var id := a.messageId;
            && h.Sends? && DecodePdu(h.data).Some?
            && ListsExactly(Get(DecodePdu(h.data).value, UnsuccessSmes), failed)
            && Get(DecodePdu(h.data).value, MessageId) == Some(String(if |id| > 65 then id[..65] else id))
  {
    hide DecodePdu, CommandOf, Encoded, Enumerates, Handle, MultiResponseFields, Printable, Truncate, AnswerTo;
    hide Destinations, Unreached, Expand, ModeFor, ListsExactly;
    var m := DecodePdu(b).value;
    var failed := MultiFailures(cfg, a, m, s.numbers);
    MultiAnswer(cfg, s, a, b);
    var ts := DestinationsOfDecoded(b, cfg.lists);
    ExpandIsPrintable(ts, cfg.lists);
    UnreachedAreDestinations(cfg, a, m, ModeFor(cfg, m), Destinations(m, cfg.lists), s.numbers);
    FailuresReadBack(OfBe32(b[12..16]), if failed == [] then ESME_ROK else ESME_RUNKNOWNERR,
                     a.messageId, failed, a.order);
  }

  // ---- consequences of decoding -----------------------------------------------------------

  lemma TextMember()
    ensures SHORT_MESSAGE in MembersOf(SubmitSm) && TlvOf(ShortMessage).None?
  {
    hide MembersOf;
    FieldIsMember(SubmitSm, SmFields(), 16);
  }

  lemma DecodedTextIsNotEmpty(at: bytes)
    requires Decode(SHORT_MESSAGE.codec, at).Got?
    ensures Decode(SHORT_MESSAGE.codec, at).v.String? && Decode(SHORT_MESSAGE.codec, at).v.s != []
  {}

  /** A submit_sm from the wire has text of its own, so a predefined text never replaces it. */
  lemma PredefinedNeverUsed(cfg: Config, s: Server, b: bytes)
    requires DecodePdu(b).Some? && CommandOf(b) == SubmitSm
    ensures var m := DecodePdu(b).value;
            Prepared(cfg, s, m).Some? && Get(Prepared(cfg, s, m).value, ShortMessage) == Get(m, ShortMessage)
  {
    hide DecodePdu, CommandOf, MembersOf, TlvOf, ExtractCommandId, NumberOr0, Decode, SubmitReady, NoNullTlvs;
    TextMember();
    var at := DecodedField(b, SHORT_MESSAGE);
    DecodedTextIsNotEmpty(at);
    DecodedIsPreparable(cfg, s, b);
  }

  predicate IsNumberName(k: Name)
  {
    k == SourceAddrTon || k == SourceAddrNpi || k == DestAddrTon || k == DestAddrNpi
  }

  lemma NumberPlaces(k: Name) returns (i: nat)
    requires IsNumberName(k)
    ensures i < |SmFields()| && SmFields()[i].member == Member(k, U8)
    ensures i + 1 < |CancelFields()| && CancelFields()[i + 1].member == Member(k, U8)
  {
    if k == SourceAddrTon { i := 1; }
    else if k == SourceAddrNpi { i := 2; }
    else if k == DestAddrTon { i := 4; }
    else { i := 5; }
  }

  lemma NumberMembers(c: CommandId, k: Name)
    requires (c == SubmitSm || c == CancelSm) && IsNumberName(k)
    ensures Member(k, U8) in MembersOf(c)
  {
    hide SmFields, CancelFields, MembersOf;
    var i := NumberPlaces(k);
    if c == SubmitSm {
      FieldIsMember(SubmitSm, SmFields(), i);
    } else {
      FieldIsMember(CancelSm, CancelFields(), i + 1);
    }
  }

  lemma DecodedNumber(b: bytes, k: Name)
    requires DecodePdu(b).Some? && (CommandOf(b) == SubmitSm || CommandOf(b) == CancelSm)
    requires IsNumberName(k)
    ensures NumberOr0(DecodePdu(b).value, k) < 256
  {
    hide DecodePdu, CommandOf, MembersOf;
    NumberMembers(CommandOf(b), k);
    var at := DecodedField(b, Member(k, U8));
  }

  /** Every submit_sm and cancel_sm from the wire is in the range where both stores cancel alike. */
  lemma DecodedNumbersAreOctets(b: bytes)
    requires DecodePdu(b).Some? && (CommandOf(b) == SubmitSm || CommandOf(b) == CancelSm)
    ensures SqlCancel.Octets(DecodePdu(b).value)
  {
    hide DecodePdu, CommandOf, NumberOr0;
    DecodedNumber(b, SourceAddrTon);
    DecodedNumber(b, SourceAddrNpi);
    DecodedNumber(b, DestAddrTon);
    DecodedNumber(b, DestAddrNpi);
  }

  // ---- one address named twice ------------------------------------------------------------

  /** Accepted for storing: one more entry under the id, for the destination. */
  lemma StoredUnder(cfg: Config, s: Server, a: Answers, sequence: u32, m: Message, dest: Address)
    requires !a.own(dest.address)
    ensures var v := DispatchOne(cfg, s, a, sequence, m, EsmClasses.StoreAndForward, dest);
            v.Verdict? && v.accepted ==>
              && a.messageId in v.server.store.messages
              && (var was, now := Storage.ListOf(s.store.messages, a.messageId), v.server.store.messages[a.messageId];
                  && |now| == |was| + 1 && now[..|was|] == was && now[|was|].user == dest.address
                  && AddressOf(now[|was|].message) == dest)
  {
    hide ProjectSubmitSm, TimesRejection, ScheduleTime, ValidityTime, CreateJsonResponse, MessageIdField;
    hide SaveRefusal, AddressOf, RejectedWith;
    ProjectedAddress(m, dest, Number(NumberOf(s.numbers)), 0);
    var submit := ProjectSubmitSm(m, dest)[SequenceNumber := Number(NumberOf(s.numbers))];
    AddressText(submit);
    var r := TimesRejection(cfg, a, submit);
    if r.Some? { RejectionIs(s.(numbers := s.numbers + 1), submit, sequence, r.value.status, r.value.text); }
    RejectionIs(s.(numbers := s.numbers + 1), submit, sequence, ESME_RUNKNOWNERR, "fail-to-store");
  }

  /** Two destinations with one text address, both stored: two entries of one user under one id. */
  lemma RepeatedAddress(cfg: Config, s: Server, a: Answers, sequence: u32, m: Message, d1: Address, d2: Address)
    requires !a.own(d1.address) && d1.address == d2.address
    requires var r := FanOut(cfg, s, a, sequence, m, EsmClasses.StoreAndForward, [d1, d2]); r.Fanout? && r.failed == []
    ensures var ms := FanOut(cfg, s, a, sequence, m, EsmClasses.StoreAndForward, [d1, d2]).server.store.messages;
            && a.messageId in ms && !Unique(ms)
            && exists e, x :: e in ms[a.messageId] && x in ms[a.messageId] && e.user == d1.address == x.user
                              && AddressOf(e.message) == d1 && AddressOf(x.message) == d2
  {
    hide DispatchOne, AddressOf;
    var mode := EsmClasses.StoreAndForward;
    var v := DispatchOne(cfg, s, a, sequence, m, mode, d1);
    var w := DispatchOne(cfg, v.server, a, sequence, m, mode, d2);
    var none: seq<Address> := [];
    assert [d1, d2][1..] == [d2] && [d2][1..] == none;
    assert FanOut(cfg, w.server, a, sequence, m, mode, none) == Fanout([], w.server);
    assert FanOut(cfg, v.server, a, sequence, m, mode, [d2]).server == w.server && w.accepted && v.accepted;
    StoredUnder(cfg, s, a, sequence, m, d1);
    StoredUnder(cfg, v.server, a, sequence, m, d2);
    var was := Storage.ListOf(s.store.messages, a.messageId);
    var list1, list2 := v.server.store.messages[a.messageId], w.server.store.messages[a.messageId];
    assert list2[|was|] == list2[..|list1|][|was|] == list1[|was|];
    assert list2[|was|] in list2 && list2[|list1|] in list2;
  }

  /** A cancel_sm that gives a destination's type of number and nothing else. */
  predicate GivesTonOnly(c: Message, ton: byte)
  {
    && StringOrEmpty(c, MessageId) == [] && StringOrEmpty(c, ServiceType) == []
    && StringOrEmpty(c, SourceAddr) == [] && StringOrEmpty(c, DestinationAddr) == []
    && Storage.Octet(c, SourceAddrTon) == 0 && Storage.Octet(c, SourceAddrNpi) == 0
    && Storage.Octet(c, DestAddrNpi) == 0 && Storage.Octet(c, DestAddrTon) == ton != 0
  }

  lemma TonDecides(c: Message, ton: byte, i: Id, e: Entry)
    requires GivesTonOnly(c, ton)
    ensures CancelMatches(c, i, e) <==> AddressOf(e.message).ton == ton
  {
    hide StringOrEmpty, NumberOr0;
  }

  /**
   A submit_multi names one text address with two types of number and both messages are stored; a
   cancel_sm for one of the types then loses the other message from the user index.
   */
  lemma RepeatedAddressLosesIndex(cfg: Config, s: Server, a: Answers, sequence: u32, m: Message, d1: Address,
                                  d2: Address, c: Message)
    requires !a.own(d1.address) && d1.address == d2.address && d1.ton != d2.ton && GivesTonOnly(c, d1.ton)
    requires var r := FanOut(cfg, s, a, sequence, m, EsmClasses.StoreAndForward, [d1, d2]); r.Fanout? && r.failed == []
    ensures var left := Cancel(FanOut(cfg, s, a, sequence, m, EsmClasses.StoreAndForward, [d1, d2]).server.store, c);
            (d1.address, a.messageId) in Pairs(left.messages) && (d1.address, a.messageId) !in Indexed(left.users)
  {
    hide FanOut, AddressOf, GivesTonOnly, CancelMatches, Cancel, Pairs, Indexed, Unique;
    RepeatedAddress(cfg, s, a, sequence, m, d1, d2);
    var store := FanOut(cfg, s, a, sequence, m, EsmClasses.StoreAndForward, [d1, d2]).server.store;
    var i := a.messageId;
    var e, x :| e in store.messages[i] && x in store.messages[i] && e.user == d1.address == x.user
                && AddressOf(e.message) == d1 && AddressOf(x.message) == d2;
    TonDecides(c, d1.ton, i, e);
    TonDecides(c, d1.ton, i, x);
    SeparatedPairIsLost(store, c, i, e, x);
  }

  /** The same destination named twice: no cancel_sm can tell the two messages apart. */
  lemma SameDestinationStaysTogether(m: Message, dest: Address, c: Message, i: Id, e: Entry, x: Entry, n: u32, k: u32)
    requires e.message == ProjectSubmitSm(m, dest)[SequenceNumber := Number(n)]
    requires x.message == ProjectSubmitSm(m, dest)[SequenceNumber := Number(k)]
    ensures CancelMatches(c, i, e) <==> CancelMatches(c, i, x)
  {
    hide ProjectSubmitSm;
  }

  lemma AddressText(m: Message)
    ensures AddressOf(m).address == StringOrEmpty(m, DestinationAddr)
  {}

  lemma RejectionIs(s: Server, m: Message, sequence: u32, status: u32, text: string)
    ensures !RejectedWith(s, m, SubmitSm, sequence, status, text).accepted
  {
    hide CreateJsonResponse, MessageIdField, Ascii;
  }
}
