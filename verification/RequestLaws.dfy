/** What every other received request does to the server, and the octets of its answer. */
module RequestLaws {
  import opened Bytes
  import opened Values
  import opened Codec
  import opened CommandIds
  import opened Tables
  import opened Pdu
  import opened PduLaws
  import opened WireLaws
  import opened SmppMessage
  import opened Forwarding
  import opened Responses
  import opened Storage
  import opened StorageLaws
  import opened Correlation
  import opened StatusCodes
  import opened Server
  import opened ServerLaws
  import opened LayoutLaws

  // ---- answers that are a header ----------------------------------------------------------

  /** The identifier of the answer to a request whose answer has no fields. */
  function HeaderAnswerId(c: CommandId): (id: Option<u32>)
  {
    match c
    case Unbind => Some(0x8000_0006)
    case ReplaceSm => Some(0x8000_0007)
    case CancelSm => Some(0x8000_0008)
    case EnquireLink => Some(0x8000_0015)
    case CancelBroadcastSm => Some(0x8000_0113)
    case _ => None
  }

  lemma HeaderAnswerIs(c: CommandId, sequence: u32, status: u32, order: seq<Name>)
    requires HeaderAnswerId(c).Some? && Enumerates(order)
    ensures Encoded(CreateJsonResponse(c, sequence, status, map[]), order)
         == Packet(HeaderAnswerId(c).value, status, sequence, [])
  {
    hide CreateJsonResponse, Enumerates, FieldsOf, ResponseCommand, Encoded;
    FixedResponseCommand(c);
    NoFields();
    HeaderAnswer(c, sequence, status, order);
  }

  // ---- cancel_sm --------------------------------------------------------------------------

  /** A criterion that is given, that is, not empty, is met. */
  predicate TextMet(given: bytes, stored: bytes)
  {
    given == [] || given == stored
  }

  /** A number that is given, that is, not 0 in its low octet, is met. */
  predicate NumberMet(given: nat, stored: nat)
  {
    given % 256 == 0 || given % 256 == stored % 256
  }

  /** Each of the eight criteria of a cancel_sm that is given is met by a message stored under an id. */
  predicate Cancelled(c: Message, i: Id, m: Message)
  {
    && TextMet(StringOrEmpty(c, MessageId), i)
    && TextMet(StringOrEmpty(c, ServiceType), StringOrEmpty(m, ServiceType))
    && TextMet(StringOrEmpty(c, SourceAddr), StringOrEmpty(m, SourceAddr))
    && TextMet(StringOrEmpty(c, DestinationAddr), StringOrEmpty(m, DestinationAddr))
    && NumberMet(NumberOr0(c, SourceAddrTon), NumberOr0(m, SourceAddrTon))
    && NumberMet(NumberOr0(c, SourceAddrNpi), NumberOr0(m, SourceAddrNpi))
    && NumberMet(NumberOr0(c, DestAddrTon), NumberOr0(m, DestAddrTon))
    && NumberMet(NumberOr0(c, DestAddrNpi), NumberOr0(m, DestAddrNpi))
  }

  lemma CancelledIff(c: Message, i: Id, e: Entry)
    ensures CancelMatches(c, i, e) <==> Cancelled(c, i, e.message)
  {
    hide NumberOr0, StringOrEmpty;
  }

  /** A cancel_sm takes away every copy of each entry that meets its criteria, and of no other. */
  lemma CancelCounts(s: Store, c: Message, i: Id, e: Entry)
    ensures Count(Cancel(s, c).messages, i, e) == if Cancelled(c, i, e.message) then 0 else Count(s.messages, i, e)
  {
    hide CancelMatches, Cancelled, Unindex, Filter;
    CancelledIff(c, i, e);
    if i in s.messages { FilterCounts(s.messages[i], Not(Matching(c, i)), e); }
  }

  /** And from a user's list exactly the ids under which an entry of the user was taken away. */
  lemma CancelUnlists(s: Store, c: Message, u: User, i: Id)
    ensures Count(Cancel(s, c).users, u, i)
         == if exists e :: Count(s.messages, i, e) > 0 && e.user == u && Cancelled(c, i, e.message)
            then 0 else Count(s.users, u, i)
  {
    hide CancelMatches, Cancelled, Filter;
    var gone := Gone(s.messages, CancelSieve(c));
    forall e: Entry ensures CancelMatches(c, i, e) <==> Cancelled(c, i, e.message) { CancelledIff(c, i, e); }
    assert (u, i) in gone <==> exists e :: Count(s.messages, i, e) > 0 && e.user == u && Cancelled(c, i, e.message) by {
      if i in s.messages {
        forall e: Entry ensures e in s.messages[i] <==> Count(s.messages, i, e) > 0 {}
      }
    }
    if u in s.users { FilterCounts(s.users[u], Listed(u, gone), i); }
  }

  /** Some entry of the store meets the criteria. */
  ghost predicate SomeCancelled(s: Store, c: Message)
  {
    exists i, e :: Count(s.messages, i, e) > 0 && Cancelled(c, i, e.message)
  }

  lemma FoundIff(s: Store, c: Message)
    ensures Gone(s.messages, CancelSieve(c)) != {} <==> SomeCancelled(s, c)
  {
    hide CancelMatches, Cancelled, Filter;
    if p :| p in Gone(s.messages, CancelSieve(c)) {
      var i :| i in s.messages && exists e <- CancelSplit(c, i, s.messages[i]).dropped :: (e.user, i) == p;
      var e :| e in CancelSplit(c, i, s.messages[i]).dropped && (e.user, i) == p;
      CancelledIff(c, i, e);
      assert Count(s.messages, i, e) > 0;
    }
    if i, e :| Count(s.messages, i, e) > 0 && Cancelled(c, i, e.message) {
      CancelledIff(c, i, e);
      assert e in CancelSplit(c, i, s.messages[i]).dropped;
      assert (e.user, i) in Gone(s.messages, CancelSieve(c));
    }
  }

  /**
   A received cancel_sm: exactly the entries that meet its criteria leave the store, with their ids in the
   user index, nothing else changes, and the answer says whether there were any.
   */
  lemma CancelRequest(cfg: Config, s: Server, a: Answers, b: bytes)
    requires DecodePdu(b).Some? && CommandOf(b).CancelSm? && Enumerates(a.order)
    ensures var c, h := DecodePdu(b).value, Handle(cfg, s, a, DecodePdu(b).value);
            && |b| >= 16 && h.Sends? && h.onFailure.EndsBatch?
            && h.data == Packet(0x8000_0008, if SomeCancelled(s.store, c) then 0 else 0x11, OfBe32(b[12..16]), [])
            && h.server.numbers == s.numbers && h.server.log == s.log
            && (forall i, e :: Count(h.server.store.messages, i, e)
                               == if Cancelled(c, i, e.message) then 0 else Count(s.store.messages, i, e))
            && (forall u, i :: Count(h.server.store.users, u, i)
                  == if exists e :: Count(s.store.messages, i, e) > 0 && e.user == u && Cancelled(c, i, e.message)
                     then 0 else Count(s.store.users, u, i))
  {
    hide DecodePdu, CommandOf, Encoded, Enumerates, CreateJsonResponse, Cancel, Cancelled, Count, SomeCancelled, Gone;
    hide ExtractCommandId, SequenceOf, Packet;
    var c := DecodePdu(b).value;
    DecodedCommand(b);
    FoundIff(s.store, c);
    forall i, e { CancelCounts(s.store, c, i, e); }
    forall u, i { CancelUnlists(s.store, c, u, i); }
    HeaderAnswerIs(CancelSm, OfBe32(b[12..16]), if SomeCancelled(s.store, c) then 0 else 0x11, a.order);
  }

  // ---- replace_sm -------------------------------------------------------------------------

  /** A replace_sm is acceptable to a store; see `StorageLaws.ReplaceAcceptedIff`. */
  predicate Acceptable(s: Store, c: Message, t: Times)
  {
    && StringOrEmpty(c, MessageId) != [] && StringOrEmpty(c, MessageId) in s.messages
    && (NumberOr0(c, SmDefaultMsgId) % 256 != 0 || StringOrEmpty(c, ShortMessage) != []
        || StringOrEmpty(c, MessagePayload) != [])
    && (StringOrEmpty(c, ScheduleDeliveryTime) == [] || t.parse(StringOrEmpty(c, ScheduleDeliveryTime)).Some?)
    && (StringOrEmpty(c, ValidityPeriod) == [] || t.parse(StringOrEmpty(c, ValidityPeriod)).Some?)
  }

  /** What a replacement makes of the entries of one id. */
  ghost predicate Replaced(c: Message, t: Times, es: seq<Entry>, es': seq<Entry>)
  {
    |es'| == |es| && forall k :: 0 <= k < |es| ==>
      if SourceAgrees(c, es[k].message) then TakesOver(c, t, es[k], es'[k]) else es'[k] == es[k]
  }

  /**
   A received replace_sm: when it is acceptable, the entries of its id whose source agrees take over what it
   brings, and the answer has status 0; otherwise nothing changes. No other entry changes in either case.
   */
  lemma ReplaceRequest(cfg: Config, s: Server, a: Answers, b: bytes)
    requires DecodePdu(b).Some? && CommandOf(b).ReplaceSm? && Enumerates(a.order)
    ensures var c, h := DecodePdu(b).value, Handle(cfg, s, a, DecodePdu(b).value);
            var ok, id := Acceptable(s.store, c, a.times), StringOrEmpty(c, MessageId);
            && |b| >= 16 && h.Sends? && h.onFailure.EndsBatch?
            && h.data == Packet(0x8000_0007, if ok then 0 else 0x13, OfBe32(b[12..16]), [])
            && h.server.numbers == s.numbers && h.server.log == s.log && h.server.store.users == s.store.users
            && (!ok ==> h.server == s)
            && (ok ==> && h.server.store.messages.Keys == s.store.messages.Keys
                       && Replaced(c, a.times, s.store.messages[id], h.server.store.messages[id])
                       && forall i <- s.store.messages | i != id ::
                            h.server.store.messages[i] == s.store.messages[i])
  {
    hide DecodePdu, CommandOf, Encoded, Enumerates, CreateJsonResponse, ReplaceRefusal, SourceAgrees, TakesOver;
    hide ExtractCommandId, SequenceOf, Packet, StringOrEmpty, NumberOr0, UpdatedAll;
    var c := DecodePdu(b).value;
    DecodedCommand(b);
    ReplaceAcceptedIff(s.store, c, a.times);
    var ok, id := Acceptable(s.store, c, a.times), StringOrEmpty(c, MessageId);
    HeaderAnswerIs(ReplaceSm, OfBe32(b[12..16]), if ok then 0 else 0x13, a.order);
    if ok {
      forall k | 0 <= k < |s.store.messages[id]| { ReplaceTouches(s.store, c, a.times, id, k); }
    }
  }

  // ---- requests that change nothing -------------------------------------------------------

  /** The identifier and status of an answer that nothing decides. */
  function PlainAnswer(c: CommandId): (r: Option<(u32, u32)>)
  {
    match c
    case Unbind => Some((0x8000_0006, 0))
    case EnquireLink => Some((0x8000_0015, 0))
    case CancelBroadcastSm => Some((0x8000_0113, 0x10F))
    case _ => None
  }

  /** unbind, enquire_link and cancel_broadcast_sm change nothing, and the answer is a header. */
  lemma PlainRequest(cfg: Config, s: Server, a: Answers, b: bytes)
    requires DecodePdu(b).Some? && Enumerates(a.order) && PlainAnswer(CommandOf(b)).Some?
    ensures var (id, status) := PlainAnswer(CommandOf(b)).value;
            |b| >= 16 && Handle(cfg, s, a, DecodePdu(b).value)
                         == Sends(Packet(id, status, OfBe32(b[12..16]), []), s, EndsBatch)
  {
    hide DecodePdu, CommandOf, Encoded, Enumerates, CreateJsonResponse, ExtractCommandId, SequenceOf, Packet;
    DecodedCommand(b);
    HeaderAnswerIs(CommandOf(b), OfBe32(b[12..16]), PlainAnswer(CommandOf(b)).value.1, a.order);
  }

  predicate IsBind(c: CommandId)
  {
    c.BindReceiver? || c.BindTransmitter? || c.BindTransceiver?
  }

  function BindAnswerId(c: CommandId): (id: u32)
  {
    match c case BindReceiver => 0x8000_0001 case BindTransmitter => 0x8000_0002 case _ => 0x8000_0009
  }

  lemma BindResponseIs(c: CommandId)
    requires IsBind(c)
    ensures ResponseId(AsU32(c)) == BindAnswerId(c) && ResponseCommand(c).Some?
    ensures FieldsOf(ResponseCommand(c).value) == [Required(SYSTEM_ID)]
    ensures AllFit(FieldsOf(ResponseCommand(c).value), [Text(SystemId, 16)])
  {
    hide FromU32;
    NumbersAreUnique(BindReceiverResp, 0x8000_0001);
    NumbersAreUnique(BindTransmitterResp, 0x8000_0002);
    NumbersAreUnique(BindTransceiverResp, 0x8000_0009);
  }

  lemma VersionTlv(order: seq<Name>, m: Message, version: byte)
    requires Enumerates(order) && Get(m, ScInterfaceVersion) == Some(Number(version))
    requires forall n <- m | TlvOf(n).Some? :: n == ScInterfaceVersion
    ensures Chunks(order, m).Some? && Flatten(Chunks(order, m).value) == [0x02, 0x10, 0, 1, version]
  {
    hide TlvOf, Enumerates, Chunks, Encode;
    OctetTlvs();
    OneTlv(order, m, ScInterfaceVersion, 0x0210, version);
  }

  lemma OctetTlvs()
    ensures TlvOf(ScInterfaceVersion) == Some(Tlv(0x0210, U8))
    ensures TlvOf(MessageState) == Some(Tlv(0x0427, U8))
    ensures TlvOf(SystemId).None? && TlvOf(MessageId).None? && TlvOf(FinalDate).None? && TlvOf(ErrorCode).None?
  {}

  /** A message with one optional field of one octet has five octets of optional part. */
  lemma OneTlv(order: seq<Name>, m: Message, name: Name, tag: u16, v: byte)
    requires Enumerates(order) && Get(m, name) == Some(Number(v)) && TlvOf(name) == Some(Tlv(tag, U8))
    requires forall n <- m | TlvOf(n).Some? :: n == name
    ensures Chunks(order, m).Some?
    ensures Flatten(Chunks(order, m).value) == [tag / 256, tag % 256, 0, 1, v]
  {
    hide TlvOf, Chunks, Encode, Enumerates, Be16, Flatten;
    var before, after := OnlyPlace(order, name);
    OthersSkipped(before, m, name);
    OthersSkipped(after, m, name);
    OneChunk(m, name, tag, v);
    ChunksAppend([name], after, m);
    ChunksAppend(before, [name] + after, m);
    assert before + ([name] + after) == before + [name] + after == order;
    var none: seq<Chunk> := [];
    var chunk := Chunk(name, Tlv(tag, U8), [v]);
    assert none + ([chunk] + none) == [chunk];
    FlattenOne(chunk);
    FiveOctets(chunk);
  }

  lemma FiveOctets(k: Chunk)
    requires |k.value| == 1
    ensures ChunkBytes(k) == [k.tlv.tag / 256, k.tlv.tag % 256, 0, 1, k.value[0]]
  {}

  lemma OnlyPlace(order: seq<Name>, name: Name) returns (before: seq<Name>, after: seq<Name>)
    requires Enumerates(order) && TlvOf(name).Some?
    ensures order == before + [name] + after && name !in before && name !in after
  {
    hide TlvOf;
    assert name in order;
    var k :| 0 <= k < |order| && order[k] == name;
    before, after := SplitAt(order, k);
  }

  lemma SplitAt(order: seq<Name>, k: nat) returns (before: seq<Name>, after: seq<Name>)
    requires k < |order| && forall i, j :: 0 <= i < j < |order| ==> order[i] != order[j]
    ensures order == before + [order[k]] + after && order[k] !in before && order[k] !in after
  {
    before, after := order[..k], order[k + 1..];
    forall x <- before ensures x != order[k] {
      var i :| 0 <= i < k && before[i] == x;
      assert order[i] == x;
    }
    forall x <- after ensures x != order[k] {
      var i :| 0 <= i < |after| && after[i] == x;
      assert order[k + 1 + i] == x;
    }
  }

  lemma OneChunk(m: Message, name: Name, tag: u16, v: byte)
    requires Get(m, name) == Some(Number(v)) && TlvOf(name) == Some(Tlv(tag, U8))
    ensures Chunks([name], m) == Some([Chunk(name, Tlv(tag, U8), [v])])
  {
    hide TlvOf;
    var none: seq<Name> := [];
    assert [name][1..] == none && Chunks(none, m) == Some([]);
    assert Encode(U8, Number(v)) == Some([v]);
    var chunk := Chunk(name, Tlv(tag, U8), [v]);
    var no: seq<Chunk> := [];
    assert [chunk] + no == [chunk];
  }

  lemma {:induction false} OthersSkipped(order: seq<Name>, m: Message, name: Name)
    requires name !in order && forall n <- m | TlvOf(n).Some? :: n == name
    ensures Chunks(order, m) == Some([])
  {
    hide TlvOf;
    if order != [] { OthersSkipped(order[1..], m, name); }
  }

  lemma {:induction false} ChunksAppend(a: seq<Name>, b: seq<Name>, m: Message)
    requires Chunks(a, m).Some? && Chunks(b, m).Some?
    ensures Chunks(a + b, m) == Some(Chunks(a, m).value + Chunks(b, m).value)
  {
    hide TlvOf, Encode, Chunks, Before;
    NoOrder(a, m);
    if a == [] {
      assert a + b == b;
      AppendNothing(Chunks(b, m).value);
    } else {
      var n := a[0];
      assert (a + b)[0] == n && (a + b)[1..] == a[1..] + b;
      ChunksStep(a, m);
      ChunksStep(a + b, m);
      if n in m && TlvOf(n).Some? {
        var first := [Chunk(n, TlvOf(n).value, Encode(TlvOf(n).value.codec, m[n]).value)];
        BeforeParts(first, Chunks(a[1..], m), Chunks(b, m).value);
      }
      ChunksAppend(a[1..], b, m);
    }
  }

  lemma AppendNothing(ks: seq<Chunk>)
    ensures [] + ks == ks
  {}

  lemma BeforeParts(first: seq<Chunk>, rest: Option<seq<Chunk>>, more: seq<Chunk>)
    requires Before(first, rest).Some?
    ensures rest.Some? && Before(first, Some(rest.value + more)) == Some(Before(first, rest).value + more)
  {
    assert first + (rest.value + more) == first + rest.value + more;
  }

  /** A bind changes nothing; the answer, also a refusal, repeats its system_id and gives the server's version. */
  lemma BindRequest(cfg: Config, s: Server, a: Answers, b: bytes)
    requires DecodePdu(b).Some? && Enumerates(a.order) && IsBind(CommandOf(b))
    ensures |b| >= 16 && Handle(cfg, s, a, DecodePdu(b).value)
         == Sends(Packet(BindAnswerId(CommandOf(b)), if a.authenticated then 0 else 0x0D, OfBe32(b[12..16]),
                         Terminated(StringOrEmpty(DecodePdu(b).value, SystemId), 16)
                         + [0x02, 0x10, 0, 1, cfg.interfaceVersion]), s, Ignored)
  {
    hide DecodePdu, CommandOf, Encoded, Enumerates, CreateJsonResponse, ExtractCommandId, SequenceOf, Packet, TlvOf;
    hide FieldsOf, ResponseCommand, ResponseId, AsU32, Suffices, NoHeader, Chunks, StringOrEmpty, Terminated, Flatten;
    DecodedCommand(b);
    var c, m, sequence := CommandOf(b), DecodePdu(b).value, OfBe32(b[12..16]);
    var text := StringOrEmpty(m, SystemId);
    var fields := BindResponseFields(text, cfg.interfaceVersion);
    BindResponseIs(c);
    OctetTlvs();
    FixedFieldsSuffice(cfg, c, m);
    AnswerOctets(c, sequence, if a.authenticated then 0 else 0x0D, fields, a.order, [Text(SystemId, 16)]);
    VersionTlv(a.order, fields, cfg.interfaceVersion);
    BindPlaces(text, cfg.interfaceVersion);
  }

  lemma BindPlaces(text: bytes, version: byte)
    ensures Octets(BindResponseFields(text, version), [Text(SystemId, 16)]) == Terminated(text, 16)
  {
    var m := BindResponseFields(text, version);
    var none: seq<Place> := [];
    assert [Text(SystemId, 16)][1..] == none && Octets(m, none) == [];
  }

  const QUERY_SM_RESP: seq<Place> := [
    Text(MessageId, 65), Text(FinalDate, 17), Byte(MessageState, 0), Byte(ErrorCode, 0)]

  lemma QueryResponseIs()
    ensures ResponseId(AsU32(QuerySm)) == 0x8000_0003 && ResponseCommand(QuerySm) == Some(QuerySmResp)
    ensures AllFit(FieldsOf(QuerySmResp), QUERY_SM_RESP)
  {
    hide FromU32;
    NumbersAreUnique(QuerySmResp, 0x8000_0003);
  }

  lemma QueryPlaces(id: bytes)
    ensures Octets(QueryResponseFields(id), QUERY_SM_RESP) == Terminated(id, 65) + [0, 5, 0]
  {
    hide Terminated;
    var m := QueryResponseFields(id);
    var none: seq<Place> := [];
    assert Octets(m, none) == [];
    assert QUERY_SM_RESP[3..][1..] == none && Octets(m, QUERY_SM_RESP[3..]) == [0];
    assert QUERY_SM_RESP[2..][1..] == QUERY_SM_RESP[3..] && Octets(m, QUERY_SM_RESP[2..]) == [5, 0];
    assert Terminated([], 17) == [0] by { NothingTerminated(); }
    assert QUERY_SM_RESP[1..][1..] == QUERY_SM_RESP[2..] && Octets(m, QUERY_SM_RESP[1..]) == [0, 5, 0];
  }

  lemma NothingTerminated()
    ensures Terminated([], 17) == [0]
  {}

  /** A query_sm is always answered with a failure that repeats its message_id, with state 5 as field and as TLV. */
  lemma QueryRequest(cfg: Config, s: Server, a: Answers, b: bytes)
    requires DecodePdu(b).Some? && Enumerates(a.order) && CommandOf(b).QuerySm?
    ensures |b| >= 16 && Handle(cfg, s, a, DecodePdu(b).value)
         == Sends(Packet(0x8000_0003, 0x67, OfBe32(b[12..16]),
                         Terminated(StringOrEmpty(DecodePdu(b).value, MessageId), 65) + [0, 5, 0]
                         + [0x04, 0x27, 0, 1, 5]), s, EndsBatch)
  {
    hide DecodePdu, CommandOf, Encoded, Enumerates, CreateJsonResponse, ExtractCommandId, SequenceOf, Packet, TlvOf;
    hide FieldsOf, ResponseCommand, ResponseId, AsU32, Suffices, NoHeader, Chunks, StringOrEmpty, Terminated, Flatten;
    hide QUERY_SM_RESP;
    DecodedCommand(b);
    var m, sequence := DecodePdu(b).value, OfBe32(b[12..16]);
    var id := StringOrEmpty(m, MessageId);
    var fields := QueryResponseFields(id);
    QueryResponseIs();
    OctetTlvs();
    FixedFieldsSuffice(cfg, QuerySm, m);
    AnswerOctets(QuerySm, sequence, 0x67, fields, a.order, QUERY_SM_RESP);
    OneTlv(a.order, fields, MessageState, 0x0427, 5);
    QueryPlaces(id);
  }

  // ---- responses --------------------------------------------------------------------------

  /** A deliver_sm_resp is handed to the waiters, with its number and as it was read; other responses do nothing. */
  lemma ResponseReceived(cfg: Config, s: Server, a: Answers, b: bytes)
    requires DecodePdu(b).Some? && AsU32(CommandOf(b)) >= 0x8000_0000
    ensures |b| >= 16 && Handle(cfg, s, a, DecodePdu(b).value)
         == Quiet(if OfBe32(b[4..8]) == 0x8000_0005
                  then s.(log := s.log + [Acknowledged(Response(OfBe32(b[12..16]), DecodePdu(b).value))]) else s)
  {
    hide DecodePdu, ExtractCommandId, SequenceOf, FromU32;
    DecodedCommand(b);
    CommandNumber(b);
    NumbersAreUnique(DeliverSmResp, 0x8000_0005);
  }

  lemma CommandNumber(b: bytes)
    requires DecodePdu(b).Some?
    ensures |b| >= 16 && FromU32(OfBe32(b[4..8])) == Some(CommandOf(b)) && AsU32(CommandOf(b)) == OfBe32(b[4..8])
  {
    hide FromU32, AsU32, DecodeMembers;
    NumbersAreUnique(CommandOf(b), OfBe32(b[4..8]));
  }
}
