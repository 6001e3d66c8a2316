/** The octets of requests and answers, written out position by position. */
module LayoutLaws {
  import opened Bytes
  import opened Values
  import opened Codec
  import opened CommandIds
  import opened Tables
  import opened Pdu
  import opened PduLaws
  import opened WireLaws
  import opened SmppMessage
  import opened Forwarding
  import opened Responses
  import Base64

  // ---- the pieces of a PDU ----------------------------------------------------------------

  /** A whole PDU: length, identifier, status and number in front of the given octets. */
  function Packet(id: u32, status: u32, sequence: u32, body: bytes): (b: bytes)
  {
    Be32((16 + |body|) % U32_LIMIT) + Be32(id) + Be32(status) + Be32(sequence) + body
  }

  lemma PacketOf(b: bytes, id: u32, status: u32, sequence: u32, body: bytes)
    requires |b| >= 16 && b[..4] == Be32(|b| % U32_LIMIT) && b[4..8] == Be32(id)
    requires b[8..12] == Be32(status) && b[12..16] == Be32(sequence) && b[16..] == body
    ensures b == Packet(id, status, sequence, body)
  {
    hide Be32;
    assert b == b[..4] + b[4..8] + b[8..12] + b[12..16] + b[16..];
  }

  /** A C-octet string of at most `n` octets and its terminator. */
  function Terminated(s: bytes, n: nat): (b: bytes)
  {
    (if |s| > n then s[..n] else s) + [0]
  }

  /**
   One place in a PDU: a text of at most so many octets and its terminator, the low octet of a number or
   of what stands for a missing one, a short text behind its length, or counted destinations.
   */
  datatype Place =
    | Text(name: Name, n: nat)
    | Byte(name: Name, missing: byte)
    | Short(name: Name)
    | Targets(name: Name)

  function PlaceOctets(m: Message, p: Place): (b: bytes)
  {
    match p
    case Text(k, n) => Terminated(StringOrEmpty(m, k), n)
    case Byte(k, d) => [if k in m then NumberOr0(m, k) % 256 else d]
    case Short(k) => var t := PlainText(StringOrEmpty(m, k)); [|t| % 256] + t
    case Targets(k) =>
      var vs := if k in m && m[k].Array? then m[k].items else [];
      [|vs| % 256] + TargetOctets(vs)
  }

  /** An address behind a 1, a distribution list behind a 2. */
  function TargetOctets(vs: seq<Value>): (b: bytes)
  {
    if vs == [] then []
    else
      var m := if vs[0].Object? then vs[0].fields else map[];
      (if DestinationAddr in m && m[DestinationAddr].String?
       then [1, NumberOr0(m, DestAddrTon) % 256, NumberOr0(m, DestAddrNpi) % 256] + m[DestinationAddr].s + [0]
       else [2] + StringOrEmpty(m, DlName) + [0])
      + TargetOctets(vs[1..])
  }

  lemma {:induction false} TargetsAre(vs: seq<Value>)
    requires EncodeItems(DestAddress, vs).Some?
    ensures EncodeItems(DestAddress, vs).value == TargetOctets(vs)
  {
    if vs != [] { TargetsAre(vs[1..]); }
  }

  /** What a text is base64 for, or else its own octets. */
  function PlainText(s: bytes): (p: bytes)
  {
    if Base64.Decode(s).Some? then Base64.Decode(s).value else s
  }

  function Octets(m: Message, ps: seq<Place>): (b: bytes)
  {
    if ps == [] then [] else PlaceOctets(m, ps[0]) + Octets(m, ps[1..])
  }

  predicate Writable(f: Field, m: Message)
  {
    Given(f, m).Some? && Encode(f.member.codec, Given(f, m).value).Some?
  }

  /** A field, or the default it falls back on, is written as its place says. */
  ghost predicate Writes(f: Field, m: Message, p: Place)
  {
    && f.member.name == p.name
    && (Writable(f, m) ==> Encode(f.member.codec, Given(f, m).value).value == PlaceOctets(m, p))
  }

  lemma {:induction false} MembersAreWritten(fs: seq<Field>, ms: seq<Member>, m: Message, d: Message, ps: seq<Place>)
    requires |fs| == |ms| == |ps| && forall k :: 0 <= k < |fs| ==> ms[k] == fs[k].member && Writes(fs[k], m, ps[k])
    requires forall k :: 0 <= k < |fs| ==> Get(d, fs[k].member.name) == Given(fs[k], m)
    requires EncodeMembers(ms, d).Some?
    ensures EncodeMembers(ms, d).value == Octets(m, ps)
    decreases |fs|
  {
    hide Encode;
    if fs != [] {
      assert ms[0] == fs[0].member && Writes(fs[0], m, ps[0]);
      MembersAreWritten(fs[1..], ms[1..], m, d, ps[1..]);
    }
  }

  /** The value a field is written with: that of the message, or its default. */
  function Given(f: Field, m: Message): (v: Option<Value>)
  {
    if f.member.name in m then Some(m[f.member.name]) else f.fallback
  }

  lemma {:induction false} DefaultsGive(fs: seq<Field>, m: Message, k: nat)
    requires k < |fs|
    requires forall i, j :: 0 <= i < j < |fs| ==> fs[i].member.name != fs[j].member.name
    ensures Get(WithDefaults(fs, m), fs[k].member.name) == Given(fs[k], m)
    decreases |fs|
  {
    var f := fs[0];
    var m1 := if f.member.name !in m && f.fallback.Some? then m[f.member.name := f.fallback.value] else m;
    if k == 0 {
      DefaultsKeep(fs[1..], m1, f.member.name);
    } else {
      assert fs[1..][k - 1] == fs[k];
      DefaultsGive(fs[1..], m1, k - 1);
    }
  }

  lemma {:induction false} DefaultsKeep(fs: seq<Field>, m: Message, n: Name)
    requires forall f <- fs :: f.member.name != n
    ensures Get(WithDefaults(fs, m), n) == Get(m, n)
    decreases |fs|
  {
    if fs != [] {
      var f := fs[0];
      var m1 := if f.member.name !in m && f.fallback.Some? then m[f.member.name := f.fallback.value] else m;
      DefaultsKeep(fs[1..], m1, n);
    }
  }

  /** The mandatory part of a PDU is its pieces one after the other. */
  lemma MandatoryIs(c: CommandId, m: Message, ps: seq<Place>)
    requires EncodeMandatory(c, m).Some?
    requires |ps| == |FieldsOf(c)| && forall k :: 0 <= k < |ps| ==> Writes(FieldsOf(c)[k], m, ps[k])
    ensures EncodeMandatory(c, m).value == Octets(m, ps)
  {
    hide FieldsOf, Writes, Given, WithDefaults, EncodeMembers;
    var fs := FieldsOf(c);
    MembersAreSound(c);
    assert forall i, j :: 0 <= i < j < |fs| ==> MembersOf(c)[i].name != MembersOf(c)[j].name;
    forall k | 0 <= k < |fs| ensures Get(WithDefaults(fs, m), fs[k].member.name) == Given(fs[k], m) {
      DefaultsGive(fs, m, k);
    }
    MembersAreWritten(fs, MembersOf(c), m, WithDefaults(fs, m), ps);
  }

  // ---- the codecs of one piece ------------------------------------------------------------

  /** The fields of the tables and the places they are written to. */
  predicate Fits(f: Field, p: Place)
  {
    match p
    case Text(k, n) => f == OrEmpty(Member(k, COctetStr(n))) || f == Required(Member(k, COctetStr(n)))
    case Byte(k, d) => f == Or(Member(k, U8), d) || f == Required(Member(k, U8))
    case Short(k) => f == Required(Member(k, Octet(true, 1)))
    case Targets(k) => f == Required(Member(k, DestAddressList))
  }

  lemma FittingWrites(f: Field, m: Message, p: Place)
    requires Fits(f, p)
    ensures Writes(f, m, p)
  {
    hide Base64.Decode, EncodeItems, TargetOctets;
    if p.Targets? && p.name in m && m[p.name].Array? && EncodeItems(DestAddress, m[p.name].items).Some? {
      TargetsAre(m[p.name].items);
    }
  }

  // ---- requests ---------------------------------------------------------------------------

  const BIND: seq<Place> := [
    Text(SystemId, 16), Text(Password, 9), Text(SystemType, 13), Byte(InterfaceVersion, 0x34), Byte(AddrTon, 0),
    Byte(AddrNpi, 0), Text(AddressRange, 41)]

  const SUBMIT_SM: seq<Place> := [
    Text(ServiceType, 6), Byte(SourceAddrTon, 0), Byte(SourceAddrNpi, 0), Text(SourceAddr, 21), Byte(DestAddrTon, 0),
    Byte(DestAddrNpi, 0), Text(DestinationAddr, 21), Byte(EsmClass, 0), Byte(ProtocolId, 0), Byte(PriorityFlag, 0),
    Text(ScheduleDeliveryTime, 17), Text(ValidityPeriod, 17), Byte(RegisteredDelivery, 0),
    Byte(ReplaceIfPresentFlag, 0), Byte(DataCoding, 0), Byte(SmDefaultMsgId, 0), Short(ShortMessage)]

  const DATA_SM: seq<Place> := [
    Text(ServiceType, 6), Byte(SourceAddrTon, 0), Byte(SourceAddrNpi, 0), Text(SourceAddr, 21), Byte(DestAddrTon, 0),
    Byte(DestAddrNpi, 0), Text(DestinationAddr, 21), Byte(EsmClass, 0), Byte(RegisteredDelivery, 0),
    Byte(DataCoding, 0)]

  const SUBMIT_MULTI: seq<Place> := [
    Text(ServiceType, 6), Byte(SourceAddrTon, 0), Byte(SourceAddrNpi, 0), Text(SourceAddr, 21),
    Targets(DestAddresses), Byte(EsmClass, 0), Byte(ProtocolId, 0), Byte(PriorityFlag, 0),
    Text(ScheduleDeliveryTime, 17), Text(ValidityPeriod, 17), Byte(RegisteredDelivery, 0),
    Byte(ReplaceIfPresentFlag, 0), Byte(DataCoding, 0), Byte(SmDefaultMsgId, 0), Short(ShortMessage)]

  const CANCEL_SM: seq<Place> := [
    Text(ServiceType, 6), Text(MessageId, 65), Byte(SourceAddrTon, 0), Byte(SourceAddrNpi, 0), Text(SourceAddr, 21),
    Byte(DestAddrTon, 0), Byte(DestAddrNpi, 0), Text(DestinationAddr, 21)]

  const REPLACE_SM: seq<Place> := [
    Text(MessageId, 65), Byte(SourceAddrTon, 0), Byte(SourceAddrNpi, 0), Text(SourceAddr, 21),
    Text(ScheduleDeliveryTime, 17), Text(ValidityPeriod, 17), Byte(RegisteredDelivery, 0), Byte(SmDefaultMsgId, 0),
    Short(ShortMessage)]

  const QUERY_SM: seq<Place> := [
    Text(MessageId, 65), Byte(SourceAddrTon, 0), Byte(SourceAddrNpi, 0), Text(SourceAddr, 21)]

  predicate AllFit(fs: seq<Field>, ps: seq<Place>)
  {
    |fs| == |ps| && forall k :: 0 <= k < |fs| ==> Fits(fs[k], ps[k])
  }

  lemma TablesFit()
    ensures AllFit(BindFields(), BIND)
    ensures AllFit(SmFields(), SUBMIT_SM)
    ensures AllFit(DataFields(), DATA_SM)
    ensures AllFit(MultiFields(), SUBMIT_MULTI)
    ensures AllFit(CancelFields(), CANCEL_SM)
    ensures AllFit(ReplaceFields(), REPLACE_SM)
    ensures AllFit(QueryFields(), QUERY_SM)
  {}

  /** The identifier of a request and the places of its mandatory part. */
  function RequestLayout(c: CommandId): (r: Option<(u32, seq<Place>)>)
  {
    match c
    case BindReceiver => Some((0x1, BIND))
    case BindTransmitter => Some((0x2, BIND))
    case BindTransceiver => Some((0x9, BIND))
    case QuerySm => Some((0x3, QUERY_SM))
    case SubmitSm => Some((0x4, SUBMIT_SM))
    case DeliverSm => Some((0x5, SUBMIT_SM))
    case ReplaceSm => Some((0x7, REPLACE_SM))
    case CancelSm => Some((0x8, CANCEL_SM))
    case SubmitMulti => Some((0x21, SUBMIT_MULTI))
    case DataSm => Some((0x103, DATA_SM))
    case Unbind => Some((0x6, []))
    case EnquireLink => Some((0x15, []))
    case _ => None
  }

  lemma LayoutFits(c: CommandId)
    requires RequestLayout(c).Some?
    ensures AsU32(c) == RequestLayout(c).value.0 && AllFit(FieldsOf(c), RequestLayout(c).value.1)
  {
    hide AllFit, BindFields, SmFields, DataFields, MultiFields, CancelFields, ReplaceFields, QueryFields;
    hide BIND, SUBMIT_SM, DATA_SM, SUBMIT_MULTI, CANCEL_SM, REPLACE_SM, QUERY_SM;
    TablesFit();
    NothingFits();
  }

  lemma NothingFits()
    ensures AllFit([], [])
  {}

  /** The octets of a request: its header, each mandatory field in its place, and its optional fields. */
  lemma RequestOctets(c: CommandId, m: Message, order: seq<Name>)
    requires EncodePdu(c, m, order).Some? && NumericHeaders(m) && RequestLayout(c).Some?
    ensures EncodePdu(c, m, order).value
         == Packet(RequestLayout(c).value.0, HeaderNumber(m, CommandStatus), HeaderNumber(m, SequenceNumber),
                   Octets(m, RequestLayout(c).value.1) + Flatten(Chunks(order, m).value))
  {
    hide FieldsOf, Fits, Writes, EncodePdu, EncodeMandatory, Chunks, RequestLayout, AsU32, Be32, Octets, Packet;
    hide HeaderNumber;
    var ps := RequestLayout(c).value.1;
    LayoutFits(c);
    forall k | 0 <= k < |ps| ensures Writes(FieldsOf(c)[k], m, ps[k]) { FittingWrites(FieldsOf(c)[k], m, ps[k]); }
    assert EncodeMandatory(c, m).Some?;
    MandatoryIs(c, m, ps);
    Layout(c, m, order);
    PacketOf(EncodePdu(c, m, order).value, RequestLayout(c).value.0, HeaderNumber(m, CommandStatus),
             HeaderNumber(m, SequenceNumber), Octets(m, ps) + Flatten(Chunks(order, m).value));
  }

  // ---- what the other side reads ----------------------------------------------------------

  /** A text as far as it fits its place. */
  function Cut(s: bytes, n: nat): (t: bytes)
  {
    if |s| > n then s[..n] else s
  }

  /** What a message gives for a place fits it: a text without NUL, or a short text of 1 to 255 octets. */
  predicate Clean(m: Message, p: Place)
  {
    match p
    case Text(k, n) => 0 !in Cut(StringOrEmpty(m, k), n)
    case Byte(_, _) => true
    case Short(k) => 0 < |PlainText(StringOrEmpty(m, k))| < 256
    case Targets(_) => false
  }

  /** A place as it is read: the text as far as it fits, the low octet, and the short text as base64. */
  predicate Arrives(m: Message, p: Place, d: Message)
  {
    match p
    case Text(k, n) => Get(d, k) == Some(String(Cut(StringOrEmpty(m, k), n)))
    case Byte(k, missing) => Get(d, k) == Some(Number(if k in m then NumberOr0(m, k) % 256 else missing))
    case Short(k) => k in d && d[k].String? && Base64.Decode(d[k].s) == Some(PlainText(StringOrEmpty(m, k)))
    case Targets(_) => false
  }

  lemma CleanArrives(f: Field, m: Message, p: Place, d: Message)
    requires Fits(f, p) && Clean(m, p) && Writable(f, m)
    ensures var c, v := f.member.codec, Given(f, m).value;
            Good(c, v) && (Get(d, p.name) == Some(Normal(c, v)) ==> Arrives(m, p, d))
  {
    hide Base64.Decode, Base64.Encode;
    if p.Short? { Base64.DecodeEncode(PlainText(StringOrEmpty(m, p.name))); }
  }

  lemma PlacesAreMandatory(c: CommandId, p: Place)
    requires RequestLayout(c).Some? && p in RequestLayout(c).value.1
    ensures TlvOf(p.name).None?
  {
    hide TlvOf, RequestLayout, FieldsOf, HeaderName;
    LayoutFits(c);
    PlaceIsMember(c, RequestLayout(c).value.1, p);
    MembersAreSound(c);
    OverlapIsHarmless(p.name);
    StateIsInNoRequest(c, p);
  }

  lemma StateIsInNoRequest(c: CommandId, p: Place)
    requires RequestLayout(c).Some? && p in RequestLayout(c).value.1
    ensures p.name != MessageState
  {}

  /**
   A request whose fields fit is read back place by place: the texts that fit, the low octets, and a short
   text as the base64 of the octets it stood for.
   */
  lemma RequestArrives(c: CommandId, m: Message, order: seq<Name>, p: Place)
    requires EncodePdu(c, m, order).Some? && NumericHeaders(m) && Enumerates(order) && RequestLayout(c).Some?
    requires p in RequestLayout(c).value.1 && forall q <- RequestLayout(c).value.1 :: Clean(m, q)
    requires forall n <- m | TlvOf(n).Some? && EncodableTlv(m, n) :: |ChunkOf(m, n).value| < U16_LIMIT
    ensures DecodePdu(EncodePdu(c, m, order).value).Some?
    ensures Arrives(m, p, DecodePdu(EncodePdu(c, m, order).value).value)
  {
    hide RequestLayout, FieldsOf, Fits, Clean, Arrives, TlvOf, MembersOf, WithDefaults, EncodePdu, DecodePdu, Encode;
    hide Good, Normal, NormalMembers, EncodeMembers, GoodMembers, Given, HeaderOf, Chunks, Readback, Enumerates;
    var ps, fs, ms, d := RequestLayout(c).value.1, FieldsOf(c), MembersOf(c), WithDefaults(FieldsOf(c), m);
    LayoutFits(c);
    MembersAreSound(c);
    ChunksNeedEncodable(order, m);
    EncodableMembers(ms, d);
    forall x <- ms ensures Good(x.codec, d[x.name]) {
      var k :| 0 <= k < |ms| && ms[k] == x;
      PlaceGiven(c, m, ps, k);
      CleanArrives(fs[k], m, ps[k], map[]);
    }
    GoodMembersAre(ms, d);
    RoundTripGood(c, m, order);
    var k :| 0 <= k < |ps| && ps[k] == p;
    PlaceGiven(c, m, ps, k);
    NormalAt(ms, d, HeaderOf(c, m), ms[k]);
    PlacesAreMandatory(c, p);
    var r := DecodePdu(EncodePdu(c, m, order).value).value;
    assert Get(r, p.name) == Get(NormalFixed(c, m), p.name);
    CleanArrives(fs[k], m, p, r);
  }

  lemma PlaceGiven(c: CommandId, m: Message, ps: seq<Place>, k: nat)
    requires EncodeMandatory(c, m).Some? && AllFit(FieldsOf(c), ps) && k < |ps|
    ensures var f, d := FieldsOf(c)[k], WithDefaults(FieldsOf(c), m);
            && MembersOf(c)[k] == f.member && f.member.name == ps[k].name && Fits(f, ps[k])
            && Writable(f, m) && Get(d, f.member.name) == Given(f, m)
  {
    hide FieldsOf, WithDefaults, Encode, EncodeMembers, Given;
    var fs, ms := FieldsOf(c), MembersOf(c);
    MembersAreSound(c);
    assert forall i, j :: 0 <= i < j < |fs| ==> ms[i].name != ms[j].name;
    DefaultsGive(fs, m, k);
    EncodableMembers(ms, WithDefaults(fs, m));
    assert ms[k] in ms;
  }

  /** In particular a short text that is not base64 arrives as itself. */
  lemma PlainTextArrives(m: Message, order: seq<Name>)
    requires EncodePdu(SubmitSm, m, order).Some? && NumericHeaders(m) && Enumerates(order)
    requires Base64.Decode(StringOrEmpty(m, ShortMessage)).None? && 0 < |StringOrEmpty(m, ShortMessage)| < 256
    requires forall q <- SUBMIT_SM | q.Text? :: 0 !in Cut(StringOrEmpty(m, q.name), q.n)
    requires forall n <- m | TlvOf(n).Some? && EncodableTlv(m, n) :: |ChunkOf(m, n).value| < U16_LIMIT
    ensures var d := DecodePdu(EncodePdu(SubmitSm, m, order).value);
            && d.Some? && ShortMessage in d.value && d.value[ShortMessage].String?
            && Base64.Decode(d.value[ShortMessage].s) == Some(StringOrEmpty(m, ShortMessage))
  {
    hide EncodePdu, DecodePdu, Enumerates, TlvOf, Base64.Decode, StringOrEmpty, Cut, ChunkOf, SUBMIT_SM, RequestLayout;
    hide NumericHeaders, Clean;
    SubmitPlaces();
    forall q <- SUBMIT_SM ensures Clean(m, q) { SubmitPlaceClean(m, q); }
    RequestArrives(SubmitSm, m, order, Short(ShortMessage));
  }

  lemma SubmitPlaceClean(m: Message, q: Place)
    requires !q.Targets? && (q.Short? ==> q.name == ShortMessage)
    requires Base64.Decode(StringOrEmpty(m, ShortMessage)).None? && 0 < |StringOrEmpty(m, ShortMessage)| < 256
    requires q.Text? ==> 0 !in Cut(StringOrEmpty(m, q.name), q.n)
    ensures Clean(m, q)
  {
    hide Base64.Decode, StringOrEmpty;
  }

  lemma SubmitPlaces()
    ensures Short(ShortMessage) in SUBMIT_SM
    ensures forall q <- SUBMIT_SM :: !q.Targets? && (q.Short? ==> q.name == ShortMessage)
    ensures RequestLayout(SubmitSm) == Some((0x4, SUBMIT_SM))
  {
    SubmitLayout();
    assert SUBMIT_SM[16] == Short(ShortMessage);
  }

  lemma SubmitLayout()
    ensures RequestLayout(SubmitSm) == Some((0x4, SUBMIT_SM))
  {
    hide SUBMIT_SM;
  }

  // ---- answers ----------------------------------------------------------------------------

  lemma {:induction false} SameOctets(m: Message, m': Message, ps: seq<Place>)
    requires forall p <- ps :: Get(m, p.name) == Get(m', p.name)
    ensures Octets(m, ps) == Octets(m', ps)
  {
    hide PlaceOctets;
    if ps != [] {
      assert PlaceOctets(m, ps[0]) == PlaceOctets(m', ps[0]) by { SamePlace(m, m', ps[0]); }
      SameOctets(m, m', ps[1..]);
    }
  }

  lemma SamePlace(m: Message, m': Message, p: Place)
    requires Get(m, p.name) == Get(m', p.name)
    ensures PlaceOctets(m, p) == PlaceOctets(m', p)
  {
    hide PlainText, TargetOctets;
  }

  lemma {:induction false} SameOptional(order: seq<Name>, m: Message, m': Message)
    requires forall n | TlvOf(n).Some? :: Get(m, n) == Get(m', n)
    ensures Chunks(order, m) == Chunks(order, m')
  {
    hide TlvOf, Encode;
    if order != [] {
      SameOptional(order[1..], m, m');
      assert TlvOf(order[0]).Some? ==> Get(m, order[0]) == Get(m', order[0]);
    }
  }

  /** The octets of an answer with sufficient fields: the identifier with the response bit, and the fields. */
  lemma AnswerOctets(c: CommandId, sequence: u32, status: u32, fields: Message, order: seq<Name>, ps: seq<Place>)
    requires NoHeader(fields) && Enumerates(order)
    requires ResponseCommand(c).Some? && Suffices(ResponseCommand(c).value, fields)
    requires AllFit(FieldsOf(ResponseCommand(c).value), ps)
    ensures Chunks(order, fields).Some?
    ensures Encoded(CreateJsonResponse(c, sequence, status, fields), order)
         == Packet(ResponseId(AsU32(c)), status, sequence, Octets(fields, ps) + Flatten(Chunks(order, fields).value))
  {
    hide CreateJsonResponse, FromJson, EncodePdu, Suffices, Enumerates, Be32, NumericHeaders, HeaderNumber, NoHeader;
    hide FieldsOf, Fits, Writes, Chunks, EncodeMandatory, Octets, HeaderName, TlvOf, AsU32, ResponseId, Packet;
    hide AllFit, ResponseCommand, ExtractCommandId;
    var m := CreateJsonResponse(c, sequence, status, fields);
    ResponseEncodesIff(c, sequence, status, fields, order);
    var r := ResponseCommand(c).value;
    ResponseIdIsResponse(c);
    ResponseFields(c, sequence, status, fields);
    AnswerParts(r, m, fields, order, ps);
    Layout(r, m, order);
    PacketOf(EncodePdu(r, m, order).value, ResponseId(AsU32(c)), status, sequence,
             Octets(fields, ps) + Flatten(Chunks(order, fields).value));
  }

  lemma AnswerParts(c: CommandId, m: Message, fields: Message, order: seq<Name>, ps: seq<Place>)
    requires EncodeMandatory(c, m).Some? && AllFit(FieldsOf(c), ps)
    requires forall n :: !HeaderName(n) ==> Get(m, n) == Get(fields, n)
    ensures EncodeMandatory(c, m).value == Octets(fields, ps)
    ensures Chunks(order, m) == Chunks(order, fields)
  {
    hide FieldsOf, Fits, Writes, Chunks, EncodeMandatory, Octets, HeaderName, TlvOf;
    forall k | 0 <= k < |ps| ensures Writes(FieldsOf(c)[k], m, ps[k]) { FittingWrites(FieldsOf(c)[k], m, ps[k]); }
    MandatoryIs(c, m, ps);
    MembersAreSound(c);
    forall p <- ps ensures Get(m, p.name) == Get(fields, p.name) { PlaceIsMember(c, ps, p); }
    SameOctets(m, fields, ps);
    forall n | TlvOf(n).Some? ensures Get(m, n) == Get(fields, n) { TlvsAreSound(n); }
    SameOptional(order, m, fields);
  }

  lemma PlaceIsMember(c: CommandId, ps: seq<Place>, p: Place)
    requires AllFit(FieldsOf(c), ps) && p in ps
    ensures exists x <- MembersOf(c) :: x.name == p.name
  {
    hide FieldsOf;
    var k :| 0 <= k < |ps| && ps[k] == p;
    assert Fits(FieldsOf(c)[k], p) && MembersOf(c)[k].name == p.name && MembersOf(c)[k] in MembersOf(c);
  }

  /** An answer without fields is a header. */
  lemma HeaderAnswer(c: CommandId, sequence: u32, status: u32, order: seq<Name>)
    requires Enumerates(order) && ResponseCommand(c).Some? && FieldsOf(ResponseCommand(c).value) == []
    ensures Encoded(CreateJsonResponse(c, sequence, status, map[]), order)
         == Packet(ResponseId(AsU32(c)), status, sequence, [])
  {
    hide CreateJsonResponse, Enumerates, FieldsOf, ResponseCommand, Suffices, Encoded, TlvOf, AsU32, ResponseId;
    NothingSuffices(ResponseCommand(c).value);
    AnswerOctets(c, sequence, status, map[], order, []);
    NoChunks(order, map[]);
    assert [] + Flatten([]) == [];
  }
}
