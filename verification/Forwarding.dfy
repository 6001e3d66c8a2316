/** Which decoded messages can be sent on as deliver_sm, and the submit_sm projected from a submit_multi. */
module Forwarding {
  import opened Bytes
  import opened Values
  import opened Codec
  import opened CommandIds
  import opened Tables
  import opened Pdu
  import opened PduLaws
  import opened WireLaws
  import opened SmppMessage

  // ---- relabelling any decoded message ----------------------------------------------------

  /** Every optional field is null or a value its own codec accepts. */
  predicate NullOrEncodable(m: Message)
  {
    forall n <- m | TlvOf(n).Some? :: m[n] == Null || EncodableTlv(m, n)
  }

  lemma {:induction false} TlvLoopEncodable(b: bytes, acc: Message)
    requires DecodeTlvs(b, acc).Some? && NullOrEncodable(acc)
    ensures NullOrEncodable(DecodeTlvs(b, acc).value)
    ensures forall n <- acc :: n in DecodeTlvs(b, acc).value
    decreases |b|
  {
    hide TlvOf, Decode, Encode;
    if |b| >= 2 {
      var n := TlvNamed(OfBe16(b[..2])).value;
      var (v, rest) := ReadTlvValue(b);
      var c := TlvOf(n).value.codec;
      if v.Some? && Decode(c, v.value).Got? {
        TlvsAreSound(n);
        DecodedIsEncodable(c, v.value);
      }
      TlvLoopEncodable(rest, acc[n := TlvValue(c, v)]);
    }
  }

  /** The command of a PDU that decodes. */
  function CommandOf(b: bytes): (c: CommandId)
    requires DecodePdu(b).Some?
  {
    FromU32(OfBe32(b[4..8])).value
  }

  lemma {:induction false} EncodableMembers(ms: seq<Member>, m: Message)
    ensures EncodeMembers(ms, m).Some? <==> forall x <- ms :: x.name in m && Encode(x.codec, m[x.name]).Some?
    decreases |ms|
  {
    hide Encode;
    if ms != [] {
      EncodableMembers(ms[1..], m);
      assert forall x <- ms :: x == ms[0] || x in ms[1..];
    }
  }

  /** A decoded message has every mandatory field of its command, with values that can be encoded. */
  lemma DecodedMembersSound(b: bytes)
    requires DecodePdu(b).Some?
    ensures var m, c := DecodePdu(b).value, CommandOf(b);
            NullOrEncodable(m) && forall x <- MembersOf(c) | TlvOf(x.name).None? ::
              x.name in m && Encode(x.codec, m[x.name]).Some?
    ensures forall n <- DecodePdu(b).value | TlvOf(n).None? ::
              HeaderName(n) || exists x <- MembersOf(CommandOf(b)) :: x.name == n
    ensures forall n :: HeaderName(n) ==> n in DecodePdu(b).value
  {
    hide FieldsOf, TlvOf, Encode, Decode, DecodeMembers, MembersOf, DecodeTlvs, FromU32, HeaderName;
    hide NullOrEncodable, HexText, NameOf;
    var c, p := CommandOf(b), DecodeFixed(b);
    var h := HeaderMessage(c, OfBe32(b[8..12]), OfBe32(b[12..16]));
    assert p == DecodeMembers(MembersOf(c), b[16..], h);
    MembersAreSound(c);
    DecodedMembersAreEncodable(MembersOf(c), b[16..], h);
    EncodableMembers(MembersOf(c), p.v);
    DecodedKeys(MembersOf(c), b[16..], h);
    forall n ensures HeaderName(n) <==> n in h { HeaderNames(n); }
    FixedPartIsSound(c, p.v);
    TlvLoopEncodable(p.rest, p.v);
    forall x <- MembersOf(c) | TlvOf(x.name).None? ensures Get(DecodePdu(b).value, x.name) == Get(p.v, x.name) {
      TlvLoopKeeps(p.rest, p.v, x.name);
    }
    TlvLoopKeys(p.rest, p.v);
  }

  lemma FixedPartIsSound(c: CommandId, m: Message)
    requires forall x <- MembersOf(c) :: x.name in m && Encode(x.codec, m[x.name]).Some?
    requires forall n <- m :: HeaderName(n) || exists x <- MembersOf(c) :: x.name == n
    ensures NullOrEncodable(m)
  {
    hide FieldsOf, TlvOf, Encode, HeaderName, MembersOf;
    MembersAreSound(c);
    forall n <- m | TlvOf(n).Some? ensures EncodableTlv(m, n) {
      TlvCodecKinds(n);
      var x :| x in MembersOf(c) && x.name == n;
      OverlapIsHarmless(n);
    }
  }

  lemma {:induction false} TlvLoopKeys(b: bytes, acc: Message)
    requires DecodeTlvs(b, acc).Some?
    ensures forall n <- DecodeTlvs(b, acc).value | TlvOf(n).None? :: n in acc
    decreases |b|
  {
    hide TlvOf, TlvValue;
    if |b| >= 2 {
      var n := TlvNamed(OfBe16(b[..2])).value;
      var (v, rest) := ReadTlvValue(b);
      TlvLoopKeys(rest, acc[n := TlvValue(TlvOf(n).value.codec, v)]);
    }
  }

  lemma NullIsEncodableOnce(n: Name)
    requires TlvOf(n).Some?
    ensures Encode(TlvOf(n).value.codec, Null).Some? <==> n == AlertOnMessageDelivery
  {}

  /** Null optional fields are what stands in the way of encoding a decoded message again. */
  predicate NoNullTlvs(m: Message)
  {
    forall n <- m | TlvOf(n).Some? && m[n] == Null :: n == AlertOnMessageDelivery
  }

  lemma ChunksIffNoNulls(m: Message, order: seq<Name>)
    requires NullOrEncodable(m) && Enumerates(order)
    ensures Chunks(order, m).Some? <==> NoNullTlvs(m)
  {
    hide TlvOf, Encode, Chunks;
    forall n | TlvOf(n).Some? { NullIsEncodableOnce(n); }
    if NoNullTlvs(m) {
      ChunksExist(order, m);
    } else if Chunks(order, m).Some? {
      ChunksCover(order, m);
    }
  }

  predicate HasSubmitFields(m: Message)
  {
    forall x <- MembersOf(SubmitSm) :: x.name in m && Encode(x.codec, m[x.name]).Some?
  }

  /** A message with all fields of a submit_sm can be sent on as deliver_sm exactly when no null is in its way. */
  lemma RelabelledEncodesIff(m: Message, sequence: u32, order: seq<Name>)
    requires HasSubmitFields(m) && NullOrEncodable(m) && Enumerates(order)
    ensures FromJson(Relabel(m, Number(AsU32(DeliverSm)), sequence), order).Some? <==> NoNullTlvs(m)
  {
    SubmitAndDeliverShareFields();
    hide FieldsOf, TlvOf, Encode, Chunks, EncodeMembers, MembersOf, WithDefaults, HeaderName, FromU32, Enumerates;
    var d := Relabel(m, Number(AsU32(DeliverSm)), sequence);
    NumbersAreUnique(DeliverSm, AsU32(DeliverSm));
    MembersAreSound(SubmitSm);
    HeaderNames(CommandIdKey);
    HeaderNames(SequenceNumber);
    assert MembersOf(DeliverSm) == MembersOf(SubmitSm);
    EncodableMembers(MembersOf(SubmitSm), d);
    AllNamesPresent(SubmitSm, d);
    forall n | TlvOf(n).Some? ensures Get(d, n) == Get(m, n) { TlvCodecKinds(n); }
    ChunksIffNoNulls(d, order);
  }

  lemma DecodedSubmitFields(b: bytes)
    requires DecodePdu(b).Some? && CommandOf(b) == SubmitSm
    ensures HasSubmitFields(DecodePdu(b).value) && NullOrEncodable(DecodePdu(b).value)
  {
    hide MembersOf, TlvOf, Encode, DecodePdu, CommandOf, NullOrEncodable, HeaderName;
    DecodedMembersSound(b);
    SubmitHasNoOverlap();
  }

  // ---- the optional part as received ------------------------------------------------------

  /** One TLV on the wire: its tag, and its value when that is whole and not empty. */
  datatype RawTlv = RawTlv(tag: u16, value: Option<bytes>)

  /** The TLVs of some octets, whatever their values. */
  function RawTlvs(b: bytes): (ts: seq<RawTlv>)
    decreases |b|
  {
    if |b| < 2 then [] else
    var (v, rest) := ReadTlvValue(b);
    [RawTlv(OfBe16(b[..2]), v)] + RawTlvs(rest)
  }

  function LastOf(ts: seq<RawTlv>, tag: u16): (t: Option<RawTlv>)
    ensures t.None? <==> forall x <- ts :: x.tag != tag
    ensures t.Some? ==> exists i :: 0 <= i < |ts| && ts[i] == t.value && t.value.tag == tag
                                    && forall j :: i < j < |ts| ==> ts[j].tag != tag
  {
    if ts == [] then None
    else
      var later := LastOf(ts[1..], tag);
      if later.Some? then
        var i :| 0 <= i < |ts[1..]| && ts[1..][i] == later.value && later.value.tag == tag
                 && forall j :: i < j < |ts[1..]| ==> ts[1..][j].tag != tag;
        assert ts[i + 1] == later.value;
        assert forall j :: i + 1 < j < |ts| ==> ts[j] == ts[1..][j - 1];
        later
      else
        assert forall j :: 0 < j < |ts| ==> ts[j] in ts[1..];
        if ts[0].tag == tag then Some(ts[0]) else None
  }

  /** Whole, not empty, and read by the codec of its tag. */
  predicate Readable(t: RawTlv)
  {
    t.value.Some? && TlvCodec(t.tag).Some? && Decode(TlvCodec(t.tag).value, t.value.value).Got?
  }

  function OptionalPart(b: bytes): (rest: bytes)
    requires DecodePdu(b).Some?
  {
    DecodeFixed(b).rest
  }

  /** Of each tag but that of alert_on_message_delivery, the last TLV that carries it is readable. */
  predicate LastTlvsReadable(b: bytes)
    requires DecodePdu(b).Some?
  {
    forall tag: u16 | tag != AlertOnMessageDelivery.tag ::
      LastOf(RawTlvs(OptionalPart(b)), tag).Some? ==> Readable(LastOf(RawTlvs(OptionalPart(b)), tag).value)
  }

  lemma DecodedIsNotNull(c: Codec, b: bytes)
    ensures Decode(c, b).Got? ==> Decode(c, b).v != Null
  {
    hide DecodeItems, DecodeMembers, ReadLength, Base64.Encode, NulIndex;
  }

  lemma TlvReadsNullIff(t: RawTlv)
    requires TlvCodec(t.tag).Some?
    ensures TlvValue(TlvCodec(t.tag).value, t.value) == Null <==> !Readable(t)
  {
    hide Decode, TlvCodec;
    if t.value.Some? { DecodedIsNotNull(TlvCodec(t.tag).value, t.value.value); }
  }

  /** The value of an optional field is that of the last TLV with its tag. */
  lemma {:induction false} LastTlvDecides(b: bytes, acc: Message, tag: u16)
    requires DecodeTlvs(b, acc).Some?
    ensures var m, n, last := DecodeTlvs(b, acc).value, Optional(tag), LastOf(RawTlvs(b), tag);
            if last.None? then Get(m, n) == Get(acc, n)
            else TlvCodec(tag).Some? && Get(m, n) == Some(TlvValue(TlvCodec(tag).value, last.value.value))
    decreases |b|
  {
    hide TlvCodec, TlvValue;
    if |b| >= 2 {
      var t := OfBe16(b[..2]);
      var n := TlvNamed(t).value;
      var (v, rest) := ReadTlvValue(b);
      assert n == Optional(t) && TlvOf(n).value.codec == TlvCodec(t).value;
      assert RawTlvs(b)[1..] == RawTlvs(rest);
      LastTlvDecides(rest, acc[n := TlvValue(TlvCodec(t).value, v)], tag);
    }
  }

  predicate NullAt(m: Message, n: Name)
  {
    n in m && TlvOf(n).Some? && m[n] == Null
  }

  lemma NullIffUnreadable(b: bytes, tag: u16)
    requires DecodePdu(b).Some? && CommandOf(b) == SubmitSm
    ensures var last := LastOf(RawTlvs(OptionalPart(b)), tag);
            NullAt(DecodePdu(b).value, Optional(tag)) <==> last.Some? && !Readable(last.value)
  {
    hide TlvCodec, TlvValue, Readable, RawTlvs, LastOf, DecodeTlvs, DecodeFixed;
    var p := DecodeFixed(b);
    LastTlvDecides(p.rest, p.v, tag);
    FixedHasNoTlvs(b, Optional(tag));
    var last := LastOf(RawTlvs(p.rest), tag);
    if last.Some? {
      LastHasTag(RawTlvs(p.rest), tag);
      TlvReadsNullIff(last.value);
    }
  }

  /** A received submit_sm decodes without a null in the way exactly when its last TLVs are readable. */
  lemma NoNullsIffReadable(b: bytes)
    requires DecodePdu(b).Some? && CommandOf(b) == SubmitSm
    ensures NoNullTlvs(DecodePdu(b).value) <==> LastTlvsReadable(b)
  {
    hide TlvCodec, Readable, RawTlvs, LastOf, DecodePdu, OptionalPart, CommandOf;
    var m := DecodePdu(b).value;
    forall tag: u16
      ensures var last := LastOf(RawTlvs(OptionalPart(b)), tag);
              NullAt(m, Optional(tag)) <==> last.Some? && !Readable(last.value)
    {
      NullIffUnreadable(b, tag);
    }
    if LastTlvsReadable(b) {
      forall n <- m | TlvOf(n).Some? && m[n] == Null ensures n == AlertOnMessageDelivery {
        assert NullAt(m, Optional(n.tag));
      }
    } else {
      var tag: u16 :| tag != AlertOnMessageDelivery.tag && LastOf(RawTlvs(OptionalPart(b)), tag).Some?
                      && !Readable(LastOf(RawTlvs(OptionalPart(b)), tag).value);
      assert NullAt(m, Optional(tag));
    }
  }

  lemma LastHasTag(ts: seq<RawTlv>, tag: u16)
    ensures LastOf(ts, tag).Some? ==> LastOf(ts, tag).value.tag == tag
  {}

  lemma FixedHasNoTlvs(b: bytes, n: Name)
    requires DecodePdu(b).Some? && CommandOf(b) == SubmitSm && n.Optional?
    ensures n !in DecodeFixed(b).v
  {
    hide DecodeMembers, DecodeTlvs, FromU32, MembersOf, FieldsOf, HeaderMessage;
    DecodedKeys(MembersOf(SubmitSm), b[16..], HeaderMessage(SubmitSm, OfBe32(b[8..12]), OfBe32(b[12..16])));
    SubmitMembersAreMandatory();
    OptionalIsNoHeader(OfBe32(b[8..12]), OfBe32(b[12..16]), n);
  }

  lemma SubmitMembersAreMandatory()
    ensures forall x <- MembersOf(SubmitSm) :: !x.name.Optional?
  {
    forall x <- MembersOf(SubmitSm) ensures !x.name.Optional? {
      var i :| 0 <= i < |SmFields()| && SmFields()[i].member == x;
    }
  }

  lemma OptionalIsNoHeader(status: u32, sequence: u32, n: Name)
    requires n.Optional?
    ensures n !in HeaderMessage(SubmitSm, status, sequence)
  {}

  /**
   For any octets that decode as submit_sm: sent on as deliver_sm they can be encoded again exactly
   when the last TLV of each tag but that of alert_on_message_delivery is readable.
   */
  lemma ForwardingSubmitSm(b: bytes, sequence: u32, order: seq<Name>)
    requires DecodePdu(b).Some? && CommandOf(b) == SubmitSm && Enumerates(order)
    ensures FromJson(Relabel(DecodePdu(b).value, Number(AsU32(DeliverSm)), sequence), order).Some?
       <==> LastTlvsReadable(b)
  {
    hide DecodePdu, CommandOf, NoNullTlvs, LastTlvsReadable, HasSubmitFields, NullOrEncodable, FromJson, Enumerates;
    DecodedSubmitFields(b);
    RelabelledEncodesIff(DecodePdu(b).value, sequence, order);
    NoNullsIffReadable(b);
  }

  lemma AllNamesPresent(c: CommandId, m: Message)
    requires forall x <- MembersOf(c) :: x.name in m
    ensures WithDefaults(FieldsOf(c), m) == m
  {
    hide FieldsOf;
    var fs := FieldsOf(c);
    forall f <- fs ensures f.member.name in m {
      var i :| 0 <= i < |fs| && fs[i] == f;
      assert MembersOf(c)[i] == f.member && MembersOf(c)[i] in MembersOf(c);
    }
    DefaultsDone(fs, m);
  }

  lemma SubmitHasNoOverlap()
    ensures forall x <- MembersOf(SubmitSm) :: TlvOf(x.name).None?
  {
    forall x <- MembersOf(SubmitSm) ensures TlvOf(x.name).None? {
      var i :| 0 <= i < |SmFields()| && SmFields()[i].member == x;
    }
  }

  lemma DecodedDataHasNoText(b: bytes)
    requires DecodePdu(b).Some? && CommandOf(b) == DataSm
    ensures ShortMessage !in DecodePdu(b).value && SmDefaultMsgId !in DecodePdu(b).value
  {
    hide MembersOf, TlvOf, DecodePdu, CommandOf, NullOrEncodable, HeaderName;
    DecodedMembersSound(b);
    ShortMessageIsRequired();
    HeaderNames(ShortMessage);
    HeaderNames(SmDefaultMsgId);
  }

  /** A message without short_message cannot be sent on as deliver_sm. */
  lemma RelabelledNeedsText(m: Message, sequence: u32, order: seq<Name>)
    requires ShortMessage !in m
    ensures FromJson(Relabel(m, Number(AsU32(DeliverSm)), sequence), order).None?
  {
    hide FieldsOf, TlvOf, Encode, Chunks, EncodeMembers, MembersOf, WithDefaults, HeaderName, FromU32, FromStr;
    hide AsU32, EncodePdu, ExtractCommandId;
    var d := Relabel(m, Number(AsU32(DeliverSm)), sequence);
    RelabelledCommand(m, sequence, order);
    ShortMessageIsRequired();
    var x :| x in MembersOf(DeliverSm) && x.name == ShortMessage;
    EncodableMembers(MembersOf(DeliverSm), WithDefaults(FieldsOf(DeliverSm), d));
    ShortMessageHasNoDefault(d);
  }

  lemma RelabelledCommand(m: Message, sequence: u32, order: seq<Name>)
    ensures var d := Relabel(m, Number(AsU32(DeliverSm)), sequence);
            FromJson(d, order) == EncodePdu(DeliverSm, d, order)
  {
    hide EncodePdu, FromU32, FromStr;
    NumbersAreUnique(DeliverSm, AsU32(DeliverSm));
  }

  /** A data_sm can never be sent on as deliver_sm: it has no short_message. */
  lemma ForwardingDataSm(b: bytes, sequence: u32, order: seq<Name>)
    requires DecodePdu(b).Some? && CommandOf(b) == DataSm
    ensures FromJson(Relabel(DecodePdu(b).value, Number(AsU32(DeliverSm)), sequence), order).None?
  {
    hide FromJson, DecodePdu, CommandOf;
    DecodedDataHasNoText(b);
    RelabelledNeedsText(DecodePdu(b).value, sequence, order);
  }

  lemma ShortMessageIsRequired()
    ensures exists x <- MembersOf(DeliverSm) :: x.name == ShortMessage
    ensures forall x <- MembersOf(DataSm) :: x.name != ShortMessage && x.name != SmDefaultMsgId
    ensures TlvOf(ShortMessage).None? && TlvOf(SmDefaultMsgId).None?
  {
    assert MembersOf(DeliverSm)[16].name == ShortMessage;
    assert MembersOf(DeliverSm)[16] in MembersOf(DeliverSm);
    forall x <- MembersOf(DataSm) ensures x.name != ShortMessage && x.name != SmDefaultMsgId {
      var i :| 0 <= i < |DataFields()| && DataFields()[i].member == x;
    }
  }

  lemma ShortMessageHasNoDefault(m: Message)
    requires ShortMessage !in m
    ensures ShortMessage !in WithDefaults(FieldsOf(DeliverSm), m)
  {
    hide SoundField, FieldsOf;
    FieldsAreSound(DeliverSm);
    LastSubmitField();
    DefaultsAt(FieldsOf(DeliverSm), m, 16);
  }

  lemma LastSubmitField()
    ensures |FieldsOf(DeliverSm)| == 17
    ensures FieldsOf(DeliverSm)[16].member.name == ShortMessage && FieldsOf(DeliverSm)[16].fallback == None
  {
  }

  // ---- one submit_sm for each destination of a submit_multi -------------------------------

  datatype Address = Address(ton: byte, npi: byte, address: bytes)

  /** The fields every projected submit_sm takes over from the submit_multi, numbered in wire order. */
  function SharedIndex(n: Name): (i: Option<nat>)
    ensures i.Some? ==> i.value < 14
  {
    match n
    case ServiceType => Some(0)
    case SourceAddrTon => Some(1)
    case SourceAddrNpi => Some(2)
    case SourceAddr => Some(3)
    case EsmClass => Some(4)
    case ProtocolId => Some(5)
    case PriorityFlag => Some(6)
    case ScheduleDeliveryTime => Some(7)
    case ValidityPeriod => Some(8)
    case RegisteredDelivery => Some(9)
    case ReplaceIfPresentFlag => Some(10)
    case DataCoding => Some(11)
    case SmDefaultMsgId => Some(12)
    case ShortMessage => Some(13)
    case _ => None
  }

  predicate IsShared(n: Name)
  {
    SharedIndex(n).Some?
  }

  predicate DestinationName(n: Name)
  {
    n == DestAddrTon || n == DestAddrNpi || n == DestinationAddr
  }

  function DestinationOf(dest: Address): (m: Message)
  {
    map[DestAddrTon := Number(dest.ton), DestAddrNpi := Number(dest.npi), DestinationAddr := String(dest.address)]
  }

  /** The submit_sm for one destination; optional fields are not taken over. */
  function ProjectSubmitSm(m: Message, dest: Address): (r: Message)
  {
    map[CommandIdKey := Number(AsU32(SubmitSm)),
        SequenceNumber := if SequenceNumber in m then m[SequenceNumber] else Number(0),
        CommandStatus := Number(0)]
    + DestinationOf(dest) + map n <- m | IsShared(n) :: m[n]
  }

  /** A submit_sm consists of the shared fields and the destination. */
  lemma SubmitFields()
    ensures forall x <- MembersOf(SubmitSm) :: IsShared(x.name) || DestinationName(x.name)
  {
    forall x <- MembersOf(SubmitSm) ensures IsShared(x.name) || DestinationName(x.name) {
      var i :| 0 <= i < |SmFields()| && SmFields()[i].member == x;
    }
  }

  lemma SameName(c: CommandId, x: Member, y: Member)
    requires x in MembersOf(c) && y in MembersOf(c) && x.name == y.name
    ensures x == y
  {
    hide FieldsOf, MembersOf;
    MembersAreSound(c);
  }

  /** Where a shared field stands in a submit_sm and in a submit_multi. */
  lemma SharedPlaces(n: Name) returns (i: nat, j: nat)
    requires IsShared(n)
    ensures i < |SmFields()| && j < |MultiFields()| && SmFields()[i].member == MultiFields()[j].member
    ensures var x := SmFields()[i].member;
            x.name == n && (x.codec == U8 || x.codec.COctetStr? || x.codec == Octet(true, 1))
  {
    if n == ServiceType {
      i, j := 0, 0;
    } else if n == SourceAddrTon {
      i, j := 1, 1;
    } else if n == SourceAddrNpi {
      i, j := 2, 2;
    } else if n == SourceAddr {
      i, j := 3, 3;
    } else if n == EsmClass {
      i, j := 7, 5;
    } else if n == ProtocolId {
      i, j := 8, 6;
    } else if n == PriorityFlag {
      i, j := 9, 7;
    } else if n == ScheduleDeliveryTime {
      i, j := 10, 8;
    } else if n == ValidityPeriod {
      i, j := 11, 9;
    } else if n == RegisteredDelivery {
      i, j := 12, 10;
    } else if n == ReplaceIfPresentFlag {
      i, j := 13, 11;
    } else if n == DataCoding {
      i, j := 14, 12;
    } else if n == SmDefaultMsgId {
      i, j := 15, 13;
    } else {
      i, j := 16, 14;
    }
  }

  lemma FieldIsMember(c: CommandId, fs: seq<Field>, i: nat)
    requires FieldsOf(c) == fs && i < |fs|
    ensures fs[i].member in MembersOf(c)
  {
    hide FieldsOf;
    assert MembersOf(c)[i] == fs[i].member;
  }

  /** A submit_multi and a submit_sm have all shared fields, and encode them alike. */
  lemma BothHaveShared(n: Name) returns (x: Member)
    requires IsShared(n)
    ensures x in MembersOf(SubmitMulti) && x in MembersOf(SubmitSm) && x.name == n
    ensures x.codec == U8 || x.codec.COctetStr? || x.codec == Octet(true, 1)
  {
    hide SmFields, MultiFields, MembersOf, SharedIndex;
    var i, j := SharedPlaces(n);
    FieldIsMember(SubmitSm, SmFields(), i);
    FieldIsMember(SubmitMulti, MultiFields(), j);
    x := SmFields()[i].member;
  }

  lemma SharedIsField(n: Name)
    requires IsShared(n) || DestinationName(n)
    ensures TlvOf(n).None? && !HeaderName(n) && !(IsShared(n) && DestinationName(n))
  {}

  /** The normal form of a number or a string is its own normal form. */
  lemma NormalTwice(c: Codec, v: Value)
    requires c == U8 || c.COctetStr? || c == Octet(true, 1)
    requires Encode(c, v).Some? && Good(c, v)
    ensures Encode(c, Normal(c, v)).Some? && Good(c, Normal(c, v)) && Normal(c, Normal(c, v)) == Normal(c, v)
  {
    hide Base64.Encode, Base64.Decode, Payload, Truncate;
    if c.COctetStr? {
      TruncateTwice(v.s, c.maxLength);
    } else if c.Octet? {
      PayloadOfEncoded(Payload(v.s));
    }
  }

  lemma {:induction false} GoodMembersAre(ms: seq<Member>, m: Message)
    requires EncodeMembers(ms, m).Some?
    ensures GoodMembers(ms, m)
            <==> forall x <- ms :: x.name in m && Encode(x.codec, m[x.name]).Some? && Good(x.codec, m[x.name])
    decreases |ms|
  {
    hide Encode, Good;
    if ms != [] {
      GoodMembersAre(ms[1..], m);
      EncodableMembers(ms, m);
      assert forall x <- ms :: x == ms[0] || x in ms[1..];
    }
  }

  /** A shared field as the decoded submit_multi has it: already in normal form. */
  lemma SharedField(m: Message, dest: Address, x: Member)
    requires EncodeMandatory(SubmitMulti, m).Some? && TlvsEncodable(m) && GoodPdu(SubmitMulti, m)
    requires x in MembersOf(SubmitSm) && IsShared(x.name)
    ensures var d := NormalPdu(SubmitMulti, m);
            && x.name in d && Get(ProjectSubmitSm(d, dest), x.name) == Some(d[x.name])
            && Encode(x.codec, d[x.name]).Some? && Good(x.codec, d[x.name]) && Normal(x.codec, d[x.name]) == d[x.name]
  {
    hide FieldsOf, TlvOf, Encode, Good, GoodMembers, NormalMembers, EncodeMembers, MembersOf, WithDefaults;
    hide Normal, NormalPdu, SharedIndex;
    MembersAreSound(SubmitSm);
    MembersAreSound(SubmitMulti);
    var ms, w := MembersOf(SubmitMulti), WithDefaults(FieldsOf(SubmitMulti), m);
    var y := BothHaveShared(x.name);
    SameName(SubmitSm, x, y);
    NormalValues(SubmitMulti, m, y);
    NormalAt(ms, w, HeaderOf(SubmitMulti, m), y);
    GoodMembersAre(ms, w);
    NormalTwice(x.codec, w[x.name]);
  }

  lemma DestinationField(d: Message, dest: Address, x: Member)
    requires x in MembersOf(SubmitSm) && DestinationName(x.name)
    ensures var v := Get(ProjectSubmitSm(d, dest), x.name);
            && v.Some? && Encode(x.codec, v.value).Some?
            && (Good(x.codec, v.value) <==> (x.name == DestinationAddr ==> 0 !in Truncate(dest.address, 21)))
            && Normal(x.codec, v.value)
               == if x.name == DestinationAddr then String(Truncate(dest.address, 21)) else v.value
  {
    hide FieldsOf, TlvOf, MembersOf, SharedIndex;
    var y := SubmitHas(x.name);
    SameName(SubmitSm, x, y);
    SharedIsField(x.name);
  }

  lemma NoTlvsProjected(m: Message, dest: Address)
    ensures forall n <- ProjectSubmitSm(m, dest) :: TlvOf(n).None?
  {
    hide TlvOf, MembersOf, SharedIndex;
    forall n <- ProjectSubmitSm(m, dest) ensures TlvOf(n).None? {
      if IsShared(n) || DestinationName(n) {
        SharedIsField(n);
      } else if TlvOf(n).Some? {
        TlvCodecKinds(n);
      }
    }
  }

  lemma {:induction false} NoChunks(order: seq<Name>, m: Message)
    requires forall n <- m :: TlvOf(n).None?
    ensures Chunks(order, m) == Some([])
  {
    hide TlvOf;
    if order != [] { NoChunks(order[1..], m); }
  }

  /**
   Every submit_sm projected from a decoded submit_multi encodes; it decodes to the shared fields
   and the destination exactly when the address has no NUL in its first 21 octets, and the address
   itself comes back exactly when it also has at most 21.
   */
  lemma ProjectionRoundTrip(m: Message, dest: Address, order: seq<Name>)
    requires EncodeMandatory(SubmitMulti, m).Some? && TlvsEncodable(m) && GoodPdu(SubmitMulti, m)
    requires Enumerates(order)
    ensures var d := NormalPdu(SubmitMulti, m);
            var p := ProjectSubmitSm(d, dest);
            && FromJson(p, order).Some?
            && EncodeMandatory(SubmitSm, p).Some? && TlvsEncodable(p)
            && NormalPdu(SubmitSm, p)
               == HeaderMessage(SubmitSm, 0, HeaderNumber(d, SequenceNumber)) + ProjectedFields(d, dest)
            && (DecodePdu(FromJson(p, order).value) == Some(NormalPdu(SubmitSm, p))
               <==> 0 !in Truncate(dest.address, 21))
  {
    hide ProjectSubmitSm, NormalPdu, GoodPdu, DecodePdu, FromJson, EncodePdu, EncodeMandatory, TlvOf;
    hide DestinationOf, HeaderMessage, IsShared, HeaderNumber;
    ProjectionEncodes(m, dest, order);
    var p := ProjectSubmitSm(NormalPdu(SubmitMulti, m), dest);
    RoundTrip(SubmitSm, p, order);
    ProjectionGood(m, dest);
    ProjectionNormal(m, dest);
  }

  lemma ProjectionEncodes(m: Message, dest: Address, order: seq<Name>)
    requires EncodeMandatory(SubmitMulti, m).Some? && TlvsEncodable(m) && GoodPdu(SubmitMulti, m)
    ensures var p := ProjectSubmitSm(NormalPdu(SubmitMulti, m), dest);
            && EncodeMandatory(SubmitSm, p).Some? && TlvsEncodable(p) && WithDefaults(FieldsOf(SubmitSm), p) == p
            && FromJson(p, order) == EncodePdu(SubmitSm, p, order) && EncodePdu(SubmitSm, p, order).Some?
            && NumericHeaders(p)
  {
    hide FieldsOf, TlvOf, Encode, Chunks, EncodeMembers, MembersOf, WithDefaults, NormalPdu, GoodPdu, EncodePdu;
    hide FromU32, FromStr, SharedIndex, HexText;
    var d := NormalPdu(SubmitMulti, m);
    var p, ms := ProjectSubmitSm(d, dest), MembersOf(SubmitSm);
    SubmitFields();
    forall x <- ms ensures x.name in p && Encode(x.codec, p[x.name]).Some? {
      if IsShared(x.name) { SharedField(m, dest, x); } else { DestinationField(d, dest, x); }
    }
    EncodableMembers(ms, p);
    AllNamesPresent(SubmitSm, p);
    NoTlvsProjected(d, dest);
    NoChunks(order, p);
    HeaderOfDecoded(SubmitMulti, m);
    NumbersAreUnique(SubmitSm, AsU32(SubmitSm));
    HeaderNamesAreNotShared();
  }

  lemma HeaderNamesAreNotShared()
    ensures !IsShared(CommandIdKey) && !IsShared(CommandStatus) && !IsShared(SequenceNumber)
  {}

  lemma ProjectionGood(m: Message, dest: Address)
    requires EncodeMandatory(SubmitMulti, m).Some? && TlvsEncodable(m) && GoodPdu(SubmitMulti, m)
    requires var p := ProjectSubmitSm(NormalPdu(SubmitMulti, m), dest);
             EncodeMandatory(SubmitSm, p).Some? && TlvsEncodable(p) && WithDefaults(FieldsOf(SubmitSm), p) == p
    ensures GoodPdu(SubmitSm, ProjectSubmitSm(NormalPdu(SubmitMulti, m), dest)) <==> 0 !in Truncate(dest.address, 21)
  {
    hide FieldsOf, TlvOf, Encode, Good, GoodMembers, NormalMembers, EncodeMembers, MembersOf, WithDefaults;
    hide Normal, NormalPdu, SharedIndex;
    var d, ms := NormalPdu(SubmitMulti, m), MembersOf(SubmitSm);
    var p := ProjectSubmitSm(d, dest);
    NoTlvsProjected(d, dest);
    GoodMembersAre(ms, p);
    EncodableMembers(ms, p);
    SubmitFields();
    forall x <- ms
      ensures Encode(x.codec, p[x.name]).Some?
      ensures Good(x.codec, p[x.name]) <==> (x.name == DestinationAddr ==> 0 !in Truncate(dest.address, 21))
    {
      SharedIsField(x.name);
      if IsShared(x.name) { SharedField(m, dest, x); } else { DestinationField(d, dest, x); }
    }
    var x := SubmitHas(DestinationAddr);
  }

  lemma DestinationPlaces(n: Name) returns (i: nat)
    requires DestinationName(n)
    ensures i < |SmFields()| && SmFields()[i].member == Member(n, if n == DestinationAddr then COctetStr(21) else U8)
  {
    i := if n == DestAddrTon then 4 else if n == DestAddrNpi then 5 else 6;
  }

  /** A submit_sm has every shared field and the destination. */
  lemma SubmitHas(n: Name) returns (x: Member)
    requires IsShared(n) || DestinationName(n)
    ensures x in MembersOf(SubmitSm) && x.name == n
    ensures DestinationName(n) ==> x.codec == if n == DestinationAddr then COctetStr(21) else U8
  {
    hide SmFields, MembersOf, SharedIndex;
    if DestinationName(n) {
      var i := DestinationPlaces(n);
      FieldIsMember(SubmitSm, SmFields(), i);
      x := SmFields()[i].member;
    } else {
      x := BothHaveShared(n);
    }
  }

  /** What a projected submit_sm decodes to, field by field. */
  function ProjectedFields(d: Message, dest: Address): (r: Message)
  {
    DestinationOf(dest.(address := Truncate(dest.address, 21))) + map n <- d | IsShared(n) :: d[n]
  }

  lemma ProjectionNormal(m: Message, dest: Address)
    requires EncodeMandatory(SubmitMulti, m).Some? && TlvsEncodable(m) && GoodPdu(SubmitMulti, m)
    requires var p := ProjectSubmitSm(NormalPdu(SubmitMulti, m), dest);
             EncodeMandatory(SubmitSm, p).Some? && TlvsEncodable(p) && WithDefaults(FieldsOf(SubmitSm), p) == p
    ensures var d := NormalPdu(SubmitMulti, m);
            (NormalPdu(SubmitSm, ProjectSubmitSm(d, dest))
             == HeaderMessage(SubmitSm, 0, HeaderNumber(d, SequenceNumber)) + ProjectedFields(d, dest))
  {
    hide NormalFixed, NormalPdu, GoodPdu, HeaderMessage, ProjectedFields, ProjectSubmitSm, HeaderNumber;
    hide EncodeMandatory, FieldsOf, WithDefaults;
    var d := NormalPdu(SubmitMulti, m);
    var p := ProjectSubmitSm(d, dest);
    HeaderNumberOf(d, dest);
    NoTlvsProjected(d, dest);
    NoTlvsNoNormal(SubmitSm, p);
    forall n ensures Get(NormalFixed(SubmitSm, p), n) == Get(HeaderOf(SubmitSm, p) + ProjectedFields(d, dest), n) {
      ProjectionNormalAt(m, dest, n);
    }
    SameMessage(NormalFixed(SubmitSm, p), HeaderOf(SubmitSm, p) + ProjectedFields(d, dest));
  }

  lemma ProjectionNormalAt(m: Message, dest: Address, n: Name)
    requires EncodeMandatory(SubmitMulti, m).Some? && TlvsEncodable(m) && GoodPdu(SubmitMulti, m)
    requires var p := ProjectSubmitSm(NormalPdu(SubmitMulti, m), dest);
             EncodeMandatory(SubmitSm, p).Some? && WithDefaults(FieldsOf(SubmitSm), p) == p
    ensures var d := NormalPdu(SubmitMulti, m);
            var p := ProjectSubmitSm(d, dest);
            Get(NormalFixed(SubmitSm, p), n) == Get(HeaderOf(SubmitSm, p) + ProjectedFields(d, dest), n)
  {
    hide FieldsOf, TlvOf, Encode, Good, GoodMembers, NormalMembers, EncodeMembers, MembersOf, WithDefaults;
    hide Normal, HeaderName, Truncate, HeaderMessage, SharedIndex, NormalPdu, ProjectSubmitSm, DestinationOf;
    hide GoodPdu;
    var d, ms := NormalPdu(SubmitMulti, m), MembersOf(SubmitSm);
    var p := ProjectSubmitSm(d, dest);
    var h := HeaderOf(SubmitSm, p);
    MembersAreSound(SubmitSm);
    DestinationNames(dest, n);
    if IsShared(n) || DestinationName(n) {
      var x := SubmitHas(n);
      SharedIsField(n);
      NormalAt(ms, p, h, x);
      if IsShared(n) { SharedField(m, dest, x); } else { DestinationField(d, dest, x); DestinationValue(d, dest, n); }
    } else {
      SubmitFields();
      NormalKeys(ms, p, h);
      if n in h { NormalMembersKeep(ms, p, h, n); }
    }
  }

  lemma DestinationNames(dest: Address, n: Name)
    ensures n in DestinationOf(dest) <==> DestinationName(n)
    ensures var short := dest.(address := Truncate(dest.address, 21));
            && (n in DestinationOf(short) <==> DestinationName(n))
            && (DestinationName(n) ==>
                  DestinationOf(short)[n] == (if n == DestinationAddr then String(short.address)
                      else DestinationOf(dest)[n]))
  {}

  lemma DestinationValue(d: Message, dest: Address, n: Name)
    requires DestinationName(n)
    ensures Get(ProjectSubmitSm(d, dest), n) == Get(DestinationOf(dest), n)
  {
    hide SharedIndex;
    SharedIsField(n);
  }

  lemma NoTlvsNoNormal(c: CommandId, p: Message)
    requires EncodeMandatory(c, p).Some? && forall n <- p :: TlvOf(n).None?
    ensures TlvsEncodable(p) && NormalPdu(c, p) == NormalFixed(c, p)
  {
    hide TlvOf, NormalFixed, EncodeMandatory;
    assert NormalTlvs(p) == map[];
  }

  lemma SameMessage(a: Message, b: Message)
    requires forall n :: Get(a, n) == Get(b, n)
    ensures a == b
  {
    forall n ensures n in a <==> n in b { assert Get(a, n) == Get(b, n); }
    forall n <- a ensures a[n] == b[n] { assert Get(a, n) == Get(b, n); }
  }

  lemma HeaderNumberOf(d: Message, dest: Address)
    ensures var p := ProjectSubmitSm(d, dest);
            HeaderNumber(p, CommandStatus) == 0 && HeaderNumber(p, SequenceNumber) == HeaderNumber(d, SequenceNumber)
  {
    hide SharedIndex, TlvOf;
    if IsShared(CommandStatus) { SharedIsField(CommandStatus); }
    if IsShared(SequenceNumber) { SharedIsField(SequenceNumber); }
  }
}
