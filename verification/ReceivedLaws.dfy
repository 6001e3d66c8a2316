/**
 Received octets sent on: what the receiver of a deliver_sm reads when the submit_sm came from any sender,
 with strings longer than the tables allow, repeated TLVs and values in odd forms.
 */
module ReceivedLaws {
  import opened Bytes
  import opened Values
  import opened Codec
  import opened CommandIds
  import opened Tables
  import opened Pdu
  import opened PduLaws
  import opened WireLaws
  import opened SmppMessage
  import opened Forwarding
  import opened ServerLaws
  import opened MultiLaws
  import Base64

  // ---- one value --------------------------------------------------------------------------

  /**
   A decoded value after it was encoded and decoded once more: strings cut to the length of their field,
   the octets of a country code reversed, a missing optional octet filled in.
   */
  function Passed(c: Codec, v: Value): (r: Value)
  {
    match c
    case COctetStr(n) => if v.String? then String(Truncate(v.s, n)) else v
    case VarLengthInt => if AsU64(v).Some? then Number(OfDigits(0, Digits(AsU64(v).value))) else v
    case OptionalU8(d) => if v == Null then Number(d) else v
    case _ => v
  }

  lemma NoNulInPart(s: bytes, n: nat)
    requires 0 !in s
    ensures 0 !in Truncate(s, n)
  {}

  /** A mandatory field read from some octets survives. */
  lemma FieldSurvives(c: Codec, at: bytes)
    requires (c == U8 || c.COctetStr? || c == Octet(true, 1)) && Decode(c, at).Got?
    ensures var v := Decode(c, at).v; Encode(c, v).Some? && Good(c, v) && Normal(c, v) == Passed(c, v)
  {
    hide Base64.Encode, Base64.Decode, Truncate;
    if c.COctetStr? {
      NoNulInPart(Decode(c, at).v.s, c.maxLength);
    } else if c.Octet? {
      Base64.DecodeEncode(at[1..][..at[0]]);
    }
  }

  predicate TlvKind(c: Codec)
  {
    c in {U8, U16, U32, OptionalU8(0), VarLengthInt, Octet(false, 1)} || (c.COctetStr? && c.maxLength <= 256)
  }

  /** A TLV value that was read survives, except a country code of zero, which is written as nothing. */
  lemma TlvSurvives(c: Codec, at: bytes)
    requires TlvKind(c) && 0 < |at| < U16_LIMIT && Decode(c, at).Got?
    ensures var v := Decode(c, at).v;
            && Encode(c, v).Some? && Good(c, v) && Normal(c, v) == Passed(c, v)
            && |Encode(c, v).value| < U16_LIMIT
            && (Encode(c, v).value == [] <==> c == VarLengthInt && v == Number(0))
  {
    hide Base64.Encode, Base64.Decode, Truncate, Digits, OfDigits, Be16, Be32;
    if c.COctetStr? {
      NoNulInPart(Decode(c, at).v.s, c.maxLength);
      TruncatedLength(Decode(c, at).v.s, c.maxLength);
    } else if c == Octet(false, 1) {
      Base64.DecodeEncode(at);
    } else if c == VarLengthInt {
      assert Pow256(8) == U64_LIMIT;
      DigitCount(OfDigits(0, at), 8);
      NoDigitsIff(OfDigits(0, at));
    }
  }

  lemma TruncatedLength(s: bytes, n: nat)
    ensures |Truncate(s, n)| <= n
  {}

  lemma NoDigitsIff(n: nat)
    ensures Digits(n) == [] <==> n == 0
  {}

  // ---- one message ------------------------------------------------------------------------

  lemma {:induction false} RawValues(b: bytes)
    ensures forall t <- RawTlvs(b) :: t.value.Some? ==> 0 < |t.value.value| < U16_LIMIT
    decreases |b|
  {
    if |b| >= 2 { RawValues(ReadTlvValue(b).1); }
  }

  lemma LastIsOne(ts: seq<RawTlv>, tag: u16)
    ensures LastOf(ts, tag).Some? ==> LastOf(ts, tag).value in ts && LastOf(ts, tag).value.tag == tag
  {}

  /** An optional field of a received submit_sm: what it is after being sent on. */
  lemma TlvPassed(b: bytes, n: Name)
    requires DecodePdu(b).Some? && CommandOf(b) == SubmitSm && LastTlvsReadable(b)
    requires TlvOf(n).Some? && n in DecodePdu(b).value
    ensures var c, v := TlvOf(n).value.codec, DecodePdu(b).value[n];
            && Encode(c, v).Some? && Good(c, v) && Normal(c, v) == Passed(c, v)
            && |Encode(c, v).value| < U16_LIMIT
            && (Encode(c, v).value == [] <==> n == DestAddrNpCountry && v == Number(0))
  {
    hide TlvCodec, Decode, Encode, Good, Normal, Passed, RawTlvs, LastOf, DecodeTlvs, DecodeFixed, DecodePdu;
    TlvCodecKinds(n);
    CountryCodec(n);
    var tag := n.tag;
    var c := TlvCodec(tag).value;
    var ts := RawTlvs(OptionalPart(b));
    TlvValueAt(b, tag);
    LastIsOne(ts, tag);
    RawValues(OptionalPart(b));
    var last := LastOf(ts, tag).value;
    if Readable(last) {
      TlvSurvives(c, last.value.value);
    } else {
      AlertReads(last);
      NullSurvives(c);
    }
  }

  lemma TlvValueAt(b: bytes, tag: u16)
    requires DecodePdu(b).Some? && CommandOf(b) == SubmitSm && TlvCodec(tag).Some?
            && Optional(tag) in DecodePdu(b).value
    ensures var last := LastOf(RawTlvs(OptionalPart(b)), tag);
            last.Some? && DecodePdu(b).value[Optional(tag)] == TlvValue(TlvCodec(tag).value, last.value.value)
  {
    hide TlvCodec, TlvValue, RawTlvs, LastOf, DecodeTlvs, DecodeFixed;
    var p := DecodeFixed(b);
    LastTlvDecides(p.rest, p.v, tag);
    FixedHasNoTlvs(b, Optional(tag));
  }

  lemma AlertReads(t: RawTlv)
    requires TlvCodec(t.tag).Some? && !Readable(t)
    ensures TlvValue(TlvCodec(t.tag).value, t.value) == Null
    ensures t.tag == AlertOnMessageDelivery.tag ==> TlvCodec(t.tag).value == OptionalU8(0)
  {
    hide Decode;
  }

  lemma NullSurvives(c: Codec)
    requires c == OptionalU8(0)
    ensures Encode(c, Null) == Some([0]) && Good(c, Null) && Normal(c, Null) == Passed(c, Null)
  {}

  /** A mandatory field of a received submit_sm: what it is after being sent on. */
  lemma MemberPassed(b: bytes, x: Member)
    requires DecodePdu(b).Some? && CommandOf(b) == SubmitSm && x in MembersOf(SubmitSm)
    ensures x.name in DecodePdu(b).value
    ensures var v := DecodePdu(b).value[x.name];
            Encode(x.codec, v).Some? && Good(x.codec, v) && Normal(x.codec, v) == Passed(x.codec, v)
  {
    hide DecodePdu, CommandOf, Decode, Encode, Good, Normal, Passed, TlvOf, MembersOf;
    SubmitHasNoOverlap();
    SubmitCodecs();
    var at := DecodedField(b, x);
    FieldSurvives(x.codec, at);
  }

  lemma SubmitCodecs()
    ensures forall x <- MembersOf(SubmitSm) :: x.codec == U8 || x.codec.COctetStr? || x.codec == Octet(true, 1)
  {
    forall x <- MembersOf(SubmitSm) ensures x.codec == U8 || x.codec.COctetStr? || x.codec == Octet(true, 1) {
      var i :| 0 <= i < |SmFields()| && SmFields()[i].member == x;
    }
  }

  function SentOn(m: Message, sequence: u32): (d: Message)
  {
    Relabel(m, Number(AsU32(DeliverSm)), sequence)
  }

  lemma SentOnFields(b: bytes, sequence: u32, order: seq<Name>)
    requires DecodePdu(b).Some? && CommandOf(b) == SubmitSm && LastTlvsReadable(b) && Enumerates(order)
    ensures var d := SentOn(DecodePdu(b).value, sequence);
            && (forall n :: !HeaderName(n) ==> Get(d, n) == Get(DecodePdu(b).value, n))
            && NumericHeaders(d) && HeaderNumber(d, SequenceNumber) == sequence
            && WithDefaults(FieldsOf(DeliverSm), d) == d
            && FromJson(d, order) == EncodePdu(DeliverSm, d, order) && EncodePdu(DeliverSm, d, order).Some?
            && EncodeMandatory(DeliverSm, d).Some? && TlvsEncodable(d)
  {
    hide DecodePdu, CommandOf, Encode, TlvOf, MembersOf, FieldsOf, HeaderName, LastTlvsReadable, Enumerates, FromJson;
    hide EncodePdu, HeaderNumber, NumericHeaders, WithDefaults, EncodeMembers, Chunks;
    var m := DecodePdu(b).value;
    var d := SentOn(m, sequence);
    ForwardingSubmitSm(b, sequence, order);
    DecodedSubmitFields(b);
    ReceivedStatus(b);
    RelabelledHeader(m, OfBe32(b[8..12]), sequence, order);
    SubmitAndDeliverShareFields();
    MembersAreSound(SubmitSm);
    assert MembersOf(DeliverSm) == MembersOf(SubmitSm);
    forall x <- MembersOf(DeliverSm) ensures x.name in d { assert Get(d, x.name) == Get(m, x.name); }
    AllNamesPresent(DeliverSm, d);
    PduParts(DeliverSm, d, order);
  }

  lemma PduParts(c: CommandId, d: Message, order: seq<Name>)
    requires EncodePdu(c, d, order).Some? && Enumerates(order)
    ensures EncodeMandatory(c, d).Some? && TlvsEncodable(d)
  {
    hide Chunks, EncodeMandatory, Enumerates;
    ChunksNeedEncodable(order, d);
  }

  lemma ReceivedStatus(b: bytes)
    requires DecodePdu(b).Some?
    ensures |b| >= HEADER_LENGTH && Get(DecodePdu(b).value, CommandStatus) == Some(Number(OfBe32(b[8..12])))
  {
    hide DecodePdu, CommandOf, AsU32, HexText, NameOf, HeaderName;
    HeaderNames(CommandStatus);
    DecodedHeader(b, CommandStatus);
  }

  lemma SentOnIsGoodIff(b: bytes, sequence: u32, order: seq<Name>)
    requires DecodePdu(b).Some? && CommandOf(b) == SubmitSm && LastTlvsReadable(b) && Enumerates(order)
    requires var d := SentOn(DecodePdu(b).value, sequence); EncodeMandatory(DeliverSm, d).Some? && TlvsEncodable(d)
    ensures GoodPdu(DeliverSm, SentOn(DecodePdu(b).value, sequence))
            <==> Get(DecodePdu(b).value, DestAddrNpCountry) != Some(Number(0))
  {
    hide DecodePdu, CommandOf, Encode, Good, Normal, Passed, TlvOf, MembersOf, FieldsOf, HeaderName, LastTlvsReadable;
    hide Enumerates, WithDefaults, EncodeMembers, GoodMembers, SentOn;
    var m, ms := DecodePdu(b).value, MembersOf(DeliverSm);
    var d := SentOn(m, sequence);
    SentOnFields(b, sequence, order);
    SubmitAndDeliverShareFields();
    assert ms == MembersOf(SubmitSm);
    MembersAreSound(DeliverSm);
    forall x <- ms ensures x.name in d && Encode(x.codec, d[x.name]).Some? && Good(x.codec, d[x.name]) {
      MemberPassed(b, x);
      assert Get(d, x.name) == Get(m, x.name);
    }
    GoodMembersAre(ms, d);
    forall n | TlvOf(n).Some?
      ensures Get(d, n) == Get(m, n)
      ensures n in d && EncodableTlv(d, n) ==> (GoodTlv(d, n) <==> !(n == DestAddrNpCountry && d[n] == Number(0)))
    {
      TlvsAreSound(n);
      assert Get(d, n) == Get(m, n);
      if n in m { TlvPassed(b, n); }
    }
    CountryIsTlv();
  }

  lemma CountryIsTlv()
    ensures TlvOf(DestAddrNpCountry).Some?
  {}

  /**
   Whatever submit_sm was received with readable last TLVs: sent on as deliver_sm it is read in its
   normal form exactly when it has no country code of zero.
   */
  lemma ReceivedIsReadOn(b: bytes, sequence: u32, order: seq<Name>)
    requires DecodePdu(b).Some? && CommandOf(b) == SubmitSm && LastTlvsReadable(b) && Enumerates(order)
    ensures var d := SentOn(DecodePdu(b).value, sequence);
            && EncodeMandatory(DeliverSm, d).Some? && TlvsEncodable(d) && FromJson(d, order).Some?
            && (DecodePdu(FromJson(d, order).value) == Some(NormalPdu(DeliverSm, d))
                <==> Get(DecodePdu(b).value, DestAddrNpCountry) != Some(Number(0)))
  {
    hide DecodePdu, CommandOf, EncodeMandatory, TlvsEncodable, LastTlvsReadable, Enumerates, FromJson, EncodePdu;
    hide NormalPdu, GoodPdu, SentOn, NumericHeaders, WithDefaults, FieldsOf;
    var d := SentOn(DecodePdu(b).value, sequence);
    SentOnFields(b, sequence, order);
    SentOnIsGoodIff(b, sequence, order);
    RoundTrip(DeliverSm, d, order);
  }

  /** And that normal form is the received message field by field, each value as it is passed on. */
  lemma ReadOnFields(b: bytes, sequence: u32, order: seq<Name>, n: Name, c: Codec)
    requires DecodePdu(b).Some? && CommandOf(b) == SubmitSm && LastTlvsReadable(b) && Enumerates(order)
    requires Member(n, c) in MembersOf(SubmitSm) || (TlvOf(n).Some? && TlvOf(n).value.codec == c)
    ensures var m, d := DecodePdu(b).value, SentOn(DecodePdu(b).value, sequence);
            && EncodeMandatory(DeliverSm, d).Some? && TlvsEncodable(d)
            && Get(NormalPdu(DeliverSm, d), n) == (if n in m then Some(Passed(c, m[n])) else None)
  {
    hide DecodePdu, CommandOf, Encode, Good, Normal, Passed, TlvOf, MembersOf, FieldsOf, HeaderName, LastTlvsReadable;
    hide Enumerates, WithDefaults, EncodeMembers, NormalMembers, SentOn, NormalPdu, GoodPdu;
    var m, ms := DecodePdu(b).value, MembersOf(DeliverSm);
    var d := SentOn(m, sequence);
    SentOnFields(b, sequence, order);
    SubmitAndDeliverShareFields();
    assert ms == MembersOf(SubmitSm);
    MembersAreSound(DeliverSm);
    if Member(n, c) in ms {
      var x := Member(n, c);
      MemberPassed(b, x);
      assert Get(d, n) == Get(m, n);
      NormalValues(DeliverSm, d, x);
      NormalAt(ms, d, HeaderOf(DeliverSm, d), x);
    } else {
      TlvsAreSound(n);
      assert Get(d, n) == Get(m, n);
      NormalTlvAt(DeliverSm, d, n);
      if n in m { TlvPassed(b, n); }
    }
  }
}
