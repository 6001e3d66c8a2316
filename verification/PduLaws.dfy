/** The laws of the PDU codec: what survives a round trip, and what is stable on the wire. */
module PduLaws {
  import opened Bytes
  import opened Values
  import opened Codec
  import opened CommandIds
  import opened Tables
  import opened Pdu

  // ---- the normal form --------------------------------------------------------------------

  predicate EncodableTlv(m: Message, n: Name)
  {
    n in m && TlvOf(n).Some? && Encode(TlvOf(n).value.codec, m[n]).Some?
  }

  predicate TlvsEncodable(m: Message)
  {
    forall n <- m :: TlvOf(n).Some? ==> EncodableTlv(m, n)
  }

  function ChunkOf(m: Message, n: Name): (k: Chunk)
    requires EncodableTlv(m, n)
  {
    Chunk(n, TlvOf(n).value, Encode(TlvOf(n).value.codec, m[n]).value)
  }

  function HeaderNumber(m: Message, k: Name): (n: u32)
  {
    if k in m && AsU64(m[k]).Some? then AsU64(m[k]).value % U32_LIMIT else 0
  }

  function HeaderOf(c: CommandId, m: Message): (h: Message)
  {
    HeaderMessage(c, HeaderNumber(m, CommandStatus), HeaderNumber(m, SequenceNumber))
  }

  function NormalFixed(c: CommandId, m: Message): (r: Message)
    requires EncodeMandatory(c, m).Some?
  {
    NormalMembers(MembersOf(c), WithDefaults(FieldsOf(c), m), HeaderOf(c, m))
  }

  function NormalTlvs(m: Message): (r: Message)
    requires TlvsEncodable(m)
  {
    map n <- m | TlvOf(n).Some? :: assert EncodableTlv(m, n); Normal(TlvOf(n).value.codec, m[n])
  }

  /** Defaults filled in, numbers truncated to their width, payloads in canonical base64. */
  function NormalPdu(c: CommandId, m: Message): (r: Message)
    requires EncodeMandatory(c, m).Some? && TlvsEncodable(m)
  {
    NormalFixed(c, m) + NormalTlvs(m)
  }

  predicate GoodTlv(m: Message, n: Name)
    requires EncodableTlv(m, n)
  {
    0 < |ChunkOf(m, n).value| < U16_LIMIT && Good(TlvOf(n).value.codec, m[n])
  }

  /** No field loses anything: see Good for mandatory fields; TLV values are 1..65535 octets. */
  predicate GoodPdu(c: CommandId, m: Message)
    requires EncodeMandatory(c, m).Some? && TlvsEncodable(m)
  {
    && GoodMembers(MembersOf(c), WithDefaults(FieldsOf(c), m))
    && forall n <- m | TlvOf(n).Some? :: assert EncodableTlv(m, n); GoodTlv(m, n)
  }

  // ---- the fixed part ---------------------------------------------------------------------

  lemma MembersAreSound(c: CommandId)
    ensures forall x <- MembersOf(c) :: WellFormed(x.codec) && SelfDelimiting(x.codec) && !UsesVarLengthInt(x.codec)
    ensures forall x <- MembersOf(c) :: PlainCodec(x.codec) && !HeaderName(x.name)
    ensures forall x <- MembersOf(c) :: x.name.Optional? ==> x.name == MessageState && x.codec == U8
    ensures forall i, j :: 0 <= i < j < |MembersOf(c)| ==> MembersOf(c)[i].name != MembersOf(c)[j].name
  {
    hide FieldsOf, HeaderName, PlainCodec;
    FieldsAreSound(c);
    forall x <- MembersOf(c)
      ensures WellFormed(x.codec) && SelfDelimiting(x.codec) && !UsesVarLengthInt(x.codec)
      ensures PlainCodec(x.codec) && !HeaderName(x.name)
      ensures x.name.Optional? ==> x.name == MessageState && x.codec == U8
    {
      var i :| 0 <= i < |MembersOf(c)| && MembersOf(c)[i] == x;
      assert SoundField(FieldsOf(c)[i]);
      PlainCodecs(x.codec);
    }
  }

  /** The one mandatory field that is also a TLV loses nothing in either place. */
  lemma OverlapIsHarmless(n: Name)
    ensures n == MessageState ==> TlvOf(n) == Some(Tlv(0x0427, U8))
    ensures TlvOf(n).Some? ==> n.Optional?
  {}

  /** A PDU with numeric header words is a 16-octet header, the mandatory part and the TLVs. */
  lemma Layout(c: CommandId, m: Message, order: seq<Name>)
    requires EncodePdu(c, m, order).Some? && NumericHeaders(m)
    ensures var b := EncodePdu(c, m, order).value;
            && |b| >= 16 && b[4..8] == Be32(AsU32(c))
            && b[..4] == Be32(|b| % U32_LIMIT)
            && b[8..12] == Be32(HeaderNumber(m, CommandStatus))
            && b[12..16] == Be32(HeaderNumber(m, SequenceNumber))
            && b[16..] == EncodeMandatory(c, m).value + Flatten(Chunks(order, m).value)
  {
    hide AsU32, EncodeMandatory, Flatten, Chunks, Be32;
    var h1, h2 := HeaderWord(m, CommandStatus), HeaderWord(m, SequenceNumber);
    var tail := EncodeMandatory(c, m).value + Flatten(Chunks(order, m).value);
    var body := Body(c, m, order).value;
    assert body == Be32(AsU32(c)) + h1 + h2 + tail;
  }

  lemma DecodeFixedOfPdu(c: CommandId, m: Message, order: seq<Name>)
    requires EncodePdu(c, m, order).Some? && NumericHeaders(m)
    ensures DecodeFixed(EncodePdu(c, m, order).value)
         == DecodeMembers(MembersOf(c), EncodeMandatory(c, m).value + Flatten(Chunks(order, m).value),
                          HeaderOf(c, m))
  {
    hide AsU32, FromU32, EncodeMandatory, Flatten, Chunks, MembersOf, EncodePdu, DecodeMembers;
    Layout(c, m, order);
    NumbersAreUnique(c, AsU32(c));
  }

  // ---- the optional part ------------------------------------------------------------------

  lemma TlvCodecKinds(n: Name)
    requires TlvOf(n).Some?
    ensures var c := TlvOf(n).value.codec;
            c in {U8, U16, U32, OptionalU8(0), VarLengthInt, Octet(false, 1)} || (c.COctetStr? && c.maxLength <= 256)
    ensures !HeaderName(n)
  {}

  /** Only an octet string can be too long for a TLV. */
  lemma LongTlvIsOctets(m: Message, n: Name)
    requires EncodableTlv(m, n)
    ensures WellFormed(TlvOf(n).value.codec)
    ensures |ChunkOf(m, n).value| >= U16_LIMIT ==> TlvOf(n).value.codec == Octet(false, 1)
  {
    hide TlvOf, Digits;
    TlvCodecKinds(n);
    if TlvOf(n).value.codec == VarLengthInt {
      assert Pow256(8) == U64_LIMIT;
      DigitCount(AsU64(m[n]).value, 8);
    }
  }

  /** Reading one TLV back gives the normal form exactly when the field is good. */
  lemma ReadbackIsNormal(m: Message, n: Name)
    requires EncodableTlv(m, n) && |ChunkOf(m, n).value| < U16_LIMIT
    ensures Readback(ChunkOf(m, n)) == Normal(TlvOf(n).value.codec, m[n]) <==> GoodTlv(m, n)
  {
    hide TlvOf, Decode, Encode, Good;
    var c, b := TlvOf(n).value.codec, ChunkOf(m, n).value;
    LongTlvIsOctets(m, n);
    Exact(c, m[n], []);
    assert b + [] == b;
    assert Normal(c, m[n]) != Null;
  }

  lemma {:induction false} ChunksCover(order: seq<Name>, m: Message)
    requires Chunks(order, m).Some?
    ensures forall n <- order :: n in m && TlvOf(n).Some?
              ==> EncodableTlv(m, n) && ChunkOf(m, n) in Chunks(order, m).value
    ensures forall k <- Chunks(order, m).value :: EncodableTlv(m, k.name) && k == ChunkOf(m, k.name)
  {
    hide TlvOf, Encode;
    if order != [] {
      ChunksCover(order[1..], m);
      assert forall n <- order :: n == order[0] || n in order[1..];
    }
  }

  /** What the TLV loop makes of the optional part when every value fits its length field. */
  lemma AbsorbAll(order: seq<Name>, m: Message, acc: Message)
    requires Chunks(order, m).Some? && Enumerates(order) && TlvsEncodable(m)
    ensures Absorb(Chunks(order, m).value, acc)
         == acc + map n <- m | TlvOf(n).Some? :: assert EncodableTlv(m, n); Readback(ChunkOf(m, n))
  {
    hide TlvOf, Encode, Readback, Absorb, Chunks;
    ChunksCover(order, m);
    var ks := Chunks(order, m).value;
    var all := acc + map n <- m | TlvOf(n).Some? :: assert EncodableTlv(m, n); Readback(ChunkOf(m, n));
    forall n
      ensures n in Absorb(ks, acc) <==> n in all
      ensures n in all ==> Absorb(ks, acc)[n] == all[n]
    {
      AbsorbOne(order, m, acc, n);
    }
  }

  lemma AbsorbOne(order: seq<Name>, m: Message, acc: Message, n: Name)
    requires Chunks(order, m).Some? && Enumerates(order) && TlvsEncodable(m)
    ensures var r := Absorb(Chunks(order, m).value, acc);
            if n in m && TlvOf(n).Some? then EncodableTlv(m, n) && n in r && r[n] == Readback(ChunkOf(m, n))
            else (n in r <==> n in acc) && (n in acc ==> r[n] == acc[n])
  {
    hide TlvOf, Encode, Readback, Absorb, Chunks;
    ChunksCover(order, m);
    var ks := Chunks(order, m).value;
    LastOccurrenceWins(ks, acc, n);
    if n in m && TlvOf(n).Some? {
      assert n in order;
      assert ChunkOf(m, n) in ks && ChunkOf(m, n).name == n;
    } else {
      assert forall k <- ks :: k.name != n;
    }
  }

  lemma ChunksNeedEncodable(order: seq<Name>, m: Message)
    requires Chunks(order, m).Some? && Enumerates(order)
    ensures TlvsEncodable(m)
  {
    ChunksCover(order, m);
  }

  // ---- what the TLV loop cannot do --------------------------------------------------------

  lemma {:induction false} TlvLoopKeeps(b: bytes, acc: Message, n: Name)
    requires DecodeTlvs(b, acc).Some? && TlvOf(n).None? && n in acc
    ensures var m := DecodeTlvs(b, acc).value; n in m && m[n] == acc[n]
    decreases |b|
  {
    hide TlvOf, TlvValue;
    if |b| >= 2 {
      var k := TlvNamed(OfBe16(b[..2])).value;
      var (v, rest) := ReadTlvValue(b);
      TlvLoopKeeps(rest, acc[k := TlvValue(TlvOf(k).value.codec, v)], n);
    }
  }

  /** Whatever the octets, an octet-string TLV is read as null or as at most 65535 octets. */
  lemma {:induction false} TlvLoopIsShort(b: bytes, acc: Message, n: Name, p: bytes)
    requires DecodeTlvs(b, acc).Some? && TlvOf(n).Some? && TlvOf(n).value.codec == Octet(false, 1)
    requires |p| >= U16_LIMIT && (n in acc ==> acc[n] != String(Base64.Encode(p)))
    ensures var m := DecodeTlvs(b, acc).value; n in m ==> m[n] != String(Base64.Encode(p))
    decreases |b|
  {
    hide TlvOf, Base64.Encode;
    if |b| >= 2 {
      var k := TlvNamed(OfBe16(b[..2])).value;
      var (v, rest) := ReadTlvValue(b);
      if k == n && v.Some? && Base64.Encode(v.value) == Base64.Encode(p) {
        Base64.EncodeInjective(v.value, p);
      }
      TlvLoopIsShort(rest, acc[k := TlvValue(TlvOf(k).value.codec, v)], n, p);
    }
  }

  // ---- the round trip ---------------------------------------------------------------------

  lemma {:induction false} DecodedKeys(ms: seq<Member>, b: bytes, acc: Message)
    requires DecodeMembers(ms, b, acc).Got?
    ensures DecodeMembers(ms, b, acc).v.Keys == acc.Keys + set x <- ms :: x.name
    decreases |ms|
  {
    hide Decode;
    if ms != [] {
      var p := Decode(ms[0].codec, b);
      DecodedKeys(ms[1..], p.rest, acc[ms[0].name := p.v]);
      assert forall x <- ms :: x == ms[0] || x in ms[1..];
    }
  }

  /** Mandatory part and optional part both survive. */
  lemma RoundTripGood(c: CommandId, m: Message, order: seq<Name>)
    requires EncodePdu(c, m, order).Some? && NumericHeaders(m) && Enumerates(order)
    requires TlvsEncodable(m) && GoodMembers(MembersOf(c), WithDefaults(FieldsOf(c), m))
    requires forall n <- m :: TlvOf(n).Some? ==> EncodableTlv(m, n) && |ChunkOf(m, n).value| < U16_LIMIT
    ensures DecodePdu(EncodePdu(c, m, order).value)
         == Some(NormalFixed(c, m) + ReadbackTlvs(m))
  {
    hide TlvOf, FieldsOf, Good, GoodMembers, Encode, EncodeMembers, DecodeMembers, NormalMembers, EncodePdu;
    hide DecodeTlvs, Flatten, Chunks, MembersOf, WithDefaults, HeaderMessage, DecodeFixed;
    hide Readback;
    var ks := Chunks(order, m).value;
    DecodeFixedOfPdu(c, m, order);
    MembersAreSound(c);
    ExactMembers(MembersOf(c), WithDefaults(FieldsOf(c), m), Flatten(ks), HeaderOf(c, m));
    ChunksCover(order, m);
    TlvLoopIsFold(ks, [], NormalFixed(c, m));
    assert Flatten(ks) + [] == Flatten(ks);
    AbsorbAll(order, m, NormalFixed(c, m));
  }

  /** A spoilt mandatory field shows: no TLV can hide it. */
  lemma RoundTripBadMandatory(c: CommandId, m: Message, order: seq<Name>)
    requires EncodePdu(c, m, order).Some? && NumericHeaders(m) && Enumerates(order)
    requires TlvsEncodable(m) && !GoodMembers(MembersOf(c), WithDefaults(FieldsOf(c), m))
    ensures DecodePdu(EncodePdu(c, m, order).value) != Some(NormalPdu(c, m))
  {
    hide TlvOf, FieldsOf, Good, GoodMembers, Encode, EncodeMembers, DecodeMembers, NormalMembers, EncodePdu;
    hide DecodeTlvs, Flatten, Chunks, MembersOf, WithDefaults, HeaderMessage, DecodeFixed;
    var b, ks := EncodePdu(c, m, order).value, Chunks(order, m).value;
    DecodeFixedOfPdu(c, m, order);
    MembersAreSound(c);
    var d := WithDefaults(FieldsOf(c), m);
    ExactMembers(MembersOf(c), d, Flatten(ks), HeaderOf(c, m));
    var p := DecodeFixed(b);
    if p.Got? && DecodePdu(b).Some? {
      var x :| x in MembersOf(c) && SpoiltMember(x, d, p.v, NormalFixed(c, m));
      assert SpoiltMember(x, d, p.v, NormalFixed(c, m));
      SpoiltIsNotTlv(x, d);
      TlvLoopKeeps(p.rest, p.v, x.name);
      assert NormalPdu(c, m)[x.name] == NormalFixed(c, m)[x.name];
    }
  }

  lemma SpoiltIsNotTlv(x: Member, d: Message)
    requires x.name.Optional? ==> x.codec == U8
    requires x.name in d && Encode(x.codec, d[x.name]).Some? && !Good(x.codec, d[x.name])
    ensures TlvOf(x.name).None?
  {
    if TlvOf(x.name).Some? { OverlapIsHarmless(x.name); }
  }

  /** A TLV value that is too long for its length field cannot come back either. */
  lemma RoundTripLongTlv(c: CommandId, m: Message, order: seq<Name>, n: Name)
    requires EncodePdu(c, m, order).Some? && NumericHeaders(m) && Enumerates(order) && TlvsEncodable(m)
    requires EncodableTlv(m, n) && |ChunkOf(m, n).value| >= U16_LIMIT
    ensures DecodePdu(EncodePdu(c, m, order).value) != Some(NormalPdu(c, m))
  {
    hide TlvOf, FieldsOf, EncodeMembers, DecodeMembers, NormalMembers, EncodePdu;
    hide DecodeTlvs, Flatten, Chunks, MembersOf, WithDefaults, DecodeFixed;
    hide Base64.Encode, Base64.Decode;
    var b := EncodePdu(c, m, order).value;
    LongTlvIsOctets(m, n);
    TlvCodecKinds(n);
    DecodeFixedOfPdu(c, m, order);
    MembersAreSound(c);
    var p := DecodeFixed(b);
    if p.Got? && DecodePdu(b).Some? {
      var tail := EncodeMandatory(c, m).value + Flatten(Chunks(order, m).value);
      DecodedKeys(MembersOf(c), tail, HeaderOf(c, m));
      if n in p.v {
        var x :| x in MembersOf(c) && x.name == n;
        OverlapIsHarmless(n);
      }
      TlvLoopIsShort(p.rest, p.v, n, Payload(m[n].s));
      assert NormalPdu(c, m)[n] == Normal(Octet(false, 1), m[n]);
    }
  }

  function ReadbackTlvs(m: Message): (r: Message)
    requires TlvsEncodable(m)
  {
    map n <- m | TlvOf(n).Some? :: assert EncodableTlv(m, n); Readback(ChunkOf(m, n))
  }

  /** With a good mandatory part, the normal form comes back exactly when each optional field is good. */
  lemma RoundTripTlvs(c: CommandId, m: Message)
    requires EncodeMandatory(c, m).Some? && TlvsEncodable(m) && GoodMembers(MembersOf(c), WithDefaults(FieldsOf(c), m))
    requires forall n <- m :: TlvOf(n).Some? ==> EncodableTlv(m, n) && |ChunkOf(m, n).value| < U16_LIMIT
    ensures NormalFixed(c, m) + ReadbackTlvs(m) == NormalPdu(c, m) <==> GoodPdu(c, m)
  {
    hide TlvOf, FieldsOf, Good, GoodMembers, Encode, EncodeMandatory, NormalFixed, MembersOf, WithDefaults;
    hide Readback, Normal;
    forall n <- m | TlvOf(n).Some?
      ensures ReadbackTlvs(m)[n] == NormalTlvs(m)[n] <==> GoodTlv(m, n)
    {
      ReadbackIsNormal(m, n);
    }
    if GoodPdu(c, m) {
      assert ReadbackTlvs(m) == NormalTlvs(m);
    } else {
      var n :| n in m && TlvOf(n).Some? && !GoodTlv(m, n);
      assert (NormalFixed(c, m) + ReadbackTlvs(m))[n] != NormalPdu(c, m)[n];
    }
  }

  /**
   For every command, message and iteration order of the optional fields: decoding the encoding
   gives the normal form exactly when no field is one the wire format cannot carry.
   */
  lemma RoundTrip(c: CommandId, m: Message, order: seq<Name>)
    requires EncodePdu(c, m, order).Some? && NumericHeaders(m) && Enumerates(order)
    ensures TlvsEncodable(m)
    ensures DecodePdu(EncodePdu(c, m, order).value) == Some(NormalPdu(c, m)) <==> GoodPdu(c, m)
  {
    hide TlvOf, FieldsOf, Good, GoodMembers, Encode, EncodeMembers, NormalMembers, NormalPdu, NormalFixed, EncodePdu;
    hide Chunks, MembersOf, WithDefaults, DecodePdu, Readback;
    ChunksNeedEncodable(order, m);
    if !GoodMembers(MembersOf(c), WithDefaults(FieldsOf(c), m)) {
      RoundTripBadMandatory(c, m, order);
    } else if n :| n in m && TlvOf(n).Some? && EncodableTlv(m, n) && |ChunkOf(m, n).value| >= U16_LIMIT {
      RoundTripLongTlv(c, m, order, n);
    } else {
      RoundTripGood(c, m, order);
      RoundTripTlvs(c, m);
    }
  }
}
