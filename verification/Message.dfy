/** SMPP messages: the codec loops over header, mandatory fields and TLVs. */
module SmppMessage {
  import opened Bytes
  import opened Values
  import opened Codec
  import opened CommandIds
  import opened Tables
  import opened Pdu
  import opened FieldCodec

  /** Appends a TLV, its value being encoded into a buffer of its own first. */
  method EncodeTlv(t: Tlv, v: Value, buffer: BytesMut) returns (ok: bool)
    modifies buffer
    ensures ok <==> Encode(t.codec, v).Some?
    ensures var e := Encode(t.codec, v);
            ok ==> buffer.data == old(buffer.data) + (Be16(t.tag) + Be16(|e.value| % U16_LIMIT) + e.value)
    ensures !ok ==> buffer.data == old(buffer.data)
  {
    var temp := new BytesMut([]);
    ok := EncodeField(t.codec, v, temp);
    if ok {
      buffer.PutU16(t.tag);
      buffer.PutU16(|temp.data| % U16_LIMIT);
      buffer.Put(temp.data);
    }
  }

  /** Reads tag, length and value; a short or empty value leaves the buffer after what was read. */
  method ReadTlv(buffer: BytesMut) returns (tag: Option<nat>, value: Option<bytes>)
    modifies buffer
    ensures |old(buffer.data)| >= 2 ==>
              && tag == Some(OfBe16(old(buffer.data)[..2]))
              && ReadTlvValue(old(buffer.data)) == (value, buffer.data)
    ensures |old(buffer.data)| < 2 ==> tag.None? && value.None? && buffer.data == old(buffer.data)
  {
    tag := buffer.ReadU16();
    if tag.None? { return None, None; }
    var length := buffer.ReadU16();
    if length.None? { return tag, None; }
    ghost var b, n := old(buffer.data), length.value;
    assert b[2..][..2] == b[2..4] && b[2..][2..] == b[4..];
    value := buffer.Read(length.value);
    assert value.Some? ==> b[4..][..n] == b[4..4 + n] && b[4..][n..] == b[4 + n..];
  }

  /** Reads a TLV and decodes its value in a buffer of its own. */
  method DecodeTlv(t: Tlv, buffer: BytesMut) returns (r: Option<Value>)
    requires |buffer.data| >= 2 && OfBe16(buffer.data[..2]) == t.tag
    modifies buffer
    ensures var (v, rest) := ReadTlvValue(old(buffer.data));
            buffer.data == rest && (if r.Some? then r.value else Null) == TlvValue(t.codec, v)
  {
    hide Decode;
    var tag, value := ReadTlv(buffer);
    if value.None? || tag != Some(t.tag as nat) { return None; }
    var temp := new BytesMut(value.value);
    r := DecodeField(t.codec, temp);
  }

  method EncodeHeaderWord(m: Message, k: Name, buffer: BytesMut)
    modifies buffer
    ensures buffer.data == old(buffer.data) + HeaderWord(m, k)
  {
    var v := Get(m, k);
    var n := if v.Some? then AsU64(v.value) else Some(0);
    if n.Some? {
      buffer.PutU32(n.value % U32_LIMIT);
    }
  }

  lemma {:induction false} DefaultsAt(fs: seq<Field>, m: Message, i: nat)
    requires i < |fs|
    requires forall i, j :: 0 <= i < j < |fs| ==> fs[i].member.name != fs[j].member.name
    ensures var f, d := fs[i], WithDefaults(fs, m);
            Get(d, f.member.name) == if f.member.name in m then Get(m, f.member.name) else f.fallback
    decreases |fs|
  {
    var n := fs[0].member.name;
    var m' := if n !in m && fs[0].fallback.Some? then m[n := fs[0].fallback.value] else m;
    if i > 0 {
      DefaultsAt(fs[1..], m', i - 1);
    } else {
      DefaultsKeep(fs[1..], m', n);
    }
  }

  lemma {:induction false} DefaultsKeep(fs: seq<Field>, m: Message, n: Name)
    ensures n in m ==> n in WithDefaults(fs, m) && WithDefaults(fs, m)[n] == m[n]
    ensures n !in m && (forall f <- fs :: f.member.name != n) ==> n !in WithDefaults(fs, m)
    decreases |fs|
  {
    if fs != [] {
      var k := fs[0].member.name;
      DefaultsKeep(fs[1..], if k !in m && fs[0].fallback.Some? then m[k := fs[0].fallback.value] else m, n);
    }
  }

  /** Appends the mandatory part, taking defaults for missing fields. */
  method EncodeMandatoryPart(c: CommandId, m: Message, buffer: BytesMut) returns (ok: bool)
    modifies buffer
    ensures ok <==> EncodeMandatory(c, m).Some?
    ensures ok ==> buffer.data == old(buffer.data) + EncodeMandatory(c, m).value
  {
    hide FieldsOf, Encode, WithDefaults, EncodeMembers, MembersOf, Prepend;
    var fs, ms := FieldsOf(c), MembersOf(c);
    ghost var d := WithDefaults(fs, m);
    ghost var done: bytes := [];
    assert ms[0..] == ms && Prepend([], EncodeMembers(ms, d)) == EncodeMembers(ms, d);
    for i := 0 to |fs|
      invariant buffer.data == old(buffer.data) + done
      invariant EncodeMembers(ms, d) == Prepend(done, EncodeMembers(ms[i..], d))
    {
      var f := fs[i];
      MandatoryStep(c, m, i);
      PrependNothing(done);
      var v := if f.member.name in m then Some(m[f.member.name]) else f.fallback;
      if v.None? { return false; }
      ok := EncodeField(f.member.codec, v.value, buffer);
      if !ok { return; }
      PrependTwice(done, Encode(f.member.codec, v.value).value, EncodeMembers(ms[i + 1..], d));
      done := done + Encode(f.member.codec, v.value).value;
    }
    MandatoryEnd(ms, d, done);
    ok := true;
  }

  /** The part of the members from the i-th field on, by what is given for that field. */
  lemma MandatoryStep(c: CommandId, m: Message, i: nat)
    requires i < |FieldsOf(c)|
    ensures var f, ms, d := FieldsOf(c)[i], MembersOf(c), WithDefaults(FieldsOf(c), m);
            var v := if f.member.name in m then Some(m[f.member.name]) else f.fallback;
            EncodeMembers(ms[i..], d) ==
              if v.None? || Encode(f.member.codec, v.value).None? then None
              else Prepend(Encode(f.member.codec, v.value).value, EncodeMembers(ms[i + 1..], d))
  {
    hide FieldsOf, Encode, WithDefaults, Prepend;
    FieldsAreSound(c);
    var ms := MembersOf(c);
    DefaultsAt(FieldsOf(c), m, i);
    assert ms[i..][0] == FieldsOf(c)[i].member && ms[i..][1..] == ms[i + 1..];
  }

  lemma PrependNothing(done: bytes)
    ensures Prepend(done, None) == None
  {}

  lemma MandatoryEnd(ms: seq<Member>, d: Message, done: bytes)
    ensures Prepend(done, EncodeMembers(ms[|ms|..], d)) == Some(done)
  {
    var none: seq<Member> := [];
    assert ms[|ms|..] == none && EncodeMembers(none, d) == Some([]) && done + [] == done;
  }

  function Before(ks: seq<Chunk>, rest: Option<seq<Chunk>>): (r: Option<seq<Chunk>>)
  {
    if rest.None? then None else Some(ks + rest.value)
  }

  lemma BeforeTwice(a: seq<Chunk>, b: seq<Chunk>, rest: Option<seq<Chunk>>)
    ensures Before(a, Before(b, rest)) == Before(a + b, rest)
    ensures a == [] ==> Before(a, rest) == rest
  {
    if rest.Some? { assert a + (b + rest.value) == a + b + rest.value && [] + rest.value == rest.value; }
  }

  /** Appends the optional part: the table of optional fields is visited in the given order. */
  method EncodeOptionalPart(m: Message, order: seq<Name>, buffer: BytesMut) returns (ok: bool)
    modifies buffer
    ensures ok <==> Chunks(order, m).Some?
    ensures ok ==> buffer.data == old(buffer.data) + Flatten(Chunks(order, m).value)
  {
    hide TlvOf, Encode, Before, Chunks, Flatten;
    ghost var ks: seq<Chunk> := [];
    assert order[0..] == order;
    NoOrder([], m);
    BeforeTwice([], [], Chunks(order, m));
    for i := 0 to |order|
      invariant buffer.data == old(buffer.data) + Flatten(ks)
      invariant Chunks(order, m) == Before(ks, Chunks(order[i..], m))
    {
      var n := order[i];
      assert order[i..][0] == n && order[i..][1..] == order[i + 1..];
      ChunksStep(order[i..], m);
      if n in m && TlvOf(n).Some? {
        var t := TlvOf(n).value;
        ok := EncodeTlv(t, m[n], buffer);
        if !ok { BeforeNone(ks); return; }
        ghost var k := Chunk(n, t, Encode(t.codec, m[n]).value);
        FlattenAppend(ks, [k]);
        FlattenOne(k);
        BeforeTwice(ks, [k], Chunks(order[i + 1..], m));
        ks := ks + [k];
      }
    }
    BeforeNone(ks);
    NoOrder(order[|order|..], m);
    ok := true;
  }

  lemma NoOrder(order: seq<Name>, m: Message)
    ensures order == [] ==> Chunks(order, m) == Some([])
    ensures Flatten([]) == []
  {}

  lemma BeforeNone(ks: seq<Chunk>)
    ensures Before(ks, None) == None && Before(ks, Some([])) == Some(ks)
  {
    assert ks + [] == ks;
  }

  lemma ChunksStep(order: seq<Name>, m: Message)
    requires order != []
    ensures var n, rest := order[0], Chunks(order[1..], m);
            Chunks(order, m) ==
              if n !in m || TlvOf(n).None? then rest
              else
                var b := Encode(TlvOf(n).value.codec, m[n]);
                if b.None? then None else Before([Chunk(n, TlvOf(n).value, b.value)], rest)
  {
    hide TlvOf, Encode;
  }

  lemma FlattenOne(k: Chunk)
    ensures Flatten([k]) == ChunkBytes(k)
  {
    var none: seq<Chunk> := [];
    assert [k][1..] == none && Flatten(none) == [];
  }

  lemma {:induction false} FlattenAppend(a: seq<Chunk>, b: seq<Chunk>)
    ensures Flatten(a + b) == Flatten(a) + Flatten(b)
    decreases |a|
  {
    if a == [] {
      assert a + b == b;
    } else {
      FlattenAppend(a[1..], b);
      assert (a + b)[1..] == a[1..] + b;
    }
  }

  /** Encodes a message for a known command. */
  method EncodeMessageWithFields(c: CommandId, m: Message, order: seq<Name>) returns (r: Option<bytes>)
    ensures r == EncodePdu(c, m, order)
  {
    hide AsU32, EncodeMandatory, Chunks, Flatten, Be32, HeaderWord, UpdateLength, EncodePdu;
    var buffer := new BytesMut([]);
    buffer.PutU32(0);
    assert buffer.data == Be32(0);
    buffer.PutU32(AsU32(c));
    EncodeHeaderWord(m, CommandStatus, buffer);
    EncodeHeaderWord(m, SequenceNumber, buffer);
    var ok := EncodeMandatoryPart(c, m, buffer);
    if !ok { return None; }
    ok := EncodeOptionalPart(m, order, buffer);
    if !ok { return None; }
    FinishedPdu(c, m, order, buffer.data);
    r := Some(UpdateLength(buffer.data));
  }

  /** The six parts in a row, with their length over the first, are the PDU. */
  lemma FinishedPdu(c: CommandId, m: Message, order: seq<Name>, data: bytes)
    requires EncodeMandatory(c, m).Some? && Chunks(order, m).Some?
    requires data == Be32(0) + Be32(AsU32(c)) + HeaderWord(m, CommandStatus) + HeaderWord(m, SequenceNumber)
                     + EncodeMandatory(c, m).value + Flatten(Chunks(order, m).value)
    ensures EncodePdu(c, m, order) == Some(UpdateLength(data))
  {
    hide AsU32, EncodeMandatory, Chunks, Flatten, Be32, HeaderWord;
    SixParts(Be32(0), Be32(AsU32(c)), HeaderWord(m, CommandStatus), HeaderWord(m, SequenceNumber),
             EncodeMandatory(c, m).value, Flatten(Chunks(order, m).value));
    DropPrefix(Be32(0), Body(c, m, order).value);
  }

  lemma SixParts(a: bytes, b: bytes, c: bytes, d: bytes, e: bytes, f: bytes)
    ensures a + b + c + d + e + f == a + (b + c + d + e + f)
  {}

  /** Writes the length of the message over its first word. */
  function UpdateLength(b: bytes): (r: bytes)
    requires |b| >= 4
    ensures |r| == |b| && r[..4] == Be32(|b| % U32_LIMIT) && r[4..] == b[4..]
  {
    Be32(|b| % U32_LIMIT) + b[4..]
  }

  /** Decodes a message into its fields. */
  method ToJson(message: bytes) returns (r: Option<Message>)
    ensures r == DecodePdu(message)
  {
    hide FromU32, MembersOf, DecodeMembers, DecodeTlvs, HexText, NameOf;
    var buffer := new BytesMut(message);
    var _ := buffer.ReadU32();
    var commandId := buffer.ReadU32();
    var status := buffer.ReadU32();
    var sequence := buffer.ReadU32();
    if sequence.None? { return None; }
    assert message[4..][..4] == message[4..8] && message[8..][..4] == message[8..12]
           && message[12..][..4] == message[12..16];
    var c := FromU32(commandId.value);
    if c.None? { return None; }
    var fields := DecodeMandatoryPart(c.value, HeaderMessage(c.value, status.value, sequence.value), buffer);
    if fields.None? { return None; }
    r := DecodeOptionalPart(fields.value, buffer);
  }

  method DecodeMandatoryPart(c: CommandId, header: Message, buffer: BytesMut) returns (r: Option<Message>)
    modifies buffer
    ensures r.Some? <==> DecodeMembers(MembersOf(c), old(buffer.data), header).Got?
    ensures r.Some? ==> DecodeMembers(MembersOf(c), old(buffer.data), header) == Got(r.value, buffer.data)
  {
    hide FieldsOf, Decode;
    var ms, m := MembersOf(c), header;
    assert ms[0..] == ms;
    for i := 0 to |ms|
      invariant DecodeMembers(ms, old(buffer.data), header) == DecodeMembers(ms[i..], buffer.data, m)
    {
      var k := ms[i];
      assert ms[i..][0] == k && ms[i..][1..] == ms[i + 1..];
      var v := DecodeField(k.codec, buffer);
      if v.None? { return None; }
      m := m[k.name := v.value];
    }
    r := Some(m);
  }

  /** The TLV loop: every turn consumes at least the tag, so it ends on any octets. */
  method DecodeOptionalPart(fields: Message, buffer: BytesMut) returns (r: Option<Message>)
    modifies buffer
    ensures r == DecodeTlvs(old(buffer.data), fields)
  {
    hide TlvOf, TlvValue;
    var m := fields;
    while |buffer.data| >= 2
      invariant DecodeTlvs(buffer.data, m) == DecodeTlvs(old(buffer.data), fields)
      decreases |buffer.data|
    {
      var tag := OfBe16(buffer.data[..2]);
      var n := TlvNamed(tag);
      if n.None? { return None; }
      var v := DecodeTlv(TlvOf(n.value).value, buffer);
      m := m[n.value := if v.Some? then v.value else Null];
    }
    r := Some(m);
  }
}
