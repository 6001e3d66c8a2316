/** The field codecs at work: encoding appends to a buffer and decoding consumes one, in place. */
module FieldCodec {
  import opened Bytes
  import opened Values
  import opened Codec
  import Base64

  /** Appends the encoding of `v`; on failure whatever was appended so far stays in the buffer. */
  method EncodeField(c: Codec, v: Value, buffer: BytesMut) returns (ok: bool)
    modifies buffer
    ensures ok <==> Encode(c, v).Some?
    ensures ok ==> buffer.data == old(buffer.data) + Encode(c, v).value
    ensures old(buffer.data) <= buffer.data
    decreases c, 1
  {
    match c
    case ListOf(item, checked) =>
      if !v.Array? || (checked && |v.items| > 255) { return false; }
      buffer.PutU8(|v.items| % 256);
      ok := EncodeList(item, v.items, buffer);
    case Composite(ms) =>
      ok := EncodeComposite(ms, if v.Object? then v.fields else map[], buffer);
    case VarLengthInt =>
      if AsU64(v).None? { return false; }
      EncodeDigits(AsU64(v).value, buffer);
      ok := true;
    case _ =>
      ok := EncodeScalar(c, v, buffer);
  }

  method EncodeScalar(c: Codec, v: Value, buffer: BytesMut) returns (ok: bool)
    requires !c.ListOf? && !c.Composite? && !c.VarLengthInt?
    modifies buffer
    ensures ok <==> Encode(c, v).Some?
    ensures ok ==> buffer.data == old(buffer.data) + Encode(c, v).value
    ensures !ok ==> buffer.data == old(buffer.data)
  {
    hide EncodeDest, Payload, LengthField;
    var n := AsU64(v);
    match c {
    case U8 =>
      if n.None? { return false; }
      buffer.PutU8(n.value % 256);
    case OptionalU8(d) =>
      if n.Some? && n.value != d {
        buffer.PutU8(n.value % 256);
      } else {
        buffer.PutU8(d);
      }
    case U16 =>
      if n.None? { return false; }
      buffer.PutU16(n.value % U16_LIMIT);
    case U32 =>
      if n.None? { return false; }
      buffer.PutU32(n.value % U32_LIMIT);
    case COctetStr(max) =>
      if !v.String? { return false; }
      buffer.Put(if |v.s| > max then v.s[..max] else v.s);
      buffer.PutU8(0);
    case Octet(indicated, w) =>
      if !v.String? { return false; }
      var b := Payload(v.s);
      if indicated { buffer.Put(LengthField(w, |b|)); }
      buffer.Put(b);
    case DestAddress =>
      if !v.Object? { return false; }
      ok := EncodeDestination(v.fields, buffer);
      return;
    }
    ok := true;
  }

  method EncodeDestination(m: Message, buffer: BytesMut) returns (ok: bool)
    modifies buffer
    ensures ok <==> EncodeDest(m).Some?
    ensures ok ==> buffer.data == old(buffer.data) + EncodeDest(m).value
    ensures !ok ==> buffer.data == old(buffer.data)
  {
    if DestinationAddr in m && m[DestinationAddr].String? {
      buffer.PutU8(1);
      buffer.PutU8(NumberOr0(m, DestAddrTon) % 256);
      buffer.PutU8(NumberOr0(m, DestAddrNpi) % 256);
      buffer.Put(m[DestinationAddr].s);
      buffer.PutU8(0);
    } else if DlName in m && m[DlName].String? {
      buffer.PutU8(2);
      buffer.Put(m[DlName].s);
      buffer.PutU8(0);
    } else {
      return false;
    }
    ok := true;
  }

  method EncodeDigits(n: nat, buffer: BytesMut)
    modifies buffer
    ensures buffer.data == old(buffer.data) + Digits(n)
  {
    var temp := n;
    ghost var done: bytes := [];
    assert done + Digits(n) == Digits(n);
    while temp != 0
      invariant buffer.data == old(buffer.data) + done
      invariant Digits(n) == done + Digits(temp)
    {
      buffer.PutU8(temp % 256);
      assert done + Digits(temp) == (done + [temp % 256]) + Digits(temp / 256);
      done := done + [temp % 256];
      temp := temp / 256;
    }
    assert done + [] == done;
  }

  method EncodeList(c: Codec, items: seq<Value>, buffer: BytesMut) returns (ok: bool)
    modifies buffer
    ensures ok <==> EncodeItems(c, items).Some?
    ensures ok ==> buffer.data == old(buffer.data) + EncodeItems(c, items).value
    ensures old(buffer.data) <= buffer.data
    decreases c, 2
  {
    hide Encode;
    ghost var done: bytes := [];
    assert items[0..] == items;
    for i := 0 to |items|
      invariant buffer.data == old(buffer.data) + done
      invariant EncodeItems(c, items) == Prepend(done, EncodeItems(c, items[i..]))
    {
      ok := EncodeField(c, items[i], buffer);
      if !ok { return; }
      assert items[i..][0] == items[i] && items[i..][1..] == items[i + 1..];
      PrependTwice(done, Encode(c, items[i]).value, EncodeItems(c, items[i + 1..]));
      done := done + Encode(c, items[i]).value;
    }
    ok := true;
  }

  method EncodeComposite(ms: seq<Member>, m: Message, buffer: BytesMut) returns (ok: bool)
    modifies buffer
    ensures ok <==> EncodeMembers(ms, m).Some?
    ensures ok ==> buffer.data == old(buffer.data) + EncodeMembers(ms, m).value
    ensures old(buffer.data) <= buffer.data
    decreases ms, 0
  {
    hide Encode;
    ghost var done: bytes := [];
    assert ms[0..] == ms;
    for i := 0 to |ms|
      invariant buffer.data == old(buffer.data) + done
      invariant EncodeMembers(ms, m) == Prepend(done, EncodeMembers(ms[i..], m))
    {
      var k := ms[i];
      assert k in ms && k.codec < k;
      assert ms[i..][0] == k && ms[i..][1..] == ms[i + 1..];
      if k.name !in m { return false; }
      ok := EncodeField(k.codec, m[k.name], buffer);
      if !ok { return; }
      PrependTwice(done, Encode(k.codec, m[k.name]).value, EncodeMembers(ms[i + 1..], m));
      done := done + Encode(k.codec, m[k.name]).value;
    }
    ok := true;
  }

  /** Consumes one value from the front of the buffer. */
  method DecodeField(c: Codec, buffer: BytesMut) returns (r: Option<Value>)
    modifies buffer
    ensures r.Some? <==> Decode(c, old(buffer.data)).Got?
    ensures r.Some? ==> Decode(c, old(buffer.data)) == Got(r.value, buffer.data)
    decreases c, 1
  {
    match c
    case ListOf(item, _) =>
      var n := buffer.ReadU8();
      if n.None? { return None; }
      var items := DecodeList(item, n.value, buffer);
      r := if items.Some? then Some(Array(items.value)) else None;
    case Composite(ms) =>
      var m := DecodeComposite(ms, buffer);
      r := if m.Some? then Some(Object(m.value)) else None;
    case VarLengthInt =>
      var n := DecodeDigits(buffer);
      r := Some(Number(n));
    case _ =>
      r := DecodeScalar(c, buffer);
  }

  method DecodeScalar(c: Codec, buffer: BytesMut) returns (r: Option<Value>)
    requires !c.ListOf? && !c.Composite? && !c.VarLengthInt?
    modifies buffer
    ensures r.Some? <==> Decode(c, old(buffer.data)).Got?
    ensures r.Some? ==> Decode(c, old(buffer.data)) == Got(r.value, buffer.data)
  {
    match c
    case U8 =>
      var n := buffer.ReadU8();
      r := if n.Some? then Some(Number(n.value)) else None;
    case OptionalU8(d) =>
      var n := buffer.ReadU8();
      r := Some(Number(if n.Some? then n.value else d));
    case U16 =>
      var n := buffer.ReadU16();
      r := if n.Some? then Some(Number(n.value)) else None;
    case U32 =>
      var n := buffer.ReadU32();
      r := if n.Some? then Some(Number(n.value)) else None;
    case COctetStr(_) =>
      var s := buffer.ReadCOctetStr();
      r := if s.Some? then Some(String(s.value)) else None;
    case Octet(indicated, w) =>
      var length := Some(|buffer.data|);
      if indicated { length := DecodeLength(w, buffer); }
      if length.None? { return None; }
      ghost var before := buffer.data;
      var b := buffer.Read(length.value);
      assert before[..|before|] == before && before[|before|..] == [];
      r := if b.Some? then Some(String(Base64.Encode(b.value))) else None;
    case DestAddress =>
      r := DecodeDestAddress(buffer);
  }

  method DecodeLength(w: int, buffer: BytesMut) returns (r: Option<nat>)
    modifies buffer
    ensures r.Some? <==> ReadLength(w, old(buffer.data)).Got?
    ensures r.Some? ==> ReadLength(w, old(buffer.data)) == Got(r.value, buffer.data)
  {
    if w == 1 {
      r := buffer.ReadU8();
    } else if w == 2 {
      r := buffer.ReadU16();
    } else if w == 4 {
      r := buffer.ReadU32();
    } else {
      r := None;
    }
  }

  method DecodeDestAddress(buffer: BytesMut) returns (r: Option<Value>)
    modifies buffer
    ensures r.Some? <==> DecodeDest(old(buffer.data)).Got?
    ensures r.Some? ==> DecodeDest(old(buffer.data)) == Got(r.value, buffer.data)
  {
    var flag := buffer.ReadU8();
    if flag == Some(1) {
      var ton := buffer.ReadU8();
      if ton.None? { return None; }
      var npi := buffer.ReadU8();
      if npi.None? { return None; }
      assert buffer.data == old(buffer.data)[3..];
      var s := buffer.ReadCOctetStr();
      if s.None? { return None; }
      r := Some(Object(map[DestAddrTon := Number(ton.value), DestAddrNpi := Number(npi.value),
                           DestinationAddr := String(s.value)]));
    } else if flag == Some(2) {
      var s := buffer.ReadCOctetStr();
      if s.None? { return None; }
      r := Some(Object(map[DlName := String(s.value)]));
    } else {
      r := None;
    }
  }

  method DecodeDigits(buffer: BytesMut) returns (result: nat)
    modifies buffer
    ensures result == OfDigits(0, old(buffer.data)) && buffer.data == []
  {
    result := 0;
    while buffer.data != []
      invariant result < U64_LIMIT
      invariant OfDigits(result, buffer.data) == OfDigits(0, old(buffer.data))
      decreases |buffer.data|
    {
      var b := buffer.ReadU8();
      result := result * 256 % U64_LIMIT + b.value;
    }
  }

  method DecodeList(c: Codec, count: nat, buffer: BytesMut) returns (r: Option<seq<Value>>)
    modifies buffer
    ensures r.Some? <==> DecodeItems(c, count, old(buffer.data)).Got?
    ensures r.Some? ==> DecodeItems(c, count, old(buffer.data)) == Got(r.value, buffer.data)
    decreases c, 2
  {
    hide Decode, After;
    var items: seq<Value> := [];
    AfterTwice([], [], DecodeItems(c, count, buffer.data));
    for i := 0 to count
      invariant DecodeItems(c, count, old(buffer.data)) == After(items, DecodeItems(c, count - i, buffer.data))
    {
      ghost var before := buffer.data;
      var v := DecodeField(c, buffer);
      AfterTwice(items, if v.Some? then [v.value] else [], DecodeItems(c, count - i - 1, buffer.data));
      ItemsStep(c, count - i, before);
      if v.None? { AfterNothing(items, buffer.data); return None; }
      items := items + [v.value];
    }
    AfterNothing(items, buffer.data);
    r := Some(items);
  }

  function After(vs: seq<Value>, p: Parse<seq<Value>>): (r: Parse<seq<Value>>)
  {
    if p.Fail? then Fail else Got(vs + p.v, p.rest)
  }

  lemma AfterTwice(a: seq<Value>, b: seq<Value>, p: Parse<seq<Value>>)
    ensures After(a, After(b, p)) == After(a + b, p)
    ensures a == [] ==> After(a, p) == p
  {
    if p.Got? { assert a + (b + p.v) == a + b + p.v && [] + p.v == p.v; }
  }

  lemma AfterNothing(vs: seq<Value>, b: bytes)
    ensures After(vs, Fail) == Fail && After(vs, Got([], b)) == Got(vs, b)
  {
    assert vs + [] == vs;
  }

  lemma ItemsStep(c: Codec, n: nat, b: bytes)
    requires n > 0
    ensures DecodeItems(c, n, b)
         == match Decode(c, b)
            case Fail => Fail
            case Got(v, rest) => After([v], DecodeItems(c, n - 1, rest))
  {
    hide Decode;
  }

  method DecodeComposite(ms: seq<Member>, buffer: BytesMut) returns (r: Option<Message>)
    modifies buffer
    ensures r.Some? <==> DecodeMembers(ms, old(buffer.data), map[]).Got?
    ensures r.Some? ==> DecodeMembers(ms, old(buffer.data), map[]) == Got(r.value, buffer.data)
    decreases ms, 0
  {
    hide Decode;
    var m: Message := map[];
    assert ms[0..] == ms;
    for i := 0 to |ms|
      invariant DecodeMembers(ms, old(buffer.data), map[]) == DecodeMembers(ms[i..], buffer.data, m)
    {
      var k := ms[i];
      assert k in ms && k.codec < k;
      assert ms[i..][0] == k && ms[i..][1..] == ms[i + 1..];
      var v := DecodeField(k.codec, buffer);
      if v.None? { return None; }
      m := m[k.name := v.value];
    }
    r := Some(m);
  }
}
