/**
 The field codecs: how one JSON value is written to and read from a PDU. `Encode` and `Decode`
 specify the two directions; `EncodeField` and `DecodeField` are the in-place codecs.
 */
module Codec {
  import opened Bytes
  import opened Values
  import Base64

  datatype Member = Member(name: Name, codec: Codec)

  datatype Codec =
    | U8
    | OptionalU8(defaultValue: byte)
    | U16
    | U32
    | VarLengthInt
    | COctetStr(maxLength: nat)
    | Octet(lengthIndicator: bool, lengthBytes: int)
      // a counted list; the dest_addresses codec is the one that does not check the count
    | ListOf(item: Codec, checked: bool)
    | Composite(members: seq<Member>)
    | DestAddress

  const DestAddressList := ListOf(DestAddress, false)

  /** The outcome of reading from the front of a buffer. */
  datatype Parse<+T> = Fail | Got(v: T, rest: bytes)

  function Truncate(s: bytes, n: nat): (t: bytes)
  {
    if |s| > n then s[..n] else s
  }

  /** Little-endian base-256 digits without leading zeros: what the variable-length integer writes. */
  function Digits(n: nat): (d: bytes)
    ensures d != [] ==> d[|d| - 1] != 0
  {
    if n == 0 then [] else [n % 256] + Digits(n / 256)
  }

  /** Big-endian value on top of `acc` in a 64-bit register: what the variable-length integer reads. */
  function OfDigits(acc: nat, d: bytes): (n: nat)
    requires acc < U64_LIMIT
    ensures n < U64_LIMIT
    decreases d
  {
    if d == [] then acc else OfDigits(acc * 256 % U64_LIMIT + d[0], d[1..])
  }

  /** The octets an octet-string value stands for: its base64 decoding, or itself when it is not base64. */
  function Payload(s: bytes): (p: bytes)
  {
    var d := Base64.Decode(s);
    if d.Some? then d.value else s
  }

  /** Values a length field of the given width can tell apart; 1 when the width is not supported. */
  function LengthLimit(lengthBytes: int): (n: nat)
    ensures n > 0
  {
    if lengthBytes == 1 then 256
    else if lengthBytes == 2 then U16_LIMIT
    else if lengthBytes == 4 then U32_LIMIT
    else 1
  }

  function LengthField(lengthBytes: int, n: nat): (b: bytes)
  {
    if lengthBytes == 1 then [n % 256]
    else if lengthBytes == 2 then Be16(n % U16_LIMIT)
    else if lengthBytes == 4 then Be32(n % U32_LIMIT)
    else []
  }

  function ReadLength(lengthBytes: int, b: bytes): (r: Parse<nat>)
  {
    if lengthBytes == 1 && |b| >= 1 then Got(b[0], b[1..])
    else if lengthBytes == 2 && |b| >= 2 then Got(OfBe16(b[..2]), b[2..])
    else if lengthBytes == 4 && |b| >= 4 then Got(OfBe32(b[..4]), b[4..])
    else Fail
  }

  // ---- encoding ---------------------------------------------------------------------------

  function EncodeDest(m: Message): (r: Option<bytes>)
  {
    if DestinationAddr in m && m[DestinationAddr].String? then
      Some([1, NumberOr0(m, DestAddrTon) % 256, NumberOr0(m, DestAddrNpi) % 256] + m[DestinationAddr].s + [0])
    else if DlName in m && m[DlName].String? then
      Some([2] + m[DlName].s + [0])
    else None
  }

  function Encode(c: Codec, v: Value): (r: Option<bytes>)
    decreases c, 1
  {
    match c
    case U8 => if AsU64(v).Some? then Some([AsU64(v).value % 256]) else None
    case OptionalU8(d) => Some([if AsU64(v).Some? then AsU64(v).value % 256 else d])
    case U16 => if AsU64(v).Some? then Some(Be16(AsU64(v).value % U16_LIMIT)) else None
    case U32 => if AsU64(v).Some? then Some(Be32(AsU64(v).value % U32_LIMIT)) else None
    case VarLengthInt => if AsU64(v).Some? then Some(Digits(AsU64(v).value)) else None
    case COctetStr(n) => if v.String? then Some(Truncate(v.s, n) + [0]) else None
    case Octet(indicated, w) =>
      if v.String? then
        var p := Payload(v.s);
        Some(if indicated then LengthField(w, |p|) + p else p)
      else None
    case ListOf(item, checked) =>
      if v.Array? && (checked ==> |v.items| <= 255) then
        Prepend([|v.items| % 256], EncodeItems(item, v.items))
      else None
    case Composite(ms) => EncodeMembers(ms, if v.Object? then v.fields else map[])
    case DestAddress => if v.Object? then EncodeDest(v.fields) else None
  }

  function Prepend(a: bytes, r: Option<bytes>): (s: Option<bytes>)
    ensures a == [] ==> s == r
  {
    if r.None? then None else
    assert [] + r.value == r.value;
    Some(a + r.value)
  }

  lemma PrependTwice(a: bytes, b: bytes, r: Option<bytes>)
    ensures Prepend(a, Prepend(b, r)) == Prepend(a + b, r)
  {
    if r.Some? { assert a + (b + r.value) == a + b + r.value; }
  }

  function EncodeItems(c: Codec, items: seq<Value>): (r: Option<bytes>)
    decreases c, 2, |items|
  {
    if items == [] then Some([]) else
    var first := Encode(c, items[0]);
    if first.None? then None else Prepend(first.value, EncodeItems(c, items[1..]))
  }

  function EncodeMembers(ms: seq<Member>, m: Message): (r: Option<bytes>)
    decreases ms, 0
  {
    if ms == [] then Some([])
    else if ms[0].name !in m then None
    else
      assert ms[0].codec < ms[0];
      var first := Encode(ms[0].codec, m[ms[0].name]);
      if first.None? then None else Prepend(first.value, EncodeMembers(ms[1..], m))
  }

  // ---- decoding ---------------------------------------------------------------------------

  function DecodeCOctetStr(b: bytes): (r: Parse<bytes>)
  {
    var k := NulIndex(b);
    if k < |b| then Got(b[..k], b[k + 1..]) else Fail
  }

  function DecodeDest(b: bytes): (r: Parse<Value>)
  {
    if b == [] then Fail
    else if b[0] == 1 then
      if |b| < 3 then Fail else
      match DecodeCOctetStr(b[3..])
      case Fail => Fail
      case Got(s, rest) =>
        Got(Object(map[DestAddrTon := Number(b[1]), DestAddrNpi := Number(b[2]), DestinationAddr := String(s)]), rest)
    else if b[0] == 2 then
      match DecodeCOctetStr(b[1..])
      case Fail => Fail
      case Got(s, rest) => Got(Object(map[DlName := String(s)]), rest)
    else Fail
  }

  function Decode(c: Codec, b: bytes): (r: Parse<Value>)
    decreases c, 1
  {
    match c
    case U8 => if |b| >= 1 then Got(Number(b[0]), b[1..]) else Fail
    case OptionalU8(d) => if |b| >= 1 then Got(Number(b[0]), b[1..]) else Got(Number(d), b)
    case U16 => if |b| >= 2 then Got(Number(OfBe16(b[..2])), b[2..]) else Fail
    case U32 => if |b| >= 4 then Got(Number(OfBe32(b[..4])), b[4..]) else Fail
    case VarLengthInt => Got(Number(OfDigits(0, b)), [])
    case COctetStr(_) =>
      (match DecodeCOctetStr(b)
       case Fail => Fail
       case Got(s, rest) => Got(String(s), rest))
    case Octet(false, _) => if b != [] then Got(String(Base64.Encode(b)), []) else Fail
    case Octet(true, w) =>
      (match ReadLength(w, b)
       case Fail => Fail
       case Got(n, rest) => if 0 < n <= |rest| then Got(String(Base64.Encode(rest[..n])), rest[n..]) else Fail)
    case ListOf(item, _) =>
      if b == [] then Fail else
      (match DecodeItems(item, b[0], b[1..])
       case Fail => Fail
       case Got(items, rest) => Got(Array(items), rest))
    case Composite(ms) =>
      (match DecodeMembers(ms, b, map[])
       case Fail => Fail
       case Got(m, rest) => Got(Object(m), rest))
    case DestAddress => DecodeDest(b)
  }

  function DecodeItems(c: Codec, n: nat, b: bytes): (r: Parse<seq<Value>>)
    ensures r.Got? ==> |r.v| == n
    decreases c, 2, n
  {
    if n == 0 then Got([], b) else
    match Decode(c, b)
    case Fail => Fail
    case Got(v, rest) =>
      match DecodeItems(c, n - 1, rest)
      case Fail => Fail
      case Got(vs, rest') => Got([v] + vs, rest')
  }

  function DecodeMembers(ms: seq<Member>, b: bytes, acc: Message): (r: Parse<Message>)
    decreases ms, 0
  {
    if ms == [] then Got(acc, b) else
    assert ms[0].codec < ms[0];
    match Decode(ms[0].codec, b)
    case Fail => Fail
    case Got(v, rest) => DecodeMembers(ms[1..], rest, acc[ms[0].name := v])
  }

  // ---- the law ----------------------------------------------------------------------------

  /** What a decoder can at best give back for a value the encoder accepts. */
  function Normal(c: Codec, v: Value): (r: Value)
    requires Encode(c, v).Some?
    decreases c, 1
  {
    match c
    case U8 => Number(AsU64(v).value % 256)
    case OptionalU8(d) => Number(if AsU64(v).Some? then AsU64(v).value % 256 else d)
    case U16 => Number(AsU64(v).value % U16_LIMIT)
    case U32 => Number(AsU64(v).value % U32_LIMIT)
    case VarLengthInt => Number(OfDigits(0, Digits(AsU64(v).value)))
    case COctetStr(n) => String(Truncate(v.s, n))
    case Octet(_, _) => String(Base64.Encode(Payload(v.s)))
    case ListOf(item, _) => Array(NormalItems(item, v.items))
    case Composite(ms) => Object(NormalMembers(ms, if v.Object? then v.fields else map[], map[]))
    case DestAddress => NormalDest(v.fields)
  }

  /** A destination address gets ton and npi 0 when they are missing. */
  function NormalDest(m: Message): (r: Value)
    requires EncodeDest(m).Some?
  {
    if DestinationAddr in m && m[DestinationAddr].String? then
      Object(map[DestAddrTon := Number(NumberOr0(m, DestAddrTon) % 256),
                 DestAddrNpi := Number(NumberOr0(m, DestAddrNpi) % 256),
                 DestinationAddr := m[DestinationAddr]])
    else Object(map[DlName := m[DlName]])
  }

  function NormalItems(c: Codec, items: seq<Value>): (r: seq<Value>)
    requires EncodeItems(c, items).Some?
    ensures |r| == |items|
    decreases c, 2, |items|
  {
    if items == [] then [] else [Normal(c, items[0])] + NormalItems(c, items[1..])
  }

  function NormalMembers(ms: seq<Member>, m: Message, acc: Message): (r: Message)
    requires EncodeMembers(ms, m).Some?
    decreases ms, 0
  {
    if ms == [] then acc else
    assert ms[0].codec < ms[0];
    NormalMembers(ms[1..], m, acc[ms[0].name := Normal(ms[0].codec, m[ms[0].name])])
  }

  /** When the decoder does give the normal form back. */
  predicate Good(c: Codec, v: Value)
    requires Encode(c, v).Some?
    decreases c, 1
  {
    match c
    case COctetStr(n) => 0 !in Truncate(v.s, n)
    case Octet(false, _) => Payload(v.s) != []
    case Octet(true, w) => 0 < |Payload(v.s)| < LengthLimit(w)
    case ListOf(item, _) => |v.items| <= 255 && GoodItems(item, v.items)
    case Composite(ms) => GoodMembers(ms, if v.Object? then v.fields else map[])
    case DestAddress =>
      var m := v.fields;
      0 !in (if DestinationAddr in m && m[DestinationAddr].String? then m[DestinationAddr].s else m[DlName].s)
    case _ => true
  }

  predicate GoodItems(c: Codec, items: seq<Value>)
    requires EncodeItems(c, items).Some?
    decreases c, 2, |items|
  {
    items == [] || (Good(c, items[0]) && GoodItems(c, items[1..]))
  }

  predicate GoodMembers(ms: seq<Member>, m: Message)
    requires EncodeMembers(ms, m).Some?
    decreases ms, 0
  {
    if ms == [] then true else
    assert ms[0].codec < ms[0];
    Good(ms[0].codec, m[ms[0].name]) && GoodMembers(ms[1..], m)
  }

  /** Codecs that leave what follows them alone; the others are only used for a whole TLV value. */
  predicate SelfDelimiting(c: Codec)
    decreases c, 1
  {
    match c
    case VarLengthInt => false
    case Octet(indicated, _) => indicated
    case ListOf(item, _) => SelfDelimiting(item)
    case Composite(ms) => forall k <- ms :: SelfDelimiting(k.codec)
    case _ => true
  }

  /** Lists and composites hold self-delimiting parts, and a composite names each part once. */
  predicate WellFormed(c: Codec)
    decreases c
  {
    match c
    case ListOf(item, _) => WellFormed(item) && SelfDelimiting(item)
    case Composite(ms) =>
      && (forall i, j :: 0 <= i < j < |ms| ==> ms[i].name != ms[j].name)
      && forall k <- ms :: WellFormed(k.codec) && SelfDelimiting(k.codec)
    case _ => true
  }

  // ---- proof of the law -------------------------------------------------------------------

  lemma {:induction false} MembersKeep(ms: seq<Member>, b: bytes, acc: Message, k: Name)
    requires k in acc && forall x <- ms :: x.name != k
    requires DecodeMembers(ms, b, acc).Got?
    ensures var m := DecodeMembers(ms, b, acc).v; k in m && m[k] == acc[k]
    decreases |ms|
  {
    if ms != [] {
      var p := Decode(ms[0].codec, b);
      MembersKeep(ms[1..], p.rest, acc[ms[0].name := p.v], k);
    }
  }

  lemma {:induction false} NormalMembersKeep(ms: seq<Member>, m: Message, acc: Message, k: Name)
    requires k in acc && forall x <- ms :: x.name != k
    requires EncodeMembers(ms, m).Some?
    ensures k in NormalMembers(ms, m, acc) && NormalMembers(ms, m, acc)[k] == acc[k]
    decreases |ms|
  {
    if ms != [] {
      NormalMembersKeep(ms[1..], m, acc[ms[0].name := Normal(ms[0].codec, m[ms[0].name])], k);
    }
  }

  /**
   Decoding what was encoded gives the normal form back and stops where the encoding stopped,
   exactly when the value is Good; otherwise it fails or gives something else.
   */
  lemma {:induction false} Exact(c: Codec, v: Value, rest: bytes)
    requires Encode(c, v).Some? && WellFormed(c)
    requires SelfDelimiting(c) || rest == []
    ensures var p := Decode(c, Encode(c, v).value + rest);
            if Good(c, v) then p == Got(Normal(c, v), rest) else p.Fail? || p.v != Normal(c, v)
    decreases c, 1
  {
    match c
    case U8 | OptionalU8(_) | U16 | U32 | VarLengthInt => ExactNumber(c, v, rest);
    case ListOf(item, _) =>
      hide Encode, Decode, Normal, Good;
      ExactList(c, v, rest);
    case Composite(ms) =>
      ExactMembers(ms, if v.Object? then v.fields else map[], rest, map[]);
    case _ => ExactText(c, v, rest);
  }

  lemma {:induction false} ExactList(c: Codec, v: Value, rest: bytes)
    requires c.ListOf? && Encode(c, v).Some? && WellFormed(c)
    ensures var p := Decode(c, Encode(c, v).value + rest);
            if Good(c, v) then p == Got(Normal(c, v), rest) else p.Fail? || p.v != Normal(c, v)
    decreases c, 0
  {
    hide EncodeItems, DecodeItems, NormalItems, GoodItems;
    var body, n := EncodeItems(c.item, v.items).value, |v.items|;
    var b := Encode(c, v).value + rest;
    DropPrefix([n % 256], body + rest);
    assert b == [n % 256] + (body + rest);
    if n <= 255 {
      ExactItems(c.item, v.items, rest);
    }
  }

  lemma ExactText(c: Codec, v: Value, rest: bytes)
    requires c.COctetStr? || c.DestAddress? || (c.Octet? && (c.lengthIndicator || rest == []))
    requires Encode(c, v).Some?
    ensures var p := Decode(c, Encode(c, v).value + rest);
            if Good(c, v) then p == Got(Normal(c, v), rest) else p.Fail? || p.v != Normal(c, v)
  {
    hide Base64.Encode, LengthField, ReadLength, Digits, OfDigits, NulIndex;
    match c
    case COctetStr(n) => ExactCOctetStr(Truncate(v.s, n), rest);
    case DestAddress => ExactDest(v.fields, rest);
    case Octet(false, _) => assert Payload(v.s) + rest == Payload(v.s);
    case Octet(true, w) => ExactOctet(w, Payload(v.s), rest);
  }

  lemma ExactNumber(c: Codec, v: Value, rest: bytes)
    requires c.U8? || c.OptionalU8? || c.U16? || c.U32? || (c.VarLengthInt? && rest == [])
    requires Encode(c, v).Some?
    ensures Decode(c, Encode(c, v).value + rest) == Got(Normal(c, v), rest)
  {
    hide Digits, OfDigits;
    var e := Encode(c, v).value;
    assert (e + rest)[..|e|] == e && (e + rest)[|e|..] == rest;
    if c.VarLengthInt? {
      assert e + rest == e;
    }
  }

  lemma ExactCOctetStr(s: bytes, rest: bytes)
    ensures var p := DecodeCOctetStr(s + [0] + rest);
            if 0 !in s then p == Got(s, rest) else p.Got? && p.v != s
  {
    NulIndexOfCString(s, rest);
    var b := s + [0] + rest;
    if 0 !in s {
      assert b[..|s|] == s && b[|s| + 1..] == rest;
    }
  }

  lemma ExactOctet(w: int, p: bytes, rest: bytes)
    ensures var r := Decode(Octet(true, w), LengthField(w, |p|) + p + rest);
            if 0 < |p| < LengthLimit(w) then r == Got(String(Base64.Encode(p)), rest)
            else r.Fail? || r.v != String(Base64.Encode(p))
  {
    hide Base64.Encode, LengthField, ReadLength, LengthLimit;
    assert LengthField(w, |p|) + p + rest == LengthField(w, |p|) + (p + rest);
    ReadLengthField(w, |p|, p + rest);
    if |p| < LengthLimit(w) {
      assert (p + rest)[..|p|] == p && (p + rest)[|p|..] == rest;
    } else if LengthLimit(w) > 1 {
      var n := |p| % LengthLimit(w);
      if 0 < n && Base64.Encode((p + rest)[..n]) == Base64.Encode(p) {
        Base64.EncodeInjective((p + rest)[..n], p);
      }
    }
  }

  /**
   An octet string is written as what its text is base64 for, or as its own octets when it is not base64;
   behind a length field that is read back as their number, when there is one and it can tell.
   */
  lemma TextOnTheWire(s: bytes, w: int)
    requires w == 1 || w == 2 || w == 4
    ensures var p := if Base64.Decode(s).Some? then Base64.Decode(s).value else s;
            && Encode(Octet(false, w), String(s)) == Some(p)
            && (|p| < LengthLimit(w) ==>
                  exists length: bytes :: |length| == w && Encode(Octet(true, w), String(s)) == Some(length + p)
                                          && ReadLength(w, length + p) == Got(|p|, p))
  {
    hide Base64.Decode, LengthField, ReadLength, LengthLimit;
    var p := if Base64.Decode(s).Some? then Base64.Decode(s).value else s;
    if |p| < LengthLimit(w) {
      LengthFieldSize(w, |p|);
      ReadLengthField(w, |p|, p);
      assert Encode(Octet(true, w), String(s)) == Some(LengthField(w, |p|) + p);
    }
  }

  lemma LengthFieldSize(w: int, n: nat)
    requires w == 1 || w == 2 || w == 4
    ensures |LengthField(w, n)| == w && LengthLimit(w) > 1
  {}

  /** With at most 255 octets, as in a short_message. */
  lemma ShortTextOnTheWire(s: bytes)
    ensures Base64.Decode(s).None? && |s| < 256 ==> Encode(Octet(true, 1), String(s)) == Some([|s|] + s)
    ensures var p := Base64.Decode(s);
            p.Some? && |p.value| < 256 ==> Encode(Octet(true, 1), String(s)) == Some([|p.value|] + p.value)
  {
    hide Base64.Decode;
  }

  /** And read back as base64 of those octets, whatever follows. */
  lemma ShortTextReadBack(s: bytes, rest: bytes)
    requires Base64.Decode(s).None? && 0 < |s| < 256
    ensures Encode(Octet(true, 1), String(s)).Some?
    ensures var r := Decode(Octet(true, 1), Encode(Octet(true, 1), String(s)).value + rest);
            r.Got? && r.rest == rest && r.v.String? && Base64.Decode(r.v.s) == Some(s)
  {
    hide Base64.Decode, Base64.Encode;
    ExactOctet(1, s, rest);
    Base64.DecodeEncode(s);
  }

  lemma ReadLengthField(w: int, n: nat, rest: bytes)
    ensures ReadLength(w, LengthField(w, n) + rest)
         == if LengthLimit(w) == 1 then Fail else Got(if n < LengthLimit(w) then n else n % LengthLimit(w), rest)
  {
    hide Be16, Be32, OfBe16, OfBe32;
    var l, b := LengthField(w, n), LengthField(w, n) + rest;
    assert b[..|l|] == l && b[|l|..] == rest;
  }

  lemma ExactDest(m: Message, rest: bytes)
    requires EncodeDest(m).Some?
    ensures var p := DecodeDest(EncodeDest(m).value + rest);
            if Good(DestAddress, Object(m)) then p == Got(NormalDest(m), rest) else p.Fail? || p.v != NormalDest(m)
  {
    hide DecodeCOctetStr, Encode, Decode, Normal;
    var direct := DestinationAddr in m && m[DestinationAddr].String?;
    var s := if direct then m[DestinationAddr].s else m[DlName].s;
    var head := if direct then EncodeDest(m).value[..3] else [2];
    ExactCOctetStr(s, rest);
    DropPrefix(head, s + [0] + rest);
    assert EncodeDest(m).value + rest == head + (s + [0] + rest);
    if direct {
      assert NormalDest(m).fields[DestinationAddr] == String(s);
    } else {
      assert NormalDest(m).fields[DlName] == String(s);
    }
  }

  lemma {:induction false} ExactItems(c: Codec, items: seq<Value>, rest: bytes)
    requires EncodeItems(c, items).Some? && WellFormed(c) && SelfDelimiting(c)
    ensures var p := DecodeItems(c, |items|, EncodeItems(c, items).value + rest);
            if GoodItems(c, items) then p == Got(NormalItems(c, items), rest)
            else p.Fail? || p.v != NormalItems(c, items)
    decreases c, 2, |items|
  {
    hide Encode, Decode, Normal, Good;
    if items != [] {
      var first, tail := Encode(c, items[0]).value, EncodeItems(c, items[1..]).value + rest;
      assert EncodeItems(c, items).value + rest == first + tail;
      Exact(c, items[0], tail);
      var p := DecodeItems(c, |items|, first + tail);
      if Good(c, items[0]) {
        ExactItems(c, items[1..], rest);
        assert p.Got? ==> p.v[1..] == DecodeItems(c, |items| - 1, tail).v;
        assert NormalItems(c, items)[1..] == NormalItems(c, items[1..]);
      } else {
        assert p.Got? ==> p.v[0] != NormalItems(c, items)[0];
      }
    } else {
      assert EncodeItems(c, items).value + rest == rest;
    }
  }

  /** A member that did not survive: its decoded value is not its normal form. */
  predicate SpoiltMember(x: Member, m: Message, decoded: Message, normal: Message)
  {
    && x.name in m && Encode(x.codec, m[x.name]).Some? && !Good(x.codec, m[x.name])
    && x.name in decoded && x.name in normal && decoded[x.name] != normal[x.name]
  }

  lemma {:induction false} ExactMembers(ms: seq<Member>, m: Message, rest: bytes, acc: Message)
    requires EncodeMembers(ms, m).Some?
    requires forall x <- ms :: WellFormed(x.codec) && SelfDelimiting(x.codec)
    requires forall i, j :: 0 <= i < j < |ms| ==> ms[i].name != ms[j].name
    ensures var p := DecodeMembers(ms, EncodeMembers(ms, m).value + rest, acc);
            if GoodMembers(ms, m) then p == Got(NormalMembers(ms, m, acc), rest)
            else p.Fail? || exists x <- ms :: SpoiltMember(x, m, p.v, NormalMembers(ms, m, acc))
    decreases ms, 0
  {
    if ms == [] {
      assert EncodeMembers(ms, m).value + rest == rest;
      return;
    }
    var k, c, v := ms[0].name, ms[0].codec, m[ms[0].name];
    assert c < ms[0];
    var first, tail := Encode(c, v).value, EncodeMembers(ms[1..], m).value + rest;
    assert EncodeMembers(ms, m).value + rest == first + tail;
    Exact(c, v, tail);
    if Good(c, v) {
      ExactMembers(ms[1..], m, rest, acc[k := Normal(c, v)]);
    } else {
      NormalMembersKeep(ms[1..], m, acc[k := Normal(c, v)], k);
      var p := Decode(c, first + tail);
      if p.Got? && DecodeMembers(ms[1..], p.rest, acc[k := p.v]).Got? {
        MembersKeep(ms[1..], p.rest, acc[k := p.v], k);
        assert SpoiltMember(ms[0], m, DecodeMembers(ms, first + tail, acc).v, NormalMembers(ms, m, acc));
      }
    }
  }

  // ---- encoding again what was decoded ----------------------------------------------------

  predicate UsesVarLengthInt(c: Codec)
    decreases c, 1
  {
    match c
    case VarLengthInt => true
    case ListOf(item, _) => UsesVarLengthInt(item)
    case Composite(ms) => exists k <- ms :: UsesVarLengthInt(k.codec)
    case _ => false
  }

  /** A value that was given back unharmed is written with the same octets again. */
  lemma {:induction false} Reencode(c: Codec, v: Value)
    requires Encode(c, v).Some? && WellFormed(c) && Good(c, v) && !UsesVarLengthInt(c)
    ensures Encode(c, Normal(c, v)) == Encode(c, v)
    decreases c, 1
  {
    match c
    case ListOf(item, _) =>
      ReencodeItems(item, v.items);
      assert Normal(c, v) == Array(NormalItems(item, v.items));
    case Composite(ms) => ReencodeMembers(ms, if v.Object? then v.fields else map[], map[]);
    case _ => ReencodeScalar(c, v);
  }

  lemma ReencodeScalar(c: Codec, v: Value)
    requires Encode(c, v).Some? && !c.ListOf? && !c.Composite? && !c.VarLengthInt?
    ensures Encode(c, Normal(c, v)) == Encode(c, v)
  {
    hide EncodeDest, NormalDest, Base64.Encode, LengthField, Payload, Be16, Be32, Truncate;
    match c
    case Octet(_, _) => PayloadOfEncoded(Payload(v.s));
    case DestAddress => ReencodeDest(v.fields);
    case COctetStr(n) => TruncateTwice(v.s, n);
    case U8 => case U16 => case U32 => case OptionalU8(_) =>
  }

  lemma TruncateTwice(s: bytes, n: nat)
    ensures Truncate(Truncate(s, n), n) == Truncate(s, n)
  {}

  lemma PayloadOfEncoded(p: bytes)
    ensures Payload(Base64.Encode(p)) == p
  {
    Base64.DecodeEncode(p);
  }

  lemma ReencodeDest(m: Message)
    requires EncodeDest(m).Some?
    ensures NormalDest(m).Object? && EncodeDest(NormalDest(m).fields) == EncodeDest(m)
  {}

  lemma {:induction false} ReencodeItems(c: Codec, items: seq<Value>)
    requires EncodeItems(c, items).Some? && WellFormed(c) && GoodItems(c, items) && !UsesVarLengthInt(c)
    ensures EncodeItems(c, NormalItems(c, items)) == EncodeItems(c, items)
    decreases c, 2, |items|
  {
    if items != [] {
      Reencode(c, items[0]);
      ReencodeItems(c, items[1..]);
      assert NormalItems(c, items)[1..] == NormalItems(c, items[1..]);
    }
  }

  lemma {:induction false} ReencodeMembers(ms: seq<Member>, m: Message, acc: Message)
    requires EncodeMembers(ms, m).Some? && GoodMembers(ms, m)
    requires forall x <- ms :: WellFormed(x.codec) && !UsesVarLengthInt(x.codec)
    requires forall i, j :: 0 <= i < j < |ms| ==> ms[i].name != ms[j].name
    ensures EncodeMembers(ms, NormalMembers(ms, m, acc)) == EncodeMembers(ms, m)
    decreases ms, 0
  {
    if ms != [] {
      var k, c := ms[0].name, ms[0].codec;
      assert c < ms[0];
      Reencode(c, m[k]);
      var acc' := acc[k := Normal(c, m[k])];
      ReencodeMembers(ms[1..], m, acc');
      NormalMembersKeep(ms[1..], m, acc', k);
    }
  }

  /** Whatever a decoder produces, the encoder of the same field accepts. */
  lemma {:induction false} DecodedIsEncodable(c: Codec, b: bytes)
    requires Decode(c, b).Got? && WellFormed(c)
    ensures Encode(c, Decode(c, b).v).Some?
    decreases c, 1
  {
    match c
    case ListOf(item, _) => DecodedItemsAreEncodable(item, b[0], b[1..]);
    case Composite(ms) => DecodedMembersAreEncodable(ms, b, map[]);
    case _ =>
  }

  lemma {:induction false} DecodedItemsAreEncodable(c: Codec, n: nat, b: bytes)
    requires DecodeItems(c, n, b).Got? && WellFormed(c)
    ensures EncodeItems(c, DecodeItems(c, n, b).v).Some?
    decreases c, 2, n
  {
    if n > 0 {
      DecodedIsEncodable(c, b);
      DecodedItemsAreEncodable(c, n - 1, Decode(c, b).rest);
      assert DecodeItems(c, n, b).v[1..] == DecodeItems(c, n - 1, Decode(c, b).rest).v;
    }
  }

  lemma {:induction false} DecodedMembersAreEncodable(ms: seq<Member>, b: bytes, acc: Message)
    requires DecodeMembers(ms, b, acc).Got?
    requires forall x <- ms :: WellFormed(x.codec)
    requires forall i, j :: 0 <= i < j < |ms| ==> ms[i].name != ms[j].name
    ensures EncodeMembers(ms, DecodeMembers(ms, b, acc).v).Some?
    decreases ms, 0
  {
    if ms != [] {
      assert ms[0].codec < ms[0];
      var p := Decode(ms[0].codec, b);
      DecodedIsEncodable(ms[0].codec, b);
      DecodedMembersAreEncodable(ms[1..], p.rest, acc[ms[0].name := p.v]);
      MembersKeep(ms[1..], p.rest, acc[ms[0].name := p.v], ms[0].name);
    }
  }

  // ---- the variable-length integer --------------------------------------------------------

  function Reverse(d: bytes): (r: bytes)
    ensures |r| == |d|
  {
    if d == [] then [] else Reverse(d[1..]) + [d[0]]
  }

  /** Little-endian value of base-256 digits. */
  function OfLow(d: bytes): (n: nat)
  {
    if d == [] then 0 else d[0] + 256 * OfLow(d[1..])
  }

  lemma {:induction false} OfLowDigits(n: nat)
    ensures OfLow(Digits(n)) == n
  {
    if n != 0 {
      OfLowDigits(n / 256);
      assert Digits(n)[1..] == Digits(n / 256);
    }
  }

  lemma {:induction false} OfLowInjective(a: bytes, b: bytes)
    requires |a| == |b| && OfLow(a) == OfLow(b)
    ensures a == b
  {
    if a != [] {
      assert a[0] == OfLow(a) % 256 == b[0];
      OfLowInjective(a[1..], b[1..]);
      assert a == [a[0]] + a[1..] && b == [b[0]] + b[1..];
    }
  }

  function Pow256(k: nat): (p: nat)
    ensures p > 0
  {
    if k == 0 then 1 else 256 * Pow256(k - 1)
  }

  lemma {:induction false} OfLowBound(d: bytes)
    ensures OfLow(d) < Pow256(|d|)
  {
    if d != [] { OfLowBound(d[1..]); }
  }

  lemma {:induction false} DigitCount(n: nat, k: nat)
    requires n < Pow256(k)
    ensures |Digits(n)| <= k
    decreases k
  {
    if n != 0 { DigitCount(n / 256, k - 1); }
  }

  lemma {:induction false} OfDigitsAppend(acc: nat, d: bytes, x: byte)
    requires acc < U64_LIMIT
    ensures OfDigits(acc, d + [x]) == OfDigits(acc, d) * 256 % U64_LIMIT + x
    decreases d
  {
    if d != [] {
      OfDigitsAppend(acc * 256 % U64_LIMIT + d[0], d[1..], x);
      assert (d + [x])[1..] == d[1..] + [x];
    }
  }

  lemma {:induction false} ReverseAppend(d: bytes, x: byte)
    ensures Reverse(d + [x]) == [x] + Reverse(d)
  {
    if d != [] {
      ReverseAppend(d[1..], x);
      assert (d + [x])[1..] == d[1..] + [x];
    }
  }

  /** Reading is big-endian: it takes the digits in reverse. */
  lemma {:induction false} ReadsReversed(d: bytes)
    requires |d| <= 8
    ensures OfDigits(0, d) == OfLow(Reverse(d))
    decreases |d|
  {
    if d != [] {
      var init, x := d[..|d| - 1], d[|d| - 1];
      assert d == init + [x];
      ReadsReversed(init);
      OfDigitsAppend(0, init, x);
      ReverseAppend(init, x);
      OfLowBound(Reverse(init));
      PowMonotone(|init|, 7);
      assert Reverse(d)[1..] == Reverse(init);
    }
  }

  lemma {:induction false} PowMonotone(i: nat, j: nat)
    requires i <= j
    ensures Pow256(i) <= Pow256(j)
    decreases j
  {
    if i < j { PowMonotone(i, j - 1); }
  }

  /**
   The variable-length integer is written low octet first and read high octet first: what comes
   back is the number with its octets reversed, and it is the same number, or the same octets
   when written again, exactly when those octets are a palindrome.
   */
  lemma VarLengthIntReversesOctets(n: nat)
    requires n < U64_LIMIT
    ensures Normal(VarLengthInt, Number(n)) == Number(OfLow(Reverse(Digits(n))))
    ensures Normal(VarLengthInt, Number(n)) == Number(n) <==> Reverse(Digits(n)) == Digits(n)
    ensures Encode(VarLengthInt, Normal(VarLengthInt, Number(n))) == Some(Digits(n))
       <==> Reverse(Digits(n)) == Digits(n)
  {
    assert Pow256(8) == U64_LIMIT;
    DigitCount(n, 8);
    ReadsReversed(Digits(n));
    OfLowDigits(n);
    var r := OfLow(Reverse(Digits(n)));
    OfLowDigits(r);
    if r == n {
      OfLowInjective(Reverse(Digits(n)), Digits(n));
    }
  }

  /** 0x0102 goes out as 02 01 and comes back as 0x0201. */
  lemma VarLengthIntExample()
    ensures Encode(VarLengthInt, Number(0x0102)) == Some([2, 1])
    ensures Normal(VarLengthInt, Number(0x0102)) == Number(0x0201)
  {
    assert Digits(1) == [1] + Digits(0) == [1];
    assert Digits(0x0102) == [2] + Digits(1) == [2, 1];
    assert [2, 1][1..] == [1] && [1][1..] == [];
    assert OfDigits(0, [2, 1]) == OfDigits(2, [1]) == OfDigits(0x201, []);
  }
}
