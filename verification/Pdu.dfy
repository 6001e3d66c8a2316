/**
 Protocol data units: `EncodePdu` and `DecodePdu` specify the octets of a message and the message
 of some octets. The optional fields are written in whatever order the name table is iterated.
 */
module Pdu {
  import opened Bytes
  import opened Values
  import opened Codec
  import opened CommandIds
  import opened Tables

  const HEADER_LENGTH := 16

  // ---- encoding ---------------------------------------------------------------------------

  /** A header word taken from the message: 0 when absent, nothing at all when it is not a number. */
  function HeaderWord(m: Message, k: Name): (b: bytes)
    ensures |b| == 4 <==> NumericHeader(m, k)
    ensures |b| == 0 <==> !NumericHeader(m, k)
  {
    if k !in m then Be32(0)
    else if AsU64(m[k]).Some? then Be32(AsU64(m[k]).value % U32_LIMIT)
    else []
  }

  predicate NumericHeader(m: Message, k: Name)
  {
    k in m ==> AsU64(m[k]).Some?
  }

  /** Both header words the caller may set are absent or numbers. */
  predicate NumericHeaders(m: Message)
  {
    NumericHeader(m, CommandStatus) && NumericHeader(m, SequenceNumber)
  }

  /** The message with the defaults of the mandatory fields it lacks. */
  function WithDefaults(fs: seq<Field>, m: Message): (r: Message)
  {
    if fs == [] then m
    else
      var n := fs[0].member.name;
      WithDefaults(fs[1..], if n !in m && fs[0].fallback.Some? then m[n := fs[0].fallback.value] else m)
  }

  function EncodeMandatory(c: CommandId, m: Message): (r: Option<bytes>)
  {
    EncodeMembers(MembersOf(c), WithDefaults(FieldsOf(c), m))
  }

  /** One optional field on the wire. */
  datatype Chunk = Chunk(name: Name, tlv: Tlv, value: bytes)

  predicate ProperChunk(k: Chunk)
  {
    TlvOf(k.name) == Some(k.tlv)
  }

  function ChunkBytes(k: Chunk): (b: bytes)
  {
    Be16(k.tlv.tag) + Be16(|k.value| % U16_LIMIT) + k.value
  }

  /** The optional fields of a message, in the order the names are visited. */
  function Chunks(order: seq<Name>, m: Message): (r: Option<seq<Chunk>>)
    ensures r.Some? ==> forall k <- r.value :: ProperChunk(k) && k.name in order && k.name in m
  {
    if order == [] then Some([]) else
    var rest := Chunks(order[1..], m);
    var n := order[0];
    if rest.None? then None
    else if n !in m || TlvOf(n).None? then rest
    else
      var b := Encode(TlvOf(n).value.codec, m[n]);
      if b.None? then None else Some([Chunk(n, TlvOf(n).value, b.value)] + rest.value)
  }

  function Flatten(ks: seq<Chunk>): (b: bytes)
  {
    if ks == [] then [] else ChunkBytes(ks[0]) + Flatten(ks[1..])
  }

  /** An iteration order of the table of optional fields: every name once. */
  ghost predicate Enumerates(order: seq<Name>)
  {
    && (forall n :: n in order <==> TlvOf(n).Some?)
    && (forall i, j :: 0 <= i < j < |order| ==> order[i] != order[j])
  }

  lemma {:induction false} Listing(names: set<Name>) returns (order: seq<Name>)
    ensures forall n :: n in order <==> n in names
    ensures forall i, j :: 0 <= i < j < |order| ==> order[i] != order[j]
  {
    if names == {} { return []; }
    var n :| n in names;
    var rest := Listing(names - {n});
    order := [n] + rest;
  }

  /** The table of optional fields has an iteration order. */
  lemma OrderExists() returns (order: seq<Name>)
    ensures Enumerates(order)
  {
    var singles: set<u16> := {0x001D, 0x0609, 0x060E, 0x060D, 0x001E, 0x130C, 0x0613};
    var tags := U8_TAGS + U16_TAGS + U32_TAGS + OCTET_TAGS + singles;
    order := Listing(set t <- tags :: Optional(t));
    forall n ensures n in order <==> TlvOf(n).Some? {
      if n.Optional? { assert n in order <==> n.tag in tags; }
    }
  }

  /** Everything after the length word. */
  function Body(c: CommandId, m: Message, order: seq<Name>): (r: Option<bytes>)
  {
    var mandatory := EncodeMandatory(c, m);
    var optional := Chunks(order, m);
    if mandatory.None? || optional.None? then None
    else Some(Be32(AsU32(c)) + HeaderWord(m, CommandStatus) + HeaderWord(m, SequenceNumber)
              + mandatory.value + Flatten(optional.value))
  }

  function EncodePdu(c: CommandId, m: Message, order: seq<Name>): (r: Option<bytes>)
    ensures r.Some? <==> EncodeMandatory(c, m).Some? && Chunks(order, m).Some?
  {
    var body := Body(c, m, order);
    if body.None? then None else Some(Be32((4 + |body.value|) % U32_LIMIT) + body.value)
  }

  function ExtractCommandId(m: Message): (c: Option<CommandId>)
  {
    match Get(m, CommandIdKey)
    case Some(Number(_)) =>
      var n := AsU64(m[CommandIdKey]);
      if n.Some? then FromU32(n.value % U32_LIMIT) else None
    case Some(Decimal(_)) => None
    case Some(String(s)) => FromStr(s)
    case _ =>
      match Get(m, CommandNameKey)
      case Some(String(s)) => FromStr(s)
      case _ => None
  }

  function FromJson(m: Message, order: seq<Name>): (r: Option<bytes>)
  {
    var c := ExtractCommandId(m);
    if c.None? then None else EncodePdu(c.value, m, order)
  }

  // ---- decoding ---------------------------------------------------------------------------

  /** Reads a TLV: what is left of the buffer, and its value unless that is short or empty. */
  function ReadTlvValue(b: bytes): (r: (Option<bytes>, bytes))
    requires |b| >= 2
    ensures |r.1| <= |b| - 2
    ensures r.0.Some? ==> 0 < |r.0.value| < U16_LIMIT && |r.1| == |b| - 4 - |r.0.value|
  {
    if |b| < 4 then (None, b[2..]) else
    var n := OfBe16(b[2..4]);
    if 0 < n <= |b| - 4 then (Some(b[4..4 + n]), b[4 + n..]) else (None, b[4..])
  }

  /** What a TLV value is read as; a value that cannot be read is null. */
  function TlvValue(c: Codec, v: Option<bytes>): (r: Value)
  {
    if v.None? then Null
    else if Decode(c, v.value).Fail? then Null
    else Decode(c, v.value).v
  }

  function DecodeTlvs(b: bytes, acc: Message): (r: Option<Message>)
    decreases |b|
  {
    if |b| < 2 then Some(acc) else
    var n := TlvNamed(OfBe16(b[..2]));
    if n.None? then None else
    var (v, rest) := ReadTlvValue(b);
    DecodeTlvs(rest, acc[n.value := TlvValue(TlvOf(n.value).value.codec, v)])
  }

  function HeaderMessage(c: CommandId, status: u32, sequence: u32): (m: Message)
  {
    map[CommandNameKey := String(Ascii(NameOf(c))),
        CommandIdKey := String(HexText(AsU32(c))),
        CommandStatus := Number(status),
        SequenceNumber := Number(sequence)]
  }

  /** The header and mandatory part of a PDU, and the octets after it. */
  function DecodeFixed(b: bytes): (r: Parse<Message>)
  {
    if |b| < HEADER_LENGTH then Fail else
    var c := FromU32(OfBe32(b[4..8]));
    if c.None? then Fail
    else DecodeMembers(MembersOf(c.value), b[16..], HeaderMessage(c.value, OfBe32(b[8..12]), OfBe32(b[12..16])))
  }

  function DecodePdu(b: bytes): (r: Option<Message>)
  {
    match DecodeFixed(b)
    case Fail => None
    case Got(m, rest) => DecodeTlvs(rest, m)
  }

  // ---- the TLV loop -----------------------------------------------------------------------

  /** The effect of reading well-formed optional fields one after the other. */
  function Absorb(ks: seq<Chunk>, acc: Message): (m: Message)
  {
    if ks == [] then acc else Absorb(ks[1..], acc[ks[0].name := Readback(ks[0])])
  }

  function Readback(k: Chunk): (v: Value)
  {
    TlvValue(k.tlv.codec, if k.value == [] then None else Some(k.value))
  }

  lemma ReadChunk(k: Chunk, rest: bytes)
    requires |k.value| < U16_LIMIT
    ensures var b := ChunkBytes(k) + rest;
            && OfBe16(b[..2]) == k.tlv.tag
            && ReadTlvValue(b) == (if k.value == [] then None else Some(k.value), rest)
  {
    var b, n := ChunkBytes(k) + rest, |k.value|;
    assert b[..2] == Be16(k.tlv.tag) && b[2..4] == Be16(n);
    assert b[4..4 + n] == k.value && b[4 + n..] == rest;
  }

  /**
   The decoder reads any well-formed series of TLVs to its end, up to a stray last octet, and gets
   the fold of its values.
   */
  lemma {:induction false} TlvLoopIsFold(ks: seq<Chunk>, stray: bytes, acc: Message)
    requires forall k <- ks :: ProperChunk(k) && |k.value| < U16_LIMIT
    requires |stray| < 2
    ensures DecodeTlvs(Flatten(ks) + stray, acc) == Some(Absorb(ks, acc))
    decreases |ks|
  {
    hide TlvOf, Decode;
    if ks == [] {
      assert Flatten(ks) + stray == stray;
    } else {
      var k, b := ks[0], Flatten(ks) + stray;
      assert b == ChunkBytes(k) + (Flatten(ks[1..]) + stray);
      ReadChunk(k, Flatten(ks[1..]) + stray);
      TlvLoopIsFold(ks[1..], stray, acc[k.name := Readback(k)]);
    }
  }

  /** The last occurrence of each field wins. */
  lemma {:induction false} LastOccurrenceWins(ks: seq<Chunk>, acc: Message, n: Name)
    ensures var m := Absorb(ks, acc);
            if exists k <- ks :: k.name == n
            then n in m && exists i :: 0 <= i < |ks| && ks[i].name == n && m[n] == Readback(ks[i])
                                       && forall j :: i < j < |ks| ==> ks[j].name != n
            else n in m <==> n in acc
    ensures (forall k <- ks :: k.name != n) && n in acc ==> Absorb(ks, acc)[n] == acc[n]
    decreases |ks|
  {
    hide Readback;
    if ks != [] {
      var acc' := acc[ks[0].name := Readback(ks[0])];
      LastOccurrenceWins(ks[1..], acc', n);
      if exists k <- ks[1..] :: k.name == n {
        var i :| 0 <= i < |ks| - 1 && ks[1..][i].name == n && Absorb(ks, acc)[n] == Readback(ks[1..][i])
                 && forall j :: i < j < |ks| - 1 ==> ks[1..][j].name != n;
        assert ks[i + 1] == ks[1..][i];
        assert forall j :: i + 1 < j < |ks| ==> ks[j] == ks[1..][j - 1];
      } else {
        assert forall j :: 0 < j < |ks| ==> ks[j] in ks[1..];
        assert ks[0].name == n ==> Absorb(ks, acc)[n] == Readback(ks[0]);
      }
    }
  }
}
