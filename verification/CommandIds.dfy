/** Command identifiers: their numbers, their hexadecimal text and their names. */
module CommandIds {
  import opened Bytes

  datatype CommandId =
    | BindReceiver | BindReceiverResp | BindTransmitter | BindTransmitterResp | BindTransceiver
    | BindTransceiverResp | Unbind | UnbindResp | Outbind | SubmitSm | SubmitSmResp | SubmitMulti
    | SubmitMultiResp | DeliverSm | DeliverSmResp | DataSm | DataSmResp | QuerySm | QuerySmResp
    | CancelSm | CancelSmResp | ReplaceSm | ReplaceSmResp | EnquireLink | EnquireLinkResp
    | GenericNack | AlertNotification | BroadcastSm | BroadcastSmResp | QueryBroadcastSm
    | QueryBroadcastSmResp | CancelBroadcastSm | CancelBroadcastSmResp

  const RESPONSE_BIT := 0x8000_0000

  function AsU32(c: CommandId): (n: u32)
  {
    match c
    case BindReceiver => 0x00000001
    case BindReceiverResp => 0x80000001
    case BindTransmitter => 0x00000002
    case BindTransmitterResp => 0x80000002
    case BindTransceiver => 0x00000009
    case BindTransceiverResp => 0x80000009
    case Unbind => 0x00000006
    case UnbindResp => 0x80000006
    case Outbind => 0x0000000B
    case SubmitSm => 0x00000004
    case SubmitSmResp => 0x80000004
    case SubmitMulti => 0x00000021
    case SubmitMultiResp => 0x80000021
    case DeliverSm => 0x00000005
    case DeliverSmResp => 0x80000005
    case DataSm => 0x00000103
    case DataSmResp => 0x80000103
    case QuerySm => 0x00000003
    case QuerySmResp => 0x80000003
    case CancelSm => 0x00000008
    case CancelSmResp => 0x80000008
    case ReplaceSm => 0x00000007
    case ReplaceSmResp => 0x80000007
    case EnquireLink => 0x00000015
    case EnquireLinkResp => 0x80000015
    case GenericNack => 0x80000000
    case AlertNotification => 0x00000102
    case BroadcastSm => 0x00000111
    case BroadcastSmResp => 0x80000111
    case QueryBroadcastSm => 0x00000112
    case QueryBroadcastSmResp => 0x80000112
    case CancelBroadcastSm => 0x00000113
    case CancelBroadcastSmResp => 0x80000113
  }

  function FromU32(n: nat): (c: Option<CommandId>)
  {
    match n
    case 0x00000001 => Some(BindReceiver)
    case 0x80000001 => Some(BindReceiverResp)
    case 0x00000002 => Some(BindTransmitter)
    case 0x80000002 => Some(BindTransmitterResp)
    case 0x00000009 => Some(BindTransceiver)
    case 0x80000009 => Some(BindTransceiverResp)
    case 0x00000006 => Some(Unbind)
    case 0x80000006 => Some(UnbindResp)
    case 0x0000000B => Some(Outbind)
    case 0x00000004 => Some(SubmitSm)
    case 0x80000004 => Some(SubmitSmResp)
    case 0x00000021 => Some(SubmitMulti)
    case 0x80000021 => Some(SubmitMultiResp)
    case 0x00000005 => Some(DeliverSm)
    case 0x80000005 => Some(DeliverSmResp)
    case 0x00000103 => Some(DataSm)
    case 0x80000103 => Some(DataSmResp)
    case 0x00000003 => Some(QuerySm)
    case 0x80000003 => Some(QuerySmResp)
    case 0x00000008 => Some(CancelSm)
    case 0x80000008 => Some(CancelSmResp)
    case 0x00000007 => Some(ReplaceSm)
    case 0x80000007 => Some(ReplaceSmResp)
    case 0x00000015 => Some(EnquireLink)
    case 0x80000015 => Some(EnquireLinkResp)
    case 0x80000000 => Some(GenericNack)
    case 0x00000102 => Some(AlertNotification)
    case 0x00000111 => Some(BroadcastSm)
    case 0x80000111 => Some(BroadcastSmResp)
    case 0x00000112 => Some(QueryBroadcastSm)
    case 0x80000112 => Some(QueryBroadcastSmResp)
    case 0x00000113 => Some(CancelBroadcastSm)
    case 0x80000113 => Some(CancelBroadcastSmResp)
    case _ => None
  }

  lemma NumbersAreUnique(c: CommandId, n: nat)
    ensures FromU32(n) == Some(c) <==> AsU32(c) == n
  {}

  /** The command name the decoder puts into a message. */
  function NameOf(c: CommandId): (s: string)
  {
    match c
    case BindReceiver => "BindReceiver"
    case BindReceiverResp => "BindReceiverResp"
    case BindTransmitter => "BindTransmitter"
    case BindTransmitterResp => "BindTransmitterResp"
    case BindTransceiver => "BindTransceiver"
    case BindTransceiverResp => "BindTransceiverResp"
    case Unbind => "Unbind"
    case UnbindResp => "UnbindResp"
    case Outbind => "Outbind"
    case SubmitSm => "SubmitSm"
    case SubmitSmResp => "SubmitSmResp"
    case SubmitMulti => "SubmitMulti"
    case SubmitMultiResp => "SubmitMultiResp"
    case DeliverSm => "DeliverSm"
    case DeliverSmResp => "DeliverSmResp"
    case DataSm => "DataSm"
    case DataSmResp => "DataSmResp"
    case QuerySm => "QuerySm"
    case QuerySmResp => "QuerySmResp"
    case CancelSm => "CancelSm"
    case CancelSmResp => "CancelSmResp"
    case ReplaceSm => "ReplaceSm"
    case ReplaceSmResp => "ReplaceSmResp"
    case EnquireLink => "EnquireLink"
    case EnquireLinkResp => "EnquireLinkResp"
    case GenericNack => "GenericNack"
    case AlertNotification => "AlertNotification"
    case BroadcastSm => "BroadcastSm"
    case BroadcastSmResp => "BroadcastSmResp"
    case QueryBroadcastSm => "QueryBroadcastSm"
    case QueryBroadcastSmResp => "QueryBroadcastSmResp"
    case CancelBroadcastSm => "CancelBroadcastSm"
    case CancelBroadcastSmResp => "CancelBroadcastSmResp"
  }

  predicate IsResponse(c: CommandId)
  {
    AsU32(c) >= RESPONSE_BIT
  }

  /** The identifier with the response bit set. */
  function ResponseId(n: u32): (r: u32)
  {
    if n < RESPONSE_BIT then n + RESPONSE_BIT else n
  }

  // ---- hexadecimal text -------------------------------------------------------------------

  function HexDigit(d: nat): (c: byte)
    requires d < 16
    ensures HexValue(c) == Some(d)
    ensures c != 43 && c != 45 && c != 95
  {
    if d < 10 then 48 + d else 55 + d
  }

  function HexValue(c: byte): (d: Option<nat>)
    ensures d.Some? ==> d.value < 16
  {
    if 48 <= c <= 57 then Some(c - 48)
    else if 65 <= c <= 70 then Some(c - 55)
    else if 97 <= c <= 102 then Some(c - 87)
    else None
  }

  /** `k` upper-case hexadecimal digits of `n`. */
  function HexDigits(n: nat, k: nat): (s: bytes)
    ensures |s| == k && forall c <- s :: c != 43 && c != 45 && c != 95
  {
    if k == 0 then [] else HexDigits(n / 16, k - 1) + [HexDigit(n % 16)]
  }

  /** The text `0x%08X`. */
  function HexText(n: u32): (s: bytes)
  {
    [48, 120] + HexDigits(n, 8)
  }

  function AddHexDigit(acc: Option<nat>, c: byte): (r: Option<nat>)
  {
    var d := HexValue(c);
    if acc.None? || d.None? || acc.value * 16 + d.value >= U32_LIMIT then None
    else Some(acc.value * 16 + d.value)
  }

  function ParseHexFrom(acc: Option<nat>, s: bytes): (r: Option<nat>)
    decreases s
  {
    if s == [] then acc else ParseHexFrom(AddHexDigit(acc, s[0]), s[1..])
  }

  /** An unsigned 32-bit number in base 16, with an optional plus sign. */
  function ParseHex(s: bytes): (r: Option<nat>)
  {
    var digits := if s != [] && s[0] == 43 then s[1..] else s;
    if digits == [] then None else ParseHexFrom(Some(0), digits)
  }

  // ---- identifiers from text --------------------------------------------------------------

  /** The text without hyphens and underscores. */
  function Squeeze(s: bytes): (r: bytes)
  {
    if s == [] then []
    else if s[0] == 45 || s[0] == 95 then Squeeze(s[1..])
    else [s[0]] + Squeeze(s[1..])
  }

  function Lower(s: bytes): (r: bytes)
  {
    seq(|s|, i requires 0 <= i < |s| => if 65 <= s[i] <= 90 then s[i] + 32 else s[i])
  }

  /** A squeezed lower-case name denotes the command it spells; a response may also end in "response". */
  predicate Spells(s: bytes, c: CommandId)
  {
    var name := Lower(Ascii(NameOf(c)));
    s == name || (IsResponse(c) && c != GenericNack && s == name + Ascii("onse"))
  }

  const AllCommands: seq<CommandId> := [
    BindReceiver, BindReceiverResp, BindTransmitter, BindTransmitterResp, BindTransceiver,
    BindTransceiverResp, Unbind, UnbindResp, Outbind, SubmitSm, SubmitSmResp, SubmitMulti, SubmitMultiResp,
    DeliverSm, DeliverSmResp, DataSm, DataSmResp, QuerySm, QuerySmResp, CancelSm, CancelSmResp, ReplaceSm,
    ReplaceSmResp, EnquireLink, EnquireLinkResp, GenericNack, AlertNotification, BroadcastSm,
    BroadcastSmResp, QueryBroadcastSm, QueryBroadcastSmResp, CancelBroadcastSm, CancelBroadcastSmResp]

  /** The first command of `cs` that the name spells. */
  function FromName(s: bytes, cs: seq<CommandId>): (c: Option<CommandId>)
    ensures c.Some? ==> c.value in cs && Spells(s, c.value)
  {
    if cs == [] then None
    else if Spells(s, cs[0]) then Some(cs[0])
    else FromName(s, cs[1..])
  }

  function FromStr(text: bytes): (c: Option<CommandId>)
  {
    var s := Squeeze(text);
    if [48, 120] <= s && ParseHex(s[2..]).Some? then FromU32(ParseHex(s[2..]).value)
    else FromName(Lower(s), AllCommands)
  }

  lemma {:induction false} SqueezeKeeps(s: bytes)
    requires 45 !in s && 95 !in s
    ensures Squeeze(s) == s
  {
    if s != [] { SqueezeKeeps(s[1..]); }
  }

  lemma {:induction false} ParseHexAppend(acc: Option<nat>, s: bytes, c: byte)
    ensures ParseHexFrom(acc, s + [c]) == AddHexDigit(ParseHexFrom(acc, s), c)
    decreases s
  {
    if s != [] {
      ParseHexAppend(AddHexDigit(acc, s[0]), s[1..], c);
      assert (s + [c])[1..] == s[1..] + [c];
    }
  }

  function Pow16(k: nat): (p: nat)
    ensures p > 0
  {
    if k == 0 then 1 else 16 * Pow16(k - 1)
  }

  lemma {:induction false} ParseHexDigits(n: nat, k: nat)
    requires n < U32_LIMIT && n < Pow16(k)
    ensures ParseHexFrom(Some(0), HexDigits(n, k)) == Some(n)
    decreases k
  {
    if k > 0 {
      ParseHexDigits(n / 16, k - 1);
      ParseHexAppend(Some(0), HexDigits(n / 16, k - 1), HexDigit(n % 16));
    }
  }

  lemma ParseHexText(n: u32)
    ensures ParseHex(HexDigits(n, 8)) == Some(n)
  {
    assert Pow16(8) == U32_LIMIT;
    ParseHexDigits(n, 8);
    assert HexDigits(n, 8)[0] in HexDigits(n, 8);
  }

  /** The hexadecimal text of an identifier is read back as that identifier. */
  lemma FromHexText(n: u32)
    ensures FromStr(HexText(n)) == FromU32(n)
  {
    hide FromU32, FromName, Lower, HexDigits, ParseHex;
    SqueezeKeeps(HexText(n));
    ParseHexText(n);
    DropPrefix([48, 120], HexDigits(n, 8));
  }
}
