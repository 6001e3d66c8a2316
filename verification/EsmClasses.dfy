/** The four fields of an esm_class octet, and the registered_delivery octet that asks for receipts. */
module EsmClasses {
  import opened Bytes

  datatype MessageMode = DefaultMode | Datagram | Transaction | StoreAndForward
  datatype MessageType = DefaultType | DeliveryReceipt | IntermediateNotification
  datatype Ansi41 = DeliveryAcknowledgement | UserAcknowledgement | ConversationAbort | Unknown
  datatype Gsm = NoSpecific | UdhIndicator | ReplyPath | UdhAndReplyPath

  datatype EsmClass = EsmClass(mode: MessageMode, kind: MessageType, ansi: Ansi41, gsm: Gsm)

  const DEFAULT := EsmClass(DefaultMode, DefaultType, Unknown, NoSpecific)

  /** The two lowest bits. */
  function ModeOf(v: byte): (m: MessageMode)
  {
    match v % 4 case 0 => DefaultMode case 1 => Datagram case 2 => Transaction case _ => StoreAndForward
  }

  /** Bits 2 and 5; both at once are taken for neither. */
  function TypeOf(v: byte): (t: MessageType)
  {
    var receipt, intermediate := v / 4 % 2 == 1, v / 32 % 2 == 1;
    if receipt && !intermediate then DeliveryReceipt
    else if intermediate && !receipt then IntermediateNotification
    else DefaultType
  }

  /** Bits 3 and 4. */
  function AnsiOf(v: byte): (a: Ansi41)
  {
    match v / 8 % 4
    case 1 => DeliveryAcknowledgement case 2 => UserAcknowledgement case 3 => ConversationAbort case _ => Unknown
  }

  /** Bits 6 and 7. */
  function GsmOf(v: byte): (g: Gsm)
  {
    match v / 64 case 0 => NoSpecific case 1 => UdhIndicator case 2 => ReplyPath case _ => UdhAndReplyPath
  }

  function FromU8(v: byte): (c: EsmClass)
  {
    EsmClass(ModeOf(v), TypeOf(v), AnsiOf(v), GsmOf(v))
  }

  function ModeBits(m: MessageMode): (n: nat)
  {
    match m case DefaultMode => 0 case Datagram => 1 case Transaction => 2 case StoreAndForward => 3
  }

  function TypeBits(t: MessageType): (n: nat)
  {
    match t case DefaultType => 0 case DeliveryReceipt => 4 case IntermediateNotification => 32
  }

  /** Bits 3 and 4. The unknown part has the value after that of ConversationAbort, which sets bit 0 too. */
  function AnsiBits(a: Ansi41): (n: nat)
  {
    match a
    case DeliveryAcknowledgement => 8 case UserAcknowledgement => 16 case ConversationAbort => 24 case Unknown => 24
  }

  function GsmBits(g: Gsm): (n: nat)
  {
    match g case NoSpecific => 0 case UdhIndicator => 64 case ReplyPath => 128 case UdhAndReplyPath => 192
  }

  /** The octet of a class: the bitwise or of its parts. */
  function AsU8(c: EsmClass): (v: byte)
  {
    var lowest := if c.ansi.Unknown? && ModeBits(c.mode) % 2 == 0 then 1 else 0;
    ModeBits(c.mode) + lowest + TypeBits(c.kind) + AnsiBits(c.ansi) + GsmBits(c.gsm)
  }

  lemma DigitsOfOctet(v: byte)
    ensures v == v % 4 + 4 * (v / 4 % 2) + 8 * (v / 8 % 4) + 32 * (v / 32 % 2) + 64 * (v / 64)
  {
    var a, b, c := v / 4, v / 8, v / 32;
    assert v == 4 * a + v % 4;
    assert a == 2 * b + a % 2;
    assert b == 4 * c + b % 4;
    assert c == 2 * (v / 64) + c % 2;
  }

  lemma LowParts(v: byte)
    ensures ModeBits(ModeOf(v)) == v % 4
    ensures AnsiBits(AnsiOf(v)) == if AnsiOf(v).Unknown? then 24 else 8 * (v / 8 % 4)
    ensures AnsiOf(v).Unknown? <==> v / 8 % 4 == 0
  {}

  lemma HighParts(v: byte)
    ensures GsmBits(GsmOf(v)) == 64 * (v / 64)
    ensures TypeBits(TypeOf(v)) == if v / 4 % 2 == v / 32 % 2 then 0 else 4 * (v / 4 % 2) + 32 * (v / 32 % 2)
  {}

  /**
   Splitting an octet and joining it again gives the octet back, except without network bits or with
   both type bits.
   */
  lemma OctetRoundTripIff(v: byte)
    ensures AsU8(FromU8(v)) == v <==> v / 8 % 4 != 0 && !(v / 4 % 2 == 1 && v / 32 % 2 == 1)
  {
    hide ModeOf, TypeOf, AnsiOf, GsmOf, ModeBits, TypeBits, AnsiBits, GsmBits;
    DigitsOfOctet(v);
    LowParts(v);
    HighParts(v);
    var mode, receipt, ansi, intermediate, gsm := v % 4, v / 4 % 2, v / 8 % 4, v / 32 % 2, v / 64;
    assert receipt <= 1 && intermediate <= 1;
  }

  /** A part of `c` that says something replaces that of `self`. */
  function Merge(self: EsmClass, c: EsmClass): (r: EsmClass)
  {
    EsmClass(if c.mode.DefaultMode? then self.mode else c.mode,
             if c.kind.DefaultType? then self.kind else c.kind,
             if c.ansi.Unknown? then self.ansi else c.ansi,
             if c.gsm.NoSpecific? then self.gsm else c.gsm)
  }

  lemma MergeIsAMonoid(a: EsmClass, b: EsmClass, c: EsmClass)
    ensures Merge(Merge(a, b), c) == Merge(a, Merge(b, c))
    ensures Merge(DEFAULT, a) == a == Merge(a, DEFAULT) == Merge(a, a)
  {}

  function MergeAll(cs: seq<EsmClass>): (r: EsmClass)
  {
    if cs == [] then DEFAULT else Merge(MergeAll(cs[..|cs| - 1]), cs[|cs| - 1])
  }

  /** Each part of a series of classes is that of the last one in which it says something. */
  lemma {:induction false} LastSays(cs: seq<EsmClass>, k: nat)
    requires k < |cs|
    ensures cs[k].mode != DefaultMode && (forall j :: k < j < |cs| ==> cs[j].mode == DefaultMode)
            ==> MergeAll(cs).mode == cs[k].mode
    ensures cs[k].kind != DefaultType && (forall j :: k < j < |cs| ==> cs[j].kind == DefaultType)
            ==> MergeAll(cs).kind == cs[k].kind
    ensures cs[k].ansi != Unknown && (forall j :: k < j < |cs| ==> cs[j].ansi == Unknown)
            ==> MergeAll(cs).ansi == cs[k].ansi
    ensures cs[k].gsm != NoSpecific && (forall j :: k < j < |cs| ==> cs[j].gsm == NoSpecific)
            ==> MergeAll(cs).gsm == cs[k].gsm
    decreases |cs|
  {
    var n := |cs| - 1;
    if k < n {
      LastSays(cs[..n], k);
      assert forall j :: 0 <= j < n ==> cs[..n][j] == cs[j];
    }
  }

  // ---- registered_delivery ----------------------------------------------------------------

  datatype ReceiptWish = NoReceipt | Always | OnFailure | OnSuccess
  datatype AckWish = NoAck | DeliveryAck | ManualAck | BothAcks

  datatype RegisteredDelivery = RegisteredDelivery(receipt: ReceiptWish, ack: AckWish, intermediate: bool)

  function DeliveryFromU8(v: byte): (r: RegisteredDelivery)
  {
    RegisteredDelivery(
      match v % 4 case 0 => NoReceipt case 1 => Always case 2 => OnFailure case _ => OnSuccess,
      match v / 4 % 4 case 0 => NoAck case 1 => DeliveryAck case 2 => ManualAck case _ => BothAcks,
      v / 16 % 2 == 1)
  }
}
