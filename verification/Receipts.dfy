/** Where delivery receipts are posted: registrations that expire, are swept, and are consumed by events. */
module Receipts {
  import opened Bytes
  import opened EsmClasses

  type Time = int

  const SWEEP_EVERY := 5 * 60
  const LIFETIME := 60 * 60

  datatype Registration = Registration(url: bytes, wants: RegisteredDelivery, seen: EsmClass, expires: Time)

  datatype Receipts = Receipts(urls: map<bytes, Registration>, nextClean: Time)

  datatype Event =
    | Register(id: bytes, url: bytes, wants: RegisteredDelivery, now: Time)
    | Arrival(id: bytes, esm: EsmClass, now: Time)
    | Remove(id: bytes)

  predicate WantsSomething(w: RegisteredDelivery)
  {
    !w.receipt.NoReceipt? || !w.ack.NoAck? || w.intermediate
  }

  /** One event is all that was asked for; what earlier events brought is not considered. */
  predicate AllRequested(w: RegisteredDelivery, c: EsmClass)
  {
    && (!w.receipt.NoReceipt? ==> c.kind.DeliveryReceipt?)
    && (w.intermediate ==> c.kind.IntermediateNotification?)
    && (!w.ack.NoAck? ==> c.ansi.DeliveryAcknowledgement? || c.ansi.UserAcknowledgement?)
  }

  function Sweep(s: Receipts, now: Time): (r: Receipts)
  {
    if s.nextClean > now then s
    else Receipts(map i <- s.urls | s.urls[i].expires > now :: s.urls[i], now + SWEEP_EVERY)
  }

  function Step(s: Receipts, e: Event): (r: Receipts)
  {
    match e
    case Register(i, url, w, now) =>
      if !WantsSomething(w) then s
      else
        var swept := Sweep(s, now);
        swept.(urls := swept.urls[i := Registration(url, w, DEFAULT, now + LIFETIME)])
    case Arrival(i, c, _) =>
      if i !in s.urls then s
      else if AllRequested(s.urls[i].wants, c) then s.(urls := s.urls - {i})
      else s.(urls := s.urls[i := s.urls[i].(seen := Merge(s.urls[i].seen, c))])
    case Remove(i) => s.(urls := s.urls - {i})
  }

  /** The URL an arrival is posted to. */
  function UrlFor(s: Receipts, i: bytes, now: Time): (r: Option<bytes>)
  {
    if i in s.urls && s.urls[i].expires > now then Some(s.urls[i].url) else None
  }

  function Run(s: Receipts, es: seq<Event>): (r: Receipts)
    decreases |es|
  {
    if es == [] then s else Run(Step(s, es[0]), es[1..])
  }

  // ---- what can be consumed ---------------------------------------------------------------

  /** Some event satisfies a registration exactly when it does not ask for both a receipt and an intermediate
      notification. */
  lemma SatisfiableIff(w: RegisteredDelivery)
    ensures (exists v: byte :: AllRequested(w, FromU8(v))) <==> (w.receipt.NoReceipt? || !w.intermediate)
  {
    if w.receipt.NoReceipt? || !w.intermediate {
      var v: byte := (if !w.receipt.NoReceipt? then 4 else if w.intermediate then 32 else 0) + 8;
      assert AllRequested(w, FromU8(v));
    }
  }

  /**
   In terms of the two octets. A receipt that is asked for needs bit 2 of esm_class without bit 5, an
   intermediate notification bit 5 without bit 2, and an acknowledgement a 1 or 2 in bits 3 and 4.
   */
  lemma SatisfiedIff(w: byte, v: byte)
    ensures AllRequested(DeliveryFromU8(w), FromU8(v))
       <==> && (w % 4 != 0 ==> v / 4 % 2 == 1 && v / 32 % 2 == 0)
            && (w / 16 % 2 == 1 ==> v / 32 % 2 == 1 && v / 4 % 2 == 0)
            && (w / 4 % 4 != 0 ==> v / 8 % 4 == 1 || v / 8 % 4 == 2)
    ensures WantsSomething(DeliveryFromU8(w)) <==> w % 4 != 0 || w / 4 % 4 != 0 || w / 16 % 2 == 1
  {}

  /** In terms of the registered_delivery octet: bits 0 and 1 ask for a receipt, bit 4 for a notification. */
  lemma OctetSatisfiableIff(v: byte)
    ensures (exists e: byte :: AllRequested(DeliveryFromU8(v), FromU8(e))) <==> v % 4 == 0 || v / 16 % 2 == 0
  {
    hide AllRequested, FromU8;
    SatisfiableIff(DeliveryFromU8(v));
  }

  // ---- how a registration leaves ----------------------------------------------------------

  /** May end or replace the registration of an id that asks for `w` and expires at `expires`. */
  predicate Ends(e: Event, i: bytes, w: RegisteredDelivery, expires: Time)
  {
    match e
    case Register(j, _, w', now) => WantsSomething(w') && (i == j || expires <= now)
    case Arrival(j, c, _) => i == j && AllRequested(w, c)
    case Remove(j) => i == j
  }

  predicate SameRegistration(a: Registration, b: Registration)
  {
    a.url == b.url && a.wants == b.wants && a.expires == b.expires
  }

  lemma StepKeepsRegistration(s: Receipts, e: Event, i: bytes)
    requires i in s.urls && !Ends(e, i, s.urls[i].wants, s.urls[i].expires)
    ensures i in Step(s, e).urls && SameRegistration(Step(s, e).urls[i], s.urls[i])
  {}

  /**
   A registration stays until it is removed, replaced, expired at another registration, or met by a
   single event that satisfies every request.
   */
  lemma {:induction false} RegistrationStays(s: Receipts, es: seq<Event>, i: bytes)
    requires i in s.urls
    requires forall e <- es :: !Ends(e, i, s.urls[i].wants, s.urls[i].expires)
    ensures i in Run(s, es).urls && SameRegistration(Run(s, es).urls[i], s.urls[i])
    decreases |es|
  {
    hide Step, Ends;
    if es != [] {
      assert es[0] in es;
      StepKeepsRegistration(s, es[0], i);
      RegistrationStays(Step(s, es[0]), es[1..], i);
    }
  }

  /** The step that ends an unexpired registration is one of the three kinds. */
  lemma OnlyTheseEnd(s: Receipts, e: Event, i: bytes)
    requires i in s.urls
    requires e.Register? ==> s.urls[i].expires > e.now
    requires i in Step(s, e).urls ==> !SameRegistration(Step(s, e).urls[i], s.urls[i])
    ensures e == Remove(i) || (e.Register? && e.id == i && WantsSomething(e.wants))
            || (e.Arrival? && e.id == i && AllRequested(s.urls[i].wants, e.esm))
  {}

  /**
   What a step makes of a registration: another one of its id replaces it, others sweep it when it has expired
   and a sweep is due, an event of its id takes it away exactly when that is all it asked for, and so does
   its removal.
   */
  lemma RegistrationAfter(s: Receipts, e: Event, i: bytes)
    requires i in s.urls
    ensures var s' := Step(s, e);
            match e
            case Register(j, url, w, now) =>
              if !WantsSomething(w) then s' == s
              else if i == j then i in s'.urls && s'.urls[i] == Registration(url, w, DEFAULT, now + 3600)
              else i in s'.urls <==> now < s.nextClean || now < s.urls[i].expires
            case Arrival(j, c, _) => i in s'.urls <==> !(i == j && AllRequested(s.urls[i].wants, c))
            case Remove(j) => i in s'.urls <==> i != j
  {
    hide AllRequested, WantsSomething;
  }

  /** A registration for both a receipt and an intermediate notification is consumed by no series of events. */
  lemma BothKindsNeverConsumed(s: Receipts, es: seq<Event>, i: bytes)
    requires i in s.urls && !s.urls[i].wants.receipt.NoReceipt? && s.urls[i].wants.intermediate
    requires forall e <- es :: e.Arrival?
    ensures i in Run(s, es).urls && SameRegistration(Run(s, es).urls[i], s.urls[i])
  {
    RegistrationStays(s, es, i);
  }

  /** The registration of an id, last registered at `now`, answers with its URL until it expires or ends. */
  lemma RegisteredIsFound(s: Receipts, e: Event, es: seq<Event>, later: Time)
    requires e.Register? && WantsSomething(e.wants)
    requires forall x <- es :: !Ends(x, e.id, e.wants, e.now + LIFETIME)
    ensures UrlFor(Run(Step(s, e), es), e.id, later) == if later < e.now + 3600 then Some(e.url) else None
  {
    RegistrationStays(Step(s, e), es, e.id);
  }

  /** Right after a sweep nothing expired is left. */
  lemma SweepRemovesExpired(s: Receipts, e: Event, i: bytes)
    requires e.Register? && WantsSomething(e.wants) && s.nextClean <= e.now
    ensures i in Step(s, e).urls ==> Step(s, e).urls[i].expires > e.now
    ensures Step(s, e).nextClean == e.now + 300
  {}

  // ---- what earlier events brought --------------------------------------------------------

  function Forgetful(s: Receipts): (r: Receipts)
  {
    s.(urls := map i <- s.urls :: s.urls[i].(seen := DEFAULT))
  }

  /** The same registrations, but for the classes seen. */
  predicate SameButSeen(s: Receipts, s': Receipts)
  {
    s.nextClean == s'.nextClean && s.urls.Keys == s'.urls.Keys
    && forall i <- s.urls :: SameRegistration(s.urls[i], s'.urls[i])
  }

  lemma ForgetfulIff(s: Receipts, s': Receipts)
    ensures Forgetful(s) == Forgetful(s') <==> SameButSeen(s, s')
  {
    if Forgetful(s) == Forgetful(s') {
      assert s.urls.Keys == Forgetful(s).urls.Keys == s'.urls.Keys;
      forall i <- s.urls ensures SameRegistration(s.urls[i], s'.urls[i]) {
        assert Forgetful(s).urls[i] == Forgetful(s').urls[i];
      }
    }
  }

  lemma StepIgnoresSeen(s: Receipts, s': Receipts, e: Event)
    requires Forgetful(s) == Forgetful(s')
    ensures Forgetful(Step(s, e)) == Forgetful(Step(s', e))
  {
    hide AllRequested, WantsSomething, Merge, Forgetful;
    ForgetfulIff(s, s');
    ForgetfulIff(Step(s, e), Step(s', e));
  }

  /** The classes merged from events never matter: stores that differ only in them give the same URLs for ever. */
  lemma {:induction false} SeenIsIgnored(s: Receipts, s': Receipts, es: seq<Event>, i: bytes, now: Time)
    requires Forgetful(s) == Forgetful(s')
    ensures UrlFor(Run(s, es), i, now) == UrlFor(Run(s', es), i, now)
    decreases |es|
  {
    hide Step;
    if es == [] {
      assert s.urls.Keys == Forgetful(s).urls.Keys == s'.urls.Keys;
      if i in s.urls { assert Forgetful(s).urls[i] == Forgetful(s').urls[i]; }
    } else {
      StepIgnoresSeen(s, s', es[0]);
      SeenIsIgnored(Step(s, es[0]), Step(s', es[0]), es[1..], i, now);
    }
  }

  // ---- the manager ------------------------------------------------------------------------

  class DeliveryReceiptManager {
    var receiptUrls: map<bytes, Registration>
    var nextCleanTime: Time

    ghost function State(): Receipts
      reads this
    {
      Receipts(receiptUrls, nextCleanTime)
    }

    constructor (now: Time)
      ensures State() == Receipts(map[], now + SWEEP_EVERY)
    {
      receiptUrls := map[];
      nextCleanTime := now + SWEEP_EVERY;
    }

    method CleanExpiredEntries(now: Time)
      modifies this
      ensures State() == Sweep(old(State()), now)
    {
      if nextCleanTime > now { return; }
      nextCleanTime := now + SWEEP_EVERY;
      receiptUrls := map i <- receiptUrls | receiptUrls[i].expires > now :: receiptUrls[i];
    }

    method RegisterReceiptUrl(id: bytes, url: bytes, wants: RegisteredDelivery, now: Time)
      modifies this
      ensures State() == Step(old(State()), Register(id, url, wants, now))
    {
      if wants.receipt.NoReceipt? && !wants.intermediate && wants.ack.NoAck? { return; }
      CleanExpiredEntries(now);
      receiptUrls := receiptUrls[id := Registration(url, wants, DEFAULT, now + LIFETIME)];
    }

    /** The URL of an unexpired registration; a registration the event satisfies is removed, expired or not. */
    method GetReceiptUrl(id: bytes, esm: EsmClass, now: Time) returns (url: Option<bytes>)
      modifies this
      ensures url == UrlFor(old(State()), id, now)
      ensures State() == Step(old(State()), Arrival(id, esm, now))
    {
      if id !in receiptUrls { return None; }
      var entry := receiptUrls[id];
      url := if entry.expires > now then Some(entry.url) else None;
      receiptUrls := receiptUrls[id := entry.(seen := Merge(entry.seen, esm))];
      if AllRequested(entry.wants, esm) {
        receiptUrls := receiptUrls - {id};
      }
    }

    method RemoveReceiptInfo(id: bytes)
      modifies this
      ensures State() == Step(old(State()), Remove(id))
    {
      receiptUrls := receiptUrls - {id};
    }
  }
}
