/**
 The pending messages kept in memory, as values: what each operation makes of the two maps. The
 class that updates them in place is in `MessageStorage`.
 */
module Storage {
  import opened Bytes
  import opened Values

  type Id = bytes
  type User = bytes
  type Time = int

  datatype Entry = Entry(user: User, message: Message, schedule: Option<Time>, validity: Option<Time>)

  type Messages = map<Id, seq<Entry>>
  type Users = map<User, seq<Id>>

  datatype Store = Store(messages: Messages, users: Users)

  const EMPTY := Store(map[], map[])

  /** No key of either map has an empty list. */
  predicate NoEmptyLists(s: Store)
  {
    (forall i <- s.messages :: s.messages[i] != []) && (forall u <- s.users :: s.users[u] != [])
  }

  // ---- times ------------------------------------------------------------------------------

  /** The clock and the two time parsers; the clock is read once per operation. */
  datatype Times = Times(now: Time, parse: bytes -> Option<Time>, seconds: bytes -> int)

  function ScheduleTime(m: Message, t: Times): (r: Option<Time>)
  {
    match Get(m, ScheduleDeliveryTime)
    case Some(String(s)) => t.parse(s)
    case _ => None
  }

  /** Only a validity period that is given and cannot be parsed yields none. */
  function ValidityTime(m: Message, fallback: nat, t: Times): (r: Option<Time>)
    ensures r.None? ==> Get(m, ValidityPeriod).Some? && Get(m, ValidityPeriod).value.String?
  {
    match Get(m, ValidityPeriod)
    case Some(String(s)) => t.parse(s)
    case _ =>
      match Get(m, QosTimeToLive)
      case Some(String(s)) => Some(t.now + t.seconds(s))
      case _ =>
        match ScheduleTime(m, t)
        case Some(at) => Some(at + fallback)
        case None => Some(t.now + fallback)
  }

  predicate NotDue(e: Entry, now: Time)
  {
    e.schedule.Some? && e.schedule.value > now
  }

  predicate Expired(e: Entry, now: Time)
  {
    e.validity.Some? && e.validity.value < now
  }

  // ---- saving -----------------------------------------------------------------------------

  datatype Refusal =
    | MissingDestination | NoTimes | ScheduleAfterValidity | AlreadyExpired
    | MissingMessageId | NothingToReplace | NotFound | InvalidSchedule | InvalidValidity

  function ListOf<K, V>(m: map<K, seq<V>>, k: K): (r: seq<V>)
  {
    if k in m then m[k] else []
  }

  function SaveRefusal(m: Message, fallback: nat, t: Times): (r: Option<Refusal>)
  {
    var schedule, validity := ScheduleTime(m, t), ValidityTime(m, fallback, t);
    if StringOrEmpty(m, DestinationAddr) == [] then Some(MissingDestination)
    else if schedule.None? && validity.None? then Some(NoTimes)
    else if schedule.Some? && validity.Some? && schedule.value > validity.value then Some(ScheduleAfterValidity)
    else if validity.Some? && validity.value < t.now then Some(AlreadyExpired)
    else None
  }

  function NewEntry(m: Message, fallback: nat, t: Times): (e: Entry)
  {
    Entry(StringOrEmpty(m, DestinationAddr), m, ScheduleTime(m, t), ValidityTime(m, fallback, t))
  }

  function Save(s: Store, i: Id, m: Message, fallback: nat, t: Times): (r: Store)
  {
    if SaveRefusal(m, fallback, t).Some? then s
    else
      var e := NewEntry(m, fallback, t);
      Store(s.messages[i := ListOf(s.messages, i) + [e]], s.users[e.user := ListOf(s.users, e.user) + [i]])
  }

  // ---- removal ----------------------------------------------------------------------------

  function Filter<T(!new)>(s: seq<T>, keep: T -> bool): (r: seq<T>)
    ensures forall x :: x in r <==> x in s && keep(x)
  {
    if s == [] then [] else (if keep(s[0]) then [s[0]] else []) + Filter(s[1..], keep)
  }

  lemma {:induction false} FilterAppend<T(!new)>(a: seq<T>, b: seq<T>, keep: T -> bool)
    ensures Filter(a + b, keep) == Filter(a, keep) + Filter(b, keep)
  {
    if a == [] {
      assert a + b == b;
    } else {
      assert (a + b)[1..] == a[1..] + b;
      FilterAppend(a[1..], b, keep);
    }
  }

  function Not<T(!new)>(p: T -> bool): T -> bool
  {
    x => !p(x)
  }

  /** A list divided: what stays, in order, and what goes. */
  datatype Split = Split(kept: seq<Entry>, dropped: seq<Entry>)

  type Sieve = (Id, seq<Entry>) -> Split

  /** Every entry either stays or goes. */
  ghost predicate Lawful(f: Sieve)
  {
    forall i, es :: multiset(f(i, es).kept) + multiset(f(i, es).dropped) == multiset(es)
  }

  function Gone(ms: Messages, f: Sieve): (r: set<(User, Id)>)
  {
    set i <- ms, e <- f(i, ms[i]).dropped :: (e.user, i)
  }

  function Listed(u: User, gone: set<(User, Id)>): Id -> bool
  {
    i => (u, i) !in gone
  }

  function Retained(u: User, ids: seq<Id>, gone: set<(User, Id)>): (r: seq<Id>)
  {
    Filter(ids, Listed(u, gone))
  }

  /** The user index without the given pairs: all copies of an id go together. */
  function Unindex(us: Users, gone: set<(User, Id)>): (r: Users)
  {
    map u <- us | Retained(u, us[u], gone) != [] :: Retained(u, us[u], gone)
  }

  function SiftedMessages(ms: Messages, f: Sieve): (r: Messages)
  {
    map i <- ms | f(i, ms[i]).kept != [] :: f(i, ms[i]).kept
  }

  /** Every list sifted, emptied ones dropped, and the index relieved of what went. */
  function Sifted(s: Store, f: Sieve): (r: Store)
  {
    Store(SiftedMessages(s.messages, f), Unindex(s.users, Gone(s.messages, f)))
  }

  // ---- cancellation -----------------------------------------------------------------------

  /** A given text criterion must be met; an empty one is not given. */
  predicate TextMatches(c: Message, m: Message, k: Name)
  {
    StringOrEmpty(c, k) != [] ==> StringOrEmpty(c, k) == StringOrEmpty(m, k)
  }

  /** A number's low octet. */
  function Octet(m: Message, k: Name): (n: byte)
  {
    NumberOr0(m, k) % 256
  }

  predicate OctetMatches(c: Message, m: Message, k: Name)
  {
    Octet(c, k) != 0 ==> Octet(c, k) == Octet(m, k)
  }

  /** The seven criteria of a cancel_sm about the message itself. */
  predicate FieldsMatch(c: Message, m: Message)
  {
    && TextMatches(c, m, ServiceType)
    && TextMatches(c, m, SourceAddr)
    && TextMatches(c, m, DestinationAddr)
    && OctetMatches(c, m, SourceAddrTon)
    && OctetMatches(c, m, SourceAddrNpi)
    && OctetMatches(c, m, DestAddrTon)
    && OctetMatches(c, m, DestAddrNpi)
  }

  predicate IdMatches(c: Message, i: Id)
  {
    StringOrEmpty(c, MessageId) != [] ==> StringOrEmpty(c, MessageId) == i
  }

  predicate CancelMatches(c: Message, i: Id, e: Entry)
  {
    IdMatches(c, i) && FieldsMatch(c, e.message)
  }

  function Matching(c: Message, i: Id): Entry -> bool
  {
    e => CancelMatches(c, i, e)
  }

  function CancelSplit(c: Message, i: Id, es: seq<Entry>): (r: Split)
  {
    Split(Filter(es, Not(Matching(c, i))), Filter(es, Matching(c, i)))
  }

  function CancelSieve(c: Message): Sieve
  {
    (i, es) => CancelSplit(c, i, es)
  }

  function Cancel(s: Store, c: Message): (r: Store)
  {
    Sifted(s, CancelSieve(c))
  }

  // ---- expiry -----------------------------------------------------------------------------

  function ExpiredAt(now: Time): Entry -> bool
  {
    e => Expired(e, now)
  }

  function CleanSplit(now: Time, es: seq<Entry>): (r: Split)
  {
    Split(Filter(es, Not(ExpiredAt(now))), Filter(es, ExpiredAt(now)))
  }

  function CleanSieve(now: Time): Sieve
  {
    (i, es) => CleanSplit(now, es)
  }

  function Clean(s: Store, now: Time): (r: Store)
  {
    Sifted(s, CleanSieve(now))
  }

  // ---- delivery ---------------------------------------------------------------------------

  /** Due and not expired. */
  predicate Ready(e: Entry, now: Time)
  {
    !NotDue(e, now) && !Expired(e, now)
  }

  function StaleAt(now: Time): Entry -> bool
  {
    e => !NotDue(e, now) && Expired(e, now)
  }

  /** The highest position of an entry that is ready. */
  function Chosen(es: seq<Entry>, now: Time): (k: Option<nat>)
    ensures k.Some?
            ==> k.value < |es| && Ready(es[k.value], now) && forall j :: k.value < j < |es| ==> !Ready(es[j], now)
    ensures k.None? ==> forall e <- es :: !Ready(e, now)
  {
    if es == [] then None
    else if Ready(es[|es| - 1], now) then Some(|es| - 1)
    else Chosen(es[..|es| - 1], now)
  }

  /** Entries above the chosen one are discarded when they are due and expired; the rest is not looked at. */
  function DeliverSplit(now: Time, es: seq<Entry>): (r: Split)
  {
    var n := match Chosen(es, now) case Some(k) => k + 1 case None => 0;
    Split(es[..n] + Filter(es[n..], Not(StaleAt(now))), Filter(es[n..], StaleAt(now)))
  }

  function DeliverSieve(now: Time): Sieve
  {
    (i, es) => DeliverSplit(now, es)
  }

  function Deliver(s: Store, now: Time): (r: Store)
  {
    Sifted(s, DeliverSieve(now))
  }

  datatype Delivery = Delivery(id: Id, index: nat, message: Message)

  /** What a pass hands to the deliverer: one message for each id that has one ready. */
  function Deliveries(ms: Messages, now: Time): (r: set<Delivery>)
  {
    set i <- ms | Chosen(ms[i], now).Some? ::
      Delivery(i, Chosen(ms[i], now).value, ms[i][Chosen(ms[i], now).value].message)
  }

  /** After a failed delivery; the index of users is not touched. */
  function RemoveAt(s: Store, i: Id, k: nat): (r: Store)
    requires i in s.messages ==> k < |s.messages[i]|
  {
    if i !in s.messages then s
    else
      var es := s.messages[i][..k] + s.messages[i][k + 1..];
      s.(messages := if es == [] then s.messages - {i} else s.messages[i := es])
  }

  // ---- replacement ------------------------------------------------------------------------

  predicate ReplaceMatches(c: Message, e: Entry)
  {
    && OctetMatches(c, e.message, SourceAddrTon)
    && OctetMatches(c, e.message, SourceAddrNpi)
    && TextMatches(c, e.message, SourceAddr)
  }

  function GivenTime(c: Message, k: Name, t: Times): (r: Option<Time>)
  {
    if StringOrEmpty(c, k) == [] then None else t.parse(StringOrEmpty(c, k))
  }

  function ReplaceRefusal(s: Store, c: Message, t: Times): (r: Option<Refusal>)
  {
    var i := StringOrEmpty(c, MessageId);
    if i == [] then Some(MissingMessageId)
    else if Octet(c, SmDefaultMsgId) == 0 && StringOrEmpty(c, ShortMessage) == []
            && StringOrEmpty(c, MessagePayload) == [] then Some(NothingToReplace)
    else if i !in s.messages then Some(NotFound)
    else if StringOrEmpty(c, ScheduleDeliveryTime) != [] && GivenTime(c, ScheduleDeliveryTime, t).None?
    then Some(InvalidSchedule)
    else if StringOrEmpty(c, ValidityPeriod) != [] && GivenTime(c, ValidityPeriod, t).None?
    then Some(InvalidValidity)
    else None
  }

  /** The text a replace_sm brings: the short message or, failing that, the payload. */
  function NewText(c: Message): (s: bytes)
  {
    if StringOrEmpty(c, ShortMessage) != [] then StringOrEmpty(c, ShortMessage) else StringOrEmpty(c, MessagePayload)
  }

  function Put(m: Message, k: Name, v: Option<Value>): (r: Message)
  {
    if v.None? then m else m[k := v.value]
  }

  function TextValue(s: bytes): (v: Option<Value>)
  {
    if s == [] then None else Some(String(s))
  }

  function NumberValue(n: nat): (v: Option<Value>)
  {
    if n == 0 then None else Some(Number(n))
  }

  /** A stored message with the fields a replace_sm sets. */
  function ReplacedMessage(c: Message, m: Message): (r: Message)
  {
    var m1 := Put(m, SmDefaultMsgId, NumberValue(Octet(c, SmDefaultMsgId)));
    var m2 := Put(m1, ShortMessage, TextValue(NewText(c)));
    var m3 := Put(m2, ScheduleDeliveryTime, TextValue(StringOrEmpty(c, ScheduleDeliveryTime)));
    var m4 := Put(m3, ValidityPeriod, TextValue(StringOrEmpty(c, ValidityPeriod)));
    m4[RegisteredDelivery := Number(Octet(c, RegisteredDelivery))]
  }

  function Updated(c: Message, t: Times, e: Entry): (r: Entry)
  {
    if !ReplaceMatches(c, e) then e
    else
      var schedule, validity := GivenTime(c, ScheduleDeliveryTime, t), GivenTime(c, ValidityPeriod, t);
      e.(message := ReplacedMessage(c, e.message),
         schedule := if schedule.Some? then schedule else e.schedule,
         validity := if validity.Some? then validity else e.validity)
  }

  function UpdatedAll(c: Message, t: Times, es: seq<Entry>): (r: seq<Entry>)
    ensures |r| == |es|
  {
    seq(|es|, k requires 0 <= k < |es| => Updated(c, t, es[k]))
  }

  function Replace(s: Store, c: Message, t: Times): (r: Store)
  {
    if ReplaceRefusal(s, c, t).Some? then s
    else
      var i := StringOrEmpty(c, MessageId);
      s.(messages := s.messages[i := UpdatedAll(c, t, s.messages[i])])
  }

  // ---- runs -------------------------------------------------------------------------------

  datatype Event =
    | Saving(id: Id, message: Message, times: Times)
    | Cancelling(criteria: Message)
    | Cleaning(now: Time)
    | Delivering(now: Time)
    | RemovingFailed(id: Id, index: nat)
    | Replacing(command: Message, times: Times)

  predicate Possible(s: Store, e: Event)
  {
    e.RemovingFailed? && e.id in s.messages ==> e.index < |s.messages[e.id]|
  }

  function Step(s: Store, e: Event, fallback: nat): (r: Store)
    requires Possible(s, e)
  {
    match e
    case Saving(i, m, t) => Save(s, i, m, fallback, t)
    case Cancelling(c) => Cancel(s, c)
    case Cleaning(now) => Clean(s, now)
    case Delivering(now) => Deliver(s, now)
    case RemovingFailed(i, k) => RemoveAt(s, i, k)
    case Replacing(c, t) => Replace(s, c, t)
  }
}
