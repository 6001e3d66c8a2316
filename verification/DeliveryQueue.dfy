/**
 The queue of messages awaiting delivery: insertion by binary search, removal from the front. The
 comparison is not an order on mixed contents, and exactly then insertion may break the queue.
 */
module DeliveryQueue {
  import opened Bytes
  import opened Values

  type Time = int

  datatype DeliveryMessageInfo =
    DeliveryMessageInfo(id: bytes, schedule: Option<Time>, validity: Option<Time>, message: Option<Message>)

  datatype Ordering = Less | Equal | Greater

  function CompareTimes(a: Time, b: Time): (o: Ordering)
  {
    if a < b then Less else if a > b then Greater else Equal
  }

  /** An unscheduled message compared with a scheduled one is Equal; the other way round it is Greater. */
  function Compare(a: DeliveryMessageInfo, b: DeliveryMessageInfo): (o: Ordering)
  {
    if a.schedule.None? then
      if b.schedule.Some? then Equal
      else
        match (a.validity, b.validity)
        case (Some(x), Some(y)) => CompareTimes(x, y)
        case (Some(_), None) => Less
        case (None, Some(_)) => Greater
        case (None, None) => Equal
    else if b.schedule.None? then Greater
    else CompareTimes(a.schedule.value, b.schedule.value)
  }

  predicate IsTimeForDelivery(m: DeliveryMessageInfo, now: Time)
  {
    m.schedule.Some? ==> m.schedule.value <= now
  }

  // ---- the intended order -----------------------------------------------------------------

  /** Unscheduled messages by validity, without one last; then scheduled messages by time. */
  predicate Before(a: DeliveryMessageInfo, b: DeliveryMessageInfo)
  {
    match (a.schedule, b.schedule)
    case (None, None) => b.validity.Some? ==> a.validity.Some? && a.validity.value <= b.validity.value
    case (None, Some(_)) => true
    case (Some(_), None) => false
    case (Some(x), Some(y)) => x <= y
  }

  ghost predicate Ordered(q: seq<DeliveryMessageInfo>)
  {
    forall j, k :: 0 <= j < k < |q| ==> Before(q[j], q[k])
  }

  /** The comparison agrees with the order except for a scheduled message held against an unscheduled one. */
  lemma CompareIsOrder(a: DeliveryMessageInfo, b: DeliveryMessageInfo)
    ensures Before(a, b) || Before(b, a)
    ensures (Compare(a, b) != Greater) <==> Before(a, b)
    ensures (Compare(a, b) != Less ==> Before(b, a)) <==> !(a.schedule.None? && b.schedule.Some?)
  {}

  lemma BeforeIsTransitive(a: DeliveryMessageInfo, b: DeliveryMessageInfo, c: DeliveryMessageInfo)
    requires Before(a, b) && Before(b, c)
    ensures Before(a, c)
  {}

  // ---- binary search ----------------------------------------------------------------------

  /**
   The positions a binary search of `q[lo..hi]` may end with, whichever element of the range it probes;
   on an equal element it may stop or go on in either half.
   */
  ghost predicate MayReturn(q: seq<DeliveryMessageInfo>, x: DeliveryMessageInfo, lo: nat, hi: nat, pos: nat)
    requires lo <= hi <= |q|
    decreases hi - lo
  {
    if lo == hi then pos == lo
    else exists mid :: lo <= mid < hi && Probe(q, x, lo, mid, hi, pos)
  }

  ghost predicate Probe(q: seq<DeliveryMessageInfo>, x: DeliveryMessageInfo, lo: nat, mid: nat, hi: nat, pos: nat)
    requires lo <= mid < hi <= |q|
    decreases hi - lo, 0
  {
    match Compare(q[mid], x)
    case Less => MayReturn(q, x, mid + 1, hi, pos)
    case Greater => MayReturn(q, x, lo, mid, pos)
    case Equal => pos == mid || MayReturn(q, x, mid + 1, hi, pos) || MayReturn(q, x, lo, mid, pos)
  }

  /** Everything left of the position is before the new message, everything right of it after. */
  ghost predicate FitsAt(q: seq<DeliveryMessageInfo>, x: DeliveryMessageInfo, pos: nat)
  {
    && pos <= |q|
    && (forall k :: 0 <= k < pos ==> Before(q[k], x))
    && (forall k :: pos <= k < |q| ==> Before(x, q[k]))
  }

  function Insert(q: seq<DeliveryMessageInfo>, x: DeliveryMessageInfo, pos: nat): (r: seq<DeliveryMessageInfo>)
    requires pos <= |q|
    ensures multiset(r) == multiset(q) + multiset{x}
  {
    assert q == q[..pos] + q[pos..];
    q[..pos] + [x] + q[pos..]
  }

  lemma InsertKeepsOrderIff(q: seq<DeliveryMessageInfo>, x: DeliveryMessageInfo, pos: nat)
    requires Ordered(q) && pos <= |q|
    ensures Ordered(Insert(q, x, pos)) <==> FitsAt(q, x, pos)
  {
    hide Before;
    var r := Insert(q, x, pos);
    assert forall k :: 0 <= k < |q| ==> q[k] == r[if k < pos then k else k + 1];
    assert r[pos] == x;
  }

  /** Comparing with `x` agrees with the order on all of `q`. */
  predicate Comparable(q: seq<DeliveryMessageInfo>, x: DeliveryMessageInfo)
  {
    x.schedule.Some? ==> forall m <- q :: m.schedule.Some?
  }

  lemma {:induction false} SearchFits(q: seq<DeliveryMessageInfo>, x: DeliveryMessageInfo, lo: nat, hi: nat, pos: nat)
    requires Ordered(q) && Comparable(q, x)
    requires lo <= hi <= |q| && MayReturn(q, x, lo, hi, pos)
    requires forall k :: 0 <= k < lo ==> Before(q[k], x)
    requires forall k :: hi <= k < |q| ==> Before(x, q[k])
    ensures FitsAt(q, x, pos)
    decreases hi - lo
  {
    hide Before, Compare;
    if lo < hi {
      var mid :| lo <= mid < hi && Probe(q, x, lo, mid, hi, pos);
      assert q[mid] in q;
      CompareIsOrder(q[mid], x);
      if Before(q[mid], x) {
        forall k | 0 <= k < mid ensures Before(q[k], x) { BeforeIsTransitive(q[k], q[mid], x); }
      }
      if Before(x, q[mid]) {
        forall k | mid < k < |q| ensures Before(x, q[k]) { BeforeIsTransitive(x, q[mid], q[k]); }
      }
      if Compare(q[mid], x) == Equal && pos == mid {
      } else if Compare(q[mid], x) != Greater && MayReturn(q, x, mid + 1, hi, pos) {
        SearchFits(q, x, mid + 1, hi, pos);
      } else {
        SearchFits(q, x, lo, mid, pos);
      }
    }
  }

  /**
   Insertion at every position the search may return keeps the order exactly when the new message is
   unscheduled or no unscheduled message is queued.
   */
  lemma InsertionIsSafeIff(q: seq<DeliveryMessageInfo>, x: DeliveryMessageInfo)
    requires Ordered(q)
    ensures (forall pos: nat :: pos <= |q| && MayReturn(q, x, 0, |q|, pos) ==> Ordered(Insert(q, x, pos)))
            <==> Comparable(q, x)
  {
    hide Before, Compare;
    if Comparable(q, x) {
      forall pos: nat | pos <= |q| && MayReturn(q, x, 0, |q|, pos) ensures Ordered(Insert(q, x, pos)) {
        SearchFits(q, x, 0, |q|, pos);
        InsertKeepsOrderIff(q, x, pos);
      }
    } else {
      var k :| 0 <= k < |q| && q[k].schedule.None?;
      UnscheduledIsNotAfter(q, x, k);
      InsertKeepsOrderIff(q, x, k);
    }
  }

  lemma UnscheduledIsNotAfter(q: seq<DeliveryMessageInfo>, x: DeliveryMessageInfo, k: nat)
    requires k < |q| && q[k].schedule.None? && x.schedule.Some?
    ensures MayReturn(q, x, 0, |q|, k) && !FitsAt(q, x, k)
  {
    assert Probe(q, x, 0, k, |q|, k);
  }

  // ---- the manager ------------------------------------------------------------------------

  class DeliveryMessageInfoManager {
    var deliveryMessages: seq<DeliveryMessageInfo>

    constructor ()
      ensures deliveryMessages == []
    {
      deliveryMessages := [];
    }

    method BinarySearch(x: DeliveryMessageInfo) returns (pos: nat)
      ensures pos <= |deliveryMessages| && MayReturn(deliveryMessages, x, 0, |deliveryMessages|, pos)
    {
      var lo, hi := 0, |deliveryMessages|;
      while lo < hi
        invariant lo <= hi <= |deliveryMessages|
        invariant forall p :: MayReturn(deliveryMessages, x, lo, hi, p)
                              ==> MayReturn(deliveryMessages, x, 0, |deliveryMessages|, p)
      {
        var mid :| lo <= mid < hi;
        assert forall p :: Probe(deliveryMessages, x, lo, mid, hi, p) ==> MayReturn(deliveryMessages, x, lo, hi, p);
        var c := Compare(deliveryMessages[mid], x);
        if c == Equal {
          assert Probe(deliveryMessages, x, lo, mid, hi, mid);
          return mid;
        }
        if c == Less { lo := mid + 1; } else { hi := mid; }
      }
      pos := lo;
    }

    method AddDeliveryMessage(x: DeliveryMessageInfo)
      modifies this
      ensures exists pos: nat :: pos <= |old(deliveryMessages)|
                                 && MayReturn(old(deliveryMessages), x, 0, |old(deliveryMessages)|, pos)
                                 && deliveryMessages == Insert(old(deliveryMessages), x, pos)
      ensures multiset(deliveryMessages) == multiset(old(deliveryMessages)) + multiset{x}
      ensures Ordered(old(deliveryMessages)) && Comparable(old(deliveryMessages), x) ==> Ordered(deliveryMessages)
    {
      var pos := BinarySearch(x);
      if Ordered(deliveryMessages) { InsertionIsSafeIff(deliveryMessages, x); }
      deliveryMessages := Insert(deliveryMessages, x, pos);
    }

    /** The front of the queue, when it is due. */
    method GetDeliveryMessage(now: Time) returns (m: Option<DeliveryMessageInfo>)
      modifies this
      ensures m.Some? ==> old(deliveryMessages) == [m.value] + deliveryMessages && IsTimeForDelivery(m.value, now)
      ensures m.None? ==> deliveryMessages == old(deliveryMessages)
      ensures Ordered(old(deliveryMessages)) ==> Ordered(deliveryMessages)
      ensures Ordered(old(deliveryMessages)) ==>
                (m.None? <==> forall x <- old(deliveryMessages) :: !IsTimeForDelivery(x, now))
      ensures Ordered(old(deliveryMessages)) && m.Some? ==> forall x <- deliveryMessages :: Before(m.value, x)
    {
      m := None;
      if deliveryMessages != [] {
        var first := deliveryMessages[0];
        if Ordered(deliveryMessages) { FrontIsFirst(deliveryMessages, now); }
        if IsTimeForDelivery(first, now) {
          deliveryMessages := deliveryMessages[1..];
          m := Some(first);
        }
      }
    }
  }

  lemma FrontIsFirst(q: seq<DeliveryMessageInfo>, now: Time)
    requires Ordered(q) && q != []
    ensures IsTimeForDelivery(q[0], now) <==> exists x <- q :: IsTimeForDelivery(x, now)
    ensures forall x <- q[1..] :: Before(q[0], x)
  {
    assert forall k :: 0 < k < |q| ==> Before(q[0], q[k]);
    assert forall x <- q :: IsTimeForDelivery(x, now) ==> IsTimeForDelivery(q[0], now);
  }

  // ---- runs -------------------------------------------------------------------------------

  datatype Step = Add(x: DeliveryMessageInfo, pos: nat) | Take(now: Time)

  /** The queue and everything it has handed out. */
  datatype History = History(queue: seq<DeliveryMessageInfo>, taken: seq<DeliveryMessageInfo>)

  ghost predicate Possible(h: History, s: Step)
  {
    s.Add? ==> s.pos <= |h.queue| && MayReturn(h.queue, s.x, 0, |h.queue|, s.pos)
  }

  function After(h: History, s: Step): (r: History)
    requires s.Add? ==> s.pos <= |h.queue|
  {
    match s
    case Add(x, pos) => History(Insert(h.queue, x, pos), h.taken)
    case Take(now) =>
      if h.queue != [] && IsTimeForDelivery(h.queue[0], now) then History(h.queue[1..], h.taken + [h.queue[0]])
      else h
  }

  ghost predicate PossibleRun(h: History, ss: seq<Step>)
    decreases |ss|
  {
    ss != [] ==> Possible(h, ss[0]) && PossibleRun(After(h, ss[0]), ss[1..])
  }

  ghost function Run(h: History, ss: seq<Step>): (r: History)
    requires PossibleRun(h, ss)
    decreases |ss|
  {
    if ss == [] then h else Run(After(h, ss[0]), ss[1..])
  }

  function AddedBy(s: Step): (r: multiset<DeliveryMessageInfo>)
  {
    if s.Add? then multiset{s.x} else multiset{}
  }

  function Added(ss: seq<Step>): (r: multiset<DeliveryMessageInfo>)
  {
    if ss == [] then multiset{} else AddedBy(ss[0]) + Added(ss[1..])
  }

  lemma StepConserves(h: History, s: Step)
    requires s.Add? ==> s.pos <= |h.queue|
    ensures var r := After(h, s);
            multiset(r.queue) + multiset(r.taken) == multiset(h.queue) + multiset(h.taken) + AddedBy(s)
  {
    hide IsTimeForDelivery, Insert;
    if s.Take? && h.queue != [] { assert h.queue == [h.queue[0]] + h.queue[1..]; }
  }

  /** Nothing is lost or invented: what was added is queued or was handed out. */
  lemma {:induction false} RunConserves(h: History, ss: seq<Step>)
    requires PossibleRun(h, ss)
    ensures var r := Run(h, ss);
            multiset(r.queue) + multiset(r.taken) == multiset(h.queue) + multiset(h.taken) + Added(ss)
    decreases |ss|
  {
    hide MayReturn, After, AddedBy;
    if ss != [] {
      StepConserves(h, ss[0]);
      RunConserves(After(h, ss[0]), ss[1..]);
    }
  }

  /** Each scheduled message is added while no unscheduled one is queued. */
  ghost predicate SafeRun(h: History, ss: seq<Step>)
    requires PossibleRun(h, ss)
    decreases |ss|
  {
    ss != [] ==> (ss[0].Add? ==> Comparable(h.queue, ss[0].x)) && SafeRun(After(h, ss[0]), ss[1..])
  }

  lemma {:induction false} RunKeepsOrder(h: History, ss: seq<Step>)
    requires PossibleRun(h, ss) && SafeRun(h, ss) && Ordered(h.queue)
    ensures Ordered(Run(h, ss).queue)
    decreases |ss|
  {
    hide MayReturn, IsTimeForDelivery, Before, Comparable;
    if ss != [] {
      if ss[0].Add? { InsertionIsSafeIff(h.queue, ss[0].x); }
      RunKeepsOrder(After(h, ss[0]), ss[1..]);
    }
  }
}
