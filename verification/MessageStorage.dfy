/** The pending-message store as the gateway runs it: two maps updated in place. */
module MessageStorage {
  import opened Bytes
  import opened Values
  import opened Storage
  import opened StorageLaws

  /** Part of the way through a pass: the lists of the ids not yet visited are as they were. */
  ghost predicate Sifting(before: Messages, now: Messages, todo: set<Id>, f: Sieve, empty: set<Id>)
  {
    && now.Keys == before.Keys
    && todo <= before.Keys
    && (forall i <- before :: now[i] == if i in todo then before[i] else f(i, before[i]).kept)
    && (forall i :: i in empty <==> i in before && i !in todo && f(i, before[i]).kept == [])
  }

  function GoneSoFar(before: Messages, todo: set<Id>, f: Sieve): (r: set<(User, Id)>)
  {
    Gone(map i <- before | i !in todo :: before[i], f)
  }

  class InMemoryMessageStorage {
    var messages: Messages
    var userMessageIds: Users
    const defaultValidityPeriod: nat

    ghost predicate Valid()
      reads this
    {
      NoEmptyLists(State())
    }

    ghost function State(): Store
      reads this
    {
      Store(messages, userMessageIds)
    }

    constructor (defaultValidityPeriod: nat)
      ensures Valid() && State() == EMPTY && this.defaultValidityPeriod == defaultValidityPeriod
    {
      this.defaultValidityPeriod := defaultValidityPeriod;
      messages := map[];
      userMessageIds := map[];
    }

    method Save(i: Id, m: Message, t: Times) returns (refusal: Option<Refusal>)
      requires Valid()
      modifies this
      ensures Valid() && State() == Storage.Save(old(State()), i, m, defaultValidityPeriod, t)
      ensures refusal == SaveRefusal(m, defaultValidityPeriod, t)
    {
      hide ScheduleTime, ValidityTime, StringOrEmpty;
      SaveKeeps(State(), i, m, defaultValidityPeriod, t);
      var destination := StringOrEmpty(m, DestinationAddr);
      if destination == [] { return Some(MissingDestination); }
      var schedule, validity := ScheduleTime(m, t), ValidityTime(m, defaultValidityPeriod, t);
      if schedule.None? && validity.None? { return Some(NoTimes); }
      if schedule.Some? && validity.Some? && schedule.value > validity.value { return Some(ScheduleAfterValidity); }
      if validity.Some? && validity.value < t.now { return Some(AlreadyExpired); }
      messages := messages[i := ListOf(messages, i) + [Entry(destination, m, schedule, validity)]];
      userMessageIds := userMessageIds[destination := ListOf(userMessageIds, destination) + [i]];
      refusal := None;
    }

    /** Every copy of the id leaves the list of the user, and an emptied list leaves the index. */
    method RemoveUserMessageId(u: User, i: Id)
      requires forall v <- userMessageIds :: userMessageIds[v] != []
      modifies this`userMessageIds
      ensures userMessageIds == Unindex(old(userMessageIds), {(u, i)})
    {
      hide Filter, Unindex;
      UnindexPair(userMessageIds, u, i);
      if u in userMessageIds {
        var ids := Retained(u, userMessageIds[u], {(u, i)});
        userMessageIds := userMessageIds[u := ids];
        if ids == [] { userMessageIds := userMessageIds - {u}; }
      }
    }

    /** One tick of the delivery timer: a delivered message stays, one that fails is removed. */
    method DeliveryTick(now: Time, fails: Delivery -> bool)
      requires Valid()
      modifies this
      ensures Valid()
      ensures userMessageIds == Deliver(old(State()), now).users
      ensures forall i :: ListOf(messages, i) == Without(ListOf(Deliver(old(State()), now).messages, i),
                                                           FailedAt(old(messages), now, fails, i))
    {
      hide Chosen, Sifted, DeliverSplit, ListOf;
      ghost var before, after := State(), Deliver(State(), now);
      var ds := GetDeliveryMessages(now);
      var k := 0;
      while k < |ds|
        invariant k <= |ds| && userMessageIds == after.users && NoEmptyLists(State())
        invariant forall i :: (forall j :: 0 <= j < k ==> ds[j].id != i)
                    ==> ListOf(messages, i) == ListOf(after.messages, i)
        invariant forall j :: 0 <= j < k ==>
                                ListOf(messages, ds[j].id) == Without(ListOf(after.messages, ds[j].id),
                                                                        FailedAt(before.messages, now, fails, ds[j].id))
      {
        var d := ds[k];
        assert d in Elements(ds);
        PassChooses(before, now, d);
        FailedDelivery(before.messages, now, fails, d);
        SameList(messages, after.messages, d.id);
        if fails(d) {
          RemoveAtLists(State(), d.id, d.index);
          var panics := RemoveMessageById(d.id, d.index);
        }
        k := k + 1;
      }
      assert forall d <- Deliveries(before.messages, now) :: d in Elements(ds) && d in ds;
      forall i ensures FailedAt(before.messages, now, fails, i).Some? ==> exists j :: 0 <= j < k && ds[j].id == i {
        FailedIsDelivery(before.messages, now, fails, i);
      }
    }

    /** Every matching entry of the id is updated; the call succeeds even when none matches. */
    method ReplaceMessage(c: Message, t: Times) returns (refusal: Option<Refusal>)
      requires Valid()
      modifies this`messages
      ensures Valid() && State() == Replace(old(State()), c, t)
      ensures refusal == ReplaceRefusal(old(State()), c, t)
    {
      hide Octet, StringOrEmpty, Updated;
      ReplaceKeeps(State(), c, t);
      var i := StringOrEmpty(c, MessageId);
      if i == [] { return Some(MissingMessageId); }
      if Octet(c, SmDefaultMsgId) == 0 && StringOrEmpty(c, ShortMessage) == []
         && StringOrEmpty(c, MessagePayload) == []
      {
        return Some(NothingToReplace);
      }
      if i !in messages { return Some(NotFound); }
      if StringOrEmpty(c, ScheduleDeliveryTime) != [] && GivenTime(c, ScheduleDeliveryTime, t).None? {
        return Some(InvalidSchedule);
      }
      if StringOrEmpty(c, ValidityPeriod) != [] && GivenTime(c, ValidityPeriod, t).None? {
        return Some(InvalidValidity);
      }
      ghost var before := messages[i];
      var list := messages[i];
      var n := |list| - 1;
      while n >= 0
        invariant messages == old(messages)
        invariant -1 <= n < |list| == |before|
        invariant forall k :: 0 <= k <= n ==> list[k] == before[k]
        invariant forall k :: n < k < |list| ==> list[k] == Updated(c, t, before[k])
      {
        var e := UpdateEntry(c, t, list[n]);
        list := list[n := e];
        n := n - 1;
      }
      assert list == UpdatedAll(c, t, before);
      messages := messages[i := list];
      refusal := None;
    }

    /** Panics on a position the list no longer has. */
    method RemoveMessageById(i: Id, index: nat) returns (panics: bool)
      modifies this`messages
      ensures panics <==> i in old(messages) && index >= |old(messages)[i]|
      ensures panics ==> State() == old(State())
      ensures !panics ==> State() == RemoveAt(old(State()), i, index)
    {
      panics := false;
      if i in messages {
        var es := messages[i];
        if index >= |es| { return true; }
        messages := messages[i := es[..index] + es[index + 1..]];
        if messages[i] == [] { messages := messages - {i}; }
      }
    }

    method RemoveUserMessageIds(gone: seq<(User, Id)>)
      requires forall v <- userMessageIds :: userMessageIds[v] != []
      modifies this`userMessageIds
      ensures userMessageIds == Unindex(old(userMessageIds), Elements(gone))
    {
      hide Unindex;
      ghost var users := userMessageIds;
      UnindexNothing(users);
      assert Elements(gone[..0]) == {};
      var k := 0;
      while k < |gone|
        invariant k <= |gone|
        invariant userMessageIds == Unindex(users, Elements(gone[..k]))
      {
        UnindexPairs(users, Elements(gone[..k]));
        RemoveUserMessageId(gone[k].0, gone[k].1);
        UnindexAgain(users, Elements(gone[..k]), {gone[k]});
        assert Elements(gone[..k]) + {gone[k]} == Elements(gone[..k + 1]);
        k := k + 1;
      }
      assert gone[..k] == gone;
    }

    /** Cancels every message that meets the criteria, and reports whether there was one. */
    method CancelMessage(c: Message) returns (found: bool)
      requires Valid()
      modifies this
      ensures Valid() && State() == Cancel(old(State()), c)
      ensures found <==> State() != old(State())
      ensures found <==> exists i <- old(messages), e <- old(messages)[i] :: CancelMatches(c, i, e)
    {
      hide CancelMatches, CancelSplit, Unindex, NoEmptyLists, Gone, Elements, Named, GoneSoFar, Sifting;
      ghost var f, before := CancelSieve(c), messages;
      var keys, empty, gone := messages.Keys, {}, [];
      NothingGone(before, f);
      while keys != {}
        invariant Sifting(before, messages, keys, f, empty)
        invariant userMessageIds == old(userMessageIds)
        invariant Elements(gone) == GoneSoFar(before, keys, f)
        decreases keys
      {
        var i :| i in keys;
        SiftingStep(before, messages, keys, f, empty, i);
        var kept, dropped := CancelScan(c, i, messages[i]);
        GoneNext(before, keys, i, f);
        ElementsAppend(gone, dropped);
        messages := messages[i := kept];
        empty := empty + if kept == [] then {i} else {};
        gone := gone + dropped;
        keys := keys - {i};
      }
      SiftingDone(before, messages, f, empty);
      messages := messages - empty;
      AllGone(before, f);
      ElementsAppend(gone, []);
      CancelIsLawful(c);
      SiftedKeeps(old(State()), f);
      CancelChangesIff(old(State()), c);
      NoEmptyUsers(old(State()));
      RemoveUserMessageIds(gone);
      found := |gone| > 0;
    }

    /** Removes the expired entries of one id's list, from its end. */
    method CleanScan(now: Time, i: Id, es: seq<Entry>) returns (list: seq<Entry>)
      requires forall v <- userMessageIds :: userMessageIds[v] != []
      modifies this`userMessageIds
      ensures list == CleanSplit(now, es).kept
      ensures userMessageIds == Unindex(old(userMessageIds), Named(i, CleanSplit(now, es).dropped))
    {
      hide Expired, Filter, Named, Unindex;
      ghost var p, users := ExpiredAt(now), userMessageIds;
      list := es;
      ScanStart(i, es, p);
      UnindexNothing(users);
      var n := |es| - 1;
      while n >= 0
        invariant -1 <= n < |list| && n < |es|
        invariant list == es[..n + 1] + Filter(es[n + 1..], Not(p))
        invariant userMessageIds == Unindex(users, Named(i, Filter(es[n + 1..], p)))
      {
        var e := list[n];
        ScanStep(i, es, n, p, []);
        if Expired(e, now) {
          list := list[..n] + list[n + 1..];
          UnindexPairs(users, Named(i, Filter(es[n + 1..], p)));
          RemoveUserMessageId(e.user, i);
          UnindexAgain(users, Named(i, Filter(es[n + 1..], p)), {(e.user, i)});
        }
        n := n - 1;
      }
      assert es[0..] == es;
    }

    method CleanExpiredMessages(now: Time)
      requires Valid()
      modifies this
      ensures Valid() && State() == Clean(old(State()), now)
    {
      hide CleanSplit, Unindex, NoEmptyLists, Gone, Elements, Named, GoneSoFar, Sifting;
      ghost var f, before, users := CleanSieve(now), messages, userMessageIds;
      var keys, empty := messages.Keys, {};
      NothingGone(before, f);
      NoEmptyUsers(State());
      UnindexNothing(users);
      while keys != {}
        invariant Sifting(before, messages, keys, f, empty)
        invariant userMessageIds == Unindex(users, GoneSoFar(before, keys, f))
        decreases keys
      {
        var i :| i in keys;
        SiftingStep(before, messages, keys, f, empty, i);
        GoneNext(before, keys, i, f);
        UnindexPairs(users, GoneSoFar(before, keys, f));
        var kept := CleanScan(now, i, messages[i]);
        UnindexAgain(users, GoneSoFar(before, keys, f), Named(i, f(i, before[i]).dropped));
        messages := messages[i := kept];
        empty := empty + if kept == [] then {i} else {};
        keys := keys - {i};
      }
      SiftingDone(before, messages, f, empty);
      messages := messages - empty;
      AllGone(before, f);
      CleanIsLawful(now);
      SiftedKeeps(old(State()), f);
    }

    /** Looks for the message of one id to deliver, from the end, discarding what is due and expired. */
    method DeliverScan(now: Time, i: Id, es: seq<Entry>) returns (list: seq<Entry>, chosen: Option<nat>)
      requires forall v <- userMessageIds :: userMessageIds[v] != []
      modifies this`userMessageIds
      ensures chosen == Chosen(es, now)
      ensures list == DeliverSplit(now, es).kept
      ensures userMessageIds == Unindex(old(userMessageIds), Named(i, DeliverSplit(now, es).dropped))
    {
      hide Expired, NotDue, Filter, Named, Unindex;
      ghost var p, users := StaleAt(now), userMessageIds;
      list := es;
      ScanStart(i, es, p);
      UnindexNothing(users);
      var n := |es| - 1;
      while n >= 0
        invariant -1 <= n < |list| && n < |es|
        invariant forall k :: n < k < |es| ==> !Ready(es[k], now)
        invariant list == es[..n + 1] + Filter(es[n + 1..], Not(p))
        invariant userMessageIds == Unindex(users, Named(i, Filter(es[n + 1..], p)))
      {
        var e := list[n];
        ScanStep(i, es, n, p, []);
        if NotDue(e, now) {
          n := n - 1;
        } else if Expired(e, now) {
          list := list[..n] + list[n + 1..];
          UnindexPairs(users, Named(i, Filter(es[n + 1..], p)));
          RemoveUserMessageId(e.user, i);
          UnindexAgain(users, Named(i, Filter(es[n + 1..], p)), {(e.user, i)});
          n := n - 1;
        } else {
          assert es[n] in es && Ready(es[n], now);
          return list, Some(n);
        }
      }
      assert es[0..] == es;
      chosen := None;
    }

    method GetDeliveryMessages(now: Time) returns (deliveries: seq<Delivery>)
      requires Valid()
      modifies this
      ensures Valid() && State() == Deliver(old(State()), now)
      ensures Elements(deliveries) == Storage.Deliveries(old(messages), now)
      ensures forall j, k :: 0 <= j < k < |deliveries| ==> deliveries[j].id != deliveries[k].id
    {
      hide DeliverSplit, Chosen, Unindex, NoEmptyLists, Gone, Named, GoneSoFar, Sifting;
      ghost var f, before, users := DeliverSieve(now), messages, userMessageIds;
      var keys, empty := messages.Keys, {};
      deliveries := [];
      NothingGone(before, f);
      NoEmptyUsers(State());
      UnindexNothing(users);
      while keys != {}
        invariant Sifting(before, messages, keys, f, empty)
        invariant keys <= before.Keys
        invariant userMessageIds == Unindex(users, GoneSoFar(before, keys, f))
        invariant Elements(deliveries) == set d <- Deliveries(before, now) | d.id !in keys
        invariant forall j, k :: 0 <= j < k < |deliveries| ==> deliveries[j].id != deliveries[k].id
        decreases keys
      {
        var i :| i in keys;
        SiftingStep(before, messages, keys, f, empty, i);
        GoneNext(before, keys, i, f);
        UnindexPairs(users, GoneSoFar(before, keys, f));
        var list, chosen := DeliverScan(now, i, messages[i]);
        UnindexAgain(users, GoneSoFar(before, keys, f), Named(i, f(i, before[i]).dropped));
        if chosen.Some? {
          var d := Delivery(i, chosen.value, messages[i][chosen.value].message);
          assert forall x <- deliveries :: x in Elements(deliveries);
          DeliveriesStep(deliveries, d, keys);
          deliveries := deliveries + [d];
        }
        messages := messages[i := list];
        empty := empty + if list == [] then {i} else {};
        keys := keys - {i};
      }
      SiftingDone(before, messages, f, empty);
      messages := messages - empty;
      AllGone(before, f);
      DeliverIsLawful(now);
      SiftedKeeps(old(State()), f);
    }
  }

  /** The position of the failed delivery of an id, if there is one. */
  function FailedAt(ms: Messages, now: Time, fails: Delivery -> bool, i: Id): (k: Option<nat>)
  {
    if i !in ms || Chosen(ms[i], now).None? then None
    else
      var k := Chosen(ms[i], now).value;
      if fails(Delivery(i, k, ms[i][k].message)) then Some(k) else None
  }

  lemma FailedDelivery(ms: Messages, now: Time, fails: Delivery -> bool, d: Delivery)
    requires d in Deliveries(ms, now)
    ensures FailedAt(ms, now, fails, d.id) == if fails(d) then Some(d.index) else None
  {}

  lemma FailedIsDelivery(ms: Messages, now: Time, fails: Delivery -> bool, i: Id)
    ensures FailedAt(ms, now, fails, i).Some? ==> exists d <- Deliveries(ms, now) :: d.id == i
  {
    if FailedAt(ms, now, fails, i).Some? {
      var k := Chosen(ms[i], now).value;
      assert Delivery(i, k, ms[i][k].message) in Deliveries(ms, now);
    }
  }

  lemma SameList(a: Messages, b: Messages, i: Id)
    requires ListOf(a, i) == ListOf(b, i) && i in b && b[i] != []
    ensures i in a && a[i] == b[i] == ListOf(b, i)
  {}

  lemma RemoveAtLists(s: Store, i: Id, k: nat)
    requires NoEmptyLists(s) && i in s.messages && k < |s.messages[i]|
    ensures ListOf(RemoveAt(s, i, k).messages, i) == s.messages[i][..k] + s.messages[i][k + 1..]
    ensures forall j :: j != i ==> ListOf(RemoveAt(s, i, k).messages, j) == ListOf(s.messages, j)
    ensures NoEmptyLists(RemoveAt(s, i, k))
  {}

  lemma DeliveriesStep(ds: seq<Delivery>, d: Delivery, todo: set<Id>)
    requires forall x <- ds :: x.id !in todo
    requires d.id in todo
    requires forall j, k :: 0 <= j < k < |ds| ==> ds[j].id != ds[k].id
    ensures Elements(ds + [d]) == Elements(ds) + {d}
    ensures var ds' := ds + [d]; forall j, k :: 0 <= j < k < |ds'| ==> ds'[j].id != ds'[k].id
  {}

  /** The replacement of the fields of one stored message, where it meets the criteria. */
  method UpdateEntry(c: Message, t: Times, e: Entry) returns (r: Entry)
    requires GivenTime(c, ScheduleDeliveryTime, t).Some? <==> StringOrEmpty(c, ScheduleDeliveryTime) != []
    requires GivenTime(c, ValidityPeriod, t).Some? <==> StringOrEmpty(c, ValidityPeriod) != []
    ensures r == Updated(c, t, e)
  {
    hide GivenTime, Octet, StringOrEmpty, ReplaceMatches;
    if !ReplaceMatches(c, e) { return e; }
    r := e;
    if Octet(c, SmDefaultMsgId) != 0 {
      r := r.(message := r.message[SmDefaultMsgId := Number(Octet(c, SmDefaultMsgId))]);
    }
    if StringOrEmpty(c, ShortMessage) != [] {
      r := r.(message := r.message[ShortMessage := String(StringOrEmpty(c, ShortMessage))]);
    } else if StringOrEmpty(c, MessagePayload) != [] {
      r := r.(message := r.message[ShortMessage := String(StringOrEmpty(c, MessagePayload))]);
    }
    if GivenTime(c, ScheduleDeliveryTime, t).Some? {
      r := r.(message := r.message[ScheduleDeliveryTime := String(StringOrEmpty(c, ScheduleDeliveryTime))],
              schedule := GivenTime(c, ScheduleDeliveryTime, t));
    }
    if GivenTime(c, ValidityPeriod, t).Some? {
      r := r.(message := r.message[ValidityPeriod := String(StringOrEmpty(c, ValidityPeriod))],
              validity := GivenTime(c, ValidityPeriod, t));
    }
    r := r.(message := r.message[RegisteredDelivery := Number(Octet(c, RegisteredDelivery))]);
  }

  /** The scan of one id's list for a cancellation, from its end. */
  method CancelScan(c: Message, i: Id, es: seq<Entry>) returns (list: seq<Entry>, gone: seq<(User, Id)>)
    ensures list == CancelSplit(c, i, es).kept
    ensures Elements(gone) == Named(i, CancelSplit(c, i, es).dropped)
  {
    hide StringOrEmpty, FieldsMatch, Filter, Named, Elements;
    ghost var p := Matching(c, i);
    list, gone := es, [];
    ScanStart(i, es, p);
    if StringOrEmpty(c, MessageId) != [] && StringOrEmpty(c, MessageId) != i {
      FilterAll(es, Not(p));
      FilterNone(es, p);
      return;
    }
    var n := |es| - 1;
    while n >= 0
      invariant -1 <= n < |list| && n < |es|
      invariant list == es[..n + 1] + Filter(es[n + 1..], Not(p))
      invariant Elements(gone) == Named(i, Filter(es[n + 1..], p))
    {
      var e := list[n];
      ScanStep(i, es, n, p, gone);
      if FieldsMatch(c, e.message) {
        gone := gone + [(e.user, i)];
        list := list[..n] + list[n + 1..];
      }
      n := n - 1;
    }
    assert es[0..] == es;
  }

  lemma ScanStart(i: Id, es: seq<Entry>, p: Entry -> bool)
    ensures es[|es|..] == [] && es[..|es|] == es
    ensures Filter([], p) == [] == Filter([], Not(p))
    ensures Named(i, []) == {} == Elements<(User, Id)>([])
  {}

  /** What one turn of a backward scan contributes. */
  lemma ScanStep(i: Id, es: seq<Entry>, n: nat, p: Entry -> bool, gone: seq<(User, Id)>)
    requires n < |es|
    ensures var e, kept := es[n], Filter(es[n + 1..], Not(p));
            if p(e) then
              && Filter(es[n..], Not(p)) == kept
              && Named(i, Filter(es[n..], p)) == Named(i, Filter(es[n + 1..], p)) + {(e.user, i)}
              && Elements(gone + [(e.user, i)]) == Elements(gone) + {(e.user, i)}
              && (es[..n + 1] + kept)[..n] + (es[..n + 1] + kept)[n + 1..] == es[..n] + kept
            else
              && es[..n + 1] + kept == es[..n] + Filter(es[n..], Not(p))
              && Filter(es[n..], p) == Filter(es[n + 1..], p)
  {
    hide Filter;
    FilterStep(es, n, p);
    FilterStep(es, n, Not(p));
  }

  function Elements<T>(s: seq<T>): (r: set<T>)
  {
    set x <- s
  }

  function Named(i: Id, es: seq<Entry>): (r: set<(User, Id)>)
  {
    set e <- es :: (e.user, i)
  }

  // ---- progress of a pass -----------------------------------------------------------------

  lemma NoEmptyUsers(s: Store)
    requires NoEmptyLists(s)
    ensures forall u <- s.users :: s.users[u] != []
  {}

  lemma NothingGone(before: Messages, f: Sieve)
    ensures GoneSoFar(before, before.Keys, f) == {} == Elements<(User, Id)>([])
    ensures Sifting(before, before, before.Keys, f, {})
  {}

  lemma SiftingStep(before: Messages, now: Messages, todo: set<Id>, f: Sieve, empty: set<Id>, i: Id)
    requires Sifting(before, now, todo, f, empty) && i in todo
    ensures i in before && i in now && now[i] == before[i]
    ensures var kept := f(i, before[i]).kept;
            Sifting(before, now[i := kept], todo - {i}, f, empty + if kept == [] then {i} else {})
  {}

  lemma SiftingDone(before: Messages, now: Messages, f: Sieve, empty: set<Id>)
    requires Sifting(before, now, {}, f, empty)
    ensures now - empty == SiftedMessages(before, f)
  {}

  lemma GoneNext(before: Messages, todo: set<Id>, i: Id, f: Sieve)
    requires i in todo && i in before
    ensures GoneSoFar(before, todo - {i}, f) == GoneSoFar(before, todo, f) + Named(i, f(i, before[i]).dropped)
  {
    var a, b := (map j <- before | j !in todo :: before[j]), (map j <- before | j !in todo - {i} :: before[j]);
    assert b == a[i := before[i]];
    forall p: (User, Id) ensures p in Gone(b, f) <==> p in Gone(a, f) || p in Named(i, f(i, before[i]).dropped) {
      if p.1 == i { assert b[i] == before[i]; }
    }
  }

  lemma AllGone(before: Messages, f: Sieve)
    ensures GoneSoFar(before, {}, f) == Gone(before, f)
  {
    assert (map i <- before | i !in {} :: before[i]) == before;
  }

  lemma ElementsAppend<T>(a: seq<T>, b: seq<T>)
    ensures Elements(a + b) == Elements(a) + Elements(b)
    ensures a != [] <==> Elements(a) != {}
  {
    if a != [] { assert a[0] in Elements(a); }
  }

  /** Taking one pair out of the index touches the list of one user. */
  lemma UnindexPair(us: Users, u: User, i: Id)
    requires forall v <- us :: us[v] != []
    ensures var ids := Retained(u, ListOf(us, u), {(u, i)});
            Unindex(us, {(u, i)}) == if u !in us then us else if ids == [] then us - {u} else us[u := ids]
  {
    hide Filter;
    forall v <- us | v != u ensures Retained(v, us[v], {(u, i)}) == us[v] {
      FilterAll(us[v], Listed(v, {(u, i)}));
    }
  }

  lemma UnindexNothing(us: Users)
    requires forall u <- us :: us[u] != []
    ensures Unindex(us, {}) == us
  {
    forall u <- us ensures Retained(u, us[u], {}) == us[u] { FilterAll(us[u], Listed(u, {})); }
  }

  lemma UnindexAgain(us: Users, gone: set<(User, Id)>, more: set<(User, Id)>)
    ensures Unindex(Unindex(us, gone), more) == Unindex(us, gone + more)
  {
    forall u <- us
      ensures Retained(u, Retained(u, us[u], gone), more) == Retained(u, us[u], gone + more)
    {
      FilterTwice(us[u], Listed(u, gone), Listed(u, more), Listed(u, gone + more));
    }
  }
}
