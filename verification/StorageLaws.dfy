/** What the pending-message store keeps over every run, and what its passes remove. */
module StorageLaws {
  import opened Bytes
  import opened Values
  import opened Storage

  // ---- sieves lose nothing ----------------------------------------------------------------

  lemma {:induction false} FilterSplits<T(!new)>(s: seq<T>, p: T -> bool)
    ensures multiset(Filter(s, Not(p))) + multiset(Filter(s, p)) == multiset(s)
  {
    if s != [] {
      FilterSplits(s[1..], p);
      assert s == [s[0]] + s[1..];
    }
  }

  lemma FilterStep<T(!new)>(s: seq<T>, n: nat, p: T -> bool)
    requires n < |s|
    ensures Filter(s[n..], p) == (if p(s[n]) then [s[n]] else []) + Filter(s[n + 1..], p)
  {
    assert s[n..] == [s[n]] + s[n + 1..];
  }

  lemma {:induction false} FilterTwice<T(!new)>(s: seq<T>, p: T -> bool, q: T -> bool, both: T -> bool)
    requires forall x <- s :: both(x) == (p(x) && q(x))
    ensures Filter(Filter(s, p), q) == Filter(s, both)
  {
    if s != [] {
      FilterTwice(s[1..], p, q, both);
      var rest := Filter(s[1..], p);
      assert s[0] in s;
      if p(s[0]) {
        FilterStep(Filter(s, p), 0, q);
        assert Filter(s, p)[0..] == Filter(s, p) && Filter(s, p)[1..] == rest;
      } else {
        assert Filter(s, p) == rest;
      }
    }
  }

  lemma FilterCons<T(!new)>(x: T, rest: seq<T>, p: T -> bool)
    ensures Filter([x] + rest, p) == (if p(x) then [x] else []) + Filter(rest, p)
  {
    assert ([x] + rest)[1..] == rest;
  }

  lemma FilterOne<T(!new)>(x: T, p: T -> bool)
    ensures Filter([], p) == []
    ensures Filter([x], p) == if p(x) then [x] else []
  {}

  lemma CancelIsLawful(c: Message)
    ensures Lawful(CancelSieve(c))
  {
    forall i, es: seq<Entry>
      ensures multiset(CancelSieve(c)(i, es).kept) + multiset(CancelSieve(c)(i, es).dropped) == multiset(es)
    {
      FilterSplits(es, Matching(c, i));
    }
  }

  lemma CleanIsLawful(now: Time)
    ensures Lawful(CleanSieve(now))
  {
    forall i: Id, es: seq<Entry>
      ensures multiset(CleanSieve(now)(i, es).kept) + multiset(CleanSieve(now)(i, es).dropped) == multiset(es)
    {
      FilterSplits(es, ExpiredAt(now));
    }
  }

  lemma DeliverSplits(now: Time, es: seq<Entry>)
    ensures multiset(DeliverSplit(now, es).kept) + multiset(DeliverSplit(now, es).dropped) == multiset(es)
  {
    hide Filter, Chosen;
    var n := match Chosen(es, now) case Some(k) => k + 1 case None => 0;
    FilterSplits(es[n..], StaleAt(now));
    assert es == es[..n] + es[n..];
  }

  lemma DeliverIsLawful(now: Time)
    ensures Lawful(DeliverSieve(now))
  {
    hide DeliverSplit;
    forall i: Id, es: seq<Entry>
      ensures multiset(DeliverSieve(now)(i, es).kept) + multiset(DeliverSieve(now)(i, es).dropped) == multiset(es)
    {
      DeliverSplits(now, es);
    }
  }

  // ---- the invariants ---------------------------------------------------------------------

  ghost predicate DistinctUsers(es: seq<Entry>)
  {
    forall j, k :: 0 <= j < k < |es| ==> es[j].user != es[k].user
  }

  /** No two live entries share an id and a destination. */
  ghost predicate Unique(ms: Messages)
  {
    forall i <- ms :: DistinctUsers(ms[i])
  }

  function Pairs(ms: Messages): (r: set<(User, Id)>)
  {
    set i <- ms, e <- ms[i] :: (e.user, i)
  }

  function Indexed(us: Users): (r: set<(User, Id)>)
  {
    set u <- us, i <- us[u] :: (u, i)
  }

  /** The user index knows every stored entry. */
  ghost predicate Covers(s: Store)
  {
    Unique(s.messages) && Pairs(s.messages) <= Indexed(s.users)
  }

  /** The user index knows the stored entries, each once, and nothing else. */
  ghost predicate Exact(s: Store)
  {
    && Unique(s.messages)
    && Pairs(s.messages) == Indexed(s.users)
    && forall u <- s.users, j, k :: 0 <= j < k < |s.users[u]| ==> s.users[u][j] != s.users[u][k]
  }

  /** A new message's id and destination are not those of a live entry. */
  predicate Fresh(s: Store, e: Event)
  {
    e.Saving? ==> (StringOrEmpty(e.message, DestinationAddr), e.id) !in Pairs(s.messages)
  }

  // ---- removal keeps them -----------------------------------------------------------------

  lemma TwoPlaces<T>(s: seq<T>, x: T)
    ensures multiset(s)[x] >= 2 <==> exists j, k :: 0 <= j < k < |s| && s[j] == x && s[k] == x
  {
    if x in s {
      var p :| 0 <= p < |s| && s[p] == x;
      assert s == s[..p] + [x] + s[p + 1..];
      if x in multiset(s[..p] + s[p + 1..]) {
        assert exists q :: 0 <= q < |s| && q != p && s[q] == x;
      } else {
        assert forall q :: 0 <= q < p ==> s[q] == s[..p][q];
        assert forall q :: p < q < |s| ==> s[q] == s[p + 1..][q - p - 1];
      }
    }
  }

  lemma Permuted(a: seq<Entry>, b: seq<Entry>)
    requires multiset(a) == multiset(b) && DistinctUsers(a)
    ensures DistinctUsers(b)
    ensures forall e :: e in a <==> e in b
  {
    forall e ensures e in a <==> e in b { assert e in multiset(a) <==> e in multiset(b); }
    forall j, k | 0 <= j < k < |b| ensures b[j].user != b[k].user {
      TwoPlaces(a, b[j]);
      TwoPlaces(b, b[j]);
      assert b[j] in a && b[k] in a;
    }
  }

  lemma SplitDistinct(es: seq<Entry>, d: Split)
    requires multiset(d.kept) + multiset(d.dropped) == multiset(es) && DistinctUsers(es)
    ensures DistinctUsers(d.kept)
    ensures forall a <- d.kept, b <- d.dropped :: a.user != b.user
    ensures forall e :: e in es <==> e in d.kept || e in d.dropped
  {
    var all := d.kept + d.dropped;
    Permuted(es, all);
    forall a <- d.kept, b <- d.dropped ensures a.user != b.user {
      var j :| 0 <= j < |d.kept| && d.kept[j] == a;
      var k :| 0 <= k < |d.dropped| && d.dropped[k] == b;
      assert all[j] == a && all[|d.kept| + k] == b;
    }
    forall j, k | 0 <= j < k < |d.kept| ensures d.kept[j].user != d.kept[k].user {
      assert all[j] == d.kept[j] && all[k] == d.kept[k];
    }
  }

  lemma SiftedPairs(s: Store, f: Sieve)
    requires Lawful(f) && Unique(s.messages)
    ensures Unique(Sifted(s, f).messages)
    ensures Pairs(Sifted(s, f).messages) == Pairs(s.messages) - Gone(s.messages, f)
  {
    hide Unindex, DistinctUsers;
    var ms, ms' := s.messages, Sifted(s, f).messages;
    forall i <- ms
      ensures DistinctUsers(f(i, ms[i]).kept)
      ensures forall a <- f(i, ms[i]).kept, b <- f(i, ms[i]).dropped :: a.user != b.user
      ensures forall e :: e in ms[i] <==> e in f(i, ms[i]).kept || e in f(i, ms[i]).dropped
    {
      SplitDistinct(ms[i], f(i, ms[i]));
    }
    forall p: (User, Id)
      ensures p in Pairs(ms') <==> p in Pairs(ms) && p !in Gone(ms, f)
    {
      if p.1 in ms {
        var i := p.1;
        assert p in Pairs(ms) <==> exists e: Entry <- ms[i] :: e.user == p.0;
        assert p in Gone(ms, f) <==> exists e: Entry <- f(i, ms[i]).dropped :: e.user == p.0;
        assert i in ms' <==> f(i, ms[i]).kept != [];
        assert p in Pairs(ms') <==> i in ms' && exists e: Entry <- ms'[i] :: e.user == p.0;
      }
    }
  }

  lemma UnindexPairs(us: Users, gone: set<(User, Id)>)
    ensures Indexed(Unindex(us, gone)) == Indexed(us) - gone
    ensures forall u <- Unindex(us, gone) :: Unindex(us, gone)[u] != []
  {
    forall p: (User, Id) ensures p in Indexed(Unindex(us, gone)) <==> p in Indexed(us) && p !in gone {
      if p in Indexed(us) && p !in gone {
        assert p.1 in Retained(p.0, us[p.0], gone);
      }
    }
  }

  lemma {:induction false} FilterDistinct<T(!new)>(ids: seq<T>, p: T -> bool)
    requires forall j, k :: 0 <= j < k < |ids| ==> ids[j] != ids[k]
    ensures forall j, k :: 0 <= j < k < |Filter(ids, p)| ==> Filter(ids, p)[j] != Filter(ids, p)[k]
  {
    if ids != [] {
      FilterDistinct(ids[1..], p);
    }
  }

  lemma SiftedKeeps(s: Store, f: Sieve)
    requires Lawful(f)
    ensures NoEmptyLists(Sifted(s, f))
    ensures Covers(s) ==> Covers(Sifted(s, f))
    ensures Exact(s) ==> Exact(Sifted(s, f))
  {
    hide Pairs, Indexed, Gone, Lawful, Unique, Filter;
    var gone := Gone(s.messages, f);
    UnindexPairs(s.users, gone);
    if Unique(s.messages) { SiftedPairs(s, f); }
    if Exact(s) {
      forall u <- s.users
        ensures var ids := Retained(u, s.users[u], gone); forall j, k :: 0 <= j < k < |ids| ==> ids[j] != ids[k]
      {
        FilterDistinct(s.users[u], Listed(u, gone));
      }
    }
  }

  lemma RemoveAtKeeps(s: Store, i: Id, k: nat)
    requires i in s.messages ==> k < |s.messages[i]|
    ensures NoEmptyLists(s) ==> NoEmptyLists(RemoveAt(s, i, k))
    ensures Covers(s) ==> Covers(RemoveAt(s, i, k))
  {
    if i in s.messages && Covers(s) {
      var es, ms' := s.messages[i], RemoveAt(s, i, k).messages;
      forall p <- Pairs(ms') ensures p in Pairs(s.messages) {
        var e: Entry :| e in ms'[p.1] && e.user == p.0;
        assert e in s.messages[p.1];
      }
      if i in ms' {
        assert forall j :: 0 <= j < |ms'[i]| ==> ms'[i][j] == es[if j < k then j else j + 1];
      }
    }
  }

  /** Exactness is lost by every removal that finds its id: the pair of the removed entry stays indexed. */
  lemma RemoveAtExactIff(s: Store, i: Id, k: nat)
    requires Exact(s) && (i in s.messages ==> k < |s.messages[i]|)
    ensures Exact(RemoveAt(s, i, k)) <==> i !in s.messages
  {
    if i in s.messages {
      var e, ms' := s.messages[i][k], RemoveAt(s, i, k).messages;
      assert e in s.messages[i];
      assert (e.user, i) in Pairs(s.messages);
      if i in ms' {
        assert forall j :: 0 <= j < |ms'[i]| ==> ms'[i][j] == s.messages[i][if j < k then j else j + 1];
      }
      assert (e.user, i) !in Pairs(ms');
    }
  }

  // ---- saving and replacing keep them -----------------------------------------------------

  lemma SaveKeeps(s: Store, i: Id, m: Message, fallback: nat, t: Times)
    ensures NoEmptyLists(s) ==> NoEmptyLists(Save(s, i, m, fallback, t))
    ensures Covers(s) && Fresh(s, Saving(i, m, t)) ==> Covers(Save(s, i, m, fallback, t))
    ensures Exact(s) && Fresh(s, Saving(i, m, t)) ==> Exact(Save(s, i, m, fallback, t))
  {
    hide ScheduleTime, ValidityTime, SaveRefusal, Pairs, Indexed, Unique;
    var s' := Save(s, i, m, fallback, t);
    if SaveRefusal(m, fallback, t).None? && Fresh(s, Saving(i, m, t)) {
      var e := NewEntry(m, fallback, t);
      if Unique(s.messages) { AppendKeeps(s.messages, s'.messages, i, e); }
      IndexAppend(s.users, s'.users, e.user, i);
    }
  }

  lemma IndexAppend(us: Users, us': Users, u: User, i: Id)
    requires us' == us[u := ListOf(us, u) + [i]]
    ensures Indexed(us') == Indexed(us) + {(u, i)}
    ensures forall v <- us :: us'[v] == us[v] || (v == u && us'[v] == us[v] + [i])
    ensures u in us && i in us[u] <==> (u, i) in Indexed(us)
  {
    assert forall v <- us', j <- us'[v] :: (v, j) == (u, i) || (v in us && j in us[v]);
    assert us'[u][|us'[u]| - 1] == i;
    assert forall v <- us, j <- us[v] :: j in us'[v];
  }

  lemma AppendKeeps(ms: Messages, ms': Messages, i: Id, e: Entry)
    requires ms' == ms[i := ListOf(ms, i) + [e]]
    requires Unique(ms) && (e.user, i) !in Pairs(ms)
    ensures Unique(ms')
    ensures Pairs(ms') == Pairs(ms) + {(e.user, i)}
  {
    var es := ListOf(ms, i);
    forall x <- es ensures x.user != e.user {
      assert (x.user, i) in Pairs(ms);
    }
    assert ms'[i][|es|] == e;
    assert forall j <- ms', x <- ms'[j] :: (j == i && x == e) || (j in ms && x in ms[j]);
    assert forall j <- ms, x <- ms[j] :: x in ms'[j];
  }

  lemma ReplaceKeeps(s: Store, c: Message, t: Times)
    ensures NoEmptyLists(s) ==> NoEmptyLists(Replace(s, c, t))
    ensures Covers(s) ==> Covers(Replace(s, c, t))
    ensures Exact(s) ==> Exact(Replace(s, c, t))
  {
    hide Updated, Pairs;
    var i := StringOrEmpty(c, MessageId);
    if ReplaceRefusal(s, c, t).None? {
      var es: seq<Entry> := s.messages[i];
      forall k | 0 <= k < |es| ensures Updated(c, t, es[k]).user == es[k].user { UserStays(c, t, es[k]); }
      SameUsers(s.messages, Replace(s, c, t).messages);
    }
  }

  lemma SameUsers(ms: Messages, ms': Messages)
    requires ms.Keys == ms'.Keys
    requires forall i <- ms :: |ms[i]| == |ms'[i]| && forall k :: 0 <= k < |ms[i]| ==> ms[i][k].user == ms'[i][k].user
    ensures Pairs(ms) == Pairs(ms')
    ensures Unique(ms) ==> Unique(ms')
  {
    forall p: (User, Id) ensures p in Pairs(ms) <==> p in Pairs(ms') {
      if p in Pairs(ms) {
        var k :| 0 <= k < |ms[p.1]| && ms[p.1][k].user == p.0;
        assert ms'[p.1][k] in ms'[p.1];
      }
      if p in Pairs(ms') {
        var k :| 0 <= k < |ms'[p.1]| && ms'[p.1][k].user == p.0;
        assert ms[p.1][k] in ms[p.1];
      }
    }
  }

  lemma UserStays(c: Message, t: Times, e: Entry)
    ensures Updated(c, t, e).user == e.user
  {}

  // ---- every run --------------------------------------------------------------------------

  ghost predicate PossibleRun(s: Store, es: seq<Event>, fallback: nat)
    decreases |es|
  {
    es != [] ==> Possible(s, es[0]) && PossibleRun(Step(s, es[0], fallback), es[1..], fallback)
  }

  /** Every save of the run is of a fresh id and destination. */
  ghost predicate FreshRun(s: Store, es: seq<Event>, fallback: nat)
    requires PossibleRun(s, es, fallback)
    decreases |es|
  {
    es != [] ==> Fresh(s, es[0]) && FreshRun(Step(s, es[0], fallback), es[1..], fallback)
  }

  ghost function Run(s: Store, es: seq<Event>, fallback: nat): (r: Store)
    requires PossibleRun(s, es, fallback)
    decreases |es|
  {
    if es == [] then s else Run(Step(s, es[0], fallback), es[1..], fallback)
  }

  lemma StepKeeps(s: Store, e: Event, fallback: nat)
    requires Possible(s, e)
    ensures NoEmptyLists(s) ==> NoEmptyLists(Step(s, e, fallback))
    ensures Covers(s) && Fresh(s, e) ==> Covers(Step(s, e, fallback))
    ensures Exact(s) && Fresh(s, e) && !e.RemovingFailed? ==> Exact(Step(s, e, fallback))
  {
    hide NoEmptyLists, Covers, Exact, Sifted, Fresh, Replace, Save, RemoveAt, Lawful;
    match e
    case Saving(i, m, t) => SaveKeeps(s, i, m, fallback, t);
    case Cancelling(c) => CancelIsLawful(c); SiftedKeeps(s, CancelSieve(c));
    case Cleaning(now) => CleanIsLawful(now); SiftedKeeps(s, CleanSieve(now));
    case Delivering(now) => DeliverIsLawful(now); SiftedKeeps(s, DeliverSieve(now));
    case RemovingFailed(i, k) => RemoveAtKeeps(s, i, k);
    case Replacing(c, t) => ReplaceKeeps(s, c, t);
  }

  /**
   Over every run: no id and no user is left with an empty list; while no id is saved twice for a
   destination, the user index knows every entry; and it knows nothing else as long as no entry was
   removed after a failed delivery.
   */
  lemma {:induction false} RunKeeps(s: Store, es: seq<Event>, fallback: nat)
    requires PossibleRun(s, es, fallback)
    ensures NoEmptyLists(s) ==> NoEmptyLists(Run(s, es, fallback))
    ensures Covers(s) && FreshRun(s, es, fallback) ==> Covers(Run(s, es, fallback))
    ensures Exact(s) && FreshRun(s, es, fallback) && (forall e <- es :: !e.RemovingFailed?)
            ==> Exact(Run(s, es, fallback))
    decreases |es|
  {
    hide NoEmptyLists, Covers, Exact, Step, Fresh;
    if es != [] {
      StepKeeps(s, es[0], fallback);
      RunKeeps(Step(s, es[0], fallback), es[1..], fallback);
    }
  }

  lemma EveryRunFromEmpty(es: seq<Event>, fallback: nat)
    requires PossibleRun(EMPTY, es, fallback)
    ensures NoEmptyLists(Run(EMPTY, es, fallback))
    ensures FreshRun(EMPTY, es, fallback) ==> Covers(Run(EMPTY, es, fallback))
    ensures FreshRun(EMPTY, es, fallback) && (forall e <- es :: !e.RemovingFailed?)
            ==> Exact(Run(EMPTY, es, fallback))
  {
    RunKeeps(EMPTY, es, fallback);
  }

  // ---- what a save stores -----------------------------------------------------------------

  /** A message is stored alive and deliverable, or not at all. */
  lemma SavedIsAlive(s: Store, i: Id, m: Message, fallback: nat, t: Times)
    requires SaveRefusal(m, fallback, t).None?
    ensures var e, es := NewEntry(m, fallback, t), Save(s, i, m, fallback, t).messages[i];
            && es == ListOf(s.messages, i) + [e]
            && !Expired(e, t.now)
            && (e.schedule.Some? && e.validity.Some? ==> e.schedule.value <= e.validity.value)
            && (e.schedule.Some? || e.validity.Some?)
  {}

  /** Neither a schedule nor a validity period: the empty strings a decoded submit_sm has for them are refused. */
  lemma WithoutTimesRefused(s: Store, i: Id, m: Message, fallback: nat, t: Times)
    requires t.parse([]).None?
    requires Get(m, ScheduleDeliveryTime) == Some(String([])) && Get(m, ValidityPeriod) == Some(String([]))
    ensures Save(s, i, m, fallback, t) == s
  {}

  /** An unreadable validity period with a readable schedule makes an entry that never expires. */
  lemma UnreadableValidityNeverExpires(m: Message, fallback: nat, t: Times, later: Time)
    requires Get(m, ValidityPeriod).Some? && Get(m, ValidityPeriod).value.String?
    requires t.parse(Get(m, ValidityPeriod).value.s).None?
    ensures !Expired(NewEntry(m, fallback, t), later)
    ensures SaveRefusal(m, fallback, t).None? <==>
            StringOrEmpty(m, DestinationAddr) != [] && ScheduleTime(m, t).Some?
  {}

  /**
   When a saved message expires: as its validity_period says, or after its qos_time_to_live from now on, or
   else the default after its schedule, or after now without one.
   */
  lemma SavedValidity(s: Store, i: Id, m: Message, fallback: nat, t: Times)
    requires SaveRefusal(m, fallback, t).None?
    ensures var es := Save(s, i, m, fallback, t).messages[i];
            var text, live := Get(m, ValidityPeriod), Get(m, QosTimeToLive);
            var e := es[|es| - 1];
            && e.message == m && e.user == StringOrEmpty(m, DestinationAddr)
            && (text.Some? && text.value.String? ==> e.validity == t.parse(text.value.s))
            && (!(text.Some? && text.value.String?) ==>
                  e.validity.Some? &&
                  if live.Some? && live.value.String? then e.validity.value - t.now == t.seconds(live.value.s)
                  else e.validity.value - fallback == if e.schedule.Some? then e.schedule.value else t.now)
  {}

  // ---- cancellation -----------------------------------------------------------------------

  lemma SiftedHas(s: Store, f: Sieve, i: Id, e: Entry)
    ensures (i in Sifted(s, f).messages && e in Sifted(s, f).messages[i])
            <==> (i in s.messages && e in f(i, s.messages[i]).kept)
  {}

  /** Cancellation leaves exactly the entries that do not match. */
  lemma CancelRemovesMatching(s: Store, c: Message, i: Id, e: Entry)
    ensures (i in Cancel(s, c).messages && e in Cancel(s, c).messages[i])
            <==> (i in s.messages && e in s.messages[i] && !CancelMatches(c, i, e))
  {
    hide CancelMatches, Sifted;
    SiftedHas(s, CancelSieve(c), i, e);
  }

  /** It changes the store exactly when some entry matches. */
  lemma CancelChangesIff(s: Store, c: Message)
    requires NoEmptyLists(s)
    ensures Cancel(s, c) != s <==> exists i <- s.messages, e <- s.messages[i] :: CancelMatches(c, i, e)
    ensures Cancel(s, c) != s <==> Gone(s.messages, CancelSieve(c)) != {}
  {
    hide CancelMatches, Filter;
    var ms, f := s.messages, CancelSieve(c);
    if i, e :| i in ms && e in ms[i] && CancelMatches(c, i, e) {
      assert e in f(i, ms[i]).dropped;
      assert (e.user, i) in Gone(ms, f);
      CancelRemovesMatching(s, c, i, e);
    } else {
      forall i <- ms ensures f(i, ms[i]).kept == ms[i] { FilterAll(ms[i], Not(Matching(c, i))); }
      assert Gone(ms, f) == {};
      forall u <- s.users ensures Retained(u, s.users[u], {}) == s.users[u] { FilterAll(s.users[u], Listed(u, {})); }
      assert Cancel(s, c).messages == ms && Cancel(s, c).users == s.users;
    }
  }

  lemma {:induction false} FilterAll<T(!new)>(s: seq<T>, p: T -> bool)
    ensures Filter(s, p) == s <==> forall x <- s :: p(x)
  {
    if s != [] {
      assert |Filter(s[1..], p)| <= |s| - 1 by { FilterShorter(s[1..], p); }
      FilterAll(s[1..], p);
      assert s == [s[0]] + s[1..];
      if !p(s[0]) { assert |Filter(s, p)| < |s|; }
      assert forall x <- s :: x == s[0] || x in s[1..];
    }
  }

  lemma {:induction false} FilterShorter<T(!new)>(s: seq<T>, p: T -> bool)
    ensures |Filter(s, p)| <= |s|
  {
    if s != [] { FilterShorter(s[1..], p); }
  }

  predicate NoCriterion(c: Message)
  {
    && StringOrEmpty(c, MessageId) == [] && StringOrEmpty(c, ServiceType) == []
    && StringOrEmpty(c, SourceAddr) == [] && StringOrEmpty(c, DestinationAddr) == []
    && Octet(c, SourceAddrTon) == 0 && Octet(c, SourceAddrNpi) == 0
    && Octet(c, DestAddrTon) == 0 && Octet(c, DestAddrNpi) == 0
  }

  /** A cancel_sm that gives no criterion removes every message. */
  lemma NoCriterionCancelsAll(s: Store, c: Message)
    requires NoCriterion(c)
    ensures Cancel(s, c).messages == map[]
  {
    hide Octet, StringOrEmpty;
    var ms, f := s.messages, CancelSieve(c);
    forall i <- ms ensures f(i, ms[i]).kept == [] { FilterNone(ms[i], Not(Matching(c, i))); }
  }

  lemma {:induction false} FilterNone<T(!new)>(s: seq<T>, p: T -> bool)
    requires forall x <- s :: !p(x)
    ensures Filter(s, p) == []
  {
    if s != [] { FilterNone(s[1..], p); }
  }

  lemma {:induction false} FilterCounts<T(!new)>(s: seq<T>, p: T -> bool, x: T)
    ensures multiset(Filter(s, p))[x] == if p(x) then multiset(s)[x] else 0
  {
    if s != [] {
      FilterCounts(s[1..], p, x);
      assert s == [s[0]] + s[1..];
    }
  }

  /** How often a list holds an element. */
  function Count<K, V(==)>(m: map<K, seq<V>>, k: K, x: V): (n: nat)
  {
    if k in m then multiset(m[k])[x] else 0
  }

  /** Still to be had at a time: not to be sent later, and not expired before. */
  predicate InTime(e: Entry, now: Time)
  {
    (e.schedule.Some? ==> e.schedule.value <= now) && (e.validity.Some? ==> now <= e.validity.value)
  }

  /** To be had no more: it could have been sent, and expired before. */
  predicate TooLate(e: Entry, now: Time)
  {
    (e.schedule.Some? ==> e.schedule.value <= now) && e.validity.Some? && e.validity.value < now
  }

  /** Cleaning takes away every copy of each entry whose validity ended before, and of no other. */
  lemma CleanRemovesExpired(s: Store, now: Time, i: Id, e: Entry)
    ensures Count(Clean(s, now).messages, i, e)
         == if e.validity.Some? && e.validity.value < now then 0 else Count(s.messages, i, e)
  {
    hide Filter, Unindex;
    if i in s.messages { FilterCounts(s.messages[i], Not(ExpiredAt(now)), e); }
  }

  // ---- delivery ---------------------------------------------------------------------------

  predicate Holds(s: Store, d: Delivery)
  {
    d.id in s.messages && d.index < |s.messages[d.id]| && s.messages[d.id][d.index].message == d.message
  }

  /**
   A delivery pass looks at the entries of an id from the end back to the last one in time, at position
   `n - 1`, or through all of them when none is: of those it looks at it takes away exactly those that are
   too late, and all others stay.
   */
  lemma PassRemovesStale(s: Store, now: Time, i: Id, n: nat, e: Entry)
    requires i in s.messages && n <= |s.messages[i]| && (n > 0 ==> InTime(s.messages[i][n - 1], now))
    requires forall k :: n <= k < |s.messages[i]| ==> !InTime(s.messages[i][k], now)
    ensures Count(Deliver(s, now).messages, i, e)
         == multiset(s.messages[i][..n])[e] + if TooLate(e, now) then 0 else multiset(s.messages[i][n..])[e]
  {
    hide Filter, InTime, TooLate, StaleAt, Deliver, Count, Chosen, DeliverSplit;
    var es := s.messages[i];
    ChosenIs(es, now, n);
    DeliveredIs(es, now, n);
    DeliverCounts(s, now, i, e);
    KeptCounts(es[..n], es[n..], now, e);
  }

  lemma DeliveredIs(es: seq<Entry>, now: Time, n: nat)
    requires n <= |es| && Chosen(es, now) == if n > 0 then Some(n - 1) else None
    ensures DeliverSplit(now, es).kept == es[..n] + Filter(es[n..], Not(StaleAt(now)))
  {
    hide Filter, Chosen;
  }

  lemma DeliverCounts(s: Store, now: Time, i: Id, e: Entry)
    requires i in s.messages
    ensures Count(Deliver(s, now).messages, i, e) == multiset(DeliverSplit(now, s.messages[i]).kept)[e]
  {
    hide DeliverSplit, Unindex;
  }

  lemma KeptCounts(a: seq<Entry>, b: seq<Entry>, now: Time, e: Entry)
    ensures multiset(a + Filter(b, Not(StaleAt(now))))[e]
         == multiset(a)[e] + if TooLate(e, now) then 0 else multiset(b)[e]
  {
    hide Filter;
    FilterCounts(b, Not(StaleAt(now)), e);
  }

  lemma ReadyIff(e: Entry, now: Time)
    ensures Ready(e, now) <==> InTime(e, now)
  {}

  lemma ChosenIs(es: seq<Entry>, now: Time, n: nat)
    requires n <= |es| && (n > 0 ==> InTime(es[n - 1], now))
    requires forall k :: n <= k < |es| ==> !InTime(es[k], now)
    ensures Chosen(es, now) == if n > 0 then Some(n - 1) else None
  {
    hide Ready, InTime;
    forall e: Entry { ReadyIff(e, now); }
    if n > 0 { assert es[n - 1] in es; }
  }

  /**
   What a pass hands out is the last entry of its id that is due and unexpired; up to and including
   it nothing moves, so its position denotes it in the store after the pass.
   */
  lemma PassChooses(s: Store, now: Time, d: Delivery)
    requires d in Deliveries(s.messages, now)
    ensures var s' := Deliver(s, now);
            && Holds(s, d) && Holds(s', d)
            && s'.messages[d.id][..d.index + 1] == s.messages[d.id][..d.index + 1]
            && Ready(s.messages[d.id][d.index], now)
            && (forall k :: d.index < k < |s.messages[d.id]| ==> !Ready(s.messages[d.id][k], now))
  {
    hide Filter, Ready;
    var es, n := s.messages[d.id], d.index + 1;
    var kept := DeliverSieve(now)(d.id, es).kept;
    assert kept == es[..n] + Filter(es[n..], Not(StaleAt(now)));
    assert Deliver(s, now).messages[d.id] == kept;
    assert kept[d.index] == es[d.index];
  }

  /** One message is handed out for exactly the ids that have one ready. */
  lemma PassIsComplete(s: Store, now: Time, i: Id)
    requires i in s.messages
    ensures (exists d <- Deliveries(s.messages, now) :: d.id == i) <==> (exists e <- s.messages[i] :: Ready(e, now))
    ensures forall d <- Deliveries(s.messages, now), d' <- Deliveries(s.messages, now) :: d.id == d'.id ==> d == d'
  {
    var es := s.messages[i];
    if Chosen(es, now).Some? {
      var k := Chosen(es, now).value;
      assert Delivery(i, k, es[k].message) in Deliveries(s.messages, now);
      assert es[k] in es;
    }
  }

  /** What is handed out is the last entry of its id that is ready. */
  lemma HandedOutIff(ms: Messages, now: Time, d: Delivery)
    ensures d in Deliveries(ms, now)
            <==> && d.id in ms && d.index < |ms[d.id]| && d.message == ms[d.id][d.index].message
                 && InTime(ms[d.id][d.index], now)
                 && (forall k :: d.index < k < |ms[d.id]| ==> !InTime(ms[d.id][k], now))
  {
    hide Ready, InTime;
    forall e: Entry { ReadyIff(e, now); }
    if d.id in ms && d.index < |ms[d.id]| && Ready(ms[d.id][d.index], now) {
      assert ms[d.id][d.index] in ms[d.id];
    }
  }

  /** Leaves a given entry of an id where it is: saves, removals for other ids, and ticks before the entry expires. */
  predicate Spares(x: Event, i: Id, e: Entry, since: Time)
  {
    match x
    case Saving(_, _, _) => true
    case RemovingFailed(j, _) => i != j
    case Delivering(t) => since <= t && !Expired(e, t)
    case _ => false
  }

  lemma SparedStep(s: Store, x: Event, i: Id, k: nat, e: Entry, since: Time, fallback: nat)
    requires Possible(s, x) && Spares(x, i, e, since) && !NotDue(e, since)
    requires i in s.messages && k < |s.messages[i]| && s.messages[i][k] == e
    ensures var ms := Step(s, x, fallback).messages; i in ms && k < |ms[i]| && ms[i][k] == e
  {
    hide SaveRefusal, NewEntry, Filter;
    if x.Delivering? {
      var es := s.messages[i];
      assert Ready(es[k], x.now) && es[k] in es;
      var n := Chosen(es, x.now).value + 1;
      assert k < n;
      var kept := DeliverSieve(x.now)(i, es).kept;
      assert kept == es[..n] + Filter(es[n..], Not(StaleAt(x.now)));
      assert kept[k] == es[k];
    }
  }

  lemma {:induction false} SparedRun(s: Store, xs: seq<Event>, i: Id, k: nat, e: Entry, since: Time, fallback: nat)
    requires PossibleRun(s, xs, fallback) && (forall x <- xs :: Spares(x, i, e, since)) && !NotDue(e, since)
    requires i in s.messages && k < |s.messages[i]| && s.messages[i][k] == e
    ensures var ms := Run(s, xs, fallback).messages; i in ms && k < |ms[i]| && ms[i][k] == e
    decreases |xs|
  {
    hide Step, Spares, NotDue;
    if xs != [] {
      assert xs[0] in xs;
      SparedStep(s, xs[0], i, k, e, since, fallback);
      SparedRun(Step(s, xs[0], fallback), xs[1..], i, k, e, since, fallback);
    }
  }

  /**
   A delivery that does not fail leaves its message where it is. After any saves and ticks, until it
   expires, it is handed out again exactly when no later entry of its id is ready.
   */
  lemma HandedOutAgainIff(s: Store, now: Time, d: Delivery, xs: seq<Event>, later: Time, fallback: nat)
    requires d in Deliveries(s.messages, now) && PossibleRun(Deliver(s, now), xs, fallback)
    requires d.id in s.messages && d.index < |s.messages[d.id]|
    requires forall x <- xs :: Spares(x, d.id, s.messages[d.id][d.index], now)
    requires now <= later && !Expired(s.messages[d.id][d.index], later)
    ensures var ms := Run(Deliver(s, now), xs, fallback).messages;
            && d.id in ms && d.index < |ms[d.id]| && ms[d.id][d.index] == s.messages[d.id][d.index]
            && (d in Deliveries(ms, later) <==> forall k :: d.index < k < |ms[d.id]| ==> !InTime(ms[d.id][k], later))
  {
    hide Deliver, Deliveries, Spares;
    var e := s.messages[d.id][d.index];
    PassChooses(s, now, d);
    HandedOutIff(s.messages, now, d);
    var es' := Deliver(s, now).messages[d.id];
    assert es'[d.index] == es'[..d.index + 1][d.index] == e;
    SparedRun(Deliver(s, now), xs, d.id, d.index, e, now, fallback);
    HandedOutIff(Run(Deliver(s, now), xs, fallback).messages, later, d);
  }

  /** May move the entries of an id. */
  predicate Disturbs(e: Event, i: Id)
  {
    match e
    case Saving(_, _, _) => false
    case RemovingFailed(j, _) => i == j
    case _ => true
  }

  /** The position handed out by a pass denotes the same entry after saves and removals for other ids. */
  lemma {:induction false} PositionIsStable(s: Store, d: Delivery, es: seq<Event>, fallback: nat)
    requires PossibleRun(s, es, fallback)
    requires Holds(s, d)
    requires forall e <- es :: !Disturbs(e, d.id)
    ensures Holds(Run(s, es, fallback), d)
    ensures Run(s, es, fallback).messages[d.id][d.index] == s.messages[d.id][d.index]
    decreases |es|
  {
    hide SaveRefusal, NewEntry;
    if es != [] {
      assert es[0] in es;
      PositionIsStable(Step(s, es[0], fallback), d, es[1..], fallback);
    }
  }

  function Without(es: seq<Entry>, k: Option<nat>): (r: seq<Entry>)
  {
    if k.Some? && k.value < |es| then es[..k.value] + es[k.value + 1..] else es
  }

  /** The entries a series of events saves under an id. */
  function SavedUnder(xs: seq<Event>, i: Id, fallback: nat): (r: seq<Entry>)
  {
    if xs == [] then []
    else
      (if xs[0].Saving? && xs[0].id == i && SaveRefusal(xs[0].message, fallback, xs[0].times).None?
       then [NewEntry(xs[0].message, fallback, xs[0].times)] else [])
      + SavedUnder(xs[1..], i, fallback)
  }

  /** Saves, and removals of which none, or exactly the one at position `k`, concerns the id. */
  predicate FollowUp(xs: seq<Event>, i: Id, k: Option<nat>)
  {
    if xs == [] then k.None?
    else
      match xs[0]
      case Saving(_, _, _) => FollowUp(xs[1..], i, k)
      case RemovingFailed(j, n) => if i == j then k == Some(n) && FollowUp(xs[1..], i, None)
          else FollowUp(xs[1..], i, k)
      case _ => false
  }

  lemma ListAfterSave(s: Store, i: Id, x: Event, fallback: nat)
    requires x.Saving?
    ensures ListOf(Save(s, x.id, x.message, fallback, x.times).messages, i)
            == ListOf(s.messages, i) + SavedUnder([x], i, fallback)
  {
    hide SaveRefusal, NewEntry;
    assert [x][1..] == [];
    var none: seq<Event> := [];
    assert SavedUnder(none, i, fallback) == [];
  }

  lemma ListAfterRemoval(s: Store, i: Id, j: Id, n: nat)
    requires j in s.messages ==> n < |s.messages[j]|
    ensures ListOf(RemoveAt(s, j, n).messages, i)
            == if i == j then Without(ListOf(s.messages, i), Some(n)) else ListOf(s.messages, i)
  {}

  lemma SavedUnderCons(x: Event, xs: seq<Event>, i: Id, fallback: nat)
    ensures SavedUnder([x] + xs, i, fallback) == SavedUnder([x], i, fallback) + SavedUnder(xs, i, fallback)
  {
    hide SaveRefusal, NewEntry;
    assert [x][1..] == [] && ([x] + xs)[1..] == xs;
    var none: seq<Event> := [];
    assert SavedUnder(none, i, fallback) == [];
  }

  lemma WithoutThenMore(es: seq<Entry>, more: seq<Entry>, k: Option<nat>)
    requires k.Some? ==> k.value < |es|
    ensures Without(es + more, k) == Without(es, k) + more
  {}

  /**
   What follows a pass, with saves in between: each id loses exactly the entry whose delivery failed
   and gains exactly the entries saved meanwhile, at its end.
   */
  lemma {:induction false} ListAfterFollowUp(s: Store, xs: seq<Event>, i: Id, k: Option<nat>, fallback: nat)
    requires PossibleRun(s, xs, fallback) && FollowUp(xs, i, k) && (k.Some? ==> k.value < |ListOf(s.messages, i)|)
    ensures ListOf(Run(s, xs, fallback).messages, i)
         == Without(ListOf(s.messages, i), k) + SavedUnder(xs, i, fallback)
    decreases |xs|
  {
    hide SavedUnder, Save, RemoveAt, ListOf, Without;
    var es := ListOf(s.messages, i);
    if xs == [] {
      NothingSaved(es, i, fallback);
    } else {
      var x, s1 := xs[0], Step(s, xs[0], fallback);
      var saved, rest := SavedUnder([x], i, fallback), SavedUnder(xs[1..], i, fallback);
      assert xs == [x] + xs[1..];
      SavedUnderCons(x, xs[1..], i, fallback);
      if x.Saving? {
        ListAfterSave(s, i, x, fallback);
        WithoutThenMore(es, saved, k);
        ListAfterFollowUp(s1, xs[1..], i, k, fallback);
        assert Without(es, k) + saved + rest == Without(es, k) + (saved + rest);
      } else {
        ListAfterRemoval(s, i, x.id, x.index);
        ListAfterFollowUp(s1, xs[1..], i, if x.id == i then None else k, fallback);
        RemovalSavesNothing(x, i, fallback);
        NothingSaved(Without(es, k), i, fallback);
        assert saved + rest == rest;
      }
    }
  }

  lemma NothingSaved(es: seq<Entry>, i: Id, fallback: nat)
    ensures SavedUnder([], i, fallback) == [] && Without(es, None) == es && es + [] == es
  {}

  lemma RemovalSavesNothing(x: Event, i: Id, fallback: nat)
    requires x.RemovingFailed?
    ensures SavedUnder([x], i, fallback) == []
  {
    assert [x][1..] == [];
  }

  /** A cancellation that spares an entry moves it down by the number of entries it removes before it. */
  lemma PositionAfterCancel(s: Store, d: Delivery, c: Message)
    requires Holds(s, d) && !CancelMatches(c, d.id, s.messages[d.id][d.index])
    ensures var es := s.messages[d.id];
            var k := |Filter(es[..d.index], Not(Matching(c, d.id)))|;
            && d.id in Cancel(s, c).messages && k < |Cancel(s, c).messages[d.id]|
            && Cancel(s, c).messages[d.id][k] == es[d.index]
            && (k == d.index <==> forall e <- es[..d.index] :: !CancelMatches(c, d.id, e))
  {
    hide CancelMatches, Filter;
    var es, p := s.messages[d.id], Not(Matching(c, d.id));
    var before, after := es[..d.index], es[d.index..];
    assert es == before + after && after[0] == es[d.index];
    FilterAppend(before, after, p);
    FilterHead(after, p);
    FilterFull(before, p);
    assert Cancel(s, c).messages[d.id] == Filter(es, p);
  }

  lemma FilterHead<T(!new)>(s: seq<T>, p: T -> bool)
    requires s != [] && p(s[0])
    ensures Filter(s, p) != [] && Filter(s, p)[0] == s[0]
  {}

  lemma FilterFull<T(!new)>(s: seq<T>, p: T -> bool)
    ensures |Filter(s, p)| == |s| <==> forall x <- s :: p(x)
  {
    FilterAll(s, p);
    if |Filter(s, p)| == |s| { FilterFullIsAll(s, p); }
  }

  lemma {:induction false} FilterFullIsAll<T(!new)>(s: seq<T>, p: T -> bool)
    requires |Filter(s, p)| == |s|
    ensures Filter(s, p) == s
  {
    if s != [] {
      FilterShorter(s[1..], p);
      FilterFullIsAll(s[1..], p);
    }
  }

  /**
   Cancellation keeps the user index covering the store exactly when it never tells two entries of one
   id and one user apart.
   */
  lemma CancelCoversIff(s: Store, c: Message)
    requires Pairs(s.messages) <= Indexed(s.users)
    ensures Pairs(Cancel(s, c).messages) <= Indexed(Cancel(s, c).users)
            <==> forall i <- s.messages, e <- s.messages[i], x <- s.messages[i] ::
                   e.user == x.user ==> (CancelMatches(c, i, e) <==> CancelMatches(c, i, x))
  {
    hide CancelMatches, Filter, Unindex, Cancel, CancelSieve, Indexed;
    var ms, ms', f := s.messages, Cancel(s, c).messages, CancelSieve(c);
    var gone := Gone(ms, f);
    UnindexPairs(s.users, gone);
    assert Cancel(s, c).users == Unindex(s.users, gone) by { CancelIs(s, c); }
    if i: Id, e: Entry, x: Entry :| i in ms && e in ms[i] && x in ms[i] && e.user == x.user
                                     && CancelMatches(c, i, x) && !CancelMatches(c, i, e) {
      CancelRemovesMatching(s, c, i, e);
      DroppedIff(c, i, ms[i], x);
      assert (e.user, i) in Pairs(ms') && (x.user, i) in gone;
    } else {
      forall p <- Pairs(ms') ensures p in Pairs(ms) && p !in gone {
        var e: Entry :| e in ms'[p.1] && e.user == p.0;
        CancelRemovesMatching(s, c, p.1, e);
        forall x <- f(p.1, ms[p.1]).dropped ensures x.user != p.0 { DroppedIff(c, p.1, ms[p.1], x); }
      }
    }
  }

  lemma CancelIs(s: Store, c: Message)
    ensures Cancel(s, c).users == Unindex(s.users, Gone(s.messages, CancelSieve(c)))
  {}

  lemma DroppedIff(c: Message, i: Id, es: seq<Entry>, e: Entry)
    ensures e in CancelSieve(c)(i, es).dropped <==> e in es && CancelMatches(c, i, e)
  {
    hide CancelMatches;
  }

  /** One of two entries of one id and one user is cancelled: the other is stored, and no longer indexed. */
  lemma SeparatedPairIsLost(s: Store, c: Message, i: Id, e: Entry, x: Entry)
    requires i in s.messages && e in s.messages[i] && x in s.messages[i] && e.user == x.user
    requires CancelMatches(c, i, e) && !CancelMatches(c, i, x)
    ensures (x.user, i) in Pairs(Cancel(s, c).messages) && (x.user, i) !in Indexed(Cancel(s, c).users)
  {
    hide CancelMatches, Filter, Unindex;
    CancelRemovesMatching(s, c, i, x);
    DroppedIff(c, i, s.messages[i], e);
    UnindexPairs(s.users, Gone(s.messages, CancelSieve(c)));
  }

  /** Two saves under one id for one address, and a cancellation that tells the messages apart. */
  lemma SavedTwiceThenCancelled(i: Id, m: Message, m': Message, c: Message, t: Times, fallback: nat)
    requires SaveRefusal(m, fallback, t).None? && SaveRefusal(m', fallback, t).None?
    requires StringOrEmpty(m, DestinationAddr) == StringOrEmpty(m', DestinationAddr)
    requires CancelMatches(c, i, NewEntry(m, fallback, t)) && !CancelMatches(c, i, NewEntry(m', fallback, t))
    ensures var xs := [Saving(i, m, t), Saving(i, m', t), Cancelling(c)];
            PossibleRun(EMPTY, xs, fallback) && !Covers(Run(EMPTY, xs, fallback))
  {
    hide SaveRefusal, CancelMatches, ScheduleTime, ValidityTime, Cancel, Pairs, Indexed, StringOrEmpty;
    var xs := [Saving(i, m, t), Saving(i, m', t), Cancelling(c)];
    var e, x := NewEntry(m, fallback, t), NewEntry(m', fallback, t);
    var s1 := Save(EMPTY, i, m, fallback, t);
    var s2 := Save(s1, i, m', fallback, t);
    assert s2.messages[i] == [e, x];
    SeparatedPairIsLost(s2, c, i, e, x);
    assert xs[1..] == [Saving(i, m', t), Cancelling(c)] && xs[1..][1..] == [Cancelling(c)] && xs[1..][1..][1..] == [];
    var none: seq<Event> := [];
    assert PossibleRun(Cancel(s2, c), none, fallback) && Run(Cancel(s2, c), none, fallback) == Cancel(s2, c);
    assert PossibleRun(s2, [Cancelling(c)], fallback) && Run(s2, [Cancelling(c)], fallback) == Cancel(s2, c);
    assert PossibleRun(s1, xs[1..], fallback) && Run(s1, xs[1..], fallback) == Cancel(s2, c);
  }

  function Typed(ton: byte): (m: Message)
  {
    map[DestinationAddr := String([49]), DestAddrTon := Number(ton)]
  }

  lemma TypedIsSaved(ton: byte, t: Times)
    requires t == Times(0, text => None, text => 0)
    ensures SaveRefusal(Typed(ton), 0, t).None? && StringOrEmpty(Typed(ton), DestinationAddr) == [49]
  {}

  lemma TypedMatches(i: Id, ton: byte, t: Times)
    ensures CancelMatches(map[DestAddrTon := Number(1)], i, NewEntry(Typed(ton), 0, t)) <==> ton == 1
  {
    hide ScheduleTime, ValidityTime;
  }

  /** Such a run exists: one text address with two types of number, and a cancel_sm for one of them. */
  lemma CoverageCanBeLost()
    ensures exists xs :: PossibleRun(EMPTY, xs, 0) && !Covers(Run(EMPTY, xs, 0))
  {
    hide SaveRefusal, CancelMatches, NewEntry, Typed, Covers, Run, PossibleRun;
    var t := Times(0, text => None, text => 0);
    TypedIsSaved(1, t);
    TypedIsSaved(2, t);
    TypedMatches([1], 1, t);
    TypedMatches([1], 2, t);
    SavedTwiceThenCancelled([1], Typed(1), Typed(2), map[DestAddrTon := Number(1)], t, 0);
  }

  // ---- replacement ------------------------------------------------------------------------

  /** Each source criterion a replace_sm gives, that is, not 0 and not empty, is that of the message. */
  predicate SourceAgrees(c: Message, m: Message)
  {
    && (NumberOr0(c, SourceAddrTon) % 256 == 0
        || NumberOr0(c, SourceAddrTon) % 256 == NumberOr0(m, SourceAddrTon) % 256)
    && (NumberOr0(c, SourceAddrNpi) % 256 == 0
        || NumberOr0(c, SourceAddrNpi) % 256 == NumberOr0(m, SourceAddrNpi) % 256)
    && (StringOrEmpty(c, SourceAddr) == [] || StringOrEmpty(c, SourceAddr) == StringOrEmpty(m, SourceAddr))
  }

  /** A given text, as a value. */
  function Brings(c: Message, n: Name): (v: Option<Value>)
  {
    if StringOrEmpty(c, n) == [] then None else Some(String(StringOrEmpty(c, n)))
  }

  /**
   The value a replacement gives a field, if it sets it: the number of a default text that is not 0, the
   short message or else the payload, a time that is given, and registered_delivery in any case.
   */
  function NewValue(c: Message, n: Name): (v: Option<Value>)
  {
    match n
    case SmDefaultMsgId =>
      if NumberOr0(c, n) % 256 == 0 then None else Some(Number(NumberOr0(c, n) % 256))
    case ShortMessage => if Brings(c, ShortMessage).Some? then Brings(c, ShortMessage) else Brings(c, MessagePayload)
    case ScheduleDeliveryTime => Brings(c, n)
    case ValidityPeriod => Brings(c, n)
    case RegisteredDelivery => Some(Number(NumberOr0(c, n) % 256))
    case _ => None
  }

  /** The time after a replacement: that of the text it brings, or the one before. */
  function NewTime(c: Message, n: Name, t: Times, was: Option<Time>): (at: Option<Time>)
  {
    if StringOrEmpty(c, n) != [] && t.parse(StringOrEmpty(c, n)).Some? then t.parse(StringOrEmpty(c, n)) else was
  }

  /** What an entry becomes: every field and time the replacement brings is taken over, everything else stays. */
  ghost predicate TakesOver(c: Message, t: Times, e: Entry, e': Entry)
  {
    && e'.user == e.user
    && (forall n :: Get(e'.message, n) == if NewValue(c, n).Some? then NewValue(c, n) else Get(e.message, n))
    && e'.schedule == NewTime(c, ScheduleDeliveryTime, t, e.schedule)
    && e'.validity == NewTime(c, ValidityPeriod, t, e.validity)
  }

  lemma MatchesIff(c: Message, e: Entry)
    ensures ReplaceMatches(c, e) <==> SourceAgrees(c, e.message)
  {
    hide NumberOr0, StringOrEmpty;
  }

  /** Field by field: an entry is updated when its source agrees, and then takes over exactly what is brought. */
  lemma UpdatedFrame(c: Message, t: Times, e: Entry)
    ensures if SourceAgrees(c, e.message) then TakesOver(c, t, e, Updated(c, t, e)) else Updated(c, t, e) == e
  {
    hide ReplaceMatches, SourceAgrees, NumberOr0, StringOrEmpty, NewValue, ReplacedMessage;
    MatchesIff(c, e);
    forall n { ReplacedField(c, e.message, n); }
  }

  lemma ReplacedField(c: Message, m: Message, n: Name)
    ensures Get(ReplacedMessage(c, m), n) == if NewValue(c, n).Some? then NewValue(c, n) else Get(m, n)
  {
    hide NumberOr0, StringOrEmpty;
  }

  /**
   A replace_sm is accepted exactly when it names a stored id, brings a text or the number of one, and no
   time that cannot be read.
   */
  lemma ReplaceAcceptedIff(s: Store, c: Message, t: Times)
    ensures ReplaceRefusal(s, c, t).None?
       <==> && StringOrEmpty(c, MessageId) != [] && StringOrEmpty(c, MessageId) in s.messages
            && (NumberOr0(c, SmDefaultMsgId) % 256 != 0 || StringOrEmpty(c, ShortMessage) != []
                || StringOrEmpty(c, MessagePayload) != [])
            && (StringOrEmpty(c, ScheduleDeliveryTime) == [] || t.parse(StringOrEmpty(c, ScheduleDeliveryTime)).Some?)
            && (StringOrEmpty(c, ValidityPeriod) == [] || t.parse(StringOrEmpty(c, ValidityPeriod)).Some?)
    ensures ReplaceRefusal(s, c, t).Some? ==> Replace(s, c, t) == s
  {
    hide NumberOr0, StringOrEmpty;
  }

  /**
   An accepted replace_sm updates exactly the entries of its id whose source agrees, each in its place;
   every other entry, and the user index, stays.
   */
  lemma ReplaceTouches(s: Store, c: Message, t: Times, i: Id, k: nat)
    requires i in s.messages && k < |s.messages[i]|
    ensures var s' := Replace(s, c, t);
            && s'.users == s.users && s'.messages.Keys == s.messages.Keys && |s'.messages[i]| == |s.messages[i]|
            && (if ReplaceRefusal(s, c, t).None? && i == StringOrEmpty(c, MessageId)
                   && SourceAgrees(c, s.messages[i][k].message)
                then TakesOver(c, t, s.messages[i][k], s'.messages[i][k])
                else s'.messages[i][k] == s.messages[i][k])
  {
    hide ReplaceRefusal, Updated, SourceAgrees, TakesOver, StringOrEmpty;
    UpdatedFrame(c, t, s.messages[i][k]);
    if ReplaceRefusal(s, c, t).None? { ReplacedId(s, c, t); }
  }

  lemma ReplacedId(s: Store, c: Message, t: Times)
    requires ReplaceRefusal(s, c, t).None?
    ensures StringOrEmpty(c, MessageId) in s.messages
  {
    hide NumberOr0, StringOrEmpty;
  }

  /** An entry's times are what one of the given parsers made of the text its message shows. */
  ghost predicate TimesShown(e: Entry, ts: iset<Times>)
  {
    && (e.schedule.Some? ==>
          exists t :: t in ts && e.schedule == t.parse(StringOrEmpty(e.message, ScheduleDeliveryTime)))
    && (StringOrEmpty(e.message, ValidityPeriod) != [] ==>
          exists t :: t in ts && e.validity == t.parse(StringOrEmpty(e.message, ValidityPeriod)))
  }

  ghost predicate AllTimesShown(s: Store, ts: iset<Times>)
  {
    forall i <- s.messages, e <- s.messages[i] :: TimesShown(e, ts)
  }

  lemma NewEntryShows(m: Message, fallback: nat, t: Times, ts: iset<Times>)
    requires t in ts
    ensures TimesShown(NewEntry(m, fallback, t), ts)
  {}

  lemma UpdatedShows(s: Store, c: Message, t: Times, e: Entry, ts: iset<Times>)
    requires TimesShown(e, ts) && t in ts && ReplaceRefusal(s, c, t).None?
    ensures TimesShown(Updated(c, t, e), ts)
  {
    hide ReplaceMatches, NewText, Octet;
  }

  /** The parsers of an event, which read its clock. */
  ghost predicate Reads(x: Event, ts: iset<Times>)
  {
    (x.Saving? || x.Replacing? ==> x.times in ts)
  }

  lemma StepShows(s: Store, x: Event, fallback: nat, ts: iset<Times>)
    requires Possible(s, x) && AllTimesShown(s, ts) && Reads(x, ts)
    ensures AllTimesShown(Step(s, x, fallback), ts)
  {
    hide TimesShown, CancelMatches, ReplaceRefusal, Updated, SaveRefusal, NewEntry;
    var s' := Step(s, x, fallback);
    forall i <- s'.messages, e <- s'.messages[i] ensures TimesShown(e, ts) {
      match x
      case Saving(_, m, t) => NewEntryShows(m, fallback, t, ts);
      case Cancelling(c) => CancelRemovesMatching(s, c, i, e);
      case Cleaning(now) => CleanRemovesExpired(s, now, i, e);
      case Delivering(now) => DeliveredWasThere(s, now, i, e);
      case RemovingFailed(_, _) =>
      case Replacing(c, t) =>
        ReplacedShows(s, c, t, i, e, ts);
    }
  }

  lemma DeliveredWasThere(s: Store, now: Time, i: Id, e: Entry)
    requires i in Deliver(s, now).messages && e in Deliver(s, now).messages[i]
    ensures i in s.messages && e in s.messages[i]
  {
    SiftedHas(s, DeliverSieve(now), i, e);
  }

  lemma ReplacedShows(s: Store, c: Message, t: Times, i: Id, e: Entry, ts: iset<Times>)
    requires i in Replace(s, c, t).messages && e in Replace(s, c, t).messages[i] && AllTimesShown(s, ts) && t in ts
    ensures TimesShown(e, ts)
  {
    hide TimesShown, Updated;
    if ReplaceRefusal(s, c, t).None? && i == StringOrEmpty(c, MessageId) {
      var k :| 0 <= k < |s.messages[i]| && e == Updated(c, t, s.messages[i][k]);
      UpdatedShows(s, c, t, s.messages[i][k], ts);
    }
  }

  /** Over every run each stored entry's times are what its message's text was read as when it was saved or replaced. */
  lemma {:induction false} RunShowsTimes(s: Store, xs: seq<Event>, fallback: nat, ts: iset<Times>)
    requires PossibleRun(s, xs, fallback) && AllTimesShown(s, ts) && forall x <- xs :: Reads(x, ts)
    ensures AllTimesShown(Run(s, xs, fallback), ts)
    decreases |xs|
  {
    hide AllTimesShown, Step, Reads;
    if xs != [] {
      assert xs[0] in xs;
      StepShows(s, xs[0], fallback, ts);
      RunShowsTimes(Step(s, xs[0], fallback), xs[1..], fallback, ts);
    }
  }
}
