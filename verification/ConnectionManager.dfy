/** The choice among SMSC connections: the order in which they are tried, failover and fairness. */
module ConnectionManager {
  import opened Bytes
  import opened Values

  datatype Algorithm = RoundRobin | InOrder

  /** What became of sending on one connection; a message that is no request has no response. */
  datatype Attempt = Response(m: Message) | NoResponse | Failed

  datatype Result = Answered(m: Message) | NoConnections | AllFailed | Panicked

  // ---- the order --------------------------------------------------------------------------

  /** The list from position `k` on, then the part before it. */
  function Rotated<T>(s: seq<T>, k: nat): (r: seq<T>)
    requires k <= |s|
    ensures |r| == |s| && multiset(r) == multiset(s)
  {
    assert s == s[..k] + s[k..];
    s[k..] + s[..k]
  }

  lemma RotatedAt<T>(s: seq<T>, k: nat, j: nat)
    requires k < |s| && j < |s|
    ensures Rotated(s, k)[j] == s[(k + j) % |s|]
  {
    if k + j >= |s| { Wrapped(k + j, |s|); } else { DivMod(k + j, |s|, 0, k + j); }
  }

  /** The k-th connection to try: from the index on with round robin, from the first on otherwise. */
  function Nth<T>(s: seq<T>, algorithm: Algorithm, index: u32, k: nat): (x: T)
    requires s != []
  {
    s[((if algorithm.RoundRobin? then index else 0) + k) % |s|]
  }

  /** Rotated to where an index points, position by position. */
  lemma FromIndex<T>(s: seq<T>, index: nat)
    requires s != []
    ensures forall j :: 0 <= j < |s| ==> Rotated(s, index % |s|)[j] == s[(index + j) % |s|]
  {
    hide Rotated;
    var n := |s|;
    forall j | 0 <= j < n ensures Rotated(s, index % n)[j] == s[(index + j) % n] {
      RotatedAt(s, index % n, j);
      SumMod(index / n, index % n, j, n);
      assert index == index / n * n + index % n;
    }
  }

  lemma NthOfRotated<T>(s: seq<T>, algorithm: Algorithm, index: u32)
    requires s != []
    ensures forall k :: 0 <= k < |s| ==>
              Rotated(s, if algorithm.RoundRobin? then index % |s| else 0)[k] == Nth(s, algorithm, index, k)
  {
    hide Rotated;
    FromIndex(s, index);
    FromIndex(s, 0);
    DivMod(0, |s|, 0, 0);
  }

  lemma SumMod(q: nat, r: nat, j: nat, n: nat)
    requires r < n && j < n
    ensures (q * n + r + j) % n == (r + j) % n
  {
    if r + j < n {
      DivMod(q * n + r + j, n, q, r + j);
      DivMod(r + j, n, 0, r + j);
    } else {
      assert q * n + r + j == (q + 1) * n + (r + j - n);
      DivMod(q * n + r + j, n, q + 1, r + j - n);
      DivMod(r + j, n, 1, r + j - n);
    }
  }

  lemma Wrapped(x: nat, n: nat)
    requires 0 < n <= x < 2 * n
    ensures x % n == x - n
  {
    DivMod(x, n, 1, x - n);
  }

  lemma DivMod(x: nat, n: nat, q: nat, r: nat)
    requires n > 0 && x == q * n + r && r < n
    ensures x / n == q && x % n == r
  {
    var d := x / n - q;
    assert d * n == r - x % n;
    assert d >= 1 ==> d * n >= n;
    assert d <= -1 ==> d * n + n <= 0;
  }

  lemma PrefixIsPart<T>(s: seq<T>, k: nat)
    requires k <= |s|
    ensures multiset(s[..k]) <= multiset(s)
  {
    assert s == s[..k] + s[k..];
  }

  // ---- fairness ---------------------------------------------------------------------------

  /** The position that comes first for a value of the counter. */
  function FirstAt(index: nat, n: nat): (k: nat)
    requires n > 0
    ensures k < n
  {
    index % n
  }

  /** How often position `c` of `n` comes first in the `k` calls from counter value `start` on. */
  function TimesFirst(c: nat, n: nat, start: nat, k: nat): (r: nat)
    requires n > 0
  {
    if k == 0 then 0
    else TimesFirst(c, n, start, k - 1) + if FirstAt(start + k - 1, n) == c then 1 else 0
  }

  /** How many of the numbers below `x` leave remainder `c`. */
  function Below(c: nat, n: nat, x: nat): (r: nat)
    requires c < n
  {
    (x + n - 1 - c) / n
  }

  lemma BelowStep(c: nat, n: nat, x: nat)
    requires c < n
    ensures Below(c, n, x + 1) == Below(c, n, x) + if x % n == c then 1 else 0
  {
    var q, r := x / n, x % n;
    assert x == q * n + r;
    if r < c {
      DivMod(x + n - 1 - c, n, q, r + n - 1 - c);
      DivMod(x + n - c, n, q, r + n - c);
    } else if r == c {
      DivMod(x + n - 1 - c, n, q, n - 1);
      assert x + n - c == (q + 1) * n;
      DivMod(x + n - c, n, q + 1, 0);
    } else {
      assert x + n - 1 - c == (q + 1) * n + (r - 1 - c);
      DivMod(x + n - 1 - c, n, q + 1, r - 1 - c);
      DivMod(x + n - c, n, q + 1, r - c);
    }
  }

  lemma {:induction false} TimesFirstIsBelow(c: nat, n: nat, start: nat, k: nat)
    requires c < n
    ensures TimesFirst(c, n, start, k) == Below(c, n, start + k) - Below(c, n, start)
  {
    if k > 0 {
      TimesFirstIsBelow(c, n, start, k - 1);
      BelowStep(c, n, start + k - 1);
    }
  }

  lemma DifferenceOfQuotients(a: nat, k: nat, n: nat)
    requires n > 0
    ensures k / n <= (a + k) / n - a / n <= (k + n - 1) / n
  {
    Bounds(a / n, a % n, k / n, k % n, n);
    assert a == (a / n) * n + a % n && k == (k / n) * n + k % n;
  }

  lemma Bounds(qa: nat, ra: nat, qk: nat, rk: nat, n: nat)
    requires ra < n && rk < n
    ensures var a, k := qa * n + ra, qk * n + rk;
            qk <= (a + k) / n - qa <= (k + n - 1) / n
  {
    SumOfQuotients(qa, ra, qk, rk, n);
    RoundedUp(qk, rk, n);
  }

  lemma SumOfQuotients(qa: nat, ra: nat, qk: nat, rk: nat, n: nat)
    requires ra < n && rk < n
    ensures var x := (qa * n + ra) + (qk * n + rk);
            x / n == qa + qk + if ra + rk < n then 0 else 1
  {
    var x := (qa * n + ra) + (qk * n + rk);
    assert x == (qa + qk) * n + (ra + rk);
    if ra + rk < n {
      DivMod(x, n, qa + qk, ra + rk);
    } else {
      assert (qa + qk + 1) * n == (qa + qk) * n + n;
      DivMod(x, n, qa + qk + 1, ra + rk - n);
    }
  }

  lemma RoundedUp(q: nat, r: nat, n: nat)
    requires r < n
    ensures (q * n + r + n - 1) / n == q + if r == 0 then 0 else 1
  {
    if r == 0 {
      DivMod(q * n + r + n - 1, n, q, n - 1);
    } else {
      assert (q + 1) * n == q * n + n;
      DivMod(q * n + r + n - 1, n, q + 1, r - 1);
    }
  }

  /** In any k calls within one turn of the counter, each of n connections comes first k/n times, rounded down or up. */
  lemma RoundRobinIsFair(c: nat, n: nat, start: nat, k: nat)
    requires c < n && start + k <= U32_LIMIT
    ensures k / n <= TimesFirst(c, n, start, k) <= (k + n - 1) / n
    ensures forall t: nat :: start <= t < start + k ==> t == t % U32_LIMIT
  {
    TimesFirstIsBelow(c, n, start, k);
    DifferenceOfQuotients(start + n - 1 - c, k, n);
  }

  lemma {:induction false} FirstCallFirst(c: nat, n: nat, start: nat, k: nat)
    requires n > 0 && k > 0
    ensures TimesFirst(c, n, start, k) == (if FirstAt(start, n) == c then 1 else 0) + TimesFirst(c, n, start + 1, k - 1)
  {
    if k > 1 { FirstCallFirst(c, n, start, k - 1); }
  }

  function AfterCall(index: u32): (next: u32)
  {
    (index + 1) % U32_LIMIT
  }

  /** The try orders of `k` calls in a row, from the given value of the counter on. */
  function Orders<T>(connections: seq<T>, index: u32, k: nat): (orders: seq<seq<T>>)
    requires connections != []
    decreases k
  {
    if k == 0 then []
    else [Rotated(connections, FirstAt(index, |connections|))] + Orders(connections, AfterCall(index), k - 1)
  }

  function CountFirst<T(==)>(orders: seq<seq<T>>, x: T): (n: nat)
  {
    if orders == [] then 0
    else (if orders[0] != [] && orders[0][0] == x then 1 else 0) + CountFirst(orders[1..], x)
  }

  lemma CountCons<T>(order: seq<T>, rest: seq<seq<T>>, x: T)
    ensures CountFirst([order] + rest, x) == (if order != [] && order[0] == x then 1 else 0) + CountFirst(rest, x)
  {
    assert ([order] + rest)[1..] == rest;
  }

  predicate Distinct<T(==)>(s: seq<T>)
  {
    forall i, j :: 0 <= i < j < |s| ==> s[i] != s[j]
  }

  lemma FirstOfRotated<T>(s: seq<T>, k: nat, c: nat)
    requires k < |s| && c < |s| && Distinct(s)
    ensures Rotated(s, k) != [] && (Rotated(s, k)[0] == s[c] <==> k == c)
  {
    assert Rotated(s, k)[0] == s[k];
  }

  lemma {:induction false} CountIsTimesFirst<T>(connections: seq<T>, c: nat, index: u32, k: nat)
    requires c < |connections| && index + k <= U32_LIMIT && Distinct(connections)
    ensures CountFirst(Orders(connections, index, k), connections[c]) == TimesFirst(c, |connections|, index, k)
    decreases k
  {
    hide Rotated, Distinct, TimesFirst, CountFirst, FirstAt;
    if k == 0 {
      NoCalls(connections[c], c, |connections|, index);
    } else {
      var n := |connections|;
      FirstOfRotated(connections, FirstAt(index, n), c);
      CountCons(Rotated(connections, FirstAt(index, n)), Orders(connections, AfterCall(index), k - 1), connections[c]);
      FirstCallFirst(c, n, index, k);
      if k == 1 {
        NoCalls(connections[c], c, n, index + 1);
      } else {
        CountIsTimesFirst(connections, c, index + 1, k - 1);
      }
    }
  }

  lemma NoCalls<T>(x: T, c: nat, n: nat, start: nat)
    requires n > 0
    ensures CountFirst([], x) == 0 == TimesFirst(c, n, start, 0)
  {}

  /**
   In any k calls in a row that do not cross the wrap of the counter, each of n connections is the first
   to try k/n times, rounded down or up.
   */
  lemma CallsAreFair<T>(connections: seq<T>, c: nat, index: u32, k: nat)
    requires c < |connections| && index + k <= U32_LIMIT && Distinct(connections)
    ensures var n := |connections|;
            k / n <= CountFirst(Orders(connections, index, k), connections[c]) <= (k + n - 1) / n
  {
    CountIsTimesFirst(connections, c, index, k);
    RoundRobinIsFair(c, |connections|, index, k);
  }

  /** When the counter wraps, the rotation goes on undisturbed exactly when the number of connections divides 2^32. */
  lemma WrapKeepsRotationIff(n: nat)
    requires n > 0
    ensures (forall t: nat :: (t % U32_LIMIT) % n == t % n) <==> U32_LIMIT % n == 0
  {
    if U32_LIMIT % n == 0 {
      forall t: nat ensures (t % U32_LIMIT) % n == t % n {
        var m := U32_LIMIT / n;
        var q, r := t / U32_LIMIT, t % U32_LIMIT;
        assert t == (q * m + r / n) * n + r % n by { assert U32_LIMIT == m * n; }
        DivMod(t, n, q * m + r / n, r % n);
      }
    } else {
      var t: nat := U32_LIMIT;
      assert (t % U32_LIMIT) % n == 0;
    }
  }

  // ---- the manager ------------------------------------------------------------------------

  class SmscConnectionManager<Connection(==)> {
    var connections: seq<Connection>
    var index: u32
    const algorithm: Algorithm

    constructor (algorithm: Algorithm)
      ensures this.algorithm == algorithm && connections == [] && index == 0
    {
      this.algorithm := algorithm;
      connections, index := [], 0;
    }

    method AddConnection(c: Connection)
      modifies this`connections
      ensures connections == old(connections) + [c]
    {
      connections := connections + [c];
    }

    /** The position that comes first. */
    function First(): (k: nat)
      reads this
      requires connections != []
      ensures k < |connections|
    {
      if algorithm.RoundRobin? then FirstAt(index, |connections|) else 0
    }

    /** The connections in the order to try; no result where the remainder by zero panics. */
    method GetConnections() returns (order: Option<seq<Connection>>)
      modifies this`index
      ensures order.None? <==> algorithm.RoundRobin? && connections == []
      ensures index == if algorithm.RoundRobin? then AfterCall(old(index)) else old(index)
      ensures order.Some? ==> order.value == if connections == [] then [] else Rotated(connections, old(First()))
      ensures order.Some? ==> |order.value| == |connections| && forall k :: 0 <= k < |connections| ==>
                                order.value[k] == Nth(connections, algorithm, old(index), k)
    {
      hide Rotated, Nth;
      var n := |connections|;
      var start := 0;
      if algorithm.RoundRobin? {
        var taken := index;
        index := (index + 1) % U32_LIMIT;
        if n == 0 { return None; }
        start := taken % n;
      }
      var result: seq<Connection> := [];
      var i := 0;
      while i < n
        invariant i <= n && index == if algorithm.RoundRobin? then (old(index) + 1) % U32_LIMIT else old(index)
        invariant n > 0 ==> start == old(First()) && result == Rotated(connections, start)[..i]
        invariant n == 0 ==> result == []
      {
        RotatedAt(connections, start, i);
        result := result + [connections[(start + i) % n]];
        i := i + 1;
      }
      order := Some(result);
      if n > 0 { NthOfRotated(connections, algorithm, old(index)); }
    }

    /**
     Tries the connections one after the other until one answers. The tried ones are a prefix of the
     order; an answer is that of the last one tried, and none before it answered.
     */
    method SendMessage(attempt: Connection -> Attempt) returns (result: Result, tried: seq<Connection>)
      modifies this`index
      ensures result.Panicked? <==> algorithm.RoundRobin? && connections == []
      ensures result.NoConnections? <==> algorithm.InOrder? && connections == []
      ensures connections == [] ==> tried == []
      ensures multiset(tried) <= multiset(connections)
      ensures connections != [] ==>
                && |tried| <= |connections| && tried == Rotated(connections, old(First()))[..|tried|]
                && (forall k :: 0 <= k < |tried| ==> tried[k] == Nth(connections, algorithm, old(index), k))
                && (forall j :: 0 <= j < |tried| - 1 ==> !attempt(tried[j]).Response?)
                && (result.Answered? ==> |tried| > 0 && attempt(tried[|tried| - 1]) == Response(result.m))
                && (result.AllFailed? ==> |tried| == |connections| && forall c <- connections :: !attempt(c).Response?)
      ensures index == if algorithm.RoundRobin? then AfterCall(old(index)) else old(index)
    {
      hide Rotated, FirstAt;
      var order := GetConnections();
      if order.None? { return Panicked, []; }
      if order.value == [] { return NoConnections, []; }
      result, tried := TryInOrder(order.value, attempt);
      SameElements(connections, order.value);
    }
  }

  lemma SameElements<T>(a: seq<T>, b: seq<T>)
    requires multiset(a) == multiset(b)
    ensures forall x :: x in a <==> x in b
  {
    forall x ensures x in a <==> x in b { assert x in multiset(a) <==> x in multiset(b); }
  }

  /** The connections one after the other, until one answers. */
  method TryInOrder<Connection(==)>(order: seq<Connection>, attempt: Connection -> Attempt)
    returns (result: Result, tried: seq<Connection>)
    ensures |tried| <= |order| && tried == order[..|tried|] && multiset(tried) <= multiset(order)
    ensures forall j :: 0 <= j < |tried| - 1 ==> !attempt(tried[j]).Response?
    ensures result.Answered? || result.AllFailed?
    ensures result.Answered? ==> |tried| > 0 && attempt(tried[|tried| - 1]) == Response(result.m)
    ensures result.AllFailed? ==> tried == order && forall c <- order :: !attempt(c).Response?
  {
    tried := [];
    var j := 0;
    while j < |order|
      invariant j <= |order| && tried == order[..j]
      invariant forall c <- tried :: !attempt(c).Response?
    {
      var c := order[j];
      tried := tried + [c];
      j := j + 1;
      PrefixIsPart(order, j);
      if attempt(c).Response? { return Answered(attempt(c).m), tried; }
    }
    assert tried == order;
    result := AllFailed;
  }
}
