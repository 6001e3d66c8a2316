/**
 Transaction mode: a forwarded message and the waiter for its deliver_sm_resp, as interleaved steps.
 The waiter is registered only after the message went out, and its select may take an elapsed timer
 although the response is there.
 */
module Transactions {
  import opened Bytes
  import opened Values
  import opened Correlation
  import opened StatusCodes

  datatype WaitPhase =
    | Forwarding                            // the message goes out; nobody is registered yet
    | Awaiting
    | Elapsed                               // the timer branch was taken; the entry is still to be removed
    | Resolved(answer: Option<Response>)

  datatype Waiter = Waiter(phase: WaitPhase, channel: Channel)

  datatype Table = Table(taken: nat, waiters: map<nat, Waiter>, transactions: map<u32, nat>)

  const NOBODY := Table(0, map[], map[])

  datatype Move =
    | Forward                 // a message is forwarded under the next number
    | TakeNumber              // the number goes to something that does not wait
    | Enter(index: nat)
    | Arrive(response: Response)
    | Wake(index: nat)
    | TimeOut(index: nat)
    | Forget(index: nat)      // the timed-out waiter removes the entry of its number

  predicate At(t: Table, i: nat, p: WaitPhase)
  {
    i in t.waiters && t.waiters[i].phase == p
  }

  predicate CanMove(t: Table, m: Move)
  {
    match m
    case Forward => true
    case TakeNumber => true
    case Enter(i) => At(t, i, Forwarding)
    case Arrive(_) => true
    case Wake(i) => At(t, i, Awaiting) && !t.waiters[i].channel.Empty?
    case TimeOut(i) => At(t, i, Awaiting)
    case Forget(i) => At(t, i, Elapsed)
  }

  function AtPhase(t: Table, i: nat, p: WaitPhase): (r: Table)
    requires i in t.waiters
  {
    t.(waiters := t.waiters[i := t.waiters[i].(phase := p)])
  }

  function Deliver(ws: map<nat, Waiter>, i: nat, c: Channel): (r: map<nat, Waiter>)
  {
    if i in ws && ws[i].channel.Empty? then ws[i := ws[i].(channel := c)] else ws
  }

  function Next(t: Table, m: Move): (r: Table)
    requires CanMove(t, m)
  {
    match m
    case Forward => t.(taken := t.taken + 1, waiters := t.waiters[t.taken := Waiter(Forwarding, Empty)])
    case TakeNumber => t.(taken := t.taken + 1)
    case Enter(i) =>
      var n := NumberOf(i);
      var displaced := if n in t.transactions then Deliver(t.waiters, t.transactions[n], Closed) else t.waiters;
      AtPhase(t.(waiters := displaced, transactions := t.transactions[n := i]), i, Awaiting)
    case Arrive(r) =>
      if r.number !in t.transactions then t
      else t.(waiters := Deliver(t.waiters, t.transactions[r.number], Full(r)),
              transactions := t.transactions - {r.number})
    case Wake(i) =>
      var c := t.waiters[i].channel;
      AtPhase(t, i, Resolved(if c.Full? then Some(c.response) else None))
    case TimeOut(i) => AtPhase(t, i, Elapsed)
    case Forget(i) => AtPhase(t.(transactions := t.transactions - {NumberOf(i)}), i, Resolved(None))
  }

  function Moves(t: Table, ms: seq<Move>): (r: Option<Table>)
    decreases |ms|
  {
    if ms == [] then Some(t)
    else if !CanMove(t, ms[0]) then None
    else Moves(Next(t, ms[0]), ms[1..])
  }

  // ---- what every move keeps --------------------------------------------------------------

  /** An entry belongs to an unresolved waiter of its number; channels hold responses of that number. */
  ghost predicate TableSound(t: Table)
  {
    && (forall i <- t.waiters :: i < t.taken)
    && (forall n <- t.transactions ::
          var i := t.transactions[n];
          && i in t.waiters && NumberOf(i) == n
          && (t.waiters[i].phase.Awaiting? || t.waiters[i].phase.Elapsed?)
          && t.waiters[i].channel.Empty?)
    && (forall i <- t.waiters ::
          var w := t.waiters[i];
          && (w.channel.Full? ==> w.channel.response.number == NumberOf(i))
          && (w.phase.Forwarding? ==> w.channel.Empty?)
          && (w.phase.Resolved? && w.phase.answer.Some? ==> w.phase.answer.value.number == NumberOf(i)))
  }

  lemma NextIsSound(t: Table, m: Move)
    requires TableSound(t) && CanMove(t, m)
    ensures TableSound(Next(t, m))
  {
    hide NumberOf;
  }

  lemma {:induction false} MovesAreSound(t: Table, ms: seq<Move>)
    requires TableSound(t) && Moves(t, ms).Some?
    ensures TableSound(Moves(t, ms).value)
    decreases |ms|
  {
    hide TableSound, CanMove, Next;
    if ms != [] {
      NextIsSound(t, ms[0]);
      MovesAreSound(Next(t, ms[0]), ms[1..]);
    }
  }

  /** Fewer than 2^32 numbers taken since the waiter's and since that of every unresolved waiter. */
  predicate WithinWindow(t: Table, i: nat)
  {
    && t.taken - i <= U32_LIMIT
    && forall j <- t.waiters :: !t.waiters[j].phase.Resolved? ==> t.taken - j <= U32_LIMIT
  }

  /**
   On every interleaving a resolved waiter holds a response of its own number or none, and its entry is
   gone; while fewer than 2^32 numbers were taken since, so is any entry of its number.
   */
  lemma ResolvedIsOver(ms: seq<Move>, i: nat)
    requires Moves(NOBODY, ms).Some?
    requires var t := Moves(NOBODY, ms).value; i in t.waiters && t.waiters[i].phase.Resolved?
    ensures var t := Moves(NOBODY, ms).value;
            && (t.waiters[i].phase.answer.Some? ==> t.waiters[i].phase.answer.value.number == NumberOf(i))
            && (forall n <- t.transactions :: t.transactions[n] != i)
            && (WithinWindow(t, i) ==> NumberOf(i) !in t.transactions)
  {
    hide Moves, NumberOf;
    MovesAreSound(NOBODY, ms);
    var t := Moves(NOBODY, ms).value;
    if NumberOf(i) in t.transactions && t.taken - i <= U32_LIMIT {
      var j := t.transactions[NumberOf(i)];
      if t.taken - j <= U32_LIMIT { NumbersDiffer(i, j, t.taken); }
    }
  }

  /** A waiter resolves once: nothing changes a resolved one. */
  lemma {:induction false} ResolvedStays(t: Table, ms: seq<Move>, i: nat, a: Option<Response>)
    requires TableSound(t) && At(t, i, Resolved(a)) && Moves(t, ms).Some?
    ensures At(Moves(t, ms).value, i, Resolved(a))
    decreases |ms|
  {
    hide TableSound, CanMove, Next;
    if ms != [] {
      NextIsSound(t, ms[0]);
      ResolvedStep(t, ms[0], i, a);
      ResolvedStays(Next(t, ms[0]), ms[1..], i, a);
    }
  }

  lemma ResolvedStep(t: Table, m: Move, i: nat, a: Option<Response>)
    requires TableSound(t) && At(t, i, Resolved(a)) && CanMove(t, m)
    ensures At(Next(t, m), i, Resolved(a))
  {
    hide NumberOf;
  }

  /** Moves an unresolved waiter still has to make. */
  function Remaining(t: Table, i: nat): (n: nat)
    requires i in t.waiters
  {
    match t.waiters[i].phase
    case Forwarding => 3
    case Awaiting => 2
    case Elapsed => 1
    case Resolved(_) => 0
  }

  /** Every waiter resolves: until then it has a move of its own, and no move of others sets it back. */
  lemma WaiterProgresses(t: Table, i: nat, m: Move)
    requires TableSound(t) && i in t.waiters && CanMove(t, m)
    ensures !t.waiters[i].phase.Resolved? ==>
              exists own :: CanMove(t, own) && Remaining(Next(t, own), i) < Remaining(t, i)
    ensures i in Next(t, m).waiters && Remaining(Next(t, m), i) <= Remaining(t, i)
  {
    hide NumberOf;
    var own := match t.waiters[i].phase
      case Forwarding => Enter(i) case Awaiting => TimeOut(i) case Elapsed => Forget(i) case Resolved(_) => TakeNumber;
    assert CanMove(t, own);
    assert !t.waiters[i].phase.Resolved? ==> Remaining(Next(t, own), i) < Remaining(t, i);
  }

  // ---- what an answer proves --------------------------------------------------------------

  predicate HasAnswer(t: Table, i: nat, r: Response)
  {
    i in t.waiters && (t.waiters[i].channel == Full(r) || t.waiters[i].phase == Resolved(Some(r)))
  }

  lemma OnlyArrivalFills(t: Table, m: Move, i: nat, r: Response)
    requires CanMove(t, m) && !HasAnswer(t, i, r) && m != Arrive(r)
    ensures !HasAnswer(Next(t, m), i, r)
  {
    hide NumberOf;
  }

  lemma {:induction false} AnswerArrived(t: Table, ms: seq<Move>, i: nat, r: Response)
    requires Moves(t, ms).Some? && !HasAnswer(t, i, r) && HasAnswer(Moves(t, ms).value, i, r)
    ensures Arrive(r) in ms
    decreases |ms|
  {
    hide CanMove, Next, HasAnswer;
    if ms != [] && ms[0] != Arrive(r) {
      OnlyArrivalFills(t, ms[0], i, r);
      AnswerArrived(Next(t, ms[0]), ms[1..], i, r);
    }
  }

  predicate NotEntered(t: Table, i: nat)
  {
    i in t.waiters ==> t.waiters[i].phase.Forwarding?
  }

  lemma BeforeEntering(t: Table, m: Move, i: nat, r: Response)
    requires TableSound(t) && NotEntered(t, i) && CanMove(t, m)
    ensures m != Enter(i) ==> NotEntered(Next(t, m), i)
    ensures !HasAnswer(t, i, r)
    ensures m == Enter(i) ==> !HasAnswer(Next(t, m), i, r)
  {
    hide NumberOf;
  }

  /** An answer arrived after its waiter was registered; a response that is quicker than that is lost. */
  lemma {:induction false} AnswerArrivedAfterEntering(t: Table, ms: seq<Move>, i: nat, r: Response)
    requires TableSound(t) && NotEntered(t, i)
    requires Moves(t, ms).Some? && HasAnswer(Moves(t, ms).value, i, r)
    ensures exists j, k :: 0 <= j < k < |ms| && ms[j] == Enter(i) && ms[k] == Arrive(r)
    decreases |ms|
  {
    hide NumberOf, CanMove, Next, TableSound, HasAnswer, NotEntered;
    BeforeEntering(t, TakeNumber, i, r) by { assert CanMove(t, TakeNumber) by { Always(t); } }
    assert ms != [];
    var t' := Next(t, ms[0]);
    NextIsSound(t, ms[0]);
    BeforeEntering(t, ms[0], i, r);
    if ms[0] == Enter(i) {
      AnswerArrived(t', ms[1..], i, r);
      var k :| 0 <= k < |ms| - 1 && ms[1..][k] == Arrive(r);
      assert ms[k + 1] == Arrive(r);
    } else {
      AnswerArrivedAfterEntering(t', ms[1..], i, r);
      var j, k :| 0 <= j < k < |ms| - 1 && ms[1..][j] == Enter(i) && ms[1..][k] == Arrive(r);
      assert ms[j + 1] == Enter(i) && ms[k + 1] == Arrive(r);
    }
  }

  lemma Always(t: Table)
    ensures CanMove(t, TakeNumber)
  {}

  // ---- when an acknowledgement reaches its waiter -----------------------------------------

  /** Fewer than 2^32 numbers taken since that of every unresolved waiter. */
  ghost predicate InWindow(t: Table)
  {
    forall j <- t.waiters :: !t.waiters[j].phase.Resolved? ==> t.taken - j <= U32_LIMIT
  }

  /** Every registered waiter without an answer is found under its number. */
  ghost predicate Found(t: Table)
  {
    forall i <- t.waiters :: t.waiters[i].phase.Awaiting? || t.waiters[i].phase.Elapsed? ==>
      && !t.waiters[i].channel.Closed?
      && (t.waiters[i].channel.Empty? ==> NumberOf(i) in t.transactions && t.transactions[NumberOf(i)] == i)
  }

  lemma NextFinds(t: Table, m: Move)
    requires TableSound(t) && Found(t) && InWindow(t) && CanMove(t, m)
    ensures Found(Next(t, m))
  {
    hide NumberOf;
    forall i <- t.waiters, j <- t.waiters | !t.waiters[i].phase.Resolved? && !t.waiters[j].phase.Resolved?
      ensures NumberOf(i) == NumberOf(j) ==> i == j
    {
      NumbersDiffer(i, j, t.taken);
    }
  }

  /** The window holds at every table of a run but perhaps the last. */
  ghost predicate WindowMoves(t: Table, ms: seq<Move>)
    requires Moves(t, ms).Some?
    decreases |ms|
  {
    ms != [] ==> InWindow(t) && WindowMoves(Next(t, ms[0]), ms[1..])
  }

  lemma {:induction false} MovesFind(t: Table, ms: seq<Move>)
    requires TableSound(t) && Found(t) && Moves(t, ms).Some? && WindowMoves(t, ms)
    ensures Found(Moves(t, ms).value)
    decreases |ms|
  {
    hide TableSound, Found, InWindow, CanMove, Next;
    if ms != [] {
      NextIsSound(t, ms[0]);
      NextFinds(t, ms[0]);
      MovesFind(Next(t, ms[0]), ms[1..]);
    }
  }

  lemma ArrivalReachesIff(t: Table, i: nat, r: Response)
    requires TableSound(t) && Found(t) && i in t.waiters && r.number == NumberOf(i)
    requires t.waiters[i].channel.Empty? && (t.waiters[i].phase.Forwarding? || t.waiters[i].phase.Awaiting?)
    ensures HasAnswer(Next(t, Arrive(r)), i, r) <==> t.waiters[i].phase.Awaiting?
  {
    hide NumberOf;
  }

  /**
   On every interleaving within the window, an acknowledgement reaches its waiter exactly when the
   waiter is registered by then.
   */
  lemma AcknowledgementReachesIff(ms: seq<Move>, i: nat, r: Response)
    requires Moves(NOBODY, ms).Some? && WindowMoves(NOBODY, ms)
    requires var t := Moves(NOBODY, ms).value;
             && i in t.waiters && r.number == NumberOf(i) && t.waiters[i].channel.Empty?
             && (t.waiters[i].phase.Forwarding? || t.waiters[i].phase.Awaiting?)
    ensures var t := Moves(NOBODY, ms).value;
            HasAnswer(Next(t, Arrive(r)), i, r) <==> t.waiters[i].phase.Awaiting?
  {
    hide Moves, WindowMoves, HasAnswer, Next;
    MovesAreSound(NOBODY, ms);
    MovesFind(NOBODY, ms);
    ArrivalReachesIff(Moves(NOBODY, ms).value, i, r);
  }

  predicate Holding(t: Table, i: nat, r: Response)
  {
    i in t.waiters && (t.waiters[i] == Waiter(Awaiting, Full(r)) || t.waiters[i].phase == Resolved(Some(r)))
  }

  lemma HoldingStep(t: Table, m: Move, i: nat, r: Response)
    requires TableSound(t) && Holding(t, i, r) && CanMove(t, m) && m != TimeOut(i)
    ensures Holding(Next(t, m), i, r)
  {
    hide NumberOf;
  }

  /** Once there, the answer is what the waiter resolves with, unless its timer branch is taken. */
  lemma {:induction false} AnswerStays(t: Table, ms: seq<Move>, i: nat, r: Response)
    requires TableSound(t) && Holding(t, i, r) && Moves(t, ms).Some? && TimeOut(i) !in ms
    ensures Holding(Moves(t, ms).value, i, r)
    decreases |ms|
  {
    hide TableSound, Holding, CanMove, Next;
    if ms != [] {
      NextIsSound(t, ms[0]);
      HoldingStep(t, ms[0], i, r);
      AnswerStays(Next(t, ms[0]), ms[1..], i, r);
    }
  }

  // ---- the status that is reported --------------------------------------------------------

  /** The status reported for a waiter's answer. */
  function StatusOf(answer: Option<Response>): (status: u32)
  {
    match answer
    case None => ESME_RSUBMITFAIL
    case Some(r) =>
      if CommandStatus in r.message && AsU64(r.message[CommandStatus]).Some?
      then AsU64(r.message[CommandStatus]).value % U32_LIMIT else ESME_RUNKNOWNERR
  }

  /** Success is reported only for a response with status 0 and the forwarded number that arrived after registration. */
  lemma SuccessWasAcknowledged(ms: seq<Move>, i: nat, answer: Option<Response>)
    requires Moves(NOBODY, ms).Some? && At(Moves(NOBODY, ms).value, i, Resolved(answer))
    requires StatusOf(answer) == ESME_ROK
    ensures answer.Some? && answer.value.number == NumberOf(i)
    ensures CommandStatus in answer.value.message && NumberOr0(answer.value.message, CommandStatus) % U32_LIMIT == 0
    ensures exists j, k :: 0 <= j < k < |ms| && ms[j] == Enter(i) && ms[k] == Arrive(answer.value)
  {
    hide Moves, NumberOf;
    MovesAreSound(NOBODY, ms);
    AnswerArrivedAfterEntering(NOBODY, ms, i, answer.value);
  }

  // ---- the manager ------------------------------------------------------------------------

  class TransactionResponseManager {
    var transactions: map<u32, OneShot>

    constructor ()
      ensures transactions == map[]
    {
      transactions := map[];
    }

    ghost predicate Valid()
      reads this
    {
      forall n <- transactions, k <- transactions :: n != k ==> transactions[n] != transactions[k]
    }

    method ResponseReceived(n: u32, r: Response)
      requires Valid()
      modifies this, transactions.Values
      ensures Valid() && transactions == old(transactions) - {n}
      ensures forall k <- old(transactions) ::
                old(transactions)[k].channel == if k == n && old(transactions[k].channel).Empty? then Full(r)
                                                else old(transactions[k].channel)
    {
      if n in transactions {
        transactions[n].Put(Full(r));
        transactions := transactions - {n};
      }
    }

    /** The part of a wait up to the select. */
    method BeginWait(n: u32) returns (receiver: OneShot)
      requires Valid()
      modifies this, transactions.Values
      ensures Valid() && fresh(receiver) && receiver.channel == Empty
      ensures transactions == old(transactions)[n := receiver]
      ensures forall k <- old(transactions) ::
                old(transactions)[k].channel == if k == n && old(transactions[k].channel).Empty? then Closed
                                                else old(transactions[k].channel)
    {
      receiver := new OneShot();
      if n in transactions { transactions[n].Put(Closed); }
      transactions := transactions[n := receiver];
    }

    /** The select and what follows it, with the branch it takes when both are ready left open. */
    method EndWait(n: u32, receiver: OneShot, timeout: bool) returns (answer: Option<Response>)
      requires timeout || !receiver.channel.Empty?
      modifies this
      ensures timeout ==> answer.None? && transactions == old(transactions) - {n}
      ensures !timeout ==> transactions == old(transactions)
                           && answer == if receiver.channel.Full? then Some(receiver.channel.response) else None
    {
      if timeout {
        transactions := transactions - {n};
        answer := None;
      } else {
        answer := if receiver.channel.Full? then Some(receiver.channel.response) else None;
      }
    }
  }
}
