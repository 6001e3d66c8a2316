/**
 Requests and their responses on one SMSC connection: senders, the reader and timeouts as interleaved
 steps. A sender holds the writer from before its write until its response or timeout; the reader needs
 the writer as well, for its own replies.
 */
module Correlation {
  import opened Bytes
  import opened Values

  /** The number a PDU carries for the allocation with the given index: the counter wraps at 32 bits. */
  function NumberOf(index: nat): (n: u32)
  {
    index % U32_LIMIT
  }

  datatype Response = Response(number: u32, message: Message)

  /** The one-shot channel of a sender. */
  datatype Channel = Empty | Full(response: Response) | Closed

  datatype Outcome = Answered(response: Response) | TimedOut | Failed

  datatype Phase = Allocated | Registered | Writing | Waiting | Finished(outcome: Outcome)

  datatype Sender = Sender(phase: Phase, channel: Channel)

  /** The reader handles messages one by one; while it wants to write it handles none. */
  datatype Reader = Reading | WantsToWrite | Replying

  datatype Owner = NoOne | TheReader | TheSender(index: nat)

  /** Senders go by the index of their allocation; allocations are counted without wrapping. */
  datatype State = State(
    taken: nat,
    senders: map<nat, Sender>,
    callbacks: map<u32, nat>,
    owner: Owner,
    reader: Reader,
    connected: bool)

  const INITIAL := State(0, map[], map[], NoOne, Reading, false)

  datatype Event =
    | Allocate                        // a request is built, with the next number
    | AllocateElsewhere               // another connection or an enquire_link takes a number
    | Register(index: nat)            // its callback is registered
    | Lock(index: nat)                // it obtains the writer
    | Write(index: nat, sent: bool)   // it writes, or fails to
    | Receive(response: Response)     // the reader hands over a response
    | Complete(index: nat)            // the sender wakes up with what its channel holds
    | Expire(index: nat)              // the sender's timer elapses
    | MustReply                       // the reader has something to write
    | ReaderLocks
    | ReaderWrote
    | Connect                         // a new connection puts a writer in place

  predicate In(s: State, i: nat, p: Phase)
  {
    i in s.senders && s.senders[i].phase == p
  }

  predicate Enabled(s: State, e: Event)
  {
    match e
    case Allocate => true
    case AllocateElsewhere => true
    case Register(i) => In(s, i, Allocated)
    case Lock(i) => In(s, i, Registered) && s.owner.NoOne?
    case Write(i, sent) => In(s, i, Writing) && (sent ==> s.connected)
    case Receive(_) => s.reader.Reading?
    case Complete(i) => In(s, i, Waiting) && !s.senders[i].channel.Empty?
    case Expire(i) => In(s, i, Waiting) && s.senders[i].channel.Empty?
    case MustReply => s.reader.Reading?
    case ReaderLocks => s.reader.WantsToWrite? && s.owner.NoOne?
    case ReaderWrote => s.reader.Replying?
    case Connect => s.owner.NoOne?
  }

  function WithPhase(s: State, i: nat, p: Phase): (r: State)
    requires i in s.senders
  {
    s.(senders := s.senders[i := s.senders[i].(phase := p)])
  }

  /** Sets a channel unless it was already closed or filled. */
  function WithChannel(senders: map<nat, Sender>, i: nat, c: Channel): (r: map<nat, Sender>)
  {
    if i in senders && senders[i].channel.Empty? then senders[i := senders[i].(channel := c)] else senders
  }

  function Step(s: State, e: Event): (r: State)
    requires Enabled(s, e)
  {
    match e
    case Allocate =>
      s.(taken := s.taken + 1, senders := s.senders[s.taken := Sender(Allocated, Empty)])
    case AllocateElsewhere => s.(taken := s.taken + 1)
    case Register(i) =>
      // inserting drops the sender registered before under the same number, which closes its channel
      var n := NumberOf(i);
      var displaced := if n in s.callbacks then WithChannel(s.senders, s.callbacks[n], Closed) else s.senders;
      WithPhase(s.(senders := displaced, callbacks := s.callbacks[n := i]), i, Registered)
    case Lock(i) => WithPhase(s.(owner := TheSender(i)), i, Writing)
    case Write(i, sent) =>
      if sent then WithPhase(s, i, Waiting) else WithPhase(s.(owner := NoOne), i, Finished(Failed))
    case Receive(r) =>
      if r.number !in s.callbacks then s
      else s.(senders := WithChannel(s.senders, s.callbacks[r.number], Full(r)), callbacks := s.callbacks - {r.number})
    case Complete(i) =>
      var c := s.senders[i].channel;
      WithPhase(s.(owner := NoOne), i, Finished(if c.Full? then Answered(c.response) else Failed))
    case Expire(i) => WithPhase(s.(owner := NoOne), i, Finished(TimedOut))
    case MustReply => s.(reader := WantsToWrite)
    case ReaderLocks => s.(owner := TheReader, reader := Replying)
    case ReaderWrote => s.(owner := NoOne, reader := Reading)
    case Connect => s.(connected := true)
  }

  // ---- what every step keeps --------------------------------------------------------------

  predicate HoldsWriter(s: State, i: nat)
  {
    i in s.senders && (s.senders[i].phase.Writing? || s.senders[i].phase.Waiting?)
  }

  /** Unfinished: taken, registered, writing or waiting. */
  predicate Pending(s: State, i: nat)
  {
    i in s.senders && !s.senders[i].phase.Finished?
  }

  predicate IsRegistered(s: State, i: nat)
  {
    Pending(s, i) && !s.senders[i].phase.Allocated?
  }

  /** The writer is held by the sender between its write and its completion, or by the reader, or by nobody. */
  ghost predicate Exclusive(s: State)
  {
    && (forall i :: HoldsWriter(s, i) <==> s.owner == TheSender(i))
    && (s.reader.Replying? <==> s.owner.TheReader?)
  }

  /** A callback belongs to a registered sender of its number. */
  ghost predicate CallbacksSound(s: State)
  {
    && (forall i <- s.senders :: i < s.taken)
    && (forall n <- s.callbacks :: s.callbacks[n] in s.senders && NumberOf(s.callbacks[n]) == n
                                   && !s.senders[s.callbacks[n]].phase.Allocated?)
  }

  /** Channels and outcomes carry responses of their sender's own number. */
  ghost predicate OwnResponses(s: State)
  {
    forall i <- s.senders ::
      var x := s.senders[i];
      && (x.channel.Full? ==> x.channel.response.number == NumberOf(i))
      && (x.phase.Allocated? ==> x.channel.Empty?)
      && (x.phase.Finished? && x.phase.outcome.Answered? ==> x.phase.outcome.response.number == NumberOf(i))
  }

  ghost predicate Invariant(s: State)
  {
    Exclusive(s) && CallbacksSound(s) && OwnResponses(s)
  }

  lemma StepKeeps(s: State, e: Event)
    requires Invariant(s) && Enabled(s, e)
    ensures Exclusive(Step(s, e))
    ensures CallbacksSound(Step(s, e))
    ensures OwnResponses(Step(s, e))
  {
    hide Step, Enabled, Exclusive, CallbacksSound, OwnResponses;
    StepKeepsExclusive(s, e);
    StepKeepsCallbacks(s, e);
    StepKeepsResponses(s, e);
  }

  lemma StepKeepsExclusive(s: State, e: Event)
    requires Exclusive(s) && CallbacksSound(s) && Enabled(s, e)
    ensures Exclusive(Step(s, e))
  {
    hide NumberOf;
    var s' := Step(s, e);
    assert e.Write? || e.Complete? || e.Expire? ==> HoldsWriter(s, e.index);
    forall i ensures HoldsWriter(s', i) <==> s'.owner == TheSender(i) {
      assert HoldsWriter(s, i) <==> s.owner == TheSender(i);
    }
  }

  lemma StepKeepsCallbacks(s: State, e: Event)
    requires CallbacksSound(s) && Enabled(s, e)
    ensures CallbacksSound(Step(s, e))
  {
    hide NumberOf;
  }

  lemma StepKeepsResponses(s: State, e: Event)
    requires CallbacksSound(s) && OwnResponses(s) && Enabled(s, e)
    ensures OwnResponses(Step(s, e))
  {
    hide NumberOf;
  }

  // ---- runs -------------------------------------------------------------------------------

  function Run(s: State, es: seq<Event>): (r: Option<State>)
    decreases |es|
  {
    if es == [] then Some(s)
    else if !Enabled(s, es[0]) then None
    else Run(Step(s, es[0]), es[1..])
  }

  lemma {:induction false} RunKeeps(s: State, es: seq<Event>)
    requires Invariant(s) && Run(s, es).Some?
    ensures Invariant(Run(s, es).value)
    decreases |es|
  {
    hide Invariant, Enabled, Step;
    if es != [] {
      StepKeeps(s, es[0]);
      assert Invariant(Step(s, es[0])) by { InvariantParts(Step(s, es[0])); }
      RunKeeps(Step(s, es[0]), es[1..]);
    }
  }

  lemma InvariantParts(s: State)
    requires Exclusive(s) && CallbacksSound(s) && OwnResponses(s)
    ensures Invariant(s)
  {}

  /**
   Over every interleaving: at most one sender is between write and completion, none while the reader
   replies, and a sender that succeeds has a response of its own number.
   */
  lemma EveryRunIsSafe(es: seq<Event>)
    requires Run(INITIAL, es).Some?
    ensures var s := Run(INITIAL, es).value;
            && (forall i, j :: HoldsWriter(s, i) && HoldsWriter(s, j) ==> i == j)
            && (forall i :: HoldsWriter(s, i) ==> !s.reader.Replying?)
            && (forall i <- s.senders :: s.senders[i].phase.Finished? && s.senders[i].phase.outcome.Answered?
                  ==> s.senders[i].phase.outcome.response.number == NumberOf(i))
  {
    hide Run, NumberOf;
    RunKeeps(INITIAL, es);
  }

  predicate HasResponse(s: State, i: nat, r: Response)
  {
    i in s.senders && (s.senders[i].channel == Full(r) || s.senders[i].phase == Finished(Answered(r)))
  }

  /** A response in a sender's hands was received while it was registered. */
  lemma {:induction false} ResponseWasReceived(s: State, es: seq<Event>, i: nat, r: Response)
    requires Run(s, es).Some? && !HasResponse(s, i, r) && HasResponse(Run(s, es).value, i, r)
    ensures Receive(r) in es
    decreases |es|
  {
    hide NumberOf;
    if es != [] && es[0] != Receive(r) {
      OnlyReceiveFills(s, es[0], i, r);
      ResponseWasReceived(Step(s, es[0]), es[1..], i, r);
    }
  }

  lemma OnlyReceiveFills(s: State, e: Event, i: nat, r: Response)
    requires Enabled(s, e) && !HasResponse(s, i, r) && e != Receive(r)
    ensures !HasResponse(Step(s, e), i, r)
  {
    hide NumberOf;
  }

  lemma {:induction false} ReceivedAfterRegistration(s: State, es: seq<Event>, i: nat, r: Response)
    requires Invariant(s) && (i in s.senders ==> s.senders[i].phase.Allocated?)
    requires Run(s, es).Some? && HasResponse(Run(s, es).value, i, r)
    ensures exists j, k :: 0 <= j < k < |es| && es[j] == Register(i) && es[k] == Receive(r)
    decreases |es|
  {
    hide NumberOf, Run, Step, Invariant;
    assert !HasResponse(s, i, r) by { UnregisteredHasNone(s, i, r); }
    assert es != [] by { RunUnfold(s, es); }
    RunUnfold(s, es);
    var s' := Step(s, es[0]);
    StepKeeps(s, es[0]);
    InvariantParts(s');
    if es[0] == Register(i) {
      UnregisteredHasNone'(s, i, r);
      ResponseWasReceived(s', es[1..], i, r);
      var k :| 0 <= k < |es| - 1 && es[1..][k] == Receive(r);
      assert es[k + 1] == Receive(r);
    } else {
      StaysUnregistered(s, es[0], i);
      ReceivedAfterRegistration(s', es[1..], i, r);
      var j, k :| 0 <= j < k < |es| - 1 && es[1..][j] == Register(i) && es[1..][k] == Receive(r);
      assert es[j + 1] == Register(i) && es[k + 1] == Receive(r);
    }
  }

  lemma RunUnfold(s: State, es: seq<Event>)
    requires Run(s, es).Some?
    ensures es == [] ==> Run(s, es) == Some(s)
    ensures es != [] ==> Enabled(s, es[0]) && Run(s, es) == Run(Step(s, es[0]), es[1..])
  {}

  lemma UnregisteredHasNone(s: State, i: nat, r: Response)
    requires Invariant(s) && (i in s.senders ==> s.senders[i].phase.Allocated?)
    ensures !HasResponse(s, i, r)
  {
    hide NumberOf;
  }

  lemma UnregisteredHasNone'(s: State, i: nat, r: Response)
    requires Invariant(s) && In(s, i, Allocated)
    ensures !HasResponse(Step(s, Register(i)), i, r)
  {
    hide NumberOf;
  }

  lemma StaysUnregistered(s: State, e: Event, i: nat)
    requires Enabled(s, e) && e != Register(i) && (i in s.senders ==> s.senders[i].phase.Allocated?)
    ensures i in Step(s, e).senders ==> Step(s, e).senders[i].phase.Allocated?
  {
    hide NumberOf;
  }

  // ---- how a request finishes -------------------------------------------------------------

  /**
   The outcome tells what happened: its timer elapsed, it woke up with the response its channel holds, or
   its write failed or its channel was closed under it.
   */
  lemma OutcomeTells(s: State, e: Event, i: nat, o: Outcome)
    requires Enabled(s, e) && Pending(s, i) && In(Step(s, e), i, Finished(o))
    ensures o.TimedOut? <==> e == Expire(i)
    ensures o.Answered? <==> e == Complete(i) && s.senders[i].channel.Full?
    ensures o.Answered? ==> s.senders[i].channel == Full(o.response)
    ensures o.Failed? <==> e == Write(i, false) || (e == Complete(i) && s.senders[i].channel.Closed?)
    ensures Step(s, e).owner.NoOne?
  {
    hide NumberOf;
  }

  // ---- the reader comes back --------------------------------------------------------------

  lemma Then(s: State, es: seq<Event>, e: Event)
    requires Run(s, es).Some? && Enabled(Run(s, es).value, e)
    ensures Run(s, es + [e]) == Some(Step(Run(s, es).value, e))
    decreases |es|
  {
    hide NumberOf, Step, Enabled;
    if es == [] {
      assert es + [e] == [e] && [e][1..] == es;
      assert Run(Step(s, e), es) == Some(Step(s, e));
    } else {
      assert (es + [e])[0] == es[0] && (es + [e])[1..] == es[1..] + [e];
      Then(Step(s, es[0]), es[1..], e);
    }
  }

  /** Whoever holds the writer can let go of it by itself. */
  lemma HolderLetsGo(s: State) returns (es: seq<Event>)
    requires Invariant(s)
    ensures Run(s, es).Some? && Run(s, es).value.owner.NoOne?
    ensures Run(s, es).value.reader == if s.reader.Replying? then Reading else s.reader
    ensures forall e <- es :: e.ReaderLocks? || e.ReaderWrote? || e.Write? || e.Expire? || e.Complete?
  {
    hide NumberOf;
    es := [];
    assert Run(s, es) == Some(s);
    match s.owner
    case NoOne =>
    case TheReader =>
      Then(s, es, ReaderWrote);
      es := es + [ReaderWrote];
    case TheSender(i) =>
      assert HoldsWriter(s, i);
      var e := if s.senders[i].phase.Writing? then Write(i, false)
               else if s.senders[i].channel.Empty? then Expire(i) else Complete(i);
      Then(s, es, e);
      es := es + [e];
  }

  /**
   From every state the reader can get back to reading with the writer free, without any message from the
   other side: a reply ends, and so does every request.
   */
  lemma ReaderComesBack(s: State) returns (es: seq<Event>)
    requires Invariant(s)
    ensures Run(s, es).Some? && Run(s, es).value.reader.Reading? && Run(s, es).value.owner.NoOne?
    ensures forall e <- es :: e.ReaderLocks? || e.ReaderWrote? || e.Write? || e.Expire? || e.Complete?
  {
    hide NumberOf, Invariant, Run;
    es := HolderLetsGo(s);
    var s1 := Run(s, es).value;
    if s1.reader.WantsToWrite? {
      Then(s, es, ReaderLocks);
      Then(s, es + [ReaderLocks], ReaderWrote);
      es := es + [ReaderLocks] + [ReaderWrote];
    } else {
      ReplyingOwns(s, es);
    }
  }

  lemma ReplyingOwns(s: State, es: seq<Event>)
    requires Invariant(s) && Run(s, es).Some? && Run(s, es).value.owner.NoOne?
    ensures !Run(s, es).value.reader.Replying?
  {
    hide Run;
    RunKeeps(s, es);
  }

  // ---- no response is lost ----------------------------------------------------------------

  /** Fewer than 2^32 allocations since the oldest unfinished request. */
  ghost predicate Window(s: State)
  {
    forall i <- s.senders :: Pending(s, i) ==> s.taken - i <= U32_LIMIT
  }

  /** Whoever is registered and unfinished has its response, or will be found under its number. */
  ghost predicate Routed(s: State)
  {
    forall i <- s.senders :: IsRegistered(s, i) ==>
      && !s.senders[i].channel.Closed?
      && (s.senders[i].channel.Empty? ==> NumberOf(i) in s.callbacks && s.callbacks[NumberOf(i)] == i)
  }

  lemma NumbersDiffer(i: nat, j: nat, taken: nat)
    requires i < taken && j < taken && taken - i <= U32_LIMIT && taken - j <= U32_LIMIT
    ensures NumberOf(i) == NumberOf(j) ==> i == j
  {}

  lemma StepRoutes(s: State, e: Event)
    requires Invariant(s) && Routed(s) && Window(s) && Enabled(s, e)
    ensures Routed(Step(s, e))
  {
    hide NumberOf, Exclusive;
    forall i, j | Pending(s, i) && Pending(s, j) ensures NumberOf(i) == NumberOf(j) ==> i == j {
      NumbersDiffer(i, j, s.taken);
    }
  }

  /** The window holds at every state of a run but perhaps the last. */
  ghost predicate WindowRun(s: State, es: seq<Event>)
    requires Run(s, es).Some?
    decreases |es|
  {
    es != [] ==> Window(s) && WindowRun(Step(s, es[0]), es[1..])
  }

  lemma {:induction false} RunRoutes(s: State, es: seq<Event>)
    requires Invariant(s) && Routed(s) && Run(s, es).Some? && WindowRun(s, es)
    ensures Routed(Run(s, es).value)
    decreases |es|
  {
    hide Invariant, Routed, Window, Enabled, Step;
    if es != [] {
      StepKeeps(s, es[0]);
      InvariantParts(Step(s, es[0]));
      StepRoutes(s, es[0]);
      RunRoutes(Step(s, es[0]), es[1..]);
    }
  }

  /** A channel that holds a response keeps it until the sender takes it. */
  predicate Settled(s: State, i: nat, r: Response)
  {
    i in s.senders
    && (s.senders[i] == Sender(Waiting, Full(r)) || s.senders[i].phase == Finished(Answered(r)))
  }

  lemma {:induction false} SettledStays(s: State, es: seq<Event>, i: nat, r: Response)
    requires CallbacksSound(s) && Exclusive(s) && OwnResponses(s) && Settled(s, i, r) && Run(s, es).Some?
    ensures Settled(Run(s, es).value, i, r)
    decreases |es|
  {
    hide Settled, Enabled, Step, Exclusive, CallbacksSound, OwnResponses;
    if es != [] {
      StepKeeps(s, es[0]) by { InvariantParts(s); }
      SettledStep(s, es[0], i, r);
      SettledStays(Step(s, es[0]), es[1..], i, r);
    }
  }

  lemma SettledStep(s: State, e: Event, i: nat, r: Response)
    requires CallbacksSound(s) && Settled(s, i, r) && Enabled(s, e)
    ensures Settled(Step(s, e), i, r)
  {
    hide NumberOf;
  }

  /**
   A response handled between a request's write and its timeout is never lost: within the window, on
   every run, the request can from then on only complete with it.
   */
  lemma NoResponseIsLost(before: seq<Event>, i: nat, r: Response, after: seq<Event>)
    requires Run(INITIAL, before).Some? && WindowRun(INITIAL, before)
    requires var s := Run(INITIAL, before).value;
             && In(s, i, Waiting) && s.senders[i].channel.Empty? && r.number == NumberOf(i)
             && Enabled(s, Receive(r)) && Run(Step(s, Receive(r)), after).Some?
    ensures Settled(Run(Step(Run(INITIAL, before).value, Receive(r)), after).value, i, r)
  {
    hide Run, NumberOf;
    var s := Run(INITIAL, before).value;
    RunKeeps(INITIAL, before);
    RunRoutes(INITIAL, before);
    StepKeeps(s, Receive(r));
    assert IsRegistered(s, i);
    SettledStays(Step(s, Receive(r)), after, i, r);
  }

  /** Beyond the window: registering a request displaces a waiting one exactly when a multiple of 2^32 lies between. */
  lemma DisplacedIff(s: State, i: nat, j: nat)
    requires Invariant(s) && Routed(s) && In(s, i, Allocated) && IsRegistered(s, j) && s.senders[j].channel.Empty?
    ensures Step(s, Register(i)).senders[j].channel.Closed? <==> (i - j) % U32_LIMIT == 0
  {
  }

  // ---- the reader waits for the writer ----------------------------------------------------

  /** A request awaits its response while the reader wants to write, or has finished without an answer. */
  predicate Starved(s: State, i: nat)
  {
    && i in s.senders
    && (if s.senders[i].phase.Finished? then !s.senders[i].phase.outcome.Answered?
        else s.senders[i].phase.Waiting? && !s.senders[i].channel.Full? && s.owner == TheSender(i)
             && s.reader.WantsToWrite?)
  }

  /**
   Once the reader has something to write while a request awaits its response, that request cannot
   succeed on any run: the reader waits for the writer the request holds and handles no response.
   */
  lemma {:induction false} ReplyStarvesRequest(s: State, es: seq<Event>, i: nat)
    requires Invariant(s) && Starved(s, i) && Run(s, es).Some?
    ensures Starved(Run(s, es).value, i)
    decreases |es|
  {
    hide Starved, Enabled, Step, Invariant;
    if es != [] {
      StepKeeps(s, es[0]);
      InvariantParts(Step(s, es[0]));
      StarvedStep(s, es[0], i);
      ReplyStarvesRequest(Step(s, es[0]), es[1..], i);
    }
  }

  lemma StarvedStep(s: State, e: Event, i: nat)
    requires Invariant(s) && Starved(s, i) && Enabled(s, e)
    ensures Starved(Step(s, e), i)
  {
    hide NumberOf;
    assert e.Write? || e.Complete? || e.Expire? ==> HoldsWriter(s, e.index);
  }

  ghost predicate CanSucceed(s: State, i: nat)
  {
    exists es, r :: Run(s, es).Some? && In(Run(s, es).value, i, Finished(Answered(r)))
  }

  /**
   A waiting request without its response can still succeed on some run exactly when the reader is
   reading, that is, has nothing to write itself.
   */
  lemma WaitingCanSucceedIff(s: State, i: nat)
    requires Invariant(s) && Routed(s) && In(s, i, Waiting) && s.senders[i].channel.Empty?
    ensures CanSucceed(s, i) <==> s.reader.Reading?
  {
    hide NumberOf, Run;
    if s.reader.Reading? {
      AnswerNow(s, i, Response(NumberOf(i), map[]));
    } else {
      assert HoldsWriter(s, i);
      assert Starved(s, i);
      forall es, r | Run(s, es).Some? ensures !In(Run(s, es).value, i, Finished(Answered(r))) {
        ReplyStarvesRequest(s, es, i);
      }
    }
  }

  lemma AnswerNow(s: State, i: nat, r: Response)
    requires Invariant(s) && Routed(s) && In(s, i, Waiting) && s.senders[i].channel.Empty? && s.reader.Reading?
    requires r.number == NumberOf(i)
    ensures var es := [Receive(r), Complete(i)]; Run(s, es).Some? && In(Run(s, es).value, i, Finished(Answered(r)))
  {
    hide NumberOf;
    assert IsRegistered(s, i);
    var s1 := Step(s, Receive(r));
    RunStep(s, Receive(r), [Complete(i)]);
    RunStep(s1, Complete(i), []);
  }

  /**
   On every run from the start within 2^32 allocations: a message to be acknowledged that arrives
   between a request and its response is exactly what keeps the request from succeeding.
   */
  lemma ArrivalDecidesSuccess(before: seq<Event>, i: nat)
    requires Run(INITIAL, before).Some? && WindowRun(INITIAL, before)
    requires var s := Run(INITIAL, before).value;
             In(s, i, Waiting) && s.senders[i].channel.Empty? && s.reader.Reading?
    ensures CanSucceed(Run(INITIAL, before).value, i)
    ensures !CanSucceed(Step(Run(INITIAL, before).value, MustReply), i)
  {
    hide Run, NumberOf, WindowRun, CanSucceed;
    var s := Run(INITIAL, before).value;
    RunKeeps(INITIAL, before);
    RunRoutes(INITIAL, before);
    WaitingCanSucceedIff(s, i);
    StepKeeps(s, MustReply);
    WaitingCanSucceedIff(Step(s, MustReply), i);
  }

  lemma RunStep(s: State, e: Event, es: seq<Event>)
    requires Enabled(s, e)
    ensures Run(s, [e] + es) == Run(Step(s, e), es)
  {
    assert ([e] + es)[1..] == es;
  }

  // ---- the wrap-around --------------------------------------------------------------------

  lemma {:induction false} RunConcat(s: State, a: seq<Event>, b: seq<Event>)
    requires Run(s, a).Some?
    ensures Run(s, a + b) == Run(Run(s, a).value, b)
    decreases |a|
  {
    hide Enabled, Step;
    if a == [] {
      assert a + b == b;
    } else {
      assert (a + b)[1..] == a[1..] + b;
      RunConcat(Step(s, a[0]), a[1..], b);
    }
  }

  function Elsewhere(n: nat): (es: seq<Event>)
  {
    if n == 0 then [] else [AllocateElsewhere] + Elsewhere(n - 1)
  }

  lemma {:induction false} RunElsewhere(s: State, n: nat)
    ensures Run(s, Elsewhere(n)) == Some(s.(taken := s.taken + n))
    decreases n
  {
    if n > 0 { RunElsewhere(Step(s, AllocateElsewhere), n - 1); }
  }

  /**
   After 2^32 allocations the number of a waiting request is given out again: the waiting request fails
   and the response to it goes to the other.
   */
  lemma WrapMisroutes(s: State, r: Response)
    requires In(s, 0, Waiting) && s.senders[0].channel.Empty? && s.taken == 1 && s.reader.Reading?
    requires s.callbacks == map[0 := 0] && r.number == 0
    ensures var es := Elsewhere(U32_LIMIT - 1) + [Allocate, Register(U32_LIMIT), Receive(r)];
            && Run(s, es).Some?
            && In(Run(s, es).value, 0, Waiting) && Run(s, es).value.senders[0].channel.Closed?
            && HasResponse(Run(s, es).value, U32_LIMIT, r)
  {
    hide Elsewhere;
    RunElsewhere(s, U32_LIMIT - 1);
    RunConcat(s, Elsewhere(U32_LIMIT - 1), [Allocate, Register(U32_LIMIT), Receive(r)]);
    var s1 := s.(taken := U32_LIMIT);
    var s2 := Step(s1, Allocate);
    assert NumberOf(U32_LIMIT) == 0;
    var s3 := Step(s2, Register(U32_LIMIT));
    RunStep(s1, Allocate, [Register(U32_LIMIT), Receive(r)]);
    RunStep(s2, Register(U32_LIMIT), [Receive(r)]);
    RunStep(s3, Receive(r), []);
  }

  const FIRST_REQUEST := [Connect, Allocate, Register(0), Lock(0), Write(0, true)]

  function Requesting(p: Phase, owner: Owner): (s: State)
  {
    State(1, map[0 := Sender(p, Empty)], if p.Allocated? then map[] else map[0 := 0], owner, Reading, true)
  }

  /** From the start, a first request gets to wait under number 0. */
  lemma FirstRequestWaits()
    ensures Run(INITIAL, FIRST_REQUEST) == Some(Requesting(Waiting, TheSender(0)))
  {
    hide Run;
    assert NumberOf(0) == 0;
    assert Step(INITIAL, Connect) == INITIAL.(connected := true);
    assert Step(INITIAL.(connected := true), Allocate) == Requesting(Allocated, NoOne);
    assert Step(Requesting(Allocated, NoOne), Register(0)) == Requesting(Registered, NoOne);
    assert Step(Requesting(Registered, NoOne), Lock(0)) == Requesting(Writing, TheSender(0));
    assert Step(Requesting(Writing, TheSender(0)), Write(0, true)) == Requesting(Waiting, TheSender(0));
    var e4 := [Write(0, true)] + [];
    var e3 := [Lock(0)] + [Write(0, true)];
    var e2 := [Register(0)] + [Lock(0), Write(0, true)];
    var e1 := [Allocate] + [Register(0), Lock(0), Write(0, true)];
    assert FIRST_REQUEST == [Connect] + e1 && e1 == [Allocate] + e2 && e2 == [Register(0)] + e3 && e3 == [Lock(0)] + e4;
    RunStep(INITIAL, Connect, e1);
    RunStep(INITIAL.(connected := true), Allocate, e2);
    RunStep(Requesting(Allocated, NoOne), Register(0), e3);
    RunStep(Requesting(Registered, NoOne), Lock(0), e4);
    RunStep(Requesting(Writing, TheSender(0)), Write(0, true), []);
    RunNothing(Requesting(Waiting, TheSender(0)));
  }

  lemma RunNothing(s: State)
    ensures Run(s, []) == Some(s)
  {}

  /** The whole run from the start. */
  lemma WrapIsReachable(r: Response)
    requires r.number == 0
    ensures var es := FIRST_REQUEST + (Elsewhere(U32_LIMIT - 1) + [Allocate, Register(U32_LIMIT), Receive(r)]);
            && Run(INITIAL, es).Some?
            && In(Run(INITIAL, es).value, 0, Waiting) && Run(INITIAL, es).value.senders[0].channel.Closed?
            && HasResponse(Run(INITIAL, es).value, U32_LIMIT, r)
  {
    hide Run, Elsewhere, HasResponse;
    FirstRequestWaits();
    WrapMisroutes(Requesting(Waiting, TheSender(0)), r);
    RunConcat(INITIAL, FIRST_REQUEST, Elsewhere(U32_LIMIT - 1) + [Allocate, Register(U32_LIMIT), Receive(r)]);
  }

  // ---- the shared objects -----------------------------------------------------------------

  /** A shared counter; `total` counts what the 32-bit counter wraps. */
  class SequenceNumberAllocator {
    var current: u32
    ghost var total: nat

    ghost predicate Valid()
      reads this
    {
      current == NumberOf(total)
    }

    constructor ()
      ensures Valid() && total == 0
    {
      current := 0;
      total := 0;
    }

    method Next() returns (n: u32)
      requires Valid()
      modifies this
      ensures Valid() && total == old(total) + 1
      ensures n == NumberOf(old(total))
    {
      n := current;
      current := (current + 1) % U32_LIMIT;
      total := total + 1;
    }
  }

  class OneShot {
    var channel: Channel

    constructor ()
      ensures channel == Empty
    {
      channel := Empty;
    }

    method Put(c: Channel)
      modifies this
      ensures channel == if old(channel).Empty? then c else old(channel)
    {
      if channel.Empty? { channel := c; }
    }
  }

  class ResponseManager {
    var callbacks: map<u32, OneShot>

    constructor ()
      ensures callbacks == map[]
    {
      callbacks := map[];
    }

    /** No two numbers share a channel. */
    ghost predicate Valid()
      reads this
    {
      forall n <- callbacks, k <- callbacks :: n != k ==> callbacks[n] != callbacks[k]
    }

    /** The receiver of a new callback; a callback registered before under the number is closed. */
    method RegisterCallback(n: u32) returns (receiver: OneShot)
      requires Valid()
      modifies this, callbacks.Values
      ensures Valid() && fresh(receiver) && receiver.channel == Empty
      ensures callbacks == old(callbacks)[n := receiver]
      ensures forall k <- old(callbacks) ::
                old(callbacks)[k].channel == if k == n && old(callbacks[k].channel).Empty? then Closed
                                             else old(callbacks[k].channel)
    {
      receiver := new OneShot();
      if n in callbacks { callbacks[n].Put(Closed); }
      callbacks := callbacks[n := receiver];
    }

    /** The response goes to the callback of its number, which is used up. */
    method ResponseReceived(n: u32, r: Response)
      requires Valid()
      modifies this, callbacks.Values
      ensures Valid() && callbacks == old(callbacks) - {n}
      ensures forall k <- old(callbacks) ::
                old(callbacks)[k].channel == if k == n && old(callbacks[k].channel).Empty? then Full(r)
                                             else old(callbacks[k].channel)
    {
      if n in callbacks {
        callbacks[n].Put(Full(r));
        callbacks := callbacks - {n};
      }
    }
  }

  // ---- the manager refines the steps ------------------------------------------------------

  /** The manager's callbacks are the machine's, and each registered sender's channel is its receiver's. */
  ghost predicate Represents(manager: ResponseManager, s: State, receivers: map<nat, OneShot>)
    reads manager, receivers.Values
  {
    && manager.callbacks.Keys == s.callbacks.Keys
    && (forall n <- s.callbacks :: s.callbacks[n] in receivers && receivers[s.callbacks[n]] == manager.callbacks[n])
    && (forall i <- receivers, j <- receivers :: i != j ==> receivers[i] != receivers[j])
    && (forall i <- receivers :: i in s.senders && !s.senders[i].phase.Allocated?
                                 && receivers[i].channel == s.senders[i].channel)
  }

  /** Registering a callback is the step Register. */
  method RegisterRefines(manager: ResponseManager, ghost s: State, ghost receivers: map<nat, OneShot>, i: nat)
    returns (receiver: OneShot)
    requires Represents(manager, s, receivers) && manager.Valid()
    requires CallbacksSound(s) && OwnResponses(s) && Enabled(s, Register(i))
    modifies manager, manager.callbacks.Values
    ensures fresh(receiver) && Represents(manager, Step(s, Register(i)), receivers[i := receiver])
  {
    hide NumberOf, Step, CallbacksSound, OwnResponses, Enabled;
    RegisterEffect(s, i);
    ghost var was, s' := manager.callbacks, Step(s, Register(i));
    receiver := manager.RegisterCallback(NumberOf(i));
    forall j <- receivers ensures receivers[j].channel == s'.senders[j].channel {
      if receivers[j] in was.Values {
        var k :| k in was && was[k] == receivers[j];
        assert s.callbacks[k] == j;
      } else {
        assert NumberOf(i) in s.callbacks ==> s.callbacks[NumberOf(i)] != j;
      }
    }
  }

  /** What Register does to callbacks and channels. */
  lemma RegisterEffect(s: State, i: nat)
    requires CallbacksSound(s) && OwnResponses(s) && Enabled(s, Register(i))
    ensures var s', n := Step(s, Register(i)), NumberOf(i);
            && s'.callbacks == s.callbacks[n := i] && s'.senders.Keys == s.senders.Keys
            && (n in s.callbacks ==> s.callbacks[n] != i)
            && i in s.senders && s.senders[i].phase.Allocated?
            && s'.senders[i] == Sender(Registered, Empty)
            && forall j <- s.senders | j != i ::
                 && s'.senders[j].phase == s.senders[j].phase
                 && s'.senders[j].channel
                    == (if n in s.callbacks && s.callbacks[n] == j && s.senders[j].channel.Empty?
                        then Closed else s.senders[j].channel)
  {
    hide NumberOf;
  }

  /** What Receive does to callbacks and channels. */
  lemma ReceiveEffect(s: State, r: Response)
    requires CallbacksSound(s) && Enabled(s, Receive(r))
    ensures var s', n := Step(s, Receive(r)), r.number;
            && s'.callbacks == s.callbacks - {n} && s'.senders.Keys == s.senders.Keys
            && forall j <- s.senders ::
                 && s'.senders[j].phase == s.senders[j].phase
                 && s'.senders[j].channel
                    == (if n in s.callbacks && s.callbacks[n] == j && s.senders[j].channel.Empty?
                        then Full(r) else s.senders[j].channel)
  {
    hide NumberOf;
  }

  /** Handing over a response is the step Receive. */
  method ReceiveRefines(manager: ResponseManager, ghost s: State, ghost receivers: map<nat, OneShot>, r: Response)
    requires Represents(manager, s, receivers) && manager.Valid()
    requires CallbacksSound(s) && Enabled(s, Receive(r))
    modifies manager, manager.callbacks.Values
    ensures Represents(manager, Step(s, Receive(r)), receivers)
  {
    hide NumberOf, Step, CallbacksSound;
    ReceiveEffect(s, r);
    manager.ResponseReceived(r.number, r);
  }
}
