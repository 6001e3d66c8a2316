/** A whole connection of the server: octets in, in any chunks; responses out, in order. */
module ServerStream {
  import opened Bytes
  import opened Values
  import opened Codec
  import opened CommandIds
  import opened Pdu
  import opened Forwarding
  import opened Framing
  import opened Responses
  import opened Server
  import opened ServerLaws
  import opened MultiLaws

  /** What the surroundings do while each of the received PDUs is handled: answers, and whether the write succeeds. */
  datatype Environment = Environment(answers: nat -> Answers, writes: nat -> bool)

  /** The server, the PDUs handled so far, and the octets written for each. */
  datatype Machine = Machine(server: Server, seen: seq<bytes>, written: seq<bytes>)

  datatype Next = Goes | Stops | Halts

  function Record(st: Machine, s: Server, frame: bytes, data: bytes): (r: Machine)
  {
    Machine(s, st.seen + [frame], st.written + [data])
  }

  /** One extracted PDU; one that cannot be decoded is dropped. */
  function HandleFrame(cfg: Config, env: Environment, st: Machine, frame: bytes): (r: (Machine, Next))
  {
    var k := |st.seen|;
    var m := DecodePdu(frame);
    if m.None? then (Record(st, st.server, frame, []), Goes)
    else
      match Handle(cfg, st.server, env.answers(k), m.value)
      case Quiet(s) => (Record(st, s, frame, []), Goes)
      case Refused(s) => (Record(st, s, frame, []), Stops)
      case Dies => (Record(st, st.server, frame, []), Halts)
      case Sends(data, s, onFailure) =>
        if env.writes(k) then (Record(st, s, frame, data), Goes)
        else (Record(st, s, frame, []),
              match onFailure case Ignored => Goes case EndsBatch => Stops case Fatal => Halts)
  }

  datatype Fate = Alive | Dead | Spinning

  datatype Progress = Progress(machine: Machine, buffer: bytes, fate: Fate)

  /** The PDUs extracted after one read; an error leaves the rest for the next read, a length of 0 spins. */
  function Batch(cfg: Config, env: Environment, st: Machine, b: bytes): (r: Progress)
    decreases |b|
  {
    if !Complete(b) then Progress(st, b, Alive)
    else if Announced(b) == 0 then Progress(st, b, Spinning)
    else
      var (st', next) := HandleFrame(cfg, env, st, b[..Announced(b)]);
      var rest := b[Announced(b)..];
      match next
      case Goes => Batch(cfg, env, st', rest)
      case Stops => Progress(st', rest, Alive)
      case Halts => Progress(st', rest, Dead)
  }

  function Serve(cfg: Config, env: Environment, st: Machine, buffer: bytes, chunks: seq<bytes>): (r: Progress)
    decreases |chunks|
  {
    if chunks == [] then Progress(st, buffer, Alive)
    else
      var p := Batch(cfg, env, st, buffer + chunks[0]);
      if p.fate.Alive? then Serve(cfg, env, p.machine, p.buffer, chunks[1..]) else p
  }

  // ---- nothing is skipped -----------------------------------------------------------------

  lemma FrameIsSeen(cfg: Config, env: Environment, st: Machine, frame: bytes)
    ensures HandleFrame(cfg, env, st, frame).0.seen == st.seen + [frame]
  {
    hide Handle, DecodePdu;
  }

  lemma {:induction false} BatchKeepsOrder(cfg: Config, env: Environment, st: Machine, b: bytes, more: bytes)
    ensures var p := Batch(cfg, env, st, b);
            && st.seen <= p.machine.seen
            && p.machine.seen + Drain(p.buffer + more).messages == st.seen + Drain(b + more).messages
    decreases |b|
  {
    hide HandleFrame, Complete, Announced;
    if Complete(b) && Announced(b) > 0 {
      var n := Announced(b);
      var (st', next) := HandleFrame(cfg, env, st, b[..n]);
      FrameIsSeen(cfg, env, st, b[..n]);
      CompleteMore(b, more);
      assert Drain(b + more).messages == [b[..n]] + Drain(b[n..] + more).messages;
      if next.Goes? { BatchKeepsOrder(cfg, env, st', b[n..], more); }
    }
  }

  /**
   Whatever the chunks, the failed writes, errors and panics: the PDUs handled are the first of the
   stream, in order and without a gap. While the connection lives, those in the buffer and to come are
   the rest; when it spins, there is no rest.
   */
  lemma {:induction false} HandledInOrder(cfg: Config, env: Environment, st: Machine, buffer: bytes,
                                          chunks: seq<bytes>, more: bytes)
    ensures var p, whole := Serve(cfg, env, st, buffer, chunks), Drain(buffer + (Concat(chunks) + more));
            && st.seen <= p.machine.seen <= st.seen + whole.messages
            && (p.fate.Alive? ==> p.machine.seen + Drain(p.buffer + more).messages == st.seen + whole.messages)
            && (p.fate.Spinning? ==> p.machine.seen == st.seen + whole.messages)
    decreases |chunks|
  {
    hide Batch, Drain, Complete, Announced;
    if chunks == [] {
      assert Concat(chunks) + more == more;
    } else {
      var p := Batch(cfg, env, st, buffer + chunks[0]);
      var later := Concat(chunks[1..]) + more;
      assert buffer + (Concat(chunks) + more) == buffer + chunks[0] + later;
      BatchKeepsOrder(cfg, env, st, buffer + chunks[0], later);
      if p.fate.Alive? {
        HandledInOrder(cfg, env, p.machine, p.buffer, chunks[1..], more);
      } else if p.fate.Spinning? {
        SpinningHasNoRest(cfg, env, st, buffer + chunks[0], later);
        assert p.machine.seen + [] == p.machine.seen;
      }
    }
  }

  lemma {:induction false} SpinningHasNoRest(cfg: Config, env: Environment, st: Machine, b: bytes, more: bytes)
    requires Batch(cfg, env, st, b).fate.Spinning?
    ensures Drain(Batch(cfg, env, st, b).buffer + more).messages == []
    decreases |b|
  {
    hide HandleFrame;
    if Announced(b) == 0 {
      CompleteMore(b, more);
    } else {
      SpinningHasNoRest(cfg, env, HandleFrame(cfg, env, st, b[..Announced(b)]).0, b[Announced(b)..], more);
    }
  }

  // ---- one PDU after the other ------------------------------------------------------------

  /** What one PDU does to the server and what is written for it: octets that do not decode do nothing. */
  ghost predicate Effect(cfg: Config, env: Environment, k: nat, s: Server, frame: bytes, data: bytes, s': Server)
  {
    if DecodePdu(frame).None? then s' == s && data == []
    else
      match Handle(cfg, s, env.answers(k), DecodePdu(frame).value)
      case Sends(d, s1, _) => s' == s1 && data == if env.writes(k) then d else []
      case Quiet(s1) => s' == s1 && data == []
      case Refused(s1) => s' == s1 && data == []
      case Dies => s' == s && data == []
  }

  /** From `st` on, each further PDU had its effect on the server the one before it left. */
  ghost predicate History(cfg: Config, env: Environment, st: Machine, st': Machine, states: seq<Server>)
  {
    var n := |st.seen|;
    && |st'.seen| == |st'.written| >= n && |states| == |st'.seen| - n + 1
    && st.seen <= st'.seen && st.written <= st'.written
    && states[0] == st.server && states[|states| - 1] == st'.server
    && forall k :: n <= k < |st'.seen| ==>
         Effect(cfg, env, k, states[k - n], st'.seen[k], st'.written[k], states[k - n + 1])
  }

  lemma FrameHistory(cfg: Config, env: Environment, st: Machine, frame: bytes)
    requires |st.seen| == |st.written|
    ensures var st' := HandleFrame(cfg, env, st, frame).0; History(cfg, env, st, st', [st.server, st'.server])
  {
    hide Handle, DecodePdu;
  }

  lemma HistoryThen(cfg: Config, env: Environment, st: Machine, st1: Machine, st2: Machine, a: seq<Server>,
                    b: seq<Server>)
    requires |st.seen| == |st.written| && History(cfg, env, st, st1, a) && History(cfg, env, st1, st2, b)
    ensures History(cfg, env, st, st2, a + b[1..])
  {
    hide Effect;
    var c, n, n1 := a + b[1..], |st.seen|, |st1.seen|;
    assert c[|c| - 1] == st2.server;
    forall k | n <= k < |st2.seen|
      ensures Effect(cfg, env, k, c[k - n], st2.seen[k], st2.written[k], c[k - n + 1])
    {
      if k < n1 {
        assert st2.seen[k] == st1.seen[k] && st2.written[k] == st1.written[k];
        assert c[k - n] == a[k - n] && c[k - n + 1] == a[k - n + 1];
      } else {
        assert c[k - n] == b[k - n1] && c[k - n + 1] == b[k - n1 + 1];
      }
    }
  }

  lemma NoHistory(cfg: Config, env: Environment, st: Machine)
    requires |st.seen| == |st.written|
    ensures History(cfg, env, st, st, [st.server])
  {
    hide Effect;
  }

  lemma {:induction false} BatchHistory(cfg: Config, env: Environment, st: Machine, b: bytes)
    returns (states: seq<Server>)
    requires |st.seen| == |st.written|
    ensures History(cfg, env, st, Batch(cfg, env, st, b).machine, states)
    decreases |b|
  {
    hide HandleFrame, History, Complete, Announced;
    if !Complete(b) || Announced(b) == 0 {
      NoHistory(cfg, env, st);
      states := [st.server];
    } else {
      var (st', next) := HandleFrame(cfg, env, st, b[..Announced(b)]);
      FrameHistory(cfg, env, st, b[..Announced(b)]);
      states := [st.server, st'.server];
      if next.Goes? {
        HistoryLengths(cfg, env, st, st', states);
        var rest := BatchHistory(cfg, env, st', b[Announced(b)..]);
        HistoryThen(cfg, env, st, st', Batch(cfg, env, st', b[Announced(b)..]).machine, states, rest);
        HistoryLengths(cfg, env, st', Batch(cfg, env, st', b[Announced(b)..]).machine, rest);
        states := states + rest[1..];
      }
    }
  }

  lemma HistoryLengths(cfg: Config, env: Environment, st: Machine, st': Machine, states: seq<Server>)
    requires History(cfg, env, st, st', states)
    ensures |st'.seen| == |st'.written| && |states| > 0
  {
    hide Effect;
  }

  /**
   Over every run, whatever its chunks and its end: each PDU was handled by the server as the one before
   it had left it, and what was written for it is what handling it gives.
   */
  lemma {:induction false} RunHistory(cfg: Config, env: Environment, st: Machine, buffer: bytes, chunks: seq<bytes>)
    returns (states: seq<Server>)
    requires |st.seen| == |st.written|
    ensures History(cfg, env, st, Serve(cfg, env, st, buffer, chunks).machine, states)
    decreases |chunks|
  {
    hide Batch, History;
    if chunks == [] {
      NoHistory(cfg, env, st);
      states := [st.server];
    } else {
      var p := Batch(cfg, env, st, buffer + chunks[0]);
      states := BatchHistory(cfg, env, st, buffer + chunks[0]);
      if p.fate.Alive? {
        HistoryLengths(cfg, env, st, p.machine, states);
        var rest := RunHistory(cfg, env, p.machine, p.buffer, chunks[1..]);
        var q := Serve(cfg, env, p.machine, p.buffer, chunks[1..]).machine;
        HistoryThen(cfg, env, st, p.machine, q, states, rest);
        HistoryLengths(cfg, env, p.machine, q, rest);
        states := states + rest[1..];
      }
    }
  }

  // ---- what is written --------------------------------------------------------------------

  predicate Unimplemented(c: CommandId)
  {
    c in {BroadcastSm, QueryBroadcastSm, Outbind, AlertNotification, DeliverSm}
  }

  /**
   What is written for a PDU: nothing for octets that do not decode, for responses and for
   unimplemented requests; for any other request one response under its own number, except for a
   submit_multi with more than 255 destinations, whose failures may be too many to list.
   */
  ghost predicate Fitting(cfg: Config, frame: bytes, data: bytes)
  {
    if DecodePdu(frame).None? || IsResponse(CommandOf(frame)) || Unimplemented(CommandOf(frame)) then data == []
    else |frame| >= HEADER_LENGTH
         && (Answered(CommandOf(frame), OfBe32(frame[12..16]), data)
             || (CommandOf(frame).SubmitMulti? && |Destinations(DecodePdu(frame).value, cfg.lists)| > 255
                 && data == []))
  }

  lemma EveryCommand(c: CommandId)
    ensures IsResponse(c) || Unimplemented(c) || HasFixedAnswer(c) || c.SubmitSm? || c.DataSm? || c.SubmitMulti?
  {}

  predicate IsMulti(frame: bytes)
  {
    DecodePdu(frame).Some? && CommandOf(frame).SubmitMulti?
  }

  /**
   One PDU: the connection goes on, unless the octets kill it or a write fails; what is written fits
   the PDU, and nothing is written otherwise.
   */
  lemma FrameIsAnswered(cfg: Config, env: Environment, st: Machine, frame: bytes)
    requires Enumerates(env.answers(|st.seen|).order)
    ensures var (st', next) := HandleFrame(cfg, env, st, frame);
            var k := |st.seen|;
            && st'.seen == st.seen + [frame]
            && (next.Halts? <==> Kills(cfg, env.answers(k), frame) || (!env.writes(k) && IsMulti(frame)))
            && (env.writes(k) ==> !next.Stops?)
            && exists data :: st'.written == st.written + [data]
                              && (if env.writes(k) && !next.Halts? then Fitting(cfg, frame, data) else data == [])
  {
    hide DecodePdu, CommandOf, Handle, Enumerates, Kills, Fitting, Answered;
    var k := |st.seen|;
    var (st', next) := HandleFrame(cfg, env, st, frame);
    var data := st'.written[|st.written|];
    assert st'.written == st.written + [data];
    if DecodePdu(frame).None? {
      UndecodedIsDropped(cfg, env.answers(k), frame);
    } else {
      HandledFits(cfg, st.server, env.answers(k), frame);
    }
  }

  lemma UndecodedIsDropped(cfg: Config, a: Answers, frame: bytes)
    requires DecodePdu(frame).None?
    ensures !Kills(cfg, a, frame) && Fitting(cfg, frame, [])
  {
    hide DecodePdu;
  }

  /** What the dispatch makes of each kind of PDU. */
  lemma HandledFits(cfg: Config, s: Server, a: Answers, frame: bytes)
    requires DecodePdu(frame).Some? && Enumerates(a.order)
    ensures var h := Handle(cfg, s, a, DecodePdu(frame).value);
            && !h.Refused?
            && (h.Dies? <==> Kills(cfg, a, frame))
            && (h.Quiet? ==> Fitting(cfg, frame, []) && !IsMulti(frame))
            && (h.Sends? ==> Fitting(cfg, frame, h.data) && (h.onFailure.Fatal? <==> IsMulti(frame)))
  {
    hide DecodePdu, Handle, Enumerates, AnswerTo, FixedStatus, MultiOutcome, MultiFailures, Destinations, Prepared;
    hide FromJson, ModeFor, Unimplemented, HasFixedAnswer, AsDeliverSm, LastTlvsReadable, Encoded, CommandOf;
    var c := CommandOf(frame);
    EveryCommand(c);
    if IsResponse(c) {
      ResponsesAreNotAnswered(cfg, s, a, frame);
    } else if Unimplemented(c) {
      UnimplementedAnswer(cfg, s, a, frame);
    } else if HasFixedAnswer(c) {
      FixedAnswer(cfg, s, a, frame);
      FixedIsNoSubmission(c);
    } else if c.SubmitMulti? {
      MultiAnswer(cfg, s, a, frame);
    } else {
      SubmissionAnswer(cfg, s, a, frame);
      DiesIffKills(cfg, s, a, frame);
    }
  }

  lemma FixedIsNoSubmission(c: CommandId)
    requires HasFixedAnswer(c)
    ensures !c.SubmitSm? && !c.DataSm? && !c.SubmitMulti? && !IsResponse(c) && !Unimplemented(c)
  {}

  lemma UnimplementedAnswer(cfg: Config, s: Server, a: Answers, b: bytes)
    requires DecodePdu(b).Some? && Unimplemented(CommandOf(b)) && Enumerates(a.order)
    ensures var h := Handle(cfg, s, a, DecodePdu(b).value); h.Sends? && h.data == [] && h.onFailure.EndsBatch?
    ensures var c := CommandOf(b); !c.SubmitSm? && !c.DataSm? && !c.SubmitMulti?
  {
    hide DecodePdu, CommandOf, Handle, Enumerates;
    UnimplementedIsSilent(cfg, s, a, b);
  }

  /** In the given range, each PDU whose write succeeded got what fits it, the others nothing. */
  ghost predicate AnsweredIn(cfg: Config, env: Environment, st: Machine, from: nat, to: nat)
  {
    && |st.seen| == |st.written| && to <= |st.seen|
    && forall k :: from <= k < to ==>
                     (if env.writes(k) then Fitting(cfg, st.seen[k], st.written[k]) else st.written[k] == [])
  }

  ghost predicate OrdersEnumerate(env: Environment)
  {
    forall k: nat :: Enumerates(env.answers(k).order)
  }

  /** The PDUs handled, without the one a connection died of. */
  function Survived(p: Progress): (n: int)
  {
    if p.fate.Dead? then |p.machine.seen| - 1 else |p.machine.seen|
  }

  /** The PDU a connection died of was not answered, and kills, or its answer could not be written. */
  ghost predicate DeathExplained(cfg: Config, env: Environment, p: Progress)
  {
    var k := |p.machine.seen| - 1;
    && k >= 0 && |p.machine.written| == k + 1 && p.machine.written[k] == []
    && (Kills(cfg, env.answers(k), p.machine.seen[k]) || (!env.writes(k) && IsMulti(p.machine.seen[k])))
  }

  lemma {:induction false} BatchAnswers(cfg: Config, env: Environment, st: Machine, b: bytes, from: nat)
    requires AnsweredIn(cfg, env, st, from, |st.seen|) && OrdersEnumerate(env)
    ensures var p := Batch(cfg, env, st, b);
            Survived(p) >= 0 && AnsweredIn(cfg, env, p.machine, from, Survived(p))
                && (p.fate.Dead? ==> DeathExplained(cfg, env, p))
    decreases |b|
  {
    hide Fitting, HandleFrame, Enumerates, Kills, IsMulti;
    if Complete(b) && Announced(b) > 0 {
      var n := Announced(b);
      FrameIsAnswered(cfg, env, st, b[..n]);
      var (st', next) := HandleFrame(cfg, env, st, b[..n]);
      if next.Goes? { BatchAnswers(cfg, env, st', b[n..], from); }
    }
  }

  /**
   On every run, also one that dies or spins: each PDU handled whose write succeeded got what fits it
   and the others nothing, and a connection dies only of octets that kill it or of a submit_multi whose
   answer cannot be written.
   */
  lemma {:induction false} EveryRunAnswers(cfg: Config, env: Environment, st: Machine, buffer: bytes,
                                           chunks: seq<bytes>, from: nat)
    requires AnsweredIn(cfg, env, st, from, |st.seen|) && OrdersEnumerate(env)
    ensures var p := Serve(cfg, env, st, buffer, chunks);
            Survived(p) >= 0 && AnsweredIn(cfg, env, p.machine, from, Survived(p))
                && (p.fate.Dead? ==> DeathExplained(cfg, env, p))
    decreases |chunks|
  {
    hide Batch, AnsweredIn, OrdersEnumerate, DeathExplained;
    if chunks != [] {
      var p := Batch(cfg, env, st, buffer + chunks[0]);
      BatchAnswers(cfg, env, st, buffer + chunks[0], from);
      if p.fate.Alive? { EveryRunAnswers(cfg, env, p.machine, p.buffer, chunks[1..], from); }
    }
  }

  // ---- whole streams ----------------------------------------------------------------------

  /** The PDUs up to the first that kills, the numbering going on from `from`, and whether there is one. */
  ghost function UpToKill(cfg: Config, env: Environment, frames: seq<bytes>, from: nat): (r: (seq<bytes>, bool))
    decreases |frames|
  {
    if frames == [] then ([], false)
    else if Kills(cfg, env.answers(from), frames[0]) then ([frames[0]], true)
    else
      var rest := UpToKill(cfg, env, frames[1..], from + 1);
      ([frames[0]] + rest.0, rest.1)
  }

  lemma {:induction false} UpToKillIs(cfg: Config, env: Environment, frames: seq<bytes>, from: nat)
    ensures var (done, killed) := UpToKill(cfg, env, frames, from);
            && done <= frames && (!killed ==> done == frames)
            && (killed ==> done != [] && Kills(cfg, env.answers(from + |done| - 1), done[|done| - 1]))
            && (forall j :: 0 <= j < |done| - (if killed then 1 else 0) ==> !Kills(cfg, env.answers(from + j), done[j]))
    decreases |frames|
  {
    hide Kills;
    if frames != [] && !Kills(cfg, env.answers(from), frames[0]) {
      UpToKillIs(cfg, env, frames[1..], from + 1);
      var (rest, killed) := UpToKill(cfg, env, frames[1..], from + 1);
      var done := [frames[0]] + rest;
      assert frames == [frames[0]] + frames[1..];
      forall j | 0 <= j < |done| - (if killed then 1 else 0) ensures !Kills(cfg, env.answers(from + j), done[j]) {
        if j > 0 { assert done[j] == rest[j - 1] && from + j == from + 1 + (j - 1); }
      }
    }
  }

  lemma UpToKillCons(cfg: Config, env: Environment, frame: bytes, frames: seq<bytes>, from: nat)
    ensures UpToKill(cfg, env, [frame] + frames, from) ==
            if Kills(cfg, env.answers(from), frame) then ([frame], true)
            else ([frame] + UpToKill(cfg, env, frames, from + 1).0, UpToKill(cfg, env, frames, from + 1).1)
  {
    hide Kills;
    assert ([frame] + frames)[1..] == frames;
  }

  lemma {:induction false} UpToKillAppend(cfg: Config, env: Environment, a: seq<bytes>, b: seq<bytes>, from: nat)
    ensures var u, v := UpToKill(cfg, env, a, from), UpToKill(cfg, env, b, from + |a|);
            UpToKill(cfg, env, a + b, from) == if u.1 then u else (a + v.0, v.1)
    decreases |a|
  {
    hide Kills;
    var v := UpToKill(cfg, env, b, from + |a|);
    if a == [] {
      assert a + b == b && [] + v.0 == v.0;
    } else {
      UpToKillAppend(cfg, env, a[1..], b, from + 1);
      assert a + b == [a[0]] + (a[1..] + b);
      UpToKillCons(cfg, env, a[0], a[1..] + b, from);
      assert [a[0]] + (a[1..] + v.0) == a + v.0;
    }
  }

  /** All writes succeed: everything is handled up to the first PDU that kills. */
  ghost predicate Completes(cfg: Config, env: Environment, st: Machine, d: Drained, p: Progress)
  {
    var (done, killed) := UpToKill(cfg, env, d.messages, |st.seen|);
    && p.machine.seen == st.seen + done
    && p.fate == (if killed then Dead else if d.ends then Alive else Spinning)
    && (p.fate.Alive? ==> p.buffer == d.rest)
  }

  lemma {:induction false} BatchCompletes(cfg: Config, env: Environment, st: Machine, b: bytes)
    requires OrdersEnumerate(env) && forall k :: env.writes(k)
    ensures Completes(cfg, env, st, Drain(b), Batch(cfg, env, st, b))
    decreases |b|
  {
    hide Fitting, HandleFrame, Enumerates, Kills, IsMulti, Complete, Announced;
    if Complete(b) && Announced(b) > 0 {
      var frame, more := b[..Announced(b)], b[Announced(b)..];
      FrameIsAnswered(cfg, env, st, frame);
      var (st', next) := HandleFrame(cfg, env, st, frame);
      UpToKillCons(cfg, env, frame, Drain(more).messages, |st.seen|);
      if next.Goes? {
        BatchCompletes(cfg, env, st', more);
        var done := UpToKill(cfg, env, Drain(more).messages, |st'.seen|).0;
        assert st.seen + [frame] + done == st.seen + ([frame] + done);
      }
    } else {
      assert st.seen + [] == st.seen;
    }
  }

  lemma {:induction false} ServeCompletes(cfg: Config, env: Environment, st: Machine, buffer: bytes, chunks: seq<bytes>)
    requires OrdersEnumerate(env) && (forall k :: env.writes(k)) && !Complete(buffer)
    ensures Completes(cfg, env, st, Drain(buffer + Concat(chunks)), Serve(cfg, env, st, buffer, chunks))
    decreases |chunks|
  {
    hide Batch, OrdersEnumerate, UpToKill, Complete, Announced, Drain;
    if chunks == [] {
      assert buffer + [] == buffer && st.seen + [] == st.seen;
      DrainIncomplete(buffer);
      NoneToKill(cfg, env, |st.seen|);
    } else {
      var b, more := buffer + chunks[0], Concat(chunks[1..]);
      assert buffer + Concat(chunks) == b + more;
      var p, d := Batch(cfg, env, st, b), Drain(b);
      BatchCompletes(cfg, env, st, b);
      DrainMore(b, more);
      UpToKillAll(cfg, env, d.messages, |st.seen|);
      if p.fate.Alive? {
        UpToKillAppend(cfg, env, d.messages, Drain(d.rest + more).messages, |st.seen|);
        ServeCompletes(cfg, env, p.machine, p.buffer, chunks[1..]);
        var done := UpToKill(cfg, env, Drain(d.rest + more).messages, |p.machine.seen|).0;
        assert st.seen + d.messages + done == st.seen + (d.messages + done);
      } else if d.ends {
        UpToKillAppend(cfg, env, d.messages, Drain(d.rest + more).messages, |st.seen|);
      }
    }
  }

  lemma DrainIncomplete(b: bytes)
    requires !Complete(b)
    ensures Drain(b) == Drained([], b, true)
  {}

  lemma NoneToKill(cfg: Config, env: Environment, from: nat)
    ensures UpToKill(cfg, env, [], from) == ([], false)
  {}

  lemma UpToKillAll(cfg: Config, env: Environment, frames: seq<bytes>, from: nat)
    ensures var (done, killed) := UpToKill(cfg, env, frames, from); !killed ==> done == frames
  {
    UpToKillIs(cfg, env, frames, from);
  }

  lemma StreamIsHandled(cfg: Config, env: Environment, s: Server, pdus: seq<bytes>, tail: bytes, chunks: seq<bytes>)
    requires forall p <- pdus :: WellFramed(p)
    requires !Complete(tail) && Concat(chunks) == Concat(pdus) + tail
    requires OrdersEnumerate(env) && forall k :: env.writes(k)
    ensures Completes(cfg, env, Machine(s, [], []), Drained(pdus, tail, true),
                      Serve(cfg, env, Machine(s, [], []), [], chunks))
  {
    hide Serve, OrdersEnumerate, WellFramed, Complete, Completes;
    NothingIsIncomplete();
    ServeCompletes(cfg, env, Machine(s, [], []), [], chunks);
    DrainPdus(pdus, tail);
    assert [] + Concat(chunks) == Concat(pdus) + tail;
  }

  lemma KillPrefix(cfg: Config, env: Environment, frames: seq<bytes>)
    ensures var (done, killed) := UpToKill(cfg, env, frames, 0);
            var n := |done|;
            && n <= |frames| && done == frames[..n] && (!killed ==> n == |frames|)
            && (killed ==> n > 0 && Kills(cfg, env.answers(n - 1), frames[n - 1]))
            && (forall k :: 0 <= k < (if killed then n - 1 else n) ==> !Kills(cfg, env.answers(k), frames[k]))
  {
    hide UpToKill, Kills;
    UpToKillIs(cfg, env, frames, 0);
  }

  /** What becomes of a connection on which no write fails: it lives exactly when no PDU kills it. */
  ghost predicate EndsWell(cfg: Config, env: Environment, pdus: seq<bytes>, tail: bytes, p: Progress)
  {
    var n := |p.machine.seen|;
    && n <= |pdus| && p.machine.seen == pdus[..n]
    && (p.fate.Alive? <==> forall k :: 0 <= k < |pdus| ==> !Kills(cfg, env.answers(k), pdus[k]))
    && (p.fate.Alive? ==> n == |pdus| && p.buffer == tail)
    && (!p.fate.Alive? ==> p.fate.Dead? && n > 0 && Kills(cfg, env.answers(n - 1), pdus[n - 1])
                           && forall k :: 0 <= k < n - 1 ==> !Kills(cfg, env.answers(k), pdus[k]))
  }

  lemma CompletedEndsWell(cfg: Config, env: Environment, s: Server, pdus: seq<bytes>, tail: bytes, p: Progress)
    requires Completes(cfg, env, Machine(s, [], []), Drained(pdus, tail, true), p)
    ensures EndsWell(cfg, env, pdus, tail, p)
  {
    hide UpToKill, Kills;
    KillPrefix(cfg, env, pdus);
    var done := UpToKill(cfg, env, pdus, 0).0;
    assert p.machine.seen == [] + done == done;
  }

  /**
   A client sends correct PDUs, in any chunks, and no write fails. The connection lives exactly when none
   of the PDUs kills it; then exactly those PDUs are handled, in order, each is answered with what fits
   it, and an incomplete end waits. Otherwise it dies of the first that kills, and everything before
   that is answered.
   */
  lemma StreamIsAnswered(cfg: Config, env: Environment, s: Server, pdus: seq<bytes>, tail: bytes, chunks: seq<bytes>)
    requires forall p <- pdus :: WellFramed(p)
    requires !Complete(tail) && Concat(chunks) == Concat(pdus) + tail
    requires OrdersEnumerate(env) && forall k :: env.writes(k)
    ensures var p := Serve(cfg, env, Machine(s, [], []), [], chunks);
            && EndsWell(cfg, env, pdus, tail, p)
            && 0 <= Survived(p) <= |p.machine.written|
            && (forall k :: 0 <= k < Survived(p) ==> Fitting(cfg, p.machine.seen[k], p.machine.written[k]))
  {
    hide Serve, Fitting, OrdersEnumerate, WellFramed, Complete, Completes, EndsWell, DeathExplained;
    var st := Machine(s, [], []);
    var p := Serve(cfg, env, st, [], chunks);
    StreamIsHandled(cfg, env, s, pdus, tail, chunks);
    CompletedEndsWell(cfg, env, s, pdus, tail, p);
    EveryRunAnswers(cfg, env, st, [], chunks, 0);
  }

  // ---- what the client reads --------------------------------------------------------------

  function NonEmpty(written: seq<bytes>): (r: seq<bytes>)
  {
    if written == [] then [] else (if written[0] == [] then [] else [written[0]]) + NonEmpty(written[1..])
  }

  lemma {:induction false} ConcatNonEmpty(written: seq<bytes>)
    ensures Concat(NonEmpty(written)) == Concat(written)
    ensures forall p <- NonEmpty(written) :: p != [] && p in written
  {
    if written != [] {
      ConcatNonEmpty(written[1..]);
      var rest := NonEmpty(written[1..]);
      if written[0] == [] {
        assert [] + rest == rest && [] + Concat(written[1..]) == Concat(written[1..]);
      } else {
        assert ([written[0]] + rest)[1..] == rest;
      }
    }
  }

  lemma FittingIsFramed(cfg: Config, frame: bytes, p: bytes)
    requires Fitting(cfg, frame, p) && p != [] && |p| < U32_LIMIT
    ensures WellFramed(p)
  {
    hide DecodePdu, CommandOf, Be32, ResponseId, AsU32;
    var status: u32 :| AnswerTo(CommandOf(frame), OfBe32(frame[12..16]), status, p);
    assert p[..4] == Be32(|p|);
  }

  lemma NothingIsIncomplete()
    ensures !Complete([])
  {}

  /** Reading what the server wrote, the client finds exactly the responses, one after the other. */
  lemma ClientReadsAnswers(cfg: Config, frames: seq<bytes>, written: seq<bytes>)
    requires |frames| == |written|
    requires forall k :: 0 <= k < |frames| ==> Fitting(cfg, frames[k], written[k]) && |written[k]| < U32_LIMIT
    ensures Drain(Concat(written)) == Drained(NonEmpty(written), [], true)
  {
    hide Fitting, Concat, NonEmpty, WellFramed, Complete;
    ConcatNonEmpty(written);
    forall p <- NonEmpty(written) ensures WellFramed(p) {
      var k :| 0 <= k < |written| && written[k] == p;
      FittingIsFramed(cfg, frames[k], p);
    }
    NothingIsIncomplete();
    DrainPdus(NonEmpty(written), []);
    assert Concat(written) + [] == Concat(written);
  }
}
