/**
 Reassembly of PDUs from a stream. Chunks are appended to a buffer from which complete PDUs are
 extracted until there is none; how the stream was cut into chunks does not matter.
 */
module Framing {
  import opened Bytes
  import opened Values
  import opened CommandIds
  import opened Pdu
  import opened PduLaws

  // ---- one extraction ---------------------------------------------------------------------

  /** Enough octets for a header and for the length that header announces. */
  predicate Complete(b: bytes)
  {
    |b| >= HEADER_LENGTH && |b| >= OfBe32(b[..4])
  }

  function Announced(b: bytes): (n: nat)
    requires Complete(b)
    ensures n <= |b|
  {
    OfBe32(b[..4])
  }

  class SmppMessageBuffer {
    var buffer: bytes

    constructor ()
      ensures buffer == []
    {
      buffer := [];
    }

    method Write(data: bytes)
      modifies this
      ensures buffer == old(buffer) + data
    {
      buffer := buffer + data;
    }

    /** Nothing below 16 octets is looked at; a length below 16, even 0, is taken at its word. */
    method ExtractMessage() returns (message: Option<bytes>)
      modifies this
      ensures message.Some? <==> Complete(old(buffer))
      ensures message.None? ==> buffer == old(buffer)
      ensures message.Some? ==> |message.value| == Announced(old(buffer))
                                && message.value + buffer == old(buffer)
    {
      if |buffer| < HEADER_LENGTH { return None; }
      var length := OfBe32(buffer[..4]);
      if |buffer| >= length {
        message := Some(buffer[..length]);
        buffer := buffer[length..];
      } else {
        message := None;
      }
    }

    /** The loop that extracts until there is none, with the result `Drain` specifies. */
    method ExtractAll() returns (messages: seq<bytes>, ends: bool)
      modifies this
      ensures Drain(old(buffer)) == Drained(messages, buffer, ends)
    {
      messages, ends := [], true;
      var message := ExtractMessage();
      while message.Some?
        invariant Drain(old(buffer)) ==
                  (if message.None? then Drained(messages, buffer, true)
                   else Cons(messages, Drain(message.value + buffer)))
        invariant if message.None? then !Complete(buffer)
                  else Complete(message.value + buffer) && Announced(message.value + buffer) == |message.value|
        decreases |buffer| + if message.Some? then |message.value| + 1 else 0
      {
        DropPrefix(message.value, buffer);
        if message.value == [] {
          // The same empty message would be extracted for ever.
          ends := false;
          assert [] + buffer == buffer;
          assert messages + [] == messages;
          return;
        }
        ConsAgain(messages, message.value, Drain(buffer));
        messages := messages + [message.value];
        assert Cons(messages, Drained([], buffer, true)) == Drained(messages, buffer, true);
        message := ExtractMessage();
      }
    }

    /** One turn of the receiving loop. */
    method Receive(chunk: bytes) returns (messages: seq<bytes>, ends: bool)
      modifies this
      ensures Drain(old(buffer) + chunk) == Drained(messages, buffer, ends)
    {
      Write(chunk);
      messages, ends := ExtractAll();
    }
  }

  // ---- extraction until there is none -----------------------------------------------------

  /** The PDUs extracted, what stays in the buffer, and whether the loop comes to an end. */
  datatype Drained = Drained(messages: seq<bytes>, rest: bytes, ends: bool)

  function Cons(before: seq<bytes>, d: Drained): (r: Drained)
  {
    d.(messages := before + d.messages)
  }

  lemma ConsAgain(before: seq<bytes>, p: bytes, d: Drained)
    ensures Cons(before, Cons([p], d)) == Cons(before + [p], d)
  {
    assert before + ([p] + d.messages) == before + [p] + d.messages;
  }

  function Drain(b: bytes): (r: Drained)
    ensures r.ends ==> !Complete(r.rest)
    ensures !r.ends ==> Complete(r.rest) && Announced(r.rest) == 0
    ensures forall p <- r.messages :: p != []
    decreases |b|
  {
    if !Complete(b) then Drained([], b, true)
    else if Announced(b) == 0 then Drained([], b, false)
    else Cons([b[..Announced(b)]], Drain(b[Announced(b)..]))
  }

  /** What is extracted, followed by what is left, is the input. */
  lemma {:induction false} DrainConserves(b: bytes)
    ensures Concat(Drain(b).messages) + Drain(b).rest == b
    decreases |b|
  {
    hide Complete, Announced, Concat;
    if Complete(b) && Announced(b) > 0 {
      var p, more := b[..Announced(b)], b[Announced(b)..];
      var d := Drain(more);
      DrainConserves(more);
      ConcatCons(p, d.messages);
      assert p + Concat(d.messages) + d.rest == p + (Concat(d.messages) + d.rest);
    } else {
      assert Concat([]) == [] by { ConcatNothing(); }
      assert [] + b == b;
    }
  }

  lemma ConcatNothing()
    ensures Concat([]) == []
  {}

  lemma ConcatCons(p: bytes, parts: seq<bytes>)
    ensures Concat([p] + parts) == p + Concat(parts)
  {
    assert ([p] + parts)[1..] == parts;
  }

  /** More octets behind a complete PDU leave it and its length alone. */
  lemma CompleteMore(b: bytes, more: bytes)
    requires Complete(b)
    ensures Complete(b + more) && Announced(b + more) == Announced(b)
    ensures (b + more)[..Announced(b)] == b[..Announced(b)]
    ensures (b + more)[Announced(b)..] == b[Announced(b)..] + more
  {
    hide OfBe32;
    assert (b + more)[..4] == b[..4];
  }

  /** The buffer after `n` calls that each extracted something, unless an earlier one did not. */
  function After(b: bytes, n: nat): (r: Option<bytes>)
    decreases n
  {
    if n == 0 then Some(b)
    else if !Complete(b) then None
    else After(b[Announced(b)..], n - 1)
  }

  /** Some call finds nothing to extract. */
  ghost predicate LoopEnds(b: bytes)
  {
    exists n: nat :: After(b, n) == None
  }

  /** The loop ends exactly when it does not reach a length of zero. */
  lemma {:induction false} LoopEndsIff(b: bytes)
    ensures Drain(b).ends <==> LoopEnds(b)
    decreases |b|
  {
    if !Complete(b) {
      assert After(b, 1) == None;
    } else if Announced(b) == 0 {
      forall n: nat ensures After(b, n).Some? { ZeroLengthIsForever(b, n); }
    } else {
      var b' := b[Announced(b)..];
      LoopEndsIff(b');
      if LoopEnds(b') {
        var n: nat :| After(b', n) == None;
        assert After(b, n + 1) == None;
      }
      if LoopEnds(b) {
        var n: nat :| After(b, n) == None;
        assert After(b', n - 1) == None;
      }
    }
  }

  lemma {:induction false} ZeroLengthIsForever(b: bytes, n: nat)
    requires Complete(b) && Announced(b) == 0
    ensures After(b, n) == Some(b)
  {
    if n > 0 {
      assert b[0..] == b;
      ZeroLengthIsForever(b, n - 1);
    }
  }

  // ---- independence of the chunks ---------------------------------------------------------

  function Concat(parts: seq<bytes>): (b: bytes)
  {
    if parts == [] then [] else parts[0] + Concat(parts[1..])
  }

  /** The receiving loop over all chunks; it reads no further chunk once extraction does not end. */
  function ReceiveAll(buffer: bytes, chunks: seq<bytes>): (r: Drained)
    decreases |chunks|
  {
    if chunks == [] then Drained([], buffer, true) else
    var d := Drain(buffer + chunks[0]);
    if d.ends then Cons(d.messages, ReceiveAll(d.rest, chunks[1..])) else d
  }

  /** More octets never change what was extracted before them. */
  lemma {:induction false} DrainMore(b: bytes, more: bytes)
    ensures var d := Drain(b);
            Drain(b + more) == if d.ends then Cons(d.messages, Drain(d.rest + more))
                               else Drained(d.messages, d.rest + more, false)
    decreases |b|
  {
    hide Complete, Announced;
    if Complete(b) {
      var n := Announced(b);
      CompleteMore(b, more);
      if n > 0 {
        DrainMore(b[n..], more);
        var d := Drain(b[n..]);
        if d.ends {
          var rest := Drain(d.rest + more);
          assert [b[..n]] + (d.messages + rest.messages) == [b[..n]] + d.messages + rest.messages;
        }
      }
    } else {
      assert [] + Drain(b + more).messages == Drain(b + more).messages;
    }
  }

  /**
   However a stream is cut into chunks, the receiving loop extracts the same PDUs, ends or not
   alike, and leaves the same octets.
   */
  lemma {:induction false} ChunkingIndependence(buffer: bytes, chunks: seq<bytes>)
    requires !Complete(buffer)
    ensures var r, whole := ReceiveAll(buffer, chunks), Drain(buffer + Concat(chunks));
            && r.messages == whole.messages
            && r.ends == whole.ends
            && (r.ends ==> r.rest == whole.rest)
    decreases |chunks|
  {
    if chunks == [] {
      assert buffer + [] == buffer;
    } else {
      var b, more := buffer + chunks[0], Concat(chunks[1..]);
      assert buffer + Concat(chunks) == b + more;
      DrainMore(b, more);
      if Drain(b).ends {
        ChunkingIndependence(Drain(b).rest, chunks[1..]);
      }
    }
  }

  // ---- well-formed streams ----------------------------------------------------------------

  predicate WellFramed(p: bytes)
  {
    |p| >= HEADER_LENGTH && OfBe32(p[..4]) == |p|
  }

  /** A series of correct PDUs comes out as it went in, and what follows it stays. */
  lemma {:induction false} DrainPdus(pdus: seq<bytes>, tail: bytes)
    requires forall p <- pdus :: WellFramed(p)
    requires !Complete(tail)
    ensures Drain(Concat(pdus) + tail) == Drained(pdus, tail, true)
    decreases |pdus|
  {
    if pdus == [] {
      assert Concat(pdus) + tail == tail;
    } else {
      var b, p := Concat(pdus) + tail, pdus[0];
      var more := Concat(pdus[1..]) + tail;
      assert p in pdus && b == p + more;
      DropPrefix(p, more);
      assert b[..4] == p[..4];
      DrainPdus(pdus[1..], tail);
      assert [p] + pdus[1..] == pdus;
    }
  }

  /** Correct PDUs, however chunked: exactly those PDUs in order, the incomplete end kept. */
  lemma PdusAnyChunking(pdus: seq<bytes>, tail: bytes, chunks: seq<bytes>)
    requires forall p <- pdus :: WellFramed(p)
    requires !Complete(tail)
    requires Concat(chunks) == Concat(pdus) + tail
    ensures ReceiveAll([], chunks) == Drained(pdus, tail, true)
  {
    DrainPdus(pdus, tail);
    ChunkingIndependence([], chunks);
    assert [] + Concat(chunks) == Concat(chunks);
  }

  // ---- with the codec ---------------------------------------------------------------------

  datatype Sent = Sent(command: CommandId, message: Message, order: seq<Name>)

  /** Encodes, and survives the encoding. */
  ghost predicate Transmissible(s: Sent)
  {
    && Enumerates(s.order)
    && NumericHeaders(s.message)
    && EncodePdu(s.command, s.message, s.order).Some?
    && |EncodePdu(s.command, s.message, s.order).value| < U32_LIMIT
    && TlvsEncodable(s.message)
    && GoodPdu(s.command, s.message)
  }

  ghost function OnWire(s: Sent): (p: bytes)
    requires Transmissible(s)
  {
    EncodePdu(s.command, s.message, s.order).value
  }

  ghost function Arrived(s: Sent): (m: Message)
    requires Transmissible(s)
  {
    NormalPdu(s.command, s.message)
  }

  ghost function Wire(ss: seq<Sent>): (pdus: seq<bytes>)
    requires forall s <- ss :: Transmissible(s)
  {
    seq(|ss|, i requires 0 <= i < |ss| => assert ss[i] in ss; OnWire(ss[i]))
  }

  lemma EncodedIsWellFramed(s: Sent)
    requires Transmissible(s)
    ensures WellFramed(OnWire(s))
    ensures DecodePdu(OnWire(s)) == Some(Arrived(s))
  {
    hide EncodePdu, DecodePdu, EncodeMandatory, TlvsEncodable, NormalPdu, GoodPdu;
    Layout(s.command, s.message, s.order);
    RoundTrip(s.command, s.message, s.order);
  }

  /**
   From end to end: messages sent as PDUs over a stream that arrives in any chunks are decoded, in
   order and one each, to their normal forms.
   */
  lemma StreamRoundTrip(ss: seq<Sent>, tail: bytes, chunks: seq<bytes>)
    requires forall s <- ss :: Transmissible(s)
    requires !Complete(tail)
    requires Concat(chunks) == Concat(Wire(ss)) + tail
    ensures var r := ReceiveAll([], chunks);
            && r.ends && r.rest == tail
            && |r.messages| == |ss|
            && forall i :: 0 <= i < |ss| ==>
                             (Transmissible(ss[i]) && DecodePdu(r.messages[i]) == Some(Arrived(ss[i])))
  {
    hide Transmissible, DecodePdu, Arrived, ReceiveAll, OnWire, Concat, WellFramed;
    var pdus := Wire(ss);
    forall i | 0 <= i < |ss|
      ensures Transmissible(ss[i]) && WellFramed(pdus[i]) && DecodePdu(pdus[i]) == Some(Arrived(ss[i]))
    {
      assert ss[i] in ss;
      EncodedIsWellFramed(ss[i]);
    }
    PdusAnyChunking(pdus, tail, chunks);
  }
}
