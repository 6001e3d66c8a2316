/** Octets, big-endian integers, C-octet strings and the growable buffer the codec reads and writes. */
module Bytes {

  datatype Option<+T> = None | Some(value: T)

  type byte = x: int | 0 <= x < 256
  type bytes = seq<byte>

  const U16_LIMIT := 0x1_0000
  const U32_LIMIT := 0x1_0000_0000
  const U64_LIMIT := 0x1_0000_0000_0000_0000

  type u16 = x: int | 0 <= x < U16_LIMIT
  type u32 = x: int | 0 <= x < U32_LIMIT

  function Be16(n: nat): (b: bytes)
    requires n < U16_LIMIT
    ensures |b| == 2 && OfBe16(b) == n
  {
    [n / 256, n % 256]
  }

  function OfBe16(b: bytes): (n: nat)
    requires |b| == 2
    ensures n < U16_LIMIT
  {
    b[0] as int * 256 + b[1]
  }

  function Be32(n: nat): (b: bytes)
    requires n < U32_LIMIT
    ensures |b| == 4 && OfBe32(b) == n
  {
    var h := n / 256;
    var g := h / 256;
    [g / 256, g % 256, h % 256, n % 256]
  }

  function OfBe32(b: bytes): (n: nat)
    requires |b| == 4
    ensures n < U32_LIMIT
  {
    ((b[0] as int * 256 + b[1]) * 256 + b[2]) * 256 + b[3]
  }

  /** The octets of an ASCII string literal. */
  function Ascii(s: string): (b: bytes)
    ensures |b| == |s|
  {
    seq(|s|, i requires 0 <= i < |s| => s[i] as int % 256)
  }

  /** Index of the first NUL, or the length when there is none. */
  function NulIndex(b: bytes): (k: nat)
    ensures k <= |b|
    ensures 0 !in b[..k]
    ensures k < |b| ==> b[k] == 0
  {
    if b == [] || b[0] == 0 then 0 else
    var k := 1 + NulIndex(b[1..]);
    assert b[..k] == [b[0]] + b[1..][..k - 1];
    k
  }

  /** A C-octet string at the head of a buffer ends at its own NUL, whatever follows. */
  lemma {:induction false} NulIndexOfCString(s: bytes, rest: bytes)
    ensures 0 !in s ==> NulIndex(s + [0] + rest) == |s|
    ensures 0 in s ==> NulIndex(s + [0] + rest) < |s|
  {
    if s != [] {
      NulIndexOfCString(s[1..], rest);
      assert (s + [0] + rest)[1..] == s[1..] + [0] + rest;
      assert 0 in s <==> s[0] == 0 || 0 in s[1..];
    }
  }

  lemma DropPrefix<T>(a: seq<T>, b: seq<T>)
    ensures (a + b)[..|a|] == a && (a + b)[|a|..] == b
  {}

  /** The growable octet buffer: writes append at the end, reads consume from the front. */
  class BytesMut {
    var data: bytes

    constructor (initial: bytes)
      ensures data == initial
    {
      data := initial;
    }

    method Put(b: bytes)
      modifies this
      ensures data == old(data) + b
    {
      data := data + b;
    }

    method PutU8(n: byte)
      modifies this
      ensures data == old(data) + [n]
    {
      data := data + [n];
    }

    method PutU16(n: nat)
      requires n < U16_LIMIT
      modifies this
      ensures data == old(data) + Be16(n)
    {
      data := data + Be16(n);
    }

    method PutU32(n: nat)
      requires n < U32_LIMIT
      modifies this
      ensures data == old(data) + Be32(n)
    {
      data := data + Be32(n);
    }

    /** Removes and returns the first `n` octets. */
    method SplitTo(n: nat) returns (head: bytes)
      requires n <= |data|
      modifies this
      ensures head + data == old(data) && |head| == n
      ensures head == old(data)[..n] && data == old(data)[n..]
    {
      head := data[..n];
      data := data[n..];
    }

    method ReadU8() returns (r: Option<byte>)
      modifies this
      ensures r.Some? <==> |old(data)| >= 1
      ensures r.Some? ==> r.value == old(data)[0] && data == old(data)[1..]
      ensures r.None? ==> data == old(data)
    {
      if |data| < 1 { return None; }
      var head := SplitTo(1);
      r := Some(head[0]);
    }

    method ReadU16() returns (r: Option<nat>)
      modifies this
      ensures r.Some? <==> |old(data)| >= 2
      ensures r.Some? ==> r.value == OfBe16(old(data)[..2]) && data == old(data)[2..]
      ensures r.None? ==> data == old(data)
    {
      if |data| < 2 { return None; }
      var head := SplitTo(2);
      r := Some(OfBe16(head));
    }

    method ReadU32() returns (r: Option<nat>)
      modifies this
      ensures r.Some? <==> |old(data)| >= 4
      ensures r.Some? ==> r.value == OfBe32(old(data)[..4]) && data == old(data)[4..]
      ensures r.None? ==> data == old(data)
    {
      if |data| < 4 { return None; }
      var head := SplitTo(4);
      r := Some(OfBe32(head));
    }

    /** Reads `length` octets; a request for zero octets is refused. */
    method Read(length: nat) returns (r: Option<bytes>)
      modifies this
      ensures r.Some? <==> 0 < length <= |old(data)|
      ensures r.Some? ==> r.value == old(data)[..length] && data == old(data)[length..]
      ensures r.None? ==> data == old(data)
    {
      if 0 < length <= |data| {
        var head := SplitTo(length);
        r := Some(head);
      } else {
        r := None;
      }
    }

    /** Reads up to the first NUL, which is consumed and dropped. */
    method ReadCOctetStr() returns (r: Option<bytes>)
      modifies this
      ensures r.Some? <==> NulIndex(old(data)) < |old(data)|
      ensures r.Some? ==> r.value == old(data)[..NulIndex(old(data))]
                          && data == old(data)[NulIndex(old(data)) + 1..]
      ensures r.None? ==> data == old(data)
    {
      var pos := NulIndex(data);
      if pos == |data| { return None; }
      var head := SplitTo(pos + 1);
      assert head[..pos] == old(data)[..pos];
      r := Some(head[..pos]);
    }
  }
}
