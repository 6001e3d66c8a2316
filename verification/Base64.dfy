/**
 Base64 with the standard alphabet, mandatory canonical padding and no trailing bits
 (section 4 of RFC 4648), as the octet-string codecs use it.
 */
module Base64 {
  import opened Bytes

  const PAD: byte := 61  // '='

  type sextet = x: int | 0 <= x < 64

  function Symbol(i: sextet): (c: byte)
    ensures c != PAD && SextetOf(c) == Some(i)
  {
    if i < 26 then 65 + i           // 'A'..'Z'
    else if i < 52 then 71 + i      // 'a'..'z'
    else if i < 62 then i - 4       // '0'..'9'
    else if i == 62 then 43         // '+'
    else 47                         // '/'
  }

  function SextetOf(c: byte): (r: Option<sextet>)
  {
    if 65 <= c <= 90 then Some(c - 65)
    else if 97 <= c <= 122 then Some(c - 71)
    else if 48 <= c <= 57 then Some(c + 4)
    else if c == 43 then Some(62)
    else if c == 47 then Some(63)
    else None
  }

  lemma SymbolOfSextet(c: byte)
    ensures SextetOf(c).Some? ==> Symbol(SextetOf(c).value) == c && c != PAD
  {}

  /** The four sextets of three octets. */
  function Quad(a: byte, b: byte, c: byte): (q: seq<sextet>)
    ensures |q| == 4
    ensures Triple(q[0], q[1], q[2], q[3]) == [a, b, c]
    ensures b == 0 ==> q[1] % 16 == 0
    ensures c == 0 ==> q[2] % 4 == 0
  {
    var x, y := a % 4 * 16 + b / 16, b % 16 * 4 + c / 64;
    assert x / 16 == a % 4 && x % 16 == b / 16;
    assert y / 4 == b % 16 && y % 4 == c / 64;
    [a / 4, x, y, c % 64]
  }

  /** The three octets of four sextets. */
  function Triple(p: sextet, q: sextet, r: sextet, t: sextet): (b: bytes)
    ensures |b| == 3
  {
    [p * 4 + q / 16, q % 16 * 16 + r / 4, r % 4 * 64 + t]
  }

  lemma QuadOfTriple(p: sextet, q: sextet, r: sextet, t: sextet)
    ensures var b := Triple(p, q, r, t); Quad(b[0], b[1], b[2]) == [p, q, r, t]
  {
    var x, y, z := p * 4 + q / 16, q % 16 * 16 + r / 4, r % 4 * 64 + t;
    assert x / 4 == p && x % 4 == q / 16;
    assert y / 16 == q % 16 && y % 16 == r / 4;
    assert z / 64 == r % 4 && z % 64 == t;
  }

  function Encode(b: bytes): (s: bytes)
    decreases |b|
  {
    if b == [] then []
    else if |b| == 1 then
      var q := Quad(b[0], 0, 0);
      [Symbol(q[0]), Symbol(q[1]), PAD, PAD]
    else if |b| == 2 then
      var q := Quad(b[0], b[1], 0);
      [Symbol(q[0]), Symbol(q[1]), Symbol(q[2]), PAD]
    else
      var q := Quad(b[0], b[1], b[2]);
      [Symbol(q[0]), Symbol(q[1]), Symbol(q[2]), Symbol(q[3])] + Encode(b[3..])
  }

  function Decode(s: bytes): (r: Option<bytes>)
    decreases |s|
  {
    if s == [] then Some([])
    else if |s| < 4 then None
    else
      var p, q, r, t := SextetOf(s[0]), SextetOf(s[1]), SextetOf(s[2]), SextetOf(s[3]);
      if p.None? || q.None? then None
      else if |s| == 4 && s[3] == PAD && s[2] == PAD then
        if q.value % 16 == 0 then Some(Triple(p.value, q.value, 0, 0)[..1]) else None
      else if r.None? then None
      else if |s| == 4 && s[3] == PAD then
        if r.value % 4 == 0 then Some(Triple(p.value, q.value, r.value, 0)[..2]) else None
      else if t.None? then None
      else
        var rest := Decode(s[4..]);
        if rest.None? then None
        else Some(Triple(p.value, q.value, r.value, t.value) + rest.value)
  }

  /** Three octets are taken as one number of 24 bits, and written as its four digits to the base 64. */
  lemma GroupOfThree(a: byte, b: byte, c: byte)
    ensures Number64(Quad(a, b, c)) == a * 0x1_0000 + b * 0x100 + c
  {
    var (a1, a2) := (a / 4, a % 4);
    var (b1, b2) := (b / 16, b % 16);
    var (c1, c2) := (c / 64, c % 64);
    assert Quad(a, b, c) == [a1, a2 * 16 + b1, b2 * 4 + c1, c2];
    assert a == 4 * a1 + a2 && b == 16 * b1 + b2 && c == 64 * c1 + c2;
  }

  /** The number with four given digits to the base 64, the highest first. */
  function Number64(q: seq<int>): (n: int)
    requires |q| == 4
  {
    q[0] * 0x4_0000 + q[1] * 0x1000 + q[2] * 64 + q[3]
  }

  lemma {:induction false} DecodeGroup(p: sextet, q: sextet, r: sextet, t: sextet, rest: bytes)
    requires Decode(rest).Some?
    ensures Decode([Symbol(p), Symbol(q), Symbol(r), Symbol(t)] + rest)
         == Some(Triple(p, q, r, t) + Decode(rest).value)
  {
    var s := [Symbol(p), Symbol(q), Symbol(r), Symbol(t)] + rest;
    assert s[4..] == rest;
    assert s[3] != PAD;
  }

  lemma DecodeOneOctet(p: sextet, q: sextet)
    requires q % 16 == 0
    ensures Decode([Symbol(p), Symbol(q), PAD, PAD]) == Some(Triple(p, q, 0, 0)[..1])
  {
    assert SextetOf(Symbol(p)) == Some(p) && SextetOf(Symbol(q)) == Some(q);
  }

  lemma DecodeTwoOctets(p: sextet, q: sextet, r: sextet)
    requires r % 4 == 0
    ensures Decode([Symbol(p), Symbol(q), Symbol(r), PAD]) == Some(Triple(p, q, r, 0)[..2])
  {
    assert SextetOf(Symbol(p)) == Some(p) && SextetOf(Symbol(q)) == Some(q) && SextetOf(Symbol(r)) == Some(r);
  }

  lemma {:induction false} DecodeEncode(b: bytes)
    ensures Decode(Encode(b)) == Some(b)
    decreases |b|
  {
    if |b| == 1 {
      var q := Quad(b[0], 0, 0);
      DecodeOneOctet(q[0], q[1]);
      assert b == [b[0], 0, 0][..1];
    } else if |b| == 2 {
      var q := Quad(b[0], b[1], 0);
      DecodeTwoOctets(q[0], q[1], q[2]);
      assert b == [b[0], b[1], 0][..2];
    } else if |b| >= 3 {
      DecodeEncode(b[3..]);
      var q := Quad(b[0], b[1], b[2]);
      DecodeGroup(q[0], q[1], q[2], q[3], Encode(b[3..]));
      assert b == [b[0], b[1], b[2]] + b[3..];
    }
  }

  /** A short last group is the only text of its octets. */
  lemma EncodeDecodePadded(s: bytes)
    requires |s| == 4 && s[3] == PAD && Decode(s).Some?
    ensures Encode(Decode(s).value) == s
  {
    forall c: byte { SymbolOfSextet(c); }
    var p, q := SextetOf(s[0]).value, SextetOf(s[1]).value;
    if s[2] == PAD {
      QuadOfTriple(p, q, 0, 0);
      assert Triple(p, q, 0, 0)[1] == 0;
    } else {
      var r := SextetOf(s[2]).value;
      QuadOfTriple(p, q, r, 0);
      assert Triple(p, q, r, 0)[2] == 0;
    }
  }

  /** Only the canonical text of an octet string decodes: the decoder accepts nothing else. */
  lemma {:induction false} EncodeDecode(s: bytes)
    requires Decode(s).Some?
    ensures Encode(Decode(s).value) == s
    decreases |s|
  {
    if |s| == 4 && s[3] == PAD {
      EncodeDecodePadded(s);
    } else if s != [] {
      forall c: byte { SymbolOfSextet(c); }
      var p, q, r, t := SextetOf(s[0]).value, SextetOf(s[1]).value, SextetOf(s[2]).value, SextetOf(s[3]).value;
      var b, rest := Triple(p, q, r, t), Decode(s[4..]).value;
      QuadOfTriple(p, q, r, t);
      EncodeDecode(s[4..]);
      assert (b + rest)[3..] == rest;
      assert s == s[..4] + s[4..];
    }
  }

  lemma EncodeInjective(a: bytes, b: bytes)
    requires Encode(a) == Encode(b)
    ensures a == b
  {
    DecodeEncode(a);
    DecodeEncode(b);
  }
}
