/** What happens to a PDU that is decoded, relabelled or projected, and encoded again. */
module WireLaws {
  import opened Bytes
  import opened Values
  import opened Codec
  import opened CommandIds
  import opened Tables
  import opened Pdu
  import opened PduLaws
  import opened SmppMessage

  // ---- permutations of optional fields ----------------------------------------------------

  lemma {:induction false} CountOfDistinct<T>(a: seq<T>, x: T)
    requires forall i, j :: 0 <= i < j < |a| ==> a[i] != a[j]
    ensures multiset(a)[x] == if x in a then 1 else 0
    decreases |a|
  {
    if a != [] {
      CountOfDistinct(a[1..], x);
      assert a == [a[0]] + a[1..];
    }
  }

  lemma DistinctElements<T>(a: seq<T>, b: seq<T>)
    requires forall i, j :: 0 <= i < j < |a| ==> a[i] != a[j]
    requires forall i, j :: 0 <= i < j < |b| ==> b[i] != b[j]
    requires forall x :: x in a <==> x in b
    ensures multiset(a) == multiset(b)
  {
    forall x ensures multiset(a)[x] == multiset(b)[x] {
      CountOfDistinct(a, x);
      CountOfDistinct(b, x);
    }
  }

  lemma RemoveAt<T>(b: seq<T>, i: nat)
    requires i < |b|
    ensures multiset(b) == multiset(b[..i] + b[i + 1..]) + multiset{b[i]}
  {
    assert b == b[..i] + [b[i]] + b[i + 1..];
  }

  lemma {:induction false} ChunksAreDistinct(order: seq<Name>, m: Message)
    requires Chunks(order, m).Some?
    requires forall i, j :: 0 <= i < j < |order| ==> order[i] != order[j]
    ensures var ks := Chunks(order, m).value;
            forall i, j :: 0 <= i < j < |ks| ==> ks[i].name != ks[j].name
  {
    hide TlvOf, Encode, Chunks;
    if order != [] {
      ChunksStep(order, m);
      ChunksAreDistinct(order[1..], m);
      var ks, rest := Chunks(order, m).value, Chunks(order[1..], m).value;
      if order[0] in m && TlvOf(order[0]).Some? {
        forall i, j | 0 <= i < j < |ks| ensures ks[i].name != ks[j].name {
          assert ks[j] == rest[j - 1] && ks[j].name in order[1..];
        }
      }
    }
  }

  /** Two messages with the same optional fields are written with the same TLVs, in some order. */
  lemma SameChunks(order: seq<Name>, order': seq<Name>, m: Message, m': Message)
    requires Chunks(order, m).Some? && Chunks(order', m').Some? && Enumerates(order) && Enumerates(order')
    requires forall n :: EncodableTlv(m, n) <==> EncodableTlv(m', n)
    requires forall n :: EncodableTlv(m, n) ==> ChunkOf(m, n) == ChunkOf(m', n)
    ensures multiset(Chunks(order, m).value) == multiset(Chunks(order', m').value)
  {
    hide TlvOf, Encode, Chunks;
    ChunksCover(order, m);
    ChunksCover(order', m');
    ChunksAreDistinct(order, m);
    ChunksAreDistinct(order', m');
    var ks, ks' := Chunks(order, m).value, Chunks(order', m').value;
    forall k ensures k in ks <==> k in ks' {
      if k in ks { assert ChunkOf(m', k.name) in ks'; }
      if k in ks' { assert ChunkOf(m, k.name) in ks; }
    }
    DistinctElements(ks, ks');
  }

  lemma CancelOne<T>(p: multiset<T>, q: multiset<T>, x: T)
    requires p + multiset{x} == q + multiset{x}
    ensures p == q
  {
    forall y ensures p[y] == q[y] {
      assert (p + multiset{x})[y] == (q + multiset{x})[y];
    }
  }

  lemma FlattenWithout(b: seq<Chunk>, i: nat)
    requires i < |b|
    ensures |Flatten(b)| == |Flatten(b[..i] + b[i + 1..])| + |ChunkBytes(b[i])|
  {
    hide ChunkBytes;
    assert b == b[..i] + ([b[i]] + b[i + 1..]);
    FlattenAppend(b[..i], [b[i]] + b[i + 1..]);
    FlattenAppend([b[i]], b[i + 1..]);
    FlattenAppend(b[..i], b[i + 1..]);
    assert Flatten([b[i]]) == ChunkBytes(b[i]) + Flatten([]);
  }

  lemma {:induction false} PermutedLength(a: seq<Chunk>, b: seq<Chunk>)
    requires multiset(a) == multiset(b)
    ensures |Flatten(a)| == |Flatten(b)|
    decreases |a|
  {
    hide ChunkBytes, Flatten;
    if a == [] {
      assert |multiset(a)| == |a| && |multiset(b)| == |b|;
    } else {
      assert a[0] in multiset(b);
      var i :| 0 <= i < |b| && b[i] == a[0];
      RemoveAt(a, 0);
      RemoveAt(b, i);
      FlattenWithout(a, 0);
      FlattenWithout(b, i);
      CancelOne(multiset(a[..0] + a[1..]), multiset(b[..i] + b[i + 1..]), a[0]);
      PermutedLength(a[..0] + a[1..], b[..i] + b[i + 1..]);
    }
  }

  // ---- encoding the normal form again -----------------------------------------------------

  /** The octets of the country list, when there is one, read the same in both directions. */
  predicate CountryIsPalindrome(m: Message)
  {
    DestAddrNpCountry in m && AsU64(m[DestAddrNpCountry]).Some? ==>
      Reverse(Digits(AsU64(m[DestAddrNpCountry]).value)) == Digits(AsU64(m[DestAddrNpCountry]).value)
  }

  lemma {:induction false} MembersAgree(ms: seq<Member>, a: Message, b: Message)
    requires forall x <- ms :: Get(a, x.name) == Get(b, x.name)
    ensures EncodeMembers(ms, a) == EncodeMembers(ms, b)
    decreases |ms|
  {
    hide Encode;
    if ms != [] { MembersAgree(ms[1..], a, b); }
  }

  lemma {:induction false} DefaultsDone(fs: seq<Field>, m: Message)
    requires forall f <- fs :: f.member.name in m
    ensures WithDefaults(fs, m) == m
    decreases |fs|
  {
    if fs != [] { DefaultsDone(fs[1..], m); }
  }

  lemma {:induction false} NormalKeys(ms: seq<Member>, m: Message, acc: Message)
    requires EncodeMembers(ms, m).Some?
    ensures NormalMembers(ms, m, acc).Keys == acc.Keys + set x <- ms :: x.name
    decreases |ms|
  {
    hide Encode, Normal;
    if ms != [] {
      NormalKeys(ms[1..], m, acc[ms[0].name := Normal(ms[0].codec, m[ms[0].name])]);
      assert forall x <- ms :: x == ms[0] || x in ms[1..];
    }
  }

  lemma {:induction false} NormalAt(ms: seq<Member>, m: Message, acc: Message, x: Member)
    requires EncodeMembers(ms, m).Some? && x in ms
    requires forall i, j :: 0 <= i < j < |ms| ==> ms[i].name != ms[j].name
    ensures x.name in m && Encode(x.codec, m[x.name]).Some?
    ensures Get(NormalMembers(ms, m, acc), x.name) == Some(Normal(x.codec, m[x.name]))
    decreases |ms|
  {
    hide Encode, Normal;
    var k := ms[0];
    var acc' := acc[k.name := Normal(k.codec, m[k.name])];
    if x == k {
      NormalMembersKeep(ms[1..], m, acc', k.name);
    } else {
      assert x in ms[1..];
      NormalAt(ms[1..], m, acc', x);
    }
  }

  /** A mandatory field that is also a TLV comes from the message itself. */
  lemma OverlapComesFromMessage(c: CommandId, m: Message, x: Member)
    requires EncodeMandatory(c, m).Some? && x in MembersOf(c) && TlvOf(x.name).Some?
    ensures x.name in m && Get(WithDefaults(FieldsOf(c), m), x.name) == Some(m[x.name])
    ensures x.codec == U8 == TlvOf(x.name).value.codec
  {
    hide FieldsOf, TlvOf, Encode, Good;
    MembersAreSound(c);
    FieldsAreSound(c);
    var i :| 0 <= i < |MembersOf(c)| && MembersOf(c)[i] == x;
    assert SoundField(FieldsOf(c)[i]);
    OverlapIsHarmless(x.name);
    DefaultsAt(FieldsOf(c), m, i);
    MembersHaveValues(MembersOf(c), WithDefaults(FieldsOf(c), m), x);
  }

  lemma {:induction false} MembersHaveValues(ms: seq<Member>, m: Message, x: Member)
    requires EncodeMembers(ms, m).Some? && x in ms
    ensures x.name in m && Encode(x.codec, m[x.name]).Some?
    decreases |ms|
  {
    hide Encode;
    if x != ms[0] { MembersHaveValues(ms[1..], m, x); }
  }

  /** The values of a normal form: fields in their normal forms, defaults included. */
  lemma NormalValues(c: CommandId, m: Message, x: Member)
    requires EncodeMandatory(c, m).Some? && TlvsEncodable(m) && x in MembersOf(c)
    ensures Get(NormalPdu(c, m), x.name) == Get(NormalFixed(c, m), x.name)
    ensures x.name in NormalPdu(c, m)
  {
    hide FieldsOf, TlvOf, Encode, Good, NormalMembers, MembersOf, WithDefaults;
    MembersAreSound(c);
    var d := WithDefaults(FieldsOf(c), m);
    NormalAt(MembersOf(c), d, HeaderOf(c, m), x);
    if x.name in m && TlvOf(x.name).Some? {
      OverlapComesFromMessage(c, m, x);
    }
  }

  /** The mandatory part of the normal form is the mandatory part of the message. */
  lemma SameMandatory(c: CommandId, m: Message, m': Message)
    requires EncodeMandatory(c, m).Some? && TlvsEncodable(m)
    requires GoodMembers(MembersOf(c), WithDefaults(FieldsOf(c), m))
    requires forall n :: !HeaderName(n) ==> Get(m', n) == Get(NormalPdu(c, m), n)
    ensures EncodeMandatory(c, m') == EncodeMandatory(c, m)
  {
    hide FieldsOf, TlvOf, Encode, Good, GoodMembers, EncodeMembers, NormalMembers, MembersOf, WithDefaults, HeaderName;
    var fs, ms, d := FieldsOf(c), MembersOf(c), WithDefaults(FieldsOf(c), m);
    MembersAreSound(c);
    forall x <- ms ensures Get(m', x.name) == Get(NormalFixed(c, m), x.name) && x.name in m' {
      NormalValues(c, m, x);
    }
    forall f <- fs ensures f.member.name in m' {
      var i :| 0 <= i < |fs| && fs[i] == f;
      assert ms[i] == f.member && ms[i] in ms;
    }
    DefaultsDone(fs, m');
    ReencodeMembers(ms, d, HeaderOf(c, m));
    MembersAgree(ms, m', NormalFixed(c, m));
  }

  /** One optional field of the normal form is written as before. */
  lemma SameChunk(c: CommandId, m: Message, n: Name)
    requires EncodeMandatory(c, m).Some? && TlvsEncodable(m) && GoodPdu(c, m)
    ensures TlvOf(n).Some? ==> (n in m <==> n in NormalPdu(c, m))
    ensures EncodableTlv(m, n) ==>
              && EncodableTlv(NormalPdu(c, m), n)
              && (ChunkOf(NormalPdu(c, m), n) == ChunkOf(m, n) <==> (n == DestAddrNpCountry ==> CountryIsPalindrome(m)))
  {
    hide FieldsOf, TlvOf, Encode, Good, NormalPdu, GoodPdu, Normal, CountryIsPalindrome, EncodeMandatory;
    NormalTlvAt(c, m, n);
    if EncodableTlv(m, n) {
      SameTlvValue(m, n);
    }
  }

  lemma NormalTlvAt(c: CommandId, m: Message, n: Name)
    requires EncodeMandatory(c, m).Some? && TlvsEncodable(m)
    ensures TlvOf(n).Some? ==> (n in m <==> n in NormalPdu(c, m))
    ensures EncodableTlv(m, n) ==> Get(NormalPdu(c, m), n) == Some(Normal(TlvOf(n).value.codec, m[n]))
    ensures EncodableTlv(m, n) && GoodPdu(c, m) ==> GoodTlv(m, n)
  {
    hide FieldsOf, TlvOf, Encode, Good, GoodMembers, NormalFixed, MembersOf, WithDefaults, Normal, GoodTlv;
    TlvNamesOfNormal(c, m, n);
  }

  lemma TlvNamesOfNormal(c: CommandId, m: Message, n: Name)
    requires EncodeMandatory(c, m).Some? && TlvsEncodable(m)
    ensures TlvOf(n).Some? && n in NormalFixed(c, m) ==> n in m
  {
    hide FieldsOf, TlvOf, Encode, Good, GoodMembers, NormalMembers, MembersOf, WithDefaults, Normal;
    if TlvOf(n).Some? && n in NormalFixed(c, m) {
      NormalKeys(MembersOf(c), WithDefaults(FieldsOf(c), m), HeaderOf(c, m));
      TlvCodecKinds(n);
      var x :| x in MembersOf(c) && x.name == n;
      OverlapComesFromMessage(c, m, x);
    }
  }

  lemma SameTlvValue(m: Message, n: Name)
    requires EncodableTlv(m, n) && Good(TlvOf(n).value.codec, m[n])
    ensures var c := TlvOf(n).value.codec;
            && Encode(c, Normal(c, m[n])).Some?
            && (Encode(c, Normal(c, m[n])) == Encode(c, m[n]) <==> (n == DestAddrNpCountry ==> CountryIsPalindrome(m)))
  {
    CountryCodec(n);
    TlvCodecKinds(n);
    LongTlvIsOctets(m, n);
    hide TlvOf, Digits, Reverse, OfDigits, Good;
    if n == DestAddrNpCountry {
      VarLengthIntReversesOctets(AsU64(m[n]).value);
      assert Normal(VarLengthInt, m[n]) == Normal(VarLengthInt, Number(AsU64(m[n]).value));
    } else {
      Reencode(TlvOf(n).value.codec, m[n]);
    }
  }

  /** The country list is the only variable-length integer. */
  lemma CountryCodec(n: Name)
    requires TlvOf(n).Some?
    ensures TlvOf(n).value.codec == VarLengthInt <==> n == DestAddrNpCountry
  {}

  /**
   Encoding the normal form again, possibly for another command with the same fields and with
   other header words: the mandatory part is the same, and the TLVs are the same up to their
   order exactly when the country list is a palindrome.
   */
  lemma ReencodeAs(c: CommandId, c': CommandId, m: Message, m': Message, order: seq<Name>, order': seq<Name>)
    requires EncodePdu(c, m, order).Some? && NumericHeaders(m) && Enumerates(order) && Enumerates(order')
    requires TlvsEncodable(m) && GoodPdu(c, m)
    requires FieldsOf(c') == FieldsOf(c)
    requires forall n :: !HeaderName(n) ==> Get(m', n) == Get(NormalPdu(c, m), n)
    ensures EncodePdu(c', m', order').Some?
    ensures EncodeMandatory(c', m') == EncodeMandatory(c, m)
    ensures multiset(Chunks(order', m').value) == multiset(Chunks(order, m).value) <==> CountryIsPalindrome(m)
  {
    hide FieldsOf, TlvOf, Encode, Chunks, EncodeMembers, Good, GoodMembers, WithDefaults, NormalPdu, ChunkOf;
    hide CountryIsPalindrome, EncodePdu, HeaderName;
    SameMandatory(c, m, m');
    assert MembersOf(c') == MembersOf(c);
    forall n | TlvOf(n).Some?
      ensures n in m <==> n in m'
      ensures EncodableTlv(m, n) <==> EncodableTlv(m', n)
      ensures EncodableTlv(m, n) ==> (ChunkOf(m', n) == ChunkOf(m, n)
              <==> (n == DestAddrNpCountry ==> CountryIsPalindrome(m)))
    {
      SameTlv(c, m, m', n);
    }
    ChunksExist(order', m');
    if CountryIsPalindrome(m) {
      SameChunks(order, order', m, m');
    } else {
      CountryPresent(m);
      CountryDiffers(order, order', m, m');
    }
  }

  lemma CountryPresent(m: Message)
    requires !CountryIsPalindrome(m) && TlvsEncodable(m)
    ensures EncodableTlv(m, DestAddrNpCountry)
  {
    assert TlvOf(DestAddrNpCountry).Some?;
  }

  lemma SameTlv(c: CommandId, m: Message, m': Message, n: Name)
    requires EncodeMandatory(c, m).Some? && TlvsEncodable(m) && GoodPdu(c, m) && TlvOf(n).Some?
    requires forall n :: !HeaderName(n) ==> Get(m', n) == Get(NormalPdu(c, m), n)
    ensures n in m <==> n in m'
    ensures EncodableTlv(m, n) <==> EncodableTlv(m', n)
    ensures EncodableTlv(m, n) ==> (ChunkOf(m', n) == ChunkOf(m, n)
            <==> (n == DestAddrNpCountry ==> CountryIsPalindrome(m)))
  {
    hide FieldsOf, TlvOf, Encode, Good, GoodPdu, NormalPdu, CountryIsPalindrome;
    TlvCodecKinds(n);
    SameChunk(c, m, n);
    assert Get(m', n) == Get(NormalPdu(c, m), n);
  }

  lemma {:induction false} ChunksExist(order: seq<Name>, m: Message)
    requires TlvsEncodable(m)
    ensures Chunks(order, m).Some?
  {
    hide TlvOf, Encode;
    if order != [] { ChunksExist(order[1..], m); }
  }

  lemma CountryDiffers(order: seq<Name>, order': seq<Name>, m: Message, m': Message)
    requires Chunks(order, m).Some? && Chunks(order', m').Some? && Enumerates(order) && Enumerates(order')
    requires EncodableTlv(m, DestAddrNpCountry) && EncodableTlv(m', DestAddrNpCountry)
    requires ChunkOf(m', DestAddrNpCountry) != ChunkOf(m, DestAddrNpCountry)
    ensures multiset(Chunks(order', m').value) != multiset(Chunks(order, m).value)
  {
    hide TlvOf, Encode, Chunks;
    ChunksCover(order, m);
    ChunksCover(order', m');
    var k := ChunkOf(m, DestAddrNpCountry);
    assert DestAddrNpCountry in order && k in Chunks(order, m).value;
    assert k in multiset(Chunks(order, m).value);
    assert k !in Chunks(order', m').value;
  }

  // ---- stability on the wire --------------------------------------------------------------

  /** `b'` is `b` with other words 1 and 3 and its TLVs in another order. */
  ghost predicate Relabelled(b: bytes, b': bytes, id: u32, sequence: u32, fixed: nat, ks: seq<Chunk>, ks': seq<Chunk>)
  {
    && 16 <= fixed <= |b| && |b'| == |b|
    && b'[..4] == b[..4] && b'[4..8] == Be32(id) && b'[8..12] == b[8..12] && b'[12..16] == Be32(sequence)
    && b'[16..fixed] == b[16..fixed]
    && b[fixed..] == Flatten(ks) && b'[fixed..] == Flatten(ks') && multiset(ks') == multiset(ks)
  }

  /** The message with a command identifier and a sequence number of its own. */
  function Relabel(m: Message, id: Value, sequence: u32): (r: Message)
  {
    m[CommandIdKey := id][SequenceNumber := Number(sequence)]
  }

  lemma ReencodeRelabelled(c: CommandId, c': CommandId, m: Message, m': Message, order: seq<Name>, order': seq<Name>)
    requires EncodePdu(c, m, order).Some? && NumericHeaders(m) && Enumerates(order) && Enumerates(order')
    requires TlvsEncodable(m) && GoodPdu(c, m) && CountryIsPalindrome(m) && FieldsOf(c') == FieldsOf(c)
    requires NumericHeaders(m') && HeaderNumber(m', CommandStatus) == HeaderNumber(m, CommandStatus)
    requires forall n :: !HeaderName(n) ==> Get(m', n) == Get(NormalPdu(c, m), n)
    ensures EncodePdu(c', m', order').Some?
    ensures Relabelled(EncodePdu(c, m, order).value, EncodePdu(c', m', order').value,
                       AsU32(c'), HeaderNumber(m', SequenceNumber),
                       16 + |EncodeMandatory(c, m).value|, Chunks(order, m).value, Chunks(order', m').value)
  {
    hide FieldsOf, TlvOf, Encode, Chunks, EncodeMandatory, GoodPdu, NormalPdu, EncodePdu, HeaderName, Flatten;
    hide HeaderNumber, AsU32;
    ReencodeAs(c, c', m, m', order, order');
    Layout(c, m, order);
    Layout(c', m', order');
    PermutedLength(Chunks(order, m).value, Chunks(order', m').value);
    var mand := EncodeMandatory(c, m).value;
    var b, b' := EncodePdu(c, m, order).value, EncodePdu(c', m', order').value;
    DropPrefix(mand, Flatten(Chunks(order, m).value));
    DropPrefix(mand, Flatten(Chunks(order', m').value));
    var k := 16 + |mand|;
    assert b[16..k] == b[16..][..|mand|] && b'[16..k] == b'[16..][..|mand|];
    assert b[k..] == b[16..][|mand|..] && b'[k..] == b'[16..][|mand|..];
  }

  lemma HeaderOfDecoded(c: CommandId, m: Message)
    requires EncodeMandatory(c, m).Some? && TlvsEncodable(m)
    ensures var d := NormalPdu(c, m);
            && Get(d, CommandIdKey) == Some(String(HexText(AsU32(c))))
            && Get(d, CommandStatus) == Some(Number(HeaderNumber(m, CommandStatus)))
            && Get(d, SequenceNumber) == Some(Number(HeaderNumber(m, SequenceNumber)))
  {
    hide FieldsOf, TlvOf, Encode, HexText, AsU32, NameOf, HeaderNumber, NormalMembers, MembersOf, WithDefaults;
    hide HeaderName;
    MembersAreSound(c);
    forall n | HeaderName(n) ensures n in HeaderOf(c, m) && Get(NormalPdu(c, m), n) == Get(HeaderOf(c, m), n) {
      HeaderNames(n);
      if TlvOf(n).Some? { TlvCodecKinds(n); }
      NormalMembersKeep(MembersOf(c), WithDefaults(FieldsOf(c), m), HeaderOf(c, m), n);
    }
    HeaderNames(CommandIdKey);
    HeaderNames(CommandStatus);
    HeaderNames(SequenceNumber);
  }

  lemma HeaderNames(n: Name)
    ensures HeaderName(n) <==> n in {CommandNameKey, CommandIdKey, CommandStatus, SequenceNumber}
  {}

  /**
   Decoding a PDU and encoding the result again, through the hexadecimal command identifier,
   gives the same octets except for the order of the TLVs.
   */
  lemma WireStability(c: CommandId, m: Message, order: seq<Name>, order': seq<Name>)
    requires EncodePdu(c, m, order).Some? && NumericHeaders(m) && Enumerates(order) && Enumerates(order')
    requires TlvsEncodable(m) && GoodPdu(c, m) && CountryIsPalindrome(m)
    ensures var b := EncodePdu(c, m, order).value;
            && DecodePdu(b).Some? && FromJson(DecodePdu(b).value, order').Some?
            && Relabelled(b, FromJson(DecodePdu(b).value, order').value, AsU32(c), HeaderNumber(m, SequenceNumber),
                          16 + |EncodeMandatory(c, m).value|, Chunks(order, m).value,
                          Chunks(order', DecodePdu(b).value).value)
  {
    hide FieldsOf, TlvOf, Encode, Chunks, EncodeMandatory, GoodPdu, NormalPdu, EncodePdu, DecodePdu, HeaderName;
    hide HexText, FromStr, CountryIsPalindrome, AsU32, FromU32, Relabelled;
    RoundTrip(c, m, order);
    HeaderOfDecoded(c, m);
    FromHexText(AsU32(c));
    NumbersAreUnique(c, AsU32(c));
    ReencodeRelabelled(c, c, m, NormalPdu(c, m), order, order');
  }

  /** A submit_sm sent on as deliver_sm differs only in its two header words and the order of its TLVs. */
  lemma SubmitRelabelledAsDeliver(m: Message, order: seq<Name>, order': seq<Name>, sequence: u32)
    requires EncodePdu(SubmitSm, m, order).Some? && NumericHeaders(m) && Enumerates(order) && Enumerates(order')
    requires TlvsEncodable(m) && GoodPdu(SubmitSm, m) && CountryIsPalindrome(m)
    ensures var b := EncodePdu(SubmitSm, m, order).value;
            && DecodePdu(b).Some?
            && var d := Relabel(DecodePdu(b).value, Number(AsU32(DeliverSm)), sequence);
            && FromJson(d, order').Some?
            && Relabelled(b, FromJson(d, order').value, AsU32(DeliverSm), sequence,
                          16 + |EncodeMandatory(SubmitSm, m).value|, Chunks(order, m).value, Chunks(order', d).value)
  {
    SubmitAndDeliverShareFields();
    hide FieldsOf, Chunks, EncodeMandatory, GoodPdu, NormalPdu, EncodePdu, DecodePdu, FromJson;
    hide CountryIsPalindrome, Relabelled, Enumerates, HeaderNumber, HeaderName;
    RoundTrip(SubmitSm, m, order);
    HeaderOfDecoded(SubmitSm, m);
    var d := Relabel(NormalPdu(SubmitSm, m), Number(AsU32(DeliverSm)), sequence);
    RelabelledHeader(NormalPdu(SubmitSm, m), HeaderNumber(m, CommandStatus), sequence, order');
    ReencodeRelabelled(SubmitSm, DeliverSm, m, d, order, order');
  }

  lemma RelabelledHeader(m: Message, status: u32, sequence: u32, order: seq<Name>)
    requires Get(m, CommandStatus) == Some(Number(status))
    ensures var d := Relabel(m, Number(AsU32(DeliverSm)), sequence);
            && NumericHeaders(d) && HeaderNumber(d, CommandStatus) == status
               && HeaderNumber(d, SequenceNumber) == sequence
            && FromJson(d, order) == EncodePdu(DeliverSm, d, order)
            && forall n :: !HeaderName(n) ==> Get(d, n) == Get(m, n)
  {
    hide EncodePdu, FromU32, FromStr;
    NumbersAreUnique(DeliverSm, AsU32(DeliverSm));
  }

  lemma SubmitAndDeliverShareFields()
    ensures FieldsOf(DeliverSm) == FieldsOf(SubmitSm)
  {
    hide SmFields;
  }
}
