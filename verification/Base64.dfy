/** The base64 codec used for bytes fields: RFC 4648, section 4. Strings are byte strings. */
module Base64 {

  type Bytes = seq<bv8>

  datatype Decoded = Ok(data: Bytes) | BadSize | BadData

  /** '='. */
  const PAD: bv8 := 61

  /** The encoder's table: 'A'..'Z', 'a'..'z', '0'..'9', '+', '/'. */
  function Letter(n: bv8): bv8
    requires n < 64
  {
    if n < 26 then n + 65
    else if n < 52 then n + 71
    else if n < 62 then n - 4
    else if n == 62 then 43
    else 47
  }

  /** The decoder's table; 0x80 marks a byte outside the alphabet, and '=' counts as zero. */
  function Value(c: bv8): bv8 {
    if 65 <= c <= 90 then c - 65
    else if 97 <= c <= 122 then c - 71
    else if 48 <= c <= 57 then c + 4
    else if c == 43 then 62
    else if c == 47 then 63
    else if c == PAD then 0
    else 0x80
  }

  predicate InAlphabet(c: bv8) { Value(c) < 64 && c != PAD }

  lemma LetterValue(n: bv8)
    requires n < 64
    ensures InAlphabet(Letter(n)) && Value(Letter(n)) == n
  {
  }

  lemma ValueLetter(c: bv8)
    requires InAlphabet(c)
    ensures Letter(Value(c)) == c
  {
  }

  /** The alphabet of RFC 4648, table 1. */
  lemma Alphabet(n: bv8)
    requires n < 64
    ensures n < 26 ==> Letter(n) as int == 'A' as int + n as int
    ensures 26 <= n < 52 ==> Letter(n) as int == 'a' as int + (n as int - 26)
    ensures 52 <= n < 62 ==> Letter(n) as int == '0' as int + (n as int - 52)
    ensures n == 62 ==> Letter(n) as int == '+' as int
    ensures n == 63 ==> Letter(n) as int == '/' as int
    ensures PAD as int == '=' as int
  {
  }

  // ---------- Three bytes against four six-bit groups ----------

  function First(b: bv8): bv32 { b as bv32 << 16 }

  function OrSecond(n: bv32, b: bv8): bv32 { n | (b as bv32 << 8) }

  function OrThird(n: bv32, b: bv8): bv32 { n | b as bv32 }

  function Pack3(b0: bv8, b1: bv8, b2: bv8): bv32 {
    OrThird(OrSecond(First(b0), b1), b2)
  }

  lemma OrZero(n: bv32)
    ensures OrSecond(n, 0) == n && OrThird(n, 0) == n
  {
  }

  function Pack4(n0: bv8, n1: bv8, n2: bv8, n3: bv8): bv32 {
    (n0 as bv32 << 18) | (n1 as bv32 << 12) | (n2 as bv32 << 6) | n3 as bv32
  }

  /** The six bits of n that start at bit 18, 12, 6 or 0. */
  function Six18(n: bv32): (r: bv8) ensures r < 64 { ((n >> 18) & 0x3f) as bv8 }

  function Six12(n: bv32): (r: bv8) ensures r < 64 { ((n >> 12) & 0x3f) as bv8 }

  function Six6(n: bv32): (r: bv8) ensures r < 64 { ((n >> 6) & 0x3f) as bv8 }

  function Six0(n: bv32): (r: bv8) ensures r < 64 { (n & 0x3f) as bv8 }

  /** The eight bits of n that start at bit 16, 8 or 0. */
  function Eight16(n: bv32): bv8 { ((n >> 16) & 0xff) as bv8 }

  function Eight8(n: bv32): bv8 { ((n >> 8) & 0xff) as bv8 }

  function Eight0(n: bv32): bv8 { (n & 0xff) as bv8 }

  lemma UnpackedBytes(b0: bv8, b1: bv8, b2: bv8)
    ensures var n := Pack3(b0, b1, b2);
            n < 0x1000000 && Eight16(n) == b0 && Eight8(n) == b1 && Eight0(n) == b2
  {
  }

  lemma RepackedSix(n: bv32)
    requires n < 0x1000000
    ensures Pack4(Six18(n), Six12(n), Six6(n), Six0(n)) == n
  {
  }

  lemma UnusedBits(b0: bv8, b1: bv8)
    ensures Six0(Pack3(b0, b1, 0)) == 0 && Six6(Pack3(b0, b1, 0)) & 3 == 0
    ensures Six6(Pack3(b0, 0, 0)) == 0 && Six12(Pack3(b0, 0, 0)) & 15 == 0
  {
  }

  lemma PackedSix(n0: bv8, n1: bv8, n2: bv8, n3: bv8)
    requires n0 < 64 && n1 < 64 && n2 < 64 && n3 < 64
    ensures var m := Pack4(n0, n1, n2, n3);
            m < 0x1000000 && Six18(m) == n0 && Six12(m) == n1 && Six6(m) == n2 && Six0(m) == n3
  {
  }

  lemma PackedEight(m: bv32)
    requires m < 0x1000000
    ensures Pack3(Eight16(m), Eight8(m), Eight0(m)) == m
  {
  }

  lemma PackedZeros(n0: bv8, n1: bv8, n2: bv8)
    requires n0 < 64 && n1 < 64 && n2 < 64
    ensures n2 & 3 == 0 ==> Eight0(Pack4(n0, n1, n2, 0)) == 0
    ensures n1 & 15 == 0 ==> Eight8(Pack4(n0, n1, 0, 0)) == 0 && Eight0(Pack4(n0, n1, 0, 0)) == 0
  {
  }

  // ---------- Specification of the encoder ----------

  /** The letters for the first one to three bytes of s. */
  function Group(s: Bytes): Bytes
    requires s != []
  {
    var n := Pack3(s[0], if |s| > 1 then s[1] else 0, if |s| > 2 then s[2] else 0);
    [Letter(Six18(n)), Letter(Six12(n))]
    + (if |s| > 1 then [Letter(Six6(n))] else [])
    + (if |s| > 2 then [Letter(Six0(n))] else [])
  }

  /** A group of three in the bits of RFC 4648, section 4: six bits of the first byte, its last two and four
      of the second, that one's last four and two of the third, and the third one's last six. */
  lemma GroupMeans(b0: bv8, b1: bv8, b2: bv8)
    ensures (b0 & 3) << 4 < 64 && (b1 & 15) << 2 < 64
    ensures b0 >> 2 < 64 && ((b0 & 3) << 4) | (b1 >> 4) < 64 && ((b1 & 15) << 2) | (b2 >> 6) < 64 && b2 & 63 < 64
    ensures Group([b0, b1, b2]) == [Letter(b0 >> 2), Letter(((b0 & 3) << 4) | (b1 >> 4)),
                                    Letter(((b1 & 15) << 2) | (b2 >> 6)), Letter(b2 & 63)]
    ensures Group([b0, b1]) == [Letter(b0 >> 2), Letter(((b0 & 3) << 4) | (b1 >> 4)), Letter((b1 & 15) << 2)]
    ensures Group([b0]) == [Letter(b0 >> 2), Letter((b0 & 3) << 4)]
  {
    SixBits(b0, b1, b2);
    SixBits(b0, b1, 0);
    SixBits(b0, 0, 0);
    hide Six18, Six12, Six6, Six0, Pack3, Letter;
  }

  lemma SixBits(b0: bv8, b1: bv8, b2: bv8)
    ensures var n := Pack3(b0, b1, b2);
      && Six18(n) == b0 >> 2 && Six12(n) == ((b0 & 3) << 4) | (b1 >> 4)
      && Six6(n) == ((b1 & 15) << 2) | (b2 >> 6) && Six0(n) == b2 & 63
  {
  }

  function Rest(s: Bytes): Bytes {
    if |s| <= 3 then [] else s[3..]
  }

  /** All letters, without padding. */
  function Letters(s: Bytes): Bytes
    decreases |s|
  {
    if s == [] then [] else Group(s) + Letters(Rest(s))
  }

  lemma LettersNil()
    ensures Letters([]) == []
  {
  }

  lemma LettersStep(s: Bytes)
    requires s != []
    ensures Letters(s) == Group(s) + Letters(Rest(s))
  {
  }

  function Padding(n: nat): Bytes {
    if n % 3 == 0 then [] else if n % 3 == 1 then [PAD, PAD] else [PAD]
  }

  function Encode(s: Bytes): Bytes { Letters(s) + Padding(|s|) }

  /** What the encoder's loop body appends to r for the group s packed in n. */
  function Push(r: Bytes, s: Bytes, n: bv32): Bytes {
    var r2 := (r + [Letter(Six18(n))]) + [Letter(Six12(n))];
    var r3 := if |s| > 1 then r2 + [Letter(Six6(n))] else r2;
    if |s| > 2 then r3 + [Letter(Six0(n))] else r3
  }

  lemma PushedGroup(r: Bytes, s: Bytes)
    requires s != []
    ensures Push(r, s, Pack3(s[0], if |s| > 1 then s[1] else 0, if |s| > 2 then s[2] else 0)) == r + Group(s)
  {
    hide Letter, Six18, Six12, Six6, Six0, Pack3;
  }

  /** `b64_encode`. */
  method B64Encode(s: Bytes) returns (r: Bytes)
    ensures r == Encode(s)
  {
    hide First, OrSecond, OrThird, Six18, Six12, Six6, Six0, Letter, Letters;
    LettersNil();
    r := [];
    var i := 0;
    while i < |s|
      invariant 0 <= i
      invariant Letters(s) == r + Letters(if i <= |s| then s[i..] else [])
    {
      ghost var rest, before := s[i..], r;
      var n := First(s[i]);
      OrZero(n);
      if i + 1 < |s| { n := OrSecond(n, s[i + 1]); }
      OrZero(n);
      if i + 2 < |s| { n := OrThird(n, s[i + 2]); }
      assert n == Pack3(rest[0], if |rest| > 1 then rest[1] else 0, if |rest| > 2 then rest[2] else 0);
      r := r + [Letter(Six18(n))];
      r := r + [Letter(Six12(n))];
      if i + 1 < |s| { r := r + [Letter(Six6(n))]; }
      if i + 2 < |s| { r := r + [Letter(Six0(n))]; }
      PushedGroup(before, rest);
      hide Group;
      LettersStep(rest);
      Assoc(before, Group(rest), Letters(Rest(rest)));
      i := i + 3;
      assert Rest(rest) == if i <= |s| then s[i..] else [];
    }
    assert (if i <= |s| then s[i..] else []) == [];
    assert r == Letters(s);
    var padding := (3 - |s| % 3) % 3;
    for k := 0 to padding
      invariant r == Letters(s) + seq(k, _ => PAD)
    {
      r := r + [PAD];
    }
  }

  /** Test vectors of RFC 4648, section 10: "f", "fo" and "foobar". */
  lemma Vectors()
    ensures Encode([102]) == [90, 103, 61, 61]
    ensures Encode([102, 111]) == [90, 109, 56, 61]
    ensures Encode([102, 111, 111, 98, 97, 114]) == [90, 109, 57, 118, 89, 109, 70, 121]
  {
    var f, fo, foo, bar: Bytes := [102], [102, 111], [102, 111, 111], [98, 97, 114];
    LettersNil();
    LettersStep(f);
    LettersStep(fo);
    LettersStep(foo + bar);
    LettersStep(bar);
    assert Rest(foo + bar) == bar;
    GroupMeans(102, 111, 111);
    GroupMeans(98, 97, 114);
    hide Group;
  }

  // ---------- Specification of the decoder ----------

  predicate Readable(c: bv8) { Value(c) != 0x80 }

  /** The bytes of one group of four, pad characters dropping the byte they stand for. */
  function Quad(t: Bytes): Bytes
    requires |t| >= 4
  {
    var n := Pack4(Value(t[0]), Value(t[1]), Value(t[2]), Value(t[3]));
    [Eight16(n)]
    + (if t[2] != PAD then [Eight8(n)] else [])
    + (if t[3] != PAD then [Eight0(n)] else [])
  }

  function DecodeQuads(t: Bytes): Decoded
    requires |t| % 4 == 0
    decreases |t|
  {
    if t == [] then Ok([])
    else if !(Readable(t[0]) && Readable(t[1]) && Readable(t[2]) && Readable(t[3])) then BadData
    else
      match DecodeQuads(t[4..])
      case Ok(rest) => Ok(Quad(t) + rest)
      case bad => bad
  }

  lemma QuadsStep(t: Bytes)
    requires |t| % 4 == 0 && t != []
    ensures DecodeQuads(t) ==
      if !(Readable(t[0]) && Readable(t[1]) && Readable(t[2]) && Readable(t[3])) then BadData
      else match DecodeQuads(t[4..]) case Ok(rest) => Ok(Quad(t) + rest) case bad => bad
  {
  }

  function Decode(t: Bytes): Decoded {
    if |t| % 4 != 0 then BadSize else DecodeQuads(t)
  }

  /** What is decoded already, in front of what is left. */
  function Onto(r: Bytes, d: Decoded): Decoded {
    match d case Ok(rest) => Ok(r + rest) case bad => bad
  }

  lemma AppendQuad(t: Bytes, r: Bytes)
    requires |t| % 4 == 0 && t != []
    ensures Readable(t[0]) && Readable(t[1]) && Readable(t[2]) && Readable(t[3]) ==>
      Onto(r, DecodeQuads(t)) == Onto(r + Quad(t), DecodeQuads(t[4..]))
  {
    hide Quad, Readable, DecodeQuads;
    QuadsStep(t);
    var tail := DecodeQuads(t[4..]);
    if tail.Ok? { Assoc(r, Quad(t), tail.data); }
  }

  lemma QuadIs(t: Bytes, n: bv32)
    requires |t| >= 4 && n == Pack4(Value(t[0]), Value(t[1]), Value(t[2]), Value(t[3]))
    ensures Quad(t)
            == [Eight16(n)] + (if t[2] != PAD then [Eight8(n)] else []) + (if t[3] != PAD then [Eight0(n)] else [])
  {
  }

  /** `b64_decode`; its two exceptions are BadSize and BadData. */
  method B64Decode(t: Bytes) returns (d: Decoded)
    ensures d == Decode(t)
  {
    hide Value, Eight16, Eight8, Eight0, Pack4, Readable, DecodeQuads, Mark, Quad;
    Nil();
    if |t| == 0 { return Ok([]); }
    if |t| % 4 != 0 { return BadSize; }
    var r: Bytes := [];
    var i := 0;
    while i < |t|
      invariant 0 <= i <= |t| && i % 4 == 0
      invariant Decode(t) == Onto(r, DecodeQuads(t[i..]))
    {
      ghost var rest, before := t[i..], r;
      QuadsStep(rest);
      assert rest[4..] == t[i + 4..];
      var n0, n1, n2, n3 := Value(t[i]), Value(t[i + 1]), Value(t[i + 2]), Value(t[i + 3]);
      Marked(t[i], t[i + 1], t[i + 2], t[i + 3]);
      if Mark(n0, n1, n2, n3) {
        return BadData;
      }
      var n := Pack4(n0, n1, n2, n3);
      r := r + [Eight16(n)];
      if t[i + 2] != PAD { r := r + [Eight8(n)]; }
      if t[i + 3] != PAD { r := r + [Eight0(n)]; }
      QuadIs(rest, n);
      assert r == before + Quad(rest);
      AppendQuad(rest, before);
      i := i + 4;
    }
    return Ok(r);
  }

  /** The top bit of one of the four table entries is set. */
  predicate Mark(n0: bv8, n1: bv8, n2: bv8, n3: bv8) { 0x80 & (n0 | n1 | n2 | n3) != 0 }

  lemma Marked(c0: bv8, c1: bv8, c2: bv8, c3: bv8)
    ensures Mark(Value(c0), Value(c1), Value(c2), Value(c3))
            <==> !(Readable(c0) && Readable(c1) && Readable(c2) && Readable(c3))
  {
  }

  // ---------- Canonical text ----------

  predicate FullQuad(t: Bytes)
    requires |t| >= 4
  {
    InAlphabet(t[0]) && InAlphabet(t[1]) && InAlphabet(t[2]) && InAlphabet(t[3])
  }

  /** A last group of four: padded only at its end, with the unused bits zero (RFC 4648, section 3.5). */
  predicate LastQuad(t: Bytes)
    requires |t| >= 4
  {
    || FullQuad(t)
    || (InAlphabet(t[0]) && InAlphabet(t[1]) && InAlphabet(t[2]) && t[3] == PAD && Value(t[2]) & 3 == 0)
    || (InAlphabet(t[0]) && InAlphabet(t[1]) && t[2] == PAD && t[3] == PAD && Value(t[1]) & 15 == 0)
  }

  predicate Canonical(t: Bytes)
    decreases |t|
  {
    t == [] || (|t| >= 4 && if |t| == 4 then LastQuad(t) else FullQuad(t) && Canonical(t[4..]))
  }

  /** One encoded group of four, padded when s is its last. */
  function Padded(s: Bytes): Bytes
    requires s != []
  {
    Group(s) + (if |s| < 3 then Padding(|s|) else [])
  }

  lemma GroupRoundTrip(s: Bytes)
    requires s != []
    ensures |Padded(s)| == 4 && (if |s| <= 3 then LastQuad(Padded(s)) else FullQuad(Padded(s)))
    ensures Quad(Padded(s)) == if |s| <= 3 then s else s[..3]
    ensures forall i :: 0 <= i < 4 ==> Readable(Padded(s)[i])
  {
    hide Pack3, Pack4, Six18, Six12, Six6, Six0, Eight16, Eight8, Eight0, Letter, Value;
    var b1, b2 := if |s| > 1 then s[1] else 0, if |s| > 2 then s[2] else 0;
    var n := Pack3(s[0], b1, b2);
    PadValue();
    UnpackedBytes(s[0], b1, b2);
    RepackedSix(n);
    UnusedBits(s[0], b1);
    LetterValue(Six18(n));
    LetterValue(Six12(n));
    LetterValue(Six6(n));
    LetterValue(Six0(n));
  }

  lemma PadValue()
    ensures Value(PAD) == 0 && Readable(PAD)
    ensures forall c :: InAlphabet(c) ==> Readable(c) && Value(c) < 64
  {
  }

  lemma EncodeStep(s: Bytes)
    requires s != []
    ensures Encode(s) == Padded(s) + Encode(Rest(s))
  {
    hide Group;
    LettersStep(s);
    if |s| > 3 {
      assert |s| % 3 == |Rest(s)| % 3;
    }
  }

  lemma Nil()
    ensures Encode([]) == [] && DecodeQuads([]) == Ok([]) && Canonical([]) && Decode([]) == Ok([])
  {
  }

  lemma AtLeastFour(t: Bytes)
    requires Canonical(t) && t != []
    ensures |t| >= 4
  {
  }

  lemma Assoc(a: Bytes, b: Bytes, c: Bytes)
    ensures (a + b) + c == a + (b + c)
  {
  }

  lemma DecodeCons(q: Bytes, u: Bytes)
    requires |q| == 4 && |u| % 4 == 0
    ensures DecodeQuads(q + u) ==
      if !(Readable(q[0]) && Readable(q[1]) && Readable(q[2]) && Readable(q[3])) then BadData
      else match DecodeQuads(u) case Ok(rest) => Ok(Quad(q) + rest) case bad => bad
  {
    hide Eight16, Eight8, Eight0, Pack4, Readable, Value;
    QuadsStep(q + u);
    assert (q + u)[4..] == u;
  }

  lemma CanonicalCons(q: Bytes, u: Bytes)
    requires |q| == 4
    ensures Canonical(q + u) <==> if u == [] then LastQuad(q) else FullQuad(q) && Canonical(u)
  {
    hide InAlphabet, Value;
    assert (q + u)[4..] == u;
  }

  lemma RestOfGroup(q: Bytes, d: Bytes)
    requires |q| == 3
    ensures Padded(q + d) == Padded(q) && Rest(q + d) == d
  {
    hide Letter, Six18, Six12, Six6, Six0, Pack3;
  }

  /** Main result: decoding undoes encoding for every byte string; the text is canonical and has four
      characters for every three bytes begun. */
  lemma {:induction false} DecodeEncode(s: Bytes)
    ensures Decode(Encode(s)) == Ok(s)
    ensures Canonical(Encode(s))
    ensures |Encode(s)| == 4 * ((|s| + 2) / 3)
    decreases |s|
  {
    hide *;
    Nil();
    if s != [] {
      var q, u := Padded(s), Encode(Rest(s));
      RestShorter(s);
      EncodeStep(s);
      GroupRoundTrip(s);
      DecodeEncode(Rest(s));
      DecodedQuads(u);
      DecodeCons(q, u);
      CanonicalCons(q, u);
      DecodedQuads(q + u);
      if |s| <= 3 {
        assert s + [] == s;
      } else {
        assert s[..3] + s[3..] == s;
      }
    }
  }

  lemma RestShorter(s: Bytes)
    requires s != []
    ensures if |s| <= 3 then Rest(s) == [] else Rest(s) == s[3..]
    ensures (|s| + 2) / 3 == (|Rest(s)| + 2) / 3 + 1
  {
  }

  lemma DecodedQuads(t: Bytes)
    requires |t| % 4 == 0
    ensures Decode(t) == DecodeQuads(t)
  {
    hide DecodeQuads;
  }

  lemma QuadRoundTrip(t: Bytes, last: bool)
    requires |t| == 4 && if last then LastQuad(t) else FullQuad(t)
    ensures forall i :: 0 <= i < 4 ==> Readable(t[i])
    ensures !last ==> |Quad(t)| == 3
    ensures 1 <= |Quad(t)| <= 3
    ensures Padded(Quad(t)) == t
  {
    hide Pack3, Pack4, Six18, Six12, Six6, Six0, Eight16, Eight8, Eight0, Letter, Value, Readable, InAlphabet;
    var n0, n1, n2, n3 := Value(t[0]), Value(t[1]), Value(t[2]), Value(t[3]);
    PadValue();
    ValueLetter(t[0]);
    ValueLetter(t[1]);
    if InAlphabet(t[2]) { ValueLetter(t[2]); }
    if InAlphabet(t[3]) { ValueLetter(t[3]); }
    PadNotLetter(t[2]);
    PadNotLetter(t[3]);
    PackedSix(n0, n1, n2, n3);
    PackedEight(Pack4(n0, n1, n2, n3));
    PackedZeros(n0, n1, n2);
  }

  lemma PadNotLetter(c: bv8)
    ensures InAlphabet(c) ==> c != PAD
  {
  }

  /** Main result: encoding undoes decoding for every canonical text. */
  lemma {:induction false} EncodeDecode(t: Bytes)
    requires Canonical(t)
    ensures Decode(t).Ok? && Encode(Decode(t).data) == t
    decreases |t|
  {
    hide Quad, Padded, Readable, LastQuad, FullQuad, DecodeQuads, Letters, Encode, Canonical;
    if t != [] {
      AtLeastFour(t);
      var q, u := t[..4], t[4..];
      assert t == q + u;
      Nil();
      CanonicalCons(q, u);
      QuadRoundTrip(q, u == []);
      EncodeDecode(u);
      DecodeCons(q, u);
      var d := Decode(u).data;
      EncodeStep(Quad(q) + d);
      if u == [] {
        assert Quad(q) + d == Quad(q);
      } else {
        RestOfGroup(Quad(q), d);
      }
    } else {
      Nil();
    }
  }

  /** Exactly the canonical texts survive a decode and encode. */
  lemma SurvivesIffCanonical(t: Bytes)
    ensures Decode(t).Ok? && Encode(Decode(t).data) == t <==> Canonical(t)
  {
    if Canonical(t) {
      EncodeDecode(t);
    } else if Decode(t).Ok? {
      DecodeEncode(Decode(t).data);
    }
  }

  /** Exactly what the decoder accepts: length a multiple of four, every byte a letter or '=' anywhere; the size
      is complained of first. */
  lemma {:induction false} AcceptedIff(t: Bytes)
    ensures Decode(t).Ok? <==> |t| % 4 == 0 && forall i :: 0 <= i < |t| ==> InAlphabet(t[i]) || t[i] == PAD
    ensures Decode(t).BadSize? <==> |t| % 4 != 0
    decreases |t|
  {
    if t != [] && |t| % 4 == 0 {
      AcceptedIff(t[4..]);
      forall c: bv8
        ensures Readable(c) <==> InAlphabet(c) || c == PAD
      {
      }
      var u := t[4..];
      assert forall i :: 4 <= i < |t| ==> t[i] == u[i - 4];
      assert forall i :: 0 <= i < |u| ==> u[i] == t[i + 4];
    }
  }
}
