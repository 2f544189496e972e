/** Messages to JSON trees and back, driven by the message descriptors (`json2pb.cpp`). */
module JsonTree {
  import opened Base64
  import opened Wrappers

  /** How the parser ends: normally, by an exception, or by an invalid pointer handed to the reflection API. */
  datatype Outcome = Done | Thrown | Invalid

  /** What has been stored by then, and how it ended. */
  datatype Parsed<+T> = Parsed(state: T, outcome: Outcome)

  // ---------- Descriptors ----------

  datatype FieldType =
    | TDouble | TFloat | TInt64 | TUInt64 | TInt32 | TUInt32 | TBool | TString | TBytes
    | TEnum(numbers: map<Bytes, int>)
    | TMessage(typ: string)

  datatype FieldDesc = FieldDesc(name: Bytes, typ: FieldType, repeated: bool)

  type Descriptor = seq<FieldDesc>

  type Schema = map<string, Descriptor>

  ghost predicate Ranged(lo: int, i: int, hi: int) { lo <= i < hi }

  /** A message type that is described, or an enum whose numbers are 32-bit integers, or a scalar. */
  ghost predicate TypeOk(S: Schema, t: FieldType) {
    && (t.TMessage? ==> t.typ in S)
    && (t.TEnum? ==> forall name :: name in t.numbers ==> Ranged(-0x8000_0000, t.numbers[name], 0x8000_0000))
  }

  /** Every message type mentioned is described; field names are distinct within a message. */
  ghost predicate SchemaOk(S: Schema) {
    forall t :: t in S ==>
      && (forall k :: 0 <= k < |S[t]| ==> TypeOk(S, S[t][k].typ))
      && (forall i, k :: 0 <= i < k < |S[t]| ==> S[t][i].name != S[t][k].name)
  }

  // ---------- Messages ----------

  datatype Number = Finite(r: real) | NaN | Infinity(negative: bool)

  datatype Value =
    | VNumber(n: Number) | VInt(i: int) | VBool(b: bool) | VText(s: Bytes) | VEnum(number: int)
    | VMessage(m: Message)

  /** One slot for each field of the descriptor, in order. */
  datatype Message = Message(slots: seq<Slot>)

  /** The values present for one field: none if it is not set. */
  datatype Slot = Slot(vals: seq<Value>)

  function Empty(d: Descriptor): Message { Message(seq(|d|, _ => Slot([]))) }

  /** The value is one the reflection API can hand out for a field of this type. */
  ghost predicate HasType(S: Schema, t: FieldType, v: Value)
    decreases v, 0
  {
    match t
    case TDouble => v.VNumber?
    case TFloat => v.VNumber?
    case TInt64 => v.VInt? && Ranged(-0x8000_0000_0000_0000, v.i, 0x8000_0000_0000_0000)
    case TUInt64 => v.VInt? && Ranged(0, v.i, 0x1_0000_0000_0000_0000)
    case TInt32 => v.VInt? && Ranged(-0x8000_0000, v.i, 0x8000_0000)
    case TUInt32 => v.VInt? && Ranged(0, v.i, 0x1_0000_0000)
    case TBool => v.VBool?
    case TString => v.VText?
    case TBytes => v.VText?
    case TEnum(_) => v.VEnum? && Ranged(-0x8000_0000, v.number, 0x8000_0000)
    case TMessage(typ) => v.VMessage? && typ in S && Conforms(S, S[typ], v.m)
  }

  ghost predicate Conforms(S: Schema, d: Descriptor, m: Message)
    decreases m, 1
  {
    && |m.slots| == |d|
    && forall k :: 0 <= k < |d| ==>
         && (!d[k].repeated ==> |m.slots[k].vals| <= 1)
         && forall j :: 0 <= j < |m.slots[k].vals| ==> HasType(S, d[k].typ, m.slots[k].vals[j])
  }

  lemma ConformingSize(S: Schema, d: Descriptor, m: Message)
    requires Conforms(S, d, m)
    ensures |m.slots| == |d|
  {
    hide HasType;
  }

  // ---------- JSON trees ----------

  datatype Json =
    | Object(members: seq<Member>) | Array(items: seq<Json>)
    | String(s: Bytes) | Integer(i: int) | Real(r: real) | Bool(b: bool) | Null

  datatype Member = Member(name: Bytes, value: Json)

  /** What a C string keeps of a byte string: up to the first NUL. */
  function CStr(s: Bytes): Bytes {
    if s == [] || s[0] == 0 then [] else [s[0]] + CStr(s[1..])
  }

  lemma {:induction false} CStrWhole(s: Bytes)
    ensures CStr(s) == s <==> 0 !in s
  {
    if s != [] {
      CStrWhole(s[1..]);
      assert s == [s[0]] + s[1..];
    }
  }

  // ---------- Text the JSON library accepts: UTF-8, RFC 3629 section 4 ----------

  predicate Tail(c: bv8) { 0x80 <= c <= 0xBF }

  /** The bytes of the character s starts with; 0 if it starts with none. */
  function CharLength(s: Bytes): (n: nat)
    ensures n <= |s|
  {
    if s == [] then 0
    else if s[0] <= 0x7F then 1
    else if 0xC2 <= s[0] <= 0xDF && |s| >= 2 && Tail(s[1]) then 2
    else if 0xE0 <= s[0] <= 0xEF && |s| >= 3 && Tail(s[1]) && Tail(s[2])
            && (s[0] == 0xE0 ==> s[1] >= 0xA0) && (s[0] == 0xED ==> s[1] <= 0x9F) then 3
    else if 0xF0 <= s[0] <= 0xF4 && |s| >= 4 && Tail(s[1]) && Tail(s[2]) && Tail(s[3])
            && (s[0] == 0xF0 ==> s[1] >= 0x90) && (s[0] == 0xF4 ==> s[1] <= 0x8F) then 4
    else 0
  }

  predicate ValidText(s: Bytes) {
    s == [] || (CharLength(s) > 0 && ValidText(s[CharLength(s)..]))
  }

  lemma {:induction false} AsciiIsText(s: Bytes)
    requires forall i :: 0 <= i < |s| ==> s[i] <= 0x7F
    ensures ValidText(s)
  {
    if s != [] {
      AsciiIsText(s[1..]);
    }
  }

  // ---------- UTF-8 as an encoding of code points ----------

  /** A Unicode scalar value: no surrogate, at most 0x10FFFF. */
  predicate Scalar(c: bv32) { c <= 0x10FFFF && !(0xD800 <= c <= 0xDFFF) }

  /** Its bytes. */
  function CodePoint(c: bv32): Bytes
    requires Scalar(c)
  {
    if c <= 0x7F then [c as bv8]
    else if c <= 0x7FF then [(0xC0 | (c >> 6)) as bv8, (0x80 | (c & 0x3F)) as bv8]
    else if c <= 0xFFFF then
      [(0xE0 | (c >> 12)) as bv8, (0x80 | ((c >> 6) & 0x3F)) as bv8, (0x80 | (c & 0x3F)) as bv8]
    else
      [(0xF0 | (c >> 18)) as bv8, (0x80 | ((c >> 12) & 0x3F)) as bv8,
       (0x80 | ((c >> 6) & 0x3F)) as bv8, (0x80 | (c & 0x3F)) as bv8]
  }

  predicate Scalars(cs: seq<bv32>) { forall i :: 0 <= i < |cs| ==> Scalar(cs[i]) }

  function Utf8(cs: seq<bv32>): Bytes
    requires Scalars(cs)
  {
    if cs == [] then [] else CodePoint(cs[0]) + Utf8(cs[1..])
  }

  lemma PointLength(c: bv32, rest: Bytes)
    requires Scalar(c)
    ensures CharLength(CodePoint(c) + rest) == |CodePoint(c)| > 0
  {
    var p := CodePoint(c);
    var s := p + rest;
    assert |p| > 0 && s[0] == p[0];
    assert |p| > 1 ==> s[1] == p[1];
    assert |p| > 2 ==> s[2] == p[2];
    assert |p| > 3 ==> s[3] == p[3];
  }

  function Join2(b0: bv8, b1: bv8): bv32 { ((b0 & 0x1F) as bv32 << 6) | (b1 & 0x3F) as bv32 }

  function Join3(b0: bv8, b1: bv8, b2: bv8): bv32 {
    ((b0 & 0x0F) as bv32 << 12) | ((b1 & 0x3F) as bv32 << 6) | (b2 & 0x3F) as bv32
  }

  function Join4(b0: bv8, b1: bv8, b2: bv8, b3: bv8): bv32 {
    ((b0 & 0x07) as bv32 << 18) | ((b1 & 0x3F) as bv32 << 12) | ((b2 & 0x3F) as bv32 << 6) | (b3 & 0x3F) as bv32
  }

  /** The code point of the character s starts with. */
  function FirstPoint(s: Bytes): bv32
    requires CharLength(s) > 0
  {
    if CharLength(s) == 1 then s[0] as bv32
    else if CharLength(s) == 2 then Join2(s[0], s[1])
    else if CharLength(s) == 3 then Join3(s[0], s[1], s[2])
    else Join4(s[0], s[1], s[2], s[3])
  }

  lemma Back2(b0: bv8, b1: bv8)
    requires 0xC2 <= b0 <= 0xDF && Tail(b1)
    ensures 0x7F < Join2(b0, b1) <= 0x7FF && CodePoint(Join2(b0, b1)) == [b0, b1]
  {
  }

  lemma Range3(b0: bv8, b1: bv8, b2: bv8)
    requires 0xE0 <= b0 <= 0xEF && Tail(b1) && Tail(b2) && (b0 == 0xE0 ==> b1 >= 0xA0) && (b0 == 0xED ==> b1 <= 0x9F)
    ensures 0x7FF < Join3(b0, b1, b2) <= 0xFFFF && Scalar(Join3(b0, b1, b2))
  {
  }

  lemma Bytes3(b0: bv8, b1: bv8, b2: bv8)
    requires 0xE0 <= b0 <= 0xEF && Tail(b1) && Tail(b2)
    ensures var c := Join3(b0, b1, b2);
      && 0xE0 | (c >> 12) == b0 as bv32 && 0x80 | ((c >> 6) & 0x3F) == b1 as bv32 && 0x80 | (c & 0x3F) == b2 as bv32
  {
  }

  lemma Back3(b0: bv8, b1: bv8, b2: bv8)
    requires 0xE0 <= b0 <= 0xEF && Tail(b1) && Tail(b2) && (b0 == 0xE0 ==> b1 >= 0xA0) && (b0 == 0xED ==> b1 <= 0x9F)
    ensures 0x7FF < Join3(b0, b1, b2) <= 0xFFFF && Scalar(Join3(b0, b1, b2))
    ensures CodePoint(Join3(b0, b1, b2)) == [b0, b1, b2]
  {
    hide Join3;
    Range3(b0, b1, b2);
    Bytes3(b0, b1, b2);
  }

  lemma Range4(b0: bv8, b1: bv8, b2: bv8, b3: bv8)
    requires 0xF0 <= b0 <= 0xF4 && Tail(b1) && Tail(b2) && Tail(b3)
    requires (b0 == 0xF0 ==> b1 >= 0x90) && (b0 == 0xF4 ==> b1 <= 0x8F)
    ensures 0xFFFF < Join4(b0, b1, b2, b3) <= 0x10FFFF
  {
  }

  lemma Bytes4(b0: bv8, b1: bv8, b2: bv8, b3: bv8)
    requires 0xF0 <= b0 <= 0xF4 && Tail(b1) && Tail(b2) && Tail(b3)
    ensures var c := Join4(b0, b1, b2, b3);
      && 0xF0 | (c >> 18) == b0 as bv32 && 0x80 | ((c >> 12) & 0x3F) == b1 as bv32
      && 0x80 | ((c >> 6) & 0x3F) == b2 as bv32 && 0x80 | (c & 0x3F) == b3 as bv32
  {
  }

  lemma Back4(b0: bv8, b1: bv8, b2: bv8, b3: bv8)
    requires 0xF0 <= b0 <= 0xF4 && Tail(b1) && Tail(b2) && Tail(b3)
    requires (b0 == 0xF0 ==> b1 >= 0x90) && (b0 == 0xF4 ==> b1 <= 0x8F)
    ensures 0xFFFF < Join4(b0, b1, b2, b3) <= 0x10FFFF && CodePoint(Join4(b0, b1, b2, b3)) == [b0, b1, b2, b3]
  {
    hide Join4;
    Range4(b0, b1, b2, b3);
    Bytes4(b0, b1, b2, b3);
  }

  lemma PointBack(s: Bytes)
    requires CharLength(s) > 0
    ensures Scalar(FirstPoint(s)) && CodePoint(FirstPoint(s)) == s[..CharLength(s)]
  {
    hide Join2, Join3, Join4;
    if CharLength(s) == 1 {
      assert CodePoint(s[0] as bv32) == [s[0]];
    } else if CharLength(s) == 2 {
      Back2(s[0], s[1]);
    } else if CharLength(s) == 3 {
      Back3(s[0], s[1], s[2]);
    } else {
      Back4(s[0], s[1], s[2], s[3]);
    }
    hide CodePoint;
  }

  lemma {:induction false} Utf8Valid(cs: seq<bv32>)
    requires Scalars(cs)
    ensures ValidText(Utf8(cs))
  {
    if cs != [] {
      hide CodePoint, CharLength, Scalar;
      var p, rest := CodePoint(cs[0]), Utf8(cs[1..]);
      PointLength(cs[0], rest);
      Utf8Valid(cs[1..]);
      assert (p + rest)[|p|..] == rest;
    }
  }

  lemma {:induction false} ValidUtf8(s: Bytes) returns (cs: seq<bv32>)
    requires ValidText(s)
    ensures Scalars(cs) && Utf8(cs) == s
    decreases |s|
  {
    hide *;
    Utf8Nil();
    cs := [];
    if s != [] {
      ValidStep(s);
      var more := ValidUtf8(s[CharLength(s)..]);
      cs := Utf8Prepend(s, more);
    }
  }

  lemma Utf8Nil()
    ensures Scalars([]) && Utf8([]) == []
  {
  }

  lemma Utf8Prepend(s: Bytes, more: seq<bv32>) returns (cs: seq<bv32>)
    requires CharLength(s) > 0 && Scalars(more) && Utf8(more) == s[CharLength(s)..]
    ensures Scalars(cs) && Utf8(cs) == s
  {
    hide *;
    PointBack(s);
    Utf8Cons(FirstPoint(s), more);
    cs := [FirstPoint(s)] + more;
    assert s == s[..CharLength(s)] + s[CharLength(s)..];
  }

  lemma ValidStep(s: Bytes)
    requires ValidText(s) && s != []
    ensures CharLength(s) > 0 && ValidText(s[CharLength(s)..])
  {
    hide CharLength;
  }

  lemma Utf8Cons(c: bv32, cs: seq<bv32>)
    requires Scalar(c) && Scalars(cs)
    ensures Scalars([c] + cs) && Utf8([c] + cs) == CodePoint(c) + Utf8(cs)
  {
    hide Scalar, CodePoint;
    assert ([c] + cs)[1..] == cs;
  }

  /** The text check accepts exactly the encodings of sequences of Unicode scalar values. */
  lemma TextIff(s: Bytes)
    ensures ValidText(s) <==> exists cs :: Scalars(cs) && Utf8(cs) == s
  {
    if ValidText(s) {
      var cs := ValidUtf8(s);
      assert Scalars(cs) && Utf8(cs) == s;
    }
    if cs :| Scalars(cs) && Utf8(cs) == s {
      Utf8Valid(cs);
    }
  }

  /** `json_string`: null for a C string that is not UTF-8. */
  function JsonString(s: Bytes): Option<Json> {
    if ValidText(CStr(s)) then Some(String(CStr(s))) else None
  }

  /** The part before the first NUL. */
  lemma {:induction false} CStrMeans(s: Bytes)
    ensures CStr(s) <= s && 0 !in CStr(s) && (CStr(s) == s || s[|CStr(s)|] == 0)
  {
    if s != [] && s[0] != 0 {
      CStrMeans(s[1..]);
      assert CStr(s) == [s[0]] + CStr(s[1..]);
    }
  }

  /** Conversion of a 64-bit value to a signed or unsigned integer of the given width. */
  function Wrap(i: int, modulus: int): int
    requires modulus > 0
  {
    i % modulus
  }

  function WrapSigned(i: int, modulus: int): int
    requires modulus > 0
  {
    var u := i % modulus;
    if u < modulus / 2 then u else u - modulus
  }

  const M64 := 0x1_0000_0000_0000_0000
  const M32 := 0x1_0000_0000

  // ---------- Printing ----------

  /** `_field2json` for one value; None is the null pointer. */
  function PrintValue(S: Schema, t: FieldType, v: Value): Option<Json>
    requires HasType(S, t, v)
    decreases v, 0
  {
    match t
    case TDouble => if v.n.Finite? then Some(Real(v.n.r)) else None
    case TFloat => if v.n.Finite? then Some(Real(v.n.r)) else None
    case TInt64 => Some(Integer(v.i))
    case TUInt64 => Some(Integer(WrapSigned(v.i, M64)))
    case TInt32 => Some(Integer(v.i))
    case TUInt32 => Some(Integer(v.i))
    case TBool => Some(Bool(v.b))
    case TString => JsonString(v.s)
    case TBytes => JsonString(Encode(v.s))
    case TEnum(_) => Some(Integer(v.number))
    case TMessage(typ) => Some(Object(PrintFields(S, S[typ], v.m, 0)))
  }

  /** The array elements for a repeated field: a null element is not appended. */
  function PrintItems(S: Schema, t: FieldType, vs: seq<Value>): (js: seq<Json>)
    requires forall j :: 0 <= j < |vs| ==> HasType(S, t, vs[j])
    ensures |js| <= |vs|
    decreases vs, 0
  {
    if vs == [] then []
    else (match PrintValue(S, t, vs[0]) case Some(j) => [j] case None => []) + PrintItems(S, t, vs[1..])
  }

  /** The members for field k: none if it is not set or its value is null. */
  function PrintField(S: Schema, f: FieldDesc, vs: seq<Value>): seq<Member>
    requires forall j :: 0 <= j < |vs| ==> HasType(S, f.typ, vs[j])
    decreases vs, 1
  {
    if vs == [] then []
    else if f.repeated then [Member(f.name, Array(PrintItems(S, f.typ, vs)))]
    else
      match PrintValue(S, f.typ, vs[0])
      case Some(j) => [Member(f.name, j)]
      case None => []
  }

  /** The members of the object for fields k and later. */
  function PrintFields(S: Schema, d: Descriptor, m: Message, k: nat): seq<Member>
    requires Conforms(S, d, m) && k <= |d|
    decreases m, 0, |d| - k
  {
    if k == |d| then []
    else PrintField(S, d[k], m.slots[k].vals) + PrintFields(S, d, m, k + 1)
  }

  function PrintMessage(S: Schema, d: Descriptor, m: Message): Json
    requires Conforms(S, d, m)
  {
    Object(PrintFields(S, d, m, 0))
  }

  /** A field whose value prints as null is left out as if it were not set; the others are printed. */
  lemma {:induction false} NullLeftOut(S: Schema, d: Descriptor, m: Message, u: nat, k: nat)
    requires Conforms(S, d, m) && k <= |d| && u < |d|
    requires !d[u].repeated && m.slots[u].vals != [] && PrintValue(S, d[u].typ, m.slots[u].vals[0]).None?
    ensures var m' := Message(m.slots[u := Slot([])]);
      Conforms(S, d, m') && PrintFields(S, d, m, k) == PrintFields(S, d, m', k)
    decreases |d| - k
  {
    hide HasType, PrintValue, PrintItems;
    if k < |d| {
      NullLeftOut(S, d, m, u, k + 1);
    }
  }

  // ---------- Parsing ----------

  function FindField(d: Descriptor, name: Bytes): (k: Option<nat>)
    ensures k.Some? ==> k.value < |d| && d[k.value].name == name
    ensures k.None? ==> forall i :: 0 <= i < |d| ==> d[i].name != name
  {
    if d == [] then None
    else if d[|d| - 1].name == name then Some(|d| - 1)
    else FindField(d[..|d| - 1], name)
  }

  /** What the JSON library unpacks as a double. */
  function AsReal(j: Json): Option<real> {
    if j.Real? then Some(j.r) else if j.Integer? then Some(j.i as real) else None
  }

  function Read(v: Value): Parsed<Option<Value>> { Parsed(Some(v), Done) }

  function Ends(how: Outcome): Parsed<Option<Value>> { Parsed(None, how) }

  function ToSeq(v: Option<Value>): seq<Value> { match v case Some(x) => [x] case None => [] }

  function EnumNumber(numbers: map<Bytes, int>, j: Json): Option<int> {
    if j.Integer? && j.i in numbers.Values then Some(j.i)
    else if j.String? && CStr(j.s) in numbers then Some(numbers[CStr(j.s)])
    else None
  }

  /** `_json2field` up to the store: the value jf stands for, None if it ends before there is one. A message
      value is parsed into `base` and stays as far as it got. */
  function ParseValue(S: Schema, t: FieldType, base: Message, j: Json): (p: Parsed<Option<Value>>)
    requires SchemaOk(S) && (t.TMessage? ==> t.typ in S && |base.slots| == |S[t.typ]|)
    ensures p.outcome.Done? ==> p.state.Some?
    decreases j, 1
  {
    match t
    case TDouble => (match AsReal(j) case Some(r) => Read(VNumber(Finite(r))) case None => Ends(Thrown))
    case TFloat => (match AsReal(j) case Some(r) => Read(VNumber(Finite(r))) case None => Ends(Thrown))
    case TInt64 => if j.Integer? then Read(VInt(j.i)) else Ends(Thrown)
    case TUInt64 => if j.Integer? then Read(VInt(Wrap(j.i, M64))) else Ends(Thrown)
    case TInt32 => if j.Integer? then Read(VInt(WrapSigned(j.i, M32))) else Ends(Thrown)
    case TUInt32 => if j.Integer? then Read(VInt(Wrap(j.i, M32))) else Ends(Thrown)
    case TBool => if j.Bool? then Read(VBool(j.b)) else Ends(Thrown)
    case TString => if j.String? then Read(VText(CStr(j.s))) else Ends(Invalid)
    case TBytes =>
      if !j.String? then Ends(Invalid)
      else (match Decode(CStr(j.s)) case Ok(data) => Read(VText(data)) case _ => Ends(Thrown))
    case TEnum(numbers) =>
      (match EnumNumber(numbers, j) case Some(n) => Read(VEnum(n)) case None => Ends(Invalid))
    case TMessage(typ) =>
      if !j.Object? then Read(VMessage(base))
      else
        var p := ParseMembers(S, typ, base, j.members);
        Parsed(Some(VMessage(p.state)), p.outcome)
  }

  function Blank(S: Schema, t: FieldType): Message {
    if t.TMessage? && t.typ in S then Empty(S[t.typ]) else Message([])
  }

  function ParseItems(S: Schema, t: FieldType, js: seq<Json>): (p: Parsed<seq<Value>>)
    requires SchemaOk(S) && (t.TMessage? ==> t.typ in S)
    ensures p.outcome.Done? ==> |p.state| == |js|
    decreases js, 2
  {
    if js == [] then Parsed([], Done)
    else
      var v := ParseValue(S, t, Blank(S, t), js[0]);
      if !v.outcome.Done? then Parsed(ToSeq(v.state), v.outcome)
      else
        var rest := ParseItems(S, t, js[1..]);
        Parsed(ToSeq(v.state) + rest.state, rest.outcome)
  }

  /** The message a singular message field is parsed into: what is there already, or a blank one. */
  function Base(S: Schema, t: FieldType, vs: seq<Value>): (b: Message)
    ensures t.TMessage? && t.typ in S ==> |b.slots| == |S[t.typ]|
  {
    if t.TMessage? && t.typ in S && vs != [] && vs[0].VMessage? && |vs[0].m.slots| == |S[t.typ]|
    then vs[0].m else Blank(S, t)
  }

  /** The values of a field after one member of the object was applied to it. */
  function ParseField(S: Schema, f: FieldDesc, vs: seq<Value>, j: Json): Parsed<seq<Value>>
    requires SchemaOk(S) && (f.typ.TMessage? ==> f.typ.typ in S)
    decreases j, 3
  {
    if f.repeated then
      if !j.Array? then Parsed(vs, Done)
      else
        var p := ParseItems(S, f.typ, j.items);
        Parsed(vs + p.state, p.outcome)
    else
      var p := ParseValue(S, f.typ, Base(S, f.typ, vs), j);
      Parsed(if p.state.Some? then [p.state.value] else vs, p.outcome)
  }

  /** `_json2pb` over the members: an unknown name ends the conversion without an error. */
  function ParseMembers(S: Schema, typ: string, m: Message, ms: seq<Member>): (p: Parsed<Message>)
    requires SchemaOk(S) && typ in S && |m.slots| == |S[typ]|
    ensures |p.state.slots| == |m.slots|
    decreases ms, 0
  {
    if ms == [] then Parsed(m, Done)
    else
      match FindField(S[typ], ms[0].name)
      case None => Parsed(m, Done)
      case Some(k) =>
        var p := ParseField(S, S[typ][k], m.slots[k].vals, ms[0].value);
        var m' := Message(m.slots[k := Slot(p.state)]);
        if p.outcome.Done? then ParseMembers(S, typ, m', ms[1..]) else Parsed(m', p.outcome)
  }

  function ParseMessage(S: Schema, typ: string, m: Message, root: Json): Parsed<Message>
    requires SchemaOk(S) && typ in S && |m.slots| == |S[typ]|
  {
    if root.Object? then ParseMembers(S, typ, m, root.members) else Parsed(m, Done)
  }

  // ---------- What parsing accepts, and what it stores ----------

  /** The integers of the tree are 64-bit, as those of the JSON library are. */
  ghost predicate IntegersFit(j: Json) {
    match j
    case Object(ms) => forall k :: 0 <= k < |ms| ==> IntegersFit(ms[k].value)
    case Array(js) => forall k :: 0 <= k < |js| ==> IntegersFit(js[k])
    case Integer(i) => Ranged(-0x8000_0000_0000_0000, i, 0x8000_0000_0000_0000)
    case _ => true
  }

  /** Printing casts every integer into that range, unsigned ones included. */
  lemma {:induction false} PrintedFit(S: Schema, t: FieldType, v: Value)
    requires HasType(S, t, v)
    ensures PrintValue(S, t, v).Some? ==> IntegersFit(PrintValue(S, t, v).value)
    decreases v, 0
  {
    if t.TMessage? {
      PrintedFieldsFit(S, S[t.typ], v.m, 0);
    }
  }

  lemma {:induction false} PrintedItemsFit(S: Schema, t: FieldType, vs: seq<Value>)
    requires forall j :: 0 <= j < |vs| ==> HasType(S, t, vs[j])
    ensures forall k :: 0 <= k < |PrintItems(S, t, vs)| ==> IntegersFit(PrintItems(S, t, vs)[k])
    decreases vs, 0
  {
    hide HasType, PrintValue, IntegersFit;
    if vs != [] {
      PrintedFit(S, t, vs[0]);
      PrintedItemsFit(S, t, vs[1..]);
    }
  }

  lemma {:induction false} PrintedFieldsFit(S: Schema, d: Descriptor, m: Message, k: nat)
    requires Conforms(S, d, m) && k <= |d|
    ensures forall i :: 0 <= i < |PrintFields(S, d, m, k)| ==> IntegersFit(PrintFields(S, d, m, k)[i].value)
    decreases m, 0, |d| - k
  {
    hide HasType, PrintValue, PrintItems;
    if k < |d| {
      PrintedFieldsFit(S, d, m, k + 1);
      var vs := m.slots[k].vals;
      if vs != [] {
        if d[k].repeated {
          PrintedItemsFit(S, d[k].typ, vs);
          assert IntegersFit(Array(PrintItems(S, d[k].typ, vs)));
        } else {
          PrintedFit(S, d[k].typ, vs[0]);
        }
        hide IntegersFit;
      }
    }
  }

  /** The field's values fit its description. */
  ghost predicate FieldFits(S: Schema, f: FieldDesc, vs: seq<Value>) {
    (!f.repeated ==> |vs| <= 1) && AllTyped(S, f.typ, vs)
  }

  ghost predicate AllTyped(S: Schema, t: FieldType, vs: seq<Value>) {
    forall j :: 0 <= j < |vs| ==> HasType(S, t, vs[j])
  }

  lemma EmptyConforms(S: Schema, d: Descriptor)
    ensures Conforms(S, d, Empty(d))
  {
  }

  /** A sub-message is parsed into the one the field holds, and into an empty one if it holds none. */
  lemma BaseMeans(S: Schema, f: FieldDesc, vs: seq<Value>)
    requires FieldFits(S, f, vs) && f.typ.TMessage? && f.typ.typ in S
    ensures if vs == [] then Base(S, f.typ, vs) == Empty(S[f.typ.typ])
            else vs[0].VMessage? && Base(S, f.typ, vs) == vs[0].m
  {
    if vs != [] {
      assert HasType(S, f.typ, vs[0]);
      ConformingSize(S, S[f.typ.typ], vs[0].m);
    }
  }

  lemma BaseConforms(S: Schema, f: FieldDesc, vs: seq<Value>)
    requires FieldFits(S, f, vs) && f.typ.TMessage? && f.typ.typ in S
    ensures Conforms(S, S[f.typ.typ], Base(S, f.typ, vs))
  {
    EmptyConforms(S, S[f.typ.typ]);
    hide Conforms;
  }

  lemma {:induction false} ParsedValueFits(S: Schema, t: FieldType, base: Message, j: Json)
    requires SchemaOk(S) && TypeOk(S, t) && IntegersFit(j)
    requires t.TMessage? ==> Conforms(S, S[t.typ], base)
    ensures var p := ParseValue(S, t, base, j); p.state.Some? ==> HasType(S, t, p.state.value)
    decreases j, 1
  {
    if t.TMessage? && j.Object? {
      ParsedMembersConform(S, t.typ, base, j.members);
    }
    hide Conforms;
  }

  lemma {:induction false} ParsedItemsFit(S: Schema, t: FieldType, js: seq<Json>)
    requires SchemaOk(S) && TypeOk(S, t) && forall k :: 0 <= k < |js| ==> IntegersFit(js[k])
    ensures AllTyped(S, t, ParseItems(S, t, js).state)
    decreases js, 2
  {
    if js != [] {
      if t.TMessage? { EmptyConforms(S, S[t.typ]); }
      hide HasType, Conforms, SchemaOk, ParseValue, IntegersFit, Faithful, TypeOk;
      ParsedValueFits(S, t, Blank(S, t), js[0]);
      ParsedItemsFit(S, t, js[1..]);
      var v, rest := ParseValue(S, t, Blank(S, t), js[0]), ParseItems(S, t, js[1..]);
      assert AllTyped(S, t, ToSeq(v.state));
      assert AllTyped(S, t, rest.state);
    }
  }

  lemma {:induction false} ParsedFieldFits(S: Schema, f: FieldDesc, vs: seq<Value>, j: Json)
    requires SchemaOk(S) && TypeOk(S, f.typ) && IntegersFit(j) && FieldFits(S, f, vs)
    ensures FieldFits(S, f, ParseField(S, f, vs, j).state)
    decreases j, 3
  {
    hide HasType, Conforms, SchemaOk, ParseValue, ParseItems;
    if f.repeated {
      if j.Array? {
        assert forall k :: 0 <= k < |j.items| ==> IntegersFit(j.items[k]);
        ParsedItemsFit(S, f.typ, j.items);
      }
    } else {
      if f.typ.TMessage? { BaseConforms(S, f, vs); }
      ParsedValueFits(S, f.typ, Base(S, f.typ, vs), j);
    }
  }

  lemma {:induction false} ParsedMembersConform(S: Schema, typ: string, m: Message, ms: seq<Member>)
    requires SchemaOk(S) && typ in S && Conforms(S, S[typ], m)
    requires forall k :: 0 <= k < |ms| ==> IntegersFit(ms[k].value)
    ensures Conforms(S, S[typ], ParseMembers(S, typ, m, ms).state)
    decreases ms, 0
  {
    hide HasType, ParseField, FindField, IntegersFit;
    if ms != [] {
      var found := FindField(S[typ], ms[0].name);
      if found.Some? {
        var k := found.value;
        ParsedFieldFits(S, S[typ][k], m.slots[k].vals, ms[0].value);
        var p := ParseField(S, S[typ][k], m.slots[k].vals, ms[0].value);
        ParsedMembersConform(S, typ, Message(m.slots[k := Slot(p.state)]), ms[1..]);
      }
    }
  }

  /** Whatever tree is parsed and however it ends, the message stays one of its type: each value is of its
      field's kind, integers are in range, and singular fields hold at most one value. */
  lemma ParsingKeepsType(S: Schema, typ: string, m: Message, root: Json)
    requires SchemaOk(S) && typ in S && Conforms(S, S[typ], m) && IntegersFit(root)
    ensures Conforms(S, S[typ], ParseMessage(S, typ, m, root).state)
  {
    if root.Object? { ParsedMembersConform(S, typ, m, root.members); }
  }

  /** An integer is stored unchanged where the field's type holds it, and else modulo the type's width. */
  lemma IntegersWrap(S: Schema, t: FieldType, base: Message, i: int)
    requires SchemaOk(S) && (t.TInt32? || t.TUInt32? || t.TInt64? || t.TUInt64?)
    requires Ranged(-0x8000_0000_0000_0000, i, 0x8000_0000_0000_0000)
    ensures var p, modulus := ParseValue(S, t, base, Integer(i)), if t.TInt32? || t.TUInt32? then M32 else M64;
      && p.outcome.Done? && p.state.value.VInt? && HasType(S, t, p.state.value)
      && (p.state.value.i - i) % modulus == 0
      && (HasType(S, t, VInt(i)) ==> p.state.value.i == i)
  {
  }

  /** The JSON values that can be stored in a field of this type. */
  ghost predicate Accepts(t: FieldType, j: Json) {
    match t
    case TDouble => j.Real? || j.Integer?
    case TFloat => j.Real? || j.Integer?
    case TInt64 => j.Integer?
    case TUInt64 => j.Integer?
    case TInt32 => j.Integer?
    case TUInt32 => j.Integer?
    case TBool => j.Bool?
    case TString => j.String?
    case TBytes =>
      j.String? && var c := CStr(j.s);
      |c| % 4 == 0 && forall i :: 0 <= i < |c| ==> InAlphabet(c[i]) || c[i] == PAD
    case TEnum(numbers) =>
      (j.Integer? && exists name :: name in numbers && numbers[name] == j.i) || (j.String? && CStr(j.s) in numbers)
    case TMessage(_) => true
  }

  /** How a value that cannot be stored ends the conversion: text and enums hand on an invalid pointer, all
      else throws; nothing is stored in either case. */
  lemma RefusedHow(S: Schema, t: FieldType, base: Message, j: Json)
    requires SchemaOk(S) && !t.TMessage?
    ensures var p := ParseValue(S, t, base, j);
      if Accepts(t, j) then p.outcome.Done?
      else
        && p.state.None?
        && p.outcome == if t.TString? || t.TEnum? || (t.TBytes? && !j.String?) then Invalid else Thrown
  {
    if t.TBytes? && j.String? {
      AcceptedIff(CStr(j.s));
      hide Decode, InAlphabet;
    }
  }

  /** Numbers and enum values as they are stored: an integer in a real field as that real, an enum by its
      number or, given its name, by the number declared under it. */
  lemma StoredAs(S: Schema, base: Message, numbers: map<Bytes, int>, i: int, name: Bytes)
    requires SchemaOk(S)
    ensures ParseValue(S, TDouble, base, Integer(i)) == Read(VNumber(Finite(i as real)))
    ensures ParseValue(S, TFloat, base, Integer(i)) == Read(VNumber(Finite(i as real)))
    ensures (exists n :: n in numbers && numbers[n] == i) ==>
              ParseValue(S, TEnum(numbers), base, Integer(i)) == Read(VEnum(i))
    ensures name in numbers && 0 !in name ==>
              ParseValue(S, TEnum(numbers), base, String(name)) == Read(VEnum(numbers[name]))
  {
    CStrWhole(name);
  }

  /** A value of the wrong shape is no error: one that is no array adds nothing to a repeated field, one that
      is no object leaves a message as it is, and at most makes an unset sub-message an empty one. */
  lemma WrongShape(S: Schema, f: FieldDesc, vs: seq<Value>, m: Message, j: Json)
    requires SchemaOk(S) && FieldFits(S, f, vs) && f.typ.TMessage? && f.typ.typ in S && |m.slots| == |S[f.typ.typ]|
    ensures f.repeated && !j.Array? ==> ParseField(S, f, vs, j) == Parsed(vs, Done)
    ensures !f.repeated && !j.Object? ==>
              ParseField(S, f, vs, j) == Parsed(if vs == [] then [VMessage(Empty(S[f.typ.typ]))] else vs, Done)
    ensures !j.Object? ==> ParseMessage(S, f.typ.typ, m, j) == Parsed(m, Done)
  {
    if !f.repeated {
      BaseMeans(S, f, vs);
      assert vs != [] ==> vs == [vs[0]];
    }
  }

  // ---------- What parsing leaves alone ----------

  /** A field that no member names keeps its values, however the conversion ends. */
  lemma {:induction false} UnnamedKept(S: Schema, typ: string, m: Message, ms: seq<Member>, k: nat)
    requires SchemaOk(S) && typ in S && |m.slots| == |S[typ]| && k < |m.slots|
    requires forall i :: 0 <= i < |ms| ==> ms[i].name != S[typ][k].name
    ensures ParseMembers(S, typ, m, ms).state.slots[k] == m.slots[k]
    decreases |ms|
  {
    hide ParseField, FindField;
    if ms != [] {
      var found := FindField(S[typ], ms[0].name);
      if found.Some? {
        var u := found.value;
        var p := ParseField(S, S[typ][u], m.slots[u].vals, ms[0].value);
        UnnamedKept(S, typ, Message(m.slots[u := Slot(p.state)]), ms[1..], k);
      }
    }
  }

  /** An exception ends the conversion: the members after it make no difference, and what was stored before
      it stays. */
  lemma {:induction false} ExceptionStops(S: Schema, typ: string, m: Message, ms: seq<Member>, more: seq<Member>)
    requires SchemaOk(S) && typ in S && |m.slots| == |S[typ]|
    requires !ParseMembers(S, typ, m, ms).outcome.Done?
    ensures ParseMembers(S, typ, m, ms + more) == ParseMembers(S, typ, m, ms)
    decreases |ms|
  {
    hide ParseField, FindField;
    assert (ms + more)[0] == ms[0] && (ms + more)[1..] == ms[1..] + more;
    var k := FindField(S[typ], ms[0].name).value;
    var p := ParseField(S, S[typ][k], m.slots[k].vals, ms[0].value);
    if p.outcome.Done? {
      ExceptionStops(S, typ, Message(m.slots[k := Slot(p.state)]), ms[1..], more);
    }
  }

  /** A member whose name the message does not have ends the conversion without an error: it and all members
      after it make no difference. */
  lemma {:induction false} UnknownStops(S: Schema, typ: string, m: Message, ms: seq<Member>, u: Member,
                                        more: seq<Member>)
    requires SchemaOk(S) && typ in S && |m.slots| == |S[typ]|
    requires forall k :: 0 <= k < |S[typ]| ==> S[typ][k].name != u.name
    ensures ParseMembers(S, typ, m, ms + [u] + more) == ParseMembers(S, typ, m, ms)
    decreases |ms|
  {
    hide ParseField, FindField;
    if ms == [] {
      assert [] + [u] + more == [u] + more;
    } else {
      assert ms + [u] + more == ms + ([u] + more);
      assert (ms + [u] + more)[0] == ms[0] && (ms + [u] + more)[1..] == ms[1..] + [u] + more;
      var found := FindField(S[typ], ms[0].name);
      if found.Some? {
        var k := found.value;
        var p := ParseField(S, S[typ][k], m.slots[k].vals, ms[0].value);
        UnknownStops(S, typ, Message(m.slots[k := Slot(p.state)]), ms[1..], u, more);
      }
    }
  }

  // ---------- The round trip ----------

  /** The value survives the JSON form: reals are finite, text is UTF-8 without NUL, enum numbers are declared. */
  ghost predicate Faithful(S: Schema, t: FieldType, v: Value)
    requires HasType(S, t, v)
    decreases v, 0
  {
    match t
    case TDouble => v.n.Finite?
    case TFloat => v.n.Finite?
    case TString => 0 !in v.s && ValidText(v.s)
    case TEnum(numbers) => v.number in numbers.Values
    case TMessage(typ) => FaithfulMessage(S, S[typ], v.m)
    case _ => true
  }

  ghost predicate FaithfulMessage(S: Schema, d: Descriptor, m: Message)
    requires Conforms(S, d, m)
    decreases m, 1
  {
    forall k :: 0 <= k < |d| ==>
      forall j :: 0 <= j < |m.slots[k].vals| ==> Faithful(S, d[k].typ, m.slots[k].vals[j])
  }

  ghost predicate AllFaithful(S: Schema, t: FieldType, vs: seq<Value>)
    requires forall j :: 0 <= j < |vs| ==> HasType(S, t, vs[j])
  {
    forall j :: 0 <= j < |vs| ==> Faithful(S, t, vs[j])
  }

  ghost predicate FaithfulFrom(S: Schema, d: Descriptor, m: Message, k: nat)
    requires Conforms(S, d, m) && k <= |d|
  {
    forall i :: k <= i < |d| ==> AllFaithful(S, d[i].typ, m.slots[i].vals)
  }

  lemma FromZero(S: Schema, d: Descriptor, m: Message)
    requires Conforms(S, d, m)
    ensures FaithfulFrom(S, d, m, 0) <==> FaithfulMessage(S, d, m)
  {
    hide HasType, Faithful;
  }

  /** The base64 text of a bytes field is UTF-8 without NUL, so it passes through JSON and C strings whole. */
  lemma BytesSurvive(s: Bytes)
    ensures JsonString(Encode(s)) == Some(String(Encode(s)))
    ensures CStr(Encode(s)) == Encode(s) && Decode(Encode(s)) == Ok(s)
  {
    DecodeEncode(s);
    AcceptedIff(Encode(s));
    hide Encode, ValidText, CStr;
    assert !InAlphabet(0) && PAD != 0;
    CStrWhole(Encode(s));
    AsciiIsText(Encode(s));
  }

  /** A string comes back unchanged exactly when it is UTF-8 without NUL. */
  lemma TextSurvives(s: Bytes)
    ensures JsonString(s).Some? && CStr(JsonString(s).value.s) == s <==> 0 !in s && ValidText(s)
  {
    hide ValidText;
    CStrWhole(s);
    if 0 in s {
      CStrShorter(s);
      CStrShorter(CStr(s));
    }
  }

  lemma CStrShorter(s: Bytes)
    ensures |CStr(s)| <= |s|
    ensures 0 in s ==> |CStr(s)| < |s|
  {
    if s != [] {
      assert s == [s[0]] + s[1..];
    }
  }

  /** Every 64-bit unsigned value survives the signed cast. */
  lemma UnsignedSurvives(u: int)
    requires 0 <= u < M64
    ensures Wrap(WrapSigned(u, M64), M64) == u
  {
  }

  lemma FindFieldAt(d: Descriptor, k: nat)
    requires k < |d|
    requires forall i, j :: 0 <= i < j < |d| ==> d[i].name != d[j].name
    ensures FindField(d, d[k].name) == Some(k)
  {
  }

  /** One value: it comes back unchanged exactly when it is faithful. */
  lemma {:induction false} ValueRoundTrip(S: Schema, t: FieldType, v: Value)
    requires SchemaOk(S) && HasType(S, t, v)
    ensures PrintValue(S, t, v).Some? && ParseValue(S, t, Blank(S, t), PrintValue(S, t, v).value) == Read(v)
            <==> Faithful(S, t, v)
    decreases v, 1
  {
    match t
    case TUInt64 => UnsignedSurvives(v.i);
    case TString => TextSurvives(v.s);
    case TBytes => BytesSurvive(v.s);
    case TMessage(typ) =>
      MessageRoundTrip(S, typ, v.m);
      FromZero(S, S[typ], v.m);
    case _ =>
  }

  lemma {:induction false} MessageRoundTrip(S: Schema, typ: string, m: Message)
    requires SchemaOk(S) && typ in S && Conforms(S, S[typ], m)
    ensures ParseMembers(S, typ, Empty(S[typ]), PrintFields(S, S[typ], m, 0)) == Parsed(m, Done)
            <==> FaithfulFrom(S, S[typ], m, 0)
    decreases m, 2
  {
    FieldsRoundTrip(S, typ, m, Empty(S[typ]), 0);
    var r := ParseMembers(S, typ, Empty(S[typ]), PrintFields(S, S[typ], m, 0));
    if SameFrom(r.state, m, 0) {
      assert r.state.slots == m.slots;
    }
  }

  lemma AllFaithfulNil(S: Schema, t: FieldType)
    ensures AllFaithful(S, t, [])
  {
  }

  lemma AllFaithfulStep(S: Schema, t: FieldType, vs: seq<Value>)
    requires vs != [] && forall j :: 0 <= j < |vs| ==> HasType(S, t, vs[j])
    ensures AllFaithful(S, t, vs) <==> Faithful(S, t, vs[0]) && AllFaithful(S, t, vs[1..])
  {
    hide HasType, Faithful;
    assert forall j :: 1 <= j < |vs| ==> vs[j] == vs[1..][j - 1];
  }

  /** The list of a repeated field. */
  lemma {:induction false} ItemsRoundTrip(S: Schema, t: FieldType, vs: seq<Value>)
    requires SchemaOk(S) && (t.TMessage? ==> t.typ in S)
    requires forall j :: 0 <= j < |vs| ==> HasType(S, t, vs[j])
    ensures ParseItems(S, t, PrintItems(S, t, vs)) == Parsed(vs, Done) <==> AllFaithful(S, t, vs)
    decreases vs, 2
  {
    hide HasType, Faithful, PrintValue, ParseValue, PrintItems, SchemaOk, AllFaithful;
    if vs == [] {
      AllFaithfulNil(S, t);
      ItemsNil(S, t);
    } else {
      ItemsStep(S, t, vs);
      var v, rest := vs[0], vs[1..];
      ValueRoundTrip(S, t, v);
      ItemsRoundTrip(S, t, rest);
      AllFaithfulStep(S, t, vs);
      var js := PrintItems(S, t, rest);
      match PrintValue(S, t, v)
      case Some(j) =>
        assert ([j] + js)[1..] == js;
        assert vs == [v] + rest;
      case None =>
        assert [] + js == js;
    }
  }

  /** One field of a message, applied to a slot that is still empty. */
  lemma {:induction false} FieldRoundTrip(S: Schema, f: FieldDesc, vs: seq<Value>)
    requires SchemaOk(S) && (f.typ.TMessage? ==> f.typ.typ in S)
    requires forall j :: 0 <= j < |vs| ==> HasType(S, f.typ, vs[j])
    requires !f.repeated ==> |vs| <= 1
    ensures var ms := PrintField(S, f, vs);
      && |ms| <= 1
      && (ms == [] ==> (vs == [] <==> AllFaithful(S, f.typ, vs)))
      && (ms != [] ==>
            && ms[0].name == f.name
            && (ParseField(S, f, [], ms[0].value) == Parsed(vs, Done) <==> AllFaithful(S, f.typ, vs)))
    decreases vs, 3
  {
    if vs != [] {
      if f.repeated {
        ItemsRoundTrip(S, f.typ, vs);
        var r := ParseItems(S, f.typ, PrintItems(S, f.typ, vs));
        assert [] + r.state == r.state;
      } else {
        ValueRoundTrip(S, f.typ, vs[0]);
        assert vs == [vs[0]];
      }
    }
  }

  ghost predicate SameFrom(m: Message, m': Message, k: nat) {
    |m.slots| == |m'.slots| && forall i :: k <= i < |m.slots| ==> m.slots[i] == m'.slots[i]
  }

  /** Fields k and later, applied to a message whose slots from k on are empty: they come back exactly
      when they are faithful, and the earlier slots stay as they were. */
  lemma {:induction false} FieldsRoundTrip(S: Schema, typ: string, m: Message, st: Message, k: nat)
    requires SchemaOk(S) && typ in S && Conforms(S, S[typ], m) && k <= |S[typ]|
    requires |st.slots| == |m.slots| && forall i :: k <= i < |st.slots| ==> st.slots[i] == Slot([])
    ensures var r := ParseMembers(S, typ, st, PrintFields(S, S[typ], m, k));
      && (forall i :: 0 <= i < k ==> r.state.slots[i] == st.slots[i])
      && (r.outcome.Done? && SameFrom(r.state, m, k) <==> FaithfulFrom(S, S[typ], m, k))
    decreases m, 1, |S[typ]| - k
  {
    hide *;
    var d := S[typ];
    FieldsEnd(S, typ, m, st);
    if k < |d| {
      var f, vs := d[k], m.slots[k].vals;
      FieldOk(S, typ, m, k);
      var ms, more := PrintField(S, f, vs), PrintFields(S, d, m, k + 1);
      FieldRoundTrip(S, f, vs);
      FieldsStep(S, typ, m, k);
      if ms == [] {
        assert ms + more == more;
        FieldsRoundTrip(S, typ, m, st, k + 1);
        var r := ParseMembers(S, typ, st, more);
        SameStep(r.state, m, k);
      } else {
        MembersStep(S, typ, st, ms, more, k);
        var p := ParseField(S, f, [], ms[0].value);
        if p.outcome.Done? {
          var st' := Message(st.slots[k := Slot(p.state)]);
          FieldsRoundTrip(S, typ, m, st', k + 1);
          var r := ParseMembers(S, typ, st', more);
          SameStep(r.state, m, k);
        }
      }
    }
  }

  lemma FieldsEnd(S: Schema, typ: string, m: Message, st: Message)
    requires SchemaOk(S) && typ in S && Conforms(S, S[typ], m)
    requires |st.slots| == |m.slots|
    ensures |m.slots| == |S[typ]|
    ensures PrintFields(S, S[typ], m, |S[typ]|) == [] && ParseMembers(S, typ, st, []) == Parsed(st, Done)
    ensures SameFrom(st, m, |S[typ]|) && FaithfulFrom(S, S[typ], m, |S[typ]|)
  {
  }

  lemma FieldOk(S: Schema, typ: string, m: Message, k: nat)
    requires SchemaOk(S) && typ in S && Conforms(S, S[typ], m) && k < |S[typ]|
    ensures var f, vs := S[typ][k], m.slots[k].vals;
      && (f.typ.TMessage? ==> f.typ.typ in S)
      && (forall j :: 0 <= j < |vs| ==> HasType(S, f.typ, vs[j]))
      && (!f.repeated ==> |vs| <= 1)
  {
    hide HasType;
  }

  lemma FieldsStep(S: Schema, typ: string, m: Message, k: nat)
    requires SchemaOk(S) && typ in S && Conforms(S, S[typ], m) && k < |S[typ]|
    ensures var d := S[typ];
      && PrintFields(S, d, m, k) == PrintField(S, d[k], m.slots[k].vals) + PrintFields(S, d, m, k + 1)
      && (FaithfulFrom(S, d, m, k) <==> AllFaithful(S, d[k].typ, m.slots[k].vals) && FaithfulFrom(S, d, m, k + 1))
  {
    hide HasType, AllFaithful, PrintField;
  }

  lemma SameStep(r: Message, m: Message, k: nat)
    requires |r.slots| == |m.slots| && k < |m.slots|
    ensures SameFrom(r, m, k) <==> r.slots[k].vals == m.slots[k].vals && SameFrom(r, m, k + 1)
  {
  }

  lemma MembersStep(S: Schema, typ: string, st: Message, ms: seq<Member>, more: seq<Member>, k: nat)
    requires SchemaOk(S) && typ in S && |st.slots| == |S[typ]| && k < |S[typ]|
    requires |ms| == 1 && ms[0].name == S[typ][k].name
    requires S[typ][k].typ.TMessage? ==> S[typ][k].typ.typ in S
    ensures var p := ParseField(S, S[typ][k], st.slots[k].vals, ms[0].value);
            var st' := Message(st.slots[k := Slot(p.state)]);
      ParseMembers(S, typ, st, ms + more)
      == if p.outcome.Done? then ParseMembers(S, typ, st', more) else Parsed(st', p.outcome)
  {
    hide ParseField, FindField;
    FindFieldAt(S[typ], k);
    assert (ms + more)[1..] == more;
  }

  /** Main result: for every message of a described type, printing it and parsing the tree into an
      empty message gives it back exactly when all its values are faithful. */
  lemma RoundTrip(S: Schema, typ: string, m: Message)
    requires SchemaOk(S) && typ in S && Conforms(S, S[typ], m)
    ensures ParseMessage(S, typ, Empty(S[typ]), PrintMessage(S, S[typ], m)) == Parsed(m, Done)
            <==> FaithfulMessage(S, S[typ], m)
  {
    MessageRoundTrip(S, typ, m);
    FromZero(S, S[typ], m);
  }

  // ---------- Parsing into a message that is not empty ----------

  /** What merging the values of a set field into a field leaves: a repeated field grows, a sub-message is
      merged into the one that is there, any other value is replaced; an unset field changes nothing. */
  function MergeSlot(S: Schema, f: FieldDesc, was: seq<Value>, vs: seq<Value>): seq<Value>
    requires forall j :: 0 <= j < |vs| ==> HasType(S, f.typ, vs[j])
    decreases vs
  {
    if vs == [] then was
    else if f.repeated then was + vs
    else [MergeValue(S, f.typ, Base(S, f.typ, was), vs[0])]
  }

  function MergeValue(S: Schema, t: FieldType, base: Message, v: Value): Value
    requires HasType(S, t, v) && (t.TMessage? ==> |base.slots| == |S[t.typ]|)
    decreases v
  {
    if t.TMessage? then VMessage(Merge(S, t.typ, base, v.m)) else v
  }

  function Merge(S: Schema, typ: string, m0: Message, m: Message): (r: Message)
    requires typ in S && Conforms(S, S[typ], m) && |m0.slots| == |S[typ]|
    ensures |r.slots| == |m0.slots|
    decreases m
  {
    Message(seq(|m.slots|, k requires 0 <= k < |m.slots| =>
      Slot(MergeSlot(S, S[typ][k], m0.slots[k].vals, m.slots[k].vals))))
  }

  lemma MergeAt(S: Schema, typ: string, m0: Message, m: Message, k: nat)
    requires typ in S && Conforms(S, S[typ], m) && |m0.slots| == |S[typ]| && k < |S[typ]|
    ensures forall j :: 0 <= j < |m.slots[k].vals| ==> HasType(S, S[typ][k].typ, m.slots[k].vals[j])
    ensures Merge(S, typ, m0, m).slots[k] == Slot(MergeSlot(S, S[typ][k], m0.slots[k].vals, m.slots[k].vals))
  {
    hide HasType, MergeSlot;
  }

  /** One set field of a message, applied to a slot that may hold something. */
  lemma {:induction false} FieldMerges(S: Schema, f: FieldDesc, was: seq<Value>, vs: seq<Value>)
    requires SchemaOk(S) && (f.typ.TMessage? ==> f.typ.typ in S)
    requires forall j :: 0 <= j < |vs| ==> HasType(S, f.typ, vs[j])
    requires (!f.repeated ==> |vs| <= 1) && vs != [] && AllFaithful(S, f.typ, vs)
    ensures var ms := PrintField(S, f, vs);
      && |ms| == 1 && ms[0].name == f.name
      && ParseField(S, f, was, ms[0].value) == Parsed(MergeSlot(S, f, was, vs), Done)
    decreases vs, 3
  {
    if f.repeated {
      hide Merge;
      ItemsRoundTrip(S, f.typ, vs);
    } else {
      ValueMerges(S, f.typ, Base(S, f.typ, was), vs[0]);
      assert vs == [vs[0]];
    }
  }

  lemma {:induction false} ValueMerges(S: Schema, t: FieldType, base: Message, v: Value)
    requires SchemaOk(S) && HasType(S, t, v) && Faithful(S, t, v)
    requires t.TMessage? ==> |base.slots| == |S[t.typ]|
    ensures PrintValue(S, t, v).Some?
    ensures ParseValue(S, t, base, PrintValue(S, t, v).value)
            == Read(MergeValue(S, t, base, v))
    decreases v, 1
  {
    match t
    case TMessage(typ) =>
      FromZero(S, S[typ], v.m);
      MessageMerges(S, typ, base, v.m);
    case _ => ValueRoundTrip(S, t, v);
  }

  lemma {:induction false} MessageMerges(S: Schema, typ: string, m0: Message, m: Message)
    requires SchemaOk(S) && typ in S && Conforms(S, S[typ], m) && |m0.slots| == |S[typ]|
    requires FaithfulFrom(S, S[typ], m, 0)
    ensures ParseMembers(S, typ, m0, PrintFields(S, S[typ], m, 0)) == Parsed(Merge(S, typ, m0, m), Done)
    decreases m, 2
  {
    hide HasType, AllFaithful, PrintFields, ParseMembers;
    FieldsMerge(S, typ, m0, m, m0, 0);
    var r := ParseMembers(S, typ, m0, PrintFields(S, S[typ], m, 0));
    assert r.state.slots == Merge(S, typ, m0, m).slots;
  }

  /** Fields k and later, applied to a message whose slots from k on are still those of m0. */
  lemma {:induction false} FieldsMerge(S: Schema, typ: string, m0: Message, m: Message, st: Message, k: nat)
    requires SchemaOk(S) && typ in S && Conforms(S, S[typ], m) && |m0.slots| == |S[typ]| && k <= |S[typ]|
    requires FaithfulFrom(S, S[typ], m, k) && SameFrom(st, m0, k)
    ensures var r := ParseMembers(S, typ, st, PrintFields(S, S[typ], m, k));
      && r.outcome.Done? && SameFrom(r.state, Merge(S, typ, m0, m), k)
      && forall i :: 0 <= i < k ==> r.state.slots[i] == st.slots[i]
    decreases m, 1, |S[typ]| - k
  {
    hide *;
    var d := S[typ];
    SameSize(st, m0, k);
    ConformingSize(S, d, m);
    FieldsEnd(S, typ, m, st);
    SameAtEnd(st, Merge(S, typ, m0, m));
    if k < |d| {
      var f, vs := d[k], m.slots[k].vals;
      FieldOk(S, typ, m, k);
      MergeAt(S, typ, m0, m, k);
      FieldsStep(S, typ, m, k);
      SameStep(st, m0, k);
      var ms, more := PrintField(S, f, vs), PrintFields(S, d, m, k + 1);
      if vs == [] {
        UnsetMerges(S, f, m0.slots[k].vals);
        assert [] + more == more;
        FieldsMerge(S, typ, m0, m, st, k + 1);
        SameStep(ParseMembers(S, typ, st, more).state, Merge(S, typ, m0, m), k);
      } else {
        FieldMerges(S, f, st.slots[k].vals, vs);
        MembersStep(S, typ, st, ms, more, k);
        var st' := Message(st.slots[k := Slot(MergeSlot(S, f, st.slots[k].vals, vs))]);
        SameAfter(st, st', m0, k);
        FieldsMerge(S, typ, m0, m, st', k + 1);
        SameStep(ParseMembers(S, typ, st', more).state, Merge(S, typ, m0, m), k);
      }
    }
  }

  lemma SameSize(m: Message, m': Message, k: nat)
    requires SameFrom(m, m', k)
    ensures |m.slots| == |m'.slots|
  {
  }

  lemma SameAtEnd(m: Message, m': Message)
    requires |m.slots| == |m'.slots|
    ensures SameFrom(m, m', |m.slots|)
  {
  }

  lemma SameAfter(st: Message, st': Message, m0: Message, k: nat)
    requires SameFrom(st, m0, k) && k < |st.slots| && |st'.slots| == |st.slots|
    requires forall i :: k < i < |st.slots| ==> st'.slots[i] == st.slots[i]
    ensures SameFrom(st', m0, k + 1)
  {
  }

  lemma UnsetMerges(S: Schema, f: FieldDesc, was: seq<Value>)
    ensures MergeSlot(S, f, was, []) == was && PrintField(S, f, []) == []
  {
  }

  /** Main result on messages in use: parsing a printed message into another one of its type merges it into
      that one, wherever its values are faithful. */
  lemma ParsingMerges(S: Schema, typ: string, m0: Message, m: Message)
    requires SchemaOk(S) && typ in S && Conforms(S, S[typ], m) && |m0.slots| == |S[typ]|
    requires FaithfulMessage(S, S[typ], m)
    ensures ParseMessage(S, typ, m0, PrintMessage(S, S[typ], m)) == Parsed(Merge(S, typ, m0, m), Done)
  {
    hide Merge;
    FromZero(S, S[typ], m);
    MessageMerges(S, typ, m0, m);
  }

  // ---------- The conversions as the source runs them ----------

  /** `json_object_set_new`: replace the member of that name, or append one. */
  function SetMember(ms: seq<Member>, name: Bytes, j: Json): seq<Member> {
    if ms == [] then [Member(name, j)]
    else if ms[0].name == name then [Member(name, j)] + ms[1..]
    else [ms[0]] + SetMember(ms[1..], name, j)
  }

  lemma {:induction false} SetNewMember(ms: seq<Member>, name: Bytes, j: Json)
    requires forall i :: 0 <= i < |ms| ==> ms[i].name != name
    ensures SetMember(ms, name, j) == ms + [Member(name, j)]
  {
    if ms != [] {
      SetNewMember(ms[1..], name, j);
    }
  }

  /** `_field2json` for one value. */
  method Field2Json(S: Schema, t: FieldType, v: Value) returns (jf: Option<Json>)
    requires SchemaOk(S) && HasType(S, t, v)
    ensures jf == PrintValue(S, t, v)
    decreases v, 1
  {
    match t {
      case TDouble => jf := if v.n.Finite? then Some(Real(v.n.r)) else None;
      case TFloat => jf := if v.n.Finite? then Some(Real(v.n.r)) else None;
      case TInt64 => jf := Some(Integer(v.i));
      case TUInt64 => jf := Some(Integer(WrapSigned(v.i, M64)));
      case TInt32 => jf := Some(Integer(v.i));
      case TUInt32 => jf := Some(Integer(v.i));
      case TBool => jf := Some(Bool(v.b));
      case TString => jf := JsonString(v.s);
      case TBytes =>
        var text := B64Encode(v.s);
        jf := JsonString(text);
      case TEnum(_) => jf := Some(Integer(v.number));
      case TMessage(typ) =>
        var root := Pb2Json(S, typ, v.m);
        jf := Some(root);
    }
  }

  /** The loop over a repeated field. */
  method Items2Json(S: Schema, t: FieldType, vs: seq<Value>) returns (elements: seq<Json>)
    requires SchemaOk(S) && forall j :: 0 <= j < |vs| ==> HasType(S, t, vs[j])
    ensures elements == PrintItems(S, t, vs)
    decreases vs, 1
  {
    hide HasType, PrintValue, PrintItems, SchemaOk;
    ItemsNil(S, t);
    elements := [];
    for j := 0 to |vs|
      invariant PrintItems(S, t, vs) == elements + PrintItems(S, t, vs[j..])
    {
      var jf := Field2Json(S, t, vs[j]);
      ItemsPush(S, t, vs, j, elements);
      if jf.Some? {
        elements := elements + [jf.value];
      }
    }
    assert vs[|vs|..] == [] && elements + [] == elements;
  }

  lemma ItemsPush(S: Schema, t: FieldType, vs: seq<Value>, j: nat, elements: seq<Json>)
    requires j < |vs| && forall i :: 0 <= i < |vs| ==> HasType(S, t, vs[i])
    ensures elements + PrintItems(S, t, vs[j..])
            == (match PrintValue(S, t, vs[j]) case Some(x) => elements + [x] case None => elements)
               + PrintItems(S, t, vs[j + 1..])
  {
    hide HasType, PrintValue, PrintItems;
    ItemsStep(S, t, vs[j..]);
    assert vs[j..][1..] == vs[j + 1..];
    var tail := PrintItems(S, t, vs[j + 1..]);
    match PrintValue(S, t, vs[j])
    case Some(x) => assert elements + ([x] + tail) == (elements + [x]) + tail;
    case None => assert [] + tail == tail;
  }

  lemma ItemsNil(S: Schema, t: FieldType)
    ensures PrintItems(S, t, []) == []
  {
  }

  lemma ItemsStep(S: Schema, t: FieldType, vs: seq<Value>)
    requires vs != [] && forall j :: 0 <= j < |vs| ==> HasType(S, t, vs[j])
    ensures PrintItems(S, t, vs)
            == (match PrintValue(S, t, vs[0]) case Some(j) => [j] case None => []) + PrintItems(S, t, vs[1..])
  {
    hide HasType, PrintValue;
  }

  /** Elements are printed one by one: a null drops its own element and no other. */
  lemma {:induction false} PrintedOneByOne(S: Schema, t: FieldType, vs: seq<Value>, k: nat)
    requires k <= |vs| && forall j :: 0 <= j < |vs| ==> HasType(S, t, vs[j])
    ensures PrintItems(S, t, vs) == PrintItems(S, t, vs[..k]) + PrintItems(S, t, vs[k..])
    decreases k
  {
    hide *;
    if k == 0 {
      ItemsNil(S, t);
      assert vs[0..] == vs && vs[..0] == [];
      assert [] + PrintItems(S, t, vs) == PrintItems(S, t, vs);
    } else {
      var rest := vs[1..];
      ItemsStep(S, t, vs);
      ItemsStep(S, t, vs[..k]);
      PrintedOneByOne(S, t, rest, k - 1);
      assert rest[..k - 1] == vs[..k][1..] && rest[k - 1..] == vs[k..];
      Regroup(match PrintValue(S, t, vs[0]) case Some(j) => [j] case None => [],
              PrintItems(S, t, rest[..k - 1]), PrintItems(S, t, vs[k..]));
    }
  }

  lemma Regroup(a: seq<Json>, b: seq<Json>, c: seq<Json>)
    ensures a + (b + c) == (a + b) + c
  {
  }

  /** Some field from k on has this name. */
  ghost predicate NamedFrom(d: Descriptor, k: nat, name: Bytes) { exists u :: k <= u < |d| && d[u].name == name }

  /** A field from k on has the one name and a later field the other. */
  ghost predicate NamedInOrder(d: Descriptor, k: nat, name: Bytes, later: Bytes) {
    exists u :: k <= u < |d| && d[u].name == name && NamedFrom(d, u + 1, later)
  }

  /** The members have names of fields from k on, in descriptor order. */
  ghost predicate InOrder(d: Descriptor, k: nat, ms: seq<Member>) {
    && (forall i :: 0 <= i < |ms| ==> NamedFrom(d, k, ms[i].name))
    && (forall i, j :: 0 <= i < j < |ms| ==> NamedInOrder(d, k, ms[i].name, ms[j].name))
  }

  lemma InOrderStep(d: Descriptor, k: nat, first: seq<Member>, more: seq<Member>)
    requires k < |d| && InOrder(d, k + 1, more)
    requires |first| <= 1 && (first != [] ==> first[0].name == d[k].name)
    ensures InOrder(d, k, first + more)
  {
    var ms := first + more;
    forall i | 0 <= i < |ms|
      ensures NamedFrom(d, k, ms[i].name)
    {
      if i >= |first| { assert NamedFrom(d, k + 1, more[i - |first|].name); }
    }
    forall i, j | 0 <= i < j < |ms|
      ensures NamedInOrder(d, k, ms[i].name, ms[j].name)
    {
      assert NamedFrom(d, k + 1, more[j - |first|].name);
      if i >= |first| { assert NamedInOrder(d, k + 1, more[i - |first|].name, more[j - |first|].name); }
    }
  }

  lemma {:induction false} PrintedFrom(S: Schema, d: Descriptor, m: Message, k: nat)
    requires Conforms(S, d, m) && k <= |d|
    ensures InOrder(d, k, PrintFields(S, d, m, k))
    decreases |d| - k
  {
    hide HasType, PrintValue, PrintItems, InOrder;
    if k < |d| {
      PrintedFrom(S, d, m, k + 1);
      InOrderStep(d, k, PrintField(S, d[k], m.slots[k].vals), PrintFields(S, d, m, k + 1));
    } else {
      NoMembers(d, k);
    }
  }

  lemma NoMembers(d: Descriptor, k: nat)
    ensures InOrder(d, k, [])
  {
  }

  /** The members of a printed message have the names of its fields, in descriptor order. */
  lemma PrintedInOrder(S: Schema, d: Descriptor, m: Message)
    requires Conforms(S, d, m)
    ensures InOrder(d, 0, PrintMessage(S, d, m).members)
  {
    PrintedFrom(S, d, m, 0);
  }

  /** `_pb2json`: the fields that are set, in descriptor order. */
  method Pb2Json(S: Schema, typ: string, m: Message) returns (root: Json)
    requires SchemaOk(S) && typ in S && Conforms(S, S[typ], m)
    ensures root == PrintMessage(S, S[typ], m)
    decreases m, 2
  {
    hide HasType, PrintValue, PrintItems, Conforms, PrintFields, SetMember;
    var d := S[typ];
    var members: seq<Member> := [];
    FieldsEnd(S, typ, m, m);
    for k := 0 to |d|
      invariant PrintFields(S, d, m, 0) == members + PrintFields(S, d, m, k)
      invariant NoneNamed(members, d, k)
    {
      var f, vs := d[k], m.slots[k].vals;
      FieldOk(S, typ, m, k);
      FieldsStep(S, typ, m, k);
      hide SchemaOk;
      if vs != [] {
        var jf: Option<Json>;
        if f.repeated {
          var elements := Items2Json(S, f.typ, vs);
          jf := Some(Array(elements));
        } else {
          jf := Field2Json(S, f.typ, vs[0]);
        }
        if jf.Some? {
          assert PrintField(S, f, vs) == [Member(f.name, jf.value)];
          SetNewMember(members, f.name, jf.value);
          members := SetMember(members, f.name, jf.value);
        }
      }
    }
    assert members + [] == members;
    root := Object(members);
  }

  /** No member has the name of field k or a later one. */
  ghost predicate NoneNamed(members: seq<Member>, d: Descriptor, k: nat) {
    forall i, u :: 0 <= i < |members| && k <= u < |d| ==> members[i].name != d[u].name
  }

  /** Adding to a repeated field, setting a singular one. */
  function Store(msg: Message, k: nat, repeated: bool, v: Parsed<Option<Value>>): Parsed<Message>
    requires k < |msg.slots|
  {
    Parsed(match v.state
           case Some(x) => Message(msg.slots[k := Slot(if repeated then msg.slots[k].vals + [x] else [x])])
           case None => msg,
           v.outcome)
  }

  /** `_json2field`: one JSON value set on, or added to, field k of the message. */
  method Json2Field(S: Schema, typ: string, msg: Message, k: nat, jf: Json) returns (r: Parsed<Message>)
    requires SchemaOk(S) && typ in S && |msg.slots| == |S[typ]| && k < |S[typ]|
    requires S[typ][k].typ.TMessage? ==> S[typ][k].typ.typ in S
    ensures var f, vs := S[typ][k], msg.slots[k].vals;
            var base := if f.repeated then Blank(S, f.typ) else Base(S, f.typ, vs);
            r == Store(msg, k, f.repeated, ParseValue(S, f.typ, base, jf))
    decreases jf, 1
  {
    var f, vs := S[typ][k], msg.slots[k].vals;
    var v: Value;
    var outcome := Done;
    match f.typ {
      case TDouble =>
        var r := AsReal(jf);
        if r.None? { return Parsed(msg, Thrown); }
        v := VNumber(Finite(r.value));
      case TFloat =>
        var r := AsReal(jf);
        if r.None? { return Parsed(msg, Thrown); }
        v := VNumber(Finite(r.value));
      case TInt64 =>
        if !jf.Integer? { return Parsed(msg, Thrown); }
        v := VInt(jf.i);
      case TUInt64 =>
        if !jf.Integer? { return Parsed(msg, Thrown); }
        v := VInt(Wrap(jf.i, M64));
      case TInt32 =>
        if !jf.Integer? { return Parsed(msg, Thrown); }
        v := VInt(WrapSigned(jf.i, M32));
      case TUInt32 =>
        if !jf.Integer? { return Parsed(msg, Thrown); }
        v := VInt(Wrap(jf.i, M32));
      case TBool =>
        if !jf.Bool? { return Parsed(msg, Thrown); }
        v := VBool(jf.b);
      case TString =>
        if !jf.String? { return Parsed(msg, Invalid); }
        v := VText(CStr(jf.s));
      case TBytes =>
        if !jf.String? { return Parsed(msg, Invalid); }
        var data := B64Decode(CStr(jf.s));
        if !data.Ok? { return Parsed(msg, Thrown); }
        v := VText(data.data);
      case TEnum(numbers) =>
        var n := EnumNumber(numbers, jf);
        if n.None? { return Parsed(msg, Invalid); }
        v := VEnum(n.value);
      case TMessage(sub) =>
        var mf := if f.repeated then Blank(S, f.typ) else Base(S, f.typ, vs);
        var parsed := Json2Pb(S, sub, mf, jf);
        v, outcome := VMessage(parsed.state), parsed.outcome;
    }
    if f.repeated {
      r := Parsed(Message(msg.slots[k := Slot(vs + [v])]), outcome);
    } else {
      r := Parsed(Message(msg.slots[k := Slot([v])]), outcome);
    }
  }

  ghost function Prepend(vs: seq<Value>, p: Parsed<seq<Value>>): Parsed<seq<Value>> {
    Parsed(vs + p.state, p.outcome)
  }

  lemma PrependStep(S: Schema, t: FieldType, vs: seq<Value>, js: seq<Json>, j: nat)
    requires SchemaOk(S) && (t.TMessage? ==> t.typ in S) && j < |js|
    ensures var v := ParseValue(S, t, Blank(S, t), js[j]);
            var vs' := vs + ToSeq(v.state);
      Prepend(vs, ParseItems(S, t, js[j..]))
      == if v.outcome.Done? then Prepend(vs', ParseItems(S, t, js[j + 1..])) else Parsed(vs', v.outcome)
  {
    hide SchemaOk, ParseValue;
    var v, tail := ParseValue(S, t, Blank(S, t), js[j]), ParseItems(S, t, js[j + 1..]);
    assert js[j..][0] == js[j] && js[j..][1..] == js[j + 1..];
    assert vs + (ToSeq(v.state) + tail.state) == (vs + ToSeq(v.state)) + tail.state;
  }

  /** The loop that adds every array element to a repeated field. */
  method Items2Field(S: Schema, typ: string, msg: Message, k: nat, js: seq<Json>) returns (r: Parsed<Message>)
    requires SchemaOk(S) && typ in S && |msg.slots| == |S[typ]| && k < |S[typ]| && S[typ][k].repeated
    requires S[typ][k].typ.TMessage? ==> S[typ][k].typ.typ in S
    ensures var p := Prepend(msg.slots[k].vals, ParseItems(S, S[typ][k].typ, js));
            r == Parsed(Message(msg.slots[k := Slot(p.state)]), p.outcome)
    decreases js, 2
  {
    hide SchemaOk, ParseValue, ParseItems;
    var cur := msg;
    var t := S[typ][k].typ;
    assert msg.slots[k := Slot(msg.slots[k].vals)] == msg.slots;
    assert js[0..] == js;
    for j := 0 to |js|
      invariant |cur.slots| == |msg.slots| && cur == Message(msg.slots[k := cur.slots[k]])
      invariant Prepend(msg.slots[k].vals, ParseItems(S, t, js))
                == Prepend(cur.slots[k].vals, ParseItems(S, t, js[j..]))
    {
      PrependStep(S, t, cur.slots[k].vals, js, j);
      assert cur.slots[k].vals + [] == cur.slots[k].vals;
      var next := Json2Field(S, typ, cur, k, js[j]);
      cur := next.state;
      assert cur.slots == msg.slots[k := cur.slots[k]];
      if !next.outcome.Done? {
        return Parsed(cur, next.outcome);
      }
    }
    ItemsParsed(S, t, js[|js|..]);
    assert cur.slots[k].vals + [] == cur.slots[k].vals;
    r := Parsed(cur, Done);
  }

  lemma ItemsParsed(S: Schema, t: FieldType, js: seq<Json>)
    requires SchemaOk(S) && (t.TMessage? ==> t.typ in S) && js == []
    ensures ParseItems(S, t, js) == Parsed([], Done)
  {
  }

  /** `_json2pb`. */
  method Json2Pb(S: Schema, typ: string, msg0: Message, root: Json) returns (r: Parsed<Message>)
    requires SchemaOk(S) && typ in S && |msg0.slots| == |S[typ]|
    ensures r == ParseMessage(S, typ, msg0, root)
    decreases root, 0
  {
    var msg := msg0;
    if !root.Object? { return Parsed(msg, Done); }
    var ms := root.members;
    for i := 0 to |ms|
      invariant |msg.slots| == |msg0.slots|
      invariant ParseMembers(S, typ, msg0, ms) == ParseMembers(S, typ, msg, ms[i..])
    {
      assert ms[i..][1..] == ms[i + 1..];
      var found := FindField(S[typ], ms[i].name);
      if found.None? {
        return Parsed(msg, Done);
      }
      var k := found.value;
      var next := Parsed(msg, Done);
      if S[typ][k].repeated {
        if ms[i].value.Array? {
          next := Items2Field(S, typ, msg, k, ms[i].value.items);
        } else {
          assert msg.slots[k := Slot(msg.slots[k].vals)] == msg.slots;
        }
      } else {
        assert msg.slots[k := Slot(msg.slots[k].vals)] == msg.slots;
        next := Json2Field(S, typ, msg, k, ms[i].value);
      }
      msg := next.state;
      if !next.outcome.Done? {
        return Parsed(msg, next.outcome);
      }
    }
    r := Parsed(msg, Done);
  }
}
