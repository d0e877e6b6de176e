/** The wire format of python/tools/binary-message. */
module BinaryMessage {
  /* It is driven by schemas: objects whose layout depends on values decoded
     earlier. */

  import opened Bytes
  import opened Slices

  // ---------- values and schemas ----------

  /** Attribute values: numbers, encoded strings, lists and objects. */
  datatype Value = N(n: int) | S(s: seq<byte>) | L(items: seq<Value>) | O(fields: Env)

  /** The attributes an object has. */
  type Env = map<string, Value>

  /** The struct formats 'B', 'h', 'H', 'i' and 'I'. */
  datatype IntType = IntType(width: nat, signed: bool)

  const SHORT := IntType(2, true)
  const INT := IntType(4, true)

  datatype Type =
    | IntT(it: IntType)
    | LargeT                                         // LargeInt
    | TextT                                          // EncodedString
    | VectorT(size: IntType, elem: Type)             // Vector(size_cls, elem_cls)
    | ArrayT(n: nat, elem: Type, blank: Value)       // Array(array_size, elem_cls), blank is elem_cls()
    | ObjectT(attrs: seq<Attr>, init: Env)           // a BinaryObject class and its attribute defaults
    | VarFieldsT(all: seq<Member>)                   // VarFields of an owner with this all_fields_info
    | VarVectorT(size: IntType, all: seq<Member>)    // VarFieldsVector(size_cls)

  /** An entry of attributes_info. */
  datatype Attr =
    | Plain(name: string, t: Type)
    | Optional(name: string, t: Type, condition: Env -> bool)

  /** An entry of all_fields_info. */
  datatype Member = Member(name: string, t: Type)

  // ---------- integers ----------

  predicate InRange(it: IntType, n: int)
  {
    if it.signed then -Pow256(it.width) <= 2 * n < Pow256(it.width) else 0 <= n < Pow256(it.width)
  }

  /** struct.pack, which refuses a number out of range. */
  function Pack(it: IntType, n: int): Option<seq<byte>>
  {
    if InRange(it, n) then Some(Low(n, it.width)) else None
  }

  function Unpack(it: IntType, b: seq<byte>): int { if it.signed then Signed(b) else Unsigned(b) }

  lemma PackUnpack(it: IntType, n: int)
    requires it.width > 0 && Pack(it, n).Some?
    ensures Unpack(it, Pack(it, n).value) == n && |Pack(it, n).value| == it.width
  {
    if it.signed { SignedRoundTrip(n, it.width); } else { UnsignedRoundTrip(n, it.width); }
  }

  /** LargeInt.frombytes: from 2^29 on, the three top bits scale the rest. */
  function Expand(v: int): int
  {
    var m := if v < 0 then -v else v;
    var tmp := m / 0x2000_0000;
    var x := if tmp == 0 then m else m % 0x2000_0000 * Shift(tmp);
    if v < 0 then -x else x
  }

  /** 1 << tmp * 4 */
  function Shift(tmp: nat): int { if tmp == 0 then 1 else 16 * Shift(tmp - 1) }

  /** Among 32-bit numbers exactly those below 2^29 are read back as written. */
  lemma LargeRoundTrip(v: int)
    requires -0x8000_0000 <= v < 0x8000_0000
    ensures Expand(v) == v <==> -0x2000_0000 < v < 0x2000_0000
  {
    var m := if v < 0 then -v else v;
    var tmp, low := m / 0x2000_0000, m % 0x2000_0000;
    assert Shift(1) == 16 && Shift(2) == 256 && Shift(3) == 4096 && Shift(4) == 65536;
    assert tmp == 0 || tmp == 1 || tmp == 2 || tmp == 3 || tmp == 4;
  }

  lemma LargeInRange(v: int)
    requires -0x2000_0000 < v < 0x2000_0000
    ensures Expand(v) == v
  {
    LargeRoundTrip(v);
  }

  // ---------- serialisation ----------

  function Join(a: Option<seq<byte>>, b: Option<seq<byte>>): Option<seq<byte>>
  {
    if a.Some? && b.Some? then Some(a.value + b.value) else None
  }

  /** A Python list index: counted from the end when negative. */
  function PyIndex(i: int, n: nat): Option<nat>
  {
    if 0 <= i < n then Some(i) else if i < 0 <= i + n then Some(i + n) else None
  }

  /** The positions in all_fields_info that the owner's `fields` select; the first
      field is numbered one. */
  function Layout(owner: Env, n: nat): (r: Option<seq<nat>>)
    ensures r.Some? ==> forall i :: 0 <= i < |r.value| ==> r.value[i] < n
  {
    if "fields" in owner && owner["fields"].L? then Selected(owner["fields"].items, n) else None
  }

  function Selected(fields: seq<Value>, n: nat): (r: Option<seq<nat>>)
    ensures r.Some? ==> forall i :: 0 <= i < |r.value| ==> r.value[i] < n
  {
    if fields == [] then Some([])
    else if !fields[0].N? then None
    else
      var i, rest := PyIndex(fields[0].n - 1, n), Selected(fields[1..], n);
      if i.Some? && rest.Some? then Some([i.value] + rest.value) else None
  }

  /** tobytes of a value of type t; None is an exception. */
  ghost function Enc(t: Type, owner: Env, v: Value): Option<seq<byte>>
    decreases t, 0, 0
  {
    match t
    case IntT(it) => if v.N? then Pack(it, v.n) else None
    case LargeT => if v.N? then Pack(INT, v.n) else None
    case TextT => if v.S? then Join(Pack(SHORT, |v.s|), Some(v.s)) else None
    case VectorT(size, elem) => if v.L? then Join(Pack(size, |v.items|), EncItems(elem, v.items)) else None
    case ArrayT(n, elem, blank) => if v.L? then EncItems(elem, Padded(v.items, n, blank)) else None
    case ObjectT(attrs, _) => if v.O? then EncAttrs(attrs, v.fields) else None
    case VarFieldsT(all) =>
      var layout := Layout(owner, |all|);
      if v.O? && layout.Some? then EncMembers(all, layout.value, v.fields) else None
    case VarVectorT(size, all) =>
      var layout := Layout(owner, |all|);
      if !v.L? then None
      else if v.items == [] then Pack(size, 0)
      else if layout.Some? then Join(Pack(size, |v.items|), EncRecords(all, layout.value, v.items)) else None
  }

  /** Array.tobytes fills a short list up with default elements. */
  function Padded(items: seq<Value>, n: nat, blank: Value): seq<Value>
  {
    if |items| < n then items + seq(n - |items|, _ => blank) else items
  }

  ghost function EncItems(elem: Type, items: seq<Value>): Option<seq<byte>>
    decreases elem, 1, |items|
  {
    if items == [] then Some([]) else Join(Enc(elem, map[], items[0]), EncItems(elem, items[1..]))
  }

  /** body2bytes over the attributes whose conditions hold for the object. */
  ghost function EncAttrs(attrs: seq<Attr>, obj: Env): Option<seq<byte>>
    decreases attrs, 0, 0
  {
    if attrs == [] then Some([])
    else if attrs[0].Optional? && !attrs[0].condition(obj) then EncAttrs(attrs[1..], obj)
    else if attrs[0].name !in obj then None
    else Join(Enc(attrs[0].t, obj, obj[attrs[0].name]), EncAttrs(attrs[1..], obj))
  }

  ghost function EncMembers(all: seq<Member>, layout: seq<nat>, obj: Env): Option<seq<byte>>
    requires forall i :: 0 <= i < |layout| ==> layout[i] < |all|
    decreases all, 1, |layout|
  {
    if layout == [] then Some([])
    else if all[layout[0]].name !in obj then None
    else Join(Enc(all[layout[0]].t, obj, obj[all[layout[0]].name]), EncMembers(all, layout[1..], obj))
  }

  ghost function EncRecords(all: seq<Member>, layout: seq<nat>, items: seq<Value>): Option<seq<byte>>
    requires forall i :: 0 <= i < |layout| ==> layout[i] < |all|
    decreases all, 2, |items|
  {
    if items == [] then Some([])
    else if !items[0].O? then None
    else Join(EncMembers(all, layout, items[0].fields), EncRecords(all, layout, items[1..]))
  }

  // ---------- parsing ----------

  /** A value and the reader's new offset, or an exception. */
  datatype Parsed<T> = Fail | Got(value: T, off: int)

  /** buf[a:b] with Python's treatment of bounds outside the buffer. */
  function PySlice(buf: seq<byte>, a: int, b: int): seq<byte>
  {
    var lo, hi := PyBound(a, |buf|), PyBound(b, |buf|);
    if lo < hi then buf[lo..hi] else []
  }

  function PyBound(i: int, n: nat): (k: nat)
    ensures k <= n
  {
    if i >= n then n else if i >= 0 then i else if i + n >= 0 then i + n else 0
  }

  ghost function DecInt(it: IntType, buf: seq<byte>, off: int): Parsed<int>
  {
    var b := PySlice(buf, off, off + it.width);
    if |b| < it.width then Fail else Got(Unpack(it, b), off + it.width)
  }

  /** fromstream of type t at an offset. */
  ghost function Dec(t: Type, owner: Env, buf: seq<byte>, off: int): Parsed<Value>
    decreases t, 0, 0
  {
    match t
    case IntT(it) =>
      var r := DecInt(it, buf, off);
      if r.Fail? then Fail else Got(N(r.value), r.off)
    case LargeT =>
      var r := DecInt(INT, buf, off);
      if r.Fail? then Fail else Got(N(Expand(r.value)), r.off)
    case TextT =>
      var r := DecInt(SHORT, buf, off);
      if r.Fail? then Fail else Got(S(PySlice(buf, r.off, r.off + r.value)), r.off + r.value)
    case VectorT(size, elem) =>
      var r := DecInt(size, buf, off);
      if r.Fail? then Fail else AsList(DecItems(elem, Times(r.value), buf, r.off))
    case ArrayT(n, elem, _) => AsList(DecItems(elem, n, buf, off))
    case ObjectT(attrs, init) => AsObject(DecAttrs(attrs, init, buf, off))
    case VarFieldsT(all) =>
      var layout := Layout(owner, |all|);
      if layout.None? then Fail else AsObject(DecMembers(all, layout.value, map[], buf, off))
    case VarVectorT(size, all) =>
      var r, layout := DecInt(size, buf, off), Layout(owner, |all|);
      if r.Fail? then Fail
      else if Times(r.value) == 0 then Got(L([]), r.off)
      else if layout.None? then Fail
      else AsList(DecRecords(all, layout.value, Times(r.value), buf, r.off))
  }

  /** range(n) is empty for a negative n. */
  function Times(n: int): nat { if n < 0 then 0 else n }

  function AsList(r: Parsed<seq<Value>>): Parsed<Value> { if r.Fail? then Fail else Got(L(r.value), r.off) }

  function AsObject(r: Parsed<Env>): Parsed<Value> { if r.Fail? then Fail else Got(O(r.value), r.off) }

  /** v and then the rest of a list. */
  function Prepend(items: seq<Value>, r: Parsed<seq<Value>>): Parsed<seq<Value>>
  {
    if r.Fail? then Fail else Got(items + r.value, r.off)
  }

  ghost function DecItems(elem: Type, n: nat, buf: seq<byte>, off: int): Parsed<seq<Value>>
    decreases elem, 1, n
  {
    if n == 0 then Got([], off) else
      var r := Dec(elem, map[], buf, off);
      if r.Fail? then Fail else Prepend([r.value], DecItems(elem, n - 1, buf, r.off))
  }

  /** _fromstream: attributes are set one by one on the new object `env`, and each
      condition is asked of the object as it stands. */
  ghost function DecAttrs(attrs: seq<Attr>, env: Env, buf: seq<byte>, off: int): Parsed<Env>
    decreases attrs, 0, 0
  {
    if attrs == [] then Got(env, off)
    else if attrs[0].Optional? && !attrs[0].condition(env) then DecAttrs(attrs[1..], env, buf, off)
    else
      var r := Dec(attrs[0].t, env, buf, off);
      if r.Fail? then Fail else DecAttrs(attrs[1..], env[attrs[0].name := r.value], buf, r.off)
  }

  ghost function DecMembers(all: seq<Member>, layout: seq<nat>, env: Env, buf: seq<byte>, off: int): Parsed<Env>
    requires forall i :: 0 <= i < |layout| ==> layout[i] < |all|
    decreases all, 1, |layout|
  {
    if layout == [] then Got(env, off) else
      var r := Dec(all[layout[0]].t, env, buf, off);
      if r.Fail? then Fail else DecMembers(all, layout[1..], env[all[layout[0]].name := r.value], buf, r.off)
  }

  ghost function DecRecords(all: seq<Member>, layout: seq<nat>, n: nat, buf: seq<byte>, off: int): Parsed<seq<Value>>
    requires forall i :: 0 <= i < |layout| ==> layout[i] < |all|
    decreases all, 2, n
  {
    if n == 0 then Got([], off) else
      var r := AsObject(DecMembers(all, layout, map[], buf, off));
      if r.Fail? then Fail else Prepend([r.value], DecRecords(all, layout, n - 1, buf, r.off))
  }

  // ---------- well-formed schemas and canonical values ----------

  /** e1 and e2 hold the same values for the given names. */
  ghost predicate Agree(e1: Env, e2: Env, names: set<string>)
  {
    forall n :: n in names ==> n in e1 && n in e2 && e1[n] == e2[n]
  }

  /** Conditions and layouts look only at mandatory attributes that come earlier,
      and every integer has at least one byte. */
  ghost predicate WfType(t: Type, known: set<string>)
    decreases t, 0
  {
    match t
    case IntT(it) => it.width > 0
    case LargeT => true
    case TextT => true
    case VectorT(size, elem) => size.width > 0 && WfType(elem, {})
    case ArrayT(_, elem, _) => WfType(elem, {})
    case ObjectT(attrs, init) => init.Keys <= Mandatory(attrs) && WfAttrs(attrs, {})
    case VarFieldsT(all) => "fields" in known && WfMembers(all)
    case VarVectorT(size, all) => "fields" in known && size.width > 0 && WfMembers(all)
  }

  ghost predicate WfAttrs(attrs: seq<Attr>, known: set<string>)
    decreases attrs, 0
  {
    attrs == [] ||
    (var a := attrs[0];
     && WfType(a.t, known)
     && (a.Optional? ==> forall e1: Env, e2: Env :: Agree(e1, e2, known) ==> a.condition(e1) == a.condition(e2))
     && WfAttrs(attrs[1..], if a.Optional? then known else known + {a.name}))
  }

  ghost predicate WfMembers(all: seq<Member>)
    decreases all, 0
  {
    forall i :: 0 <= i < |all| ==> WfType(all[i].t, {})
  }

  ghost function Mandatory(attrs: seq<Attr>): set<string>
  {
    if attrs == [] then {} else (if attrs[0].Optional? then {} else {attrs[0].name}) + Mandatory(attrs[1..])
  }

  /** The names an object has when its conditions have been taken into account. */
  ghost function Present(attrs: seq<Attr>, obj: Env): set<string>
  {
    if attrs == [] then {}
    else (if attrs[0].Optional? && !attrs[0].condition(obj) then {} else {attrs[0].name}) + Present(attrs[1..], obj)
  }

  ghost function Names(all: seq<Member>, layout: seq<nat>): set<string>
    requires forall i :: 0 <= i < |layout| ==> layout[i] < |all|
  {
    if layout == [] then {} else {all[layout[0]].name} + Names(all, layout[1..])
  }

  /** A value that parsing can produce: objects have exactly the attributes their
      conditions and layouts call for, arrays their declared length, and a
      LargeInt stays below the magnitude at which reading starts to scale. */
  ghost predicate Canonical(t: Type, owner: Env, v: Value)
    decreases t, 0, 0
  {
    match t
    case IntT(_) => true
    case LargeT => v.N? ==> -0x2000_0000 < v.n < 0x2000_0000
    case TextT => true
    case VectorT(_, elem) => v.L? ==> CanonicalItems(elem, v.items)
    case ArrayT(n, elem, _) => v.L? ==> |v.items| == n && CanonicalItems(elem, v.items)
    case ObjectT(attrs, _) => v.O? ==> v.fields.Keys == Present(attrs, v.fields) && CanonicalAttrs(attrs, v.fields)
    case VarFieldsT(all) =>
      var layout := Layout(owner, |all|);
      v.O? && layout.Some? ==> CanonicalMembers(all, layout.value, v.fields)
    case VarVectorT(_, all) =>
      var layout := Layout(owner, |all|);
      v.L? && layout.Some? ==> CanonicalRecords(all, layout.value, v.items)
  }

  ghost predicate CanonicalItems(elem: Type, items: seq<Value>)
    decreases elem, 1, |items|
  {
    items == [] || (Canonical(elem, map[], items[0]) && CanonicalItems(elem, items[1..]))
  }

  ghost predicate CanonicalAttrs(attrs: seq<Attr>, obj: Env)
    decreases attrs, 0, 0
  {
    attrs == [] ||
    ((attrs[0].name in obj ==> Canonical(attrs[0].t, obj, obj[attrs[0].name])) && CanonicalAttrs(attrs[1..], obj))
  }

  ghost predicate CanonicalMembers(all: seq<Member>, layout: seq<nat>, obj: Env)
    requires forall i :: 0 <= i < |layout| ==> layout[i] < |all|
    decreases all, 1, |layout|
  {
    obj.Keys == Names(all, layout) &&
    forall i :: 0 <= i < |layout| && all[layout[i]].name in obj ==>
      Canonical(all[layout[i]].t, obj, obj[all[layout[i]].name])
  }

  ghost predicate CanonicalRecords(all: seq<Member>, layout: seq<nat>, items: seq<Value>)
    requires forall i :: 0 <= i < |layout| ==> layout[i] < |all|
    decreases all, 2, |items|
  {
    items == [] ||
    ((items[0].O? ==> CanonicalMembers(all, layout, items[0].fields)) && CanonicalRecords(all, layout, items[1..]))
  }

  // ---------- the round trip ----------

  lemma SliceAt(buf: seq<byte>, off: int, b: seq<byte>)
    requires At(buf, off, b)
    ensures PySlice(buf, off, off + |b|) == b
  {
  }

  lemma IntBack(it: IntType, n: int, buf: seq<byte>, off: int)
    requires it.width > 0 && Pack(it, n).Some? && At(buf, off, Pack(it, n).value)
    ensures DecInt(it, buf, off) == Got(n, off + |Pack(it, n).value|)
  {
    PackUnpack(it, n);
    SliceAt(buf, off, Pack(it, n).value);
  }

  lemma TextBack(s: seq<byte>, owner: Env, reading: Env, buf: seq<byte>, off: int)
    requires Enc(TextT, owner, S(s)).Some? && At(buf, off, Enc(TextT, owner, S(s)).value)
    ensures Dec(TextT, reading, buf, off) == Got(S(s), off + |Enc(TextT, owner, S(s)).value|)
  {
    hide PySlice;
    hide DecInt;
    hide Pack;
    AtSplit(buf, off, Pack(SHORT, |s|).value, s);
    IntBack(SHORT, |s|, buf, off);
    SliceAt(buf, off + |Pack(SHORT, |s|).value|, s);
  }

  lemma {:induction false} VectorBack(size: IntType, elem: Type, owner: Env, reading: Env, items: seq<Value>, buf: seq<byte>, off: int)
    requires size.width > 0 && WfType(elem, {}) && CanonicalItems(elem, items)
    requires Enc(VectorT(size, elem), owner, L(items)).Some?
    requires At(buf, off, Enc(VectorT(size, elem), owner, L(items)).value)
    ensures Dec(VectorT(size, elem), reading, buf, off) == Got(L(items), off + |Enc(VectorT(size, elem), owner, L(items)).value|)
    decreases VectorT(size, elem), 0, 0
  {
    hide DecInt, Pack, DecItems, EncItems, CanonicalItems, WfType;
    var p := Pack(size, |items|).value;
    AtSplit(buf, off, p, EncItems(elem, items).value);
    IntBack(size, |items|, buf, off);
    ItemsBack(elem, items, buf, off + |p|);
  }

  lemma {:induction false} ArrayBack(n: nat, elem: Type, blank: Value, owner: Env, reading: Env, items: seq<Value>, buf: seq<byte>, off: int)
    requires |items| == n && WfType(elem, {}) && CanonicalItems(elem, items)
    requires Enc(ArrayT(n, elem, blank), owner, L(items)).Some?
    requires At(buf, off, Enc(ArrayT(n, elem, blank), owner, L(items)).value)
    ensures Dec(ArrayT(n, elem, blank), reading, buf, off) ==
            Got(L(items), off + |Enc(ArrayT(n, elem, blank), owner, L(items)).value|)
    decreases ArrayT(n, elem, blank), 0, 0
  {
    hide DecItems, EncItems, CanonicalItems, WfType;
    ItemsBack(elem, items, buf, off);
  }

  lemma {:induction false} ObjectBack(attrs: seq<Attr>, init: Env, owner: Env, reading: Env, obj: Env, buf: seq<byte>, off: int)
    requires init.Keys <= Mandatory(attrs) && WfAttrs(attrs, {})
    requires obj.Keys == Present(attrs, obj) && CanonicalAttrs(attrs, obj)
    requires Enc(ObjectT(attrs, init), owner, O(obj)).Some?
    requires At(buf, off, Enc(ObjectT(attrs, init), owner, O(obj)).value)
    ensures Dec(ObjectT(attrs, init), reading, buf, off) ==
            Got(O(obj), off + |Enc(ObjectT(attrs, init), owner, O(obj)).value|)
    decreases ObjectT(attrs, init), 0, 0
  {
    hide DecAttrs, EncAttrs, CanonicalAttrs, WfAttrs, Put, Present, Mandatory, At;
    AttrsBack(attrs, {}, obj, init, buf, off);
    PresentCovers(attrs, obj);
    Overlay(obj, init, Present(attrs, obj));
  }

  lemma {:induction false} VarFieldsBack(all: seq<Member>, layout: seq<nat>, owner: Env, reading: Env, obj: Env, buf: seq<byte>, off: int)
    requires WfMembers(all) && Layout(owner, |all|) == Some(layout) == Layout(reading, |all|)
    requires CanonicalMembers(all, layout, obj)
    requires Enc(VarFieldsT(all), owner, O(obj)).Some?
    requires At(buf, off, Enc(VarFieldsT(all), owner, O(obj)).value)
    ensures Dec(VarFieldsT(all), reading, buf, off) == Got(O(obj), off + |Enc(VarFieldsT(all), owner, O(obj)).value|)
    decreases VarFieldsT(all), 0, 0
  {
    hide DecMembers, EncMembers, WfMembers, Layout, Put, Names, At;
    MembersBack(all, layout, obj, map[], buf, off);
    Overlay(obj, map[], Names(all, layout));
  }

  lemma {:induction false} VarVectorBack(size: IntType, all: seq<Member>, owner: Env, reading: Env, items: seq<Value>, buf: seq<byte>, off: int)
    requires size.width > 0 && WfMembers(all) && Layout(owner, |all|) == Layout(reading, |all|)
    requires Layout(owner, |all|).Some? ==> CanonicalRecords(all, Layout(owner, |all|).value, items)
    requires Enc(VarVectorT(size, all), owner, L(items)).Some?
    requires At(buf, off, Enc(VarVectorT(size, all), owner, L(items)).value)
    ensures Dec(VarVectorT(size, all), reading, buf, off) ==
            Got(L(items), off + |Enc(VarVectorT(size, all), owner, L(items)).value|)
    decreases VarVectorT(size, all), 0, 0
  {
    hide DecInt, Pack, DecRecords, EncRecords, CanonicalRecords, WfMembers, Layout;
    if items == [] {
      IntBack(size, 0, buf, off);
    } else {
      var layout := Layout(owner, |all|).value;
      var p := Pack(size, |items|).value;
      AtSplit(buf, off, p, EncRecords(all, layout, items).value);
      IntBack(size, |items|, buf, off);
      RecordsBack(all, layout, items, buf, off + |p|);
    }
  }

  lemma LayoutAgrees(owner: Env, reading: Env, known: set<string>, n: nat)
    requires "fields" in known && Agree(owner, reading, known)
    ensures Layout(owner, n) == Layout(reading, n)
  {
    hide Selected;
  }

  /** A value that was written, and stands in the buffer, is read back from there,
      and exactly its bytes are consumed. */
  lemma {:induction false} ValueBack(t: Type, known: set<string>, owner: Env, reading: Env, v: Value, buf: seq<byte>, off: int)
    requires WfType(t, known) && Agree(owner, reading, known)
    requires Enc(t, owner, v).Some? && Canonical(t, owner, v) && At(buf, off, Enc(t, owner, v).value)
    ensures Dec(t, reading, buf, off) == Got(v, off + |Enc(t, owner, v).value|)
    decreases t, 1, 0
  {
    hide DecInt, Pack, Layout, Agree, At, Present, Mandatory;
    hide DecItems, DecAttrs, DecMembers, DecRecords;
    hide EncItems, EncAttrs, EncMembers, EncRecords;
    hide CanonicalItems, CanonicalAttrs, CanonicalMembers, CanonicalRecords;
    hide WfAttrs, WfMembers;
    match t {
      case IntT(it) => IntBack(it, v.n, buf, off);
      case LargeT =>
        IntBack(INT, v.n, buf, off);
        LargeInRange(v.n);
      case TextT => TextBack(v.s, owner, reading, buf, off);
      case VectorT(size, elem) => VectorBack(size, elem, owner, reading, v.items, buf, off);
      case ArrayT(n, elem, blank) => ArrayBack(n, elem, blank, owner, reading, v.items, buf, off);
      case ObjectT(attrs, init) => ObjectBack(attrs, init, owner, reading, v.fields, buf, off);
      case VarFieldsT(all) =>
        LayoutAgrees(owner, reading, known, |all|);
        VarFieldsBack(all, Layout(owner, |all|).value, owner, reading, v.fields, buf, off);
      case VarVectorT(size, all) =>
        LayoutAgrees(owner, reading, known, |all|);
        VarVectorBack(size, all, owner, reading, v.items, buf, off);
    }
  }

  lemma {:induction false} ItemsBack(elem: Type, items: seq<Value>, buf: seq<byte>, off: int)
    requires WfType(elem, {}) && EncItems(elem, items).Some? && CanonicalItems(elem, items)
    requires At(buf, off, EncItems(elem, items).value)
    ensures DecItems(elem, |items|, buf, off) == Got(items, off + |EncItems(elem, items).value|)
    decreases elem, 2, |items|
  {
    hide Dec, Enc, WfType, Canonical;
    if items != [] {
      var a, b := Enc(elem, map[], items[0]).value, EncItems(elem, items[1..]).value;
      AtSplit(buf, off, a, b);
      ValueBack(elem, {}, map[], map[], items[0], buf, off);
      ItemsBack(elem, items[1..], buf, off + |a|);
      assert [items[0]] + items[1..] == items;
    }
  }

  /** env with the named values of obj put on top. */
  ghost function Put(env: Env, obj: Env, names: set<string>): Env
  {
    env + map n | n in names && n in obj :: obj[n]
  }

  lemma Overlay(obj: Env, env: Env, names: set<string>)
    requires obj.Keys == names && env.Keys <= names
    ensures Put(env, obj, names) == obj
  {
  }

  lemma {:induction false} PresentCovers(attrs: seq<Attr>, obj: Env)
    ensures Mandatory(attrs) <= Present(attrs, obj)
  {
    if attrs != [] { PresentCovers(attrs[1..], obj); }
  }

  lemma PutNothing(env: Env, obj: Env)
    ensures Put(env, obj, {}) == env
  {
  }

  lemma PutOneMore(env: Env, obj: Env, n: string, names: set<string>)
    requires n in obj
    ensures Put(env[n := obj[n]], obj, names) == Put(env, obj, {n} + names)
  {
  }

  /** Attribute by attribute, the object being read agrees with the one written on
      everything mandatory so far, so every condition is decided the same way. */
  lemma {:induction false} AttrsBack(attrs: seq<Attr>, known: set<string>, obj: Env, env: Env, buf: seq<byte>, off: int)
    requires WfAttrs(attrs, known) && Agree(obj, env, known)
    requires EncAttrs(attrs, obj).Some? && CanonicalAttrs(attrs, obj) && At(buf, off, EncAttrs(attrs, obj).value)
    ensures DecAttrs(attrs, env, buf, off) == Got(Put(env, obj, Present(attrs, obj)), off + |EncAttrs(attrs, obj).value|)
    decreases attrs, 2, 0
  {
    hide Dec, Enc, WfType, Canonical, Put, At;
    if attrs == [] {
      PutNothing(env, obj);
    } else {
      var a := attrs[0];
      if a.Optional? && !a.condition(obj) {
        assert a.condition(env) == a.condition(obj);
        AttrsBack(attrs[1..], known, obj, env, buf, off);
        assert Present(attrs, obj) == Present(attrs[1..], obj);
      } else {
        if a.Optional? { assert a.condition(env) == a.condition(obj); }
        var b, rest := Enc(a.t, obj, obj[a.name]).value, EncAttrs(attrs[1..], obj).value;
        AtSplit(buf, off, b, rest);
        ValueBack(a.t, known, obj, env, obj[a.name], buf, off);
        var env' := env[a.name := obj[a.name]];
        AttrsBack(attrs[1..], if a.Optional? then known else known + {a.name}, obj, env', buf, off + |b|);
        PutOneMore(env, obj, a.name, Present(attrs[1..], obj));
      }
    }
  }

  lemma {:induction false} MembersBack(all: seq<Member>, layout: seq<nat>, obj: Env, env: Env, buf: seq<byte>, off: int)
    requires WfMembers(all) && forall i :: 0 <= i < |layout| ==> layout[i] < |all|
    requires EncMembers(all, layout, obj).Some? && At(buf, off, EncMembers(all, layout, obj).value)
    requires forall i :: 0 <= i < |layout| && all[layout[i]].name in obj ==>
               Canonical(all[layout[i]].t, obj, obj[all[layout[i]].name])
    ensures DecMembers(all, layout, env, buf, off) ==
            Got(Put(env, obj, Names(all, layout)), off + |EncMembers(all, layout, obj).value|)
    decreases all, 2, |layout|
  {
    hide Dec, Enc, WfType, Canonical, Put, At;
    if layout == [] {
      PutNothing(env, obj);
    } else {
      var m := all[layout[0]];
      var b, rest := Enc(m.t, obj, obj[m.name]).value, EncMembers(all, layout[1..], obj).value;
      AtSplit(buf, off, b, rest);
      ValueBack(m.t, {}, obj, env, obj[m.name], buf, off);
      MembersBack(all, layout[1..], obj, env[m.name := obj[m.name]], buf, off + |b|);
      PutOneMore(env, obj, m.name, Names(all, layout[1..]));
    }
  }

  lemma {:induction false} RecordsBack(all: seq<Member>, layout: seq<nat>, items: seq<Value>, buf: seq<byte>, off: int)
    requires WfMembers(all) && forall i :: 0 <= i < |layout| ==> layout[i] < |all|
    requires EncRecords(all, layout, items).Some? && CanonicalRecords(all, layout, items)
    requires At(buf, off, EncRecords(all, layout, items).value)
    ensures DecRecords(all, layout, |items|, buf, off) == Got(items, off + |EncRecords(all, layout, items).value|)
    decreases all, 3, |items|
  {
    hide DecMembers, EncMembers, Put, At, Names;
    if items != [] {
      var obj := items[0].fields;
      var a, b := EncMembers(all, layout, obj).value, EncRecords(all, layout, items[1..]).value;
      AtSplit(buf, off, a, b);
      MembersBack(all, layout, obj, map[], buf, off);
      Overlay(obj, map[], Names(all, layout));
      RecordsBack(all, layout, items[1..], buf, off + |a|);
      assert [items[0]] + items[1..] == items;
    }
  }

  /** Parsing what an object serialises to, whatever follows it, gives the object
      back and stops exactly at its end. */
  lemma RoundTrip(attrs: seq<Attr>, init: Env, obj: Env, suffix: seq<byte>)
    requires WfType(ObjectT(attrs, init), {}) && Canonical(ObjectT(attrs, init), map[], O(obj))
    requires EncAttrs(attrs, obj).Some?
    ensures Dec(ObjectT(attrs, init), map[], EncAttrs(attrs, obj).value + suffix, 0) ==
            Got(O(obj), |EncAttrs(attrs, obj).value|)
  {
    hide EncAttrs, WfAttrs, Present, Mandatory, CanonicalAttrs;
    var t, b := ObjectT(attrs, init), EncAttrs(attrs, obj).value;
    assert At(b + suffix, 0, b);
    assert Enc(t, map[], O(obj)) == Some(b);
    ValueBack(t, {}, map[], map[], O(obj), b + suffix, 0);
  }

  /** So the format is unambiguous: no serialised object is a prefix of another's. */
  lemma Unambiguous(attrs: seq<Attr>, init: Env, obj1: Env, suffix1: seq<byte>, obj2: Env, suffix2: seq<byte>)
    requires WfType(ObjectT(attrs, init), {})
    requires Canonical(ObjectT(attrs, init), map[], O(obj1)) && EncAttrs(attrs, obj1).Some?
    requires Canonical(ObjectT(attrs, init), map[], O(obj2)) && EncAttrs(attrs, obj2).Some?
    requires EncAttrs(attrs, obj1).value + suffix1 == EncAttrs(attrs, obj2).value + suffix2
    ensures obj1 == obj2 && suffix1 == suffix2
  {
    hide *;
    RoundTrip(attrs, init, obj1, suffix1);
    RoundTrip(attrs, init, obj2, suffix2);
    var b1, b2 := EncAttrs(attrs, obj1).value, EncAttrs(attrs, obj2).value;
    assert (b1 + suffix1)[|b1|..] == suffix1 && (b2 + suffix2)[|b2|..] == suffix2;
  }

  /** A fixed-size array comes back only if it had its declared length: a longer
      list is written in full, a shorter one filled up. */
  lemma ArrayLength(n: nat, elem: Type, blank: Value, items: seq<Value>, buf: seq<byte>, off: int)
    requires WfType(elem, {}) && CanonicalItems(elem, items) && EncItems(elem, Padded(items, n, blank)).Some?
    requires At(buf, off, EncItems(elem, Padded(items, n, blank)).value)
    ensures (Dec(ArrayT(n, elem, blank), map[], buf, off) ==
             Got(L(items), off + |EncItems(elem, Padded(items, n, blank)).value|)) <==> |items| == n
  {
    hide DecItems, EncItems, CanonicalItems, At, WfType;
    ItemsLength(elem, n, buf, off);
    if |items| == n { ItemsBack(elem, items, buf, off); }
  }

  lemma {:induction false} ItemsLength(elem: Type, n: nat, buf: seq<byte>, off: int)
    ensures DecItems(elem, n, buf, off).Got? ==> |DecItems(elem, n, buf, off).value| == n
    decreases n
  {
    hide Dec;
    if n > 0 {
      var r := Dec(elem, map[], buf, off);
      if r.Got? { ItemsLength(elem, n - 1, buf, r.off); }
    }
  }

  // ---------- the reader ----------

  /** What a reading method returns and where it leaves the reader. */
  ghost predicate Reads<T>(p: Parsed<T>, r: Option<T>, off: int)
  {
    if p.Fail? then r.None? else r == Some(p.value) && off == p.off
  }

  lemma PrependNothing(p: Parsed<seq<Value>>)
    ensures Prepend([], p) == p
  {
    if p.Got? { assert [] + p.value == p.value; }
  }

  lemma PrependMore(items: seq<Value>, v: Value, p: Parsed<seq<Value>>)
    ensures Prepend(items, Prepend([v], p)) == Prepend(items + [v], p)
  {
    if p.Got? { assert items + ([v] + p.value) == items + [v] + p.value; }
  }

  lemma PrependEnd(items: seq<Value>, off: int)
    ensures Prepend(items, Got([], off)) == Got(items, off)
  {
    assert items + [] == items;
  }

  class Reader {
    var buf: seq<byte>
    var offset: int

    constructor (blob: seq<byte>, start: int)
      ensures buf == blob && offset == start
    {
      buf, offset := blob, start;
    }

    method ReadBytes(size: int) returns (v: seq<byte>)
      modifies this`offset
      ensures v == PySlice(buf, old(offset), old(offset) + size) && offset == old(offset) + size
    {
      v := PySlice(buf, offset, offset + size);
      offset := offset + size;
    }

    method ReadInt(it: IntType) returns (r: Option<int>)
      modifies this`offset
      ensures Reads(DecInt(it, buf, old(offset)), r, offset)
    {
      var b := ReadBytes(it.width);
      r := if |b| < it.width then None else Some(Unpack(it, b));
    }

    /** read_type: dispatch to the type's fromstream. */
    method ReadType(t: Type, owner: Env) returns (r: Option<Value>)
      modifies this`offset
      ensures Reads(Dec(t, owner, buf, old(offset)), r, offset)
      decreases t, 0
    {
      hide DecInt, Layout, DecItems, DecAttrs, DecMembers, DecRecords, PySlice;
      match t {
        case IntT(it) =>
          var n := ReadInt(it);
          r := if n.None? then None else Some(N(n.value));
        case LargeT =>
          var n := ReadInt(INT);
          r := if n.None? then None else Some(N(Expand(n.value)));
        case TextT =>
          var n := ReadInt(SHORT);
          if n.None? { return None; }
          var s := ReadBytes(n.value);
          r := Some(S(s));
        case VectorT(size, elem) =>
          var n := ReadInt(size);
          if n.None? { return None; }
          var items := ReadTimes(elem, Times(n.value));
          r := if items.None? then None else Some(L(items.value));
        case ArrayT(n, elem, _) =>
          var items := ReadTimes(elem, n);
          r := if items.None? then None else Some(L(items.value));
        case ObjectT(attrs, init) =>
          var obj := ReadAttrs(attrs, init);
          r := if obj.None? then None else Some(O(obj.value));
        case VarFieldsT(all) =>
          var layout := Layout(owner, |all|);
          if layout.None? { return None; }
          var obj := ReadMembers(all, layout.value);
          r := if obj.None? then None else Some(O(obj.value));
        case VarVectorT(size, all) =>
          var n := ReadInt(size);
          if n.None? { return None; }
          if Times(n.value) == 0 { return Some(L([])); }
          var layout := Layout(owner, |all|);
          if layout.None? { return None; }
          var items := ReadRecords(all, layout.value, Times(n.value));
          r := if items.None? then None else Some(L(items.value));
      }
    }

    method ReadTimes(elem: Type, times: nat) returns (r: Option<seq<Value>>)
      modifies this`offset
      ensures Reads(DecItems(elem, times, buf, old(offset)), r, offset)
      decreases elem, 1
    {
      hide Dec;
      var items: seq<Value> := [];
      PrependNothing(DecItems(elem, times, buf, offset));
      for i := 0 to times
        invariant DecItems(elem, times, buf, old(offset)) == Prepend(items, DecItems(elem, times - i, buf, offset))
      {
        var v := ReadType(elem, map[]);
        if v.None? { return None; }
        PrependMore(items, v.value, DecItems(elem, times - i - 1, buf, offset));
        items := items + [v.value];
      }
      PrependEnd(items, offset);
      r := Some(items);
    }

    /** BinaryObject._fromstream. */
    method ReadAttrs(attrs: seq<Attr>, init: Env) returns (r: Option<Env>)
      modifies this`offset
      ensures Reads(DecAttrs(attrs, init, buf, old(offset)), r, offset)
      decreases attrs, 0
    {
      hide Dec;
      var self := init;
      for i := 0 to |attrs|
        invariant DecAttrs(attrs, init, buf, old(offset)) == DecAttrs(attrs[i..], self, buf, offset)
      {
        var a := attrs[i];
        if !(a.Optional? && !a.condition(self)) {
          var v := ReadType(a.t, self);
          if v.None? { return None; }
          self := self[a.name := v.value];
        }
      }
      r := Some(self);
    }

    /** VarFields.fromstream: the attributes are the selected members. */
    method ReadMembers(all: seq<Member>, layout: seq<nat>) returns (r: Option<Env>)
      requires forall i :: 0 <= i < |layout| ==> layout[i] < |all|
      modifies this`offset
      ensures Reads(DecMembers(all, layout, map[], buf, old(offset)), r, offset)
      decreases all, 1
    {
      hide Dec;
      var self: Env := map[];
      for i := 0 to |layout|
        invariant DecMembers(all, layout, map[], buf, old(offset)) == DecMembers(all, layout[i..], self, buf, offset)
      {
        var m := all[layout[i]];
        var v := ReadType(m.t, self);
        if v.None? { return None; }
        self := self[m.name := v.value];
      }
      r := Some(self);
    }

    /** VarFieldsVector.fromstream after its size. */
    method ReadRecords(all: seq<Member>, layout: seq<nat>, times: nat) returns (r: Option<seq<Value>>)
      requires forall i :: 0 <= i < |layout| ==> layout[i] < |all|
      modifies this`offset
      ensures Reads(DecRecords(all, layout, times, buf, old(offset)), r, offset)
      decreases all, 2
    {
      hide DecMembers;
      var items: seq<Value> := [];
      PrependNothing(DecRecords(all, layout, times, buf, offset));
      for i := 0 to times
        invariant DecRecords(all, layout, times, buf, old(offset)) ==
                  Prepend(items, DecRecords(all, layout, times - i, buf, offset))
      {
        var v := ReadMembers(all, layout);
        if v.None? { return None; }
        PrependMore(items, O(v.value), DecRecords(all, layout, times - i - 1, buf, offset));
        items := items + [O(v.value)];
      }
      PrependEnd(items, offset);
      r := Some(items);
    }
  }

  // ---------- the writer ----------

  /** The bytes written so far and what the rest comes to. */
  lemma JoinAssociative(a: Option<seq<byte>>, b: Option<seq<byte>>, c: Option<seq<byte>>)
    ensures Join(Join(a, b), c) == Join(a, Join(b, c))
  {
    if a.Some? && b.Some? && c.Some? { assert a.value + b.value + c.value == a.value + (b.value + c.value); }
  }

  lemma JoinNothing(a: Option<seq<byte>>)
    ensures Join(Some([]), a) == a == Join(a, Some([]))
  {
    if a.Some? { assert [] + a.value == a.value == a.value + []; }
  }

  method ToBytes(t: Type, owner: Env, v: Value) returns (r: Option<seq<byte>>)
    ensures r == Enc(t, owner, v)
    decreases t, 0
  {
    hide Pack, Layout, EncItems, EncAttrs, EncMembers, EncRecords;
    match (t, v) {
      case (IntT(it), N(n)) => r := Pack(it, n);
      case (LargeT, N(n)) => r := Pack(INT, n);
      case (TextT, S(s)) => r := Join(Pack(SHORT, |s|), Some(s));
      case (VectorT(size, elem), L(items)) =>
        var b := ListBytes(elem, items);
        r := Join(Pack(size, |items|), b);
      case (ArrayT(n, elem, blank), L(items)) => r := ListBytes(elem, Padded(items, n, blank));
      case (ObjectT(attrs, _), O(obj)) => r := Body2Bytes(attrs, obj);
      case (VarFieldsT(all), O(obj)) =>
        var layout := Layout(owner, |all|);
        if layout.None? { return None; }
        r := MemberBytes(all, layout.value, obj);
      case (VarVectorT(size, all), L(items)) =>
        var layout := Layout(owner, |all|);
        if items == [] { return Pack(size, 0); }
        if layout.None? { return None; }
        var b := RecordBytes(all, layout.value, items);
        r := Join(Pack(size, |items|), b);
      case _ => r := None;
    }
  }

  /** TypeList.tobytes. */
  method ListBytes(elem: Type, items: seq<Value>) returns (r: Option<seq<byte>>)
    ensures r == EncItems(elem, items)
    decreases elem, 1
  {
    hide Enc, Join;
    var b: seq<byte> := [];
    JoinNothing(EncItems(elem, items));
    for i := 0 to |items|
      invariant EncItems(elem, items) == Join(Some(b), EncItems(elem, items[i..]))
    {
      var e := ToBytes(elem, map[], items[i]);
      Accumulate(b, e, EncItems(elem, items[i + 1..]));
      assert items[i..][1..] == items[i + 1..];
      if e.None? { return None; }
      b := b + e.value;
    }
    JoinNothing(Some(b));
    r := Some(b);
  }

  /** One more value joins the bytes so far, or nothing comes of the whole. */
  lemma Accumulate(b: seq<byte>, e: Option<seq<byte>>, rest: Option<seq<byte>>)
    ensures Join(Some(b), Join(e, rest)) == if e.None? then None else Join(Some(b + e.value), rest)
  {
    JoinAssociative(Some(b), e, rest);
  }

  /** BinaryObject.body2bytes. */
  method Body2Bytes(attrs: seq<Attr>, obj: Env) returns (r: Option<seq<byte>>)
    ensures r == EncAttrs(attrs, obj)
    decreases attrs, 0
  {
    hide Enc, Join;
    var b: seq<byte> := [];
    JoinNothing(EncAttrs(attrs, obj));
    for i := 0 to |attrs|
      invariant EncAttrs(attrs, obj) == Join(Some(b), EncAttrs(attrs[i..], obj))
    {
      var a := attrs[i];
      assert attrs[i..][1..] == attrs[i + 1..];
      if !(a.Optional? && !a.condition(obj)) {
        var e: Option<seq<byte>> := None;
        if a.name in obj { e := ToBytes(a.t, obj, obj[a.name]); }
        Accumulate(b, e, EncAttrs(attrs[i + 1..], obj));
        JoinNone(Some(b));
        if e.None? { return None; }
        b := b + e.value;
      }
    }
    JoinNothing(Some(b));
    r := Some(b);
  }

  lemma JoinNone(a: Option<seq<byte>>)
    ensures Join(a, None) == None
  {
  }

  method MemberBytes(all: seq<Member>, layout: seq<nat>, obj: Env) returns (r: Option<seq<byte>>)
    requires forall i :: 0 <= i < |layout| ==> layout[i] < |all|
    ensures r == EncMembers(all, layout, obj)
    decreases all, 1
  {
    hide Enc, Join;
    var b: seq<byte> := [];
    JoinNothing(EncMembers(all, layout, obj));
    for i := 0 to |layout|
      invariant EncMembers(all, layout, obj) == Join(Some(b), EncMembers(all, layout[i..], obj))
    {
      var m := all[layout[i]];
      assert layout[i..][1..] == layout[i + 1..];
      var e: Option<seq<byte>> := None;
      if m.name in obj { e := ToBytes(m.t, obj, obj[m.name]); }
      Accumulate(b, e, EncMembers(all, layout[i + 1..], obj));
      JoinNone(Some(b));
      if e.None? { return None; }
      b := b + e.value;
    }
    JoinNothing(Some(b));
    r := Some(b);
  }

  method RecordBytes(all: seq<Member>, layout: seq<nat>, items: seq<Value>) returns (r: Option<seq<byte>>)
    requires forall i :: 0 <= i < |layout| ==> layout[i] < |all|
    ensures r == EncRecords(all, layout, items)
    decreases all, 2
  {
    hide EncMembers, Join;
    var b: seq<byte> := [];
    JoinNothing(EncRecords(all, layout, items));
    for i := 0 to |items|
      invariant EncRecords(all, layout, items) == Join(Some(b), EncRecords(all, layout, items[i..]))
    {
      assert items[i..][1..] == items[i + 1..];
      var e: Option<seq<byte>> := None;
      if items[i].O? { e := MemberBytes(all, layout, items[i].fields); }
      Accumulate(b, e, EncRecords(all, layout, items[i + 1..]));
      JoinNone(Some(b));
      if e.None? { return None; }
      b := b + e.value;
    }
    JoinNothing(Some(b));
    r := Some(b);
  }

  /** Serialising an object and parsing the bytes with a fresh reader. */
  method SendAndReceive(attrs: seq<Attr>, init: Env, obj: Env, suffix: seq<byte>)
    returns (sent: Option<seq<byte>>, got: Option<Value>, consumed: int)
    requires WfType(ObjectT(attrs, init), {}) && Canonical(ObjectT(attrs, init), map[], O(obj))
    ensures sent == EncAttrs(attrs, obj)
    ensures sent.Some? ==> got == Some(O(obj)) && consumed == |sent.value|
  {
    hide Dec, WfType, Canonical, EncAttrs;
    got, consumed := None, 0;
    sent := Body2Bytes(attrs, obj);
    if sent.Some? {
      RoundTrip(attrs, init, obj, suffix);
      var reader := new Reader(sent.value + suffix, 0);
      got := reader.ReadType(ObjectT(attrs, init), map[]);
      consumed := reader.offset;
    }
  }
}
