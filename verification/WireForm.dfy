/** What the message format writes and reads, piece by piece. */
module WireForm {
  /* The codec is given by recursive functions that writer and reader share; here
     each kind of value is described by itself: the bytes of numbers and texts,
     the pieces a list, an object or a selection of fields consists of, when
     there are none, and the offsets between which the reader finds them. */

  import opened BinaryMessage
  import Arith
  import opened Bytes
  import opened Slices
  import opened Sums

  // ---------- numbers and texts ----------

  lemma Powers()
    ensures Pow256(1) == 256 && Pow256(2) == 65536 && Pow256(4) == 4294967296
  {
    assert Pow256(3) == 16777216;
  }

  /** struct.pack's ranges for 'B', 'h', 'H', 'i' and 'I', by the literals of the C types. */
  lemma PackRanges(n: int)
    ensures Pack(IntType(1, false), n).Some? <==> 0 <= n <= 255
    ensures Pack(SHORT, n).Some? <==> -32768 <= n <= 32767
    ensures Pack(IntType(2, false), n).Some? <==> 0 <= n <= 65535
    ensures Pack(INT, n).Some? <==> -2147483648 <= n <= 2147483647
    ensures Pack(IntType(4, false), n).Some? <==> 0 <= n <= 4294967295
  {
    Powers();
  }

  /** Least significant byte first. */
  lemma PackBytes(it: IntType, n: int, j: nat)
    requires Pack(it, n).Some? && j < it.width
    ensures |Pack(it, n).value| == it.width && Pack(it, n).value[j] == n / Pow256(j) % 256
  {
    LowByte(n, it.width, j);
  }

  /** A text is its length in two bytes and its characters; longer ones are refused. */
  lemma TextWritten(owner: Env, s: seq<byte>)
    ensures Enc(TextT, owner, S(s)) == if |s| <= 32767 then Some([|s| % 256, |s| / 256] + s) else None
  {
    hide Low;
    PackRanges(|s|);
    if |s| <= 32767 { TwoBytes(|s|); }
  }

  lemma TwoBytes(n: int)
    ensures Low(n, 2) == [n % 256, n / 256 % 256]
  {
    assert Low(n / 256, 1) == [n / 256 % 256] + Low(n / 256 / 256, 0);
  }

  lemma LargeWritten(owner: Env, n: int)
    ensures Enc(LargeT, owner, N(n)) == if -2147483648 <= n <= 2147483647 then Some(Low(n, 4)) else None
  {
    hide Low;
    PackRanges(n);
  }

  /** Reading a LargeInt: three bits on top of twenty-nine are a power of sixteen. */
  lemma ExpandIs(tmp: nat, low: nat)
    requires tmp <= 4 && low < 0x2000_0000
    ensures Expand(tmp * 0x2000_0000 + low) ==
            low * (if tmp == 0 then 1 else if tmp == 1 then 16 else if tmp == 2 then 256 else if tmp == 3 then 4096 else 65536)
    ensures Expand(-(tmp * 0x2000_0000 + low)) == -Expand(tmp * 0x2000_0000 + low)
  {
    var m := tmp * 0x2000_0000 + low;
    assert m / 0x2000_0000 == tmp && m % 0x2000_0000 == low;
    assert Shift(1) == 16 && Shift(2) == 256 && Shift(3) == 4096 && Shift(4) == 65536;
  }

  // ---------- pieces ----------

  /** Every item has its piece, all of them joined make r; or one item cannot be written. */
  ghost predicate Written<T>(items: seq<T>, write: T -> Option<seq<byte>>, r: Option<seq<byte>>, pieces: seq<seq<byte>>)
  {
    if r.None? then exists k :: 0 <= k < |items| && write(items[k]).None?
    else |pieces| == |items| && r.value == Flatten(pieces) && forall k :: 0 <= k < |items| ==> write(items[k]) == Some(pieces[k])
  }

  lemma NoPieces<T>(write: T -> Option<seq<byte>>)
    ensures Written([], write, Some([]), [])
  {
    assert Flatten<byte>([]) == [];
  }

  lemma OneMorePiece<T>(items: seq<T>, write: T -> Option<seq<byte>>, rest: Option<seq<byte>>, pieces: seq<seq<byte>>)
    returns (more: seq<seq<byte>>)
    requires items != [] && Written(items[1..], write, rest, pieces)
    ensures Written(items, write, Join(write(items[0]), rest), more)
  {
    var first := write(items[0]);
    more := if first.Some? then [first.value] + pieces else [];
    if first.Some? {
      FlattenPrepend(first.value, pieces);
      if rest.None? {
        var k :| 0 <= k < |items[1..]| && write(items[1..][k]).None?;
        assert write(items[k + 1]).None?;
      }
    }
  }

  // ---------- what is written ----------

  lemma {:induction false} ItemPieces(elem: Type, items: seq<Value>) returns (pieces: seq<seq<byte>>)
    ensures Written(items, v => Enc(elem, map[], v), EncItems(elem, items), pieces)
    decreases |items|
  {
    hide Enc, Join, Written;
    if items == [] {
      pieces := [];
      NoPieces(v => Enc(elem, map[], v));
    } else {
      pieces := ItemPieces(elem, items[1..]);
      pieces := OneMorePiece(items, v => Enc(elem, map[], v), EncItems(elem, items[1..]), pieces);
    }
  }

  /** A vector is its length and then its items, one behind the other. */
  lemma VectorWritten(size: IntType, elem: Type, owner: Env, items: seq<Value>)
    returns (body: Option<seq<byte>>, pieces: seq<seq<byte>>)
    ensures Written(items, v => Enc(elem, map[], v), body, pieces)
    ensures Enc(VectorT(size, elem), owner, L(items)) ==
            if InRange(size, |items|) && body.Some? then Some(Low(|items|, size.width) + body.value) else None
  {
    hide EncItems, Written, InRange;
    body := EncItems(elem, items);
    pieces := ItemPieces(elem, items);
  }

  /** An array is its items without a length; a short list is filled up to the
      declared one, a long list written in full. */
  lemma ArrayWritten(n: nat, elem: Type, blank: Value, owner: Env, items: seq<Value>)
    returns (filled: seq<Value>, pieces: seq<seq<byte>>)
    ensures |filled| == if |items| < n then n else |items|
    ensures forall k :: 0 <= k < |filled| ==> filled[k] == if k < |items| then items[k] else blank
    ensures Written(filled, v => Enc(elem, map[], v), Enc(ArrayT(n, elem, blank), owner, L(items)), pieces)
  {
    hide EncItems, Written;
    filled := Padded(items, n, blank);
    pieces := ItemPieces(elem, filled);
  }

  /** The piece of an attribute: nothing when its condition denies it. */
  ghost function AttrPiece(obj: Env, a: Attr): Option<seq<byte>>
  {
    if a.Optional? && !a.condition(obj) then Some([])
    else if a.name in obj then Enc(a.t, obj, obj[a.name]) else None
  }

  /** An object is its attributes in their order. */
  lemma {:induction false} ObjectWritten(attrs: seq<Attr>, obj: Env) returns (pieces: seq<seq<byte>>)
    ensures Written(attrs, a => AttrPiece(obj, a), EncAttrs(attrs, obj), pieces)
    decreases |attrs|
  {
    hide Enc, Join, Written;
    if attrs == [] {
      pieces := [];
      NoPieces(a => AttrPiece(obj, a));
    } else {
      pieces := ObjectWritten(attrs[1..], obj);
      pieces := OneMorePiece(attrs, a => AttrPiece(obj, a), EncAttrs(attrs[1..], obj), pieces);
      JoinNothing(EncAttrs(attrs[1..], obj));
      JoinFails(EncAttrs(attrs[1..], obj));
    }
  }

  lemma JoinFails(b: Option<seq<byte>>)
    ensures Join(None, b) == None
  {
  }

  // ---------- the selected fields ----------

  /** A number that names one of n members: the first is 1, the last n or 0, and
      smaller numbers count on from the end. */
  predicate Chooses(x: Value, n: nat) { x.N? && 0 < x.n + n && x.n <= n }

  function Chosen(all: seq<Member>, x: Value): Member
    requires Chooses(x, |all|)
  {
    if x.n >= 1 then all[x.n - 1] else all[|all| - 1 + x.n]
  }

  /** A selection fails exactly when one entry names no member; otherwise entry k
      chooses the member it names. */
  lemma {:induction false} SelectedIs(fields: seq<Value>, n: nat)
    ensures Selected(fields, n).Some? <==> forall k :: 0 <= k < |fields| ==> Chooses(fields[k], n)
    ensures Selected(fields, n).Some? ==> |Selected(fields, n).value| == |fields| && forall k :: 0 <= k < |fields| ==>
              Selected(fields, n).value[k] + 1 == if fields[k].n >= 1 then fields[k].n else n + fields[k].n
  {
    if fields != [] {
      SelectedIs(fields[1..], n);
      if Selected(fields[1..], n).None? {
        var k :| 0 <= k < |fields[1..]| && !Chooses(fields[1..][k], n);
        assert !Chooses(fields[k + 1], n);
      }
    }
  }

  /** The ordinary list, numbers from one to n, chooses the members it numbers. */
  lemma OrdinarySelection(fields: seq<Value>, n: nat)
    requires forall k :: 0 <= k < |fields| ==> fields[k].N? && 1 <= fields[k].n <= n
    ensures Selected(fields, n).Some? && |Selected(fields, n).value| == |fields|
    ensures forall k :: 0 <= k < |fields| ==> Selected(fields, n).value[k] + 1 == fields[k].n
  {
    SelectedIs(fields, n);
  }

  ghost function FieldPiece(all: seq<Member>, obj: Env, x: Value): Option<seq<byte>>
  {
    if Chooses(x, |all|) && Chosen(all, x).name in obj
    then Enc(Chosen(all, x).t, obj, obj[Chosen(all, x).name])
    else None
  }

  lemma {:induction false} SelectionPieces(all: seq<Member>, fields: seq<Value>, obj: Env) returns (pieces: seq<seq<byte>>)
    ensures Written(fields, x => FieldPiece(all, obj, x),
                    if Selected(fields, |all|).Some? then EncMembers(all, Selected(fields, |all|).value, obj) else None, pieces)
    decreases |fields|
  {
    hide Enc, Join, Written;
    var s := Selected(fields, |all|);
    if fields == [] {
      pieces := [];
      NoPieces(x => FieldPiece(all, obj, x));
    } else {
      var rest := Selected(fields[1..], |all|);
      var bytes := if rest.Some? then EncMembers(all, rest.value, obj) else None;
      pieces := SelectionPieces(all, fields[1..], obj);
      pieces := OneMorePiece(fields, x => FieldPiece(all, obj, x), bytes, pieces);
      JoinFails(bytes);
      JoinNone(FieldPiece(all, obj, fields[0]));
      FirstSelected(all, fields, obj);
    }
  }

  lemma FirstSelected(all: seq<Member>, fields: seq<Value>, obj: Env)
    requires fields != []
    ensures var s, rest := Selected(fields, |all|), Selected(fields[1..], |all|);
            (if s.Some? then EncMembers(all, s.value, obj) else None) ==
            Join(FieldPiece(all, obj, fields[0]), if rest.Some? then EncMembers(all, rest.value, obj) else None)
  {
    hide Enc;
    var s, rest := Selected(fields, |all|), Selected(fields[1..], |all|);
    if s.Some? { assert s.value[1..] == rest.value; }
  }

  /** The entries of the owner's attribute `fields`. */
  function Fields(owner: Env): Option<seq<Value>>
  {
    if "fields" in owner && owner["fields"].L? then Some(owner["fields"].items) else None
  }

  /** What VarFields writes: entry by entry of the owner's `fields`, the attribute
      that the entry's number chooses; nothing without such a list. */
  lemma VarFieldsWritten(all: seq<Member>, owner: Env, obj: Env) returns (pieces: seq<seq<byte>>)
    ensures var fields, r := Fields(owner), Enc(VarFieldsT(all), owner, O(obj));
            if fields.None? then r.None? else Written(fields.value, x => FieldPiece(all, obj, x), r, pieces)
  {
    hide EncMembers, Selected, Written;
    pieces := [];
    var fields := Fields(owner);
    if fields.Some? { pieces := SelectionPieces(all, fields.value, obj); }
  }

  /** One record of a vector of selections. */
  ghost function RecordPiece(all: seq<Member>, owner: Env, v: Value): Option<seq<byte>>
  {
    Enc(VarFieldsT(all), owner, v)
  }

  lemma {:induction false} RecordPieces(all: seq<Member>, owner: Env, items: seq<Value>) returns (pieces: seq<seq<byte>>)
    requires Layout(owner, |all|).Some?
    ensures Written(items, v => RecordPiece(all, owner, v), EncRecords(all, Layout(owner, |all|).value, items), pieces)
    decreases |items|
  {
    hide EncMembers, Join, Written, Layout;
    if items == [] {
      pieces := [];
      NoPieces(v => RecordPiece(all, owner, v));
    } else {
      var rest := EncRecords(all, Layout(owner, |all|).value, items[1..]);
      pieces := RecordPieces(all, owner, items[1..]);
      pieces := OneMorePiece(items, v => RecordPiece(all, owner, v), rest, pieces);
      JoinFails(rest);
    }
  }

  /** A vector of selections is its length and then each record as VarFields
      writes it. */
  lemma VarVectorWritten(size: IntType, all: seq<Member>, owner: Env, items: seq<Value>)
    returns (body: Option<seq<byte>>, pieces: seq<seq<byte>>)
    requires items != []
    ensures Written(items, v => Enc(VarFieldsT(all), owner, v), body, pieces)
    ensures Enc(VarVectorT(size, all), owner, L(items)) ==
            if InRange(size, |items|) && body.Some? then Some(Low(|items|, size.width) + body.value) else None
  {
    hide EncRecords, EncMembers, InRange, Layout;
    if Layout(owner, |all|).Some? {
      body := EncRecords(all, Layout(owner, |all|).value, items);
      pieces := RecordPieces(all, owner, items);
    } else {
      body, pieces := None, [];
      assert Enc(VarFieldsT(all), owner, items[0]).None?;
    }
  }

  // ---------- what is read ----------

  /** Items read one behind the other from the offsets `offs`, all of them or up to
      the one that cannot be read. */
  ghost predicate Listed(n: nat, read: int -> Parsed<Value>, off: int, r: Parsed<seq<Value>>, offs: seq<int>)
  {
    && 1 <= |offs| <= n + 1 && offs[0] == off
    && (forall k :: 0 <= k < |offs| - 1 ==> read(offs[k]).Got? && read(offs[k]).off == offs[k + 1])
    && (if r.Fail? then |offs| <= n && read(offs[|offs| - 1]).Fail?
        else |offs| == n + 1 && offs[n] == r.off && |r.value| == n && forall k :: 0 <= k < n ==> read(offs[k]).value == r.value[k])
  }

  lemma ListedOnce(n: nat, read: int -> Parsed<Value>, off: int, rest: Parsed<seq<Value>>, offs: seq<int>)
    requires n > 0 && read(off).Got? && Listed(n - 1, read, read(off).off, rest, offs)
    ensures Listed(n, read, off, Prepend([read(off).value], rest), [off] + offs)
  {
  }

  lemma {:induction false} ItemsListed(elem: Type, n: nat, buf: seq<byte>, off: int) returns (offs: seq<int>)
    ensures Listed(n, o => Dec(elem, map[], buf, o), off, DecItems(elem, n, buf, off), offs)
    decreases n
  {
    hide Dec;
    offs := [off];
    if n > 0 {
      var r := Dec(elem, map[], buf, off);
      if r.Got? {
        hide Listed;
        offs := ItemsListed(elem, n - 1, buf, r.off);
        ListedOnce(n, o => Dec(elem, map[], buf, o), off, DecItems(elem, n - 1, buf, r.off), offs);
        offs := [off] + offs;
      }
    }
  }

  /** Attributes set one after the other on an object; `envs` are its states on the
      way, up to the end or to the one that cannot be read. */
  ghost predicate SetInTurn<T>(items: seq<T>, read: (T, Env, int) -> Parsed<Env>, env: Env, off: int, r: Parsed<Env>,
                               envs: seq<Env>, offs: seq<int>)
  {
    && 1 <= |envs| == |offs| <= |items| + 1 && envs[0] == env && offs[0] == off
    && (forall k :: 0 <= k < |envs| - 1 ==> read(items[k], envs[k], offs[k]) == Got(envs[k + 1], offs[k + 1]))
    && (if r.Got? then |envs| == |items| + 1 && r == Got(envs[|items|], offs[|items|])
        else |envs| <= |items| && read(items[|envs| - 1], envs[|envs| - 1], offs[|envs| - 1]).Fail?)
  }

  lemma SetOnce<T>(items: seq<T>, read: (T, Env, int) -> Parsed<Env>, env: Env, off: int, r: Parsed<Env>, envs: seq<Env>, offs: seq<int>)
    requires items != [] && read(items[0], env, off).Got?
    requires SetInTurn(items[1..], read, read(items[0], env, off).value, read(items[0], env, off).off, r, envs, offs)
    ensures SetInTurn(items, read, env, off, r, [env] + envs, [off] + offs)
  {
    var envs', offs' := [env] + envs, [off] + offs;
    forall k | 0 <= k < |envs'| - 1
      ensures read(items[k], envs'[k], offs'[k]) == Got(envs'[k + 1], offs'[k + 1])
    {
      if k > 0 { assert items[1..][k - 1] == items[k]; }
    }
    if r.Fail? { assert items[1..][|envs| - 1] == items[|envs| ]; }
  }

  /** The value is read and becomes the attribute's. */
  ghost function Setting(name: string, t: Type, env: Env, buf: seq<byte>, off: int): Parsed<Env>
  {
    var r := Dec(t, env, buf, off);
    if r.Fail? then Fail else Got(env[name := r.value], r.off)
  }

  ghost function SetAttr(buf: seq<byte>, a: Attr, env: Env, off: int): Parsed<Env>
  {
    if a.Optional? && !a.condition(env) then Got(env, off) else Setting(a.name, a.t, env, buf, off)
  }

  /** An object is read attribute by attribute from where the one before ended. */
  lemma {:induction false} ObjectRead(attrs: seq<Attr>, env: Env, buf: seq<byte>, off: int) returns (envs: seq<Env>, offs: seq<int>)
    ensures SetInTurn(attrs, (a, e, o) => SetAttr(buf, a, e, o), env, off, DecAttrs(attrs, env, buf, off), envs, offs)
    decreases |attrs|
  {
    hide Dec;
    envs, offs := [env], [off];
    if attrs != [] {
      var r := SetAttr(buf, attrs[0], env, off);
      if r.Got? {
        hide SetInTurn;
        envs, offs := ObjectRead(attrs[1..], r.value, buf, r.off);
        SetOnce(attrs, (a, e, o) => SetAttr(buf, a, e, o), env, off, DecAttrs(attrs, env, buf, off), envs, offs);
        envs, offs := [env] + envs, [off] + offs;
      }
    }
  }

  ghost function SetField(all: seq<Member>, buf: seq<byte>, x: Value, env: Env, off: int): Parsed<Env>
  {
    if Chooses(x, |all|) then Setting(Chosen(all, x).name, Chosen(all, x).t, env, buf, off) else Fail
  }

  lemma {:induction false} SelectionRead(all: seq<Member>, fields: seq<Value>, env: Env, buf: seq<byte>, off: int)
    returns (envs: seq<Env>, offs: seq<int>)
    requires Selected(fields, |all|).Some?
    ensures SetInTurn(fields, (x, e, o) => SetField(all, buf, x, e, o), env, off,
                      DecMembers(all, Selected(fields, |all|).value, env, buf, off), envs, offs)
    decreases |fields|
  {
    hide Dec;
    envs, offs := [env], [off];
    if fields != [] {
      var s := Selected(fields, |all|).value;
      assert s[1..] == Selected(fields[1..], |all|).value;
      var r := SetField(all, buf, fields[0], env, off);
      if r.Got? {
        hide SetInTurn;
        envs, offs := SelectionRead(all, fields[1..], r.value, buf, r.off);
        SetOnce(fields, (x, e, o) => SetField(all, buf, x, e, o), env, off, DecMembers(all, s, env, buf, off), envs, offs);
        envs, offs := [env] + envs, [off] + offs;
      }
    }
  }

  /** What VarFields reads: entry by entry of the owner's `fields`, the value of the
      member that the entry's number chooses, set under that member's name; nothing
      when there is no such list or an entry chooses no member. */
  lemma VarFieldsRead(all: seq<Member>, owner: Env, buf: seq<byte>, off: int) returns (envs: seq<Env>, offs: seq<int>)
    ensures var fields, r := Fields(owner), Dec(VarFieldsT(all), owner, buf, off);
            if fields.None? || exists k :: 0 <= k < |fields.value| && !Chooses(fields.value[k], |all|) then r.Fail?
            else exists p: Parsed<Env> :: r == (if p.Fail? then Fail else Got(O(p.value), p.off)) &&
                   SetInTurn(fields.value, (x, e, o) => SetField(all, buf, x, e, o), map[], off, p, envs, offs)
  {
    hide DecMembers, Selected, SetInTurn, Dec;
    envs, offs := [], [];
    var fields := Fields(owner);
    VarFieldsDec(all, owner, buf, off);
    if fields.Some? {
      SelectedIs(fields.value, |all|);
      if Selected(fields.value, |all|).Some? { envs, offs := SelectionRead(all, fields.value, map[], buf, off); }
    }
  }

  lemma VarFieldsDec(all: seq<Member>, owner: Env, buf: seq<byte>, off: int)
    ensures Dec(VarFieldsT(all), owner, buf, off) ==
            if Fields(owner).None? || Selected(Fields(owner).value, |all|).None? then Fail
            else AsObject(DecMembers(all, Selected(Fields(owner).value, |all|).value, map[], buf, off))
  {
    hide DecMembers, Selected;
  }

  /** Python's slices: within the buffer what stands there, past its end what is
      left, and bounds below zero count from the end. */
  lemma SliceOf(buf: seq<byte>, a: int, b: int)
    ensures 0 <= a <= b <= |buf| ==> PySlice(buf, a, b) == buf[a..b]
    ensures 0 <= a <= |buf| <= b ==> PySlice(buf, a, b) == buf[a..]
    ensures |buf| <= a ==> PySlice(buf, a, b) == []
    ensures a < 0 <= a + |buf| ==> PySlice(buf, a, b) == PySlice(buf, a + |buf|, b)
    ensures b < 0 <= b + |buf| ==> PySlice(buf, a, b) == PySlice(buf, a, b + |buf|)
    ensures a + |buf| < 0 ==> PySlice(buf, a, b) == PySlice(buf, 0, b)
    ensures b + |buf| < 0 || 0 <= b <= a ==> PySlice(buf, a, b) == []
  {
  }

  /** A number that stands in the buffer is the one in range whose bytes these are. */
  lemma IntRead(it: IntType, buf: seq<byte>, off: int)
    requires it.width > 0 && 0 <= off
    ensures off + it.width > |buf| ==> DecInt(it, buf, off).Fail?
    ensures off + it.width <= |buf| ==>
              DecInt(it, buf, off).Got? && DecInt(it, buf, off).off == off + it.width &&
              Pack(it, DecInt(it, buf, off).value) == Some(buf[off..off + it.width])
  {
    hide PySlice, Unpack, Pack;
    SliceOf(buf, off, off + it.width);
    if off + it.width <= |buf| { Unpacked(it, buf[off..off + it.width]); }
  }

  lemma Unpacked(it: IntType, b: seq<byte>)
    requires |b| == it.width > 0
    ensures Pack(it, Unpack(it, b)) == Some(b)
  {
    hide Low;
    var n := Unpack(it, b);
    LowOfUnsigned(b);
    LowUnsigned(n, |b|);
    LowOfUnsigned(Low(n, |b|));
    SignedMod(b);
  }

  lemma SignedMod(b: seq<byte>)
    ensures Signed(b) % Pow256(|b|) == Unsigned(b) == Unsigned(b) % Pow256(|b|)
  {
    Arith.DivModUnique(Unsigned(b), Pow256(|b|), 0, Unsigned(b));
    if Signed(b) != Unsigned(b) { Arith.DivModUnique(Signed(b), Pow256(|b|), -1, Unsigned(b)); }
  }

  /** A text is read as its two-byte signed length and as many bytes as that says,
      or as there are; a negative length moves the offset back. */
  lemma TextRead(owner: Env, buf: seq<byte>, off: int)
    requires 0 <= off
    ensures off + 2 > |buf| ==> Dec(TextT, owner, buf, off).Fail?
    ensures off + 2 <= |buf| ==>
              var m := (buf[off] as int) + 256 * (buf[off + 1] as int);
              var n := if m < 32768 then m else m - 65536;
              Dec(TextT, owner, buf, off) == Got(S(PySlice(buf, off + 2, off + 2 + n)), off + 2 + n)
  {
    if off + 2 <= |buf| {
      SliceOf(buf, off, off + 2);
      ShortOf(buf[off..off + 2]);
    } else {
      IntRead(SHORT, buf, off);
    }
  }

  lemma ShortOf(b: seq<byte>)
    requires |b| == 2
    ensures var m := (b[0] as int) + 256 * (b[1] as int);
            Unpack(SHORT, b) == if m < 32768 then m else m - 65536
  {
    Powers();
    assert Unsigned(b[1..]) == b[1] + 256 * Unsigned(b[1..][1..]);
  }

  /** A LargeInt is read as the 32-bit number that stands there, scaled. */
  lemma LargeRead(owner: Env, buf: seq<byte>, off: int) returns (n: int)
    requires 0 <= off && off + 4 <= |buf|
    ensures Pack(INT, n) == Some(buf[off..off + 4])
    ensures Dec(LargeT, owner, buf, off) == Got(N(Expand(n)), off + 4)
  {
    hide DecInt, Pack, Expand;
    IntRead(INT, buf, off);
    n := DecInt(INT, buf, off).value;
  }

  /** A vector is read as its length and as many items, none for a negative one. */
  lemma VectorRead(size: IntType, elem: Type, owner: Env, buf: seq<byte>, off: int)
    returns (items: Parsed<seq<Value>>, offs: seq<int>)
    ensures var n, r := DecInt(size, buf, off), Dec(VectorT(size, elem), owner, buf, off);
            if n.Fail? then r.Fail?
            else Listed(if n.value < 0 then 0 else n.value, o => Dec(elem, map[], buf, o), n.off, items, offs) &&
                 r == if items.Fail? then Fail else Got(L(items.value), items.off)
  {
    hide DecItems, DecInt, Listed;
    items, offs := Fail, [];
    var n := DecInt(size, buf, off);
    if n.Got? {
      items := DecItems(elem, Times(n.value), buf, n.off);
      offs := ItemsListed(elem, Times(n.value), buf, n.off);
    }
  }

  /** An array is read as exactly its declared number of items. */
  lemma ArrayRead(n: nat, elem: Type, blank: Value, owner: Env, buf: seq<byte>, off: int)
    returns (items: Parsed<seq<Value>>, offs: seq<int>)
    ensures Listed(n, o => Dec(elem, map[], buf, o), off, items, offs)
    ensures Dec(ArrayT(n, elem, blank), owner, buf, off) == if items.Fail? then Fail else Got(L(items.value), items.off)
  {
    hide DecItems, Listed;
    items := DecItems(elem, n, buf, off);
    offs := ItemsListed(elem, n, buf, off);
  }

  lemma {:induction false} RecordsListed(all: seq<Member>, owner: Env, n: nat, buf: seq<byte>, off: int) returns (offs: seq<int>)
    requires Layout(owner, |all|).Some?
    ensures Listed(n, o => Dec(VarFieldsT(all), owner, buf, o), off,
                   DecRecords(all, Layout(owner, |all|).value, n, buf, off), offs)
    decreases n
  {
    hide DecMembers, Layout;
    offs := [off];
    if n > 0 {
      var r := Dec(VarFieldsT(all), owner, buf, off);
      if r.Got? {
        hide Listed;
        offs := RecordsListed(all, owner, n - 1, buf, r.off);
        ListedOnce(n, o => Dec(VarFieldsT(all), owner, buf, o), off,
                   DecRecords(all, Layout(owner, |all|).value, n - 1, buf, r.off), offs);
        offs := [off] + offs;
      }
    }
  }

  /** A vector of selections is read as its length and as many records, each the way
      VarFields is read. */
  lemma VarVectorRead(size: IntType, all: seq<Member>, owner: Env, buf: seq<byte>, off: int)
    returns (items: Parsed<seq<Value>>, offs: seq<int>)
    ensures var n, r := DecInt(size, buf, off), Dec(VarVectorT(size, all), owner, buf, off);
            if n.Fail? then r.Fail?
            else Listed(if n.value < 0 then 0 else n.value, o => Dec(VarFieldsT(all), owner, buf, o), n.off, items, offs) &&
                 r == if items.Fail? then Fail else Got(L(items.value), items.off)
  {
    hide DecMembers, DecRecords, DecInt, Layout;
    items, offs := Fail, [];
    var n := DecInt(size, buf, off);
    if n.Got? {
      offs := [n.off];
      if Times(n.value) == 0 {
        items := Got([], n.off);
      } else if Layout(owner, |all|).Some? {
        items := DecRecords(all, Layout(owner, |all|).value, Times(n.value), buf, n.off);
        offs := RecordsListed(all, owner, Times(n.value), buf, n.off);
      }
    }
  }

  // ---------- what the round trip covers ----------

  /** A 32-bit LargeInt is canonical exactly when it is read back as written. */
  lemma CanonicalLarge(owner: Env, n: int)
    requires -0x8000_0000 <= n < 0x8000_0000
    ensures Canonical(LargeT, owner, N(n)) <==> Expand(n) == n
  {
    LargeRoundTrip(n);
  }

  /** Members of the kinds the responses select from: numbers of one, two or four
      bytes, LargeInts and texts. */
  predicate IsSimple(t: Type) { t.LargeT? || t.TextT? || (t.IntT? && t.it.width in {1, 2, 4}) }

  /** The attributes of TimeTrend and of Response_5501. */
  function TimeTrend(all: seq<Member>): seq<Attr>
  {
    var byte', ushort := IntType(1, false), IntType(2, false);
    [Plain("fields", VectorT(byte', IntT(byte'))), Plain("need_clear_local", IntT(byte')),
     Plain("total_num", IntT(ushort)), Plain("data", VarVectorT(ushort, all))]
  }

  function Response5501(all: seq<Member>, trend: seq<Member>, init: Env): seq<Attr>
  {
    var byte' := IntType(1, false);
    [Plain("request_extra", IntT(byte')), Plain("fields", VectorT(byte', IntT(byte'))), Plain("data", VarFieldsT(all)),
     Optional("extra", ObjectT(TimeTrend(trend), init), (e: Env) => "request_extra" in e && e["request_extra"] != N(0))]
  }

  /** These schemas are well formed, so everything proved of well-formed schemas
      holds of them. */
  lemma ResponsesAreWellFormed(all: seq<Member>, trend: seq<Member>, init: Env)
    requires forall i :: 0 <= i < |all| ==> IsSimple(all[i].t)
    requires forall i :: 0 <= i < |trend| ==> IsSimple(trend[i].t)
    requires init.Keys <= {"fields", "need_clear_local", "total_num", "data"}
    ensures WfType(ObjectT(TimeTrend(trend), init), {})
    ensures WfType(ObjectT(Response5501(all, trend, init), map["request_extra" := N(0)]), {})
  {
    SimpleMembers(all);
    SimpleMembers(trend);
    hide WfMembers, IsSimple;
    TrendIsWellFormed(trend);
    var attrs := Response5501(all, trend, init);
    var r, f := {"request_extra"}, {"request_extra", "fields"};
    var d := f + {"data"};
    assert attrs[1..][1..] == attrs[2..] && attrs[2..][1..] == attrs[3..] && attrs[3..][1..] == [];
    assert "request_extra" in Mandatory(attrs);
    assert WfAttrs(attrs[3..], d);
    assert WfAttrs(attrs[2..], f);
    assert {} + {"request_extra"} == r && r + {"fields"} == f;
    assert WfAttrs(attrs[1..], r);
  }

  lemma SimpleMembers(all: seq<Member>)
    requires forall i :: 0 <= i < |all| ==> IsSimple(all[i].t)
    ensures WfMembers(all)
  {
    forall i | 0 <= i < |all| ensures WfType(all[i].t, {}) { assert IsSimple(all[i].t); }
  }

  lemma TrendIsWellFormed(trend: seq<Member>)
    requires WfMembers(trend)
    ensures WfAttrs(TimeTrend(trend), {})
    ensures Mandatory(TimeTrend(trend)) == {"fields", "need_clear_local", "total_num", "data"}
  {
    hide WfMembers;
    var attrs := TimeTrend(trend);
    var f, n := {"fields"}, {"fields", "need_clear_local"};
    var t := n + {"total_num"};
    assert attrs[1..][1..] == attrs[2..] && attrs[2..][1..] == attrs[3..] && attrs[3..][1..] == [];
    assert {} + {"fields"} == f && f + {"need_clear_local"} == n;
    assert WfAttrs(attrs[3..], t);
    assert WfAttrs(attrs[2..], n);
    assert WfAttrs(attrs[1..], f);
    assert Mandatory(attrs[3..]) == {"data"};
    assert Mandatory(attrs[2..]) == {"total_num", "data"};
    assert Mandatory(attrs[1..]) == {"need_clear_local", "total_num", "data"};
  }
}
