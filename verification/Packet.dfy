/** Packets of cpp/release/packet.h and cpp/release/packet.cpp. */
module Packet {
  /* A twelve-byte header, fields written and read at a moving position,
     encryption of the data, and reassembly from chunks. */

  import opened Bytes
  import opened Sums
  import Tea

  const SIZE: nat := 0x8000
  const HDR: nat := 12
  const MAGIC := 0x5050

  // ---------- fields ----------

  datatype NumType = I8 | U8 | I16 | U16 | I32 | U32 | I64 | U64

  function Width(t: NumType): (w: nat)
    ensures 1 <= w <= 8
  {
    match t
    case I8 => 1 case U8 => 1
    case I16 => 2 case U16 => 2
    case I32 => 4 case U32 => 4
    case I64 => 8 case U64 => 8
  }

  predicate IsSigned(t: NumType) { t == I8 || t == I16 || t == I32 || t == I64 }

  /** One value streamed in or out, and what the reader asks for. */
  datatype Field = Num(t: NumType, n: int) | Text(s: seq<byte>)

  datatype FieldType = NumT(t: NumType) | TextT

  ghost function TypeOf(f: Field): FieldType { if f.Num? then NumT(f.t) else TextT }

  /** A number within its type; a text whose length its length field can hold. */
  ghost predicate WellTyped(f: Field)
  {
    match f
    case Num(t, n) =>
      if IsSigned(t) then -Pow256(Width(t)) <= 2 * n < Pow256(Width(t)) else 0 <= n < Pow256(Width(t))
    case Text(s) => |s| < 0x10000
  }

  /** The bytes `<<` writes; the length of a text is cut to sixteen bits. */
  function FieldBytes(f: Field): (b: seq<byte>)
  {
    match f
    case Num(t, n) => Low(n, Width(t))
    case Text(s) => Low(|s| % 0x10000, 2) + s[..|s| % 0x10000]
  }

  /** The C types by their literals. */
  ghost function Least(t: NumType): int
  {
    match t
    case I8 => -128
    case I16 => -32768
    case I32 => -2147483648
    case I64 => -9223372036854775808
    case _ => 0
  }

  ghost function Greatest(t: NumType): int
  {
    match t
    case I8 => 127 case U8 => 255
    case I16 => 32767 case U16 => 65535
    case I32 => 2147483647 case U32 => 4294967295
    case I64 => 9223372036854775807 case U64 => 18446744073709551615
  }

  ghost function SizeOf(t: NumType): nat
  {
    match t
    case I8 | U8 => 1
    case I16 | U16 => 2
    case I32 | U32 => 4
    case I64 | U64 => 8
  }

  lemma Powers()
    ensures Pow256(1) == 256 && Pow256(2) == 65536 && Pow256(4) == 4294967296 && Pow256(8) == 18446744073709551616
  {
    assert Pow256(1) == 256 && Pow256(3) == 16777216;
    assert Pow256(5) == 1099511627776 && Pow256(6) == 281474976710656 && Pow256(7) == 72057594037927936;
  }

  /** A number is well typed within the C range of its type, and the bytes of the
      type are just enough for the numbers of the range. */
  lemma CRange(t: NumType, n: int)
    ensures WellTyped(Num(t, n)) <==> Least(t) <= n <= Greatest(t)
    ensures Width(t) == SizeOf(t) && Pow256(SizeOf(t)) == Greatest(t) - Least(t) + 1
  {
    Powers();
  }

  function NumOf(t: NumType, b: seq<byte>): int { if IsSigned(t) then Signed(b) else Unsigned(b) }

  lemma NumRoundTrip(t: NumType, n: int)
    requires WellTyped(Num(t, n))
    ensures NumOf(t, Low(n, Width(t))) == n
  {
    if IsSigned(t) { SignedRoundTrip(n, Width(t)); } else { UnsignedRoundTrip(n, Width(t)); }
  }

  ghost function Serialized(fs: seq<Field>): seq<byte>
  {
    if fs == [] then [] else FieldBytes(fs[0]) + Serialized(fs[1..])
  }

  lemma {:induction false} SerializedAppends(fs: seq<Field>, f: Field)
    ensures Serialized(fs + [f]) == Serialized(fs) + FieldBytes(f)
  {
    if fs == [] {
      assert ([] + [f])[1..] == [];
    } else {
      assert (fs + [f])[1..] == fs[1..] + [f];
      SerializedAppends(fs[1..], f);
    }
  }

  /** The bytes of a field: the size of its C type, or a two-byte length and the
      characters of a text. */
  ghost function Extent(f: Field): nat { match f case Num(t, _) => SizeOf(t) case Text(s) => 2 + |s| }

  /** Where field i begins: behind all fields before it. */
  ghost function Offset(fs: seq<Field>, i: nat): nat
    requires i <= |fs|
  {
    if i == 0 then 0 else Extent(fs[0]) + Offset(fs[1..], i - 1)
  }

  /** b is what the source writes for f: a number's base-256 digits, the least
      first; a text's length, low byte first, and its characters. */
  ghost predicate Stands(b: seq<byte>, f: Field)
  {
    match f
    case Num(t, n) => |b| == SizeOf(t) && forall j :: 0 <= j < |b| ==> b[j] == n / Pow256(j) % 256
    case Text(s) => b == [|s| % 256, |s| / 256 % 256] + s
  }

  /** What `<<` writes for a field is what must stand there, and nothing else. */
  lemma FieldStands(f: Field)
    requires WellTyped(f)
    ensures |FieldBytes(f)| == Extent(f) && Stands(FieldBytes(f), f)
    ensures forall b: seq<byte> :: Stands(b, f) ==> b == FieldBytes(f)
  {
    match f
    case Num(t, n) =>
      forall j | 0 <= j < Width(t) ensures Low(n, Width(t))[j] == n / Pow256(j) % 256 { LowByte(n, Width(t), j); }
    case Text(s) =>
      TwoBytes(|s|);
      assert s[..|s|] == s;
  }

  lemma TwoBytes(n: int)
    ensures Low(n, 2) == [n % 256, n / 256 % 256]
  {
    assert Low(n / 256, 1) == [n / 256 % 256] + Low(n / 256 / 256, 0);
  }

  /** The serialised data, field by field. */
  lemma {:induction false} FieldAt(fs: seq<Field>, i: nat)
    requires i < |fs| && forall k :: 0 <= k < |fs| ==> WellTyped(fs[k])
    ensures Offset(fs, i) + Extent(fs[i]) <= |Serialized(fs)| == Offset(fs, |fs|)
    ensures Stands(Serialized(fs)[Offset(fs, i)..Offset(fs, i) + Extent(fs[i])], fs[i])
  {
    hide WellTyped, FieldBytes, Stands, Extent;
    var b, rest := FieldBytes(fs[0]), Serialized(fs[1..]);
    FieldStands(fs[0]);
    if |fs| > 1 { FieldAt(fs[1..], if i > 0 then i - 1 else 0); }
    if i == 0 { Behind([], b, 0, |b|, rest); } else { Behind(b, rest, Offset(fs[1..], i - 1), Extent(fs[i]), []); }
  }

  lemma Behind(a: seq<byte>, b: seq<byte>, at: nat, n: nat, c: seq<byte>)
    requires at + n <= |b|
    ensures (a + b)[|a| + at..|a| + at + n] == b[at..at + n] == (b + c)[at..at + n]
  {
  }

  // ---------- the header ----------

  /** magic, flag, pktLen, mid and pid, in host (little-endian) order. */
  ghost function HeaderBytes(flag: nat, pktLen: nat): (h: seq<byte>)
    ensures |h| == 12
  {
    Low(MAGIC, 2) + Low(flag, 2) + Low(pktLen, 2) + Low(0, 2) + Low(0, 4)
  }

  const ENCRYPT: nat := 4

  /** flag | PACKET_FLAG_ENCRYPT */
  function WithEncrypt(flag: nat): nat { if flag / ENCRYPT % 2 == 1 then flag else flag + ENCRYPT }

  /** s with b written over it from position at. */
  ghost function Over(s: seq<byte>, at: nat, b: seq<byte>): (r: seq<byte>)
    requires at + |b| <= |s|
    ensures |r| == |s|
  {
    s[..at] + b + s[at + |b|..]
  }

  // ---------- writing ----------

  class OPacket {
    var buf: array<byte>
    var pos: nat
    var len: nat

    ghost predicate Valid()
      reads this
    {
      buf.Length == SIZE && HDR <= pos <= len <= SIZE
    }

    ghost function Header(): seq<byte>
      requires Valid()
      reads this, buf
    {
      buf[..HDR]
    }

    ghost function Data(): seq<byte>
      requires Valid()
      reads this, buf
    {
      buf[HDR..len]
    }

    constructor ()
      ensures Valid() && fresh(buf) && pos == len == HDR
      ensures Header() == HeaderBytes(0, 0) && Data() == []
    {
      buf := new byte[SIZE];
      pos, len := HDR, HDR;
      new;
      Tea.CopyInto(buf, 0, Low(MAGIC, 2) + Low(0, 2) + Low(0, 2) + Low(0, 2) + Low(0, 4));
      assert buf[..HDR] == HeaderBytes(0, 0);
    }

    /** Writes at the position and moves it; never shrinks the packet. */
    method WriteBytes(b: seq<byte>)
      requires Valid() && pos + |b| <= SIZE
      modifies this`pos, this`len, buf
      ensures Valid() && buf == old(buf) && pos == old(pos) + |b|
      ensures len == if pos > old(len) then pos else old(len)
      ensures buf[..] == Over(old(buf[..]), old(pos), b)
    {
      Tea.CopyInto(buf, pos, b);
      pos := pos + |b|;
      if pos > len { len := pos; }
    }

    /** Whether `<<` gets past its overwrite checks.  The checks compare the
        length, not the position, and the 64-bit signed writer has none. */
    ghost predicate RoomFor(f: Field)
      requires Valid()
      reads this
    {
      match f
      case Num(t, _) => t == I64 || len + Width(t) <= SIZE
      case Text(s) =>
        len + 2 <= SIZE &&
        (if pos + 2 > len then pos + 2 else len) + |s| % 0x10000 <= SIZE
    }

    /** `<<` for every field type; false is the PacketOverwrite exception. */
    method Put(f: Field) returns (ok: bool)
      requires Valid()
      requires f.Num? && f.t == I64 ==> pos + 8 <= SIZE
      modifies this`pos, this`len, buf
      ensures Valid() && buf == old(buf)
      ensures ok <==> old(RoomFor(f))
      ensures ok ==> old(pos) + |FieldBytes(f)| == pos <= SIZE
      ensures ok ==> len == if pos > old(len) then pos else old(len)
      ensures ok ==> buf[..] == Over(old(buf[..]), old(pos), FieldBytes(f))
      ensures ok && WellTyped(f) ==> Stands(buf[old(pos)..pos], f)
      // a failed write leaves at most a length field behind
      ensures !ok ==> (buf[..] == old(buf[..]) && pos == old(pos) && len == old(len)) ||
                      (f.Text? && old(pos) + 2 == pos <= SIZE && len == (if pos > old(len) then pos else old(len)) &&
                       buf[..] == Over(old(buf[..]), old(pos), Low(|f.s| % 0x10000, 2)))
    {
      hide WellTyped, Stands, Extent, Low;
      if WellTyped(f) { FieldStands(f); }
      match f {
      case Num(t, n) =>
        if t != I64 && len + Width(t) > SIZE { return false; }
        WriteBytes(Low(n, Width(t)));
      case Text(s) =>
        if len + 2 > SIZE { return false; }
        var n := |s| % 0x10000;
        WriteBytes(Low(n, 2));
        if len + n > SIZE { return false; }
        ghost var before, at := old(buf[..]), old(pos);
        WriteBytes(s[..n]);
        OverTwice(before, at, Low(n, 2), s[..n]);
      }
      return true;
    }

    /** Overwrites a two-byte header field. */
    method SetShort(at: nat, v: nat)
      requires Valid() && at + 2 <= HDR
      modifies buf
      ensures Valid() && buf[..] == Over(old(buf[..]), at, Low(v, 2))
    {
      Tea.CopyInto(buf, at, Low(v, 2));
    }

    ghost function Flag(): nat
      requires Valid()
      reads this, buf
    {
      Unsigned(buf[2..4])
    }

    /** Replaces the data; the position goes to its end. */
    method SetData(d: seq<byte>)
      requires Valid() && HDR + |d| <= SIZE
      modifies this`pos, this`len, buf
      ensures Valid() && buf == old(buf) && pos == len == HDR + |d|
      ensures buf[..] == Over(old(buf[..]), HDR, d)
    {
      Tea.CopyInto(buf, HDR, d);
      len := HDR + |d|;
      pos := len;
    }

    /** Enciphers the data in place, once; the encoded data must fit the buffer,
        which the source does not check. */
    method Encode(key: Tea.Key)
      requires Valid() && HDR + Tea.Need(|Data()|) <= SIZE
      modifies this`pos, this`len, buf
      ensures Valid() && buf == old(buf)
      ensures old(Flag()) / ENCRYPT % 2 == 1 ==> buf[..] == old(buf[..]) && pos == old(pos) && len == old(len)
      ensures old(Flag()) / ENCRYPT % 2 == 0 ==>
                && Data() == (if old(Data()) == [] then [] else Tea.Encoded(key, Tea.ROUNDS, old(Data())))
                && Header() == Over(old(Header()), 2, Low(old(Flag()) + ENCRYPT, 2))
    {
      hide Tea.Encoded, Tea.Need, Unsigned, Low, WithEncrypt, Over;
      var flag := Unsigned(buf[2..4]);
      WithEncryptIs(flag);
      if flag / ENCRYPT % 2 == 1 { return; }
      ghost var was, data := buf[..], buf[HDR..len];
      if len == HDR {
        SetShort(2, WithEncrypt(flag));
        HeaderAndData(was, [], Low(flag + ENCRYPT, 2));
        NothingOver(was);
        return;
      }
      var tmp := new byte[SIZE];
      var n := Tea.Encode(key, buf[HDR..len], tmp);
      ghost var e := Tea.Encoded(key, Tea.ROUNDS, data);
      assert tmp[..n] == e;
      SetData(tmp[..n]);
      SetShort(2, WithEncrypt(flag));
      HeaderAndData(was, e, Low(flag + ENCRYPT, 2));
    }

    /** Records the size of the data in the header. */
    method Wind()
      requires Valid()
      modifies buf
      ensures Valid() && Data() == old(Data())
      ensures Header() == Over(old(Header()), 4, Low(|Data()|, 2))
    {
      ghost var was := buf[..];
      SetShort(4, len - HDR);
    }
  }

  lemma WithEncryptIs(flag: nat)
    ensures flag / ENCRYPT % 2 == 0 ==> WithEncrypt(flag) == flag + ENCRYPT
    ensures flag / ENCRYPT % 2 == 0 || flag / ENCRYPT % 2 == 1
  {
  }

  lemma NothingOver(s: seq<byte>)
    requires HDR <= |s|
    ensures Over(s, HDR, []) == s
  {
  }

  /** Data and header fields live in different parts of the buffer. */
  lemma HeaderAndData(s: seq<byte>, d: seq<byte>, f: seq<byte>)
    requires HDR + |d| <= |s| && |f| == 2
    ensures var r := Over(Over(s, HDR, d), 2, f);
            r[..HDR] == Over(s[..HDR], 2, f) && r[HDR..HDR + |d|] == d
  {
    var m := Over(s, HDR, d);
    assert m[HDR..HDR + |d|] == d && m[..HDR] == s[..HDR];
    OverInFront(m, f, d);
  }

  lemma OverInFront(m: seq<byte>, f: seq<byte>, d: seq<byte>)
    requires HDR + |d| <= |m| && |f| == 2
    ensures var r := Over(m, 2, f);
            r[..HDR] == Over(m[..HDR], 2, f) && r[HDR..HDR + |d|] == m[HDR..HDR + |d|]
  {
  }

  /** Two writes in a row are one write of both. */
  lemma OverTwice(s: seq<byte>, at: nat, a: seq<byte>, b: seq<byte>)
    requires at + |a| + |b| <= |s|
    ensures Over(Over(s, at, a), at + |a|, b) == Over(s, at, a + b)
  {
    var m := Over(s, at, a);
    assert m[..at + |a|] == s[..at] + a;
    assert m[at + |a| + |b|..] == s[at + |a| + |b|..];
  }

  // ---------- reading ----------

  datatype ReadResult = Value(f: Field) | Overread | Asserted

  /** A bound the source asserts on the position after a read. */
  function PosLimit(t: FieldType): nat
  {
    if t == NumT(I8) || t == TextT then SIZE else SIZE - HDR
  }

  class IPacket {
    var buf: array<byte>
    var pos: nat
    var len: nat

    ghost predicate Valid()
      reads this
    {
      buf.Length == SIZE && HDR <= pos && len <= SIZE
    }

    /** The bytes taken in so far. */
    ghost function Received(): seq<byte>
      requires Valid()
      reads this, buf
    {
      buf[..len]
    }

    function PktLen(): nat
      requires Valid()
      reads this, buf
    {
      Unsigned(buf[4..6])
    }

    constructor ()
      ensures Valid() && fresh(buf) && pos == HDR && len == 0
    {
      buf := new byte[SIZE](_ => 0);
      pos, len := HDR, 0;
    }

    method Copy(b: seq<byte>)
      requires Valid() && len + |b| <= SIZE
      modifies this`len, buf
      ensures Valid() && len == old(len) + |b| && Received() == old(Received()) + b
      ensures old(len) >= HDR ==> PktLen() == old(PktLen())
    {
      Tea.CopyInto(buf, len, b);
      assert len >= HDR ==> buf[4..6] == old(buf[4..6]);
      len := len + |b|;
    }

    /** Takes in the rest of the header, then at most one body's worth of data.
        `taken` is the number of bytes used; !ok is the BadPacket exception. */
    method Append(chunk: seq<byte>) returns (ok: bool, taken: nat)
      requires Valid() && chunk != []
      modifies this`len, buf
      ensures Valid() && taken <= |chunk|
      ensures len == old(len) + taken && Received() == old(Received()) + chunk[..taken]
      ensures var h := HeadPart(old(len), |chunk|);
              if h == |chunk| then ok && taken == h
              else var n := if |chunk| - h < PktLen() then |chunk| - h else PktLen();
                   ok == (old(len) + h + n <= SIZE) && taken == if ok then h + n else h
    {
      hide Unsigned;
      taken := 0;
      if len < HDR {
        taken := if |chunk| < HDR - len then |chunk| else HDR - len;
        Copy(chunk[..taken]);
      }
      if taken < |chunk| {
        var n := if |chunk| - taken < PktLen() then |chunk| - taken else PktLen();
        if n + len > SIZE { return false, taken; }
        Copy(chunk[taken..taken + n]);
        assert chunk[..taken] + chunk[taken..taken + n] == chunk[..taken + n];
        taken := taken + n;
      }
      return true, taken;
    }

    predicate IsComplete()
      requires Valid()
      reads this, buf
    {
      PktLen() + HDR == len
    }

    /** A chunk that continues a packet and stays within it is used up. */
    method AppendWithin(chunk: seq<byte>, ghost wire: seq<byte>) returns (ok: bool, taken: nat)
      requires Valid() && IsWire(wire) && chunk != []
      requires Received() + chunk <= wire
      modifies this`len, buf
      ensures Valid() && ok && taken == |chunk| && Received() == old(Received()) + chunk
    {
      ghost var was := Received();
      ok, taken := Append(chunk);
      ghost var h := HeadPart(|was|, |chunk|);
      if h < |chunk| {
        assert Received() <= wire && len >= HDR;
        assert buf[4..6] == Received()[4..6] == wire[4..6];
      }
    }

    /** While a packet comes in, it is complete exactly when all of it is there. */
    lemma CompleteAtLastByte(wire: seq<byte>)
      requires Valid() && IsWire(wire) && Received() <= wire
      ensures IsComplete() <==> len == |wire|
    {
      if len >= HDR { assert buf[4..6] == Received()[4..6] == wire[4..6]; }
    }

    /** `>>` for every field type. */
    method Get(t: FieldType) returns (r: ReadResult)
      requires Valid()
      modifies this`pos
      ensures Valid() && pos >= old(pos)
      ensures r == ReadAt(buf[..], old(pos), len, t)
      ensures r.Value? ==> pos == NextPos(buf[..], old(pos), t)
    {
      match t {
      case NumT(nt) =>
        if pos + Width(nt) > len { return Overread; }
        var n := NumOf(nt, buf[pos..pos + Width(nt)]);
        pos := pos + Width(nt);
        return if pos < PosLimit(t) then Value(Num(nt, n)) else Asserted;
      case TextT =>
        if pos + 2 > len { return Overread; }
        var n := Unsigned(buf[pos..pos + 2]);
        pos := pos + 2;
        if pos >= PosLimit(NumT(U16)) { return Asserted; }
        if pos + n > len { return Overread; }
        var s := buf[pos..pos + n];
        pos := pos + n;
        return if pos < PosLimit(t) then Value(Text(s)) else Asserted;
      }
    }

    /** Replaces the data by what it deciphers to and goes back to its start; the
        result must fit the buffer, which the source does not check. */
    method Decode(key: Tea.Key) returns (ok: bool)
      requires Valid() && len != HDR + 1
      requires len > HDR ==> HDR + Tea.LengthField(buf[HDR..len]) <= SIZE
      modifies this`pos, this`len, buf
      ensures Valid()
      ensures old(len) <= HDR ==> ok && pos == old(pos) && len == old(len) && buf[..] == old(buf[..])
      ensures old(len) > HDR ==>
                var e := old(buf[HDR..len]);
                && (ok <==> (|e| - 2) % 8 == 0 && Tea.LengthField(e) > 0)
                && (!ok ==> pos == old(pos) && len == old(len) && buf[..] == old(buf[..]))
                && (ok ==>
                    var n := Tea.LengthField(e);
                    // a length field beyond the data leaves what follows the deciphered bytes open
                    var m := if n <= |e| - 2 then n else |e| - 2;
                    pos == HDR && len == HDR + n &&
                    buf[HDR..HDR + m] == Tea.DecBlocks(key, Tea.ROUNDS, e[2..])[..m])
    {
      hide Tea.DecBlocks;
      if len <= HDR { return true; }
      var tmp := new byte[SIZE];
      var e := buf[HDR..len];
      var n := Tea.Decode(key, e, tmp);
      if n == 0 { return false; }
      var d := tmp[..n];
      Tea.CopyInto(buf, HDR, d);
      len := HDR + n;
      pos := HDR;
      assert buf[HDR..len] == d;
      DecipheredPart(tmp[..], key, e, n, buf[..]);
      return true;
    }
  }

  lemma DecipheredPart(tmp: seq<byte>, key: Tea.Key, e: seq<byte>, n: nat, b: seq<byte>)
    requires |e| >= 2 && (|e| - 2) % 8 == 0 && |e| - 2 <= |tmp| && n <= |tmp| && HDR + n <= |b|
    requires tmp[..|e| - 2] == Tea.DecBlocks(key, Tea.ROUNDS, e[2..]) && b[HDR..HDR + n] == tmp[..n]
    ensures var m := if n <= |e| - 2 then n else |e| - 2;
            b[HDR..HDR + m] == Tea.DecBlocks(key, Tea.ROUNDS, e[2..])[..m]
  {
    hide Tea.DecBlocks;
    var m := if n <= |e| - 2 then n else |e| - 2;
    assert b[HDR..HDR + m] == b[HDR..HDR + n][..m] == tmp[..n][..m] == tmp[..|e| - 2][..m];
  }

  /** How much of a chunk goes into an unfinished header. */
  function HeadPart(len: nat, n: nat): nat
  {
    if len >= HDR then 0 else if n < HDR - len then n else HDR - len
  }

  /** A whole packet: the header's pktLen is the number of bytes after the header. */
  ghost predicate IsWire(w: seq<byte>)
  {
    HDR <= |w| <= SIZE && Unsigned(w[4..6]) == |w| - HDR
  }

  ghost function ReadAt(b: seq<byte>, pos: nat, len: nat, t: FieldType): ReadResult
    requires len <= |b|
  {
    match t
    case NumT(nt) =>
      var w := Width(nt);
      if pos + w > len then Overread
      else if pos + w >= PosLimit(t) then Asserted
      else Value(Num(nt, NumOf(nt, b[pos..pos + w])))
    case TextT =>
      if pos + 2 > len then Overread
      else if pos + 2 >= PosLimit(NumT(U16)) then Asserted else
        var n := Unsigned(b[pos..pos + 2]);
        if pos + 2 + n > len then Overread
        else if pos + 2 + n >= PosLimit(t) then Asserted
        else Value(Text(b[pos + 2..pos + 2 + n]))
  }

  ghost function NextPos(b: seq<byte>, pos: nat, t: FieldType): nat
  {
    match t
    case NumT(nt) => pos + Width(nt)
    case TextT => if pos + 2 > |b| then pos else pos + 2 + Unsigned(b[pos..pos + 2])
  }

  // ---------- from fields to fields ----------

  /** The data part of a packet carrying fs. */
  ghost function Payload(key: Tea.Key, fs: seq<Field>): seq<byte>
  {
    var d := Serialized(fs);
    if d == [] then [] else Tea.Encoded(key, Tea.ROUNDS, d)
  }

  /** Magic, the flag of encryption, the length of what follows with its low byte
      first, and zeros for mid and pid. */
  lemma WireHeader(n: nat)
    ensures HeaderBytes(ENCRYPT, n) == [0x50, 0x50, 4, 0, n % 256, n / 256 % 256, 0, 0, 0, 0, 0, 0]
  {
    hide Low;
    TwoBytes(MAGIC);
    TwoBytes(ENCRYPT);
    TwoBytes(n);
    TwoBytes(0);
    FourZeros();
  }

  /** A packet as it is sent. */
  lemma WireLooks(key: Tea.Key, fs: seq<Field>)
    ensures |Wire(key, fs)| >= 12
    ensures var wire := Wire(key, fs);
            var n := |wire| - 12;
            && wire[..12] == [0x50, 0x50, 4, 0, n % 256, n / 256 % 256, 0, 0, 0, 0, 0, 0]
            && wire[12..] == if fs == [] then [] else Tea.Encoded(key, 16, Serialized(fs))
  {
    hide Tea.Encoded, FieldBytes, HeaderBytes;
    assert Tea.ROUNDS == 16;
    SomeData(fs);
    WireHeader(|Payload(key, fs)|);
  }

  lemma SomeData(fs: seq<Field>)
    ensures fs == [] <==> Serialized(fs) == []
  {
  }

  lemma FourZeros()
    ensures Low(0, 4) == [0, 0, 0, 0]
  {
    assert Low(0, 1) == [0] && Low(0, 2) == [0, 0] && Low(0, 3) == [0, 0, 0];
  }

  ghost function Wire(key: Tea.Key, fs: seq<Field>): seq<byte>
  {
    HeaderBytes(ENCRYPT, |Payload(key, fs)|) + Payload(key, fs)
  }

  /** The fields are well typed and, once encoded, fit the buffer. */
  ghost predicate Sendable(fs: seq<Field>)
  {
    HDR + Tea.Need(|Serialized(fs)|) <= SIZE && forall i :: 0 <= i < |fs| ==> WellTyped(fs[i])
  }

  lemma WireIsWire(key: Tea.Key, fs: seq<Field>)
    requires Sendable(fs)
    ensures IsWire(Wire(key, fs)) && Wire(key, fs)[HDR..] == Payload(key, fs)
  {
    hide Tea.Encoded, Serialized;
    var w, n := Wire(key, fs), |Payload(key, fs)|;
    assert w[4..6] == Low(n, 2);
    assert Pow256(2) == 65536 by { assert Pow256(1) == 256; }
    UnsignedRoundTrip(n, 2);
  }

  /** Builds, enciphers and winds a packet. */
  method Send(key: Tea.Key, fs: seq<Field>) returns (wire: seq<byte>)
    requires Sendable(fs)
    ensures wire == Wire(key, fs) && |wire| >= 12
    ensures var n := |wire| - 12; wire[..12] == [0x50, 0x50, 4, 0, n % 256, n / 256 % 256, 0, 0, 0, 0, 0, 0]
    ensures wire[12..] == if fs == [] then [] else Tea.Encoded(key, 16, Serialized(fs))
  {
    hide Tea.Encoded, FieldBytes, WellTyped, Serialized, HeaderBytes, Wire, Payload, Unsigned, Low;
    WireLooks(key, fs);
    var p := new OPacket();
    var i := 0;
    assert fs[..0] == [];
    NothingSerialized();
    while i < |fs|
      invariant 0 <= i <= |fs| && p.Valid() && p.pos == p.len && fresh(p) && fresh(p.buf)
      invariant p.Header() == HeaderBytes(0, 0) && p.Data() == Serialized(fs[..i])
    {
      PrefixFits(fs, i);
      assert fs[..i + 1] == fs[..i] + [fs[i]];
      SerializedAppends(fs[..i], fs[i]);
      RoomFromLength(p, fs[i]);
      ghost var was, at := p.buf[..], p.pos;
      var ok := p.Put(fs[i]);
      OverAtEnd(was, at, FieldBytes(fs[i]));
      i := i + 1;
    }
    assert fs[..i] == fs;
    FlagOf(p.buf[..]);
    p.Encode(key);
    p.Wind();
    HeaderSteps(|p.Data()|);
    wire := p.buf[..p.len];
    assert wire == p.Header() + p.Data();
    WireIs(key, fs, p.Data());
  }

  lemma WireIs(key: Tea.Key, fs: seq<Field>, data: seq<byte>)
    requires data == if Serialized(fs) == [] then [] else Tea.Encoded(key, Tea.ROUNDS, Serialized(fs))
    ensures HeaderBytes(ENCRYPT, |data|) + data == Wire(key, fs)
  {
  }

  lemma NothingSerialized()
    ensures Serialized([]) == []
  {
  }

  lemma {:induction false} PrefixFits(fs: seq<Field>, i: nat)
    requires i < |fs|
    ensures |Serialized(fs[..i])| + |FieldBytes(fs[i])| <= |Serialized(fs)|
  {
    if i == 0 {
    } else {
      PrefixFits(fs[1..], i - 1);
      assert fs[..i][1..] == fs[1..][..i - 1];
    }
  }

  /** With room for the bytes behind the data, the checks pass. */
  lemma RoomFromLength(p: OPacket, f: Field)
    requires p.Valid() && p.pos == p.len && p.len + |FieldBytes(f)| <= SIZE
    ensures p.RoomFor(f)
    ensures f.Num? && f.t == I64 ==> p.pos + 8 <= SIZE
  {
  }

  lemma OverAtEnd(s: seq<byte>, at: nat, b: seq<byte>)
    requires HDR <= at && at + |b| <= |s|
    ensures Over(s, at, b)[..HDR] == s[..HDR] && Over(s, at, b)[HDR..at + |b|] == s[HDR..at] + b
  {
  }

  lemma FlagOf(s: seq<byte>)
    requires |s| >= HDR && s[..HDR] == HeaderBytes(0, 0)
    ensures Unsigned(s[2..4]) == 0
  {
    assert s[2..4] == HeaderBytes(0, 0)[2..4] == Low(0, 2);
    assert Pow256(2) == 65536 by { assert Pow256(1) == 256; }
    UnsignedRoundTrip(0, 2);
  }

  lemma HeaderSteps(n: nat)
    ensures Over(Over(HeaderBytes(0, 0), 2, Low(ENCRYPT, 2)), 4, Low(n, 2)) == HeaderBytes(ENCRYPT, n)
  {
    hide Over, Low;
    var m, z, rest := Low(MAGIC, 2), Low(0, 2), Low(0, 2) + Low(0, 4);
    assert HeaderBytes(0, 0) == m + z + (z + rest);
    OverMiddle(m, z, z + rest, Low(ENCRYPT, 2));
    assert m + Low(ENCRYPT, 2) + (z + rest) == (m + Low(ENCRYPT, 2)) + z + rest;
    OverMiddle(m + Low(ENCRYPT, 2), z, rest, Low(n, 2));
    assert HeaderBytes(ENCRYPT, n) == m + Low(ENCRYPT, 2) + Low(n, 2) + rest;
  }

  lemma OverMiddle(a: seq<byte>, was: seq<byte>, c: seq<byte>, b: seq<byte>)
    requires |b| == |was|
    ensures Over(a + was + c, |a|, b) == a + b + c
  {
  }

  /** Feeds the chunks of one packet.  `complete` records what is_complete says
      after each chunk. */
  method Reassemble(p: IPacket, chunks: seq<seq<byte>>, ghost wire: seq<byte>) returns (complete: seq<bool>)
    requires p.Valid() && p.len == 0
    requires IsWire(wire) && Flatten(chunks) == wire && forall i :: 0 <= i < |chunks| ==> chunks[i] != []
    modifies p`len, p.buf
    ensures p.Valid() && p.Received() == wire
    ensures |complete| == |chunks| && forall i :: 0 <= i < |chunks| ==> complete[i] == (i == |chunks| - 1)
  {
    complete := [];
    var i := 0;
    assert chunks[..0] == [];
    while i < |chunks|
      invariant 0 <= i <= |chunks| && p.Valid() && p.Received() == Flatten(chunks[..i])
      invariant |complete| == i && forall k :: 0 <= k < i ==> complete[k] == (k == |chunks| - 1)
    {
      assert chunks[..i + 1][..i] == chunks[..i];
      FlattenPrefix(chunks, i + 1);
      var ok, taken := p.AppendWithin(chunks[i], wire);
      p.CompleteAtLastByte(wire);
      complete := complete + [p.IsComplete()];
      i := i + 1;
    }
    assert chunks[..i] == chunks;
  }

  /** A proper prefix of non-empty chunks is a proper prefix of the bytes. */
  lemma {:induction false} FlattenPrefix(chunks: seq<seq<byte>>, n: nat)
    requires n <= |chunks| && forall i :: 0 <= i < |chunks| ==> chunks[i] != []
    ensures Flatten(chunks[..n]) <= Flatten(chunks)
    ensures |Flatten(chunks[..n])| == |Flatten(chunks)| <==> n == |chunks|
    decreases |chunks|
  {
    if n == |chunks| {
      assert chunks[..n] == chunks;
    } else {
      var c := chunks[..|chunks| - 1];
      FlattenPrefix(c, n);
      assert c[..n] == chunks[..n];
    }
  }

  /** Whether the reader's assertions on the position let f through. */
  ghost predicate Passes(f: Field, pos: nat)
  {
    match f
    case Num(t, _) => pos + Width(t) < PosLimit(NumT(t))
    case Text(s) => pos + 2 < PosLimit(NumT(U16)) && pos + 2 + |s| < PosLimit(TextT)
  }

  /** The bounds by their literals: the whole buffer for an int8 and a text, twelve
      bytes less for the rest, a text's length among them. */
  lemma PassesIf(f: Field, pos: nat)
    ensures Passes(f, pos) <==>
            match f
            case Num(t, _) => pos + SizeOf(t) < if t == I8 then 0x8000 else 0x8000 - 12
            case Text(s) => pos + 2 < 0x8000 - 12 && pos + 2 + |s| < 0x8000
  {
  }

  ghost predicate AllPass(fs: seq<Field>, pos: nat)
  {
    fs == [] || (Passes(fs[0], pos) && AllPass(fs[1..], pos + |FieldBytes(fs[0])|))
  }

  /** A packet that is legally written may still stop the reader: a byte behind a
      text that nearly fills the buffer. */
  lemma LastByteStops(s: seq<byte>, fs: seq<Field>)
    requires |s| == 32745 && fs == [Text(s), Num(U8, 0)]
    ensures Sendable(fs) && !AllPass(fs, HDR)
  {
    var text, last := fs[0], fs[1];
    assert fs[1..] == [last] && [last][1..] == [];
    assert |FieldBytes(text)| == 32747 && |FieldBytes(last)| == 1;
    assert Serialized([last]) == FieldBytes(last) + Serialized([]);
    assert |Serialized(fs)| == 32748;
    assert Pow256(1) == 256 * Pow256(0);
    assert !Passes(last, HDR + 32747);
  }

  /** A field written at pos is read back from there. */
  lemma ReadsField(b: seq<byte>, pos: nat, len: nat, f: Field)
    requires WellTyped(f) && pos + |FieldBytes(f)| <= len <= |b| && b[pos..pos + |FieldBytes(f)|] == FieldBytes(f)
    ensures ReadAt(b, pos, len, TypeOf(f)) == if Passes(f, pos) then Value(f) else Asserted
    ensures NextPos(b, pos, TypeOf(f)) == pos + |FieldBytes(f)|
  {
    match f
    case Num(t, n) =>
      NumRoundTrip(t, n);
    case Text(s) =>
      TextBytes(s);
      hide FieldBytes;
      TextThere(b, pos, s);
  }

  lemma TextBytes(s: seq<byte>)
    requires |s| < 0x10000
    ensures FieldBytes(Text(s)) == Low(|s|, 2) + s
  {
    hide Low;
    Whole(s, |s|);
  }

  lemma Whole(s: seq<byte>, n: nat)
    requires |s| == n < 0x10000
    ensures n % 0x10000 == n && s[..n] == s
  {
  }

  lemma TextThere(b: seq<byte>, pos: nat, s: seq<byte>)
    requires |s| < 0x10000 && pos + 2 + |s| <= |b| && b[pos..pos + (2 + |s|)] == Low(|s|, 2) + s
    ensures Unsigned(b[pos..pos + 2]) == |s| && b[pos + 2..pos + 2 + |s|] == s
  {
    hide Low, Unsigned, Pow256;
    var w := b[pos..pos + (2 + |s|)];
    assert b[pos..pos + 2] == w[..2] == Low(|s|, 2);
    assert b[pos + 2..pos + 2 + |s|] == w[2..] == s;
    Powers();
    UnsignedRoundTrip(|s|, 2);
  }

  /** The same said of the bytes themselves. */
  lemma ReadsStanding(b: seq<byte>, pos: nat, len: nat, f: Field)
    requires WellTyped(f) && pos + Extent(f) <= len <= |b| && Stands(b[pos..pos + Extent(f)], f)
    ensures ReadAt(b, pos, len, TypeOf(f)) == if Passes(f, pos) then Value(f) else Asserted
    ensures NextPos(b, pos, TypeOf(f)) == pos + Extent(f)
  {
    hide *;
    FieldStands(f);
    ReadsField(b, pos, len, f);
  }

  /** Reads fields of the given types until one fails. */
  method GetAll(p: IPacket, types: seq<FieldType>, ghost fs: seq<Field>) returns (ok: bool, got: seq<Field>)
    requires p.Valid() && |types| == |fs| && forall i :: 0 <= i < |fs| ==> types[i] == TypeOf(fs[i]) && WellTyped(fs[i])
    requires p.pos + |Serialized(fs)| == p.len && p.buf[p.pos..p.len] == Serialized(fs)
    modifies p`pos
    ensures ok <==> AllPass(fs, old(p.pos))
    ensures ok ==> got == fs
  {
    hide FieldBytes, WellTyped, ReadAt, NextPos, Passes;
    ghost var start := p.pos;
    got := [];
    var i := 0;
    assert fs[0..] == fs;
    while i < |types|
      invariant 0 <= i <= |fs| && p.Valid() && got == fs[..i]
      invariant p.buf[..] == old(p.buf[..]) && p.pos + |Serialized(fs[i..])| == p.len == old(p.len)
      invariant p.buf[p.pos..p.len] == Serialized(fs[i..])
      invariant AllPass(fs, start) <==> AllPass(fs[i..], p.pos)
    {
      assert fs[i..][0] == fs[i] && fs[i..][1..] == fs[i + 1..];
      ghost var f, at := FieldBytes(fs[i]), p.pos;
      assert p.buf[at..at + |f|] == p.buf[at..p.len][..|f|] == f;
      assert p.buf[at + |f|..p.len] == p.buf[at..p.len][|f|..] == Serialized(fs[i + 1..]);
      ReadsField(p.buf[..], p.pos, p.len, fs[i]);
      var r := p.Get(types[i]);
      if !r.Value? { return false, got; }
      got := got + [r.f];
      i := i + 1;
    }
    assert fs[i..] == [];
    return true, got;
  }

  /** The receiving end: reassemble, decipher, read. */
  method Receive(key: Tea.Key, chunks: seq<seq<byte>>, types: seq<FieldType>, ghost fs: seq<Field>)
    returns (complete: seq<bool>, ok: bool, got: seq<Field>)
    requires Sendable(fs) && |types| == |fs| && forall i :: 0 <= i < |fs| ==> types[i] == TypeOf(fs[i])
    requires Flatten(chunks) == Wire(key, fs) && forall i :: 0 <= i < |chunks| ==> chunks[i] != []
    // complete exactly at the last byte
    ensures |complete| == |chunks| && forall i :: 0 <= i < |chunks| ==> complete[i] == (i == |chunks| - 1)
    // the fields come back exactly when no position assertion stops the reader
    ensures ok <==> AllPass(fs, HDR)
    ensures ok ==> got == fs
  {
    hide Serialized, WellTyped, AllPass, Tea.Encoded, Tea.DecBlocks, Wire, FieldBytes, TypeOf;
    WireIsWire(key, fs);
    var p := new IPacket();
    complete := Reassemble(p, chunks, Wire(key, fs));
    assert p.buf[HDR..p.len] == p.Received()[HDR..] == Payload(key, fs);
    if Serialized(fs) != [] { Tea.DecodeUndoesEncode(key, Tea.ROUNDS, Serialized(fs)); }
    var decoded := p.Decode(key);
    ok, got := GetAll(p, types, fs);
  }
}
