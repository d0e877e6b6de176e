/** The bit stream of cpp/utils/bitstream.h: fields of any width at any bit
    offset, in both template modes. */
module BitStream {
  import opened Bits
  import opened Bytes

  const BYTE_BITS: nat := 8

  /** Stored bit number i of a buffer. */
  ghost function BitAt(b: seq<byte>, i: nat): nat
    requires i < 8 * |b|
  {
    Bit(b[i / 8], i % 8)
  }

  /** The widths 1 << bits and value << i stay within an int for these. */
  ghost predicate WidthOk(bits: nat) { bits <= 30 }

  /** Up to this width, and no further, 1 << bits is an int. */
  lemma WidthIs(bits: nat)
    ensures WidthOk(bits) <==> Pow2(bits) <= 0x7fff_ffff
  {
    assert Pow2(10) == 1024 && Pow2(20) == 1048576 && Pow2(30) == 1073741824;
    if bits <= 30 { Pow2Grows(bits, 30); } else { Pow2Grows(31, bits); }
  }

  lemma {:induction false} Pow2Grows(a: nat, b: nat)
    requires a <= b
    ensures Pow2(a) <= Pow2(b)
    decreases b - a
  {
    if a < b { Pow2Grows(a + 1, b); }
  }

  /** Which bit of the number is stored p bits after the start of a field.
      Plain mode stores low bits first.  In USE_LITTLE mode the number is cut at
      the byte boundaries of the buffer, high pieces first, and each piece stored
      low bits first. */
  ghost function Source(little: bool, offset: nat, bits: nat, p: nat): (q: nat)
    requires p < bits
    ensures q < bits
  {
    if little then
      var i, e := PieceStart(offset, p), PieceEnd(offset, bits, p);
      bits - e + (p - i)
    else p
  }

  /** The piece of a field, within one byte, that its bit p belongs to. */
  ghost function PieceStart(offset: nat, p: nat): (i: nat)
    ensures i <= p
  {
    if p < (offset + p) % 8 then 0 else p - (offset + p) % 8
  }

  ghost function PieceEnd(offset: nat, bits: nat, p: nat): (e: nat)
    requires p < bits
    ensures p < e <= bits
  {
    if p + 8 - (offset + p) % 8 < bits then p + 8 - (offset + p) % 8 else bits
  }

  /** A whole piece, handled by one round of the loops. */
  lemma PieceIs(offset: nat, bits: nat, i: nat, w: nat, p: nat)
    requires i < bits && (i == 0 || (offset + i) % 8 == 0)
    requires w == if 8 - (offset + i) % 8 < bits - i then 8 - (offset + i) % 8 else bits - i
    requires i <= p < i + w
    ensures PieceStart(offset, p) == i && PieceEnd(offset, bits, p) == i + w
    ensures (offset + p) / 8 == (offset + i) / 8 && (offset + p) % 8 == (offset + i) % 8 + (p - i)
    ensures i + w < bits ==> (offset + i + w) % 8 == 0
  {
  }

  /** No bit of the number is stored twice, and none is left out. */
  lemma SourceIsOnto(little: bool, offset: nat, bits: nat, q: nat) returns (p: nat)
    requires q < bits
    ensures p < bits && Source(little, offset, bits, p) == q
  {
    if little {
      var m := bits - 1 - q;
      var i, e := PieceStart(offset, m), PieceEnd(offset, bits, m);
      p := q - (bits - e) + i;
      SamePiece(offset, bits, m, p);
    } else {
      p := q;
    }
  }

  lemma SamePiece(offset: nat, bits: nat, m: nat, p: nat)
    requires m < bits && PieceStart(offset, m) <= p < PieceEnd(offset, bits, m)
    ensures PieceStart(offset, p) == PieceStart(offset, m)
    ensures PieceEnd(offset, bits, p) == PieceEnd(offset, bits, m)
  {
  }

  // ---------- one byte ----------

  /** The two updates of buffer_[idx] in `write`, value << used cut to 32 bits. */
  function Replace(b: byte, used: nat, w: nat, value: nat): nat
  {
    Or(AndNot(b, Mask(used, w)), And(ShiftLeft(value, used) % Pow2(32), Mask(used, w)))
  }

  lemma ReplaceBits(b: byte, used: nat, w: nat, value: nat, k: nat)
    requires used + w <= 8
    ensures Bit(Replace(b, used, w, value), k) == if used <= k < used + w then Bit(value, k - used) else Bit(b, k)
  {
    hide Bit, Mask, Or, And, AndNot, ShiftLeft, Pow2;
    var m := Mask(used, w);
    BitOr(AndNot(b, m), And(ShiftLeft(value, used) % Pow2(32), m), k);
    BitAndNot(b, m, k);
    BitAnd(ShiftLeft(value, used) % Pow2(32), m, k);
    BitMask(used, w, k);
    BitMod(ShiftLeft(value, used), 32, k);
    BitShiftLeft(value, used, k);
  }

  lemma ReplaceIsByte(b: byte, used: nat, w: nat, value: nat)
    requires used + w <= 8
    ensures Replace(b, used, w, value) < 256
  {
    assert Pow2(8) == 256 by { assert Pow2(4) == 16; }
    forall k: nat | k >= 8 ensures Bit(Replace(b, used, w, value), k) == 0 {
      ReplaceBits(b, used, w, value, k);
      HighBits(b, 8, k);
    }
    SmallFromBits(Replace(b, used, w, value), 8);
  }

  /** (buffer_[idx] & mask) >> used */
  function Extract(b: byte, used: nat, w: nat): nat
  {
    ShiftRight(And(b, Mask(used, w)), used)
  }

  lemma ExtractBits(b: byte, used: nat, w: nat, k: nat)
    ensures Bit(Extract(b, used, w), k) == if k < w then Bit(b, used + k) else 0
  {
    BitShiftRight(And(b, Mask(used, w)), used, k);
    BitAnd(b, Mask(used, w), used + k);
    BitMask(used, w, used + k);
  }

  /** Appending a piece below or above what has been read so far. */
  function Join(little: bool, n: nat, i: nat, value: nat, w: nat): nat
  {
    if little then Or(ShiftLeft(n, w), value) else Or(n, ShiftLeft(value, i))
  }

  lemma JoinBits(little: bool, n: nat, i: nat, value: nat, w: nat, k: nat)
    requires (forall j: nat :: j >= i ==> Bit(n, j) == 0) && (forall j: nat :: j >= w ==> Bit(value, j) == 0)
    ensures Bit(Join(little, n, i, value, w), k) ==
            if little then (if k < w then Bit(value, k) else Bit(n, k - w))
            else (if k < i then Bit(n, k) else Bit(value, k - i))
  {
    if little {
      BitOr(ShiftLeft(n, w), value, k);
      BitShiftLeft(n, w, k);
    } else {
      BitOr(n, ShiftLeft(value, i), k);
      BitShiftLeft(value, i, k);
    }
  }

  // ---------- the stream ----------

  class Stream {
    const little: bool
    const buffer: array<byte>
    var nbits: nat
    var offset: nat

    ghost predicate Valid()
      reads this
    {
      nbits <= 8 * buffer.Length
    }

    /** The buffer starts with arbitrary contents. */
    constructor (size: nat, little: bool, junk: nat -> byte)
      ensures Valid() && fresh(buffer) && buffer.Length == size && this.little == little
      ensures nbits == 0 && offset == 0
    {
      this.little := little;
      buffer := new byte[size](i => junk(i));
      nbits, offset := 0, 0;
    }

    method Seek(to: nat)
      modifies this`offset
      ensures offset == to
    {
      offset := to;
    }

    /** Writes the low `bits` bits of n at the offset. */
    method Write(n0: nat, bits: nat)
      requires Valid() && WidthOk(bits) && offset + bits <= 8 * buffer.Length
      modifies this`nbits, this`offset, buffer
      ensures Valid() && offset == old(offset) + bits
      ensures nbits == if old(nbits) < offset then offset else old(nbits)
      ensures Stored(buffer[..], little, old(offset), bits, n0, bits)
      ensures Untouched(buffer[..], old(buffer[..]), old(offset), bits)
    {
      hide Source, Stored, Untouched, Replace, PieceStart, PieceEnd;
      var n := And(n0, Mask(0, bits));
      ghost var start, was := offset, buffer[..];
      StoredNothing(buffer[..], little, start, bits, n);
      var i := 0;
      while i < bits
        invariant 0 <= i <= bits && offset == start + i && nbits == old(nbits)
        invariant i == 0 || i == bits || (start + i) % 8 == 0
        invariant Stored(buffer[..], little, start, bits, n, i)
        invariant Untouched(buffer[..], was, start, bits)
      {
        var idx, used := offset / BYTE_BITS, offset % BYTE_BITS;
        var w := if BYTE_BITS - used < bits - i then BYTE_BITS - used else bits - i;
        var value := if little then ShiftRight(n, bits - i - w) else ShiftRight(n, i);
        ReplaceIsByte(buffer[idx], used, w, value);
        StoreStep(buffer[..], was, little, start, bits, n, i, w, value);
        buffer[idx] := Replace(buffer[idx], used, w, value);
        i := i + w;
        offset := offset + w;
      }
      StoredMasked(buffer[..], little, start, bits, n0);
      if nbits < offset { nbits := offset; }
    }

    method Append(n: nat, bits: nat)
      requires Valid() && WidthOk(bits) && nbits + bits <= 8 * buffer.Length
      modifies this`nbits, this`offset, buffer
      ensures Valid() && offset == nbits == old(nbits) + bits
      ensures Stored(buffer[..], little, old(nbits), bits, n, bits)
      ensures Untouched(buffer[..], old(buffer[..]), old(nbits), bits)
    {
      Seek(nbits);
      Write(n, bits);
    }

    /** Reads a number of `bits` bits at the offset. */
    method Read(bits: nat) returns (n: nat)
      requires Valid() && WidthOk(bits) && offset + bits <= 8 * buffer.Length
      modifies this`offset
      ensures Valid() && offset == old(offset) + bits
      ensures n < Pow2(bits) && Stored(buffer[..], little, old(offset), bits, n, bits)
    {
      hide Source, Fetched, Extract, Join, PieceStart, PieceEnd;
      n := 0;
      ghost var start := offset;
      FetchedNothing(buffer[..], little, start, bits);
      var i := 0;
      while i < bits
        invariant 0 <= i <= bits && offset == start + i
        invariant i == 0 || i == bits || (start + i) % 8 == 0
        invariant Fetched(buffer[..], little, start, bits, n, i)
      {
        var idx, used := offset / BYTE_BITS, offset % BYTE_BITS;
        var w := if BYTE_BITS - used < bits - i then BYTE_BITS - used else bits - i;
        var value := Extract(buffer[idx], used, w);
        FetchStep(buffer[..], little, start, bits, n, i, w, value);
        n := Join(little, n, i, value, w);
        i := i + w;
        offset := offset + w;
      }
      FetchedAll(buffer[..], little, start, bits, n);
    }
  }

  // ---------- what a write stores ----------

  /** The first `done` bits of a field at `offset` hold their bits of n. */
  ghost predicate Stored(b: seq<byte>, little: bool, offset: nat, bits: nat, n: nat, done: nat)
  {
    && done <= bits && offset + bits <= 8 * |b|
    && forall p: nat :: p < done ==> BitAt(b, offset + p) == Bit(n, Source(little, offset, bits, p))
  }

  /** Nothing outside the field has changed. */
  ghost predicate Untouched(b: seq<byte>, was: seq<byte>, offset: nat, bits: nat)
  {
    |b| == |was| && forall k: nat :: k < 8 * |b| && !(offset <= k < offset + bits) ==> BitAt(b, k) == BitAt(was, k)
  }

  lemma StoredNothing(b: seq<byte>, little: bool, offset: nat, bits: nat, n: nat)
    requires offset + bits <= 8 * |b|
    ensures Stored(b, little, offset, bits, n, 0) && Untouched(b, b, offset, bits)
  {
  }

  /** Masking the argument does not change what is stored. */
  lemma StoredMasked(b: seq<byte>, little: bool, offset: nat, bits: nat, n: nat)
    requires Stored(b, little, offset, bits, And(n, Mask(0, bits)), bits)
    ensures Stored(b, little, offset, bits, n, bits)
  {
    forall p: nat | p < bits ensures BitAt(b, offset + p) == Bit(n, Source(little, offset, bits, p)) {
      var q := Source(little, offset, bits, p);
      BitAnd(n, Mask(0, bits), q);
      BitMask(0, bits, q);
    }
  }

  /** b' is b with the stored bits at..at + w taken from value. */
  ghost predicate Replaced(b': seq<byte>, b: seq<byte>, at: nat, w: nat, value: nat)
  {
    |b'| == |b| && forall k: nat :: k < 8 * |b| ==> BitAt(b', k) == if at <= k < at + w then Bit(value, k - at) else BitAt(b, k)
  }

  lemma BitReplaced(b: seq<byte>, at: nat, w: nat, value: nat, r: byte, k: nat)
    requires at / 8 < |b| && at % 8 + w <= 8 && r == Replace(b[at / 8], at % 8, w, value) && k < 8 * |b|
    ensures BitAt(b[at / 8 := r], k) == if at <= k < at + w then Bit(value, k - at) else BitAt(b, k)
  {
    ReplaceBits(b[at / 8], at % 8, w, value, k % 8);
    hide Replace, Bit;
    if k / 8 == at / 8 { assert k - at == k % 8 - at % 8; }
  }

  /** Replacing a stretch of one byte changes those stored bits and no others. */
  lemma ByteReplaced(b: seq<byte>, at: nat, w: nat, value: nat, r: byte)
    requires at / 8 < |b| && at % 8 + w <= 8 && r == Replace(b[at / 8], at % 8, w, value)
    ensures Replaced(b[at / 8 := r], b, at, w, value)
  {
    var b' := b[at / 8 := r];
    forall k: nat | k < 8 * |b|
      ensures BitAt(b', k) == if at <= k < at + w then Bit(value, k - at) else BitAt(b, k)
    {
      hide Replace, Bit, BitAt;
      BitReplaced(b, at, w, value, r, k);
    }
  }

  /** One round of the loop of `write`. */
  lemma StoreStep(b: seq<byte>, was: seq<byte>, little: bool, offset: nat, bits: nat, n: nat, i: nat, w: nat, value: nat)
    requires Stored(b, little, offset, bits, n, i) && Untouched(b, was, offset, bits) && i < bits
    requires i == 0 || (offset + i) % 8 == 0
    requires w == if 8 - (offset + i) % 8 < bits - i then 8 - (offset + i) % 8 else bits - i
    requires value == ShiftRight(n, if little then bits - i - w else i)
    requires Replace(b[(offset + i) / 8], (offset + i) % 8, w, value) < 256
    ensures w > 0 && i + w <= bits && (i + w == bits || (offset + i + w) % 8 == 0)
    ensures var idx := (offset + i) / 8;
            var b' := b[idx := Replace(b[idx], (offset + i) % 8, w, value)];
            Stored(b', little, offset, bits, n, i + w) && Untouched(b', was, offset, bits)
  {
    PieceIs(offset, bits, i, w, i);
    var r: byte := Replace(b[(offset + i) / 8], (offset + i) % 8, w, value);
    ByteReplaced(b, offset + i, w, value, r);
    BitsStored(b, b[(offset + i) / 8 := r], was, little, offset, bits, n, i, w, value);
  }

  lemma BitsStored(b: seq<byte>, b': seq<byte>, was: seq<byte>, little: bool, offset: nat, bits: nat, n: nat, i: nat, w: nat, value: nat)
    requires Stored(b, little, offset, bits, n, i) && Untouched(b, was, offset, bits) && i < bits && i + w <= bits
    requires i == 0 || (offset + i) % 8 == 0
    requires w == if 8 - (offset + i) % 8 < bits - i then 8 - (offset + i) % 8 else bits - i
    requires value == ShiftRight(n, if little then bits - i - w else i)
    requires Replaced(b', b, offset + i, w, value)
    ensures Stored(b', little, offset, bits, n, i + w) && Untouched(b', was, offset, bits)
  {
    hide BitAt, Bit, Source, PieceStart, PieceEnd, ShiftRight;
    forall p: nat | p < i + w ensures BitAt(b', offset + p) == Bit(n, Source(little, offset, bits, p)) {
      if p >= i { PieceSource(little, offset, bits, n, i, w, p); }
    }
  }

  /** Within a piece, the shifted number holds the bits the piece is to store. */
  lemma PieceSource(little: bool, offset: nat, bits: nat, n: nat, i: nat, w: nat, p: nat)
    requires i < bits && (i == 0 || (offset + i) % 8 == 0) && i <= p < i + w
    requires w == if 8 - (offset + i) % 8 < bits - i then 8 - (offset + i) % 8 else bits - i
    ensures Bit(n, Source(little, offset, bits, p)) == Bit(ShiftRight(n, if little then bits - i - w else i), p - i)
  {
    PieceIs(offset, bits, i, w, p);
    BitShiftRight(n, if little then bits - i - w else i, p - i);
  }

  // ---------- what a read fetches ----------

  /** n holds the first `done` bits of the field, later pieces still to be joined. */
  ghost predicate Fetched(b: seq<byte>, little: bool, offset: nat, bits: nat, n: nat, done: nat)
  {
    && done <= bits && offset + bits <= 8 * |b|
    && (forall k: nat :: k >= done ==> Bit(n, k) == 0)
    && forall p: nat :: p < done ==>
         var q := Source(little, offset, bits, p) - (if little then bits - done else 0);
         q >= 0 && Bit(n, q) == BitAt(b, offset + p)
  }

  lemma FetchedNothing(b: seq<byte>, little: bool, offset: nat, bits: nat)
    requires offset + bits <= 8 * |b|
    ensures Fetched(b, little, offset, bits, 0, 0)
  {
    forall k: nat ensures Bit(0, k) == 0 { BitOfZero(k); }
  }

  lemma FetchStep(b: seq<byte>, little: bool, offset: nat, bits: nat, n: nat, i: nat, w: nat, value: nat)
    requires Fetched(b, little, offset, bits, n, i) && i < bits
    requires i == 0 || (offset + i) % 8 == 0
    requires w == if 8 - (offset + i) % 8 < bits - i then 8 - (offset + i) % 8 else bits - i
    requires value == Extract(b[(offset + i) / 8], (offset + i) % 8, w)
    ensures w > 0 && i + w <= bits && (i + w == bits || (offset + i + w) % 8 == 0)
    ensures Fetched(b, little, offset, bits, Join(little, n, i, value, w), i + w)
  {
    hide Source, Extract, Join, BitAt, PieceStart, PieceEnd, Bit;
    PieceIs(offset, bits, i, w, i);
    PieceIsShort(b[(offset + i) / 8], (offset + i) % 8, w);
    JoinIsShort(little, n, i, value, w);
    forall p: nat | p < i + w
      ensures var q := Source(little, offset, bits, p) - (if little then bits - i - w else 0);
              q >= 0 && Bit(Join(little, n, i, value, w), q) == BitAt(b, offset + p)
    {
      FetchBit(b, little, offset, bits, n, i, w, value, p);
    }
  }

  lemma PieceIsShort(b: byte, used: nat, w: nat)
    ensures forall k: nat :: k >= w ==> Bit(Extract(b, used, w), k) == 0
  {
    forall k: nat | k >= w ensures Bit(Extract(b, used, w), k) == 0 { ExtractBits(b, used, w, k); }
  }

  lemma JoinIsShort(little: bool, n: nat, i: nat, value: nat, w: nat)
    requires (forall j: nat :: j >= i ==> Bit(n, j) == 0) && (forall j: nat :: j >= w ==> Bit(value, j) == 0)
    ensures forall k: nat :: k >= i + w ==> Bit(Join(little, n, i, value, w), k) == 0
  {
    forall k: nat | k >= i + w ensures Bit(Join(little, n, i, value, w), k) == 0 {
      hide Join, Bit;
      JoinBits(little, n, i, value, w, k);
    }
  }

  /** Where the bit p of the field is after one round of the loop of `read`. */
  lemma FetchBit(b: seq<byte>, little: bool, offset: nat, bits: nat, n: nat, i: nat, w: nat, value: nat, p: nat)
    requires Fetched(b, little, offset, bits, n, i) && i < bits && p < i + w
    requires i == 0 || (offset + i) % 8 == 0
    requires w == if 8 - (offset + i) % 8 < bits - i then 8 - (offset + i) % 8 else bits - i
    requires value == Extract(b[(offset + i) / 8], (offset + i) % 8, w)
    requires forall k: nat :: k >= w ==> Bit(value, k) == 0
    ensures var q := Source(little, offset, bits, p) - (if little then bits - i - w else 0);
            q >= 0 && Bit(Join(little, n, i, value, w), q) == BitAt(b, offset + p)
  {
    if p >= i {
      PieceIs(offset, bits, i, w, p);
      ExtractBits(b[(offset + i) / 8], (offset + i) % 8, w, p - i);
      JoinBits(little, n, i, value, w, if little then p - i else p);
    } else {
      hide Source, Join, Extract;
      JoinBits(little, n, i, value, w, Source(little, offset, bits, p) - (if little then bits - i - w else 0));
    }
  }

  lemma FetchedAll(b: seq<byte>, little: bool, offset: nat, bits: nat, n: nat)
    requires Fetched(b, little, offset, bits, n, bits)
    ensures n < Pow2(bits) && Stored(b, little, offset, bits, n, bits)
  {
    SmallFromBits(n, bits);
  }

  // ---------- main results ----------

  /** Writing and reading the same width at the same offset, in either mode:
      whatever was written, its value modulo 2^bits is read. */
  lemma ReadBack(b: seq<byte>, little: bool, offset: nat, bits: nat, written: nat, got: nat)
    requires Stored(b, little, offset, bits, written, bits)
    requires got < Pow2(bits) && Stored(b, little, offset, bits, got, bits)
    ensures got == written % Pow2(bits)
  {
    forall k: nat | k < bits ensures Bit(got, k) == Bit(written % Pow2(bits), k) {
      var p := SourceIsOnto(little, offset, bits, k);
      assert BitAt(b, offset + p) == Bit(got, k) == Bit(written, k);
      BitMod(written, bits, k);
    }
    SameBits(got, written % Pow2(bits), bits);
  }

  /** A field survives any write beside it. */
  lemma FieldSurvives(b: seq<byte>, b': seq<byte>, little: bool, offset: nat, bits: nat, n: nat, at: nat, width: nat)
    requires Stored(b, little, offset, bits, n, bits) && Untouched(b', b, at, width)
    requires at + width <= offset || offset + bits <= at
    ensures Stored(b', little, offset, bits, n, bits)
  {
    forall p: nat | p < bits ensures BitAt(b', offset + p) == Bit(n, Source(little, offset, bits, p)) {}
  }

  /** The number spelled by a stretch of stored bits, low bits first. */
  ghost function Slice(b: seq<byte>, offset: nat, bits: nat): nat
    requires offset + bits <= 8 * |b|
    decreases bits
  {
    if bits == 0 then 0 else BitAt(b, offset) + 2 * Slice(b, offset + 1, bits - 1)
  }

  lemma {:induction false} SliceBits(b: seq<byte>, offset: nat, bits: nat, k: nat)
    requires offset + bits <= 8 * |b|
    ensures Slice(b, offset, bits) < Pow2(bits)
    ensures Bit(Slice(b, offset, bits), k) == if k < bits then BitAt(b, offset + k) else 0
    decreases bits
  {
    if bits == 0 {
      BitOfZero(k);
    } else {
      SliceBits(b, offset + 1, bits - 1, if k == 0 then 0 else k - 1);
      hide Slice;
      BitOfTwice(BitAt(b, offset), Slice(b, offset + 1, bits - 1), k);
    }
  }

  lemma BitOfTwice(low: nat, x: nat, k: nat)
    requires low <= 1
    ensures Bit(low + 2 * x, k) == if k == 0 then low else Bit(x, k - 1)
  {
  }

  /** In plain mode a read returns the slice of the stored bits it covers. */
  lemma PlainReadIsSlice(b: seq<byte>, offset: nat, bits: nat, got: nat)
    requires got < Pow2(bits) && Stored(b, false, offset, bits, got, bits)
    ensures got == Slice(b, offset, bits)
  {
    SliceBits(b, offset, bits, 0);
    forall k: nat | k < bits ensures Bit(got, k) == Bit(Slice(b, offset, bits), k) {
      SliceBits(b, offset, bits, k);
      assert BitAt(b, offset + k) == Bit(got, Source(false, offset, bits, k));
    }
    SameBits(got, Slice(b, offset, bits), bits);
  }

  /** Splitting one read into two returns the low and the high part. */
  lemma {:induction false} SliceSplits(b: seq<byte>, offset: nat, low: nat, high: nat)
    requires offset + low + high <= 8 * |b|
    ensures Slice(b, offset, low + high) == Slice(b, offset, low) + Pow2(low) * Slice(b, offset + low, high)
    decreases low
  {
    hide *;
    var h := Slice(b, offset + low, high);
    if low == 0 {
      SliceNothing(b, offset);
    } else {
      SliceUnfolds(b, offset, low);
      SliceUnfolds(b, offset, low + high);
      SliceSplits(b, offset + 1, low - 1, high);
      PowDoubles(low, h);
    }
  }

  lemma SliceNothing(b: seq<byte>, offset: nat)
    requires offset <= 8 * |b|
    ensures Slice(b, offset, 0) == 0 && Pow2(0) == 1
  {
  }

  lemma SliceUnfolds(b: seq<byte>, offset: nat, bits: nat)
    requires offset + bits <= 8 * |b| && bits > 0
    ensures Slice(b, offset, bits) == BitAt(b, offset) + 2 * Slice(b, offset + 1, bits - 1)
  {
  }

  lemma PowDoubles(k: nat, x: nat)
    requires k > 0
    ensures Pow2(k) * x == 2 * (Pow2(k - 1) * x)
  {
    assert Pow2(k) == 2 * Pow2(k - 1);
    Double(Pow2(k - 1), x);
  }

  lemma Double(p: nat, x: nat)
    ensures 2 * (p * x) == (2 * p) * x
  {
  }

  /** However the bits are divided into consecutive reads, the results put
      together are the one long slice. */
  ghost function Pieces(b: seq<byte>, offset: nat, widths: seq<nat>): int
    requires offset + Total(widths) <= 8 * |b|
    decreases widths
  {
    if widths == [] then 0 else
      Slice(b, offset, widths[0]) + Pow2(widths[0]) * Pieces(b, offset + widths[0], widths[1..])
  }

  ghost function Total(widths: seq<nat>): nat
  {
    if widths == [] then 0 else widths[0] + Total(widths[1..])
  }

  lemma {:induction false} AnySplit(b: seq<byte>, offset: nat, widths: seq<nat>)
    requires offset + Total(widths) <= 8 * |b|
    ensures Pieces(b, offset, widths) == Slice(b, offset, Total(widths))
    decreases widths
  {
    if widths != [] {
      TotalUnfolds(widths);
      PiecesUnfold(b, offset, widths);
      hide *;
      AnySplit(b, offset + widths[0], widths[1..]);
      SliceSplits(b, offset, widths[0], Total(widths[1..]));
    }
  }

  lemma TotalUnfolds(widths: seq<nat>)
    requires widths != []
    ensures Total(widths) == widths[0] + Total(widths[1..])
  {
  }

  lemma PiecesUnfold(b: seq<byte>, offset: nat, widths: seq<nat>)
    requires widths != [] && offset + Total(widths) <= 8 * |b|
    ensures offset + widths[0] + Total(widths[1..]) <= 8 * |b|
    ensures Pieces(b, offset, widths) ==
            Slice(b, offset, widths[0]) + Pow2(widths[0]) * Pieces(b, offset + widths[0], widths[1..])
  {
    hide Slice, Pow2;
  }

  // ---------- runs of calls ----------

  /** Where the i-th of consecutive fields starts, counted from the first. */
  ghost function Before(widths: seq<nat>, i: nat): nat
    requires i <= |widths|
  {
    if i == 0 then 0 else Before(widths, i - 1) + widths[i - 1]
  }

  lemma {:induction false} BeforeGrows(widths: seq<nat>, i: nat, j: nat)
    requires i < j <= |widths|
    ensures Before(widths, i) + widths[i] <= Before(widths, j)
    decreases j
  {
    if i < j - 1 { BeforeGrows(widths, i, j - 1); }
  }

  lemma {:induction false} BeforeTail(widths: seq<nat>, i: nat)
    requires 0 < i <= |widths|
    ensures Before(widths, i) == widths[0] + Before(widths[1..], i - 1)
  {
    if i > 1 { BeforeTail(widths, i - 1); }
  }

  lemma {:induction false} BeforeAll(widths: seq<nat>)
    ensures Before(widths, |widths|) == Total(widths)
  {
    if widths != [] {
      BeforeAll(widths[1..]);
      BeforeTail(widths, |widths|);
    }
  }

  /** The i-th of consecutive fields is stored. */
  ghost predicate FieldStored(b: seq<byte>, little: bool, offset: nat, widths: seq<nat>, ns: seq<nat>, i: nat)
    requires i < |widths| && i < |ns|
  {
    Stored(b, little, offset + Before(widths, i), widths[i], ns[i], widths[i])
  }

  ghost predicate AllStored(b: seq<byte>, little: bool, offset: nat, widths: seq<nat>, ns: seq<nat>, done: nat)
    requires done <= |widths| && done <= |ns|
  {
    forall i: nat :: i < done ==> FieldStored(b, little, offset, widths, ns, i)
  }

  /** Every field must be one that the calls accept. */
  ghost predicate WidthsOk(widths: seq<nat>) { forall i :: 0 <= i < |widths| ==> WidthOk(widths[i]) }

  lemma FieldKept(b: seq<byte>, b': seq<byte>, little: bool, offset: nat, widths: seq<nat>, ns: seq<nat>, i: nat, j: nat)
    requires i < j < |widths| == |ns| && FieldStored(b, little, offset, widths, ns, i)
    requires Untouched(b', b, offset + Before(widths, j), widths[j])
    ensures FieldStored(b', little, offset, widths, ns, i)
  {
    hide Stored, Untouched, Before;
    BeforeGrows(widths, i, j);
    FieldSurvives(b, b', little, offset + Before(widths, i), widths[i], ns[i], offset + Before(widths, j), widths[j]);
  }

  lemma StoredSurvive(b: seq<byte>, b': seq<byte>, little: bool, offset: nat, widths: seq<nat>, ns: seq<nat>, done: nat)
    requires done < |widths| == |ns| && AllStored(b, little, offset, widths, ns, done)
    requires Untouched(b', b, offset + Before(widths, done), widths[done])
    requires FieldStored(b', little, offset, widths, ns, done)
    ensures AllStored(b', little, offset, widths, ns, done + 1)
  {
    hide FieldStored, Untouched, Before;
    forall i: nat | i < done ensures FieldStored(b', little, offset, widths, ns, i) {
      FieldKept(b, b', little, offset, widths, ns, i, done);
    }
  }

  /** Appends fields one after another. */
  method AppendAll(st: Stream, ns: seq<nat>, widths: seq<nat>)
    requires st.Valid() && |ns| == |widths| && WidthsOk(widths)
    requires st.nbits + Before(widths, |widths|) <= 8 * st.buffer.Length
    modifies st`nbits, st`offset, st.buffer
    ensures st.Valid() && st.nbits == old(st.nbits) + Before(widths, |widths|)
    ensures AllStored(st.buffer[..], st.little, old(st.nbits), widths, ns, |widths|)
  {
    hide Stored, Untouched, AllStored;
    ghost var start := st.nbits;
    NoneStored(st.buffer[..], st.little, start, widths, ns);
    for i := 0 to |widths|
      invariant st.Valid() && st.nbits == start + Before(widths, i)
      invariant AllStored(st.buffer[..], st.little, start, widths, ns, i)
    {
      BeforeFits(widths, i + 1);
      ghost var was := st.buffer[..];
      st.Append(ns[i], widths[i]);
      assert FieldStored(st.buffer[..], st.little, start, widths, ns, i);
      StoredSurvive(was, st.buffer[..], st.little, start, widths, ns, i);
    }
  }

  lemma NoneStored(b: seq<byte>, little: bool, offset: nat, widths: seq<nat>, ns: seq<nat>)
    requires |widths| == |ns|
    ensures AllStored(b, little, offset, widths, ns, 0)
  {
  }

  lemma BeforeFits(widths: seq<nat>, i: nat)
    requires i <= |widths|
    ensures Before(widths, i) <= Before(widths, |widths|)
  {
    if i < |widths| { BeforeGrows(widths, i, |widths|); }
  }

  /** What consecutive reads of the given widths return. */
  ghost predicate AllRead(b: seq<byte>, little: bool, offset: nat, widths: seq<nat>, got: seq<nat>, done: nat)
    requires done <= |widths| && done <= |got|
  {
    forall i: nat :: i < done ==> got[i] < Pow2(widths[i]) && FieldStored(b, little, offset, widths, got, i)
  }

  lemma ReadTail(b: seq<byte>, little: bool, offset: nat, widths: seq<nat>, got: seq<nat>)
    requires |got| == |widths| > 0 && AllRead(b, little, offset, widths, got, |widths|)
    ensures AllRead(b, little, offset + widths[0], widths[1..], got[1..], |widths| - 1)
    ensures got[0] < Pow2(widths[0]) && Stored(b, little, offset, widths[0], got[0], widths[0])
  {
    hide Stored, Pow2;
    assert FieldStored(b, little, offset, widths, got, 0) && Before(widths, 0) == 0;
    forall i: nat | i < |widths| - 1
      ensures got[1..][i] < Pow2(widths[1..][i]) && FieldStored(b, little, offset + widths[0], widths[1..], got[1..], i)
    {
      BeforeTail(widths, i + 1);
      assert FieldStored(b, little, offset, widths, got, i + 1);
    }
  }

  /** The results of consecutive reads put together, the first one lowest. */
  ghost function Combined(got: seq<nat>, widths: seq<nat>): int
    requires |got| == |widths|
    decreases widths
  {
    if widths == [] then 0 else got[0] + Pow2(widths[0]) * Combined(got[1..], widths[1..])
  }

  lemma {:induction false} PlainReadsCombine(b: seq<byte>, offset: nat, widths: seq<nat>, got: seq<nat>)
    requires |got| == |widths| && offset + Total(widths) <= 8 * |b| && AllRead(b, false, offset, widths, got, |widths|)
    ensures Combined(got, widths) == Pieces(b, offset, widths)
    decreases widths
  {
    if widths != [] {
      TotalUnfolds(widths);
      PiecesUnfold(b, offset, widths);
      hide *;
      ReadTail(b, false, offset, widths, got);
      PlainReadsCombine(b, offset + widths[0], widths[1..], got[1..]);
      PlainReadIsSlice(b, offset, widths[0], got[0]);
      CombinedUnfolds(got, widths);
    }
  }

  lemma CombinedUnfolds(got: seq<nat>, widths: seq<nat>)
    requires |got| == |widths| > 0
    ensures Combined(got, widths) == got[0] + Pow2(widths[0]) * Combined(got[1..], widths[1..])
  {
    hide Pow2;
  }

  /** Reads one width after another; in plain mode the results are the pieces of
      the one long read. */
  method ReadAll(st: Stream, widths: seq<nat>) returns (got: seq<nat>)
    requires st.Valid() && WidthsOk(widths) && st.offset + Before(widths, |widths|) <= 8 * st.buffer.Length
    modifies st`offset
    ensures st.Valid() && |got| == |widths| && st.offset == old(st.offset) + Before(widths, |widths|)
    ensures AllRead(st.buffer[..], st.little, old(st.offset), widths, got, |widths|)
    ensures old(st.offset) + Total(widths) <= 8 * st.buffer.Length
    ensures !st.little ==> Combined(got, widths) == Pieces(st.buffer[..], old(st.offset), widths)
                        == Slice(st.buffer[..], old(st.offset), Total(widths))
  {
    hide Stored, Pow2, Pieces, Combined, Slice, Total, AllRead;
    got := [];
    NoneRead(st.buffer[..], st.little, st.offset, widths);
    ghost var start := st.offset;
    for i := 0 to |widths|
      invariant st.Valid() && |got| == i && st.offset == start + Before(widths, i)
      invariant AllRead(st.buffer[..], st.little, start, widths, got, i)
    {
      BeforeFits(widths, i + 1);
      var n := st.Read(widths[i]);
      ReadMore(st.buffer[..], st.little, start, widths, got, n);
      got := got + [n];
    }
    BeforeAll(widths);
    AnySplit(st.buffer[..], start, widths);
    if !st.little { PlainReadsCombine(st.buffer[..], start, widths, got); }
  }

  lemma NoneRead(b: seq<byte>, little: bool, offset: nat, widths: seq<nat>)
    ensures AllRead(b, little, offset, widths, [], 0)
  {
  }

  lemma ReadMore(b: seq<byte>, little: bool, offset: nat, widths: seq<nat>, got: seq<nat>, n: nat)
    requires |got| < |widths| && AllRead(b, little, offset, widths, got, |got|)
    requires n < Pow2(widths[|got|]) && Stored(b, little, offset + Before(widths, |got|), widths[|got|], n, widths[|got|])
    ensures AllRead(b, little, offset, widths, got + [n], |got| + 1)
  {
    hide Stored, Pow2, Before;
    forall i: nat | i < |got| ensures FieldStored(b, little, offset, widths, got + [n], i) {
      assert FieldStored(b, little, offset, widths, got, i);
    }
  }

  /** In both modes: fields appended one after another are all read back, each
      modulo two to its width. */
  method AppendAndReadBack(st: Stream, ns: seq<nat>, widths: seq<nat>) returns (got: seq<nat>)
    requires st.Valid() && |ns| == |widths| && WidthsOk(widths)
    requires st.nbits + Before(widths, |widths|) <= 8 * st.buffer.Length
    modifies st`nbits, st`offset, st.buffer
    ensures st.Valid() && |got| == |ns|
    ensures forall i :: 0 <= i < |ns| ==> got[i] == ns[i] % Pow2(widths[i])
  {
    hide Stored, Pow2, Before;
    var start := st.nbits;
    AppendAll(st, ns, widths);
    st.Seek(start);
    got := ReadAll(st, widths);
    forall i: nat | i < |ns| ensures got[i] == ns[i] % Pow2(widths[i]) {
      assert FieldStored(st.buffer[..], st.little, start, widths, ns, i);
      assert FieldStored(st.buffer[..], st.little, start, widths, got, i);
      ReadBack(st.buffer[..], st.little, start + Before(widths, i), widths[i], ns[i], got[i]);
    }
  }
}
