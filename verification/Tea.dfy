/** The block cipher of cpp/release/tea.cpp. */
module Tea {
  /* The cipher works on 32-bit words; byte strings are framed by a two-byte
     length and cut into blocks.  A round mixes the two halves of a block, and
     every addition and subtraction wraps around at 2^32, which is why a round
     can be undone by subtracting in the opposite order what was added.  The
     specification is generalised to any number of rounds; the methods fix it at
     sixteen and are proved against it, first on a block, then in place on a
     buffer, then on framed messages. */

  import opened Bytes
  import Bits

  const WORD := 0x1_0000_0000

  type word = x: int | 0 <= x < 0x1_0000_0000

  datatype Key = Key(a: word, b: word, c: word, d: word)

  datatype Block = Block(y: word, z: word)

  /** Addition and subtraction of 32-bit unsigned integers wrap around. */
  function Plus(a: int, b: int): word { (a + b) % WORD }

  function Minus(a: int, b: int): word { (a - b) % WORD }

  /** The right-hand side common to the four updates: v is the other half of the
      block, `mix` and `add` two of the key words. */
  function Mix(v: word, sum: word, mix: word, add: word): word
  {
    Plus(Plus(Plus((v * 16) % WORD, Bits.Xor(mix, v)), Bits.Xor(sum, v / 32)), add)
  }

  const DELTA: word := 0x9E3779B9

  function EncRound(v: Block, sum: word, k: Key): Block
  {
    var y := Plus(v.y, Mix(v.z, sum, k.a, k.b));
    Block(y, Plus(v.z, Mix(y, sum, k.c, k.d)))
  }

  function DecRound(v: Block, sum: word, k: Key): Block
  {
    var z := Minus(v.z, Mix(v.y, sum, k.c, k.d));
    Block(Minus(v.y, Mix(z, sum, k.a, k.b)), z)
  }

  /** delta added up n times. */
  function RoundSum(n: nat): word { if n == 0 then 0 else Plus(RoundSum(n - 1), DELTA) }

  /** n rounds of encipherment. */
  ghost function Enc(v: Block, k: Key, n: nat): Block
    decreases n
  {
    if n == 0 then v else EncRound(Enc(v, k, n - 1), RoundSum(n), k)
  }

  /** n rounds of decipherment, the sum counting down from n deltas. */
  ghost function Dec(v: Block, k: Key, n: nat): Block
    decreases n
  {
    if n == 0 then v else Dec(DecRound(v, RoundSum(n), k), k, n - 1)
  }

  lemma PlusMinus(a: word, f: word)
    ensures Minus(Plus(a, f), f) == a && Plus(Minus(a, f), f) == a
  {
  }

  lemma RoundsInvert(v: Block, sum: word, k: Key)
    ensures DecRound(EncRound(v, sum, k), sum, k) == v
    ensures EncRound(DecRound(v, sum, k), sum, k) == v
  {
    hide Mix, Plus, Minus;
    var e, d := EncRound(v, sum, k), DecRound(v, sum, k);
    PlusMinus(v.y, Mix(v.z, sum, k.a, k.b));
    PlusMinus(v.z, Mix(e.y, sum, k.c, k.d));
    PlusMinus(v.z, Mix(v.y, sum, k.c, k.d));
    PlusMinus(v.y, Mix(d.z, sum, k.a, k.b));
  }

  /** For every key, block and number of rounds the two loops undo each other. */
  lemma {:induction false} DecipherUndoesEncipher(v: Block, k: Key, n: nat)
    ensures Dec(Enc(v, k, n), k, n) == v
    ensures Enc(Dec(v, k, n), k, n) == v
    decreases n
  {
    hide EncRound, DecRound, RoundSum;
    if n > 0 {
      RoundsInvert(Enc(v, k, n - 1), RoundSum(n), k);
      DecipherUndoesEncipher(v, k, n - 1);
      DecipherUndoesEncipher(DecRound(v, RoundSum(n), k), k, n - 1);
      RoundsInvert(v, RoundSum(n), k);
    }
  }

  // ---------- the rounds, bit by bit ----------

  /** x is a ^ (v >> shift) on 32 bits. */
  ghost predicate IsXor(x: word, a: word, v: word, shift: nat)
  {
    forall i: nat :: i < 32 ==> Bits.Bit(x, i) == (Bits.Bit(a, i) + Bits.Bit(v, i + shift)) % 2
  }

  /** One assignment of a round: half goes up by (v << 4) + (mix ^ v) + (sum ^ (v >> 5)) + add. */
  ghost predicate Updated(before: word, after: word, v: word, sum: word, mix: word, add: word)
  {
    exists x: word, y: word :: IsXor(x, mix, v, 0) && IsXor(y, sum, v, 5) &&
      after == (before + 16 * v + x + y + add) % 0x1_0000_0000
  }

  /** Both halves in turn, the second from the new first. */
  ghost predicate IsRound(before: Block, after: Block, sum: word, k: Key)
  {
    && Updated(before.y, after.y, before.z, sum, k.a, k.b)
    && Updated(before.z, after.z, after.y, sum, k.c, k.d)
  }

  /** n rounds lead from v to r, the sum growing by delta from zero. */
  ghost predicate IsCourse(course: seq<Block>, v: Block, r: Block, k: Key, n: nat)
  {
    && |course| == n + 1 && course[0] == v && course[n] == r
    && forall i :: 0 <= i < n ==> IsRound(course[i], course[i + 1], (i + 1) * 0x9E3779B9 % 0x1_0000_0000, k)
  }

  /** r comes out of v by n rounds. */
  ghost predicate IsEnciphered(v: Block, r: Block, k: Key, n: nat)
  {
    exists course: seq<Block> :: IsCourse(course, v, r, k, n)
  }

  lemma WordBits(x: nat)
    ensures x < Bits.Pow2(32) <==> x < WORD
  {
    assert Bits.Pow2(8) == 256;
    assert Bits.Pow2(16) == 65536;
    assert Bits.Pow2(24) == 16777216;
  }

  /** The bits say what an exclusive or is. */
  lemma XorOfBits(x: word, a: word, v: word)
    ensures IsXor(x, a, v, 0) <==> x == Bits.Xor(a, v)
    ensures IsXor(x, a, v, 5) <==> x == Bits.Xor(a, v / 32)
  {
    OneXor(x, a, v, v, 0);
    forall i: nat ensures Bits.Bit(v / 32, i) == Bits.Bit(v, i + 5) { FiveOn(v, i); }
    OneXor(x, a, v, v / 32, 5);
  }

  lemma FiveOn(v: word, i: nat)
    ensures Bits.Bit(v / 32, i) == Bits.Bit(v, i + 5)
  {
    Bits.BitShiftRight(v, 5, i);
    assert Bits.ShiftRight(v, 5) == v / 32;
  }

  lemma OneXor(x: word, a: word, v: word, shifted: word, shift: nat)
    requires forall i: nat :: Bits.Bit(shifted, i) == Bits.Bit(v, i + shift)
    ensures IsXor(x, a, v, shift) <==> x == Bits.Xor(a, shifted)
  {
    hide Bits.Bit, Bits.Pow2, Bits.Xor;
    var r := Bits.Xor(a, shifted);
    forall i: nat ensures Bits.Bit(r, i) == (Bits.Bit(a, i) + Bits.Bit(v, i + shift)) % 2 { Bits.BitXor(a, shifted, i); }
    WordBits(a);
    WordBits(shifted);
    WordBits(x);
    Bits.XorStaysBelow(a, shifted, 32);
    if IsXor(x, a, v, shift) { Bits.SameBits(x, r, 32); }
  }

  lemma MixUpdates(before: word, after: word, v: word, sum: word, mix: word, add: word)
    ensures Updated(before, after, v, sum, mix, add) <==> after == Plus(before, Mix(v, sum, mix, add))
  {
    hide Bits.Xor, IsXor;
    var x, y := Bits.Xor(mix, v), Bits.Xor(sum, v / 32);
    SumOfFive(before, v, x, y, add);
    assert x < WORD && y < WORD by { XorIsWord(mix, v); XorIsWord(sum, v / 32); }
    XorOfBits(x, mix, v);
    XorOfBits(y, sum, v);
    if Updated(before, after, v, sum, mix, add) {
      var x': word, y': word :| IsXor(x', mix, v, 0) && IsXor(y', sum, v, 5) &&
        after == (before + 16 * v + x' + y' + add) % 0x1_0000_0000;
      XorOfBits(x', mix, v);
      XorOfBits(y', sum, v);
    }
  }

  lemma XorIsWord(a: word, b: word)
    ensures Bits.Xor(a, b) < WORD
  {
    WordBits(a);
    WordBits(b);
    Bits.XorStaysBelow(a, b, 32);
    WordBits(Bits.Xor(a, b));
  }

  /** Wrapping around once at the end is as good as after each addition. */
  lemma SumOfFive(before: word, v: word, x: nat, y: nat, add: word)
    ensures (before + 16 * v + x + y + add) % 0x1_0000_0000 ==
            Plus(before, Plus(Plus(Plus((v * 16) % WORD, x), y), add))
  {
  }

  /** A round is exactly what the bits say, and there is no other. */
  lemma RoundIsRound(before: Block, after: Block, sum: word, k: Key)
    ensures IsRound(before, after, sum, k) <==> after == EncRound(before, sum, k)
    ensures IsRound(before, after, sum, k) <==> before == DecRound(after, sum, k)
  {
    hide Mix, Plus, Updated;
    MixUpdates(before.y, after.y, before.z, sum, k.a, k.b);
    MixUpdates(before.z, after.z, after.y, sum, k.c, k.d);
    EncRoundIs(before, sum, k);
    RoundsInvert(before, sum, k);
    RoundsInvert(after, sum, k);
  }

  lemma {:induction false} SumOfDeltas(n: nat)
    ensures RoundSum(n) == n * 0x9E3779B9 % 0x1_0000_0000
  {
    if n > 0 {
      hide Plus;
      SumOfDeltas(n - 1);
      PlusWraps((n - 1) * 0x9E3779B9, DELTA);
    }
  }

  lemma PlusWraps(x: int, d: int)
    ensures Plus(x % WORD, d) == (x + d) % WORD
  {
  }

  /** The blocks met on the way. */
  lemma {:induction false} EncCourse(v: Block, k: Key, n: nat) returns (course: seq<Block>)
    ensures IsCourse(course, v, Enc(v, k, n), k, n)
    decreases n
  {
    hide IsRound, EncRound, RoundSum;
    if n == 0 {
      course := [v];
    } else {
      var front := EncCourse(v, k, n - 1);
      course := front + [Enc(v, k, n)];
      SumOfDeltas(n);
      RoundIsRound(Enc(v, k, n - 1), Enc(v, k, n), RoundSum(n), k);
    }
  }

  lemma EncIsEnciphered(v: Block, k: Key, n: nat)
    ensures IsEnciphered(v, Enc(v, k, n), k, n)
  {
    var course := EncCourse(v, k, n);
  }

  const ROUNDS: nat := 16

  method Encipher(v: Block, k: Key) returns (r: Block)
    ensures r == Enc(v, k, ROUNDS)
    ensures IsEnciphered(v, r, k, 16)
  {
    hide *;
    EncStart(v, k);
    var y, z, sum: word := v.y, v.z, 0;
    var n := ROUNDS;
    while n > 0
      invariant 0 <= n <= ROUNDS && sum == RoundSum(ROUNDS - n)
      invariant Block(y, z) == Enc(v, k, ROUNDS - n)
    {
      EncStep(v, k, ROUNDS - n + 1);
      NextSum(ROUNDS - n);
      n := n - 1;
      sum := Plus(sum, DELTA);
      EncRoundIs(Block(y, z), sum, k);
      y := Plus(y, Mix(z, sum, k.a, k.b));
      z := Plus(z, Mix(y, sum, k.c, k.d));
    }
    r := Block(y, z);
    EncIsEnciphered(v, k, ROUNDS);
  }

  lemma EncStart(v: Block, k: Key)
    ensures Block(v.y, v.z) == Enc(v, k, 0) && RoundSum(0) == 0 && ROUNDS == 16
  {
  }

  lemma EncStep(v: Block, k: Key, n: nat)
    ensures Enc(v, k, n) == if n == 0 then v else EncRound(Enc(v, k, n - 1), RoundSum(n), k)
  {
  }

  /** The block from which the rounds of encipherment lead to v. */
  method Decipher(v: Block, k: Key) returns (r: Block)
    ensures r == Dec(v, k, ROUNDS)
    ensures IsEnciphered(r, v, k, 16)
  {
    hide Dec, Mix, RoundSum, Minus, IsEnciphered, Enc;
    StartSum();
    var y, z, sum: word := v.y, v.z, 0xe3779b90;
    var n := ROUNDS;
    while n > 0
      invariant 0 <= n <= ROUNDS && sum == RoundSum(n)
      invariant Dec(Block(y, z), k, n) == Dec(v, k, ROUNDS)
    {
      DecStep(Block(y, z), k, n);
      SumStep(n);
      z := Minus(z, Mix(y, sum, k.c, k.d));
      y := Minus(y, Mix(z, sum, k.a, k.b));
      sum := Minus(sum, DELTA);
      n := n - 1;
    }
    r := Block(y, z);
    DecStep(r, k, 0);
    DecipherUndoesEncipher(v, k, ROUNDS);
    EncIsEnciphered(r, k, ROUNDS);
  }

  lemma DecStep(v: Block, k: Key, n: nat)
    ensures Dec(v, k, n) == if n == 0 then v else Dec(DecRound(v, RoundSum(n), k), k, n - 1)
  {
  }

  lemma EncRoundIs(v: Block, sum: word, k: Key)
    ensures var y := Plus(v.y, Mix(v.z, sum, k.a, k.b));
            EncRound(v, sum, k) == Block(y, Plus(v.z, Mix(y, sum, k.c, k.d)))
  {
    hide Plus, Mix;
  }

  lemma NextSum(n: nat)
    ensures RoundSum(n + 1) == Plus(RoundSum(n), DELTA)
  {
  }

  lemma SumStep(n: nat)
    requires n > 0
    ensures RoundSum(n - 1) == Minus(RoundSum(n), DELTA)
  {
    PlusMinus(RoundSum(n - 1), DELTA);
  }

  /** The literal `decipher` starts from is the sum after the last round. */
  lemma StartSum()
    ensures RoundSum(ROUNDS) == 0xe3779b90
  {
    hide RoundSum;
    SumOfDeltas(ROUNDS);
  }

  // ---------- whole messages ----------

  const GROUP: nat := 8

  /** Two words laid over eight bytes of the buffer. */
  function BlockOf(b: seq<byte>): Block
    requires |b| == 8
  {
    assert Pow256(4) == WORD by { assert Pow256(1) == 256 && Pow256(2) == 65536 && Pow256(3) == 16777216; }
    Block(Unsigned(b[..4]), Unsigned(b[4..]))
  }

  function BytesOf(v: Block): (b: seq<byte>)
    ensures |b| == 8
  {
    Low(v.y, 4) + Low(v.z, 4)
  }

  lemma BlockBytes(v: Block, b: seq<byte>)
    requires |b| == 8
    ensures BlockOf(BytesOf(v)) == v && BytesOf(BlockOf(b)) == b
  {
    assert Pow256(4) == WORD by { assert Pow256(1) == 256 && Pow256(2) == 65536 && Pow256(3) == 16777216; }
    UnsignedRoundTrip(v.y, 4);
    UnsignedRoundTrip(v.z, 4);
    assert BytesOf(v)[..4] == Low(v.y, 4) && BytesOf(v)[4..] == Low(v.z, 4);
    LowOfUnsigned(b[..4]);
    LowOfUnsigned(b[4..]);
    assert b == b[..4] + b[4..];
  }

  /** Each word stands in the buffer with its least significant byte first. */
  lemma BlockLayout(v: Block, j: nat)
    requires j < 4
    ensures BytesOf(v)[j] == v.y / Pow256(j) % 256 && BytesOf(v)[4 + j] == v.z / Pow256(j) % 256
  {
    LowByte(v.y, 4, j);
    LowByte(v.z, 4, j);
  }

  ghost function EncBlocks(k: Key, n: nat, d: seq<byte>): (r: seq<byte>)
    requires |d| % 8 == 0
    decreases |d|
    ensures |r| == |d|
  {
    if d == [] then [] else EncBlocks(k, n, d[..|d| - 8]) + BytesOf(Enc(BlockOf(d[|d| - 8..]), k, n))
  }

  ghost function DecBlocks(k: Key, n: nat, d: seq<byte>): (r: seq<byte>)
    requires |d| % 8 == 0
    decreases |d|
    ensures |r| == |d|
  {
    if d == [] then [] else DecBlocks(k, n, d[..|d| - 8]) + BytesOf(Dec(BlockOf(d[|d| - 8..]), k, n))
  }

  lemma {:induction false} DecBlocksUndoEncBlocks(k: Key, n: nat, d: seq<byte>)
    requires |d| % 8 == 0
    ensures DecBlocks(k, n, EncBlocks(k, n, d)) == d
    decreases |d|
  {
    if d != [] {
      hide EncBlocks, DecBlocks;
      DecBlocksUndoEncBlocks(k, n, d[..|d| - 8]);
      LastBlocks(k, n, d);
    }
  }

  /** The step of the induction: the last block comes back too. */
  lemma LastBlocks(k: Key, n: nat, d: seq<byte>)
    requires |d| % 8 == 0 && |d| > 0
    requires DecBlocks(k, n, EncBlocks(k, n, d[..|d| - 8])) == d[..|d| - 8]
    ensures DecBlocks(k, n, EncBlocks(k, n, d)) == d
  {
    hide *;
    var front, last := d[..|d| - 8], d[|d| - 8..];
    assert d == front + last && |front| % 8 == 0;
    BlockInverts(k, n, last);
    LastEncBlock(k, n, front, last);
    var e, b := EncBlocks(k, n, front), BytesOf(Enc(BlockOf(last), k, n));
    assert EncBlocks(k, n, d) == e + b;
    LastDecBlock(k, n, e, b);
  }

  lemma LastEncBlock(k: Key, n: nat, front: seq<byte>, last: seq<byte>)
    requires |front| % 8 == 0 && |last| == 8
    ensures EncBlocks(k, n, front + last) == EncBlocks(k, n, front) + BytesOf(Enc(BlockOf(last), k, n))
  {
    hide Enc, BlockOf, BytesOf;
    var e := front + last;
    assert e[..|e| - 8] == front && e[|e| - 8..] == last;
  }

  /** Block by block: the i-th group of eight bytes becomes its encipherment. */
  lemma {:induction false} BlockAt(k: Key, n: nat, d: seq<byte>, i: nat)
    requires |d| % 8 == 0 && 8 * i + 8 <= |d|
    ensures EncBlocks(k, n, d)[8 * i..8 * i + 8] == BytesOf(Enc(BlockOf(d[8 * i..8 * i + 8]), k, n))
    decreases |d|
  {
    hide Enc, BlockOf, BytesOf;
    var front := d[..|d| - 8];
    if 8 * i + 8 == |d| {
      assert d[|d| - 8..] == d[8 * i..8 * i + 8];
    } else {
      BlockAt(k, n, front, i);
      assert front[8 * i..8 * i + 8] == d[8 * i..8 * i + 8];
    }
  }

  lemma BlockInverts(k: Key, n: nat, b: seq<byte>)
    requires |b| == 8
    ensures BytesOf(Dec(BlockOf(BytesOf(Enc(BlockOf(b), k, n))), k, n)) == b
  {
    hide Enc, Dec, BlockOf, BytesOf;
    BlockBytes(Enc(BlockOf(b), k, n), b);
    DecipherUndoesEncipher(BlockOf(b), k, n);
  }

  lemma LastDecBlock(k: Key, n: nat, front: seq<byte>, last: seq<byte>)
    requires |front| % 8 == 0 && |last| == 8
    ensures DecBlocks(k, n, front + last) == DecBlocks(k, n, front) + BytesOf(Dec(BlockOf(last), k, n))
  {
    hide Dec, BlockOf, BytesOf;
    var e := front + last;
    assert e[..|e| - 8] == front && e[|e| - 8..] == last;
  }

  function Zeros(n: nat): (z: seq<byte>)
    ensures |z| == n && forall i :: 0 <= i < n ==> z[i] == 0
  {
    seq(n, _ => 0)
  }

  /** The number of bytes `encode` needs for a message of n bytes. */
  function Need(n: nat): nat { (n + 7) / 8 * 8 + 2 }

  lemma NeedIsEnough(n: nat)
    ensures n + 2 <= Need(n) < n + 10 && Need(n) % 8 == 2 && (Need(n) - 2) % 8 == 0
  {
  }

  function LengthBytes(n: nat): (b: seq<byte>)
    ensures |b| == 2
  {
    [n / 256 % 256, n % 256]
  }

  /** The length, high byte first, and the padded message in enciphered blocks. */
  ghost function Encoded(k: Key, n: nat, d: seq<byte>): (r: seq<byte>)
    ensures |r| == Need(|d|)
  {
    NeedIsEnough(|d|);
    LengthBytes(|d|) + EncBlocks(k, n, d + Zeros(Need(|d|) - 2 - |d|))
  }

  /** The i-th eight bytes of a message, zeros behind its end. */
  function Group(d: seq<byte>, i: nat): (g: seq<byte>)
    ensures |g| == 8
  {
    seq(8, j requires 0 <= j => if 8 * i + j < |d| then d[8 * i + j] else 0)
  }

  /** An encoded message is as long as the least whole number of blocks that holds
      the message, and begins with the message's length, high byte first. */
  lemma EncodedHead(k: Key, n: nat, d: seq<byte>)
    ensures var e := Encoded(k, n, d);
            && |e| % 8 == 2 && |d| + 2 <= |e| < |d| + 10
            && e[0] == |d| / 256 % 256 && e[1] == |d| % 256
  {
    hide EncBlocks, Need;
    NeedIsEnough(|d|);
  }

  /** Behind its head every group of the message is enciphered on its own. */
  lemma EncodedBlock(k: Key, n: nat, d: seq<byte>, i: nat)
    requires 8 * i < |d|
    ensures 8 * i + 10 <= Need(|d|)
    ensures Encoded(k, n, d)[8 * i + 2..8 * i + 10] == BytesOf(Enc(BlockOf(Group(d, i)), k, n))
  {
    hide EncBlocks, Enc, BlockOf, BytesOf, Need, Zeros, Group;
    NeedIsEnough(|d|);
    BlocksFit(|d|, i);
    var z := Need(|d|) - 2 - |d|;
    PaddedGroup(d, z, i);
    BlockAt(k, n, d + Zeros(z), i);
    BehindHead(LengthBytes(|d|), EncBlocks(k, n, d + Zeros(z)), 8 * i);
  }

  lemma PaddedGroup(d: seq<byte>, z: nat, i: nat)
    requires 8 * i + 8 <= |d| + z
    ensures (d + Zeros(z))[8 * i..8 * i + 8] == Group(d, i)
  {
  }

  lemma BlocksFit(n: nat, i: nat)
    requires 8 * i < n
    ensures 8 * i + 10 <= Need(n)
  {
  }

  lemma BehindHead(h: seq<byte>, b: seq<byte>, at: nat)
    requires |h| == 2 && at + 8 <= |b|
    ensures (h + b)[at + 2..at + 10] == b[at..at + 8]
  {
  }

  /** The length field of an encoded message. */
  function LengthField(e: seq<byte>): nat
    requires |e| >= 2
  {
    (e[0] as int) * 256 + (e[1] as int)
  }

  /** A message short enough for its length field survives the round trip. */
  lemma DecodeUndoesEncode(k: Key, n: nat, d: seq<byte>)
    requires |d| < 0x10000
    ensures var e := Encoded(k, n, d);
            && |e| >= 2 && (|e| - 2) % 8 == 0 && LengthField(e) == |d| <= |e| - 2
            && DecBlocks(k, n, e[2..])[..|d|] == d
  {
    hide EncBlocks, DecBlocks;
    var p := d + Zeros(Need(|d|) - 2 - |d|);
    var c := EncBlocks(k, n, p);
    assert Encoded(k, n, d)[2..] == c;
    DecBlocksUndoEncBlocks(k, n, p);
    assert p[..|d|] == d;
  }

  /** memcpy into the middle of an array. */
  method CopyInto(dst: array<byte>, at: nat, src: seq<byte>)
    requires at + |src| <= dst.Length
    modifies dst
    ensures dst[..] == old(dst[..at]) + src + old(dst[at + |src|..])
  {
    var i := 0;
    while i < |src|
      invariant 0 <= i <= |src|
      invariant dst[..at] == old(dst[..at])
      invariant dst[at..at + i] == src[..i]
      invariant dst[at + |src|..] == old(dst[at + |src|..])
    {
      dst[at + i] := src[i];
      assert dst[at..at + i + 1] == dst[at..at + i] + [src[i]];
      i := i + 1;
    }
    assert dst[..] == dst[..at] + dst[at..at + i] + dst[at + |src|..];
  }

  // ---------- the buffers ----------

  /** Enciphers the eight bytes at p in place. */
  method EncipherAt(buf: array<byte>, p: nat, k: Key)
    requires p + 8 <= buf.Length
    modifies buf
    ensures buf[..] == old(buf[..p]) + BytesOf(Enc(BlockOf(old(buf[p..p + 8])), k, ROUNDS)) + old(buf[p + 8..])
  {
    hide Enc, BlockOf, BytesOf;
    var v := Encipher(BlockOf(buf[p..p + 8]), k);
    CopyInto(buf, p, BytesOf(v));
  }

  method DecipherAt(buf: array<byte>, p: nat, k: Key)
    requires p + 8 <= buf.Length
    modifies buf
    ensures buf[..] == old(buf[..p]) + BytesOf(Dec(BlockOf(old(buf[p..p + 8])), k, ROUNDS)) + old(buf[p + 8..])
  {
    hide Dec, BlockOf, BytesOf;
    var v := Decipher(BlockOf(buf[p..p + 8]), k);
    CopyInto(buf, p, BytesOf(v));
  }

  /** The buffer is cut into a head, blocks dealt with, blocks to come and a tail. */
  ghost predicate Parts(buf: seq<byte>, head: seq<byte>, done: seq<byte>, todo: seq<byte>, tail: seq<byte>)
  {
    buf == head + done + todo + tail
  }

  /** Replacing the next block moves it from todo to done. */
  lemma ShiftBlock(buf: seq<byte>, head: seq<byte>, done: seq<byte>, todo: seq<byte>, tail: seq<byte>, block: seq<byte>)
    requires Parts(buf, head, done, todo, tail) && |todo| >= 8 && |block| == 8
    ensures var p := |head| + |done|;
            p + 8 <= |buf| && buf[p..p + 8] == todo[..8] &&
            Parts(buf[..p] + block + buf[p + 8..], head, done + block, todo[8..], tail)
  {
    var p := |head| + |done|;
    assert buf[..p] == head + done;
    assert buf[p + 8..] == todo[8..] + tail;
    assert buf[..p] + block + buf[p + 8..] == head + (done + block) + todo[8..] + tail;
  }

  lemma EmptyBlocks(k: Key, n: nat)
    ensures EncBlocks(k, n, []) == [] && DecBlocks(k, n, []) == []
  {
  }

  lemma NextBlock(d: seq<byte>, i: nat)
    requires 8 * (i + 1) <= |d|
    ensures |d[8 * i..]| >= 8 && d[..8 * i] + d[8 * i..][..8] == d[..8 * (i + 1)] && d[8 * i..][8..] == d[8 * (i + 1)..]
  {
  }

  /** The block loop of `encode` over the body that follows the head. */
  method EncipherAll(buf: array<byte>, k: Key, groups: nat, ghost head: seq<byte>, ghost body: seq<byte>, ghost tail: seq<byte>, at: nat)
    requires Parts(buf[..], head, [], body, tail) && |head| == at && |body| == 8 * groups
    modifies buf
    ensures Parts(buf[..], head, EncBlocks(k, ROUNDS, body), [], tail)
  {
    hide Parts, Enc, EncBlocks, BlockOf, BytesOf;
    EmptyBlocks(k, ROUNDS);
    assert body[..0] == [] && body[0..] == body;
    var p, i := at, 0;
    while i < groups
      invariant 0 <= i <= groups && p == at + 8 * i
      invariant Parts(buf[..], head, EncBlocks(k, ROUNDS, body[..8 * i]), body[8 * i..], tail)
    {
      ghost var todo := body[8 * i..];
      NextBlock(body, i);
      ShiftBlock(buf[..], head, EncBlocks(k, ROUNDS, body[..8 * i]), todo, tail, BytesOf(Enc(BlockOf(todo[..8]), k, ROUNDS)));
      EncipherAt(buf, p, k);
      LastEncBlock(k, ROUNDS, body[..8 * i], todo[..8]);
      p := p + GROUP;
      i := i + 1;
    }
    assert body[..8 * groups] == body && body[8 * groups..] == [];
  }

  method DecipherAll(buf: array<byte>, k: Key, groups: nat, ghost body: seq<byte>, ghost tail: seq<byte>)
    requires Parts(buf[..], [], [], body, tail) && |body| == 8 * groups
    modifies buf
    ensures Parts(buf[..], [], DecBlocks(k, ROUNDS, body), [], tail)
  {
    hide Parts, Dec, DecBlocks, BlockOf, BytesOf;
    EmptyBlocks(k, ROUNDS);
    assert body[..0] == [] && body[0..] == body;
    var p, i := 0, 0;
    while i < groups
      invariant 0 <= i <= groups && p == 8 * i
      invariant Parts(buf[..], [], DecBlocks(k, ROUNDS, body[..8 * i]), body[8 * i..], tail)
    {
      ghost var todo := body[8 * i..];
      NextBlock(body, i);
      ShiftBlock(buf[..], [], DecBlocks(k, ROUNDS, body[..8 * i]), todo, tail, BytesOf(Dec(BlockOf(todo[..8]), k, ROUNDS)));
      DecipherAt(buf, p, k);
      LastDecBlock(k, ROUNDS, body[..8 * i], todo[..8]);
      p := p + GROUP;
      i := i + 1;
    }
    assert body[..8 * groups] == body && body[8 * groups..] == [];
  }

  /** The length, the message and the zero bytes that fill the last block. */
  method Frame(indata: seq<byte>, outdata: array<byte>, needlen: nat)
    requires |indata| + 2 <= needlen <= outdata.Length
    modifies outdata
    ensures Parts(outdata[..], LengthBytes(|indata|), [],
                  indata + Zeros(needlen - 2 - |indata|), old(outdata[needlen..]))
  {
    hide Zeros, Parts;
    ghost var was := outdata[..];
    CopyInto(outdata, 0, LengthBytes(|indata|));
    CopyInto(outdata, 2, indata);
    CopyInto(outdata, |indata| + 2, Zeros(needlen - 2 - |indata|));
    ThreeCopies(was, LengthBytes(|indata|), indata, Zeros(needlen - 2 - |indata|));
  }

  lemma ThreeCopies(w0: seq<byte>, h: seq<byte>, d: seq<byte>, z: seq<byte>)
    requires |h| + |d| + |z| <= |w0|
    ensures var w1 := w0[..0] + h + w0[|h|..];
            var w2 := w1[..|h|] + d + w1[|h| + |d|..];
            var w3 := w2[..|h| + |d|] + z + w2[|h| + |d| + |z|..];
            Parts(w3, h, [], d + z, w0[|h| + |d| + |z|..])
  {
    var w1 := w0[..0] + h + w0[|h|..];
    assert w1[..|h|] == h && w1[|h| + |d|..] == w0[|h| + |d|..];
    var w2 := w1[..|h|] + d + w1[|h| + |d|..];
    assert w2[..|h| + |d|] == h + d && w2[|h| + |d| + |z|..] == w0[|h| + |d| + |z|..];
  }

  method Encode(k: Key, indata: seq<byte>, outdata: array<byte>) returns (len: nat)
    modifies outdata
    ensures Need(|indata|) > outdata.Length ==> len == 0 && outdata[..] == old(outdata[..])
    ensures Need(|indata|) <= outdata.Length ==>
              len == Need(|indata|) && outdata[..] == Encoded(k, ROUNDS, indata) + old(outdata[Need(|indata|)..])
  {
    hide EncBlocks;
    var groups := (|indata| + 7) / GROUP;
    var needlen := groups * GROUP + 2;
    if needlen > outdata.Length { return 0; }
    ghost var tail := outdata[needlen..];
    ghost var head, zeros := LengthBytes(|indata|), Zeros(needlen - 2 - |indata|);
    Frame(indata, outdata, needlen);
    EncipherAll(outdata, k, groups, head, indata + zeros, tail, 2);
    return needlen;
  }

  lemma OnlyBody(buf: seq<byte>, body: seq<byte>, tail: seq<byte>)
    ensures buf == body + tail ==> Parts(buf, [], [], body, tail)
    ensures [] + body + tail == body + tail
  {
  }

  lemma OnlyDone(buf: seq<byte>, done: seq<byte>, tail: seq<byte>)
    requires Parts(buf, [], done, [], tail)
    ensures buf == done + tail
  {
  }

  /** The caller provides a whole encoded message and room for its blocks. */
  method Decode(k: Key, indata: seq<byte>, outdata: array<byte>) returns (len: nat)
    requires |indata| >= 2 && |indata| - 2 <= outdata.Length
    modifies outdata
    ensures LengthField(indata) > outdata.Length || (|indata| - 2) % 8 != 0 ==> len == 0
    ensures LengthField(indata) <= outdata.Length && (|indata| - 2) % 8 == 0 ==>
              len == LengthField(indata) &&
              outdata[..] == DecBlocks(k, ROUNDS, indata[2..]) + old(outdata[|indata| - 2..])
  {
    hide DecBlocks, LengthField, Parts;
    var needlen := LengthField(indata);
    if needlen > outdata.Length { return 0; }
    if (|indata| - 2) % GROUP != 0 { return 0; }
    ghost var tail := outdata[|indata| - 2..];
    CopyInto(outdata, 0, indata[2..]);
    OnlyBody(outdata[..], indata[2..], tail);
    DecipherAll(outdata, k, (|indata| - 2) / GROUP, indata[2..], tail);
    OnlyDone(outdata[..], DecBlocks(k, ROUNDS, indata[2..]), tail);
    return needlen;
  }
}
