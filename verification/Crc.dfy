/**
 CRC-16/CCITT-FALSE: the byte-wise loop, the bit-serial register it amounts to, and the error bursts
 it detects.
 */
module Crc {
  import opened Bits
  import opened Bytes

  const POLY: nat := 0x1021

  type Register = r: int | 0 <= r < 0x1_0000

  // One shift of the register, as the source writes it.
  function ShiftWord(x: Register): nat
  {
    if And(x, 0x8000) != 0 then And(Xor(Shl(x, 1), POLY), 0xFFFF) else And(Shl(x, 1), 0xFFFF)
  }

  // The same in arithmetic: the top bit falls out, and takes the polynomial with it.
  function Shift(x: Register): (r: Register)
  {
    XorBound16(2 * (x % 0x8000), POLY);
    if x >= 0x8000 then Xor(2 * (x % 0x8000), POLY) else 2 * x
  }

  lemma XorBound16(a: nat, b: nat)
    requires a < 0x1_0000 && b < 0x1_0000
    ensures Xor(a, b) < 0x1_0000
  {
    Pow2Values();
    XorBound(a, b, 16);
  }

  lemma ShiftWordIsShift(x: Register)
    ensures ShiftWord(x) == Shift(x)
  {
    hide And, Xor;
    TopBit(x);
    DoubleMod(x);
    ShiftOut(2 * x, 2 * (x % 0x8000), POLY);
    LowHalf(Xor(2 * x, POLY));
    LowHalf(2 * x);
  }

  lemma DoubleMod(x: nat)
    ensures (2 * x) % 0x1_0000 == 2 * (x % 0x8000)
  {
  }

  lemma ShiftOut(y: nat, z: nat, p: nat)
    requires y % 0x1_0000 == z && p < 0x1_0000
    ensures Xor(y, p) % 0x1_0000 == Xor(z, p)
  {
    Pow2Values();
    XorModSmall(y, p, 16);
  }

  lemma TopBit(x: Register)
    ensures And(x, 0x8000) != 0 <==> x >= 0x8000
  {
    assert Pow2(1) == 2 && Pow2(15) == 0x8000 && Pow2(16) == 0x1_0000;
    ShlIsProduct(1, 15);
    AndHigh(x, 1, 15);
  }

  lemma LowHalf(n: nat)
    ensures And(n, 0xFFFF) == n % 0x1_0000
  {
    Pow2Values();
    AndLow(n, 16);
  }

  function Shifts(x: Register, k: nat): Register
    decreases k
  {
    if k == 0 then x else Shifts(Shift(x), k - 1)
  }

  function Mix(x: Register, y: Register): Register
  {
    XorBound16(x, y);
    Xor(x, y)
  }

  function Wide(b: Byte): Register { (b as int) * 256 }

  function ByteStep(crc: Register, b: Byte): Register { Shifts(Mix(crc, Wide(b)), 8) }

  function CrcFrom(crc: Register, data: seq<Byte>): Register
    decreases |data|
  {
    if data == [] then crc else CrcFrom(ByteStep(crc, data[0]), data[1..])
  }

  function Crc16(data: seq<Byte>): Register { CrcFrom(0xFFFF, data) }

  lemma {:induction false} ShiftsLast(x: Register, k: nat)
    ensures Shifts(x, k + 1) == Shift(Shifts(x, k))
    decreases k
  {
    if k > 0 { ShiftsLast(Shift(x), k - 1); }
  }

  // Eight conditional shifts.
  method ShiftByte(start: Register) returns (crc: Register)
    ensures crc == Shifts(start, 8)
  {
    crc := start;
    for k := 0 to 8
      invariant crc == Shifts(start, k)
    {
      ShiftsLast(start, k);
      ShiftWordIsShift(crc);
      crc := if And(crc, 0x8000) != 0 then And(Xor(Shl(crc, 1), POLY), 0xFFFF) else And(Shl(crc, 1), 0xFFFF);
    }
  }

  // The loop of the source over the bytes.
  method ComputeCrc16(data: seq<Byte>) returns (crc: Register)
    ensures crc == Crc16(data)
  {
    crc := 0xFFFF;
    for i := 0 to |data|
      invariant CrcFrom(crc, data[i..]) == Crc16(data)
    {
      crc := ShiftByte(Mix(crc, Wide(data[i])));
      assert data[i..][1..] == data[i + 1..];
    }
    assert data[|data|..] == [];
  }

  // ---- the register is linear and loses nothing ----

  lemma MixTop(x: Register, y: Register)
    ensures Mix(x, y) >= 0x8000 <==> ((x >= 0x8000) != (y >= 0x8000))
    ensures Mix(x, y) % 0x8000 == Xor(x % 0x8000, y % 0x8000)
  {
    assert Pow2(15) == 0x8000 && Pow2(15 + 1) == 0x1_0000;
    TopIsBit(x, 15);
    TopIsBit(y, 15);
    TopIsBit(Mix(x, y), 15);
    BitXor(x, y, 15);
    XorMod(x, y, 15);
  }

  function Folded(top: bool, low: nat): nat { if top then Xor(low, POLY) else low }

  lemma FoldedLinear(tx: bool, ty: bool, a: nat, b: nat)
    ensures Folded(tx != ty, Xor(a, b)) == Xor(Folded(tx, a), Folded(ty, b))
  {
    Regroup(a, b, POLY);
  }

  lemma ShiftLinear(x: Register, y: Register)
    ensures Shift(Mix(x, y)) == Mix(Shift(x), Shift(y))
  {
    var a, b, m := x % 0x8000, y % 0x8000, Mix(x, y);
    MixTop(x, y);
    XorDouble(a, b);
    FoldedLinear(x >= 0x8000, y >= 0x8000, 2 * a, 2 * b);
    ShiftIsFolded(x);
    ShiftIsFolded(y);
    ShiftIsFolded(m);
  }

  lemma ShiftIsFolded(x: Register)
    ensures Shift(x) == Folded(x >= 0x8000, 2 * (x % 0x8000))
  {
  }

  lemma Regroup(a: nat, b: nat, p: nat)
    ensures Xor(Xor(a, p), Xor(b, p)) == Xor(a, b)
    ensures Xor(Xor(a, p), b) == Xor(Xor(a, b), p)
    ensures Xor(a, Xor(b, p)) == Xor(Xor(a, b), p)
  {
    CancelPair(a, b, p);
    XorAssociates(a, b, p);
    XorAssociates(a, p, b);
    XorCommutes(b, p);
  }

  lemma CancelPair(a: nat, b: nat, p: nat)
    ensures Xor(Xor(a, p), Xor(b, p)) == Xor(a, b)
  {
    XorCommutes(b, p);
    XorAssociates(a, p, Xor(p, b));
    XorCancel(b, p);
  }

  lemma ShiftZero(x: Register)
    requires Shift(x) == 0
    ensures x == 0
  {
    if x >= 0x8000 {
      var y := 2 * (x % 0x8000);
      XorHalf(y, POLY);
    }
  }

  lemma MixSelf(x: Register, y: Register)
    ensures Mix(x, y) == 0 <==> x == y
  {
    XorSelf(x);
    XorCancel(x, y);
  }

  lemma ShiftInjective(x: Register, y: Register)
    requires Shift(x) == Shift(y)
    ensures x == y
  {
    ShiftLinear(x, y);
    MixSelf(Shift(x), Shift(y));
    ShiftZero(Mix(x, y));
    MixSelf(x, y);
  }

  lemma {:induction false} ShiftsInjective(x: Register, y: Register, k: nat)
    requires Shifts(x, k) == Shifts(y, k)
    ensures x == y
    decreases k
  {
    if k > 0 {
      ShiftsInjective(Shift(x), Shift(y), k - 1);
      ShiftInjective(x, y);
    }
  }

  lemma MixInjective(s: Register, x: Register, y: Register)
    requires Mix(s, x) == Mix(s, y)
    ensures x == y
  {
    XorCancel(x, s);
    XorCancel(y, s);
  }

  // ---- the register bit by bit ----

  function Top(bit: bool): Register { if bit then 0x8000 else 0 }

  function BitCrc(crc: Register, bits: seq<bool>): Register
    decreases |bits|
  {
    if bits == [] then crc else BitCrc(Shift(Mix(crc, Top(bits[0]))), bits[1..])
  }

  // The bits of a burst of at most 16, the first one on top.
  function Pack(bits: seq<bool>): Register
    decreases |bits|
  {
    if bits == [] then 0 else Top(bits[0]) + Pack(bits[1..]) / 2
  }

  lemma {:induction false} PackAligned(bits: seq<bool>, k: nat)
    requires |bits| + k <= 16
    ensures Pack(bits) % Pow2(k) == 0
    decreases |bits|
  {
    if bits != [] {
      var p, rest := Pow2(k), Pack(bits[1..]);
      PackAligned(bits[1..], k + 1);
      HalveMod(rest, p);
      TopAligned(bits[0], k);
      SumAligned(Top(bits[0]), rest / 2, p);
    } else {
      ModUnique(0, Pow2(k), 0, 0);
    }
  }

  lemma SumAligned(a: nat, b: nat, p: nat)
    requires p >= 1 && a % p == 0 && b % p == 0
    ensures (a + b) % p == 0
  {
    var qa, qb := a / p, b / p;
    assert a == p * qa && b == p * qb;
    assert a + b == p * (qa + qb);
    ModUnique(a + b, p, qa + qb, 0);
  }

  lemma TopAligned(bit: bool, k: nat)
    requires k <= 15
    ensures Top(bit) % Pow2(k) == 0
  {
    PowerSum(15 - k, k);
    assert Pow2(15) == 0x8000;
    ModUnique(0x8000, Pow2(k), Pow2(15 - k), 0);
    ModUnique(0, Pow2(k), 0, 0);
  }

  // Up to 16 bits can be fed at once.
  lemma {:induction false} BitsAtOnce(crc: Register, bits: seq<bool>)
    requires |bits| <= 16
    ensures BitCrc(crc, bits) == Shifts(Mix(crc, Pack(bits)), |bits|)
    decreases |bits|
  {
    if bits != [] {
      BitsAtOnce(Shift(Mix(crc, Top(bits[0]))), bits[1..]);
      PackAligned(bits[1..], 1);
      FeedStep(crc, bits[0], Pack(bits[1..]));
    } else {
      XorCommutes(crc, 0);
    }
  }

  lemma FeedStep(crc: Register, bit: bool, rest: Register)
    requires rest % 2 == 0
    ensures Mix(Shift(Mix(crc, Top(bit))), rest) == Shift(Mix(crc, Top(bit) + rest / 2))
  {
    var half := rest / 2;
    ShiftLinear(Mix(crc, Top(bit)), half);
    assert Shift(half) == rest;
    XorAssociates(crc, Top(bit), half);
    TopLane(bit, half);
  }

  lemma TopLane(bit: bool, half: nat)
    requires half < 0x8000
    ensures Xor(Top(bit), half) == Top(bit) + half
  {
    if bit {
      assert Pow2(15) == 0x8000;
      XorHighBit(half, 15);
    }
  }

  lemma {:induction false} XorHighBit(l: nat, k: nat)
    requires l < Pow2(k)
    ensures Xor(Pow2(k), l) == Pow2(k) + l
    decreases k
  {
    if k > 0 {
      XorHighBit(l / 2, k - 1);
      XorJoin(Pow2(k - 1), 0, l / 2, l % 2);
    }
  }

  lemma {:induction false} PackInjective(a: seq<bool>, b: seq<bool>)
    requires |a| == |b| <= 16 && Pack(a) == Pack(b)
    ensures a == b
    decreases |a|
  {
    if a != [] {
      PackAligned(a[1..], 1);
      PackAligned(b[1..], 1);
      PackInjective(a[1..], b[1..]);
      assert a == [a[0]] + a[1..] && b == [b[0]] + b[1..];
    }
  }

  lemma {:induction false} BitCrcConcat(crc: Register, a: seq<bool>, b: seq<bool>)
    ensures BitCrc(crc, a + b) == BitCrc(BitCrc(crc, a), b)
    decreases |a|
  {
    if a == [] {
      assert a + b == b;
    } else {
      BitCrcConcat(Shift(Mix(crc, Top(a[0]))), a[1..], b);
      assert (a + b)[1..] == a[1..] + b;
    }
  }

  // Different registers stay different over the same bits.
  lemma {:induction false} BitCrcInjective(x: Register, y: Register, bits: seq<bool>)
    requires BitCrc(x, bits) == BitCrc(y, bits)
    ensures x == y
    decreases |bits|
  {
    if bits != [] {
      var t := Top(bits[0]);
      BitCrcInjective(Shift(Mix(x, t)), Shift(Mix(y, t)), bits[1..]);
      ShiftInjective(Mix(x, t), Mix(y, t));
      XorCancel(x, t);
      XorCancel(y, t);
    }
  }

  // ---- messages ----

  // Most significant bit first.
  function NibbleBits(n: nat): (r: seq<bool>)
    ensures |r| == 4
  {
    [n / 8 % 2 == 1, n / 4 % 2 == 1, n / 2 % 2 == 1, n % 2 == 1]
  }

  function ByteBits(b: Byte): (r: seq<bool>)
    ensures |r| == 8
  {
    NibbleBits(b / 16) + NibbleBits(b % 16)
  }

  function MessageBits(data: seq<Byte>): (r: seq<bool>)
    ensures |r| == 8 * |data|
    decreases |data|
  {
    if data == [] then [] else ByteBits(data[0]) + MessageBits(data[1..])
  }

  lemma PackCons(bit: bool, rest: seq<bool>)
    ensures Pack([bit] + rest) == Top(bit) + Pack(rest) / 2
  {
    assert ([bit] + rest)[1..] == rest;
  }

  lemma PackFour(a: bool, b: bool, c: bool, d: bool, rest: seq<bool>)
    ensures Pack([a, b, c, d] + rest) == Top(a) + (Top(b) + (Top(c) + (Top(d) + Pack(rest) / 2) / 2) / 2) / 2
  {
    PackCons(d, rest);
    PackCons(c, [d] + rest);
    PackCons(b, [c] + ([d] + rest));
    PackCons(a, [b] + ([c] + ([d] + rest)));
    assert [a, b, c, d] + rest == [a] + ([b] + ([c] + ([d] + rest)));
  }

  lemma PackNibble(n: nat, rest: seq<bool>)
    requires n < 16 && Pack(rest) % 16 == 0
    ensures Pack(NibbleBits(n) + rest) == n * 4096 + Pack(rest) / 16
  {
    PackFour(n / 8 % 2 == 1, n / 4 % 2 == 1, n / 2 % 2 == 1, n % 2 == 1, rest);
    NibbleSum(n, Pack(rest) / 16);
  }

  lemma NibbleSum(n: nat, q: nat)
    requires n < 16
    ensures n * 4096 + q ==
      Top(n / 8 % 2 == 1) + (Top(n / 4 % 2 == 1) + (Top(n / 2 % 2 == 1) + (Top(n % 2 == 1) + 16 * q / 2) / 2) / 2) / 2
  {
  }

  lemma PackByte(b: Byte)
    ensures Pack(ByteBits(b)) == Wide(b)
  {
    var lo := NibbleBits(b % 16);
    PackNibble(b % 16, []);
    assert lo + [] == lo;
    PackNibble(b / 16, lo);
  }

  // The byte-wise step is eight bit-serial steps.
  lemma ByteStepIsBits(crc: Register, b: Byte)
    ensures ByteStep(crc, b) == BitCrc(crc, ByteBits(b))
  {
    BitsAtOnce(crc, ByteBits(b));
    PackByte(b);
  }

  lemma {:induction false} CrcIsBits(crc: Register, data: seq<Byte>)
    ensures CrcFrom(crc, data) == BitCrc(crc, MessageBits(data))
    decreases |data|
  {
    if data != [] {
      ByteStepIsBits(crc, data[0]);
      CrcIsBits(ByteStep(crc, data[0]), data[1..]);
      BitCrcConcat(crc, ByteBits(data[0]), MessageBits(data[1..]));
    }
  }

  lemma ByteBitsInjective(a: Byte, b: Byte)
    requires ByteBits(a) == ByteBits(b)
    ensures a == b
  {
    PackByte(a);
    PackByte(b);
  }

  lemma {:induction false} MessageBitsInjective(a: seq<Byte>, b: seq<Byte>)
    requires MessageBits(a) == MessageBits(b)
    ensures a == b
    decreases |a|
  {
    if a != [] {
      assert |b| == |a|;
      assert ByteBits(a[0]) == MessageBits(a)[..8] && ByteBits(b[0]) == MessageBits(b)[..8];
      assert MessageBits(a[1..]) == MessageBits(a)[8..] && MessageBits(b[1..]) == MessageBits(b)[8..];
      ByteBitsInjective(a[0], b[0]);
      MessageBitsInjective(a[1..], b[1..]);
      assert a == [a[0]] + a[1..] && b == [b[0]] + b[1..];
    }
  }

  lemma {:induction false} MessageBitsAt(data: seq<Byte>, k: nat)
    requires k < |data|
    ensures MessageBits(data)[8 * k..8 * k + 8] == ByteBits(data[k])
    decreases k
  {
    if k > 0 {
      MessageBitsAt(data[1..], k - 1);
      assert MessageBits(data)[8..] == MessageBits(data[1..]);
      assert MessageBits(data)[8 * k..8 * k + 8] == MessageBits(data)[8..][8 * (k - 1)..8 * (k - 1) + 8];
    }
  }

  // ---- detection ----

  // The two bit strings agree outside the 16 positions from p on.
  ghost predicate AgreeOutside(a: seq<bool>, b: seq<bool>, p: nat)
  {
    |a| == |b| && forall i :: 0 <= i < |a| && !(p <= i < p + 16) ==> a[i] == b[i]
  }

  // From one register, bursts of the same length at most 16 leave different registers if they differ.
  lemma BurstInjective(s: Register, a: seq<bool>, b: seq<bool>)
    requires |a| == |b| <= 16 && BitCrc(s, a) == BitCrc(s, b)
    ensures a == b
  {
    BitsAtOnce(s, a);
    BitsAtOnce(s, b);
    ShiftsInjective(Mix(s, Pack(a)), Mix(s, Pack(b)), |a|);
    MixInjective(s, Pack(a), Pack(b));
    PackInjective(a, b);
  }

  // Equal ends around a burst drop out.
  lemma BurstBetween(crc: Register, pre: seq<bool>, wa: seq<bool>, wb: seq<bool>, post: seq<bool>)
    requires |wa| == |wb| <= 16 && BitCrc(crc, pre + (wa + post)) == BitCrc(crc, pre + (wb + post))
    ensures wa == wb
  {
    BitCrcConcat(crc, pre, wa + post);
    BitCrcConcat(crc, pre, wb + post);
    var s := BitCrc(crc, pre);
    BitCrcConcat(s, wa, post);
    BitCrcConcat(s, wb, post);
    BitCrcInjective(BitCrc(s, wa), BitCrc(s, wb), post);
    BurstInjective(s, wa, wb);
  }

  lemma BitBurstDetected(crc: Register, a: seq<bool>, b: seq<bool>, p: nat)
    requires AgreeOutside(a, b, p) && BitCrc(crc, a) == BitCrc(crc, b)
    ensures a == b
  {
    hide BitCrc;
    var from := if p <= |a| then p else |a|;
    var to := if p + 16 <= |a| then p + 16 else |a|;
    assert a == a[..from] + (a[from..to] + a[to..]);
    assert b == a[..from] + (b[from..to] + a[to..]);
    BurstBetween(crc, a[..from], a[from..to], b[from..to], a[to..]);
  }

  // Two messages of any length whose bits differ only inside a window of 16, at any alignment, have different
  // CRCs.
  lemma BurstDetected(a: seq<Byte>, b: seq<Byte>, p: nat)
    requires a != b && AgreeOutside(MessageBits(a), MessageBits(b), p)
    ensures Crc16(a) != Crc16(b)
  {
    if Crc16(a) == Crc16(b) {
      CrcIsBits(0xFFFF, a);
      CrcIsBits(0xFFFF, b);
      BitBurstDetected(0xFFFF, MessageBits(a), MessageBits(b), p);
      MessageBitsInjective(a, b);
    }
  }

  // In particular any change confined to two adjacent bytes is detected.
  lemma TwoBytesDetected(a: seq<Byte>, b: seq<Byte>, k: nat)
    requires |a| == |b| && a != b && forall i :: 0 <= i < |a| && i != k && i != k + 1 ==> a[i] == b[i]
    ensures Crc16(a) != Crc16(b)
  {
    var x, y := MessageBits(a), MessageBits(b);
    forall i | 0 <= i < |x| && !(8 * k <= i < 8 * k + 16) ensures x[i] == y[i] {
      var j := i / 8;
      MessageBitsAt(a, j);
      MessageBitsAt(b, j);
      assert x[i] == x[8 * j..8 * j + 8][i - 8 * j];
      assert y[i] == y[8 * j..8 * j + 8][i - 8 * j];
    }
    BurstDetected(a, b, 8 * k);
  }

  // ---- what 16 bits cannot do ----

  lemma MixZero(x: Register)
    ensures Mix(x, 0) == x && Mix(0, x) == x
  {
    XorSelf(x);
    XorCancel(x, x);
    XorCommutes(x, 0);
  }

  // Flipping the first of 17 bits adds the polynomial to the register.
  lemma FlipFirst(s: Register, bit: bool)
    ensures Shift(Mix(s, Top(!bit))) == Mix(Shift(Mix(s, Top(bit))), POLY)
  {
    hide Xor;
    ShiftLinear(s, 0x8000);
    MixZero(s);
    MixZero(POLY);
    var low := Shift(s);
    assert Shift(0x8000) == POLY by { assert Xor(0, POLY) == Mix(0, POLY); }
    XorCancel(low, POLY);
  }

  lemma MixRegroup(r: Register, p: Register, w: Register, v: Register)
    ensures Mix(r, w) == Mix(Mix(r, p), v) <==> v == Mix(w, p)
  {
    XorAssociates(r, p, v);
    XorCommutes(p, v);
    XorCancel(v, p);
    XorCancel(w, p);
    if Mix(r, w) == Mix(r, Mix(p, v)) { MixInjective(r, w, Mix(p, v)); }
  }

  // A burst of 17 bits goes undetected for exactly one other value of those bits: the one that differs by the
  // generator polynomial.
  lemma SeventeenBits(s: Register, a: bool, wa: seq<bool>, b: bool, wb: seq<bool>)
    requires |wa| == |wb| == 16
    ensures BitCrc(s, [a] + wa) == BitCrc(s, [b] + wb) <==>
      if a == b then wa == wb else Pack(wb) == Mix(Pack(wa), POLY)
  {
    hide Mix, Shift, Shifts, Pack, Top;
    var ra, rb := Shift(Mix(s, Top(a))), Shift(Mix(s, Top(b)));
    assert ([a] + wa)[1..] == wa && ([b] + wb)[1..] == wb;
    BitsAtOnce(ra, wa);
    BitsAtOnce(rb, wb);
    if BitCrc(ra, wa) == BitCrc(rb, wb) { ShiftsInjective(Mix(ra, Pack(wa)), Mix(rb, Pack(wb)), 16); }
    if a == b {
      if BitCrc(ra, wa) == BitCrc(rb, wb) { BurstInjective(ra, wa, wb); }
    } else {
      FlipFirst(s, a);
      MixRegroup(ra, POLY, Pack(wa), Pack(wb));
    }
  }

  // The same between equal ends.
  lemma SeventeenBetween(crc: Register, pre: seq<bool>, wa: seq<bool>, wb: seq<bool>, post: seq<bool>)
    requires |wa| == |wb| == 17
    ensures BitCrc(crc, pre + (wa + post)) == BitCrc(crc, pre + (wb + post)) <==>
      if wa[0] == wb[0] then wa == wb else Pack(wb[1..]) == Mix(Pack(wa[1..]), POLY)
  {
    hide BitCrc, Pack, Mix;
    BitCrcConcat(crc, pre, wa + post);
    BitCrcConcat(crc, pre, wb + post);
    var s := BitCrc(crc, pre);
    BitCrcConcat(s, wa, post);
    BitCrcConcat(s, wb, post);
    if BitCrc(BitCrc(s, wa), post) == BitCrc(BitCrc(s, wb), post) {
      BitCrcInjective(BitCrc(s, wa), BitCrc(s, wb), post);
    }
    SeventeenBits(s, wa[0], wa[1..], wb[0], wb[1..]);
    assert wa == [wa[0]] + wa[1..] && wb == [wb[0]] + wb[1..];
  }

  // The 17 bits from p on differ exactly by the generator polynomial.
  ghost predicate DifferByGenerator(x: seq<bool>, y: seq<bool>, p: nat)
    requires p + 17 <= |x| && p + 17 <= |y|
  {
    x[p] != y[p] && Pack(y[p + 1..p + 17]) == Mix(Pack(x[p + 1..p + 17]), POLY)
  }

  // Messages of any length whose bits differ only inside a window of 17, at any place, have the same CRC exactly when
  // the window differs by the generator polynomial.
  lemma SeventeenMissedIff(a: seq<Byte>, b: seq<Byte>, p: nat)
    requires |a| == |b| && a != b && p + 17 <= 8 * |a|
    requires var x, y := MessageBits(a), MessageBits(b); x[..p] == y[..p] && x[p + 17..] == y[p + 17..]
    ensures Crc16(a) == Crc16(b) <==> DifferByGenerator(MessageBits(a), MessageBits(b), p)
  {
    hide BitCrc, CrcFrom, Pack, Mix, MessageBits;
    var x, y := MessageBits(a), MessageBits(b);
    var wx, wy := x[p..p + 17], y[p..p + 17];
    CrcIsBits(0xFFFF, a);
    CrcIsBits(0xFFFF, b);
    assert x == x[..p] + (wx + x[p + 17..]) && y == x[..p] + (wy + x[p + 17..]);
    SeventeenBetween(0xFFFF, x[..p], wx, wy, x[p + 17..]);
    assert wx[1..] == x[p + 1..p + 17] && wy[1..] == y[p + 1..p + 17];
    if wx == wy { MessageBitsInjective(a, b); }
  }

  // ---- any odd number of wrong bits ----

  // Whether an odd number of bits is set.
  function Odd(x: nat): bool { x != 0 && (x % 2 == 1) != Odd(x / 2) }

  function OddBits(bits: seq<bool>): bool { bits != [] && bits[0] != OddBits(bits[1..]) }

  lemma {:induction false} OddXor(a: nat, b: nat)
    ensures Odd(Xor(a, b)) == (Odd(a) != Odd(b))
    decreases a + b
  {
    if a != 0 || b != 0 {
      XorHalf(a, b);
      OddXor(a / 2, b / 2);
    }
  }

  lemma OddDouble(x: nat)
    ensures Odd(2 * x) == Odd(x)
  {
  }

  lemma {:induction false} OddPower(k: nat)
    ensures Odd(Pow2(k))
  {
    if k > 0 {
      OddPower(k - 1);
      OddDouble(Pow2(k - 1));
    }
  }

  // The polynomial with its leading term has an even number of terms.
  lemma OddPoly()
    ensures Odd(POLY)
  {
    Pow2Values();
    OddPower(12);
    OddPower(5);
    OddPower(0);
    XorHighBit(0x21, 12);
    XorHighBit(1, 5);
    OddXor(0x1000, 0x21);
    OddXor(0x20, 1);
  }

  lemma OddTop(x: Register)
    requires x >= 0x8000
    ensures Odd(x) == !Odd(x % 0x8000)
  {
    hide Odd;
    Pow2Values();
    OddPower(15);
    XorHighBit(x % 0x8000, 15);
    OddXor(0x8000, x % 0x8000);
  }

  // So a shift keeps the parity of the register.
  lemma OddShift(x: Register)
    ensures Odd(Shift(x)) == Odd(x)
  {
    hide Odd, Xor;
    OddDouble(x % 0x8000);
    OddDouble(x);
    if x >= 0x8000 {
      OddTop(x);
      OddPoly();
      OddXor(2 * (x % 0x8000), POLY);
    }
  }

  lemma OddMixTop(x: Register, bit: bool)
    ensures Odd(Mix(x, Top(bit))) == (Odd(x) != bit)
  {
    hide Xor;
    OddXor(x, Top(bit));
    if bit {
      Pow2Values();
      OddPower(15);
    }
  }

  // The parity of the register is that of the bits fed into it.
  lemma {:induction false} OddBitCrc(crc: Register, bits: seq<bool>)
    ensures Odd(BitCrc(crc, bits)) == (Odd(crc) != OddBits(bits))
    decreases |bits|
  {
    hide Odd, Shift, Mix, Top;
    if bits != [] {
      var y := Mix(crc, Top(bits[0]));
      OddMixTop(crc, bits[0]);
      OddShift(y);
      OddBitCrc(Shift(y), bits[1..]);
    }
  }

  // Positions at which two bit strings differ.
  function Flips(x: seq<bool>, y: seq<bool>): nat
    requires |x| == |y|
  {
    if x == [] then 0 else (if x[0] != y[0] then 1 else 0) + Flips(x[1..], y[1..])
  }

  lemma {:induction false} OddFlips(x: seq<bool>, y: seq<bool>)
    requires |x| == |y|
    ensures Flips(x, y) % 2 == 1 <==> OddBits(x) != OddBits(y)
  {
    if x != [] { OddFlips(x[1..], y[1..]); }
  }

  // Messages of any length that differ in an odd number of bits, wherever they are, have different CRCs.
  lemma OddFlipsDetected(a: seq<Byte>, b: seq<Byte>)
    requires |a| == |b| && Flips(MessageBits(a), MessageBits(b)) % 2 == 1
    ensures Crc16(a) != Crc16(b)
  {
    hide Odd, OddBits, BitCrc, CrcFrom, MessageBits, Flips;
    CrcIsBits(0xFFFF, a);
    CrcIsBits(0xFFFF, b);
    OddBitCrc(0xFFFF, MessageBits(a));
    OddBitCrc(0xFFFF, MessageBits(b));
    OddFlips(MessageBits(a), MessageBits(b));
  }
}
