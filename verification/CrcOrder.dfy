/**
 How long the register of the CRC takes to return: 32767 shifts and no fewer. So two wrong bits are missed exactly
 when their distance is a multiple of 32767.
 */
module CrcOrder {
  import opened Bits
  import opened Bytes
  import opened Crc

  // ---- the register as a bit vector ----

  function Sum(x: bv16, y: bv16): bv16 { x ^ y }

  function Join(u: bv16, b: bool): bv16 { (u << 1) ^ (if b then 1 else 0) }

  function Low(x: bv16): bool { x & 1 == 1 }

  function Half(x: bv16): bv16 { x >> 1 }

  predicate TopSet(x: bv16) { x & 0x8000 != 0 }

  function S(x: bv16): bv16 { if TopSet(x) then Sum(Join(x, false), 0x1021) else Join(x, false) }

  function Ss(x: bv16, k: nat): bv16
    decreases k
  {
    if k == 0 then x else Ss(S(x), k - 1)
  }

  lemma {:induction false} SsLast(x: bv16, k: nat)
    ensures Ss(x, k + 1) == S(Ss(x, k))
    decreases k
  {
    hide S;
    if k > 0 { SsLast(S(x), k - 1); }
  }

  function ToBv(x: nat): bv16 { if x == 0 then 0 else Join(ToBv(x / 2), x % 2 == 1) }

  lemma JoinNothing()
    ensures Join(0, false) == 0
  {
  }

  lemma ToBvJoin(h: nat, l: nat)
    requires l < 2
    ensures ToBv(2 * h + l) == Join(ToBv(h), l == 1)
  {
    hide Join;
    JoinNothing();
    assert (2 * h + l) / 2 == h && (2 * h + l) % 2 == l;
  }

  lemma JoinSum(u: bv16, p: bool, v: bv16, q: bool)
    ensures Sum(Join(u, p), Join(v, q)) == Join(Sum(u, v), p != q)
  {
  }

  lemma SumNothing(x: bv16)
    ensures Sum(0, x) == x && Sum(x, 0) == x
  {
  }

  lemma SumRegroups(x: bv16, y: bv16, z: bv16)
    ensures Sum(Sum(x, y), z) == Sum(x, Sum(y, z))
  {
  }

  lemma {:induction false} ToBvXor(a: nat, b: nat)
    ensures ToBv(Xor(a, b)) == Sum(ToBv(a), ToBv(b))
    decreases a
  {
    hide Join, Sum;
    SumNothing(ToBv(a));
    SumNothing(ToBv(b));
    if a != 0 && b != 0 {
      ToBvXor(a / 2, b / 2);
      ToBvJoin(Xor(a / 2, b / 2), if a % 2 != b % 2 then 1 else 0);
      JoinSum(ToBv(a / 2), a % 2 == 1, ToBv(b / 2), b % 2 == 1);
    }
  }

  // Nothing above the mask.
  predicate Under(x: bv16, m: bv16) { x & !m == 0 }

  function Mask(k: nat): bv16 { if k == 0 then 0 else Join(Mask(k - 1), true) }

  lemma JoinUnder(u: bv16, m: bv16, b: bool)
    requires Under(u, m)
    ensures Under(Join(u, b), Join(m, true))
  {
  }

  lemma NothingUnder(m: bv16)
    ensures Under(0, m)
  {
  }

  lemma {:induction false} ToBvUnder(x: nat, k: nat)
    requires x < Pow2(k)
    ensures Under(ToBv(x), Mask(k))
    decreases k
  {
    hide Under, Join;
    NothingUnder(Mask(k));
    if x > 0 {
      ToBvUnder(x / 2, k - 1);
      JoinUnder(ToBv(x / 2), Mask(k - 1), x % 2 == 1);
    }
  }

  lemma FifteenBits()
    ensures Mask(15) == 0x7FFF
  {
    assert Mask(8) == 0xFF;
  }

  lemma UnderTop(u: bv16)
    requires Under(u, 0x7FFF)
    ensures !TopSet(u)
  {
  }

  lemma TopClear(x: nat)
    requires x < 0x8000
    ensures !TopSet(ToBv(x))
  {
    hide Under, TopSet, ToBv, Mask;
    assert Pow2(15) == 0x8000;
    ToBvUnder(x, 15);
    FifteenBits();
    UnderTop(ToBv(x));
  }

  lemma JoinInjective(u: bv16, p: bool, v: bv16, q: bool)
    requires !TopSet(u) && !TopSet(v) && Join(u, p) == Join(v, q)
    ensures u == v && p == q
  {
  }

  lemma {:induction false} ToBvInjective(x: Register, y: Register)
    requires ToBv(x) == ToBv(y)
    ensures x == y
    decreases x + y
  {
    hide Join, TopSet, ToBv;
    if x != 0 || y != 0 {
      TopClear(x / 2);
      TopClear(y / 2);
      ToBvJoin(x / 2, x % 2);
      ToBvJoin(y / 2, y % 2);
      JoinInjective(ToBv(x / 2), x % 2 == 1, ToBv(y / 2), y % 2 == 1);
      ToBvInjective(x / 2, y / 2);
    }
  }

  lemma TopDropped(l: bv16)
    requires !TopSet(l)
    ensures S(l) == Join(l, false) && S(Sum(0x8000, l)) == Sum(Join(l, false), 0x1021)
  {
  }

  lemma Literals()
    ensures ToBv(0x8000) == 0x8000 && ToBv(POLY) == 0x1021 && ToBv(1) == 1 && ToBv(2) == 2
  {
    assert ToBv(0x10) == 0x10;
    assert ToBv(0x80) == 0x80;
    assert ToBv(0x800) == 0x800;
    assert ToBv(0x102) == 0x102;
  }

  lemma ShiftMatches(x: Register)
    ensures ToBv(Shift(x)) == S(ToBv(x))
  {
    hide Xor, ToBv, S, TopSet, Join, Sum, Shift;
    var low := x % 0x8000;
    TopClear(low);
    TopDropped(ToBv(low));
    ToBvJoin(low, 0);
    ShiftIsFolded(x);
    if x >= 0x8000 {
      TopLane(true, low);
      ToBvXor(Top(true), low);
      ToBvXor(2 * low, POLY);
      Literals();
    }
  }

  lemma {:induction false} ShiftsMatch(x: Register, k: nat)
    ensures ToBv(Shifts(x, k)) == Ss(ToBv(x), k)
    decreases k
  {
    hide ToBv, S, Shift;
    if k > 0 {
      ShiftsMatch(Shift(x), k - 1);
      ShiftMatches(x);
    }
  }

  // ---- known values ----

  lemma ByteMatches(crc: Register, b: Byte, x: bv16, y: bv16)
    requires ToBv(crc) == x && ToBv(Wide(b)) == y
    ensures ToBv(ByteStep(crc, b)) == Ss(Sum(x, y), 8)
  {
    hide ToBv, Ss, Sum, Shifts, Xor;
    ToBvXor(crc, Wide(b));
    ShiftsMatch(Mix(crc, Wide(b)), 8);
  }

  lemma StartMatches()
    ensures ToBv(0xFFFF) == 0xFFFF
  {
    assert ToBv(0xFF) == 0xFF;
  }

  lemma EightJoins(u: bv16)
    ensures Eight(u) == u << 8
  {
  }

  function Eight(u: bv16): bv16 { Four(Four(u)) }

  function Four(u: bv16): bv16 { Join(Join(Join(Join(u, false), false), false), false) }

  lemma FourMatches(x: nat)
    ensures ToBv(16 * x) == Four(ToBv(x))
  {
    hide ToBv, Join;
    ToBvJoin(x, 0);
    ToBvJoin(2 * x, 0);
    ToBvJoin(4 * x, 0);
    ToBvJoin(8 * x, 0);
  }

  lemma WideMatches(b: Byte)
    ensures ToBv(Wide(b)) == ToBv(b) << 8
  {
    hide ToBv, Four;
    FourMatches(b);
    FourMatches(16 * (b as int));
    EightJoins(ToBv(b));
  }

  lemma LettersHe()
    ensures ToBv(0x48) == 0x48 && ToBv(0x65) == 0x65
  {
    assert ToBv(9) == 9 && ToBv(12) == 12;
  }

  lemma LettersLo()
    ensures ToBv(0x6C) == 0x6C && ToBv(0x6F) == 0x6F
  {
    assert ToBv(13) == 13;
  }

  lemma LetterStep(crc: Register, b: Byte, x: bv16, y: bv16, z: bv16)
    requires ToBv(crc) == x && ToBv(b) == y && Ss(Sum(x, y << 8), 8) == z
    ensures ToBv(ByteStep(crc, b)) == z
  {
    hide ToBv, Ss, Sum, ByteStep, Wide;
    WideMatches(b);
    ByteMatches(crc, b, x, y << 8);
  }

  lemma HelloSteps()
    ensures Ss(Sum(0xFFFF, 0x48 << 8), 8) == 0x283C && Ss(Sum(0x283C, 0x65 << 8), 8) == 0xA569
    ensures Ss(Sum(0xA569, 0x6C << 8), 8) == 0x2165 && Ss(Sum(0x2165, 0x6C << 8), 8) == 0xFC69
    ensures Ss(Sum(0xFC69, 0x6F << 8), 8) == 0xDADA && ToBv(0xDADA) == 0xDADA
  {
    assert ToBv(0xDA) == 0xDA;
  }

  lemma CrcSteps(c: Register, b: Byte, rest: seq<Byte>)
    ensures CrcFrom(c, [b] + rest) == CrcFrom(ByteStep(c, b), rest)
  {
    assert ([b] + rest)[1..] == rest;
  }

  lemma CrcOfFive(x: Register, a: Byte, b: Byte, c: Byte, d: Byte, e: Byte)
    ensures CrcFrom(x, [a, b, c, d, e]) ==
      ByteStep(ByteStep(ByteStep(ByteStep(ByteStep(x, a), b), c), d), e)
  {
    hide ByteStep, CrcFrom;
    var one := ByteStep(x, a);
    var two := ByteStep(one, b);
    var three := ByteStep(two, c);
    var four := ByteStep(three, d);
    assert [a, b, c, d, e] == [a] + [b, c, d, e] && [b, c, d, e] == [b] + [c, d, e] && [c, d, e] == [c] + [d, e];
    assert [d, e] == [d] + [e] && [e] == [e] + [];
    CrcSteps(x, a, [b, c, d, e]);
    CrcSteps(one, b, [c, d, e]);
    CrcSteps(two, c, [d, e]);
    CrcSteps(three, d, [e]);
    CrcSteps(four, e, []);
    CrcOfNothing(ByteStep(four, e));
  }

  lemma CrcOfNothing(x: Register)
    ensures CrcFrom(x, []) == x
  {
  }

  // The message "Hello" has the CRC that the source's own test expects, and an empty one that of a fresh register.
  lemma KnownValues()
    ensures Crc16([0x48, 0x65, 0x6C, 0x6C, 0x6F]) == 0xDADA && Crc16([]) == 0xFFFF
  {
    hide ByteStep, CrcFrom, ToBv, Ss, Sum;
    CrcOfNothing(0xFFFF);
    CrcOfFive(0xFFFF, 0x48, 0x65, 0x6C, 0x6C, 0x6F);
    HelloSteps();
    LettersHe();
    LettersLo();
    StartMatches();
    var one := ByteStep(0xFFFF, 0x48);
    LetterStep(0xFFFF, 0x48, 0xFFFF, 0x48, 0x283C);
    var two := ByteStep(one, 0x65);
    LetterStep(one, 0x65, 0x283C, 0x65, 0xA569);
    var three := ByteStep(two, 0x6C);
    LetterStep(two, 0x6C, 0xA569, 0x6C, 0x2165);
    var four := ByteStep(three, 0x6C);
    LetterStep(three, 0x6C, 0x2165, 0x6C, 0xFC69);
    LetterStep(four, 0x6F, 0xFC69, 0x6F, 0xDADA);
    ToBvInjective(ByteStep(four, 0x6F), 0xDADA);
  }

  // ---- multiplication of polynomials ----

  lemma TopOfSum(x: bv16, y: bv16)
    ensures TopSet(Sum(x, y)) == (TopSet(x) != TopSet(y))
  {
  }

  lemma SumCommutes(x: bv16, y: bv16)
    ensures Sum(x, y) == Sum(y, x)
  {
  }

  lemma SumSelf(x: bv16)
    ensures Sum(x, x) == 0
  {
  }

  lemma Exchange(a: bv16, b: bv16, c: bv16, d: bv16)
    ensures Sum(Sum(a, b), Sum(c, d)) == Sum(Sum(a, c), Sum(b, d))
  {
    hide Sum;
    SumRegroups(a, b, Sum(c, d));
    SumRegroups(b, c, d);
    SumCommutes(b, c);
    SumRegroups(c, b, d);
    SumRegroups(a, c, Sum(b, d));
  }

  lemma SumSlides(a: bv16, b: bv16, p: bv16)
    ensures Sum(Sum(a, p), Sum(b, p)) == Sum(a, b)
    ensures Sum(Sum(a, p), b) == Sum(Sum(a, b), p) && Sum(a, Sum(b, p)) == Sum(Sum(a, b), p)
  {
    hide Sum;
    Exchange(a, p, b, p);
    SumSelf(p);
    SumNothing(Sum(a, b));
    SumRegroups(a, p, b);
    SumCommutes(p, b);
    SumRegroups(a, b, p);
  }

  lemma SNothing()
    ensures S(0) == 0
  {
  }

  lemma SLinear(x: bv16, y: bv16)
    ensures S(Sum(x, y)) == Sum(S(x), S(y))
  {
    hide Join, TopSet, Sum;
    TopOfSum(x, y);
    JoinSum(x, false, y, false);
    SumSlides(Join(x, false), Join(y, false), 0x1021);
  }

  lemma {:induction false} SsLinear(x: bv16, y: bv16, k: nat)
    ensures Ss(Sum(x, y), k) == Sum(Ss(x, k), Ss(y, k))
    decreases k
  {
    hide S, Sum;
    if k > 0 {
      SLinear(x, y);
      SsLinear(S(x), S(y), k - 1);
    }
  }

  lemma {:induction false} SsSum(x: bv16, j: nat, k: nat)
    ensures Ss(Ss(x, j), k) == Ss(x, j + k)
    decreases j
  {
    hide S;
    if j > 0 { SsSum(S(x), j - 1, k); }
  }

  // The sum of the shifts of x that the lowest n bits of a name: a times x as polynomials.
  function Act(a: bv16, x: bv16, n: nat): bv16
    decreases n
  {
    if n == 0 then 0 else Sum(if Low(a) then x else 0, Act(Half(a), S(x), n - 1))
  }

  lemma {:induction false} ActLinear(a: bv16, x: bv16, y: bv16, n: nat)
    ensures Act(a, Sum(x, y), n) == Sum(Act(a, x, n), Act(a, y, n))
    decreases n
  {
    hide S, Sum, Low, Half;
    SumNothing(0);
    if n > 0 {
      SLinear(x, y);
      ActLinear(Half(a), S(x), S(y), n - 1);
      Exchange(if Low(a) then x else 0, Act(Half(a), S(x), n - 1),
               if Low(a) then y else 0, Act(Half(a), S(y), n - 1));
    }
  }

  lemma {:induction false} ActShift(a: bv16, x: bv16, n: nat)
    ensures Act(a, S(x), n) == S(Act(a, x, n))
    decreases n
  {
    hide S, Sum, Low, Half;
    SNothing();
    if n > 0 {
      ActShift(Half(a), S(x), n - 1);
      SLinear(if Low(a) then x else 0, Act(Half(a), S(x), n - 1));
    }
  }

  lemma {:induction false} ActNothing(a: bv16, n: nat)
    ensures Act(a, 0, n) == 0
    decreases n
  {
    hide S, Sum, Low, Half;
    SNothing();
    SumNothing(0);
    if n > 0 { ActNothing(Half(a), n - 1); }
  }

  lemma JoinParts(u: bv16, b: bool)
    requires !TopSet(u)
    ensures Half(Join(u, b)) == u && Low(Join(u, b)) == b
  {
  }

  lemma {:induction false} ShlJoin(h: nat, l: nat, k: nat)
    requires l < 2
    ensures Shl(2 * h + l, k) == Xor(if l == 1 then Pow2(k) else 0, Shl(h, k + 1))
    decreases k
  {
    if k == 0 {
      XorJoin(0, l, h, 0);
    } else {
      ShlJoin(h, l, k - 1);
      XorDouble(if l == 1 then Pow2(k - 1) else 0, Shl(h, k));
    }
  }

  lemma {:induction false} ShlNothing(k: nat)
    ensures Shl(0, k) == 0
  {
    if k > 0 { ShlNothing(k - 1); }
  }

  // Applied to a power of x it shifts a.
  lemma {:induction false} ActPower(y: nat, k: nat, n: nat)
    requires y < Pow2(n) && n + k <= 16
    ensures Act(ToBv(y), ToBv(Pow2(k)), n) == ToBv(Shl(y, k))
    decreases n, 0
  {
    hide ToBv, Sum, Low, Half, S, Join, TopSet, Xor, Shl;
    if n == 0 {
      ShlNothing(k);
      ToBvNothing();
    } else {
      var h, l := y / 2, y % 2;
      ActPowerStep(h, l, k, n - 1);
      ShlJoin(h, l, k);
      ToBvXor(if l == 1 then Pow2(k) else 0, Shl(h, k + 1));
      ToBvNothing();
    }
  }

  lemma {:induction false} ActPowerStep(h: nat, l: nat, k: nat, n: nat)
    requires l < 2 && h < Pow2(n) && n + 1 + k <= 16
    ensures Act(ToBv(2 * h + l), ToBv(Pow2(k)), n + 1) ==
      Sum(if l == 1 then ToBv(Pow2(k)) else 0, ToBv(Shl(h, k + 1)))
    decreases n, 1
  {
    hide ToBv, Sum, Low, Half, S, Join, TopSet, Shl;
    PowerAtMost(n);
    TopClear(h);
    ToBvJoin(h, l);
    JoinParts(ToBv(h), l == 1);
    if n == 0 {
      ShlNothing(k + 1);
      ToBvNothing();
    } else {
      PowerBelow(k);
      ShiftMatches(Pow2(k));
      ActPower(h, k + 1, n);
    }
  }

  lemma PowerAtMost(n: nat)
    requires n <= 15
    ensures Pow2(n) <= 0x8000
  {
    assert Pow2(15) == 0x8000;
    if n < 15 { PowerBelow(n); }
  }

  // Applied to the polynomial 1 it gives a back.
  lemma ActOne(x: Register)
    ensures Act(ToBv(x), 1, 16) == ToBv(x)
  {
    hide ToBv, Act;
    Pow2Values();
    Literals();
    ActPower(x, 0, 16);
    assert Shl(x, 0) == x && Pow2(0) == 1;
  }

  // Multiplying by the register that 1 becomes after k shifts is shifting k times.
  lemma {:induction false} ActIsShifts(x: Register, k: nat)
    ensures Act(Ss(1, k), ToBv(x), 16) == Ss(ToBv(x), k)
    decreases x
  {
    hide Act, Ss, S, ToBv, Sum, Join;
    var r := Ss(1, k);
    if x == 0 {
      ToBvNothing();
      ActNothing(r, 16);
      SsNothing(k);
    } else if x == 1 {
      Literals();
      var y := Register1(k);
      ActOne(y);
    } else {
      var h := x / 2;
      ActIsShifts(h, k);
      ActIsShifts(x % 2, k);
      TopClear(h);
      TopDropped(ToBv(h));
      ToBvJoin(h, x % 2);
      JoinApart(ToBv(h), x % 2);
      var l := ToBv(x % 2);
      ActLinear(r, S(ToBv(h)), l, 16);
      ActShift(r, ToBv(h), 16);
      SsLinear(S(ToBv(h)), l, k);
      SsOfS(ToBv(h), k);
    }
  }

  lemma ToBvNothing()
    ensures ToBv(0) == 0
  {
  }

  lemma {:induction false} SsNothing(k: nat)
    ensures Ss(0, k) == 0
  {
    SNothing();
    hide S;
    if k > 0 { SsNothing(k - 1); }
  }

  lemma SsOfS(x: bv16, k: nat)
    ensures Ss(S(x), k) == S(Ss(x, k))
  {
    hide S;
    SsLast(x, k);
    assert Ss(x, k + 1) == Ss(S(x), k);
  }

  lemma JoinApart(u: bv16, l: nat)
    requires l < 2
    ensures Join(u, l == 1) == Sum(Join(u, false), ToBv(l))
  {
    Literals();
  }

  // ---- powers of x ----

  lemma Register1(k: nat) returns (x: Register)
    ensures ToBv(x) == Ss(1, k)
  {
    hide ToBv, Ss;
    Literals();
    ShiftsMatch(1, k);
    x := Shifts(1, k);
  }

  lemma Added(m: nat, n: nat, a: bv16, b: bv16, v: bv16)
    requires Ss(1, m) == a && Ss(1, n) == b && Act(a, b, 16) == v
    ensures Ss(1, m + n) == v
  {
    hide Act, Ss, ToBv;
    var x := Register1(n);
    ActIsShifts(x, m);
    SsSum(1, n, m);
  }

  lemma Doubled(n: nat, a: bv16, v: bv16)
    requires Ss(1, n) == a && Act(a, a, 16) == v
    ensures Ss(1, 2 * n) == v
  {
    hide Act, Ss;
    Added(n, n, a, a, v);
  }

  // Squares and products, four bits of the first factor at a time.
  lemma Squares16()
    ensures Act(0x1021, 0x1021, 16) == 0x3730 && Act(0x3730, 0x3730, 16) == 0xB861
  {
    assert Act(0x1, 0x373, 4) == 0x373;
    assert Act(0x10, 0x3331, 8) == 0x373;
    assert Act(0x102, 0x1231, 12) == 0x2711;
    assert Act(0x3, 0x1BA7, 4) == 0x2CE9;
    assert Act(0x37, 0x76B4, 8) == 0x7DC4;
    assert Act(0x373, 0x4363, 12) == 0xB861;
  }

  lemma Squares64()
    ensures Act(0xB861, 0xB861, 16) == 0xAEFC && Act(0xAEFC, 0xAEFC, 16) == 0x8E29
  {
    assert Act(0xB, 0x3DB4, 4) == 0xBB5D;
    assert Act(0xB8, 0x47D3, 8) == 0xA587;
    assert Act(0xB86, 0x377B, 12) == 0x169D;
    assert Act(0xA, 0x230A, 4) == 0x4E65;
    assert Act(0xAE, 0xA824, 8) == 0x9F5B;
    assert Act(0xAEF, 0x4E8A, 12) == 0x32DE;
  }

  lemma Squares256()
    ensures Act(0x8E29, 0x8E29, 16) == 0x13FC && Act(0x13FC, 0x13FC, 16) == 0x36C4
  {
    assert Act(0x8, 0xC4C5, 4) == 0x46EE;
    assert Act(0x8E, 0x5946, 8) == 0x6B29;
    assert Act(0x8E2, 0x6398, 12) == 0xAC19;
    assert Act(0x1, 0x348D, 4) == 0x348D;
    assert Act(0x13, 0xDE52, 8) == 0x465A;
    assert Act(0x13F, 0x2FE1, 12) == 0xE6D4;
  }

  lemma Squares1024()
    ensures Act(0x36C4, 0x36C4, 16) == 0xFD50 && Act(0xFD50, 0xFD50, 16) == 0xAA9E
  {
    assert Act(0x3, 0xB879, 4) == 0xD8AA;
    assert Act(0x36, 0x9295, 8) == 0x87B7;
    assert Act(0x36C, 0x5C23, 12) == 0x2640;
    assert Act(0xF, 0x8BE6, 4) == 0x9C65;
    assert Act(0xFD, 0x6EB2, 8) == 0x1DCD;
    assert Act(0xFD5, 0x24EF, 12) == 0xAA9E;
  }

  lemma Squares4096()
    ensures Act(0xAA9E, 0xAA9E, 16) == 0x881C && Act(0x881C, 0x881C, 16) == 0x4458
  {
    assert Act(0xA, 0x2B08, 4) == 0x1E71;
    assert Act(0xAA, 0x8AA0, 8) == 0xE94;
    assert Act(0xAA9, 0x8AA, 12) == 0x436E;
    assert Act(0x8, 0xC800, 4) == 0x20C6;
    assert Act(0x88, 0xC80, 8) == 0x44C6;
    assert Act(0x881, 0xC8, 12) == 0x440E;
  }

  lemma Square16384()
    ensures Act(0x4458, 0x4458, 16) == 0x2
  {
    assert Act(0x4, 0x54A5, 4) == 0x42B5;
    assert Act(0x44, 0x5040, 8) == 0x1394;
    assert Act(0x445, 0x504, 12) == 0x280;
  }

  lemma Products217()
    ensures Act(0xAEFC, 0xDE8A, 16) == 0x48E3 && Act(0xB861, 0x6662, 16) == 0xDE8A
  {
    assert Act(0xA, 0xAA7A, 4) == 0x47A0;
    assert Act(0xAE, 0xA0B3, 8) == 0xE154;
    assert Act(0xAEF, 0x390D, 12) == 0x963E;
    assert Act(0xB, 0x86C6, 4) == 0xEDDF;
    assert Act(0xB8, 0x6E60, 8) == 0xAEBC;
    assert Act(0xB86, 0x6E6, 12) == 0xB8E8;
  }

  lemma Product1057()
    ensures Act(0x36C4, 0x6E60, 16) == 0xF2AF
  {
    assert Act(0x3, 0x374E, 4) == 0x59D2;
    assert Act(0x36, 0xED68, 8) == 0x16E0;
    assert Act(0x36C, 0x86C6, 12) == 0x5B0E;
  }

  lemma Products4681()
    ensures Act(0x13FC, 0x8FA6, 16) == 0x4500 && Act(0xAA9E, 0x4500, 16) == 0x2C42
  {
    assert Act(0x1, 0xA7FC, 4) == 0xA7FC;
    assert Act(0x13, 0xC667, 8) == 0xFD74;
    assert Act(0x13F, 0x7B68, 12) == 0x666E;
    assert Act(0xA, 0x9631, 4) == 0xCD4F;
    assert Act(0xAA, 0x1861, 8) == 0x3E85;
    assert Act(0xAA9, 0x1084, 12) == 0xAA21;
  }

  lemma Sixteen()
    ensures Ss(1, 16) == 0x1021
  {
    assert Ss(0x100, 8) == 0x1021;
  }

  lemma Powers()
    ensures Ss(1, 16) == 0x1021 && Ss(1, 32) == 0x3730 && Ss(1, 64) == 0xB861 && Ss(1, 128) == 0xAEFC
    ensures Ss(1, 512) == 0x13FC && Ss(1, 1024) == 0x36C4 && Ss(1, 4096) == 0xAA9E && Ss(1, 32768) == 2
  {
    hide Act, Ss;
    Sixteen();
    Squares16();
    Squares64();
    Squares256();
    Squares1024();
    Squares4096();
    Square16384();
    Doubled(16, 0x1021, 0x3730);
    Doubled(32, 0x3730, 0xB861);
    Doubled(64, 0xB861, 0xAEFC);
    Doubled(128, 0xAEFC, 0x8E29);
    Doubled(256, 0x8E29, 0x13FC);
    Doubled(512, 0x13FC, 0x36C4);
    Doubled(1024, 0x36C4, 0xFD50);
    Doubled(2048, 0xFD50, 0xAA9E);
    Doubled(4096, 0xAA9E, 0x881C);
    Doubled(8192, 0x881C, 0x4458);
    Doubled(16384, 0x4458, 0x2);
  }

  lemma ShortRuns()
    ensures Ss(0x1021, 9) == 0x6662 && Ss(0x3730, 1) == 0x6E60 && Ss(0xB861, 9) == 0x8FA6
  {
  }

  // The powers of x at the largest proper divisors of 32767, and at 32767.
  lemma Divisors()
    ensures Ss(1, 217) == 0x48E3 && Ss(1, 1057) == 0xF2AF && Ss(1, 4681) == 0x2C42 && Ss(1, 32768) == 2
  {
    hide Act, Ss;
    Powers();
    Products217();
    Product1057();
    Products4681();
    ShortRuns();
    SsSum(1, 16, 9);
    Added(64, 25, 0xB861, 0x6662, 0xDE8A);
    Added(128, 89, 0xAEFC, 0xDE8A, 0x48E3);
    SsSum(1, 32, 1);
    Added(1024, 33, 0x36C4, 0x6E60, 0xF2AF);
    SsSum(1, 64, 9);
    Added(512, 73, 0x13FC, 0x8FA6, 0x4500);
    Added(4096, 585, 0xAA9E, 0x4500, 0x2C42);
  }

  // ---- periods ----

  predicate Period(d: nat) { Ss(1, d) == 1 }

  lemma PeriodShifts(a: nat, b: nat)
    requires Period(a)
    ensures Period(a + b) <==> Period(b)
  {
    hide Ss;
    SsSum(1, a, b);
  }

  lemma BeforeTwo(u: bv16)
    requires S(u) == 2
    ensures u == 1
  {
  }

  lemma WholePeriod()
    ensures Period(32767)
  {
    hide Ss, S;
    Divisors();
    SsLast(1, 32767);
    BeforeTwo(Ss(1, 32767));
  }

  lemma NoPeriods()
    ensures !Period(217) && !Period(1057) && !Period(4681)
  {
    hide Ss;
    Divisors();
  }

  lemma {:induction false} PeriodMultiple(g: nat, k: nat)
    requires Period(g)
    ensures Period(Times(k, g))
    decreases k
  {
    if k > 0 {
      hide Period;
      PeriodMultiple(g, k - 1);
      PeriodShifts(g, Times(k - 1, g));
    }
  }

  lemma {:induction false} PeriodMod(g: nat, n: nat)
    requires g > 0 && Period(g)
    ensures Period(n % g) <==> Period(n)
    decreases n
  {
    hide Period;
    if n >= g {
      PeriodMod(g, n - g);
      PeriodShifts(g, n - g);
      ModUnique(n, g, (n - g) / g + 1, (n - g) % g);
    } else {
      ModUnique(n, g, 0, n);
    }
  }

  lemma {:induction false} Smallest(d: nat) returns (g: nat)
    requires d > 0 && Period(d)
    ensures 0 < g <= d && Period(g) && forall e :: 0 < e < g ==> !Period(e)
    decreases d
  {
    hide Period;
    g := d;
    if e :| 0 < e < d && Period(e) { g := Smallest(e); }
  }

  // The divisors of 32767 up to k are among these.
  predicate OnlyThese(k: nat)
  {
    k == 0 || ((32767 % k == 0 ==> k == 1 || k == 7 || k == 31 || k == 151) && OnlyThese(k - 1))
  }

  lemma DivisorsTo45()
    ensures OnlyThese(45)
  {
    assert OnlyThese(9);
    assert OnlyThese(18);
    assert OnlyThese(27);
    assert OnlyThese(36);
  }

  lemma DivisorsTo90()
    ensures OnlyThese(90)
  {
    DivisorsTo45();
    assert OnlyThese(54);
    assert OnlyThese(63);
    assert OnlyThese(72);
    assert OnlyThese(81);
  }

  lemma DivisorsTo135()
    ensures OnlyThese(135)
  {
    DivisorsTo90();
    assert OnlyThese(99);
    assert OnlyThese(108);
    assert OnlyThese(117);
    assert OnlyThese(126);
  }

  lemma SmallDivisors()
    ensures OnlyThese(181)
  {
    DivisorsTo135();
    assert OnlyThese(144);
    assert OnlyThese(153);
    assert OnlyThese(162);
    assert OnlyThese(171);
    assert OnlyThese(180);
  }

  lemma {:induction false} OneOfThese(k: nat, n: nat)
    requires OnlyThese(n) && 0 < k <= n && 32767 % k == 0
    ensures k == 1 || k == 7 || k == 31 || k == 151
    decreases n
  {
    if k < n { OneOfThese(k, n - 1); }
  }

  lemma SmallFactor(g: nat, q: nat)
    requires g * q == 32767 && g >= 182
    ensures 0 < q <= 181
  {
    assert (g - 182) * q >= 0;
  }

  lemma ProperDivisor(g: nat)
    requires 0 < g < 32767 && 32767 % g == 0
    ensures g == 1 || g == 7 || g == 31 || g == 151 || g == 217 || g == 1057 || g == 4681
  {
    hide OnlyThese;
    SmallDivisors();
    var q := 32767 / g;
    assert g * q == 32767;
    if g <= 181 {
      OneOfThese(g, 181);
    } else {
      SmallFactor(g, q);
      ModUnique(32767, q, g, 0);
      OneOfThese(q, 181);
    }
  }

  // A period that divides 32767 properly would divide 217, 1057 or 4681.
  lemma NoProperPeriod(g: nat)
    requires 0 < g < 32767 && 32767 % g == 0
    ensures !Period(g)
  {
    hide Period, Times;
    NoPeriods();
    ProperDivisor(g);
    if Period(g) {
      TimesIsProduct(217, g);
      TimesIsProduct(31, g);
      TimesIsProduct(7, g);
      PeriodMultiple(g, 217);
      PeriodMultiple(g, 31);
      PeriodMultiple(g, 7);
    }
  }

  lemma NoShorter(d: nat)
    requires 0 < d < 32767
    ensures !Period(d)
  {
    hide Period;
    if Period(d) {
      var g := Smallest(d);
      WholePeriod();
      PeriodMod(g, 32767);
      NoProperPeriod(g);
    }
  }

  lemma PeriodIff(d: nat)
    ensures Period(d) <==> d % 32767 == 0
  {
    hide Period;
    WholePeriod();
    PeriodMod(32767, d);
    if d % 32767 != 0 { NoShorter(d % 32767); } else { NoShift(); }
  }

  lemma NoShift()
    ensures Period(0)
  {
  }

  // ---- back to the register ----

  lemma {:induction false} ShiftsSum(x: Register, j: nat, k: nat)
    ensures Shifts(Shifts(x, j), k) == Shifts(x, j + k)
    decreases j
  {
    hide Shift;
    if j > 0 { ShiftsSum(Shift(x), j - 1, k); }
  }

  lemma {:induction false} PowerShifts(k: nat)
    requires k <= 15
    ensures Pow2(k) < 0x1_0000 && Shifts(1, k) == Pow2(k)
    decreases k
  {
    hide Shifts, Xor;
    if k > 0 {
      PowerShifts(k - 1);
      ShiftsLast(1, k - 1);
      PowerBelow(k - 1);
    } else {
      NoShifts(1);
    }
  }

  lemma NoShifts(x: Register)
    ensures Shifts(x, 0) == x
  {
  }

  lemma PowerBelow(k: nat)
    requires k < 15
    ensures Pow2(k) < 0x8000
  {
    assert Pow2(14) == 0x4000;
    PowerSum(14 - k, k);
    assert Pow2(14 - k) >= 1;
    assert Pow2(k) <= Pow2(14 - k) * Pow2(k);
  }

  // A register with the top bit only returns after d shifts exactly when d is a multiple of 32767.
  lemma ReturnsIff(d: nat)
    ensures Shifts(0x8000, d) == 0x8000 <==> d % 32767 == 0
  {
    hide Shifts, ToBv, Ss;
    PeriodIff(d);
    Literals();
    ShiftsMatch(1, d);
    assert Pow2(15) == 0x8000;
    PowerShifts(15);
    ShiftsSum(1, 15, d);
    ShiftsSum(1, d, 15);
    if Shifts(0x8000, d) == 0x8000 { ShiftsInjective(Shifts(1, d), 1, 15); }
    if Period(d) { ToBvInjective(Shifts(1, d), 1); }
  }

  // ---- two wrong bits ----

  lemma {:induction false} BitCrcDiffers(c: Register, d: Register, bits: seq<bool>)
    ensures BitCrc(Mix(c, d), bits) == Mix(BitCrc(c, bits), Shifts(d, |bits|))
    decreases |bits|
  {
    hide Shift, Xor;
    if bits != [] {
      var t := Top(bits[0]);
      Regroup(c, t, d);
      ShiftLinear(Mix(c, t), d);
      BitCrcDiffers(Shift(Mix(c, t)), Shift(d), bits[1..]);
    }
  }

  lemma SecondFlip(v: Register, d: Register, bit: bool)
    ensures Shift(Mix(v, Top(bit))) == Shift(Mix(Mix(v, d), Top(!bit))) <==> d == 0x8000
  {
    hide Shift, Xor;
    MixRegroup(v, d, Top(bit), Top(!bit));
    MixZero(d);
    MixSelf(0x8000, d);
    if Shift(Mix(v, Top(bit))) == Shift(Mix(Mix(v, d), Top(!bit))) {
      ShiftInjective(Mix(v, Top(bit)), Mix(Mix(v, d), Top(!bit)));
    }
  }

  lemma BitCrcOne(c: Register, bit: bool)
    ensures BitCrc(c, [bit]) == Shift(Mix(c, Top(bit)))
  {
    hide Shift, Mix;
    assert [bit][1..] == [];
  }

  // From one register: two wrong bits with the bits in `mid` between them.
  lemma TwoFlips(s: Register, a: bool, mid: seq<bool>, b: bool)
    ensures BitCrc(s, [a] + (mid + [b])) == BitCrc(s, [!a] + (mid + [!b])) <==> (|mid| + 1) % 32767 == 0
  {
    hide BitCrc, Shift, Mix, Shifts;
    var u := Shift(Mix(s, Top(a)));
    BitCrcConcat(s, [a], mid + [b]);
    BitCrcConcat(s, [!a], mid + [!b]);
    BitCrcOne(s, a);
    BitCrcOne(s, !a);
    FlipFirst(s, a);
    BitCrcConcat(u, mid, [b]);
    BitCrcConcat(Mix(u, POLY), mid, [!b]);
    BitCrcDiffers(u, POLY, mid);
    var v, d := BitCrc(u, mid), Shifts(POLY, |mid|);
    BitCrcOne(v, b);
    BitCrcOne(Mix(v, d), !b);
    SecondFlip(v, d, b);
    PolyShifts(|mid|);
    ReturnsIff(|mid| + 1);
  }

  lemma PolyShifts(k: nat)
    ensures Shifts(POLY, k) == Shifts(0x8000, k + 1)
  {
    hide Xor;
    MixZero(POLY);
    assert Shift(0x8000) == POLY by { assert Xor(0, POLY) == Mix(0, POLY); }
  }

  // The bits are the same but for those at p and q.
  ghost predicate TwoWrong(x: seq<bool>, y: seq<bool>, p: nat, q: nat)
  {
    p < q < |x| == |y| && forall i :: 0 <= i < |x| ==> (x[i] != y[i] <==> i == p || i == q)
  }

  lemma TwoWrongInside(x: seq<bool>, y: seq<bool>, p: nat, q: nat)
    requires TwoWrong(x, y, p, q)
    ensures p < q < |x| == |y|
  {
  }

  lemma TwoWrongParts(x: seq<bool>, y: seq<bool>, p: nat, q: nat)
    requires TwoWrong(x, y, p, q)
    ensures var pre, mid, post := x[..p], x[p + 1..q], x[q + 1..];
      && x == pre + (([x[p]] + (mid + [x[q]])) + post)
      && y == pre + (([!x[p]] + (mid + [!x[q]])) + post)
  {
  }

  lemma BitsMissedIff(crc: Register, x: seq<bool>, y: seq<bool>, p: nat, q: nat)
    requires TwoWrong(x, y, p, q)
    ensures BitCrc(crc, x) == BitCrc(crc, y) <==> (q - p) % 32767 == 0
  {
    hide BitCrc, TwoWrong;
    TwoWrongInside(x, y, p, q);
    var pre, mid, post := x[..p], x[p + 1..q], x[q + 1..];
    var wx, wy := [x[p]] + (mid + [x[q]]), [!x[p]] + (mid + [!x[q]]);
    TwoWrongParts(x, y, p, q);
    BitCrcConcat(crc, pre, wx + post);
    BitCrcConcat(crc, pre, wy + post);
    var s := BitCrc(crc, pre);
    BitCrcConcat(s, wx, post);
    BitCrcConcat(s, wy, post);
    TwoFlips(s, x[p], mid, x[q]);
    if BitCrc(crc, x) == BitCrc(crc, y) { BitCrcInjective(BitCrc(s, wx), BitCrc(s, wy), post); }
  }

  // Two wrong bits in a message of any length are missed exactly when their distance is a multiple of 32767.
  lemma TwoFlipsMissedIff(a: seq<Byte>, b: seq<Byte>, p: nat, q: nat)
    requires TwoWrong(MessageBits(a), MessageBits(b), p, q)
    ensures Crc16(a) == Crc16(b) <==> (q - p) % 32767 == 0
  {
    hide BitCrc, CrcFrom, MessageBits, TwoWrong;
    CrcIsBits(0xFFFF, a);
    CrcIsBits(0xFFFF, b);
    BitsMissedIff(0xFFFF, MessageBits(a), MessageBits(b), p, q);
  }

  // ---- up to three wrong bits ----

  lemma {:induction false} OneFlipAt(x: seq<bool>, y: seq<bool>) returns (p: nat)
    requires |x| == |y| && Flips(x, y) == 1
    ensures p < |x| && forall i :: 0 <= i < |x| ==> (x[i] != y[i] <==> i == p)
  {
    if x[0] != y[0] {
      p := 0;
      NoFlips(x[1..], y[1..]);
    } else {
      p := OneFlipAt(x[1..], y[1..]);
      p := p + 1;
    }
  }

  lemma {:induction false} NoFlips(x: seq<bool>, y: seq<bool>)
    requires |x| == |y| && Flips(x, y) == 0
    ensures x == y
  {
    if x != [] { NoFlips(x[1..], y[1..]); }
  }

  lemma {:induction false} TwoFlipsAt(x: seq<bool>, y: seq<bool>) returns (p: nat, q: nat)
    requires |x| == |y| && Flips(x, y) == 2
    ensures TwoWrong(x, y, p, q)
  {
    if x[0] != y[0] {
      p := 0;
      q := OneFlipAt(x[1..], y[1..]);
      q := q + 1;
    } else {
      p, q := TwoFlipsAt(x[1..], y[1..]);
      p, q := p + 1, q + 1;
    }
  }

  // Messages of the same length, up to 4095 bytes, that differ in one, two or three bits have different CRCs.
  lemma ThreeFlipsDetected(a: seq<Byte>, b: seq<Byte>)
    requires |a| == |b| <= 4095 && 1 <= Flips(MessageBits(a), MessageBits(b)) <= 3
    ensures Crc16(a) != Crc16(b)
  {
    hide CrcFrom, MessageBits, Flips;
    if Flips(MessageBits(a), MessageBits(b)) == 2 {
      var p, q := TwoFlipsAt(MessageBits(a), MessageBits(b));
      assert 0 < q - p < 32767;
      TwoFlipsMissedIff(a, b, p, q);
    } else {
      OddFlipsDetected(a, b);
    }
  }
}
