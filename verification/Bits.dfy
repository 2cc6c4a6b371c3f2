/** Bitwise operators on natural numbers, bit by bit, and what they do on aligned lanes. */
module Bits {

  function Pow2(k: nat): (r: nat)
    ensures r >= 1
  {
    if k == 0 then 1 else 2 * Pow2(k - 1)
  }

  function And(a: nat, b: nat): (r: nat)
    decreases a
  {
    if a == 0 || b == 0 then 0
    else 2 * And(a / 2, b / 2) + (if a % 2 == 1 && b % 2 == 1 then 1 else 0)
  }

  function Or(a: nat, b: nat): (r: nat)
    decreases a
  {
    if a == 0 then b
    else if b == 0 then a
    else 2 * Or(a / 2, b / 2) + (if a % 2 == 1 || b % 2 == 1 then 1 else 0)
  }

  function Shl(a: nat, k: nat): (r: nat)
    decreases k
  {
    if k == 0 then a else 2 * Shl(a, k - 1)
  }

  lemma {:induction false} ShlIsProduct(a: nat, k: nat)
    ensures Shl(a, k) == a * Pow2(k)
    decreases k
  {
    if k > 0 {
      ShlIsProduct(a, k - 1);
      DoubleFactor(a, Pow2(k - 1));
    }
  }

  lemma DoubleFactor(a: nat, p: nat)
    ensures a * (2 * p) == 2 * (a * p)
  {
  }

  lemma {:induction false} PowerSum(j: nat, k: nat)
    ensures Pow2(j + k) == Pow2(j) * Pow2(k)
  {
    if j > 0 {
      PowerSum(j - 1, k);
      assert Pow2(j + k) == 2 * Pow2(j - 1 + k);
      assert 2 * (Pow2(j - 1) * Pow2(k)) == Pow2(j) * Pow2(k);
    }
  }

  // Halving commutes with taking low bits.
  lemma HalveMod(a: nat, p: nat)
    requires p >= 1
    ensures a % (2 * p) == 2 * ((a / 2) % p) + a % 2
  {
    var q, r := (a / 2) / p, (a / 2) % p;
    assert a / 2 == p * q + r;
    var rest := 2 * r + a % 2;
    assert a == (2 * p) * q + rest by {
      assert (2 * p) * q == 2 * (p * q);
    }
    assert 0 <= rest < 2 * p;
    ModUnique(a, 2 * p, q, rest);
  }

  // Quotient and remainder are unique.
  lemma ModUnique(a: nat, m: nat, q: int, r: nat)
    requires m >= 1 && r < m && a == m * q + r
    ensures a % m == r && a / m == q
  {
    var d := q - a / m;
    assert m * d == a % m - r by { assert m * d == m * q - m * (a / m); }
    MultipleIsFar(m, d);
  }

  lemma MultipleIsFar(m: nat, d: int)
    requires m >= 1
    ensures d == 0 || m * d >= m || m * d <= -(m as int)
  {
    if d >= 1 { assert m * (d - 1) >= 0; } else if d <= -1 { assert m * (-d - 1) >= 0; }
  }

  // Masking with k ones keeps the low k bits.
  lemma {:induction false} AndLow(a: nat, k: nat)
    ensures And(a, Pow2(k) - 1) == a % Pow2(k)
    decreases k
  {
    hide And;
    AndNone(a);
    AndNone(Pow2(k) - 1);
    if k == 0 {
    } else if a > 0 {
      AndLow(a / 2, k - 1);
      HalveMod(a, Pow2(k - 1));
      AndOnes(a, Pow2(k - 1));
    } else {
      ModUnique(0, Pow2(k), 0, 0);
    }
  }

  lemma AndNone(a: nat)
    ensures And(a, 0) == 0 && And(0, a) == 0
  {
  }

  lemma AndOnes(a: nat, p: nat)
    requires a > 0 && p >= 1
    ensures And(a, 2 * p - 1) == 2 * And(a / 2, p - 1) + a % 2
  {
    var ones := 2 * p - 1;
    assert ones / 2 == p - 1 && ones % 2 == 1;
  }

  lemma AndDoubled(a: nat, m: nat)
    ensures And(a, 2 * m) == 2 * And(a / 2, m)
  {
    if a == 0 || m == 0 { AndNone(a / 2); }
  }

  // Masking with ones from bit k up to bit j + k drops the low k bits of a (j + k)-bit word.
  lemma {:induction false} AndHigh(a: nat, j: nat, k: nat)
    requires a < Pow2(j + k)
    ensures And(a, Shl(Pow2(j) - 1, k)) == a - a % Pow2(k)
    decreases k
  {
    hide And;
    if k == 0 {
      AndLow(a, j);
      ModUnique(a, Pow2(j), 0, a);
      assert Shl(Pow2(j) - 1, 0) == Pow2(j) - 1;
      assert a % 1 == 0;
    } else {
      var m := Shl(Pow2(j) - 1, k - 1);
      assert Shl(Pow2(j) - 1, k) == 2 * m;
      assert Pow2(j + k) == 2 * Pow2(j + (k - 1));
      HalveMod(a, Pow2(k - 1));
      AndHigh(a / 2, j, k - 1);
      AndDoubled(a, m);
    }
  }

  lemma {:induction false} OrCommutes(a: nat, b: nat)
    ensures Or(a, b) == Or(b, a)
    decreases a
  {
    if a != 0 && b != 0 { OrCommutes(a / 2, b / 2); }
  }

  // Or-ing in a low lane next to an aligned high lane adds it.
  lemma {:induction false} OrLanes(h: nat, l: nat, k: nat)
    requires l < Pow2(k)
    ensures Or(Shl(h, k), l) == Shl(h, k) + l == Or(l, Shl(h, k))
    decreases k
  {
    var hi := Shl(h, k);
    OrCommutes(hi, l);
    if k > 0 {
      var half := Shl(h, k - 1);
      OrLanes(h, l / 2, k - 1);
      assert Or(half, l / 2) == half + l / 2;
      OrDoubled(half, l);
    }
  }

  lemma OrDoubled(half: nat, l: nat)
    requires Or(half, l / 2) == half + l / 2
    ensures Or(2 * half, l) == 2 * half + l
  {
    if half != 0 && l != 0 {
      var a := 2 * half;
      assert a / 2 == half && a % 2 == 0;
      assert Or(a, l) == 2 * Or(a / 2, l / 2) + (if l % 2 == 1 then 1 else 0);
    }
  }

  // Replacing the bits of w from bit k on, and replacing its k low bits.
  lemma ReplaceHigh(w: nat, v: nat, k: nat)
    ensures Or(And(w, Pow2(k) - 1), Shl(v, k)) == w % Pow2(k) + Shl(v, k)
  {
    AndLow(w, k);
    OrLanes(v, w % Pow2(k), k);
  }

  lemma ReplaceLow(w: nat, v: nat, j: nat, k: nat)
    requires w < Pow2(j + k) && v < Pow2(k)
    ensures Or(And(w, Shl(Pow2(j) - 1, k)), v) == w - w % Pow2(k) + v
  {
    var hi := w / Pow2(k);
    AndHigh(w, j, k);
    assert Shl(hi, k) == w - w % Pow2(k) by {
      ShlIsProduct(hi, k);
      DivModSplit(w, Pow2(k));
    }
    OrLanes(hi, v, k);
  }

  lemma DivModSplit(w: nat, p: nat)
    requires p >= 1
    ensures (w / p) * p == w - w % p
  {
  }

  // ---- exclusive or, through the bits ----

  function Xor(a: nat, b: nat): (r: nat)
    decreases a + b
  {
    if a == 0 then b else if b == 0 then a
    else 2 * Xor(a / 2, b / 2) + (if a % 2 != b % 2 then 1 else 0)
  }

  predicate Bit(n: nat, j: nat)
    decreases j
  {
    if j == 0 then n % 2 == 1 else Bit(n / 2, j - 1)
  }

  lemma {:induction false} BitOfZero(j: nat)
    ensures !Bit(0, j)
    decreases j
  {
    if j > 0 { BitOfZero(j - 1); }
  }

  lemma {:induction false} BitXor(a: nat, b: nat, j: nat)
    ensures Bit(Xor(a, b), j) == (Bit(a, j) != Bit(b, j))
    decreases j
  {
    if a == 0 || b == 0 {
      BitOfZero(j);
    } else if j > 0 {
      assert Xor(a, b) / 2 == Xor(a / 2, b / 2);
      BitXor(a / 2, b / 2, j - 1);
    }
  }

  lemma {:induction false} XorBound(a: nat, b: nat, k: nat)
    requires a < Pow2(k) && b < Pow2(k)
    ensures Xor(a, b) < Pow2(k)
    decreases k
  {
    if k > 0 && a != 0 && b != 0 { XorBound(a / 2, b / 2, k - 1); }
  }

  lemma {:induction false} XorCommutes(a: nat, b: nat)
    ensures Xor(a, b) == Xor(b, a)
    decreases a + b
  {
    if a != 0 && b != 0 { XorCommutes(a / 2, b / 2); }
  }

  lemma {:induction false} XorAssociates(a: nat, b: nat, c: nat)
    ensures Xor(Xor(a, b), c) == Xor(a, Xor(b, c))
    decreases a + b + c
  {
    if a != 0 && b != 0 && c != 0 {
      XorAssociates(a / 2, b / 2, c / 2);
      XorHalf(a, b);
      XorHalf(b, c);
      XorHalf(Xor(a, b), c);
      XorHalf(a, Xor(b, c));
    }
  }

  lemma XorHalf(a: nat, b: nat)
    ensures Xor(a, b) / 2 == Xor(a / 2, b / 2)
    ensures Xor(a, b) % 2 == if a % 2 != b % 2 then 1 else 0
  {
    if a != 0 && b != 0 {
      var h := Xor(a / 2, b / 2);
      assert Xor(a, b) == 2 * h + (if a % 2 != b % 2 then 1 else 0);
    } else if b == 0 {
      assert Xor(a / 2, 0) == a / 2;
    }
  }

  lemma {:induction false} XorSelf(a: nat)
    ensures Xor(a, a) == 0
  {
    if a != 0 { XorSelf(a / 2); }
  }

  // x ^ t undoes itself.
  lemma XorCancel(x: nat, t: nat)
    ensures Xor(Xor(x, t), t) == x && Xor(t, Xor(t, x)) == x
  {
    XorSelf(t);
    XorAssociates(x, t, t);
    XorAssociates(t, t, x);
  }

  lemma {:induction false} XorMod(a: nat, b: nat, k: nat)
    ensures Xor(a, b) % Pow2(k) == Xor(a % Pow2(k), b % Pow2(k))
    decreases k
  {
    if k > 0 {
      var p := Pow2(k - 1);
      HalveMod(a, p);
      HalveMod(b, p);
      HalveMod(Xor(a, b), p);
      XorHalf(a, b);
      XorMod(a / 2, b / 2, k - 1);
      XorJoin((a / 2) % p, a % 2, (b / 2) % p, b % 2);
    }
  }

  lemma XorModSmall(a: nat, b: nat, k: nat)
    requires b < Pow2(k)
    ensures Xor(a, b) % Pow2(k) == Xor(a % Pow2(k), b)
  {
    XorMod(a, b, k);
    ModUnique(b, Pow2(k), 0, b);
  }

  lemma XorJoin(ha: nat, la: nat, hb: nat, lb: nat)
    requires la < 2 && lb < 2
    ensures Xor(2 * ha + la, 2 * hb + lb) == 2 * Xor(ha, hb) + (if la != lb then 1 else 0)
  {
    hide Xor;
    var a, b := 2 * ha + la, 2 * hb + lb;
    assert a / 2 == ha && a % 2 == la && b / 2 == hb && b % 2 == lb;
    XorHalf(a, b);
  }

  lemma {:induction false} TopIsBit(x: nat, k: nat)
    requires x < Pow2(k + 1)
    ensures Bit(x, k) <==> x >= Pow2(k)
    decreases k
  {
    if k > 0 { TopIsBit(x / 2, k - 1); }
  }

  lemma XorDouble(a: nat, b: nat)
    ensures Xor(2 * a, 2 * b) == 2 * Xor(a, b)
  {
    XorJoin(a, 0, b, 0);
  }

  // Repeated addition: scales an index without nonlinear arithmetic in later proofs.
  function Times(k: nat, unit: nat): (r: nat)
    decreases k
  {
    if k == 0 then 0 else unit + Times(k - 1, unit)
  }

  lemma {:induction false} TimesIsProduct(k: nat, unit: nat)
    ensures Times(k, unit) == k * unit
    decreases k
  {
    if k > 0 {
      TimesIsProduct(k - 1, unit);
      assert k * unit == unit + (k - 1) * unit;
    }
  }

  lemma {:induction false} TimesSpaced(j: nat, k: nat, unit: nat)
    requires j < k
    ensures Times(j, unit) + unit <= Times(k, unit)
    decreases k
  {
    if j < k - 1 { TimesSpaced(j, k - 1, unit); }
  }

  lemma Pow2Values()
    ensures Pow2(7) == 128 && Pow2(12) == 4096 && Pow2(16) == 0x10000 && Pow2(28) == 0x10000000 &&
      Pow2(32) == 0x100000000
  {
  }
}
