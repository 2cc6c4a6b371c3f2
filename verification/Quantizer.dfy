/**
 Block quantization of weights to signed bytes with two half-precision scales per block of 32. Values are reals; how
 the scale and the quotients are rounded to single precision, and the scale to half precision, is a parameter.
 */
module Quantizer {
  import opened Bits
  import opened Bytes

  // Single precision: the scale computed from the largest magnitude, and division. Half precision: the two bytes of a
  // scale, and their value.
  datatype Arith = Arith(scale: real -> real, quo: (real, real) -> real, pack: real -> seq<Byte>,
                         unpack: seq<Byte> -> real)

  ghost predicate TwoBytes(fp: Arith) { forall s: real :: |fp.pack(s)| == 2 }

  // Scale and quotients without rounding.
  ghost predicate Exact(fp: Arith)
  {
    (forall m :: fp.scale(m) == m / 127.0) && (forall x, s :: s != 0.0 ==> fp.quo(x, s) == x / s)
  }

  function Abs(x: real): (r: real) { if x < 0.0 then -x else x }

  // ---- rounding ----

  // To the nearest integer, ties to the even one.
  function Round(x: real): (r: int)
  {
    var low := x.Floor;
    var rest := x - low as real;
    if rest < 0.5 || (rest == 0.5 && low % 2 == 0) then low else low + 1
  }

  lemma RoundIsNearest(x: real)
    ensures Abs(x - Round(x) as real) <= 0.5
    ensures Abs(x - Round(x) as real) == 0.5 ==> Round(x) % 2 == 0
  {
    var low := x.Floor;
    assert low as real <= x < low as real + 1.0;
    assert (low + 1) as real == low as real + 1.0;
  }

  lemma RoundWithin(x: real, n: int)
    requires 0 <= n && Abs(x) <= n as real
    ensures -n <= Round(x) <= n
  {
    RoundIsNearest(x);
  }

  // ---- one half block ----

  function MaxAbs(xs: seq<real>): (r: real)
    ensures r >= 0.0 && (forall i :: 0 <= i < |xs| ==> Abs(xs[i]) <= r)
    ensures r == 0.0 || exists i :: 0 <= i < |xs| && Abs(xs[i]) == r
    decreases |xs|
  {
    if xs == [] then 0.0
    else
      var m, x := MaxAbs(xs[..|xs| - 1]), Abs(xs[|xs| - 1]);
      if x > m then x else m
  }

  function Scale(fp: Arith, xs: seq<real>): real { if MaxAbs(xs) == 0.0 then 0.0 else fp.scale(MaxAbs(xs)) }

  function Clip(q: int): (r: int) { if q < -127 then -127 else if q > 127 then 127 else q }

  function Quant(fp: Arith, xs: seq<real>, x: real): (q: int)
    ensures -127 <= q <= 127
  {
    if MaxAbs(xs) == 0.0 then 0 else Clip(Round(fp.quo(x, Scale(fp, xs))))
  }

  lemma DivideBack(x: real, s: real)
    requires s > 0.0
    ensures x / s * s == x
  {
  }

  lemma QuotientBound(x: real, s: real, n: real)
    requires s > 0.0 && Abs(x) <= n * s
    ensures Abs(x / s) <= n
  {
    var y := x / s;
    DivideBack(x, s);
    if y > n { Grows(y, n, s); }
    if y < -n { Grows(-y, n, s); }
  }

  lemma Grows(a: real, b: real, s: real)
    requires s > 0.0 && a > b
    ensures a * s > b * s
  {
    assert (a - b) * s > 0.0;
  }

  lemma StepBound(x: real, m: real, s: real)
    requires m > 0.0 && s == m / 127.0 && Abs(x) <= m
    ensures s > 0.0 && -127 <= Round(x / s) <= 127
  {
    hide Round;
    assert 127.0 * s == m;
    QuotientBound(x, s, 127.0);
    RoundWithin(x / s, 127);
  }

  // Without rounding, elements of the half block need no clipping.
  lemma QuantIsRounded(fp: Arith, xs: seq<real>, i: nat)
    requires Exact(fp) && i < |xs| && MaxAbs(xs) != 0.0
    ensures Quant(fp, xs, xs[i]) == Round(xs[i] / Scale(fp, xs)) && Scale(fp, xs) > 0.0
  {
    hide Round, MaxAbs;
    StepBound(xs[i], MaxAbs(xs), Scale(fp, xs));
  }

  lemma ProductSign(a: real, b: real)
    requires a >= 0.0 && b >= 0.0
    ensures a * b >= 0.0
  {
  }

  lemma ScaledBy(d: real, s: real, bound: real)
    requires s >= 0.0 && Abs(d) <= bound
    ensures Abs(d * s) <= bound * s
  {
    ProductSign(bound - d, s);
    ProductSign(bound + d, s);
    Spread(bound, d, s);
  }

  lemma Spread(a: real, b: real, s: real)
    ensures (a - b) * s == a * s - b * s && (a + b) * s == a * s + b * s
  {
  }

  lemma ScaledQuant(q: real, d: real)
    requires -127.0 <= q <= 127.0
    ensures Abs(q * d) <= 127.0 * Abs(d)
  {
    var e := Abs(d);
    ScaledBy(q, e, 127.0);
    assert d == e || d == -e;
    NegatedFactor(q, e);
  }

  lemma NegatedFactor(q: real, e: real)
    ensures q * -e == -(q * e)
  {
  }

  lemma Distribute(a: real, b: real, s: real)
    ensures (a - b) * s == a * s - b * s && s * (a - b) == s * a - s * b
  {
  }

  lemma Triangle(a: real, b: real, c: real, x: real, y: real)
    requires c == a + b && Abs(a) <= x && Abs(b) <= y
    ensures Abs(c) <= x + y
  {
  }

  // How far a quant times a scale is from the value.
  function Miss(x: real, q: int, s: real): real { Abs(x - q as real * s) }

  // What the quotient y of x and s is off, in units of the value.
  function Off(x: real, s: real, y: real): real
    requires s > 0.0
  {
    Abs(y - x / s) * s
  }

  lemma OffPositive(x: real, s: real, y: real)
    requires s > 0.0
    ensures Off(x, s, y) >= 0.0
  {
  }

  // A quotient rounded without being clipped.
  lemma RoundedError(x: real, s: real, y: real)
    requires s > 0.0
    ensures Miss(x, Round(y), s) <= s / 2.0 + Off(x, s, y)
  {
    hide Round;
    var z, q, e := x / s, Round(y) as real, Abs(y - x / s);
    RoundIsNearest(y);
    ScaledBy(z - q, s, 0.5 + e);
    DivideBack(x, s);
    Distribute(z, q, s);
    assert (0.5 + e) * s == s / 2.0 + e * s;
  }

  lemma ScaledAbove(z: real, e: real, s: real, zs: real, top: real, off: real)
    requires s > 0.0 && z >= 127.0 - e && zs == z * s && top == 127.0 * s && off == e * s
    ensures zs >= top - off
  {
    var d := z - (127.0 - e);
    assert d * s >= 0.0;
    assert d * s == z * s - (127.0 - e) * s;
    Distribute(127.0, e, s);
  }

  // One that is clipped at the top: the element is no larger than the maximum.
  lemma ClippedError(x: real, m: real, s: real, y: real)
    requires s > 0.0 && x <= m && Round(y) > 127
    ensures Miss(x, 127, s) <= Off(x, s, y) + Miss(m, 127, s)
  {
    hide Round;
    RoundIsNearest(y);
    var z := x / s;
    DivideBack(x, s);
    OffPositive(x, s, y);
    var top, off := 127.0 * s, Off(x, s, y);
    ScaledAbove(z, Abs(y - z), s, x, top, off);
    Between(x, m, top, off);
  }

  lemma Between(x: real, m: real, top: real, off: real)
    requires top - off <= x <= m && off >= 0.0
    ensures Abs(x - top) <= off + Abs(m - top)
  {
  }

  lemma RoundNegates(y: real)
    ensures Round(-y) == -Round(y)
  {
    var low := y.Floor;
    assert low as real <= y < low as real + 1.0;
    assert (-low) as real == -(low as real) && (-low - 1) as real == -(low as real) - 1.0;
  }

  lemma OffNegates(x: real, s: real, y: real)
    requires s > 0.0
    ensures Off(-x, s, -y) == Off(x, s, y)
  {
    DivideBack(x, s);
    DivideBack(-x, s);
    var a, b := (-x) / s, -(x / s);
    assert (a - b) * s == 0.0;
    assert a == b;
  }

  lemma MissNegates(x: real, q: int, s: real)
    ensures Miss(-x, q, s) == Miss(x, -q, s)
  {
    assert (-q) as real == -(q as real);
  }

  // What rounding the quotient to y and clipping costs, for any scale s.
  lemma QuotientError(x: real, m: real, s: real, y: real)
    requires s > 0.0 && Abs(x) <= m
    ensures Miss(x, Clip(Round(y)), s) <= s / 2.0 + Off(x, s, y) + Miss(m, 127, s)
  {
    hide Round, Miss, Off;
    OffPositive(x, s, y);
    MissPositive(m, 127, s);
    if Round(y) > 127 {
      ClippedError(x, m, s, y);
    } else if Round(y) < -127 {
      RoundNegates(y);
      OffNegates(x, s, y);
      ClippedError(-x, m, s, -y);
      MissNegates(x, 127, s);
    } else {
      RoundedError(x, s, y);
    }
  }

  lemma MissPositive(x: real, q: int, s: real)
    ensures Miss(x, q, s) >= 0.0
  {
  }

  // The share of the error that is not due to half precision: half a step, the rounding of the quotient, and the
  // rounding of the scale.
  ghost function Slack(fp: Arith, xs: seq<real>, x: real): real
    requires Usable(fp, xs)
  {
    if MaxAbs(xs) == 0.0 then 0.0
    else
      var s := Scale(fp, xs);
      s / 2.0 + Off(x, s, fp.quo(x, s)) + Miss(MaxAbs(xs), 127, s)
  }

  // The scale of a half block that is not all zeros did not vanish in rounding.
  ghost predicate Usable(fp: Arith, xs: seq<real>) { MaxAbs(xs) == 0.0 || Scale(fp, xs) > 0.0 }

  lemma NothingToRound(fp: Arith, xs: seq<real>, i: nat)
    requires i < |xs| && MaxAbs(xs) == 0.0
    ensures xs[i] == 0.0 && Quant(fp, xs, xs[i]) == 0
  {
    hide MaxAbs;
    assert Abs(xs[i]) <= MaxAbs(xs);
  }

  lemma ScaleError(fp: Arith, xs: seq<real>, i: nat)
    requires i < |xs| && Usable(fp, xs)
    ensures Miss(xs[i], Quant(fp, xs, xs[i]), Scale(fp, xs)) <= Slack(fp, xs, xs[i])
  {
    hide Round, MaxAbs, Clip, Off;
    if MaxAbs(xs) == 0.0 {
      NothingToRound(fp, xs, i);
    } else {
      QuotientError(xs[i], MaxAbs(xs), Scale(fp, xs), fp.quo(xs[i], Scale(fp, xs)));
    }
  }

  lemma MixedError(x: real, q: int, s: real, stored: real, slack: real)
    requires -127 <= q <= 127 && Miss(x, q, s) <= slack
    ensures Miss(x, q, stored) <= slack + 127.0 * Abs(s - stored)
  {
    MixedReal(x, q as real, s, stored, slack);
  }

  lemma MixedReal(x: real, q: real, s: real, stored: real, slack: real)
    requires -127.0 <= q <= 127.0 && Abs(x - q * s) <= slack
    ensures Abs(x - q * stored) <= slack + 127.0 * Abs(s - stored)
  {
    var d := s - stored;
    ScaledQuant(q, d);
    Distribute(s, stored, q);
    var exact, off := q * s, q * d;
    Triangle(x - exact, off, x - q * stored, slack, 127.0 * Abs(d));
  }

  // However scale and quotient are rounded, a quant times the stored scale is off by at most the slack and 127 times
  // the error of the stored scale.
  lemma ErrorBound(fp: Arith, xs: seq<real>, i: nat, stored: real)
    requires i < |xs| && Usable(fp, xs)
    ensures Miss(xs[i], Quant(fp, xs, xs[i]), stored) <= Slack(fp, xs, xs[i]) + 127.0 * Abs(Scale(fp, xs) - stored)
  {
    hide Quant, Scale, Slack, Miss, Abs;
    ScaleError(fp, xs, i);
    MixedError(xs[i], Quant(fp, xs, xs[i]), Scale(fp, xs), stored, Slack(fp, xs, xs[i]));
  }

  // Without rounding the slack is half a step.
  lemma ExactSlack(fp: Arith, xs: seq<real>, x: real)
    requires Exact(fp)
    ensures Usable(fp, xs) && Scale(fp, xs) == MaxAbs(xs) / 127.0 && Slack(fp, xs, x) == Scale(fp, xs) / 2.0
  {
    hide MaxAbs;
    var s := Scale(fp, xs);
    assert 127.0 * s == MaxAbs(xs);
    if MaxAbs(xs) != 0.0 {
      assert fp.quo(x, s) == x / s;
      assert Off(x, s, x / s) == 0.0 * s == 0.0;
    }
  }

  // ---- blocks ----

  // A signed byte.
  function Signed(q: int): (b: Byte)
    requires -127 <= q <= 127
  {
    if q < 0 then q + 256 else q
  }

  function FromSigned(b: Byte): int { if b >= 128 then b as int - 256 else b }

  lemma FromSignedOfSigned(q: int)
    requires -127 <= q <= 127
    ensures FromSigned(Signed(q)) == q
  {
  }

  function Quants(fp: Arith, xs: seq<real>): (r: seq<Byte>)
    ensures |r| == |xs| && forall i :: 0 <= i < |xs| ==> r[i] == Signed(Quant(fp, xs, xs[i]))
  {
    seq(|xs|, i requires 0 <= i < |xs| => Signed(Quant(fp, xs, xs[i])))
  }

  // Two scales, then the bytes of both halves.
  function Block(fp: Arith, xs: seq<real>): (r: seq<Byte>)
    requires |xs| == 32
  {
    fp.pack(Scale(fp, xs[..16])) + fp.pack(Scale(fp, xs[16..])) + (Quants(fp, xs[..16]) + Quants(fp, xs[16..]))
  }

  function Blocks(fp: Arith, xs: seq<real>): (r: seq<seq<Byte>>)
    requires |xs| % 32 == 0
    ensures |r| == |xs| / 32
    ensures forall b :: 0 <= b < |r| ==> r[b] == Block(fp, xs[32 * b..32 * b + 32])
  {
    seq(|xs| / 32, b requires 0 <= b < |xs| / 32 => Block(fp, xs[32 * b..32 * b + 32]))
  }

  // ---- the loops ----

  method FindMaxAbs(xs: seq<real>) returns (m: real)
    ensures m == MaxAbs(xs)
  {
    m := 0.0;
    for i := 0 to |xs|
      invariant m == MaxAbs(xs[..i])
    {
      assert xs[..i + 1][..i] == xs[..i];
      if Abs(xs[i]) > m { m := Abs(xs[i]); }
    }
    assert xs[..|xs|] == xs;
  }

  method QuantizeHalf(fp: Arith, xs: seq<real>) returns (scale: real, qs: seq<Byte>)
    ensures scale == Scale(fp, xs) && qs == Quants(fp, xs)
  {
    hide MaxAbs, Round;
    var absmax := FindMaxAbs(xs);
    scale := if absmax == 0.0 then 0.0 else fp.scale(absmax);
    qs := [];
    for i := 0 to |xs|
      invariant qs == Quants(fp, xs)[..i]
    {
      var q := if absmax == 0.0 then 0 else Clip(Round(fp.quo(xs[i], scale)));
      assert q == Quant(fp, xs, xs[i]);
      qs := qs + [Signed(q)];
    }
  }

  method QuantizeBlock(fp: Arith, block: seq<real>) returns (r: seq<Byte>)
    requires |block| == 32
    ensures r == Block(fp, block)
  {
    hide Scale, Quants;
    var scales: seq<Byte>, quants: seq<Byte> := [], [];
    var scale, qs := QuantizeHalf(fp, block[..16]);
    scales, quants := scales + fp.pack(scale), quants + qs;
    scale, qs := QuantizeHalf(fp, block[16..]);
    scales, quants := scales + fp.pack(scale), quants + qs;
    r := scales + quants;
  }

  // None is the exception for a length that is not a multiple of the block size.
  method Q8Bytes(fp: Arith, values: seq<real>) returns (r: Option<seq<Byte>>)
    ensures r == if |values| % 32 == 0 then Some(Flatten(Blocks(fp, values))) else None
  {
    if |values| % 32 != 0 { return None; }
    hide Block, Flatten;
    var out: seq<Byte> := [];
    ghost var blocks := Blocks(fp, values);
    FlattenStart(blocks);
    for b := 0 to |values| / 32
      invariant out == Flatten(blocks[..b])
    {
      var block := QuantizeBlock(fp, values[32 * b..32 * b + 32]);
      FlattenAt(blocks, b);
      out := out + block;
    }
    assert blocks[..|blocks|] == blocks;
    r := Some(out);
  }

  lemma FlattenStart(parts: seq<seq<Byte>>)
    ensures Flatten(parts[..0]) == []
  {
  }

  // ---- where things are, and reading them back ----

  // Byte j of part b, when all parts have the same width.
  lemma {:induction false} FlattenFixed(parts: seq<seq<Byte>>, width: nat, b: nat, j: nat)
    requires (forall k :: 0 <= k < |parts| ==> |parts[k]| == width) && b < |parts| && j < width
    ensures Times(b, width) + width <= |Flatten(parts)| && Flatten(parts)[Times(b, width) + j] == parts[b][j]
    decreases b
  {
    if b > 0 { FlattenFixed(parts[1..], width, b - 1, j); }
  }

  lemma BlockAt(fp: Arith, xs: seq<real>, j: nat)
    requires TwoBytes(fp) && |xs| == 32 && j < 32
    ensures var half := if j < 16 then xs[..16] else xs[16..];
      && |Block(fp, xs)| == 36
      && Block(fp, xs)[4 + j] == Signed(Quant(fp, half, xs[j]))
      && Block(fp, xs)[2 * (j / 16)] == fp.pack(Scale(fp, half))[0]
      && Block(fp, xs)[2 * (j / 16) + 1] == fp.pack(Scale(fp, half))[1]
  {
    hide Scale, Quant, Signed;
    assert |fp.pack(Scale(fp, xs[..16]))| == 2 && |fp.pack(Scale(fp, xs[16..]))| == 2;
  }

  lemma HalfFits(n: nat, i: nat)
    requires n % 32 == 0 && i < n
    ensures 16 * (i / 16) + 16 <= n
  {
    var m := 2 * (n / 32);
    assert n == 16 * m;
    assert i / 16 < m;
  }

  // The half block of element i.
  function HalfOf(values: seq<real>, i: nat): (r: seq<real>)
    requires |values| % 32 == 0 && i < |values|
    ensures |r| == 16 && r[i % 16] == values[i]
  {
    HalfFits(|values|, i);
    assert i == 16 * (i / 16) + i % 16;
    values[16 * (i / 16)..16 * (i / 16) + 16]
  }

  lemma HalfInBlock(values: seq<real>, i: nat)
    requires |values| % 32 == 0 && i < |values|
    ensures 32 * (i / 32) + 32 <= |values|
    ensures var block, j := values[32 * (i / 32)..32 * (i / 32) + 32], i % 32;
      block[j] == values[i] && HalfOf(values, i) == (if j < 16 then block[..16] else block[16..])
  {
    var k, j := i / 32, i % 32;
    if j < 16 {
      HalfIndex(i, k, j, 0);
    } else {
      HalfIndex(i, k, j, 1);
    }
  }

  lemma HalfIndex(i: nat, k: nat, j: nat, h: nat)
    requires i == 32 * k + j && 16 * h <= j < 16 * h + 16 && h < 2
    ensures i / 16 == 2 * k + h
  {
  }

  lemma BlocksWide(fp: Arith, values: seq<real>)
    requires TwoBytes(fp) && |values| % 32 == 0
    ensures forall b :: 0 <= b < |values| / 32 ==> |Blocks(fp, values)[b]| == 36
    ensures |Flatten(Blocks(fp, values))| == 36 * (|values| / 32)
  {
    hide Block;
    forall b | 0 <= b < |values| / 32 ensures |Blocks(fp, values)[b]| == 36 {
      BlockAt(fp, values[32 * b..32 * b + 32], 0);
    }
    FlattenLength(Blocks(fp, values), 36);
  }

  lemma {:induction false} FlattenLength(parts: seq<seq<Byte>>, width: nat)
    requires forall k :: 0 <= k < |parts| ==> |parts[k]| == width
    ensures |Flatten(parts)| == width * |parts|
  {
    if parts != [] {
      FlattenLength(parts[1..], width);
      assert width * |parts| == width + width * (|parts| - 1);
    }
  }

  lemma ByteAt(fp: Arith, values: seq<real>, b: nat, j: nat)
    requires TwoBytes(fp) && |values| % 32 == 0 && b < |values| / 32 && j < 36
    ensures 36 * b + j < |Flatten(Blocks(fp, values))|
    ensures |Blocks(fp, values)[b]| == 36 && Flatten(Blocks(fp, values))[36 * b + j] == Blocks(fp, values)[b][j]
  {
    hide Blocks, Flatten;
    BlocksWide(fp, values);
    FlattenFixed(Blocks(fp, values), 36, b, j);
    TimesIsProduct(b, 36);
  }

  // End of element i's block, and the places of its quant and of its scale.
  function BlockEnd(i: nat): nat { 36 * (i / 32) + 36 }

  function QuantPlace(i: nat): (r: nat)
    ensures r < BlockEnd(i)
  {
    36 * (i / 32) + 4 + i % 32
  }

  function ScalePlace(i: nat): (r: nat)
    ensures r + 2 <= BlockEnd(i)
  {
    36 * (i / 32) + 2 * (i % 32 / 16)
  }

  // Element i's quant and the scale of its half block, at their bytes of the output.
  lemma ElementAt(fp: Arith, values: seq<real>, i: nat)
    requires TwoBytes(fp) && |values| % 32 == 0 && i < |values|
    ensures var out, half := Flatten(Blocks(fp, values)), HalfOf(values, i);
      && |out| == 36 * (|values| / 32) && BlockEnd(i) <= |out|
      && out[QuantPlace(i)] == Signed(Quant(fp, half, values[i]))
      && out[ScalePlace(i)..ScalePlace(i) + 2] == fp.pack(Scale(fp, half))
  {
    hide Flatten, Blocks, Scale, Quant, Signed, HalfOf, BlockEnd, QuantPlace, ScalePlace, TwoBytes;
    BlocksWide(fp, values);
    QuantAt(fp, values, i);
    ScaleAt(fp, values, i);
  }

  lemma QuantAt(fp: Arith, values: seq<real>, i: nat)
    requires TwoBytes(fp) && |values| % 32 == 0 && i < |values|
    ensures BlockEnd(i) <= |Flatten(Blocks(fp, values))|
    ensures Flatten(Blocks(fp, values))[QuantPlace(i)] == Signed(Quant(fp, HalfOf(values, i), values[i]))
  {
    hide Flatten, Scale, Quant, Signed, Block, HalfOf;
    var b, j := i / 32, i % 32;
    HalfInBlock(values, i);
    BlockAt(fp, values[32 * b..32 * b + 32], j);
    ByteAt(fp, values, b, 4 + j);
    ByteAt(fp, values, b, 35);
  }

  lemma ScaleAt(fp: Arith, values: seq<real>, i: nat)
    requires TwoBytes(fp) && |values| % 32 == 0 && i < |values|
    ensures BlockEnd(i) <= |Flatten(Blocks(fp, values))|
    ensures Flatten(Blocks(fp, values))[ScalePlace(i)..ScalePlace(i) + 2] == fp.pack(Scale(fp, HalfOf(values, i)))
  {
    hide Flatten, Scale, Quant, Signed, Block, HalfOf;
    var b, j := i / 32, i % 32;
    var p := 2 * (j / 16);
    HalfInBlock(values, i);
    BlockAt(fp, values[32 * b..32 * b + 32], j);
    ByteAt(fp, values, b, p);
    ByteAt(fp, values, b, p + 1);
    ByteAt(fp, values, b, 35);
    assert |fp.pack(Scale(fp, HalfOf(values, i)))| == 2;
  }

  // Reading element i back from the output.
  function Dequantized(fp: Arith, out: seq<Byte>, i: nat): real
    requires BlockEnd(i) <= |out|
  {
    FromSigned(out[QuantPlace(i)]) as real * fp.unpack(out[ScalePlace(i)..ScalePlace(i) + 2])
  }

  lemma DequantizedIs(fp: Arith, values: seq<real>, i: nat)
    requires TwoBytes(fp) && |values| % 32 == 0 && i < |values|
    ensures BlockEnd(i) <= |Flatten(Blocks(fp, values))|
    ensures Dequantized(fp, Flatten(Blocks(fp, values)), i) ==
      Quant(fp, HalfOf(values, i), values[i]) as real * fp.unpack(fp.pack(Scale(fp, HalfOf(values, i))))
  {
    hide Flatten, Blocks, Scale, Quant, Signed, FromSigned, BlockEnd, QuantPlace, ScalePlace, HalfOf;
    ElementAt(fp, values, i);
    FromSignedOfSigned(Quant(fp, HalfOf(values, i), values[i]));
  }

  // Every element read back is off by at most the slack of its half block, plus 127 times the rounding of the scale.
  lemma ReadBack(fp: Arith, values: seq<real>, i: nat)
    requires TwoBytes(fp) && |values| % 32 == 0 && i < |values| && Usable(fp, HalfOf(values, i))
    ensures BlockEnd(i) <= |Flatten(Blocks(fp, values))|
    ensures var s := Scale(fp, HalfOf(values, i));
      Abs(values[i] - Dequantized(fp, Flatten(Blocks(fp, values)), i)) <=
      Slack(fp, HalfOf(values, i), values[i]) + 127.0 * Abs(s - fp.unpack(fp.pack(s)))
  {
    hide Flatten, Blocks, Scale, Quant, BlockEnd, Dequantized, HalfOf, Slack, Usable;
    DequantizedIs(fp, values, i);
    ErrorBound(fp, HalfOf(values, i), i % 16, fp.unpack(fp.pack(Scale(fp, HalfOf(values, i)))));
  }

  // Without rounding to single precision that is half a step, plus 127 times the rounding of the scale.
  lemma ExactReadBack(fp: Arith, values: seq<real>, i: nat)
    requires TwoBytes(fp) && Exact(fp) && |values| % 32 == 0 && i < |values|
    ensures BlockEnd(i) <= |Flatten(Blocks(fp, values))|
    ensures var s := MaxAbs(HalfOf(values, i)) / 127.0;
      Abs(values[i] - Dequantized(fp, Flatten(Blocks(fp, values)), i)) <=
      s / 2.0 + 127.0 * Abs(s - fp.unpack(fp.pack(s)))
  {
    hide Flatten, Blocks, Scale, MaxAbs, BlockEnd, Dequantized, HalfOf, Slack, Abs, Exact, Usable;
    ExactSlack(fp, HalfOf(values, i), values[i]);
    ReadBack(fp, values, i);
  }

  // The byte of a quant is the quant modulo 256.
  lemma SignedMeans(q: int)
    requires -127 <= q <= 127
    ensures (Signed(q) - q) % 256 == 0
  {
  }
}
