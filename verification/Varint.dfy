/** Postcard varints: seven bits a byte, low bits first, the top bit set on all but the last byte. */
module Varint {
  import opened Bits
  import opened Bytes

  function Encode(v: nat): (r: seq<Byte>)
    ensures |r| >= 1
  {
    if v >= 128 then [v % 128 + 128] + Encode(v / 128) else [v]
  }

  // The value at an offset and the offset behind it; None is the "truncated" exception.
  function Decode(data: seq<Byte>, off: nat): (r: Option<(nat, nat)>)
    ensures r.Some? ==> off < r.value.1 <= |data|
    decreases |data| - off
  {
    if off >= |data| then None
    else if data[off] < 128 then Some((data[off], off + 1))
    else match Decode(data, off + 1)
      case None => None
      case Some((v, end)) => Some((data[off] % 128 + 128 * v, end))
  }

  // ---- the loops, with the source's bit operations ----

  lemma Low7(v: nat)
    ensures And(v, 0x7F) == v % 128
  {
    Pow2Values();
    AndLow(v, 7);
  }

  lemma SetTop(l: nat)
    requires l < 128
    ensures Or(l, 0x80) == l + 128
  {
    Pow2Values();
    assert Shl(1, 7) == 128;
    OrLanes(1, l, 7);
  }

  lemma TopClear(b: Byte)
    ensures And(b, 0x80) == 0 <==> b < 128
  {
    assert Pow2(1) == 2 && Pow2(1 + 7) == 256;
    Pow2Values();
    assert Shl(1, 7) == 128;
    AndHigh(b, 1, 7);
  }

  method ContinuationByte(v: nat) returns (b: Byte)
    ensures b == v % 128 + 128
  {
    Low7(v);
    SetTop(v % 128);
    b := Or(And(v, 0x7F), 0x80);
  }

  method EncodeVarint(value: nat) returns (out: seq<Byte>)
    ensures out == Encode(value)
  {
    out := [];
    var v := value;
    assert [] + Encode(value) == Encode(value);
    while v >= 0x80
      invariant out + Encode(v) == Encode(value)
    {
      var b := ContinuationByte(v);
      assert out + ([b] + Encode(v / 128)) == (out + [b]) + Encode(v / 128);
      out := out + [b];
      v := v / 128;
    }
    out := out + [v];
  }

  // What is left to decode, placed above the bits already read.
  function Above(low: nat, shift: nat, rest: Option<(nat, nat)>): Option<(nat, nat)>
  {
    match rest case None => None case Some((v, end)) => Some((low + Shl(v, shift), end))
  }

  lemma {:induction false} ShlSum(a: nat, b: nat, shift: nat)
    ensures Shl(a + b, shift) == Shl(a, shift) + Shl(b, shift)
    decreases shift
  {
    if shift > 0 { ShlSum(a, b, shift - 1); }
  }

  lemma {:induction false} ShlMore(a: nat, k: nat, shift: nat)
    ensures Shl(Shl(a, k), shift) == Shl(a, shift + k)
    decreases shift
  {
    if shift > 0 { ShlMore(a, k, shift - 1); }
  }

  lemma ShlSeven(seven: nat, v: nat, shift: nat)
    ensures Shl(seven + 128 * v, shift) == Shl(seven, shift) + Shl(v, shift + 7)
  {
    ShlSum(seven, 128 * v, shift);
    ShlMore(v, 7, shift);
    assert Shl(v, 7) == 128 * v;
  }

  // Reading one byte moves its seven bits below the rest.
  lemma AboveStep(low: nat, shift: nat, data: seq<Byte>, off: nat)
    requires off < |data| && low < Pow2(shift)
    ensures var low' := low + Shl(data[off] % 128, shift);
      && low' < Pow2(shift + 7)
      && Above(low, shift, Decode(data, off)) ==
         if data[off] < 128 then Some((low', off + 1)) else Above(low', shift + 7, Decode(data, off + 1))
  {
    var seven, rest := data[off] % 128, Decode(data, off + 1);
    ShlBound(seven, shift);
    if rest.Some? { ShlSeven(seven, rest.value.0, shift); }
  }

  lemma {:induction false} ShlBound(seven: nat, shift: nat)
    requires seven < 128
    ensures Shl(seven, shift) + Pow2(shift) <= Pow2(shift + 7)
    decreases shift
  {
    if shift > 0 { ShlBound(seven, shift - 1); } else { Pow2Values(); }
  }

  // Put the seven payload bits of a byte above the `shift` bits read so far; was it the last byte?
  method AddSeven(low: nat, shift: nat, b: Byte) returns (r: nat, last: bool)
    requires low < Pow2(shift)
    ensures r == low + Shl(b % 128, shift) && last == (b < 128)
  {
    Low7(b);
    TopClear(b);
    OrLanes(b % 128, low, shift);
    r := Or(low, Shl(And(b, 0x7F), shift));
    last := And(b, 0x80) == 0;
  }

  method DecodeVarint(data: seq<Byte>, offset: nat) returns (r: Option<(nat, nat)>)
    ensures r == Decode(data, offset)
  {
    var result: nat, shift: nat, off: nat := 0, 0, offset;
    while off < |data|
      invariant offset <= off && result < Pow2(shift)
      invariant Decode(data, offset) == Above(result, shift, Decode(data, off))
      decreases |data| - off
    {
      var b, last := data[off], false;
      AboveStep(result, shift, data, off);
      result, last := AddSeven(result, shift, b);
      off := off + 1;
      if last { return Some((result, off)); }
      shift := shift + 7;
    }
    r := None;
  }

  // ---- round trip ----

  // Decoding finds an encoded value at any offset, whatever precedes and follows it.
  lemma {:induction false} RoundTrip(pre: seq<Byte>, v: nat, post: seq<Byte>)
    ensures Decode(pre + Encode(v) + post, |pre|) == Some((v, |pre| + |Encode(v)|))
    decreases v
  {
    var all := pre + Encode(v) + post;
    if v >= 128 {
      var b := v % 128 + 128;
      RoundTrip(pre + [b], v / 128, post);
      assert all == (pre + [b]) + Encode(v / 128) + post;
      assert all[|pre|] == b;
    } else {
      assert all[|pre|] == v;
    }
  }

  // ---- what the bytes mean ----

  // Seven bits a byte, low bits first.
  function Value(bs: seq<Byte>): nat { if bs == [] then 0 else bs[0] % 128 + 128 * Value(bs[1..]) }

  // The top bit is set on all bytes but the last.
  ghost predicate Terminated(bs: seq<Byte>)
  {
    bs != [] && forall i :: 0 <= i < |bs| ==> (bs[i] >= 128 <==> i < |bs| - 1)
  }

  // An encoded value means that value, in as few bytes as can be.
  lemma {:induction false} EncodeMeans(v: nat)
    ensures Value(Encode(v)) == v && Terminated(Encode(v))
    ensures |Encode(v)| > 1 ==> Encode(v)[|Encode(v)| - 1] != 0
  {
    if v >= 128 {
      EncodeMeans(v / 128);
      var rest := Encode(v / 128);
      assert Encode(v) == [v % 128 + 128] + rest && Encode(v)[1..] == rest;
    } else {
      assert Encode(v)[1..] == [];
    }
  }

  // Decoding takes the bytes up to the first without the top bit and gives what they mean; without one it raises.
  lemma {:induction false} DecodeMeans(data: seq<Byte>, off: nat)
    requires off <= |data|
    ensures match Decode(data, off)
      case None => forall i :: off <= i < |data| ==> data[i] >= 128
      case Some((v, end)) => Terminated(data[off..end]) && v == Value(data[off..end])
    decreases |data| - off
  {
    if off < |data| {
      var r := Decode(data, off);
      if data[off] < 128 {
        assert data[off..off + 1][1..] == [];
      } else {
        DecodeMeans(data, off + 1);
        if r.Some? { assert data[off..r.value.1][1..] == data[off + 1..r.value.1]; }
      }
    }
  }

  // Where a value stands does not matter.
  lemma {:induction false} DecodeBehind(pre: seq<Byte>, rest: seq<Byte>, off: nat)
    ensures Decode(pre + rest, |pre| + off) ==
      match Decode(rest, off) case None => None case Some((v, end)) => Some((v, |pre| + end))
    decreases |rest| - off
  {
    if off < |rest| {
      assert (pre + rest)[|pre| + off] == rest[off];
      DecodeBehind(pre, rest, off + 1);
    }
  }
}
