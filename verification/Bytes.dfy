/** Bytes, little-endian integers (Python's struct codes B, H, I and Q) and writes into a byte image. */
module Bytes {

  type Byte = b: int | 0 <= b < 256

  datatype Option<+T> = None | Some(value: T)

  function Pow256(k: nat): (r: nat)
    ensures r >= 1
  {
    if k == 0 then 1 else 256 * Pow256(k - 1)
  }

  // The low k bytes of v, least significant first.
  function Le(v: nat, k: nat): (r: seq<Byte>)
    ensures |r| == k
  {
    if k == 0 then [] else [v % 256] + Le(v / 256, k - 1)
  }

  function FromLe(s: seq<Byte>): (r: nat)
    ensures r < Pow256(|s|)
  {
    if s == [] then 0 else s[0] + 256 * FromLe(s[1..])
  }

  lemma FromLeOne(a: Byte)
    ensures FromLe([a]) == a
  {
    var s: seq<Byte> := [a];
    assert s[1..] == [];
  }

  lemma FromLeTwo(a: Byte, b: Byte)
    ensures FromLe([a, b]) == a + 256 * (b as int)
  {
    var s: seq<Byte> := [a, b];
    assert s[1..] == [b];
    FromLeOne(b);
  }

  lemma FromLeFour(a: Byte, b: Byte, c: Byte, d: Byte)
    ensures FromLe([a, b, c, d]) == a + 256 * (b as int) + 0x1_0000 * (c as int) + 0x100_0000 * (d as int)
  {
    var s: seq<Byte> := [a, b, c, d];
    assert s[1..] == [b, c, d];
    var t: seq<Byte> := [b, c, d];
    assert t[1..] == [c, d];
    FromLeTwo(c, d);
  }

  lemma {:induction false} FromLeOfLe(v: nat, k: nat)
    requires v < Pow256(k)
    ensures FromLe(Le(v, k)) == v
  {
    if k > 0 {
      FromLeOfLe(v / 256, k - 1);
      assert Le(v, k)[1..] == Le(v / 256, k - 1);
    }
  }

  lemma Pow256Values()
    ensures Pow256(1) == 0x100 && Pow256(2) == 0x10000 && Pow256(4) == 0x100000000 && Pow256(8) == 0x10000000000000000
  {
  }

  lemma {:induction false} LeOfFromLe(s: seq<Byte>)
    ensures Le(FromLe(s), |s|) == s
  {
    if s != [] {
      LeOfFromLe(s[1..]);
      assert FromLe(s) / 256 == FromLe(s[1..]);
      assert s == [s[0]] + s[1..];
    }
  }

  function Zeros(k: nat): (r: seq<Byte>)
    ensures |r| == k && forall i :: 0 <= i < k ==> r[i] == 0
  {
    seq(k, _ => 0)
  }

  // A write at an offset of a file: past the end it extends the file, filling any gap with zeros.
  function WriteAt(s: seq<Byte>, off: nat, bs: seq<Byte>): (r: seq<Byte>)
    ensures |r| == if off + |bs| <= |s| then |s| else off + |bs|
    ensures r[off..off + |bs|] == bs
    ensures forall i {:trigger r[i]} :: 0 <= i < |s| && (i < off || off + |bs| <= i) ==> r[i] == s[i]
  {
    var padded := if off + |bs| <= |s| then s else s + Zeros(off + |bs| - |s|);
    padded[..off] + bs + padded[off + |bs|..]
  }

  // A slice that the write does not touch reads the same.
  lemma SliceOutsideWrite(s: seq<Byte>, off: nat, bs: seq<Byte>, lo: nat, hi: nat)
    requires lo <= hi <= |s| && (hi <= off || off + |bs| <= lo)
    ensures WriteAt(s, off, bs)[lo..hi] == s[lo..hi]
  {
  }

  lemma GapIsZero(s: seq<Byte>, off: nat, bs: seq<Byte>, i: nat)
    requires |s| <= i < off
    ensures |WriteAt(s, off, bs)| == off + |bs| && WriteAt(s, off, bs)[i] == 0
  {
  }

  lemma InsideWrite(s: seq<Byte>, off: nat, bs: seq<Byte>, i: nat)
    requires off <= i < off + |bs|
    ensures WriteAt(s, off, bs)[i] == bs[i - off]
  {
    assert WriteAt(s, off, bs)[off..off + |bs|][i - off] == bs[i - off];
  }

  lemma SliceOfSlice(s: seq<Byte>, lo: nat, hi: nat, x: nat, y: nat)
    requires lo <= hi <= |s| && x <= y <= hi - lo
    ensures s[lo..hi][x..y] == s[lo + x..lo + y]
  {
    var a, b := s[lo..hi][x..y], s[lo + x..lo + y];
    forall i | 0 <= i < |a| ensures a[i] == b[i] { assert a[i] == s[lo..hi][x + i]; }
  }

  function Flatten<T>(ss: seq<seq<T>>): (r: seq<T>)
  {
    if ss == [] then [] else ss[0] + Flatten(ss[1..])
  }

  lemma {:induction false} FlattenSnoc<T>(ss: seq<seq<T>>, s: seq<T>)
    ensures Flatten(ss + [s]) == Flatten(ss) + s
  {
    if ss == [] {
      assert ss + [s] == [s];
      assert Flatten([s]) == s + Flatten<T>([]);
    } else {
      FlattenSnoc(ss[1..], s);
      assert (ss + [s])[1..] == ss[1..] + [s];
    }
  }

  lemma {:induction false} FlattenConcat<T>(a: seq<seq<T>>, b: seq<seq<T>>)
    ensures Flatten(a + b) == Flatten(a) + Flatten(b)
    decreases |a|
  {
    if a == [] {
      assert a + b == b;
    } else {
      FlattenConcat(a[1..], b);
      assert (a + b)[1..] == a[1..] + b;
    }
  }

  // Element i of the list inside the flat sequence.
  lemma FlattenAt<T>(ss: seq<seq<T>>, i: nat)
    requires i < |ss|
    ensures Flatten(ss) == Flatten(ss[..i]) + (ss[i] + Flatten(ss[i + 1..]))
    ensures Flatten(ss[..i + 1]) == Flatten(ss[..i]) + ss[i]
  {
    assert ss == ss[..i] + ss[i..];
    FlattenConcat(ss[..i], ss[i..]);
    assert ss[i..][1..] == ss[i + 1..];
    assert ss[..i + 1] == ss[..i] + [ss[i]];
    FlattenSnoc(ss[..i], ss[i]);
  }

  lemma {:induction false} FlattenSameLength<T>(a: seq<seq<T>>, b: seq<seq<T>>)
    requires |a| == |b| && forall i :: 0 <= i < |a| ==> |a[i]| == |b[i]|
    ensures |Flatten(a)| == |Flatten(b)|
    decreases |a|
  {
    if a != [] { FlattenSameLength(a[1..], b[1..]); }
  }
}
