/** Records of a head and a fixed-size tail laid out back to back, and overwriting one tail in place. */
module Patching {
  import opened Bytes

  function Zip(heads: seq<seq<Byte>>, tails: seq<seq<Byte>>): (r: seq<seq<Byte>>)
    requires |heads| == |tails|
    ensures |r| == |heads|
  {
    seq(|heads|, i requires 0 <= i < |heads| => heads[i] + tails[i])
  }

  ghost predicate Wide(tails: seq<seq<Byte>>, width: nat) { forall i :: 0 <= i < |tails| ==> |tails[i]| == width }

  // Offset of tail i.
  function PlaceOf(heads: seq<seq<Byte>>, tails: seq<seq<Byte>>, i: nat): nat
    requires |heads| == |tails| && i < |heads|
  {
    |Flatten(Zip(heads, tails)[..i])| + |heads[i]|
  }

  lemma SameSize(heads: seq<seq<Byte>>, a: seq<seq<Byte>>, b: seq<seq<Byte>>, width: nat, k: nat)
    requires |heads| == |a| == |b| && Wide(a, width) && Wide(b, width) && k <= |heads|
    ensures |Flatten(Zip(heads, a)[..k])| == |Flatten(Zip(heads, b)[..k])|
    ensures |Flatten(Zip(heads, a))| == |Flatten(Zip(heads, b))|
  {
    FlattenSameLength(Zip(heads, a)[..k], Zip(heads, b)[..k]);
    FlattenSameLength(Zip(heads, a), Zip(heads, b));
  }

  // Record i between the records before and after it.
  lemma ZipAt(heads: seq<seq<Byte>>, tails: seq<seq<Byte>>, i: nat)
    requires |heads| == |tails| && i < |heads|
    ensures Flatten(Zip(heads, tails)) ==
      Flatten(Zip(heads, tails)[..i]) + (heads[i] + tails[i] + Flatten(Zip(heads, tails)[i + 1..]))
  {
    FlattenAt(Zip(heads, tails), i);
  }

  lemma PatchMiddle(pre: seq<Byte>, h: seq<Byte>, t: seq<Byte>, x: seq<Byte>, post: seq<Byte>)
    requires |t| == |x|
    ensures WriteAt(pre + (h + t + post), |pre| + |h|, x) == pre + (h + x + post)
  {
  }

  lemma ZipUpdated(heads: seq<seq<Byte>>, tails: seq<seq<Byte>>, i: nat, x: seq<Byte>)
    requires |heads| == |tails| && i < |heads|
    ensures Zip(heads, tails[i := x])[..i] == Zip(heads, tails)[..i]
    ensures Zip(heads, tails[i := x])[i + 1..] == Zip(heads, tails)[i + 1..]
  {
  }

  // Overwriting the bytes at PlaceOf(i) replaces tail i and nothing else.
  lemma PatchTail(heads: seq<seq<Byte>>, tails: seq<seq<Byte>>, i: nat, x: seq<Byte>)
    requires |heads| == |tails| && i < |heads| && |x| == |tails[i]|
    ensures WriteAt(Flatten(Zip(heads, tails)), PlaceOf(heads, tails, i), x) == Flatten(Zip(heads, tails[i := x]))
  {
    hide Flatten, Zip, WriteAt;
    var z := Zip(heads, tails);
    ZipAt(heads, tails, i);
    ZipAt(heads, tails[i := x], i);
    ZipUpdated(heads, tails, i, x);
    PatchMiddle(Flatten(z[..i]), heads[i], tails[i], x, Flatten(z[i + 1..]));
  }
}
