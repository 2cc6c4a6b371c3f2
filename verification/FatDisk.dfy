/** The injector as it runs: loops over a disk image that is updated in place. */
module FatDisk {
  import opened Bits
  import opened Bytes
  import opened FatChain
  import V = FatVolume
  import F = FatInject
  import W = FatWalk

  lemma DropNone(data: seq<Byte>)
    ensures F.Drop(data, 0) == data
  {
  }

  lemma WriteNothing(g: V.Geometry, s: seq<Byte>, data: seq<Byte>)
    ensures F.WriteClusters(g, s, [], data) == s
  {
  }

  // One turn of the data loop.
  lemma ClusterTurn(g: V.Geometry, s: seq<Byte>, chain: seq<nat>, i: nat, data: seq<Byte>, offset: nat)
    requires i < |chain| && forall j :: 0 <= j < |chain| ==> IsLink(chain[j])
    ensures IsLink(chain[i])
    ensures F.WriteClusters(g, s, chain[i..], F.Drop(data, offset)) ==
      F.WriteClusters(g,
        WriteAt(s, g.ClusterOffset(chain[i]), F.Padded(F.Take(F.Drop(data, offset), g.clusterSize), g.clusterSize)),
                      chain[i + 1..], F.Drop(data, offset + g.clusterSize))
  {
    assert IsLink(chain[i..][0]);
    assert chain[i..][1..] == chain[i + 1..];
    assert F.Drop(F.Drop(data, offset), g.clusterSize) == F.Drop(data, offset + g.clusterSize);
  }

  class Disk {
    var img: seq<Byte>

    constructor (img: seq<Byte>)
      ensures this.img == img
    {
      this.img := img;
    }

    // Every FAT copy gets the new entry.
    method WriteFat(g: V.Geometry, c: nat, v: nat)
      modifies this
      ensures img == V.WriteFat(g, old(img), c, v)
    {
      for k := 0 to g.numFats
        invariant img == V.WriteCopies(g, old(img), c, V.PackEntry(v), k)
      {
        img := WriteAt(img, g.FatOffset(k, c), V.PackEntry(v));
      }
    }

    method LinkNew(g: V.Geometry, free: seq<nat>)
      modifies this
      ensures img == F.LinkImage(g, old(img), free)
    {
      for i := 0 to |free|
        invariant F.LinkImage(g, img, free[i..]) == F.LinkImage(g, old(img), free)
      {
        assert free[i..][1..] == free[i + 1..];
        if i + 1 < |free| {
          WriteFat(g, free[i], free[i + 1]);
        } else {
          WriteFat(g, free[i], END_OF_CHAIN);
        }
      }
    }

    method Extend(g: V.Geometry, chain: seq<nat>, free: seq<nat>)
      requires |free| > 0
      modifies this
      ensures img == F.Extended(g, old(img), chain, free)
    {
      if |chain| > 0 { WriteFat(g, chain[|chain| - 1], free[0]); }
      LinkNew(g, free);
    }

    method FreeTail(g: V.Geometry, chain: seq<nat>, need: nat)
      requires 1 <= need <= |chain|
      modifies this
      ensures img == F.Truncated(g, old(img), chain, need)
    {
      WriteFat(g, chain[need - 1], END_OF_CHAIN);
      ghost var marked := img;
      var cs := chain[need..];
      for i := 0 to |cs|
        invariant F.FreeImage(g, img, cs[i..]) == F.FreeImage(g, marked, cs)
      {
        assert cs[i..][1..] == cs[i + 1..];
        WriteFat(g, cs[i], 0);
      }
    }

    method WriteData(g: V.Geometry, chain: seq<nat>, data: seq<Byte>)
      requires forall i :: 0 <= i < |chain| ==> IsLink(chain[i])
      modifies this
      ensures img == F.WriteClusters(g, old(img), chain, data)
    {
      hide F.WriteClusters, F.Drop;
      var offset := 0;
      assert F.Drop(data, 0) == data by { DropNone(data); }
      assert chain[0..] == chain;
      for i := 0 to |chain|
        invariant offset == Times(i, g.clusterSize)
        invariant forall j :: 0 <= j < |chain[i..]| ==> IsLink(chain[i..][j])
        invariant F.WriteClusters(g, img, chain[i..], F.Drop(data, offset)) == F.WriteClusters(g, old(img), chain, data)
      {
        var chunk := F.Take(F.Drop(data, offset), g.clusterSize);
        if |chunk| < g.clusterSize { chunk := chunk + Zeros(g.clusterSize - |chunk|); }
        assert IsLink(chain[i..][0]);
        ClusterTurn(g, img, chain, i, data, offset);
        assert chunk == F.Padded(F.Take(F.Drop(data, offset), g.clusterSize), g.clusterSize);
        img := WriteAt(img, g.ClusterOffset(chain[i]), chunk);
        offset := offset + g.clusterSize;
      }
      WriteNothing(g, img, F.Drop(data, offset));
    }

    // Grow the chain from free clusters or cut it short and free its tail.
    method ResizeChain(g: V.Geometry, chain: seq<nat>, need: nat) returns (r: W.Result<seq<nat>>)
      requires need >= 1 && forall i :: 0 <= i < |chain| ==> IsLink(chain[i])
      modifies this
      ensures r.Ok? ==> F.Resize(g, old(img), chain, need) == W.Ok((img, r.value))
      ensures !r.Ok? ==> img == old(img) && r.Raised? == F.Resize(g, old(img), chain, need).Raised?
      ensures r.Ok? == F.Resize(g, old(img), chain, need).Ok?
    {
      hide V.WriteFat, V.ReadFat, F.LinkImage, F.FreeImage;
      if need > |chain| {
        var found := W.FreeClusters(V.ReaderOf(g, img), need - |chain|);
        if found.NoFreeClusters? { return W.NoFreeClusters; }
        if found.Raised? { return W.Raised; }
        Extend(g, chain, found.value);
        r := W.Ok(chain + found.value);
      } else if need < |chain| {
        FreeTail(g, chain, need);
        r := W.Ok(chain[..need]);
      } else {
        r := W.Ok(chain);
      }
    }

    // The whole injection, starting from the located directory entry.
    method Inject(part: nat, dir: nat, off: nat, data: seq<Byte>) returns (r: W.Result<seq<nat>>)
      requires dir >= 2
      modifies this
      ensures r == F.Inject(old(img), part, dir, off, data).0
      ensures img == F.Inject(old(img), part, dir, off, data).1
    {
      var geometry := V.ReadGeometry(img, part);
      if geometry.None? { return W.Raised; }
      var g := geometry.value;
      var at := g.ClusterOffset(dir) + off;
      if at + 32 > |img| { return W.Raised; }
      var entry := F.EntryAt(g, img, dir, off);
      var chain := W.ClusterChain(V.ReaderOf(g, img), F.StartCluster(entry));
      if chain.None? || g.clusterSize == 0 { return W.Raised; }
      r := Overwrite(g, dir, off, chain.value, data);
    }

    method Overwrite(g: V.Geometry, dir: nat, off: nat, chain: seq<nat>, data: seq<Byte>)
      returns (r: W.Result<seq<nat>>)
      requires g.clusterSize > 0 && forall i :: 0 <= i < |chain| ==> IsLink(chain[i])
      requires dir >= 2 && g.ClusterOffset(dir) + off + 32 <= |img|
      modifies this
      ensures (r, img) == F.Overwrite(g, old(img), dir, off, chain, data)
    {
      var entry := F.EntryAt(g, img, dir, off);
      r := ResizeChain(g, chain, F.Need(|data|, g.clusterSize));
      if !r.Ok? { return; }
      WriteData(g, r.value, data);
      if |data| >= Pow256(4) { return W.Raised; }
      img := WriteAt(img, g.ClusterOffset(dir) + off, F.Patched(entry, |data|));
    }
  }
}
