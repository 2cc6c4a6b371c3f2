/**
 Overwriting a file of a FAT32 volume in place: resize its cluster chain, rewrite its clusters,
 patch the size in its directory entry. `Inject` is the whole operation as a function of the image;
 `Disk.Inject` performs it step by step on the image.
 */
module FatInject {
  import opened Bits
  import opened Bytes
  import opened FatChain
  import opened FatVolume
  import opened FatWalk

  // ---- the steps as functions of the image ----

  function LinkImage(g: Geometry, s: seq<Byte>, free: seq<nat>): (r: seq<Byte>)
    decreases |free|
  {
    if |free| == 0 then s
    else if |free| == 1 then WriteFat(g, s, free[0], END_OF_CHAIN)
    else LinkImage(g, WriteFat(g, s, free[0], free[1]), free[1..])
  }

  function FreeImage(g: Geometry, s: seq<Byte>, cs: seq<nat>): (r: seq<Byte>)
    decreases |cs|
  {
    if |cs| == 0 then s else FreeImage(g, WriteFat(g, s, cs[0], 0), cs[1..])
  }

  // Append free clusters to a chain.
  function Extended(g: Geometry, s: seq<Byte>, chain: seq<nat>, free: seq<nat>): (r: seq<Byte>)
    requires |free| > 0
  {
    LinkImage(g, if |chain| > 0 then WriteFat(g, s, chain[|chain| - 1], free[0]) else s, free)
  }

  // End a chain after `need` clusters and free the rest.
  function Truncated(g: Geometry, s: seq<Byte>, chain: seq<nat>, need: nat): (r: seq<Byte>)
    requires 1 <= need <= |chain|
  {
    FreeImage(g, WriteFat(g, s, chain[need - 1], END_OF_CHAIN), chain[need..])
  }

  // The image and the chain after making the chain `need` clusters long.
  function Resize(g: Geometry, s: seq<Byte>, chain: seq<nat>, need: nat): (r: Result<(seq<Byte>, seq<nat>)>)
    requires need >= 1 && forall i :: 0 <= i < |chain| ==> IsLink(chain[i])
    ensures r.Ok? ==> |r.value.1| == need && forall i :: 0 <= i < need ==> IsLink(r.value.1[i])
  {
    if need > |chain| then
      match Search(ReaderOf(g, s), 2, need - |chain|)
      case Ok(free) => Ok((Extended(g, s, chain, free), chain + free))
      case NoFreeClusters => NoFreeClusters
      case Raised => Raised
    else if need < |chain| then
      Ok((Truncated(g, s, chain, need), chain[..need]))
    else Ok((s, chain))
  }

  function Take(data: seq<Byte>, k: nat): seq<Byte> { if k <= |data| then data[..k] else data }

  function Drop(data: seq<Byte>, k: nat): seq<Byte> { if k <= |data| then data[k..] else [] }

  function Padded(data: seq<Byte>, size: nat): (r: seq<Byte>)
    requires |data| <= size
    ensures |r| == size
  {
    data + Zeros(size - |data|)
  }

  function WriteClusters(g: Geometry, s: seq<Byte>, chain: seq<nat>, data: seq<Byte>): (r: seq<Byte>)
    requires forall i :: 0 <= i < |chain| ==> IsLink(chain[i])
    decreases |chain|
  {
    if |chain| == 0 then s
    else
      assert IsLink(chain[0]);
      var s1 := WriteAt(s, g.ClusterOffset(chain[0]), Padded(Take(data, g.clusterSize), g.clusterSize));
      WriteClusters(g, s1, chain[1..], Drop(data, g.clusterSize))
  }

  function Need(size: nat, clusterSize: nat): (r: nat)
    requires clusterSize > 0
    ensures r >= 1
  {
    if size == 0 then 1 else
    assert (size + clusterSize - 1) / clusterSize >= 1;
    (size + clusterSize - 1) / clusterSize
  }

  // The first cluster that a directory entry names, split over two 16-bit fields.
  function StartCluster(entry: seq<Byte>): nat
    requires |entry| == 32
  {
    Or(Field(entry, 26, 2), Shl(Field(entry, 20, 2), 16))
  }

  function Patched(entry: seq<Byte>, size: nat): (r: seq<Byte>)
    requires |entry| == 32
    ensures |r| == 32
  {
    entry[..28] + Le(size, 4)
  }

  function EntryAt(g: Geometry, s: seq<Byte>, dir: nat, off: nat): (r: seq<Byte>)
    requires dir >= 2 && g.ClusterOffset(dir) + off + 32 <= |s|
    ensures |r| == 32
  {
    s[g.ClusterOffset(dir) + off..g.ClusterOffset(dir) + off + 32]
  }

  // What the injector does once the geometry and the old chain are known.
  function Overwrite(g: Geometry, s: seq<Byte>, dir: nat, off: nat, chain: seq<nat>, data: seq<Byte>)
    : (r: (Result<seq<nat>>, seq<Byte>))
    requires g.clusterSize > 0 && forall i :: 0 <= i < |chain| ==> IsLink(chain[i])
    requires dir >= 2 && g.ClusterOffset(dir) + off + 32 <= |s|
  {
    match Resize(g, s, chain, Need(|data|, g.clusterSize))
    case NoFreeClusters => (NoFreeClusters, s)
    case Raised => (Raised, s)
    case Ok((s1, chain1)) =>
      var s2 := WriteClusters(g, s1, chain1, data);
      if |data| >= Pow256(4) then (Raised, s2)
      else (Ok(chain1), WriteAt(s2, g.ClusterOffset(dir) + off, Patched(EntryAt(g, s, dir, off), |data|)))
  }

  // The injector applied to the directory entry found at offset `off` of cluster `dir`: how it ends, with the
  // final chain on success, and the image it leaves.
  function Inject(s: seq<Byte>, part: nat, dir: nat, off: nat, data: seq<Byte>): (r: (Result<seq<nat>>, seq<Byte>))
    requires dir >= 2
  {
    match ReadGeometry(s, part)
    case None => (Raised, s)
    case Some(g) =>
      if g.ClusterOffset(dir) + off + 32 > |s| then (Raised, s)
      else match Walk(ReaderOf(g, s), StartCluster(EntryAt(g, s, dir, off)), WALK_LIMIT)
        case None => (Raised, s)
        case Some(chain) =>
          if g.clusterSize == 0 then (Raised, s) else Overwrite(g, s, dir, off, chain, data)
  }

  // ---- what the steps do to a proper volume ----

  ghost predicate InTable(cs: seq<nat>, n: nat) { forall i :: 0 <= i < |cs| ==> 2 <= cs[i] < n }

  lemma {:induction false} LinkImageEffect(g: Geometry, s: seq<Byte>, n: nat, free: seq<nat>)
    requires Proper(g, s, n) && InTable(free, n)
    ensures SameOutsideFat(g, s, LinkImage(g, s, free)) && Proper(g, LinkImage(g, s, free), n)
    ensures TableOf(g, LinkImage(g, s, free), n) == LinkRun(TableOf(g, s, n), free)
    decreases |free|
  {
    if |free| == 1 {
      WriteFatEffect(g, s, n, free[0], END_OF_CHAIN);
    } else if |free| > 1 {
      WriteFatEffect(g, s, n, free[0], free[1]);
      LinkImageEffect(g, WriteFat(g, s, free[0], free[1]), n, free[1..]);
    }
  }

  lemma {:induction false} FreeImageEffect(g: Geometry, s: seq<Byte>, n: nat, cs: seq<nat>)
    requires Proper(g, s, n) && InTable(cs, n)
    ensures SameOutsideFat(g, s, FreeImage(g, s, cs)) && Proper(g, FreeImage(g, s, cs), n)
    ensures TableOf(g, FreeImage(g, s, cs), n) == FreeAll(TableOf(g, s, n), cs)
    decreases |cs|
  {
    if |cs| > 0 {
      WriteFatEffect(g, s, n, cs[0], 0);
      FreeImageEffect(g, WriteFat(g, s, cs[0], 0), n, cs[1..]);
    }
  }

  // The table after the resize of a file's chain, in terms of the table alone.
  ghost function Resized(t: Table, chain: seq<nat>, chain': seq<nat>): (r: Table)
    requires |chain| > 0 && |chain'| > 0 && InTable(chain, |t|) && InTable(chain', |t|)
  {
    if |chain'| > |chain| then Grown(t, chain, chain'[|chain|..])
    else if |chain'| < |chain| then Shrunk(t, chain, |chain'|)
    else t
  }

  // chain' is chain cut short or extended with free clusters.
  ghost predicate IsResize(t: Table, chain: seq<nat>, chain': seq<nat>)
  {
    && |chain| > 0 && |chain'| > 0
    && (|chain'| <= |chain| ==> chain' == chain[..|chain'|])
    && (|chain'| > |chain| ==> chain'[..|chain|] == chain && IsFreeList(t, chain'[|chain|..]))
  }

  // The outcome of a resize to chain1 at the level of the image and of the table it holds.
  ghost predicate ResizedImage(g: Geometry, s: seq<Byte>, n: nat, chain: seq<nat>, s1: seq<Byte>, chain1: seq<nat>)
    requires Fits(g, n, |s|) && |chain| > 0 && InTable(chain, n)
  {
    && InTable(chain1, n) && IsResize(TableOf(g, s, n), chain, chain1)
    && SameOutsideFat(g, s, s1) && Proper(g, s1, n)
    && TableOf(g, s1, n) == Resized(TableOf(g, s, n), chain, chain1)
  }

  lemma GrowEffect(g: Geometry, s: seq<Byte>, n: nat, chain: seq<nat>, free: seq<nat>)
    requires Proper(g, s, n) && |chain| > 0 && InTable(chain, n)
    requires |free| > 0 && IsFreeList(TableOf(g, s, n), free)
    ensures ResizedImage(g, s, n, chain, Extended(g, s, chain, free), chain + free)
  {
    assert (chain + free)[|chain|..] == free && (chain + free)[..|chain|] == chain;
    var s1 := WriteFat(g, s, chain[|chain| - 1], free[0]);
    WriteFatEffect(g, s, n, chain[|chain| - 1], free[0]);
    LinkImageEffect(g, s1, n, free);
  }

  lemma TruncatedTable(g: Geometry, s: seq<Byte>, n: nat, chain: seq<nat>, need: nat)
    requires Proper(g, s, n) && 1 <= need < |chain| && InTable(chain, n)
    ensures SameOutsideFat(g, s, Truncated(g, s, chain, need)) && Proper(g, Truncated(g, s, chain, need), n)
    ensures TableOf(g, Truncated(g, s, chain, need), n) == Shrunk(TableOf(g, s, n), chain, need)
  {
    WriteFatEffect(g, s, n, chain[need - 1], END_OF_CHAIN);
    FreeImageEffect(g, WriteFat(g, s, chain[need - 1], END_OF_CHAIN), n, chain[need..]);
  }

  lemma ShrinkEffect(g: Geometry, s: seq<Byte>, n: nat, chain: seq<nat>, need: nat)
    requires Proper(g, s, n) && 1 <= need < |chain| && InTable(chain, n)
    ensures ResizedImage(g, s, n, chain, Truncated(g, s, chain, need), chain[..need])
  {
    TruncatedTable(g, s, n, chain, need);
  }

  lemma ResizeEffect(g: Geometry, s: seq<Byte>, n: nat, chain: seq<nat>, need: nat)
    requires Proper(g, s, n) && need >= 1 && |chain| > 0 && InTable(chain, n)
    requires need - |chain| <= FreeCount(TableOf(g, s, n))
    ensures Resize(g, s, chain, need).Ok?
    ensures ResizedImage(g, s, n, chain, Resize(g, s, chain, need).value.0, Resize(g, s, chain, need).value.1)
  {
    hide Extended, Truncated, ReaderOf, Search, TableOf;
    if need > |chain| {
      ReaderReads(g, s, n);
      SearchStaysInside(ReaderOf(g, s), TableOf(g, s, n), need - |chain|);
      GrowEffect(g, s, n, chain, Search(ReaderOf(g, s), 2, need - |chain|).value);
    } else if need < |chain| {
      ShrinkEffect(g, s, n, chain, need);
    } else {
      assert chain == chain[..|chain|];
    }
  }

  // ---- data clusters ----

  function Cluster(g: Geometry, s: seq<Byte>, c: nat): seq<Byte>
    requires c >= 2 && g.ClusterOffset(c) + g.clusterSize <= |s|
  {
    s[g.ClusterOffset(c)..g.ClusterOffset(c) + g.clusterSize]
  }

  lemma ClusterInside(g: Geometry, n: nat, size: nat, c: nat)
    requires Fits(g, n, size) && 2 <= c < n
    ensures g.dataStart <= g.ClusterOffset(c) && g.ClusterOffset(c) + g.clusterSize <= size
  {
    TimesSpaced(c - 2, n - 2, g.clusterSize);
  }

  lemma ClustersApart(g: Geometry, c: nat, d: nat)
    requires c >= 2 && d >= 2 && c != d
    ensures g.ClusterOffset(c) + g.clusterSize <= g.ClusterOffset(d) ||
      g.ClusterOffset(d) + g.clusterSize <= g.ClusterOffset(c)
  {
    if c < d { TimesSpaced(c - 2, d - 2, g.clusterSize); } else { TimesSpaced(d - 2, c - 2, g.clusterSize); }
  }

  // The bytes of a file: its clusters in chain order.
  ghost function Contents(g: Geometry, s: seq<Byte>, n: nat, chain: seq<nat>): (r: seq<Byte>)
    requires Fits(g, n, |s|) && InTable(chain, n)
    decreases |chain|
  {
    if |chain| == 0 then []
    else ClusterInside(g, n, |s|, chain[0]); Cluster(g, s, chain[0]) + Contents(g, s, n, chain[1..])
  }

  // Nothing below the data area changes, and no cluster outside `touched` does.
  ghost predicate OnlyClusters(g: Geometry, s: seq<Byte>, s': seq<Byte>, n: nat, touched: seq<nat>)
    requires Fits(g, n, |s|)
  {
    && |s'| == |s|
    && s'[..g.dataStart] == s[..g.dataStart]
    && forall c :: 2 <= c < n && c !in touched ==>
        && g.ClusterOffset(c) + g.clusterSize <= |s|
        && Cluster(g, s', c) == Cluster(g, s, c)
  }

  lemma WriteClusterEffect(g: Geometry, s: seq<Byte>, n: nat, c: nat, bs: seq<Byte>)
    requires Fits(g, n, |s|) && 2 <= c < n && |bs| == g.clusterSize
    ensures OnlyClusters(g, s, WriteAt(s, g.ClusterOffset(c), bs), n, [c])
    ensures Cluster(g, WriteAt(s, g.ClusterOffset(c), bs), c) == bs
  {
    ClusterInside(g, n, |s|, c);
    var s', off := WriteAt(s, g.ClusterOffset(c), bs), g.ClusterOffset(c);
    SliceOutsideWrite(s, off, bs, 0, g.dataStart);
    forall d | 2 <= d < n && d !in [c]
      ensures g.ClusterOffset(d) + g.clusterSize <= |s| && Cluster(g, s', d) == Cluster(g, s, d)
    {
      ClusterInside(g, n, |s|, d);
      ClustersApart(g, c, d);
      SliceOutsideWrite(s, off, bs, g.ClusterOffset(d), g.ClusterOffset(d) + g.clusterSize);
    }
  }

  lemma {:induction false} WriteClustersOutside(g: Geometry, s: seq<Byte>, n: nat, chain: seq<nat>, data: seq<Byte>)
    requires Fits(g, n, |s|) && InTable(chain, n)
    ensures OnlyClusters(g, s, WriteClusters(g, s, chain, data), n, chain)
    decreases |chain|
  {
    if |chain| == 0 {
      forall c | 2 <= c < n ensures g.ClusterOffset(c) + g.clusterSize <= |s| { ClusterInside(g, n, |s|, c); }
    } else {
      var bs := Padded(Take(data, g.clusterSize), g.clusterSize);
      var s1 := WriteAt(s, g.ClusterOffset(chain[0]), bs);
      WriteClusterEffect(g, s, n, chain[0], bs);
      WriteClustersOutside(g, s1, n, chain[1..], Drop(data, g.clusterSize));
      OnlyClustersTrans(g, s, s1, WriteClusters(g, s, chain, data), n, [chain[0]], chain[1..]);
      assert [chain[0]] + chain[1..] == chain;
    }
  }

  lemma OnlyClustersTrans(g: Geometry, s: seq<Byte>, s1: seq<Byte>, s2: seq<Byte>, n: nat, a: seq<nat>, b: seq<nat>)
    requires Fits(g, n, |s|) && OnlyClusters(g, s, s1, n, a) && OnlyClusters(g, s1, s2, n, b)
    ensures OnlyClusters(g, s, s2, n, a + b)
  {
    forall c | 2 <= c < n && c !in a + b
      ensures g.ClusterOffset(c) + g.clusterSize <= |s| && Cluster(g, s2, c) == Cluster(g, s, c)
    {
      assert Cluster(g, s1, c) == Cluster(g, s, c);
      assert Cluster(g, s2, c) == Cluster(g, s1, c);
    }
  }

  // Reading back the clusters just written gives the data followed by zeros.
  lemma {:induction false} WriteClustersContents(g: Geometry, s: seq<Byte>, n: nat, chain: seq<nat>, data: seq<Byte>)
    requires Fits(g, n, |s|) && InTable(chain, n) && Distinct(chain)
    requires |data| <= Times(|chain|, g.clusterSize)
    ensures |WriteClusters(g, s, chain, data)| == |s|
    ensures Contents(g, WriteClusters(g, s, chain, data), n, chain) == Padded(data, Times(|chain|, g.clusterSize))
    decreases |chain|
  {
    WriteClustersOutside(g, s, n, chain, data);
    if |chain| > 0 {
      var cs := g.clusterSize;
      var bs, rest := Padded(Take(data, cs), cs), Drop(data, cs);
      var s1, s2 := WriteAt(s, g.ClusterOffset(chain[0]), bs), WriteClusters(g, s, chain, data);
      WriteClusterEffect(g, s, n, chain[0], bs);
      WriteClustersOutside(g, s1, n, chain[1..], rest);
      assert chain[0] !in chain[1..];
      assert Cluster(g, s2, chain[0]) == Cluster(g, s1, chain[0]);
      WriteClustersContents(g, s1, n, chain[1..], rest);
      PaddedSplit(data, cs, Times(|chain| - 1, cs));
    }
  }

  lemma PaddedSplit(data: seq<Byte>, cs: nat, more: nat)
    requires |data| <= cs + more
    ensures |Drop(data, cs)| <= more
    ensures Padded(Take(data, cs), cs) + Padded(Drop(data, cs), more) == Padded(data, cs + more)
  {
  }

  lemma {:induction false} ContentsKept(g: Geometry, s: seq<Byte>, s': seq<Byte>, n: nat, chain: seq<nat>)
    requires Fits(g, n, |s|) && |s'| == |s| && InTable(chain, n)
    requires forall i :: 0 <= i < |chain| ==>
      g.ClusterOffset(chain[i]) + g.clusterSize <= |s| && Cluster(g, s', chain[i]) == Cluster(g, s, chain[i])
    ensures Contents(g, s', n, chain) == Contents(g, s, n, chain)
    decreases |chain|
  {
    if |chain| > 0 {
      assert Cluster(g, s', chain[0]) == Cluster(g, s, chain[0]);
      ContentsKept(g, s, s', n, chain[1..]);
    }
  }

  // An image with the same bytes below the data area holds the same table in the same copies.
  lemma FatKept(g: Geometry, s: seq<Byte>, s': seq<Byte>, n: nat)
    requires Proper(g, s, n) && |s'| == |s| && s'[..g.dataStart] == s[..g.dataStart]
    ensures Proper(g, s', n) && TableOf(g, s', n) == TableOf(g, s, n)
  {
    hide RawEntry;
    forall k, c | 0 <= k < g.numFats && 0 <= c < n
      ensures g.FatOffset(k, c) + 4 <= |s'| && g.FatOffset(0, c) + 4 <= |s'|
      ensures RawEntry(g, s', k, c) == RawEntry(g, s', 0, c)
    {
      EntryKept(g, s, s', n, k, c);
      EntryKept(g, s, s', n, 0, c);
      assert RawEntry(g, s, k, c) == RawEntry(g, s, 0, c);
    }
    forall c | 0 <= c < n ensures TableOf(g, s', n)[c] == TableOf(g, s, n)[c] {
      EntryKept(g, s, s', n, 0, c);
    }
  }

  lemma EntryKept(g: Geometry, s: seq<Byte>, s': seq<Byte>, n: nat, k: nat, c: nat)
    requires Fits(g, n, |s|) && k < g.numFats && c < n && g.dataStart <= |s| == |s'|
    requires s'[..g.dataStart] == s[..g.dataStart]
    ensures g.FatOffset(k, c) + 4 <= |s| && RawEntry(g, s', k, c) == RawEntry(g, s, k, c)
  {
    hide Fits;
    EntryInside(g, n, |s|, k, c);
    var lo := g.FatOffset(k, c);
    assert s'[..g.dataStart][lo..lo + 4] == s[..g.dataStart][lo..lo + 4];
    SliceOfSlice(s, 0, g.dataStart, lo, lo + 4);
    SliceOfSlice(s', 0, g.dataStart, lo, lo + 4);
  }
}
