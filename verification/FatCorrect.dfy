/**
 What overwriting a file of a proper FAT32 volume promises: the file reads back, nothing else on the
 volume changes but its size field, no chain becomes cyclic or cross-linked, clusters are conserved.
 */
module FatCorrect {
  import opened Bits
  import opened Bytes
  import opened FatChain
  import opened FatVolume
  import opened FatWalk
  import opened FatInject

  // A directory entry of a proper volume that names an allocated file. `chain` is the file's whole chain; the
  // directory itself is allocated and is not part of the file.
  ghost predicate Located(s: seq<Byte>, part: nat, n: nat, g: Geometry, dir: nat, off: nat, chain: seq<nat>)
  {
    && ReadGeometry(s, part) == Some(g) && part + 48 <= g.fatStart
    && Proper(g, s, n)
    && 2 <= dir < n && off + 32 <= g.clusterSize && g.ClusterOffset(dir) + off + 32 <= |s|
    && TableOf(g, s, n)[dir] != 0
    && IsChain(TableOf(g, s, n), StartCluster(EntryAt(g, s, dir, off)), chain)
    && dir !in chain
  }

  // The part of the chain that the bounded walk sees.
  function Walked(chain: seq<nat>): seq<nat> { Cut(chain, WALK_LIMIT) }

  // What the injector needs of a caller: data whose length fits the size field, and room.
  ghost predicate HasRoom(s: seq<Byte>, n: nat, g: Geometry, chain: seq<nat>, data: seq<Byte>)
    requires Fits(g, n, |s|)
  {
    |data| < Pow256(4) && Need(|data|, g.clusterSize) - |Walked(chain)| <= FreeCount(TableOf(g, s, n))
  }

  lemma NeedCovers(size: nat, cs: nat)
    requires cs > 0
    ensures size <= Times(Need(size, cs), cs)
    ensures size > 0 ==> Times(Need(size, cs) - 1, cs) < size
  {
    var k := Need(size, cs);
    TimesIsProduct(k, cs);
    TimesIsProduct(k - 1, cs);
    if size > 0 {
      var q, r := (size + cs - 1) / cs, (size + cs - 1) % cs;
      assert size + cs - 1 == q * cs + r;
      assert (q - 1) * cs == q * cs - cs;
    }
  }

  // On a located entry the injector gets past the boot sector and the walk.
  lemma InjectIsOverwrite(s: seq<Byte>, part: nat, n: nat, g: Geometry, dir: nat, off: nat, chain: seq<nat>,
                          data: seq<Byte>)
    requires Located(s, part, n, g, dir, off, chain)
    ensures forall i :: 0 <= i < |Walked(chain)| ==> IsLink(Walked(chain)[i])
    ensures Inject(s, part, dir, off, data) == Overwrite(g, s, dir, off, Walked(chain), data)
  {
    ReaderReads(g, s, n);
    WalkIsChain(ReaderOf(g, s), TableOf(g, s, n), chain, WALK_LIMIT);
  }

  // The images the injector goes through: after the resize, after the data, after the entry.
  lemma Stages(s: seq<Byte>, part: nat, n: nat, g: Geometry, dir: nat, off: nat, chain: seq<nat>, data: seq<Byte>)
    returns (s1: seq<Byte>, chain1: seq<nat>)
    requires Located(s, part, n, g, dir, off, chain) && HasRoom(s, n, g, chain, data)
    ensures |chain1| == Need(|data|, g.clusterSize)
    ensures ResizedImage(g, s, n, Walked(chain), s1, chain1)
    ensures Inject(s, part, dir, off, data) ==
      (Ok(chain1), WriteAt(WriteClusters(g, s1, chain1, data), g.ClusterOffset(dir) + off,
                           Patched(EntryAt(g, s, dir, off), |data|)))
  {
    InjectIsOverwrite(s, part, n, g, dir, off, chain, data);
    var walked, need := Walked(chain), Need(|data|, g.clusterSize);
    ResizeEffect(g, s, n, walked, need);
    s1, chain1 := Resize(g, s, walked, need).value.0, Resize(g, s, walked, need).value.1;
  }

  lemma DirUntouched(t: Table, dir: nat, chain: seq<nat>, chain1: seq<nat>)
    requires dir < |t| && t[dir] != 0 && dir !in chain && IsResize(t, Walked(chain), chain1)
    ensures dir !in chain1
  {
    var w := Walked(chain);
    if |chain1| > |w| {
      var free := chain1[|w|..];
      assert chain1 == w + free;
    }
  }

  // The resize step leaves every cluster's bytes alone.
  lemma ResizeKeepsClusters(g: Geometry, s: seq<Byte>, s1: seq<Byte>, n: nat, c: nat)
    requires Fits(g, n, |s|) && SameOutsideFat(g, s, s1) && 2 <= c < n
    ensures g.ClusterOffset(c) + g.clusterSize <= |s| && Cluster(g, s1, c) == Cluster(g, s, c)
  {
    ClusterInside(g, n, |s|, c);
  }

  // Writing the 32 bytes of the entry back changes one cluster, and in it only the four size bytes.
  lemma PatchEffect(g: Geometry, s: seq<Byte>, n: nat, dir: nat, off: nat, size: nat)
    requires Fits(g, n, |s|) && 2 <= dir < n && off + 32 <= g.clusterSize && g.ClusterOffset(dir) + off + 32 <= |s|
    ensures var s' := WriteAt(s, g.ClusterOffset(dir) + off, Patched(EntryAt(g, s, dir, off), size));
      && OnlyClusters(g, s, s', n, [dir])
      && EntryAt(g, s', dir, off) == Patched(EntryAt(g, s, dir, off), size)
      && SizeFieldOnly(g, s, s', dir, off)
  {
    hide Times;
    ClusterInside(g, n, |s|, dir);
    var at, bs := g.ClusterOffset(dir) + off, Patched(EntryAt(g, s, dir, off), size);
    var s' := WriteAt(s, at, bs);
    SliceOutsideWrite(s, at, bs, 0, g.dataStart);
    forall d | 2 <= d < n && d !in [dir]
      ensures g.ClusterOffset(d) + g.clusterSize <= |s| && Cluster(g, s', d) == Cluster(g, s, d)
    {
      ClusterInside(g, n, |s|, d);
      ClustersApart(g, dir, d);
      SliceOutsideWrite(s, at, bs, g.ClusterOffset(d), g.ClusterOffset(d) + g.clusterSize);
    }
    forall i | 0 <= i < |s| && !(at + 28 <= i < at + 32) ensures s'[i] == s[i] {
      if at <= i < at + 28 {
        InsideWrite(s, at, bs, i);
        assert bs[i - at] == EntryAt(g, s, dir, off)[i - at] == s[i];
      }
    }
  }

  ghost predicate SizeFieldOnly(g: Geometry, s: seq<Byte>, s': seq<Byte>, dir: nat, off: nat)
    requires dir >= 2
  {
    var at := g.ClusterOffset(dir) + off;
    |s'| == |s| && forall i :: 0 <= i < |s| && !(at + 28 <= i < at + 32) ==> s'[i] == s[i]
  }

  lemma EntryInCluster(g: Geometry, s: seq<Byte>, dir: nat, off: nat)
    requires dir >= 2 && off + 32 <= g.clusterSize && g.ClusterOffset(dir) + g.clusterSize <= |s|
    ensures EntryAt(g, s, dir, off) == Cluster(g, s, dir)[off..off + 32]
  {
    SliceOfSlice(s, g.ClusterOffset(dir), g.ClusterOffset(dir) + g.clusterSize, off, off + 32);
  }

  // The image after the data and the entry have been written, against the image after the resize.
  lemma WritesEffect(g: Geometry, s: seq<Byte>, s1: seq<Byte>, n: nat, dir: nat, off: nat, chain1: seq<nat>,
                     data: seq<Byte>)
    requires Proper(g, s, n) && SameOutsideFat(g, s, s1) && Proper(g, s1, n)
    requires 2 <= dir < n && off + 32 <= g.clusterSize && g.ClusterOffset(dir) + off + 32 <= |s|
    requires InTable(chain1, n) && dir !in chain1
    ensures var s2 := WriteClusters(g, s1, chain1, data);
      var s3 := WriteAt(s2, g.ClusterOffset(dir) + off, Patched(EntryAt(g, s, dir, off), |data|));
      && OnlyClusters(g, s1, s2, n, chain1) && OnlyClusters(g, s2, s3, n, [dir])
      && EntryAt(g, s2, dir, off) == EntryAt(g, s, dir, off)
      && EntryAt(g, s3, dir, off) == Patched(EntryAt(g, s, dir, off), |data|)
      && SizeFieldOnly(g, s2, s3, dir, off)
      && Proper(g, s3, n) && TableOf(g, s3, n) == TableOf(g, s1, n)
  {
    var s2 := WriteClusters(g, s1, chain1, data);
    WriteClustersOutside(g, s1, n, chain1, data);
    ResizeKeepsClusters(g, s, s1, n, dir);
    assert Cluster(g, s2, dir) == Cluster(g, s, dir);
    EntryInCluster(g, s2, dir, off);
    EntryInCluster(g, s, dir, off);
    PatchEffect(g, s2, n, dir, off, |data|);
    var s3 := WriteAt(s2, g.ClusterOffset(dir) + off, Patched(EntryAt(g, s, dir, off), |data|));
    FatKept(g, s1, s2, n);
    FatKept(g, s2, s3, n);
  }

  // ---- the theorems ----

  // The volume, the entry and the clusters after a successful injection.
  ghost predicate Written(s': seq<Byte>, n: nat, g: Geometry, dir: nat, off: nat, chain': seq<nat>, data: seq<Byte>)
  {
    && Proper(g, s', n)
    && dir >= 2 && g.ClusterOffset(dir) + off + 32 <= |s'|
    && Field(EntryAt(g, s', dir, off), 28, 4) == |data|
    && InTable(chain', n) && |chain'| == Need(|data|, g.clusterSize)
    && |data| <= Times(|chain'|, g.clusterSize)
    && Contents(g, s', n, chain') == Padded(data, Times(|chain'|, g.clusterSize))
  }

  // And those clusters are the whole chain that the entry names.
  ghost predicate Holds(s': seq<Byte>, n: nat, g: Geometry, dir: nat, off: nat, chain': seq<nat>, data: seq<Byte>)
  {
    && Written(s', n, g, dir, off, chain', data)
    && IsChain(TableOf(g, s', n), StartCluster(EntryAt(g, s', dir, off)), chain')
  }

  // The walk saw the whole chain, or the table changed where it stopped.
  predicate Complete(chain: seq<nat>, need: nat) { |chain| <= WALK_LIMIT || need != WALK_LIMIT }

  // Every injection writes the data and zeros into the clusters the data needs and keeps the start cluster. They are
  // the file's whole chain afterwards unless a chain longer than the walk limit is to become exactly that long.
  lemma InjectReadsBack(s: seq<Byte>, part: nat, n: nat, g: Geometry, dir: nat, off: nat, chain: seq<nat>,
                        data: seq<Byte>)
    requires Located(s, part, n, g, dir, off, chain) && HasRoom(s, n, g, chain, data)
    ensures Inject(s, part, dir, off, data).0.Ok?
    ensures Written(Inject(s, part, dir, off, data).1, n, g, dir, off, Inject(s, part, dir, off, data).0.value, data)
    ensures EntryAt(g, Inject(s, part, dir, off, data).1, dir, off) == Patched(EntryAt(g, s, dir, off), |data|)
    ensures StartCluster(EntryAt(g, Inject(s, part, dir, off, data).1, dir, off)) == chain[0]
    ensures Holds(Inject(s, part, dir, off, data).1, n, g, dir, off, Inject(s, part, dir, off, data).0.value, data)
       <==> Complete(chain, Need(|data|, g.clusterSize))
  {
    hide WriteClusters, Contents, Times, Need;
    var t := TableOf(g, s, n);
    var s1, chain1 := Stages(s, part, n, g, dir, off, chain, data);
    DirUntouched(t, dir, chain, chain1);
    WritesEffect(g, s, s1, n, dir, off, chain1, data);
    ResizedDistinct(t, chain, chain1);
    InjectWrites(g, s1, n, dir, off, chain1, data, Patched(EntryAt(g, s, dir, off), |data|));
    PatchedFields(EntryAt(g, s, dir, off), |data|, 4);
    ResizedIsChain(t, chain, chain1);
  }

  // The clusters after the data and the entry have been written.
  lemma InjectWrites(g: Geometry, s1: seq<Byte>, n: nat, dir: nat, off: nat, chain1: seq<nat>, data: seq<Byte>,
                     entry: seq<Byte>)
    requires Fits(g, n, |s1|) && InTable(chain1, n) && Distinct(chain1) && |chain1| == Need(|data|, g.clusterSize)
    requires dir >= 2 && dir !in chain1
    requires var s2 := WriteClusters(g, s1, chain1, data);
      |s2| == |s1| && OnlyClusters(g, s2, WriteAt(s2, g.ClusterOffset(dir) + off, entry), n, [dir])
    ensures var s3 := WriteAt(WriteClusters(g, s1, chain1, data), g.ClusterOffset(dir) + off, entry);
      && |s3| == |s1| && |data| <= Times(|chain1|, g.clusterSize)
      && Contents(g, s3, n, chain1) == Padded(data, Times(|chain1|, g.clusterSize))
  {
    hide WriteClusters, Contents, Times, Need, Cluster;
    var s2 := WriteClusters(g, s1, chain1, data);
    var s3 := WriteAt(s2, g.ClusterOffset(dir) + off, entry);
    NeedCovers(|data|, g.clusterSize);
    WriteClustersContents(g, s1, n, chain1, data);
    forall i | 0 <= i < |chain1|
      ensures g.ClusterOffset(chain1[i]) + g.clusterSize <= |s2| &&
        Cluster(g, s3, chain1[i]) == Cluster(g, s2, chain1[i])
    {
      ClusterInside(g, n, |s2|, chain1[i]);
      assert chain1[i] !in [dir];
    }
    ContentsKept(g, s2, s3, n, chain1);
  }

  lemma ResizedDistinct(t: Table, chain: seq<nat>, chain1: seq<nat>)
    requires |chain| > 0 && IsChain(t, chain[0], chain) && IsResize(t, Walked(chain), chain1)
    ensures Distinct(chain1)
  {
    var w := Walked(chain);
    WalkedAllocated(t, chain[0], chain);
    if |chain1| > |w| {
      var free := chain1[|w|..];
      assert chain1 == w + free;
      forall i, j | 0 <= i < |w| && 0 <= j < |free| ensures w[i] != free[j] {}
    }
  }

  // The resized clusters are a whole chain, unless the table was left as it was around a longer one.
  lemma ResizedIsChain(t: Table, chain: seq<nat>, chain1: seq<nat>)
    requires |chain| > 0 && IsChain(t, chain[0], chain) && IsResize(t, Walked(chain), chain1) && InTable(chain1, |t|)
    ensures InTable(Walked(chain), |t|)
    ensures IsChain(Resized(t, Walked(chain), chain1), chain[0], chain1) <==> Complete(chain, |chain1|)
  {
    var w := Walked(chain);
    PrefixIsRun(t, chain[0], chain, |w|);
    assert chain[..|w|] == w;
    if |chain1| > |w| {
      GrownIsChain(t, w, chain1[|w|..]);
      assert chain1 == w + chain1[|w|..];
    } else if |chain1| < |w| {
      ShrunkIsChain(t, w, |chain1|);
    } else if |chain| > WALK_LIMIT {
      if IsChain(t, chain[0], chain1) { ChainUnique(t, chain[0], chain, chain1); }
    }
  }

  // The table that the injection leaves.
  lemma InjectTable(s: seq<Byte>, part: nat, n: nat, g: Geometry, dir: nat, off: nat, chain: seq<nat>, data: seq<Byte>)
    returns (chain1: seq<nat>)
    requires Located(s, part, n, g, dir, off, chain) && HasRoom(s, n, g, chain, data)
    ensures var s' := Inject(s, part, dir, off, data).1;
      && Inject(s, part, dir, off, data).0 == Ok(chain1) && |chain1| == Need(|data|, g.clusterSize)
      && |s'| == |s| && Proper(g, s', n) && InTable(chain1, n) && InTable(Walked(chain), n)
      && IsResize(TableOf(g, s, n), Walked(chain), chain1)
      && TableOf(g, s', n) == Resized(TableOf(g, s, n), Walked(chain), chain1)
  {
    hide WriteClusters, Need, Patched, TableOf, Resized, CopiesAgree, StartCluster, EntryAt;
    var s1;
    s1, chain1 := Stages(s, part, n, g, dir, off, chain, data);
    DirUntouched(TableOf(g, s, n), dir, chain, chain1);
    WritesEffect(g, s, s1, n, dir, off, chain1, data);
  }

  // The bounded walk over the resized table.
  lemma ResizedWalks(read: Reader, t: Table, chain: seq<nat>, chain1: seq<nat>)
    requires |chain| > 0 && IsChain(t, chain[0], chain) && IsResize(t, Walked(chain), chain1) && InTable(chain1, |t|)
    requires InTable(Walked(chain), |t|) && Reads(read, Resized(t, Walked(chain), chain1))
    ensures Walk(read, chain[0], WALK_LIMIT) == Some(Cut(chain1, WALK_LIMIT))
  {
    hide Walk, Resized, IsChain, Reads;
    ResizedIsChain(t, chain, chain1);
    if Complete(chain, |chain1|) {
      assert chain1[0] == chain[0];
      WalkIsChain(read, Resized(t, Walked(chain), chain1), chain1, WALK_LIMIT);
    } else {
      Unresized(t, Walked(chain), chain1);
      WalkIsChain(read, t, chain, WALK_LIMIT);
    }
  }

  lemma Unresized(t: Table, chain: seq<nat>, chain1: seq<nat>)
    requires IsResize(t, chain, chain1) && |chain1| == |chain| && InTable(chain, |t|)
    ensures chain1 == chain && Resized(t, chain, chain1) == t
  {
  }

  // Walking again from the start cluster gives the clusters written, up to the limit of the walk.
  lemma InjectWalks(s: seq<Byte>, part: nat, n: nat, g: Geometry, dir: nat, off: nat, chain: seq<nat>,
                    data: seq<Byte>)
    requires Located(s, part, n, g, dir, off, chain) && HasRoom(s, n, g, chain, data)
    ensures var (r, s') := Inject(s, part, dir, off, data);
      r.Ok? && |r.value| == Need(|data|, g.clusterSize)
      && Walk(ReaderOf(g, s'), chain[0], WALK_LIMIT) == Some(Cut(r.value, WALK_LIMIT))
  {
    hide Need, Walk, ReaderOf, Cut, Resized, Inject, TableOf, CopiesAgree, IsResize, HasRoom, EntryAt, StartCluster;
    var chain1 := InjectTable(s, part, n, g, dir, off, chain, data);
    var s' := Inject(s, part, dir, off, data).1;
    ReaderReads(g, s', n);
    ResizedWalks(ReaderOf(g, s'), TableOf(g, s, n), chain, chain1);
  }

  // So the walk gives exactly the new clusters when they are no more than that limit.
  lemma InjectWalksWhole(s: seq<Byte>, part: nat, n: nat, g: Geometry, dir: nat, off: nat, chain: seq<nat>,
                         data: seq<Byte>)
    requires Located(s, part, n, g, dir, off, chain) && HasRoom(s, n, g, chain, data)
    ensures var (r, s') := Inject(s, part, dir, off, data);
      r.Ok? && (Walk(ReaderOf(g, s'), chain[0], WALK_LIMIT) == Some(r.value) <==>
                Need(|data|, g.clusterSize) <= WALK_LIMIT)
  {
    hide Inject, Walk, ReaderOf, Located, HasRoom, Need;
    InjectWalks(s, part, n, g, dir, off, chain, data);
  }

  lemma PatchedFields(entry: seq<Byte>, size: nat, width: nat)
    requires |entry| == 32 && size < Pow256(4) && width == 4
    ensures Field(Patched(entry, size), 28, 4) == size
    ensures StartCluster(Patched(entry, size)) == StartCluster(entry)
  {
    var p := Patched(entry, size);
    assert p[28..32] == Le(size, width);
    FromLeOfLe(size, width);
    assert p[26..28] == entry[26..28] && p[20..22] == entry[20..22];
  }

  // Links of clusters that are in use and outside the file do not change.
  lemma ResizedKeepsLink(t: Table, chain: seq<nat>, chain1: seq<nat>, c: nat)
    requires Allocated(t, chain) && IsResize(t, chain, chain1) && InTable(chain1, |t|)
    requires 2 <= c < |t| && t[c] != 0 && c !in chain
    ensures Resized(t, chain, chain1)[c] == t[c] && c !in chain1
  {
    if |chain1| > |chain| {
      var free := chain1[|chain|..];
      GrownAt(t, chain, free);
      assert chain1 == chain + free;
    } else {
      ShrunkAt(t, chain, |chain1|);
    }
  }

  lemma WalkedAllocated(t: Table, start: nat, chain: seq<nat>)
    requires IsChain(t, start, chain)
    ensures Allocated(t, Walked(chain))
  {
    ChainAllocated(t, start, chain);
  }

  // A cluster in use outside the file keeps its link and, but for the size field of the patched entry, its bytes.
  lemma InjectKeepsCluster(s: seq<Byte>, part: nat, n: nat, g: Geometry, dir: nat, off: nat, chain: seq<nat>,
                           data: seq<Byte>, c: nat)
    requires Located(s, part, n, g, dir, off, chain) && HasRoom(s, n, g, chain, data)
    requires 2 <= c < n && TableOf(g, s, n)[c] != 0 && c !in chain
    ensures var s' := Inject(s, part, dir, off, data).1;
      && |s'| == |s| && Fits(g, n, |s'|) && TableOf(g, s', n)[c] == TableOf(g, s, n)[c]
      && g.ClusterOffset(c) + g.clusterSize <= |s|
      && (c != dir ==> Cluster(g, s', c) == Cluster(g, s, c))
      && SameBut(Cluster(g, s, c), Cluster(g, s', c), off + 28, off + 32)
  {
    var t := TableOf(g, s, n);
    var s1, chain1 := Stages(s, part, n, g, dir, off, chain, data);
    DirUntouched(t, dir, chain, chain1);
    WalkedAllocated(t, StartCluster(EntryAt(g, s, dir, off)), chain);
    ResizedKeepsLink(t, Walked(chain), chain1, c);
    WritesKeepCluster(g, s, s1, n, dir, off, chain1, data, c);
  }

  lemma WritesKeepCluster(g: Geometry, s: seq<Byte>, s1: seq<Byte>, n: nat, dir: nat, off: nat, chain1: seq<nat>,
                          data: seq<Byte>, c: nat)
    requires Proper(g, s, n) && SameOutsideFat(g, s, s1) && Proper(g, s1, n)
    requires 2 <= dir < n && off + 32 <= g.clusterSize && g.ClusterOffset(dir) + off + 32 <= |s|
    requires InTable(chain1, n) && dir !in chain1 && 2 <= c < n && c !in chain1
    ensures var s3 := WriteAt(WriteClusters(g, s1, chain1, data), g.ClusterOffset(dir) + off,
                              Patched(EntryAt(g, s, dir, off), |data|));
      && |s3| == |s| && TableOf(g, s3, n) == TableOf(g, s1, n)
      && g.ClusterOffset(c) + g.clusterSize <= |s|
      && (c != dir ==> Cluster(g, s3, c) == Cluster(g, s, c))
      && SameBut(Cluster(g, s, c), Cluster(g, s3, c), off + 28, off + 32)
  {
    WritesEffect(g, s, s1, n, dir, off, chain1, data);
    ResizeKeepsClusters(g, s, s1, n, c);
    var s2 := WriteClusters(g, s1, chain1, data);
    var s3 := WriteAt(s2, g.ClusterOffset(dir) + off, Patched(EntryAt(g, s, dir, off), |data|));
    assert Cluster(g, s2, c) == Cluster(g, s1, c);
    if c == dir {
      SizeFieldInCluster(g, s2, s3, dir, off);
    } else {
      assert Cluster(g, s3, c) == Cluster(g, s2, c);
    }
  }

  ghost predicate SameBut(a: seq<Byte>, b: seq<Byte>, lo: nat, hi: nat)
  {
    |a| == |b| && forall i :: 0 <= i < |a| && !(lo <= i < hi) ==> a[i] == b[i]
  }

  lemma SizeFieldInCluster(g: Geometry, s: seq<Byte>, s': seq<Byte>, dir: nat, off: nat)
    requires dir >= 2 && SizeFieldOnly(g, s, s', dir, off) && g.ClusterOffset(dir) + g.clusterSize <= |s|
    ensures SameBut(Cluster(g, s, dir), Cluster(g, s', dir), off + 28, off + 32)
  {
  }

  // Every other file keeps its chain and, unless its data is the patched directory, its contents.
  lemma InjectKeepsFile(s: seq<Byte>, part: nat, n: nat, g: Geometry, dir: nat, off: nat, chain: seq<nat>,
                        data: seq<Byte>, start: nat, other: seq<nat>)
    requires Located(s, part, n, g, dir, off, chain) && HasRoom(s, n, g, chain, data)
    requires IsChain(TableOf(g, s, n), start, other) && Clusters(other) !! Clusters(chain)
    ensures var s' := Inject(s, part, dir, off, data).1;
      && Fits(g, n, |s'|) && IsChain(TableOf(g, s', n), start, other)
      && (dir !in other ==> Contents(g, s', n, other) == Contents(g, s, n, other))
  {
    var t, s' := TableOf(g, s, n), Inject(s, part, dir, off, data).1;
    ChainAllocated(t, start, other);
    InjectKeepsCluster(s, part, n, g, dir, off, chain, data, dir);
    forall i | 0 <= i < |other|
      ensures TableOf(g, s', n)[other[i]] == t[other[i]]
      ensures g.ClusterOffset(other[i]) + g.clusterSize <= |s|
      ensures other[i] != dir ==> Cluster(g, s', other[i]) == Cluster(g, s, other[i])
    {
      assert other[i] in Clusters(other);
      assert other[i] !in Clusters(chain);
      InjectKeepsCluster(s, part, n, g, dir, off, chain, data, other[i]);
    }
    ChainKept(t, TableOf(g, s', n), start, other);
    if dir !in other { ContentsKept(g, s, s', n, other); }
  }

  // Chains of a volume, none sharing a cluster with another.
  ghost predicate Separate(t: Table, files: seq<seq<nat>>)
  {
    && (forall i :: 0 <= i < |files| ==> |files[i]| > 0 && IsChain(t, files[i][0], files[i]))
    && (forall i, j :: 0 <= i < j < |files| ==> Clusters(files[i]) !! Clusters(files[j]))
  }

  ghost predicate AllDistinct(files: seq<seq<nat>>) { forall i :: 0 <= i < |files| ==> Distinct(files[i]) }

  // After the injection all chains of the volume are still chains, free of cycles and of cross-links.
  lemma InjectKeepsSeparate(s: seq<Byte>, part: nat, n: nat, g: Geometry, dir: nat, off: nat, files: seq<seq<nat>>,
                            k: nat, data: seq<Byte>)
    requires k < |files| && Located(s, part, n, g, dir, off, files[k]) && HasRoom(s, n, g, files[k], data)
    requires Complete(files[k], Need(|data|, g.clusterSize)) && Separate(TableOf(g, s, n), files)
    ensures Inject(s, part, dir, off, data).0.Ok? && Fits(g, n, |Inject(s, part, dir, off, data).1|)
    ensures var (r, s') := Inject(s, part, dir, off, data);
      Separate(TableOf(g, s', n), files[k := r.value]) && AllDistinct(files[k := r.value])
  {
    hide Inject, Need, Written, StartCluster, EntryAt, Patched, CopiesAgree, HasRoom, TableOf;
    var t := TableOf(g, s, n);
    InjectReadsBack(s, part, n, g, dir, off, files[k], data);
    var chain1 := InjectTable(s, part, n, g, dir, off, files[k], data);
    var s' := Inject(s, part, dir, off, data).1;
    var files' := files[k := chain1];
    forall i | 0 <= i < |files| && i != k
      ensures IsChain(TableOf(g, s', n), files[i][0], files[i]) && Clusters(files[i]) !! Clusters(chain1)
    {
      assert Clusters(files[i]) !! Clusters(files[k]);
      InjectKeepsFile(s, part, n, g, dir, off, files[k], data, files[i][0], files[i]);
      NewChainSeparate(t, files[k], chain1, files[i]);
    }
    assert IsChain(TableOf(g, s', n), chain1[0], chain1);
    assert Separate(TableOf(g, s', n), files');
    forall i | 0 <= i < |files|
      ensures Distinct(files'[i])
    {
      ChainAcyclic(TableOf(g, s', n), files'[i][0], files'[i]);
    }
  }

  lemma NewChainSeparate(t: Table, chain: seq<nat>, chain1: seq<nat>, other: seq<nat>)
    requires |chain| > 0 && IsChain(t, chain[0], chain) && |other| > 0 && IsChain(t, other[0], other)
    requires IsResize(t, Walked(chain), chain1) && InTable(chain1, |t|) && Clusters(other) !! Clusters(chain)
    ensures Clusters(other) !! Clusters(chain1)
  {
    WalkedAllocated(t, chain[0], chain);
    ChainAllocated(t, other[0], other);
    forall c | c in other ensures c !in chain1 {
      assert c in Clusters(other);
      assert c !in Clusters(chain);
      ResizedKeepsLink(t, Walked(chain), chain1, c);
    }
  }

  lemma ResizedFreeCount(t: Table, chain: seq<nat>, chain1: seq<nat>)
    requires Allocated(t, chain) && IsResize(t, chain, chain1) && InTable(chain1, |t|)
    ensures FreeCount(Resized(t, chain, chain1)) == FreeCount(t) + |chain| - |chain1|
  {
    if |chain1| > |chain| {
      GrownFreeCount(t, chain, chain1[|chain|..]);
    } else if |chain1| < |chain| {
      ShrunkFreeCount(t, chain, |chain1|);
    }
  }

  // The number of free clusters changes by the old length minus the new length exactly when the walk saw the
  // whole old chain; a longer chain leaks its unseen tail.
  lemma InjectConserves(s: seq<Byte>, part: nat, n: nat, g: Geometry, dir: nat, off: nat, chain: seq<nat>,
                        data: seq<Byte>)
    requires Located(s, part, n, g, dir, off, chain) && HasRoom(s, n, g, chain, data)
    ensures var s' := Inject(s, part, dir, off, data).1;
      && Proper(g, s', n)
      && FreeCount(TableOf(g, s', n)) == FreeCount(TableOf(g, s, n)) + |Walked(chain)| - Need(|data|, g.clusterSize)
      && ((FreeCount(TableOf(g, s', n)) == FreeCount(TableOf(g, s, n)) + |chain| - Need(|data|, g.clusterSize))
          <==> |chain| <= WALK_LIMIT)
  {
    var t := TableOf(g, s, n);
    var s1, chain1 := Stages(s, part, n, g, dir, off, chain, data);
    DirUntouched(t, dir, chain, chain1);
    WritesEffect(g, s, s1, n, dir, off, chain1, data);
    WalkedAllocated(t, StartCluster(EntryAt(g, s, dir, off)), chain);
    ResizedFreeCount(t, Walked(chain), chain1);
  }

  // The boot sector stays, so the volume can be injected into again.
  lemma InjectKeepsGeometry(s: seq<Byte>, part: nat, n: nat, g: Geometry, dir: nat, off: nat, chain: seq<nat>,
                            data: seq<Byte>)
    requires Located(s, part, n, g, dir, off, chain) && HasRoom(s, n, g, chain, data)
    ensures ReadGeometry(Inject(s, part, dir, off, data).1, part) == Some(g)
  {
    var s1, chain1 := Stages(s, part, n, g, dir, off, chain, data);
    DirUntouched(TableOf(g, s, n), dir, chain, chain1);
    WritesKeepFront(g, s, s1, n, dir, off, chain1, data);
    SameSector(s, Inject(s, part, dir, off, data).1, part, g.fatStart);
  }

  lemma WritesKeepFront(g: Geometry, s: seq<Byte>, s1: seq<Byte>, n: nat, dir: nat, off: nat, chain1: seq<nat>,
                        data: seq<Byte>)
    requires Proper(g, s, n) && SameOutsideFat(g, s, s1) && Proper(g, s1, n)
    requires 2 <= dir < n && off + 32 <= g.clusterSize && g.ClusterOffset(dir) + off + 32 <= |s|
    requires InTable(chain1, n) && dir !in chain1
    ensures var s3 := WriteAt(WriteClusters(g, s1, chain1, data), g.ClusterOffset(dir) + off,
                              Patched(EntryAt(g, s, dir, off), |data|));
      |s3| == |s| && forall i :: 0 <= i < g.fatStart ==> s3[i] == s[i]
  {
    WritesEffect(g, s, s1, n, dir, off, chain1, data);
    var s2 := WriteClusters(g, s1, chain1, data);
    var s3 := WriteAt(s2, g.ClusterOffset(dir) + off, Patched(EntryAt(g, s, dir, off), |data|));
    PrefixOf(s1, s2, g.dataStart, g.fatStart);
    PrefixOf(s2, s3, g.dataStart, g.fatStart);
  }

  lemma PrefixOf(s: seq<Byte>, s': seq<Byte>, far: nat, near: nat)
    requires near <= far <= |s| == |s'| && s'[..far] == s[..far]
    ensures forall i :: 0 <= i < near ==> s'[i] == s[i]
  {
    forall i | 0 <= i < near ensures s'[i] == s[i] { assert s'[..far][i] == s[..far][i]; }
  }

  lemma SameSector(s: seq<Byte>, s': seq<Byte>, part: nat, end: nat)
    requires part + 48 <= end <= |s| == |s'| && forall i :: 0 <= i < end ==> s'[i] == s[i]
    ensures ReadGeometry(s', part) == ReadGeometry(s, part)
  {
    assert s'[part + 11..part + 13] == s[part + 11..part + 13];
    assert s'[part + 13..part + 14] == s[part + 13..part + 14];
    assert s'[part + 14..part + 16] == s[part + 14..part + 16];
    assert s'[part + 16..part + 17] == s[part + 16..part + 17];
    assert s'[part + 36..part + 40] == s[part + 36..part + 40];
  }
}
