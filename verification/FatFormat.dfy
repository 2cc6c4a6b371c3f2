/** What the bytes of a FAT32 image mean to the injector, in arithmetic. */
module FatFormat {
  import opened Bits
  import opened Bytes
  import opened FatChain
  import opened FatVolume
  import opened FatWalk
  import opened FatInject
  import opened FatCorrect

  // Two and four bytes, the low one first.
  function Half(s: seq<Byte>, at: nat): nat
    requires at + 2 <= |s|
  {
    s[at] + 256 * (s[at + 1] as int)
  }

  function Word(s: seq<Byte>, at: nat): nat
    requires at + 4 <= |s|
  {
    Half(s, at) + 0x1_0000 * Half(s, at + 2)
  }

  lemma FieldIsByte(s: seq<Byte>, at: nat)
    requires at < |s|
    ensures Field(s, at, 1) == s[at]
  {
    assert s[at..at + 1] == [s[at]];
    FromLeOne(s[at]);
  }

  lemma FieldIsHalf(s: seq<Byte>, at: nat)
    requires at + 2 <= |s|
    ensures Field(s, at, 2) == Half(s, at)
  {
    assert s[at..at + 2] == [s[at], s[at + 1]];
    FromLeTwo(s[at], s[at + 1]);
  }

  lemma FieldIsWord(s: seq<Byte>, at: nat)
    requires at + 4 <= |s|
    ensures Field(s, at, 4) == Word(s, at)
  {
    assert s[at..at + 4] == [s[at], s[at + 1], s[at + 2], s[at + 3]];
    FromLeFour(s[at], s[at + 1], s[at + 2], s[at + 3]);
  }

  // Sector size, sectors per cluster, reserved sectors, copies and sectors per copy give the places of the FAT and of
  // the data area and the size of a cluster, counted from the start of the partition.
  lemma GeometryMeans(s: seq<Byte>, part: nat)
    requires part + 48 <= |s|
    ensures var bps, spc, reserved := Half(s, part + 11), s[part + 13] as int, Half(s, part + 14);
      var numFats, fatSize := s[part + 16] as int, Word(s, part + 36);
      ReadGeometry(s, part).Some? && var g := ReadGeometry(s, part).value;
      && g.fatStart == part + reserved * bps && g.numFats == numFats && g.fatBytes == fatSize * bps
      && g.dataStart == g.fatStart + numFats * (fatSize * bps) && g.clusterSize == bps * spc
  {
    hide Field;
    FieldIsHalf(s, part + 11);
    FieldIsByte(s, part + 13);
    FieldIsHalf(s, part + 14);
    FieldIsByte(s, part + 16);
    FieldIsWord(s, part + 36);
  }

  // An entry of the table is the low 28 bits of the word at four times its number behind the start of the FAT.
  lemma TableMeans(g: Geometry, s: seq<Byte>, n: nat, c: nat)
    requires Fits(g, n, |s|) && c < n
    ensures g.fatStart + 4 * c + 4 <= |s| && TableOf(g, s, n)[c] == Word(s, g.fatStart + 4 * c) % 0x1000_0000
  {
    hide Word, And;
    ReadFatIsTable(g, s, n, c);
    EntryInside(g, n, |s|, 0, c);
    FatOfCopy0(g, c);
    FieldIsWord(s, g.fatStart + 4 * c);
    MaskLow28(Field(s, g.fatStart + 4 * c, 4));
  }

  lemma FatOfCopy0(g: Geometry, c: nat)
    ensures g.FatOffset(0, c) == g.fatStart + 4 * c
  {
  }

  // The walk follows numbers from 2 up to the end marks from 0x0FFFFFF8 on.
  lemma WalkGoesOn(read: Reader, c: nat, room: nat)
    requires room >= 1
    ensures Walk(read, c, room) == Some([]) <==> c < 2 || c >= 0x0FFF_FFF8
  {
  }

  // A directory entry names its start cluster in two halves: the low one at 26, the high one at 20.
  lemma StartClusterMeans(entry: seq<Byte>)
    requires |entry| == 32
    ensures StartCluster(entry) == Half(entry, 26) + 0x1_0000 * Half(entry, 20)
  {
    hide Field, Or, Shl;
    FieldIsHalf(entry, 26);
    FieldIsHalf(entry, 20);
    Pow2Values();
    OrLanes(Half(entry, 20), Half(entry, 26), 16);
    ShlIsProduct(Half(entry, 20), 16);
  }

  lemma StartClusterOf(entry: seq<Byte>, c: nat)
    requires |entry| == 32 && c < 0x1_0000_0000
    requires entry[26..28] == Le(c % 0x1_0000, 2) && entry[20..22] == Le(c / 0x1_0000, 2)
    ensures StartCluster(entry) == c
  {
    hide Le, FromLe, StartCluster;
    Pow256Values();
    FromLeOfLe(c % 0x1_0000, 2);
    FromLeOfLe(c / 0x1_0000, 2);
    FieldIsHalf(entry, 26);
    FieldIsHalf(entry, 20);
    StartClusterMeans(entry);
  }

  // So the chain of a located entry starts at the cluster that these bytes of the image name.
  lemma LocatedStart(s: seq<Byte>, part: nat, n: nat, g: Geometry, dir: nat, off: nat, chain: seq<nat>)
    requires Located(s, part, n, g, dir, off, chain)
    ensures var at := g.dataStart + (dir - 2) * g.clusterSize + off;
      at >= 0 && at + 32 <= |s| && |chain| > 0 && chain[0] == Half(s, at + 26) + 0x1_0000 * Half(s, at + 20)
  {
    hide TableOf, ReadGeometry, Proper, StartCluster, Times;
    var entry := EntryAt(g, s, dir, off);
    TimesIsProduct(dir - 2, g.clusterSize);
    StartClusterMeans(entry);
  }

  // ---- the data, byte by byte ----

  lemma {:induction false} ContentsLength(g: Geometry, s: seq<Byte>, n: nat, chain: seq<nat>)
    requires Fits(g, n, |s|) && InTable(chain, n)
    ensures |Contents(g, s, n, chain)| == Times(|chain|, g.clusterSize)
    decreases |chain|
  {
    hide Fits;
    if |chain| > 0 {
      ClusterInside(g, n, |s|, chain[0]);
      ContentsLength(g, s, n, chain[1..]);
    }
  }

  // Byte r of cluster k of a file.
  lemma {:induction false} ContentsAt(g: Geometry, s: seq<Byte>, n: nat, chain: seq<nat>, k: nat, r: nat)
    requires Fits(g, n, |s|) && InTable(chain, n) && k < |chain| && r < g.clusterSize
    ensures g.ClusterOffset(chain[k]) + r < |s| && Times(k, g.clusterSize) + r < |Contents(g, s, n, chain)|
    ensures Contents(g, s, n, chain)[Times(k, g.clusterSize) + r] == s[g.ClusterOffset(chain[k]) + r]
    decreases k
  {
    hide Fits;
    ContentsLength(g, s, n, chain);
    ClusterInside(g, n, |s|, chain[0]);
    ClusterInside(g, n, |s|, chain[k]);
    if k > 0 {
      ContentsAt(g, s, n, chain[1..], k - 1, r);
      var rest, i := Contents(g, s, n, chain[1..]), Times(k - 1, g.clusterSize) + r;
      NextCluster(Cluster(g, s, chain[0]), rest, g.clusterSize, i);
    } else {
      assert Contents(g, s, n, chain)[r] == Cluster(g, s, chain[0])[r];
    }
  }

  lemma NextCluster(a: seq<Byte>, b: seq<Byte>, size: nat, i: nat)
    requires |a| == size && i < |b|
    ensures (a + b)[size + i] == b[i]
  {
  }

  // After an injection byte i of the data stands in the cluster that is i / clusterSize along the new chain, and
  // zeros fill the last one.
  lemma InjectedByte(s: seq<Byte>, part: nat, n: nat, g: Geometry, dir: nat, off: nat, chain: seq<nat>,
                     data: seq<Byte>, k: nat, r: nat)
    requires Located(s, part, n, g, dir, off, chain) && HasRoom(s, n, g, chain, data)
    requires r < g.clusterSize
    ensures Inject(s, part, dir, off, data).0.Ok?
    ensures var (result, s') := Inject(s, part, dir, off, data);
      k < |result.value| ==>
        var at, i := g.dataStart + (result.value[k] - 2) * g.clusterSize + r, k * g.clusterSize + r;
        0 <= at < |s'| && 0 <= i && s'[at] == if i < |data| then data[i] else 0
  {
    hide Inject, TableOf, ReadGeometry, StartCluster, IsChain, HasRoom, CopiesAgree, EntryAt, Patched, Contents, Times,
         Field, Need;
    InjectReadsBack(s, part, n, g, dir, off, chain, data);
    var (result, s') := Inject(s, part, dir, off, data);
    var chain' := result.value;
    if k < |chain'| {
      ContentsAt(g, s', n, chain', k, r);
      TimesIsProduct(k, g.clusterSize);
      TimesIsProduct(chain'[k] - 2, g.clusterSize);
      PaddedAt(data, Times(|chain'|, g.clusterSize), Times(k, g.clusterSize) + r);
    }
  }

  lemma PaddedAt(data: seq<Byte>, size: nat, i: nat)
    requires |data| <= size && i < size
    ensures Padded(data, size)[i] == if i < |data| then data[i] else 0
  {
  }

  // The search hands out a free cluster exactly if it lies below 0x0FFFFFF0.
  lemma SearchLimit(read: Reader, c: nat)
    requires 2 <= c <= 0x0FFF_FFF0 && read(c) == Some(0)
    ensures Search(read, c, 1) == if c < 0x0FFF_FFF0 then Ok([c]) else NoFreeClusters
  {
    if c < 0x0FFF_FFF0 {
      var none: seq<nat> := [];
      assert Search(read, c + 1, 0) == Ok(none) && [c] + none == [c];
    }
  }

  // ---- failures ----

  // The search for `more` clusters runs into the end of the image, or up to its bound.
  ghost predicate RunsOff(g: Geometry, s: seq<Byte>, more: int)
  {
    more > 0 && exists d: nat ::
      d <= 0x0FFF_FFF0 && Reaches(ReaderOf(g, s), 2, more, d) && g.fatStart + 4 * d + 4 > |s|
  }

  ghost predicate RunsOut(g: Geometry, s: seq<Byte>, more: int)
  {
    more > 0 && Reaches(ReaderOf(g, s), 2, more, 0x0FFF_FFF0) && g.fatStart + 4 * 0x0FFF_FFF0 + 4 <= |s|
  }

  // How an injection into a located entry ends, and that one that fails before its size field leaves the image alone.
  lemma InjectFails(s: seq<Byte>, part: nat, n: nat, g: Geometry, dir: nat, off: nat, chain: seq<nat>, data: seq<Byte>)
    requires Located(s, part, n, g, dir, off, chain)
    ensures var (r, s') := Inject(s, part, dir, off, data);
      var more := Need(|data|, g.clusterSize) - |Walked(chain)|;
      && (r == NoFreeClusters <==> RunsOut(g, s, more))
      && (r == Raised <==> RunsOff(g, s, more) || (|data| >= 0x1_0000_0000 && !RunsOut(g, s, more)))
      && (RunsOut(g, s, more) || RunsOff(g, s, more) ==> s' == s)
  {
    hide Located, Walk, Search, Extended, Truncated, WriteClusters, Reaches, TableOf, Inject, ReaderOf;
    InjectIsOverwrite(s, part, n, g, dir, off, chain, data);
    ClusterSizeOf(s, part, n, g, dir, off, chain);
    Pow256Values();
    var more := Need(|data|, g.clusterSize) - |Walked(chain)|;
    if more > 0 { SearchEnds(g, s, more); }
  }

  lemma ClusterSizeOf(s: seq<Byte>, part: nat, n: nat, g: Geometry, dir: nat, off: nat, chain: seq<nat>)
    requires Located(s, part, n, g, dir, off, chain)
    ensures g.clusterSize > 0 && dir >= 2 && g.ClusterOffset(dir) + off + 32 <= |s|
  {
  }

  lemma SearchEnds(g: Geometry, s: seq<Byte>, more: nat)
    requires more > 0
    ensures Search(ReaderOf(g, s), 2, more) == NoFreeClusters <==> RunsOut(g, s, more)
    ensures Search(ReaderOf(g, s), 2, more) == Raised <==> RunsOff(g, s, more)
  {
    hide Search, Reaches;
    SearchFails(ReaderOf(g, s), 2, more);
    forall d: nat ensures ReaderOf(g, s)(d) == None <==> g.fatStart + 4 * d + 4 > |s| { }
  }
}
