/**
 Volumes that hold a given table: two FAT copies, a directory in cluster 2 and one entry in it. A small one to which
 the theorems about the injector apply, and one with a chain longer than its walk.
 */
module FatExample {
  import opened Bits
  import opened Bytes
  import opened FatChain
  import opened FatVolume
  import opened FatWalk
  import opened FatInject
  import opened FatCorrect
  import opened FatFormat
  import opened FatRuns

  // ---- a volume for a table of 8 * k entries, with sectors and clusters of 32 bytes ----

  function GeometryOf(k: nat): Geometry { Geometry(64, 2, 32 * k, 64 + 64 * k, 32) }

  // Bytes per sector, sectors per cluster, reserved sectors, FAT copies; then the sectors per FAT.
  function Boot(k: nat): (r: seq<Byte>)
    ensures |r| == 64
  {
    Zeros(11) + [32, 0, 1, 2, 0, 2] + Zeros(19) + Le(k, Width()) + Zeros(24)
  }

  function Width(): nat { 4 }

  function Entries(t: Table): (r: seq<seq<Byte>>)
    ensures |r| == |t| && forall c :: 0 <= c < |t| ==> r[c] == PackEntry(t[c])
  {
    seq(|t|, c requires 0 <= c < |t| => PackEntry(t[c]))
  }

  function Fat(t: Table): seq<Byte> { Flatten(Entries(t)) }

  // A directory entry that names a start cluster, split over two 16-bit fields.
  function Entry(start: nat): (r: seq<Byte>)
    ensures |r| == 32
  {
    Zeros(20) + [start / 0x1_0000 % 256, start / 0x100_0000 % 256] + Zeros(4)
    + [start % 256, start / 256 % 256] + Zeros(4)
  }

  // The directory, and the other clusters.
  function Data(n: nat, start: nat): seq<Byte>
    requires n >= 3
  {
    Entry(start) + Zeros(32 * (n - 3))
  }

  function Image(t: Table, k: nat, start: nat): seq<Byte>
    requires |t| >= 3
  {
    Boot(k) + Fat(t) + Fat(t) + Data(|t|, start)
  }

  ghost predicate Small(t: Table, k: nat, start: nat)
  {
    && |t| == 8 * k && 3 <= |t| <= SEARCH_LIMIT && k < 0x1000_0000 && start < 0x1_0000_0000
    && forall c :: 0 <= c < |t| ==> t[c] <= MASK28
  }

  // ---- what it holds ----

  lemma {:induction false} FatLength(parts: seq<seq<Byte>>)
    requires forall c :: 0 <= c < |parts| ==> |parts[c]| == 4
    ensures |Flatten(parts)| == 4 * |parts|
  {
    if parts != [] { FatLength(parts[1..]); }
  }

  lemma SliceMiddle(pre: seq<Byte>, x: seq<Byte>, post: seq<Byte>)
    ensures (pre + (x + post))[|pre|..|pre| + |x|] == x
  {
  }

  // Entry c of a FAT between other bytes.
  lemma EntryIn(pre: seq<Byte>, t: Table, post: seq<Byte>, c: nat)
    requires c < |t|
    ensures |Fat(t)| == 4 * |t|
    ensures (pre + Fat(t) + post)[|pre| + 4 * c..|pre| + 4 * c + 4] == PackEntry(t[c])
  {
    hide PackEntry, Flatten;
    var es := Entries(t);
    FatLength(es);
    FatLength(es[..c]);
    FlattenAt(es, c);
    var before, after := Flatten(es[..c]), Flatten(es[c + 1..]);
    assert pre + Fat(t) + post == (pre + before) + (es[c] + (after + post));
    SliceMiddle(pre + before, es[c], after + post);
  }

  lemma ImageSize(t: Table, k: nat, start: nat)
    requires Small(t, k, start)
    ensures |Fat(t)| == 32 * k && |Image(t, k, start)| == 64 + 64 * k + 32 * (|t| - 2)
  {
    hide Fat, Boot, Entry;
    EntryIn([], t, [], 0);
  }

  lemma TimesSmall(x: nat)
    ensures Times(0, x) == 0 && Times(1, x) == x && Times(2, x) == 2 * x
  {
    assert Times(1, x) == x + Times(0, x) && Times(2, x) == x + Times(1, x);
  }

  lemma ImageFits(t: Table, k: nat, start: nat)
    requires Small(t, k, start)
    ensures Fits(GeometryOf(k), |t|, |Image(t, k, start)|)
  {
    hide Image, Times;
    ImageSize(t, k, start);
    TimesSmall(32 * k);
    TimesIsProduct(|t| - 2, 32);
  }

  // Each copy holds the table.
  lemma RawEntryIs(t: Table, k: nat, start: nat, copy: nat, c: nat)
    requires Small(t, k, start) && copy < 2 && c < |t|
    ensures GeometryOf(k).FatOffset(copy, c) + 4 <= |Image(t, k, start)|
    ensures RawEntry(GeometryOf(k), Image(t, k, start), copy, c) == PackEntry(t[c])
  {
    hide Fat, Boot, Data, Times, PackEntry;
    ImageSize(t, k, start);
    TimesSmall(32 * k);
    var s, data := Image(t, k, start), Data(|t|, start);
    if copy == 0 {
      assert s == Boot(k) + Fat(t) + (Fat(t) + data);
      EntryIn(Boot(k), t, Fat(t) + data, c);
    } else {
      assert s == (Boot(k) + Fat(t)) + Fat(t) + data;
      EntryIn(Boot(k) + Fat(t), t, data, c);
    }
  }

  lemma ImageProper(t: Table, k: nat, start: nat)
    requires Small(t, k, start)
    ensures Proper(GeometryOf(k), Image(t, k, start), |t|) && TableOf(GeometryOf(k), Image(t, k, start), |t|) == t
  {
    hide Image, RawEntry, PackEntry, And, FromLe, Fits, Times;
    var g, s, n := GeometryOf(k), Image(t, k, start), |t|;
    ImageFits(t, k, start);
    forall copy, c | 0 <= copy < 2 && 0 <= c < n
      ensures g.FatOffset(copy, c) + 4 <= |s| && g.FatOffset(0, c) + 4 <= |s|
      ensures RawEntry(g, s, copy, c) == RawEntry(g, s, 0, c)
    {
      RawEntryIs(t, k, start, copy, c);
      RawEntryIs(t, k, start, 0, c);
    }
    forall c | 0 <= c < n ensures TableOf(g, s, n)[c] == t[c] {
      RawEntryIs(t, k, start, 0, c);
      PackedEntry(t[c]);
    }
  }

  lemma ImageFront(t: Table, k: nat, start: nat)
    requires |t| >= 3
    ensures |Image(t, k, start)| >= 64 && Image(t, k, start)[..64] == Boot(k)
  {
    hide Boot, Fat, Data;
  }

  lemma BootFields(k: nat)
    ensures Boot(k)[11..13] == [32, 0] && Boot(k)[13..14] == [1] && Boot(k)[14..16] == [2, 0] && Boot(k)[16..17] == [2]
    ensures Boot(k)[36..40] == Le(k, Width())
  {
    hide Le;
  }

  lemma GeometryRead(t: Table, k: nat, start: nat)
    requires Small(t, k, start)
    ensures ReadGeometry(Image(t, k, start), 0) == Some(GeometryOf(k))
  {
    hide Image, Boot, FromLe, Le;
    var s := Image(t, k, start);
    ImageFront(t, k, start);
    BootFields(k);
    assert s[11..13] == s[..64][11..13] && s[13..14] == s[..64][13..14] && s[14..16] == s[..64][14..16];
    assert s[16..17] == s[..64][16..17] && s[36..40] == s[..64][36..40];
    FromLeTwo(32, 0);
    FromLeOne(1);
    FromLeTwo(2, 0);
    FromLeOne(2);
    SizeReads(k);
  }

  lemma SizeReads(k: nat)
    requires k < 0x1000_0000
    ensures FromLe(Le(k, Width())) == k
  {
    Pow256Values();
    FromLeOfLe(k, Width());
  }

  // The entry in the directory's cluster.
  lemma EntryRead(t: Table, k: nat, start: nat)
    requires Small(t, k, start)
    ensures GeometryOf(k).ClusterOffset(2) + 32 <= |Image(t, k, start)|
    ensures EntryAt(GeometryOf(k), Image(t, k, start), 2, 0) == Entry(start)
  {
    hide Fat, Boot, Entry;
    ImageSize(t, k, start);
    var front := Boot(k) + Fat(t) + Fat(t);
    assert Image(t, k, start) == front + (Entry(start) + Zeros(32 * (|t| - 3)));
    SliceMiddle(front, Entry(start), Zeros(32 * (|t| - 3)));
  }

  lemma EntryStart(start: nat)
    requires start < 0x1_0000_0000
    ensures StartCluster(Entry(start)) == start
  {
    hide FromLe, Or, Shl, StartCluster;
    var e := Entry(start);
    assert e[26..28] == [start % 256, start / 256 % 256];
    assert e[20..22] == [start / 0x1_0000 % 256, start / 0x100_0000 % 256];
    StartClusterMeans(e);
    FourDigits(start);
  }

  lemma FourDigits(v: nat)
    requires v < 0x1_0000_0000
    ensures v % 256 + 256 * (v / 256 % 256) + 0x1_0000 * (v / 0x1_0000 % 256 + 256 * (v / 0x100_0000 % 256)) == v
  {
  }

  // A file whose chain is in the table, with its directory in cluster 2, is located.
  lemma FileLocated(t: Table, k: nat, chain: seq<nat>)
    requires |chain| > 0 && Small(t, k, chain[0]) && IsChain(t, chain[0], chain) && t[2] != 0 && 2 !in chain
    ensures Located(Image(t, k, chain[0]), 0, |t|, GeometryOf(k), 2, 0, chain)
  {
    hide Image, TableOf, ReadGeometry, StartCluster, EntryAt, CopiesAgree, Fits, IsChain;
    GeometryRead(t, k, chain[0]);
    ImageProper(t, k, chain[0]);
    EntryRead(t, k, chain[0]);
    EntryStart(chain[0]);
  }

  lemma FileHasRoom(t: Table, k: nat, chain: seq<nat>, data: seq<Byte>)
    requires |chain| > 0 && Small(t, k, chain[0]) && |data| < 0x1_0000_0000
    requires Need(|data|, 32) - |Walked(chain)| <= FreeCount(t)
    ensures Fits(GeometryOf(k), |t|, |Image(t, k, chain[0])|)
    ensures HasRoom(Image(t, k, chain[0]), |t|, GeometryOf(k), chain, data)
  {
    hide Image, TableOf, Walked, Need, FreeCount, Fits, CopiesAgree;
    ImageProper(t, k, chain[0]);
    Pow256Values();
  }

  // ---- a small volume ----

  // A file in cluster 3; clusters 4 to 7 are free.
  const SMALL: Table := [0, 0, END_OF_CHAIN, END_OF_CHAIN, 0, 0, 0, 0]

  // The theorems about the injector apply to it, for any data of up to five clusters.
  lemma SmallLocated(data: seq<Byte>)
    requires |data| <= 160
    ensures var s := Image(SMALL, 1, 3);
      Located(s, 0, 8, GeometryOf(1), 2, 0, [3]) && HasRoom(s, 8, GeometryOf(1), [3], data)
  {
    hide Image, TableOf, ReadGeometry, StartCluster, EntryAt, CopiesAgree, Fits;
    assert FreeSet(SMALL) == {4, 5, 6, 7};
    FileLocated(SMALL, 1, [3]);
    FileHasRoom(SMALL, 1, [3], data);
  }

  // And so do those about sequences of injections.
  lemma SmallVolume()
    ensures Volume(Image(SMALL, 1, 3), 0, 8, GeometryOf(1), [File(2, 0, [3])])
  {
    hide Image, Located, HasRoom;
    SmallLocated([]);
  }

  // ---- a start cluster above 65535 ----

  const HIGH: nat := 70000

  // The directory in cluster 2, and a file of one cluster whose number needs both fields of its entry.
  function HighTable(): (t: Table)
    ensures |t| == LONG
  {
    seq(LONG, c => if c == 2 || c == HIGH then END_OF_CHAIN else 0)
  }

  lemma HighLocated()
    ensures Located(Image(HighTable(), 12501, HIGH), 0, LONG, GeometryOf(12501), 2, 0, [HIGH])
  {
    hide Located, Image;
    assert HighTable()[2] != 0;
    FileLocated(HighTable(), 12501, [HIGH]);
  }

  // ---- a full volume ----

  // Behind the first copy of the table stands the second: its first word reads as the entry of a cluster that does not
  // exist. On a full volume it is the one the search finds.
  lemma FullSearch(t: Table, k: nat, start: nat)
    requires Small(t, k, start) && |t| < SEARCH_LIMIT && t[0] == 0 && forall c :: 2 <= c < |t| ==> t[c] != 0
    ensures FreeCount(t) == 0 && Search(ReaderOf(GeometryOf(k), Image(t, k, start)), 2, 1) == Ok([|t|])
  {
    hide Image, RawEntry, PackEntry, And, FromLe, Fits, Times, TableOf;
    var g, s := GeometryOf(k), Image(t, k, start);
    ImageProper(t, k, start);
    ReaderReads(g, s, |t|);
    BehindTable(t, k, start);
    assert FreeSet(t) == {};
    FullTableRunsPast(ReaderOf(g, s), t, 2);
  }

  lemma BehindTable(t: Table, k: nat, start: nat)
    requires Small(t, k, start) && t[0] == 0
    ensures ReadFat(GeometryOf(k), Image(t, k, start), |t|) == Some(0)
  {
    hide Image, PackEntry, And, FromLe, Times;
    var g := GeometryOf(k);
    RawEntryIs(t, k, start, 1, 0);
    TimesSmall(32 * k);
    assert g.fatStart + |t| * 4 == g.FatOffset(1, 0);
    PackedEntry(0);
  }

  const FULL: Table := [0, 0, END_OF_CHAIN, END_OF_CHAIN, END_OF_CHAIN, END_OF_CHAIN, END_OF_CHAIN, END_OF_CHAIN]

  // Which of the first words of the two copies the write of a FAT entry changes.
  lemma WriteFatWords(s: seq<Byte>, c: nat, v: nat)
    requires |s| == 320 && 1 <= c <= 8
    ensures var r := WriteFat(GeometryOf(1), s, c, v);
      && |r| == 320 && r[64..68] == s[64..68] && r[96..100] == (if c == 8 then PackEntry(v) else s[96..100])
      && (c == 8 ==> r[128..132] == PackEntry(v))
  {
    hide PackEntry, WriteAt, Times;
    var g, e := GeometryOf(1), PackEntry(v);
    TimesSmall(32);
    var a := WriteAt(s, 64 + 4 * c, e);
    var b := WriteAt(a, 96 + 4 * c, e);
    TwoCopies(g, s, c, e);
    SliceOutsideWrite(s, 64 + 4 * c, e, 64, 68);
    SliceOutsideWrite(a, 96 + 4 * c, e, 64, 68);
    if c < 8 { SliceOutsideWrite(s, 64 + 4 * c, e, 96, 100); }
    SliceOutsideWrite(a, 96 + 4 * c, e, 96, 100);
  }

  lemma TwoCopies(g: Geometry, s: seq<Byte>, c: nat, e: seq<Byte>)
    ensures WriteCopies(g, s, c, e, 2) == WriteAt(WriteAt(s, g.FatOffset(0, c), e), g.FatOffset(1, c), e)
  {
    hide WriteAt;
    assert WriteCopies(g, s, c, e, 1) == WriteAt(WriteCopies(g, s, c, e, 0), g.FatOffset(0, c), e);
  }

  // Data of two clusters into the file in cluster 3 of a full volume: the injector reports success with a cluster 8
  // behind the end of the image, which grows. The links of cluster 8 fall on entry 0 of the second copy, so that the
  // copies no longer agree, and on the directory, which only the write of the file's own entry repairs.
  lemma FullVolumeOverwritten(data: seq<Byte>)
    requires 32 < |data| <= 64
    ensures var s, g := Image(FULL, 1, 3), GeometryOf(1);
      var (r, s') := Inject(s, 0, 2, 0, data);
      && Located(s, 0, 8, g, 2, 0, [3]) && FreeCount(FULL) == 0
      && r == Ok([3, 8]) && |s'| == |s| + 32 && Fits(g, 8, |s'|) && !CopiesAgree(g, s', 8)
      && s'[64..68] == PackEntry(0) && s'[96..100] == PackEntry(END_OF_CHAIN)
      && var resized := Resize(g, s, [3], 2);
        resized.Ok? && |resized.value.0| == |s| && resized.value.0[128..132] == PackEntry(END_OF_CHAIN)
  {
    hide Image, Inject, TableOf, ReadGeometry, StartCluster, EntryAt, CopiesAgree, Fits, Search, ReaderOf,
         WriteClusters, WriteFat, Patched, PackEntry, WriteAt, FromLe, Located;
    var s, g := Image(FULL, 1, 3), GeometryOf(1);
    FileLocated(FULL, 1, [3]);
    FullSearch(FULL, 1, 3);
    ImageSize(FULL, 1, 3);
    InjectIsOverwrite(s, 0, 8, g, 2, 0, [3], data);
    ImageFits(FULL, 1, 3);
    var s1 := WriteFat(g, WriteFat(g, s, 3, 8), 8, END_OF_CHAIN);
    WriteFatWords(s, 3, 8);
    WriteFatWords(WriteFat(g, s, 3, 8), 8, END_OF_CHAIN);
    assert [3] + [8] == [3, 8];
    assert Resize(g, s, [3], 2) == Ok((s1, [3, 8])) by { ResizeByOne(g, s); }
    TwoClusters(s1, data);
    var s2 := WriteClusters(g, s1, [3, 8], data);
    var entry := Patched(EntryAt(g, s, 2, 0), |data|);
    SliceOutsideWrite(s2, 128, entry, 64, 68);
    SliceOutsideWrite(s2, 128, entry, 96, 100);
    EndOverwrites(g, s, data, s1);
    RawEntryIs(FULL, 1, 3, 0, 0);
    TimesSmall(32);
    WordsDiffer(WriteAt(s2, 128, entry));
  }

  lemma ResizeByOne(g: Geometry, s: seq<Byte>)
    requires Search(ReaderOf(g, s), 2, 1) == Ok([8])
    ensures Resize(g, s, [3], 2) == Ok((WriteFat(g, WriteFat(g, s, 3, 8), 8, END_OF_CHAIN), [3] + [8]))
  {
    hide Search, ReaderOf, WriteFat;
    assert Extended(g, s, [3], [8]) == LinkImage(g, WriteFat(g, s, 3, 8), [8]);
  }

  lemma TwoClusters(s: seq<Byte>, data: seq<Byte>)
    requires |s| == 320 && 32 < |data| <= 64
    ensures var r := WriteClusters(GeometryOf(1), s, [3, 8], data);
      |r| == 352 && r[64..68] == s[64..68] && r[96..100] == s[96..100]
  {
    hide WriteAt, Times;
    var g := GeometryOf(1);
    TimesIsProduct(1, 32);
    TimesIsProduct(6, 32);
    assert [3, 8][1..] == [8] && [8][1..] == [];
    var x, y := Padded(Take(data, 32), 32), Padded(Take(Drop(data, 32), 32), 32);
    var a := WriteAt(s, 160, x);
    assert WriteClusters(g, a, [8], Drop(data, 32)) == WriteAt(a, 320, y);
    SliceOutsideWrite(s, 160, x, 64, 68);
    SliceOutsideWrite(s, 160, x, 96, 100);
    SliceOutsideWrite(a, 320, y, 64, 68);
    SliceOutsideWrite(a, 320, y, 96, 100);
  }

  lemma EndOverwrites(g: Geometry, s: seq<Byte>, data: seq<Byte>, s1: seq<Byte>)
    requires g == GeometryOf(1) && |s| == 320 && 32 < |data| <= 64
    requires Resize(g, s, [3], 2) == Ok((s1, [3, 8]))
    ensures Overwrite(g, s, 2, 0, [3], data) ==
      (Ok([3, 8]), WriteAt(WriteClusters(g, s1, [3, 8], data), 128, Patched(EntryAt(g, s, 2, 0), |data|)))
  {
    hide Resize, WriteClusters, WriteAt, EntryAt, Patched;
    Pow256Values();
    assert Need(|data|, 32) == 2;
  }

  lemma WordsDiffer(s: seq<Byte>)
    requires |s| == 352 && s[64..68] == PackEntry(0) && s[96..100] == PackEntry(END_OF_CHAIN)
    ensures Fits(GeometryOf(1), 8, |s|) && !CopiesAgree(GeometryOf(1), s, 8)
  {
    hide PackEntry, Times, And, FromLe;
    var g := GeometryOf(1);
    TimesSmall(32);
    TimesIsProduct(6, 32);
    PackedEntry(0);
    PackedEntry(END_OF_CHAIN);
    assert g.FatOffset(0, 0) == 64 && g.FatOffset(1, 0) == 96;
    assert RawEntry(g, s, 1, 0) != RawEntry(g, s, 0, 0);
  }

  // ---- a chain longer than the walk ----

  const LONG: nat := 100008

  // The directory in cluster 2, and one file in all the clusters behind it.
  function LongTable(): (t: Table)
    ensures |t| == LONG
  {
    seq(LONG, c => if c < 2 then 0 else if c == 2 || c == LONG - 1 then END_OF_CHAIN else c + 1)
  }

  function LongChain(): (r: seq<nat>)
    ensures |r| == LONG - 3 && forall i :: 0 <= i < |r| ==> r[i] == i + 3
  {
    seq(LONG - 3, i => i + 3)
  }

  lemma LongIsChain()
    ensures IsChain(LongTable(), 3, LongChain()) && |LongChain()| > WALK_LIMIT && 2 !in LongChain()
    ensures Small(LongTable(), 12501, 3) && LongTable()[2] != 0
  {
  }

  // Replacing the file by one of a single cluster frees only the clusters that the walk saw: four are lost.
  lemma LongChainLeaks(data: seq<Byte>)
    requires |data| <= 32
    ensures var s, g := Image(LongTable(), 12501, 3), GeometryOf(12501);
      var s' := Inject(s, 0, 2, 0, data).1;
      && Proper(g, s, LONG) && Proper(g, s', LONG)
      && FreeCount(TableOf(g, s', LONG)) == FreeCount(TableOf(g, s, LONG)) + |LongChain()| - 1 - 4
  {
    hide Image, TableOf, Inject, CopiesAgree, FreeCount, LongTable, Fits, Located, HasRoom, IsChain, Small;
    var t, chain := LongTable(), LongChain();
    LongIsChain();
    assert chain[0] == 3;
    FileLocated(t, 12501, chain);
    FileHasRoom(t, 12501, chain, data);
    ImageProper(t, 12501, 3);
    InjectConserves(Image(t, 12501, 3), 0, LONG, GeometryOf(12501), 2, 0, chain, data);
  }

  // Replacing it by one of exactly 100001 clusters leaves the four behind them in the file.
  lemma LongChainStays(data: seq<Byte>)
    requires |data| == 3200032
    ensures var s, g := Image(LongTable(), 12501, 3), GeometryOf(12501);
      var (r, s') := Inject(s, 0, 2, 0, data);
      r.Ok? && !Holds(s', LONG, g, 2, 0, r.value, data)
  {
    hide Image, TableOf, Inject, CopiesAgree, FreeCount, LongTable, Fits, Located, HasRoom, IsChain, Small, Holds,
         Written, EntryAt, StartCluster, Patched;
    var t, chain := LongTable(), LongChain();
    LongIsChain();
    assert chain[0] == 3;
    FileLocated(t, 12501, chain);
    FileHasRoom(t, 12501, chain, data);
    InjectReadsBack(Image(t, 12501, 3), 0, LONG, GeometryOf(12501), 2, 0, chain, data);
  }
}
