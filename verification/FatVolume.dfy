/**
 A FAT32 volume inside a flat disk image: geometry, the two primitive FAT accesses (a read past the
 end of the file raises), and the effect of each write on a proper volume.
 */
module FatVolume {
  import opened Bits
  import opened Bytes
  import opened FatChain
  import opened FatWalk

  const MASK28: nat := 0x0FFFFFFF

  // The quantities the injector derives from the boot sector, all in bytes.
  datatype Geometry = Geometry(fatStart: nat, numFats: nat, fatBytes: nat, dataStart: nat, clusterSize: nat) {
    function FatOffset(copy: nat, c: nat): nat { fatStart + Times(copy, fatBytes) + 4 * c }
    function ClusterOffset(c: nat): nat
      requires c >= 2
    {
      dataStart + Times(c - 2, clusterSize)
    }
  }

  function Field(s: seq<Byte>, off: nat, width: nat): nat
    requires off + width <= |s|
  {
    FromLe(s[off..off + width])
  }

  function GeometryFrom(part: nat, bps: nat, spc: nat, reserved: nat, numFats: nat, fatSize: nat): Geometry
  {
    var fatBytes := Product(fatSize, bps);
    var fatStart := part + Product(reserved, bps);
    Geometry(fatStart, numFats, fatBytes, fatStart + Product(numFats, fatBytes), Product(bps, spc))
  }

  function Product(a: nat, b: nat): nat { a * b }

  // The fields of the boot sector that the injector reads; a sector cut short by the end of the file raises.
  function ReadGeometry(s: seq<Byte>, part: nat): Option<Geometry>
  {
    if part + 48 > |s| then None
    else
      var bps, spc, reserved := Field(s, part + 11, 2), Field(s, part + 13, 1), Field(s, part + 14, 2);
      var numFats, fatSize := Field(s, part + 16, 1), Field(s, part + 36, 4);
      Some(GeometryFrom(part, bps, spc, reserved, numFats, fatSize))
  }

  function ReadFat(g: Geometry, s: seq<Byte>, c: nat): Option<nat>
  {
    var off := g.fatStart + c * 4;
    if off + 4 <= |s| then Some(And(Field(s, off, 4), MASK28)) else None
  }

  // The image after the entry bytes have been written to the first `copies` FAT copies.
  function WriteCopies(g: Geometry, s: seq<Byte>, c: nat, entry: seq<Byte>, copies: nat): (r: seq<Byte>)
    decreases copies
  {
    if copies == 0 then s
    else WriteAt(WriteCopies(g, s, c, entry, copies - 1), g.FatOffset(copies - 1, c), entry)
  }

  function PackEntry(v: nat): (r: seq<Byte>)
    ensures |r| == 4
  {
    Le(And(v, MASK28), 4)
  }

  function WriteFat(g: Geometry, s: seq<Byte>, c: nat, v: nat): seq<Byte>
  {
    WriteCopies(g, s, c, PackEntry(v), g.numFats)
  }

  // The injector's view of the table: one masked read per cluster.
  function ReaderOf(g: Geometry, s: seq<Byte>): Reader { (c: nat) => ReadFat(g, s, c) }

  // ---- proper volumes ----

  // Geometry of a volume whose data area has clusters 2 .. n - 1 and whose FAT has an entry for each.
  ghost predicate Fits(g: Geometry, n: nat, size: nat)
  {
    && g.clusterSize > 0 && g.numFats > 0
    && g.dataStart == g.fatStart + Times(g.numFats, g.fatBytes)
    && 2 <= n <= SEARCH_LIMIT && 4 * n <= g.fatBytes
    && g.dataStart + Times(n - 2, g.clusterSize) <= size
  }

  function RawEntry(g: Geometry, s: seq<Byte>, copy: nat, c: nat): seq<Byte>
    requires g.FatOffset(copy, c) + 4 <= |s|
  {
    s[g.FatOffset(copy, c)..g.FatOffset(copy, c) + 4]
  }

  lemma EntryInside(g: Geometry, n: nat, size: nat, copy: nat, c: nat)
    requires Fits(g, n, size) && copy < g.numFats && c < n
    ensures g.fatStart <= g.FatOffset(copy, c) && g.FatOffset(copy, c) + 4 <= g.dataStart <= size
  {
    TimesSpaced(copy, g.numFats, g.fatBytes);
  }

  // Entries of different clusters or different copies never overlap.
  lemma EntriesApart(g: Geometry, n: nat, k1: nat, c1: nat, k2: nat, c2: nat)
    requires 4 * n <= g.fatBytes && c1 < n && c2 < n && (k1 != k2 || c1 != c2)
    ensures g.FatOffset(k1, c1) + 4 <= g.FatOffset(k2, c2) || g.FatOffset(k2, c2) + 4 <= g.FatOffset(k1, c1)
  {
    if k1 < k2 {
      TimesSpaced(k1, k2, g.fatBytes);
    } else if k2 < k1 {
      TimesSpaced(k2, k1, g.fatBytes);
    }
  }

  ghost predicate CopiesAgree(g: Geometry, s: seq<Byte>, n: nat)
    requires Fits(g, n, |s|)
  {
    forall k, c :: 0 <= k < g.numFats && 0 <= c < n ==>
      && g.FatOffset(k, c) + 4 <= |s| && g.FatOffset(0, c) + 4 <= |s|
      && RawEntry(g, s, k, c) == RawEntry(g, s, 0, c)
  }

  ghost predicate Proper(g: Geometry, s: seq<Byte>, n: nat)
  {
    Fits(g, n, |s|) && CopiesAgree(g, s, n)
  }

  // The link table that the image holds.
  ghost function TableOf(g: Geometry, s: seq<Byte>, n: nat): (t: Table)
    requires Fits(g, n, |s|)
    ensures |t| == n
  {
    seq(n, c requires 0 <= c < n => EntryInside(g, n, |s|, 0, c); And(FromLe(RawEntry(g, s, 0, c)), MASK28))
  }

  lemma ReadFatIsTable(g: Geometry, s: seq<Byte>, n: nat, c: nat)
    requires Fits(g, n, |s|) && c < n
    ensures ReadFat(g, s, c) == Some(TableOf(g, s, n)[c])
  {
    EntryInside(g, n, |s|, 0, c);
    assert g.fatStart + c * 4 == g.FatOffset(0, c);
  }

  lemma MaskLow28(v: nat)
    ensures And(v, MASK28) == v % 0x10000000
  {
    AndLow(v, 28);
    Pow2Values();
  }

  lemma Mask28(v: nat)
    requires v <= MASK28
    ensures And(v, MASK28) == v
  {
    hide And;
    MaskLow28(v);
  }

  // A packed FAT value reads back as it was.
  lemma PackedEntry(v: nat)
    requires v <= MASK28
    ensures And(FromLe(PackEntry(v)), MASK28) == v
  {
    Mask28(v);
    LeRoundTrip(v, And(v, MASK28), 4);
  }

  lemma LeRoundTrip(v: nat, w: nat, width: nat)
    requires v <= MASK28 && w == v && width == 4
    ensures And(FromLe(Le(w, width)), MASK28) == v
  {
    assert FromLe(Le(v, width)) == v by {
      Pow256Values();
      FromLeOfLe(v, width);
    }
    Mask28(v);
  }

  lemma OneCopyEffect(g: Geometry, s: seq<Byte>, n: nat, c: nat, entry: seq<Byte>, copy: nat, k: nat, d: nat)
    requires Fits(g, n, |s|) && c < n && |entry| == 4 && copy < g.numFats && k < g.numFats && d < n
    ensures g.FatOffset(k, d) + 4 <= |s|
    ensures RawEntry(g, WriteAt(s, g.FatOffset(copy, c), entry), k, d) ==
            if k == copy && d == c then entry else RawEntry(g, s, k, d)
  {
    EntryInside(g, n, |s|, copy, c);
    EntryInside(g, n, |s|, k, d);
    if k != copy || d != c {
      EntriesApart(g, n, k, d, copy, c);
      SliceOutsideWrite(s, g.FatOffset(copy, c), entry, g.FatOffset(k, d), g.FatOffset(k, d) + 4);
    }
  }

  // Which entries an update of the first `copies` copies changes.
  lemma {:induction false} WriteCopiesAt(g: Geometry, s: seq<Byte>, n: nat, c: nat, entry: seq<Byte>, copies: nat,
                                         k: nat, d: nat)
    requires Fits(g, n, |s|) && c < n && |entry| == 4 && copies <= g.numFats && k < g.numFats && d < n
    ensures |WriteCopies(g, s, c, entry, copies)| == |s| && g.FatOffset(k, d) + 4 <= |s|
    ensures RawEntry(g, WriteCopies(g, s, c, entry, copies), k, d) ==
            if k < copies && d == c then entry else RawEntry(g, s, k, d)
    decreases copies
  {
    hide Fits, RawEntry, WriteAt, Times;
    EntryInside(g, n, |s|, k, d);
    if copies > 0 {
      WriteCopiesAt(g, s, n, c, entry, copies - 1, k, d);
      NextCopy(g, s, WriteCopies(g, s, c, entry, copies - 1), n, c, entry, copies - 1, k, d);
    }
  }

  lemma NextCopy(g: Geometry, s: seq<Byte>, before: seq<Byte>, n: nat, c: nat, entry: seq<Byte>, copy: nat, k: nat,
                 d: nat)
    requires Fits(g, n, |s|) && c < n && |entry| == 4 && copy < g.numFats && k < g.numFats && d < n
    requires |before| == |s| && g.FatOffset(k, d) + 4 <= |s|
    requires RawEntry(g, before, k, d) == if k < copy && d == c then entry else RawEntry(g, s, k, d)
    ensures |WriteAt(before, g.FatOffset(copy, c), entry)| == |s|
    ensures RawEntry(g, WriteAt(before, g.FatOffset(copy, c), entry), k, d) ==
            if k < copy + 1 && d == c then entry else RawEntry(g, s, k, d)
  {
    hide Fits, RawEntry, WriteAt, Times;
    EntryInside(g, n, |s|, copy, c);
    OneCopyEffect(g, before, n, c, entry, copy, k, d);
  }

  lemma {:induction false} WriteCopiesOutside(g: Geometry, s: seq<Byte>, n: nat, c: nat, entry: seq<Byte>, copies: nat)
    requires Fits(g, n, |s|) && c < n && |entry| == 4 && copies <= g.numFats
    ensures SameOutsideFat(g, s, WriteCopies(g, s, c, entry, copies))
    decreases copies
  {
    if copies > 0 {
      WriteCopiesOutside(g, s, n, c, entry, copies - 1);
      EntryInside(g, n, |s|, copies - 1, c);
    }
  }

  // A FAT update on a proper volume is one table update; it keeps the copies in agreement and touches
  // nothing outside the FAT area.
  lemma WriteFatEffect(g: Geometry, s: seq<Byte>, n: nat, c: nat, v: nat)
    requires Proper(g, s, n) && c < n && v <= MASK28
    ensures SameOutsideFat(g, s, WriteFat(g, s, c, v))
    ensures Proper(g, WriteFat(g, s, c, v), n)
    ensures TableOf(g, WriteFat(g, s, c, v), n) == TableOf(g, s, n)[c := v]
  {
    var entry, s' := PackEntry(v), WriteFat(g, s, c, v);
    WriteCopiesOutside(g, s, n, c, entry, g.numFats);
    forall d | 0 <= d < n ensures TableOf(g, s', n)[d] == TableOf(g, s, n)[c := v][d] {
      WriteCopiesAt(g, s, n, c, entry, g.numFats, 0, d);
      PackedEntry(v);
    }
    forall k, d | 0 <= k < g.numFats && 0 <= d < n
      ensures g.FatOffset(k, d) + 4 <= |s'| && g.FatOffset(0, d) + 4 <= |s'|
      ensures RawEntry(g, s', k, d) == RawEntry(g, s', 0, d)
    {
      WriteCopiesAt(g, s, n, c, entry, g.numFats, k, d);
      WriteCopiesAt(g, s, n, c, entry, g.numFats, 0, d);
      assert RawEntry(g, s, k, d) == RawEntry(g, s, 0, d);
    }
  }

  ghost predicate SameOutsideFat(g: Geometry, s: seq<Byte>, s': seq<Byte>)
  {
    |s'| == |s| && forall i :: 0 <= i < |s| && (i < g.fatStart || g.dataStart <= i) ==> s'[i] == s[i]
  }

  lemma ReaderReads(g: Geometry, s: seq<Byte>, n: nat)
    requires Fits(g, n, |s|)
    ensures Reads(ReaderOf(g, s), TableOf(g, s, n))
  {
    forall c | 0 <= c < n ensures ReaderOf(g, s)(c) == Some(TableOf(g, s, n)[c]) { ReadFatIsTable(g, s, n, c); }
  }
}
