/**
 The `.fbin` container: header, tensor metadata with back-patched data offsets, page-aligned data.
 The in-memory writer, the streaming writer and the layout both produce.
 */
module Fbin {
  import opened Bytes
  import opened Patching
  import Utf8

  const PAGE: nat := 4096
  const MAGIC: seq<Byte> := [70, 66, 78, 49]    // "FBN1"
  const VERSION: nat := 1
  function W16(): nat { 2 }
  function W32(): nat { 4 }
  function W64(): nat { 8 }

  // What the metadata says about a tensor, its name in UTF-8.
  datatype Info = Info(name: seq<Byte>, dtype: nat, shape: seq<nat>, len: nat)

  datatype Tensor = Tensor(name: string, dtype: nat, shape: seq<nat>, raw: seq<Byte>)

  function InfoOf(t: Tensor): Info { Info(Utf8.Encode(t.name), t.dtype, t.shape, |t.raw|) }

  function Infos(ts: seq<Tensor>): (r: seq<Info>)
    ensures |r| == |ts| && forall i :: 0 <= i < |ts| ==> r[i] == InfoOf(ts[i])
  {
    seq(|ts|, i requires 0 <= i < |ts| => InfoOf(ts[i]))
  }

  // Little-endian fields of the format.
  function U16(v: nat): (r: seq<Byte>)
    ensures |r| == 2
  {
    Le(v, W16())
  }

  function U32(v: nat): (r: seq<Byte>)
    ensures |r| == 4
  {
    Le(v, W32())
  }

  function U64(v: nat): (r: seq<Byte>)
    ensures |r| == 8
  {
    Le(v, W64())
  }

  function Dims(shape: seq<nat>): (r: seq<Byte>)
    ensures |r| == 4 * |shape|
  {
    if shape == [] then [] else U32(shape[0]) + Dims(shape[1..])
  }

  // Everything of a tensor's metadata in front of its data offset and length.
  function MetaHead(t: Info): (r: seq<Byte>)
    ensures |r| == 4 + |t.name| + 4 * |t.shape|
  {
    U16(|t.name|) + t.name + [t.dtype % 256, |t.shape| % 256] + Dims(t.shape)
  }

  // Data offset and length: the tail of the metadata.
  function Extent(off: nat, len: nat): (r: seq<Byte>)
    ensures |r| == 16
  {
    U64(off) + U64(len)
  }

  function Heads(ts: seq<Info>): (r: seq<seq<Byte>>)
    ensures |r| == |ts| && forall i :: 0 <= i < |ts| ==> r[i] == MetaHead(ts[i])
  {
    seq(|ts|, i requires 0 <= i < |ts| => MetaHead(ts[i]))
  }

  // Total length of the data; that in front of tensor i is DataSize(ts[..i]).
  function DataSize(ts: seq<Info>): nat
    decreases |ts|
  {
    if ts == [] then 0 else DataSize(ts[..|ts| - 1]) + ts[|ts| - 1].len
  }

  // Extents of tensors whose data lies back to back from `start` on.
  function Extents(ts: seq<Info>, start: nat): (r: seq<seq<Byte>>)
    ensures |r| == |ts| && forall i :: 0 <= i < |ts| ==> r[i] == Extent(start + DataSize(ts[..i]), ts[i].len)
    ensures Wide(r, 16)
  {
    hide Extent;
    seq(|ts|, i requires 0 <= i < |ts| => Extent(start + DataSize(ts[..i]), ts[i].len))
  }

  // The same before the offsets are known.
  function Blanks(ts: seq<Info>): (r: seq<seq<Byte>>)
    ensures |r| == |ts| && forall i :: 0 <= i < |ts| ==> r[i] == Extent(0, ts[i].len)
    ensures Wide(r, 16)
  {
    hide Extent;
    seq(|ts|, i requires 0 <= i < |ts| => Extent(0, ts[i].len))
  }

  function Unpatched(ts: seq<Info>): seq<Byte> { Flatten(Zip(Heads(ts), Blanks(ts))) }

  function Meta(ts: seq<Info>, start: nat): seq<Byte> { Flatten(Zip(Heads(ts), Extents(ts, start))) }

  function MetaSize(ts: seq<Info>): nat { |Unpatched(ts)| }

  function Raws(ts: seq<Tensor>): (r: seq<Byte>)
    decreases |ts|
  {
    if ts == [] then [] else Raws(ts[..|ts| - 1]) + ts[|ts| - 1].raw
  }

  function DataStart(metaSize: nat): nat { ((16 + metaSize + (PAGE - 1)) / PAGE) * PAGE }

  function Header(count: nat, metaSize: nat): (r: seq<Byte>)
    ensures |r| == 16
  {
    MAGIC + U16(VERSION) + U16(count) + U64(metaSize)
  }

  lemma DataStartAligned(metaSize: nat)
    ensures DataStart(metaSize) % PAGE == 0 && 16 + metaSize <= DataStart(metaSize) < 16 + metaSize + PAGE
  {
    var x := 16 + metaSize + (PAGE - 1);
    assert x == PAGE * (x / PAGE) + x % PAGE;
  }

  // Header, metadata and padding: the file up to its data section.
  function Front(ts: seq<Info>): (r: seq<Byte>)
  {
    var size := MetaSize(ts);
    DataStartAligned(size);
    Header(|ts|, size) + Meta(ts, DataStart(size)) + Zeros(DataStart(size) - 16 - size)
  }

  function Blob(ts: seq<Tensor>): seq<Byte> { Front(Infos(ts)) + Raws(ts) }

  // ---- packing a field, or raising ----

  function Pack8(v: nat): Option<Byte> { if v < 0x100 then Some(v) else None }

  function Pack16(v: nat): Option<seq<Byte>> { if v < 0x1_0000 then Some(U16(v)) else None }

  function Pack32(v: nat): Option<seq<Byte>> { if v < 0x1_0000_0000 then Some(U32(v)) else None }

  function Pack64(v: nat): Option<seq<Byte>> { if v < 0x1_0000_0000_0000_0000 then Some(U64(v)) else None }

  // What fits the fields of the format.
  predicate DimsFit(shape: seq<nat>) { forall i :: 0 <= i < |shape| ==> shape[i] < 0x1_0000_0000 }

  predicate HeadFits(t: Info) { |t.name| < 0x1_0000 && t.dtype < 0x100 && |t.shape| < 0x100 && DimsFit(t.shape) }

  predicate Long(v: nat) { v < 0x1_0000_0000_0000_0000 }

  predicate Fits(t: Info) { HeadFits(t) && Long(t.len) }

  predicate AllFit(ts: seq<Info>) { forall i :: 0 <= i < |ts| ==> Fits(ts[i]) }

  predicate OffsetsFit(ts: seq<Info>, start: nat) { forall i :: 0 <= i < |ts| ==> Long(start + DataSize(ts[..i])) }

  predicate Encodable(ts: seq<Info>)
  {
    |ts| < 0x1_0000 && Long(MetaSize(ts)) && AllFit(ts) && OffsetsFit(ts, DataStart(MetaSize(ts)))
  }

  // ---- the two passes of the writers ----

  lemma MetaLength(ts: seq<Info>, start: nat)
    ensures |Meta(ts, start)| == MetaSize(ts)
  {
    SameSize(Heads(ts), Extents(ts, start), Blanks(ts), 16, 0);
  }

  lemma DataSizeSnoc(ts: seq<Info>, i: nat)
    requires i < |ts|
    ensures DataSize(ts[..i + 1]) == DataSize(ts[..i]) + ts[i].len
  {
    assert ts[..i + 1][..i] == ts[..i];
  }

  method PackDims(shape: seq<nat>) returns (r: Option<seq<Byte>>)
    ensures r == if DimsFit(shape) then Some(Dims(shape)) else None
  {
    hide U32;
    var out: seq<Byte> := [];
    assert shape[0..] == shape;
    for i := 0 to |shape|
      invariant out + Dims(shape[i..]) == Dims(shape) && DimsFit(shape[..i])
    {
      var d := Pack32(shape[i]);
      if d == None { return None; }
      assert shape[i..][1..] == shape[i + 1..];
      assert out + (U32(shape[i]) + Dims(shape[i + 1..])) == out + U32(shape[i]) + Dims(shape[i + 1..]);
      out := out + d.value;
    }
    assert shape[..|shape|] == shape && shape[|shape|..] == [] && out + [] == out;
    r := Some(out);
  }

  // The metadata of a tensor up to its data offset.
  method PackHead(t: Info) returns (r: Option<seq<Byte>>)
    ensures r == if HeadFits(t) then Some(MetaHead(t)) else None
  {
    hide U16, Dims, DimsFit;
    var len := Pack16(|t.name|);
    if len == None { return None; }
    var dtype, rank := Pack8(t.dtype), Pack8(|t.shape|);
    if dtype == None || rank == None { return None; }
    var dims := PackDims(t.shape);
    if dims == None { return None; }
    r := Some(len.value + t.name + [dtype.value, rank.value] + dims.value);
  }

  method PackExtent(off: nat, len: nat) returns (r: Option<seq<Byte>>)
    ensures r == if Long(off) && Long(len) then Some(Extent(off, len)) else None
  {
    var a, b := Pack64(off), Pack64(len);
    if a == None || b == None { return None; }
    r := Some(a.value + b.value);
  }

  // ---- the first pass: metadata with blank offsets, and where each blank is ----

  // A blank to fill in: its place in the metadata and the length of its tensor's data.
  type Hole = (nat, nat)

  ghost predicate LaidOut(ts: seq<Info>, i: nat, image: seq<Byte>, holes: seq<Hole>)
    requires i <= |ts|
  {
    && image == Flatten(Zip(Heads(ts), Blanks(ts))[..i]) && AllFit(ts[..i]) && |holes| == i
    && forall j :: 0 <= j < i ==> holes[j] == (PlaceOf(Heads(ts), Blanks(ts), j), ts[j].len)
  }

  lemma LaidNone(ts: seq<Info>)
    ensures LaidOut(ts, 0, [], [])
  {
  }

  lemma LaidStep(ts: seq<Info>, i: nat, image: seq<Byte>, holes: seq<Hole>, head: seq<Byte>, blank: seq<Byte>)
    requires i < |ts| && LaidOut(ts, i, image, holes) && Fits(ts[i])
    requires head == MetaHead(ts[i]) && blank == Extent(0, ts[i].len)
    ensures LaidOut(ts, i + 1, image + head + blank, holes + [(|image + head|, ts[i].len)])
  {
    hide MetaHead, Extent, Fits, Flatten;
    FlattenAt(Zip(Heads(ts), Blanks(ts)), i);
    assert image + head + blank == image + (head + blank);
  }

  lemma LaidAll(ts: seq<Info>, image: seq<Byte>, holes: seq<Hole>)
    requires LaidOut(ts, |ts|, image, holes)
    ensures image == Unpatched(ts) && AllFit(ts)
  {
    var z := Zip(Heads(ts), Blanks(ts));
    assert z[..|ts|] == z && ts[..|ts|] == ts;
  }

  // As the in-memory writer does it, from the tensors.
  method LayOut(ts: seq<Tensor>) returns (r: Option<(seq<Byte>, seq<Hole>)>)
    ensures r.Some? <==> AllFit(Infos(ts))
    ensures r.Some? ==> LaidOut(Infos(ts), |ts|, r.value.0, r.value.1)
  {
    hide HeadFits, Long, LaidOut;
    var image: seq<Byte>, holes: seq<Hole> := [], [];
    ghost var infos := Infos(ts);
    LaidNone(infos);
    for i := 0 to |ts|
      invariant LaidOut(infos, i, image, holes)
    {
      assert infos[i] == InfoOf(ts[i]);
      var head := PackHead(InfoOf(ts[i]));
      if head == None { return None; }
      var blank := PackExtent(0, |ts[i].raw|);
      LongZero();
      if blank == None { return None; }
      LaidStep(infos, i, image, holes, head.value, blank.value);
      image := image + head.value;
      var place := |image|;
      image := image + blank.value;
      holes := holes + [(place, |ts[i].raw|)];
    }
    LaidAll(infos, image, holes);
    r := Some((image, holes));
  }

  // As the streaming writer does it, from what it recorded.
  method StreamLayOut(metas: seq<Info>) returns (r: Option<(seq<Byte>, seq<Hole>)>)
    ensures r.Some? <==> AllFit(metas)
    ensures r.Some? ==> LaidOut(metas, |metas|, r.value.0, r.value.1)
  {
    hide HeadFits, Long, LaidOut;
    var image: seq<Byte>, holes: seq<Hole> := [], [];
    LaidNone(metas);
    for i := 0 to |metas|
      invariant LaidOut(metas, i, image, holes)
    {
      var head := PackHead(metas[i]);
      if head == None { return None; }
      var place := |image + head.value|;
      var blank := PackExtent(0, metas[i].len);
      LongZero();
      if blank == None { return None; }
      LaidStep(metas, i, image, holes, head.value, blank.value);
      image := image + head.value + blank.value;
      holes := holes + [(place, metas[i].len)];
    }
    LaidAll(metas, image, holes);
    r := Some((image, holes));
  }

  lemma LongZero()
    ensures Long(0)
  {
  }

  // ---- the second pass: the offset of each tensor's data over its blank, one tensor behind the other ----

  // The tails when the first i are filled in.
  function Tails(ts: seq<Info>, start: nat, i: nat): (r: seq<seq<Byte>>)
    requires i <= |ts|
    ensures |r| == |ts| && Wide(r, 16)
  {
    Extents(ts, start)[..i] + Blanks(ts)[i..]
  }

  ghost predicate Filled(ts: seq<Info>, start: nat, i: nat, image: seq<Byte>, cur: nat)
    requires i <= |ts|
  {
    && image == Flatten(Zip(Heads(ts), Tails(ts, start, i)))
    && cur == start + DataSize(ts[..i]) && OffsetsFit(ts[..i], start)
  }

  lemma FilledNone(ts: seq<Info>, start: nat)
    ensures Filled(ts, start, 0, Unpatched(ts), start)
  {
    NoData(ts);
    assert Tails(ts, start, 0) == Blanks(ts);
  }

  lemma FilledStep(ts: seq<Info>, start: nat, i: nat, image: seq<Byte>, cur: nat)
    requires i < |ts| && Filled(ts, start, i, image, cur) && Long(cur)
    ensures PlaceOf(Heads(ts), Blanks(ts), i) + 16 <= |image|
    ensures Filled(ts, start, i + 1,
                   WriteAt(image, PlaceOf(Heads(ts), Blanks(ts), i), Extent(cur, ts[i].len)), cur + ts[i].len)
  {
    hide MetaHead, Extent, Flatten, Zip, PlaceOf, Heads, DataSize, Long, OffsetsFit, WriteAt;
    var tails := Tails(ts, start, i);
    BlankPlace(Heads(ts), Blanks(ts), tails, i);
    PatchTail(Heads(ts), tails, i, Extent(cur, ts[i].len));
    TailInside(Heads(ts), tails, i);
    assert tails[i := Extent(cur, ts[i].len)] == Tails(ts, start, i + 1);
    OffsetsFitStep(ts, start, i);
    DataSizeSnoc(ts, i);
  }

  lemma TailInside(heads: seq<seq<Byte>>, tails: seq<seq<Byte>>, i: nat)
    requires |heads| == |tails| && i < |heads|
    ensures PlaceOf(heads, tails, i) + |tails[i]| <= |Flatten(Zip(heads, tails))|
  {
    hide Flatten, Zip;
    ZipAt(heads, tails, i);
  }

  lemma FilledAll(ts: seq<Info>, start: nat, image: seq<Byte>, cur: nat)
    requires Filled(ts, start, |ts|, image, cur)
    ensures image == Meta(ts, start) && OffsetsFit(ts, start)
  {
    assert Tails(ts, start, |ts|) == Extents(ts, start) && ts[..|ts|] == ts;
  }

  // As the in-memory writer does it, over the blanks and the tensors side by side.
  method BackPatch(ts: seq<Tensor>, start: nat, laid: seq<Byte>, holes: seq<Hole>) returns (r: Option<seq<Byte>>)
    requires AllFit(Infos(ts)) && LaidOut(Infos(ts), |ts|, laid, holes)
    ensures r == if OffsetsFit(Infos(ts), start) then Some(Meta(Infos(ts), start)) else None
  {
    hide HeadFits, Long, Filled, OffsetsFit, Meta, PlaceOf, Unpatched;
    var image, cur: nat := laid, start;
    ghost var infos := Infos(ts);
    LaidAll(infos, laid, holes);
    FilledNone(infos, start);
    for i := 0 to |ts|
      invariant Filled(infos, start, i, image, cur)
    {
      var (place, len) := holes[i];
      var extent := PackExtent(cur, len);
      assert Fits(infos[i]);
      if extent == None {
        TooFar(infos, start, i, image, cur);
        return None;
      }
      FilledStep(infos, start, i, image, cur);
      image := WriteAt(image, place, extent.value);
      cur := cur + len;
    }
    FilledAll(infos, start, image, cur);
    r := Some(image);
  }

  // As the streaming writer does it, over the blanks alone.
  method StreamPatch(ghost ts: seq<Info>, start: nat, laid: seq<Byte>, holes: seq<Hole>)
    returns (r: Option<seq<Byte>>)
    requires AllFit(ts) && LaidOut(ts, |ts|, laid, holes)
    ensures r == if OffsetsFit(ts, start) then Some(Meta(ts, start)) else None
  {
    hide HeadFits, Long, Filled, OffsetsFit, Meta, PlaceOf, Unpatched;
    var image, cur: nat, left := laid, start, holes;
    LaidAll(ts, laid, holes);
    FilledNone(ts, start);
    while left != []
      invariant |left| <= |holes| && left == holes[|holes| - |left|..]
      invariant Filled(ts, start, |holes| - |left|, image, cur)
    {
      var (place, len) := left[0];
      ghost var i := |holes| - |left|;
      assert left[0] == holes[i] && Fits(ts[i]);
      var extent := PackExtent(cur, len);
      if extent == None {
        TooFar(ts, start, i, image, cur);
        return None;
      }
      FilledStep(ts, start, i, image, cur);
      image := WriteAt(image, place, extent.value);
      cur, left := cur + len, left[1..];
    }
    FilledAll(ts, start, image, cur);
    r := Some(image);
  }

  lemma TooFar(ts: seq<Info>, start: nat, i: nat, image: seq<Byte>, cur: nat)
    requires i < |ts| && Filled(ts, start, i, image, cur) && !Long(cur)
    ensures !OffsetsFit(ts, start)
  {
    hide Long, OffsetsFit, DataSize;
    OffsetsFitStep(ts, start, i);
  }

  lemma NoData(ts: seq<Info>)
    ensures DataSize(ts[..0]) == 0
  {
  }

  lemma OffsetsFitStep(ts: seq<Info>, start: nat, i: nat)
    requires i < |ts| && OffsetsFit(ts[..i], start)
    ensures OffsetsFit(ts[..i + 1], start) <==> Long(start + DataSize(ts[..i]))
    ensures !Long(start + DataSize(ts[..i])) ==> !OffsetsFit(ts, start)
  {
    hide Long, DataSize;
    var init, more := ts[..i], ts[..i + 1];
    assert more[..i] == init;
    forall j | 0 <= j < i ensures more[..j] == init[..j] {}
  }

  lemma BlankPlace(heads: seq<seq<Byte>>, blanks: seq<seq<Byte>>, tails: seq<seq<Byte>>, i: nat)
    requires |heads| == |blanks| == |tails| && Wide(blanks, 16) && Wide(tails, 16) && i < |heads|
    ensures PlaceOf(heads, blanks, i) == PlaceOf(heads, tails, i)
  {
    hide Flatten, Zip;
    SameSize(heads, blanks, tails, 16, i);
  }

  // ---- the in-memory writer ----

  // Lay the metadata out with blank offsets, measure it, and back-patch the offsets that follow from its size.
  method BuildMeta(ts: seq<Tensor>) returns (r: Option<(seq<Byte>, nat)>)
    ensures var infos := Infos(ts); var start := DataStart(MetaSize(infos));
      r == if AllFit(infos) && OffsetsFit(infos, start) then Some((Meta(infos, start), start)) else None
  {
    hide AllFit, OffsetsFit, Meta, LaidOut, Unpatched;
    var laid := LayOut(ts);
    if laid == None { return None; }
    var (metadata, holes) := laid.value;
    LaidAll(Infos(ts), metadata, holes);
    var start := ((16 + |metadata| + (PAGE - 1)) / PAGE) * PAGE;
    var patched := BackPatch(ts, start, metadata, holes);
    if patched == None { return None; }
    r := Some((patched.value, start));
  }

  method PackHeader(count: nat, metaSize: nat) returns (r: Option<seq<Byte>>)
    ensures r == if count < 0x1_0000 && Long(metaSize) then Some(Header(count, metaSize)) else None
  {
    var version, n, size := Pack16(VERSION), Pack16(count), Pack64(metaSize);
    if n == None || size == None { return None; }
    r := Some(MAGIC + version.value + n.value + size.value);
  }

  method PadTo(start: nat, unpadded: seq<Byte>) returns (out: seq<Byte>)
    requires |unpadded| <= start
    ensures out == unpadded + Zeros(start - |unpadded|)
  {
    out := unpadded;
    while |out| < start
      invariant |unpadded| <= |out| <= start && out == unpadded + Zeros(|out| - |unpadded|)
    {
      out := out + [0];
      assert Zeros(|out| - |unpadded|) == Zeros(|out| - 1 - |unpadded|) + [0];
    }
  }

  // Header, metadata and padding; None is the exception for a value that does not fit its field.
  method BuildFront(ts: seq<Tensor>) returns (r: Option<seq<Byte>>)
    ensures r == if Encodable(Infos(ts)) then Some(Front(Infos(ts))) else None
  {
    hide AllFit, OffsetsFit, Meta, MetaSize, Header, Long, Zeros;
    var built := BuildMeta(ts);
    if built == None { return None; }
    var (metadata, start) := built.value;
    DataStartAligned(MetaSize(Infos(ts)));
    MetaLength(Infos(ts), start);
    var header := PackHeader(|ts|, |metadata|);
    if header == None { return None; }
    var out := PadTo(start, header.value + metadata);
    r := Some(out);
  }

  method AppendRaws(front: seq<Byte>, ts: seq<Tensor>) returns (out: seq<Byte>)
    ensures out == front + Raws(ts)
  {
    out := front;
    for i := 0 to |ts|
      invariant out == front + Raws(ts[..i])
    {
      assert ts[..i + 1][..i] == ts[..i];
      assert front + Raws(ts[..i]) + ts[i].raw == front + (Raws(ts[..i]) + ts[i].raw);
      out := out + ts[i].raw;
    }
    assert ts[..|ts|] == ts;
  }

  // The in-memory writer.
  method WriteFbin(ts: seq<Tensor>) returns (r: Option<seq<Byte>>)
    ensures r == if Encodable(Infos(ts)) then Some(Blob(ts)) else None
  {
    hide Encodable, Front;
    var front := BuildFront(ts);
    if front == None { return None; }
    var out := AppendRaws(front.value, ts);
    r := Some(out);
  }

  // ---- the streaming writer ----

  // Emitting the tensors: data goes to the spill file, the rest is recorded.
  method Spill(ts: seq<Tensor>) returns (spill: seq<Byte>, metas: seq<Info>)
    ensures spill == Raws(ts) && metas == Infos(ts)
  {
    spill, metas := [], [];
    for i := 0 to |ts|
      invariant spill == Raws(ts[..i]) && metas == Infos(ts)[..i]
    {
      assert ts[..i + 1][..i] == ts[..i];
      spill := spill + ts[i].raw;
      metas := metas + [InfoOf(ts[i])];
    }
    assert ts[..|ts|] == ts && metas == Infos(ts);
  }

  // Its own pass over what was recorded, and its own way to write the front: field by field, the padding at once.
  method StreamFront(metas: seq<Info>) returns (r: Option<seq<Byte>>)
    ensures r == if Encodable(metas) then Some(Front(metas)) else None
  {
    hide AllFit, OffsetsFit, Meta, Unpatched, LaidOut, Long, Zeros, U16, U64;
    var laid := StreamLayOut(metas);
    if laid == None { return None; }
    var (metadata, holes) := laid.value;
    LaidAll(metas, metadata, holes);
    var start := ((16 + |metadata| + (PAGE - 1)) / PAGE) * PAGE;
    var patched := StreamPatch(metas, start, metadata, holes);
    if patched == None { return None; }
    metadata := patched.value;
    DataStartAligned(MetaSize(metas));
    MetaLength(metas, start);
    var count, size := Pack16(|metas|), Pack64(|metadata|);
    LongIff(|metadata|);
    if count == None || size == None { return None; }
    var out := MAGIC;
    out := out + U16(VERSION);
    out := out + count.value;
    out := out + size.value;
    out := out + metadata;
    var written := 16 + |metadata|;
    if written < start { out := out + Zeros(start - written); }
    NoPadding(out);
    r := Some(out);
  }

  lemma LongIff(v: nat)
    ensures Long(v) <==> Pack64(v).Some?
  {
  }

  lemma NoPadding(out: seq<Byte>)
    ensures out + Zeros(0) == out
  {
  }

  // Copying the spill file behind the front, `chunk` bytes at a time.
  method CopyChunks(front: seq<Byte>, spill: seq<Byte>, chunk: nat) returns (out: seq<Byte>)
    requires chunk > 0
    ensures out == front + spill
  {
    out := front;
    var pos := 0;
    while pos < |spill|
      invariant 0 <= pos <= |spill| && out == front + spill[..pos]
    {
      var end := if pos + chunk <= |spill| then pos + chunk else |spill|;
      assert spill[..end] == spill[..pos] + spill[pos..end];
      out := out + spill[pos..end];
      pos := end;
    }
    assert spill[..pos] == spill;
  }

  // The streaming writer produces, for every chunk size, what the in-memory writer produces.
  method WriteStreaming(ts: seq<Tensor>, chunk: nat) returns (r: Option<seq<Byte>>)
    requires chunk > 0
    ensures r == if Encodable(Infos(ts)) then Some(Blob(ts)) else None
  {
    hide Encodable, Front;
    var spill, metas := Spill(ts);
    var front := StreamFront(metas);
    if front == None { return None; }
    var out := CopyChunks(front.value, spill, chunk);
    r := Some(out);
  }
}
