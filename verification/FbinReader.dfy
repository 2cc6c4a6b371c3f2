/** Reading a `.fbin` file: the metadata walk, the slices of the data section, and the round trip. */
module FbinReader {
  import opened Bytes
  import opened Patching
  import opened Fbin
  import Utf8

  datatype Parsed = Parsed(name: string, info: Info, offset: nat)

  function ReadDims(data: seq<Byte>, cur: nat, rank: nat): (r: seq<nat>)
    requires cur + 4 * rank <= |data|
    decreases rank
  {
    if rank == 0 then [] else [FromLe(data[cur..cur + 4])] + ReadDims(data, cur + 4, rank - 1)
  }

  // One metadata record at the cursor and the cursor behind it; None if the file ends inside it or the
  // name is not UTF-8.
  function ReadOne(data: seq<Byte>, cur: nat): (r: Option<(Parsed, nat)>)
    ensures r.Some? ==> cur < r.value.1 <= |data|
  {
    if cur + 2 > |data| then None
    else
      var nameEnd := cur + 2 + FromLe(data[cur..cur + 2]);
      if nameEnd + 2 > |data| then None
      else
        var dtype, rank := data[nameEnd] as int, data[nameEnd + 1] as int;
        var dimsEnd := nameEnd + 2 + 4 * rank;
        if dimsEnd + 16 > |data| then None
        else
          var shape := ReadDims(data, nameEnd + 2, rank);
          var offset, len := FromLe(data[dimsEnd..dimsEnd + 8]), FromLe(data[dimsEnd + 8..dimsEnd + 16]);
          var name := Utf8.Decode(data[cur + 2..nameEnd]);
          if name == None then None
          else Some((Parsed(name.value, Info(data[cur + 2..nameEnd], dtype, shape, len), offset), dimsEnd + 16))
  }

  function ReadMany(data: seq<Byte>, cur: nat, count: nat): (r: Option<seq<Parsed>>)
    decreases count
  {
    if count == 0 then Some([])
    else match ReadOne(data, cur)
      case None => None
      case Some((p, next)) =>
        match ReadMany(data, next, count - 1)
        case None => None
        case Some(rest) => Some([p] + rest)
  }

  // Magic and version are asserted; None stands for every failure.
  function ParseFbin(data: seq<Byte>): Option<seq<Parsed>>
  {
    if |data| < 16 || data[..4] != MAGIC || FromLe(data[4..6]) != VERSION then None
    else ReadMany(data, 16, FromLe(data[6..8]))
  }

  // Only a file of at least 16 bytes that starts with "FBN1" and version 1 is read.
  lemma FrontDemanded(data: seq<Byte>)
    requires ParseFbin(data).Some?
    ensures |data| >= 16 && data[0] == 70 && data[1] == 66 && data[2] == 78 && data[3] == 49
    ensures data[4] == 1 && data[5] == 0
  {
    assert data[..4] == [data[0], data[1], data[2], data[3]];
    assert data[4..6] == [data[4], data[5]];
    FromLeTwo(data[4], data[5]);
  }

  // Python's slice: cut off at the end of the data.
  function SliceOf(data: seq<Byte>, p: Parsed): seq<Byte>
  {
    var lo := if p.offset <= |data| then p.offset else |data|;
    var hi := if p.offset + p.info.len <= |data| then p.offset + p.info.len else |data|;
    data[lo..hi]
  }

  // The cursor loop.
  method ParseLoop(data: seq<Byte>) returns (r: Option<seq<Parsed>>)
    ensures r == ParseFbin(data)
  {
    if |data| < 16 || data[..4] != MAGIC || FromLe(data[4..6]) != VERSION { return None; }
    var count := FromLe(data[6..8]);
    r := ReadLoop(data, 16, count);
  }

  method ReadLoop(data: seq<Byte>, start: nat, count: nat) returns (r: Option<seq<Parsed>>)
    ensures r == ReadMany(data, start, count)
  {
    var cur, metas := start, [];
    PrependNone(ReadMany(data, start, count));
    for i := 0 to count
      invariant ReadMany(data, start, count) == Prepend(metas, ReadMany(data, cur, count - i))
    {
      var one := ReadOne(data, cur);
      if one.None? { return None; }
      PrependOne(metas, one.value.0, ReadMany(data, one.value.1, count - i - 1));
      metas := metas + [one.value.0];
      cur := one.value.1;
    }
    assert metas + [] == metas;
    r := Some(metas);
  }

  lemma PrependNone(rest: Option<seq<Parsed>>)
    ensures Prepend([], rest) == rest
  {
    if rest.Some? { assert [] + rest.value == rest.value; }
  }

  function Prepend(metas: seq<Parsed>, rest: Option<seq<Parsed>>): Option<seq<Parsed>>
  {
    match rest case None => None case Some(r) => Some(metas + r)
  }

  lemma PrependOne(metas: seq<Parsed>, p: Parsed, rest: Option<seq<Parsed>>)
    ensures Prepend(metas + [p], rest) == Prepend(metas, Prepend([p], rest))
  {
    if rest.Some? { assert metas + [p] + rest.value == metas + ([p] + rest.value); }
  }

  // ---- one record reads back ----

  lemma SliceAt(data: seq<Byte>, pre: seq<Byte>, x: seq<Byte>, post: seq<Byte>)
    requires data == pre + (x + post)
    ensures |pre| + |x| <= |data| && data[|pre|..|pre| + |x|] == x
  {
  }

  lemma FieldAt(data: seq<Byte>, pre: seq<Byte>, v: nat, width: nat, post: seq<Byte>)
    requires v < Pow256(width) && data == pre + (Le(v, width) + post)
    ensures |pre| + width <= |data| && FromLe(data[|pre|..|pre| + width]) == v
  {
    SliceAt(data, pre, Le(v, width), post);
    FromLeOfLe(v, width);
  }

  lemma {:induction false} DimsRead(data: seq<Byte>, pre: seq<Byte>, shape: seq<nat>, post: seq<Byte>)
    requires data == pre + (Dims(shape) + post) && forall i :: 0 <= i < |shape| ==> shape[i] < 0x1_0000_0000
    ensures |pre| + 4 * |shape| <= |data| && ReadDims(data, |pre|, |shape|) == shape
    decreases |shape|
  {
    if shape != [] {
      var d := U32(shape[0]);
      Pow256Values();
      assert data == pre + (d + (Dims(shape[1..]) + post));
      FieldAt(data, pre, shape[0], W32(), Dims(shape[1..]) + post);
      assert data == (pre + d) + (Dims(shape[1..]) + post);
      DimsRead(data, pre + d, shape[1..], post);
      assert shape == [shape[0]] + shape[1..];
    }
  }

  lemma ExtentReads(data: seq<Byte>, pre: seq<Byte>, off: nat, len: nat, post: seq<Byte>)
    requires data == pre + (Extent(off, len) + post) && Long(off) && Long(len)
    ensures |pre| + 16 <= |data|
    ensures FromLe(data[|pre|..|pre| + 8]) == off && FromLe(data[|pre| + 8..|pre| + 16]) == len
  {
    Pow256Values();
    assert data == pre + (U64(off) + (U64(len) + post));
    FieldAt(data, pre, off, W64(), U64(len) + post);
    assert data == (pre + U64(off)) + (U64(len) + post);
    FieldAt(data, pre + U64(off), len, W64(), post);
  }

  // Regrouping a head of four parts around each part.
  lemma FourParts(data: seq<Byte>, pre: seq<Byte>, a: seq<Byte>, b: seq<Byte>, c: seq<Byte>, d: seq<Byte>,
                  post: seq<Byte>)
    requires data == pre + ((a + b + c + d) + post)
    ensures data == pre + (a + (b + c + d + post)) && data == (pre + a) + (b + (c + d + post))
    ensures data == (pre + a + b) + (c + (d + post)) && data == (pre + a + b + c) + (d + post)
  {
  }

  lemma TagsRead(data: seq<Byte>, pre: seq<Byte>, x: Byte, y: Byte, post: seq<Byte>)
    requires data == pre + ([x, y] + post)
    ensures |pre| + 2 <= |data| && data[|pre|] == x && data[|pre| + 1] == y
  {
  }

  lemma HeadIs(t: Info)
    requires Fits(t)
    ensures MetaHead(t) == U16(|t.name|) + t.name + [t.dtype, |t.shape|] + Dims(t.shape)
  {
  }

  // The parts of a record in front of its extent, from the parts of its head.
  lemma HeadReads(data: seq<Byte>, pre: seq<Byte>, t: Info, a: seq<Byte>, d: seq<Byte>, post: seq<Byte>)
    requires Fits(t) && |a| == 2 && FromLe(a) == |t.name| && d == Dims(t.shape)
    requires data == pre + ((a + t.name + [t.dtype, |t.shape|] + d) + post)
    ensures var nameEnd := |pre| + 2 + |t.name|;
      && nameEnd + 2 + 4 * |t.shape| <= |data|
      && FromLe(data[|pre|..|pre| + 2]) == |t.name| && data[|pre| + 2..nameEnd] == t.name
      && data[nameEnd] == t.dtype && data[nameEnd + 1] == |t.shape|
      && ReadDims(data, nameEnd + 2, |t.shape|) == t.shape
  {
    hide Dims, ReadDims, FromLe;
    HeadParts(data, pre, a, t.name, t.dtype, |t.shape|, d, post);
    DimsBehind(data, pre + a + t.name + [t.dtype, |t.shape|], |pre| + 2 + |t.name|, t.shape, post);
  }

  lemma DimsBehind(data: seq<Byte>, before: seq<Byte>, nameEnd: nat, shape: seq<nat>, post: seq<Byte>)
    requires |before| == nameEnd + 2 && data == before + (Dims(shape) + post) && DimsFit(shape)
    ensures nameEnd + 2 + 4 * |shape| <= |data| && ReadDims(data, nameEnd + 2, |shape|) == shape
  {
    hide Dims, ReadDims;
    DimsRead(data, before, shape, post);
  }

  lemma NameLength(a: seq<Byte>, len: nat)
    requires a == U16(len) && len < 0x1_0000
    ensures FromLe(a) == len
  {
    Pow256Values();
    FromLeOfLe(len, W16());
  }

  lemma HeadParts(data: seq<Byte>, pre: seq<Byte>, a: seq<Byte>, b: seq<Byte>, x: Byte, y: Byte, d: seq<Byte>,
                  post: seq<Byte>)
    requires data == pre + ((a + b + [x, y] + d) + post)
    ensures var e := |pre| + |a| + |b|;
      && e + 2 + |d| <= |data| && data[|pre|..|pre| + |a|] == a && data[|pre| + |a|..e] == b
      && data[e] == x && data[e + 1] == y && data == (pre + a + b + [x, y]) + (d + post)
  {
    FourParts(data, pre, a, b, [x, y], d, post);
    SliceAt(data, pre, a, b + [x, y] + d + post);
    SliceAt(data, pre + a, b, [x, y] + d + post);
    TagsRead(data, pre + a + b, x, y, d + post);
  }

  lemma RecordReads(data: seq<Byte>, pre: seq<Byte>, t: Info, name: string, off: nat, post: seq<Byte>)
    requires data == pre + (MetaHead(t) + Extent(off, t.len) + post) && Fits(t) && Long(off)
    requires Utf8.Decode(t.name) == Some(name)
    ensures ReadOne(data, |pre|) == Some((Parsed(name, t, off), |pre| + |MetaHead(t)| + 16))
  {
    hide Dims, ReadDims, FromLe, Extent, MetaHead, U16, Utf8.Decode;
    assert data == pre + (MetaHead(t) + (Extent(off, t.len) + post));
    HeadIs(t);
    NameLength(U16(|t.name|), |t.name|);
    HeadReads(data, pre, t, U16(|t.name|), Dims(t.shape), Extent(off, t.len) + post);
    assert data == (pre + MetaHead(t)) + (Extent(off, t.len) + post);
    ExtentReads(data, pre + MetaHead(t), off, t.len, post);
  }

  // ---- the whole file ----

  function ParsedList(names: seq<string>, ts: seq<Info>, start: nat): (r: seq<Parsed>)
    requires |names| == |ts|
    ensures |r| == |ts| && forall i :: 0 <= i < |ts| ==> r[i] == Parsed(names[i], ts[i], start + DataSize(ts[..i]))
  {
    seq(|ts|, i requires 0 <= i < |ts| => Parsed(names[i], ts[i], start + DataSize(ts[..i])))
  }

  // The records' names read as these strings.
  ghost predicate NamesRead(names: seq<string>, ts: seq<Info>)
  {
    |names| == |ts| && forall i :: 0 <= i < |ts| ==> Utf8.Decode(ts[i].name) == Some(names[i])
  }

  function Names(ts: seq<Tensor>): (r: seq<string>)
    ensures |r| == |ts| && forall i :: 0 <= i < |ts| ==> r[i] == ts[i].name
  {
    seq(|ts|, i requires 0 <= i < |ts| => ts[i].name)
  }

  lemma TensorNamesRead(ts: seq<Tensor>)
    ensures NamesRead(Names(ts), Infos(ts))
  {
    hide Utf8.Encode, Utf8.Decode;
    forall i | 0 <= i < |ts| ensures Utf8.Decode(Infos(ts)[i].name) == Some(Names(ts)[i]) {
      Utf8.DecodeOfEncode(ts[i].name);
    }
  }

  lemma {:induction false} WalkFrom(data: seq<Byte>, front: seq<Byte>, names: seq<string>, ts: seq<Info>, start: nat,
                                    rest: seq<Byte>, i: nat)
    requires i <= |ts| && data == front + (Meta(ts, start) + rest)
    requires AllFit(ts) && OffsetsFit(ts, start) && NamesRead(names, ts)
    ensures ReadMany(data, |front| + |Flatten(Zip(Heads(ts), Extents(ts, start))[..i])|, |ts| - i) ==
      Some(ParsedList(names, ts, start)[i..])
    decreases |ts| - i
  {
    hide ReadOne, MetaHead, Extent, Zip, Flatten, DataSize, Utf8.Decode, Fits, Long;
    var list := ParsedList(names, ts, start);
    if i < |ts| {
      var z := Zip(Heads(ts), Extents(ts, start));
      var pre, post := Flatten(z[..i]), Flatten(z[i + 1..]);
      ZipAt(Heads(ts), Extents(ts, start), i);
      FlattenAt(z, i);
      var head, ext := MetaHead(ts[i]), Extent(start + DataSize(ts[..i]), ts[i].len);
      RecordAmong(data, front, pre, head + ext, post, rest);
      RecordReads(data, front + pre, ts[i], names[i], start + DataSize(ts[..i]), post + rest);
      WalkFrom(data, front, names, ts, start, rest, i + 1);
      assert list[i..] == [list[i]] + list[i + 1..];
    } else {
      assert list[i..] == [];
    }
  }

  lemma RecordAmong(data: seq<Byte>, front: seq<Byte>, pre: seq<Byte>, x: seq<Byte>, post: seq<Byte>, rest: seq<Byte>)
    requires data == front + ((pre + (x + post)) + rest)
    ensures data == (front + pre) + (x + (post + rest))
  {
  }

  lemma HeaderReads(data: seq<Byte>, count: nat, metaSize: nat, post: seq<Byte>)
    requires data == Header(count, metaSize) + post && count < 0x1_0000
    ensures |data| >= 16 && data[..4] == MAGIC && FromLe(data[4..6]) == VERSION && FromLe(data[6..8]) == count
  {
    var a, b, c := U16(VERSION), U16(count), U64(metaSize);
    assert data == MAGIC + (a + (b + c + post));
    SliceAt(data, MAGIC, a, b + c + post);
    assert data == (MAGIC + a) + (b + (c + post));
    SliceAt(data, MAGIC + a, b, c + post);
    NameLength(a, VERSION);
    NameLength(b, count);
  }

  // Parsing a written file gives back every tensor's name, dtype and shape, with the offset and length of its data.
  lemma ParseWritten(ts: seq<Tensor>)
    requires Encodable(Infos(ts))
    ensures ParseFbin(Blob(ts)) == Some(ParsedList(Names(ts), Infos(ts), DataStart(MetaSize(Infos(ts)))))
  {
    hide Header, Meta, MetaSize, DataStart, ReadMany, ParsedList, FromLe, DataSize, Raws, AllFit, OffsetsFit, Long,
         NamesRead, Infos, Names;
    var infos := Infos(ts);
    var size := MetaSize(infos);
    var start := DataStart(size);
    DataStartAligned(size);
    var pad := Zeros(start - 16 - size) + Raws(ts);
    assert Blob(ts) == Header(|ts|, size) + (Meta(infos, start) + pad);
    HeaderReads(Blob(ts), |ts|, size, Meta(infos, start) + pad);
    TensorNamesRead(ts);
    WalkFrom(Blob(ts), Header(|ts|, size), Names(ts), infos, start, pad, 0);
    assert ParsedList(Names(ts), infos, start)[0..] == ParsedList(Names(ts), infos, start);
  }

  lemma {:induction false} RawsSize(ts: seq<Tensor>)
    ensures |Raws(ts)| == DataSize(Infos(ts))
    decreases |ts|
  {
    if ts != [] {
      RawsSize(ts[..|ts| - 1]);
      assert Infos(ts)[..|ts| - 1] == Infos(ts[..|ts| - 1]);
    }
  }

  lemma {:induction false} RawsAt(ts: seq<Tensor>, i: nat)
    requires i < |ts|
    ensures |Raws(ts[..i])| + |ts[i].raw| <= |Raws(ts)|
    ensures Raws(ts)[|Raws(ts[..i])|..|Raws(ts[..i])| + |ts[i].raw|] == ts[i].raw
    decreases |ts|
  {
    var most, last := Raws(ts[..|ts| - 1]), ts[|ts| - 1].raw;
    assert Raws(ts) == most + last;
    if i < |ts| - 1 {
      RawsAt(ts[..|ts| - 1], i);
      assert ts[..|ts| - 1][..i] == ts[..i];
      var lo, hi := |Raws(ts[..i])|, |Raws(ts[..i])| + |ts[i].raw|;
      assert (most + last)[lo..hi] == most[lo..hi];
    } else {
      assert ts[..i] == ts[..|ts| - 1];
      assert (most + last)[|most|..|most| + |last|] == last;
    }
  }

  // Slicing at the recorded offset and length gives exactly the tensor's bytes.
  lemma SliceWritten(ts: seq<Tensor>, i: nat)
    requires i < |ts|
    ensures var start := DataStart(MetaSize(Infos(ts)));
      SliceOf(Blob(ts), ParsedList(Names(ts), Infos(ts), start)[i]) == ts[i].raw
  {
    hide Header, Meta, MetaSize, DataStart, DataSize, Raws;
    var infos := Infos(ts);
    var size := MetaSize(infos);
    DataStartAligned(size);
    MetaLength(infos, DataStart(size));
    RawsAt(ts, i);
    RawsSize(ts[..i]);
    assert Infos(ts[..i]) == infos[..i];
    FrontThenRaw(Front(infos), Raws(ts), |Raws(ts[..i])|, |ts[i].raw|);
  }

  lemma FrontThenRaw(front: seq<Byte>, raws: seq<Byte>, at: nat, len: nat)
    requires at + len <= |raws|
    ensures (front + raws)[|front| + at..|front| + at + len] == raws[at..at + len]
  {
  }

  // The data section starts on a page; extents are contiguous from there and end with the file.
  lemma ExtentsTile(ts: seq<Tensor>, i: nat)
    requires i < |ts|
    ensures var ps := ParsedList(Names(ts), Infos(ts), DataStart(MetaSize(Infos(ts))));
      && (i == 0 ==> ps[i].offset % PAGE == 0)
      && ps[i].offset + ps[i].info.len == (if i + 1 < |ts| then ps[i + 1].offset else |Blob(ts)|)
  {
    hide Header, Meta, MetaSize, DataStart, Raws, Zeros, DataSize, ParsedList, Infos;
    var infos := Infos(ts);
    var size := MetaSize(infos);
    DataStartAligned(size);
    MetaLength(infos, DataStart(size));
    DataSizeSnoc(infos, i);
    RawsSize(ts);
    assert infos[..|infos|] == infos && infos[..0] == [];
    NoData(infos);
  }

  // Write, parse, slice: every tensor comes back with its name, dtype, shape and bytes, in order.
  lemma RoundTrip(ts: seq<Tensor>)
    requires Encodable(Infos(ts))
    ensures ParseFbin(Blob(ts)).Some? && |ParseFbin(Blob(ts)).value| == |ts|
    ensures forall i :: 0 <= i < |ts| ==>
      var p := ParseFbin(Blob(ts)).value[i];
      p.name == ts[i].name && p.info == InfoOf(ts[i]) && SliceOf(Blob(ts), p) == ts[i].raw
  {
    hide Blob, ParseFbin, SliceOf, DataStart, MetaSize;
    ParseWritten(ts);
    forall i | 0 <= i < |ts|
      ensures var p := ParseFbin(Blob(ts)).value[i];
        p.name == ts[i].name && p.info == InfoOf(ts[i]) && SliceOf(Blob(ts), p) == ts[i].raw
    {
      SliceWritten(ts, i);
    }
  }

  // ---- the front, byte by byte ----

  // 20 bytes of fixed fields per tensor, its name and its dimensions.
  function RecordBytes(ts: seq<Info>): nat
  {
    if ts == [] then 0 else 20 + |ts[0].name| + 4 * |ts[0].shape| + RecordBytes(ts[1..])
  }

  lemma {:induction false} MetaSizeIs(ts: seq<Info>)
    ensures MetaSize(ts) == RecordBytes(ts)
  {
    hide MetaHead, Extent;
    if ts != [] {
      MetaSizeIs(ts[1..]);
      var z := Zip(Heads(ts), Blanks(ts));
      assert z[1..] == Zip(Heads(ts[1..]), Blanks(ts[1..]));
      assert |z[0]| == 20 + |ts[0].name| + 4 * |ts[0].shape|;
    }
  }

  lemma SizeReads(data: seq<Byte>, count: nat, metaSize: nat, post: seq<Byte>)
    requires data == Header(count, metaSize) + post && Long(metaSize)
    ensures |data| >= 16 && FromLe(data[8..16]) == metaSize
  {
    var pre := MAGIC + U16(VERSION) + U16(count);
    assert data == pre + (U64(metaSize) + post);
    Pow256Values();
    FieldAt(data, pre, metaSize, W64(), post);
  }

  lemma ZerosBetween(front: seq<Byte>, zeros: seq<Byte>, rest: seq<Byte>, i: nat)
    requires (forall k :: 0 <= k < |zeros| ==> zeros[k] == 0) && |front| <= i < |front| + |zeros|
    ensures (front + zeros + rest)[i] == 0
  {
  }

  // The first page boundary at or behind an offset.
  function FirstPage(offset: nat): (r: nat)
    ensures r % 4096 == 0 && offset <= r < offset + 4096
  {
    offset + 4095 - (offset + 4095) % 4096
  }

  ghost predicate IsFront(data: seq<Byte>, count: nat, m: nat, start: nat, rest: seq<Byte>)
  {
    && 16 + m <= start <= |data| && data[..4] == [70, 66, 78, 49] && FromLe(data[4..6]) == 1
    && FromLe(data[6..8]) == count && FromLe(data[8..16]) == m
    && (forall i :: 16 + m <= i < start ==> data[i] == 0) && data[start..] == rest
  }

  // A written file names its format, the number of its tensors and the length of its metadata, and only zeros stand
  // between the metadata and the page on which the data starts.
  lemma FrontReads(ts: seq<Tensor>)
    requires Encodable(Infos(ts))
    ensures var m := RecordBytes(Infos(ts)); IsFront(Blob(ts), |ts|, m, FirstPage(16 + m), Raws(ts))
  {
    hide Header, Meta, MetaSize, Raws, Infos, RecordBytes, Zeros, IsFront, DataStart, FirstPage, Encodable, Long;
    var infos := Infos(ts);
    var m := MetaSize(infos);
    CountsFit(infos);
    MetaSizeIs(infos);
    StartIs(m);
    DataStartAligned(m);
    MetaLength(infos, DataStart(m));
    FrontParts(|ts|, m, DataStart(m), Meta(infos, DataStart(m)), Raws(ts));
  }

  lemma CountsFit(ts: seq<Info>)
    requires Encodable(ts)
    ensures |ts| < 0x1_0000 && Long(MetaSize(ts))
  {
  }

  lemma StartIs(m: nat)
    ensures DataStart(m) == FirstPage(16 + m)
  {
  }

  lemma FrontParts(count: nat, m: nat, start: nat, meta: seq<Byte>, rest: seq<Byte>)
    requires count < 0x1_0000 && Long(m) && |meta| == m && 16 + m <= start
    ensures IsFront(Header(count, m) + meta + Zeros(start - 16 - m) + rest, count, m, start, rest)
  {
    hide Header, FromLe, Zeros, Long;
    var header, pad := Header(count, m), Zeros(start - 16 - m);
    var data := header + meta + pad + rest;
    assert data == header + (meta + pad + rest);
    HeaderReads(data, count, m, meta + pad + rest);
    SizeReads(data, count, m, meta + pad + rest);
    forall i | 16 + m <= i < start ensures data[i] == 0 { ZerosBetween(header + meta, pad, rest, i); }
  }
}
