/** Any sequence of injections into the files of one volume. */
module FatRuns {
  import opened Bytes
  import opened FatChain
  import opened FatVolume
  import opened FatWalk
  import opened FatInject
  import opened FatCorrect

  // A file by the place of its directory entry, and its clusters.
  datatype File = File(dir: nat, off: nat, chain: seq<nat>)

  datatype Injection = Injection(file: nat, data: seq<Byte>)

  ghost predicate FileOk(s: seq<Byte>, part: nat, n: nat, g: Geometry, f: File)
  {
    Located(s, part, n, g, f.dir, f.off, f.chain) && |f.chain| <= WALK_LIMIT && f.off % 32 == 0
  }

  // Different entries, no shared cluster, and neither file holds the other's directory.
  ghost predicate Apart(a: File, b: File)
  {
    && (a.dir != b.dir || a.off != b.off)
    && Clusters(a.chain) !! Clusters(b.chain) && a.dir !in b.chain && b.dir !in a.chain
  }

  ghost predicate Volume(s: seq<Byte>, part: nat, n: nat, g: Geometry, files: seq<File>)
  {
    && (forall i :: 0 <= i < |files| ==> FileOk(s, part, n, g, files[i]))
    && (forall i, j :: 0 <= i < j < |files| ==> Apart(files[i], files[j]))
  }

  // The injection has room, and the walk will see the whole file afterwards.
  ghost predicate Room(s: seq<Byte>, n: nat, g: Geometry, f: File, data: seq<Byte>)
  {
    Fits(g, n, |s|) && HasRoom(s, n, g, f.chain, data) && Need(|data|, g.clusterSize) <= WALK_LIMIT
  }

  // The image and the file after injecting into it.
  function ImageAfter(s: seq<Byte>, part: nat, f: File, data: seq<Byte>): seq<Byte>
    requires f.dir >= 2
  {
    Inject(s, part, f.dir, f.off, data).1
  }

  function FileAfter(s: seq<Byte>, part: nat, f: File, data: seq<Byte>): File
    requires f.dir >= 2
  {
    var r := Inject(s, part, f.dir, f.off, data).0;
    if r.Ok? then f.(chain := r.value) else f
  }

  // ---- one injection ----

  lemma EntryOutside(a: seq<Byte>, b: seq<Byte>, off: nat, other: nat)
    requires SameBut(a, b, off + 28, off + 32) && off % 32 == 0 && other % 32 == 0 && off != other && other + 32 <= |a|
    ensures b[other..other + 32] == a[other..other + 32]
  {
    assert other + 32 <= off || off + 32 <= other;
  }

  // The entry of another file stays as it is.
  lemma EntryKept(s: seq<Byte>, part: nat, n: nat, g: Geometry, a: File, b: File, data: seq<Byte>)
    requires FileOk(s, part, n, g, a) && FileOk(s, part, n, g, b) && Apart(a, b) && HasRoom(s, n, g, a.chain, data)
    ensures |ImageAfter(s, part, a, data)| == |s|
    ensures EntryAt(g, ImageAfter(s, part, a, data), b.dir, b.off) == EntryAt(g, s, b.dir, b.off)
  {
    hide Inject, TableOf, IsChain, HasRoom, CopiesAgree, Cluster, EntryAt, StartCluster, Clusters;
    var s' := ImageAfter(s, part, a, data);
    InjectKeepsCluster(s, part, n, g, a.dir, a.off, a.chain, data, b.dir);
    EntryInCluster(g, s, b.dir, b.off);
    EntryInCluster(g, s', b.dir, b.off);
    if b.dir == a.dir {
      ClusterLength(g, s, b.dir);
      EntryOutside(Cluster(g, s, b.dir), Cluster(g, s', b.dir), a.off, b.off);
    }
  }

  lemma ClusterLength(g: Geometry, s: seq<Byte>, c: nat)
    requires c >= 2 && g.ClusterOffset(c) + g.clusterSize <= |s|
    ensures |Cluster(g, s, c)| == g.clusterSize
  {
  }

  // Another file is found as before, with the same contents.
  lemma OtherFile(s: seq<Byte>, part: nat, n: nat, g: Geometry, a: File, b: File, data: seq<Byte>)
    requires FileOk(s, part, n, g, a) && FileOk(s, part, n, g, b) && Apart(a, b) && HasRoom(s, n, g, a.chain, data)
    ensures FileOk(ImageAfter(s, part, a, data), part, n, g, b) && InTable(b.chain, n)
    ensures Contents(g, ImageAfter(s, part, a, data), n, b.chain) == Contents(g, s, n, b.chain)
  {
    hide Inject, TableOf, IsChain, HasRoom, CopiesAgree, EntryAt, StartCluster, Clusters, Resized, IsResize, Need,
         ReadGeometry, Cluster, Contents;
    var start := StartCluster(EntryAt(g, s, b.dir, b.off));
    var chain1 := InjectTable(s, part, n, g, a.dir, a.off, a.chain, data);
    InjectKeepsGeometry(s, part, n, g, a.dir, a.off, a.chain, data);
    InjectKeepsCluster(s, part, n, g, a.dir, a.off, a.chain, data, b.dir);
    EntryKept(s, part, n, g, a, b, data);
    DisjointSymmetric(a.chain, b.chain);
    InjectKeepsFile(s, part, n, g, a.dir, a.off, a.chain, data, start, b.chain);
    ChainInTable(TableOf(g, s, n), start, b.chain);
  }

  lemma DisjointSymmetric(a: seq<nat>, b: seq<nat>)
    requires Clusters(a) !! Clusters(b)
    ensures Clusters(b) !! Clusters(a)
  {
  }

  lemma ChainInTable(t: Table, start: nat, chain: seq<nat>)
    requires IsChain(t, start, chain)
    ensures InTable(chain, |t|)
  {
  }

  // A directory cluster never becomes part of the file.
  lemma DirOutside(s: seq<Byte>, part: nat, n: nat, g: Geometry, a: File, dir: nat, data: seq<Byte>)
    requires FileOk(s, part, n, g, a) && HasRoom(s, n, g, a.chain, data)
    requires 2 <= dir < n && TableOf(g, s, n)[dir] != 0 && dir !in a.chain
    ensures dir !in FileAfter(s, part, a, data).chain
  {
    hide Inject, TableOf, HasRoom, CopiesAgree, EntryAt, StartCluster, Resized, Need, ReadGeometry;
    var chain1 := InjectTable(s, part, n, g, a.dir, a.off, a.chain, data);
    DirUntouched(TableOf(g, s, n), dir, a.chain, chain1);
  }

  // The file itself is found again, with the new clusters, and holds the data.
  lemma SameFile(s: seq<Byte>, part: nat, n: nat, g: Geometry, a: File, data: seq<Byte>)
    requires FileOk(s, part, n, g, a) && Room(s, n, g, a, data)
    ensures FileOk(ImageAfter(s, part, a, data), part, n, g, FileAfter(s, part, a, data))
    ensures Written(ImageAfter(s, part, a, data), n, g, a.dir, a.off, FileAfter(s, part, a, data).chain, data)
  {
    hide Inject, TableOf, IsChain, HasRoom, CopiesAgree, EntryAt, StartCluster, Resized, IsResize, Need, ReadGeometry,
         Patched, Contents, Cluster;
    InjectReadsBack(s, part, n, g, a.dir, a.off, a.chain, data);
    InjectKeepsGeometry(s, part, n, g, a.dir, a.off, a.chain, data);
    InjectKeepsCluster(s, part, n, g, a.dir, a.off, a.chain, data, a.dir);
    DirOutside(s, part, n, g, a, a.dir, data);
  }

  lemma StillApart(s: seq<Byte>, part: nat, n: nat, g: Geometry, a: File, b: File, data: seq<Byte>)
    requires FileOk(s, part, n, g, a) && FileOk(s, part, n, g, b) && Apart(a, b) && HasRoom(s, n, g, a.chain, data)
    ensures Apart(FileAfter(s, part, a, data), b) && Apart(b, FileAfter(s, part, a, data))
  {
    hide Inject, TableOf, HasRoom, CopiesAgree, EntryAt, Resized, Need, ReadGeometry, StartCluster;
    var t := TableOf(g, s, n);
    var chain1 := InjectTable(s, part, n, g, a.dir, a.off, a.chain, data);
    ChainStarts(t, StartCluster(EntryAt(g, s, a.dir, a.off)), a.chain);
    ChainStarts(t, StartCluster(EntryAt(g, s, b.dir, b.off)), b.chain);
    NewChainSeparate(t, a.chain, chain1, b.chain);
    DirOutside(s, part, n, g, a, b.dir, data);
  }

  lemma ChainStarts(t: Table, start: nat, chain: seq<nat>)
    requires IsChain(t, start, chain)
    ensures |chain| > 0 && start == chain[0]
  {
  }

  lemma ApartSymmetric(a: File, b: File)
    ensures Apart(a, b) <==> Apart(b, a)
  {
  }

  // After an injection the files are still the files of the volume, the one injected into with its new clusters.
  lemma StepKeepsVolume(s: seq<Byte>, part: nat, n: nat, g: Geometry, files: seq<File>, k: nat, data: seq<Byte>)
    requires Volume(s, part, n, g, files) && k < |files| && Room(s, n, g, files[k], data)
    ensures files[k].dir >= 2
    ensures Volume(ImageAfter(s, part, files[k], data), part, n, g, files[k := FileAfter(s, part, files[k], data)])
  {
    hide FileOk, Apart, HasRoom, ImageAfter, FileAfter;
    assert FileOk(s, part, n, g, files[k]);
    FileDir(s, part, n, g, files[k]);
    var s', f := ImageAfter(s, part, files[k], data), FileAfter(s, part, files[k], data);
    var files' := files[k := f];
    SameFile(s, part, n, g, files[k], data);
    forall i | 0 <= i < |files| && i != k
      ensures FileOk(s', part, n, g, files[i]) && Apart(f, files[i]) && Apart(files[i], f)
    {
      OthersApart(files, k, i);
      OtherFile(s, part, n, g, files[k], files[i], data);
      StillApart(s, part, n, g, files[k], files[i], data);
    }
    forall i, j | 0 <= i < j < |files'| ensures Apart(files'[i], files'[j]) {}
  }

  lemma FileDir(s: seq<Byte>, part: nat, n: nat, g: Geometry, f: File)
    requires FileOk(s, part, n, g, f)
    ensures f.dir >= 2
  {
  }

  lemma OthersApart(files: seq<File>, k: nat, i: nat)
    requires k < |files| && i < |files| && i != k && forall i, j :: 0 <= i < j < |files| ==> Apart(files[i], files[j])
    ensures Apart(files[k], files[i])
  {
    ApartSymmetric(files[k], files[i]);
  }

  // What another file was given stays there.
  lemma WrittenKept(s: seq<Byte>, part: nat, n: nat, g: Geometry, a: File, b: File, data: seq<Byte>, held: seq<Byte>)
    requires FileOk(s, part, n, g, a) && FileOk(s, part, n, g, b) && Apart(a, b) && HasRoom(s, n, g, a.chain, data)
    requires Written(s, n, g, b.dir, b.off, b.chain, held)
    ensures Written(ImageAfter(s, part, a, data), n, g, b.dir, b.off, b.chain, held)
  {
    hide Inject, TableOf, IsChain, HasRoom, CopiesAgree, EntryAt, StartCluster, Clusters, Need, ReadGeometry, Contents,
         Padded, ImageAfter, Field, Apart;
    EntryKept(s, part, n, g, a, b, data);
    OtherFile(s, part, n, g, a, b, data);
  }

  // ---- conservation ----

  // Clusters of all files.
  function Total(files: seq<File>): nat { if files == [] then 0 else |files[0].chain| + Total(files[1..]) }

  lemma {:induction false} TotalUpdate(files: seq<File>, k: nat, f: File)
    requires k < |files|
    ensures Total(files[k := f]) + |files[k].chain| == Total(files) + |f.chain|
    decreases |files|
  {
    if k > 0 {
      TotalUpdate(files[1..], k - 1, f);
      assert files[k := f][1..] == files[1..][k - 1 := f];
    } else {
      assert files[k := f][1..] == files[1..];
    }
  }

  lemma StepConserves(s: seq<Byte>, part: nat, n: nat, g: Geometry, a: File, data: seq<Byte>)
    requires FileOk(s, part, n, g, a) && Room(s, n, g, a, data)
    ensures var s' := ImageAfter(s, part, a, data);
      && Fits(g, n, |s'|)
      && FreeCount(TableOf(g, s', n)) + |FileAfter(s, part, a, data).chain| == FreeCount(TableOf(g, s, n)) + |a.chain|
  {
    hide Inject, TableOf, IsChain, HasRoom, CopiesAgree, EntryAt, StartCluster, Need, ReadGeometry, FreeCount, IsResize,
         Resized, InTable;
    InjectConserves(s, part, n, g, a.dir, a.off, a.chain, data);
    var chain1 := InjectTable(s, part, n, g, a.dir, a.off, a.chain, data);
  }

  // ---- runs ----

  // The image and the files after injections one after the other.
  function Run(s: seq<Byte>, part: nat, files: seq<File>, ops: seq<Injection>): (r: (seq<Byte>, seq<File>))
    ensures |r.1| == |files|
    decreases |ops|
  {
    if ops == [] then (s, files)
    else
      var (s1, files1) := Run(s, part, files, ops[..|ops| - 1]);
      var op := ops[|ops| - 1];
      if op.file >= |files1| || files1[op.file].dir < 2 then (s1, files1)
      else
        var f := files1[op.file];
        (ImageAfter(s1, part, f, op.data), files1[op.file := FileAfter(s1, part, f, op.data)])
  }

  // Every injection names a file and has room when its turn comes.
  ghost predicate AllRoom(s: seq<Byte>, part: nat, n: nat, g: Geometry, files: seq<File>, ops: seq<Injection>)
    decreases |ops|
  {
    ops == [] ||
    var init, op := ops[..|ops| - 1], ops[|ops| - 1];
    && AllRoom(s, part, n, g, files, init) && op.file < |files|
    && Room(Run(s, part, files, init).0, n, g, Run(s, part, files, init).1[op.file], op.data)
  }

  // The data last injected into file i.
  function Last(ops: seq<Injection>, i: nat): Option<seq<Byte>>
    decreases |ops|
  {
    if ops == [] then None
    else if ops[|ops| - 1].file == i then Some(ops[|ops| - 1].data)
    else Last(ops[..|ops| - 1], i)
  }

  // File i holds what was last injected into it, or is as it was.
  ghost predicate Served(s: seq<Byte>, files: seq<File>, s': seq<Byte>, files': seq<File>, n: nat, g: Geometry,
                         ops: seq<Injection>, i: nat)
    requires i < |files| == |files'|
  {
    && files'[i].dir == files[i].dir && files'[i].off == files[i].off
    && match Last(ops, i)
       case Some(data) => Written(s', n, g, files'[i].dir, files'[i].off, files'[i].chain, data)
       case None =>
         && files'[i] == files[i] && InTable(files[i].chain, n) && Fits(g, n, |s|) && Fits(g, n, |s'|)
         && Contents(g, s', n, files[i].chain) == Contents(g, s, n, files[i].chain)
  }

  lemma ServedStep(s: seq<Byte>, files: seq<File>, s1: seq<Byte>, files1: seq<File>, part: nat, n: nat, g: Geometry,
                   ops: seq<Injection>, op: Injection, i: nat)
    requires i < |files| == |files1| && op.file < |files| && Volume(s1, part, n, g, files1)
    requires Served(s, files, s1, files1, n, g, ops, i) && Room(s1, n, g, files1[op.file], op.data)
    requires files1[op.file].dir >= 2
    ensures var f := files1[op.file];
      Served(s, files, ImageAfter(s1, part, f, op.data), files1[op.file := FileAfter(s1, part, f, op.data)], n, g,
             ops + [op], i)
  {
    hide FileOk, Apart, HasRoom, ImageAfter, Contents, Written, TableOf, Need, InTable;
    var f := files1[op.file];
    assert (ops + [op])[..|ops|] == ops;
    assert FileOk(s1, part, n, g, f);
    if i == op.file {
      SameFile(s1, part, n, g, f, op.data);
      FileAfterPlace(s1, part, f, op.data);
    } else {
      OthersApart(files1, op.file, i);
      assert FileOk(s1, part, n, g, files1[i]);
      OtherFile(s1, part, n, g, f, files1[i], op.data);
      if Last(ops, i).Some? { WrittenKept(s1, part, n, g, f, files1[i], op.data, Last(ops, i).value); }
      AfterFits(s1, part, n, g, f, op.data);
    }
  }

  lemma FileAfterPlace(s: seq<Byte>, part: nat, f: File, data: seq<Byte>)
    requires f.dir >= 2
    ensures FileAfter(s, part, f, data).dir == f.dir && FileAfter(s, part, f, data).off == f.off
  {
  }

  lemma AfterFits(s: seq<Byte>, part: nat, n: nat, g: Geometry, f: File, data: seq<Byte>)
    requires FileOk(s, part, n, g, f) && Room(s, n, g, f, data)
    ensures f.dir >= 2 && Fits(g, n, |ImageAfter(s, part, f, data)|)
  {
    StepConserves(s, part, n, g, f, data);
  }

  lemma ServedAtFirst(s: seq<Byte>, part: nat, n: nat, g: Geometry, files: seq<File>, i: nat)
    requires Volume(s, part, n, g, files) && i < |files|
    ensures Served(s, files, s, files, n, g, [], i)
  {
    hide TableOf, ReadGeometry, StartCluster, EntryAt, Contents;
    assert FileOk(s, part, n, g, files[i]);
    ChainInTable(TableOf(g, s, n), StartCluster(EntryAt(g, s, files[i].dir, files[i].off)), files[i].chain);
  }

  // Over any sequence of injections with room, the files stay the files of the volume, and each holds the data last
  // injected into it, or what it held.
  lemma {:induction false} RunHolds(s: seq<Byte>, part: nat, n: nat, g: Geometry, files: seq<File>, ops: seq<Injection>)
    requires Volume(s, part, n, g, files) && AllRoom(s, part, n, g, files, ops)
    ensures var (s', files') := Run(s, part, files, ops);
      && Volume(s', part, n, g, files') && |files'| == |files|
      && forall i :: 0 <= i < |files| ==> Served(s, files, s', files', n, g, ops, i)
    decreases |ops|
  {
    hide Volume, Served, Room, ImageAfter, FileAfter;
    if ops == [] {
      forall i | 0 <= i < |files| ensures Served(s, files, s, files, n, g, [], i) {
        ServedAtFirst(s, part, n, g, files, i);
      }
    } else {
      var init, op := ops[..|ops| - 1], ops[|ops| - 1];
      RunHolds(s, part, n, g, files, init);
      var (s1, files1) := Run(s, part, files, init);
      StepKeepsVolume(s1, part, n, g, files1, op.file, op.data);
      assert init + [op] == ops;
      forall i | 0 <= i < |files|
        ensures Served(s, files, Run(s, part, files, ops).0, Run(s, part, files, ops).1, n, g, ops, i)
      {
        ServedStep(s, files, s1, files1, part, n, g, init, op, i);
      }
    }
  }

  // And clusters are neither lost nor made up: those in files and those free are as many as before.
  lemma {:induction false} RunConserves(s: seq<Byte>, part: nat, n: nat, g: Geometry, files: seq<File>,
                                        ops: seq<Injection>)
    requires Volume(s, part, n, g, files) && AllRoom(s, part, n, g, files, ops) && Fits(g, n, |s|)
    ensures var (s', files') := Run(s, part, files, ops);
      && Fits(g, n, |s'|)
      && FreeCount(TableOf(g, s', n)) + Total(files') == FreeCount(TableOf(g, s, n)) + Total(files)
    decreases |ops|
  {
    hide Volume, FreeCount, TableOf, ImageAfter, FileAfter, Fits, HasRoom, Need;
    if ops != [] {
      var init, op := ops[..|ops| - 1], ops[|ops| - 1];
      RunConserves(s, part, n, g, files, init);
      RunHolds(s, part, n, g, files, init);
      var (s1, files1) := Run(s, part, files, init);
      VolumeFile(s1, part, n, g, files1, op.file);
      StepConserves(s1, part, n, g, files1[op.file], op.data);
      TotalUpdate(files1, op.file, FileAfter(s1, part, files1[op.file], op.data));
    }
  }

  lemma VolumeFile(s: seq<Byte>, part: nat, n: nat, g: Geometry, files: seq<File>, k: nat)
    requires Volume(s, part, n, g, files) && k < |files|
    ensures FileOk(s, part, n, g, files[k]) && files[k].dir >= 2
  {
  }

  // ---- room, told from the first image ----

  function Lengths(files: seq<File>): (r: seq<nat>)
    ensures |r| == |files| && forall i :: 0 <= i < |files| ==> r[i] == |files[i].chain|
  {
    seq(|files|, i requires 0 <= i < |files| => |files[i].chain|)
  }

  function Sum(lens: seq<nat>): nat { if lens == [] then 0 else lens[0] + Sum(lens[1..]) }

  lemma {:induction false} TotalIsSum(files: seq<File>)
    ensures Total(files) == Sum(Lengths(files))
  {
    if files != [] {
      TotalIsSum(files[1..]);
      assert Lengths(files)[1..] == Lengths(files[1..]);
    }
  }

  // Clusters per file after the injections.
  function LengthsAfter(lens: seq<nat>, clusterSize: nat, ops: seq<Injection>): (r: seq<nat>)
    requires clusterSize > 0
    ensures |r| == |lens|
    decreases |ops|
  {
    if ops == [] then lens
    else
      var before, op := LengthsAfter(lens, clusterSize, ops[..|ops| - 1]), ops[|ops| - 1];
      if op.file < |lens| then before[op.file := Need(|op.data|, clusterSize)] else before
  }

  // Every injection names a file and has a size the format and the walk can hold; and whenever its turn comes, the
  // clusters it needs and those of the other files are no more than were free or in files at first.
  ghost predicate Enough(free: nat, lens: seq<nat>, clusterSize: nat, ops: seq<Injection>)
    requires clusterSize > 0
    decreases |ops|
  {
    ops == [] ||
    var init, op := ops[..|ops| - 1], ops[|ops| - 1];
    && Enough(free, lens, clusterSize, init) && op.file < |lens|
    && OpFits(op, clusterSize)
    && var before := LengthsAfter(lens, clusterSize, init);
      Need(|op.data|, clusterSize) + Sum(before) - before[op.file] <= free + Sum(lens)
  }

  predicate OpFits(op: Injection, clusterSize: nat)
    requires clusterSize > 0
  {
    |op.data| < Pow256(4) && Need(|op.data|, clusterSize) <= WALK_LIMIT
  }

  lemma StepLength(s: seq<Byte>, part: nat, n: nat, g: Geometry, a: File, data: seq<Byte>)
    requires FileOk(s, part, n, g, a) && Room(s, n, g, a, data)
    ensures |FileAfter(s, part, a, data).chain| == Need(|data|, g.clusterSize)
  {
    hide Inject, TableOf, IsChain, HasRoom, CopiesAgree, EntryAt, StartCluster, Need, ReadGeometry, FreeCount, IsResize,
         Resized, InTable;
    var chain1 := InjectTable(s, part, n, g, a.dir, a.off, a.chain, data);
  }

  lemma {:induction false} RunLengths(s: seq<Byte>, part: nat, n: nat, g: Geometry, files: seq<File>,
                                      ops: seq<Injection>)
    requires Volume(s, part, n, g, files) && AllRoom(s, part, n, g, files, ops) && g.clusterSize > 0
    ensures Lengths(Run(s, part, files, ops).1) == LengthsAfter(Lengths(files), g.clusterSize, ops)
    decreases |ops|
  {
    hide Volume, ImageAfter, FileAfter, Fits, HasRoom, Need;
    if ops != [] {
      var init, op := ops[..|ops| - 1], ops[|ops| - 1];
      RunLengths(s, part, n, g, files, init);
      RunHolds(s, part, n, g, files, init);
      var (s1, files1) := Run(s, part, files, init);
      VolumeFile(s1, part, n, g, files1, op.file);
      StepLength(s1, part, n, g, files1[op.file], op.data);
      var f := FileAfter(s1, part, files1[op.file], op.data);
      assert Lengths(files1[op.file := f]) == Lengths(files1)[op.file := |f.chain|];
    }
  }

  lemma RoomIff(s: seq<Byte>, part: nat, n: nat, g: Geometry, f: File, op: Injection)
    requires FileOk(s, part, n, g, f)
    ensures Fits(g, n, |s|) && g.clusterSize > 0
    ensures Room(s, n, g, f, op.data) <==>
      OpFits(op, g.clusterSize) && Need(|op.data|, g.clusterSize) <= FreeCount(TableOf(g, s, n)) + |f.chain|
  {
    hide TableOf, FreeCount, Need, CopiesAgree, ReadGeometry, EntryAt, StartCluster, IsChain;
    assert Walked(f.chain) == f.chain;
  }

  // On a volume, every injection has room when its turn comes iff the numbers of the first image say so.
  lemma {:induction false} AllRoomIff(s: seq<Byte>, part: nat, n: nat, g: Geometry, files: seq<File>,
                                      ops: seq<Injection>)
    requires Volume(s, part, n, g, files) && Fits(g, n, |s|)
    ensures AllRoom(s, part, n, g, files, ops) <==>
      Enough(FreeCount(TableOf(g, s, n)), Lengths(files), g.clusterSize, ops)
    decreases |ops|
  {
    hide Volume, FreeCount, TableOf, Run, Room, HasRoom, Need, OpFits, LengthsAfter;
    if ops != [] {
      var init, op := ops[..|ops| - 1], ops[|ops| - 1];
      AllRoomIff(s, part, n, g, files, init);
      if AllRoom(s, part, n, g, files, init) && op.file < |files| {
        RunHolds(s, part, n, g, files, init);
        RunConserves(s, part, n, g, files, init);
        RunLengths(s, part, n, g, files, init);
        var (s1, files1) := Run(s, part, files, init);
        TotalIsSum(files);
        TotalIsSum(files1);
        VolumeFile(s1, part, n, g, files1, op.file);
        RoomIff(s1, part, n, g, files1[op.file], op);
      }
    }
  }
}
