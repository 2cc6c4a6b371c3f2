/**
 The versioned cache of compiled apps: current files and metadata per key, a snapshot per stored version, rollback,
 and the lineage of each app. Ids are a hash of the source; the hash is a parameter.
 */
module Cache {
  import opened Bytes

  type Key = string

  // Metadata of an app. An absent branch is "".
  datatype Meta = Meta(version: nat, id: string, parentId: string, rootId: string, branch: string, lineage: seq<string>)

  // What reading missing metadata amounts to.
  const BLANK: Meta := Meta(0, "", "", "", "", [])

  datatype Snapshot = Snapshot(source: string, wasm: seq<Byte>, meta: Meta)

  // The files of the cache directory.
  datatype Files = Files(source: map<Key, string>, wasm: map<Key, seq<Byte>>, meta: map<Key, Meta>,
                         snapshots: map<(Key, nat), Snapshot>)

  const EMPTY: Files := Files(map[], map[], map[], map[])

  type Hash = string -> string

  function MetaAt(f: Files, key: Key): Meta { if key in f.meta then f.meta[key] else BLANK }

  // Metadata after storing a source, in place of `m`, with or without a parent's metadata.
  function Updated(hash: Hash, m: Meta, source: string, parent: Option<Meta>): (r: Meta)
  {
    match parent
    case None => Meta(m.version + 1, hash(source), "", hash(source), m.branch, [])
    case Some(p) =>
      var inherited := if p.branch == "" then "main" else p.branch;
      var branch := if m.branch == "" || m.branch == "main" then inherited else m.branch;
      Meta(m.version + 1, hash(source), p.id, if p.rootId != "" then p.rootId else p.id, branch, p.lineage + [p.id])
  }

  // ---- the operations ----

  function Stored(hash: Hash, f: Files, key: Key, source: string, wasm: seq<Byte>, parent: Option<Key>): Files
  {
    var p := if parent == None then None else Some(MetaAt(f, parent.value));
    var m := Updated(hash, MetaAt(f, key), source, p);
    Files(f.source[key := source], f.wasm[key := wasm], f.meta[key := m],
          f.snapshots[(key, m.version) := Snapshot(source, wasm, m)])
  }

  function Saved(f: Files, key: Key, source: string, wasm: seq<Byte>): Files
  {
    var version := if key in f.meta then f.meta[key].version else 1;
    f.(snapshots := f.snapshots[(key, version) := Snapshot(source, wasm, MetaAt(f, key))])
  }

  // A missing version changes nothing; an empty snapshot source leaves the current source in place.
  function RolledBack(f: Files, key: Key, version: nat): Files
  {
    if (key, version) !in f.snapshots then f
    else
      var s := f.snapshots[(key, version)];
      f.(wasm := f.wasm[key := s.wasm], source := if s.source != "" then f.source[key := s.source] else f.source)
  }

  // Binary and source of a hit.
  function Checked(f: Files, key: Key): Option<(seq<Byte>, Option<string>)>
  {
    if key !in f.wasm then None else Some((f.wasm[key], if key in f.source then Some(f.source[key]) else None))
  }

  class Directory {
    var files: Files
    const hash: Hash

    constructor (hash: Hash)
      ensures files == EMPTY && this.hash == hash
    {
      this.hash := hash;
      files := EMPTY;
    }

    method Store(key: Key, source: string, wasm: seq<Byte>, parent: Option<Key>)
      modifies this
      ensures files == Stored(hash, old(files), key, source, wasm, parent)
    {
      files := files.(source := files.source[key := source]);
      files := files.(wasm := files.wasm[key := wasm]);
      var m := MetaAt(files, key);
      m := m.(version := m.version + 1, id := hash(source));
      if parent.Some? {
        var p := MetaAt(files, parent.value);
        m := m.(parentId := p.id, rootId := if p.rootId != "" then p.rootId else p.id);
        if m.branch == "" || m.branch == "main" {
          m := m.(branch := if p.branch == "" then "main" else p.branch);
        }
        m := m.(lineage := p.lineage + [p.id]);
      } else {
        m := m.(rootId := hash(source), parentId := "", lineage := []);
      }
      files := files.(meta := files.meta[key := m]);
      SaveVersion(key, source, wasm);
    }

    // A key without metadata is saved as version 1.
    method SaveVersion(key: Key, source: string, wasm: seq<Byte>)
      modifies this
      ensures files == Saved(old(files), key, source, wasm)
    {
      var m := MetaAt(files, key);
      var version := if key in files.meta then m.version else 1;
      files := files.(snapshots := files.snapshots[(key, version) := Snapshot(source, wasm, m)]);
    }

    // The snapshot's binary and source, or None for a version that does not exist.
    method Rollback(key: Key, version: nat) returns (r: Option<(seq<Byte>, string)>)
      modifies this
      ensures files == RolledBack(old(files), key, version)
      ensures r == if (key, version) in old(files).snapshots
                   then var s := old(files).snapshots[(key, version)]; Some((s.wasm, s.source)) else None
    {
      if (key, version) !in files.snapshots { return None; }
      var s := files.snapshots[(key, version)];
      files := files.(wasm := files.wasm[key := s.wasm]);
      if s.source != "" { files := files.(source := files.source[key := s.source]); }
      r := Some((s.wasm, s.source));
    }

    method Check(key: Key) returns (r: Option<(seq<Byte>, Option<string>)>)
      ensures r == Checked(files, key)
    {
      if key !in files.wasm { return None; }
      var source: Option<string> := None;
      if key in files.source { source := Some(files.source[key]); }
      r := Some((files.wasm[key], source));
    }
  }

  // ---- runs ----

  datatype Op =
    | Store(key: Key, source: string, wasm: seq<Byte>, parent: Option<Key>)
    | Rollback(key: Key, version: nat)

  function Step(hash: Hash, f: Files, op: Op): Files
  {
    match op
    case Store(key, source, wasm, parent) => Stored(hash, f, key, source, wasm, parent)
    case Rollback(key, version) => RolledBack(f, key, version)
  }

  function Run(hash: Hash, ops: seq<Op>): Files
    decreases |ops|
  {
    if ops == [] then EMPTY else Step(hash, Run(hash, ops[..|ops| - 1]), ops[|ops| - 1])
  }

  // The stores under a key, in order.
  function Stores(ops: seq<Op>, key: Key): (r: seq<Op>)
    ensures forall k :: 0 <= k < |r| ==> r[k].Store? && r[k].key == key
    decreases |ops|
  {
    if ops == [] then []
    else
      var last := ops[|ops| - 1];
      Stores(ops[..|ops| - 1], key) + if last.Store? && last.key == key then [last] else []
  }

  // Version k of every key is its k-th store, for exactly the versions stored so far.
  ghost predicate History(f: Files, ops: seq<Op>) { forall key: Key, k: nat :: Version(f, ops, key, k) }

  ghost predicate Version(f: Files, ops: seq<Op>, key: Key, k: nat)
  {
    && MetaAt(f, key).version == |Stores(ops, key)|
    && ((key, k) in f.snapshots <==> 1 <= k <= |Stores(ops, key)|)
    && ((key, k) in f.snapshots ==> Records(f.snapshots[(key, k)], Stores(ops, key)[k - 1], k))
  }

  ghost predicate Records(s: Snapshot, op: Op, k: nat)
  {
    op.Store? && s.source == op.source && s.wasm == op.wasm && s.meta.version == k
  }

  lemma StepKeepsVersion(hash: Hash, f: Files, ops: seq<Op>, op: Op, key: Key, k: nat)
    requires Version(f, ops, key, k)
    ensures Version(Step(hash, f, op), ops + [op], key, k)
  {
    assert (ops + [op])[..|ops|] == ops;
  }

  lemma StepKeepsHistory(hash: Hash, f: Files, ops: seq<Op>, op: Op)
    requires History(f, ops)
    ensures History(Step(hash, f, op), ops + [op])
  {
    hide Version;
    forall key: Key, k: nat ensures Version(Step(hash, f, op), ops + [op], key, k) {
      assert Version(f, ops, key, k);
      StepKeepsVersion(hash, f, ops, op, key, k);
    }
  }

  // Over any run of stores and rollbacks, the snapshots are the stores.
  lemma {:induction false} SnapshotsAreStores(hash: Hash, ops: seq<Op>)
    ensures History(Run(hash, ops), ops)
    decreases |ops|
  {
    hide Step;
    if ops != [] {
      var init := ops[..|ops| - 1];
      SnapshotsAreStores(hash, init);
      StepKeepsHistory(hash, Run(hash, init), init, ops[|ops| - 1]);
      assert init + [ops[|ops| - 1]] == ops;
    }
  }

  // A snapshot is never overwritten, whatever follows.
  lemma {:induction false} SnapshotsStay(hash: Hash, ops: seq<Op>, more: seq<Op>, key: Key, k: nat)
    requires (key, k) in Run(hash, ops).snapshots
    ensures (key, k) in Run(hash, ops + more).snapshots
    ensures Run(hash, ops + more).snapshots[(key, k)] == Run(hash, ops).snapshots[(key, k)]
    decreases |more|
  {
    if more == [] {
      assert ops + more == ops;
    } else {
      var init := more[..|more| - 1];
      SnapshotsStay(hash, ops, init, key, k);
      SnapshotsAreStores(hash, ops + init);
      assert (ops + more)[..|ops + more| - 1] == ops + init;
      assert Version(Run(hash, ops + init), ops + init, key, k);
    }
  }

  // Rolling back to version k, after any run: the binary of the k-th store is current again, and its source too
  // unless that source is empty; any other version is refused and changes nothing.
  lemma RollbackRestores(hash: Hash, ops: seq<Op>, key: Key, k: nat)
    ensures var f := Run(hash, ops);
      var g := RolledBack(f, key, k);
      if 1 <= k <= |Stores(ops, key)| then
        var store := Stores(ops, key)[k - 1];
        && store.Store? && Checked(g, key).Some? && Checked(g, key).value.0 == store.wasm
        && (Checked(g, key).value.1 == Some(store.source) <==>
            store.source != "" || (key in f.source && f.source[key] == ""))
        && g.meta == f.meta && g.snapshots == f.snapshots
      else g == f
  {
    SnapshotsAreStores(hash, ops);
    var f := Run(hash, ops);
    assert Version(f, ops, key, k);
  }

  // ---- what is current ----

  // Operation i stores under the key, or rolls it back to a version that was stored before.
  predicate SetsBinary(ops: seq<Op>, key: Key, i: nat)
    requires i < |ops|
  {
    ops[i].key == key && (ops[i].Rollback? ==> 1 <= ops[i].version <= |Stores(ops[..i], key)|)
  }

  // The store whose files it makes current.
  function Restored(ops: seq<Op>, key: Key, i: nat): (r: Op)
    requires i < |ops| && SetsBinary(ops, key, i)
    ensures r.Store?
  {
    if ops[i].Store? then ops[i] else Stores(ops[..i], key)[ops[i].version - 1]
  }

  // A rollback to an empty source does not set the source.
  predicate SetsSource(ops: seq<Op>, key: Key, i: nat)
    requires i < |ops|
  {
    SetsBinary(ops, key, i) && (ops[i].Rollback? ==> Restored(ops, key, i).source != "")
  }

  lemma PrefixSets(ops: seq<Op>, key: Key, i: nat, n: nat)
    requires i < n <= |ops|
    ensures SetsBinary(ops[..n], key, i) <==> SetsBinary(ops, key, i)
    ensures SetsBinary(ops, key, i) ==> Restored(ops[..n], key, i) == Restored(ops, key, i)
    ensures SetsSource(ops[..n], key, i) <==> SetsSource(ops, key, i)
  {
    hide Stores;
    assert ops[..n][..i] == ops[..i];
  }

  // What the last operation of a run does to the files of a key.
  lemma LastSets(hash: Hash, ops: seq<Op>, key: Key)
    requires ops != []
    ensures var f, g, i := Run(hash, ops[..|ops| - 1]), Run(hash, ops), |ops| - 1;
      && (if SetsBinary(ops, key, i) then key in g.wasm && g.wasm[key] == Restored(ops, key, i).wasm
          else (key in g.wasm <==> key in f.wasm) && (key in f.wasm ==> g.wasm[key] == f.wasm[key]))
      && (if SetsSource(ops, key, i) then key in g.source && g.source[key] == Restored(ops, key, i).source
          else (key in g.source <==> key in f.source) && (key in f.source ==> g.source[key] == f.source[key]))
  {
    hide Stores, Updated;
    var init, last := ops[..|ops| - 1], ops[|ops| - 1];
    var f := Run(hash, init);
    assert Run(hash, ops) == Step(hash, f, last);
    hide Run;
    if last.Rollback? && last.key == key {
      SnapshotsAreStores(hash, init);
      assert Version(f, init, key, last.version);
    }
  }

  // After any run the current binary is that of the last store of the key, or of the store last rolled back to,
  // whichever came later.
  lemma {:induction false} CurrentBinary(hash: Hash, ops: seq<Op>, key: Key, i: nat)
    requires i < |ops| && SetsBinary(ops, key, i) && forall j :: i < j < |ops| ==> !SetsBinary(ops, key, j)
    ensures Checked(Run(hash, ops), key).Some?
    ensures Checked(Run(hash, ops), key).value.0 == Restored(ops, key, i).wasm
    decreases |ops|
  {
    hide Stores, SetsBinary, Restored, Run;
    LastSets(hash, ops, key);
    if i < |ops| - 1 {
      var n := |ops| - 1;
      forall j | i <= j < n ensures SetsBinary(ops[..n], key, j) <==> SetsBinary(ops, key, j) {
        PrefixSets(ops, key, j, n);
      }
      PrefixSets(ops, key, i, n);
      CurrentBinary(hash, ops[..n], key, i);
    }
  }

  // And the current source likewise, but for rollbacks to an empty source.
  lemma {:induction false} CurrentSource(hash: Hash, ops: seq<Op>, key: Key, i: nat)
    requires i < |ops| && SetsSource(ops, key, i) && forall j :: i < j < |ops| ==> !SetsSource(ops, key, j)
    ensures Checked(Run(hash, ops), key).Some?
    ensures Checked(Run(hash, ops), key).value.1 == Some(Restored(ops, key, i).source)
    decreases |ops|
  {
    hide Stores, SetsBinary, SetsSource, Restored, Run;
    LastSets(hash, ops, key);
    SourceSetsBinary(ops, key, i);
    if i < |ops| - 1 {
      var n := |ops| - 1;
      forall j | i <= j < n ensures SetsSource(ops[..n], key, j) <==> SetsSource(ops, key, j) {
        PrefixSets(ops, key, j, n);
      }
      PrefixSets(ops, key, i, n);
      CurrentSource(hash, ops[..n], key, i);
    }
  }

  lemma SourceSetsBinary(ops: seq<Op>, key: Key, i: nat)
    requires i < |ops| && SetsSource(ops, key, i)
    ensures SetsBinary(ops, key, i)
  {
  }

  // A key misses exactly when it was never stored.
  lemma {:induction false} MissIff(hash: Hash, ops: seq<Op>, key: Key)
    ensures Checked(Run(hash, ops), key) == None <==> Stores(ops, key) == []
    decreases |ops|
  {
    hide Run;
    if ops == [] {
      assert Run(hash, ops) == EMPTY by { RunNothing(hash); }
    } else {
      var init, last := ops[..|ops| - 1], ops[|ops| - 1];
      LastSets(hash, ops, key);
      MissIff(hash, init, key);
      assert ops[..|init|] == init;
    }
  }

  lemma RunNothing(hash: Hash)
    ensures Run(hash, []) == EMPTY
  {
  }

  // For instance an app stored with an empty source and then with another: rolling back pairs the old binary with
  // the new source.
  lemma EmptySourceStays(hash: Hash)
    ensures Checked(Run(hash, [Store("a", "", [1], None), Store("a", "x", [2], None), Rollback("a", 1)]), "a") ==
      Some(([1], Some("x")))
  {
    var one, two, three := Store("a", "", [1], None), Store("a", "x", [2], None), Rollback("a", 1);
    assert [one, two, three][..2] == [one, two] && [one, two][..1] == [one] && [one][..0] == [];
    assert Run(hash, []) == EMPTY;
    assert Run(hash, [one]) == Step(hash, EMPTY, one);
    assert Run(hash, [one, two]) == Step(hash, Run(hash, [one]), two);
  }

  // A snapshot saved on its own is the one that a rollback to the current version finds, or to version 1 when there is
  // no metadata.
  lemma SavedFound(f: Files, key: Key, source: string, wasm: seq<Byte>)
    ensures var g, v := Saved(f, key, source, wasm), if key in f.meta then f.meta[key].version else 1;
      && (key, v) in g.snapshots && g.snapshots[(key, v)] == Snapshot(source, wasm, MetaAt(f, key))
      && Checked(RolledBack(g, key, v), key).Some? && Checked(RolledBack(g, key, v), key).value.0 == wasm
      && (forall w :: w in f.snapshots && w != (key, v) ==> w in g.snapshots && g.snapshots[w] == f.snapshots[w])
      && g.source == f.source && g.wasm == f.wasm && g.meta == f.meta
  {
  }

  // ---- metadata, told from the operations ----

  // The last store of the key.
  function LastStore(ops: seq<Op>, key: Key): (r: Option<nat>)
    ensures r.Some? ==> r.value < |ops| && ops[r.value].Store? && ops[r.value].key == key
    ensures forall j :: (if r.Some? then r.value + 1 else 0) <= j < |ops| ==> !(ops[j].Store? && ops[j].key == key)
    decreases |ops|
  {
    if ops == [] then None
    else
      var init, last := ops[..|ops| - 1], ops[|ops| - 1];
      if last.Store? && last.key == key then Some(|ops| - 1) else LastStore(init, key)
  }

  // The run up to the store that was the parent's last when the last operation of the run stored its child.
  function ParentRun(ops: seq<Op>): (r: Option<seq<Op>>)
    requires ops != [] && ops[|ops| - 1].Store? && ops[|ops| - 1].parent.Some?
    ensures r.Some? ==> r.value != [] && |r.value| < |ops| && r.value[|r.value| - 1].Store?
  {
    var j := LastStore(ops[..|ops| - 1], ops[|ops| - 1].parent.value);
    if j.Some? then Some(ops[..j.value + 1]) else None
  }

  function IdOf(hash: Hash, ops: seq<Op>): string
    requires ops != [] && ops[|ops| - 1].Store?
  {
    hash(ops[|ops| - 1].source)
  }

  // The ids of the ancestors of the app last stored, the oldest first; a parent that was never stored has none.
  function Ancestors(hash: Hash, ops: seq<Op>): (r: seq<string>)
    requires ops != [] && ops[|ops| - 1].Store?
    decreases |ops|
  {
    if ops[|ops| - 1].parent == None then []
    else match ParentRun(ops)
      case None => [""]
      case Some(p) => Ancestors(hash, p) + [IdOf(hash, p)]
  }

  // The oldest of them that has an id, in place of an app without parent its own.
  function RootOf(hash: Hash, ops: seq<Op>): string
    requires ops != [] && ops[|ops| - 1].Store?
    decreases |ops|
  {
    if ops[|ops| - 1].parent == None then IdOf(hash, ops)
    else match ParentRun(ops)
      case None => ""
      case Some(p) => if RootOf(hash, p) != "" then RootOf(hash, p) else IdOf(hash, p)
  }

  // The key was stored with a parent.
  ghost predicate Branched(ops: seq<Op>, key: Key)
  {
    exists i :: 0 <= i < |ops| && ops[i].Store? && ops[i].key == key && ops[i].parent.Some?
  }

  ghost predicate Tells(hash: Hash, m: Meta, ops: seq<Op>)
    requires ops != [] && ops[|ops| - 1].Store?
  {
    m.id == IdOf(hash, ops) && m.lineage == Ancestors(hash, ops) && m.rootId == RootOf(hash, ops)
  }

  // Metadata written by the last operation of the run.
  ghost predicate Describes(hash: Hash, m: Meta, ops: seq<Op>)
    requires ops != [] && ops[|ops| - 1].Store?
  {
    && Tells(hash, m, ops)
    && m.parentId == (if m.lineage == [] then "" else m.lineage[|m.lineage| - 1])
    && m.branch == (if Branched(ops, ops[|ops| - 1].key) then "main" else "")
  }

  ghost predicate MetaKept(hash: Hash, f: Files, ops: seq<Op>, key: Key)
  {
    match LastStore(ops, key)
    case None => key !in f.meta
    case Some(j) => key in f.meta && Describes(hash, f.meta[key], ops[..j + 1])
  }

  lemma BranchedUpTo(ops: seq<Op>, key: Key)
    requires LastStore(ops, key).Some?
    ensures Branched(ops[..LastStore(ops, key).value + 1], key) <==> Branched(ops, key)
  {
    var r := ops[..LastStore(ops, key).value + 1];
    if Branched(r, key) {
      var i :| 0 <= i < |r| && r[i].Store? && r[i].key == key && r[i].parent.Some?;
      assert ops[i] == r[i];
    }
    if Branched(ops, key) {
      var i :| 0 <= i < |ops| && ops[i].Store? && ops[i].key == key && ops[i].parent.Some?;
      assert r[i] == ops[i];
    }
  }

  lemma NotBranched(ops: seq<Op>, key: Key)
    requires LastStore(ops, key).None?
    ensures !Branched(ops, key)
  {
  }

  lemma BranchedSnoc(ops: seq<Op>, key: Key)
    requires ops != [] && ops[|ops| - 1].Store? && ops[|ops| - 1].key == key
    ensures Branched(ops, key) <==> Branched(ops[..|ops| - 1], key) || ops[|ops| - 1].parent.Some?
  {
    var init := ops[..|ops| - 1];
    if Branched(init, key) {
      var i :| 0 <= i < |init| && init[i].Store? && init[i].key == key && init[i].parent.Some?;
      assert ops[i] == init[i];
    }
    if Branched(ops, key) {
      var i :| 0 <= i < |ops| && ops[i].Store? && ops[i].key == key && ops[i].parent.Some?;
      assert i < |init| ==> init[i] == ops[i];
    }
  }

  // What the metadata of a key says before a store.
  lemma MetaBefore(hash: Hash, f: Files, ops: seq<Op>, key: Key)
    requires MetaKept(hash, f, ops, key)
    ensures MetaAt(f, key).branch == if Branched(ops, key) then "main" else ""
    ensures match LastStore(ops, key)
      case None => MetaAt(f, key) == BLANK
      case Some(j) => Tells(hash, MetaAt(f, key), ops[..j + 1])
  {
    hide Branched, Tells, LastStore;
    if LastStore(ops, key).Some? { BranchedUpTo(ops, key); } else { NotBranched(ops, key); }
  }

  lemma StoreDescribes(hash: Hash, f: Files, ops: seq<Op>)
    requires ops != [] && ops[|ops| - 1].Store?
    requires var init, last := ops[..|ops| - 1], ops[|ops| - 1];
      MetaKept(hash, f, init, last.key) && (last.parent.Some? ==> MetaKept(hash, f, init, last.parent.value))
    ensures var last := ops[|ops| - 1];
      var parent := if last.parent == None then None else Some(MetaAt(f, last.parent.value));
      Describes(hash, Updated(hash, MetaAt(f, last.key), last.source, parent), ops)
  {
    hide Branched, LastStore, MetaKept, Tells;
    var init, last := ops[..|ops| - 1], ops[|ops| - 1];
    MetaBefore(hash, f, init, last.key);
    BranchedSnoc(ops, last.key);
    if last.parent.Some? {
      MetaBefore(hash, f, init, last.parent.value);
      ChildTells(hash, ops, MetaAt(f, last.key), MetaAt(f, last.parent.value));
    } else {
      RootTells(hash, ops, MetaAt(f, last.key));
    }
  }

  lemma RootTells(hash: Hash, ops: seq<Op>, m: Meta)
    requires ops != [] && ops[|ops| - 1].Store? && ops[|ops| - 1].parent.None?
    ensures Tells(hash, Updated(hash, m, ops[|ops| - 1].source, None), ops)
  {
  }

  lemma ChildTells(hash: Hash, ops: seq<Op>, m: Meta, parent: Meta)
    requires ops != [] && ops[|ops| - 1].Store? && ops[|ops| - 1].parent.Some?
    requires match LastStore(ops[..|ops| - 1], ops[|ops| - 1].parent.value)
      case None => parent == BLANK
      case Some(j) => Tells(hash, parent, ops[..|ops| - 1][..j + 1])
    ensures Tells(hash, Updated(hash, m, ops[|ops| - 1].source, Some(parent)), ops)
  {
    hide LastStore;
    var init := ops[..|ops| - 1];
    var j := LastStore(init, ops[|ops| - 1].parent.value);
    if j.Some? { assert init[..j.value + 1] == ops[..j.value + 1]; }
  }

  // Over any run the metadata of a key tells the ancestry of its last store.
  lemma {:induction false} MetaTold(hash: Hash, ops: seq<Op>, key: Key)
    ensures MetaKept(hash, Run(hash, ops), ops, key)
    decreases |ops|
  {
    hide Describes, Updated;
    if ops != [] {
      var init, last := ops[..|ops| - 1], ops[|ops| - 1];
      var f := Run(hash, init);
      MetaTold(hash, init, key);
      if last.Store? && last.key == key {
        if last.parent.Some? { MetaTold(hash, init, last.parent.value); }
        StoreDescribes(hash, f, ops);
        assert ops[..|ops|] == ops;
      } else {
        var j := LastStore(init, key);
        if j.Some? { assert init[..j.value + 1] == ops[..j.value + 1]; }
      }
    }
  }

  // ---- lineage ----

  // A root app has itself as root and no ancestors; any other starts at the root and ends at the parent.
  predicate Lineal(m: Meta)
  {
    && m.id != "" && m.rootId != ""
    && if m.lineage == [] then m.rootId == m.id && m.parentId == ""
       else m.lineage[0] == m.rootId && m.lineage[|m.lineage| - 1] == m.parentId
  }

  ghost predicate Named(hash: Hash) { forall source :: hash(source) != "" }

  // Storing keeps the lineage in order exactly when the parent, if one is given, has been stored.
  lemma StoreLinealIff(hash: Hash, f: Files, key: Key, source: string, wasm: seq<Byte>, parent: Option<Key>)
    requires Named(hash) && forall k :: k in f.meta ==> Lineal(f.meta[k])
    ensures Lineal(Stored(hash, f, key, source, wasm, parent).meta[key]) <==> parent == None || parent.value in f.meta
  {
  }

  // Every parent named by a store has a store before it.
  ghost predicate ParentsFirst(ops: seq<Op>)
  {
    forall i :: 0 <= i < |ops| && ops[i].Store? && ops[i].parent.Some? ==> Stores(ops[..i], ops[i].parent.value) != []
  }

  // Every lineage ever recorded is in order.
  ghost predicate AllLineal(f: Files) { forall v :: v in f.snapshots ==> Lineal(f.snapshots[v].meta) }

  // The metadata of a key is that of its newest snapshot.
  ghost predicate Newest(f: Files)
  {
    forall key :: key in f.meta ==>
      (key, f.meta[key].version) in f.snapshots && f.snapshots[(key, f.meta[key].version)].meta == f.meta[key]
  }

  lemma {:induction false} MetaIsNewest(hash: Hash, ops: seq<Op>)
    ensures Newest(Run(hash, ops))
    decreases |ops|
  {
    if ops != [] { MetaIsNewest(hash, ops[..|ops| - 1]); }
  }

  lemma StoredIffStores(hash: Hash, ops: seq<Op>, key: Key)
    ensures key in Run(hash, ops).meta <==> Stores(ops, key) != []
  {
    hide Stores, Run;
    SnapshotsAreStores(hash, ops);
    var f := Run(hash, ops);
    assert Version(f, ops, key, 0);
    if key in f.meta { VersionsCount(hash, ops, key); }
  }

  lemma {:induction false} VersionsCount(hash: Hash, ops: seq<Op>, key: Key)
    requires key in Run(hash, ops).meta
    ensures Run(hash, ops).meta[key].version >= 1
    decreases |ops|
  {
    var init := ops[..|ops| - 1];
    if key in Run(hash, init).meta { VersionsCount(hash, init, key); }
  }

  lemma ParentsFirstSnoc(ops: seq<Op>)
    requires ops != []
    ensures var init, last := ops[..|ops| - 1], ops[|ops| - 1];
      ParentsFirst(ops) <==>
        ParentsFirst(init) && (last.Store? && last.parent.Some? ==> Stores(init, last.parent.value) != [])
  {
    hide Stores;
    var init := ops[..|ops| - 1];
    forall i | 0 <= i < |init| ensures init[i] == ops[i] && init[..i] == ops[..i] {}
  }

  // A store adds one snapshot, whose version is new.
  lemma StoreAddsLineage(hash: Hash, f: Files, ops: seq<Op>, op: Op)
    requires op.Store? && History(f, ops)
    ensures var g := Step(hash, f, op);
      op.key in g.meta && (AllLineal(g) <==> AllLineal(f) && Lineal(g.meta[op.key]))
  {
    hide Lineal, Stores, Updated;
    var g, m := Step(hash, f, op), MetaAt(f, op.key);
    NewVersion(hash, f, op);
    var v := (op.key, m.version + 1);
    assert Version(f, ops, op.key, m.version + 1);
    assert g.snapshots[v].meta == g.meta[op.key];
    if AllLineal(g) {
      forall w | w in f.snapshots ensures Lineal(f.snapshots[w].meta) { assert w in g.snapshots; }
    }
  }

  lemma NewVersion(hash: Hash, f: Files, op: Op)
    requires op.Store?
    ensures var g := Step(hash, f, op); op.key in g.meta && g.meta[op.key].version == MetaAt(f, op.key).version + 1
  {
  }

  lemma LinealMetas(f: Files)
    requires Newest(f) && AllLineal(f)
    ensures forall key :: key in f.meta ==> Lineal(f.meta[key])
  {
  }

  // Over any run, every lineage ever recorded is in order exactly when every parent was stored before its child.
  lemma {:induction false} RunLinealIff(hash: Hash, ops: seq<Op>)
    requires Named(hash)
    ensures AllLineal(Run(hash, ops)) <==> ParentsFirst(ops)
    decreases |ops|
  {
    hide Stores, Lineal, ParentsFirst, History, AllLineal, Newest, Stored;
    if ops == [] {
      NothingRecorded();
    } else {
      var init, last := ops[..|ops| - 1], ops[|ops| - 1];
      var f := Run(hash, init);
      RunLinealIff(hash, init);
      ParentsFirstSnoc(ops);
      SnapshotsAreStores(hash, init);
      MetaIsNewest(hash, init);
      if last.Store? {
        StoreAddsLineage(hash, f, init, last);
        if last.parent.Some? { StoredIffStores(hash, init, last.parent.value); }
        if AllLineal(f) {
          LinealMetas(f);
          StoreLinealIff(hash, f, last.key, last.source, last.wasm, last.parent);
        }
      } else {
        RollbackKeepsLineage(f, last.key, last.version);
      }
    }
  }

  lemma NothingRecorded()
    ensures AllLineal(EMPTY) && ParentsFirst([])
  {
  }

  lemma RollbackKeepsLineage(f: Files, key: Key, version: nat)
    ensures AllLineal(RolledBack(f, key, version)) <==> AllLineal(f)
  {
  }

  // For instance the grandchild of an app that was never stored: its lineage does not start at its root.
  lemma OrphanGrandchild(hash: Hash)
    requires Named(hash)
    ensures var f := Run(hash, [Store("b", "b", [1], Some("a")), Store("c", "c", [2], Some("b"))]);
      "c" in f.meta && f.meta["c"].lineage == ["", hash("b")] && f.meta["c"].rootId == hash("b") != ""
  {
    var one, two := Store("b", "b", [1], Some("a")), Store("c", "c", [2], Some("b"));
    assert [one, two][..1] == [one] && [one][..0] == [];
    assert Run(hash, []) == EMPTY;
    assert Run(hash, [one]) == Step(hash, EMPTY, one);
    assert Run(hash, [one]).meta["b"].lineage == [""];
  }
}
