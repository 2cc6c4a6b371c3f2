/**
 Cluster chains over a FAT seen as a table of links: what it means to be the chain of a file, and
 what growing and truncating a chain do to it, to the other chains and to the free clusters.
 */
module FatChain {

  type Table = seq<nat>

  const END_OF_CHAIN: nat := 0x0FFFFFF8

  // A value that the chain walk follows.
  predicate IsLink(v: nat) { 2 <= v < END_OF_CHAIN }

  // `chain` is the whole list of clusters of an allocated file that starts at `start`.
  ghost predicate IsChain(fat: Table, start: nat, chain: seq<nat>)
  {
    && |fat| <= END_OF_CHAIN
    && |chain| > 0 && chain[0] == start
    && (forall i :: 0 <= i < |chain| ==> 2 <= chain[i] < |fat|)
    && (forall i :: 0 <= i < |chain| - 1 ==> fat[chain[i]] == chain[i + 1])
    && fat[chain[|chain| - 1]] != 0
    && !IsLink(fat[chain[|chain| - 1]])
  }

  ghost predicate Distinct(s: seq<nat>)
  {
    forall i, j :: 0 <= i < j < |s| ==> s[i] != s[j]
  }

  ghost function Clusters(s: seq<nat>): set<nat> { set c | c in s }

  ghost function FreeSet(fat: Table): set<nat> { set c | 2 <= c < |fat| && fat[c] == 0 }

  ghost function FreeCount(fat: Table): nat { |FreeSet(fat)| }

  // A free-list: distinct, in range, unused.
  ghost predicate IsFreeList(fat: Table, free: seq<nat>)
  {
    && Distinct(free)
    && (forall i :: 0 <= i < |free| ==> 2 <= free[i] < |fat| && fat[free[i]] == 0)
  }

  // A run of clusters in use.
  ghost predicate Allocated(fat: Table, chain: seq<nat>)
  {
    && |chain| > 0 && Distinct(chain)
    && (forall i :: 0 <= i < |chain| ==> 2 <= chain[i] < |fat| && fat[chain[i]] != 0)
  }

  // A run of clusters in use, each linked to the next: a chain, or the beginning of one.
  ghost predicate IsRun(fat: Table, run: seq<nat>)
  {
    |fat| <= END_OF_CHAIN && Allocated(fat, run) && forall i :: 0 <= i < |run| - 1 ==> fat[run[i]] == run[i + 1]
  }

  // ---- chains are determined by the table and never loop ----

  lemma {:induction false} ChainUnique(fat: Table, start: nat, a: seq<nat>, b: seq<nat>)
    requires IsChain(fat, start, a) && IsChain(fat, start, b)
    ensures a == b
    decreases |a|
  {
    if |a| == 1 {
      if |b| > 1 { assert IsLink(b[1]); }
    } else {
      assert IsLink(a[1]);
      assert |b| > 1;
      TailIsChain(fat, a);
      TailIsChain(fat, b);
      ChainUnique(fat, a[1], a[1..], b[1..]);
      assert a == [a[0]] + a[1..] && b == [b[0]] + b[1..];
    }
  }

  lemma TailIsChain(fat: Table, a: seq<nat>)
    requires |a| > 1 && IsChain(fat, a[0], a)
    ensures IsChain(fat, a[1], a[1..])
  {
    var t := a[1..];
    forall i | 0 <= i < |t| - 1 ensures fat[t[i]] == t[i + 1] { assert t[i] == a[i + 1]; }
  }

  lemma {:induction false} SuffixIsChain(fat: Table, a: seq<nat>, i: nat)
    requires |a| > 0 && IsChain(fat, a[0], a) && i < |a|
    ensures IsChain(fat, a[i], a[i..])
  {
    var t := a[i..];
    forall j | 0 <= j < |t| - 1 ensures fat[t[j]] == t[j + 1] { assert t[j] == a[i + j]; }
  }

  // A chain that ends has no cycle: no cluster occurs twice.
  lemma ChainAcyclic(fat: Table, start: nat, chain: seq<nat>)
    requires IsChain(fat, start, chain)
    ensures Distinct(chain)
  {
    forall i, j | 0 <= i < j < |chain| ensures chain[i] != chain[j] {
      if chain[i] == chain[j] {
        SuffixIsChain(fat, chain, i);
        SuffixIsChain(fat, chain, j);
        ChainUnique(fat, chain[i], chain[i..], chain[j..]);
        assert false;
      }
    }
  }

  lemma ChainAllocated(fat: Table, start: nat, chain: seq<nat>)
    requires IsChain(fat, start, chain)
    ensures Allocated(fat, chain)
  {
    ChainAcyclic(fat, start, chain);
    forall i | 0 <= i < |chain| ensures 2 <= chain[i] < |fat| && fat[chain[i]] != 0 {
      if i < |chain| - 1 { assert fat[chain[i]] == chain[i + 1]; }
    }
  }

  lemma PrefixIsRun(fat: Table, start: nat, chain: seq<nat>, k: nat)
    requires IsChain(fat, start, chain) && 0 < k <= |chain|
    ensures IsRun(fat, chain[..k])
  {
    ChainAllocated(fat, start, chain);
  }

  lemma {:induction false} DistinctCardinality(s: seq<nat>)
    requires Distinct(s)
    ensures |Clusters(s)| == |s|
  {
    if s != [] {
      var t := s[..|s| - 1];
      DistinctCardinality(t);
      assert s == t + [s[|s| - 1]];
      assert Clusters(s) == Clusters(t) + {s[|s| - 1]};
      assert s[|s| - 1] !in Clusters(t);
    }
  }

  // ---- table updates made by the injector ----

  // Every cluster of `free` points to the next one, the last one ends the chain.
  function LinkRun(fat: Table, free: seq<nat>): (r: Table)
    requires forall i :: 0 <= i < |free| ==> free[i] < |fat|
    ensures |r| == |fat|
    decreases |free|
  {
    if |free| == 0 then fat
    else if |free| == 1 then fat[free[0] := END_OF_CHAIN]
    else LinkRun(fat[free[0] := free[1]], free[1..])
  }

  function FreeAll(fat: Table, cs: seq<nat>): (r: Table)
    requires forall i :: 0 <= i < |cs| ==> cs[i] < |fat|
    ensures |r| == |fat|
    decreases |cs|
  {
    if |cs| == 0 then fat else FreeAll(fat[cs[0] := 0], cs[1..])
  }

  function Grown(fat: Table, chain: seq<nat>, free: seq<nat>): (r: Table)
    requires |chain| > 0 && |free| > 0
    requires chain[|chain| - 1] < |fat| && forall i :: 0 <= i < |free| ==> free[i] < |fat|
  {
    LinkRun(fat[chain[|chain| - 1] := free[0]], free)
  }

  function Shrunk(fat: Table, chain: seq<nat>, need: nat): (r: Table)
    requires 0 < need <= |chain| && forall i :: 0 <= i < |chain| ==> chain[i] < |fat|
  {
    FreeAll(fat[chain[need - 1] := END_OF_CHAIN], chain[need..])
  }

  lemma {:induction false} LinkRunAt(fat: Table, free: seq<nat>)
    requires Distinct(free) && forall i :: 0 <= i < |free| ==> free[i] < |fat|
    ensures forall c :: 0 <= c < |fat| && c !in free ==> LinkRun(fat, free)[c] == fat[c]
    ensures forall i :: 0 <= i < |free| - 1 ==> LinkRun(fat, free)[free[i]] == free[i + 1]
    ensures |free| > 0 ==> LinkRun(fat, free)[free[|free| - 1]] == END_OF_CHAIN
    decreases |free|
  {
    if |free| > 1 {
      var t, fat1 := free[1..], fat[free[0] := free[1]];
      LinkRunAt(fat1, t);
      var r := LinkRun(fat1, t);
      assert free[0] !in t;
      forall i | 0 <= i < |free| - 1 ensures r[free[i]] == free[i + 1] {
        if i > 0 { assert t[i - 1] == free[i] && t[i] == free[i + 1]; }
      }
      forall c | 0 <= c < |fat| && c !in free ensures r[c] == fat[c] {
        assert c != free[0];
        assert c !in t;
      }
      assert t[|t| - 1] == free[|free| - 1];
    }
  }

  lemma {:induction false} FreeAllAt(fat: Table, cs: seq<nat>)
    requires forall i :: 0 <= i < |cs| ==> cs[i] < |fat|
    ensures forall c :: 0 <= c < |fat| ==> FreeAll(fat, cs)[c] == if c in cs then 0 else fat[c]
    decreases |cs|
  {
    if |cs| > 0 {
      FreeAllAt(fat[cs[0] := 0], cs[1..]);
      assert forall c :: c in cs <==> c == cs[0] || c in cs[1..];
    }
  }

  // ---- growing ----

  lemma GrownAt(fat: Table, chain: seq<nat>, free: seq<nat>)
    requires Allocated(fat, chain) && IsFreeList(fat, free) && |free| > 0
    ensures forall c :: 0 <= c < |fat| && c != chain[|chain| - 1] && c !in free ==> Grown(fat, chain, free)[c] == fat[c]
    ensures Grown(fat, chain, free)[chain[|chain| - 1]] == free[0]
    ensures forall i :: 0 <= i < |free| - 1 ==> Grown(fat, chain, free)[free[i]] == free[i + 1]
    ensures Grown(fat, chain, free)[free[|free| - 1]] == END_OF_CHAIN
  {
    var last := chain[|chain| - 1];
    assert last !in free;
    LinkRunAt(fat[last := free[0]], free);
  }

  // Growing any run gives a complete chain: what the run went on with is cut off.
  lemma GrownIsChain(fat: Table, chain: seq<nat>, free: seq<nat>)
    requires IsRun(fat, chain) && IsFreeList(fat, free) && |free| > 0
    ensures IsChain(Grown(fat, chain, free), chain[0], chain + free)
  {
    GrownAt(fat, chain, free);
    var r, whole, n := Grown(fat, chain, free), chain + free, |chain|;
    forall i | 0 <= i < |whole| - 1 ensures r[whole[i]] == whole[i + 1] {
      if i < n - 1 {
        assert fat[chain[i]] == chain[i + 1];
        assert chain[i] !in free;
      } else if i >= n {
        assert whole[i] == free[i - n];
      }
    }
  }

  lemma GrownFreeCount(fat: Table, chain: seq<nat>, free: seq<nat>)
    requires Allocated(fat, chain) && IsFreeList(fat, free) && |free| > 0
    ensures Clusters(free) <= FreeSet(fat)
    ensures FreeSet(Grown(fat, chain, free)) == FreeSet(fat) - Clusters(free)
    ensures FreeCount(Grown(fat, chain, free)) == FreeCount(fat) - |free|
  {
    GrownAt(fat, chain, free);
    DistinctCardinality(free);
    var r := Grown(fat, chain, free);
    forall c | 2 <= c < |fat| ensures r[c] == 0 <==> fat[c] == 0 && c !in free {
      if c in free {
        var i :| 0 <= i < |free| && free[i] == c;
        assert r[c] == if i < |free| - 1 then free[i + 1] else END_OF_CHAIN;
      }
    }
    assert FreeSet(r) == FreeSet(fat) - Clusters(free);
  }

  // ---- truncating ----

  lemma ShrunkAt(fat: Table, chain: seq<nat>, need: nat)
    requires Allocated(fat, chain) && 0 < need <= |chain|
    ensures forall c :: 0 <= c < |fat| ==>
      Shrunk(fat, chain, need)[c] ==
      if c in chain[need..] then 0 else if c == chain[need - 1] then END_OF_CHAIN else fat[c]
  {
    FreeAllAt(fat[chain[need - 1] := END_OF_CHAIN], chain[need..]);
  }

  lemma ShrunkIsChain(fat: Table, chain: seq<nat>, need: nat)
    requires IsRun(fat, chain) && 0 < need <= |chain|
    ensures IsChain(Shrunk(fat, chain, need), chain[0], chain[..need])
  {
    ShrunkAt(fat, chain, need);
    var r, kept := Shrunk(fat, chain, need), chain[..need];
    assert forall i :: 0 <= i < need ==> kept[i] !in chain[need..];
    assert kept[need - 1] == chain[need - 1];
  }

  lemma ShrunkFreeCount(fat: Table, chain: seq<nat>, need: nat)
    requires Allocated(fat, chain) && 0 < need <= |chain|
    ensures FreeSet(Shrunk(fat, chain, need)) == FreeSet(fat) + Clusters(chain[need..])
    ensures FreeCount(Shrunk(fat, chain, need)) == FreeCount(fat) + |chain| - need
  {
    ShrunkAt(fat, chain, need);
    var tail, r := chain[need..], Shrunk(fat, chain, need);
    DistinctCardinality(tail);
    forall c | 2 <= c < |fat| ensures r[c] == 0 <==> fat[c] == 0 || c in tail {
    }
    assert FreeSet(r) == FreeSet(fat) + Clusters(tail);
    assert FreeSet(fat) !! Clusters(tail);
  }

  // A chain none of whose links changed is still a chain.
  lemma ChainKept(fat: Table, fat': Table, start: nat, chain: seq<nat>)
    requires IsChain(fat, start, chain) && |fat'| == |fat|
    requires forall c :: c in chain ==> 2 <= c < |fat| && fat'[c] == fat[c]
    ensures IsChain(fat', start, chain)
  {
    forall i | 0 <= i < |chain| - 1 ensures fat'[chain[i]] == chain[i + 1] { assert chain[i] in chain; }
  }
}
