/**
 The two loops that read the FAT: the bounded walk along a chain and the search for free clusters.
 Both work through a reader, which raises (None) past the end of the image; neither knows how many
 clusters the volume has.
 */
module FatWalk {
  import opened Bytes
  import opened FatChain

  // What an operation of the injector ends in: a value, the "no free clusters" exit or an exception.
  datatype Result<+T> = Ok(value: T) | NoFreeClusters | Raised

  const SEARCH_LIMIT: nat := 0x0FFFFFF0
  const WALK_LIMIT: nat := 100001

  type Reader = nat -> Option<nat>

  // The reader gives the entries of table t.
  ghost predicate Reads(read: Reader, t: Table) { forall c :: 0 <= c < |t| ==> read(c) == Some(t[c]) }

  // The walk from cluster `c` with room for `room` more clusters.
  function Walk(read: Reader, c: nat, room: nat): (r: Option<seq<nat>>)
    requires room >= 1
    ensures r.Some? ==> |r.value| <= room && forall i :: 0 <= i < |r.value| ==> IsLink(r.value[i])
    decreases room
  {
    if !IsLink(c) then Some([])
    else match read(c)
      case None => None
      case Some(v) =>
        if room == 1 then Some([c])
        else match Walk(read, v, room - 1)
          case None => None
          case Some(rest) => Some([c] + rest)
  }

  // `want` more free clusters, looking from cluster `c` upwards. The bound of the search is checked after
  // each probe, so the last cluster below it cannot complete a list.
  function Search(read: Reader, c: nat, want: nat): (r: Result<seq<nat>>)
    requires 2 <= c <= SEARCH_LIMIT
    ensures r.Ok? ==> |r.value| == want && forall i :: 0 <= i < want ==> c <= r.value[i] < SEARCH_LIMIT
    decreases SEARCH_LIMIT - c
  {
    if want == 0 then Ok([])
    else match read(c)
      case None => Raised
      case Some(v) =>
        if c + 1 > SEARCH_LIMIT then NoFreeClusters
        else if v == 0 then
          match Search(read, c + 1, want - 1)
          case Ok(rest) => Ok([c] + rest)
          case NoFreeClusters => NoFreeClusters
          case Raised => Raised
        else Search(read, c + 1, want)
  }

  // ---- on a table ----

  function Cut(chain: seq<nat>, room: nat): seq<nat> { if |chain| <= room then chain else chain[..room] }

  lemma CutStep(chain: seq<nat>, room: nat)
    requires |chain| >= 1 && room >= 1
    ensures Cut(chain, room) == [chain[0]] + Cut(chain[1..], room - 1)
  {
  }

  lemma CutEnd(chain: seq<nat>, room: nat)
    requires |chain| >= 1 && room >= 1 && (|chain| == 1 || room == 1)
    ensures Cut(chain, room) == [chain[0]]
  {
  }

  lemma ChainHead(t: Table, chain: seq<nat>)
    requires |chain| > 0 && IsChain(t, chain[0], chain)
    ensures IsLink(chain[0]) && chain[0] < |t|
    ensures if |chain| > 1 then t[chain[0]] == chain[1] else !IsLink(t[chain[0]])
  {
  }

  // The walk returns the file's chain, cut off after `room` clusters.
  lemma {:induction false} WalkIsChain(read: Reader, t: Table, chain: seq<nat>, room: nat)
    requires Reads(read, t) && room >= 1 && |chain| > 0 && IsChain(t, chain[0], chain)
    ensures Walk(read, chain[0], room) == Some(Cut(chain, room))
    decreases room
  {
    hide IsChain, Cut;
    CutStep(chain, room);
    ChainHead(t, chain);
    assert read(chain[0]) == Some(t[chain[0]]);
    if room > 1 && |chain| > 1 {
      TailIsChain(t, chain);
      WalkIsChain(read, t, chain[1..], room - 1);
    } else {
      CutEnd(chain, room);
    }
  }

  // The search on a table whose end is known.
  function TakeFree(t: Table, c: nat, want: nat): (r: Option<seq<nat>>)
    ensures r.Some? ==> |r.value| == want && forall i :: 0 <= i < want ==> c <= r.value[i] < |t|
    decreases |t| - c
  {
    if want == 0 then Some([])
    else if c >= |t| then None
    else if t[c] == 0 then
      match TakeFree(t, c + 1, want - 1)
      case None => None
      case Some(rest) => Some([c] + rest)
    else TakeFree(t, c + 1, want)
  }

  // The search through a reader agrees with it, or runs past the table.
  lemma {:induction false} SearchAgrees(read: Reader, t: Table, c: nat, want: nat)
    requires Reads(read, t) && |t| <= SEARCH_LIMIT && 2 <= c <= |t|
    ensures TakeFree(t, c, want).Some? ==> Search(read, c, want) == Ok(TakeFree(t, c, want).value)
    ensures TakeFree(t, c, want).None? && Search(read, c, want).Ok? ==>
      want > 0 && |t| <= Search(read, c, want).value[want - 1]
    decreases |t| - c
  {
    if want > 0 && c < |t| {
      assert read(c) == Some(t[c]);
      SearchAgrees(read, t, c + 1, if t[c] == 0 then want - 1 else want);
    }
  }

  ghost function FreeFrom(t: Table, c: nat): set<nat> { set d | c <= d < |t| && t[d] == 0 }

  lemma {:induction false} TakeFreeFinds(t: Table, c: nat, want: nat)
    requires 2 <= c <= |t|
    ensures TakeFree(t, c, want).Some? <==> want <= |FreeFrom(t, c)|
    ensures TakeFree(t, c, want).Some? ==> IsFreeList(t, TakeFree(t, c, want).value)
    decreases |t| - c
  {
    if c == |t| {
      assert FreeFrom(t, c) == {};
    } else if want > 0 {
      assert FreeFrom(t, c) == if t[c] == 0 then FreeFrom(t, c + 1) + {c} else FreeFrom(t, c + 1);
      TakeFreeFinds(t, c + 1, if t[c] == 0 then want - 1 else want);
    }
  }

  // The search, which does not know where the table ends, stays inside it exactly when the table holds
  // enough free clusters; then it returns distinct free clusters.
  lemma SearchStaysInside(read: Reader, t: Table, want: nat)
    requires Reads(read, t) && 2 <= |t| <= SEARCH_LIMIT
    ensures (Search(read, 2, want).Ok? && forall i :: 0 <= i < want ==> Search(read, 2, want).value[i] < |t|)
       <==> want <= FreeCount(t)
    ensures want <= FreeCount(t) ==> IsFreeList(t, Search(read, 2, want).value)
  {
    assert FreeFrom(t, 2) == FreeSet(t);
    TakeFreeFinds(t, 2, want);
    SearchAgrees(read, t, 2, want);
  }

  ghost function FreeBetween(read: Reader, lo: nat, hi: nat): set<nat> { set d | lo <= d < hi && read(d) == Some(0) }

  // Every cluster from c on can be read up to d, and too few of them are free.
  ghost predicate Reaches(read: Reader, c: nat, want: nat, d: nat)
  {
    c <= d && (forall e :: c <= e < d ==> read(e).Some?) && |FreeBetween(read, c, d)| < want
  }

  lemma ReachesStart(read: Reader, c: nat, want: nat)
    ensures Reaches(read, c, want, c) <==> want > 0
  {
    assert FreeBetween(read, c, c) == {};
  }

  lemma ReachesStep(read: Reader, c: nat, want: nat, d: nat)
    requires c < d && want > 0 && read(c).Some?
    ensures Reaches(read, c, want, d) <==> Reaches(read, c + 1, if read(c) == Some(0) then want - 1 else want, d)
  {
    var rest := FreeBetween(read, c + 1, d);
    assert FreeBetween(read, c, d) == if read(c) == Some(0) then rest + {c} else rest;
    assert Reaches(read, c, want, d) <== Reaches(read, c + 1, if read(c) == Some(0) then want - 1 else want, d);
  }

  // The search raises exactly if it reaches a cluster it cannot read, and gives up exactly if it reaches the bound.
  lemma {:induction false} SearchFails(read: Reader, c: nat, want: nat)
    requires 2 <= c <= 0x0FFF_FFF0
    ensures Search(read, c, want) == Raised <==>
      exists d :: 0 <= d <= 0x0FFF_FFF0 && Reaches(read, c, want, d) && read(d) == None
    ensures Search(read, c, want) == NoFreeClusters <==>
      Reaches(read, c, want, 0x0FFF_FFF0) && read(0x0FFF_FFF0).Some?
    decreases SEARCH_LIMIT - c
  {
    hide Reaches;
    ReachesStart(read, c, want);
    if want == 0 {
      NeverReached(read, c);
    } else if read(c) == None {
      OnlyReached(read, c, want);
    } else {
      SearchFailsLater(read, c, want);
    }
  }

  lemma NeverReached(read: Reader, c: nat)
    ensures forall d :: !Reaches(read, c, 0, d)
  {
  }

  lemma OnlyReached(read: Reader, c: nat, want: nat)
    requires read(c) == None
    ensures forall d :: Reaches(read, c, want, d) ==> d == c
  {
  }

  lemma BehindOnly(read: Reader, c: nat, want: nat)
    ensures forall d :: Reaches(read, c, want, d) ==> c <= d
  {
  }

  lemma {:induction false} SearchFailsLater(read: Reader, c: nat, want: nat)
    requires 2 <= c <= 0x0FFF_FFF0 && want > 0 && read(c).Some? && Reaches(read, c, want, c)
    ensures Search(read, c, want) == Raised <==>
      exists d :: 0 <= d <= 0x0FFF_FFF0 && Reaches(read, c, want, d) && read(d) == None
    ensures Search(read, c, want) == NoFreeClusters <==>
      Reaches(read, c, want, 0x0FFF_FFF0) && read(0x0FFF_FFF0).Some?
    decreases SEARCH_LIMIT - c, 0
  {
    hide Reaches;
    BehindOnly(read, c, want);
    if c < 0x0FFF_FFF0 {
      var left := if read(c) == Some(0) then want - 1 else want;
      SearchFails(read, c + 1, left);
      BehindOnly(read, c + 1, left);
      forall d | c < d ensures Reaches(read, c, want, d) <==> Reaches(read, c + 1, left, d) {
        ReachesStep(read, c, want, d);
      }
    }
  }

  // On a full table followed by a zero word it hands out a cluster that does not exist.
  lemma {:induction false} FullTableRunsPast(read: Reader, t: Table, c: nat)
    requires Reads(read, t) && 2 <= c <= |t| < SEARCH_LIMIT && read(|t|) == Some(0)
    requires forall d :: c <= d < |t| ==> t[d] != 0
    ensures Search(read, c, 1) == Ok([|t|])
    decreases |t| - c
  {
    if c < |t| {
      assert read(c) == Some(t[c]);
      FullTableRunsPast(read, t, c + 1);
    } else {
      var none: seq<nat> := [];
      assert Search(read, c + 1, 0) == Ok(none) && [c] + none == [c];
    }
  }

  // ---- the loops ----

  function PrependWalk(chain: seq<nat>, rest: Option<seq<nat>>): Option<seq<nat>>
  {
    match rest case None => None case Some(r) => Some(chain + r)
  }

  function PrependFound(found: seq<nat>, rest: Result<seq<nat>>): Result<seq<nat>>
  {
    match rest case Ok(r) => Ok(found + r) case NoFreeClusters => NoFreeClusters case Raised => Raised
  }

  lemma WalkedNothing(rest: Option<seq<nat>>)
    ensures PrependWalk([], rest) == rest
  {
    if rest.Some? { assert [] + rest.value == rest.value; }
  }

  // One step of the walk, behind the clusters already walked.
  lemma WalkStep(read: Reader, c: nat, room: nat, chain: seq<nat>)
    requires IsLink(c) && room >= 1
    ensures PrependWalk(chain, Walk(read, c, room)) ==
      if read(c).None? then None
      else if room == 1 then Some(chain + [c])
      else PrependWalk(chain + [c], Walk(read, read(c).value, room - 1))
  {
    if read(c).Some? && room > 1 && Walk(read, read(c).value, room - 1).Some? {
      var rest := Walk(read, read(c).value, room - 1).value;
      assert chain + ([c] + rest) == chain + [c] + rest;
    }
  }

  lemma WalkEnd(read: Reader, c: nat, room: nat, chain: seq<nat>)
    requires !IsLink(c) && room >= 1
    ensures PrependWalk(chain, Walk(read, c, room)) == Some(chain)
  {
    assert chain + [] == chain;
  }

  method ClusterChain(read: Reader, start: nat) returns (r: Option<seq<nat>>)
    ensures r == Walk(read, start, WALK_LIMIT)
  {
    var chain, c: nat := [], start;
    hide Walk, PrependWalk;
    WalkedNothing(Walk(read, start, WALK_LIMIT));
    while IsLink(c)
      invariant |chain| < WALK_LIMIT
      invariant Walk(read, start, WALK_LIMIT) == PrependWalk(chain, Walk(read, c, WALK_LIMIT - |chain|))
      decreases WALK_LIMIT - |chain|
    {
      WalkStep(read, c, WALK_LIMIT - |chain|, chain);
      chain := chain + [c];
      var v := read(c);
      if v.None? { return None; }
      if |chain| > 100000 { return Some(chain); }
      c := v.value;
    }
    WalkEnd(read, c, WALK_LIMIT - |chain|, chain);
    r := Some(chain);
  }

  lemma FoundNothing(rest: Result<seq<nat>>)
    ensures PrependFound([], rest) == rest
  {
    if rest.Ok? { assert [] + rest.value == rest.value; }
  }

  // One probe, behind what has been found already.
  lemma SearchStep(read: Reader, c: nat, want: nat, free: seq<nat>)
    requires 2 <= c <= SEARCH_LIMIT && want > 0
    ensures PrependFound(free, Search(read, c, want)) ==
      if read(c).None? then Raised
      else if c + 1 > SEARCH_LIMIT then NoFreeClusters
      else if read(c).value == 0 then PrependFound(free + [c], Search(read, c + 1, want - 1))
      else PrependFound(free, Search(read, c + 1, want))
  {
    if read(c).Some? && c < SEARCH_LIMIT && Search(read, c + 1, want - 1).Ok? {
      var rest := Search(read, c + 1, want - 1).value;
      assert free + ([c] + rest) == free + [c] + rest;
    }
  }

  lemma SearchEnd(read: Reader, c: nat, free: seq<nat>)
    requires 2 <= c <= SEARCH_LIMIT
    ensures PrependFound(free, Search(read, c, 0)) == Ok(free)
  {
    assert free + [] == free;
  }

  method FreeClusters(read: Reader, want: nat) returns (r: Result<seq<nat>>)
    ensures r == Search(read, 2, want)
  {
    var free: seq<nat>, c: nat := [], 2;
    hide Search, PrependFound;
    FoundNothing(Search(read, 2, want));
    while |free| < want
      invariant 2 <= c <= SEARCH_LIMIT && |free| <= want
      invariant Search(read, 2, want) == PrependFound(free, Search(read, c, want - |free|))
      decreases SEARCH_LIMIT - c
    {
      SearchStep(read, c, want - |free|, free);
      var v := read(c);
      if v.None? { return Raised; }
      if v.value == 0 { free := free + [c]; }
      if c + 1 > SEARCH_LIMIT { return NoFreeClusters; }
      c := c + 1;
    }
    SearchEnd(read, c, free);
    r := Ok(free);
  }
}
