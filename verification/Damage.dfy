/**
 Coalescing of damage rectangles: a new rectangle is merged with every region it meets until it meets
 none, and the list is collapsed to one bounding box when it grows past ten.
 */
module Damage {

  // Coordinates are unsigned 32-bit; a rectangle's far edges must not overflow them.
  const LIMIT: nat := 0x1_0000_0000

  datatype Rect = Rect(x: nat, y: nat, w: nat, h: nat)

  predicate Proper(r: Rect) { r.w > 0 && r.h > 0 && r.x + r.w < LIMIT && r.y + r.h < LIMIT }

  predicate Intersects(a: Rect, b: Rect)
  {
    a.x < b.x + b.w && a.x + a.w > b.x && a.y < b.y + b.h && a.y + a.h > b.y
  }

  function Min(a: nat, b: nat): nat { if a <= b then a else b }

  function Max(a: nat, b: nat): nat { if a >= b then a else b }

  function Union(a: Rect, b: Rect): Rect
  {
    var x, y := Min(a.x, b.x), Min(a.y, b.y);
    Rect(x, y, Max(a.x + a.w, b.x + b.w) - x, Max(a.y + a.h, b.y + b.h) - y)
  }

  // ---- what rectangles mean ----

  ghost predicate Covers(r: Rect, px: int, py: int) { r.x <= px < r.x + r.w && r.y <= py < r.y + r.h }

  ghost predicate Inside(a: Rect, b: Rect)
  {
    b.x <= a.x && b.y <= a.y && a.x + a.w <= b.x + b.w && a.y + a.h <= b.y + b.h
  }

  // Two proper rectangles intersect exactly when they share a pixel.
  lemma IntersectsMeansSharedPixel(a: Rect, b: Rect)
    requires Proper(a) && Proper(b)
    ensures Intersects(a, b) <==> exists px, py :: Covers(a, px, py) && Covers(b, px, py)
  {
    if Intersects(a, b) {
      assert Covers(a, Max(a.x, b.x), Max(a.y, b.y)) && Covers(b, Max(a.x, b.x), Max(a.y, b.y));
    }
  }

  // The union is the least rectangle that contains both.
  lemma UnionIsLeast(a: Rect, b: Rect)
    requires Proper(a) && Proper(b)
    ensures Proper(Union(a, b)) && Inside(a, Union(a, b)) && Inside(b, Union(a, b))
    ensures forall c :: Inside(a, c) && Inside(b, c) ==> Inside(Union(a, b), c)
  {
  }

  ghost predicate AllProper(rs: seq<Rect>) { forall i :: 0 <= i < |rs| ==> Proper(rs[i]) }

  ghost predicate Apart(rs: seq<Rect>) { forall i, j :: 0 <= i < j < |rs| ==> !Intersects(rs[i], rs[j]) }

  // Every rectangle of a lies inside one of b.
  ghost predicate Within(a: seq<Rect>, b: seq<Rect>)
  {
    forall i :: 0 <= i < |a| ==> InsideSome(a[i], b)
  }

  ghost predicate InsideSome(r: Rect, b: seq<Rect>) { exists j :: 0 <= j < |b| && Inside(r, b[j]) }

  // ---- merging ----

  function SwapRemove(rs: seq<Rect>, j: nat): (r: seq<Rect>)
    requires j < |rs|
    ensures |r| == |rs| - 1
  {
    if j == |rs| - 1 then rs[..j] else rs[j := rs[|rs| - 1]][..|rs| - 1]
  }

  lemma SwapRemoveKeeps(rs: seq<Rect>, j: nat)
    requires j < |rs| && AllProper(rs) && Apart(rs)
    ensures AllProper(SwapRemove(rs, j)) && Apart(SwapRemove(rs, j))
    ensures forall i :: 0 <= i < |rs| && i != j ==> rs[i] in SwapRemove(rs, j)
    ensures forall r :: r in SwapRemove(rs, j) ==> r in rs
  {
    var s := SwapRemove(rs, j);
    forall i, k | 0 <= i < k < |s| ensures !Intersects(s[i], s[k]) {
      if s[i] != rs[i] { SymmetricIntersects(rs[k], rs[|rs| - 1]); }
    }
    forall i | 0 <= i < |rs| && i != j ensures rs[i] in s {
      if i == |rs| - 1 { assert s[j] == rs[i]; } else { assert s[i] == rs[i]; }
    }
  }

  lemma SymmetricIntersects(a: Rect, b: Rect)
    ensures Intersects(a, b) == Intersects(b, a)
  {
  }

  lemma InsideSomeIn(r: Rect, big: Rect, rs: seq<Rect>)
    requires big in rs && Inside(r, big)
    ensures InsideSome(r, rs)
  {
  }

  // Rectangles that contain two intersecting ones intersect; in a family kept apart they are the same one.
  lemma SameContainer(a: Rect, b: Rect, family: seq<Rect>)
    requires Proper(a) && Proper(b) && Intersects(a, b) && Apart(family) && InsideSome(a, family) &&
      InsideSome(b, family)
    ensures InsideSome(Union(a, b), family)
  {
    var i :| 0 <= i < |family| && Inside(a, family[i]);
    var j :| 0 <= j < |family| && Inside(b, family[j]);
    if i != j {
      SymmetricIntersects(family[i], family[j]);
      assert Intersects(family[i], family[j]);
    }
    UnionIsLeast(a, b);
  }

  // rs lies inside every family of rectangles that is apart and contains the inputs.
  ghost predicate Least(inputs: seq<Rect>, rs: seq<Rect>)
  {
    forall family :: Apart(family) && Within(inputs, family) ==> Within(rs, family)
  }

  lemma WithinSelf(rs: seq<Rect>)
    ensures Within(rs, rs) && Least(rs, rs)
  {
    forall i | 0 <= i < |rs| ensures InsideSome(rs[i], rs) { assert Inside(rs[i], rs[i]); }
  }

  lemma ApartSnoc(rs: seq<Rect>, r: Rect)
    requires AllProper(rs) && Apart(rs) && Proper(r) && forall k :: 0 <= k < |rs| ==> !Intersects(rs[k], r)
    ensures AllProper(rs + [r]) && Apart(rs + [r])
  {
  }

  // The loop for one rectangle, before a collapse: the regions afterwards are apart, contain the earlier regions
  // and the new rectangle, and are the least such family.
  method Merge(earlier: seq<Rect>, rect: Rect) returns (regions: seq<Rect>)
    requires AllProper(earlier) && Apart(earlier) && Proper(rect)
    ensures AllProper(regions) && Apart(regions) && 1 <= |regions| <= |earlier| + 1
    ensures Within(earlier + [rect], regions) && Least(earlier + [rect], regions)
  {
    hide Within, Least, Union, SwapRemove, Apart;
    regions := earlier;
    var merged, j := rect, 0;
    WithinSelf(earlier + [rect]);
    while j < |regions|
      invariant 0 <= j <= |regions| <= |earlier| && AllProper(regions) && Apart(regions) && Proper(merged)
      invariant forall k :: 0 <= k < j ==> !Intersects(regions[k], merged)
      invariant Within(earlier + [rect], regions + [merged]) && Least(earlier + [rect], regions + [merged])
      decreases |regions|, |regions| - j
    {
      if Intersects(regions[j], merged) {
        MergeStep(earlier + [rect], regions, merged, j);
        merged := Union(regions[j], merged);
        regions := SwapRemove(regions, j);
        j := 0;
      } else {
        j := j + 1;
      }
    }
    ApartSnoc(regions, merged);
    regions := regions + [merged];
  }

  lemma MergeStep(inputs: seq<Rect>, regions: seq<Rect>, merged: Rect, j: nat)
    requires j < |regions| && AllProper(regions) && Apart(regions) && Proper(merged) && Intersects(regions[j], merged)
    requires Within(inputs, regions + [merged]) && Least(inputs, regions + [merged])
    ensures var rest, m := SwapRemove(regions, j), Union(regions[j], merged);
      && AllProper(rest) && Apart(rest) && Proper(m) && Within(inputs, rest + [m]) && Least(inputs, rest + [m])
  {
    var rest, m := SwapRemove(regions, j), Union(regions[j], merged);
    SwapRemoveKeeps(regions, j);
    UnionIsLeast(regions[j], merged);
    forall i | 0 <= i < |inputs| ensures InsideSome(inputs[i], rest + [m]) {
      KeepContainer(inputs[i], regions, merged, j);
    }
    forall family | Apart(family) && Within(inputs, family) ensures Within(rest + [m], family) {
      KeepFamily(regions, merged, j, family);
    }
  }

  lemma KeepContainer(r: Rect, regions: seq<Rect>, merged: Rect, j: nat)
    requires j < |regions| && AllProper(regions) && Apart(regions) && Proper(merged) &&
      InsideSome(r, regions + [merged])
    ensures InsideSome(r, SwapRemove(regions, j) + [Union(regions[j], merged)])
  {
    var rest, m := SwapRemove(regions, j), Union(regions[j], merged);
    SwapRemoveKeeps(regions, j);
    UnionIsLeast(regions[j], merged);
    var k :| 0 <= k < |regions| + 1 && Inside(r, (regions + [merged])[k]);
    if k == j || k == |regions| {
      InsideSomeIn(r, m, rest + [m]);
    } else {
      InsideSomeIn(r, regions[k], rest + [m]);
    }
  }

  lemma KeepFamily(regions: seq<Rect>, merged: Rect, j: nat, family: seq<Rect>)
    requires j < |regions| && AllProper(regions) && Apart(regions) && Proper(merged) && Intersects(regions[j], merged)
    requires Apart(family) && Within(regions + [merged], family)
    ensures Within(SwapRemove(regions, j) + [Union(regions[j], merged)], family)
  {
    var rest, m, both := SwapRemove(regions, j), Union(regions[j], merged), regions + [merged];
    SwapRemoveKeeps(regions, j);
    assert both[j] == regions[j] && both[|regions|] == merged;
    SameContainer(regions[j], merged, family);
    forall i | 0 <= i < |rest| + 1 ensures InsideSome((rest + [m])[i], family) {
      if i < |rest| {
        assert rest[i] in regions;
        var k :| 0 <= k < |regions| && regions[k] == rest[i];
        assert both[k] == rest[i];
      }
    }
  }

  // ---- collapsing and whole runs ----

  const MAX_REGIONS: nat := 10

  // The bounding box of a non-empty list.
  function Bounds(rs: seq<Rect>): Rect
    requires rs != []
    decreases |rs|
  {
    if |rs| == 1 then rs[0] else Union(Bounds(rs[..|rs| - 1]), rs[|rs| - 1])
  }

  ghost predicate AllInside(rs: seq<Rect>, box: Rect) { forall i :: 0 <= i < |rs| ==> Inside(rs[i], box) }

  lemma {:induction false} BoundsIsLeast(rs: seq<Rect>)
    requires rs != [] && AllProper(rs)
    ensures Proper(Bounds(rs)) && AllInside(rs, Bounds(rs))
    ensures forall c :: AllInside(rs, c) ==> Inside(Bounds(rs), c)
    decreases |rs|
  {
    if |rs| > 1 {
      BoundsIsLeast(rs[..|rs| - 1]);
      UnionIsLeast(Bounds(rs[..|rs| - 1]), rs[|rs| - 1]);
      forall c | AllInside(rs, c) ensures Inside(Bounds(rs), c) { assert AllInside(rs[..|rs| - 1], c); }
    }
  }

  method Collapse(rs: seq<Rect>) returns (bbox: Rect)
    requires rs != []
    ensures bbox == Bounds(rs)
  {
    bbox := rs[0];
    for i := 1 to |rs|
      invariant bbox == Bounds(rs[..i])
    {
      assert rs[..i + 1][..i] == rs[..i];
      bbox := Union(bbox, rs[i]);
    }
    assert rs[..|rs|] == rs;
  }

  // Regions that stand for the inputs so far.
  ghost predicate Tracks(inputs: seq<Rect>, regions: seq<Rect>)
  {
    && AllProper(inputs) && AllProper(regions) && Apart(regions) && |regions| <= 10
    && Within(inputs, regions)
    && (inputs != [] ==> AllInside(regions, Bounds(inputs)))
  }

  // One insertion: the finest family apart that contains the regions and the rectangle, collapsed to its bounding
  // box when it has more than 10 members.
  ghost predicate Inserted(before: seq<Rect>, rect: Rect, after: seq<Rect>)
  {
    exists merged :: Finest(before + [rect], merged) && after == Capped(merged)
  }

  ghost predicate Finest(rs: seq<Rect>, family: seq<Rect>)
  {
    family != [] && AllProper(family) && Apart(family) && Within(rs, family) && Least(rs, family)
  }

  function Capped(rs: seq<Rect>): seq<Rect>
    requires rs != []
  {
    if |rs| > 10 then [Bounds(rs)] else rs
  }

  class Tracker {
    var regions: seq<Rect>
    ghost var inputs: seq<Rect>
    ghost var collapsed: bool

    // The inputs are covered and bounded; until the first collapse the regions are the least family apart.
    ghost predicate Valid()
      reads this
    {
      Tracks(inputs, regions) && (inputs == [] ==> regions == []) && (!collapsed ==> Least(inputs, regions))
    }

    constructor ()
      ensures Valid() && inputs == [] && !collapsed
    {
      regions, inputs, collapsed := [], [], false;
    }

    // Empty rectangles are skipped.
    method Add(rect: Rect)
      requires Valid() && rect.x + rect.w < LIMIT && rect.y + rect.h < LIMIT
      modifies this
      ensures Valid()
      ensures if Proper(rect) then inputs == old(inputs) + [rect] else inputs == old(inputs) && regions == old(regions)
      ensures Proper(rect) ==> Inserted(old(regions), rect, regions)
      ensures collapsed == old(collapsed) || |regions| == 1
    {
      if rect.w == 0 || rect.h == 0 { return; }
      AddProper(rect);
    }

    method AddProper(rect: Rect)
      requires Valid() && Proper(rect)
      modifies this
      ensures Valid() && inputs == old(inputs) + [rect]
      ensures Inserted(old(regions), rect, regions)
      ensures collapsed == old(collapsed) || |regions| == 1
    {
      hide Within, Apart, Least, Bounds, AllInside, Intersects;
      var merged := Merge(regions, rect);
      assert Finest(regions + [rect], merged);
      AddMerged(inputs, regions, rect, merged);
      if !collapsed { LeastMerged(inputs, regions, rect, merged); }
      inputs := inputs + [rect];
      regions := merged;
      if |regions| > MAX_REGIONS {
        var bbox := Collapse(regions);
        CollapseTracks(inputs, regions, bbox);
        regions := [bbox];
        collapsed := true;
      }
    }
  }

  lemma {:induction false} BoundsGrow(rs: seq<Rect>, r: Rect)
    requires rs != [] && AllProper(rs) && Proper(r)
    ensures Inside(Bounds(rs), Bounds(rs + [r])) && Inside(r, Bounds(rs + [r]))
  {
    assert (rs + [r])[..|rs|] == rs;
    BoundsIsLeast(rs);
    UnionIsLeast(Bounds(rs), r);
  }

  lemma InsideTrans(a: Rect, b: Rect, c: Rect)
    requires Inside(a, b) && Inside(b, c)
    ensures Inside(a, c)
  {
  }

  lemma WithinTrans(a: seq<Rect>, b: seq<Rect>, c: seq<Rect>)
    requires Within(a, b) && Within(b, c)
    ensures Within(a, c)
  {
    forall i | 0 <= i < |a| ensures InsideSome(a[i], c) {
      assert InsideSome(a[i], b);
      var j :| 0 <= j < |b| && Inside(a[i], b[j]);
      assert InsideSome(b[j], c);
    }
  }

  lemma WithinSnoc(a: seq<Rect>, b: seq<Rect>, r: Rect)
    requires Within(a, b)
    ensures Within(a + [r], b + [r])
  {
    forall i | 0 <= i < |a| + 1 ensures InsideSome((a + [r])[i], b + [r]) {
      if i < |a| {
        assert InsideSome(a[i], b);
        var j :| 0 <= j < |b| && Inside(a[i], b[j]);
        InsideSomeIn(a[i], b[j], b + [r]);
      } else {
        InsideSomeIn(r, r, b + [r]);
      }
    }
  }

  // A family that contains all rectangles inside one box: that box.
  lemma OneBox(rs: seq<Rect>, box: Rect)
    requires AllInside(rs, box)
    ensures Within(rs, [box]) && Apart([box])
  {
    forall i | 0 <= i < |rs| ensures InsideSome(rs[i], [box]) { InsideSomeIn(rs[i], box, [box]); }
  }

  lemma InOneBox(rs: seq<Rect>, box: Rect)
    requires Within(rs, [box])
    ensures AllInside(rs, box)
  {
    forall i | 0 <= i < |rs| ensures Inside(rs[i], box) {
      assert InsideSome(rs[i], [box]);
      var j :| 0 <= j < |[box]| && Inside(rs[i], [box][j]);
    }
  }

  lemma AddMerged(inputs: seq<Rect>, regions: seq<Rect>, rect: Rect, merged: seq<Rect>)
    requires Tracks(inputs, regions) && (inputs == [] ==> regions == []) && Proper(rect)
    requires AllProper(merged) && Apart(merged) && Within(regions + [rect], merged) && Least(regions + [rect], merged)
    ensures Within(inputs + [rect], merged)
    ensures AllInside(merged, Bounds(inputs + [rect]))
  {
    hide Within, Intersects, Union, Inside;
    WithinSnoc(inputs, regions, rect);
    WithinTrans(inputs + [rect], regions + [rect], merged);
    var box := Bounds(inputs + [rect]);
    RegionsInBox(inputs, regions, rect);
    OneBox(regions + [rect], box);
    assert Within(merged, [box]);
    InOneBox(merged, box);
  }

  lemma RegionsInBox(inputs: seq<Rect>, regions: seq<Rect>, rect: Rect)
    requires AllProper(inputs) && Proper(rect) &&
      (if inputs == [] then regions == [] else AllInside(regions, Bounds(inputs)))
    ensures AllInside(regions + [rect], Bounds(inputs + [rect]))
  {
    var box, all := Bounds(inputs + [rect]), regions + [rect];
    forall i | 0 <= i < |all| ensures Inside(all[i], box) {
      if inputs != [] {
        BoundsGrow(inputs, rect);
        if i < |regions| { InsideTrans(regions[i], Bounds(inputs), box); }
      }
    }
  }

  lemma LeastMerged(inputs: seq<Rect>, regions: seq<Rect>, rect: Rect, merged: seq<Rect>)
    requires Least(inputs, regions) && Least(regions + [rect], merged)
    ensures Least(inputs + [rect], merged)
  {
    forall family | Apart(family) && Within(inputs + [rect], family) ensures Within(merged, family) {
      var all := inputs + [rect];
      forall i | 0 <= i < |inputs| ensures InsideSome(inputs[i], family) { assert all[i] == inputs[i]; }
      assert Within(regions, family);
      assert InsideSome(all[|inputs|], family);
      forall i | 0 <= i < |regions| + 1 ensures InsideSome((regions + [rect])[i], family) {}
      assert Within(regions + [rect], family);
    }
  }

  lemma CollapseTracks(inputs: seq<Rect>, regions: seq<Rect>, bbox: Rect)
    requires inputs != [] && AllProper(inputs) && AllProper(regions) && regions != [] && Within(inputs, regions)
    requires AllInside(regions, Bounds(inputs))
    requires bbox == Bounds(regions)
    ensures Tracks(inputs, [bbox])
  {
    BoundsIsLeast(regions);
    OneBox(regions, bbox);
    WithinTrans(inputs, regions, [bbox]);
  }

  // What the invariant means on the screen: every pixel of every rectangle so far is covered by exactly one region.
  lemma PixelCovered(inputs: seq<Rect>, regions: seq<Rect>, i: nat, px: int, py: int)
    requires Tracks(inputs, regions) && i < |inputs| && Covers(inputs[i], px, py)
    ensures exists j :: 0 <= j < |regions| && Covers(regions[j], px, py)
    ensures forall j, k :: 0 <= j < k < |regions| ==> !(Covers(regions[j], px, py) && Covers(regions[k], px, py))
  {
    assert InsideSome(inputs[i], regions);
    var j :| 0 <= j < |regions| && Inside(inputs[i], regions[j]);
    assert Covers(regions[j], px, py);
    forall j, k | 0 <= j < k < |regions| ensures !(Covers(regions[j], px, py) && Covers(regions[k], px, py)) {
      if Covers(regions[j], px, py) && Covers(regions[k], px, py) {
        IntersectsMeansSharedPixel(regions[j], regions[k]);
      }
    }
  }

  // ---- the order of arrival ----

  lemma MutuallyInside(a: seq<Rect>, b: seq<Rect>, i: nat)
    requires i < |a| && AllProper(a) && Apart(a) && Within(a, b) && Within(b, a)
    ensures a[i] in b
  {
    hide Inside, Intersects;
    assert InsideSome(a[i], b);
    var j :| 0 <= j < |b| && Inside(a[i], b[j]);
    assert InsideSome(b[j], a);
    var k :| 0 <= k < |a| && Inside(b[j], a[k]);
    Nested(a[i], b[j], a[k]);
    assert i == k;
  }

  lemma Nested(r: Rect, m: Rect, outer: Rect)
    requires Proper(r) && Inside(r, m) && Inside(m, outer)
    ensures Intersects(r, outer) && Intersects(outer, r) && (r == outer ==> r == m)
  {
  }

  ghost predicate SameMembers(a: seq<Rect>, b: seq<Rect>) { forall r :: r in a <==> r in b }

  // There is only one finest family.
  lemma FinestUnique(rs: seq<Rect>, a: seq<Rect>, b: seq<Rect>)
    requires Finest(rs, a) && Finest(rs, b)
    ensures SameMembers(a, b)
  {
    hide Within, Apart;
    forall r | r in a ensures r in b {
      var i :| 0 <= i < |a| && a[i] == r;
      MutuallyInside(a, b, i);
    }
    forall r | r in b ensures r in a {
      var i :| 0 <= i < |b| && b[i] == r;
      MutuallyInside(b, a, i);
    }
  }

  lemma WithinSame(p: seq<Rect>, q: seq<Rect>, family: seq<Rect>)
    requires SameMembers(p, q) && Within(p, family)
    ensures Within(q, family)
  {
    forall i | 0 <= i < |q| ensures InsideSome(q[i], family) {
      assert q[i] in p;
      var j :| 0 <= j < |p| && p[j] == q[i];
      assert InsideSome(p[j], family);
    }
  }

  lemma FinestSame(p: seq<Rect>, q: seq<Rect>, family: seq<Rect>)
    requires SameMembers(p, q) && Finest(p, family)
    ensures Finest(q, family)
  {
    hide Within, Apart;
    WithinSame(p, q, family);
    forall other | Apart(other) && Within(q, other) ensures Within(family, other) {
      WithinSame(q, p, other);
    }
  }

  // Until a collapse the regions do not depend on the order in which the rectangles arrive, nor on repetitions.
  lemma OrderIrrelevant(s: Tracker, t: Tracker)
    requires s.Valid() && t.Valid() && !s.collapsed && !t.collapsed && SameMembers(s.inputs, t.inputs)
    ensures SameMembers(s.regions, t.regions)
  {
    hide Within, Apart, AllProper, AllInside, Bounds;
    NoInputs(s.inputs, t.inputs);
    if s.inputs != [] {
      TracksFinest(s.inputs, s.regions);
      TracksFinest(t.inputs, t.regions);
      FinestSame(s.inputs, t.inputs, s.regions);
      FinestUnique(t.inputs, s.regions, t.regions);
    }
  }

  lemma NoInputs(p: seq<Rect>, q: seq<Rect>)
    requires SameMembers(p, q)
    ensures p == [] <==> q == []
  {
    if p != [] { assert p[0] in q; }
    if q != [] { assert q[0] in p; }
  }

  lemma TracksFinest(inputs: seq<Rect>, regions: seq<Rect>)
    requires Tracks(inputs, regions) && Least(inputs, regions) && inputs != []
    ensures Finest(inputs, regions)
  {
    assert InsideSome(inputs[0], regions);
  }
}
