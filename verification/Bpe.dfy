/** Greedy byte-pair encoding over token ids: the merge with the lowest priority index first, leftmost first. */
module Bpe {
  import opened Bytes
  import opened TokVocab

  // The index into the merges that the runtime's sorted merge table gives for a pair of ids.
  type Lookup = (nat, nat) -> Option<nat>

  // It finds a merge of the pair, if there is one.
  ghost predicate Finds(merges: seq<Triple>, look: Lookup)
  {
    forall l: nat, r: nat :: Found(merges, look, l, r)
  }

  ghost predicate Found(merges: seq<Triple>, look: Lookup, l: nat, r: nat)
  {
    match look(l, r)
    case Some(p) => p < |merges| && merges[p].left == l && merges[p].right == r
    case None => forall p :: 0 <= p < |merges| ==> merges[p].left != l || merges[p].right != r
  }

  // Priority of the pair at positions i and i + 1.
  function At(look: Lookup, ids: seq<nat>, i: nat): Option<nat>
    requires i + 1 < |ids|
  {
    look(ids[i], ids[i + 1])
  }

  // Among the first n pairs: the leftmost one of lowest priority index.
  ghost predicate Best(look: Lookup, ids: seq<nat>, n: nat, best: Option<nat>)
    requires n == 0 || n < |ids|
  {
    match best
    case None => forall i :: 0 <= i < n ==> At(look, ids, i) == None
    case Some(pos) =>
      && pos < n && At(look, ids, pos).Some?
      && forall i :: 0 <= i < n && At(look, ids, i).Some? ==>
        At(look, ids, pos).value <= At(look, ids, i).value && (i < pos ==> At(look, ids, pos) != At(look, ids, i))
  }

  function Pairs(ids: seq<nat>): nat { if |ids| == 0 then 0 else |ids| - 1 }

  function BestAmong(look: Lookup, ids: seq<nat>, n: nat): (best: Option<nat>)
    requires n == 0 || n < |ids|
    ensures Best(look, ids, n, best)
  {
    if n == 0 then None
    else
      var best, here := BestAmong(look, ids, n - 1), At(look, ids, n - 1);
      if here.Some? && (best == None || here.value < At(look, ids, best.value).value) then Some(n - 1) else best
  }

  function MergeAt(merges: seq<Triple>, look: Lookup, ids: seq<nat>, pos: nat): (r: seq<nat>)
    requires pos + 1 < |ids| && Finds(merges, look) && At(look, ids, pos).Some?
    ensures |r| == |ids| - 1
  {
    assert Found(merges, look, ids[pos], ids[pos + 1]);
    ids[..pos] + [merges[At(look, ids, pos).value].result] + ids[pos + 2..]
  }

  // Merging until no pair is left that a merge applies to.
  function Merged(merges: seq<Triple>, look: Lookup, ids: seq<nat>): (r: seq<nat>)
    requires Finds(merges, look)
    ensures forall i :: 0 <= i < |r| - 1 ==> At(look, r, i) == None
    decreases |ids|
  {
    var best := BestAmong(look, ids, Pairs(ids));
    if best == None then ids else Merged(merges, look, MergeAt(merges, look, ids, best.value))
  }

  // ---- the loops ----

  method FindBest(look: Lookup, ids: seq<nat>) returns (best: Option<nat>)
    ensures best == BestAmong(look, ids, Pairs(ids))
  {
    best := None;
    if |ids| < 2 { return; }
    var priority := 0;
    for i := 0 to |ids| - 1
      invariant best == BestAmong(look, ids, i)
      invariant best.Some? ==> At(look, ids, best.value) == Some(priority)
    {
      var here := look(ids[i], ids[i + 1]);
      if here.Some? && (best == None || here.value < priority) {
        priority, best := here.value, Some(i);
      }
    }
  }

  method RunMerges(merges: seq<Triple>, look: Lookup, ids: seq<nat>) returns (r: seq<nat>)
    requires Finds(merges, look)
    ensures r == Merged(merges, look, ids)
  {
    r := ids;
    var best := FindBest(look, r);
    while best.Some?
      invariant best == BestAmong(look, r, Pairs(r)) && Merged(merges, look, ids) == Merged(merges, look, r)
      decreases |r|
    {
      var pos := best.value;
      r := MergeAt(merges, look, r, pos);
      best := FindBest(look, r);
    }
  }

  // ---- text is preserved ----

  // Ids without a token contribute nothing.
  function TokenText(table: seq<string>, id: nat): string { if id < |table| then table[id] else "" }

  // The tokens' strings behind one another.
  function Text(table: seq<string>, ids: seq<nat>): string
  {
    if ids == [] then "" else TokenText(table, ids[0]) + Text(table, ids[1..])
  }

  lemma {:induction false} TextConcat(table: seq<string>, a: seq<nat>, b: seq<nat>)
    ensures Text(table, a + b) == Text(table, a) + Text(table, b)
    decreases |a|
  {
    hide TokenText;
    if a == [] {
      assert a + b == b;
    } else {
      TextConcat(table, a[1..], b);
      assert (a + b)[1..] == a[1..] + b;
      var x, y, z := TokenText(table, a[0]), Text(table, a[1..]), Text(table, b);
      assert x + (y + z) == x + y + z;
    }
  }

  lemma TextOne(table: seq<string>, id: nat)
    ensures Text(table, [id]) == TokenText(table, id)
  {
    assert [id][1..] == [];
    assert TokenText(table, id) + "" == TokenText(table, id);
  }

  // One merge, anywhere in any list of ids.
  lemma MergePreservesText(table: seq<string>, t: Triple, pre: seq<nat>, post: seq<nat>)
    requires Joins(table, t)
    ensures Text(table, pre + [t.result] + post) == Text(table, pre + [t.left, t.right] + post)
  {
    TextConcat(table, pre + [t.result], post);
    TextConcat(table, pre, [t.result]);
    TextConcat(table, pre + [t.left, t.right], post);
    TextConcat(table, pre, [t.left, t.right]);
    assert [t.left, t.right] == [t.left] + [t.right];
    TextConcat(table, [t.left], [t.right]);
    TextOne(table, t.left);
    TextOne(table, t.right);
    TextOne(table, t.result);
  }

  // A step applies any merge of the list at any place where it fits.
  datatype Step = Step(merge: nat, pos: nat)

  predicate Applies(merges: seq<Triple>, ids: seq<nat>, s: Step)
  {
    && s.merge < |merges| && s.pos + 1 < |ids|
    && ids[s.pos] == merges[s.merge].left && ids[s.pos + 1] == merges[s.merge].right
  }

  function Apply(merges: seq<Triple>, ids: seq<nat>, s: Step): seq<nat>
    requires Applies(merges, ids, s)
  {
    ids[..s.pos] + [merges[s.merge].result] + ids[s.pos + 2..]
  }

  ghost predicate Reaches(merges: seq<Triple>, from: seq<nat>, steps: seq<Step>, to: seq<nat>)
    decreases |steps|
  {
    if steps == [] then from == to
    else Applies(merges, from, steps[0]) && Reaches(merges, Apply(merges, from, steps[0]), steps[1..], to)
  }

  lemma ApplyPreservesText(table: seq<string>, merges: seq<Triple>, ids: seq<nat>, s: Step)
    requires AllJoin(table, merges) && Applies(merges, ids, s)
    ensures Text(table, Apply(merges, ids, s)) == Text(table, ids)
  {
    var t := merges[s.merge];
    MergePreservesText(table, t, ids[..s.pos], ids[s.pos + 2..]);
    assert ids == ids[..s.pos] + [t.left, t.right] + ids[s.pos + 2..];
  }

  // Any sequence of merges, in any order and at any places, keeps the text; each one shortens the list by one.
  lemma {:induction false} MergesPreserveText(table: seq<string>, merges: seq<Triple>, from: seq<nat>, steps: seq<Step>,
                                              to: seq<nat>)
    requires AllJoin(table, merges) && Reaches(merges, from, steps, to)
    ensures Text(table, to) == Text(table, from) && |to| + |steps| == |from|
    decreases |steps|
  {
    hide Joins, Text;
    if steps != [] {
      ApplyPreservesText(table, merges, from, steps[0]);
      MergesPreserveText(table, merges, Apply(merges, from, steps[0]), steps[1..], to);
    }
  }

  // The greedy run is such a sequence.
  lemma {:induction false} GreedyReaches(merges: seq<Triple>, look: Lookup, ids: seq<nat>) returns (steps: seq<Step>)
    requires Finds(merges, look)
    ensures Reaches(merges, ids, steps, Merged(merges, look, ids))
    decreases |ids|
  {
    var best := BestAmong(look, ids, Pairs(ids));
    if best == None { return []; }
    var pos := best.value;
    assert Found(merges, look, ids[pos], ids[pos + 1]);
    var first := Step(At(look, ids, pos).value, pos);
    var rest := GreedyReaches(merges, look, MergeAt(merges, look, ids, pos));
    steps := [first] + rest;
    assert steps[1..] == rest && Apply(merges, ids, first) == MergeAt(merges, look, ids, pos);
  }

  lemma GreedyPreservesText(table: seq<string>, merges: seq<Triple>, look: Lookup, ids: seq<nat>)
    requires AllJoin(table, merges) && Finds(merges, look)
    ensures Text(table, Merged(merges, look, ids)) == Text(table, ids)
  {
    hide Merged, Text, Reaches, AllJoin, Finds;
    var steps := GreedyReaches(merges, look, ids);
    MergesPreserveText(table, merges, ids, steps, Merged(merges, look, ids));
  }

  // ---- lowest priority first ----

  // The merge that the greedy run applies next.
  function Chosen(look: Lookup, ids: seq<nat>): Option<Step>
  {
    var best := BestAmong(look, ids, Pairs(ids));
    if best == None then None else Some(Step(At(look, ids, best.value).value, best.value))
  }

  // It comes no later in the list than a merge that fits at s, and if it is the same, then no further to the right.
  ghost predicate NoLater(look: Lookup, ids: seq<nat>, s: Step)
  {
    var c := Chosen(look, ids);
    c.Some? && c.value.merge <= s.merge && (c.value.merge == s.merge ==> c.value.pos <= s.pos)
  }

  // Of several merges of one pair the lookup gives the first.
  ghost predicate LooksUpFirst(merges: seq<Triple>, look: Lookup)
  {
    forall p :: 0 <= p < |merges| ==> FirstAt(merges, look, p)
  }

  ghost predicate FirstAt(merges: seq<Triple>, look: Lookup, p: nat)
    requires p < |merges|
  {
    var found := look(merges[p].left, merges[p].right);
    found.Some? && found.value <= p
  }

  lemma ChosenNoLater(merges: seq<Triple>, look: Lookup, ids: seq<nat>, s: Step)
    requires Finds(merges, look) && Applies(merges, ids, s) && FirstAt(merges, look, s.merge)
    ensures NoLater(look, ids, s)
  {
    assert At(look, ids, s.pos).value <= s.merge;
  }

  // Every step of the run applies the first merge of the list that fits anywhere, at the leftmost place where it fits.
  ghost predicate InListOrder(merges: seq<Triple>, look: Lookup)
  {
    forall ids, s :: Applies(merges, ids, s) ==> NoLater(look, ids, s)
  }

  // It does exactly when the lookup gives the first of several merges of one pair.
  lemma GreedyIsLowest(merges: seq<Triple>, look: Lookup)
    requires Finds(merges, look)
    ensures InListOrder(merges, look) <==> LooksUpFirst(merges, look)
  {
    if LooksUpFirst(merges, look) {
      forall ids, s | Applies(merges, ids, s) ensures NoLater(look, ids, s) { ChosenNoLater(merges, look, ids, s); }
    } else {
      var p :| 0 <= p < |merges| && !FirstAt(merges, look, p);
      var ids, s := [merges[p].left, merges[p].right], Step(p, 0);
      assert Applies(merges, ids, s);
      assert Found(merges, look, merges[p].left, merges[p].right);
      assert At(look, ids, 0) == look(merges[p].left, merges[p].right);
      assert !NoLater(look, ids, s);
    }
  }

  lemma DistinctLooksUpFirst(merges: seq<Triple>, look: Lookup)
    requires Finds(merges, look) && OnePerPair(merges)
    ensures LooksUpFirst(merges, look)
  {
    forall p | 0 <= p < |merges| ensures FirstAt(merges, look, p) {
      assert Found(merges, look, merges[p].left, merges[p].right);
    }
  }

  // The first merge of the pair from k on.
  function FirstFrom(merges: seq<Triple>, l: nat, r: nat, k: nat): (f: Option<nat>)
    requires k <= |merges|
    ensures f.Some? ==> k <= f.value < |merges| && merges[f.value].left == l && merges[f.value].right == r
    ensures forall p :: k <= p < (if f.Some? then f.value else |merges|) ==>
      merges[p].left != l || merges[p].right != r
    decreases |merges| - k
  {
    if k == |merges| then None
    else if merges[k].left == l && merges[k].right == r then Some(k) else FirstFrom(merges, l, r, k + 1)
  }

  // The lookup that the greedy rule asks for.
  function First(merges: seq<Triple>): Lookup { (l: nat, r: nat) => FirstFrom(merges, l, r, 0) }

  lemma FirstFinds(merges: seq<Triple>)
    ensures Finds(merges, First(merges)) && LooksUpFirst(merges, First(merges))
  {
    forall l: nat, r: nat ensures Found(merges, First(merges), l, r) {
      assert First(merges)(l, r) == FirstFrom(merges, l, r, 0);
    }
    forall p | 0 <= p < |merges| ensures FirstAt(merges, First(merges), p) {
      assert First(merges)(merges[p].left, merges[p].right) == FirstFrom(merges, merges[p].left, merges[p].right, 0);
    }
  }

  // A lookup that finds the merge q of its pair instead.
  function Other(merges: seq<Triple>, q: nat): Lookup
    requires q < |merges|
  {
    (l: nat, r: nat) => if l == merges[q].left && r == merges[q].right then Some(q) else FirstFrom(merges, l, r, 0)
  }

  lemma OtherFinds(merges: seq<Triple>, p: nat, q: nat)
    requires p < q < |merges| && merges[p].left == merges[q].left && merges[p].right == merges[q].right
    ensures Finds(merges, Other(merges, q)) && !LooksUpFirst(merges, Other(merges, q))
  {
    var look := Other(merges, q);
    forall l: nat, r: nat ensures Found(merges, look, l, r) {
      assert look(l, r) ==
        if l == merges[q].left && r == merges[q].right then Some(q) else FirstFrom(merges, l, r, 0);
    }
    assert look(merges[p].left, merges[p].right) == Some(q);
    assert !FirstAt(merges, look, p);
  }

  // Which of several merges of one pair a search for the pair finds is left open. Whatever it finds, the order of the
  // list is kept exactly when no pair has two merges.
  lemma OrderKeptIff(merges: seq<Triple>)
    ensures (forall look: Lookup :: Finds(merges, look) ==> InListOrder(merges, look)) <==> OnePerPair(merges)
  {
    hide InListOrder, Finds, LooksUpFirst;
    if OnePerPair(merges) {
      forall look: Lookup | Finds(merges, look) ensures InListOrder(merges, look) {
        DistinctLooksUpFirst(merges, look);
        GreedyIsLowest(merges, look);
      }
    } else {
      var p, q :| 0 <= p < q < |merges| && merges[p].left == merges[q].left && merges[p].right == merges[q].right;
      OtherFinds(merges, p, q);
      GreedyIsLowest(merges, Other(merges, q));
    }
  }

  // ---- the run, without the lookup ----

  // The first merge of the list that fits anywhere, at the leftmost place where it fits.
  ghost predicate FirstFit(merges: seq<Triple>, ids: seq<nat>, s: Step)
  {
    Applies(merges, ids, s) && forall t :: Applies(merges, ids, t) ==> Before(s, t)
  }

  predicate Before(s: Step, t: Step) { s.merge < t.merge || (s.merge == t.merge && s.pos <= t.pos) }

  // Every step is.
  ghost predicate Ordered(merges: seq<Triple>, from: seq<nat>, steps: seq<Step>)
    decreases |steps|
  {
    steps == [] || (FirstFit(merges, from, steps[0]) && Ordered(merges, Apply(merges, from, steps[0]), steps[1..]))
  }

  // No merge fits anywhere.
  ghost predicate Done(merges: seq<Triple>, ids: seq<nat>) { forall s :: !Applies(merges, ids, s) }

  lemma MergedDone(merges: seq<Triple>, look: Lookup, ids: seq<nat>)
    requires Finds(merges, look)
    ensures Done(merges, Merged(merges, look, ids))
  {
    var r := Merged(merges, look, ids);
    forall s ensures !Applies(merges, r, s) {
      if s.pos + 1 < |r| {
        assert At(look, r, s.pos) == None;
        assert Found(merges, look, r[s.pos], r[s.pos + 1]);
      }
    }
  }

  // What the greedy loop does to any ids: merges of the list, one after the other, until none fits; and if no pair has
  // two merges, always the first of the list that fits, at its leftmost place.
  lemma {:induction false} GreedyRuns(merges: seq<Triple>, look: Lookup, ids: seq<nat>) returns (steps: seq<Step>)
    requires Finds(merges, look)
    ensures Reaches(merges, ids, steps, Merged(merges, look, ids)) && Done(merges, Merged(merges, look, ids))
    ensures OnePerPair(merges) ==> Ordered(merges, ids, steps)
    decreases |ids|
  {
    hide OnePerPair, Finds, Done;
    MergedDone(merges, look, ids);
    var best := BestAmong(look, ids, Pairs(ids));
    if best == None { return []; }
    var pos := best.value;
    assert Found(merges, look, ids[pos], ids[pos + 1]) by { FindsAt(merges, look, ids[pos], ids[pos + 1]); }
    var first := Step(At(look, ids, pos).value, pos);
    if OnePerPair(merges) { ChosenFirst(merges, look, ids, first); }
    var rest := GreedyRuns(merges, look, MergeAt(merges, look, ids, pos));
    steps := [first] + rest;
    assert steps[1..] == rest && Apply(merges, ids, first) == MergeAt(merges, look, ids, pos);
  }

  lemma FindsAt(merges: seq<Triple>, look: Lookup, l: nat, r: nat)
    requires Finds(merges, look)
    ensures Found(merges, look, l, r)
  {
  }

  lemma ChosenFirst(merges: seq<Triple>, look: Lookup, ids: seq<nat>, first: Step)
    requires Finds(merges, look) && OnePerPair(merges) && Chosen(look, ids) == Some(first)
    requires Applies(merges, ids, first)
    ensures FirstFit(merges, ids, first)
  {
    hide OnePerPair, Finds, Chosen;
    DistinctLooksUpFirst(merges, look);
    forall t | Applies(merges, ids, t) ensures Before(first, t) { ChosenNoLater(merges, look, ids, t); }
  }

  // Such a run leads to one result only.
  lemma {:induction false} OrderedUnique(merges: seq<Triple>, from: seq<nat>, a: seq<Step>, x: seq<nat>, b: seq<Step>,
                                         y: seq<nat>)
    requires Reaches(merges, from, a, x) && Done(merges, x) && Ordered(merges, from, a)
    requires Reaches(merges, from, b, y) && Done(merges, y) && Ordered(merges, from, b)
    ensures x == y
    decreases |a|
  {
    if a != [] && b != [] {
      assert Before(a[0], b[0]) && Before(b[0], a[0]);
      OrderedUnique(merges, Apply(merges, from, a[0]), a[1..], x, b[1..], y);
    }
  }
}
