/** The runtime's merge table: the pairs of all merges, sorted, and searched by bisection. */
module MergeIndex {
  import opened Bytes
  import opened TokVocab
  import opened Bpe

  // A pair and the index of its merge.
  datatype Row = Row(left: nat, right: nat, priority: nat)

  predicate Below(a: Row, l: nat, r: nat) { a.left < l || (a.left == l && a.right < r) }

  predicate Matches(a: Row, l: nat, r: nat) { a.left == l && a.right == r }

  // The rows in the order of the merges.
  function Rows(merges: seq<Triple>): (r: seq<Row>)
    ensures |r| == |merges|
    ensures forall i :: 0 <= i < |merges| ==> r[i] == Row(merges[i].left, merges[i].right, i)
  {
    seq(|merges|, i requires 0 <= i < |merges| => Row(merges[i].left, merges[i].right, i))
  }

  predicate InOrder(rows: seq<Row>)
  {
    forall j, k :: 0 <= j < k < |rows| ==> !Below(rows[k], rows[j].left, rows[j].right)
  }

  // In front of the first row that is not below it, so that equal pairs keep their order.
  function Insert(x: Row, rows: seq<Row>): (r: seq<Row>)
    ensures forall y :: y in r <==> y == x || y in rows
  {
    if rows == [] || !Below(rows[0], x.left, x.right) then [x] + rows
    else
      assert rows == [rows[0]] + rows[1..];
      [rows[0]] + Insert(x, rows[1..])
  }

  function Sorted(rows: seq<Row>): (r: seq<Row>)
    ensures forall y :: y in r <==> y in rows
  {
    if rows == [] then []
    else
      assert rows == [rows[0]] + rows[1..];
      Insert(rows[0], Sorted(rows[1..]))
  }

  lemma {:induction false} InsertKeepsOrder(x: Row, rows: seq<Row>)
    requires InOrder(rows)
    ensures InOrder(Insert(x, rows))
  {
    if rows != [] && Below(rows[0], x.left, x.right) {
      var rest := Insert(x, rows[1..]);
      InsertKeepsOrder(x, rows[1..]);
      forall k | 0 <= k < |rest| ensures !Below(rest[k], rows[0].left, rows[0].right) { assert rest[k] in rest; }
    } else if rows != [] {
      forall k | 0 <= k < |rows| ensures !Below(rows[k], x.left, x.right) {
        assert k > 0 ==> !Below(rows[k], rows[0].left, rows[0].right);
      }
    }
  }

  lemma {:induction false} SortedInOrder(rows: seq<Row>)
    ensures InOrder(Sorted(rows))
  {
    if rows != [] {
      SortedInOrder(rows[1..]);
      InsertKeepsOrder(rows[0], Sorted(rows[1..]));
    }
  }

  // A row with the pair among the rows from lo to hi, by halving the range.
  function Search(rows: seq<Row>, l: nat, r: nat, lo: nat, hi: nat): (k: Option<nat>)
    requires lo <= hi <= |rows|
    ensures k.Some? ==> lo <= k.value < hi && Matches(rows[k.value], l, r)
    decreases hi - lo
  {
    if lo == hi then None
    else
      var mid := (lo + hi) / 2;
      if Matches(rows[mid], l, r) then Some(mid)
      else if Below(rows[mid], l, r) then Search(rows, l, r, mid + 1, hi)
      else Search(rows, l, r, lo, mid)
  }

  lemma {:induction false} SearchFinds(rows: seq<Row>, l: nat, r: nat, lo: nat, hi: nat, i: nat)
    requires InOrder(rows) && lo <= i < hi <= |rows| && Matches(rows[i], l, r)
    ensures Search(rows, l, r, lo, hi).Some?
    decreases hi - lo
  {
    var mid := (lo + hi) / 2;
    if !Matches(rows[mid], l, r) {
      assert i < mid ==> !Below(rows[mid], rows[i].left, rows[i].right);
      assert mid < i ==> !Below(rows[i], rows[mid].left, rows[mid].right);
      if i < mid { SearchFinds(rows, l, r, lo, mid, i); } else { SearchFinds(rows, l, r, mid + 1, hi, i); }
    }
  }

  function PriorityIn(rows: seq<Row>, l: nat, r: nat): Option<nat>
  {
    var k := Search(rows, l, r, 0, |rows|);
    if k == None then None else Some(rows[k.value].priority)
  }

  function Look(merges: seq<Triple>): Lookup { (l: nat, r: nat) => PriorityIn(Sorted(Rows(merges)), l, r) }

  // The lookup finds a merge of the pair exactly when the list has one.
  lemma LookFinds(merges: seq<Triple>)
    ensures Finds(merges, Look(merges))
  {
    hide Sorted, Search, InOrder;
    var rows := Sorted(Rows(merges));
    SortedInOrder(Rows(merges));
    forall l: nat, r: nat ensures Found(merges, Look(merges), l, r) {
      var k := Search(rows, l, r, 0, |rows|);
      if k.Some? {
        assert rows[k.value] in rows;
        assert rows[k.value] in Rows(merges);
      } else {
        forall p | 0 <= p < |merges| ensures merges[p].left != l || merges[p].right != r {
          assert Rows(merges)[p] in Rows(merges);
          var i :| 0 <= i < |rows| && rows[i] == Rows(merges)[p];
          if Matches(rows[i], l, r) { SearchFinds(rows, l, r, 0, |rows|, i); }
        }
      }
    }
  }

  // ---- a pair with two merges ----

  const REPEATED: seq<Triple> := [Triple(1, 2, 3), Triple(2, 4, 5), Triple(1, 2, 3)]

  lemma RepeatedRows()
    ensures Sorted(Rows(REPEATED)) == [Row(1, 2, 0), Row(1, 2, 2), Row(2, 4, 1)]
  {
    var a, b, c := Row(1, 2, 0), Row(2, 4, 1), Row(1, 2, 2);
    assert Rows(REPEATED) == [a, b, c];
    assert Sorted([c]) == [c];
    assert Insert(b, [c]) == [c, b];
    assert [a, b, c][1..] == [b, c] && [b, c][1..] == [c];
    assert Sorted([b, c]) == [c, b];
    assert Insert(a, [c, b]) == [a, c, b];
  }

  lemma RepeatedLook()
    ensures Look(REPEATED)(1, 2) == Some(2) && Look(REPEATED)(2, 4) == Some(1) && Look(REPEATED)(1, 5) == None
  {
    RepeatedRows();
  }

  // The bisection finds the later one. The pair between them in the list is then merged first, and the greedy rule
  // gives other tokens than the runtime.
  lemma RepeatedPair()
    ensures Finds(REPEATED, Look(REPEATED)) && Finds(REPEATED, First(REPEATED))
    ensures !LooksUpFirst(REPEATED, Look(REPEATED)) && !OnePerPair(REPEATED)
    ensures Merged(REPEATED, Look(REPEATED), [1, 2, 4]) == [1, 5]
    ensures Merged(REPEATED, First(REPEATED), [1, 2, 4]) == [3, 4]
  {
    hide Look, First, Finds;
    LookFinds(REPEATED);
    FirstFinds(REPEATED);
    RepeatedLook();
    assert !FirstAt(REPEATED, Look(REPEATED), 0);
    assert REPEATED[0].left == REPEATED[2].left && REPEATED[0].right == REPEATED[2].right;
    MergedTwice(Look(REPEATED), 1, [1, 5]);
    FirstLook();
    MergedTwice(First(REPEATED), 0, [3, 4]);
  }

  lemma FirstLook()
    ensures First(REPEATED)(1, 2) == Some(0) && First(REPEATED)(2, 4) == Some(1) && First(REPEATED)(3, 4) == None
  {
  }

  lemma MergedTwice(look: Lookup, pos: nat, r: seq<nat>)
    requires Finds(REPEATED, look) && look(1, 2).Some? && look(2, 4) == Some(1)
    requires pos == if look(1, 2).value <= 1 then 0 else 1
    requires r == (if pos == 0 then [3, 4] else [1, 5]) && look(r[0], r[1]) == None
    ensures Merged(REPEATED, look, [1, 2, 4]) == r
  {
    var ids := [1, 2, 4];
    assert At(look, ids, 0) == look(1, 2) && At(look, ids, 1) == look(2, 4);
    assert BestAmong(look, ids, 1) == Some(0);
    assert BestAmong(look, ids, 2) == Some(pos);
    assert Found(REPEATED, look, 1, 2);
    assert MergeAt(REPEATED, look, ids, pos) == r;
    assert At(look, r, 0) == None;
    assert BestAmong(look, r, 1) == None;
    assert Merged(REPEATED, look, r) == r;
  }
}
