/**
 Converting a tokenizer description: the table from id to token, the index from token to id, and the merges as
 triples of ids.
 */
module TokVocab {
  import opened Bytes

  // An entry of `added_tokens`.
  datatype Added = Added(id: nat, content: string, special: bool)

  // An entry of `merges`: a list of parts, or two parts in one string behind one another.
  datatype Merge = Parts(parts: seq<string>) | Joined(text: string)

  datatype Triple = Triple(left: nat, right: nat, result: nat)

  // ---- id to token ----

  // The assignments of tokens to ids in the order they are made: the vocabulary, then the added tokens.
  function Writes(raw: seq<(string, nat)>, added: seq<Added>): (r: seq<(nat, string)>)
  {
    seq(|raw|, i requires 0 <= i < |raw| => (raw[i].1, raw[i].0)) +
    seq(|added|, i requires 0 <= i < |added| => (added[i].id, added[i].content))
  }

  // Assignment k is the last one to its id.
  ghost predicate LastTo(writes: seq<(nat, string)>, k: int)
  {
    0 <= k < |writes| && forall j :: k < j < |writes| ==> writes[j].0 != writes[k].0
  }

  ghost predicate Ends(writes: seq<(nat, string)>, id: nat, s: string)
  {
    exists k :: LastTo(writes, k) && writes[k] == (id, s)
  }

  // Token s stands at id: by the last assignment to it, or as the placeholder of an id never assigned.
  ghost predicate Stands(writes: seq<(nat, string)>, id: nat, s: string)
  {
    || Ends(writes, id, s)
    || (s == "" && forall k :: 0 <= k < |writes| ==> writes[k].0 != id)
  }

  ghost predicate TableOf(writes: seq<(nat, string)>, table: seq<string>)
  {
    && (forall k :: 0 <= k < |writes| ==> writes[k].0 < |table|)
    && (table != [] ==> exists k :: 0 <= k < |writes| && writes[k].0 == |table| - 1)
    && (forall id :: 0 <= id < |table| ==> Stands(writes, id, table[id]))
  }

  ghost predicate Collects(writes: seq<(nat, string)>, byId: map<nat, string>)
  {
    && (forall k :: 0 <= k < |writes| ==> writes[k].0 in byId)
    && (forall id :: id in byId ==> Ends(writes, id, byId[id]))
  }

  lemma CollectsOne(writes: seq<(nat, string)>, byId: map<nat, string>, id: nat, s: string)
    requires Collects(writes, byId)
    ensures Collects(writes + [(id, s)], byId[id := s])
  {
    var longer, m := writes + [(id, s)], byId[id := s];
    forall x | x in m
      ensures Ends(longer, x, m[x])
    {
      if x == id {
        assert LastTo(longer, |writes|) && longer[|writes|] == (x, s);
      } else {
        var k :| LastTo(writes, k) && writes[k] == (x, byId[x]);
        assert LastTo(longer, k) && longer[k] == (x, byId[x]);
      }
    }
  }

  method CollectById(raw: seq<(string, nat)>, added: seq<Added>) returns (byId: map<nat, string>)
    ensures Collects(Writes(raw, added), byId)
  {
    hide Collects;
    ghost var writes := Writes(raw, added);
    byId := map[];
    assert Collects([], byId) by { CollectsNothing(); }
    assert writes[..0] == [];
    for i := 0 to |raw|
      invariant Collects(writes[..i], byId)
    {
      CollectsOne(writes[..i], byId, raw[i].1, raw[i].0);
      assert writes[..i + 1] == writes[..i] + [(raw[i].1, raw[i].0)];
      byId := byId[raw[i].1 := raw[i].0];
    }
    for i := 0 to |added|
      invariant Collects(writes[..|raw| + i], byId)
    {
      ghost var k := |raw| + i;
      CollectsOne(writes[..k], byId, added[i].id, added[i].content);
      assert writes[..k + 1] == writes[..k] + [(added[i].id, added[i].content)];
      byId := byId[added[i].id := added[i].content];
    }
    assert writes[..|raw| + |added|] == writes;
  }

  lemma CollectsNothing()
    ensures Collects([], map[])
  {
  }

  method MaxKey(byId: map<nat, string>) returns (best: nat)
    requires byId.Keys != {}
    ensures best in byId && forall id :: id in byId ==> id <= best
  {
    var rest := byId.Keys;
    best :| best in rest;
    rest := rest - {best};
    while rest != {}
      invariant rest <= byId.Keys && best in byId && forall id :: id in byId && id !in rest ==> id <= best
      decreases |rest|
    {
      var id :| id in rest;
      if id > best { best := id; }
      rest := rest - {id};
    }
  }

  // Placeholders first, then every collected token into its place.
  method FillTable(byId: map<nat, string>, n: nat) returns (table: seq<string>)
    requires forall id :: id in byId ==> id < n
    ensures |table| == n
    ensures forall id :: 0 <= id < n ==> table[id] == if id in byId then byId[id] else ""
  {
    table := seq(n, _ => "");
    var rest := byId.Keys;
    while rest != {}
      invariant rest <= byId.Keys && |table| == n
      invariant forall id :: 0 <= id < n ==> table[id] == if id in byId && id !in rest then byId[id] else ""
      decreases |rest|
    {
      var id :| id in rest;
      table := table[id := byId[id]];
      rest := rest - {id};
    }
  }

  method BuildVocabTable(raw: seq<(string, nat)>, added: seq<Added>) returns (table: seq<string>)
    ensures TableOf(Writes(raw, added), table)
  {
    ghost var writes := Writes(raw, added);
    var byId := CollectById(raw, added);
    if byId.Keys == {} {
      table := [];
      return;
    }
    var top := MaxKey(byId);
    table := FillTable(byId, top + 1);
    TableFilled(writes, byId, table);
  }

  lemma TableFilled(writes: seq<(nat, string)>, byId: map<nat, string>, table: seq<string>)
    requires Collects(writes, byId) && table != [] && |table| - 1 in byId
    requires forall id :: id in byId ==> id < |table|
    requires forall id :: 0 <= id < |table| ==> table[id] == if id in byId then byId[id] else ""
    ensures TableOf(writes, table)
  {
    var top :| LastTo(writes, top) && writes[top] == (|table| - 1, byId[|table| - 1]);
    assert 0 <= top < |writes| && writes[top].0 == |table| - 1;
    forall id | 0 <= id < |table| ensures Stands(writes, id, table[id]) {}
  }

  // ---- token to id ----

  // Every non-empty token is indexed, by the last id it stands at.
  ghost predicate IndexOf(table: seq<string>, index: map<string, nat>)
  {
    && (forall id :: 0 <= id < |table| && table[id] != "" ==> table[id] in index)
    && (forall s :: s in index ==> s != "" && LastAt(table, index[s], s))
  }

  ghost predicate LastAt(table: seq<string>, id: nat, s: string)
  {
    0 <= id < |table| && table[id] == s && forall j :: id < j < |table| ==> table[j] != s
  }

  method BuildIndex(table: seq<string>) returns (index: map<string, nat>)
    ensures IndexOf(table, index)
  {
    index := map[];
    for id := 0 to |table|
      invariant IndexOf(table[..id], index)
    {
      if table[id] != "" { index := index[table[id] := id]; }
    }
    assert table[..|table|] == table;
  }

  // ---- merges ----

  // Position of the first space, or the length.
  function FirstSpace(text: string): (r: nat)
    ensures r <= |text| && (r < |text| ==> text[r] == ' ') && forall i :: 0 <= i < r ==> text[i] != ' '
  {
    if text == "" || text[0] == ' ' then 0 else 1 + FirstSpace(text[1..])
  }

  // Left and right token of a merge, or None where the entry does not have two parts.
  function Sides(m: Merge): (r: Option<(string, string)>)
  {
    match m
    case Parts(parts) => if |parts| == 2 then Some((parts[0], parts[1])) else None
    case Joined(text) =>
      var k := FirstSpace(text);
      if k < |text| then Some((text[..k], text[k + 1..])) else None
  }

  function Resolve(m: Merge, index: map<string, nat>): (r: Option<Triple>)
  {
    var sides := Sides(m);
    if sides == None then None
    else
      var (left, right) := sides.value;
      if left !in index || right !in index || left + right !in index then None
      else Some(Triple(index[left], index[right], index[left + right]))
  }

  // The merge at entries[at[k]] is what triple k came from: in order, none twice, none that resolves left out.
  ghost predicate Survivors(entries: seq<Merge>, index: map<string, nat>, at: seq<nat>, triples: seq<Triple>)
  {
    && |at| == |triples|
    && (forall k :: 0 <= k < |at| ==> at[k] < |entries| && Resolve(entries[at[k]], index) == Some(triples[k]))
    && (forall j, k :: 0 <= j < k < |at| ==> at[j] < at[k])
    && (forall e :: 0 <= e < |entries| && Resolve(entries[e], index).Some? ==> e in at)
  }

  method ResolveMerges(entries: seq<Merge>, index: map<string, nat>)
    returns (triples: seq<Triple>, skipped: nat, ghost at: seq<nat>)
    ensures Survivors(entries, index, at, triples) && skipped + |triples| == |entries|
  {
    hide Resolve;
    triples, skipped, at := [], 0, [];
    for i := 0 to |entries|
      invariant Survivors(entries[..i], index, at, triples) && skipped + |triples| == i
    {
      var t := Resolve(entries[i], index);
      SurvivorsStep(entries[..i], index, at, triples, entries[i]);
      assert entries[..i + 1] == entries[..i] + [entries[i]];
      if t == None {
        skipped := skipped + 1;
      } else {
        triples, at := triples + [t.value], at + [i];
      }
    }
    assert entries[..|entries|] == entries;
  }

  lemma SurvivorsStep(entries: seq<Merge>, index: map<string, nat>, at: seq<nat>, triples: seq<Triple>, m: Merge)
    requires Survivors(entries, index, at, triples)
    ensures var t := Resolve(m, index);
      if t == None then Survivors(entries + [m], index, at, triples)
      else Survivors(entries + [m], index, at + [|entries|], triples + [t.value])
  {
    hide Resolve;
    var longer, at' := entries + [m], at + [|entries|];
    forall k | 0 <= k < |at| ensures longer[at[k]] == entries[at[k]] {}
    forall e | 0 <= e < |longer| && Resolve(longer[e], index).Some?
      ensures e in at' && (Resolve(m, index) == None ==> e in at)
    {
      if e < |entries| {
        assert longer[e] == entries[e];
        var k :| 0 <= k < |at| && at[k] == e;
        assert at'[k] == e;
      } else {
        assert at'[|at|] == e;
      }
    }
  }

  // ---- what a triple means ----

  // A triple joins the tokens of its sides.
  predicate Joins(table: seq<string>, t: Triple)
  {
    && t.left < |table| && t.right < |table| && t.result < |table|
    && table[t.result] == table[t.left] + table[t.right] && table[t.left] != "" && table[t.right] != ""
  }

  predicate AllJoin(table: seq<string>, triples: seq<Triple>)
  {
    forall k :: 0 <= k < |triples| ==> Joins(table, triples[k])
  }

  lemma ResolvedJoins(table: seq<string>, index: map<string, nat>, m: Merge)
    requires IndexOf(table, index) && Resolve(m, index).Some?
    ensures Joins(table, Resolve(m, index).value)
  {
    var (left, right) := Sides(m).value;
    assert LastAt(table, index[left], left) && LastAt(table, index[right], right);
    assert LastAt(table, index[left + right], left + right);
  }

  lemma SurvivorsJoin(table: seq<string>, index: map<string, nat>, entries: seq<Merge>, at: seq<nat>,
                      triples: seq<Triple>)
    requires IndexOf(table, index) && Survivors(entries, index, at, triples)
    ensures AllJoin(table, triples)
  {
    hide Resolve, IndexOf, Joins;
    forall k | 0 <= k < |triples| ensures Joins(table, triples[k]) {
      ResolvedJoins(table, index, entries[at[k]]);
    }
  }

  // A merge survives exactly when its two sides and their concatenation are non-empty tokens of the table.
  lemma SurvivesIff(table: seq<string>, index: map<string, nat>, m: Merge)
    requires IndexOf(table, index)
    ensures Resolve(m, index).Some? <==>
      Sides(m).Some? && var (l, r) := Sides(m).value; l != "" && r != "" && l in table && r in table && l + r in table
  {
    if Sides(m).Some? {
      var (l, r) := Sides(m).value;
      IndexedIff(table, index, l);
      IndexedIff(table, index, r);
      IndexedIff(table, index, l + r);
    }
  }

  lemma IndexedIff(table: seq<string>, index: map<string, nat>, s: string)
    requires IndexOf(table, index)
    ensures s in index <==> s != "" && s in table
  {
    if s in index { assert LastAt(table, index[s], s); }
  }

  // No pair has two merges.
  predicate OnePerPair(triples: seq<Triple>)
  {
    forall p, q :: 0 <= p < q < |triples| ==> triples[p].left != triples[q].left || triples[p].right != triples[q].right
  }

  lemma SameSides(table: seq<string>, index: map<string, nat>, d: Merge, e: Merge)
    requires IndexOf(table, index) && Resolve(d, index).Some? && Resolve(e, index).Some?
    ensures var a, b := Resolve(d, index).value, Resolve(e, index).value;
      a.left == b.left && a.right == b.right <==> Sides(d) == Sides(e)
  {
    var (l, r) := Sides(d).value;
    var (l', r') := Sides(e).value;
    assert LastAt(table, index[l], l) && LastAt(table, index[r], r);
    assert LastAt(table, index[l'], l') && LastAt(table, index[r'], r');
  }

  predicate BothResolve(d: Merge, e: Merge, index: map<string, nat>)
  {
    Resolve(d, index).Some? && Resolve(e, index).Some?
  }

  // So it is iff no two merges that survive have the same sides.
  lemma OnePerPairIff(table: seq<string>, index: map<string, nat>, entries: seq<Merge>, at: seq<nat>,
                      triples: seq<Triple>)
    requires IndexOf(table, index) && Survivors(entries, index, at, triples)
    ensures OnePerPair(triples) <==>
      forall d, e :: 0 <= d < e < |entries| && BothResolve(entries[d], entries[e], index) ==>
        Sides(entries[d]) != Sides(entries[e])
  {
    hide Resolve, IndexOf, Sides;
    forall p, q | 0 <= p < q < |triples|
      ensures triples[p].left == triples[q].left && triples[p].right == triples[q].right <==>
        Sides(entries[at[p]]) == Sides(entries[at[q]])
    {
      SameSides(table, index, entries[at[p]], entries[at[q]]);
    }
    forall d, e | 0 <= d < e < |entries| && BothResolve(entries[d], entries[e], index) && OnePerPair(triples)
      ensures Sides(entries[d]) != Sides(entries[e])
    {
      var p :| 0 <= p < |at| && at[p] == d;
      var q :| 0 <= q < |at| && at[q] == e;
      assert p < q;
    }
  }

  // ---- what the entries mean ----

  // An entry in one string splits at its first space; one with two parts is its parts; any other is skipped.
  lemma SidesMean(m: Merge)
    ensures match Sides(m)
      case Some((l, r)) =>
        (match m case Parts(parts) => parts == [l, r] case Joined(text) => text == l + " " + r && ' ' !in l)
      case None =>
        (match m case Parts(parts) => |parts| != 2 case Joined(text) => ' ' !in text)
  {
    match m
    case Parts(parts) =>
    case Joined(text) =>
      var k := FirstSpace(text);
      if k < |text| { assert text == text[..k] + " " + text[k + 1..]; }
  }

  // Added token k is the last one with its id.
  ghost predicate LastAdded(added: seq<Added>, k: nat)
  {
    k < |added| && forall j :: k < j < |added| ==> added[j].id != added[k].id
  }

  ghost predicate LastRaw(raw: seq<(string, nat)>, k: nat)
  {
    k < |raw| && forall j :: k < j < |raw| ==> raw[j].1 != raw[k].1
  }

  // An added token takes its id from the vocabulary, and a later one from an earlier one.
  lemma AddedWins(raw: seq<(string, nat)>, added: seq<Added>, table: seq<string>)
    requires TableOf(Writes(raw, added), table)
    ensures forall k: nat :: LastAdded(added, k) ==> added[k].id < |table| && table[added[k].id] == added[k].content
    ensures forall k: nat :: LastRaw(raw, k) && (forall j :: 0 <= j < |added| ==> added[j].id != raw[k].1) ==>
      raw[k].1 < |table| && table[raw[k].1] == raw[k].0
  {
    var writes := Writes(raw, added);
    forall k: nat | LastAdded(added, k) ensures added[k].id < |table| && table[added[k].id] == added[k].content {
      StandsLast(writes, table, |raw| + k);
    }
    forall k: nat | LastRaw(raw, k) && forall j :: 0 <= j < |added| ==> added[j].id != raw[k].1
      ensures raw[k].1 < |table| && table[raw[k].1] == raw[k].0
    {
      StandsLast(writes, table, k);
    }
  }

  lemma StandsLast(writes: seq<(nat, string)>, table: seq<string>, k: nat)
    requires TableOf(writes, table) && LastTo(writes, k)
    ensures writes[k].0 < |table| && table[writes[k].0] == writes[k].1
  {
    var id := writes[k].0;
    assert Stands(writes, id, table[id]);
    var i :| LastTo(writes, i) && writes[i] == (id, table[id]);
    assert i == k;
  }
}
