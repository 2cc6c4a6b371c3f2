/** The reader's result: a dictionary of the tensors by name, or an exception if one of them cannot be decoded. */
module FbinTable {
  import opened Bytes
  import opened Fbin
  import opened FbinReader
  import Quantizer

  const F32: nat := 0
  const Q8: nat := 1

  // What a name stands for. The bytes stand for the numbers decoded from them.
  datatype Entry = Entry(dtype: nat, shape: seq<nat>, raw: seq<Byte>)

  function Elements(shape: seq<nat>): nat
  {
    if shape == [] then 1 else shape[0] * Elements(shape[1..])
  }

  // Four bytes per number; or blocks of 34 bytes for 32 numbers; nothing else.
  predicate Decodable(e: Entry)
  {
    var n := Elements(e.shape);
    (e.dtype == F32 && |e.raw| == 4 * n) || (e.dtype == Q8 && n % 32 == 0 && |e.raw| == 34 * (n / 32))
  }

  function EntryOf(data: seq<Byte>, p: Parsed): Entry { Entry(p.info.dtype, p.info.shape, SliceOf(data, p)) }

  function Table(data: seq<Byte>, ps: seq<Parsed>): Option<map<string, Entry>>
    decreases |ps|
  {
    if ps == [] then Some(map[])
    else match Table(data, ps[..|ps| - 1])
      case None => None
      case Some(m) =>
        var p := ps[|ps| - 1];
        if Decodable(EntryOf(data, p)) then Some(m[p.name := EntryOf(data, p)]) else None
  }

  lemma {:induction false} TableStops(data: seq<Byte>, ps: seq<Parsed>, i: nat)
    requires i <= |ps| && Table(data, ps[..i]) == None
    ensures Table(data, ps) == None
    decreases |ps|
  {
    if i == |ps| {
      assert ps[..i] == ps;
    } else {
      assert ps[..|ps| - 1][..i] == ps[..i];
      TableStops(data, ps[..|ps| - 1], i);
    }
  }

  // The loop over the records.
  method LoadAll(data: seq<Byte>, ps: seq<Parsed>) returns (r: Option<map<string, Entry>>)
    ensures r == Table(data, ps)
  {
    hide EntryOf, Decodable;
    var out: map<string, Entry> := map[];
    for i := 0 to |ps|
      invariant Table(data, ps[..i]) == Some(out)
    {
      assert ps[..i + 1][..i] == ps[..i];
      var e := EntryOf(data, ps[i]);
      if !Decodable(e) {
        TableStops(data, ps, i + 1);
        return None;
      }
      out := out[ps[i].name := e];
    }
    assert ps[..|ps|] == ps;
    r := Some(out);
  }

  // No later record has the name of record i.
  predicate LastNamed(ps: seq<Parsed>, i: nat)
    requires i < |ps|
  {
    forall j :: i < j < |ps| ==> ps[j].name != ps[i].name
  }

  // The dictionary exists iff every record can be decoded.
  lemma {:induction false} TableIff(data: seq<Byte>, ps: seq<Parsed>)
    ensures Table(data, ps).Some? <==> forall i :: 0 <= i < |ps| ==> Decodable(EntryOf(data, ps[i]))
    decreases |ps|
  {
    hide EntryOf, Decodable;
    if ps != [] {
      var init := ps[..|ps| - 1];
      TableIff(data, init);
      assert forall i :: 0 <= i < |init| ==> init[i] == ps[i];
    }
  }

  // It holds the names of the records and no others.
  lemma {:induction false} TableNames(data: seq<Byte>, ps: seq<Parsed>, name: string)
    requires Table(data, ps).Some?
    ensures name in Table(data, ps).value <==> exists i :: 0 <= i < |ps| && ps[i].name == name
    decreases |ps|
  {
    hide EntryOf, Decodable;
    if ps != [] {
      var init, p := ps[..|ps| - 1], ps[|ps| - 1];
      TableNames(data, init, name);
      assert forall i :: 0 <= i < |init| ==> init[i] == ps[i];
      assert Table(data, ps).value == Table(data, init).value[p.name := EntryOf(data, p)];
    }
  }

  // And each name gives its last record.
  lemma {:induction false} TableLast(data: seq<Byte>, ps: seq<Parsed>, i: nat)
    requires Table(data, ps).Some? && i < |ps| && LastNamed(ps, i)
    ensures ps[i].name in Table(data, ps).value && Table(data, ps).value[ps[i].name] == EntryOf(data, ps[i])
    decreases |ps|
  {
    hide EntryOf, Decodable;
    var init, p := ps[..|ps| - 1], ps[|ps| - 1];
    assert Table(data, ps).value == Table(data, init).value[p.name := EntryOf(data, p)];
    if i < |init| { TableLast(data, init, i); }
  }

  // ---- what the writer wrote ----

  function EntryFor(t: Tensor): Entry { Entry(t.dtype, t.shape, t.raw) }

  predicate LastTensor(ts: seq<Tensor>, i: nat)
    requires i < |ts|
  {
    forall j :: i < j < |ts| ==> ts[j].name != ts[i].name
  }

  lemma WrittenEntry(ts: seq<Tensor>, i: nat)
    requires Encodable(Infos(ts)) && i < |ts|
    ensures ParseFbin(Blob(ts)).Some? && |ParseFbin(Blob(ts)).value| == |ts|
    ensures var p := ParseFbin(Blob(ts)).value[i]; p.name == ts[i].name && EntryOf(Blob(ts), p) == EntryFor(ts[i])
  {
    hide Encodable, Blob, ParseFbin, SliceOf, Infos;
    RoundTrip(ts);
  }

  // A written file loads iff every tensor can be decoded, and then every name gives its last tensor.
  lemma TableWritten(ts: seq<Tensor>)
    requires Encodable(Infos(ts))
    ensures ParseFbin(Blob(ts)).Some?
    ensures var m := Table(Blob(ts), ParseFbin(Blob(ts)).value);
      && (m.Some? <==> forall i :: 0 <= i < |ts| ==> Decodable(EntryFor(ts[i])))
      && (m.Some? ==> forall i :: 0 <= i < |ts| ==> ts[i].name in m.value)
      && (m.Some? ==> forall i :: 0 <= i < |ts| && LastTensor(ts, i) ==>
            ts[i].name in m.value && m.value[ts[i].name] == EntryFor(ts[i]))
  {
    hide Encodable, Blob, ParseFbin, SliceOf, Infos, EntryOf, EntryFor, Decodable, Table;
    RoundTrip(ts);
    var ps := ParseFbin(Blob(ts)).value;
    TableIff(Blob(ts), ps);
    forall i | 0 <= i < |ts|
      ensures ps[i].name == ts[i].name && EntryOf(Blob(ts), ps[i]) == EntryFor(ts[i])
    {
      WrittenEntry(ts, i);
    }
    var m := Table(Blob(ts), ps);
    if m.Some? {
      forall i | 0 <= i < |ts|
        ensures ts[i].name in m.value && (LastTensor(ts, i) ==> m.value[ts[i].name] == EntryFor(ts[i]))
      {
        TableNames(Blob(ts), ps, ts[i].name);
        if LastTensor(ts, i) { TableLast(Blob(ts), ps, i); }
      }
    }
  }

  lemma {:induction false} LastOf(ts: seq<Tensor>, i: nat) returns (j: nat)
    requires i < |ts|
    ensures i <= j < |ts| && ts[j].name == ts[i].name && LastTensor(ts, j)
    decreases |ts| - i
  {
    j := i;
    if k :| i < k < |ts| && ts[k].name == ts[i].name {
      j := LastOf(ts, k);
    }
  }

  // Every tensor is found under its name exactly when tensors of one name are the same tensor.
  lemma FoundByNameIff(ts: seq<Tensor>)
    requires Encodable(Infos(ts)) && forall i :: 0 <= i < |ts| ==> Decodable(EntryFor(ts[i]))
    ensures ParseFbin(Blob(ts)).Some?
    ensures var m := Table(Blob(ts), ParseFbin(Blob(ts)).value);
      && m.Some? && (forall i :: 0 <= i < |ts| ==> ts[i].name in m.value)
      && ((forall i :: 0 <= i < |ts| ==> m.value[ts[i].name] == EntryFor(ts[i])) <==>
          (forall i, j :: 0 <= i < j < |ts| && ts[i].name == ts[j].name ==> EntryFor(ts[i]) == EntryFor(ts[j])))
  {
    hide Encodable, Blob, ParseFbin, Infos, EntryFor, Decodable, Table;
    TableWritten(ts);
    var m := Table(Blob(ts), ParseFbin(Blob(ts)).value).value;
    forall i | 0 <= i < |ts| && forall i, j :: 0 <= i < j < |ts| && ts[i].name == ts[j].name ==>
                                  EntryFor(ts[i]) == EntryFor(ts[j])
      ensures m[ts[i].name] == EntryFor(ts[i])
    {
      var j := LastOf(ts, i);
    }
  }

  lemma {:induction false} ElementsOfTwo(a: seq<nat>, b: seq<nat>)
    ensures Elements(a + b) == Elements(a) * Elements(b)
    decreases |a|
  {
    if a == [] {
      assert a + b == b;
    } else {
      ElementsOfTwo(a[1..], b);
      assert (a + b)[1..] == a[1..] + b;
      Regrouped(a[0], Elements(a[1..]), Elements(b));
    }
  }

  lemma Regrouped(x: nat, y: nat, z: nat)
    ensures x * (y * z) == (x * y) * z
  {
  }

  lemma OneDimension(n: nat)
    ensures Elements([n]) == n && Elements([]) == 1
  {
    assert [n][1..] == [];
  }

  // Numbers of four bytes each are accepted iff they are as many as the shape has elements; blocks of 34 bytes iff they
  // hold 32 elements each; and no other dtype is.
  lemma DecodableIff(shape: seq<nat>, parts: seq<seq<Byte>>, dtype: nat, width: nat)
    requires forall i :: 0 <= i < |parts| ==> |parts[i]| == width
    ensures dtype == 0 && width == 4 ==>
      (Decodable(Entry(dtype, shape, Flatten(parts))) <==> |parts| == Elements(shape))
    ensures dtype == 1 && width == 34 ==>
      (Decodable(Entry(dtype, shape, Flatten(parts))) <==> 32 * |parts| == Elements(shape))
    ensures dtype > 1 ==> !Decodable(Entry(dtype, shape, Flatten(parts)))
  {
    hide Flatten, Elements;
    Quantizer.FlattenLength(parts, width);
    ThirtyTwos(Elements(shape));
  }

  lemma ThirtyTwos(n: nat)
    ensures n % 32 == 0 <==> 32 * (n / 32) == n
  {
  }

  // The blocks that the repository's own quantizer writes have 36 bytes: the reader refuses every quantized tensor
  // but the empty one.
  lemma OwnBlocksRefused(fp: Quantizer.Arith, values: seq<real>, name: string, shape: seq<nat>)
    requires Quantizer.TwoBytes(fp) && |values| % 32 == 0 && Elements(shape) == |values|
    ensures Decodable(EntryFor(Tensor(name, Q8, shape, Flatten(Quantizer.Blocks(fp, values))))) <==> values == []
  {
    hide Flatten, Elements;
    Quantizer.BlocksWide(fp, values);
  }
}
