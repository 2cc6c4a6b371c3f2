/** Consistent overhead byte stuffing: the encoder and decoder loops and their round trip. */
module Cobs {
  import opened Bytes

  ghost predicate NoZero(s: seq<Byte>) { forall i :: 0 <= i < |s| ==> s[i] != 0 }

  // The encoding of the data that is left, when `run` has been read since the last code byte.
  function EncodeFrom(run: seq<Byte>, data: seq<Byte>): (r: seq<Byte>)
    requires |run| <= 253
    decreases |data|
  {
    if data == [] then [|run| + 1] + run
    else if data[0] == 0 then [|run| + 1] + run + EncodeFrom([], data[1..])
    else if |run| == 253 then [255] + (run + [data[0]]) + EncodeFrom([], data[1..])
    else EncodeFrom(run + [data[0]], data[1..])
  }

  function Encode(data: seq<Byte>): seq<Byte> { EncodeFrom([], data) }

  // None: the exception for a zero code or a truncated group.
  function Decode(data: seq<Byte>): (r: Option<seq<Byte>>)
    decreases |data|
  {
    if data == [] then Some([])
    else
      var code := data[0];
      if code == 0 || code > |data| then None
      else match Decode(data[code..])
        case None => None
        case Some(rest) => Some(data[1..code] + (if code < 255 && code < |data| then [0] else []) + rest)
  }

  // ---- the loops ----

  // Filling in the code byte of the current group.
  lemma CodeFilled(out: seq<Byte>, at: nat, code: Byte)
    requires at < |out|
    ensures out[at := code] == out[..at] + [code] + out[at + 1..]
  {
  }

  lemma GroupClosed(done: seq<Byte>, group: seq<Byte>, rest: seq<Byte>)
    ensures done + (group + rest) == done + group + rest
  {
  }

  method CobsEncode(data: seq<Byte>) returns (out: seq<Byte>)
    ensures out == Encode(data)
  {
    var codeIdx, code: int := 0, 1;
    out := [0];
    assert data[0..] == data && out[1..] == [] && out[..0] + EncodeFrom([], data) == Encode(data);
    for i := 0 to |data|
      invariant 0 <= codeIdx < |out| && code == |out| - codeIdx && code <= 254
      invariant out[..codeIdx] + EncodeFrom(out[codeIdx + 1..], data[i..]) == Encode(data)
    {
      ghost var done, run, rest := out[..codeIdx], out[codeIdx + 1..], data[i + 1..];
      ghost var more := EncodeFrom([], rest);
      assert data[i..][1..] == rest;
      if data[i] == 0 {
        CodeFilled(out, codeIdx, code);
        GroupClosed(done, [code] + run, more);
        out := out[codeIdx := code];
        assert out == done + ([code] + run);
        codeIdx := |out|;
        out := out + [0];
        code := 1;
      } else {
        out := out + [data[i]];
        code := code + 1;
        assert out[codeIdx + 1..] == run + [data[i]] && out[..codeIdx] == done;
        if code == 255 {
          CodeFilled(out, codeIdx, 255);
          GroupClosed(done, [255] + (run + [data[i]]), more);
          out := out[codeIdx := 255];
          assert out == done + ([255] + (run + [data[i]]));
          codeIdx := |out|;
          out := out + [0];
          code := 1;
        }
      }
    }
    CodeFilled(out, codeIdx, code);
    out := out[codeIdx := code];
  }

  method CobsDecode(data: seq<Byte>) returns (r: Option<seq<Byte>>)
    ensures r == Decode(data)
  {
    var out, idx := [], 0;
    assert data[0..] == data;
    PrependMore([], [], Decode(data));
    while idx < |data|
      invariant 0 <= idx <= |data|
      invariant Decode(data) == Prepend(out, Decode(data[idx..]))
    {
      var code: int := data[idx];
      if code == 0 { return None; }
      ghost var start, before, tail := idx, out, data[idx..];
      idx := idx + 1;
      for k := 1 to code
        invariant idx == start + k <= |data| && out == before + tail[1..k]
      {
        if idx >= |data| { return None; }
        out := out + [data[idx]];
        idx := idx + 1;
      }
      assert tail[code..] == data[idx..];
      if code < 255 && idx < |data| { out := out + [0]; }
      GroupStep(tail);
      PrependMore(before, Group(tail), Decode(tail[code..]));
      assert out == before + Group(tail);
    }
    assert data[idx..] == [];
    assert out + [] == out;
    r := Some(out);
  }

  // What the first group of non-empty data decodes to.
  function Group(data: seq<Byte>): seq<Byte>
    requires |data| > 0 && 0 < data[0] <= |data|
  {
    data[1..data[0]] + (if data[0] < 255 && data[0] < |data| then [0] else [])
  }

  lemma GroupStep(data: seq<Byte>)
    requires |data| > 0 && 0 < data[0] <= |data|
    ensures Decode(data) == Prepend(Group(data), Decode(data[data[0]..]))
  {
  }

  function Prepend(out: seq<Byte>, rest: Option<seq<Byte>>): Option<seq<Byte>>
  {
    match rest case None => None case Some(r) => Some(out + r)
  }

  lemma PrependMore(a: seq<Byte>, b: seq<Byte>, rest: Option<seq<Byte>>)
    ensures Prepend(a, Prepend(b, rest)) == Prepend(a + b, rest) && Prepend([], rest) == rest
  {
    if rest.Some? {
      assert a + (b + rest.value) == (a + b) + rest.value;
      assert [] + rest.value == rest.value;
    }
  }

  // ---- round trip ----

  // A group of the encoder followed by more is decoded as the group and what follows.
  lemma DecodeGroup(code: Byte, run: seq<Byte>, rest: seq<Byte>)
    requires code == |run| + 1
    ensures Decode([code] + run + rest) ==
      Prepend(run + (if code < 255 && rest != [] then [0] else []), Decode(rest))
  {
    var all := [code] + run + rest;
    assert all[code..] == rest && all[1..code] == run;
  }

  lemma {:induction false} EncodeNonEmpty(run: seq<Byte>, data: seq<Byte>)
    requires |run| <= 253
    ensures EncodeFrom(run, data) != []
    decreases |data|
  {
    if data != [] && data[0] != 0 && |run| < 253 { EncodeNonEmpty(run + [data[0]], data[1..]); }
  }

  // A closed group in front of an encoding that decodes to `rest`.
  lemma DecodeClosed(code: Byte, run: seq<Byte>, more: seq<Byte>, rest: seq<Byte>)
    requires code == |run| + 1 && more != [] && Decode(more) == Some(rest)
    ensures Decode([code] + run + more) == Some(run + (if code < 255 then [0] else []) + rest)
  {
    DecodeGroup(code, run, more);
  }

  lemma DecodeLast(run: seq<Byte>)
    requires |run| <= 254
    ensures Decode([|run| + 1] + run) == Some(run)
  {
    DecodeGroup(|run| + 1, run, []);
    assert [|run| + 1] + run + [] == [|run| + 1] + run;
    assert run + [] + [] == run;
  }

  lemma {:induction false} DecodeEncodeFrom(run: seq<Byte>, data: seq<Byte>)
    requires |run| <= 253
    ensures Decode(EncodeFrom(run, data)) == Some(run + data)
    decreases |data|
  {
    if data == [] {
      DecodeLast(run);
      assert run + data == run;
    } else if data[0] == 0 {
      DecodeEncodeFrom([], data[1..]);
      EncodeNonEmpty([], data[1..]);
      DecodeClosed(|run| + 1, run, EncodeFrom([], data[1..]), [] + data[1..]);
      assert run + [0] + ([] + data[1..]) == run + data;
    } else if |run| == 253 {
      DecodeEncodeFrom([], data[1..]);
      EncodeNonEmpty([], data[1..]);
      DecodeClosed(255, run + [data[0]], EncodeFrom([], data[1..]), [] + data[1..]);
      assert run + [data[0]] + [] + ([] + data[1..]) == run + data;
    } else {
      DecodeEncodeFrom(run + [data[0]], data[1..]);
      assert run + [data[0]] + data[1..] == run + data;
    }
  }

  // Decoding undoes encoding, for every byte string.
  lemma RoundTrip(data: seq<Byte>)
    ensures Decode(Encode(data)) == Some(data)
  {
    DecodeEncodeFrom([], data);
    assert [] + data == data;
  }

  // ---- shape of the encoding ----

  lemma {:induction false} EncodeFromNoZero(run: seq<Byte>, data: seq<Byte>)
    requires |run| <= 253 && NoZero(run)
    ensures NoZero(EncodeFrom(run, data))
    decreases |data|
  {
    if data != [] {
      if data[0] == 0 || |run| == 253 {
        EncodeFromNoZero([], data[1..]);
      } else {
        EncodeFromNoZero(run + [data[0]], data[1..]);
      }
    }
  }

  lemma EncodeNoZero(data: seq<Byte>)
    ensures NoZero(Encode(data))
  {
    EncodeFromNoZero([], data);
  }

  // Full 254-byte groups: maximal counts of non-zero bytes, restarted after each zero and each full group.
  function FullGroups(run: nat, data: seq<Byte>): nat
    requires run <= 253
    decreases |data|
  {
    if data == [] then 0
    else if data[0] == 0 then FullGroups(0, data[1..])
    else if run == 253 then 1 + FullGroups(0, data[1..])
    else FullGroups(run + 1, data[1..])
  }

  lemma {:induction false} EncodeFromLength(run: seq<Byte>, data: seq<Byte>)
    requires |run| <= 253
    ensures |EncodeFrom(run, data)| == |run| + |data| + 1 + FullGroups(|run|, data)
    ensures 254 * FullGroups(|run|, data) <= |run| + |data|
    decreases |data|
  {
    if data != [] {
      if data[0] == 0 || |run| == 253 {
        EncodeFromLength([], data[1..]);
      } else {
        EncodeFromLength(run + [data[0]], data[1..]);
      }
    }
  }

  // One byte of overhead, and one more for every full 254-byte group.
  lemma EncodeLength(data: seq<Byte>)
    ensures |Encode(data)| == |data| + 1 + FullGroups(0, data)
    ensures |Encode(data)| <= |data| + 1 + |data| / 254
  {
    EncodeFromLength([], data);
  }

  // ---- what the encoding shows of the data ----

  // A zero closes the group: what follows is encoded on its own.
  lemma {:induction false} EncodeAfterZero(run: seq<Byte>, h: seq<Byte>, x: seq<Byte>) returns (pre: seq<Byte>)
    requires |run| <= 253
    ensures EncodeFrom(run, h + [0] + x) == pre + EncodeFrom([], x)
    decreases |h|
  {
    var data := h + [0] + x;
    if h == [] {
      assert data[1..] == x;
      pre := [|run| + 1] + run;
    } else {
      assert data[1..] == h[1..] + [0] + x;
      if h[0] == 0 {
        var rest := EncodeAfterZero([], h[1..], x);
        pre := [|run| + 1] + run + rest;
      } else if |run| == 253 {
        var rest := EncodeAfterZero([], h[1..], x);
        pre := [255] + (run + [h[0]]) + rest;
      } else {
        pre := EncodeAfterZero(run + [h[0]], h[1..], x);
      }
    }
  }

  // Up to 253 bytes without a zero join the current run.
  lemma {:induction false} EncodeRun(run: seq<Byte>, m: seq<Byte>, rest: seq<Byte>)
    requires |run| + |m| <= 253 && NoZero(m)
    ensures EncodeFrom(run, m + rest) == EncodeFrom(run + m, rest)
    decreases |m|
  {
    if m == [] {
      assert m + rest == rest && run + m == run;
    } else {
      assert (m + rest)[1..] == m[1..] + rest && run + [m[0]] + m[1..] == run + m;
      EncodeRun(run + [m[0]], m[1..], rest);
    }
  }

  // The current run stands behind its code byte.
  lemma {:induction false} EncodeShowsRun(run: seq<Byte>, rest: seq<Byte>)
    requires |run| <= 253
    ensures |EncodeFrom(run, rest)| > |run| && EncodeFrom(run, rest)[1..1 + |run|] == run
    decreases |rest|
  {
    if rest != [] && rest[0] != 0 && |run| < 253 {
      EncodeShowsRun(run + [rest[0]], rest[1..]);
      var e := EncodeFrom(run + [rest[0]], rest[1..]);
      assert e[1..1 + |run|] == e[1..2 + |run|][..|run|];
    }
  }

  // ---- every input of the decoder ----

  ghost predicate Short(groups: seq<seq<Byte>>) { forall i :: 0 <= i < |groups| ==> |groups[i]| <= 254 }

  // Groups behind one another, each behind a byte that is its length and one.
  function Stuff(groups: seq<seq<Byte>>): seq<Byte>
    requires Short(groups)
  {
    if groups == [] then [] else [|groups[0]| + 1] + groups[0] + Stuff(groups[1..])
  }

  // The groups with a zero byte behind each but the last and those of 254 bytes.
  function Unstuff(groups: seq<seq<Byte>>): seq<Byte>
  {
    if groups == [] then []
    else groups[0] + (if |groups[0]| < 254 && |groups| > 1 then [0] else []) + Unstuff(groups[1..])
  }

  lemma {:induction false} StuffEmpty(groups: seq<seq<Byte>>)
    requires Short(groups)
    ensures Stuff(groups) == [] <==> groups == []
  {
  }

  // The decoder joins groups,
  lemma {:induction false} DecodeGroups(groups: seq<seq<Byte>>)
    requires Short(groups)
    ensures Decode(Stuff(groups)) == Some(Unstuff(groups))
    decreases |groups|
  {
    if groups != [] {
      DecodeGroups(groups[1..]);
      StuffEmpty(groups[1..]);
      var data, code := Stuff(groups), |groups[0]| + 1;
      assert data[code..] == Stuff(groups[1..]) && data[1..code] == groups[0];
    }
  }

  // and accepts nothing else.
  lemma {:induction false} GroupsOf(data: seq<Byte>) returns (groups: seq<seq<Byte>>)
    requires Decode(data).Some?
    ensures Short(groups) && Stuff(groups) == data
    decreases |data|
  {
    if data == [] { return []; }
    var code := data[0];
    var rest := GroupsOf(data[code..]);
    groups := [data[1..code]] + rest;
    assert groups[1..] == rest;
    assert data == [code] + data[1..code] + data[code..];
  }
}
