/** The runtime tokenizer: special tokens are matched first, the text between them goes through byte-pair encoding. */
module TokEncode {
  import opened Bytes
  import opened TokVocab
  import opened ByteChars
  import Bpe
  import Utf8

  // A parsed file with the lookup structures the runtime derives from it.
  datatype Runtime = Runtime(vocab: seq<string>, index: map<string, nat>, merges: seq<Triple>, look: Bpe.Lookup,
                             specials: seq<(string, nat)>)

  // The special tokens are tokens of the vocabulary, none empty.
  ghost predicate Listed(vocab: seq<string>, specials: seq<(string, nat)>)
  {
    forall k :: 0 <= k < |specials| ==>
      specials[k].0 != "" && specials[k].1 < |vocab| && vocab[specials[k].1] == specials[k].0
  }

  predicate LongestFirst(specials: seq<(string, nat)>)
  {
    forall j, k :: 0 <= j < k < |specials| ==> |Utf8.Encode(specials[j].0)| >= |Utf8.Encode(specials[k].0)|
  }

  ghost predicate Built(rt: Runtime)
  {
    && IndexOf(rt.vocab, rt.index) && Bpe.Finds(rt.merges, rt.look)
    && Listed(rt.vocab, rt.specials) && LongestFirst(rt.specials)
  }

  // ---- sorting the special tokens ----

  // In front of everything that is not longer, so that equal lengths keep their order.
  function Insert(x: (string, nat), sorted: seq<(string, nat)>): (r: seq<(string, nat)>)
    ensures forall y :: y in r <==> y == x || y in sorted
  {
    if sorted == [] || |Utf8.Encode(x.0)| >= |Utf8.Encode(sorted[0].0)| then [x] + sorted
    else
      assert sorted == [sorted[0]] + sorted[1..];
      [sorted[0]] + Insert(x, sorted[1..])
  }

  function Sorted(specials: seq<(string, nat)>): (r: seq<(string, nat)>)
    ensures forall y :: y in r <==> y in specials
  {
    if specials == [] then []
    else
      assert specials == [specials[0]] + specials[1..];
      Insert(specials[0], Sorted(specials[1..]))
  }

  lemma {:induction false} InsertKeepsOrder(x: (string, nat), sorted: seq<(string, nat)>)
    requires LongestFirst(sorted)
    ensures LongestFirst(Insert(x, sorted))
  {
    hide Utf8.Encode;
    if sorted != [] && |Utf8.Encode(x.0)| < |Utf8.Encode(sorted[0].0)| {
      var rest := Insert(x, sorted[1..]);
      InsertKeepsOrder(x, sorted[1..]);
      forall k | 0 <= k < |rest| ensures |Utf8.Encode(sorted[0].0)| >= |Utf8.Encode(rest[k].0)| {
        assert rest[k] in rest;
      }
    }
  }

  lemma {:induction false} SortedLongestFirst(specials: seq<(string, nat)>)
    ensures LongestFirst(Sorted(specials))
  {
    hide LongestFirst, Insert;
    if specials == [] {
      NoneOutOfOrder();
    } else {
      SortedLongestFirst(specials[1..]);
      InsertKeepsOrder(specials[0], Sorted(specials[1..]));
    }
  }

  lemma NoneOutOfOrder()
    ensures LongestFirst([])
  {
  }

  lemma SortedListed(vocab: seq<string>, specials: seq<(string, nat)>)
    requires Listed(vocab, specials)
    ensures Listed(vocab, Sorted(specials))
  {
    var sorted := Sorted(specials);
    forall k | 0 <= k < |sorted|
      ensures sorted[k].0 != "" && sorted[k].1 < |vocab| && vocab[sorted[k].1] == sorted[k].0
    {
      assert sorted[k] in sorted;
      assert sorted[k] in specials;
    }
  }

  // ---- one chunk between special tokens ----

  // Base tokens of the bytes; a byte whose character is not a token is dropped.
  function BaseTokens(index: map<string, nat>, bytes: seq<Byte>): (r: seq<nat>)
    decreases |bytes|
  {
    if bytes == [] then []
    else
      var s := [CharOf(bytes[|bytes| - 1])];
      BaseTokens(index, bytes[..|bytes| - 1]) + if s in index then [index[s]] else []
  }

  function EncodeChunk(rt: Runtime, bytes: seq<Byte>): seq<nat>
    requires Bpe.Finds(rt.merges, rt.look)
  {
    Bpe.Merged(rt.merges, rt.look, BaseTokens(rt.index, bytes))
  }

  method ChunkTokens(rt: Runtime, bytes: seq<Byte>) returns (r: seq<nat>)
    requires Bpe.Finds(rt.merges, rt.look)
    ensures r == EncodeChunk(rt, bytes)
  {
    hide Bpe.Finds, Bpe.Merged, CharOf;
    r := [];
    for i := 0 to |bytes|
      invariant r == BaseTokens(rt.index, bytes[..i])
    {
      assert bytes[..i + 1][..i] == bytes[..i];
      var s := [CharOf(bytes[i])];
      if s in rt.index { r := r + [rt.index[s]]; }
    }
    assert bytes[..|bytes|] == bytes;
    r := Bpe.RunMerges(rt.merges, rt.look, r);
  }

  // ---- special tokens ----

  // The first special token that the bytes start with.
  function MatchFrom(specials: seq<(string, nat)>, bytes: seq<Byte>, k: nat): (r: Option<nat>)
    requires k <= |specials|
    ensures r.Some? ==> k <= r.value < |specials| && Utf8.Encode(specials[r.value].0) <= bytes
    ensures forall j :: k <= j < (if r.Some? then r.value else |specials|) ==> !(Utf8.Encode(specials[j].0) <= bytes)
    decreases |specials| - k
  {
    if k == |specials| then None
    else if Utf8.Encode(specials[k].0) <= bytes then Some(k)
    else MatchFrom(specials, bytes, k + 1)
  }

  function Match(specials: seq<(string, nat)>, bytes: seq<Byte>): (r: Option<nat>)
    ensures r.Some? ==> r.value < |specials| && Utf8.Encode(specials[r.value].0) <= bytes
  {
    MatchFrom(specials, bytes, 0)
  }

  method FindMatch(specials: seq<(string, nat)>, bytes: seq<Byte>) returns (r: Option<nat>)
    ensures r == Match(specials, bytes)
  {
    hide Utf8.Encode;
    for k := 0 to |specials|
      invariant Match(specials, bytes) == MatchFrom(specials, bytes, k)
    {
      if Utf8.Encode(specials[k].0) <= bytes { return Some(k); }
    }
    r := None;
  }

  // The distance to the next place where a special token starts, or to the end.
  function NextSpecial(specials: seq<(string, nat)>, bytes: seq<Byte>): (r: nat)
    ensures r <= |bytes|
    decreases |bytes|
  {
    if bytes == [] || Match(specials, bytes).Some? then 0 else 1 + NextSpecial(specials, bytes[1..])
  }

  method FindNextSpecial(specials: seq<(string, nat)>, bytes: seq<Byte>) returns (r: nat)
    ensures r == NextSpecial(specials, bytes)
  {
    hide Match;
    assert bytes[0..] == bytes;
    for i := 0 to |bytes|
      invariant NextSpecial(specials, bytes) == i + NextSpecial(specials, bytes[i..])
    {
      assert bytes[i..][1..] == bytes[i + 1..];
      var m := FindMatch(specials, bytes[i..]);
      if m.Some? { return i; }
    }
    r := |bytes|;
  }

  // ---- the whole text ----

  function Encode(rt: Runtime, bytes: seq<Byte>): (r: seq<nat>)
    requires Built(rt)
    decreases |bytes|
  {
    if bytes == [] then []
    else
      var m := Match(rt.specials, bytes);
      if m.Some? then
        Utf8.EncodeEmpty(rt.specials[m.value].0);
        [rt.specials[m.value].1] + Encode(rt, bytes[|Utf8.Encode(rt.specials[m.value].0)|..])
      else
        var n := NextSpecial(rt.specials, bytes);
        EncodeChunk(rt, bytes[..n]) + Encode(rt, bytes[n..])
  }

  lemma EncodeMatched(rt: Runtime, bytes: seq<Byte>, k: nat)
    requires Built(rt) && bytes != [] && Match(rt.specials, bytes) == Some(k)
    ensures 0 < |Utf8.Encode(rt.specials[k].0)| <= |bytes|
    ensures Encode(rt, bytes) == [rt.specials[k].1] + Encode(rt, bytes[|Utf8.Encode(rt.specials[k].0)|..])
  {
    hide Match, Utf8.Encode, EncodeChunk, IndexOf, LongestFirst, Bpe.Finds;
    Utf8.EncodeEmpty(rt.specials[k].0);
  }

  lemma EncodeUnmatched(rt: Runtime, bytes: seq<Byte>)
    requires Built(rt) && bytes != [] && Match(rt.specials, bytes) == None
    ensures var n := NextSpecial(rt.specials, bytes);
      n > 0 && Encode(rt, bytes) == EncodeChunk(rt, bytes[..n]) + Encode(rt, bytes[n..])
  {
    hide Match, Utf8.Encode, EncodeChunk, IndexOf, LongestFirst, Bpe.Finds;
  }

  method EncodeText(rt: Runtime, bytes: seq<Byte>) returns (out: seq<nat>)
    requires Built(rt)
    ensures out == Encode(rt, bytes)
  {
    hide Bpe.Finds, EncodeChunk, Match, Utf8.Encode, LongestFirst, IndexOf, Encode, NextSpecial, Listed;
    out := [];
    var i := 0;
    assert bytes[0..] == bytes && out + Encode(rt, bytes) == Encode(rt, bytes);
    while i < |bytes|
      invariant 0 <= i <= |bytes| && out + Encode(rt, bytes[i..]) == Encode(rt, bytes)
      decreases |bytes| - i
    {
      ghost var rest := bytes[i..];
      var m := FindMatch(rt.specials, bytes[i..]);
      var part: seq<nat>, step: nat;
      if m.Some? {
        EncodeMatched(rt, rest, m.value);
        part, step := [rt.specials[m.value].1], |Utf8.Encode(rt.specials[m.value].0)|;
      } else {
        EncodeUnmatched(rt, rest);
        step := FindNextSpecial(rt.specials, bytes[i..]);
        part := ChunkTokens(rt, bytes[i..][..step]);
      }
      assert rest[step..] == bytes[i + step..];
      assert out + (part + Encode(rt, rest[step..])) == out + part + Encode(rt, rest[step..]);
      out, i := out + part, i + step;
    }
    EncodeNothing(rt);
    assert bytes[i..] == [] && out + [] == out;
  }

  lemma EncodeNothing(rt: Runtime)
    requires Built(rt)
    ensures Encode(rt, []) == []
  {
  }

  // Concatenating the tokens and turning characters back into bytes.
  function DecodeSeq(vocab: seq<string>, ids: seq<nat>): seq<Byte> { ToBytes(Bpe.Text(vocab, ids)) }

  // ---- what sorting keeps ----

  // The special tokens with this text, in order.
  function Of(specials: seq<(string, nat)>, text: string): seq<(string, nat)>
  {
    if specials == [] then []
    else (if specials[0].0 == text then [specials[0]] else []) + Of(specials[1..], text)
  }

  lemma {:induction false} InsertOf(x: (string, nat), sorted: seq<(string, nat)>, text: string)
    ensures Of(Insert(x, sorted), text) == (if x.0 == text then [x] else []) + Of(sorted, text)
  {
    hide Utf8.Encode, Of;
    if sorted == [] || |Utf8.Encode(x.0)| >= |Utf8.Encode(sorted[0].0)| {
      OfCons(x, sorted, text);
    } else {
      var y, rest := sorted[0], sorted[1..];
      InsertOf(x, rest, text);
      OfCons(y, Insert(x, rest), text);
      OfCons(y, rest, text);
      assert sorted == [y] + rest && y.0 != x.0;
      Swapped(if x.0 == text then [x] else [], if y.0 == text then [y] else [], Of(rest, text));
    }
  }

  lemma OfCons(x: (string, nat), rest: seq<(string, nat)>, text: string)
    ensures Of([x] + rest, text) == (if x.0 == text then [x] else []) + Of(rest, text)
  {
    assert ([x] + rest)[1..] == rest;
  }

  lemma Swapped<T>(a: seq<T>, b: seq<T>, c: seq<T>)
    requires a == [] || b == []
    ensures a + (b + c) == b + (a + c)
  {
    assert [] + c == c && b + c == [] + (b + c) && a + c == [] + (a + c);
  }

  // Sorting loses and adds nothing, and tokens of one text stay in their order, so that the first of them is matched.
  lemma {:induction false} SortedOf(specials: seq<(string, nat)>, text: string)
    ensures Of(Sorted(specials), text) == Of(specials, text)
  {
    if specials != [] {
      SortedOf(specials[1..], text);
      InsertOf(specials[0], Sorted(specials[1..]), text);
    }
  }

  // ---- what decoding emits ----

  // The bytes of the tokens behind one another; an id without a token emits nothing.
  lemma {:induction false} DecodeEach(vocab: seq<string>, ids: seq<nat>)
    ensures ids == [] ==> DecodeSeq(vocab, ids) == []
    ensures ids != [] ==>
      DecodeSeq(vocab, ids) == (if ids[0] < |vocab| then ToBytes(vocab[ids[0]]) else []) + DecodeSeq(vocab, ids[1..])
  {
    hide CharBytes;
    if ids != [] { ToBytesConcat(Bpe.TokenText(vocab, ids[0]), Bpe.Text(vocab, ids[1..])); }
  }
}
