/** Encoding and decoding text with a converted tokenizer, from the converter's input to the runtime's output. */
module TokCorrect {
  import opened Bytes
  import opened TokVocab
  import opened TokFile
  import opened ByteChars
  import opened TokEncode
  import Bpe
  import MergeIndex
  import Utf8

  // Every byte of the text has its character as a token.
  ghost predicate Covered(vocab: seq<string>, bytes: seq<Byte>)
  {
    forall i :: 0 <= i < |bytes| ==> [CharOf(bytes[i])] in vocab
  }

  ghost predicate AllPlain(specials: seq<(string, nat)>)
  {
    forall k :: 0 <= k < |specials| ==> Plain(specials[k].0)
  }

  lemma DecodeConcat(vocab: seq<string>, a: seq<nat>, b: seq<nat>)
    ensures DecodeSeq(vocab, a + b) == DecodeSeq(vocab, a) + DecodeSeq(vocab, b)
  {
    hide Bpe.Text, ToBytes;
    Bpe.TextConcat(vocab, a, b);
    ToBytesConcat(Bpe.Text(vocab, a), Bpe.Text(vocab, b));
  }

  lemma DecodeOne(vocab: seq<string>, id: nat)
    requires id < |vocab|
    ensures DecodeSeq(vocab, [id]) == ToBytes(vocab[id])
  {
    Bpe.TextOne(vocab, id);
  }

  // The bytes that are covered; the others are dropped.
  function Retained(vocab: seq<string>, bytes: seq<Byte>): (r: seq<Byte>)
    decreases |bytes|
  {
    if bytes == [] then []
    else
      var b := bytes[|bytes| - 1];
      Retained(vocab, bytes[..|bytes| - 1]) + if [CharOf(b)] in vocab then [b] else []
  }

  lemma {:induction false} RetainedIff(vocab: seq<string>, bytes: seq<Byte>)
    ensures Covered(vocab, bytes) ==> Retained(vocab, bytes) == bytes
    ensures !Covered(vocab, bytes) ==> |Retained(vocab, bytes)| < |bytes|
    decreases |bytes|
  {
    hide CharOf;
    if bytes != [] {
      var init, b := bytes[..|bytes| - 1], bytes[|bytes| - 1];
      RetainedIff(vocab, init);
      assert bytes == init + [b];
      assert Covered(vocab, bytes) <==> Covered(vocab, init) && [CharOf(b)] in vocab;
    }
  }

  lemma {:induction false} BaseTokensText(vocab: seq<string>, index: map<string, nat>, bytes: seq<Byte>)
    requires IndexOf(vocab, index)
    ensures Bpe.Text(vocab, BaseTokens(index, bytes)) == Chars(Retained(vocab, bytes))
    decreases |bytes|
  {
    hide CharOf, IndexOf, Bpe.Text;
    if bytes == [] {
      EmptyText(vocab);
    } else {
      var init, b := bytes[..|bytes| - 1], bytes[|bytes| - 1];
      var s := [CharOf(b)];
      BaseTokensText(vocab, index, init);
      IndexedIff(vocab, index, s);
      if s in index {
        IndexedToken(vocab, index, s);
        Bpe.TextConcat(vocab, BaseTokens(index, init), [index[s]]);
        Bpe.TextOne(vocab, index[s]);
        assert Chars(Retained(vocab, init) + [b]) == Chars(Retained(vocab, init)) + s;
      } else {
        assert BaseTokens(index, bytes) == BaseTokens(index, init);
        assert Retained(vocab, bytes) == Retained(vocab, init);
      }
    }
  }

  lemma EmptyText(vocab: seq<string>)
    ensures Bpe.Text(vocab, []) == ""
  {
  }

  lemma IndexedToken(vocab: seq<string>, index: map<string, nat>, s: string)
    requires IndexOf(vocab, index) && s in vocab && s != ""
    ensures s in index && index[s] < |vocab| && vocab[index[s]] == s
  {
    IndexedIff(vocab, index, s);
    assert LastAt(vocab, index[s], s);
  }

  // A chunk without special tokens comes back without its uncovered bytes, however the merges are ordered: as it was
  // exactly when it is covered.
  lemma ChunkDecodes(rt: Runtime, bytes: seq<Byte>)
    requires Built(rt) && AllJoin(rt.vocab, rt.merges)
    ensures DecodeSeq(rt.vocab, EncodeChunk(rt, bytes)) == Retained(rt.vocab, bytes)
    ensures DecodeSeq(rt.vocab, EncodeChunk(rt, bytes)) == bytes <==> Covered(rt.vocab, bytes)
  {
    hide Bpe.Text, ToBytes, Bpe.Merged, BaseTokens, Covered, Retained, AllJoin, IndexOf, Listed, LongestFirst,
         Bpe.Finds;
    var base := BaseTokens(rt.index, bytes);
    BaseTokensText(rt.vocab, rt.index, bytes);
    Bpe.GreedyPreservesText(rt.vocab, rt.merges, rt.look, base);
    ToBytesOfChars(Retained(rt.vocab, bytes));
    RetainedIff(rt.vocab, bytes);
  }

  // Where the scan meets a special token it is plain, and what lies between them is covered.
  ghost predicate Recoverable(vocab: seq<string>, specials: seq<(string, nat)>, bytes: seq<Byte>)
    requires Listed(vocab, specials)
    decreases |bytes|
  {
    if bytes == [] then true
    else
      var m := Match(specials, bytes);
      if m.Some? then
        Utf8.EncodeEmpty(specials[m.value].0);
        Plain(specials[m.value].0) && Recoverable(vocab, specials, bytes[|Utf8.Encode(specials[m.value].0)|..])
      else
        var n := NextSpecial(specials, bytes);
        Covered(vocab, bytes[..n]) && Recoverable(vocab, specials, bytes[n..])
  }

  // Decoding undoes encoding exactly for such texts; every other text comes back shorter.
  lemma {:induction false} EncodeDecodes(rt: Runtime, bytes: seq<Byte>)
    requires Built(rt) && AllJoin(rt.vocab, rt.merges)
    ensures DecodeSeq(rt.vocab, Encode(rt, bytes)) == bytes <==> Recoverable(rt.vocab, rt.specials, bytes)
    ensures !Recoverable(rt.vocab, rt.specials, bytes) ==> |DecodeSeq(rt.vocab, Encode(rt, bytes))| < |bytes|
    decreases |bytes|
  {
    hide DecodeSeq, EncodeChunk, Covered, Retained, AllJoin, IndexOf, LongestFirst, Bpe.Finds, Match, Utf8.Encode;
    if bytes == [] {
      NothingDecodes(rt.vocab);
    } else {
      var m := Match(rt.specials, bytes);
      if m.Some? {
        SpecialDecodes(rt, bytes, m.value);
      } else {
        EncodeUnmatched(rt, bytes);
        var n := NextSpecial(rt.specials, bytes);
        ChunkDecodes(rt, bytes[..n]);
        RetainedIff(rt.vocab, bytes[..n]);
        EncodeDecodes(rt, bytes[n..]);
        var x, y := EncodeChunk(rt, bytes[..n]), Encode(rt, bytes[n..]);
        DecodeConcat(rt.vocab, x, y);
        Rejoined(bytes, n, DecodeSeq(rt.vocab, x), DecodeSeq(rt.vocab, y));
      }
    }
  }

  // Two parts, each the original one or shorter.
  lemma Rejoined(bytes: seq<Byte>, n: nat, x: seq<Byte>, y: seq<Byte>)
    requires n <= |bytes| && (x == bytes[..n] || |x| < n) && (y == bytes[n..] || |y| < |bytes| - n)
    ensures x == bytes[..n] && y == bytes[n..] ==> x + y == bytes
    ensures x != bytes[..n] || y != bytes[n..] ==> |x + y| < |bytes|
  {
  }

  lemma NothingDecodes(vocab: seq<string>)
    ensures DecodeSeq(vocab, []) == []
  {
  }

  lemma {:induction false} SpecialDecodes(rt: Runtime, bytes: seq<Byte>, k: nat)
    requires Built(rt) && AllJoin(rt.vocab, rt.merges)
    requires bytes != [] && Match(rt.specials, bytes) == Some(k)
    ensures DecodeSeq(rt.vocab, Encode(rt, bytes)) == bytes <==> Recoverable(rt.vocab, rt.specials, bytes)
    ensures !Recoverable(rt.vocab, rt.specials, bytes) ==> |DecodeSeq(rt.vocab, Encode(rt, bytes))| < |bytes|
    decreases |bytes|, 0
  {
    hide DecodeSeq, EncodeChunk, Covered, AllJoin, IndexOf, LongestFirst, Bpe.Finds, Match, Utf8.Encode, ToBytes, Plain;
    var (s, id) := rt.specials[k];
    var n := |Utf8.Encode(s)|;
    EncodeMatched(rt, bytes, k);
    EncodeDecodes(rt, bytes[n..]);
    DecodeConcat(rt.vocab, [id], Encode(rt, bytes[n..]));
    DecodeOne(rt.vocab, id);
    PlainLength(s);
    assert bytes[..n] == Utf8.Encode(s);
    Rejoined(bytes, n, ToBytes(s), DecodeSeq(rt.vocab, Encode(rt, bytes[n..])));
  }

  // A covered text is such a text when the special tokens are plain.
  lemma {:induction false} CoveredRecovers(vocab: seq<string>, specials: seq<(string, nat)>, bytes: seq<Byte>)
    requires Listed(vocab, specials) && Covered(vocab, bytes) && AllPlain(specials)
    ensures Recoverable(vocab, specials, bytes)
    decreases |bytes|
  {
    hide Covered, Match, Utf8.Encode, Plain;
    if bytes != [] {
      var m := Match(specials, bytes);
      var n := if m.Some? then |Utf8.Encode(specials[m.value].0)| else NextSpecial(specials, bytes);
      if m.Some? { Utf8.EncodeEmpty(specials[m.value].0); }
      CoveredParts(vocab, bytes, n);
      CoveredRecovers(vocab, specials, bytes[n..]);
    }
  }

  lemma CoveredParts(vocab: seq<string>, bytes: seq<Byte>, n: nat)
    requires Covered(vocab, bytes) && n <= |bytes|
    ensures Covered(vocab, bytes[..n]) && Covered(vocab, bytes[n..])
  {
    hide CharOf;
  }

  // A special token's own text comes back exactly when the token is plain.
  lemma SpecialComesBackIff(rt: Runtime, k: nat)
    requires Built(rt) && k < |rt.specials|
    ensures var text := Utf8.Encode(rt.specials[k].0);
      DecodeSeq(rt.vocab, Encode(rt, text)) == text <==> Plain(rt.specials[k].0)
  {
    hide DecodeSeq, Utf8.Encode, ToBytes, Plain, IndexOf, Bpe.Finds, EncodeChunk;
    var s := rt.specials[k].0;
    var text := Utf8.Encode(s);
    Utf8.EncodeEmpty(s);
    var j := OwnMatch(rt, k);
    var id := rt.specials[j].1;
    assert text[|text|..] == [];
    assert Encode(rt, []) == [];
    assert Encode(rt, text) == [id] + [];
    assert [id] + [] == [id];
    DecodeOne(rt.vocab, id);
    PlainIff(s);
  }

  // The longest special token at the start of a special token's text is that token.
  lemma OwnMatch(rt: Runtime, k: nat) returns (j: nat)
    requires Built(rt) && k < |rt.specials|
    ensures j < |rt.specials| && Match(rt.specials, Utf8.Encode(rt.specials[k].0)) == Some(j)
    ensures rt.specials[j].0 == rt.specials[k].0
  {
    hide Utf8.Encode, Utf8.Decode, IndexOf, Bpe.Finds;
    var text := Utf8.Encode(rt.specials[k].0);
    assert text <= text;
    j := Match(rt.specials, text).value;
    assert j <= k;
    assert |Utf8.Encode(rt.specials[j].0)| >= |text|;
    assert Utf8.Encode(rt.specials[j].0) == text;
    Utf8.DecodeOfEncode(rt.specials[j].0);
    Utf8.DecodeOfEncode(rt.specials[k].0);
  }

  // For instance a tokenizer with one special token of one accented letter: the letter is matched as two bytes and
  // emitted as one.
  const ACCENT: string := ['\U{00E9}']

  function Accented(): Runtime
  {
    Runtime([ACCENT], map[ACCENT := 0], [], MergeIndex.Look([]), [(ACCENT, 0)])
  }

  lemma AccentLost()
    ensures Built(Accented()) && AllJoin(Accented().vocab, Accented().merges)
    ensures DecodeSeq(Accented().vocab, Encode(Accented(), Utf8.Encode(ACCENT))) != Utf8.Encode(ACCENT)
  {
    hide Bpe.Finds, MergeIndex.Look, DecodeSeq, Encode, Utf8.Encode;
    MergeIndex.LookFinds([]);
    var table := [ACCENT];
    assert LastAt(table, 0, ACCENT);
    assert Built(Accented());
    SpecialComesBackIff(Accented(), 0);
    assert !Kept(ACCENT[0]);
  }

  // ---- text ----

  // The bytes as a string; bytes that are not UTF-8 go through a lossy conversion.
  function DecodeText(vocab: seq<string>, ids: seq<nat>, lossy: seq<Byte> -> string): string
  {
    var s := Utf8.Decode(DecodeSeq(vocab, ids));
    if s.Some? then s.value else lossy(DecodeSeq(vocab, ids))
  }

  // Strings that can be recovered come back as they were, without the lossy conversion; and no other string comes
  // back without it.
  lemma TextComesBack(rt: Runtime, text: string, lossy: seq<Byte> -> string)
    requires Built(rt) && AllJoin(rt.vocab, rt.merges)
    ensures var ids := Encode(rt, Utf8.Encode(text));
      Recoverable(rt.vocab, rt.specials, Utf8.Encode(text)) <==>
      Utf8.Decode(DecodeSeq(rt.vocab, ids)).Some? && DecodeText(rt.vocab, ids, lossy) == text
  {
    hide AllJoin, IndexOf, Bpe.Finds, LongestFirst, Recoverable, DecodeSeq, Encode, Utf8.Encode, Utf8.Decode;
    var bytes := Utf8.Encode(text);
    var back := DecodeSeq(rt.vocab, Encode(rt, bytes));
    EncodeDecodes(rt, bytes);
    Utf8.DecodeOfEncode(text);
    if Utf8.Decode(back).Some? { Utf8.EncodeOfDecode(back); }
  }

  // ---- end to end ----

  // Whatever a search for a pair finds, the converted merges apply in the order of the list exactly when no two merges
  // that survive the conversion have the same sides.
  lemma ConvertedOrder(table: seq<string>, index: map<string, nat>, entries: seq<Merge>, at: seq<nat>,
                       triples: seq<Triple>)
    requires IndexOf(table, index) && Survivors(entries, index, at, triples)
    ensures (forall look: Bpe.Lookup :: Bpe.Finds(triples, look) ==> Bpe.InListOrder(triples, look)) <==>
      forall d, e :: 0 <= d < e < |entries| && BothResolve(entries[d], entries[e], index) ==>
        Sides(entries[d]) != Sides(entries[e])
  {
    hide IndexOf, Survivors, OnePerPair, Bpe.Finds, Bpe.InListOrder, Sides, BothResolve;
    Bpe.OrderKeptIff(triples);
    OnePerPairIff(table, index, entries, at, triples);
  }

  // What the runtime makes of a parsed file.
  ghost predicate LoadedFrom(rt: Runtime, tk: Tokenizer)
  {
    && rt.vocab == tk.vocab && rt.merges == tk.merges && rt.specials == Sorted(tk.specials)
    && IndexOf(tk.vocab, rt.index) && rt.look == MergeIndex.Look(tk.merges)
  }

  lemma LoadedIsBuilt(rt: Runtime, tk: Tokenizer)
    requires LoadedFrom(rt, tk) && Listed(tk.vocab, tk.specials)
    ensures Built(rt)
  {
    hide IndexOf, Bpe.Finds, Listed, Sorted, LongestFirst;
    SortedListed(tk.vocab, tk.specials);
    SortedLongestFirst(tk.specials);
    MergeIndex.LookFinds(tk.merges);
  }

  ghost predicate SpecialsArePlain(vocab: seq<string>, ids: seq<nat>)
  {
    forall i :: 0 <= i < |ids| && ids[i] < |vocab| ==> Plain(vocab[ids[i]])
  }

  lemma SpecialsPlain(vocab: seq<string>, ids: seq<nat>, rt: Runtime)
    requires rt.specials == Sorted(Specials(vocab, ids))
    requires SpecialsArePlain(vocab, ids)
    ensures AllPlain(rt.specials)
  {
    hide Plain;
    forall k | 0 <= k < |rt.specials| ensures Plain(rt.specials[k].0) {
      assert rt.specials[k] in rt.specials;
      SpecialFrom(vocab, ids, rt.specials[k]);
    }
  }

  lemma {:induction false} SpecialFrom(vocab: seq<string>, ids: seq<nat>, x: (string, nat))
    requires x in Specials(vocab, ids)
    ensures x.1 in ids && x.1 < |vocab| && vocab[x.1] == x.0
    decreases |ids|
  {
    var init := ids[..|ids| - 1];
    if x in Specials(vocab, init) { SpecialFrom(vocab, init, x); }
  }

  // Convert a vocabulary and its merges, write the file, parse it, and encode a text: decoding gives the text back
  // exactly when it can be recovered, as every covered text can when the special tokens are plain.
  lemma EndToEnd(table: seq<string>, index: map<string, nat>, entries: seq<Merge>, at: seq<nat>, triples: seq<Triple>,
                 specials: seq<nat>, tk: Tokenizer, rt: Runtime, text: string,
                 lossy: seq<Byte> -> string)
    requires IndexOf(table, index) && Survivors(entries, index, at, triples)
    requires table != [] && Encodable(table, triples, specials)
    requires Parse(Image(table, triples, specials)) == Ok(tk) && LoadedFrom(rt, tk)
    ensures Built(rt) && Listed(table, rt.specials)
    ensures var ids := Encode(rt, Utf8.Encode(text));
      Recoverable(table, rt.specials, Utf8.Encode(text)) <==>
      Utf8.Decode(DecodeSeq(table, ids)).Some? && DecodeText(table, ids, lossy) == text
    ensures Covered(table, Utf8.Encode(text)) && SpecialsArePlain(table, specials) ==>
      DecodeText(table, Encode(rt, Utf8.Encode(text)), lossy) == text
  {
    hide IndexOf, Survivors, Parse, Image, Covered, Recoverable, SpecialsArePlain, DecodeSeq, Encode, Built, Sorted,
         Specials, MergeIndex.Look, DecodeText, Utf8.Encode, Utf8.Decode;
    RoundTrip(table, triples, specials);
    SurvivorsJoin(table, index, entries, at, triples);
    LoadedIsBuilt(rt, tk);
    BuiltLists(rt);
    TextComesBack(rt, text, lossy);
    if Covered(table, Utf8.Encode(text)) && SpecialsArePlain(table, specials) {
      SpecialsPlain(table, specials, rt);
      CoveredRecovers(table, rt.specials, Utf8.Encode(text));
    }
  }

  lemma BuiltLists(rt: Runtime)
    requires Built(rt)
    ensures Listed(rt.vocab, rt.specials)
  {
  }
}
