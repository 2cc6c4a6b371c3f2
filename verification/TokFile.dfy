/** The `.tokb` file: the converter's writer, the runtime's parser, and the round trip between them. */
module TokFile {
  import opened Bits
  import opened Bytes
  import opened TokVocab
  import Utf8

  const MAGIC: seq<Byte> := [84, 79, 75, 49]    // "TOK1"
  const WORD_LIMIT: nat := 0x1_0000_0000

  datatype Error = BadMagic | BadVersion(version: nat) | Truncated(needed: nat, got: nat) | NameNotUtf8 | Empty

  datatype Result<+T> = Ok(value: T) | Err(error: Error)

  // What the parser keeps of the file, apart from lookup structures derived from it.
  datatype Tokenizer = Tokenizer(vocab: seq<string>, merges: seq<Triple>, specials: seq<(string, nat)>)

  // ---- layout ----

  function Width(): nat { 4 }

  function Word(v: nat): (r: seq<Byte>)
    ensures |r| == 4
  {
    Le(v, Width())
  }

  function WordList(ws: seq<nat>): (r: seq<seq<Byte>>)
    ensures |r| == |ws| && forall i :: 0 <= i < |ws| ==> r[i] == Word(ws[i])
  {
    seq(|ws|, i requires 0 <= i < |ws| => Word(ws[i]))
  }

  function Words(ws: seq<nat>): seq<Byte> { Flatten(WordList(ws)) }

  function Tokens(vocab: seq<string>): (r: seq<seq<Byte>>)
    ensures |r| == |vocab| && forall i :: 0 <= i < |vocab| ==> r[i] == Utf8.Encode(vocab[i])
  {
    seq(|vocab|, i requires 0 <= i < |vocab| => Utf8.Encode(vocab[i]))
  }

  // Where each token starts in the packed bytes, and at the end their total length.
  function Offsets(tokens: seq<seq<Byte>>): (r: seq<nat>)
    ensures |r| == |tokens| + 1 && forall i :: 0 <= i <= |tokens| ==> r[i] == |Flatten(tokens[..i])|
  {
    seq(|tokens| + 1, i requires 0 <= i <= |tokens| => |Flatten(tokens[..i])|)
  }

  function MergeBytes(m: Triple): (r: seq<Byte>)
    ensures |r| == 12
  {
    Word(m.left) + Word(m.right) + Word(m.result)
  }

  function MergeList(merges: seq<Triple>): (r: seq<seq<Byte>>)
    ensures |r| == |merges| && forall i :: 0 <= i < |merges| ==> r[i] == MergeBytes(merges[i])
  {
    seq(|merges|, i requires 0 <= i < |merges| => MergeBytes(merges[i]))
  }

  function Merges(merges: seq<Triple>): seq<Byte> { Flatten(MergeList(merges)) }

  function Head(tokens: nat, merges: nat, specials: nat): (r: seq<Byte>)
    ensures |r| == 24
  {
    WordsLength([tokens, merges, specials, 0]);
    MAGIC + [2, 0, 0, 0] + Words([tokens, merges, specials, 0])
  }

  function Image(vocab: seq<string>, merges: seq<Triple>, specials: seq<nat>): (r: seq<Byte>)
  {
    Head(|vocab|, |merges|, |specials|) + Words(Offsets(Tokens(vocab))) + Flatten(Tokens(vocab)) +
    Merges(merges) + Words(specials)
  }

  predicate Small(ws: seq<nat>) { forall i :: 0 <= i < |ws| ==> ws[i] < WORD_LIMIT }

  predicate SmallMerges(ms: seq<Triple>)
  {
    forall i :: 0 <= i < |ms| ==> SmallMerge(ms[i])
  }

  // Every number fits its 32-bit field; otherwise packing raises.
  predicate Encodable(vocab: seq<string>, merges: seq<Triple>, specials: seq<nat>)
  {
    && |vocab| < WORD_LIMIT && |merges| < WORD_LIMIT && |specials| < WORD_LIMIT
    && Small(Offsets(Tokens(vocab))) && SmallMerges(merges) && Small(specials)
  }

  // ---- the writer ----

  // A number in its field; None is the exception for one that does not fit.
  function PackWord(v: nat): Option<seq<Byte>> { if v < WORD_LIMIT then Some(Word(v)) else None }

  method AppendWords(front: seq<Byte>, ws: seq<nat>) returns (r: Option<seq<Byte>>)
    ensures r == if Small(ws) then Some(front + Words(ws)) else None
  {
    hide Flatten, Word;
    var out := front;
    ghost var parts := WordList(ws);
    assert Flatten(parts[..0]) == [] by { FlattenNone(parts); }
    for i := 0 to |ws|
      invariant out == front + Flatten(parts[..i]) && Small(ws[..i])
    {
      var word := PackWord(ws[i]);
      if word == None { return None; }
      FlattenAt(parts, i);
      assert front + Flatten(parts[..i]) + parts[i] == front + (Flatten(parts[..i]) + parts[i]);
      out := out + word.value;
    }
    assert parts[..|parts|] == parts && ws[..|ws|] == ws;
    r := Some(out);
  }

  predicate SmallMerge(m: Triple) { m.left < WORD_LIMIT && m.right < WORD_LIMIT && m.result < WORD_LIMIT }

  method PackMerge(m: Triple) returns (r: Option<seq<Byte>>)
    ensures r == if SmallMerge(m) then Some(MergeBytes(m)) else None
  {
    hide Word;
    var left, right, result := PackWord(m.left), PackWord(m.right), PackWord(m.result);
    if left == None || right == None || result == None { return None; }
    r := Some(left.value + right.value + result.value);
  }

  method AppendMerges(front: seq<Byte>, merges: seq<Triple>) returns (r: Option<seq<Byte>>)
    ensures r == if SmallMerges(merges) then Some(front + Merges(merges)) else None
  {
    hide Flatten, MergeBytes, SmallMerge;
    var out := front;
    ghost var parts := MergeList(merges);
    assert Flatten(parts[..0]) == [] by { FlattenNone(parts); }
    for i := 0 to |merges|
      invariant out == front + Flatten(parts[..i]) && SmallMerges(merges[..i])
    {
      var m := PackMerge(merges[i]);
      if m == None { return None; }
      FlattenAt(parts, i);
      assert front + Flatten(parts[..i]) + parts[i] == front + (Flatten(parts[..i]) + parts[i]);
      out := out + m.value;
    }
    assert parts[..|parts|] == parts && merges[..|merges|] == merges;
    r := Some(out);
  }

  lemma FlattenNone(parts: seq<seq<Byte>>)
    ensures Flatten(parts[..0]) == []
  {
  }

  method PackTokens(vocab: seq<string>) returns (packed: seq<Byte>, offsets: seq<nat>)
    ensures packed == Flatten(Tokens(vocab)) && offsets == Offsets(Tokens(vocab))
  {
    hide Utf8.Encode, Flatten;
    ghost var tokens := Tokens(vocab);
    packed, offsets := [], [0];
    FlattenNone(tokens);
    for i := 0 to |vocab|
      invariant packed == Flatten(tokens[..i]) && offsets == Offsets(tokens)[..i + 1]
    {
      FlattenAt(tokens, i);
      packed := packed + Utf8.Encode(vocab[i]);
      offsets := offsets + [|packed|];
    }
    assert tokens[..|vocab|] == tokens;
  }

  method WriteTokb(vocab: seq<string>, merges: seq<Triple>, specials: seq<nat>) returns (r: Option<seq<Byte>>)
    ensures r == if Encodable(vocab, merges, specials) then Some(Image(vocab, merges, specials)) else None
  {
    hide Flatten, Words, Merges, SmallMerges, Offsets, Tokens;
    var packed, offsets := PackTokens(vocab);
    CountsSmall(|vocab|, |merges|, |specials|);
    r := AppendWords(MAGIC + [2, 0, 0, 0], [|vocab|, |merges|, |specials|, 0]);
    if r == None { return; }
    r := AppendWords(r.value, offsets);
    if r == None { return; }
    r := AppendMerges(r.value + packed, merges);
    if r == None { return; }
    r := AppendWords(r.value, specials);
  }

  lemma CountsSmall(a: nat, b: nat, c: nat)
    ensures Small([a, b, c, 0]) <==> a < WORD_LIMIT && b < WORD_LIMIT && c < WORD_LIMIT
  {
    var ws := [a, b, c, 0];
    assert ws[0] == a && ws[1] == b && ws[2] == c;
  }

  // ---- the parser ----

  function WordAt(b: seq<Byte>, o: nat): (r: nat)
    requires o + 4 <= |b|
  {
    FromLe(b[o..o + 4])
  }

  function WordsAt(b: seq<Byte>, o: nat, n: nat): (r: seq<nat>)
    requires o + 4 * n <= |b|
    ensures |r| == n
    decreases n
  {
    if n == 0 then [] else [WordAt(b, o)] + WordsAt(b, o + 4, n - 1)
  }

  // Counts of tokens, merges and special ids, and where the header ends.
  function ParseHead(b: seq<Byte>): (r: Result<(nat, nat, nat, nat)>)
    ensures r.Ok? ==> r.value.3 <= |b|
  {
    if |b| < 16 then Err(Truncated(16, |b|))
    else if b[..4] != MAGIC then Err(BadMagic)
    else
      var version := FromLe(b[4..6]);
      if version == 1 then Ok((WordAt(b, 8), WordAt(b, 12), 0, 16))
      else if version == 2 then
        if |b| < 24 then Err(Truncated(24, |b|)) else Ok((WordAt(b, 8), WordAt(b, 12), WordAt(b, 16), 24))
      else Err(BadVersion(version))
  }

  predicate Rising(offsets: seq<nat>) { forall i :: 0 <= i < |offsets| - 1 ==> offsets[i] <= offsets[i + 1] }

  // The first place where the offsets fall, or the last index.
  function FirstDrop(offsets: seq<nat>): (r: nat)
    requires offsets != []
    ensures r < |offsets| && (r + 1 < |offsets| ==> offsets[r + 1] < offsets[r])
    ensures forall i :: 0 <= i < r ==> offsets[i] <= offsets[i + 1]
  {
    if |offsets| == 1 || offsets[1] < offsets[0] then 0 else 1 + FirstDrop(offsets[1..])
  }

  // Tokens between successive offsets, up to the first one that is cut off or not UTF-8.
  function ReadTokens(b: seq<Byte>, base: nat, offsets: seq<nat>): (r: Result<seq<string>>)
    requires offsets != [] && Rising(offsets)
    ensures r.Ok? ==> |r.value| == |offsets| - 1
  {
    if |offsets| == 1 then Ok([])
    else if base + offsets[1] > |b| then Err(Truncated(base + offsets[1], |b|))
    else
      var s := Utf8.Decode(b[base + offsets[0]..base + offsets[1]]);
      if s == None then Err(NameNotUtf8)
      else
        var rest := ReadTokens(b, base, offsets[1..]);
        if rest.Err? then rest else Ok([s.value] + rest.value)
  }

  function ReadMerges(b: seq<Byte>, o: nat, n: nat): (r: seq<Triple>)
    requires o + 12 * n <= |b|
    ensures |r| == n
    decreases n
  {
    if n == 0 then []
    else [Triple(WordAt(b, o), WordAt(b, o + 4), WordAt(b, o + 8))] + ReadMerges(b, o + 12, n - 1)
  }

  // The special ids that name a non-empty token, with that token.
  function Specials(vocab: seq<string>, ids: seq<nat>): (r: seq<(string, nat)>)
    ensures forall k :: 0 <= k < |r| ==> r[k].0 != "" && r[k].1 < |vocab| && vocab[r[k].1] == r[k].0
    decreases |ids|
  {
    if ids == [] then []
    else
      var id := ids[|ids| - 1];
      Specials(vocab, ids[..|ids| - 1]) + (if id < |vocab| && vocab[id] != "" then [(vocab[id], id)] else [])
  }

  function ParseSpecials(b: seq<Byte>, o: nat, n: nat, vocab: seq<string>, merges: seq<Triple>): (r: Result<Tokenizer>)
  {
    if n == 0 then Ok(Tokenizer(vocab, merges, []))
    else if |b| < o + 4 * n then Err(Truncated(o + 4 * n, |b|))
    else Ok(Tokenizer(vocab, merges, Specials(vocab, WordsAt(b, o, n))))
  }

  function ParseTail(b: seq<Byte>, o: nat, merges: nat, specials: nat, vocab: seq<string>): (r: Result<Tokenizer>)
  {
    if |b| < o + merges * 12 then Err(Truncated(o + merges * 12, |b|))
    else ParseSpecials(b, o + merges * 12, specials, vocab, ReadMerges(b, o, merges))
  }

  function ParseBody(b: seq<Byte>, tokens: nat, merges: nat, specials: nat, end: nat): (r: Result<Tokenizer>)
    requires tokens > 0
  {
    var base := end + (tokens + 1) * 4;
    if |b| < base then Err(Truncated(base, |b|))
    else
      var offsets := WordsAt(b, end, tokens + 1);
      var k := FirstDrop(offsets);
      if k < tokens then Err(Truncated(offsets[k], offsets[k + 1]))
      else
        var vocab := ReadTokens(b, base, offsets);
        if vocab.Err? then Err(vocab.error)
        else
          LastAbove(offsets);
          ParseTail(b, base + (offsets[tokens] - offsets[0]), merges, specials, vocab.value)
  }

  lemma {:induction false} LastAbove(offsets: seq<nat>)
    requires offsets != [] && Rising(offsets)
    ensures offsets[0] <= offsets[|offsets| - 1]
  {
    if |offsets| > 1 { LastAbove(offsets[1..]); }
  }

  function Parse(b: seq<Byte>): (r: Result<Tokenizer>)
  {
    var head := ParseHead(b);
    if head.Err? then Err(head.error)
    else
      var (tokens, merges, specials, end) := head.value;
      if tokens == 0 then Err(Empty) else ParseBody(b, tokens, merges, specials, end)
  }

  // ---- the parser's loops ----

  method CheckOffsets(offsets: seq<nat>) returns (k: nat)
    requires offsets != []
    ensures k == FirstDrop(offsets)
  {
    k := 0;
    assert offsets[0..] == offsets;
    while k + 1 < |offsets|
      invariant k < |offsets| && FirstDrop(offsets) == k + FirstDrop(offsets[k..])
    {
      if offsets[k + 1] < offsets[k] { return; }
      assert offsets[k..][1..] == offsets[k + 1..];
      k := k + 1;
    }
  }

  method LoadWords(b: seq<Byte>, o: nat, n: nat) returns (r: seq<nat>)
    requires o + 4 * n <= |b|
    ensures r == WordsAt(b, o, n)
  {
    hide WordAt, WordsAt;
    r := [];
    var p: nat, left: nat := o, n;
    assert r + WordsAt(b, p, left) == WordsAt(b, o, n);
    while left > 0
      invariant p + 4 * left <= |b| && r + WordsAt(b, p, left) == WordsAt(b, o, n)
    {
      WordsStep(b, p, left, r);
      r, p, left := r + [WordAt(b, p)], p + 4, left - 1;
    }
    assert r + [] == r;
  }

  lemma WordsStep(b: seq<Byte>, p: nat, left: nat, r: seq<nat>)
    requires left > 0 && p + 4 * left <= |b|
    ensures r + WordsAt(b, p, left) == r + [WordAt(b, p)] + WordsAt(b, p + 4, left - 1)
  {
    hide WordAt;
    assert WordsAt(b, p, left) == [WordAt(b, p)] + WordsAt(b, p + 4, left - 1);
  }

  method LoadMerges(b: seq<Byte>, o: nat, n: nat) returns (r: seq<Triple>)
    requires o + 12 * n <= |b|
    ensures r == ReadMerges(b, o, n)
  {
    hide WordAt, ReadMerges;
    r := [];
    var p: nat, left: nat := o, n;
    assert r + ReadMerges(b, p, left) == ReadMerges(b, o, n);
    while left > 0
      invariant p + 12 * left <= |b| && r + ReadMerges(b, p, left) == ReadMerges(b, o, n)
    {
      MergesStep(b, p, left, r);
      r, p, left := r + [Triple(WordAt(b, p), WordAt(b, p + 4), WordAt(b, p + 8))], p + 12, left - 1;
    }
    assert r + [] == r;
  }

  lemma MergesStep(b: seq<Byte>, p: nat, left: nat, r: seq<Triple>)
    requires left > 0 && p + 12 * left <= |b|
    ensures r + ReadMerges(b, p, left) ==
      r + [Triple(WordAt(b, p), WordAt(b, p + 4), WordAt(b, p + 8))] + ReadMerges(b, p + 12, left - 1)
  {
    hide WordAt;
    var m := Triple(WordAt(b, p), WordAt(b, p + 4), WordAt(b, p + 8));
    assert ReadMerges(b, p, left) == [m] + ReadMerges(b, p + 12, left - 1);
  }

  method LoadTokens(b: seq<Byte>, base: nat, offsets: seq<nat>) returns (r: Result<seq<string>>)
    requires offsets != [] && Rising(offsets)
    ensures r == ReadTokens(b, base, offsets)
  {
    hide ReadTokens, Utf8.Decode;
    var vocab: seq<string> := [];
    assert offsets[0..] == offsets;
    PrependNothing(ReadTokens(b, base, offsets));
    for i := 0 to |offsets| - 1
      invariant ReadTokens(b, base, offsets) == Prepend(vocab, ReadTokens(b, base, offsets[i..]))
    {
      ReadTokensStep(b, base, offsets, i);
      if base + offsets[i + 1] > |b| { return Err(Truncated(base + offsets[i + 1], |b|)); }
      var s := Utf8.Decode(b[base + offsets[i]..base + offsets[i + 1]]);
      if s == None { return Err(NameNotUtf8); }
      PrependMore(vocab, s.value, ReadTokens(b, base, offsets[i + 1..]));
      vocab := vocab + [s.value];
    }
    ReadTokensEnd(b, base, offsets);
    assert vocab + [] == vocab;
    r := Ok(vocab);
  }

  lemma ReadTokensStep(b: seq<Byte>, base: nat, offsets: seq<nat>, i: nat)
    requires i + 1 < |offsets| && Rising(offsets)
    ensures ReadTokens(b, base, offsets[i..]) ==
      if base + offsets[i + 1] > |b| then Err(Truncated(base + offsets[i + 1], |b|))
      else
        var s := Utf8.Decode(b[base + offsets[i]..base + offsets[i + 1]]);
        if s == None then Err(NameNotUtf8) else Prepend([s.value], ReadTokens(b, base, offsets[i + 1..]))
  {
    hide Utf8.Decode;
    assert offsets[i..][1..] == offsets[i + 1..];
  }

  lemma ReadTokensEnd(b: seq<Byte>, base: nat, offsets: seq<nat>)
    requires offsets != []
    ensures ReadTokens(b, base, offsets[|offsets| - 1..]) == Ok([])
  {
  }

  ghost function Prepend(front: seq<string>, rest: Result<seq<string>>): Result<seq<string>>
  {
    if rest.Err? then rest else Ok(front + rest.value)
  }

  lemma PrependNothing(rest: Result<seq<string>>)
    ensures Prepend([], rest) == rest
  {
    if rest.Ok? { assert [] + rest.value == rest.value; }
  }

  lemma PrependMore(front: seq<string>, s: string, rest: Result<seq<string>>)
    ensures Prepend(front, Prepend([s], rest)) == Prepend(front + [s], rest)
  {
    if rest.Ok? { assert front + ([s] + rest.value) == front + [s] + rest.value; }
  }

  method LoadSpecials(vocab: seq<string>, ids: seq<nat>) returns (r: seq<(string, nat)>)
    ensures r == Specials(vocab, ids)
  {
    r := [];
    for i := 0 to |ids|
      invariant r == Specials(vocab, ids[..i])
    {
      assert ids[..i + 1][..i] == ids[..i];
      if ids[i] < |vocab| && vocab[ids[i]] != "" { r := r + [(vocab[ids[i]], ids[i])]; }
    }
    assert ids[..|ids|] == ids;
  }

  // Merges and special tokens, behind the tokens.
  method LoadTail(b: seq<Byte>, start: nat, merges: nat, specials: nat, vocab: seq<string>)
    returns (r: Result<Tokenizer>)
    ensures r == ParseTail(b, start, merges, specials, vocab)
  {
    hide WordsAt, ReadMerges, Specials;
    var o := start + merges * 12;
    if |b| < o { return Err(Truncated(o, |b|)); }
    var triples := LoadMerges(b, start, merges);
    if specials == 0 { return Ok(Tokenizer(vocab, triples, [])); }
    if |b| < o + 4 * specials { return Err(Truncated(o + 4 * specials, |b|)); }
    var ids := LoadWords(b, o, specials);
    var found := LoadSpecials(vocab, ids);
    r := Ok(Tokenizer(vocab, triples, found));
  }

  method LoadBody(b: seq<Byte>, tokens: nat, merges: nat, specials: nat, end: nat) returns (r: Result<Tokenizer>)
    requires tokens > 0
    ensures r == ParseBody(b, tokens, merges, specials, end)
  {
    hide WordsAt, ReadTokens, FirstDrop, ParseTail;
    var base := end + (tokens + 1) * 4;
    if |b| < base { return Err(Truncated(base, |b|)); }
    var offsets := LoadWords(b, end, tokens + 1);
    var k := CheckOffsets(offsets);
    if k < tokens { return Err(Truncated(offsets[k], offsets[k + 1])); }
    var vocab := LoadTokens(b, base, offsets);
    if vocab.Err? { return Err(vocab.error); }
    LastAbove(offsets);
    r := LoadTail(b, base + (offsets[tokens] - offsets[0]), merges, specials, vocab.value);
  }

  method ParseTokb(b: seq<Byte>) returns (r: Result<Tokenizer>)
    ensures r == Parse(b)
  {
    hide ParseHead, ParseBody;
    var head := ParseHead(b);
    if head.Err? { return Err(head.error); }
    var (tokens, merges, specials, end) := head.value;
    if tokens == 0 { return Err(Empty); }
    r := LoadBody(b, tokens, merges, specials, end);
  }

  // ---- the round trip ----

  // The bytes x stand at offset o of the file.
  ghost predicate At(b: seq<Byte>, o: nat, x: seq<Byte>) { o + |x| <= |b| && b[o..o + |x|] == x }

  lemma AtSplit(b: seq<Byte>, o: nat, x: seq<Byte>, y: seq<Byte>)
    requires At(b, o, x + y)
    ensures At(b, o, x) && At(b, o + |x|, y)
  {
    SliceOfSlice(b, o, o + |x + y|, 0, |x|);
    SliceOfSlice(b, o, o + |x + y|, |x|, |x| + |y|);
  }

  lemma AtSplitFirst(b: seq<Byte>, o: nat, parts: seq<seq<Byte>>)
    requires At(b, o, Flatten(parts)) && parts != []
    ensures At(b, o, parts[0]) && At(b, o + |parts[0]|, Flatten(parts[1..]))
  {
    hide At;
    AtSplit(b, o, parts[0], Flatten(parts[1..]));
  }

  lemma AtInside(b: seq<Byte>, o: nat, x: seq<Byte>)
    requires At(b, o, x)
    ensures o + |x| <= |b| && b[o..o + |x|] == x
  {
  }

  lemma WordRead(b: seq<Byte>, o: nat, w: nat)
    requires At(b, o, Word(w)) && w < WORD_LIMIT
    ensures o + 4 <= |b| && WordAt(b, o) == w
  {
    Pow256Values();
    FromLeOfLe(w, Width());
  }

  lemma {:induction false} LengthOfWords(parts: seq<seq<Byte>>, width: nat)
    requires forall i :: 0 <= i < |parts| ==> |parts[i]| == width
    ensures |Flatten(parts)| == Times(|parts|, width)
  {
    if parts != [] { LengthOfWords(parts[1..], width); }
  }

  lemma WordsLength(ws: seq<nat>)
    ensures |Words(ws)| == 4 * |ws|
  {
    hide Word;
    LengthOfWords(WordList(ws), 4);
    TimesIsProduct(|ws|, 4);
  }

  lemma MergesLength(merges: seq<Triple>)
    ensures |Merges(merges)| == 12 * |merges|
  {
    hide MergeBytes;
    LengthOfWords(MergeList(merges), 12);
    TimesIsProduct(|merges|, 12);
  }

  // Sections of words and of merges read back.
  lemma {:induction false} WordsInside(b: seq<Byte>, o: nat, ws: seq<nat>)
    requires At(b, o, Words(ws)) && Small(ws) && o + 4 * |ws| <= |b|
    ensures WordsAt(b, o, |ws|) == ws
    decreases |ws|
  {
    hide Word, WordAt, At, Flatten;
    if ws != [] {
      AtSplitFirst(b, o, WordList(ws));
      WordRead(b, o, ws[0]);
      assert WordList(ws)[1..] == WordList(ws[1..]);
      WordsInside(b, o + 4, ws[1..]);
      assert [ws[0]] + ws[1..] == ws;
    }
  }

  lemma MergeRead(b: seq<Byte>, o: nat, m: Triple)
    requires At(b, o, MergeBytes(m)) && SmallMerge(m)
    ensures o + 12 <= |b| && Triple(WordAt(b, o), WordAt(b, o + 4), WordAt(b, o + 8)) == m
  {
    hide Word, WordAt, At;
    AtSplit(b, o, Word(m.left) + Word(m.right), Word(m.result));
    AtSplit(b, o, Word(m.left), Word(m.right));
    WordRead(b, o, m.left);
    WordRead(b, o + 4, m.right);
    WordRead(b, o + 8, m.result);
  }

  lemma {:induction false} MergesInside(b: seq<Byte>, o: nat, merges: seq<Triple>)
    requires At(b, o, Merges(merges)) && SmallMerges(merges) && o + 12 * |merges| <= |b|
    ensures ReadMerges(b, o, |merges|) == merges
    decreases |merges|
  {
    hide MergeBytes, WordAt, At, Flatten;
    if merges != [] {
      AtSplitFirst(b, o, MergeList(merges));
      MergeRead(b, o, merges[0]);
      assert MergeList(merges)[1..] == MergeList(merges[1..]);
      MergesInside(b, o + 12, merges[1..]);
      assert [merges[0]] + merges[1..] == merges;
    }
  }

  // Tokens from number i on: their bytes stand at the offsets that the writer notes.
  lemma {:induction false} TokensInside(b: seq<Byte>, o: nat, vocab: seq<string>, i: nat)
    requires i <= |vocab| && At(b, o + Offsets(Tokens(vocab))[i], Flatten(Tokens(vocab)[i..]))
    requires Rising(Offsets(Tokens(vocab)))
    ensures ReadTokens(b, o, Offsets(Tokens(vocab))[i..]) == Ok(vocab[i..])
    decreases |vocab| - i
  {
    hide Flatten, Utf8.Encode, Utf8.Decode, At, ReadTokens;
    var os, ts := Offsets(Tokens(vocab)), Tokens(vocab);
    if i < |vocab| {
      assert ts[i..][0] == ts[i] && ts[i..][1..] == ts[i + 1..];
      AtSplitFirst(b, o + os[i], ts[i..]);
      FlattenAt(ts, i);
      AtInside(b, o + os[i], ts[i]);
      Utf8.DecodeOfEncode(vocab[i]);
      TokensInside(b, o, vocab, i + 1);
      ReadTokensStep(b, o, os, i);
      assert [vocab[i]] + vocab[i + 1..] == vocab[i..];
    } else {
      ReadTokensEnd(b, o, os);
      assert vocab[i..] == [];
    }
  }

  lemma TokensSection(b: seq<Byte>, o: nat, vocab: seq<string>)
    requires At(b, o, Flatten(Tokens(vocab))) && Rising(Offsets(Tokens(vocab)))
    ensures ReadTokens(b, o, Offsets(Tokens(vocab))) == Ok(vocab)
  {
    hide ReadTokens, At;
    assert Offsets(Tokens(vocab))[0..] == Offsets(Tokens(vocab)) && vocab[0..] == vocab &&
      Tokens(vocab)[0..] == Tokens(vocab);
    assert Offsets(Tokens(vocab))[0] == 0;
    TokensInside(b, o, vocab, 0);
  }

  lemma OffsetsRise(tokens: seq<seq<Byte>>)
    ensures Rising(Offsets(tokens)) && FirstDrop(Offsets(tokens)) == |tokens|
    ensures Offsets(tokens)[0] == 0 && Offsets(tokens)[|tokens|] == |Flatten(tokens)|
  {
    var os := Offsets(tokens);
    assert tokens[..|tokens|] == tokens;
    forall k | 0 <= k < |os| - 1 ensures os[k] <= os[k + 1] { FlattenAt(tokens, k); }
    RisingNeverDrops(os);
  }

  lemma RisingNeverDrops(offsets: seq<nat>)
    requires offsets != [] && Rising(offsets)
    ensures FirstDrop(offsets) == |offsets| - 1
  {
  }

  lemma HeadRead(b: seq<Byte>, tokens: nat, merges: nat, specials: nat)
    requires At(b, 0, Head(tokens, merges, specials))
    requires tokens < WORD_LIMIT && merges < WORD_LIMIT && specials < WORD_LIMIT
    ensures ParseHead(b) == Ok((tokens, merges, specials, 24))
  {
    hide WordAt, Words, At;
    var ws := [tokens, merges, specials, 0];
    AtSplit(b, 0, MAGIC + [2, 0, 0, 0], Words(ws));
    WordsLength(ws);
    AtInside(b, 8, Words(ws));
    WordsInside(b, 8, ws);
    FourWords(b, 8);
    AtSplit(b, 0, MAGIC, [2, 0, 0, 0]);
    AtInside(b, 0, MAGIC);
    AtInside(b, 4, [2, 0, 0, 0]);
    assert b[..4] == b[0..4] && b[4..6] == b[4..8][..2] == [2, 0];
    VersionTwo();
  }

  lemma FourWords(b: seq<Byte>, o: nat)
    requires o + 16 <= |b|
    ensures WordsAt(b, o, 4) == [WordAt(b, o), WordAt(b, o + 4), WordAt(b, o + 8), WordAt(b, o + 12)]
  {
    hide WordAt;
    assert WordsAt(b, o + 12, 1) == [WordAt(b, o + 12)];
    assert WordsAt(b, o + 8, 2) == [WordAt(b, o + 8), WordAt(b, o + 12)];
    assert WordsAt(b, o + 4, 3) == [WordAt(b, o + 4), WordAt(b, o + 8), WordAt(b, o + 12)];
  }

  lemma VersionTwo()
    ensures FromLe([2, 0]) == 2
  {
    var s: seq<Byte> := [2, 0];
    assert s[1..] == [0];
  }

  // Where the sections of a written file stand.
  ghost function TextAt(vocab: seq<string>): nat { 24 + (|vocab| + 1) * 4 }

  ghost function MergesAt(vocab: seq<string>): nat { TextAt(vocab) + |Flatten(Tokens(vocab))| }

  ghost function SpecialsAt(vocab: seq<string>, merges: seq<Triple>): nat { MergesAt(vocab) + |merges| * 12 }

  ghost predicate Laid(b: seq<Byte>, vocab: seq<string>, merges: seq<Triple>, specials: seq<nat>)
  {
    && At(b, 0, Head(|vocab|, |merges|, |specials|)) && At(b, 24, Words(Offsets(Tokens(vocab))))
    && At(b, TextAt(vocab), Flatten(Tokens(vocab))) && At(b, MergesAt(vocab), Merges(merges))
    && At(b, SpecialsAt(vocab, merges), Words(specials))
    && TextAt(vocab) <= |b| == SpecialsAt(vocab, merges) + 4 * |specials|
  }

  lemma Sections(h: seq<Byte>, os: seq<Byte>, ts: seq<Byte>, ms: seq<Byte>, ss: seq<Byte>)
    ensures var b := h + os + ts + ms + ss;
      && At(b, 0, h) && At(b, |h|, os) && At(b, |h| + |os|, ts) && At(b, |h| + |os| + |ts|, ms)
      && At(b, |h| + |os| + |ts| + |ms|, ss) && |b| == |h| + |os| + |ts| + |ms| + |ss|
  {
    hide At;
    var two := h + os;
    var three := two + ts;
    var four := three + ms;
    AtStart(h);
    AtExtends(h, 0, h, os);
    AtExtends(two, 0, h, ts);
    AtExtends(three, 0, h, ms);
    AtExtends(four, 0, h, ss);
    AtLast(h, os);
    AtExtends(two, |h|, os, ts);
    AtExtends(three, |h|, os, ms);
    AtExtends(four, |h|, os, ss);
    AtLast(two, ts);
    AtExtends(three, |two|, ts, ms);
    AtExtends(four, |two|, ts, ss);
    AtLast(three, ms);
    AtExtends(four, |three|, ms, ss);
    AtLast(four, ss);
  }

  lemma AtStart(x: seq<Byte>)
    ensures At(x, 0, x)
  {
  }

  lemma AtLast(pre: seq<Byte>, x: seq<Byte>)
    ensures At(pre + x, |pre|, x)
  {
  }

  lemma AtExtends(b: seq<Byte>, o: nat, x: seq<Byte>, more: seq<Byte>)
    requires At(b, o, x)
    ensures At(b + more, o, x)
  {
    assert (b + more)[o..o + |x|] == b[o..o + |x|];
  }

  lemma ImageLaid(vocab: seq<string>, merges: seq<Triple>, specials: seq<nat>)
    ensures Laid(Image(vocab, merges, specials), vocab, merges, specials)
  {
    hide Words, Flatten, Merges, Offsets, Tokens, Head, At;
    var os := Offsets(Tokens(vocab));
    Sections(Head(|vocab|, |merges|, |specials|), Words(os), Flatten(Tokens(vocab)), Merges(merges), Words(specials));
    WordsLength(os);
    MergesLength(merges);
    WordsLength(specials);
    var h := |Head(|vocab|, |merges|, |specials|)|;
    assert TextAt(vocab) == h + |Words(os)|;
    assert MergesAt(vocab) == h + |Words(os)| + |Flatten(Tokens(vocab))|;
    assert SpecialsAt(vocab, merges) == h + |Words(os)| + |Flatten(Tokens(vocab))| + |Merges(merges)|;
  }

  lemma BodyRead(b: seq<Byte>, vocab: seq<string>, merges: seq<Triple>, specials: seq<nat>)
    requires vocab != [] && Laid(b, vocab, merges, specials)
    requires Small(Offsets(Tokens(vocab))) && SmallMerges(merges) && Small(specials)
    ensures ParseBody(b, |vocab|, |merges|, |specials|, 24) ==
      Ok(Tokenizer(vocab, merges, Specials(vocab, specials)))
  {
    hide Words, Flatten, Merges, Offsets, Tokens, ReadTokens, WordsAt, Small, SmallMerges, FirstDrop, At, Head,
         ParseTail, ParseBody, Rising, Specials, TextAt, MergesAt;
    BodyFront(b, vocab, |merges|, |specials|);
    TailRead(b, MergesAt(vocab), SpecialsAt(vocab, merges), vocab, merges, specials);
  }

  lemma BodyFront(b: seq<Byte>, vocab: seq<string>, merges: nat, specials: nat)
    requires Small(Offsets(Tokens(vocab))) && vocab != [] && TextAt(vocab) <= |b|
    requires At(b, 24, Words(Offsets(Tokens(vocab)))) && At(b, TextAt(vocab), Flatten(Tokens(vocab)))
    ensures ParseBody(b, |vocab|, merges, specials, 24) == ParseTail(b, MergesAt(vocab), merges, specials, vocab)
  {
    hide Words, Flatten, Offsets, Tokens, ReadTokens, WordsAt, Small, FirstDrop, At, ParseTail, ParseBody, Rising;
    var os := Offsets(Tokens(vocab));
    WordsInside(b, 24, os);
    OffsetsRise(Tokens(vocab));
    TokensSection(b, TextAt(vocab), vocab);
    BodySteps(b, vocab, os, merges, specials);
  }

  // Once the offsets and the tokens are read, the rest follows behind the last token.
  lemma BodySteps(b: seq<Byte>, vocab: seq<string>, os: seq<nat>, merges: nat, specials: nat)
    requires |os| == |vocab| + 1 && vocab != [] && 24 + (|vocab| + 1) * 4 <= |b|
    requires WordsAt(b, 24, |vocab| + 1) == os && Rising(os) && FirstDrop(os) == |vocab| && os[0] == 0
    requires ReadTokens(b, 24 + (|vocab| + 1) * 4, os) == Ok(vocab)
    ensures ParseBody(b, |vocab|, merges, specials, 24) ==
      ParseTail(b, 24 + (|vocab| + 1) * 4 + os[|vocab|], merges, specials, vocab)
  {
    hide ReadTokens, WordsAt, FirstDrop, ParseTail;
  }

  lemma TailRead(b: seq<Byte>, o: nat, p: nat, vocab: seq<string>, merges: seq<Triple>, specials: seq<nat>)
    requires SmallMerges(merges) && Small(specials) && p == o + |merges| * 12 && |b| == p + 4 * |specials|
    requires At(b, o, Merges(merges)) && At(b, p, Words(specials))
    ensures ParseTail(b, o, |merges|, |specials|, vocab) == Ok(Tokenizer(vocab, merges, Specials(vocab, specials)))
  {
    hide Words, Merges, WordsAt, ReadMerges, Small, SmallMerges, Specials, At;
    MergesInside(b, o, merges);
    WordsInside(b, p, specials);
    SpecialsNone(vocab);
  }

  lemma SpecialsNone(vocab: seq<string>)
    ensures Specials(vocab, []) == []
  {
  }

  // Parsing what was written gives back the vocabulary, the merges in order and the special tokens; a file without
  // tokens is refused.
  lemma RoundTrip(vocab: seq<string>, merges: seq<Triple>, specials: seq<nat>)
    requires Encodable(vocab, merges, specials)
    ensures Parse(Image(vocab, merges, specials)) ==
      if vocab == [] then Err(Empty) else Ok(Tokenizer(vocab, merges, Specials(vocab, specials)))
  {
    hide Image, ParseBody, ParseHead, Specials, Offsets, Tokens, Flatten, Words, Merges, Head, At, Small, SmallMerges;
    var b := Image(vocab, merges, specials);
    ImageLaid(vocab, merges, specials);
    HeadRead(b, |vocab|, |merges|, |specials|);
    if vocab != [] { BodyRead(b, vocab, merges, specials); }
  }

  // ---- special tokens ----

  // The ids in range that name a non-empty token, in order, each with its token.
  ghost predicate Picked(vocab: seq<string>, ids: seq<nat>, at: seq<nat>, specials: seq<(string, nat)>)
  {
    && |at| == |specials| && (forall i :: 0 <= i < |at| ==> at[i] < |ids|)
    && (forall i, j :: 0 <= i < j < |at| ==> at[i] < at[j])
    && (forall j :: 0 <= j < |ids| ==> (j in at <==> ids[j] < |vocab| && vocab[ids[j]] != ""))
    && (forall i :: 0 <= i < |at| ==> ids[at[i]] < |vocab| && specials[i] == (vocab[ids[at[i]]], ids[at[i]]))
  }

  lemma {:induction false} SpecialsPicked(vocab: seq<string>, ids: seq<nat>) returns (at: seq<nat>)
    ensures Picked(vocab, ids, at, Specials(vocab, ids))
    decreases |ids|
  {
    hide Picked;
    if ids == [] {
      NonePicked(vocab);
      return [];
    }
    var init, id := ids[..|ids| - 1], ids[|ids| - 1];
    at := SpecialsPicked(vocab, init);
    assert init + [id] == ids;
    if id < |vocab| && vocab[id] != "" {
      OneMorePicked(vocab, init, at, Specials(vocab, init), id);
      at := at + [|init|];
    } else {
      NoMorePicked(vocab, init, at, Specials(vocab, init), id);
      assert Specials(vocab, init) + [] == Specials(vocab, init);
    }
  }

  lemma NonePicked(vocab: seq<string>)
    ensures Picked(vocab, [], [], [])
  {
  }

  lemma OneMorePicked(vocab: seq<string>, ids: seq<nat>, at: seq<nat>, specials: seq<(string, nat)>, id: nat)
    requires Picked(vocab, ids, at, specials) && id < |vocab| && vocab[id] != ""
    ensures Picked(vocab, ids + [id], at + [|ids|], specials + [(vocab[id], id)])
  {
    var ids', at' := ids + [id], at + [|ids|];
    forall j | 0 <= j < |ids'| ensures j in at' <==> ids'[j] < |vocab| && vocab[ids'[j]] != "" {
      assert j < |ids| ==> ids'[j] == ids[j];
    }
    forall i | 0 <= i < |at| ensures ids'[at'[i]] == ids[at[i]] {}
  }

  lemma NoMorePicked(vocab: seq<string>, ids: seq<nat>, at: seq<nat>, specials: seq<(string, nat)>, id: nat)
    requires Picked(vocab, ids, at, specials) && !(id < |vocab| && vocab[id] != "")
    ensures Picked(vocab, ids + [id], at, specials)
  {
    var ids' := ids + [id];
    forall j | 0 <= j < |ids'| ensures j in at <==> ids'[j] < |vocab| && vocab[ids'[j]] != "" {
      assert j < |ids| ==> ids'[j] == ids[j];
    }
    forall i | 0 <= i < |at| ensures ids'[at[i]] == ids[at[i]] {}
  }

  // ---- files cut short ----

  lemma {:induction false} WordsOfPrefix(b: seq<Byte>, k: nat, o: nat, n: nat)
    requires o + 4 * n <= k <= |b|
    ensures WordsAt(b[..k], o, n) == WordsAt(b, o, n)
    decreases n
  {
    hide FromLe;
    if n > 0 {
      assert b[..k][o..o + 4] == b[o..o + 4];
      WordsOfPrefix(b, k, o + 4, n - 1);
    }
  }

  // The error of a file that is too short.
  predicate TooShort<T>(r: Result<T>, got: nat) { r.Err? && r.error.Truncated? && r.error.got == got < r.error.needed }

  // A file that ends before its last token is too short.
  lemma {:induction false} TokensCut(b: seq<Byte>, k: nat, base: nat, offsets: seq<nat>)
    requires |offsets| > 1 && Rising(offsets) && ReadTokens(b, base, offsets).Ok?
    requires k <= |b| && k < base + offsets[|offsets| - 1]
    ensures TooShort(ReadTokens(b[..k], base, offsets), k)
    decreases |offsets|
  {
    hide Utf8.Decode;
    var hi := base + offsets[1];
    if hi <= k {
      assert b[..k][base + offsets[0]..hi] == b[base + offsets[0]..hi];
      TokensCut(b, k, base, offsets[1..]);
    }
  }

  // Of tokens that lie in the file one that is not UTF-8 is refused as such.
  lemma {:induction false} TokensAreText(b: seq<Byte>, base: nat, offsets: seq<nat>)
    requires offsets != [] && Rising(offsets) && base + offsets[|offsets| - 1] <= |b|
    ensures if forall i :: 0 <= i < |offsets| - 1 ==> IsText(b, base, offsets, i) then
        ReadTokens(b, base, offsets).Ok? else ReadTokens(b, base, offsets) == Err(NameNotUtf8)
    decreases |offsets|
  {
    hide Utf8.Decode;
    if |offsets| > 1 {
      var rest := offsets[1..];
      LastAbove(rest);
      TokensAreText(b, base, rest);
      assert IsText(b, base, offsets, 0) <==> Utf8.Decode(b[base + offsets[0]..base + offsets[1]]).Some?;
      forall i | 0 <= i < |rest| - 1 ensures IsText(b, base, rest, i) <==> IsText(b, base, offsets, i + 1) {}
      if forall i :: 0 <= i < |offsets| - 1 ==> IsText(b, base, offsets, i) {
        assert IsText(b, base, offsets, 0);
        forall i | 0 <= i < |rest| - 1 ensures IsText(b, base, rest, i) { assert IsText(b, base, offsets, i + 1); }
      } else if IsText(b, base, offsets, 0) {
        var i :| 0 <= i < |offsets| - 1 && !IsText(b, base, offsets, i);
        assert !IsText(b, base, rest, i - 1);
      }
    }
  }

  ghost predicate IsText(b: seq<Byte>, base: nat, offsets: seq<nat>, i: nat)
  {
    && i + 1 < |offsets| && offsets[i] <= offsets[i + 1] && base + offsets[i + 1] <= |b|
    && Utf8.Decode(b[base + offsets[i]..base + offsets[i + 1]]).Some?
  }

  lemma HeadOfPrefix(b: seq<Byte>, k: nat)
    requires 24 <= k <= |b|
    ensures ParseHead(b[..k]) == ParseHead(b)
  {
    hide FromLe;
    var p := b[..k];
    assert p[..4] == b[..4] && p[4..6] == b[4..6] && p[8..12] == b[8..12];
    assert p[12..16] == b[12..16] && p[16..20] == b[16..20];
  }

  lemma FirstOffset(tokens: seq<seq<Byte>>)
    ensures Offsets(tokens)[0] == 0 && Offsets(tokens)[|tokens|] == |Flatten(tokens)|
  {
    assert tokens[..0] == [] && tokens[..|tokens|] == tokens;
  }

  // The body of a written file needs all of it.
  lemma BodyNeeds(b: seq<Byte>, vocab: seq<string>, merges: seq<Triple>, specials: seq<nat>, k: nat)
    requires vocab != [] && Laid(b, vocab, merges, specials) && Small(Offsets(Tokens(vocab)))
    requires 24 <= k < |b|
    ensures TooShort(ParseBody(b[..k], |vocab|, |merges|, |specials|, 24), k)
  {
    hide Words, Flatten, Merges, Offsets, Tokens, ReadTokens, WordsAt, Small, At, Head, ReadMerges, Specials, FirstDrop;
    var p, os := b[..k], Offsets(Tokens(vocab));
    if k >= TextAt(vocab) {
      WordsInside(b, 24, os);
      WordsOfPrefix(b, k, 24, |vocab| + 1);
      OffsetsRise(Tokens(vocab));
      FirstOffset(Tokens(vocab));
      TokensSection(b, TextAt(vocab), vocab);
      if k < MergesAt(vocab) { TokensCut(b, k, TextAt(vocab), os); } else { TokensKept(b, k, TextAt(vocab), os); }
    }
  }

  lemma {:induction false} TokensKept(b: seq<Byte>, k: nat, base: nat, offsets: seq<nat>)
    requires offsets != [] && Rising(offsets) && base + offsets[|offsets| - 1] <= k <= |b|
    ensures ReadTokens(b[..k], base, offsets) == ReadTokens(b, base, offsets)
    decreases |offsets|
  {
    hide Utf8.Decode;
    if |offsets| > 1 {
      LastAbove(offsets[1..]);
      assert b[..k][base + offsets[0]..base + offsets[1]] == b[base + offsets[0]..base + offsets[1]];
      TokensKept(b, k, base, offsets[1..]);
    }
  }

  // Every written file that is cut short is refused as too short, unless it is one without tokens.
  lemma CutRefused(vocab: seq<string>, merges: seq<Triple>, specials: seq<nat>, k: nat)
    requires Encodable(vocab, merges, specials) && k < |Image(vocab, merges, specials)|
    ensures var r := Parse(Image(vocab, merges, specials)[..k]);
      TooShort(r, k) || (vocab == [] && k >= 24 && r == Err(Empty))
  {
    hide Image, ParseBody, Offsets, Tokens, Flatten, Words, Merges, Head, At, Small, SmallMerges, ParseHead;
    var b := Image(vocab, merges, specials);
    ImageLaid(vocab, merges, specials);
    HeadRead(b, |vocab|, |merges|, |specials|);
    if k >= 24 {
      HeadOfPrefix(b, k);
      if vocab != [] { BodyNeeds(b, vocab, merges, specials, k); }
    } else {
      HeadCut(b, k);
    }
  }

  lemma HeadCut(b: seq<Byte>, k: nat)
    requires k < 24 && k <= |b| && ParseHead(b).Ok? && ParseHead(b).value.3 == 24
    ensures TooShort(ParseHead(b[..k]), k)
  {
    hide FromLe, WordAt;
    if k >= 16 { assert b[..k][4..6] == b[4..6] && b[..k][..4] == b[..4]; }
  }

  // Other magic bytes, other versions.
  lemma HeadRefused(b: seq<Byte>)
    requires |b| >= 16
    ensures b[..4] != [84, 79, 75, 49] <==> ParseHead(b) == Err(BadMagic)
    ensures b[..4] == [84, 79, 75, 49] && b[4] as int != 1 && b[4] as int != 2 && b[5] == 0 ==>
      ParseHead(b) == Err(BadVersion(b[4] as int))
  {
    hide WordAt;
    assert b[4..6] == [b[4], b[5]];
    FromLeTwo(b[4], b[5]);
  }

  // ---- version 1 ----

  lemma WordBehind(h: seq<Byte>, r: seq<Byte>, o: nat)
    requires o + 4 <= |r|
    ensures WordAt(h + r, |h| + o) == WordAt(r, o)
  {
    assert (h + r)[|h| + o..|h| + o + 4] == r[o..o + 4];
  }

  lemma {:induction false} WordsBehind(h: seq<Byte>, r: seq<Byte>, o: nat, n: nat)
    requires o + 4 * n <= |r|
    ensures WordsAt(h + r, |h| + o, n) == WordsAt(r, o, n)
    decreases n
  {
    hide WordAt;
    if n > 0 {
      WordBehind(h, r, o);
      WordsBehind(h, r, o + 4, n - 1);
    }
  }

  lemma {:induction false} MergesBehind(h: seq<Byte>, r: seq<Byte>, o: nat, n: nat)
    requires o + 12 * n <= |r|
    ensures ReadMerges(h + r, |h| + o, n) == ReadMerges(r, o, n)
    decreases n
  {
    hide WordAt;
    if n > 0 {
      WordBehind(h, r, o);
      WordBehind(h, r, o + 4);
      WordBehind(h, r, o + 8);
      MergesBehind(h, r, o + 12, n - 1);
    }
  }

  // The same result, but for the numbers that an error reports.
  ghost predicate Alike<T(!new)>(a: Result<T>, b: Result<T>) { a.Ok? == b.Ok? && (a.Ok? ==> a == b) }

  lemma {:induction false} TokensBehind(h: seq<Byte>, r: seq<Byte>, base: nat, offsets: seq<nat>)
    requires offsets != [] && Rising(offsets)
    ensures Alike(ReadTokens(h + r, |h| + base, offsets), ReadTokens(r, base, offsets))
    decreases |offsets|
  {
    hide Utf8.Decode;
    if |offsets| > 1 && base + offsets[1] <= |r| {
      var lo, hi := base + offsets[0], base + offsets[1];
      assert (h + r)[|h| + lo..|h| + hi] == r[lo..hi];
      TokensBehind(h, r, base, offsets[1..]);
    }
  }

  lemma TailBehind(h: seq<Byte>, r: seq<Byte>, o: nat, merges: nat, specials: nat, vocab: seq<string>)
    ensures Alike(ParseTail(h + r, |h| + o, merges, specials, vocab), ParseTail(r, o, merges, specials, vocab))
  {
    hide WordsAt, ReadMerges, Specials;
    if o + merges * 12 <= |r| {
      MergesBehind(h, r, o, merges);
      if o + merges * 12 + 4 * specials <= |r| { WordsBehind(h, r, o + merges * 12, specials); }
    }
  }

  // What stands in front of the body does not matter.
  lemma BodyBehind(h: seq<Byte>, r: seq<Byte>, tokens: nat, merges: nat, specials: nat)
    requires tokens > 0
    ensures Alike(ParseBody(h + r, tokens, merges, specials, |h|), ParseBody(r, tokens, merges, specials, 0))
  {
    hide WordsAt, ReadTokens, ParseTail, FirstDrop, Rising;
    var base := (tokens + 1) * 4;
    if base <= |r| {
      WordsBehind(h, r, 0, tokens + 1);
      var os := WordsAt(r, 0, tokens + 1);
      if FirstDrop(os) == tokens {
        hide ParseBody;
        NoDrop(os);
        BodyTokens(h + r, tokens, merges, specials, |h|, os);
        BodyTokens(r, tokens, merges, specials, 0, os);
        TokensBehind(h, r, base, os);
        var v := ReadTokens(r, base, os);
        if v.Ok? { TailBehind(h, r, base + (os[tokens] - os[0]), merges, specials, v.value); }
      }
    }
  }

  // Once the offsets are read: the tokens, and the rest behind the last of them.
  lemma BodyTokens(b: seq<Byte>, tokens: nat, merges: nat, specials: nat, end: nat, os: seq<nat>)
    requires tokens > 0 && end + (tokens + 1) * 4 <= |b| && os == WordsAt(b, end, tokens + 1)
    requires FirstDrop(os) == tokens && Rising(os)
    ensures os[0] <= os[tokens]
    ensures var base := end + (tokens + 1) * 4;
      var v := ReadTokens(b, base, os);
      ParseBody(b, tokens, merges, specials, end) ==
        if v.Err? then Err(v.error) else ParseTail(b, base + (os[tokens] - os[0]), merges, specials, v.value)
  {
    hide WordsAt, ReadTokens, ParseTail, FirstDrop;
    LastAbove(os);
  }

  lemma NoDrop(offsets: seq<nat>)
    requires offsets != [] && FirstDrop(offsets) == |offsets| - 1
    ensures Rising(offsets)
  {
  }

  // A file of version 1 has a header of 16 bytes and no special tokens; the rest is as in version 2.
  lemma VersionOne(vocab: seq<string>, merges: seq<Triple>, h: seq<Byte>)
    requires Encodable(vocab, merges, []) && vocab != [] && |h| == 16 && h[..4] == MAGIC && FromLe(h[4..6]) == 1
    requires WordAt(h, 8) == |vocab| && WordAt(h, 12) == |merges|
    ensures |Image(vocab, merges, [])| >= 24
    ensures Parse(h + Image(vocab, merges, [])[24..]) == Ok(Tokenizer(vocab, merges, []))
  {
    hide Image, ParseBody, Encodable, Specials, FromLe;
    RoundTrip(vocab, merges, []);
    var b := Image(vocab, merges, []);
    ImageHead(vocab, merges);
    var r := b[24..];
    assert b == b[..24] + r;
    BodyBehind(b[..24], r, |vocab|, |merges|, 0);
    BodyBehind(h, r, |vocab|, |merges|, 0);
    var f := h + r;
    assert f[..4] == h[..4] && f[4..6] == h[4..6] && f[8..12] == h[8..12] && f[12..16] == h[12..16];
    SpecialsNone(vocab);
  }

  lemma ImageHead(vocab: seq<string>, merges: seq<Triple>)
    requires Encodable(vocab, merges, [])
    ensures |Image(vocab, merges, [])| >= 24
    ensures ParseHead(Image(vocab, merges, [])) == Ok((|vocab|, |merges|, 0, 24))
  {
    hide Image, Offsets, Tokens, Flatten, Words, Merges, Head, At, Small, SmallMerges, ParseHead;
    ImageLaid(vocab, merges, []);
    HeadRead(Image(vocab, merges, []), |vocab|, |merges|, 0);
  }
}
