/** Which tokens the runtime gives for a text, told without its loops and its lookup. */
module TokTokens {
  import opened Bytes
  import opened TokVocab
  import opened ByteChars
  import opened TokEncode
  import opened TokCorrect
  import Bpe
  import Utf8

  // ---- one chunk ----

  // One id per byte that has a token: the last id at which its character stands.
  ghost predicate Based(vocab: seq<string>, bytes: seq<Byte>, ids: seq<nat>)
  {
    var kept := Retained(vocab, bytes);
    |ids| == |kept| && forall i :: 0 <= i < |ids| ==> LastAt(vocab, ids[i], [CharOf(kept[i])])
  }

  lemma {:induction false} BaseTokensBased(vocab: seq<string>, index: map<string, nat>, bytes: seq<Byte>)
    requires IndexOf(vocab, index)
    ensures Based(vocab, bytes, BaseTokens(index, bytes))
    decreases |bytes|
  {
    hide CharOf, LastAt;
    if bytes != [] {
      var s := [CharOf(bytes[|bytes| - 1])];
      BaseTokensBased(vocab, index, bytes[..|bytes| - 1]);
      IndexedIff(vocab, index, s);
    }
  }

  lemma {:induction false} BasedUnique(vocab: seq<string>, bytes: seq<Byte>, a: seq<nat>, b: seq<nat>)
    requires Based(vocab, bytes, a) && Based(vocab, bytes, b)
    ensures a == b
  {
    hide CharOf, Retained;
    forall i | 0 <= i < |a| ensures a[i] == b[i] {
      var s := [CharOf(Retained(vocab, bytes)[i])];
      assert LastAt(vocab, a[i], s) && LastAt(vocab, b[i], s);
    }
  }

  // The chunk's base tokens, merged until no merge fits; if no pair has two merges, always by the first merge of the
  // list that fits anywhere, at its leftmost place.
  ghost predicate Tokenizes(rt: Runtime, bytes: seq<Byte>, ids: seq<nat>)
  {
    exists base, steps :: TokenizedBy(rt, bytes, base, steps, ids)
  }

  ghost predicate TokenizedBy(rt: Runtime, bytes: seq<Byte>, base: seq<nat>, steps: seq<Bpe.Step>, ids: seq<nat>)
  {
    && Based(rt.vocab, bytes, base) && Bpe.Reaches(rt.merges, base, steps, ids) && Bpe.Done(rt.merges, ids)
    && (OnePerPair(rt.merges) ==> Bpe.Ordered(rt.merges, base, steps))
  }

  lemma ChunkTokenizes(rt: Runtime, bytes: seq<Byte>)
    requires Built(rt)
    ensures Tokenizes(rt, bytes, EncodeChunk(rt, bytes))
  {
    hide Based, BaseTokens, Bpe.Reaches, Bpe.Done, Bpe.Ordered, Bpe.Merged, Bpe.Finds, IndexOf, OnePerPair, Listed,
         LongestFirst;
    var base := BaseTokens(rt.index, bytes);
    BaseTokensBased(rt.vocab, rt.index, bytes);
    var steps := Bpe.GreedyRuns(rt.merges, rt.look, base);
    assert TokenizedBy(rt, bytes, base, steps, EncodeChunk(rt, bytes));
  }

  // If no pair has two merges, that determines the tokens.
  lemma TokenizesUnique(rt: Runtime, bytes: seq<Byte>, a: seq<nat>, b: seq<nat>)
    requires OnePerPair(rt.merges) && Tokenizes(rt, bytes, a) && Tokenizes(rt, bytes, b)
    ensures a == b
  {
    hide Based, Bpe.Reaches, Bpe.Done, Bpe.Ordered, OnePerPair;
    var p, x :| TokenizedBy(rt, bytes, p, x, a);
    var q, y :| TokenizedBy(rt, bytes, q, y, b);
    BasedUnique(rt.vocab, bytes, p, q);
    Bpe.OrderedUnique(rt.merges, p, x, a, y, b);
  }

  // ---- the whole text ----

  // A special token, or a stretch of text without any.
  datatype Piece = Special(k: nat) | Chunk(bytes: seq<Byte>)

  // The text starts with special token k.
  predicate Starts(specials: seq<(string, nat)>, bytes: seq<Byte>, k: nat)
  {
    k < |specials| && Utf8.Encode(specials[k].0) <= bytes
  }

  // The longest special token that the text starts with, the first of them in the list.
  ghost predicate Longest(specials: seq<(string, nat)>, bytes: seq<Byte>, k: nat)
  {
    && Starts(specials, bytes, k)
    && forall j: nat :: Starts(specials, bytes, j) ==>
      j >= k && |Utf8.Encode(specials[j].0)| <= |Utf8.Encode(specials[k].0)|
  }

  // The chunk is all of the text in front of the next special token.
  ghost predicate UpToSpecial(specials: seq<(string, nat)>, bytes: seq<Byte>, chunk: seq<Byte>)
  {
    && chunk != [] && chunk <= bytes
    && (forall i, k: nat :: 0 <= i < |chunk| ==> !Starts(specials, bytes[i..], k))
    && (|chunk| < |bytes| ==> exists k: nat :: Starts(specials, bytes[|chunk|..], k))
  }

  // From left to right the text is cut into its special tokens and the chunks between them.
  ghost predicate Cut(specials: seq<(string, nat)>, bytes: seq<Byte>, pieces: seq<Piece>)
    decreases |pieces|
  {
    if pieces == [] then bytes == []
    else Leads(specials, bytes, pieces[0]) && Cut(specials, bytes[Size(specials, pieces[0])..], pieces[1..])
  }

  // The first piece of the text.
  ghost predicate Leads(specials: seq<(string, nat)>, bytes: seq<Byte>, piece: Piece)
    ensures Leads(specials, bytes, piece) ==> bytes != [] && Size(specials, piece) <= |bytes|
  {
    match piece
    case Special(k) => bytes != [] && Longest(specials, bytes, k)
    case Chunk(chunk) => UpToSpecial(specials, bytes, chunk)
  }

  function Size(specials: seq<(string, nat)>, piece: Piece): nat
  {
    match piece
    case Special(k) => if k < |specials| then |Utf8.Encode(specials[k].0)| else 0
    case Chunk(chunk) => |chunk|
  }

  function Joined(parts: seq<seq<nat>>): seq<nat> { if parts == [] then [] else parts[0] + Joined(parts[1..]) }

  ghost predicate Gives(rt: Runtime, piece: Piece, ids: seq<nat>)
  {
    match piece
    case Special(k) => k < |rt.specials| && ids == [rt.specials[k].1]
    case Chunk(bytes) => Tokenizes(rt, bytes, ids)
  }

  lemma MatchLongest(rt: Runtime, bytes: seq<Byte>)
    requires Built(rt)
    ensures match Match(rt.specials, bytes)
      case None => forall k: nat :: !Starts(rt.specials, bytes, k)
      case Some(k) => Longest(rt.specials, bytes, k)
  {
    hide Utf8.Encode, IndexOf, Bpe.Finds, Listed;
  }

  lemma {:induction false} NextIsUpTo(rt: Runtime, bytes: seq<Byte>)
    requires Built(rt)
    ensures var n := NextSpecial(rt.specials, bytes);
      && (forall i, k: nat :: 0 <= i < n ==> !Starts(rt.specials, bytes[i..], k))
      && (n < |bytes| ==> exists k: nat :: Starts(rt.specials, bytes[n..], k))
    decreases |bytes|
  {
    hide Utf8.Encode, IndexOf, Bpe.Finds, Listed, LongestFirst, Match, Starts, Longest;
    var n := NextSpecial(rt.specials, bytes);
    assert bytes[0..] == bytes;
    MatchLongest(rt, bytes);
    if n > 0 {
      NextIsUpTo(rt, bytes[1..]);
      forall i, k: nat | 0 <= i < n ensures !Starts(rt.specials, bytes[i..], k) {
        if i > 0 { assert bytes[1..][i - 1..] == bytes[i..]; }
      }
      assert bytes[1..][n - 1..] == bytes[n..];
    } else if bytes != [] {
      var k := Match(rt.specials, bytes).value;
      assert Starts(rt.specials, bytes[n..], k) by { LongestStarts(rt.specials, bytes, k); }
    }
  }

  lemma LongestStarts(specials: seq<(string, nat)>, bytes: seq<Byte>, k: nat)
    requires Longest(specials, bytes, k)
    ensures Starts(specials, bytes, k)
  {
  }

  lemma CutMore(specials: seq<(string, nat)>, bytes: seq<Byte>, piece: Piece, rest: seq<Piece>)
    requires Leads(specials, bytes, piece) && Cut(specials, bytes[Size(specials, piece)..], rest)
    ensures Cut(specials, bytes, [piece] + rest)
  {
    hide Leads, Size;
    assert ([piece] + rest)[1..] == rest;
  }

  // The ids of a text are those of its pieces, in order.
  lemma {:induction false} EncodeGives(rt: Runtime, bytes: seq<Byte>) returns (pieces: seq<Piece>, parts: seq<seq<nat>>)
    requires Built(rt)
    ensures Cut(rt.specials, bytes, pieces) && |parts| == |pieces| && Encode(rt, bytes) == Joined(parts)
    ensures forall i :: 0 <= i < |pieces| ==> Gives(rt, pieces[i], parts[i])
    decreases |bytes|
  {
    hide Utf8.Encode, IndexOf, Bpe.Finds, LongestFirst, Match, Longest, UpToSpecial, Encode, EncodeChunk, Cut,
         Tokenizes, NextSpecial, Starts;
    if bytes == [] {
      EncodeNothing(rt);
      NothingCut(rt.specials);
      return [], [];
    }
    var m := Match(rt.specials, bytes);
    MatchLongest(rt, bytes);
    var piece: Piece, ids: seq<nat>, size: nat;
    if m.Some? {
      EncodeMatched(rt, bytes, m.value);
      piece, ids, size := Special(m.value), [rt.specials[m.value].1], |Utf8.Encode(rt.specials[m.value].0)|;
    } else {
      EncodeUnmatched(rt, bytes);
      size := NextSpecial(rt.specials, bytes);
      ids := EncodeChunk(rt, bytes[..size]);
      piece := Chunk(bytes[..size]);
      ChunkTokenizes(rt, bytes[..size]);
      UnmatchedUpTo(rt, bytes);
    }
    var rest, more := EncodeGives(rt, bytes[size..]);
    CutMore(rt.specials, bytes, piece, rest);
    pieces, parts := [piece] + rest, [ids] + more;
    assert parts[1..] == more;
  }

  lemma UnmatchedUpTo(rt: Runtime, bytes: seq<Byte>)
    requires Built(rt) && NextSpecial(rt.specials, bytes) > 0
    ensures UpToSpecial(rt.specials, bytes, bytes[..NextSpecial(rt.specials, bytes)])
  {
    hide Built, NextSpecial, Starts;
    NextIsUpTo(rt, bytes);
  }

  lemma NothingCut(specials: seq<(string, nat)>)
    ensures Cut(specials, [], [])
  {
  }

  lemma SamePiece(specials: seq<(string, nat)>, bytes: seq<Byte>, a: Piece, b: Piece)
    requires Leads(specials, bytes, a) && Leads(specials, bytes, b)
    ensures a == b
  {
    hide Starts, Utf8.Encode;
    assert bytes[0..] == bytes;
    match (a, b)
    case (Chunk(x), Chunk(y)) =>
      NoLonger(specials, bytes, x, y);
      NoLonger(specials, bytes, y, x);
    case _ =>
  }

  lemma NoLonger(specials: seq<(string, nat)>, bytes: seq<Byte>, x: seq<Byte>, y: seq<Byte>)
    requires UpToSpecial(specials, bytes, x) && UpToSpecial(specials, bytes, y)
    ensures |y| <= |x|
  {
    hide Starts;
    if |x| < |bytes| { var k: nat :| Starts(specials, bytes[|x|..], k); }
  }

  // There is only one such cut.
  lemma {:induction false} CutUnique(specials: seq<(string, nat)>, bytes: seq<Byte>, a: seq<Piece>, b: seq<Piece>)
    requires Cut(specials, bytes, a) && Cut(specials, bytes, b)
    ensures a == b
    decreases |a|
  {
    hide Leads, Size;
    if a != [] && b != [] {
      SamePiece(specials, bytes, a[0], b[0]);
      CutUnique(specials, bytes[Size(specials, a[0])..], a[1..], b[1..]);
      assert a == [a[0]] + a[1..] && b == [b[0]] + b[1..];
    }
  }
}
