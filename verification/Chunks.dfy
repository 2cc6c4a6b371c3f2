/** Sending a binary in chunks over the link, and putting it together again. */
module Chunks {
  import opened Bits
  import opened Bytes
  import opened Frame
  import opened Stream
  import Varint

  const WASM_CHUNK: nat := 5

  datatype Chunk = Chunk(total: nat, index: nat, data: seq<Byte>)

  function Payload(c: Chunk): seq<Byte>
  {
    Varint.Encode(WASM_CHUNK) + Varint.Encode(c.total) + Varint.Encode(c.index) + (Varint.Encode(|c.data|) + c.data)
  }

  // Reading the fields one after the other.
  function ReadPayload(payload: seq<Byte>): Option<Chunk>
  {
    match Varint.Decode(payload, 0)
    case None => None
    case Some((tag, o1)) =>
      match Varint.Decode(payload, o1)
      case None => None
      case Some((total, o2)) =>
        match Varint.Decode(payload, o2)
        case None => None
        case Some((index, o3)) =>
          match Varint.Decode(payload, o3)
          case None => None
          case Some((len, o4)) =>
            if tag == WASM_CHUNK && o4 + len == |payload| then Some(Chunk(total, index, payload[o4..])) else None
  }

  // A varint in the middle of concatenated fields.
  lemma FieldReads(payload: seq<Byte>, pre: seq<Byte>, v: nat, post: seq<Byte>)
    requires payload == pre + (Varint.Encode(v) + post)
    ensures Varint.Decode(payload, |pre|) == Some((v, |pre + Varint.Encode(v)|))
  {
    Varint.RoundTrip(pre, v, post);
    assert payload == pre + Varint.Encode(v) + post;
  }

  // A chunk's payload is the tag 5, the number of chunks, the chunk's index and the length of its data, each a varint,
  // and then the data.
  lemma PayloadFields(c: Chunk) returns (o2: nat, o3: nat, o4: nat)
    ensures var p := Payload(c);
      && Varint.Decode(p, 0) == Some((5, 1)) && Varint.Decode(p, 1) == Some((c.total, o2))
      && Varint.Decode(p, o2) == Some((c.index, o3)) && Varint.Decode(p, o3) == Some((|c.data|, o4))
      && o4 <= |p| && p[o4..] == c.data
  {
    hide Varint.Decode;
    var a, b, i, n := Varint.Encode(5), Varint.Encode(c.total), Varint.Encode(c.index), Varint.Encode(|c.data|);
    var p := Payload(c);
    assert a == [5];
    o2, o3, o4 := |a + b|, |a + b + i|, |a + b + i + n|;
    assert p == [] + (a + (b + i + n + c.data));
    FieldReads(p, [], 5, b + i + n + c.data);
    assert [] + a == a;
    assert p == a + (b + (i + n + c.data));
    FieldReads(p, a, c.total, i + n + c.data);
    assert p == (a + b) + (i + (n + c.data));
    FieldReads(p, a + b, c.index, n + c.data);
    assert p == (a + b + i) + (n + c.data);
    FieldReads(p, a + b + i, |c.data|, c.data);
  }

  // So every chunk payload reads back as its chunk.
  lemma PayloadReads(c: Chunk)
    ensures ReadPayload(Payload(c)) == Some(c)
  {
    hide Varint.Decode, Payload;
    var o2, o3, o4 := PayloadFields(c);
  }

  // ---- splitting ----

  function Pieces(bin: seq<Byte>, size: nat): (r: seq<seq<Byte>>)
    requires size > 0
    decreases |bin|
  {
    if |bin| == 0 then [] else if |bin| <= size then [bin] else [bin[..size]] + Pieces(bin[size..], size)
  }

  function Total(len: nat, size: nat): nat
    requires size > 0
  {
    (len + size - 1) / size
  }

  lemma TotalStep(len: nat, size: nat)
    requires size > 0 && len >= size
    ensures Total(len, size) == 1 + Total(len - size, size)
  {
    var q, r := (len - 1) / size, (len - 1) % size;
    assert len - 1 == size * q + r;
    assert len + size - 1 == size * (q + 1) + r by { assert size * (q + 1) == size * q + size; }
    ModUnique(len + size - 1, size, q + 1, r);
  }

  lemma TotalSmall(len: nat, size: nat)
    requires size > 0 && len <= size
    ensures Total(len, size) == if len == 0 then 0 else 1
  {
    if len == 0 { ModUnique(size - 1, size, 0, size - 1); } else { ModUnique(len + size - 1, size, 1, len - 1); }
  }

  lemma {:induction false} PiecesCover(bin: seq<Byte>, size: nat)
    requires size > 0
    ensures Flatten(Pieces(bin, size)) == bin && |Pieces(bin, size)| == Total(|bin|, size)
    decreases |bin|
  {
    if |bin| <= size {
      TotalSmall(|bin|, size);
      if |bin| > 0 { assert Flatten([bin]) == bin + Flatten([]); }
    } else {
      PiecesCover(bin[size..], size);
      TotalStep(|bin|, size);
    }
  }

  // Piece i starts at i * size.
  lemma {:induction false} PieceAt(bin: seq<Byte>, size: nat, i: nat)
    requires size > 0 && i < |Pieces(bin, size)|
    ensures Times(i, size) <= |bin|
    ensures Pieces(bin, size)[i] ==
      bin[Times(i, size)..if Times(i, size) + size <= |bin| then Times(i, size) + size else |bin|]
    decreases i
  {
    if i > 0 && |bin| > size {
      PieceAt(bin[size..], size, i - 1);
      hide Pieces, Times;
      var from := Times(i - 1, size);
      var to := if from + size <= |bin| - size then from + size else |bin| - size;
      PieceBehind(bin, size, i);
      assert bin[size..][from..to] == bin[size + from..size + to];
    }
  }

  lemma PieceBehind(bin: seq<Byte>, size: nat, i: nat)
    requires 0 < size < |bin| && 0 < i < |Pieces(bin, size)|
    ensures i - 1 < |Pieces(bin[size..], size)| && Pieces(bin, size)[i] == Pieces(bin[size..], size)[i - 1]
    ensures Times(i, size) == size + Times(i - 1, size)
  {
  }

  function ChunksOf(bin: seq<Byte>, size: nat): (r: seq<Chunk>)
    requires size > 0
    ensures |r| == |Pieces(bin, size)|
  {
    var ps := Pieces(bin, size);
    seq(|ps|, i requires 0 <= i < |ps| => Chunk(Total(|bin|, size), i, ps[i]))
  }

  // The loop of the sender.
  method SplitChunks(bin: seq<Byte>, size: nat) returns (cs: seq<Chunk>)
    requires size > 0
    ensures cs == ChunksOf(bin, size)
  {
    var total := (|bin| + size - 1) / size;
    PiecesCover(bin, size);
    cs := [];
    var start: nat := 0;
    for i := 0 to total
      invariant start == Times(i, size) && cs == ChunksOf(bin, size)[..i]
    {
      PieceAt(bin, size, i);
      var end := if start + size <= |bin| then start + size else |bin|;
      cs := cs + [Chunk(total, i, bin[start..end])];
      start := start + size;
    }
  }

  // ---- reassembly ----

  function DataOf(cs: seq<Chunk>): seq<seq<Byte>> { seq(|cs|, i requires 0 <= i < |cs| => cs[i].data) }

  // The chunks number themselves 0 .. total - 1, and their data in index order is the binary.
  lemma ChunksCover(bin: seq<Byte>, size: nat)
    requires size > 0
    ensures forall i :: 0 <= i < |ChunksOf(bin, size)| ==>
      ChunksOf(bin, size)[i].index == i && ChunksOf(bin, size)[i].total == |ChunksOf(bin, size)|
    ensures Flatten(DataOf(ChunksOf(bin, size))) == bin
  {
    PiecesCover(bin, size);
    assert DataOf(ChunksOf(bin, size)) == Pieces(bin, size);
  }

  function PacketsOf(cs: seq<Chunk>, session: nat, first: nat): (r: seq<Packet>)
    ensures |r| == |cs|
  {
    seq(|cs|, i requires 0 <= i < |cs| => Packet(session, first + i, Payload(cs[i])))
  }

  function ReadAll(ps: seq<Packet>): seq<Chunk>
    decreases |ps|
  {
    if ps == [] then []
    else match ReadPayload(ps[0].payload) case None => ReadAll(ps[1..]) case Some(c) => [c] + ReadAll(ps[1..])
  }

  lemma {:induction false} ReadAllPackets(cs: seq<Chunk>, session: nat, first: nat)
    ensures ReadAll(PacketsOf(cs, session, first)) == cs
    decreases |cs|
  {
    if cs != [] {
      PayloadReads(cs[0]);
      ReadAllPackets(cs[1..], session, first + 1);
      PacketsTail(cs, session, first);
      assert [cs[0]] + cs[1..] == cs;
    }
  }

  lemma PacketsTail(cs: seq<Chunk>, session: nat, first: nat)
    requires cs != []
    ensures PacketsOf(cs, session, first)[0].payload == Payload(cs[0])
    ensures PacketsOf(cs, session, first)[1..] == PacketsOf(cs[1..], session, first + 1)
  {
  }

  // From a binary to chunks, packets, frames, an arbitrarily chunked byte stream and back: the receiver's chunks
  // are the sender's, and joined in order they are the binary.
  lemma BinaryDelivered(bin: seq<Byte>, size: nat, session: nat, first: nat, recvs: seq<seq<Byte>>)
    requires size > 0 && session < 0x1_0000_0000 && first + |ChunksOf(bin, size)| <= 0x1_0000_0000
    requires forall i :: 0 <= i < |ChunksOf(bin, size)| ==>
      !HasBoth(Stuffed(PacketsOf(ChunksOf(bin, size), session, first)[i]))
    requires Flatten(recvs) == Wires(PacketsOf(ChunksOf(bin, size), session, first))
    ensures ReadAll(ParseAll(Received([], recvs))) == ChunksOf(bin, size)
    ensures Flatten(DataOf(ReadAll(ParseAll(Received([], recvs))))) == bin
  {
    var cs := ChunksOf(bin, size);
    var ps := PacketsOf(cs, session, first);
    PacketsDelivered(ps, recvs);
    ReadAllPackets(cs, session, first);
    ChunksCover(bin, size);
  }
}
