/**
 The receive loop: bytes arrive in arbitrary chunks, frames are cut out at zero bytes, and what is
 left over is searched for requests of the older text protocol.
 */
module Stream {
  import opened Bytes
  import opened Frame
  import Cobs

  // "@@GEMINI_REQ@@" and "@@END@@"
  const REQ_START: seq<Byte> := [64, 64, 71, 69, 77, 73, 78, 73, 95, 82, 69, 81, 64, 64]
  const REQ_END: seq<Byte> := [64, 64, 69, 78, 68, 64, 64]

  // Position of the first occurrence of a pattern.
  function Find(buf: seq<Byte>, pat: seq<Byte>): (r: Option<nat>)
    ensures r.Some? ==> r.value + |pat| <= |buf| && buf[r.value..r.value + |pat|] == pat
    decreases |buf|
  {
    if |buf| < |pat| then None
    else if buf[..|pat|] == pat then Some(0)
    else if buf == [] then None
    else match Find(buf[1..], pat)
      case None => None
      case Some(i) => Some(i + 1)
  }

  // It is the first one, and None means that there is none.
  lemma {:induction false} FindIsFirst(buf: seq<Byte>, pat: seq<Byte>, i: nat)
    requires i + |pat| <= |buf| && buf[i..i + |pat|] == pat
    ensures Find(buf, pat).Some? && Find(buf, pat).value <= i
    decreases i
  {
    if i > 0 && buf[..|pat|] != pat {
      assert buf[1..][i - 1..i - 1 + |pat|] == buf[i..i + |pat|];
      FindIsFirst(buf[1..], pat, i - 1);
    } else if i == 0 {
      assert buf[..|pat|] == buf[0..|pat|];
    }
  }

  // The text-protocol loop starts when both markers are in the buffer.
  predicate HasBoth(buf: seq<Byte>) { Find(buf, REQ_START).Some? && Find(buf, REQ_END).Some? }

  // What that loop leaves of the buffer: each turn drops everything up to the end marker.
  function Strip(buf: seq<Byte>): (r: seq<Byte>)
    ensures |r| <= |buf| && (HasBoth(buf) ==> |r| < |buf|)
    decreases |buf|
  {
    if HasBoth(buf) then Strip(buf[Find(buf, REQ_END).value + |REQ_END|..]) else buf
  }

  // A stretch between zero bytes is handled as a frame if it has at least 3 bytes.
  function Emit(piece: seq<Byte>): seq<seq<Byte>> { if |piece| >= 3 then [piece] else [] }

  // Frames cut out of `s` when `piece` is what has been read since the last zero byte, and the piece left over.
  function Frames(piece: seq<Byte>, s: seq<Byte>): (r: seq<seq<Byte>>)
    decreases |s|
  {
    if s == [] then []
    else if s[0] == 0 then Emit(piece) + Frames([], s[1..])
    else Frames(piece + [s[0]], s[1..])
  }

  function Rest(piece: seq<Byte>, s: seq<Byte>): (r: seq<Byte>)
    decreases |s|
  {
    if s == [] then piece else Rest(if s[0] == 0 then [] else piece + [s[0]], s[1..])
  }

  // Handling all chunks: frames in order, and the buffer kept at the end.
  function Received(buf: seq<Byte>, chunks: seq<seq<Byte>>): (r: seq<seq<Byte>>)
    decreases |chunks|
  {
    if chunks == [] then []
    else Frames(buf, chunks[0]) + Received(Strip(Rest(buf, chunks[0])), chunks[1..])
  }

  // ---- the loop ----

  lemma {:induction false} FramesConcat(piece: seq<Byte>, a: seq<Byte>, b: seq<Byte>)
    ensures Frames(piece, a + b) == Frames(piece, a) + Frames(Rest(piece, a), b)
    ensures Rest(piece, a + b) == Rest(Rest(piece, a), b)
    decreases |a|
  {
    if a == [] {
      assert a + b == b;
    } else {
      assert (a + b)[1..] == a[1..] + b;
      FramesConcat(if a[0] == 0 then [] else piece + [a[0]], a[1..], b);
    }
  }

  // Zero-free bytes only lengthen the piece.
  lemma {:induction false} FramesOfPiece(piece: seq<Byte>, a: seq<Byte>)
    requires Cobs.NoZero(a)
    ensures Frames(piece, a) == [] && Rest(piece, a) == piece + a
    decreases |a|
  {
    if a != [] {
      FramesOfPiece(piece + [a[0]], a[1..]);
      assert piece + [a[0]] + a[1..] == piece + a;
    } else {
      assert piece + a == piece;
    }
  }

  lemma {:induction false} RestNoZero(piece: seq<Byte>, s: seq<Byte>)
    requires Cobs.NoZero(piece)
    ensures Cobs.NoZero(Rest(piece, s))
    decreases |s|
  {
    if s != [] { RestNoZero(if s[0] == 0 then [] else piece + [s[0]], s[1..]); }
  }

  method IndexOfZero(buf: seq<Byte>) returns (i: nat)
    ensures i <= |buf| && Cobs.NoZero(buf[..i]) && (i < |buf| ==> buf[i] == 0)
  {
    i := 0;
    while i < |buf| && buf[i] != 0
      invariant i <= |buf| && Cobs.NoZero(buf[..i])
    {
      i := i + 1;
    }
  }

  // Cut out frames at zero bytes until none is left.
  method CutFrames(input: seq<Byte>) returns (frames: seq<seq<Byte>>, buf: seq<Byte>)
    ensures frames == Frames([], input) && buf == Rest([], input)
  {
    frames, buf := [], input;
    var at: nat := IndexOfZero(buf);
    while at < |buf|
      invariant at <= |buf| && Cobs.NoZero(buf[..at]) && (at < |buf| ==> buf[at] == 0)
      invariant frames + Frames([], buf) == Frames([], input) && Rest([], buf) == Rest([], input)
      decreases |buf|
    {
      CutOne(buf, at);
      if at > 0 {
        var frame := buf[..at];
        assert frames + (Emit(frame) + Frames([], buf[at + 1..])) == (frames + Emit(frame)) + Frames([], buf[at + 1..]);
        buf := buf[at + 1..];
        if |frame| >= 3 { frames := frames + [frame]; }
      } else {
        buf := buf[1..];
      }
      at := IndexOfZero(buf);
    }
    assert buf[..at] == buf;
    FramesOfPiece([], buf);
  }

  // The text protocol takes its requests out of what is left.
  method DropRequests(left: seq<Byte>) returns (buf: seq<Byte>)
    ensures buf == Strip(left)
  {
    buf := left;
    while HasBoth(buf)
      invariant Strip(buf) == Strip(left)
      decreases |buf|
    {
      buf := buf[Find(buf, REQ_END).value + |REQ_END|..];
    }
  }

  class Receiver {
    var buf: seq<Byte>

    constructor ()
      ensures buf == []
    {
      buf := [];
    }

    // One recv: append, cut out frames, then let the text protocol have what is left.
    method OnData(data: seq<Byte>) returns (frames: seq<seq<Byte>>)
      requires Cobs.NoZero(buf)
      modifies this
      ensures frames == Frames(old(buf), data)
      ensures buf == Strip(Rest(old(buf), data)) && Cobs.NoZero(buf)
    {
      FramesOfPiece([], buf);
      assert [] + buf == buf;
      FramesConcat([], buf, data);
      RestNoZero(buf, data);
      StripNoZero(Rest(buf, data));
      frames, buf := CutFrames(buf + data);
      buf := DropRequests(buf);
    }
  }

  lemma CutOne(buf: seq<Byte>, at: nat)
    requires at < |buf| && buf[at] == 0 && Cobs.NoZero(buf[..at])
    ensures Frames([], buf) == Emit(buf[..at]) + Frames([], buf[at + 1..]) && Rest([], buf) == Rest([], buf[at + 1..])
  {
    assert buf == buf[..at] + buf[at..];
    FramesOfPiece([], buf[..at]);
    assert [] + buf[..at] == buf[..at];
    FramesConcat([], buf[..at], buf[at..]);
    assert buf[at..][1..] == buf[at + 1..];
  }

  lemma {:induction false} StripNoZero(buf: seq<Byte>)
    requires Cobs.NoZero(buf)
    ensures Cobs.NoZero(Strip(buf))
    decreases |buf|
  {
    if HasBoth(buf) { StripNoZero(buf[Find(buf, REQ_END).value + |REQ_END|..]); }
  }

  // ---- chunk boundaries ----

  lemma {:induction false} FindGrows(a: seq<Byte>, b: seq<Byte>, pat: seq<Byte>)
    requires Find(a, pat).Some?
    ensures Find(a + b, pat).Some?
    decreases |a|
  {
    if a[..|pat|] == pat {
      assert (a + b)[..|pat|] == pat;
    } else {
      FindGrows(a[1..], b, pat);
      assert (a + b)[1..] == a[1..] + b;
    }
  }

  // No stretch between zero bytes, complete or not, ever holds both markers.
  ghost predicate Quiet(piece: seq<Byte>, s: seq<Byte>)
    decreases |s|
  {
    && !HasBoth(piece)
    && (s != [] ==> Quiet(if s[0] == 0 then [] else piece + [s[0]], s[1..]))
  }

  lemma {:induction false} QuietConcat(piece: seq<Byte>, a: seq<Byte>, b: seq<Byte>)
    ensures Quiet(piece, a + b) ==> !HasBoth(Rest(piece, a)) && Quiet(Rest(piece, a), b)
    decreases |a|
  {
    if a == [] {
      assert a + b == b;
    } else {
      assert (a + b)[1..] == a[1..] + b;
      QuietConcat(if a[0] == 0 then [] else piece + [a[0]], a[1..], b);
    }
  }

  // On a quiet stream what is received depends on the bytes alone, not on where the chunks end.
  lemma {:induction false} ReceivedIsFrames(buf: seq<Byte>, chunks: seq<seq<Byte>>)
    requires Quiet(buf, Flatten(chunks))
    ensures Received(buf, chunks) == Frames(buf, Flatten(chunks))
    decreases |chunks|
  {
    if chunks != [] {
      var c, more := chunks[0], Flatten(chunks[1..]);
      FramesConcat(buf, c, more);
      QuietConcat(buf, c, more);
      ReceivedIsFrames(Rest(buf, c), chunks[1..]);
    }
  }

  // ---- streams of frames ----

  // Frames as the receiver sees them: zero-free and long enough.
  ghost predicate Framed(fs: seq<seq<Byte>>) { forall i :: 0 <= i < |fs| ==> Cobs.NoZero(fs[i]) && |fs[i]| >= 3 }

  function Ended(fs: seq<seq<Byte>>): seq<Byte>
  {
    if fs == [] then [] else fs[0] + [0] + Ended(fs[1..])
  }

  lemma {:induction false} FramesOfEnded(fs: seq<seq<Byte>>)
    requires Framed(fs)
    ensures Frames([], Ended(fs)) == fs && Rest([], Ended(fs)) == []
    decreases |fs|
  {
    if fs != [] {
      var f, more := fs[0], Ended(fs[1..]);
      FramesOfEnded(fs[1..]);
      var all := f + [0] + more;
      assert all[..|f|] == f && all[|f| + 1..] == more;
      CutOne(all, |f|);
      assert [f] + fs[1..] == fs;
    }
  }

  lemma {:induction false} QuietPiece(piece: seq<Byte>, f: seq<Byte>, more: seq<Byte>)
    requires Cobs.NoZero(f)
    ensures Quiet(piece, f + [0] + more) <==> !HasBoth(piece + f) && Quiet([], more)
    decreases |f|
  {
    if f == [] {
      assert f + [0] + more == [0] + more && ([0] + more)[1..] == more;
      assert piece + f == piece;
    } else {
      assert (f + [0] + more)[1..] == f[1..] + [0] + more;
      assert piece + f == (piece + [f[0]]) + f[1..];
      QuietPiece(piece + [f[0]], f[1..], more);
      if HasBoth(piece) {
        FindGrows(piece, f, REQ_START);
        FindGrows(piece, f, REQ_END);
      }
    }
  }

  // A stream of frames is quiet exactly when no frame holds both markers.
  lemma {:induction false} QuietEnded(fs: seq<seq<Byte>>)
    requires Framed(fs)
    ensures Quiet([], Ended(fs)) <==> forall i :: 0 <= i < |fs| ==> !HasBoth(fs[i])
    decreases |fs|
  {
    if fs != [] {
      QuietPiece([], fs[0], Ended(fs[1..]));
      assert [] + fs[0] == fs[0];
      QuietEnded(fs[1..]);
      assert forall i :: 1 <= i < |fs| ==> fs[i] == fs[1..][i - 1];
    }
  }

  lemma {:induction false} EndedConcat(a: seq<seq<Byte>>, b: seq<seq<Byte>>)
    ensures Ended(a + b) == Ended(a) + Ended(b)
    decreases |a|
  {
    if a == [] {
      assert a + b == b;
    } else {
      EndedConcat(a[1..], b);
      assert (a + b)[1..] == a[1..] + b;
    }
  }

  // Cut in front of the end mark of frame k.
  function CutBefore(fs: seq<seq<Byte>>, k: nat): seq<seq<Byte>>
    requires k < |fs|
  {
    [Ended(fs[..k]) + fs[k], [0] + Ended(fs[k + 1..])]
  }

  lemma FlattenTwo(a: seq<Byte>, b: seq<Byte>)
    ensures Flatten([a, b]) == a + b
  {
    assert [a, b] == [a] + [b];
    FlattenSnoc([a], b);
    FlattenSnoc([], a);
    assert [] + [a] == [a];
  }

  lemma CutBeforeIsStream(fs: seq<seq<Byte>>, k: nat)
    requires k < |fs|
    ensures Flatten(CutBefore(fs, k)) == Ended(fs)
  {
    hide Ended, Flatten;
    var a, b := Ended(fs[..k]), Ended(fs[k + 1..]);
    FlattenTwo(a + fs[k], [0] + b);
    EndedSplit(fs, k);
    Regroup(a, fs[k], b);
  }

  lemma EndedSplit(fs: seq<seq<Byte>>, k: nat)
    requires k < |fs|
    ensures Ended(fs) == Ended(fs[..k]) + (fs[k] + [0] + Ended(fs[k + 1..]))
  {
    hide Ended;
    EndedConcat(fs[..k], fs[k..]);
    assert fs == fs[..k] + fs[k..];
    EndedFrom(fs, k);
  }

  lemma EndedFrom(fs: seq<seq<Byte>>, k: nat)
    requires k < |fs|
    ensures Ended(fs[k..]) == fs[k] + [0] + Ended(fs[k + 1..])
  {
    assert fs[k..][1..] == fs[k + 1..] && fs[k..][0] == fs[k];
  }

  lemma Regroup(a: seq<Byte>, f: seq<Byte>, b: seq<Byte>)
    ensures (a + f) + ([0] + b) == a + (f + [0] + b)
  {
  }

  // There the text protocol gets the whole frame k before the frame is complete.
  lemma CutBeforeReceived(fs: seq<seq<Byte>>, k: nat)
    requires Framed(fs) && k < |fs|
    ensures Received([], CutBefore(fs, k)) == fs[..k] + (Emit(Strip(fs[k])) + fs[k + 1..])
  {
    var first, second := CutBefore(fs, k)[0], CutBefore(fs, k)[1];
    FramesOfEnded(fs[..k]);
    FramesConcat([], Ended(fs[..k]), fs[k]);
    FramesOfPiece([], fs[k]);
    assert [] + fs[k] == fs[k];
    assert Frames([], first) == fs[..k] && Rest([], first) == fs[k];
    FramesOfEnded(fs[k + 1..]);
    assert second[1..] == Ended(fs[k + 1..]);
    var none: seq<seq<Byte>> := [];
    assert CutBefore(fs, k)[1..] == [second] && [second][1..] == none;
    var buf := Strip(fs[k]);
    assert Received(buf, [second]) == Frames(buf, second) + Received(Strip(Rest(buf, second)), []);
  }

  lemma ChunkingSafe(fs: seq<seq<Byte>>, chunks: seq<seq<Byte>>)
    requires Framed(fs) && Flatten(chunks) == Ended(fs) && forall i :: 0 <= i < |fs| ==> !HasBoth(fs[i])
    ensures Received([], chunks) == fs
  {
    QuietEnded(fs);
    FramesOfEnded(fs);
    ReceivedIsFrames([], chunks);
  }

  lemma ChunkingUnsafe(fs: seq<seq<Byte>>, k: nat)
    requires Framed(fs) && k < |fs| && HasBoth(fs[k])
    ensures Flatten(CutBefore(fs, k)) == Ended(fs) && Received([], CutBefore(fs, k)) != fs
  {
    CutBeforeIsStream(fs, k);
    CutBeforeReceived(fs, k);
    StrippedDiffers(fs, k);
  }

  // Every chunking of a stream of frames delivers exactly those frames, if and only if no frame holds both
  // markers of the text protocol.
  lemma ChunkingIrrelevant(fs: seq<seq<Byte>>)
    requires Framed(fs)
    ensures (forall chunks: seq<seq<Byte>> :: Flatten(chunks) == Ended(fs) ==> Received([], chunks) == fs)
       <==> (forall i :: 0 <= i < |fs| ==> !HasBoth(fs[i]))
  {
    if i :| 0 <= i < |fs| && HasBoth(fs[i]) {
      ChunkingUnsafe(fs, i);
    } else {
      forall chunks: seq<seq<Byte>> | Flatten(chunks) == Ended(fs) ensures Received([], chunks) == fs {
        ChunkingSafe(fs, chunks);
      }
    }
  }

  lemma StrippedDiffers(fs: seq<seq<Byte>>, k: nat)
    requires k < |fs| && HasBoth(fs[k])
    ensures fs[..k] + (Emit(Strip(fs[k])) + fs[k + 1..]) != fs
  {
    var r := fs[..k] + (Emit(Strip(fs[k])) + fs[k + 1..]);
    if |Strip(fs[k])| >= 3 {
      assert r[k] == Strip(fs[k]);
    } else {
      assert |r| == |fs| - 1;
    }
  }

  // ---- packets ----

  function Stuffed(p: Packet): seq<Byte> { Cobs.Encode(Sealed(Raw(p))) }

  function StuffedAll(ps: seq<Packet>): (r: seq<seq<Byte>>)
    ensures |r| == |ps| && forall i :: 0 <= i < |ps| ==> r[i] == Stuffed(ps[i])
  {
    seq(|ps|, i requires 0 <= i < |ps| => Stuffed(ps[i]))
  }

  function Wires(ps: seq<Packet>): seq<Byte> { if ps == [] then [] else Wire(ps[0]) + Wires(ps[1..]) }

  // Frames that do not parse are dropped silently.
  function ParseAll(fs: seq<seq<Byte>>): seq<Packet>
    decreases |fs|
  {
    if fs == [] then []
    else match Parse(fs[0]) case None => ParseAll(fs[1..]) case Some(p) => [p] + ParseAll(fs[1..])
  }

  lemma {:induction false} WiresAreEnded(ps: seq<Packet>)
    ensures Wires(ps) == Ended(StuffedAll(ps)) && Framed(StuffedAll(ps))
    decreases |ps|
  {
    forall i | 0 <= i < |ps| ensures Cobs.NoZero(StuffedAll(ps)[i]) && |StuffedAll(ps)[i]| >= 3 { WireShape(ps[i]); }
    if ps != [] {
      WiresAreEnded(ps[1..]);
      assert StuffedAll(ps)[1..] == StuffedAll(ps[1..]);
    }
  }

  lemma {:induction false} ParseStuffed(ps: seq<Packet>)
    requires forall i :: 0 <= i < |ps| ==> Packable(ps[i]) && ps[i].payload != []
    ensures ParseAll(StuffedAll(ps)) == ps
    decreases |ps|
  {
    if ps != [] {
      ParseWire(ps[0]);
      ParseStuffed(ps[1..]);
      assert StuffedAll(ps)[1..] == StuffedAll(ps[1..]);
      assert [ps[0]] + ps[1..] == ps;
    }
  }

  // Packets sent one after the other and received in any chunking come out as the same packets in order.
  lemma PacketsDelivered(ps: seq<Packet>, chunks: seq<seq<Byte>>)
    requires forall i :: 0 <= i < |ps| ==> Packable(ps[i]) && ps[i].payload != [] && !HasBoth(Stuffed(ps[i]))
    requires Flatten(chunks) == Wires(ps)
    ensures ParseAll(Received([], chunks)) == ps
  {
    WiresAreEnded(ps);
    ChunkingSafe(StuffedAll(ps), chunks);
    ParseStuffed(ps);
  }

  // ---- frames that hold both markers ----

  // A pattern inside x is inside any buffer that holds x.
  lemma FindInside(buf: seq<Byte>, at: nat, x: seq<Byte>, pat: seq<Byte>)
    requires at + |x| <= |buf| && buf[at..at + |x|] == x && Find(x, pat).Some?
    ensures Find(buf, pat).Some?
  {
    hide Find;
    var i := Find(x, pat).value;
    OccursInside(buf, at, |x|, pat, i);
    FindIsFirst(buf, pat, at + i);
  }

  lemma OccursInside(buf: seq<Byte>, at: nat, n: nat, pat: seq<Byte>, i: nat)
    requires at + n <= |buf| && i + |pat| <= n && buf[at..at + n][i..i + |pat|] == pat
    ensures buf[at + i..at + i + |pat|] == pat
  {
    SliceOfSlice(buf, at, at + n, i, i + |pat|);
  }

  // A packet whose header ends in a zero byte shows a short payload without zeros as it is.
  lemma PayloadShows(p: Packet, h: seq<Byte>) returns (at: nat)
    requires |p.payload| <= 253 && Cobs.NoZero(p.payload) && Raw(p) == h + [0] + p.payload
    ensures at + |p.payload| <= |Stuffed(p)| && Stuffed(p)[at..at + |p.payload|] == p.payload
  {
    hide Cobs.EncodeFrom, Raw, CrcField;
    var crc := CrcField(Raw(p));
    var rest := p.payload + crc;
    assert Sealed(Raw(p)) == h + [0] + rest;
    var pre := Cobs.EncodeAfterZero([], h, rest);
    Cobs.EncodeRun([], p.payload, crc);
    assert [] + p.payload == p.payload;
    Cobs.EncodeShowsRun(p.payload, crc);
    var e := Cobs.EncodeFrom(p.payload, crc);
    at := |pre| + 1;
    assert Stuffed(p)[at..at + |p.payload|] == e[1..1 + |p.payload|];
  }

  lemma HeaderEnd(p: Packet) returns (h: seq<Byte>)
    requires p.number < 0x100_0000
    ensures Raw(p) == h + [0] + p.payload
  {
    var number := Le(p.number, 4);
    LastByte(p.number);
    h := Le(p.session, 4) + number[..3];
    assert number == number[..3] + [0];
  }

  lemma LastByte(v: nat)
    requires v < 0x100_0000
    ensures Le(v, 4)[3] == 0
  {
    assert v / 256 / 256 / 256 == 0;
    assert Le(v / 256 / 256 / 256, 1)[0] == 0;
    assert Le(v / 256 / 256, 2)[1] == 0;
    assert Le(v / 256, 3)[2] == 0;
  }

  // A payload of up to 253 bytes without zeros that holds both markers makes a frame that holds both.
  lemma MarkersShow(p: Packet)
    requires p.number < 0x100_0000 && |p.payload| <= 253 && Cobs.NoZero(p.payload) && HasBoth(p.payload)
    ensures HasBoth(Stuffed(p))
  {
    hide Find, Stuffed, Raw;
    var h := HeaderEnd(p);
    var at := PayloadShows(p, h);
    FindInside(Stuffed(p), at, p.payload, REQ_START);
    FindInside(Stuffed(p), at, p.payload, REQ_END);
  }

  // For instance a payload of just the two markers: received in two chunks cut in front of its end mark, the packet
  // does not arrive.
  lemma MarkersLost()
    ensures var p := Packet(1, 1, REQ_START + REQ_END);
      var chunks := CutBefore(StuffedAll([p]), 0);
      Packable(p) && Flatten(chunks) == Wires([p]) && Received([], chunks) != StuffedAll([p])
  {
    hide Find, Stuffed, CutBefore, Wires, Received;
    var p := Packet(1, 1, REQ_START + REQ_END);
    FindIsFirst(p.payload, REQ_START, 0);
    FindIsFirst(p.payload, REQ_END, |REQ_START|);
    MarkersShow(p);
    WiresAreEnded([p]);
    ChunkingUnsafe(StuffedAll([p]), 0);
  }

  // ---- what the loops take and leave ----

  // A stretch without zero bytes, up to a zero byte, is handed on if it has at least three bytes.
  lemma StretchCut(a: seq<Byte>, rest: seq<Byte>)
    requires Cobs.NoZero(a)
    ensures Frames([], a + [0] + rest) == (if |a| >= 3 then [a] else []) + Frames([], rest)
    ensures Rest([], a + [0] + rest) == Rest([], rest)
  {
    var buf := a + [0] + rest;
    assert buf[..|a|] == a && buf[|a| + 1..] == rest;
    CutOne(buf, |a|);
  }

  // The markers are these texts.
  lemma MarkerTexts()
    ensures Ascii("@@GEMINI_REQ@@") == REQ_START && Ascii("@@END@@") == REQ_END
  {
  }

  function Ascii(s: string): seq<Byte>
  {
    seq(|s|, i requires 0 <= i < |s| => if s[i] as int < 128 then s[i] as int else 0)
  }

  ghost predicate OccursAt(buf: seq<Byte>, pat: seq<Byte>, i: nat)
  {
    i + |pat| <= |buf| && buf[i..i + |pat|] == pat
  }

  lemma FindIff(buf: seq<Byte>, pat: seq<Byte>)
    ensures Find(buf, pat).Some? <==> exists i: nat :: OccursAt(buf, pat, i)
    ensures Find(buf, pat).Some? ==> OccursAt(buf, pat, Find(buf, pat).value)
    ensures forall i: nat :: OccursAt(buf, pat, i) ==> Find(buf, pat).Some? && Find(buf, pat).value <= i
  {
    forall i: nat | OccursAt(buf, pat, i) ensures Find(buf, pat).Some? && Find(buf, pat).value <= i {
      FindIsFirst(buf, pat, i);
    }
    if Find(buf, pat).Some? { assert OccursAt(buf, pat, Find(buf, pat).value); }
  }

  // The text protocol drops the buffer up to and with the first end marker, again and again, as long as both markers
  // are in what is left.
  ghost predicate Dropped(buf: seq<Byte>, cuts: seq<nat>, left: seq<Byte>)
    decreases |cuts|
  {
    var both := (exists i: nat :: OccursAt(buf, REQ_START, i)) && exists i: nat :: OccursAt(buf, REQ_END, i);
    if cuts == [] then !both && left == buf
    else
      && both && OccursAt(buf, REQ_END, cuts[0]) && (forall i: nat :: OccursAt(buf, REQ_END, i) ==> cuts[0] <= i)
      && Dropped(buf[cuts[0] + 7..], cuts[1..], left)
  }

  lemma {:induction false} StripDrops(buf: seq<Byte>) returns (cuts: seq<nat>)
    ensures Dropped(buf, cuts, Strip(buf))
    decreases |buf|
  {
    hide Find;
    FindIff(buf, REQ_START);
    FindIff(buf, REQ_END);
    if !HasBoth(buf) { return []; }
    var at := Find(buf, REQ_END).value;
    var more := StripDrops(buf[at + 7..]);
    cuts := [at] + more;
    assert cuts[1..] == more;
  }
}
