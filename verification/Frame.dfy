/**
 One transport frame: an 8-byte header and a payload, sealed with a CRC, byte-stuffed and ended by a
 zero byte; and the parser on the other side.
 */
module Frame {
  import opened Bytes
  import opened Crc
  import Cobs

  datatype Packet = Packet(session: nat, number: nat, payload: seq<Byte>)

  // The two header fields are packed as unsigned 32-bit integers; larger values raise.
  predicate Packable(p: Packet) { p.session < 0x1_0000_0000 && p.number < 0x1_0000_0000 }

  function Raw(p: Packet): seq<Byte> { Le(p.session, 4) + Le(p.number, 4) + p.payload }

  function CrcField(raw: seq<Byte>): (r: seq<Byte>)
    ensures |r| == 2
  {
    Le(Crc16(raw), 2)
  }

  function Sealed(raw: seq<Byte>): seq<Byte> { raw + CrcField(raw) }

  function Wire(p: Packet): seq<Byte> { Cobs.Encode(Sealed(Raw(p))) + [0] }

  // The part of parse_frame behind the byte unstuffing: 8 header bytes, one payload byte and the CRC at least.
  function Open(decoded: seq<Byte>): Option<Packet>
  {
    if |decoded| < 11 then None
    else
      var raw := decoded[..|decoded| - 2];
      if FromLe(decoded[|decoded| - 2..]) != Crc16(raw) then None
      else Some(Packet(FromLe(raw[..4]), FromLe(raw[4..8]), raw[8..]))
  }

  function Parse(frame: seq<Byte>): Option<Packet>
  {
    match Cobs.Decode(frame) case None => None case Some(decoded) => Open(decoded)
  }

  lemma FieldRoundTrip(v: nat, width: nat)
    requires v < Pow256(width)
    ensures FromLe(Le(v, width)) == v
  {
    FromLeOfLe(v, width);
  }

  // The CRC field of a sealed message reads back as its CRC.
  lemma CrcFieldReads(raw: seq<Byte>)
    ensures FromLe(CrcField(raw)) == Crc16(raw)
  {
    Pow256Values();
    FromLeOfLe(Crc16(raw), 2);
  }

  // What Open sees in a raw message followed by any two bytes: it rejects exactly short messages and CRC
  // mismatches.
  lemma OpenOf(raw: seq<Byte>, field: seq<Byte>)
    requires |field| == 2
    ensures Open(raw + field) ==
      if |raw| < 9 || FromLe(field) != Crc16(raw) then None
      else Some(Packet(FromLe(raw[..4]), FromLe(raw[4..8]), raw[8..]))
  {
    var d := raw + field;
    assert d[..|d| - 2] == raw && d[|d| - 2..] == field;
  }

  lemma HeaderReads(p: Packet)
    requires Packable(p)
    ensures |Raw(p)| == 8 + |p.payload|
    ensures FromLe(Raw(p)[..4]) == p.session && FromLe(Raw(p)[4..8]) == p.number && Raw(p)[8..] == p.payload
  {
    Pow256Values();
    FieldRoundTrip(p.session, 4);
    FieldRoundTrip(p.number, 4);
    assert Raw(p)[..4] == Le(p.session, 4) && Raw(p)[4..8] == Le(p.number, 4);
  }

  // A frame without its end mark parses back to its packet, unless the payload is empty: then it is rejected.
  lemma ParseWire(p: Packet)
    requires Packable(p)
    ensures Parse(Cobs.Encode(Sealed(Raw(p)))) == if p.payload == [] then None else Some(p)
  {
    Cobs.RoundTrip(Sealed(Raw(p)));
    HeaderReads(p);
    CrcFieldReads(Raw(p));
    OpenOf(Raw(p), CrcField(Raw(p)));
  }

  // The end mark is the only zero byte of a frame, and the frame is never one that the receiver skips as too
  // short.
  lemma WireShape(p: Packet)
    ensures |Wire(p)| >= 12 && Wire(p)[|Wire(p)| - 1] == 0
    ensures Cobs.NoZero(Wire(p)[..|Wire(p)| - 1])
    ensures Wire(p)[..|Wire(p)| - 1] == Cobs.Encode(Sealed(Raw(p)))
  {
    Cobs.EncodeNoZero(Sealed(Raw(p)));
    Cobs.EncodeLength(Sealed(Raw(p)));
  }

  // ---- error detection ----

  // A frame that unstuffs to the sent message with a burst of at most 16 wrong bits, CRC field intact, is rejected.
  lemma BurstRejected(frame: seq<Byte>, raw: seq<Byte>, received: seq<Byte>, p: nat)
    requires received != raw && AgreeOutside(MessageBits(raw), MessageBits(received), p)
    requires Cobs.Decode(frame) == Some(received + CrcField(raw))
    ensures Parse(frame) == None
  {
    BurstDetected(raw, received, p);
    CrcFieldReads(raw);
    OpenOf(received, CrcField(raw));
  }

  // So is one with any change inside two adjacent bytes.
  lemma TwoBytesRejected(frame: seq<Byte>, raw: seq<Byte>, received: seq<Byte>, k: nat)
    requires |received| == |raw| && received != raw && forall i :: 0 <= i < |raw| && i != k && i != k + 1 ==>
      raw[i] == received[i]
    requires Cobs.Decode(frame) == Some(received + CrcField(raw))
    ensures Parse(frame) == None
  {
    TwoBytesDetected(raw, received, k);
    CrcFieldReads(raw);
    OpenOf(received, CrcField(raw));
  }

  // So is one with an odd number of wrong bits, wherever they are.
  lemma OddFlipsRejected(frame: seq<Byte>, raw: seq<Byte>, received: seq<Byte>)
    requires |received| == |raw| && Flips(MessageBits(raw), MessageBits(received)) % 2 == 1
    requires Cobs.Decode(frame) == Some(received + CrcField(raw))
    ensures Parse(frame) == None
  {
    hide Flips, MessageBits, Cobs.Decode, CrcField, Crc16, Open;
    OddFlipsDetected(raw, received);
    CrcFieldReads(raw);
    OpenOf(received, CrcField(raw));
  }

  // And one whose CRC field alone is wrong.
  lemma WrongFieldRejected(frame: seq<Byte>, raw: seq<Byte>, field: seq<Byte>)
    requires |field| == 2 && field != CrcField(raw) && Cobs.Decode(frame) == Some(raw + field)
    ensures Parse(frame) == None
  {
    OpenOf(raw, field);
    CrcFieldReads(raw);
    LeOfFromLe(field);
    LeOfFromLe(CrcField(raw));
  }

  // On the wire: session, number, payload and CRC, the numbers with their low bytes first, stuffed as one.
  lemma WireMeans(p: Packet)
    requires Packable(p)
    ensures |Wire(p)| > 0 && Cobs.Decode(Wire(p)[..|Wire(p)| - 1]).Some?
    ensures var d, n := Cobs.Decode(Wire(p)[..|Wire(p)| - 1]).value, |p.payload|;
      && |d| == n + 10 && FromLe(d[..4]) == p.session && FromLe(d[4..8]) == p.number && d[8..n + 8] == p.payload
      && d[n + 8] == Crc16(d[..n + 8]) % 256 && d[n + 9] == Crc16(d[..n + 8]) / 256
  {
    hide Cobs.Encode, Cobs.Decode, Crc16;
    WireShape(p);
    Cobs.RoundTrip(Sealed(Raw(p)));
    HeaderReads(p);
    var raw := Raw(p);
    var d := Sealed(raw);
    assert d[..|raw|] == raw && d[..4] == raw[..4] && d[4..8] == raw[4..8] && d[8..|raw|] == raw[8..];
    TwoBytesOf(Crc16(raw));
  }

  lemma TwoBytesOf(v: nat)
    requires v < 0x1_0000
    ensures Le(v, 2) == [v % 256, v / 256]
  {
    assert Le(v / 256, 1) == [v / 256 % 256] + Le(v / 256 / 256, 0);
  }
}
