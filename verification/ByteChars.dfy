/** The byte-level alphabet: every byte stands for one character, and characters are turned back into bytes. */
module ByteChars {
  import opened Bytes
  import Utf8

  predicate Direct(b: int) { 0x21 <= b <= 0x7E || 0xA1 <= b <= 0xAC || 0xAE <= b <= 0xFF }

  // How many bytes below b do not stand for themselves.
  function Skipped(b: nat): (r: nat)
    requires b <= 256
    ensures r <= 68
  {
    if b <= 0x21 then b else if b <= 0x7F then 33 else if b <= 0xA1 then 33 + (b - 0x7F)
    else if b <= 0xAD then 67 else 68
  }

  function CodeOf(b: Byte): (r: nat)
    ensures r < 324
  {
    if Direct(b) then b else 256 + Skipped(b)
  }

  function CharOf(b: Byte): char { CodeOf(b) as char }

  // First the bytes that stand for themselves, then the others in order, from 256 on.
  method BuildTable() returns (table: seq<nat>)
    ensures |table| == 256 && forall b: Byte :: table[b] == CodeOf(b)
  {
    table := seq(256, b => if Direct(b) then b else 0);
    var overflow := 0;
    for b := 0 to 256
      invariant |table| == 256 && overflow == Skipped(b)
      invariant forall k: Byte :: table[k] == if k < b || Direct(k) then CodeOf(k) else 0
    {
      if !Direct(b) {
        table := table[b := 256 + overflow];
        overflow := overflow + 1;
      }
    }
  }

  // The byte a character stands for, if it stands for one.
  function ByteOf(c: char): (r: Option<Byte>)
  {
    var v := c as int;
    if Direct(v) then Some(v)
    else if 256 <= v < 256 + 33 then Some(v - 256)
    else if 256 + 33 <= v < 256 + 67 then Some(v - 256 - 33 + 0x7F)
    else if v == 256 + 67 then Some(0xAD)
    else None
  }

  // It is the inverse, on exactly the characters that some byte stands for.
  lemma ByteOfInverts(c: char, b: Byte)
    ensures ByteOf(c) == Some(b) <==> c == CharOf(b)
  {
  }

  function Chars(bytes: seq<Byte>): (r: string)
    ensures |r| == |bytes| && forall i :: 0 <= i < |bytes| ==> r[i] == CharOf(bytes[i])
  {
    seq(|bytes|, i requires 0 <= i < |bytes| => CharOf(bytes[i]))
  }

  // What the decoder emits for a character: its byte, or the character itself.
  function CharBytes(c: char): (r: seq<Byte>)
    ensures |r| >= 1
  {
    var b := ByteOf(c);
    if b.Some? then [b.value] else Utf8.EncodeChar(c)
  }

  function ToBytes(s: string): (r: seq<Byte>)
  {
    if s == "" then [] else CharBytes(s[0]) + ToBytes(s[1..])
  }

  method EmitBytes(s: string) returns (out: seq<Byte>)
    ensures out == ToBytes(s)
  {
    out := [];
    for i := 0 to |s|
      invariant out + ToBytes(s[i..]) == ToBytes(s)
    {
      assert s[i..][1..] == s[i + 1..];
      assert out + (CharBytes(s[i]) + ToBytes(s[i + 1..])) == out + CharBytes(s[i]) + ToBytes(s[i + 1..]);
      var b := ByteOf(s[i]);
      if b.Some? { out := out + [b.value]; } else { out := out + Utf8.EncodeChar(s[i]); }
    }
  }

  lemma {:induction false} ToBytesOfChars(bytes: seq<Byte>)
    ensures ToBytes(Chars(bytes)) == bytes
  {
    hide ByteOf, CharOf;
    if bytes != [] {
      ToBytesOfChars(bytes[1..]);
      ByteOfInverts(CharOf(bytes[0]), bytes[0]);
      assert Chars(bytes)[1..] == Chars(bytes[1..]);
      assert [bytes[0]] + bytes[1..] == bytes;
    }
  }

  lemma {:induction false} ToBytesConcat(a: string, b: string)
    ensures ToBytes(a + b) == ToBytes(a) + ToBytes(b)
  {
    hide CharBytes;
    if a == "" {
      assert a + b == b;
    } else {
      ToBytesConcat(a[1..], b);
      assert (a + b)[1..] == a[1..] + b;
      var x, y, z := CharBytes(a[0]), ToBytes(a[1..]), ToBytes(b);
      assert x + (y + z) == x + y + z;
    }
  }

  // ---- strings that decoding leaves alone ----

  // ASCII, or a character that no byte stands for.
  predicate Kept(c: char) { c as int < 0x80 || ByteOf(c) == None }

  predicate Plain(s: string) { forall i :: 0 <= i < |s| ==> Kept(s[i]) }

  lemma KeptIff(c: char)
    ensures |CharBytes(c)| <= |Utf8.EncodeChar(c)|
    ensures Kept(c) <==> |CharBytes(c)| == |Utf8.EncodeChar(c)|
    ensures Kept(c) <==> CharBytes(c) == Utf8.EncodeChar(c)
  {
  }

  lemma {:induction false} PlainLength(s: string)
    ensures |ToBytes(s)| <= |Utf8.Encode(s)|
    ensures Plain(s) ==> ToBytes(s) == Utf8.Encode(s)
    ensures |ToBytes(s)| == |Utf8.Encode(s)| ==> Plain(s)
  {
    hide Kept, CharBytes, Utf8.EncodeChar;
    if s != "" {
      PlainLength(s[1..]);
      KeptIff(s[0]);
      assert s == [s[0]] + s[1..];
      if Plain(s) { assert Kept(s[0]) && Plain(s[1..]); }
    }
  }

  // A string decodes to its own UTF-8 exactly when each of its characters is ASCII or stands for no byte.
  lemma PlainIff(s: string)
    ensures ToBytes(s) == Utf8.Encode(s) <==> Plain(s)
  {
    PlainLength(s);
  }

  // Printable bytes stand for themselves; the others have the characters from 256 on, in order. So a space is written
  // as the character 0x120 and a line feed as 0x10A.
  lemma CodesInOrder(a: Byte, b: Byte)
    ensures 0x21 <= a <= 0x7E ==> CharOf(a) as int == a
    ensures a < b && !Direct(a) && !Direct(b) ==> 256 <= CharOf(a) as int < CharOf(b) as int < 324
    ensures CharOf(0x20) == '\U{0120}' && CharOf(0x0A) == '\U{010A}'
  {
  }
}
