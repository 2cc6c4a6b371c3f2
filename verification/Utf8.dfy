/** UTF-8: the bytes of a string, and the strict reader that accepts exactly those. */
module Utf8 {
  import opened Bytes

  predicate Scalar(v: int) { 0 <= v < 0xD800 || 0xE000 <= v < 0x11_0000 }

  function EncodeChar(c: char): (r: seq<Byte>)
    ensures 1 <= |r| <= 4
  {
    var v := c as int;
    if v < 0x80 then [v]
    else if v < 0x800 then [0xC0 + v / 64, 0x80 + v % 64]
    else if v < 0x1_0000 then [0xE0 + v / 4096, 0x80 + v / 64 % 64, 0x80 + v % 64]
    else [0xF0 + v / 262144, 0x80 + v / 4096 % 64, 0x80 + v / 64 % 64, 0x80 + v % 64]
  }

  function Encode(s: string): (r: seq<Byte>)
  {
    if s == [] then [] else EncodeChar(s[0]) + Encode(s[1..])
  }

  // Bytes of the character that starts with this one; 0 where no character starts.
  function Width(lead: Byte): nat
  {
    if lead < 0x80 then 1 else if 0xC0 <= lead < 0xE0 then 2 else if 0xE0 <= lead < 0xF0 then 3
    else if 0xF0 <= lead < 0xF8 then 4 else 0
  }

  function Low(b: int): int { b - 0x80 }

  function Value(s: seq<Byte>): int
    requires 1 <= |s| <= 4
  {
    var lead: int := s[0];
    if |s| == 1 then lead
    else if |s| == 2 then (lead - 0xC0) * 64 + Low(s[1])
    else if |s| == 3 then (lead - 0xE0) * 4096 + Low(s[1]) * 64 + Low(s[2])
    else (lead - 0xF0) * 262144 + Low(s[1]) * 4096 + Low(s[2]) * 64 + Low(s[3])
  }

  // The character in front, unless it is cut short, overlong, a surrogate or out of range.
  function DecodeChar(s: seq<Byte>): (r: Option<char>)
    requires s != []
    ensures r.Some? ==> EncodeChar(r.value) <= s
  {
    var n := Width(s[0]);
    if n == 0 || |s| < n then None
    else
      var v := Value(s[..n]);
      if Scalar(v) && EncodeChar(v as char) == s[..n] then Some(v as char) else None
  }

  function Decode(s: seq<Byte>): (r: Option<string>)
    decreases |s|
  {
    if s == [] then Some([])
    else
      var c := DecodeChar(s);
      if c == None then None
      else
        var rest := Decode(s[|EncodeChar(c.value)|..]);
        if rest == None then None else Some([c.value] + rest.value)
  }

  lemma Digits(v: nat)
    ensures v == v / 64 * 64 + v % 64 && v / 64 == v / 4096 * 64 + v / 64 % 64
    ensures v / 4096 == v / 262144 * 64 + v / 4096 % 64
  {
    assert v / 4096 == v / 64 / 64 && v / 262144 == v / 4096 / 64;
  }

  lemma ValueOfChar(c: char)
    ensures Width(EncodeChar(c)[0]) == |EncodeChar(c)| && Value(EncodeChar(c)) == c as int
  {
    var v := c as int;
    Digits(v);
    if v < 0x80 {
    } else if v < 0x800 {
      assert EncodeChar(c) == [0xC0 + v / 64, 0x80 + v % 64];
    } else if v < 0x1_0000 {
      assert EncodeChar(c) == [0xE0 + v / 4096, 0x80 + v / 64 % 64, 0x80 + v % 64];
    } else {
      assert EncodeChar(c) == [0xF0 + v / 262144, 0x80 + v / 4096 % 64, 0x80 + v / 64 % 64, 0x80 + v % 64];
    }
  }

  lemma DecodeCharOfEncode(c: char, rest: seq<Byte>)
    ensures DecodeChar(EncodeChar(c) + rest) == Some(c)
  {
    hide EncodeChar, Value, Width;
    ValueOfChar(c);
    var s := EncodeChar(c) + rest;
    assert s[0] == EncodeChar(c)[0] && s[..|EncodeChar(c)|] == EncodeChar(c);
  }

  lemma {:induction false} DecodeOfEncode(s: string)
    ensures Decode(Encode(s)) == Some(s)
  {
    hide EncodeChar, DecodeChar;
    if s != [] {
      var head, rest := EncodeChar(s[0]), Encode(s[1..]);
      DecodeCharOfEncode(s[0], rest);
      DecodeOfEncode(s[1..]);
      assert (head + rest)[|head|..] == rest;
      assert [s[0]] + s[1..] == s;
    }
  }

  // Bytes that are read as a string are the encoding of that string: nothing else is accepted.
  lemma {:induction false} EncodeOfDecode(s: seq<Byte>)
    requires Decode(s).Some?
    ensures Encode(Decode(s).value) == s
    decreases |s|
  {
    hide EncodeChar, DecodeChar;
    if s != [] {
      var c := DecodeChar(s).value;
      var n := |EncodeChar(c)|;
      EncodeOfDecode(s[n..]);
      var rest := Decode(s[n..]).value;
      assert ([c] + rest)[1..] == rest;
      assert s == s[..n] + s[n..];
    }
  }

  lemma EncodeEmpty(s: string)
    ensures Encode(s) == [] <==> s == ""
  {
  }
}
