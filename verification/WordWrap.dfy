/** Greedy word wrap of a text into lines of at most `width` characters. */
module WordWrap {

  // A line is the range [start, end) of the text.
  datatype Line = Line(start: nat, end: nat)

  ghost predicate Spaces(text: string, lo: nat, hi: nat)
  {
    lo <= hi <= |text| && forall i :: lo <= i < hi ==> text[i] == ' '
  }

  ghost predicate NoSpace(text: string, lo: nat, hi: nat)
  {
    lo <= hi <= |text| && forall i :: lo <= i < hi ==> text[i] != ' '
  }

  // 1 to width characters, the first not a space.
  ghost predicate LineOk(text: string, width: nat, l: Line)
  {
    l.start < l.end <= |text| && l.end - l.start <= width && text[l.start] != ' '
  }

  // Where line l ends and the text goes on at `next` with nothing but spaces skipped: the break is at a space
  // or after a full line without any.
  ghost predicate BreakOk(text: string, width: nat, l: Line)
  {
    l.end <= |text| &&
      (l.end < |text| && text[l.end] != ' ' ==> l.end - l.start == width && NoSpace(text, l.start, l.end))
  }

  // Text that fits goes on the line whole; otherwise the line ends at the last space of the window, or at the
  // end of the window when it has none.
  ghost predicate Greedy(text: string, width: nat, l: Line)
  {
    if l.start + width >= |text| then l.end == |text|
    else
      && l.start < l.end <= l.start + width
      && (if l.end < l.start + width then text[l.end] == ' ' && NoSpace(text, l.end + 1, l.start + width)
          else NoSpace(text, l.start, l.end))
  }

  // The lines tile the text: in order, apart, and only spaces fall between, before and behind them.
  ghost predicate Tiles(text: string, lines: seq<Line>, upto: nat)
  {
    && upto <= |text|
    && (if lines == [] then Spaces(text, 0, upto)
        else Spaces(text, 0, lines[0].start) && Spaces(text, lines[|lines| - 1].end, upto))
    && (forall k :: 0 <= k < |lines| - 1 ==> Spaces(text, lines[k].end, lines[k + 1].start))
  }

  ghost predicate Wrapped(text: string, width: nat, lines: seq<Line>, upto: nat)
  {
    && (forall k :: 0 <= k < |lines| ==>
      LineOk(text, width, lines[k]) && BreakOk(text, width, lines[k]) && Greedy(text, width, lines[k]))
    && Tiles(text, lines, upto)
  }

  // The end of the line that starts at a non-space.
  method FindEnd(text: string, start: nat, width: nat) returns (lineEnd: nat)
    requires start < |text| && text[start] != ' ' && width > 0
    ensures LineOk(text, width, Line(start, lineEnd)) && BreakOk(text, width, Line(start, lineEnd))
    ensures Greedy(text, width, Line(start, lineEnd))
  {
    var end, lastSpace := start, 0;
    while end < |text| && end - start < width
      invariant start <= end <= |text| && end - start <= width
      invariant lastSpace == 0 || (start < lastSpace < end && text[lastSpace] == ' ')
      invariant NoSpace(text, if lastSpace > start then lastSpace + 1 else start, end)
    {
      if text[end] == ' ' { lastSpace := end; }
      end := end + 1;
    }
    if end == |text| {
      lineEnd := end;
    } else if lastSpace > start {
      lineEnd := lastSpace;
    } else {
      lineEnd := end;
    }
  }

  // For every text and positive width the loop ends with a tiling of the whole text; width 0 or no text gives
  // no lines.
  method Wrap(text: string, width: nat) returns (lines: seq<Line>)
    ensures width > 0 ==> Wrapped(text, width, lines, |text|)
    ensures width == 0 ==> lines == []
  {
    lines := [];
    if |text| == 0 || width == 0 { return; }
    var i := 0;
    while i < |text|
      invariant 0 <= i <= |text| && Wrapped(text, width, lines, i)
      decreases |text| - i
    {
      while i < |text| && text[i] == ' '
        invariant 0 <= i <= |text| && Wrapped(text, width, lines, i)
      {
        i := i + 1;
      }
      if i >= |text| { break; }
      var lineEnd := FindEnd(text, i, width);
      lines := lines + [Line(i, lineEnd)];
      i := lineEnd;
    }
  }

  // ---- nothing is lost ----

  function NonSpaces(s: string): string
  {
    if s == "" then "" else Visible(s[0]) + NonSpaces(s[1..])
  }

  function Visible(c: char): string { if c == ' ' then "" else [c] }

  function Joined(text: string, lines: seq<Line>): string
    requires forall k :: 0 <= k < |lines| ==> lines[k].start <= lines[k].end <= |text|
    decreases |lines|
  {
    if lines == [] then "" else
    var l := lines[|lines| - 1];
    Joined(text, lines[..|lines| - 1]) + text[l.start..l.end]
  }

  lemma {:induction false} NonSpacesConcat(a: string, b: string)
    ensures NonSpaces(a + b) == NonSpaces(a) + NonSpaces(b)
    decreases |a|
  {
    hide Visible;
    if a == "" {
      assert a + b == b;
    } else {
      NonSpacesConcat(a[1..], b);
      assert (a + b)[1..] == a[1..] + b;
      var x, y, z := Visible(a[0]), NonSpaces(a[1..]), NonSpaces(b);
      assert x + (y + z) == x + y + z;
    }
  }

  lemma {:induction false} NonSpacesOfSpaces(s: string)
    requires forall i :: 0 <= i < |s| ==> s[i] == ' '
    ensures NonSpaces(s) == ""
    decreases |s|
  {
    if s != "" { NonSpacesOfSpaces(s[1..]); }
  }

  lemma GapVanishes(text: string, lo: nat, hi: nat)
    requires Spaces(text, lo, hi)
    ensures NonSpaces(text[..hi]) == NonSpaces(text[..lo])
  {
    assert text[..hi] == text[..lo] + text[lo..hi];
    NonSpacesConcat(text[..lo], text[lo..hi]);
    NonSpacesOfSpaces(text[lo..hi]);
  }

  // The lines in order hold exactly the characters of the text that are not spaces, in order.
  lemma {:induction false} WrapLossless(text: string, width: nat, lines: seq<Line>, upto: nat)
    requires Wrapped(text, width, lines, upto)
    ensures NonSpaces(Joined(text, lines)) == NonSpaces(text[..upto])
    decreases |lines|
  {
    if lines == [] {
      GapVanishes(text, 0, upto);
      assert text[..0] == "";
    } else {
      hide NonSpaces, Wrapped;
      var l, most := lines[|lines| - 1], lines[..|lines| - 1];
      WrappedButLast(text, width, lines, upto);
      WrapLossless(text, width, most, l.start);
      LineJoined(text, Joined(text, most), l, upto);
    }
  }

  lemma LineJoined(text: string, joined: string, l: Line, upto: nat)
    requires l.start <= l.end <= |text| && Spaces(text, l.end, upto) && NonSpaces(joined) == NonSpaces(text[..l.start])
    ensures NonSpaces(joined + text[l.start..l.end]) == NonSpaces(text[..upto])
  {
    hide NonSpaces;
    GapVanishes(text, l.end, upto);
    assert text[..l.end] == text[..l.start] + text[l.start..l.end];
    NonSpacesConcat(text[..l.start], text[l.start..l.end]);
    NonSpacesConcat(joined, text[l.start..l.end]);
  }

  lemma WrappedButLast(text: string, width: nat, lines: seq<Line>, upto: nat)
    requires Wrapped(text, width, lines, upto) && lines != []
    ensures var l := lines[|lines| - 1];
      Wrapped(text, width, lines[..|lines| - 1], l.start) && Spaces(text, l.end, upto) && l.start <= l.end <= |text|
  {
    var n := |lines| - 1;
    assert LineOk(text, width, lines[n]);
    assert n > 0 ==> Spaces(text, lines[n - 1].end, lines[n - 1 + 1].start);
  }

  // ---- how greedy it is ----

  // The line could have ended at a later space without exceeding the width exactly when the character behind the
  // window is a space and the window has one too: that space is not considered.
  lemma WidestBreak(text: string, width: nat, l: Line)
    requires LineOk(text, width, l) && Greedy(text, width, l) && l.start + width < |text|
    ensures (exists e :: l.end < e <= l.start + width && text[e] == ' ')
       <==> text[l.start + width] == ' ' && exists e :: l.start < e < l.start + width && text[e] == ' '
  {
    if text[l.start + width] == ' ' && l.end < l.start + width {
      var e := l.start + width;
      assert l.end < e <= l.start + width && text[e] == ' ';
    }
  }

  // For instance two words that fill the width exactly are split when a third follows.
  lemma ExactFitIsSplit(lines: seq<Line>)
    requires Wrapped("ab cd ef", 5, lines, 8)
    ensures |lines| > 0 && lines[0] == Line(0, 2)
  {
    var text := "ab cd ef";
    assert text[0] == 'a' && text[2] == ' ' && text[3] == 'c' && text[4] == 'd' && text[5] == ' ';
    if lines != [] {
      assert lines[0].start == 0;
      assert LineOk(text, 5, lines[0]) && Greedy(text, 5, lines[0]);
    }
  }
}
