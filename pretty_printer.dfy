/**
 * `HtmlProcessor.formatHTML`: the final markup is broken into lines, one
 * tag boundary per line, and each line is indented by two spaces per open
 * level.
 *
 * - Every `>` followed (after any whitespace) by `<` gets exactly one line
 *   break between them: `/>\s*</g -> '>\n<'`.
 * - A line holding a closing tag (`</` and a word character) is written
 *   without indentation and takes one level off (never below zero).
 * - A line that is one opening tag with something after it
 *   (`^<\w[^>]*[^\/]>.*$`) is written at the current level and adds one.
 * - Any other line is written at the current level.
 */
module PrettyPrinter {
  import opened JsText

  // ---------------------------------------------------------------------
  // Breaking between tags
  // ---------------------------------------------------------------------

  /** `s.replace(/>\s*</g, '>\n<')`: matches are found left to right and
      do not overlap, so the `<` of one match cannot begin the next. */
  function Breaks(s: string): (r: string)
    decreases |s|
  {
    if s == [] then []
    else if s[0] == '>' && 1 + LeadingSpaces(s[1..]) < |s| && s[1 + LeadingSpaces(s[1..])] == '<' then
      ">\n<" + Breaks(s[2 + LeadingSpaces(s[1..])..])
    else [s[0]] + Breaks(s[1..])
  }

  /** Breaking only rewrites whitespace: the other characters stay, in
      order. */
  lemma {:induction false} BreaksText(s: string)
    ensures NonSpace(Breaks(s)) == NonSpace(s)
    decreases |s|
  {
    if s != [] {
      var n := LeadingSpaces(s[1..]);
      if s[0] == '>' && 1 + n < |s| && s[1 + n] == '<' {
        BreaksText(s[2 + n..]);
        BreaksMatch(s, n);
      } else {
        BreaksText(s[1..]);
        BreaksCopy(s);
      }
    }
  }

  // The step where `>`, whitespace and `<` become `>\n<`.
  lemma BreaksMatch(s: string, n: nat)
    requires s != [] && n == LeadingSpaces(s[1..])
    requires s[0] == '>' && 1 + n < |s| && s[1 + n] == '<'
    requires NonSpace(Breaks(s[2 + n..])) == NonSpace(s[2 + n..])
    ensures NonSpace(Breaks(s)) == NonSpace(s)
  {
    var rest := s[2 + n..];
    var w := MatchShape(s, n);
    TagPairText(w, rest);
    TagPairText("\n", Breaks(rest));
  }

  // How a matched stretch splits, and what it becomes.
  lemma MatchShape(s: string, n: nat) returns (w: string)
    requires s != [] && n == LeadingSpaces(s[1..])
    requires s[0] == '>' && 1 + n < |s| && s[1 + n] == '<'
    ensures AllSpace(w)
    ensures s == ">" + (w + ("<" + s[2 + n..]))
    ensures Breaks(s) == ">" + ("\n" + ("<" + Breaks(s[2 + n..])))
  {
    w := s[1..][..n];
    MatchSplit(s, n, w);
    MatchBreaks(s, n);
  }

  lemma MatchSplit(s: string, n: nat, w: string)
    requires 1 + n < |s| && s[0] == '>' && s[1 + n] == '<' && w == s[1..][..n]
    ensures s == ">" + (w + ("<" + s[2 + n..]))
  {
    assert w == s[1..1 + n];
    assert s[1 + n..] == "<" + s[2 + n..];
    assert s == s[..1] + (s[1..1 + n] + s[1 + n..]);
  }

  lemma MatchBreaks(s: string, n: nat)
    requires s != [] && n == LeadingSpaces(s[1..])
    requires s[0] == '>' && 1 + n < |s| && s[1 + n] == '<'
    ensures Breaks(s) == ">" + ("\n" + ("<" + Breaks(s[2 + n..])))
  {
    var t := Breaks(s[2 + n..]);
    assert Breaks(s) == ">\n<" + t;
    assert ">\n<" == ">" + ("\n" + "<");
    AppendAssoc(">", "\n" + "<", t);
    AppendAssoc("\n", "<", t);
  }

  // The step where one character is copied.
  lemma BreaksCopy(s: string)
    requires s != []
    requires !(s[0] == '>' && 1 + LeadingSpaces(s[1..]) < |s| && s[1 + LeadingSpaces(s[1..])] == '<')
    requires NonSpace(Breaks(s[1..])) == NonSpace(s[1..])
    ensures NonSpace(Breaks(s)) == NonSpace(s)
  {
    assert Breaks(s) == [s[0]] + Breaks(s[1..]);
    assert s == [s[0]] + s[1..];
    NonSpaceAppend([s[0]], s[1..]);
    NonSpaceAppend([s[0]], Breaks(s[1..]));
  }

  // Whitespace between `>` and `<` leaves no trace once whitespace is
  // deleted.
  lemma TagPairText(w: string, rest: string)
    requires AllSpace(w)
    ensures NonSpace(">" + (w + ("<" + rest))) == "><" + NonSpace(rest)
  {
    NonSpaceAllSpace(w);
    NonSpaceAppend(">", w + ("<" + rest));
    NonSpaceAppend(w, "<" + rest);
    NonSpaceAppend("<", rest);
    assert NonSpace(">") == ">" by { assert ">"[1..] == []; }
    assert NonSpace("<") == "<" by { assert "<"[1..] == []; }
  }

  // ---------------------------------------------------------------------
  // Reading one line
  // ---------------------------------------------------------------------

  /** What `.` does not match: the line terminators. */
  predicate IsLineTerminator(c: char) {
    c == '\n' || c == '\r' || c == '\U{2028}' || c == '\U{2029}'
  }

  /** `line.match(/<\/\w/)`. */
  predicate HasCloseTag(line: string) {
    exists k :: 0 <= k < |line| - 2 && line[k] == '<' && line[k + 1] == '/' && IsWordChar(line[k + 2])
  }

  /** `line.match(/^<\w[^>]*[^\/]>.*$/)`: `<`, a word character, a stretch
      without `>`, one character other than `/`, then `>` and the rest of
      the line without a line terminator. */
  predicate IsOpeningLine(line: string) {
    |line| >= 4 && line[0] == '<' && IsWordChar(line[1]) &&
    exists j :: 2 <= j < |line| - 1 && OpensAt(line, j)
  }

  /** The tag closes with the `>` at `j + 1`, after `[^>]*[^\/]` up to `j`,
      and the rest of the line is matched by `.*$`. */
  predicate OpensAt(line: string, j: int)
    requires 2 <= j < |line| - 1
  {
    '>' !in line[2..j] && line[j] != '/' && line[j + 1] == '>' && NoTerminator(line[j + 2..])
  }

  predicate NoTerminator(s: string) {
    forall k :: 0 <= k < |s| ==> !IsLineTerminator(s[k])
  }

  /** The indentation level a line is written at. */
  function LineIndent(line: string, pad: nat): nat {
    if HasCloseTag(line) then 0 else pad
  }

  /** The level after a line. */
  function NextPad(line: string, pad: nat): nat {
    if HasCloseTag(line) then (if pad > 0 then pad - 1 else 0)
    else if IsOpeningLine(line) then pad + 1
    else pad
  }

  // ---------------------------------------------------------------------
  // All lines
  // ---------------------------------------------------------------------

  /** The lines written for `lines` when the level before them is `pad`. */
  function Layout(lines: seq<string>, pad: nat): (r: seq<string>)
    ensures |r| == |lines|
  {
    if lines == [] then []
    else [Spaces(2 * LineIndent(lines[0], pad)) + lines[0]] + Layout(lines[1..], NextPad(lines[0], pad))
  }

  /** The level before `lines[i]`. */
  function PadAt(lines: seq<string>, pad: nat, i: nat): nat
    requires i <= |lines|
  {
    if i == 0 then pad else NextPad(lines[i - 1], PadAt(lines, pad, i - 1))
  }

  /** The number of opening lines among `lines`. */
  function Openings(lines: seq<string>): nat {
    if lines == [] then 0
    else (if !HasCloseTag(lines[0]) && IsOpeningLine(lines[0]) then 1 else 0) + Openings(lines[1..])
  }

  /** What `formatHTML` returns. */
  function Formatted(html: string): string {
    Join(Layout(Split(Breaks(html), '\n'), 0), '\n')
  }

  /** `formatHTML(html)`: the lines are indented one after the other,
      carrying the level in `pad`. */
  method FormatHtml(html: string) returns (r: string)
    ensures r == Formatted(html)
  {
    var formatted := Breaks(html);
    var lines := Split(formatted, '\n');
    var pad: nat := 0;
    var out: seq<string> := [];
    var i := 0;
    while i < |lines|
      invariant 0 <= i <= |lines|
      invariant Layout(lines, 0) == out + Layout(lines[i..], pad)
    {
      var line := lines[i];
      assert Layout(lines[i..], pad) ==
        [Spaces(2 * LineIndent(line, pad)) + line] + Layout(lines[i + 1..], NextPad(line, pad));
      ghost var before := pad;
      var indent := 0;
      if HasCloseTag(line) {
        if pad > 0 {
          pad := pad - 1;
        }
      } else if IsOpeningLine(line) {
        indent := pad;
        pad := pad + 1;
      } else {
        indent := pad;
      }
      assert indent * 2 == 2 * LineIndent(line, before) && pad == NextPad(line, before);
      out := out + [Spaces(indent * 2) + line];
      i := i + 1;
    }
    assert lines[i..] == [];
    assert out + [] == out;
    r := Join(out, '\n');
  }

  // ---------------------------------------------------------------------
  // What the layout guarantees
  // ---------------------------------------------------------------------

  /** Line `i` of the layout is line `i` of the input behind its
      indentation: none for a closing line, else the level before it. */
  lemma {:induction false} LayoutLine(lines: seq<string>, pad: nat, i: nat)
    requires i < |lines|
    ensures Layout(lines, pad)[i] == Spaces(2 * LineIndent(lines[i], PadAt(lines, pad, i))) + lines[i]
    decreases i
  {
    if i > 0 {
      LayoutLine(lines[1..], NextPad(lines[0], pad), i - 1);
      PadAtTail(lines, pad, i);
      assert lines[1..][i - 1] == lines[i];
    }
  }

  lemma {:induction false} PadAtTail(lines: seq<string>, pad: nat, i: nat)
    requires 0 < i <= |lines|
    ensures PadAt(lines, pad, i) == PadAt(lines[1..], NextPad(lines[0], pad), i - 1)
    decreases i
  {
    if i > 1 {
      PadAtTail(lines, pad, i - 1);
      assert lines[1..][i - 2] == lines[i - 1];
    }
  }

  /** The level never exceeds the starting level plus the opening lines
      read so far. */
  lemma {:induction false} PadAtBound(lines: seq<string>, pad: nat, i: nat)
    requires i <= |lines|
    ensures PadAt(lines, pad, i) <= pad + Openings(lines[..i])
    decreases i
  {
    if i > 0 {
      PadAtBound(lines, pad, i - 1);
      OpeningsSnoc(lines[..i - 1], lines[i - 1]);
      assert lines[..i] == lines[..i - 1] + [lines[i - 1]];
    }
  }

  lemma {:induction false} OpeningsSnoc(lines: seq<string>, line: string)
    ensures Openings(lines + [line]) == Openings(lines) + (if !HasCloseTag(line) && IsOpeningLine(line) then 1 else 0)
  {
    if lines == [] {
      assert [line][1..] == [];
    } else {
      assert (lines + [line])[1..] == lines[1..] + [line];
      OpeningsSnoc(lines[1..], line);
    }
  }

  /** Indenting only adds spaces in front of lines. */
  lemma {:induction false} LayoutText(lines: seq<string>, pad: nat)
    ensures NonSpaceLines(Layout(lines, pad)) == NonSpaceLines(lines)
  {
    if lines != [] {
      LayoutText(lines[1..], NextPad(lines[0], pad));
      var sp := Spaces(2 * LineIndent(lines[0], pad));
      NonSpaceAllSpace(sp);
      NonSpaceAppend(sp, lines[0]);
      var laid := Layout(lines, pad);
      assert laid == [sp + lines[0]] + Layout(lines[1..], NextPad(lines[0], pad));
      assert laid[0] == sp + lines[0] && laid[1..] == Layout(lines[1..], NextPad(lines[0], pad));
      assert NonSpace(laid[0]) == NonSpace(lines[0]) by {
        assert NonSpace(sp) + NonSpace(lines[0]) == NonSpace(lines[0]);
      }
      assert NonSpaceLines(laid) == [NonSpace(laid[0])] + NonSpaceLines(laid[1..]);
    }
  }

  /** The lines with their whitespace deleted. */
  function NonSpaceLines(lines: seq<string>): (r: seq<string>)
    ensures |r| == |lines|
  {
    if lines == [] then [] else [NonSpace(lines[0])] + NonSpaceLines(lines[1..])
  }

  /** Joining with a line break keeps, apart from whitespace, only what the
      lines hold. */
  lemma {:induction false} JoinText(lines: seq<string>)
    ensures NonSpace(Join(lines, '\n')) == NonSpace(Concat(NonSpaceLines(lines)))
  {
    if |lines| == 1 {
      assert NonSpaceLines(lines) == [NonSpace(lines[0])];
      assert Concat([NonSpace(lines[0])]) == NonSpace(lines[0]) + Concat([]);
      assert NonSpace(lines[0]) + [] == NonSpace(lines[0]);
      NonSpaceIdempotent(lines[0]);
    } else if |lines| > 1 {
      JoinText(lines[1..]);
      var n0 := NonSpace(lines[0]);
      var tail := NonSpaceLines(lines[1..]);
      assert NonSpaceLines(lines) == [n0] + tail;
      assert Concat([n0] + tail) == n0 + Concat(tail);
      NonSpaceAppend(lines[0] + ['\n'], Join(lines[1..], '\n'));
      NonSpaceAppend(lines[0], ['\n']);
      NonSpaceAppend(n0, Concat(tail));
      NonSpaceIdempotent(lines[0]);
      assert NonSpace(['\n']) == [] by {
        assert IsSpace('\n');
        assert ['\n'][1..] == [];
      }
    }
  }

  lemma {:induction false} NonSpaceIdempotent(s: string)
    ensures NonSpace(NonSpace(s)) == NonSpace(s)
  {
    if s != [] {
      NonSpaceIdempotent(s[1..]);
      if !IsSpace(s[0]) {
        var t := NonSpace(s[1..]);
        assert ([s[0]] + t)[0] == s[0];
        assert ([s[0]] + t)[1..] == t;
      }
    }
  }

  /** Formatting changes nothing but whitespace: deleting all whitespace
      from the result and from the input gives the same string. */
  lemma FormattedText(html: string)
    ensures NonSpace(Formatted(html)) == NonSpace(html)
  {
    var lines := Split(Breaks(html), '\n');
    var laid := Layout(lines, 0);
    JoinText(laid);
    LayoutText(lines, 0);
    JoinText(lines);
    JoinSplit(Breaks(html), '\n');
    BreaksText(html);
  }

  /** A line holding a closing tag is written without indentation. */
  lemma ClosingLinesFlush(html: string, i: nat)
    requires i < |Split(Breaks(html), '\n')| && HasCloseTag(Split(Breaks(html), '\n')[i])
    ensures Layout(Split(Breaks(html), '\n'), 0)[i] == Split(Breaks(html), '\n')[i]
  {
    var lines := Split(Breaks(html), '\n');
    LayoutLine(lines, 0, i);
    assert Spaces(0) == [];
  }

  /** How lines are read: `<ul>` opens a level; `<p>` is too short for the
      pattern and opens none, yet `</p>` closes one; a list item on one line
      both mentions a closing tag and takes a level off. */
  lemma LineExamples()
    ensures IsOpeningLine("<ul>") && NextPad("<ul>", 0) == 1
    ensures !IsOpeningLine("<p>") && NextPad("<p>", 1) == 1
    ensures HasCloseTag("</p>") && NextPad("</p>", 1) == 0
    ensures HasCloseTag("<li>a</li>") && LineIndent("<li>a</li>", 1) == 0
  {
    assert OpensAt("<ul>", 2);
    assert "</p>"[0] == '<' && "</p>"[1] == '/' && IsWordChar("</p>"[2]);
    var li := "<li>a</li>";
    assert li[5] == '<' && li[6] == '/' && IsWordChar(li[7]);
    assert !HasCloseTag("<ul>");
  }
}
