/** GetWrappedLines and ltrim: cutting a decoded message into lines of at
    most `width` characters. A '\n' always ends a line and is dropped; a line
    that fills up is broken at its last space with index > 0 (the space
    starts the next line), or else one character short of full. Every line
    is pushed through c_str() and ltrim, so it is cut at its first NUL byte
    and loses its leading spaces. */
module LineWrap {
  import opened CLib

  /** The number of spaces at the front of s. */
  function LeadingSpaces(s: string): (n: nat)
    ensures n <= |s|
    ensures forall j :: 0 <= j < n ==> s[j] == ' '
    ensures n < |s| ==> s[n] != ' '
  {
    if s != [] && s[0] == ' ' then 1 + LeadingSpaces(s[1..]) else 0
  }

  /** What ltrim returns: the C string without its leading spaces. */
  function Trimmed(s: string): string {
    s[LeadingSpaces(s)..]
  }

  /** ltrim: advance a pointer over the spaces at the front of a C string
      (the NUL that ends it is not a space, so the loop stops there). */
  method LTrim(input: string) returns (trimmed: string)
    requires NUL !in input
    ensures trimmed == Trimmed(input)
  {
    var i := 0;
    while i < |input| && input[i] == ' '
      invariant 0 <= i <= |input|
      invariant forall j :: 0 <= j < i ==> input[j] == ' '
    {
      i := i + 1;
    }
    trimmed := input[i..];
  }

  /** The line pushed for `line`: ltrim(line.c_str()). */
  function Emit(line: string): string {
    Trimmed(CStr(line))
  }

  /** An emitted line holds no NUL, does not start with a space, is no
      longer than the line it came from, and has no '\n' if that had none. */
  lemma EmitFacts(line: string)
    ensures var r := Emit(line);
      && NUL !in r
      && (r == [] || r[0] != ' ')
      && |r| <= |line|
      && ('\n' !in line ==> '\n' !in r)
  {
    var c := CStr(line);
    var r := Emit(line);
    var n := LeadingSpaces(c);
    assert forall j :: 0 <= j < |r| ==> r[j] == c[n + j] == line[n + j];
  }

  /** The index a full line is broken at: its last space when that lies at
      an index > 0, and otherwise its last character, which moves on to the
      next line. */
  function BreakPoint(line: string): (f: nat)
    requires |line| >= 2
    ensures 1 <= f < |line|
  {
    var r := RFind(line, ' ');
    if r <= 0 then |line| - 1 else r
  }

  /** With a space at an index > 0, the break is at the last space. */
  lemma BreakAtSpace(line: string, j: nat)
    requires |line| >= 2
    requires 0 < j < |line| && line[j] == ' '
    ensures line[BreakPoint(line)] == ' '
    ensures forall m :: BreakPoint(line) < m < |line| ==> line[m] != ' '
  {
  }

  /** Without one, the break is at the last character. */
  lemma BreakWithoutSpace(line: string)
    requires |line| >= 2
    requires forall m :: 0 < m < |line| ==> line[m] != ' '
    ensures BreakPoint(line) == |line| - 1
  {
  }

  /** What every emitted line satisfies. */
  predicate Fits(line: string, width: nat) {
    |line| <= width && '\n' !in line && NUL !in line && (line == [] || line[0] != ' ')
  }

  predicate AllFit(lines: seq<string>, width: nat) {
    forall k :: 0 <= k < |lines| ==> Fits(lines[k], width)
  }

  /** The lines the loop pushes from the state in which `text` is what is
      left of the input and currentLine holds text[..i]. */
  function WrapFrom(text: string, i: nat, width: nat): seq<string>
    requires width >= 2 && i <= |text| && i <= width
    decreases |text|, |text| - i
  {
    if i == |text| then
      if i == 0 then [] else [Emit(text)]
    else if i < width && text[i] != '\n' then
      WrapFrom(text, i + 1, width)
    else if text[i] == '\n' then
      [Emit(text[..i])] + WrapFrom(text[i + 1..], 0, width)
    else
      var f := BreakPoint(text[..i]);
      [Emit(text[..f])] + WrapFrom(text[f..], 0, width)
  }

  /** The lines GetWrappedLines returns for `text`, first line first. */
  function Wrap(text: string, width: nat): seq<string>
    requires width >= 2
  {
    WrapFrom(text, 0, width)
  }

  /** The loop: characters are appended to currentLine until a '\n' or a full
      line ends it; `text` is then cut down to what follows the break and the
      scan restarts at its front. */
  method GetWrappedLines(input: string, width: nat) returns (lines: seq<string>)
    requires width >= 2
    ensures lines == Wrap(input, width)
  {
    var text := input;
    var currentLine: string := [];
    var i: nat := 0;
    lines := [];
    while i < |text|
      invariant i <= |text| && i <= width
      invariant currentLine == text[..i]
      invariant lines + WrapFrom(text, i, width) == Wrap(input, width)
      decreases |text|, |text| - i
    {
      var c := text[i];
      if |currentLine| < width && c != '\n' {
        assert text[..i + 1] == text[..i] + [c];
        currentLine := currentLine + [c];
        i := i + 1;
      } else if c == '\n' {
        var trimmed := LTrim(CStr(currentLine));
        ghost var rest := WrapFrom(text[i + 1..], 0, width);
        assert lines + [trimmed] + rest == lines + ([trimmed] + rest);
        lines := lines + [trimmed];
        text := text[|currentLine| + 1..];
        currentLine := [];
        i := 0;
      } else {
        var finalSpaceIndex := RFind(currentLine, ' ');
        if finalSpaceIndex <= 0 {
          finalSpaceIndex := |currentLine| - 1;
        }
        assert finalSpaceIndex == BreakPoint(text[..i]);
        currentLine := currentLine[..finalSpaceIndex];
        assert currentLine == text[..finalSpaceIndex];
        var trimmed := LTrim(CStr(currentLine));
        ghost var rest := WrapFrom(text[finalSpaceIndex..], 0, width);
        assert lines + [trimmed] + rest == lines + ([trimmed] + rest);
        lines := lines + [trimmed];
        text := text[finalSpaceIndex..];
        currentLine := [];
        i := 0;
      }
    }
    assert currentLine == text;
    if currentLine != [] {
      var trimmed := LTrim(CStr(currentLine));
      lines := lines + [trimmed];
    } else {
      assert lines + [] == lines;
    }
  }

  /** Characters other than '\n' are taken into the current line until it is
      full. */
  lemma {:induction false} TakeRun(text: string, i: nat, j: nat, width: nat)
    requires width >= 2
    requires i <= j <= |text| && j <= width
    requires forall m :: i <= m < j ==> text[m] != '\n'
    ensures WrapFrom(text, i, width) == WrapFrom(text, j, width)
    decreases j - i
  {
    if i < j {
      TakeRun(text, i + 1, j, width);
    }
  }

  /** A text that fits and holds no '\n' comes back as one line. */
  lemma ShortText(text: string, width: nat)
    requires width >= 2
    requires 0 < |text| <= width && '\n' !in text
    ensures Wrap(text, width) == [Emit(text)]
  {
    TakeRun(text, 0, |text|, width);
  }

  /** Each '\n' within the first width + 1 characters ends a line and is
      dropped; the text after it is wrapped afresh. */
  lemma NewlineEndsLine(seg: string, rest: string, width: nat)
    requires width >= 2
    requires |seg| <= width && '\n' !in seg
    ensures Wrap(seg + "\n" + rest, width) == [Emit(seg)] + Wrap(rest, width)
  {
    var text := seg + "\n" + rest;
    assert forall m :: 0 <= m < |seg| ==> text[m] == seg[m];
    TakeRun(text, 0, |seg|, width);
    assert text[|seg|] == '\n';
    assert text[..|seg|] == seg;
    assert text[|seg| + 1..] == rest;
  }

  /** A line that fills up ends at its break point; the text from the break
      point on is wrapped afresh. */
  lemma FullLine(text: string, width: nat)
    requires width >= 2
    requires width < |text| && '\n' !in text[..width + 1]
    ensures var f := BreakPoint(text[..width]);
      Wrap(text, width) == [Emit(text[..f])] + Wrap(text[f..], width)
  {
    assert forall m :: 0 <= m <= width ==> text[..width + 1][m] == text[m];
    TakeRun(text, 0, width, width);
  }

  /** A full line with a space at an index > 0 is broken at the last one;
      the space starts the rest. */
  lemma BreakAtLastSpace(text: string, width: nat, j: nat)
    requires width >= 2
    requires width < |text| && '\n' !in text[..width + 1]
    requires 0 < j < width && text[j] == ' '
    requires forall m :: j < m < width ==> text[m] != ' '
    ensures Wrap(text, width) == [Emit(text[..j])] + Wrap(text[j..], width)
  {
    var line := text[..width];
    assert line[j] == ' ';
    BreakAtSpace(line, j);
    assert BreakPoint(line) == j by {
      assert forall m :: j < m < width ==> line[m] == text[m];
    }
    FullLine(text, width);
  }

  /** A full line with no space at an index > 0 is broken one character
      short: its last character starts the rest. */
  lemma HardBreak(text: string, width: nat)
    requires width >= 2
    requires width < |text| && '\n' !in text[..width + 1]
    requires forall m :: 0 < m < width ==> text[m] != ' '
    ensures Wrap(text, width) == [Emit(text[..width - 1])] + Wrap(text[width - 1..], width)
  {
    var line := text[..width];
    assert forall m :: 0 < m < width ==> line[m] == text[m];
    BreakWithoutSpace(line);
    FullLine(text, width);
  }

  /** A line ended by a forced break is at most width - 1 long. */
  lemma ForcedBreakShort(text: string, width: nat)
    requires width >= 2
    requires width < |text| && '\n' !in text[..width + 1]
    ensures |Wrap(text, width)| > 0 && |Wrap(text, width)[0]| <= width - 1
  {
    FullLine(text, width);
    EmitFacts(text[..BreakPoint(text[..width])]);
  }

  /** From any state of the loop, every line pushed fits in the width,
      holds no '\n' and no NUL, and does not start with a space. */
  lemma {:induction false} WrapFromFits(text: string, i: nat, width: nat)
    requires width >= 2 && i <= |text| && i <= width
    requires forall m :: 0 <= m < i ==> text[m] != '\n'
    ensures AllFit(WrapFrom(text, i, width), width)
    decreases |text|, |text| - i
  {
    if i == |text| {
      if i > 0 {
        EmitFacts(text);
      }
    } else if i < width && text[i] != '\n' {
      WrapFromFits(text, i + 1, width);
    } else if text[i] == '\n' {
      WrapFromFits(text[i + 1..], 0, width);
      EmitFacts(text[..i]);
    } else {
      var f := BreakPoint(text[..i]);
      WrapFromFits(text[f..], 0, width);
      EmitFacts(text[..f]);
    }
  }

  /** For width >= 2 every line of the wrapped text fits. */
  lemma WrapFits(text: string, width: nat)
    requires width >= 2
    ensures AllFit(Wrap(text, width), width)
  {
    WrapFromFits(text, 0, width);
  }

  /** The characters a reader sees: the text without spaces and newlines. */
  function Visible(s: string): (r: string)
    ensures |r| <= |s|
  {
    if s == [] then []
    else (if s[0] == ' ' || s[0] == '\n' then [] else [s[0]]) + Visible(s[1..])
  }

  function Concat(lines: seq<string>): string {
    if lines == [] then [] else lines[0] + Concat(lines[1..])
  }

  lemma ConcatCons(line: string, lines: seq<string>)
    ensures Concat([line] + lines) == line + Concat(lines)
  {
    assert ([line] + lines)[1..] == lines;
  }

  lemma {:induction false} VisibleAppend(a: string, b: string)
    ensures Visible(a + b) == Visible(a) + Visible(b)
  {
    if a != [] {
      assert (a + b)[0] == a[0];
      assert (a + b)[1..] == a[1..] + b;
      VisibleAppend(a[1..], b);
    } else {
      assert a + b == b;
    }
  }

  lemma {:induction false} VisibleTrimmed(s: string)
    ensures Visible(Trimmed(s)) == Visible(s)
  {
    if s != [] && s[0] == ' ' {
      assert Trimmed(s) == Trimmed(s[1..]);
      VisibleTrimmed(s[1..]);
    }
  }

  /** Pushing the line seg and then the lines of what follows the break
      keeps the visible characters of seg + gap + rest, when gap shows none. */
  lemma PushKeepsVisible(seg: string, gap: string, rest: string, more: seq<string>)
    requires NUL !in seg
    requires Visible(gap) == []
    requires Visible(Concat(more)) == Visible(rest)
    ensures Visible(Concat([Emit(seg)] + more)) == Visible(seg + gap + rest)
  {
    CStrNoNul(seg);
    VisibleTrimmed(seg);
    ConcatCons(Emit(seg), more);
    VisibleAppend(Emit(seg), Concat(more));
    VisibleAppend(seg + gap, rest);
    VisibleAppend(seg, gap);
  }

  /** From any state of the loop, the lines still to be pushed hold the
      visible characters of the text left, in order. */
  lemma {:induction false} WrapFromKeepsVisible(text: string, i: nat, width: nat)
    requires width >= 2 && i <= |text| && i <= width
    requires NUL !in text
    ensures Visible(Concat(WrapFrom(text, i, width))) == Visible(text)
    decreases |text|, |text| - i
  {
    if i == |text| {
      if i > 0 {
        PushKeepsVisible(text, [], [], []);
        assert text + [] + [] == text;
      }
    } else if i < width && text[i] != '\n' {
      WrapFromKeepsVisible(text, i + 1, width);
    } else if text[i] == '\n' {
      var seg, rest := text[..i], text[i + 1..];
      assert NUL !in seg && NUL !in rest;
      assert WrapFrom(text, i, width) == [Emit(seg)] + WrapFrom(rest, 0, width);
      assert text == seg + "\n" + rest;
      WrapFromKeepsVisible(rest, 0, width);
      PushKeepsVisible(seg, "\n", rest, WrapFrom(rest, 0, width));
    } else {
      var f := BreakPoint(text[..i]);
      var seg, rest := text[..f], text[f..];
      assert NUL !in seg && NUL !in rest;
      assert WrapFrom(text, i, width) == [Emit(seg)] + WrapFrom(rest, 0, width);
      assert text == seg + [] + rest;
      WrapFromKeepsVisible(rest, 0, width);
      PushKeepsVisible(seg, [], rest, WrapFrom(rest, 0, width));
    }
  }

  /** Wrapping loses, adds and reorders no visible character: without the
      spaces and newlines, the lines read back as the text. */
  lemma WrapKeepsVisible(text: string, width: nat)
    requires width >= 2
    requires NUL !in text
    ensures Visible(Concat(Wrap(text, width))) == Visible(text)
  {
    WrapFromKeepsVisible(text, 0, width);
  }

  /** Three newline-separated words at width 10 are three lines. */
  lemma ThreeLines()
    ensures Wrap("a\nb\nc", 10) == ["a", "b", "c"]
  {
    NewlineEndsLine("a", "b\nc", 10);
    assert "a" + "\n" + "b\nc" == "a\nb\nc";
    NewlineEndsLine("b", "c", 10);
    assert "b" + "\n" + "c" == "b\nc";
    ShortText("c", 10);
    assert Emit("a") == "a" && Emit("b") == "b" && Emit("c") == "c";
  }

  /** At width 7 each break of "hello world foo" falls on a space. */
  lemma BreaksFallOnSpaces()
    ensures Wrap("hello world foo", 7) == ["hello", "world", "foo"]
  {
    var t0 := "hello world foo";
    assert '\n' !in t0[..8];
    BreakAtLastSpace(t0, 7, 5);
    assert t0[..5] == "hello" && t0[5..] == " world foo";
    SecondBreak();
    EmitWords();
  }

  lemma SecondBreak()
    ensures Wrap(" world foo", 7) == [Emit(" world"), Emit(" foo")]
  {
    var t1 := " world foo";
    assert '\n' !in t1[..8];
    BreakAtLastSpace(t1, 7, 6);
    assert t1[..6] == " world" && t1[6..] == " foo";
    ShortText(" foo", 7);
  }

  lemma EmitWords()
    ensures Emit("hello") == "hello" && Emit(" world") == "world" && Emit(" foo") == "foo"
  {
    CStrNoNul("hello");
    CStrNoNul(" world");
    CStrNoNul(" foo");
    assert LeadingSpaces(" world") == 1 + LeadingSpaces("world");
    assert LeadingSpaces(" foo") == 1 + LeadingSpaces("foo");
  }
}
