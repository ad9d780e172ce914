/** The marks the markdown reader knows, character by character, and the blocks plain documents have. */
module MarkdownReading {
  import opened Whitespace
  import opened TextLines
  import opened CanvasMerge
  import opened CanvasMarkdown
  import opened MarkdownRoundTrip

  // ----- marks -----

  lemma {:induction false} TrimStartIs(s: string) returns (k: nat)
    ensures k <= |s| && TrimStart(s, IsSpace) == s[k..] && Blank(s[..k]) && (k < |s| ==> !IsSpace(s[k]))
  {
    hide IsSpace;
    k := 0;
    if s != "" && IsSpace(s[0]) {
      var n := TrimStartIs(s[1..]);
      k := n + 1;
      assert s[..k] == [s[0]] + s[1..][..n] && s[k..] == s[1..][n..];
    }
  }

  lemma {:induction false} TrimEndIs(s: string, cut: char -> bool) returns (k: nat)
    ensures k <= |s| && TrimEnd(s, cut) == s[..k] && (forall i :: k <= i < |s| ==> cut(s[i])) && (k > 0 ==> !cut(s[k - 1]))
  {
    k := |s|;
    if s != "" && cut(s[|s| - 1]) {
      k := TrimEndIs(s[..|s| - 1], cut);
      assert s[..k] == s[..|s| - 1][..k];
    }
  }

  /** Trimming takes away just the space at the two ends. */
  lemma TrimSpaceIs(s: string) returns (i: nat, j: nat)
    ensures i <= j <= |s| && TrimSpace(s) == s[i..j] && Blank(s[..i]) && Blank(s[j..])
    ensures i < j ==> !IsSpace(s[i]) && !IsSpace(s[j - 1])
  {
    hide IsSpace;
    i := TrimStartIs(s);
    var k := TrimEndIs(s[i..], IsSpace);
    j := i + k;
    assert s[i..][..k] == s[i..j];
    assert forall n :: j <= n < |s| ==> s[n] == s[i..][n - i];
    hide TrimStart;
    hide TrimEnd;
  }

  ghost predicate FenceAt(line: string, k: nat) {
    k + 3 <= |line| && Blank(line[..k]) && line[k] == '`' && line[k + 1] == '`' && line[k + 2] == '`'
  }

  /** A fence is three backticks, after any space. */
  lemma FenceIs(line: string)
    ensures IsFence(line) <==> exists k: nat :: FenceAt(line, k)
  {
    var i, j := TrimSpaceIs(line);
    assert IsFence(line) ==> |TrimSpace(line)| >= 3 && TrimSpace(line)[..3] == "```";
    hide TrimSpace;
    if IsFence(line) { ThreeBackticks(line, i, j); }
    if k: nat :| FenceAt(line, k) {
      NoSpace();
      hide IsSpace;
      BlankEnds(line, k, |line|);
      BlankEnds(line, i, j);
      assert i == k && k + 3 <= j;
      assert line[i..j][..3] == "```";
    }
  }

  lemma BlankEnds(s: string, n: nat, m: nat)
    requires n <= |s| && m <= |s| && Blank(s[..n]) && Blank(s[m..])
    ensures forall x :: 0 <= x < n || m <= x < |s| ==> IsSpace(s[x])
  {
    forall x | 0 <= x < n || m <= x < |s| ensures IsSpace(s[x]) {
      assert x < n ==> s[..n][x] == s[x];
      assert m <= x ==> s[m..][x - m] == s[x];
    }
  }

  lemma ThreeBackticks(line: string, i: nat, j: nat)
    requires i <= j <= |line| && j - i >= 3 && line[i..j][..3] == "```" && Blank(line[..i])
    ensures FenceAt(line, i)
  {
    var t := line[i..j][..3];
    assert line[i] == t[0] && line[i + 1] == t[1] && line[i + 2] == t[2];
  }

  lemma NoSpace()
    ensures !IsSpace('`')
  {
  }

  ghost predicate NumberedAt(line: string, n: nat) {
    n > 0 && n + 1 < |line| && (forall i :: 0 <= i < n ==> '0' <= line[i] <= '9') && line[n] in ".)" && line[n + 1] == ' '
  }

  /** A bullet and a space, or one digit or more, a full stop or closing bracket, and a space. */
  lemma ListLineIs(line: string)
    ensures IsListLine(line) <==> (|line| >= 2 && line[0] in "-*+" && line[1] == ' ') || exists n: nat :: NumberedAt(line, n)
  {
    if |line| >= 2 && line[0] in "-*+" && line[1] == ' ' { assert line[..2] == [line[0], ' ']; }
    DigitsCounted(line);
    var digits := CountDigits(line);
    assert digits > 0 && digits + 1 < |line| && line[digits] in ".)" && line[digits + 1] == ' ' ==> NumberedAt(line, digits);
    if n: nat :| NumberedAt(line, n) { DigitsAt(line, n); }
  }

  lemma {:induction false} DigitsCounted(line: string)
    ensures var n := CountDigits(line); forall i :: 0 <= i < n ==> Digit(line[i])
  {
    if line != "" && Digit(line[0]) { DigitsCounted(line[1..]); }
  }

  /** One to three hashes and a space make a heading of that level, hashes after a space at its end left out; nothing else does. */
  lemma HeadingIs(n: nat, rest: string)
    requires rest == "" || rest[0] != '#'
    ensures var line := Repeat('#', n) + rest;
            HeadingOf(line) ==
              var text := TrimSpace(TrimEnd(TrimSpace(rest), IsHash));
              if 1 <= n <= 3 && rest != "" && rest[0] == ' ' && text != "" then Heading(n, text) else NotHeading
  {
    hide TrimSpace;
    hide TrimEnd;
    var line := Repeat('#', n) + rest;
    RepeatHashes(n, rest);
    assert line[n..] == rest;
    hide CountHashes;
  }

  /** Text that neither begins nor ends with space nor ends with a hash is a heading's text, with or without closing hashes. */
  lemma HeadingText(text: string, closing: nat)
    requires text != "" && !IsSpace(text[0]) && !IsSpace(text[|text| - 1]) && text[|text| - 1] != '#'
    ensures TrimSpace(TrimEnd(TrimSpace(" " + text), IsHash)) == text
    ensures TrimSpace(TrimEnd(TrimSpace(" " + text + " " + Repeat('#', closing)), IsHash)) == text
  {
    TrimTight(text, IsSpace);
    SpaceThen(text);
    if closing == 0 {
      assert " " + text + " " + "" == " " + text + " ";
      SpacesAround(text);
    } else {
      ClosingHashes(text, closing);
    }
    hide TrimSpace;
    hide Repeat;
  }

  lemma SpacesAround(text: string)
    requires text != "" && !IsSpace(text[0]) && !IsSpace(text[|text| - 1])
    ensures TrimSpace(" " + text + " ") == text && TrimSpace(text + " ") == text
  {
    var s, t := " " + text + " ", text + " ";
    assert s[1..] == t && t[0] == text[0] && t[..|text|] == text;
    assert TrimStart(s, IsSpace) == TrimStart(t, IsSpace) == t;
    assert TrimEnd(t, IsSpace) == TrimEnd(text, IsSpace) == text;
  }

  lemma ClosingHashes(text: string, closing: nat)
    requires text != "" && !IsSpace(text[0]) && !IsSpace(text[|text| - 1]) && text[|text| - 1] != '#' && closing > 0
    ensures TrimSpace(TrimEnd(TrimSpace(" " + text + " " + Repeat('#', closing)), IsHash)) == text
  {
    var whole := text + " " + Repeat('#', closing);
    assert " " + text + " " + Repeat('#', closing) == " " + whole;
    HashIsNoSpace();
    assert whole[0] == text[0] && whole[|whole| - 1] == '#';
    TrimTight(whole, IsSpace);
    SpaceThen(whole);
    HashesOff(text + " ", closing);
    SpacesAround(text);
    hide TrimSpace;
    hide TrimEnd;
    hide Repeat;
    hide IsSpace;
  }

  lemma HashIsNoSpace()
    ensures !IsSpace('#')
  {
  }

  lemma HashesOff(text: string, n: nat)
    requires text != "" && text[|text| - 1] != '#'
    ensures TrimEnd(text + Repeat('#', n), IsHash) == text
  {
    RepeatOff(text, '#', n, IsHash);
  }

  lemma {:induction false} RepeatOff(text: string, c: char, n: nat, cut: char -> bool)
    requires text != "" && !cut(text[|text| - 1]) && cut(c)
    ensures TrimEnd(text + Repeat(c, n), cut) == text
  {
    var s := text + Repeat(c, n);
    if n == 0 {
      assert s == text;
    } else {
      assert s[..|s| - 1] == text + Repeat(c, n)[..n - 1];
      assert Repeat(c, n)[..n - 1] == Repeat(c, n - 1);
      RepeatOff(text, c, n - 1, cut);
    }
  }

  // ----- documents -----

  /** A line of text that is neither blank nor a fence nor a heading, with no space about it. */
  ghost predicate TextLine(line: string) {
    && Plain(line) && line != "" && !IsSpace(line[0]) && !IsSpace(line[|line| - 1])
    && !("```" <= line) && HeadingOf(line).NotHeading?
  }

  lemma TightIs(line: string)
    requires line != "" && !IsSpace(line[0]) && !IsSpace(line[|line| - 1])
    ensures TrimSpace(line) == line
  {
    TrimTight(line, IsSpace);
  }

  lemma TextLineIs(line: string)
    requires TextLine(line)
    ensures TrimSpace(line) == line && !IsFence(line) && (IsListItem(line) <==> IsListLine(line))
    ensures ProseLines([line])
  {
    TightIs(line);
    hide TrimSpace;
    hide HeadingOf;
    hide IsListLine;
    hide LastNonEmpty;
    hide IsSpace;
    assert ProseLine([line], 0);
  }

  lemma OneLineBlock(line: string)
    requires TextLine(line)
    ensures var b := Section("", "markdown", line);
            IsProse(b) && Split(line) == [line] && Part(b) == line != ""
  {
    TextLineIs(line);
    SplitOne(line);
    var b := Section("", "markdown", line);
    hide TextLine;
    hide ProseLines;
    hide TrimSpace;
    hide Split;
    assert [line][0] == line;
    PartOf(b);
    hide Part;
  }

  lemma JoinTwo(a: string, b: string, separator: string)
    ensures Join([a, b], separator) == a + separator + b && Join([a], separator) == a
  {
    assert [a, b][1..] == [b];
  }

  lemma PrintedTwo(a: Section, b: Section)
    requires Part(a) != "" && Part(b) != ""
    ensures Printed([a, b]) == Part(a) + "\n\n" + Part(b) + "\n" && Printed([a]) == Part(a) + "\n"
  {
    hide Part;
    assert [a][..0] == [] && [a, b][..1] == [a];
    assert Parts([a]) == [Part(a)] by { assert Parts([]) == [] && [] + [Part(a)] == [Part(a)]; }
    assert Parts([a, b]) == [Part(a), Part(b)];
    JoinTwo(Part(a), Part(b), "\n\n");
  }

  /** Text alone on its line is a block of its own. */
  lemma OneParagraph(x: string)
    requires TextLine(x)
    ensures Blocks(x + "\n") == [Section("", "markdown", x)]
  {
    hide Blocks;
    hide Part;
    hide IsProse;
    hide TextLine;
    var a := Section("", "markdown", x);
    OneLineBlock(x);
    PrintedTwo(a, a);
    assert GoodRun([a]);
    ReadsBack([a]);
    hide Printed;
  }

  /** A blank line ends a block, but for one between two list items. */
  lemma TwoParagraphs(x: string, y: string)
    requires TextLine(x) && TextLine(y)
    ensures Blocks(x + "\n\n" + y + "\n") ==
              if IsListLine(x) && IsListLine(y) then [Section("", "markdown", x + "\n\n" + y)]
              else [Section("", "markdown", x), Section("", "markdown", y)]
  {
    if IsListLine(x) && IsListLine(y) {
      TwoItems(x, y);
    } else {
      TwoBlocks(x, y);
    }
    hide Blocks;
  }

  lemma TwoBlocks(x: string, y: string)
    requires TextLine(x) && TextLine(y) && !(IsListLine(x) && IsListLine(y))
    ensures Blocks(x + "\n\n" + y + "\n") == [Section("", "markdown", x), Section("", "markdown", y)]
  {
    hide Blocks;
    hide Part;
    hide IsProse;
    hide TextLine;
    hide Printed;
    hide IsListItem;
    hide IsListLine;
    hide LastNonEmpty;
    hide TrimSpace;
    hide Split;
    hide IsHeading;
    hide IsClosed;
    hide Good;
    var a, b := Section("", "markdown", x), Section("", "markdown", y);
    OneLineBlock(x);
    OneLineBlock(y);
    TextLineIs(x);
    TextLineIs(y);
    PrintedTwo(a, b);
    LastOfOne(x);
    GoodTwo(a, b);
    ReadsBack([a, b]);
  }

  lemma GoodTwo(a: Section, b: Section)
    requires IsProse(a) && IsProse(b) && Ends(a, Split(b.text)[0])
    ensures GoodRun([a, b])
  {
    hide IsProse;
    hide Ends;
  }

  lemma LastOfOne(x: string)
    requires TrimSpace(x) != ""
    ensures LastNonEmpty([x]) == x && LastNonEmpty([x, ""]) == x
  {
    assert TrimSpace("") == "";
    assert [x, ""][..1] == [x];
  }

  /** Lines that are one block of prose. */
  lemma OneBlock(ls: seq<string>)
    requires Prose(ls) && forall line :: line in ls ==> Plain(line)
    ensures Blocks(Join(ls, "\n") + "\n") == [Section("", "markdown", Join(ls, "\n"))]
  {
    hide Blocks;
    hide Part;
    hide Printed;
    hide Prose;
    hide Join;
    hide Split;
    var a := Section("", "markdown", Join(ls, "\n"));
    assert ls != [] by { ProseIsSome(ls); }
    SplitJoin(ls);
    assert IsProse(a);
    PartOf(a);
    PrintedTwo(a, a);
    assert GoodRun([a]);
    ReadsBack([a]);
  }

  lemma ProseIsSome(ls: seq<string>)
    requires Prose(ls)
    ensures ls != []
  {
  }

  lemma TwoItems(x: string, y: string)
    requires TextLine(x) && TextLine(y) && IsListLine(x) && IsListLine(y)
    ensures Blocks(x + "\n\n" + y + "\n") == [Section("", "markdown", x + "\n\n" + y)]
  {
    hide Blocks;
    hide Join;
    hide Prose;
    hide TextLine;
    hide IsListLine;
    hide Plain;
    ItemsAreProse(x, y);
    JoinAroundBlank(x, y);
    OneBlock([x, "", y]);
  }

  lemma JoinAroundBlank(x: string, y: string)
    ensures Join([x, "", y], "\n") == x + "\n\n" + y
  {
    assert [x, "", y][1..] == ["", y];
    JoinTwo("", y, "\n");
    hide Join;
    assert x + "\n" + ("" + "\n" + y) == x + "\n\n" + y;
  }

  lemma ItemsAreProse(x: string, y: string)
    requires TextLine(x) && TextLine(y) && IsListLine(x) && IsListLine(y)
    ensures Prose([x, "", y]) && forall line :: line in [x, "", y] ==> Plain(line)
  {
    TextLineIs(x);
    TextLineIs(y);
    LastOfOne(x);
    hide TrimSpace;
    hide HeadingOf;
    hide IsListLine;
    hide LastNonEmpty;
    hide IsSpace;
    hide IsFence;
    EmptyIsBlank();
    var ls := [x, "", y];
    assert ls[..2] == [x, ""];
    assert ProseLine(ls, 0) && ProseLine(ls, 1) && ProseLine(ls, 2);
  }

  lemma EmptyIsBlank()
    ensures TrimSpace("") == "" && HeadingOf("").NotHeading? && !IsFence("") && Plain("")
  {
  }

  /** Lines that follow one another are one block. */
  lemma TwoLines(x: string, y: string)
    requires TextLine(x) && TextLine(y)
    ensures Blocks(x + "\n" + y + "\n") == [Section("", "markdown", x + "\n" + y)]
  {
    hide Blocks;
    TextLineIs(x);
    TextLineIs(y);
    hide TrimSpace;
    hide HeadingOf;
    hide IsListLine;
    hide LastNonEmpty;
    hide IsSpace;
    hide IsFence;
    var ls := [x, y];
    assert ProseLine(ls, 0) && ProseLine(ls, 1);
    JoinTwo(x, y, "\n");
    OneBlock(ls);
  }

  /** A heading's line alone is a block of its kind. */
  lemma OneHeading(n: nat, text: string)
    requires 1 <= n <= 3 && Plain(text) && text != "" && !IsSpace(text[0]) && !IsSpace(text[|text| - 1]) && text[|text| - 1] != '#'
    ensures Blocks(Repeat('#', n) + " " + text + "\n") == [Section("", ["h1", "h2", "h3"][n - 1], text)]
  {
    hide Blocks;
    TrimTight(text, IsSpace);
    var b := Section("", ["h1", "h2", "h3"][n - 1], text);
    assert IsHeading(b);
    assert HeadingLine(b) == Repeat('#', n) + " " + text;
    hide TrimSpace;
    hide IsSpace;
    hide Repeat;
    hide HeadingLine;
    hide IsHeading;
    HashesTrimmed(text);
    LineAlone(b, text);
  }

  /** What stands between two fences is one block with them, blank lines, headings and all. */
  lemma OneFence(info: string, ls: seq<string>)
    requires Plain(info) && forall line :: line in ls ==> Plain(line) && !IsFence(line)
    ensures var lines := ["```" + info] + ls + ["```"];
            Blocks(Join(lines, "\n") + "\n") == [Section("", "markdown", Join(lines, "\n"))]
  {
    hide Blocks;
    hide Part;
    hide Printed;
    hide Join;
    hide Split;
    hide IsHeading;
    var lines := ["```" + info] + ls + ["```"];
    FencedIsClosed(info, ls);
    hide Closed;
    hide IsFence;
    SplitJoin(lines);
    var a := Section("", "markdown", Join(lines, "\n"));
    assert IsClosed(a);
    PartOf(a);
    MarkdownIsNoHeading(a);
    PrintedTwo(a, a);
    assert GoodRun([a]) by { ClosedApart(a); }
    ReadsBack([a]);
  }

  lemma MarkdownIsNoHeading(a: Section)
    requires a.kind == "markdown"
    ensures !IsHeading(a)
  {
  }

  lemma ClosedApart(a: Section)
    requires IsClosed(a)
    ensures GoodRun([a])
  {
    hide IsClosed;
    hide IsProse;
  }

  lemma FencedIsClosed(info: string, ls: seq<string>)
    requires Plain(info) && forall line :: line in ls ==> Plain(line) && !IsFence(line)
    ensures var lines := ["```" + info] + ls + ["```"]; Closed(lines) && forall line :: line in lines ==> Plain(line)
  {
    var lines := ["```" + info] + ls + ["```"];
    FenceLine(info);
    FenceLine("");
    assert "```" + "" == "```";
    hide IsFence;
    hide Plain;
    assert lines[..|lines| - 1] == ["```" + info] + ls;
  }

  lemma FenceLine(info: string)
    ensures IsFence("```" + info)
    ensures Plain(info) ==> Plain("```" + info)
  {
    var line := "```" + info;
    assert line[..0] == "" && line[0] == '`' && line[1] == '`' && line[2] == '`';
    assert FenceAt(line, 0);
    FenceIs(line);
    hide IsFence;
  }

  // ----- line endings -----

  lemma {:induction false} ReturnsJoin(lines: seq<string>, separator: string)
    requires lines != [] && separator in {"\r\n", "\r"} && forall line :: line in lines ==> Plain(line)
    ensures Normalize(Join(lines, separator)) == Join(lines, "\n")
  {
    var x := lines[0];
    assert x in lines;
    if |lines| == 1 {
      NormalizePlain(x);
    } else {
      ReturnsJoin(lines[1..], separator);
      if separator == "\r" { JoinedByReturns(lines[1..]); }
      PlainThen(x, separator, Join(lines[1..], separator));
    }
    hide Normalize;
  }

  lemma {:induction false} JoinedByReturns(lines: seq<string>)
    requires forall line :: line in lines ==> Plain(line)
    ensures '\n' !in Join(lines, "\r")
  {
    if lines != [] {
      assert lines[0] in lines;
      JoinedByReturns(lines[1..]);
    }
  }

  lemma SeparatorThen(separator: string, rest: string)
    requires separator in {"\r\n", "\r"} && (separator == "\r" ==> rest == "" || rest[0] != '\n')
    ensures Normalize(separator + rest) == "\n" + Normalize(rest)
  {
    var s := separator + rest;
    if separator == "\r\n" {
      assert s[0] == '\r' && s[1] == '\n' && s[2..] == rest;
    } else {
      assert s[0] == '\r' && s[1..] == rest;
    }
    assert ReplaceReturns(JoinReturns(s)) == "\n" + ReplaceReturns(JoinReturns(rest));
  }

  lemma NormalizeMore(c: char, rest: string)
    requires c != '\r'
    ensures Normalize([c] + rest) == [c] + Normalize(rest)
  {
    assert ([c] + rest)[1..] == rest;
    assert JoinReturns([c] + rest) == [c] + JoinReturns(rest);
  }

  lemma {:induction false} PlainThen(x: string, separator: string, rest: string)
    requires Plain(x) && separator in {"\r\n", "\r"} && (separator == "\r" ==> rest == "" || rest[0] != '\n')
    ensures Normalize(x + separator + rest) == x + "\n" + Normalize(rest)
  {
    hide Normalize;
    if x == "" {
      assert x + separator + rest == separator + rest;
      SeparatorThen(separator, rest);
    } else {
      var y := x[1..];
      assert x == [x[0]] + y && x[0] in x;
      assert x + separator + rest == [x[0]] + (y + separator + rest);
      NormalizeMore(x[0], y + separator + rest);
      PlainThen(y, separator, rest);
      assert x + "\n" + Normalize(rest) == [x[0]] + (y + "\n" + Normalize(rest));
    }
  }

  /** Lines read the same whichever way they are broken. */
  lemma LineEndingsReadAlike(lines: seq<string>)
    requires lines != [] && forall line :: line in lines ==> Plain(line)
    ensures Blocks(Join(lines, "\r\n")) == Blocks(Join(lines, "\n"))
    ensures Blocks(Join(lines, "\r")) == Blocks(Join(lines, "\n"))
  {
    ReturnsJoin(lines, "\r\n");
    ReturnsJoin(lines, "\r");
    JoinPlain(lines);
    NormalizePlain(Join(lines, "\n"));
    hide Normalize;
    hide Join;
    hide Split;
    hide Run;
    hide Flush;
  }

  // ----- writing -----

  lemma {:induction false} RepeatBefore(c: char, n: nat, rest: string, cut: char -> bool)
    requires rest != "" && !cut(rest[0]) && cut(c)
    ensures TrimStart(Repeat(c, n) + rest, cut) == rest
  {
    if n == 0 {
      assert Repeat(c, n) + rest == rest;
    } else {
      assert (Repeat(c, n) + rest)[1..] == Repeat(c, n - 1) + rest;
      RepeatBefore(c, n - 1, rest, cut);
    }
  }

  /** Text with no line break at its ends is what trimming leaves of it among line breaks. */
  lemma BreaksOff(before: nat, text: string, after: nat)
    requires text != "" && text[0] != '\n' && text[|text| - 1] != '\n'
    ensures Trim(Repeat('\n', before) + text + Repeat('\n', after), IsNewline) == text
  {
    var rest := text + Repeat('\n', after);
    assert Repeat('\n', before) + text + Repeat('\n', after) == Repeat('\n', before) + rest;
    RepeatBefore('\n', before, rest, IsNewline);
    RepeatOff(text, '\n', after, IsNewline);
  }

  lemma {:induction false} ReturnsApart(a: string, b: string)
    requires a != "" ==> a[|a| - 1] != '\r'
    ensures JoinReturns(a + b) == JoinReturns(a) + JoinReturns(b)
  {
    if a == "" {
      assert a + b == b;
    } else {
      assert (a + b)[0] == a[0] && (a + b)[1..] == a[1..] + b;
      if |a| >= 2 && a[0] == '\r' && a[1] == '\n' {
        assert (a + b)[1] == a[1] && (a + b)[2..] == a[2..] + b;
        ReturnsApart(a[2..], b);
      } else {
        ReturnsApart(a[1..], b);
      }
    }
  }

  lemma {:induction false} LinesRejoined(lines: seq<string>)
    requires lines != [] && forall line :: line in lines ==> Plain(line)
    ensures JoinReturns(Join(lines, "\r\n")) == Join(lines, "\n")
  {
    var x := lines[0];
    assert x in lines;
    NoReturns(x);
    if |lines| > 1 {
      var rest := Join(lines[1..], "\r\n");
      LinesRejoined(lines[1..]);
      assert x + "\r\n" + rest == x + ("\r\n" + rest);
      ReturnsApart(x, "\r\n" + rest);
      assert ("\r\n" + rest)[2..] == rest;
    }
  }

  lemma {:induction false} RepeatPlain(c: char, n: nat)
    requires c != '\r'
    ensures '\r' !in Repeat(c, n)
  {
    if n > 0 { RepeatPlain(c, n - 1); }
  }

  /** What a section's kind is written as. */
  function Mark(kind: string): string {
    if kind == "h1" then "# " else if kind == "h2" then "## " else if kind == "h3" then "### " else ""
  }

  lemma MarkIs(kind: string)
    ensures Mark(kind) == if LevelOf(kind) > 0 then Repeat('#', LevelOf(kind)) + " " else ""
  {
    assert Repeat('#', 1) == "#" + Repeat('#', 0) && Repeat('#', 2) == "#" + Repeat('#', 1) && Repeat('#', 3) == "#" + Repeat('#', 2);
  }

  /** However its lines are broken, and whatever breaks are about them, a section is written as its mark and its lines. */
  lemma SectionIsWritten(id: string, kind: string, before: nat, lines: seq<string>, after: nat, separator: string)
    requires lines != [] && (forall line :: line in lines ==> Plain(line)) && separator in {"\n", "\r\n"}
    requires lines[0] != "" && lines[|lines| - 1] != "" && !Blank(Join(lines, "\n"))
    ensures Part(Section(id, kind, Repeat('\n', before) + Join(lines, separator) + Repeat('\n', after))) == Mark(kind) + Join(lines, "\n")
  {
    var b, x, a := Repeat('\n', before), Join(lines, separator), Repeat('\n', after);
    hide Blank;
    RejoinedAmid(before, lines, after, separator);
    EndsPlain(lines);
    BreaksOff(before, Join(lines, "\n"), after);
    TrimSpaceBlank(Join(lines, "\n"));
    MarkIs(kind);
    hide TrimSpace;
    hide Trim;
    hide Join;
    hide JoinReturns;
    hide Repeat;
    hide LevelOf;
    hide Mark;
  }

  lemma EndsPlain(lines: seq<string>)
    requires lines != [] && (forall line :: line in lines ==> Plain(line)) && lines[0] != "" && lines[|lines| - 1] != ""
    ensures var t := Join(lines, "\n"); t != "" && t[0] != '\n' && t[|t| - 1] != '\n'
  {
    JoinEnds(lines);
    var last := lines[|lines| - 1];
    assert lines[0] in lines && last in lines;
    assert lines[0][0] in lines[0] && last[|last| - 1] in last;
    hide Join;
  }

  lemma {:induction false} JoinEndsPlainly(lines: seq<string>, separator: string)
    requires lines != [] && (forall line :: line in lines ==> Plain(line)) && lines[|lines| - 1] != ""
    ensures var t := Join(lines, separator); t != "" && t[|t| - 1] != '\r'
  {
    var last := lines[|lines| - 1];
    assert last in lines && last[|last| - 1] in last;
    if |lines| > 1 { JoinEndsPlainly(lines[1..], separator); }
  }

  lemma Rejoined(lines: seq<string>, separator: string)
    requires lines != [] && (forall line :: line in lines ==> Plain(line)) && separator in {"\n", "\r\n"}
    ensures JoinReturns(Join(lines, separator)) == Join(lines, "\n")
  {
    if separator == "\n" {
      JoinPlain(lines);
      NoReturns(Join(lines, separator));
    } else {
      LinesRejoined(lines);
    }
  }

  lemma RejoinedAmid(before: nat, lines: seq<string>, after: nat, separator: string)
    requires lines != [] && (forall line :: line in lines ==> Plain(line)) && separator in {"\n", "\r\n"} && lines[|lines| - 1] != ""
    ensures JoinReturns(Repeat('\n', before) + Join(lines, separator) + Repeat('\n', after))
         == Repeat('\n', before) + Join(lines, "\n") + Repeat('\n', after)
  {
    hide JoinReturns;
    hide Join;
    hide Plain;
    JoinEndsPlainly(lines, separator);
    Rejoined(lines, separator);
    BreaksAbout(before, Join(lines, separator), after);
  }

  lemma BreaksAbout(before: nat, text: string, after: nat)
    requires text != "" && text[|text| - 1] != '\r'
    ensures JoinReturns(Repeat('\n', before) + text + Repeat('\n', after))
         == Repeat('\n', before) + JoinReturns(text) + Repeat('\n', after)
  {
    hide JoinReturns;
    var b, a := Repeat('\n', before), Repeat('\n', after);
    RepeatPlain('\n', before);
    RepeatPlain('\n', after);
    NoReturns(b);
    NoReturns(a);
    assert b != "" ==> b[|b| - 1] in b;
    ReturnsApart(b, text);
    assert (b + text)[|b + text| - 1] == text[|text| - 1];
    ReturnsApart(b + text, a);
  }

  lemma BlankMore(c: char, rest: string)
    ensures Blank([c] + rest) <==> IsSpace(c) && Blank(rest)
  {
    var s := [c] + rest;
    if Blank(s) { assert IsSpace(s[0]) && forall i :: 0 <= i < |rest| ==> s[i + 1] == rest[i]; }
    hide IsSpace;
  }

  lemma {:induction false} RejoinedBlank(s: string)
    ensures Blank(JoinReturns(s)) <==> Blank(s)
  {
    if s != "" {
      assert s == [s[0]] + s[1..];
      BlankMore(s[0], s[1..]);
      if |s| >= 2 && s[0] == '\r' && s[1] == '\n' {
        assert s[1..] == [s[1]] + s[2..];
        RejoinedBlank(s[2..]);
        BlankMore(s[1], s[2..]);
        BlankMore('\n', JoinReturns(s[2..]));
        assert IsSpace('\r') && IsSpace('\n');
      } else {
        RejoinedBlank(s[1..]);
        BlankMore(s[0], JoinReturns(s[1..]));
      }
    }
    hide Blank;
    hide IsSpace;
  }

  /** Nothing is written exactly of a section that is all space. */
  lemma BlankIsNotWritten(section: Section)
    ensures Part(section) == "" <==> Blank(section.text)
  {
    var s := JoinReturns(section.text);
    RejoinedBlank(section.text);
    BreaksLeaveBlank(s);
    TrimSpaceBlank(Trim(s, IsNewline));
    hide TrimSpace;
    hide Trim;
    hide JoinReturns;
    hide Blank;
    hide IsSpace;
    assert Blank("") by { BlankNothing(); }
  }

  lemma BlankNothing()
    ensures Blank("")
  {}

  lemma BreaksLeaveBlank(s: string)
    ensures Blank(Trim(s, IsNewline)) <==> Blank(s)
  {
    var t := TrimStart(s, IsNewline);
    TrimStartCuts(s, IsNewline);
    StartCutsBreaks(s);
    var k := TrimEndIs(t, IsNewline);
    hide TrimStart;
    hide TrimEnd;
    NewlineIsSpace();
    hide IsSpace;
    assert t == t[..k] + t[k..];
    assert Blank(t) <==> Blank(t[..k]);
  }

  lemma NewlineIsSpace()
    ensures forall c :: IsNewline(c) ==> IsSpace(c)
  {}

  lemma {:induction false} StartCutsBreaks(s: string)
    ensures Blank(TrimStart(s, IsNewline)) <==> Blank(s)
  {
    if s != "" && IsNewline(s[0]) {
      StartCutsBreaks(s[1..]);
      assert s == [s[0]] + s[1..];
    }
  }
}
