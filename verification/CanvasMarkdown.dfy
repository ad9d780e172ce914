/** A canvas read from markdown and written back: headings, prose, lists and fenced code. */
module CanvasMarkdown {
  import opened Whitespace
  import opened TextLines
  import opened CanvasMerge

  datatype Heading = Heading(level: nat, text: string) | NotHeading

  /** The reader between lines: the blocks so far, the lines of the one being read, and whether they are in a fence. */
  datatype Scan = Scan(blocks: seq<Section>, paragraph: seq<string>, fenced: bool)

  const START := Scan([], [], false)

  function CountHashes(line: string): (n: nat)
    ensures n <= |line|
  {
    if line != "" && line[0] == '#' then 1 + CountHashes(line[1..]) else 0
  }

  /** One, two or three hashes, a space, and text left once hashes at its end are taken off. */
  function HeadingOf(line: string): Heading {
    var level := CountHashes(line);
    if level == 0 || level > 3 || level >= |line| || line[level] != ' ' then NotHeading
    else
      var text := TrimSpace(TrimEnd(TrimSpace(line[level..]), IsHash));
      if text == "" then NotHeading else Heading(level, text)
  }

  predicate Digit(c: char) { '0' <= c <= '9' }

  function CountDigits(line: string): (n: nat)
    ensures n <= |line|
  {
    if line != "" && Digit(line[0]) then 1 + CountDigits(line[1..]) else 0
  }

  /** A marker and a space, or digits, a full stop or bracket, and a space. */
  predicate IsListLine(line: string) {
    var digits := CountDigits(line);
    || "- " <= line || "* " <= line || "+ " <= line
    || (digits > 0 && digits + 1 < |line| && line[digits] in ".)" && line[digits + 1] == ' ')
  }

  function LastNonEmpty(lines: seq<string>): string {
    if lines == [] then ""
    else if TrimSpace(lines[|lines| - 1]) != "" then lines[|lines| - 1]
    else LastNonEmpty(lines[..|lines| - 1])
  }

  predicate IsFence(line: string) { "```" <= TrimSpace(line) }

  predicate IsListItem(line: string) { IsListLine(TrimSpace(line)) }

  function Kind(level: nat): string {
    if level == 1 then "h1" else if level == 2 then "h2" else "h3"
  }

  /** A heading kind's level, and zero for every other kind. */
  function LevelOf(kind: string): nat {
    if kind == "h1" then 1 else if kind == "h2" then 2 else if kind == "h3" then 3 else 0
  }

  function Body(paragraph: seq<string>): string {
    Trim(Join(paragraph, "\n"), IsNewline)
  }

  /** End the block being read. */
  function Flush(s: Scan): (r: Scan)
    ensures r.paragraph == [] && r.fenced == s.fenced
  {
    if TrimSpace(Body(s.paragraph)) == "" then Scan(s.blocks, [], s.fenced)
    else Scan(s.blocks + [Section("", "markdown", Body(s.paragraph))], [], s.fenced)
  }

  function FenceStep(s: Scan, line: string): Scan {
    if s.fenced then Flush(Scan(s.blocks, s.paragraph + [line], false))
    else Scan(Flush(s).blocks, [line], true)
  }

  /** The line goes on the paragraph; a blank line before it ends the paragraph unless it stands between list items. */
  function TextStep(s: Scan, line: string): Scan {
    if s.paragraph != [] && s.paragraph[|s.paragraph| - 1] == "" && !(IsListItem(line) && IsListItem(LastNonEmpty(s.paragraph)))
    then Scan(Flush(s).blocks, [line], s.fenced)
    else Scan(s.blocks, s.paragraph + [line], s.fenced)
  }

  /** Read one line. */
  function Step(s: Scan, line: string): Scan {
    var trimmed := TrimSpace(line);
    if IsFence(line) then FenceStep(s, line)
    else if s.fenced then Scan(s.blocks, s.paragraph + [line], true)
    else if HeadingOf(trimmed).Heading? then
      Scan(Flush(s).blocks + [Section("", Kind(HeadingOf(trimmed).level), HeadingOf(trimmed).text)], [], false)
    else if trimmed == "" then (if s.paragraph == [] then s else Scan(s.blocks, s.paragraph + [""], false))
    else TextStep(s, line)
  }

  function Run(s: Scan, lines: seq<string>): Scan
    decreases |lines|
  {
    if lines == [] then s else Run(Step(s, lines[0]), lines[1..])
  }

  /** The sections a markdown document is made of. */
  function Blocks(text: string): seq<Section> {
    Flush(Run(START, Split(Normalize(text)))).blocks
  }

  // ----- writing -----

  function Repeat(c: char, n: nat): (s: string)
    ensures |s| == n && forall i :: 0 <= i < n ==> s[i] == c
  {
    if n == 0 then "" else [c] + Repeat(c, n - 1)
  }

  /** A section's text as it is written, or nothing for a section without any. */
  function Part(section: Section): string {
    var text := Trim(JoinReturns(section.text), IsNewline);
    if TrimSpace(text) == "" then ""
    else if LevelOf(section.kind) > 0 then Repeat('#', LevelOf(section.kind)) + " " + text
    else text
  }

  function Parts(sections: seq<Section>): seq<string> {
    if sections == [] then []
    else Parts(sections[..|sections| - 1]) + if Part(sections[|sections| - 1]) == "" then [] else [Part(sections[|sections| - 1])]
  }

  function Printed(sections: seq<Section>): string {
    if Parts(sections) == [] then "" else Join(Parts(sections), "\n\n") + "\n"
  }

  // ----- the loops -----

  lemma {:induction false} HashesAt(line: string, n: nat)
    requires n <= |line| && (forall i :: 0 <= i < n ==> line[i] == '#') && (n < |line| ==> line[n] != '#')
    ensures CountHashes(line) == n
  {
    if n > 0 { HashesAt(line[1..], n - 1); }
  }

  lemma {:induction false} DigitsAt(line: string, n: nat)
    requires n <= |line| && (forall i :: 0 <= i < n ==> Digit(line[i])) && (n < |line| ==> !Digit(line[n]))
    ensures CountDigits(line) == n
  {
    if n > 0 { DigitsAt(line[1..], n - 1); }
  }

  method MarkdownHeading(line: string) returns (heading: Heading)
    ensures heading == HeadingOf(line)
  {
    var level := 0;
    while level < |line| && line[level] == '#'
      invariant 0 <= level <= |line| && forall i :: 0 <= i < level ==> line[i] == '#'
    {
      level := level + 1;
    }
    HashesAt(line, level);
    if level == 0 || level > 3 || level >= |line| || line[level] != ' ' { return NotHeading; }
    var text := TrimSpace(TrimEnd(TrimSpace(line[level..]), IsHash));
    if text == "" { return NotHeading; }
    return Heading(level, text);
  }

  method MarkdownListLine(line: string) returns (item: bool)
    ensures item == IsListLine(line)
  {
    if "- " <= line || "* " <= line || "+ " <= line { return true; }
    var digits := 0;
    while digits < |line| && Digit(line[digits])
      invariant 0 <= digits <= |line| && forall i :: 0 <= i < digits ==> Digit(line[i])
    {
      digits := digits + 1;
    }
    DigitsAt(line, digits);
    return digits > 0 && digits + 1 < |line| && line[digits] in ".)" && line[digits + 1] == ' ';
  }

  method FindLastNonEmpty(lines: seq<string>) returns (line: string)
    ensures line == LastNonEmpty(lines)
  {
    hide TrimSpace;
    var index := |lines|;
    assert lines[..index] == lines;
    while index > 0
      invariant 0 <= index <= |lines| && LastNonEmpty(lines) == LastNonEmpty(lines[..index])
    {
      index := index - 1;
      assert lines[..index + 1][..index] == lines[..index];
      if TrimSpace(lines[index]) != "" { return lines[index]; }
    }
    return "";
  }

  lemma {:induction false} RunMore(s: Scan, lines: seq<string>, line: string)
    ensures Run(s, lines + [line]) == Step(Run(s, lines), line)
    decreases |lines|
  {
    if lines == [] {
      assert [] + [line] == [line] && [line][1..] == [];
    } else {
      assert (lines + [line])[1..] == lines[1..] + [line];
      RunMore(Step(s, lines[0]), lines[1..], line);
    }
  }

  /** Read a document line by line, in one pass. */
  method MarkdownBlocks(text: string) returns (blocks: seq<Section>)
    ensures blocks == Blocks(text)
  {
    hide TrimSpace;
    hide HeadingOf;
    hide IsListLine;
    hide LastNonEmpty;
    hide Normalize;
    hide Split;
    hide Flush;
    var lines := Split(Normalize(text));
    var paragraph: seq<string>, inFence := [], false;
    blocks := [];
    for n := 0 to |lines|
      invariant Run(START, lines[..n]) == Scan(blocks, paragraph, inFence)
    {
      var line := lines[n];
      var trimmed := TrimSpace(line);
      assert lines[..n + 1] == lines[..n] + [line];
      RunMore(START, lines[..n], line);
      if "```" <= trimmed {
        if !inFence { blocks, paragraph := FlushParagraph(blocks, paragraph, inFence); }
        inFence := !inFence;
        paragraph := paragraph + [line];
        if !inFence { blocks, paragraph := FlushParagraph(blocks, paragraph, inFence); }
        continue;
      }
      if inFence {
        paragraph := paragraph + [line];
        continue;
      }
      var heading := MarkdownHeading(trimmed);
      if heading.Heading? {
        blocks, paragraph := FlushParagraph(blocks, paragraph, inFence);
        blocks := blocks + [Section("", Kind(heading.level), heading.text)];
        continue;
      }
      if trimmed == "" {
        if |paragraph| > 0 { paragraph := paragraph + [""]; }
        continue;
      }
      if |paragraph| > 0 && paragraph[|paragraph| - 1] == "" {
        var item := MarkdownListLine(trimmed);
        var last := FindLastNonEmpty(paragraph);
        var lastItem := MarkdownListLine(TrimSpace(last));
        if !(item && lastItem) { blocks, paragraph := FlushParagraph(blocks, paragraph, inFence); }
      }
      paragraph := paragraph + [line];
    }
    assert lines[..|lines|] == lines;
    blocks, paragraph := FlushParagraph(blocks, paragraph, inFence);
  }

  method FlushParagraph(blocks: seq<Section>, paragraph: seq<string>, ghost fenced: bool) returns (more: seq<Section>, rest: seq<string>)
    ensures Scan(more, rest, fenced) == Flush(Scan(blocks, paragraph, fenced))
  {
    var body := Trim(Join(paragraph, "\n"), IsNewline);
    more, rest := blocks, [];
    if TrimSpace(body) != "" { more := more + [Section("", "markdown", body)]; }
  }

  /** Write sections out as markdown. */
  method SectionsMarkdown(sections: seq<Section>) returns (text: string)
    ensures text == Printed(sections)
  {
    hide TrimSpace;
    hide Trim;
    hide JoinReturns;
    hide Join;
    hide LevelOf;
    var parts: seq<string> := [];
    for n := 0 to |sections|
      invariant parts == Parts(sections[..n])
    {
      var section := sections[n];
      assert sections[..n + 1][..n] == sections[..n];
      var body := Trim(JoinReturns(section.text), IsNewline);
      if TrimSpace(body) == "" { continue; }
      var level := LevelOf(section.kind);
      NotEmpty(body);
      if level > 0 { body := Repeat('#', level) + " " + body; }
      parts := parts + [body];
    }
    assert sections[..|sections|] == sections;
    if |parts| == 0 { return ""; }
    return Join(parts, "\n\n") + "\n";
  }

  lemma NotEmpty(s: string)
    requires TrimSpace(s) != ""
    ensures s != ""
  {}
}
