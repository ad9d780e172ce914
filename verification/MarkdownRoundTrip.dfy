/** Reading what was written: the blocks of a document come back, unless a heading ends in a hash. */
module MarkdownRoundTrip {
  import opened Whitespace
  import opened TextLines
  import opened CanvasMerge
  import opened CanvasMarkdown

  // ----- what the reader's blocks look like -----

  /** Line i of a block of prose: neither fence nor heading, empty if blank, and between list items if a blank line is before it. */
  ghost predicate ProseLine(ls: seq<string>, i: nat)
    requires i < |ls|
  {
    && Plain(ls[i]) && !IsFence(ls[i]) && HeadingOf(TrimSpace(ls[i])).NotHeading?
    && (TrimSpace(ls[i]) == "" ==> ls[i] == "" && i > 0)
    && (ls[i] == "" ==> TrimSpace(ls[i]) == "")
    && (i > 0 && ls[i] != "" && ls[i - 1] == "" ==> IsListItem(ls[i]) && IsListItem(LastNonEmpty(ls[..i])))
  }

  ghost predicate ProseLines(ls: seq<string>) {
    ls != [] && forall i: nat :: i < |ls| ==> ProseLine(ls, i)
  }

  ghost predicate Prose(ls: seq<string>) {
    ProseLines(ls) && ls[|ls| - 1] != ""
  }

  /** A fence and what follows it. */
  ghost predicate FencedLines(ls: seq<string>) {
    && ls != [] && IsFence(ls[0]) && (forall line :: line in ls ==> Plain(line))
    && forall i :: 1 <= i < |ls| ==> !IsFence(ls[i])
  }

  ghost predicate Closed(ls: seq<string>) {
    |ls| >= 2 && FencedLines(ls[..|ls| - 1]) && IsFence(ls[|ls| - 1]) && Plain(ls[|ls| - 1])
  }

  ghost predicate Open(ls: seq<string>) {
    FencedLines(ls) && ls[|ls| - 1] != ""
  }

  ghost predicate IsProse(b: Section) {
    b.id == "" && b.kind == "markdown" && Prose(Split(b.text))
  }

  ghost predicate IsClosed(b: Section) {
    b.id == "" && b.kind == "markdown" && Closed(Split(b.text))
  }

  ghost predicate IsOpen(b: Section) {
    b.id == "" && b.kind == "markdown" && Open(Split(b.text))
  }

  ghost predicate IsHeading(b: Section) {
    b.id == "" && b.kind in {"h1", "h2", "h3"} && Plain(b.text) && TrimSpace(b.text) == b.text && b.text != ""
  }

  ghost predicate Good(b: Section) {
    IsProse(b) || IsClosed(b) || IsHeading(b)
  }

  /** The second block's first line would not continue a list the first ends in. */
  ghost predicate Ends(a: Section, first: string) {
    IsProse(a) ==> !(IsListItem(first) && IsListItem(LastNonEmpty(Split(a.text))))
  }

  ghost predicate Apart(a: Section, b: Section) {
    IsProse(b) ==> Ends(a, Split(b.text)[0])
  }

  ghost predicate GoodRun(bs: seq<Section>) {
    (forall i :: 0 <= i < |bs| ==> Good(bs[i])) && forall i :: 0 < i < |bs| ==> Apart(bs[i - 1], bs[i])
  }

  /** A document: only its last block can be a fence left open. */
  ghost predicate GoodDocument(bs: seq<Section>) {
    GoodRun(bs) || (bs != [] && GoodRun(bs[..|bs| - 1]) && IsOpen(bs[|bs| - 1]))
  }

  lemma GoodMore(bs: seq<Section>, b: Section)
    requires GoodRun(bs) && Good(b) && (bs != [] ==> Apart(bs[|bs| - 1], b))
    ensures GoodRun(bs + [b])
  {
    hide Good;
    hide Apart;
  }

  // ----- lines and the text they make -----

  function DropEmpty(ls: seq<string>): (r: seq<string>)
    ensures r <= ls && (r != [] ==> r[|r| - 1] != "")
  {
    if ls != [] && ls[|ls| - 1] == "" then DropEmpty(ls[..|ls| - 1]) else ls
  }

  lemma {:induction false} DropsEmpty(ls: seq<string>)
    requires ls != [] && ls[0] != ""
    ensures DropEmpty(ls) != [] && LastNonEmpty(DropEmpty(ls)) == LastNonEmpty(ls)
  {
    if ls[|ls| - 1] == "" { DropsEmpty(ls[..|ls| - 1]); }
  }

  lemma {:induction false} TrimEndJoin(ls: seq<string>)
    requires ls != [] && ls[0] != "" && forall line :: line in ls ==> Plain(line)
    ensures TrimEnd(Join(ls, "\n"), IsNewline) == Join(DropEmpty(ls), "\n")
  {
    if ls[|ls| - 1] == "" {
      var rest := ls[..|ls| - 1];
      assert ls == rest + [""];
      JoinEmptyLast(rest);
      assert (Join(rest, "\n") + "\n")[..|Join(ls, "\n")| - 1] == Join(rest, "\n");
      TrimEndJoin(rest);
    } else {
      assert ls[|ls| - 1] in ls;
      JoinEnds(ls);
    }
  }

  lemma {:induction false} JoinHolds(ls: seq<string>, c: char)
    requires ls != [] && c in ls[0]
    ensures c in Join(ls, "\n")
  {}

  /** Text joined from a first line that is not blank is not blank. */
  lemma JoinNotBlank(ls: seq<string>)
    requires ls != [] && TrimSpace(ls[0]) != ""
    ensures ls[0] != "" && TrimSpace(Join(ls, "\n")) != ""
  {
    NotEmpty(ls[0]);
    TrimSpaceBlank(ls[0]);
    TrimSpaceBlank(Join(ls, "\n"));
    hide TrimSpace;
    hide IsSpace;
    var i :| 0 <= i < |ls[0]| && !IsSpace(ls[0][i]);
    JoinHolds(ls, ls[0][i]);
  }

  /** A paragraph's text is its lines without the empty ones at the end, and splits into them. */
  lemma BodyLines(ls: seq<string>)
    requires ls != [] && TrimSpace(ls[0]) != "" && forall line :: line in ls ==> Plain(line)
    ensures ls[0] != "" && Body(ls) == Join(DropEmpty(ls), "\n") && Split(Body(ls)) == DropEmpty(ls) && TrimSpace(Body(ls)) != ""
    ensures DropEmpty(ls) != [] && DropEmpty(ls)[0] == ls[0]
  {
    NotEmpty(ls[0]);
    assert ls[0][0] != '\n' by { assert ls[0] in ls && ls[0][0] in ls[0]; }
    hide TrimSpace;
    hide Plain;
    assert forall line :: line in DropEmpty(ls) ==> line in ls;
    DropsEmpty(ls);
    JoinStarts(ls);
    TrimEndJoin(ls);
    SplitJoin(DropEmpty(ls));
    JoinNotBlank(DropEmpty(ls));
    hide Split;
    hide Join;
    hide DropEmpty;
    hide LastNonEmpty;
  }

  lemma JoinStarts(ls: seq<string>)
    requires ls != [] && ls[0] != "" && ls[0][0] != '\n'
    ensures TrimStart(Join(ls, "\n"), IsNewline) == Join(ls, "\n")
  {}

  lemma ProsePrefix(ls: seq<string>, n: nat)
    requires ProseLines(ls) && 0 < n <= |ls|
    ensures ProseLines(ls[..n])
  {
    forall i: nat | i < n ensures ProseLine(ls[..n], i) {
      assert ProseLine(ls, i);
      assert ls[..n][..i] == ls[..i];
    }
  }

  lemma ProsePlain(ls: seq<string>)
    requires ProseLines(ls)
    ensures TrimSpace(ls[0]) != "" && ls[0] != "" && forall line :: line in ls ==> Plain(line)
  {
    assert ProseLine(ls, 0);
    forall line | line in ls ensures Plain(line) {
      var i :| 0 <= i < |ls| && ls[i] == line;
      assert ProseLine(ls, i);
    }
  }

  lemma FenceIsText(line: string)
    requires IsFence(line)
    ensures TrimSpace(line) != "" && line != ""
  {
    NotEmpty(line);
  }

  /** Ending a paragraph of prose adds one block of prose. */
  lemma FlushProse(s: Scan)
    requires s.paragraph != [] && ProseLines(s.paragraph)
    ensures var b := Section("", "markdown", Body(s.paragraph));
            Flush(s).blocks == s.blocks + [b] && IsProse(b) && Split(b.text) == DropEmpty(s.paragraph) && Split(b.text)[0] == s.paragraph[0]
  {
    hide ProseLines;
    hide Body;
    hide Split;
    hide DropEmpty;
    hide TrimSpace;
    hide Plain;
    ProsePlain(s.paragraph);
    BodyLines(s.paragraph);
    var core := DropEmpty(s.paragraph);
    ProsePrefix(s.paragraph, |core|);
    assert core == s.paragraph[..|core|];
  }

  // ----- everything the reader produces is of this form -----

  ghost predicate Inv(s: Scan) {
    && GoodRun(s.blocks)
    && (if s.fenced then FencedLines(s.paragraph)
        else if s.paragraph == [] then s.blocks == [] || !IsProse(s.blocks[|s.blocks| - 1])
        else ProseLines(s.paragraph) && (s.blocks == [] || Ends(s.blocks[|s.blocks| - 1], s.paragraph[0])))
  }

  lemma FlushNothing(s: Scan)
    requires s.paragraph == []
    ensures Flush(s).blocks == s.blocks
  {
    assert Join([], "\n") == "";
  }

  /** Ending prose leaves good blocks; a line that ends it would not have continued its list. */
  lemma FlushKeeps(s: Scan)
    requires Inv(s) && !s.fenced
    ensures GoodRun(Flush(s).blocks)
    ensures s.paragraph == [] ==> Flush(s).blocks == s.blocks
    ensures s.paragraph != [] ==>
              (var bs := Flush(s).blocks;
               && bs != [] && IsProse(bs[|bs| - 1])
               && forall line :: !(IsListItem(line) && IsListItem(LastNonEmpty(s.paragraph))) ==> Ends(bs[|bs| - 1], line))
  {
    hide Flush;
    hide GoodRun;
    hide Prose;
    hide Body;
    hide Split;
    hide LastNonEmpty;
    hide IsListItem;
    hide ProseLines;
    hide DropEmpty;
    hide TrimSpace;
    hide Plain;
    if s.paragraph == [] {
      FlushNothing(s);
    } else {
      FlushProse(s);
      ProsePlain(s.paragraph);
      DropsEmpty(s.paragraph);
      GoodMore(s.blocks, Section("", "markdown", Body(s.paragraph)));
    }
  }

  lemma FenceIsNotProse(ls: seq<string>)
    requires ls != [] && IsFence(ls[0])
    ensures !ProseLines(ls)
  {
    assert !ProseLine(ls, 0);
  }

  lemma ClosesFence(before: seq<string>, line: string)
    requires FencedLines(before) && IsFence(line) && Plain(line)
    ensures var ls := before + [line];
            && Closed(ls) && !ProseLines(ls) && TrimSpace(ls[0]) != "" && DropEmpty(ls) == ls
            && forall l :: l in ls ==> Plain(l)
  {
    var ls := before + [line];
    FenceIsText(ls[0]);
    FenceIsText(line);
    assert ls[..|ls| - 1] == before;
    assert forall l :: l in ls ==> l in before || l == line;
    FenceIsNotProse(ls);
    hide TrimSpace;
    hide Plain;
  }

  /** A closing fence ends its block. */
  lemma FlushClosed(s: Scan, line: string)
    requires s.fenced && Inv(s) && IsFence(line) && Plain(line)
    ensures Inv(FenceStep(s, line)) && !FenceStep(s, line).fenced
  {
    hide Body;
    hide Split;
    hide GoodRun;
    hide ProseLines;
    hide Closed;
    hide Plain;
    hide FencedLines;
    hide IsFence;
    hide TrimSpace;
    hide DropEmpty;
    var ls := s.paragraph + [line];
    ClosesFence(s.paragraph, line);
    BodyLines(ls);
    GoodMore(s.blocks, Section("", "markdown", Body(ls)));
  }

  lemma OpenFence(s: Scan, line: string)
    requires !s.fenced && Inv(s) && IsFence(line) && Plain(line)
    ensures Inv(FenceStep(s, line))
  {
    FlushKeeps(s);
    hide GoodRun;
    hide Flush;
  }

  lemma HeadingKeeps(s: Scan, line: string)
    requires !s.fenced && Inv(s) && !IsFence(line) && HeadingOf(TrimSpace(line)).Heading? && Plain(line)
    ensures Inv(Step(s, line))
  {
    var h := HeadingOf(TrimSpace(line));
    HeadingIsTight(TrimSpace(line));
    TrimKeepsChars(line, IsSpace);
    var b := Section("", Kind(h.level), h.text);
    assert IsHeading(b);
    assert !IsProse(b);
    FlushKeeps(s);
    GoodMore(Flush(s).blocks, b);
    hide GoodRun;
    hide Flush;
    hide HeadingOf;
    hide IsHeading;
    hide TrimSpace;
    hide IsProse;
  }

  lemma HeadingIsTight(line: string)
    requires HeadingOf(line).Heading?
    ensures var h := HeadingOf(line); 1 <= h.level <= 3 && h.text != "" && TrimSpace(h.text) == h.text
    ensures forall c :: c in HeadingOf(line).text ==> c in line
  {
    var rest := line[CountHashes(line)..];
    var inner := TrimEnd(TrimSpace(rest), IsHash);
    TrimTight(inner, IsSpace);
    TrimTight(TrimSpace(inner), IsSpace);
    TrimKeepsChars(inner, IsSpace);
    TrimKeepsChars(rest, IsSpace);
    assert inner <= TrimSpace(rest);
    forall c | c in TrimSpace(inner) ensures c in line {
      assert c in inner;
      assert c in TrimSpace(rest);
      assert c in rest;
    }
    hide Trim;
  }

  lemma BlankKeeps(s: Scan, line: string)
    requires !s.fenced && Inv(s) && !IsFence(line) && HeadingOf(TrimSpace(line)).NotHeading? && TrimSpace(line) == ""
    ensures Inv(Step(s, line))
  {
    if s.paragraph != [] {
      var ls := s.paragraph + [""];
      assert TrimSpace("") == "";
      ProseGrows(s.paragraph, "");
    }
    hide GoodRun;
    hide ProseLines;
    hide HeadingOf;
    hide IsProse;
    hide Ends;
  }

  lemma ProseGrows(ls: seq<string>, line: string)
    requires ProseLines(ls) && Plain(line) && !IsFence(line) && HeadingOf(TrimSpace(line)).NotHeading?
    requires if TrimSpace(line) == "" then line == "" else line != ""
    requires line != "" && ls[|ls| - 1] == "" ==> IsListItem(line) && IsListItem(LastNonEmpty(ls))
    ensures ProseLines(ls + [line])
  {
    var more := ls + [line];
    forall i: nat | i < |more| ensures ProseLine(more, i) {
      assert i < |ls| ==> ProseLine(ls, i);
      assert i < |ls| ==> more[..i] == ls[..i];
      assert more[..|ls|] == ls;
    }
  }

  lemma TextKeeps(s: Scan, line: string)
    requires !s.fenced && Inv(s) && !IsFence(line) && HeadingOf(TrimSpace(line)).NotHeading? && TrimSpace(line) != "" && Plain(line)
    ensures Inv(TextStep(s, line))
  {
    hide GoodRun;
    hide Flush;
    hide ProseLines;
    hide IsProse;
    hide IsListItem;
    hide LastNonEmpty;
    hide HeadingOf;
    hide TrimSpace;
    hide Plain;
    NotEmpty(line);
    FlushKeeps(s);
    ProseOne(line);
    if s.paragraph == [] {
      assert s.paragraph + [line] == [line];
    } else if s.paragraph[|s.paragraph| - 1] != "" || (IsListItem(line) && IsListItem(LastNonEmpty(s.paragraph))) {
      ProseGrows(s.paragraph, line);
    }
  }

  lemma ProseOne(line: string)
    requires Plain(line) && !IsFence(line) && HeadingOf(TrimSpace(line)).NotHeading? && TrimSpace(line) != ""
    ensures ProseLines([line])
  {
    NotEmpty(line);
    assert ProseLine([line], 0);
  }

  lemma StepKeeps(s: Scan, line: string)
    requires Inv(s) && Plain(line)
    ensures Inv(Step(s, line))
  {
    if IsFence(line) {
      if s.fenced { FlushClosed(s, line); } else { OpenFence(s, line); }
    } else if s.fenced {
      assert forall l :: l in s.paragraph + [line] ==> l in s.paragraph || l == line;
    } else if HeadingOf(TrimSpace(line)).Heading? {
      HeadingKeeps(s, line);
    } else if TrimSpace(line) == "" {
      BlankKeeps(s, line);
    } else {
      TextKeeps(s, line);
    }
    hide GoodRun;
    hide FenceStep;
    hide TextStep;
    hide HeadingOf;
    hide TrimSpace;
    hide ProseLines;
    hide IsProse;
    hide Ends;
    hide Plain;
  }

  lemma {:induction false} RunKeeps(s: Scan, lines: seq<string>)
    requires Inv(s) && forall line :: line in lines ==> Plain(line)
    ensures Inv(Run(s, lines))
    decreases |lines|
  {
    if lines != [] {
      assert lines[0] in lines && forall line :: line in lines[1..] ==> line in lines;
      StepKeeps(s, lines[0]);
      RunKeeps(Step(s, lines[0]), lines[1..]);
    }
  }

  /** Whatever the text, its blocks are prose, closed fences and headings, and perhaps a last fence left open. */
  lemma BlocksAreGood(text: string)
    ensures GoodDocument(Blocks(text))
  {
    assert Inv(START);
    hide Run;
    hide GoodRun;
    hide Split;
    hide Normalize;
    hide IsOpen;
    hide IsProse;
    hide Plain;
    hide Flush;
    hide FencedLines;
    hide ProseLines;
    var lines := Split(Normalize(text));
    NormalizePlain(text);
    SplitPlain(Normalize(text));
    RunKeeps(START, lines);
    var s := Run(START, lines);
    if s.fenced { FlushOpen(s); } else { FlushKeeps(s); }
  }

  /** A fence still open at the end becomes the last block. */
  lemma FlushOpen(s: Scan)
    requires FencedLines(s.paragraph)
    ensures var b := Section("", "markdown", Body(s.paragraph));
            && Flush(s).blocks == s.blocks + [b] && IsOpen(b)
            && Flush(s).blocks[..|Flush(s).blocks| - 1] == s.blocks
  {
    OpenCore(s.paragraph);
    hide FencedLines;
    hide Body;
    hide Open;
    hide Split;
    hide DropEmpty;
    hide TrimSpace;
    hide Plain;
    BodyLines(s.paragraph);
  }

  lemma OpenCore(ls: seq<string>)
    requires FencedLines(ls)
    ensures Open(DropEmpty(ls)) && TrimSpace(ls[0]) != "" && forall line :: line in ls ==> Plain(line)
  {
    FenceIsText(ls[0]);
    hide TrimSpace;
    hide IsFence;
    DropsEmpty(ls);
    var core := DropEmpty(ls);
    assert forall l :: l in core ==> l in ls;
    assert core == ls[..|core|];
  }

  // ----- reading it back -----

  /** A block the reader can produce, at the end of a document or before it. */
  ghost predicate Readable(b: Section) {
    Good(b) || IsOpen(b)
  }

  /** The block's text is lines that neither begin nor end empty. */
  lemma TextOfLines(b: Section)
    requires IsProse(b) || IsClosed(b) || IsOpen(b)
    ensures b.kind == "markdown"
    ensures var ls := Split(b.text);
            && b.text == Join(ls, "\n") && '\r' !in b.text && TrimSpace(ls[0]) != "" && TrimSpace(b.text) != ""
            && Trim(b.text, IsNewline) == b.text && (forall line :: line in ls ==> Plain(line)) && ls[|ls| - 1] != ""
  {
    var ls := Split(b.text);
    JoinSplit(b.text);
    LinesArePlain(b);
    hide Split;
    hide IsProse;
    hide IsClosed;
    hide IsOpen;
    NotEmpty(ls[0]);
    hide TrimSpace;
    JoinPlain(ls);
    JoinNotBlank(ls);
    JoinEnds(ls);
    assert Plain(ls[0]) && Plain(ls[|ls| - 1]);
    TrimTight(b.text, IsNewline);
    hide Join;
    hide Trim;
  }

  lemma LinesArePlain(b: Section)
    requires IsProse(b) || IsClosed(b) || IsOpen(b)
    ensures b.kind == "markdown"
    ensures var ls := Split(b.text);
            TrimSpace(ls[0]) != "" && ls[|ls| - 1] != "" && forall line :: line in ls ==> Plain(line)
  {
    hide Split;
    hide TrimSpace;
    hide ProseLines;
    hide Plain;
    hide IsFence;
    var ls := Split(b.text);
    if IsProse(b) {
      ProsePlain(ls);
    } else {
      FenceIsText(ls[0]);
      if IsClosed(b) {
        FenceIsText(ls[|ls| - 1]);
        assert forall line :: line in ls ==> line in ls[..|ls| - 1] || line == ls[|ls| - 1];
      }
    }
  }

  function HeadingLine(b: Section): string {
    Repeat('#', LevelOf(b.kind)) + " " + b.text
  }

  /** What is written for a block. */
  lemma PartOf(b: Section)
    requires Readable(b)
    ensures Part(b) != "" && '\r' !in Part(b)
    ensures if IsHeading(b) then Part(b) == HeadingLine(b) && Split(Part(b)) == [Part(b)] else Part(b) == b.text
  {
    hide TrimSpace;
    hide Trim;
    hide Split;
    hide JoinReturns;
    hide IsProse;
    hide IsClosed;
    hide IsOpen;
    if IsHeading(b) {
      NoReturns(b.text);
      TightHeading(b.text);
      assert Plain(HeadingLine(b));
      SplitOne(HeadingLine(b));
    } else {
      TextOfLines(b);
      NoReturns(b.text);
      NotEmpty(b.text);
    }
  }

  lemma TightHeading(text: string)
    requires Plain(text) && TrimSpace(text) == text && text != ""
    ensures Trim(text, IsNewline) == text && !IsSpace(text[0]) && !IsSpace(text[|text| - 1])
  {
    TrimTight(text, IsSpace);
    TrimTight(text, IsNewline);
  }

  /** The lines of a printed document: each block's, and an empty one. */
  function PrintedLines(bs: seq<Section>): seq<string> {
    if bs == [] then [] else PrintedLines(bs[..|bs| - 1]) + (Split(Part(bs[|bs| - 1])) + [""])
  }

  lemma {:induction false} JoinMore(xs: seq<string>, x: string, separator: string)
    requires xs != []
    ensures Join(xs + [x], separator) == Join(xs, separator) + separator + x
  {
    if |xs| == 1 {
      assert (xs + [x])[1..] == [x];
    } else {
      assert (xs + [x])[1..] == xs[1..] + [x];
      JoinMore(xs[1..], x, separator);
    }
  }

  lemma SplitEndLine(part: string)
    ensures Split(part + "\n") == Split(part) + [""]
  {
    SplitBreak(part, "");
    assert part + "\n" + "" == part + "\n";
  }

  lemma {:induction false} PrintedSplits(bs: seq<Section>)
    requires bs != [] && forall b :: b in bs ==> Part(b) != "" && '\r' !in Part(b)
    ensures Parts(bs) != [] && '\r' !in Printed(bs) && Split(Printed(bs)) == PrintedLines(bs)
  {
    hide Part;
    hide Split;
    hide Join;
    var rest, part := bs[..|bs| - 1], Part(bs[|bs| - 1]);
    assert bs[|bs| - 1] in bs && forall b :: b in rest ==> b in bs;
    SplitEndLine(part);
    if rest == [] {
      JoinOne(part);
      assert Parts(bs) == [part] by { assert [] + [part] == [part]; }
      assert [] + (Split(part) + [""]) == Split(part) + [""];
    } else {
      PrintedSplits(rest);
      assert Parts(bs) == Parts(rest) + [part];
      JoinMore(Parts(rest), part, "\n\n");
      assert Printed(bs) == Printed(rest) + "\n" + (part + "\n");
      SplitBreak(Printed(rest), part + "\n");
    }
    hide Parts;
  }

  lemma JoinOne(part: string)
    ensures Join([part], "\n\n") == part
  {}

  /** The reader has read bs: the last of them may still be its paragraph, with the empty line after it. */
  ghost predicate Ready(s: Scan, bs: seq<Section>) {
    !s.fenced &&
    if s.paragraph == [] then s.blocks == bs
    else
      && bs != [] && IsProse(bs[|bs| - 1]) && s.blocks == bs[..|bs| - 1]
      && s.paragraph == Split(bs[|bs| - 1].text) + [""]
  }

  /** An empty line after a block's lines leaves its text as it is. */
  lemma BodyMore(b: Section)
    requires IsProse(b) || IsClosed(b) || IsOpen(b)
    ensures Body(Split(b.text) + [""]) == b.text && TrimSpace(b.text) != ""
  {
    hide Split;
    hide IsProse;
    hide IsClosed;
    hide IsOpen;
    hide TrimSpace;
    hide Plain;
    hide Body;
    var ls := Split(b.text);
    var more := ls + [""];
    TextOfLines(b);
    assert Plain("") by { EmptyPlain(); }
    forall l | l in more ensures Plain(l) { assert l in ls || l == ""; }
    assert more[0] == ls[0];
    BodyLines(more);
    assert more[..|ls|] == ls;
    assert DropEmpty(more) == ls;
  }

  lemma EmptyPlain()
    ensures Plain("")
  {}

  lemma ReadyFlush(s: Scan, bs: seq<Section>)
    requires Ready(s, bs)
    ensures Flush(s).blocks == bs
    ensures s.paragraph != [] ==> LastNonEmpty(s.paragraph) == LastNonEmpty(Split(bs[|bs| - 1].text))
  {
    hide Split;
    hide Body;
    hide Prose;
    hide TrimSpace;
    if s.paragraph != [] {
      var b := bs[|bs| - 1];
      BodyMore(b);
      assert bs == bs[..|bs| - 1] + [b];
      LastOfMore(Split(b.text));
    } else {
      NothingFlushed(s);
    }
  }

  lemma NothingFlushed(s: Scan)
    requires s.paragraph == []
    ensures Flush(s).blocks == s.blocks
  {
    assert Join([], "\n") == "";
  }

  lemma LastOfMore(ls: seq<string>)
    ensures LastNonEmpty(ls + [""]) == LastNonEmpty(ls)
  {
    assert TrimSpace("") == "";
    assert (ls + [""])[..|ls|] == ls;
  }

  lemma {:induction false} RunJoin(s: Scan, a: seq<string>, b: seq<string>)
    ensures Run(s, a + b) == Run(Run(s, a), b)
    decreases |a|
  {
    if a == [] {
      assert a + b == b;
    } else {
      assert (a + b)[1..] == a[1..] + b;
      RunJoin(Step(s, a[0]), a[1..], b);
    }
  }

  lemma EmptyLine(s: Scan)
    requires !s.fenced
    ensures Step(s, "") == if s.paragraph == [] then s else Scan(s.blocks, s.paragraph + [""], false)
  {
    assert TrimSpace("") == "";
  }

  lemma UpTo(ls: seq<string>, n: nat)
    requires 1 < n <= |ls|
    ensures ls[1..n] == ls[1..n - 1] + [ls[n - 1]] && ls[..n] == ls[..n - 1] + [ls[n - 1]]
    ensures ls[..n - 1][n - 2] == ls[n - 2]
  {
  }

  lemma {:induction false} RunProse(blocks: seq<Section>, ls: seq<string>, n: nat)
    requires ProseLines(ls) && 0 < n <= |ls|
    ensures Run(Scan(blocks, ls[..1], false), ls[1..n]) == Scan(blocks, ls[..n], false)
  {
    if n > 1 {
      RunProse(blocks, ls, n - 1);
      assert ProseLine(ls, n - 1);
      var s, line := Scan(blocks, ls[..n - 1], false), ls[n - 1];
      UpTo(ls, n);
      RunMore(Scan(blocks, ls[..1], false), ls[1..n - 1], line);
      assert Step(s, line) == Scan(blocks, ls[..n], false);
    }
    hide Run;
    hide HeadingOf;
    hide TrimSpace;
    hide IsListItem;
    hide LastNonEmpty;
    hide Flush;
    hide Plain;
  }

  lemma {:induction false} RunFence(blocks: seq<Section>, ls: seq<string>, n: nat)
    requires FencedLines(ls) && 0 < n <= |ls|
    ensures Run(Scan(blocks, ls[..1], true), ls[1..n]) == Scan(blocks, ls[..n], true)
  {
    hide IsFence;
    if n > 1 {
      RunFence(blocks, ls, n - 1);
      var s, line := Scan(blocks, ls[..n - 1], true), ls[n - 1];
      assert ls[1..n] == ls[1..n - 1] + [line] && ls[..n] == ls[..n - 1] + [line];
      RunMore(Scan(blocks, ls[..1], true), ls[1..n - 1], line);
      assert Step(s, line) == Scan(blocks, ls[..n], true);
    }
  }

  lemma FirstThenRest(s: Scan, ls: seq<string>)
    requires ls != []
    ensures Run(s, ls + [""]) == Step(Run(Step(s, ls[0]), ls[1..]), "")
  {
    assert ls == [ls[0]] + ls[1..];
    RunMore(s, ls, "");
    hide Step;
  }

  lemma ReadProse(s: Scan, bs: seq<Section>, b: Section)
    requires Ready(s, bs) && IsProse(b) && (bs != [] ==> Apart(bs[|bs| - 1], b))
    ensures Ready(Run(s, Split(Part(b)) + [""]), bs + [b])
  {
    assert !IsHeading(b);
    hide Run;
    hide Step;
    hide Split;
    hide Part;
    hide ProseLines;
    hide IsHeading;
    hide Ends;
    var ls := Split(b.text);
    PartOf(b);
    FirstThenRest(s, ls);
    FirstProseLine(s, bs, ls);
    RunProse(bs, ls, |ls|);
    assert ls[1..|ls|] == ls[1..] && ls[..|ls|] == ls;
    EmptyLine(Scan(bs, ls, false));
  }

  lemma FirstProseLine(s: Scan, bs: seq<Section>, ls: seq<string>)
    requires Ready(s, bs) && ProseLines(ls) && (bs != [] ==> Ends(bs[|bs| - 1], ls[0]))
    ensures Step(s, ls[0]) == Scan(bs, ls[..1], false)
  {
    hide TrimSpace;
    hide HeadingOf;
    hide IsListItem;
    hide LastNonEmpty;
    hide Flush;
    hide Split;
    hide Prose;
    hide Plain;
    assert ProseLine(ls, 0);
    ReadyFlush(s, bs);
    assert ls[..1] == [ls[0]] && [] + [ls[0]] == [ls[0]];
  }

  lemma ReadFence(s: Scan, bs: seq<Section>, ls: seq<string>)
    requires Ready(s, bs) && FencedLines(ls)
    ensures Run(s, ls) == Scan(bs, ls, true)
  {
    ReadyFlush(s, bs);
    RunFence(bs, ls, |ls|);
    assert ls[..|ls|] == ls && ls[1..|ls|] == ls[1..] && ls[..1] == [ls[0]];
    assert Step(s, ls[0]) == Scan(bs, [ls[0]], true);
    hide Flush;
    hide IsFence;
    hide Ready;
  }

  /** The closing fence of a block ends it. */
  lemma CloseStep(bs: seq<Section>, b: Section)
    requires IsClosed(b)
    ensures var ls := Split(b.text); Step(Scan(bs, ls[..|ls| - 1], true), ls[|ls| - 1]) == Scan(bs + [b], [], false)
  {
    var ls := Split(b.text);
    assert ls == ls[..|ls| - 1] + [ls[|ls| - 1]] && IsFence(ls[|ls| - 1]);
    hide IsClosed;
    hide Split;
    hide IsFence;
    hide TrimSpace;
    hide Body;
    TextOfLines(b);
    BodyLines(ls);
    assert DropEmpty(ls) == ls;
    hide Join;
    hide Plain;
  }

  lemma ClosedLines(b: Section)
    requires IsClosed(b)
    ensures !IsHeading(b)
    ensures var ls := Split(b.text); FencedLines(ls[..|ls| - 1]) && ls == ls[..|ls| - 1] + [ls[|ls| - 1]]
  {
  }

  lemma ReadClosed(s: Scan, bs: seq<Section>, b: Section)
    requires Ready(s, bs) && IsClosed(b)
    ensures Ready(Run(s, Split(Part(b)) + [""]), bs + [b])
  {
    hide IsHeading;
    hide FencedLines;
    hide Run;
    hide Step;
    hide Split;
    hide Part;
    hide IsProse;
    hide Closed;
    ClosedLines(b);
    var ls := Split(b.text);
    var first, last := ls[..|ls| - 1], ls[|ls| - 1];
    PartOf(b);
    ReadFence(s, bs, first);
    CloseStep(bs, b);
    RunMore(s, first, last);
    RunMore(s, ls, "");
    EmptyLine(Scan(bs + [b], [], false));
  }

  lemma ReadOpen(s: Scan, bs: seq<Section>, b: Section)
    requires Ready(s, bs) && IsOpen(b)
    ensures Flush(Run(s, Split(Part(b)) + [""])).blocks == bs + [b]
  {
    assert !IsHeading(b) && b.id == "" && b.kind == "markdown";
    assert FencedLines(Split(b.text));
    hide IsHeading;
    hide IsOpen;
    hide FencedLines;
    hide Run;
    hide Step;
    hide Split;
    hide Part;
    hide Ready;
    hide Body;
    hide TrimSpace;
    var ls := Split(b.text);
    PartOf(b);
    ReadFence(s, bs, ls);
    RunMore(s, ls, "");
    EmptyLineInFence(bs, ls);
    BodyMore(b);
  }

  lemma EmptyLineInFence(bs: seq<Section>, ls: seq<string>)
    ensures Step(Scan(bs, ls, true), "") == Scan(bs, ls + [""], true)
  {
    assert TrimSpace("") == "";
  }

  // ----- headings -----

  ghost predicate EndsInHash(text: string) {
    text != "" && text[|text| - 1] == '#'
  }

  lemma {:induction false} RepeatHashes(n: nat, rest: string)
    requires rest == "" || rest[0] != '#'
    ensures CountHashes(Repeat('#', n) + rest) == n
  {
    if n == 0 {
      assert Repeat('#', 0) + rest == rest;
    } else {
      assert (Repeat('#', n) + rest)[1..] == Repeat('#', n - 1) + rest;
      RepeatHashes(n - 1, rest);
    }
  }

  lemma HeadingLineShape(b: Section)
    requires IsHeading(b)
    ensures var line, level := HeadingLine(b), LevelOf(b.kind);
            && 1 <= level <= 3 && level < |line| && line[0] == '#' && line[level] == ' ' && line[level..] == " " + b.text
            && CountHashes(line) == level && line[|line| - 1] == b.text[|b.text| - 1] && Plain(line)
  {
    var line, level := HeadingLine(b), LevelOf(b.kind);
    RepeatHashes(level, " " + b.text);
    assert line == Repeat('#', level) + (" " + b.text);
    hide TrimSpace;
    hide Repeat;
    hide CountHashes;
  }

  /** The line of a heading is neither fence nor list item. */
  lemma HeadingLineIsTight(b: Section)
    requires IsHeading(b)
    ensures var line := HeadingLine(b);
            TrimSpace(line) == line && line != "" && !IsFence(line) && !IsListItem(line) && Plain(line)
  {
    HeadingLineShape(b);
    TightHeading(b.text);
    hide IsHeading;
    hide HeadingLine;
    HashLine(HeadingLine(b));
    hide TrimSpace;
    hide IsFence;
    hide IsListItem;
    hide CountHashes;
    hide LevelOf;
    hide IsSpace;
  }

  lemma HashLine(line: string)
    requires line != "" && line[0] == '#' && !IsSpace(line[|line| - 1])
    ensures TrimSpace(line) == line && !IsFence(line) && !IsListItem(line)
  {
    TrimTight(line, IsSpace);
    assert CountDigits(line) == 0;
  }

  /** What a heading's line reads as: its text without hashes at the end, and no heading if nothing else is left. */
  lemma HeadingLineReads(b: Section)
    requires IsHeading(b)
    ensures var text := TrimSpace(TrimEnd(b.text, IsHash));
            HeadingOf(HeadingLine(b)) == (if text == "" then NotHeading else Heading(LevelOf(b.kind), text))
  {
    HeadingLineShape(b);
    SpaceThen(b.text);
    hide HeadingLine;
    hide TrimSpace;
    hide TrimEnd;
    hide CountHashes;
    hide LevelOf;
    hide Plain;
  }

  lemma SpaceThen(text: string)
    requires TrimSpace(text) == text && text != ""
    ensures TrimSpace(" " + text) == text
  {
    TrimTight(text, IsSpace);
    assert (" " + text)[1..] == text;
  }

  /** A heading keeps its text exactly when it does not end in a hash. */
  lemma HashesTrimmed(text: string)
    requires TrimSpace(text) == text && text != ""
    ensures EndsInHash(text) <==> TrimSpace(TrimEnd(text, IsHash)) != text
  {
    if EndsInHash(text) {
      var less := TrimEnd(text[..|text| - 1], IsHash);
      assert |less| < |text| && TrimEnd(text, IsHash) == less;
      TrimShorter(less);
    }
  }

  lemma TrimShorter(s: string)
    ensures |TrimSpace(s)| <= |s|
  {}

  lemma KindOfLevel(kind: string)
    requires kind in {"h1", "h2", "h3"}
    ensures Kind(LevelOf(kind)) == kind
  {}

  lemma HeadingStep(s: Scan, b: Section)
    requires !s.fenced && IsHeading(b) && !EndsInHash(b.text)
    ensures Step(s, HeadingLine(b)) == Scan(Flush(s).blocks + [b], [], false)
  {
    KindOfLevel(b.kind);
    HashesTrimmed(b.text);
    HeadingLineIsTight(b);
    HeadingLineReads(b);
    hide TrimSpace;
    hide TrimEnd;
    hide HeadingOf;
    hide HeadingLine;
    hide Flush;
    hide Kind;
    hide LevelOf;
    hide IsFence;
    hide Plain;
  }

  lemma ReadHeading(s: Scan, bs: seq<Section>, b: Section)
    requires Ready(s, bs) && IsHeading(b) && !EndsInHash(b.text)
    ensures Ready(Run(s, Split(Part(b)) + [""]), bs + [b])
  {
    hide Split;
    hide Part;
    hide Step;
    hide HeadingLine;
    hide Flush;
    hide IsProse;
    PartOf(b);
    ReadyFlush(s, bs);
    HeadingStep(s, b);
    var line := HeadingLine(b);
    RunMore(s, [line], "");
    RunMore(s, [], line);
    assert [] + [line] == [line];
    EmptyLine(Scan(bs + [b], [], false));
  }

  // ----- the round trip -----

  /** No heading ends in a hash. */
  ghost predicate NoHashEnds(bs: seq<Section>) {
    forall i :: 0 <= i < |bs| && bs[i].kind in {"h1", "h2", "h3"} ==> !EndsInHash(bs[i].text)
  }

  lemma {:induction false} ReadRun(bs: seq<Section>)
    requires GoodRun(bs) && NoHashEnds(bs)
    ensures Ready(Run(START, PrintedLines(bs)), bs)
  {
    hide Split;
    hide Part;
    hide Run;
    if bs == [] {
      assert Run(START, []) == START by { NothingRuns(START); }
    } else {
      var rest, b := bs[..|bs| - 1], bs[|bs| - 1];
      ReadRun(rest);
      RunJoin(START, PrintedLines(rest), Split(Part(b)) + [""]);
      assert bs == rest + [b];
      ReadOne(Run(START, PrintedLines(rest)), rest, b);
    }
    hide Ready;
    hide Good;
    hide Apart;
    hide EndsInHash;
  }

  lemma NothingRuns(s: Scan)
    ensures Run(s, []) == s
  {}

  lemma ReadOne(s: Scan, bs: seq<Section>, b: Section)
    requires Ready(s, bs) && GoodRun(bs + [b]) && NoHashEnds(bs + [b])
    ensures Ready(Run(s, Split(Part(b)) + [""]), bs + [b])
  {
    assert (bs + [b])[|bs|] == b && (bs != [] ==> (bs + [b])[|bs| - 1] == bs[|bs| - 1]);
    assert Good(b) && (bs != [] ==> Apart(bs[|bs| - 1], b));
    assert IsHeading(b) ==> !EndsInHash(b.text);
    hide GoodRun;
    hide NoHashEnds;
    hide Ready;
    hide Split;
    hide Part;
    hide Run;
    hide Prose;
    hide Closed;
    hide Apart;
    hide IsHeading;
    hide EndsInHash;
    if IsProse(b) { ReadProse(s, bs, b); } else if IsClosed(b) { ReadClosed(s, bs, b); } else { ReadHeading(s, bs, b); }
  }

  lemma PrintedReads(bs: seq<Section>)
    requires GoodDocument(bs) && bs != []
    ensures Blocks(Printed(bs)) == Flush(Run(START, PrintedLines(bs))).blocks
  {
    hide Good;
    hide IsOpen;
    hide Apart;
    hide Part;
    hide Split;
    hide Run;
    forall b | b in bs ensures Part(b) != "" && '\r' !in Part(b) {
      var i :| 0 <= i < |bs| && bs[i] == b;
      GoodAt(bs, i);
      PartOf(b);
    }
    PrintedSplits(bs);
    NormalizePlain(Printed(bs));
  }

  lemma NothingReadsBack()
    ensures Blocks(Printed([])) == []
  {
    assert Split("") == [""] && [""][1..] == [];
    assert Normalize("") == "";
    assert Printed([]) == "";
    EmptyLine(START);
    NothingFlushed(START);
    hide Step;
    hide Flush;
  }

  /** A good document whose headings do not end in hashes is read back as it was. */
  lemma ReadsBack(bs: seq<Section>)
    requires GoodDocument(bs) && NoHashEnds(bs)
    ensures Blocks(Printed(bs)) == bs
  {
    hide GoodRun;
    hide Part;
    hide Flush;
    hide Ready;
    hide IsOpen;
    hide Blocks;
    hide Printed;
    hide Run;
    hide Split;
    if bs == [] {
      NothingReadsBack();
    } else {
      PrintedReads(bs);
      if GoodRun(bs) {
        ReadRun(bs);
        ReadyFlush(Run(START, PrintedLines(bs)), bs);
      } else {
        var rest, b := bs[..|bs| - 1], bs[|bs| - 1];
        ReadRun(rest);
        RunJoin(START, PrintedLines(rest), Split(Part(b)) + [""]);
        ReadOpen(Run(START, PrintedLines(rest)), rest, b);
        assert bs == rest + [b];
      }
    }
  }

  // ----- and only then -----

  lemma FlushExtends(s: Scan)
    ensures s.blocks <= Flush(s).blocks
  {}

  lemma StepExtends(s: Scan, line: string)
    ensures s.blocks <= Step(s, line).blocks
  {
    FlushExtends(s);
    FlushExtends(Scan(s.blocks, s.paragraph + [line], false));
    hide Flush;
    hide HeadingOf;
    hide IsFence;
    hide TrimSpace;
    hide IsListItem;
    hide LastNonEmpty;
  }

  lemma {:induction false} RunExtends(s: Scan, lines: seq<string>)
    ensures s.blocks <= Run(s, lines).blocks
    decreases |lines|
  {
    if lines != [] {
      StepExtends(s, lines[0]);
      RunExtends(Step(s, lines[0]), lines[1..]);
    }
    hide Step;
  }

  /** The next block to come is the paragraph being read. */
  ghost predicate NextIsProse(blocks: seq<Section>, k: nat) {
    k < |blocks| && blocks[k].kind == "markdown"
  }

  lemma FlushAdds(s: Scan)
    requires Inv(s) && s.paragraph != []
    ensures NextIsProse(Flush(s).blocks, |s.blocks|)
  {
    if s.fenced { FlushOpen(s); } else { FlushProse(s); }
    hide Body;
    hide Prose;
    hide Split;
    hide GoodRun;
  }

  /** Its lines stay until it is ended. */
  lemma StepAdds(s: Scan, line: string)
    requires Inv(s) && s.paragraph != [] && Plain(line)
    ensures var n := Step(s, line); NextIsProse(n.blocks, |s.blocks|) || (n.blocks == s.blocks && n.paragraph != [])
  {
    FlushAdds(s);
    if IsFence(line) && s.fenced { FenceCloses(s, line); }
    hide Flush;
    hide Inv;
    hide HeadingOf;
    hide IsFence;
    hide TrimSpace;
    hide IsListItem;
    hide LastNonEmpty;
  }

  lemma FenceCloses(s: Scan, line: string)
    requires Inv(s) && s.fenced && IsFence(line) && Plain(line)
    ensures NextIsProse(FenceStep(s, line).blocks, |s.blocks|)
  {
    var ls := s.paragraph + [line];
    FenceIsText(ls[0]);
    assert forall l :: l in ls ==> l in s.paragraph || l == line;
    BodyLines(ls);
    hide Body;
    hide TrimSpace;
    hide Split;
    hide GoodRun;
  }

  lemma {:induction false} RunAdds(s: Scan, lines: seq<string>)
    requires Inv(s) && s.paragraph != [] && forall line :: line in lines ==> Plain(line)
    ensures NextIsProse(Flush(Run(s, lines)).blocks, |s.blocks|)
    decreases |lines|
  {
    hide Inv;
    hide Step;
    hide Flush;
    hide Plain;
    if lines == [] {
      FlushAdds(s);
    } else {
      var n := Step(s, lines[0]);
      assert lines[0] in lines && forall line :: line in lines[1..] ==> line in lines;
      StepAdds(s, lines[0]);
      StepKeeps(s, lines[0]);
      if NextIsProse(n.blocks, |s.blocks|) {
        RunExtends(n, lines[1..]);
        FlushExtends(Run(n, lines[1..]));
      } else {
        RunAdds(n, lines[1..]);
      }
    }
  }

  /** A heading that ends in a hash is not what the reader makes of its line, whatever comes after. */
  lemma HashLost(s: Scan, bs: seq<Section>, b: Section, lines: seq<string>)
    requires Ready(s, bs) && Inv(s) && IsHeading(b) && EndsInHash(b.text) && forall line :: line in lines ==> Plain(line)
    ensures var final := Flush(Run(s, [HeadingLine(b)] + lines)).blocks; |bs| < |final| ==> final[|bs|] != b
  {
    var line := HeadingLine(b);
    var n := Step(s, line);
    HashesTrimmed(b.text);
    HeadingLineIsTight(b);
    HeadingLineReads(b);
    ReadyFlush(s, bs);
    StepKeeps(s, line);
    assert ([line] + lines)[1..] == lines;
    assert Run(s, [line] + lines) == Run(n, lines);
    hide Run;
    hide Flush;
    hide Inv;
    hide TrimSpace;
    hide TrimEnd;
    hide HeadingOf;
    hide HeadingLine;
    hide Kind;
    hide LevelOf;
    hide IsFence;
    hide IsProse;
    hide Plain;
    hide LastNonEmpty;
    hide IsListLine;
    if HeadingOf(line).Heading? {
      RunExtends(n, lines);
      FlushExtends(Run(n, lines));
      assert n.blocks[|bs|].text != b.text;
    } else {
      assert s.paragraph == [] ==> s.paragraph + [line] == [line];
      assert n == Scan(bs, [line], false);
      RunAdds(n, lines);
    }
  }

  lemma PrintedMore(bs: seq<Section>, k: nat)
    requires k < |bs|
    ensures PrintedLines(bs[..k + 1]) == PrintedLines(bs[..k]) + (Split(Part(bs[k])) + [""])
  {
    assert bs[..k + 1][..k] == bs[..k];
  }

  lemma {:induction false} PrintedPrefix(bs: seq<Section>, k: nat) returns (rest: seq<string>)
    requires k <= |bs|
    ensures PrintedLines(bs) == PrintedLines(bs[..k]) + rest
    decreases |bs| - k
  {
    hide Part;
    hide Split;
    hide PrintedLines;
    if k == |bs| {
      rest := [];
      assert bs[..k] == bs;
    } else {
      var more := PrintedPrefix(bs, k + 1);
      PrintedMore(bs, k);
      rest := Split(Part(bs[k])) + [""] + more;
    }
  }

  lemma GoodPrefix(bs: seq<Section>, k: nat)
    requires GoodDocument(bs) && k < |bs|
    ensures GoodRun(bs[..k])
  {
    hide Good;
    hide Apart;
    hide IsOpen;
  }

  lemma FirstHashEnd(bs: seq<Section>) returns (k: nat)
    requires !NoHashEnds(bs)
    ensures k < |bs| && bs[k].kind in {"h1", "h2", "h3"} && EndsInHash(bs[k].text) && NoHashEnds(bs[..k])
  {
    k := 0;
    while !(bs[k].kind in {"h1", "h2", "h3"} && EndsInHash(bs[k].text))
      invariant k < |bs| && NoHashEnds(bs[..k])
      decreases |bs| - k
    {
      if k + 1 == |bs| { assert NoHashEnds(bs); }
      k := k + 1;
    }
  }

  /** Every block of a good document is one the reader can produce. */
  lemma GoodAt(bs: seq<Section>, k: nat)
    requires GoodDocument(bs) && k < |bs|
    ensures Readable(bs[k])
  {
    hide Good;
    hide IsOpen;
    hide Apart;
    if !GoodRun(bs) && k < |bs| - 1 { assert bs[..|bs| - 1][k] == bs[k]; }
  }

  lemma HeadingAt(bs: seq<Section>, k: nat)
    requires GoodDocument(bs) && k < |bs| && bs[k].kind in {"h1", "h2", "h3"}
    ensures IsHeading(bs[k])
  {
    GoodAt(bs, k);
    hide GoodDocument;
    hide Prose;
    hide Closed;
    hide Open;
  }

  lemma PlainPrinted(bs: seq<Section>)
    requires GoodDocument(bs) && bs != []
    ensures forall line :: line in PrintedLines(bs) ==> Plain(line)
  {
    hide Good;
    hide IsOpen;
    hide Apart;
    hide Part;
    hide Split;
    hide Plain;
    forall b | b in bs ensures Part(b) != "" && '\r' !in Part(b) {
      var i :| 0 <= i < |bs| && bs[i] == b;
      GoodAt(bs, i);
      PartOf(b);
    }
    PrintedSplits(bs);
    SplitPlain(Printed(bs));
  }

  lemma NotReadBack(bs: seq<Section>)
    requires GoodDocument(bs) && !NoHashEnds(bs)
    ensures Blocks(Printed(bs)) != bs
  {
    hide GoodDocument;
    hide GoodRun;
    hide Run;
    hide Inv;
    hide Ready;
    hide Blocks;
    hide Flush;
    hide Printed;
    hide PrintedLines;
    hide Split;
    hide Part;
    hide Plain;
    hide IsHeading;
    var k := FirstHashEnd(bs);
    var b, done := bs[k], PrintedLines(bs[..k]);
    GoodPrefix(bs, k);
    HeadingAt(bs, k);
    ReadRun(bs[..k]);
    PlainPrinted(bs);
    PrintedReads(bs);
    var rest := PrintedPrefix(bs, k + 1);
    NextLines(bs, k, b);
    var lines := [""] + rest;
    assert PrintedLines(bs) == done + ([HeadingLine(b)] + lines);
    hide HeadingLine;
    hide EndsInHash;
    LostFrom(bs[..k], b, done, lines);
  }

  lemma LostFrom(bs: seq<Section>, b: Section, done: seq<string>, lines: seq<string>)
    requires Ready(Run(START, done), bs) && IsHeading(b) && EndsInHash(b.text)
    requires forall line :: line in done + ([HeadingLine(b)] + lines) ==> Plain(line)
    ensures var final := Flush(Run(START, done + ([HeadingLine(b)] + lines))).blocks; |bs| < |final| ==> final[|bs|] != b
  {
    assert Inv(START);
    hide Inv;
    hide Run;
    hide Ready;
    hide Flush;
    hide IsHeading;
    hide HeadingLine;
    hide EndsInHash;
    hide Plain;
    RunJoin(START, done, [HeadingLine(b)] + lines);
    forall line | line in done || line in lines ensures Plain(line) {
      assert line in done + ([HeadingLine(b)] + lines);
    }
    RunKeeps(START, done);
    HashLost(Run(START, done), bs, b, lines);
  }

  lemma NextLines(bs: seq<Section>, k: nat, b: Section)
    requires k < |bs| && bs[k] == b && IsHeading(b)
    ensures PrintedLines(bs[..k + 1]) == PrintedLines(bs[..k]) + [HeadingLine(b)] + [""]
  {
    hide Part;
    hide Split;
    PartOf(b);
    assert bs[..k + 1][..k] == bs[..k];
    assert PrintedLines(bs[..k + 1]) == PrintedLines(bs[..k]) + ([HeadingLine(b)] + [""]);
  }

  /**
   Writing the blocks of any text and reading them again gives the same blocks exactly when none of
   its headings ends in a hash.
   */
  lemma RoundTrip(text: string)
    ensures Blocks(Printed(Blocks(text))) == Blocks(text) <==> NoHashEnds(Blocks(text))
  {
    BlocksAreGood(text);
    hide Blocks;
    hide Printed;
    hide GoodDocument;
    if NoHashEnds(Blocks(text)) { ReadsBack(Blocks(text)); } else { NotReadBack(Blocks(text)); }
    hide NoHashEnds;
  }

  lemma HeadingLineSteps(b: Section, text: string)
    requires IsHeading(b) && text == TrimSpace(TrimEnd(b.text, IsHash)) != ""
    ensures Step(START, HeadingLine(b)) == Scan([Section("", b.kind, text)], [], false)
  {
    hide HeadingLine;
    hide TrimSpace;
    hide TrimEnd;
    hide HeadingOf;
    hide Kind;
    hide LevelOf;
    hide IsFence;
    hide Flush;
    hide Plain;
    HeadingLineIsTight(b);
    HeadingLineReads(b);
    KindOfLevel(b.kind);
    NothingFlushed(START);
    assert [] + [Section("", b.kind, text)] == [Section("", b.kind, text)];
  }

  lemma LineSplits(line: string)
    requires Plain(line)
    ensures Split(Normalize(line)) == [line] && Split(Normalize(line + "\n")) == [line, ""]
  {
    NormalizePlain(line);
    NormalizePlain(line + "\n");
    SplitOne(line);
    SplitEndLine(line);
    hide Split;
    hide Normalize;
  }

  /** A heading's line alone, with or without the line break after it, is one block. */
  lemma LineAlone(b: Section, text: string)
    requires IsHeading(b) && text == TrimSpace(TrimEnd(b.text, IsHash)) != ""
    ensures Blocks(HeadingLine(b)) == Blocks(HeadingLine(b) + "\n") == [Section("", b.kind, text)]
  {
    hide Split;
    hide Normalize;
    hide HeadingLine;
    hide IsHeading;
    hide TrimSpace;
    hide TrimEnd;
    hide Flush;
    hide Step;
    hide IsFence;
    hide IsListItem;
    hide Plain;
    var line, s := HeadingLine(b), Scan([Section("", b.kind, text)], [], false);
    HeadingLineIsTight(b);
    LineSplits(line);
    HeadingLineSteps(b, text);
    NothingFlushed(s);
    EmptyLine(s);
    RunMore(START, [], line);
    RunMore(START, [line], "");
    assert [] + [line] == [line] && [line] + [""] == [line, ""];
  }

  lemma TrimmedHashes()
    ensures TrimSpace(TrimEnd("a # #", IsHash)) == "a #" && TrimSpace(TrimEnd("a #", IsHash)) == "a"
  {
    assert "a # #"[..4] == "a # " && "a # "[..3] == "a #" && "a #"[..2] == "a " && "a "[..1] == "a";
    assert TrimEnd("a # #", IsHash) == "a # " && TrimEnd("a #", IsHash) == "a ";
    assert TrimStart("a # ", IsSpace) == "a # " && TrimStart("a ", IsSpace) == "a ";
    assert TrimEnd("a #", IsSpace) == "a #" && TrimEnd("a", IsSpace) == "a";
  }

  lemma HashHeading(text: string)
    requires text != "" && Plain(text) && !IsSpace(text[0]) && !IsSpace(text[|text| - 1])
    ensures var b := Section("", "h1", text); IsHeading(b) && HeadingLine(b) == "# " + text
  {
    TrimTight(text, IsSpace);
    assert Repeat('#', 1) == "#" by { assert Repeat('#', 0) == ""; }
    hide TrimSpace;
    hide Repeat;
    hide IsSpace;
    hide Plain;
  }

  lemma PrintedOne(b: Section)
    requires IsHeading(b)
    ensures Printed([b]) == HeadingLine(b) + "\n"
  {
    PartOf(b);
    hide Part;
    hide IsHeading;
    hide HeadingLine;
    assert [b][..0] == [];
    assert Parts([b]) == [Part(b)] by { assert [] + [Part(b)] == [Part(b)]; }
    JoinOne(Part(b));
  }

  lemma HashHeadings()
    ensures IsHeading(Section("", "h1", "a # #")) && HeadingLine(Section("", "h1", "a # #")) == "# a # #"
    ensures IsHeading(Section("", "h1", "a #")) && EndsInHash("a #")
  {
    HashHeading("a # #");
    HashHeading("a #");
    hide IsHeading;
    hide HeadingLine;
    assert "# " + "a # #" == "# a # #";
  }

  /** A document whose heading loses a hash each time it is written and read. */
  lemma HashHeadingShrinks()
    ensures var bs := Blocks("# a # #");
            bs == [Section("", "h1", "a #")] && !NoHashEnds(bs) && Blocks(Printed(bs)) == [Section("", "h1", "a")]
  {
    hide Blocks;
    hide IsHeading;
    hide HeadingLine;
    hide TrimSpace;
    hide TrimEnd;
    hide Printed;
    hide EndsInHash;
    TrimmedHashes();
    HashHeadings();
    LineAlone(Section("", "h1", "a # #"), "a #");
    LineAlone(Section("", "h1", "a #"), "a");
    PrintedOne(Section("", "h1", "a #"));
    assert EndsInHash([Section("", "h1", "a #")][0].text);
  }
}
