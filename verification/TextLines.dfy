/** Cutting text into lines, joining it and trimming it. */
module TextLines {
  import opened Whitespace

  predicate IsNewline(c: char) { c == '\n' }

  predicate IsHash(c: char) { c == '#' }

  function TrimStart(s: string, cut: char -> bool): (r: string)
    ensures |r| <= |s| && (r != "" ==> !cut(r[0]))
  {
    if s != "" && cut(s[0]) then TrimStart(s[1..], cut) else s
  }

  function TrimEnd(s: string, cut: char -> bool): (r: string)
    ensures r <= s && (r != "" ==> !cut(r[|r| - 1]))
  {
    if s != "" && cut(s[|s| - 1]) then TrimEnd(s[..|s| - 1], cut) else s
  }

  function Trim(s: string, cut: char -> bool): string {
    TrimEnd(TrimStart(s, cut), cut)
  }

  function TrimSpace(s: string): string {
    Trim(s, IsSpace)
  }

  /** Nothing to trim at either end. */
  ghost predicate Tight(s: string, cut: char -> bool) {
    s != "" ==> !cut(s[0]) && !cut(s[|s| - 1])
  }

  lemma TrimTight(s: string, cut: char -> bool)
    ensures Tight(Trim(s, cut), cut) && (Tight(s, cut) ==> Trim(s, cut) == s)
  {
    var t := TrimStart(s, cut);
    assert TrimEnd(t, cut) <= t;
  }

  lemma {:induction false} TrimStartBlank(s: string)
    ensures TrimStart(s, IsSpace) == "" <==> Blank(s)
  {
    if s != "" && IsSpace(s[0]) {
      TrimStartBlank(s[1..]);
      assert Blank(s) <==> Blank(s[1..]) by { assert s == [s[0]] + s[1..]; }
    }
  }

  lemma {:induction false} TrimEndStarts(s: string, cut: char -> bool)
    requires s != "" && !cut(s[0])
    ensures TrimEnd(s, cut) != "" && TrimEnd(s, cut)[0] == s[0]
  {
    if cut(s[|s| - 1]) { TrimEndStarts(s[..|s| - 1], cut); }
  }

  /** Trimming leaves nothing exactly of text that is all space. */
  lemma TrimSpaceBlank(s: string)
    ensures TrimSpace(s) == "" <==> Blank(s)
  {
    TrimStartBlank(s);
    if !Blank(s) { TrimEndStarts(TrimStart(s, IsSpace), IsSpace); }
  }

  /** Trimming takes from both ends only. */
  lemma {:induction false} TrimStartCuts(s: string, cut: char -> bool)
    ensures var r := TrimStart(s, cut); s == s[..|s| - |r|] + r
  {
    if s != "" && cut(s[0]) {
      TrimStartCuts(s[1..], cut);
      var r := TrimStart(s[1..], cut);
      assert s == [s[0]] + s[1..];
    }
  }

  lemma TrimKeepsChars(s: string, cut: char -> bool)
    ensures forall c :: c in Trim(s, cut) ==> c in s
  {
    TrimStartCuts(s, cut);
  }

  // ----- lines -----

  /** A line of its own: no line break in it. */
  predicate Plain(line: string) {
    '\n' !in line && '\r' !in line
  }

  function Split(s: string): (r: seq<string>)
    ensures |r| >= 1
  {
    if s == "" then [""]
    else if s[0] == '\n' then [""] + Split(s[1..])
    else
      var rest := Split(s[1..]);
      [[s[0]] + rest[0]] + rest[1..]
  }

  function Join(parts: seq<string>, separator: string): string {
    if parts == [] then ""
    else if |parts| == 1 then parts[0]
    else parts[0] + separator + Join(parts[1..], separator)
  }

  lemma {:induction false} JoinSplit(s: string)
    ensures Join(Split(s), "\n") == s
  {
    if s != "" {
      var rest := Split(s[1..]);
      JoinSplit(s[1..]);
      assert s == [s[0]] + s[1..];
      if s[0] == '\n' {
        assert Split(s) == [""] + rest && ([""] + rest)[1..] == rest;
      } else {
        var lines := [[s[0]] + rest[0]] + rest[1..];
        assert Split(s) == lines && lines[1..] == rest[1..];
        assert Join(lines, "\n") == [s[0]] + Join(rest, "\n");
      }
    }
  }

  lemma {:induction false} SplitPlain(s: string)
    requires '\r' !in s
    ensures forall line :: line in Split(s) ==> Plain(line)
  {
    if s != "" {
      assert s == [s[0]] + s[1..];
      SplitPlain(s[1..]);
      var rest := Split(s[1..]);
      assert rest[0] in rest;
      forall line | line in Split(s) ensures Plain(line) {
        assert line == "" || line == [s[0]] + rest[0] || line in rest;
      }
    }
  }

  lemma {:induction false} SplitOne(line: string)
    requires '\n' !in line
    ensures Split(line) == [line]
  {
    if line != "" {
      assert line == [line[0]] + line[1..];
      SplitOne(line[1..]);
    }
  }

  /** Lines with one more character before them. */
  function Grown(c: char, lines: seq<string>): seq<string>
    requires lines != []
  {
    if c == '\n' then [""] + lines else [[c] + lines[0]] + lines[1..]
  }

  lemma SplitFirst(s: string)
    requires s != ""
    ensures Split(s) == Grown(s[0], Split(s[1..]))
  {}

  lemma GrowFirst(c: char, x: seq<string>, y: seq<string>)
    requires x != []
    ensures Grown(c, x + y) == Grown(c, x) + y
  {
    assert (x + y)[0] == x[0] && (x + y)[1..] == x[1..] + y;
  }

  lemma {:induction false} SplitBreak(a: string, b: string)
    ensures Split(a + "\n" + b) == Split(a) + Split(b)
  {
    if a == "" {
      assert a + "\n" + b == "\n" + b && ("\n" + b)[1..] == b;
    } else {
      assert (a + "\n" + b)[1..] == a[1..] + "\n" + b && (a + "\n" + b)[0] == a[0];
      SplitBreak(a[1..], b);
      SplitFirst(a);
      SplitFirst(a + "\n" + b);
      GrowFirst(a[0], Split(a[1..]), Split(b));
      hide Split;
      hide Grown;
    }
  }

  lemma {:induction false} SplitJoin(lines: seq<string>)
    requires lines != [] && forall line :: line in lines ==> Plain(line)
    ensures Split(Join(lines, "\n")) == lines
  {
    assert lines[0] in lines;
    if |lines| == 1 {
      SplitOne(lines[0]);
    } else {
      SplitJoin(lines[1..]);
      SplitBreak(lines[0], Join(lines[1..], "\n"));
      SplitOne(lines[0]);
      assert lines == [lines[0]] + lines[1..];
    }
  }

  /** Lines whose first and last are not empty join to text with no line break to trim. */
  lemma {:induction false} JoinEnds(lines: seq<string>)
    requires lines != [] && lines[0] != "" && lines[|lines| - 1] != ""
    ensures var s, last := Join(lines, "\n"), lines[|lines| - 1];
            s != "" && s[0] == lines[0][0] && s[|s| - 1] == last[|last| - 1]
  {
    if |lines| > 1 {
      JoinTail(lines);
    }
  }

  lemma {:induction false} JoinTail(lines: seq<string>)
    requires lines != [] && lines[|lines| - 1] != ""
    ensures var s, last := Join(lines, "\n"), lines[|lines| - 1]; s != "" && s[|s| - 1] == last[|last| - 1]
  {
    if |lines| > 1 { JoinTail(lines[1..]); }
  }

  /** An empty line at the end adds a line break. */
  lemma {:induction false} JoinEmptyLast(lines: seq<string>)
    requires lines != []
    ensures Join(lines + [""], "\n") == Join(lines, "\n") + "\n"
  {
    if |lines| == 1 {
      assert (lines + [""])[1..] == [""];
    } else {
      assert (lines + [""])[1..] == lines[1..] + [""];
      JoinEmptyLast(lines[1..]);
    }
  }

  /** Joined lines hold the lines' characters, and breaks. */
  lemma {:induction false} JoinPlain(lines: seq<string>)
    requires forall line :: line in lines ==> Plain(line)
    ensures '\r' !in Join(lines, "\n")
  {
    if |lines| == 1 {
      assert lines[0] in lines;
    } else if |lines| > 1 {
      assert lines[0] in lines;
      JoinPlain(lines[1..]);
    }
  }

  // ----- line endings -----

  /** Every carriage return followed by a line feed becomes a line feed. */
  function JoinReturns(s: string): string {
    if s == "" then ""
    else if |s| >= 2 && s[0] == '\r' && s[1] == '\n' then "\n" + JoinReturns(s[2..])
    else [s[0]] + JoinReturns(s[1..])
  }

  function ReplaceReturns(s: string): string {
    if s == "" then "" else [if s[0] == '\r' then '\n' else s[0]] + ReplaceReturns(s[1..])
  }

  function Normalize(s: string): string {
    ReplaceReturns(JoinReturns(s))
  }

  lemma {:induction false} ReplacedReturns(s: string)
    ensures '\r' !in ReplaceReturns(s) && ('\r' !in s ==> ReplaceReturns(s) == s)
  {
    if s != "" {
      assert s == [s[0]] + s[1..];
      ReplacedReturns(s[1..]);
    }
  }

  lemma {:induction false} NoReturns(s: string)
    requires '\r' !in s
    ensures JoinReturns(s) == s
  {
    if s != "" {
      assert s == [s[0]] + s[1..];
      NoReturns(s[1..]);
    }
  }

  lemma NormalizePlain(s: string)
    ensures '\r' !in Normalize(s) && ('\r' !in s ==> Normalize(s) == s)
  {
    ReplacedReturns(JoinReturns(s));
    if '\r' !in s { NoReturns(s); }
  }
}
