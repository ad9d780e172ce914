/** Saving a canvas through markdown: read, give app sections their kinds back, and merge. */
module CanvasResaving {
  import opened CanvasMerge
  import opened CanvasIdentity
  import opened CanvasMarkdown
  import opened MarkdownRoundTrip
  import opened MarkdownReading
  import opened Whitespace
  import opened TextLines

  /** The kind of the last app section with each text. */
  function AppKinds(sections: seq<Section>): map<string, string> {
    if sections == [] then map[]
    else
      var last := sections[|sections| - 1];
      var kinds := AppKinds(sections[..|sections| - 1]);
      if Spellable(last.kind) then kinds else kinds[last.text := last.kind]
  }

  function KindRestored(kinds: map<string, string>, section: Section): Section {
    if section.kind == PROSE && section.text in kinds then section.(kind := kinds[section.text]) else section
  }

  function Restored(kinds: map<string, string>, next: seq<Section>): seq<Section> {
    seq(|next|, i requires 0 <= i < |next| => KindRestored(kinds, next[i]))
  }

  /** Prose whose text is an app section's takes that section's kind. */
  method RestoreKinds(current: seq<Section>, next: seq<Section>) returns (r: seq<Section>)
    ensures r == Restored(AppKinds(current), next)
  {
    var kinds: map<string, string> := map[];
    for i := 0 to |current|
      invariant kinds == AppKinds(current[..i])
    {
      assert current[..i + 1][..i] == current[..i];
      if !Spellable(current[i].kind) { kinds := kinds[current[i].text := current[i].kind]; }
    }
    assert current[..|current|] == current;
    r := next;
    for i := 0 to |next|
      invariant |r| == |next| && r[..i] == Restored(kinds, next)[..i] && r[i..] == next[i..]
    {
      assert r[i] == next[i];
      r := r[i := KindRestored(kinds, next[i])];
    }
  }

  /** The canvas came from these blocks: IDs aside it has them, apps having taken some of the prose for their own. */
  ghost predicate Stems(current: seq<Section>, blocks: seq<Section>) {
    && |current| == |blocks|
    && forall i :: 0 <= i < |current| ==>
         current[i].text == blocks[i].text && (current[i].kind == blocks[i].kind || (blocks[i].kind == PROSE && !Spellable(current[i].kind)))
  }

  /** a is an app's, and b, with its text, is prose or an app's. */
  predicate SharesText(a: Section, b: Section) {
    !Spellable(a.kind) && a.text == b.text && (b.kind == PROSE || !Spellable(b.kind))
  }

  /** No app section's text stands as well in prose or under another app's kind. */
  ghost predicate OneKindEach(current: seq<Section>) {
    forall i, j :: 0 <= i < |current| && 0 <= j < |current| && SharesText(current[i], current[j]) ==> current[i].kind == current[j].kind
  }

  lemma {:induction false} AppKindsHold(s: seq<Section>, text: string)
    ensures text in AppKinds(s) <==> exists i :: 0 <= i < |s| && !Spellable(s[i].kind) && s[i].text == text
    ensures text in AppKinds(s) ==> exists i :: 0 <= i < |s| && !Spellable(s[i].kind) && s[i].text == text && s[i].kind == AppKinds(s)[text]
  {
    if s != [] {
      var front, last := s[..|s| - 1], |s| - 1;
      AppKindsHold(front, text);
      if text in AppKinds(front) {
        var i :| 0 <= i < |front| && !Spellable(front[i].kind) && front[i].text == text && front[i].kind == AppKinds(front)[text];
        assert s[i] == front[i];
      }
      if i :| 0 <= i < |s| && !Spellable(s[i].kind) && s[i].text == text && i < last { assert front[i] == s[i]; }
      assert !Spellable(s[last].kind) && s[last].text == text ==> text in AppKinds(s) && AppKinds(s)[text] == s[last].kind;
    }
  }

  /** Section i is the last app section with that text. */
  ghost predicate LastApp(s: seq<Section>, text: string, i: nat) {
    && i < |s| && !Spellable(s[i].kind) && s[i].text == text
    && forall j :: i < j < |s| && !Spellable(s[j].kind) ==> s[j].text != text
  }

  lemma LastAppStep(s: seq<Section>, text: string, i: nat)
    requires i + 1 < |s|
    ensures LastApp(s, text, i) <==> LastApp(s[..|s| - 1], text, i) && !LastApp(s, text, |s| - 1)
  {
    var front := s[..|s| - 1];
    if LastApp(front, text, i) && !LastApp(s, text, |s| - 1) {
      forall j | i < j < |s| && !Spellable(s[j].kind) ensures s[j].text != text { assert j < |front| ==> front[j] == s[j]; }
    }
    if LastApp(s, text, i) {
      forall j | i < j < |front| && !Spellable(front[j].kind) ensures front[j].text != text { assert front[j] == s[j]; }
    }
  }

  lemma {:induction false} LastAppDecides(s: seq<Section>, text: string)
    ensures text in AppKinds(s) <==> exists i: nat :: LastApp(s, text, i)
    ensures forall i: nat :: LastApp(s, text, i) ==> text in AppKinds(s) && AppKinds(s)[text] == s[i].kind
  {
    if s != [] {
      var front, last := s[..|s| - 1], |s| - 1;
      LastAppDecides(front, text);
      forall i: nat | i < last ensures LastApp(s, text, i) <==> LastApp(front, text, i) && !LastApp(s, text, last) {
        LastAppStep(s, text, i);
      }
      assert LastApp(s, text, last) <==> !Spellable(s[last].kind) && s[last].text == text;
      assert forall i: nat :: LastApp(s, text, i) ==> i <= last;
      assert forall i: nat :: LastApp(front, text, i) ==> i < last && front[i] == s[i];
      hide LastApp;
    }
  }

  /** Of several app sections with a prose section's text the last gives it its kind; any other section stays as it was. */
  lemma RestoredExactly(current: seq<Section>, next: seq<Section>, k: nat)
    requires k < |next|
    ensures |Restored(AppKinds(current), next)| == |next|
    ensures var r := Restored(AppKinds(current), next)[k];
            if next[k].kind == PROSE && exists i: nat :: LastApp(current, next[k].text, i)
            then exists i: nat :: LastApp(current, next[k].text, i) && r == next[k].(kind := current[i].kind)
            else r == next[k]
  {
    LastAppDecides(current, next[k].text);
    hide AppKinds;
    hide LastApp;
  }

  lemma {:induction false} PartsStem(current: seq<Section>, blocks: seq<Section>)
    requires Stems(current, blocks)
    ensures Parts(current) == Parts(blocks)
  {
    if current != [] {
      var i := |current| - 1;
      PartsStem(current[..i], blocks[..i]);
      assert Part(current[i]) == Part(blocks[i]);
    }
    hide Part;
  }

  /** Restoring the kinds of the blocks a canvas stems from gives back its own exactly when each app text has one kind. */
  lemma RestoredIsSame(current: seq<Section>, blocks: seq<Section>)
    requires Stems(current, blocks) && forall i :: 0 <= i < |blocks| ==> Spellable(blocks[i].kind)
    ensures SameThroughout(current, Restored(AppKinds(current), blocks)) <==> OneKindEach(current)
  {
    var kinds := AppKinds(current);
    var r := Restored(kinds, blocks);
    hide AppKinds;
    if OneKindEach(current) {
      forall k | 0 <= k < |current| ensures Same(current[k], r[k]) { AppKindsHold(current, current[k].text); }
    } else {
      var i, j :| 0 <= i < |current| && 0 <= j < |current| && SharesText(current[i], current[j]) && current[i].kind != current[j].kind;
      AppKindsHold(current, current[i].text);
      assert r[i].kind == kinds[current[i].text] == r[j].kind;
      assert !Same(current[i], r[i]) || !Same(current[j], r[j]);
    }
  }

  /** Blocks that restore to the canvas are the ones it stems from: a heading's kind is never an app's. */
  lemma RestoredFrom(current: seq<Section>, blocks: seq<Section>, again: seq<Section>)
    requires Stems(current, blocks) && SameThroughout(current, Restored(AppKinds(current), again))
    requires forall i :: 0 <= i < |again| ==> again[i].id == "" && Spellable(again[i].kind)
    requires forall i :: 0 <= i < |blocks| ==> blocks[i].id == "" && Spellable(blocks[i].kind)
    ensures again == blocks
  {
    var kinds := AppKinds(current);
    hide AppKinds;
    forall k | 0 <= k < |again| ensures again[k] == blocks[k] {
      assert Same(current[k], KindRestored(kinds, again[k]));
      if again[k].kind == PROSE && again[k].text in kinds { AppKindsHold(current, again[k].text); }
    }
  }

  /**
   A stored canvas that came from markdown, whatever IDs its sections got and whichever of them apps took
   over, is left unchanged by writing it out, reading that, restoring app kinds and merging, exactly when
   no heading ends in a hash and each app section's text has one kind.
   */
  lemma ResavingChangesNothing(text: string, current: seq<Section>)
    requires Stems(current, Blocks(text))
    ensures Merge(current, Restored(AppKinds(current), Blocks(Printed(current)))).1 == 0
       <==> NoHashEnds(Blocks(text)) && OneKindEach(current)
  {
    hide Blocks;
    hide Merge;
    hide NoHashEnds;
    hide OneKindEach;
    hide Restored;
    hide AppKinds;
    hide Parts;
    var bs := Blocks(text);
    PartsStem(current, bs);
    assert Printed(current) == Printed(bs);
    var again := Blocks(Printed(bs));
    RoundTrip(text);
    UnchangedIffSame(current, Restored(AppKinds(current), again));
    BlocksArePlain(text);
    RestoredIsSame(current, bs);
    BlocksArePlain(Printed(bs));
    if SameThroughout(current, Restored(AppKinds(current), again)) { RestoredFrom(current, bs, again); }
  }

  /** Blocks have no IDs, and kinds markdown can spell. */
  lemma BlocksArePlain(text: string)
    ensures forall i :: 0 <= i < |Blocks(text)| ==> Blocks(text)[i].id == "" && Spellable(Blocks(text)[i].kind)
  {
    hide Blocks;
    hide GoodDocument;
    hide Readable;
    BlocksAreGood(text);
    forall i | 0 <= i < |Blocks(text)| ensures Blocks(text)[i].id == "" && Spellable(Blocks(text)[i].kind) {
      GoodAt(Blocks(text), i);
      ReadableIsPlain(Blocks(text)[i]);
    }
  }

  lemma ReadableIsPlain(b: Section)
    requires Readable(b)
    ensures b.id == "" && Spellable(b.kind)
  {}

  /** Some text is read as a section of that kind. */
  ghost predicate IsRead(kind: string) {
    exists text, i: nat :: i < |Blocks(text)| && Blocks(text)[i].kind == kind
  }

  lemma FirstIsRead(text: string, kind: string)
    requires Blocks(text) != [] && Blocks(text)[0].kind == kind
    ensures IsRead(kind)
  {
  }

  /** The kinds that are no app's are those that some text is read as, and no kind at all. */
  lemma SpellableIs(kind: string)
    ensures Spellable(kind) <==> kind == "" || IsRead(kind)
  {
    hide Blocks;
    hide IsRead;
    if IsRead(kind) { ReadIsSpellable(kind); }
    LetterReads();
    FirstIsRead("a" + "\n", PROSE);
    FirstIsRead(Repeat('#', 1) + " " + "a" + "\n", "h1");
    FirstIsRead(Repeat('#', 2) + " " + "a" + "\n", "h2");
    FirstIsRead(Repeat('#', 3) + " " + "a" + "\n", "h3");
    hide Repeat;
  }

  lemma ReadIsSpellable(kind: string)
    requires IsRead(kind)
    ensures Spellable(kind)
  {
    hide Blocks;
    var text, i: nat :| i < |Blocks(text)| && Blocks(text)[i].kind == kind;
    BlocksArePlain(text);
    hide Spellable;
  }

  lemma LetterReads()
    ensures Blocks("a" + "\n") == [Section("", "markdown", "a")]
    ensures forall n {:trigger Repeat('#', n)} :: 1 <= n <= 3 ==> Blocks(Repeat('#', n) + " " + "a" + "\n") == [Section("", ["h1", "h2", "h3"][n - 1], "a")]
  {
    hide Blocks;
    hide Repeat;
    assert !IsSpace('a') && Plain("a") && TextLine("a");
    OneParagraph("a");
    hide TextLine;
    hide IsSpace;
    hide Plain;
    forall n | 1 <= n <= 3 ensures Blocks(Repeat('#', n) + " " + "a" + "\n") == [Section("", ["h1", "h2", "h3"][n - 1], "a")] {
      OneHeading(n, "a");
    }
  }
}
