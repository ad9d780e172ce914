/** Local edits: positions of the visible text become ops, and the text changes as a splice would change it. */
module LocalEdits {
  import opened Identifiers
  import opened Operations
  import opened Replica
  import opened Snapshots
  import opened Reloading

  datatype Edited = Edited(state: State, ops: seq<Op>, ok: bool)

  /** With position characters to be read before it, an insert is tied to the last of them; with none, to the start. */
  ghost function VisibleBefore(cells: seq<Cell>, position: nat): ID
    requires position <= |Visible(cells)|
  {
    if position == 0 then ROOT else Visible(cells)[position - 1].id
  }

  /** The names of the visible characters from position on, length of them. */
  ghost function VisibleIds(cells: seq<Cell>, position: nat, length: nat): (ids: seq<ID>)
    requires position + length <= |Visible(cells)|
    ensures |ids| == length
  {
    seq(length, i requires 0 <= i < length => Visible(cells)[position + i].id)
  }

  /** One more name: it lengthens the last run if it goes on from it, and starts a new one if not. */
  function WithName(spans: seq<Span>, x: ID): (r: seq<Span>)
    ensures |spans| <= |r| <= |spans| + 1 && r != []
  {
    var last := |spans| - 1;
    if last >= 0 && spans[last].replica == x.replica && spans[last].end + 1 == x.clock
      then spans[last := spans[last].(end := x.clock)]
      else spans + [Span(x.replica, x.clock, x.clock)]
  }

  /** Names one after the other, gathered into runs of one writer's consecutive clocks. */
  ghost function Spans(ids: seq<ID>): (r: seq<Span>)
    ensures r == [] <==> ids == []
  {
    if ids == [] then [] else WithName(Spans(ids[..|ids| - 1]), ids[|ids| - 1])
  }

  ghost function Insert(s: State, replica: string, position: int, text: string): Edited {
    if !ValidReplica(replica) || position < 0 || position > |Text(s.cells)| || text == "" then Edited(s, [], false) else
      var op := Op(ID(replica, Clock(s.cells) + 1), VisibleBefore(s.cells, position), text, []);
      var r := Apply(s, op);
      Edited(r.state, if r.ok then [op] else [], r.ok)
  }

  ghost function Remove(s: State, position: int, length: int): Edited {
    if position < 0 || length <= 0 || position + length > |Text(s.cells)| then Edited(s, [], false) else
      var op := Op(ROOT, ROOT, "", Spans(VisibleIds(s.cells, position, length)));
      var r := Apply(s, op);
      Edited(r.state, if r.ok then [op] else [], r.ok)
  }

  /** How far two texts agree from their beginnings, counting from k on. */
  ghost function CommonPrefix(a: string, b: string, k: nat): (p: nat)
    requires k <= |a| && k <= |b|
    ensures k <= p <= |a| && p <= |b| && (p < |a| && p < |b| ==> a[p] != b[p])
    decreases |a| - k
  {
    if k < |a| && k < |b| && a[k] == b[k] then CommonPrefix(a, b, k + 1) else k
  }

  /** How far two texts agree from their ends, past their first p characters, counting from k on. */
  ghost function CommonSuffix(a: string, b: string, p: nat, k: nat): (q: nat)
    requires p + k <= |a| && p + k <= |b|
    ensures k <= q && p + q <= |a| && p + q <= |b|
    ensures p + q < |a| && p + q < |b| ==> a[|a| - 1 - q] != b[|b| - 1 - q]
    decreases |a| - k
  {
    if p + k < |a| && p + k < |b| && a[|a| - 1 - k] == b[|b| - 1 - k] then CommonSuffix(a, b, p, k + 1) else k
  }

  lemma {:induction false} CommonPrefixAgrees(a: string, b: string, k: nat)
    requires k <= |a| && k <= |b| && a[..k] == b[..k]
    ensures var p := CommonPrefix(a, b, k); a[..p] == b[..p]
    decreases |a| - k
  {
    if k < |a| && k < |b| && a[k] == b[k] {
      assert a[..k + 1] == a[..k] + [a[k]] && b[..k + 1] == b[..k] + [b[k]];
      CommonPrefixAgrees(a, b, k + 1);
    }
  }

  /** The last q characters of two texts are the same. */
  ghost predicate SharesEnd(a: string, b: string, q: nat) {
    q <= |a| && q <= |b| && a[|a| - q..] == b[|b| - q..]
  }

  lemma SharesOneMore(a: string, b: string, k: nat)
    requires SharesEnd(a, b, k) && k < |a| && k < |b| && a[|a| - 1 - k] == b[|b| - 1 - k]
    ensures SharesEnd(a, b, k + 1)
  {
    assert a[|a| - (k + 1)..] == [a[|a| - 1 - k]] + a[|a| - k..];
    assert b[|b| - (k + 1)..] == [b[|b| - 1 - k]] + b[|b| - k..];
  }

  lemma {:induction false} CommonSuffixAgrees(a: string, b: string, p: nat, k: nat)
    requires p + k <= |a| && p + k <= |b| && SharesEnd(a, b, k)
    ensures SharesEnd(a, b, CommonSuffix(a, b, p, k))
    decreases |a| - k
  {
    hide SharesEnd;
    if p + k < |a| && p + k < |b| && a[|a| - 1 - k] == b[|b| - 1 - k] {
      SharesOneMore(a, b, k);
      CommonSuffixAgrees(a, b, p, k + 1);
    }
  }

  lemma SuffixAgrees(a: string, b: string, p: nat)
    requires p <= |a| && p <= |b|
    ensures SharesEnd(a, b, CommonSuffix(a, b, p, 0))
  {
    assert a[|a| - 0..] == "" && b[|b| - 0..] == "";
    CommonSuffixAgrees(a, b, p, 0);
  }

  /** How much of its beginning and of its end a text keeps when another replaces it. */
  ghost function KeptPrefix(current: string, text: string): (p: nat)
    ensures p <= |current| && p <= |text| && current[..p] == text[..p]
  {
    CommonPrefixAgrees(current, text, 0);
    CommonPrefix(current, text, 0)
  }

  ghost function KeptSuffix(current: string, text: string): (q: nat)
    ensures KeptPrefix(current, text) + q <= |current| && KeptPrefix(current, text) + q <= |text|
    ensures SharesEnd(current, text, q)
  {
    hide CommonSuffix;
    hide SharesEnd;
    hide KeptPrefix;
    var p := KeptPrefix(current, text);
    SuffixAgrees(current, text, p);
    CommonSuffix(current, text, p, 0)
  }

  /** Replace the text by editing only between its common beginning and end with the new one. */
  ghost function Replace(s: State, replica: string, text: string): Edited {
    var current := Text(s.cells);
    var p, q := KeptPrefix(current, text), KeptSuffix(current, text);
    var removed, inserted := |current| - p - q, text[p..|text| - q];
    var first := if removed > 0 then Remove(s, p, removed) else Edited(s, [], true);
    if !first.ok || inserted == "" then first else
      var second := Insert(first.state, replica, p, inserted);
      Edited(second.state, if second.ok then first.ops + second.ops else [], second.ok)
  }

  // ----- visible text -----

  lemma VisibleNothing()
    ensures Visible([]) == []
  {
  }

  lemma VisibleMore(c: Cell, rest: seq<Cell>)
    ensures Visible([c] + rest) == if c.deleted then Visible(rest) else [c] + Visible(rest)
  {
    assert ([c] + rest)[1..] == rest;
  }

  lemma {:induction false} VisibleOfJoin(a: seq<Cell>, b: seq<Cell>)
    ensures Visible(a + b) == Visible(a) + Visible(b)
  {
    hide Visible;
    if a == [] {
      VisibleNothing();
      assert a + b == b;
    } else {
      var c, rest := a[0], a[1..];
      assert a == [c] + rest && a + b == [c] + (rest + b);
      VisibleOfJoin(rest, b);
      VisibleMore(c, rest);
      VisibleMore(c, rest + b);
      assert [c] + (Visible(rest) + Visible(b)) == [c] + Visible(rest) + Visible(b);
    }
  }

  lemma VisibleJoin(a: seq<Cell>, b: seq<Cell>)
    ensures Visible(a + b) == Visible(a) + Visible(b) && Text(a + b) == Text(a) + Text(b)
  {
    VisibleOfJoin(a, b);
    hide Visible;
  }

  lemma VisibleEnds(cells: seq<Cell>)
    ensures Visible(cells[..0]) == [] && cells[0..] == cells && (Visible(cells) != [] ==> cells != [])
  {
  }

  lemma FirstOf(c: Cell, rest: seq<Cell>, k: nat)
    requires k <= |rest|
    ensures ([c] + rest)[..k + 1] == [c] + rest[..k] && ([c] + rest)[k + 1..] == rest[k..]
    ensures k > 0 ==> ([c] + rest)[k] == rest[k - 1]
  {
  }

  /** A place in the list that has just the first n visible characters, the last of them last, before it. */
  lemma {:induction false} VisibleSplit(cells: seq<Cell>, n: nat) returns (i: nat)
    requires n <= |Visible(cells)|
    ensures i <= |cells| && Visible(cells[..i]) == Visible(cells)[..n] && Visible(cells[i..]) == Visible(cells)[n..]
    ensures if n == 0 then i == 0 else i > 0 && !cells[i - 1].deleted && cells[i - 1] == Visible(cells)[n - 1]
  {
    hide Visible;
    VisibleEnds(cells);
    if n == 0 {
      i := 0;
    } else {
      var c, rest := cells[0], cells[1..];
      assert cells == [c] + rest;
      VisibleMore(c, rest);
      var v, m := Visible(rest), if c.deleted then n else n - 1;
      assert c.deleted || (([c] + v)[..n] == [c] + v[..m] && ([c] + v)[n..] == v[m..]);
      var k := VisibleSplit(rest, m);
      i := k + 1;
      FirstOf(c, rest, k);
      VisibleMore(c, rest[..k]);
    }
  }

  // ----- inserting -----

  /** The cells an insert of characters never seen makes, from its j-th on. */
  ghost function Fresh(op: Op, j: nat): (r: seq<Cell>)
    requires j <= |op.text|
    ensures |r| == |op.text| - j
  {
    seq(|op.text| - j, k requires 0 <= k < |op.text| - j => Cell(op.CharId(j + k), op.text[j + k], false))
  }

  /** Characters newer than everything go in unparted, right after their anchor. */
  lemma OneThenMore(cells: seq<Cell>, from: nat, c: Cell, more: seq<Cell>)
    requires from <= |cells|
    ensures var r := InsertAt(cells, from, c);
            r[..from + 1] + more + r[from + 1..] == cells[..from] + ([c] + more) + cells[from..]
  {
    var r := InsertAt(cells, from, c);
    assert r[..from + 1] == cells[..from] + [c] && r[from + 1..] == cells[from..];
  }

  lemma {:induction false} NewestGoFirst(cells: seq<Cell>, op: Op, j: nat, from: nat)
    requires j <= |op.text| && from <= |cells|
    requires forall i :: 0 <= i < |cells| ==> cells[i].id.clock < op.id.clock + j
    ensures InsertText(cells, op, j, from).0 == cells[..from] + Fresh(op, j) + cells[from..]
    decreases |op.text| - j
  {
    if j < |op.text| {
      var c := Cell(op.CharId(j), op.text[j], false);
      var r := InsertAt(cells, from, c);
      assert !Has(cells, c.id) && Slot(cells, from, c.id) == from;
      NewestGoFirst(r, op, j + 1, from + 1);
      assert Fresh(op, j) == [c] + Fresh(op, j + 1);
      OneThenMore(cells, from, c, Fresh(op, j + 1));
    } else {
      assert Fresh(op, j) == [];
      assert cells == cells[..from] + [] + cells[from..];
    }
  }

  /** held waits for some character that is neither here nor one that minted brings. */
  ghost predicate StillWaits(cells: seq<Cell>, held: Op, minted: Op) {
    if held.text != "" then held.after != ROOT && !Has(cells, held.after) && !minted.Inserts(held.after)
    else exists x :: held.Deletes(x) && !Has(cells, x) && !minted.Inserts(x)
  }

  lemma {:induction false} RoundIdle(p: Pass, waiting: seq<Op>)
    requires p.ok && forall i :: 0 <= i < |waiting| ==> Blocked(p.cells, waiting[i])
    ensures Round(p, waiting) == p.(kept := p.kept + waiting)
    decreases |waiting|
  {
    if waiting != [] {
      RoundIdle(p.(kept := p.kept + [waiting[0]]), waiting[1..]);
      assert p.kept + waiting == p.kept + [waiting[0]] + waiting[1..];
    } else {
      assert p.kept + waiting == p.kept;
    }
  }

  lemma DrainIdle(s: State, changed: bool)
    requires forall i :: 0 <= i < |s.pending| ==> Blocked(s.cells, s.pending[i])
    ensures Drain(s, changed) == Applied(s, changed, true)
  {
    if s.pending != [] {
      RoundIdle(Pass(s.cells, [], false, changed, true), s.pending);
      assert [] + s.pending == s.pending;
    }
  }

  lemma HasInParts(cells: seq<Cell>, from: nat, op: Op, x: ID)
    requires from <= |cells| && Has(cells[..from] + Fresh(op, 0) + cells[from..], x)
    ensures Has(cells, x) || op.Inserts(x)
  {
    var r := cells[..from] + Fresh(op, 0) + cells[from..];
    var i :| 0 <= i < |r| && r[i].id == x;
    if i < from {
      assert cells[i].id == x;
    } else if i < from + |op.text| {
      assert r[i] == Fresh(op, 0)[i - from] && x == op.CharId(i - from);
    } else {
      assert r[i] == cells[i - |op.text|];
    }
  }

  lemma NewestKeepsWaiting(cells: seq<Cell>, from: nat, op: Op, held: Op)
    requires from <= |cells| && StillWaits(cells, held, op)
    ensures Blocked(cells[..from] + Fresh(op, 0) + cells[from..], held)
  {
    var r := cells[..from] + Fresh(op, 0) + cells[from..];
    if held.text != "" {
      if Has(r, held.after) { HasInParts(cells, from, op, held.after); }
    } else {
      var x :| held.Deletes(x) && !Has(cells, x) && !op.Inserts(x);
      if Has(r, x) { HasInParts(cells, from, op, x); }
    }
  }

  /** The op a local insert makes. */
  ghost function InsertOp(s: State, replica: string, position: nat, text: string): Op
    requires position <= |Visible(s.cells)|
  {
    Op(ID(replica, Clock(s.cells) + 1), VisibleBefore(s.cells, position), text, [])
  }

  lemma VisibleReads(cells: seq<Cell>, i: nat, n: nat)
    requires i <= |cells| && n <= |Visible(cells)|
    requires Visible(cells[..i]) == Visible(cells)[..n] && Visible(cells[i..]) == Visible(cells)[n..]
    ensures Text(cells[..i]) == Text(cells)[..n] && Text(cells[i..]) == Text(cells)[n..]
  {
  }

  lemma {:induction false} FreshReads(op: Op, j: nat)
    requires j <= |op.text|
    ensures Text(Fresh(op, j)) == op.text[j..]
    decreases |op.text| - j
  {
    if j < |op.text| {
      FreshReads(op, j + 1);
      var c := Cell(op.CharId(j), op.text[j], false);
      assert Fresh(op, j) == [c] + Fresh(op, j + 1);
      VisibleJoin([c], Fresh(op, j + 1));
      assert Text([c]) == [c.value];
    }
  }

  lemma {:induction false} VisibleIsThere(cells: seq<Cell>, k: nat) returns (i: nat)
    requires k < |Visible(cells)|
    ensures i < |cells| && cells[i] == Visible(cells)[k] && !cells[i].deleted
  {
    if cells[0].deleted {
      i := VisibleIsThere(cells[1..], k);
      i := i + 1;
    } else if k == 0 {
      i := 0;
    } else {
      i := VisibleIsThere(cells[1..], k - 1);
      i := i + 1;
    }
  }

  /** Integrating a local insert splices its text in at its position. */
  lemma InsertSplices(s: State, replica: string, position: nat, text: string) returns (from: nat)
    requires Stored(s) && position <= |Text(s.cells)| && text != ""
    ensures var op := InsertOp(s, replica, position, text);
            && from <= |s.cells| && !Blocked(s.cells, op) && op.after.clock < op.id.clock
            && var r := Integrate(s.cells, op).0;
               r == s.cells[..from] + Fresh(op, 0) + s.cells[from..] && Integrate(s.cells, op).1.Done?
               && Text(r) == Text(s.cells)[..position] + text + Text(s.cells)[position..]
  {
    var op := InsertOp(s, replica, position, text);
    from := VisibleSplit(s.cells, position);
    VisibleReads(s.cells, from, position);
    if position > 0 {
      assert s.cells[from - 1].id == op.after;
      assert op.after != ROOT by { assert ValidName(s.cells[from - 1].id); }
    }
    assert PlaceAfter(s.cells, op.after) == from;
    NewestGoFirst(s.cells, op, 0, from);
    VisibleJoin(s.cells[..from], Fresh(op, 0));
    VisibleJoin(s.cells[..from] + Fresh(op, 0), s.cells[from..]);
    FreshReads(op, 0);
  }

  /** A local insert reads as the splice it was meant as, unless the clocks ran out or a held op waited for it. */
  lemma InsertReads(s: State, replica: string, position: nat, text: string)
    requires Stored(s) && ValidReplica(replica) && position <= |Text(s.cells)| && text != ""
    requires Clock(s.cells) + 1 + |text| <= MAX_CLOCK
    requires forall i :: 0 <= i < |s.pending| ==> StillWaits(s.cells, s.pending[i], InsertOp(s, replica, position, text))
    ensures var r := Insert(s, replica, position, text);
            && r.ok && r.ops == [InsertOp(s, replica, position, text)] && r.state.pending == s.pending
            && Text(r.state.cells) == Text(s.cells)[..position] + text + Text(s.cells)[position..]
  {
    var op := InsertOp(s, replica, position, text);
    var from := InsertSplices(s, replica, position, text);
    if position > 0 {
      var i := VisibleIsThere(s.cells, position - 1);
      assert ValidName(s.cells[i].id);
    }
    assert op.Valid();
    var (cells, outcome) := Integrate(s.cells, op);
    forall i | 0 <= i < |s.pending| ensures Blocked(cells, s.pending[i]) {
      NewestKeepsWaiting(s.cells, from, op, s.pending[i]);
    }
    DrainIdle(s.(cells := cells), outcome.changed);
  }

  /** A local insert inside the text is refused exactly for its writer's name or for want of clocks. */
  lemma InsertDecides(s: State, replica: string, position: nat, text: string)
    requires Stored(s) && position <= |Text(s.cells)| && text != ""
    requires forall i :: 0 <= i < |s.pending| ==> StillWaits(s.cells, s.pending[i], InsertOp(s, replica, position, text))
    ensures var r := Insert(s, replica, position, text);
            && (r.ok <==> ValidReplica(replica) && Clock(s.cells) + 1 + |text| <= MAX_CLOCK)
            && |r.ops| <= 1 && r.state.pending == s.pending
            && Text(r.state.cells) == if r.ok then Text(s.cells)[..position] + text + Text(s.cells)[position..]
                                      else Text(s.cells)
  {
    if ValidReplica(replica) && Clock(s.cells) + 1 + |text| <= MAX_CLOCK {
      InsertReads(s, replica, position, text);
    }
  }

  /** Cell i can be read, and k characters can be read before it. */
  ghost predicate ReadAt(cells: seq<Cell>, i: nat, k: int) {
    i < |cells| && !cells[i].deleted && |Visible(cells[..i])| == k
  }

  lemma ReadAtIs(cells: seq<Cell>, i: nat, k: nat)
    requires ReadAt(cells, i, k)
    ensures k < |Visible(cells)| && Visible(cells)[k] == cells[i]
  {
    hide Visible;
    assert cells == cells[..i] + ([cells[i]] + cells[i + 1..]);
    VisibleOfJoin(cells[..i], [cells[i]] + cells[i + 1..]);
    VisibleMore(cells[i], cells[i + 1..]);
  }

  lemma ReadSomewhere(cells: seq<Cell>, k: nat) returns (i: nat)
    requires k < |Visible(cells)|
    ensures ReadAt(cells, i, k) && cells[i] == Visible(cells)[k]
  {
    hide Visible;
    var n := VisibleSplit(cells, k + 1);
    i := n - 1;
    assert cells[..n] == cells[..i] + [cells[i]] && [cells[i]] == [cells[i]] + [];
    VisibleOfJoin(cells[..i], [cells[i]]);
    VisibleMore(cells[i], []);
    VisibleNothing();
  }

  /** The op a local insert makes: the next clock after all there are, tied to the character read before the position. */
  lemma InsertMints(s: State, replica: string, position: int, text: string)
    ensures var r := Insert(s, replica, position, text);
            r.ok ==> |r.ops| == 1 && r.ops[0].text == text && r.ops[0].delete == [] && r.ops[0].id.replica == replica
    ensures var r := Insert(s, replica, position, text);
            r.ok ==>
              var c := r.ops[0].id.clock;
              && c > 0 && (forall i :: 0 <= i < |s.cells| ==> s.cells[i].id.clock < c)
              && (c == 1 || exists i :: 0 <= i < |s.cells| && s.cells[i].id.clock + 1 == c)
    ensures var r := Insert(s, replica, position, text);
            r.ok ==> if position == 0 then r.ops[0].after == ROOT
                     else exists i: nat :: ReadAt(s.cells, i, position - 1) && r.ops[0].after == s.cells[i].id
  {
    if 0 < position <= |Text(s.cells)| { var i := ReadSomewhere(s.cells, position - 1); }
    hide Visible;
    hide ReadAt;
    hide Apply;
    hide ValidReplica;
  }

  // ----- removing -----

  /** The spans hold exactly the names they were gathered from. */
  lemma {:induction false} SpansHold(ids: seq<ID>, x: ID)
    ensures (exists i :: 0 <= i < |Spans(ids)| && Spans(ids)[i].Holds(x)) <==> x in ids
    ensures ids != [] ==> var s := Spans(ids)[|Spans(ids)| - 1];
            s.replica == ids[|ids| - 1].replica && s.start <= s.end == ids[|ids| - 1].clock
  {
    if ids != [] {
      var n, y := |ids| - 1, ids[|ids| - 1];
      var before, spans := Spans(ids[..n]), Spans(ids);
      SpansHold(ids[..n], x);
      assert ids == ids[..n] + [y];
      var last := |before| - 1;
      if |spans| == |before| {
        assert spans[last].Holds(x) <==> before[last].Holds(x) || x == y;
        assert forall i :: 0 <= i < last ==> spans[i] == before[i];
      } else {
        assert spans[|before|].Holds(x) <==> x == y;
        assert forall i :: 0 <= i < |before| ==> spans[i] == before[i];
      }
    }
  }

  /** No span could be joined to the one before. */
  lemma {:induction false} SpansAreMaximal(ids: seq<ID>, i: nat)
    requires i + 1 < |Spans(ids)|
    ensures var a, b := Spans(ids)[i], Spans(ids)[i + 1]; !(a.replica == b.replica && a.end + 1 == b.start)
  {
    var before := Spans(ids[..|ids| - 1]);
    if i + 1 < |before| { SpansAreMaximal(ids[..|ids| - 1], i); }
  }

  /** The span names some character, and only characters that may exist. */
  ghost predicate Nameable(span: Span) {
    (exists x :: span.Holds(x)) && forall x :: span.Holds(x) ==> ValidName(x)
  }

  lemma DeleteIsValid(op: Op)
    requires op.text == ""
    ensures op.Valid() <==> op.delete != [] && forall i :: 0 <= i < |op.delete| ==> Nameable(op.delete[i])
  {
    forall i | 0 <= i < |op.delete| ensures op.delete[i].Valid() <==> Nameable(op.delete[i]) { SpanIsValid(op.delete[i]); }
    hide Span.Valid;
    hide Nameable;
  }

  lemma SpanIsValid(span: Span)
    ensures span.Valid() <==> Nameable(span)
  {
    hide ValidReplica;
    if span.start <= span.end {
      assert span.Holds(ID(span.replica, span.start)) && span.Holds(ID(span.replica, span.end));
    }
  }

  lemma {:induction false} SpansValid(ids: seq<ID>)
    requires forall i :: 0 <= i < |ids| ==> ValidName(ids[i])
    ensures forall i :: 0 <= i < |Spans(ids)| ==> Spans(ids)[i].Valid()
  {
    if ids != [] {
      var n := |ids| - 1;
      SpansValid(ids[..n]);
      assert ValidName(ids[n]);
    }
  }

  /** The op a local removal makes deletes exactly the characters read in the range. */
  lemma RemoveMints(s: State, position: int, length: int, x: ID)
    ensures var r := Remove(s, position, length);
            r.ok ==> && |r.ops| == 1 && r.ops[0].text == ""
                     && (r.ops[0].Deletes(x) <==>
                           exists i: nat, k :: position <= k < position + length && ReadAt(s.cells, i, k) && s.cells[i].id == x)
  {
    hide Apply;
    if 0 <= position && 0 < length && position + length <= |Text(s.cells)| {
      var ids := VisibleIds(s.cells, position, length);
      SpansHold(ids, x);
      hide Spans;
      hide Span.Holds;
      if n :| 0 <= n < |ids| && ids[n] == x { var i := ReadSomewhere(s.cells, position + n); }
      if i: nat, k :| position <= k < position + length && ReadAt(s.cells, i, k) && s.cells[i].id == x {
        ReadAtIs(s.cells, i, k);
        assert ids[k - position] == x;
      }
    }
    hide Visible;
    hide ReadAt;
  }

  lemma {:induction false} VisibleDistinct(cells: seq<Cell>, i: nat, j: nat)
    requires Distinct(cells) && i < j < |Visible(cells)|
    ensures Visible(cells)[i].id != Visible(cells)[j].id
  {
    if cells[0].deleted {
      VisibleDistinct(cells[1..], i, j);
    } else if i > 0 {
      VisibleDistinct(cells[1..], i - 1, j - 1);
    } else {
      var k := VisibleIsThere(cells[1..], j - 1);
      assert cells[1..][k] == cells[k + 1];
    }
  }

  lemma {:induction false} StrikeOutside(cells: seq<Cell>, op: Op)
    requires forall i :: 0 <= i < |Visible(cells)| ==> !op.Deletes(Visible(cells)[i].id)
    ensures Visible(Strike(cells, op)) == Visible(cells)
  {
    if cells != [] {
      var rest := Visible(cells[1..]);
      var n := if cells[0].deleted then 0 else 1;
      assert forall i :: 0 <= i < |rest| ==> rest[i] == Visible(cells)[i + n];
      StrikeOutside(cells[1..], op);
      assert Strike(cells, op)[1..] == Strike(cells[1..], op);
      if n == 1 { assert Visible(cells)[0] == cells[0]; }
    }
  }

  lemma StrikeMore(c: Cell, rest: seq<Cell>, op: Op)
    ensures Visible(Strike([c] + rest, op))
         == if c.deleted || op.Deletes(c.id) then Visible(Strike(rest, op)) else [c] + Visible(Strike(rest, op))
  {
    var struck := Strike([c], op);
    assert Strike([c] + rest, op) == [struck[0]] + Strike(rest, op);
    VisibleMore(struck[0], Strike(rest, op));
  }

  lemma {:induction false} StrikeAll(cells: seq<Cell>, op: Op)
    requires forall i :: 0 <= i < |Visible(cells)| ==> op.Deletes(Visible(cells)[i].id)
    ensures Visible(Strike(cells, op)) == []
  {
    if cells != [] {
      var c, rest := cells[0], cells[1..];
      StrikeMore(c, rest, op);
      VisibleMore(c, rest);
      assert cells == [c] + rest;
      hide Visible;
      hide Strike;
      var n := if c.deleted then 0 else 1;
      assert n == 1 ==> Visible(cells)[0] == c;
      forall i | 0 <= i < |Visible(rest)| ensures op.Deletes(Visible(rest)[i].id) {
        assert Visible(rest)[i] == Visible(cells)[i + n];
      }
      StrikeAll(rest, op);
    }
  }

  ghost function RemoveOp(s: State, position: nat, length: nat): Op
    requires position + length <= |Visible(s.cells)|
  {
    Op(ROOT, ROOT, "", Spans(VisibleIds(s.cells, position, length)))
  }

  /** A local removal names the k-th visible character exactly when k is in its range. */
  lemma RemoveNames(s: State, position: nat, length: nat, k: nat)
    requires Stored(s) && position + length <= |Visible(s.cells)| && k < |Visible(s.cells)|
    ensures RemoveOp(s, position, length).Deletes(Visible(s.cells)[k].id) <==> position <= k < position + length
  {
    SpansHold(VisibleIds(s.cells, position, length), Visible(s.cells)[k].id);
    IdsThere(s.cells, position, length, k);
    hide Visible;
    hide VisibleIds;
    hide Spans;
    hide Stored;
  }

  lemma IdsThere(cells: seq<Cell>, position: nat, length: nat, k: nat)
    requires Distinct(cells) && position + length <= |Visible(cells)| && k < |Visible(cells)|
    ensures Visible(cells)[k].id in VisibleIds(cells, position, length) <==> position <= k < position + length
  {
    hide Visible;
    hide Distinct;
    var ids, v := VisibleIds(cells, position, length), Visible(cells);
    if position <= k < position + length {
      assert ids[k - position] == v[k].id;
    } else if v[k].id in ids {
      var j :| 0 <= j < |ids| && ids[j] == v[k].id;
      if k < position { VisibleDistinct(cells, k, position + j); } else { VisibleDistinct(cells, position + j, k); }
    }
  }

  lemma StrikeJoin(a: seq<Cell>, b: seq<Cell>, op: Op)
    ensures Strike(a + b, op) == Strike(a, op) + Strike(b, op)
    ensures Visible(Strike(a + b, op)) == Visible(Strike(a, op)) + Visible(Strike(b, op))
  {
    hide Operations.Op.Deletes;
    var r, x, y := Strike(a + b, op), Strike(a, op), Strike(b, op);
    forall i | 0 <= i < |a + b| ensures r[i] == (x + y)[i] {
      if i < |a| { assert (a + b)[i] == a[i]; } else { assert (a + b)[i] == b[i - |a|]; }
    }
    assert r == x + y;
    VisibleJoin(x, y);
  }

  lemma StrikeMiddle(a: seq<Cell>, b: seq<Cell>, c: seq<Cell>, op: Op)
    requires forall i :: 0 <= i < |Visible(a)| ==> !op.Deletes(Visible(a)[i].id)
    requires forall i :: 0 <= i < |Visible(b)| ==> op.Deletes(Visible(b)[i].id)
    requires forall i :: 0 <= i < |Visible(c)| ==> !op.Deletes(Visible(c)[i].id)
    ensures Visible(Strike(a + b + c, op)) == Visible(a) + Visible(c)
  {
    hide Visible;
    hide Strike;
    StrikeOutside(a, op);
    StrikeAll(b, op);
    StrikeOutside(c, op);
    StrikeJoin(a, b, op);
    StrikeJoin(a + b, c, op);
    hide Operations.Op.Deletes;
    assert Visible(Strike(a + b, op)) == Visible(a);
  }

  /** Striking what a local removal names cuts its range out of the visible characters. */
  lemma RemoveCuts(s: State, position: nat, length: nat)
    requires Stored(s) && position + length <= |Visible(s.cells)|
    ensures var r, v := Strike(s.cells, RemoveOp(s, position, length)), Visible(s.cells);
            Visible(r) == v[..position] + v[position + length..]
  {
    hide Visible;
    var op, cells, v := RemoveOp(s, position, length), s.cells, Visible(s.cells);
    var i := VisibleSplit(cells, position);
    var k := VisibleSplit(cells[i..], length);
    var a, b, c := cells[..i], cells[i..][..k], cells[i..][k..];
    forall j | 0 <= j < |v| ensures op.Deletes(v[j].id) <==> position <= j < position + length {
      RemoveNames(s, position, length, j);
    }
    assert Visible(b) == v[position..position + length] && Visible(c) == v[position + length..];
    StrikeMiddle(a, b, c, op);
    assert cells == a + b + c;
  }

  /** The op a local removal makes is one every replica accepts, and this one at once. */
  lemma RemoveFits(s: State, position: nat, length: nat)
    requires Stored(s) && length > 0 && position + length <= |Visible(s.cells)|
    ensures RemoveOp(s, position, length).Valid() && !Blocked(s.cells, RemoveOp(s, position, length))
  {
    var op, ids := RemoveOp(s, position, length), VisibleIds(s.cells, position, length);
    forall j | 0 <= j < |ids| ensures ValidName(ids[j]) && Has(s.cells, ids[j]) {
      var i := VisibleIsThere(s.cells, position + j);
    }
    SpansValid(ids);
    forall x | op.Deletes(x) ensures Has(s.cells, x) {
      SpansHold(ids, x);
    }
  }

  lemma CutReads(a: seq<Cell>, b: seq<Cell>, i: nat, j: nat)
    requires i <= j <= |Visible(a)| && Visible(b) == Visible(a)[..i] + Visible(a)[j..]
    ensures Text(b) == Text(a)[..i] + Text(a)[j..]
  {
    hide Visible;
  }

  /** A delete of characters that are all here strikes them, and unblocks nothing. */
  lemma DeleteApplies(s: State, op: Op)
    requires op.Valid() && op.text == "" && !Blocked(s.cells, op)
    requires forall i :: 0 <= i < |s.pending| ==> Blocked(s.cells, s.pending[i])
    ensures Apply(s, op).ok && Apply(s, op).state == s.(cells := Strike(s.cells, op))
  {
    StrikeKeepsWaiting(s, op);
    DrainIdle(s.(cells := Strike(s.cells, op)), Integrate(s.cells, op).1.changed);
  }

  /** A local removal reads as cutting its range out of the text, and disturbs nothing that waits. */
  lemma RemoveReads(s: State, position: nat, length: nat)
    requires Stored(s) && length > 0 && position + length <= |Text(s.cells)|
    requires forall i :: 0 <= i < |s.pending| ==> Blocked(s.cells, s.pending[i])
    ensures var r, op := Remove(s, position, length), RemoveOp(s, position, length);
            && r == Edited(s.(cells := Strike(s.cells, op)), [op], true)
            && Text(r.state.cells) == Text(s.cells)[..position] + Text(s.cells)[position + length..]
  {
    hide Visible;
    hide Apply;
    var op := RemoveOp(s, position, length);
    RemoveFits(s, position, length);
    DeleteApplies(s, op);
    RemoveCuts(s, position, length);
    CutReads(s.cells, Strike(s.cells, op), position, position + length);
  }

  lemma StrikeKeepsWaiting(s: State, op: Op)
    ensures forall held :: Blocked(s.cells, held) ==> Blocked(Strike(s.cells, op), held)
    ensures Clock(Strike(s.cells, op)) == Clock(s.cells)
    ensures forall x :: Has(Strike(s.cells, op), x) <==> Has(s.cells, x)
  {
    var r := Strike(s.cells, op);
    forall x ensures Has(r, x) <==> Has(s.cells, x) {
      if i :| 0 <= i < |r| && r[i].id == x { assert s.cells[i].id == x; }
      if i :| 0 <= i < |r| && s.cells[i].id == x { assert r[i].id == x; }
    }
    if i :| 0 <= i < |r| && r[i].id.clock == Clock(r) { assert s.cells[i].id.clock <= Clock(s.cells); }
    if i :| 0 <= i < |r| && s.cells[i].id.clock == Clock(s.cells) { assert r[i].id.clock <= Clock(r); }
  }

  // ----- replacing -----

  lemma EndsAgree(a: string, b: string, p: nat, q: nat, i: nat)
    requires p <= |a| && p <= |b| && a[..p] == b[..p]
    requires q <= |a| && q <= |b| && a[|a| - q..] == b[|b| - q..]
    ensures i < p ==> a[i] == b[i]
    ensures i < q ==> a[|a| - 1 - i] == b[|b| - 1 - i]
  {
    assert i < p ==> a[..p][i] == a[i] && b[..p][i] == b[i];
    assert i < q ==> a[|a| - q..][q - 1 - i] == a[|a| - 1 - i] && b[|b| - q..][q - 1 - i] == b[|b| - 1 - i];
  }

  /** No edit at the two ends keeps more of the text, and none more of its beginning. */
  lemma ReplaceKeepsMost(current: string, text: string, p: nat, q: nat)
    requires p + q <= |current| && p + q <= |text|
    requires current[..p] == text[..p] && current[|current| - q..] == text[|text| - q..]
    ensures p <= KeptPrefix(current, text) && p + q <= KeptPrefix(current, text) + KeptSuffix(current, text)
  {
    var k, l := KeptPrefix(current, text), KeptSuffix(current, text);
    if k < p { EndsAgree(current, text, p, q, k); }
    if l < q { EndsAgree(current, text, p, q, l); }
  }

  lemma StoredAfterStrike(s: State, op: Op)
    requires Stored(s)
    ensures Stored(s.(cells := Strike(s.cells, op)))
  {
    var r := Strike(s.cells, op);
    forall i, j | 0 <= i < j < |r| ensures r[i].id != r[j].id { assert s.cells[i].id != s.cells[j].id; }
    forall i | 0 <= i < |r| ensures ValidName(r[i].id) { assert ValidName(s.cells[i].id); }
  }

  /** The characters replica's next n names would be. */
  ghost function Next(s: State, replica: string, text: string): Op {
    Op(ID(replica, Clock(s.cells) + 1), ROOT, text, [])
  }

  /** The removing half of a replacement. */
  lemma ReplaceRemoves(s: State, text: string) returns (first: Edited)
    requires Stored(s) && forall i :: 0 <= i < |s.pending| ==> Blocked(s.cells, s.pending[i])
    ensures var current := Text(s.cells);
            var p, q := KeptPrefix(current, text), KeptSuffix(current, text);
            && first == (if |current| > p + q then Remove(s, p, |current| - p - q) else Edited(s, [], true))
            && Text(first.state.cells) == text[..p] + text[|text| - q..]
    ensures first.ok && |first.ops| <= 1 && first.state.pending == s.pending && Stored(first.state)
    ensures Clock(first.state.cells) == Clock(s.cells) && forall x :: Has(first.state.cells, x) <==> Has(s.cells, x)
  {
    hide Stored;
    hide Text;
    hide Visible;
    hide Remove;
    hide Apply;
    hide Blocked;
    hide Strike;
    hide Has;
    hide Clock;
    hide SharesEnd;
    hide KeptPrefix;
    hide KeptSuffix;
    var current := Text(s.cells);
    var p, q := KeptPrefix(current, text), KeptSuffix(current, text);
    if |current| > p + q {
      first := Remove(s, p, |current| - p - q);
      RemoveReads(s, p, |current| - p - q);
      var op := RemoveOp(s, p, |current| - p - q);
      StrikeKeepsWaiting(s, op);
      StoredAfterStrike(s, op);
    } else {
      first := Edited(s, [], true);
    }
    KeptEnds(current, text);
  }

  lemma KeptEnds(current: string, text: string)
    ensures var p, q := KeptPrefix(current, text), KeptSuffix(current, text);
            && current[..p] + current[|current| - q..] == text[..p] + text[|text| - q..]
            && (|current| == p + q ==> current == current[..p] + current[|current| - q..])
  {
    hide KeptPrefix;
    hide KeptSuffix;
  }

  lemma ReplaceHalves(s: State, replica: string, text: string, first: Edited)
    requires first.ok
    requires var current := Text(s.cells);
             var p, q := KeptPrefix(current, text), KeptSuffix(current, text);
             first == if |current| > p + q then Remove(s, p, |current| - p - q) else Edited(s, [], true)
    ensures var p, q := KeptPrefix(Text(s.cells), text), KeptSuffix(Text(s.cells), text);
            var second := Insert(first.state, replica, p, text[p..|text| - q]);
            Replace(s, replica, text) ==
              if p + q == |text| then first
              else Edited(second.state, if second.ok then first.ops + second.ops else [], second.ok)
  {
    hide Text;
    hide Insert;
    hide Remove;
    hide KeptPrefix;
    hide KeptSuffix;
  }

  /** The inserting half: what waited for nothing of the writer's next names goes on waiting. */
  lemma ReplaceInserts(s: State, t: State, replica: string, p: nat, inserted: string)
    requires Stored(t) && p <= |Text(t.cells)| && inserted != "" && t.pending == s.pending
    requires Clock(t.cells) == Clock(s.cells) && forall x :: Has(t.cells, x) <==> Has(s.cells, x)
    requires forall i :: 0 <= i < |s.pending| ==> StillWaits(s.cells, s.pending[i], Next(s, replica, inserted))
    ensures var r := Insert(t, replica, p, inserted);
            && (r.ok <==> ValidReplica(replica) && Clock(s.cells) + 1 + |inserted| <= MAX_CLOCK)
            && |r.ops| <= 1 && r.state.pending == s.pending
            && Text(r.state.cells) == if r.ok then Text(t.cells)[..p] + inserted + Text(t.cells)[p..] else Text(t.cells)
  {
    hide Stored;
    hide Text;
    hide Insert;
    hide StillWaits;
    hide Has;
    forall i | 0 <= i < |s.pending| ensures StillWaits(t.cells, t.pending[i], InsertOp(t, replica, p, inserted)) {
      StaysWaiting(s, t, s.pending[i], Next(s, replica, inserted), InsertOp(t, replica, p, inserted));
    }
    InsertDecides(t, replica, p, inserted);
  }

  /**
   Replace makes the document read the new text, by at most one delete and one insert, exactly
   when there is nothing to insert or the writer's name is valid and the clocks have room. When
   it fails it is not undone: the text between the kept ends is gone.
   */
  lemma ReplaceReads(s: State, replica: string, text: string)
    requires Stored(s) && forall i :: 0 <= i < |s.pending| ==> Blocked(s.cells, s.pending[i])
    requires var current := Text(s.cells);
             var inserted := text[KeptPrefix(current, text)..|text| - KeptSuffix(current, text)];
             forall i :: 0 <= i < |s.pending| ==> StillWaits(s.cells, s.pending[i], Next(s, replica, inserted))
    ensures var r, current := Replace(s, replica, text), Text(s.cells);
            var p, q := KeptPrefix(current, text), KeptSuffix(current, text);
            var n := |text| - p - q;
            && (r.ok <==> n == 0 || (ValidReplica(replica) && Clock(s.cells) + 1 + n <= MAX_CLOCK))
            && |r.ops| <= 2 && r.state.pending == s.pending
            && Text(r.state.cells) == if r.ok then text else text[..p] + text[|text| - q..]
  {
    hide Stored;
    hide Text;
    hide Insert;
    hide Remove;
    hide StillWaits;
    hide KeptPrefix;
    hide KeptSuffix;
    var current := Text(s.cells);
    var p, q := KeptPrefix(current, text), KeptSuffix(current, text);
    var inserted := text[p..|text| - q];
    hide Blocked;
    hide ValidReplica;
    var first := ReplaceRemoves(s, text);
    ReplaceHalves(s, replica, text, first);
    hide Replace;
    TextRejoined(text, p, q);
    if inserted != "" { ReplaceInserts(s, first.state, replica, p, inserted); }
    hide Next;
  }

  lemma OneOp(s: State, replica: string, position: int, length: int, text: string)
    ensures |Insert(s, replica, position, text).ops| <= 1 && |Remove(s, position, length).ops| <= 1
  {
    hide Apply;
    hide Text;
  }

  /** A refused Replace leaves the text as it was exactly when nothing lies between its kept ends. */
  lemma RefusedReplaceKeeps(s: State, replica: string, text: string)
    requires Stored(s) && forall i :: 0 <= i < |s.pending| ==> Blocked(s.cells, s.pending[i])
    requires var current := Text(s.cells);
             var inserted := text[KeptPrefix(current, text)..|text| - KeptSuffix(current, text)];
             forall i :: 0 <= i < |s.pending| ==> StillWaits(s.cells, s.pending[i], Next(s, replica, inserted))
    requires !Replace(s, replica, text).ok
    ensures var current := Text(s.cells);
            Text(Replace(s, replica, text).state.cells) == current <==> KeptPrefix(current, text) + KeptSuffix(current, text) == |current|
  {
    hide Replace;
    hide Text;
    hide KeptPrefix;
    hide KeptSuffix;
    hide StillWaits;
    hide Stored;
    hide Blocked;
    hide Next;
    ReplaceReads(s, replica, text);
    var current := Text(s.cells);
    var p, q := KeptPrefix(current, text), KeptSuffix(current, text);
    if p + q == |current| { assert current == current[..p] + current[|current| - q..]; }
  }

  /** A writer without a usable name replaces "x" by "y", is refused, and leaves nothing. */
  lemma ReplaceLosesText()
    ensures var s := State([Cell(ID("a", 1), 'x', false)], []);
            Stored(s) && Text(s.cells) == "x" && !Replace(s, "", "y").ok && Text(Replace(s, "", "y").state.cells) == ""
  {
    hide Stored;
    hide Visible;
    hide Text;
    hide Replace;
    hide Insert;
    hide Remove;
    hide KeptPrefix;
    hide KeptSuffix;
    OneCharacter();
    NothingShared();
    ReplaceReads(State([Cell(ID("a", 1), 'x', false)], []), "", "y");
    assert "y"[..0] + "y"[1..] == "";
  }

  lemma OneCharacter()
    ensures var s := State([Cell(ID("a", 1), 'x', false)], []); Stored(s) && Text(s.cells) == "x"
  {
    var cells := [Cell(ID("a", 1), 'x', false)];
    assert cells[1..] == [] && Visible(cells) == cells;
  }

  lemma NothingShared()
    ensures KeptPrefix("x", "y") == 0 && KeptSuffix("x", "y") == 0
  {
  }

  lemma TextRejoined(text: string, p: nat, q: nat)
    requires p + q <= |text|
    ensures var kept := text[..p] + text[|text| - q..];
            && kept[..p] + text[p..|text| - q] + kept[p..] == text
            && (p + q == |text| ==> kept == text)
  {
    var kept := text[..p] + text[|text| - q..];
    assert kept[..p] == text[..p] && kept[p..] == text[|text| - q..];
    assert text == text[..p] + text[p..|text| - q] + text[|text| - q..];
  }

  lemma StaysWaiting(s: State, t: State, held: Op, a: Op, b: Op)
    requires StillWaits(s.cells, held, a) && a.id == b.id && a.text == b.text
    requires forall x :: Has(t.cells, x) <==> Has(s.cells, x)
    ensures StillWaits(t.cells, held, b)
  {
    if held.text == "" {
      var x :| held.Deletes(x) && !Has(s.cells, x) && !a.Inserts(x);
      assert !b.Inserts(x);
    }
  }
}
