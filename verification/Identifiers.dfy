/** The names of characters: a Lamport clock and the writer, totally ordered. */
module Identifiers {

  /** The largest clock an edit may carry, 2^53 - 1. */
  const MAX_CLOCK: nat := 0x1F_FFFF_FFFF_FFFF

  datatype ID = ID(replica: string, clock: nat)

  /** The start of the document, which is no character's name. */
  const ROOT := ID("", 0)

  predicate NameChar(c: char) {
    'A' <= c <= 'Z' || 'a' <= c <= 'z' || '0' <= c <= '9' || c in "_.:-"
  }

  predicate ValidReplica(name: string) {
    1 <= |name| <= 64 && forall i :: 0 <= i < |name| ==> NameChar(name[i])
  }

  /** What a writer may be called: one to 64 ASCII letters, digits, and four marks. */
  lemma NamesAre(name: string)
    ensures ValidReplica(name) <==>
              0 < |name| < 65 &&
              forall i :: 0 <= i < |name| ==>
                || name[i] in "ABCDEFGHIJKLM" || name[i] in "NOPQRSTUVWXYZ"
                || name[i] in "abcdefghijklm" || name[i] in "nopqrstuvwxyz"
                || name[i] in "0123456789_.:-"
  {
    forall i | 0 <= i < |name|
      ensures NameChar(name[i]) <==>
                || name[i] in "ABCDEFGHIJKLM" || name[i] in "NOPQRSTUVWXYZ"
                || name[i] in "abcdefghijklm" || name[i] in "nopqrstuvwxyz"
                || name[i] in "0123456789_.:-"
    {
      Capitals(name[i]);
      SmallLetters(name[i]);
      DigitsAndMarks(name[i]);
      hide NameChar;
    }
  }

  lemma Capitals(c: char)
    ensures 'A' <= c <= 'Z' <==> c in "ABCDEFGHIJKLM" || c in "NOPQRSTUVWXYZ"
  {
    if 'A' <= c <= 'M' { assert "ABCDEFGHIJKLM"[c as int - 'A' as int] == c; }
    if 'N' <= c <= 'Z' { assert "NOPQRSTUVWXYZ"[c as int - 'N' as int] == c; }
  }

  lemma SmallLetters(c: char)
    ensures 'a' <= c <= 'z' <==> c in "abcdefghijklm" || c in "nopqrstuvwxyz"
  {
    if 'a' <= c <= 'm' { assert "abcdefghijklm"[c as int - 'a' as int] == c; }
    if 'n' <= c <= 'z' { assert "nopqrstuvwxyz"[c as int - 'n' as int] == c; }
  }

  lemma DigitsAndMarks(c: char)
    ensures '0' <= c <= '9' || c in "_.:-" <==> c in "0123456789_.:-"
  {
    if '0' <= c <= '9' { assert "0123456789_.:-"[c as int - '0' as int] == c; }
    if c in "_.:-" { assert "0123456789_.:-"[10..] == "_.:-"; }
  }

  predicate StringLess(a: string, b: string) {
    if b == "" then false
    else if a == "" then true
    else if a[0] != b[0] then a[0] < b[0]
    else StringLess(a[1..], b[1..])
  }

  /** The order that settles concurrent inserts: the clock, then the writer. */
  predicate Less(a: ID, b: ID) {
    if a.clock != b.clock then a.clock < b.clock else StringLess(a.replica, b.replica)
  }

  /** a and b agree up to k, where a ends or has the lesser character. */
  ghost predicate LessAt(a: string, b: string, k: nat) {
    k <= |a| && k < |b| && a[..k] == b[..k] && (k == |a| || a[k] < b[k])
  }

  lemma LessAtNext(a: string, b: string, k: nat)
    requires LessAt(a, b, k) && k > 0
    ensures a[0] == b[0] && LessAt(a[1..], b[1..], k - 1)
  {
    assert a[..k][0] == b[..k][0];
    assert a[1..][..k - 1] == a[..k][1..] && b[1..][..k - 1] == b[..k][1..];
  }

  /** Strings compare by their first difference, an ending being less than any character. */
  lemma {:induction false} StringLessAt(a: string, b: string)
    ensures StringLess(a, b) <==> exists k: nat :: LessAt(a, b, k)
  {
    if a != "" && b != "" && a[0] == b[0] {
      StringLessAt(a[1..], b[1..]);
      if k: nat :| LessAt(a[1..], b[1..], k) {
        assert a[..k + 1] == [a[0]] + a[1..][..k] && b[..k + 1] == [b[0]] + b[1..][..k];
        assert LessAt(a, b, k + 1);
      }
    }
    assert StringLess(a, b) && (a == "" || a[0] != b[0]) ==> LessAt(a, b, 0);
    if k: nat :| LessAt(a, b, k) {
      if k > 0 { LessAtNext(a, b, k); }
    }
  }

  /** The lesser name has the lesser clock, or the same clock and the writer who is less at the first difference. */
  lemma LessIs(a: ID, b: ID)
    ensures Less(a, b) <==> a.clock < b.clock || (a.clock == b.clock && exists k: nat :: LessAt(a.replica, b.replica, k))
  {
    StringLessAt(a.replica, b.replica);
  }

  lemma {:induction false} StringLessTotal(a: string, b: string)
    ensures a == b ==> !StringLess(a, b)
    ensures a != b ==> StringLess(a, b) != StringLess(b, a)
  {
    if a != "" && b != "" && a[0] == b[0] {
      StringLessTotal(a[1..], b[1..]);
      assert a == [a[0]] + a[1..] && b == [b[0]] + b[1..];
    }
  }

  lemma {:induction false} StringLessTransitive(a: string, b: string, c: string)
    requires StringLess(a, b) && StringLess(b, c)
    ensures StringLess(a, c)
  {
    if a != "" && a[0] == b[0] == c[0] {
      StringLessTransitive(a[1..], b[1..], c[1..]);
    }
  }

  /** Of two names exactly one of less, equal and greater holds. */
  lemma LessTotal(a: ID, b: ID)
    ensures a == b ==> !Less(a, b)
    ensures a != b ==> Less(a, b) != Less(b, a)
  {
    StringLessTotal(a.replica, b.replica);
  }

  lemma LessTransitive(a: ID, b: ID, c: ID)
    requires Less(a, b) && Less(b, c)
    ensures Less(a, c)
  {
    if a.clock == b.clock == c.clock {
      StringLessTransitive(a.replica, b.replica, c.replica);
    }
  }
}
