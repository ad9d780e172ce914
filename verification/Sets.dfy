/** Sets of things, and the sets of what sequences hold. */
module Sets {

  ghost function Elements<T>(s: seq<T>): set<T> {
    set x | x in s
  }

  lemma SubsetSize<T>(a: set<T>, b: set<T>)
    requires a <= b
    ensures |a| <= |b|
  {
    assert b == a + (b - a);
  }

  lemma ElementsInsert<T>(s: seq<T>, k: nat, x: T)
    requires k <= |s|
    ensures Elements(s[..k] + [x] + s[k..]) == Elements(s) + {x}
  {
    assert s == s[..k] + s[k..];
  }

  lemma {:induction false} ElementsFit<T>(s: seq<T>)
    ensures |Elements(s)| <= |s|
  {
    if s != [] {
      ElementsFit(s[1..]);
      assert s == [s[0]] + s[1..];
      assert Elements(s) == {s[0]} + Elements(s[1..]);
    }
  }

  ghost predicate Once<T>(s: seq<T>) {
    forall i, j :: 0 <= i < j < |s| ==> s[i] != s[j]
  }

  /** A sequence holds as many things as it is long exactly when it holds none twice. */
  lemma {:induction false} OnceFits<T>(s: seq<T>)
    ensures |Elements(s)| == |s| <==> Once(s)
  {
    if s != [] {
      var x, rest := s[0], s[1..];
      OnceFits(rest);
      ElementsFit(rest);
      assert s == [x] + rest && Elements(s) == {x} + Elements(rest);
      if x in rest {
        var i :| 0 <= i < |rest| && rest[i] == x;
        assert s[0] == s[i + 1];
        assert Elements(s) == Elements(rest);
      } else {
        assert Once(s) <==> Once(rest) by {
          if Once(s) { forall i, j | 0 <= i < j < |rest| ensures rest[i] != rest[j] { assert s[i + 1] != s[j + 1]; } }
          if Once(rest) { forall i, j | 0 <= i < j < |s| ensures s[i] != s[j] { if i > 0 { assert rest[i - 1] != rest[j - 1]; } } }
        }
      }
    }
  }
}
