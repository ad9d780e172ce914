/** Timestamps as text of one width whose byte order is the order in time. */
module StoredTime {
  import opened Calendar
  import opened Identifiers

  datatype Decoded = Ok(time: Instant) | Invalid

  const ZERO := Instant(Date(1, 1, 1), 0)
  const FLOOR := ZERO
  const CEILING := Instant(Date(9999, 12, 31), NANOS_A_DAY - 1)
  const WIDTH: nat := 30

  /** A number's place in the text: what is written before it, and its digits. */
  datatype Place = Place(before: string, digits: nat)

  const DATE: seq<Place> := [Place("", 4), Place("-", 2), Place("-", 2)]

  /** Hour, minute and second, the hour in so many digits. */
  function Clock(hour: nat): seq<Place> {
    [Place("T", hour), Place(":", 2), Place(":", 2)]
  }

  function Head(hour: nat): seq<Place> {
    DATE + Clock(hour)
  }

  const HEAD: seq<Place> := Head(2)

  const FRACTION: seq<Place> := [Place(".", 9)]

  // ----- numbers in digits -----

  function PowerOfTen(n: nat): (p: nat)
    ensures p >= 1
  {
    if n == 0 then 1 else 10 * PowerOfTen(n - 1)
  }

  function DigitChar(d: nat): char
    requires d < 10
  {
    '0' + d as char
  }

  predicate IsDigit(c: char) {
    '0' <= c <= '9'
  }

  function Digits(n: nat, width: nat): (s: string)
    ensures |s| == width
  {
    if width == 0 then "" else Digits(n / 10, width - 1) + [DigitChar(n % 10)]
  }

  predicate AllDigits(s: string) {
    forall i :: 0 <= i < |s| ==> IsDigit(s[i])
  }

  function Value(s: string): nat
    requires AllDigits(s)
  {
    if s == "" then 0 else 10 * Value(s[..|s| - 1]) + (s[|s| - 1] - '0') as nat
  }

  lemma DigitReads(d: nat)
    requires d < 10
    ensures IsDigit(DigitChar(d)) && (DigitChar(d) - '0') as nat == d
  {
  }

  lemma {:induction false} DigitsRead(n: nat, width: nat)
    requires n < PowerOfTen(width)
    ensures AllDigits(Digits(n, width)) && Value(Digits(n, width)) == n
  {
    if width > 0 {
      DigitsRead(n / 10, width - 1);
      var s, t := Digits(n, width), Digits(n / 10, width - 1);
      DigitReads(n % 10);
      hide DigitChar;
      assert s == t + [DigitChar(n % 10)] && s[..|s| - 1] == t;
      assert n == 10 * (n / 10) + n % 10;
    }
  }

  lemma {:induction false} DigitsWrite(s: string)
    requires AllDigits(s)
    ensures Value(s) < PowerOfTen(|s|) && Digits(Value(s), |s|) == s
  {
    if s != "" {
      var t, c := s[..|s| - 1], s[|s| - 1];
      DigitsWrite(t);
      assert s == t + [c];
    }
  }

  /** Text of equal lengths compares by its first parts, then by the rest. */
  lemma {:induction false} LessParts(a: string, b: string, c: string, d: string)
    requires |a| == |c|
    ensures StringLess(a + b, c + d) <==> StringLess(a, c) || (a == c && StringLess(b, d))
  {
    if a == "" {
      assert a + b == b && c + d == d;
    } else {
      assert (a + b)[1..] == a[1..] + b && (c + d)[1..] == c[1..] + d;
      assert a == [a[0]] + a[1..] && c == [c[0]] + c[1..];
      LessParts(a[1..], b, c[1..], d);
    }
  }

  lemma DigitLess(x: nat, y: nat)
    requires x < 10 && y < 10
    ensures StringLess([DigitChar(x)], [DigitChar(y)]) <==> x < y
  {
    assert [DigitChar(x)][1..] == [DigitChar(y)][1..] == "";
  }

  lemma {:induction false} DigitsOrder(x: nat, y: nat, width: nat)
    requires x < PowerOfTen(width) && y < PowerOfTen(width)
    ensures StringLess(Digits(x, width), Digits(y, width)) <==> x < y
    ensures Digits(x, width) == Digits(y, width) <==> x == y
  {
    if width > 0 {
      DigitsOrder(x / 10, y / 10, width - 1);
      DigitsRead(x, width);
      DigitsRead(y, width);
      DigitLess(x % 10, y % 10);
      hide StringLess;
      hide DigitChar;
      hide Value;
      hide AllDigits;
      LessParts(Digits(x / 10, width - 1), [DigitChar(x % 10)], Digits(y / 10, width - 1), [DigitChar(y % 10)]);
    }
  }

  // ----- rows of numbers -----

  ghost predicate Fits(xs: seq<nat>, places: seq<Place>) {
    |xs| == |places| && forall i :: 0 <= i < |xs| ==> xs[i] < PowerOfTen(places[i].digits)
  }

  function Width(places: seq<Place>): nat {
    if places == [] then 0 else |places[0].before| + places[0].digits + Width(places[1..])
  }

  function Print(xs: seq<nat>, places: seq<Place>): (s: string)
    requires |xs| == |places|
    ensures |s| == Width(places)
  {
    if places == [] then ""
    else places[0].before + Digits(xs[0], places[0].digits) + Print(xs[1..], places[1..])
  }

  function ReadOne(s: string, place: Place): (bool, nat)
    requires |s| == |place.before| + place.digits
  {
    if s[..|place.before|] == place.before && AllDigits(s[|place.before|..]) then (true, Value(s[|place.before|..])) else (false, 0)
  }

  function More(one: (bool, nat), rest: (bool, seq<nat>)): (bool, seq<nat>) {
    if one.0 && rest.0 then (true, [one.1] + rest.1) else (false, [])
  }

  /** The numbers at the places, or none when the text is not of that form. */
  function Read(s: string, places: seq<Place>): (r: (bool, seq<nat>))
    requires |s| == Width(places)
    ensures if r.0 then |r.1| == |places| else r.1 == []
  {
    if places == [] then (true, [])
    else
      var d := |places[0].before| + places[0].digits;
      More(ReadOne(s[..d], places[0]), Read(s[d..], places[1..]))
  }

  lemma {:induction false} PrintReads(xs: seq<nat>, places: seq<Place>)
    requires Fits(xs, places)
    ensures Read(Print(xs, places), places) == (true, xs)
  {
    if places != [] {
      var s, one, d := Print(xs, places), places[0].before + Digits(xs[0], places[0].digits), |places[0].before| + places[0].digits;
      DigitsRead(xs[0], places[0].digits);
      PrintReads(xs[1..], places[1..]);
      assert one[..|places[0].before|] == places[0].before && one[|places[0].before|..] == Digits(xs[0], places[0].digits);
      assert s[..d] == one && s[d..] == Print(xs[1..], places[1..]);
      assert ReadOne(one, places[0]) == (true, xs[0]);
      hide ReadOne;
      assert xs == [xs[0]] + xs[1..];
    }
  }

  lemma {:induction false} ReadPrints(s: string, places: seq<Place>)
    requires |s| == Width(places) && Read(s, places).0
    ensures var xs := Read(s, places).1; Fits(xs, places) && Print(xs, places) == s
  {
    hide Digits;
    hide Value;
    hide AllDigits;
    hide PowerOfTen;
    if places != [] {
      var before, d := places[0].before, |places[0].before| + places[0].digits;
      DigitsWrite(s[..d][|before|..]);
      ReadPrints(s[d..], places[1..]);
      assert s[..d] == s[..d][..|before|] + s[..d][|before|..];
      assert s == s[..d] + s[d..];
    }
  }

  predicate LexLess(xs: seq<nat>, ys: seq<nat>)
    requires |xs| == |ys|
  {
    xs != [] && (xs[0] < ys[0] || (xs[0] == ys[0] && LexLess(xs[1..], ys[1..])))
  }

  /** Rows of numbers printed alike compare as text the way the rows compare. */
  lemma {:induction false} PrintOrder(xs: seq<nat>, ys: seq<nat>, places: seq<Place>)
    requires Fits(xs, places) && Fits(ys, places)
    ensures StringLess(Print(xs, places), Print(ys, places)) <==> LexLess(xs, ys)
  {
    if places != [] {
      var before, x, y := places[0].before, Digits(xs[0], places[0].digits), Digits(ys[0], places[0].digits);
      var restX, restY := Print(xs[1..], places[1..]), Print(ys[1..], places[1..]);
      DigitsOrder(xs[0], ys[0], places[0].digits);
      PrintOrder(xs[1..], ys[1..], places[1..]);
      LessParts(before + x, restX, before + y, restY);
      LessParts(before, x, before, y);
      StringLessTotal(before, before);
      assert before + x == before + y <==> x == y by { assert (before + x)[|before|..] == x && (before + y)[|before|..] == y; }
    }
  }

  // ----- timestamps -----

  const NANOS_A_SECOND: int := 1_000_000_000

  /** Year, month, day, hour, minute, second, nanosecond. */
  function Fields(t: Instant): (xs: seq<nat>)
    requires t.Valid() && 0 <= t.date.year
    ensures |xs| == 7
  {
    var second := t.nano / NANOS_A_SECOND;
    [t.date.year, t.date.month, t.date.day, second / 3600, second / 60 % 60, second % 60, t.nano % NANOS_A_SECOND]
  }

  function OfFields(xs: seq<nat>): Instant
    requires |xs| == 7
  {
    Instant(Date(xs[0], xs[1], xs[2]), (xs[3] * 3600 + xs[4] * 60 + xs[5]) * NANOS_A_SECOND + xs[6])
  }

  predicate InRange(xs: seq<nat>)
    requires |xs| == 7
  {
    Date(xs[0], xs[1], xs[2]).Valid() && xs[3] < 24 && xs[4] < 60 && xs[5] < 60 && xs[6] < NANOS_A_SECOND
  }

  function Format(t: Instant): string
    requires t.Valid() && 0 <= t.date.year
  {
    Print(Fields(t), HEAD + FRACTION) + "Z"
  }

  /** Instants outside the years 1 to 9999 become the nearer end. */
  function Clamp(t: Instant): (r: Instant)
    requires t.Valid()
    ensures r.Valid() && 1 <= r.date.year <= 9999
  {
    if Before(t, FLOOR) then FLOOR else if Before(CEILING, t) then CEILING else t
  }

  /** The stored text; the zero time is the unset marker. */
  function NewStoredTime(t: Instant): string
    requires t.Valid()
  {
    if t == ZERO then "" else Format(Clamp(t))
  }

  predicate Ordered(s: string) {
    s == "" || (|s| == WIDTH && s[WIDTH - 1] == 'Z')
  }

  /** A fraction of a second in nanoseconds; digits past the ninth are dropped. */
  function Nanoseconds(digits: string): nat
    requires AllDigits(digits)
  {
    if |digits| > 9 then Value(digits[..9]) else Value(digits) * PowerOfTen(9 - |digits|)
  }

  /** The hour may be written with one digit. */
  function HourDigits(s: string): (h: nat)
    ensures h == 1 || h == 2
  {
    if |s| > 12 && IsDigit(s[12]) then 2 else 1
  }

  /** What may stand between the seconds and the zone: nothing, or a point or comma and some digits. */
  predicate IsFraction(f: string) {
    f == "" || (|f| > 1 && f[0] in ".," && AllDigits(f[1..]))
  }

  function FractionOf(f: string): nat
    requires IsFraction(f)
  {
    if f == "" then 0 else Nanoseconds(f[1..])
  }

  /** Decode a stored timestamp in UTC; a text written by hand or by an older encoding need not be in stored form. */
  function Decode(s: string): Decoded {
    var n := 17 + HourDigits(s);
    if s == "" then Ok(ZERO)
    else if |s| <= n || s[|s| - 1] != 'Z' then Invalid
    else
      assert Width(Head(HourDigits(s))) == n by { HeadWidth(); }
      var (ok, head), f := Read(s[..n], Head(HourDigits(s))), s[n..|s| - 1];
      if ok && IsFraction(f) && InRange(head + [FractionOf(f)]) then Ok(OfFields(head + [FractionOf(f)])) else Invalid
  }

  lemma WidthOfThree(places: seq<Place>)
    requires |places| == 3
    ensures Width(places) == |places[0].before| + places[0].digits + |places[1].before| + places[1].digits
                             + |places[2].before| + places[2].digits
  {
    assert places[1..][0] == places[1] && places[1..][1..] == places[2..] && places[2..][0] == places[2] && places[2..][1..] == [];
    assert Width(places[2..]) == |places[2].before| + places[2].digits;
    assert Width(places[1..]) == |places[1].before| + places[1].digits + Width(places[2..]);
  }

  lemma {:induction false} WidthJoin(first: seq<Place>, then_: seq<Place>)
    ensures Width(first + then_) == Width(first) + Width(then_)
  {
    if first == [] {
      assert first + then_ == then_;
    } else {
      assert (first + then_)[1..] == first[1..] + then_;
      WidthJoin(first[1..], then_);
    }
  }

  lemma HeadWidth()
    ensures Width(DATE) == 10 && Width(FRACTION) == 10 && Width(HEAD + FRACTION) == 29
    ensures forall h: nat :: Width(Clock(h)) == 7 + h && Width(Head(h)) == 17 + h
  {
    WidthOfThree(DATE);
    assert FRACTION[1..] == [];
    forall h: nat ensures Width(Clock(h)) == 7 + h && Width(Head(h)) == 17 + h {
      WidthOfThree(Clock(h));
      WidthJoin(DATE, Clock(h));
    }
    WidthJoin(HEAD, FRACTION);
  }

  lemma FieldsReturn(t: Instant)
    requires t.Valid() && 0 <= t.date.year
    ensures InRange(Fields(t)) && OfFields(Fields(t)) == t
  {
  }

  lemma FieldsFit(t: Instant)
    requires t.Valid() && 0 <= t.date.year <= 9999
    ensures Fits(Fields(t), HEAD + FRACTION) && InRange(Fields(t)) && OfFields(Fields(t)) == t
  {
    FieldsReturn(t);
    hide OfFields;
    assert PowerOfTen(2) == 100;
    assert PowerOfTen(4) == 10000;
    assert PowerOfTen(6) == 100 * PowerOfTen(4);
    assert PowerOfTen(9) == 1000 * PowerOfTen(6);
  }

  /** Comparing the rows is comparing their first difference. */
  lemma LexLonger(x: nat, xs: seq<nat>, y: nat, ys: seq<nat>)
    requires |xs| == |ys|
    ensures LexLess([x] + xs, [y] + ys) <==> x < y || (x == y && LexLess(xs, ys))
  {
    assert ([x] + xs)[1..] == xs && ([y] + ys)[1..] == ys;
  }

  predicate ClockLess(a: int, b: int)
    requires 0 <= a && 0 <= b
  {
    var m, n := a / NANOS_A_SECOND, b / NANOS_A_SECOND;
    LexLess([m / 3600, m / 60 % 60, m % 60, a % NANOS_A_SECOND], [n / 3600, n / 60 % 60, n % 60, b % NANOS_A_SECOND])
  }

  lemma ClockOrder(a: int, b: int)
    requires 0 <= a && 0 <= b
    ensures ClockLess(a, b) <==> a < b
  {
    var m, n := a / NANOS_A_SECOND, b / NANOS_A_SECOND;
    var u, v := a % NANOS_A_SECOND, b % NANOS_A_SECOND;
    LexLonger(u, [], v, []);
    LexLonger(m % 60, [u], n % 60, [v]);
    LexLonger(m / 60 % 60, [m % 60, u], n / 60 % 60, [n % 60, v]);
    LexLonger(m / 3600, [m / 60 % 60, m % 60, u], n / 3600, [n / 60 % 60, n % 60, v]);
    assert [u] + [] == [u] && [v] + [] == [v];
    assert [m % 60] + [u] == [m % 60, u] && [n % 60] + [v] == [n % 60, v];
    assert [m / 60 % 60] + [m % 60, u] == [m / 60 % 60, m % 60, u] && [n / 60 % 60] + [n % 60, v] == [n / 60 % 60, n % 60, v];
    assert [m / 3600] + [m / 60 % 60, m % 60, u] == [m / 3600, m / 60 % 60, m % 60, u];
    assert [n / 3600] + [n / 60 % 60, n % 60, v] == [n / 3600, n / 60 % 60, n % 60, v];
    hide LexLess;
    SecondsOrder(m, n);
  }

  lemma SecondsOrder(m: nat, n: nat)
    ensures m < n <==> (m / 3600 < n / 3600 || (m / 3600 == n / 3600 &&
                          (m / 60 % 60 < n / 60 % 60 || (m / 60 % 60 == n / 60 % 60 && m % 60 < n % 60))))
    ensures m == n <==> m / 3600 == n / 3600 && m / 60 % 60 == n / 60 % 60 && m % 60 == n % 60
  {
    assert m / 60 / 60 == m / 3600 && n / 60 / 60 == n / 3600;
  }

  /** Fields compare as the instants do. */
  lemma FieldsOrder(a: Instant, b: Instant)
    requires a.Valid() && b.Valid() && 0 <= a.date.year && 0 <= b.date.year
    ensures LexLess(Fields(a), Fields(b)) <==> Before(a, b)
  {
    var xs, ys, d, e := Fields(a), Fields(b), a.date, b.date;
    ClockOrder(a.nano, b.nano);
    LexLonger(d.day, xs[3..], e.day, ys[3..]);
    LexLonger(d.month, [d.day] + xs[3..], e.month, [e.day] + ys[3..]);
    LexLonger(d.year, [d.month] + ([d.day] + xs[3..]), e.year, [e.month] + ([e.day] + ys[3..]));
    assert xs == [d.year] + ([d.month] + ([d.day] + xs[3..])) && ys == [e.year] + ([e.month] + ([e.day] + ys[3..]));
    hide LexLess;
  }

  /** Formatted timestamps have one width, end in Z and compare as bytes the way the instants do. */
  lemma FormatOrders(a: Instant, b: Instant)
    requires a.Valid() && b.Valid() && 0 <= a.date.year <= 9999 && 0 <= b.date.year <= 9999
    ensures |Format(a)| == WIDTH && Format(a)[WIDTH - 1] == 'Z'
    ensures StringLess(Format(a), Format(b)) <==> Before(a, b)
    ensures Format(a) == Format(b) <==> a == b
  {
    HeadWidth();
    FieldsFit(a);
    FieldsFit(b);
    FieldsOrder(a, b);
    PrintOrder(Fields(a), Fields(b), HEAD + FRACTION);
    PrintReads(Fields(a), HEAD + FRACTION);
    PrintReads(Fields(b), HEAD + FRACTION);
    var x, y := Print(Fields(a), HEAD + FRACTION), Print(Fields(b), HEAD + FRACTION);
    LessParts(x, "Z", y, "Z");
    StringLessTotal("Z", "Z");
    assert Format(a) == Format(b) ==> x == y by { assert Format(a)[..29] == x && Format(b)[..29] == y; }
  }

  /** What is stored for any two instants but the zero time compares as the instants do, clamped to the years 1 to 9999. */
  lemma StoredOrder(a: Instant, b: Instant)
    requires a.Valid() && b.Valid() && a != ZERO && b != ZERO
    ensures Ordered(NewStoredTime(a)) && |NewStoredTime(a)| == WIDTH
    ensures StringLess(NewStoredTime(a), NewStoredTime(b)) <==> Before(Clamp(a), Clamp(b))
  {
    FormatOrders(Clamp(a), Clamp(b));
  }

  /** Clamping never puts a later instant before an earlier one, and moves only what lies outside the years 1 to 9999. */
  lemma ClampKeepsOrder(a: Instant, b: Instant)
    requires a.Valid() && b.Valid()
    ensures !Before(b, a) ==> !Before(Clamp(b), Clamp(a))
    ensures Clamp(a) == a <==> 1 <= a.date.year <= 9999
  {
  }

  /** The rows of two texts joined are the row of the one and the row of the other. */
  function Joined(head: (bool, seq<nat>), tail: (bool, seq<nat>)): (bool, seq<nat>) {
    if head.0 && tail.0 then (true, head.1 + tail.1) else (false, [])
  }

  lemma CutAhead(a: string, b: string, d: nat)
    requires d <= |a|
    ensures (a + b)[..d] == a[..d] && (a + b)[d..] == a[d..] + b
  {
  }

  lemma {:induction false} ReadJoin(a: string, b: string, first: seq<Place>, then_: seq<Place>)
    requires |a| == Width(first) && |b| == Width(then_)
    ensures Width(first + then_) == |a + b| && Read(a + b, first + then_) == Joined(Read(a, first), Read(b, then_))
  {
    hide Read;
    hide ReadOne;
    hide Joined;
    hide More;
    if first == [] {
      assert first + then_ == then_ && a + b == b;
      NothingReads(a);
      JoinedNothing(Read(b, then_));
    } else {
      var d, all := |first[0].before| + first[0].digits, first + then_;
      assert all[1..] == first[1..] + then_ && all[0] == first[0];
      ReadJoin(a[d..], b, first[1..], then_);
      CutAhead(a, b, d);
      ReadMore(a, first);
      ReadMore(a + b, all);
      JoinedMore(ReadOne(a[..d], first[0]), Read(a[d..], first[1..]), Read(b, then_));
    }
  }

  lemma JoinedNothing(tail: (bool, seq<nat>))
    requires !tail.0 ==> tail.1 == []
    ensures Joined((true, []), tail) == tail
  {
    assert [] + tail.1 == tail.1;
  }

  lemma ReadMore(s: string, places: seq<Place>)
    requires |s| == Width(places) && places != []
    ensures var d := |places[0].before| + places[0].digits;
            |s[d..]| == Width(places[1..]) && Read(s, places) == More(ReadOne(s[..d], places[0]), Read(s[d..], places[1..]))
  {}

  lemma NothingReads(s: string)
    requires s == ""
    ensures Read(s, []) == (true, [])
  {}

  lemma JoinedMore(one: (bool, nat), head: (bool, seq<nat>), tail: (bool, seq<nat>))
    ensures More(one, Joined(head, tail)) == Joined(More(one, head), tail)
  {
    assert [one.1] + (head.1 + tail.1) == ([one.1] + head.1) + tail.1;
  }

  /** A full fraction reads as its nine digits. */
  lemma FractionReads(s: string)
    requires |s| == 10
    ensures Width(FRACTION) == 10
    ensures var r := Read(s, FRACTION);
            if s[0] == '.' && AllDigits(s[1..]) then r == (true, [Nanoseconds(s[1..])]) else !r.0
  {
    HeadWidth();
    assert FRACTION[1..] == [];
    assert s[..10] == s && s[..1] == [s[0]] && s[10..] == "";
    assert Read("", []) == (true, []);
    assert PowerOfTen(0) == 1;
    hide AllDigits;
    hide Value;
    if AllDigits(s[1..]) {
      assert [Value(s[1..])] + [] == [Value(s[1..])];
      assert Nanoseconds(s[1..]) == Value(s[1..]);
    }
  }

  lemma ReadMoreOk(s: string, places: seq<Place>)
    requires |s| == Width(places) && places != []
    ensures var d := |places[0].before| + places[0].digits;
            |s[d..]| == Width(places[1..]) && (Read(s, places).0 ==> ReadOne(s[..d], places[0]).0 && Read(s[d..], places[1..]).0)
  {
    ReadMore(s, places);
    hide Read;
    hide ReadOne;
  }

  lemma ReadJoinOk(a: string, b: string, first: seq<Place>, then_: seq<Place>)
    requires |a| == Width(first) && |b| == Width(then_)
    ensures |a + b| == Width(first + then_) && (Read(a + b, first + then_).0 ==> Read(a, first).0 && Read(b, then_).0)
  {
    ReadJoin(a, b, first, then_);
    hide Read;
    hide Width;
  }

  /** A place read has its text before and its digits after. */
  lemma ReadOneOk(s: string, place: Place)
    requires |s| == |place.before| + place.digits
    ensures ReadOne(s, place).0 ==> s[..|place.before|] == place.before && AllDigits(s[|place.before|..])
  {}

  /** A text read as a head has its hour's digits after the T, and a colon after them. */
  lemma HourPlace(s: string, h: nat)
    requires |s| == 17 + h
    ensures Width(Head(h)) == 17 + h
    ensures Read(s, Head(h)).0 ==> AllDigits(s[11..11 + h]) && s[11 + h] == ':' && IsDigit(s[12 + h])
  {
    hide Read;
    hide ReadOne;
    hide Width;
    HeadWidth();
    var clock, places := s[10..], Clock(h);
    var rest := clock[1 + h..];
    assert s[..10] + clock == s;
    ReadJoinOk(s[..10], clock, DATE, places);
    ReadMoreOk(clock, places);
    ReadMoreOk(rest, places[1..]);
    ReadOneOk(clock[..1 + h], Place("T", h));
    ReadOneOk(rest[..3], Place(":", 2));
    assert places[0] == Place("T", h) && places[1..][0] == Place(":", 2);
    assert clock[..1 + h][1..] == s[11..11 + h];
    assert rest[..3][..1] == [s[11 + h]] && rest[..3][1..][0] == s[12 + h];
  }

  /** A text of the stored width with the colon and the point in their places decodes exactly when its row of numbers does. */
  lemma DecodeFull(s: string)
    requires |s| == WIDTH && s[WIDTH - 1] == 'Z' && s[13] == ':' && s[19] == '.'
    ensures Width(HEAD + FRACTION) == 29
    ensures var (ok, xs) := Read(s[..29], HEAD + FRACTION);
            Decode(s) == if ok && InRange(xs) then Ok(OfFields(xs)) else Invalid
  {
    hide Read;
    hide Width;
    hide InRange;
    hide Nanoseconds;
    hide Value;
    HeadWidth();
    ReadJoin(s[..19], s[19..29], HEAD, FRACTION);
    FractionReads(s[19..29]);
    HourPlace(s[..19], 2);
    HourPlace(s[..18], 1);
    assert s[..19] + s[19..29] == s[..29];
    assert s[..19][11..13] == [s[11], s[12]] && s[..18][13] == s[13] && s[19..29][0] == s[19];
  }

  lemma FormatDecodes(t: Instant)
    requires t.Valid() && 0 <= t.date.year <= 9999
    ensures Decode(Format(t)) == Ok(t)
  {
    FormatOrders(t, t);
    FormatPlaces(t);
    DecodeFull(Format(t));
    FieldsFit(t);
    PrintReads(Fields(t), HEAD + FRACTION);
    assert Format(t)[..29] == Print(Fields(t), HEAD + FRACTION);
  }

  /** An instant of the years 1 to 9999 is decoded to the nanosecond; one outside them to the nearer end. */
  lemma DecodesBack(t: Instant)
    requires t.Valid()
    ensures Decode(NewStoredTime(t)) == Ok(Clamp(t))
    ensures 1 <= t.date.year <= 9999 ==> Clamp(t) == t
  {
    if t != ZERO { FormatDecodes(Clamp(t)); }
    hide Decode;
    hide Format;
  }

  lemma Tenfold(v: nat, p: nat)
    ensures 10 * v * p == v * (10 * p)
  {}

  lemma ZeroNext(s: string, k: nat)
    requires AllDigits(s) && k < |s| && s[k] == '0'
    ensures Value(s[..k + 1]) == 10 * Value(s[..k])
  {
    assert s[..k + 1][..k] == s[..k];
  }

  /** Digits that end in zeros are the ones before them with as many tens. */
  lemma {:induction false} ZerosScale(s: string, k: nat)
    requires AllDigits(s) && k <= |s| && forall i :: k <= i < |s| ==> s[i] == '0'
    ensures Value(s) == Value(s[..k]) * PowerOfTen(|s| - k)
    decreases |s| - k
  {
    hide Value;
    if k < |s| {
      ZerosScale(s, k + 1);
      ZeroNext(s, k);
      Tenfold(Value(s[..k]), PowerOfTen(|s| - k - 1));
      assert PowerOfTen(|s| - k) == 10 * PowerOfTen(|s| - k - 1);
      hide PowerOfTen;
    } else {
      assert s[..k] == s;
    }
  }

  /** A fraction of a second, and what of it is left when no more than its first k digits are written. */
  lemma ShortFraction(nanos: nat, k: nat)
    requires nanos < PowerOfTen(9) && k <= 9 && forall i :: k <= i < 9 ==> Digits(nanos, 9)[i] == '0'
    ensures var f := if k == 0 then "" else "." + Digits(nanos, 9)[..k]; IsFraction(f) && FractionOf(f) == nanos
  {
    var d := Digits(nanos, 9);
    DigitsRead(nanos, 9);
    ZerosScale(d, k);
    hide Digits;
    hide PowerOfTen;
    if k == 0 {
      assert d[..0] == "";
    } else {
      assert ("." + d[..k])[1..] == d[..k];
    }
  }

  lemma FormatParts(t: Instant)
    requires t.Valid() && 0 <= t.date.year <= 9999
    ensures Fits(Fields(t)[..6], HEAD) && |Print(Fields(t)[..6], HEAD)| == 19
    ensures Format(t) == Print(Fields(t)[..6], HEAD) + ("." + Digits(Fields(t)[6], 9)) + "Z"
  {
    HeadWidth();
    FieldsFit(t);
    var xs := Fields(t);
    hide Fields;
    hide Digits;
    PrintJoin(xs[..6], xs[6..], HEAD, FRACTION);
    assert xs == xs[..6] + xs[6..] && xs[6..][0] == xs[6];
    assert FRACTION[1..] == [] && xs[6..][1..] == [];
    assert Print(xs[6..], FRACTION) == "." + Digits(xs[6], 9) + Print([], []);
    assert forall i :: 0 <= i < 6 ==> HEAD[i] == (HEAD + FRACTION)[i] && xs[..6][i] == xs[i];
  }

  /** The older encoding, which leaves off the zeros a fraction ends in, and a fraction of none but zeros, decodes to the same instant. */
  lemma OlderFormDecodes(t: Instant, k: nat)
    requires t.Valid() && 0 <= t.date.year <= 9999 && k <= 9
    requires |Format(t)| == WIDTH && forall i :: 20 + k <= i < 29 ==> Format(t)[i] == '0'
    ensures Decode(Format(t)[..if k == 0 then 19 else 20 + k] + "Z") == Ok(t)
  {
    FormatParts(t);
    FieldsFit(t);
    var xs, s := Fields(t), Format(t);
    hide Fields;
    hide Format;
    hide Decode;
    hide Print;
    hide Digits;
    hide InRange;
    hide OfFields;
    hide Fits;
    hide Read;
    hide IsFraction;
    hide FractionOf;
    hide PowerOfTen;
    var head, d := Print(xs[..6], HEAD), Digits(xs[6], 9);
    var f := if k == 0 then "" else "." + d[..k];
    CutFraction(head, d, k);
    NanosFit(t);
    ShortFraction(xs[6], k);
    DecodeParts(xs[..6], 2, f);
    assert xs == xs[..6] + [xs[6]];
  }

  lemma CutFraction(head: string, d: string, k: nat)
    requires |head| == 19 && |d| == 9 && k <= 9
    ensures var s := head + ("." + d) + "Z";
            && s[..if k == 0 then 19 else 20 + k] == head + (if k == 0 then "" else "." + d[..k])
            && forall i :: 0 <= i < 9 ==> d[i] == s[20 + i]
  {
  }

  lemma NanosFit(t: Instant)
    requires t.Valid() && 0 <= t.date.year
    ensures Fields(t)[6] < PowerOfTen(9)
  {
    assert PowerOfTen(6) == 1000000 && PowerOfTen(9) == 1000 * PowerOfTen(6);
  }

  /** Where the stored form has its colon and its point. */
  lemma FormatPlaces(t: Instant)
    requires t.Valid() && 0 <= t.date.year <= 9999
    ensures |Format(t)| == WIDTH && Format(t)[13] == ':' && Format(t)[19] == '.'
  {
    HeadWidth();
    FieldsFit(t);
    var s := Print(Fields(t), HEAD + FRACTION);
    PrintReads(Fields(t), HEAD + FRACTION);
    assert s == s[..19] + s[19..];
    ReadJoin(s[..19], s[19..], HEAD, FRACTION);
    HourPlace(s[..19], 2);
    FractionReads(s[19..]);
    hide Read;
    hide Print;
    hide Width;
  }

  lemma FieldsOfRow(xs: seq<nat>)
    requires |xs| == 7 && InRange(xs)
    ensures OfFields(xs).Valid() && Fields(OfFields(xs)) == xs
  {
    var second := xs[3] * 3600 + xs[4] * 60 + xs[5];
    var t := OfFields(xs);
    assert t.nano / NANOS_A_SECOND == second && t.nano % NANOS_A_SECOND == xs[6];
    assert second / 3600 == xs[3] && second / 60 == xs[3] * 60 + xs[4] && second % 60 == xs[5];
  }

  /** Whatever decodes is an instant of a year of four digits. */
  lemma DecodedIsValid(s: string)
    requires Decode(s).Ok?
    ensures Decode(s).time.Valid() && 0 <= Decode(s).time.date.year <= 9999
  {
    hide Read;
    hide Print;
    hide Width;
    if s != "" {
      var n, h := 17 + HourDigits(s), HourDigits(s);
      HeadWidth();
      var head := Read(s[..n], Head(h)).1;
      ReadPrints(s[..n], Head(h));
      assert head[0] < PowerOfTen(4) by { assert Head(h)[0].digits == 4; }
      assert PowerOfTen(4) == 10000;
      FieldsOfRow(head + [FractionOf(s[n..|s| - 1])]);
    }
  }

  lemma InPlaceIsForm(s: string)
    requires Ordered(s) && s != "" && Decode(s).Ok? && s[13] == ':' && s[19] == '.'
    ensures Decode(s).time.Valid() && 0 <= Decode(s).time.date.year && s == Format(Decode(s).time)
  {
    DecodeFull(s);
    var xs := Read(s[..29], HEAD + FRACTION).1;
    ReadPrints(s[..29], HEAD + FRACTION);
    FieldsOfRow(xs);
    assert s == s[..29] + "Z";
    hide Decode;
    hide Read;
    hide Width;
    hide Fields;
    hide OfFields;
    hide InRange;
  }

  /**
   A text that passes Ordered and decodes is the stored form of its instant exactly when its hour has two
   digits and its fraction begins with a point.
   */
  lemma StoredFormExactlyWhen(s: string)
    requires Ordered(s) && s != "" && Decode(s).Ok?
    ensures var t := Decode(s).time;
            t.Valid() && 0 <= t.date.year <= 9999 && (s == Format(t) <==> s[13] == ':' && s[19] == '.')
  {
    hide Decode;
    hide Format;
    DecodedIsValid(s);
    FormatPlaces(Decode(s).time);
    if s[13] == ':' && s[19] == '.' { InPlaceIsForm(s); }
  }

  /** The text of no time at all, or one with the stored form's colon and point. */
  predicate InPlace(s: string)
    requires Ordered(s)
  {
    s == "" || (s[13] == ':' && s[19] == '.')
  }

  /**
   So bytes of any two such texts compare as their instants do, but for the text of no time: it is least, and
   its instant is before those only that are later than the zero time.
   */
  lemma OrderedCompares(s: string, t: string)
    requires Ordered(s) && Decode(s).Ok? && InPlace(s)
    requires Ordered(t) && Decode(t).Ok? && InPlace(t)
    ensures (StringLess(s, t) <==> Before(Decode(s).time, Decode(t).time))
       <==> ((s == "") != (t == "") ==> if s == "" then Before(ZERO, Decode(t).time) else !Before(Decode(s).time, ZERO))
  {
    if s != "" { StoredFormExactlyWhen(s); }
    if t != "" { StoredFormExactlyWhen(t); }
    if s != "" && t != "" { FormatOrders(Decode(s).time, Decode(t).time); }
    hide Format;
  }

  // ----- texts that pass Ordered and do not compare -----

  lemma HourOfHead(head: string, h: nat, s: string)
    requires h in {1, 2} && |head| == 17 + h && head <= s
    ensures Width(Head(h)) == |head| && (Read(head, Head(h)).0 ==> HourDigits(s) == h)
  {
    HourPlace(head, h);
    assert h == 2 ==> head[11..13][1] == s[12];
    hide Read;
    hide Width;
  }

  lemma ThreeParts(a: string, b: string, c: string)
    ensures var s := a + b + c; s[..|a|] == a && s[|a|..|s| - |c|] == b
  {
  }

  /** A head printed with an hour of so many digits, and a fraction, decode to what was printed. */
  lemma DecodeParts(xs: seq<nat>, h: nat, f: string)
    requires h in {1, 2} && Fits(xs, Head(h)) && IsFraction(f)
    ensures var row := xs + [FractionOf(f)];
            Decode(Print(xs, Head(h)) + f + "Z") == if InRange(row) then Ok(OfFields(row)) else Invalid
  {
    hide HourDigits;
    hide Read;
    hide Print;
    hide Width;
    hide InRange;
    hide FractionOf;
    hide IsFraction;
    hide OfFields;
    HeadWidth();
    PrintReads(xs, Head(h));
    var head := Print(xs, Head(h));
    var s := head + f + "Z";
    HourOfHead(head, h, s);
    ThreeParts(head, f, "Z");
  }

  /** One character alone between the seconds and the zone is no fraction. */
  lemma BareMarkRefused(xs: seq<nat>, h: nat, mark: char)
    requires h in {1, 2} && Fits(xs, Head(h))
    ensures Decode(Print(xs, Head(h)) + [mark] + "Z") == Invalid
  {
    hide HourDigits;
    hide Read;
    hide Print;
    hide Width;
    hide InRange;
    hide FractionOf;
    hide OfFields;
    HeadWidth();
    var head := Print(xs, Head(h));
    HourOfHead(head, h, head + [mark] + "Z");
    PrintReads(xs, Head(h));
    ThreeParts(head, [mark], "Z");
  }

  lemma {:induction false} PrintJoin(xs: seq<nat>, ys: seq<nat>, first: seq<Place>, then_: seq<Place>)
    requires |xs| == |first| && |ys| == |then_|
    ensures Print(xs + ys, first + then_) == Print(xs, first) + Print(ys, then_)
  {
    if first == [] {
      assert first + then_ == then_ && xs + ys == ys;
    } else {
      assert (first + then_)[1..] == first[1..] + then_ && (xs + ys)[1..] == xs[1..] + ys;
      PrintJoin(xs[1..], ys, first[1..], then_);
    }
    hide Digits;
  }

  lemma PrintThree(xs: seq<nat>, places: seq<Place>)
    requires |xs| == 3 && |places| == 3
    ensures Print(xs, places) == places[0].before + Digits(xs[0], places[0].digits) + places[1].before + Digits(xs[1], places[1].digits)
                                 + places[2].before + Digits(xs[2], places[2].digits)
  {
    hide Digits;
    assert places[1..][0] == places[1] && places[1..][1..] == places[2..] && places[2..][0] == places[2] && places[2..][1..] == [];
    assert xs[1..][0] == xs[1] && xs[1..][1..] == xs[2..] && xs[2..][0] == xs[2] && xs[2..][1..] == [];
    assert Print(xs[2..], places[2..]) == places[2].before + Digits(xs[2], places[2].digits);
    assert Print(xs[1..], places[1..]) == places[1].before + Digits(xs[1], places[1].digits) + Print(xs[2..], places[2..]);
  }

  lemma SomeDigits()
    ensures Digits(2026, 4) == "2026" && Digits(7, 2) == "07" && Digits(27, 2) == "27" && Digits(0, 2) == "00"
    ensures Digits(10, 2) == "10" && Digits(9, 2) == "09" && Digits(1, 1) == "1"
    ensures PowerOfTen(0) == 1 && PowerOfTen(1) == 10 && PowerOfTen(2) == 100 && PowerOfTen(4) == 10000 && PowerOfTen(9) == 1000000000
  {
    assert Digits(2, 1) == "2" && Digits(20, 2) == "20" && Digits(202, 3) == "202";
    assert Digits(0, 1) == "0" && Digits(1, 1) == "1";
    assert PowerOfTen(6) == 100 * PowerOfTen(4) && PowerOfTen(9) == 1000 * PowerOfTen(6);
  }

  /** A text of the 27th of July 2026 up to its full hour's seconds. */
  function OnHour(hour: string): (s: string)
    ensures |s| == 17 + |hour|
  {
    "2026-07-27T" + hour + ":00:00"
  }

  lemma DayText()
    ensures Print([2026, 7, 27], DATE) == "2026-07-27"
  {
    SomeDigits();
    hide Digits;
    hide Print;
    PrintThree([2026, 7, 27], DATE);
  }

  lemma ClockText(hour: nat, h: nat)
    ensures Print([hour, 0, 0], Clock(h)) == "T" + Digits(hour, h) + ":00:00"
  {
    SomeDigits();
    hide Digits;
    hide Print;
    PrintThree([hour, 0, 0], Clock(h));
    assert "T" + Digits(hour, h) + ":" + "00" + ":" + "00" == "T" + Digits(hour, h) + ":00:00";
  }

  /** That is how a head of that hour is written. */
  lemma HourText(hour: nat, h: nat)
    ensures Print([2026, 7, 27, hour, 0, 0], Head(h)) == OnHour(Digits(hour, h))
  {
    hide Digits;
    hide Print;
    DayText();
    ClockText(hour, h);
    PrintJoin([2026, 7, 27], [hour, 0, 0], DATE, Clock(h));
    assert [2026, 7, 27] + [hour, 0, 0] == [2026, 7, 27, hour, 0, 0];
    assert "2026-07-27" + ("T" + Digits(hour, h) + ":00:00") == "2026-07-27T" + Digits(hour, h) + ":00:00";
  }

  lemma HourFits(hour: nat, h: nat)
    requires h in {1, 2} && hour < PowerOfTen(h)
    ensures Fits([2026, 7, 27, hour, 0, 0], Head(h))
  {
    SomeDigits();
    hide PowerOfTen;
  }

  /** Two texts that pass Ordered, the one whose bytes are less being the later. */
  ghost predicate OutOfOrder(less: string, more: string) {
    && Ordered(less) && Ordered(more) && StringLess(less, more)
    && Decode(less).Ok? && Decode(more).Ok? && Before(Decode(more).time, Decode(less).time)
  }

  /** The hour and a fraction of nine digits or more, as the instant they decode to. */
  lemma HourDecodes(hour: nat, h: nat, f: string)
    requires h in {1, 2} && hour < 24 && hour < PowerOfTen(h) && IsFraction(f) && FractionOf(f) < NANOS_A_SECOND
    ensures Decode(OnHour(Digits(hour, h)) + f + "Z")
         == Ok(Instant(Date(2026, 7, 27), hour * 3600 * NANOS_A_SECOND + FractionOf(f)))
  {
    hide Decode;
    hide Print;
    hide Digits;
    hide FractionOf;
    hide OnHour;
    hide IsFraction;
    hide Fits;
    var xs := [2026, 7, 27, hour, 0, 0];
    HourText(hour, h);
    HourFits(hour, h);
    DecodeParts(xs, h, f);
    assert xs + [FractionOf(f)] == [2026, 7, 27, hour, 0, 0, FractionOf(f)];
  }

  /** Nine digits or more are less than a second. */
  lemma NineDigits(f: string)
    requires IsFraction(f) && |f| >= 10
    ensures AllDigits(f[1..10]) && FractionOf(f) == Value(f[1..10]) < NANOS_A_SECOND
  {
    SomeDigits();
    hide Digits;
    hide Value;
    hide PowerOfTen;
    DigitsWrite(f[1..10]);
    assert f[1..][..9] == f[1..10];
    if |f| == 10 { assert f[1..] == f[1..10]; }
  }

  /** Two instants of that hour whose fractions' digits compare compare the same way. */
  lemma FractionsCompare(hour: nat, f: string, g: string)
    requires hour < 24 && IsFraction(f) && IsFraction(g) && |f| == |g| == 10 && StringLess(g[1..], f[1..])
    ensures Decode(OnHour(Digits(hour, 2)) + f + "Z").Ok? && Decode(OnHour(Digits(hour, 2)) + g + "Z").Ok?
    ensures Before(Decode(OnHour(Digits(hour, 2)) + g + "Z").time,
                   Decode(OnHour(Digits(hour, 2)) + f + "Z").time)
  {
    SomeDigits();
    hide Decode;
    hide Value;
    hide Digits;
    hide PowerOfTen;
    hide FractionOf;
    hide IsFraction;
    NineDigits(f);
    NineDigits(g);
    assert f[1..10] == f[1..] && g[1..10] == g[1..];
    DigitsWrite(f[1..]);
    DigitsWrite(g[1..]);
    DigitsOrder(Value(g[1..]), Value(f[1..]), 9);
    HourDecodes(hour, 2, f);
    HourDecodes(hour, 2, g);
  }

  /** Texts with one beginning compare by what follows it. */
  lemma LessAfter(a: string, b: string, c: string)
    requires b != "" && c != "" && b[0] < c[0]
    ensures StringLess(a + b, a + c)
  {
    LessParts(a, b, a, c);
    StringLessTotal(a, a);
  }

  lemma CommaFraction()
    ensures var f, g := ",900000000", ".100000000"; IsFraction(f) && IsFraction(g) && StringLess(g[1..], f[1..])
  {
  }

  /** A comma sorts before a point. */
  lemma CommaOutOfOrder()
    ensures OutOfOrder(OnHour("10") + ",900000000" + "Z", OnHour("10") + ".100000000" + "Z")
  {
    hide OnHour;
    hide Decode;
    hide Digits;
    hide PowerOfTen;
    hide IsFraction;
    hide AllDigits;
    var head, f, g := OnHour("10"), ",900000000", ".100000000";
    SomeDigits();
    CommaFraction();
    FractionsCompare(10, f, g);
    LessAfter(head, f + "Z", g + "Z");
    assert head + (f + "Z") == head + f + "Z" && head + (g + "Z") == head + g + "Z";
    hide StringLess;
    hide Before;
  }

  lemma HoursCompare(f: string, g: string)
    requires IsFraction(f) && IsFraction(g) && |f| >= 10 && |g| >= 10
    ensures Decode(OnHour("09") + f + "Z").Ok? && Decode(OnHour("1") + g + "Z").Ok?
    ensures Before(Decode(OnHour("1") + g + "Z").time, Decode(OnHour("09") + f + "Z").time)
  {
    SomeDigits();
    hide OnHour;
    hide Decode;
    hide Digits;
    hide IsFraction;
    hide FractionOf;
    hide PowerOfTen;
    hide Value;
    NineDigits(f);
    NineDigits(g);
    HourDecodes(9, 2, f);
    HourDecodes(1, 1, g);
  }

  lemma HourFractions()
    ensures IsFraction(".000000000") && IsFraction(".1234567890")
  {
  }

  /** An hour of one digit sorts with the tens. */
  lemma HourOutOfOrder()
    ensures OutOfOrder(OnHour("09") + ".000000000" + "Z", OnHour("1") + ".1234567890" + "Z")
  {
    hide OnHour;
    hide Decode;
    hide IsFraction;
    hide AllDigits;
    hide StringLess;
    hide Before;
    var f, g := ".000000000", ".1234567890";
    HourFractions();
    HoursCompare(f, g);
    OnHourLess(f + "Z", g + "Z");
    assert OnHour("09") + f + "Z" == OnHour("09") + (f + "Z") && OnHour("1") + g + "Z" == OnHour("1") + (g + "Z");
  }

  lemma OnHourLess(x: string, y: string)
    ensures StringLess(OnHour("09") + x, OnHour("1") + y)
  {
    var b, c := "09" + (":00:00" + x), "1" + (":00:00" + y);
    LessAfter("2026-07-27T", b, c);
    assert OnHour("09") + x == "2026-07-27T" + b && OnHour("1") + y == "2026-07-27T" + c;
    hide StringLess;
  }

  /** The text of no time comes before any other, and the year 0 before the time it stands for. */
  lemma EmptyOutOfOrder()
    ensures OutOfOrder("", Format(Instant(Date(0, 12, 31), 0)))
  {
    var t := Instant(Date(0, 12, 31), 0);
    FormatDecodes(t);
    FormatOrders(t, t);
    hide Format;
  }
}
