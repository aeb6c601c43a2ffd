/** Stored timestamps (pkg/recorder/index_sqlite.go): times are written as RFC 3339 text with
nanoseconds, trailing zeros dropped, and range queries compare that text byte by byte.
*/
module TextTime {
  import opened Recording

  const YEARS: nat := 10_000

  /** A UTC time in years 0000 to 9999. */
  datatype Civil = Civil(year: nat, month: nat, day: nat, hour: nat, minute: nat, second: nat, nanos: nat)

  predicate Leap(y: nat) { y % 4 == 0 && (y % 100 != 0 || y % 400 == 0) }

  function YearLen(y: nat): nat { if Leap(y) then 366 else 365 }

  function MonthLen(y: nat, m: nat): nat {
    if m == 2 then (if Leap(y) then 29 else 28)
    else if m == 4 || m == 6 || m == 9 || m == 11 then 30
    else 31
  }

  predicate Valid(c: Civil) {
    && c.year < YEARS && 1 <= c.month <= 12 && 1 <= c.day <= MonthLen(c.year, c.month)
    && c.hour < 24 && c.minute < 60 && c.second < 60 && c.nanos < 1_000_000_000
  }

  function DaysBeforeYear(y: nat): nat {
    if y == 0 then 0 else DaysBeforeYear(y - 1) + YearLen(y - 1)
  }

  function DaysBeforeMonth(y: nat, m: nat): nat {
    if m <= 1 then 0 else DaysBeforeMonth(y, m - 1) + MonthLen(y, m - 1)
  }

  function Days(c: Civil): int { DaysBeforeYear(c.year) + DaysBeforeMonth(c.year, c.month) + c.day }

  /** Whole seconds since 0001-01-01T00:00:00Z. */
  function Seconds(c: Civil): int {
    (Days(c) - 367) * 86_400 + c.hour * 3_600 + c.minute * 60 + c.second
  }

  function Instant(c: Civil): Time { Seconds(c) * SECOND + c.nanos }

  // ---------------------------------------------------------------- text

  /** Byte order of text. */
  predicate TextLess(a: string, b: string) {
    b != [] && (a == [] || a[0] < b[0] || (a[0] == b[0] && TextLess(a[1..], b[1..])))
  }

  function Digit(n: nat): (c: char)
    requires n < 10
  {
    (48 + n) as char
  }

  function Pow10(w: nat): (p: nat)
    ensures p > 0
  {
    if w == 0 then 1 else 10 * Pow10(w - 1)
  }

  /** n in decimal, zero-padded to width w. */
  function Digits(n: nat, w: nat): (s: string)
    ensures |s| == w
  {
    if w == 0 then [] else Digits(n / 10, w - 1) + [Digit(n % 10)]
  }

  function TrimZeros(s: string): (t: string)
    ensures t <= s
  {
    if s != [] && s[|s| - 1] == '0' then TrimZeros(s[..|s| - 1]) else s
  }

  function Fraction(nanos: nat): (s: string) {
    if nanos == 0 then "" else "." + TrimZeros(Digits(nanos, 9))
  }

  datatype Field = Field(value: nat, width: nat, separator: string)

  function Fields(c: Civil): seq<Field> {
    [Field(c.year, 4, "-"), Field(c.month, 2, "-"), Field(c.day, 2, "T"),
     Field(c.hour, 2, ":"), Field(c.minute, 2, ":"), Field(c.second, 2, "")]
  }

  function Print(fs: seq<Field>): (s: string) {
    if fs == [] then [] else Digits(fs[0].value, fs[0].width) + (fs[0].separator + Print(fs[1..]))
  }

  function Tail(nanos: nat): (s: string) { Fraction(nanos) + "Z" }

  /** time.RFC3339Nano of a UTC time. */
  function Format(c: Civil): (s: string) { Print(Fields(c)) + Tail(c.nanos) }

  // ---------------------------------------------------------------- order of text

  lemma {:induction false} TextLessAppend(a: string, b: string, x: string, y: string)
    requires |a| == |b|
    ensures TextLess(a + x, b + y) <==> TextLess(a, b) || (a == b && TextLess(x, y))
  {
    if a == [] {
      assert a + x == x && b + y == y;
    } else {
      assert (a + x)[1..] == a[1..] + x && (b + y)[1..] == b[1..] + y;
      TextLessAppend(a[1..], b[1..], x, y);
      assert a == [a[0]] + a[1..] && b == [b[0]] + b[1..];
    }
  }

  lemma {:induction false} TextLessSame(a: string, x: string, y: string)
    ensures TextLess(a + x, a + y) <==> TextLess(x, y)
  {
    TextLessAppend(a, a, x, y);
    TextIrreflexive(a);
  }

  lemma {:induction false} TextIrreflexive(a: string)
    ensures !TextLess(a, a)
  {
    if a != [] { TextIrreflexive(a[1..]); }
  }

  lemma {:induction false} DigitsOrder(n: nat, m: nat, w: nat)
    requires n < Pow10(w) && m < Pow10(w)
    ensures TextLess(Digits(n, w), Digits(m, w)) <==> n < m
    ensures Digits(n, w) == Digits(m, w) <==> n == m
  {
    if w > 0 {
      var a, b := Digits(n / 10, w - 1), Digits(m / 10, w - 1);
      DigitsOrder(n / 10, m / 10, w - 1);
      TextLessAppend(a, b, [Digit(n % 10)], [Digit(m % 10)]);
      assert Digits(n, w)[..w - 1] == a && Digits(m, w)[..w - 1] == b;
      assert Digits(n, w)[w - 1] == Digit(n % 10) && Digits(m, w)[w - 1] == Digit(m % 10);
      assert n == n / 10 * 10 + n % 10 && m == m / 10 * 10 + m % 10;
    }
  }

  /** Same layout, values within their widths. */
  ghost predicate Alike(f: seq<Field>, g: seq<Field>) {
    |f| == |g| && forall i :: 0 <= i < |f| ==>
      && f[i].width == g[i].width && f[i].separator == g[i].separator
      && f[i].value < Pow10(f[i].width) && g[i].value < Pow10(g[i].width)
  }

  predicate LexLess(f: seq<Field>, g: seq<Field>)
    requires |f| == |g|
  {
    f != [] && (f[0].value < g[0].value || (f[0].value == g[0].value && LexLess(f[1..], g[1..])))
  }

  lemma HeadOrder(a: Field, b: Field, x: string, y: string)
    requires Alike([a], [b])
    ensures TextLess(Digits(a.value, a.width) + (a.separator + x), Digits(b.value, b.width) + (b.separator + y))
            <==> a.value < b.value || (a.value == b.value && TextLess(x, y))
  {
    assert [a][0] == a && [b][0] == b;
    DigitsOrder(a.value, b.value, a.width);
    TextLessAppend(Digits(a.value, a.width), Digits(b.value, b.width), a.separator + x, b.separator + y);
    TextLessSame(a.separator, x, y);
  }

  lemma AlikeParts(f: seq<Field>, g: seq<Field>)
    requires Alike(f, g) && f != []
    ensures Alike([f[0]], [g[0]]) && Alike(f[1..], g[1..])
    ensures f == g <==> f[0].value == g[0].value && f[1..] == g[1..]
  {
    assert forall i :: 0 <= i < |f[1..]| ==> f[1..][i] == f[i + 1] && g[1..][i] == g[i + 1];
    assert f == [f[0]] + f[1..] && g == [g[0]] + g[1..];
  }

  lemma {:induction false} PrintOrder(f: seq<Field>, g: seq<Field>, x: string, y: string)
    requires Alike(f, g)
    ensures TextLess(Print(f) + x, Print(g) + y) <==> LexLess(f, g) || (f == g && TextLess(x, y))
  {
    hide TextLess, Digits, Pow10;
    if f == [] {
      assert Print(f) + x == x && Print(g) + y == y;
    } else {
      AlikeParts(f, g);
      hide Alike;
      PrintOrder(f[1..], g[1..], x, y);
      PrintHead(f, x);
      PrintHead(g, y);
      hide Print;
      HeadOrder(f[0], g[0], Print(f[1..]) + x, Print(g[1..]) + y);
    }
  }

  lemma PrintHead(f: seq<Field>, x: string)
    requires f != []
    ensures Print(f) + x == Digits(f[0].value, f[0].width) + (f[0].separator + (Print(f[1..]) + x))
  {}

  // ---------------------------------------------------------------- order of time

  lemma {:induction false} YearsAdd(y: nat, z: nat)
    requires y < z
    ensures DaysBeforeYear(y) + YearLen(y) <= DaysBeforeYear(z)
  {
    if y + 1 < z { YearsAdd(y, z - 1); }
  }

  lemma {:induction false} MonthsAdd(y: nat, m: nat, n: nat)
    requires 1 <= m < n
    ensures DaysBeforeMonth(y, m) + MonthLen(y, m) <= DaysBeforeMonth(y, n)
  {
    if m + 1 < n { MonthsAdd(y, m, n - 1); }
  }

  lemma YearEnds(y: nat)
    ensures DaysBeforeMonth(y, 12) + 31 == YearLen(y)
  {
    assert DaysBeforeMonth(y, 2) == 31;
    assert DaysBeforeMonth(y, 3) == DaysBeforeMonth(y, 2) + MonthLen(y, 2);
    assert DaysBeforeMonth(y, 4) == DaysBeforeMonth(y, 3) + 31;
    assert DaysBeforeMonth(y, 5) == DaysBeforeMonth(y, 4) + 30;
    assert DaysBeforeMonth(y, 6) == DaysBeforeMonth(y, 5) + 31;
    assert DaysBeforeMonth(y, 7) == DaysBeforeMonth(y, 6) + 30;
    assert DaysBeforeMonth(y, 8) == DaysBeforeMonth(y, 7) + 31;
    assert DaysBeforeMonth(y, 9) == DaysBeforeMonth(y, 8) + 31;
    assert DaysBeforeMonth(y, 10) == DaysBeforeMonth(y, 9) + 30;
    assert DaysBeforeMonth(y, 11) == DaysBeforeMonth(y, 10) + 31;
    assert DaysBeforeMonth(y, 12) == DaysBeforeMonth(y, 11) + 30;
  }

  lemma InYear(c: Civil)
    requires Valid(c)
    ensures 1 <= DaysBeforeMonth(c.year, c.month) + c.day <= YearLen(c.year)
  {
    YearEnds(c.year);
    if c.month < 12 { MonthsAdd(c.year, c.month, 12); }
  }

  predicate DateLess(a: Civil, b: Civil) {
    || a.year < b.year
    || (a.year == b.year && (a.month < b.month || (a.month == b.month && a.day < b.day)))
  }

  lemma DateOrder(a: Civil, b: Civil)
    requires Valid(a) && Valid(b) && DateLess(a, b)
    ensures Days(a) < Days(b)
  {
    InYear(a);
    InYear(b);
    if a.year < b.year {
      YearsAdd(a.year, b.year);
    } else if a.month < b.month {
      MonthsAdd(a.year, a.month, b.month);
    }
  }

  predicate ClockLess(a: Civil, b: Civil) {
    || a.hour < b.hour
    || (a.hour == b.hour && (a.minute < b.minute || (a.minute == b.minute && a.second < b.second)))
  }

  lemma SecondsOrder(a: Civil, b: Civil)
    requires Valid(a) && Valid(b)
    ensures Seconds(a) < Seconds(b) <==> LexLess(Fields(a), Fields(b))
    ensures Seconds(a) == Seconds(b) <==> Fields(a) == Fields(b)
  {
    if DateLess(a, b) { DateOrder(a, b); }
    if DateLess(b, a) { DateOrder(b, a); }
    LexUnfold(a, b);
    assert Fields(a) == Fields(b) <==>
           a.year == b.year && a.month == b.month && a.day == b.day && a.hour == b.hour && a.minute == b.minute && a.second == b.second by {
      if Fields(a) == Fields(b) {
        assert forall i :: 0 <= i < 6 ==> Fields(a)[i].value == Fields(b)[i].value;
      }
    }
    hide Fields, LexLess, Days;
  }

  lemma LexUnfold(a: Civil, b: Civil)
    ensures LexLess(Fields(a), Fields(b)) <==>
            DateLess(a, b) || (a.year == b.year && a.month == b.month && a.day == b.day && ClockLess(a, b))
  {
    var f, g := Fields(a), Fields(b);
    assert f[1..][1..] == f[2..] && g[1..][1..] == g[2..];
    assert f[2..][1..] == f[3..] && g[2..][1..] == g[3..];
    assert f[3..][1..] == f[4..] && g[3..][1..] == g[4..];
    assert f[4..][1..] == f[5..] && g[4..][1..] == g[5..];
    assert f[5..][1..] == [] && g[5..][1..] == [];
    assert LexLess(f[5..], g[5..]) <==> a.second < b.second;
    assert LexLess(f[3..], g[3..]) <==> ClockLess(a, b);
    assert LexLess(f[1..], g[1..]) <==> a.month < b.month || (a.month == b.month && LexLess(f[2..], g[2..]));
  }

  /** Different whole seconds: text order is time order (section 5.1 of RFC 3339). */
  lemma TextOrderIsTimeOrder(a: Civil, b: Civil)
    requires Valid(a) && Valid(b) && Seconds(a) != Seconds(b)
    ensures TextLess(Format(a), Format(b)) <==> Instant(a) < Instant(b)
  {
    FieldsAlike(a, b);
    PrintOrder(Fields(a), Fields(b), Tail(a.nanos), Tail(b.nanos));
    SecondsOrder(a, b);
  }

  lemma FieldsAlike(a: Civil, b: Civil)
    requires Valid(a) && Valid(b)
    ensures Alike(Fields(a), Fields(b))
  {
    assert Pow10(2) == 100 && Pow10(4) == 10_000;
  }

  // ---------------------------------------------------------------- within one second

  predicate BelowZ(s: string) { forall i :: 0 <= i < |s| ==> s[i] < 'Z' }

  /** Behind a common prefix the terminator Z sorts after everything that may follow. */
  lemma PrefixSortsLast(x: string, y: string)
    requires x < y && BelowZ(y)
    ensures TextLess(y + "Z", x + "Z") && !TextLess(x + "Z", y + "Z")
  {
    var w := y[|x|..];
    assert y == x + w;
    assert y + "Z" == x + (w + "Z");
    TextLessSame(x, w + "Z", "Z");
    TextLessSame(x, "Z", w + "Z");
    assert (w + "Z")[0] == y[|x|];
  }

  lemma {:induction false} DifferSomewhere(x: string, y: string, u: string, v: string)
    requires !(x <= y) && !(y <= x)
    ensures TextLess(x + u, y + v) <==> TextLess(x, y)
  {
    assert (x + u)[0] == x[0] && (y + v)[0] == y[0];
    if x[0] == y[0] {
      assert (x + u)[1..] == x[1..] + u && (y + v)[1..] == y[1..] + v;
      assert x == [x[0]] + x[1..] && y == [y[0]] + y[1..];
      DifferSomewhere(x[1..], y[1..], u, v);
    }
  }

  predicate AllZero(s: string) { forall i :: 0 <= i < |s| ==> s[i] == '0' }
  predicate AllDigits(s: string) { forall i :: 0 <= i < |s| ==> '0' <= s[i] <= '9' }

  lemma {:induction false} ZerosFirst(z: string, s: string)
    requires |z| == |s| && AllZero(z) && AllDigits(s) && !AllZero(s)
    ensures TextLess(z, s)
  {
    if s[0] == '0' {
      assert !AllZero(s[1..]) by {
        var i :| 0 <= i < |s| && s[i] != '0';
        assert s[1..][i - 1] == s[i];
      }
      ZerosFirst(z[1..], s[1..]);
    }
  }

  lemma {:induction false} TrimFacts(s: string)
    ensures var t := TrimZeros(s);
            && AllZero(s[|t|..])
            && (t != [] ==> t[|t| - 1] != '0')
  {
    if s != [] && s[|s| - 1] == '0' {
      var p := s[..|s| - 1];
      TrimFacts(p);
      var t := TrimZeros(s);
      assert forall i :: |t| <= i < |s| - 1 ==> s[i] == p[|t|..][i - |t|];
    }
  }

  lemma {:induction false} DigitsAreDigits(n: nat, w: nat)
    ensures AllDigits(Digits(n, w))
  {
    if w > 0 { DigitsAreDigits(n / 10, w - 1); }
  }

  /** Trimmed digit strings: a proper prefix belongs to the smaller number. */
  lemma TrimmedPrefixIsSmaller(a: string, b: string)
    requires |a| == |b| && AllDigits(b) && TrimZeros(a) < TrimZeros(b)
    ensures TextLess(a, b)
  {
    TrimFacts(a);
    TrimFacts(b);
    var x, y := TrimZeros(a), TrimZeros(b);
    hide TrimZeros, TextLess, AllZero, AllDigits;
    PrefixAndRest(a, x, x);
    PrefixAndRest(b, y, x);
    RestNotZero(b, y, |x|);
    ZerosFirst(a[|x|..], b[|x|..]);
    TextLessSame(x, a[|x|..], b[|x|..]);
  }

  lemma RestNotZero(b: string, y: string, n: nat)
    requires y <= b && AllDigits(b) && n < |y| && y[|y| - 1] != '0'
    ensures AllDigits(b[n..]) && !AllZero(b[n..])
  {
    assert b[n..][|y| - 1 - n] == y[|y| - 1];
  }

  lemma PrefixAndRest(b: string, y: string, x: string)
    requires x <= y <= b
    ensures b == x + b[|x|..]
  {
    assert b[..|x|] == y[..|x|] == x;
  }

  lemma TrimmedDiffer(a: string, b: string)
    requires !(TrimZeros(a) <= TrimZeros(b)) && !(TrimZeros(b) <= TrimZeros(a))
    ensures TextLess(a, b) <==> TextLess(TrimZeros(a), TrimZeros(b))
  {
    var x, y := TrimZeros(a), TrimZeros(b);
    assert a == x + a[|x|..] && b == y + b[|y|..];
    DifferSomewhere(x, y, a[|x|..], b[|y|..]);
  }

  lemma PowNine()
    ensures Pow10(9) == 1_000_000_000
  {
    assert Pow10(3) == 1_000;
    assert Pow10(6) == 1_000 * Pow10(3);
    assert Pow10(9) == 1_000 * Pow10(6);
  }

  lemma FractionFacts(m: nat)
    requires m < 1_000_000_000
    ensures BelowZ(Fraction(m)) && AllDigits(Digits(m, 9)) && (m > 0 ==> Fraction(m) != [])
  {
    DigitsAreDigits(m, 9);
  }

  lemma SmallerIfPrefix(m: nat, n: nat)
    requires m < 1_000_000_000 && n < 1_000_000_000 && Fraction(m) < Fraction(n)
    ensures m < n
  {
    if m > 0 {
      var a, b := Digits(m, 9), Digits(n, 9);
      FractionFacts(n);
      assert Fraction(m)[1..] == TrimZeros(a) && Fraction(n)[1..] == TrimZeros(b);
      TrimmedPrefixIsSmaller(a, b);
      PowNine();
      DigitsOrder(m, n, 9);
    }
  }

  /** Neither fraction extends the other: digits decide, as in time. */
  lemma FractionsDiffer(m: nat, n: nat)
    requires m < 1_000_000_000 && n < 1_000_000_000
    requires !(Fraction(m) <= Fraction(n)) && !(Fraction(n) <= Fraction(m))
    ensures TextLess(Tail(m), Tail(n)) <==> m < n
  {
    assert m > 0 && n > 0;
    var a, b := Digits(m, 9), Digits(n, 9);
    var x, y := TrimZeros(a), TrimZeros(b);
    assert Fraction(m) == "." + x && Fraction(n) == "." + y;
    assert !(x <= y) && !(y <= x) by {
      assert x <= y ==> "." + x <= "." + y;
      assert y <= x ==> "." + y <= "." + x;
    }
    DifferSomewhere("." + x, "." + y, "Z", "Z");
    TextLessSame(".", x, y);
    TrimmedDiffer(a, b);
    PowNine();
    DigitsOrder(m, n, 9);
  }

  /** Inside one second, text order agrees with time order exactly when neither printed fraction is a
      proper prefix of the other; a whole second, whose fraction is empty, is on the wrong side of
      everything else in that second. */
  lemma SameSecondOrderIff(a: Civil, b: Civil)
    requires Valid(a) && Valid(b) && Seconds(a) == Seconds(b) && a.nanos != b.nanos
    ensures (TextLess(Format(a), Format(b)) <==> Instant(a) < Instant(b))
            <==> !(Fraction(a.nanos) < Fraction(b.nanos)) && !(Fraction(b.nanos) < Fraction(a.nanos))
  {
    var m, n := a.nanos, b.nanos;
    FieldsAlike(a, b);
    PrintOrder(Fields(a), Fields(b), Tail(m), Tail(n));
    SecondsOrder(a, b);
    FractionFacts(m);
    FractionFacts(n);
    if Fraction(m) < Fraction(n) {
      SmallerIfPrefix(m, n);
      PrefixSortsLast(Fraction(m), Fraction(n));
    } else if Fraction(n) < Fraction(m) {
      SmallerIfPrefix(n, m);
      PrefixSortsLast(Fraction(n), Fraction(m));
    } else {
      FractionsAreDistinct(m, n);
      FractionsDiffer(m, n);
    }
  }

  lemma FractionsAreDistinct(m: nat, n: nat)
    requires m < 1_000_000_000 && n < 1_000_000_000 && m != n
    ensures Fraction(m) != Fraction(n)
  {
    if Fraction(m) == Fraction(n) {
      var a, b := Digits(m, 9), Digits(n, 9);
      assert m > 0 && n > 0;
      assert Fraction(m)[1..] == TrimZeros(a) && Fraction(n)[1..] == TrimZeros(b);
      TrimFacts(a);
      TrimFacts(b);
      var x := TrimZeros(a);
      assert a[|x|..] == b[|x|..];
      assert a == x + a[|x|..] && b == x + b[|x|..];
      PowNine();
      DigitsOrder(m, n, 9);
    }
  }

  /** A fraction is written in full precision without trailing zeros, and not at all when it is zero. */
  lemma FractionIsShortest(nanos: nat)
    requires nanos < 1_000_000_000
    ensures nanos == 0 ==> Fraction(nanos) == ""
    ensures nanos > 0 ==>
              var f := Fraction(nanos);
              && 2 <= |f| <= 10 && f[|f| - 1] != '0'
              && exists zeros :: AllZero(zeros) && f + zeros == "." + Digits(nanos, 9)
  {
    if nanos > 0 {
      var s := Digits(nanos, 9);
      var t := TrimZeros(s);
      TrimFacts(s);
      assert t != [] by { if t == [] { AllZeroDigits(nanos); } }
      var f, zeros := Fraction(nanos), s[|t|..];
      assert f == "." + t;
      assert f + zeros == "." + (t + zeros);
      assert t + zeros == s;
    }
  }

  /** Only zero prints as all zeros. */
  lemma AllZeroDigits(nanos: nat)
    requires nanos < 1_000_000_000 && AllZero(Digits(nanos, 9))
    ensures nanos == 0
  {
    PowNine();
    ZeroDigits(9);
    assert Digits(nanos, 9) == Digits(0, 9);
    DigitsOrder(nanos, 0, 9);
  }

  lemma {:induction false} ZeroDigits(w: nat)
    ensures AllZero(Digits(0, w))
  {
    if w > 0 { ZeroDigits(w - 1); }
  }

  /** The number a digit string stands for. */
  function Value(s: string): nat
    requires AllDigits(s)
  {
    if s == [] then 0 else Value(s[..|s| - 1]) * 10 + (s[|s| - 1] as int - 48)
  }

  /** Printed numbers read back. */
  lemma {:induction false} DigitsReadBack(n: nat, w: nat)
    requires n < Pow10(w)
    ensures AllDigits(Digits(n, w)) && Value(Digits(n, w)) == n
  {
    DigitsAreDigits(n, w);
    if w > 0 {
      DigitsReadBack(n / 10, w - 1);
      var s := Digits(n, w);
      assert s[..w - 1] == Digits(n / 10, w - 1);
    }
  }

  /** The written form of a time: its fields with their separators, four digits for the year and two for
      each other, then the fraction and Z. */
  lemma WrittenForm(c: Civil)
    ensures Format(c) ==
            Digits(c.year, 4) + "-" + Digits(c.month, 2) + "-" + Digits(c.day, 2) + "T"
            + Digits(c.hour, 2) + ":" + Digits(c.minute, 2) + ":" + Digits(c.second, 2) + (Fraction(c.nanos) + "Z")
  {
    PrintSix(c);
    hide Digits, Print, Fraction;
  }

  lemma PrintSix(c: Civil)
    ensures Print(Fields(c)) ==
            Digits(c.year, 4) + "-" + Digits(c.month, 2) + "-" + Digits(c.day, 2) + "T"
            + Digits(c.hour, 2) + ":" + Digits(c.minute, 2) + ":" + Digits(c.second, 2)
  {
    hide Digits;
    var f := Fields(c);
    assert f[1..][0] == f[1] && f[2..][0] == f[2] && f[3..][0] == f[3] && f[4..][0] == f[4] && f[5..][0] == f[5];
    assert f[1..][1..] == f[2..] && f[2..][1..] == f[3..] && f[3..][1..] == f[4..] && f[4..][1..] == f[5..] && f[5..][1..] == [];
    assert Print(f[5..]) == Digits(c.second, 2) + ("" + Print([]));
    assert Print(f[4..]) == Digits(c.minute, 2) + (":" + Print(f[5..]));
    assert Print(f[3..]) == Digits(c.hour, 2) + (":" + Print(f[4..]));
    assert Print(f[2..]) == Digits(c.day, 2) + ("T" + Print(f[3..]));
    assert Print(f[1..]) == Digits(c.month, 2) + ("-" + Print(f[2..]));
  }

  // ---------------------------------------------------------------- text of an instant

  function YearFrom(d: nat, y: nat): (r: nat)
    requires DaysBeforeYear(y) <= d
    ensures DaysBeforeYear(r) <= d < DaysBeforeYear(r + 1)
    decreases d - DaysBeforeYear(y)
  {
    if d < DaysBeforeYear(y + 1) then y else YearFrom(d, y + 1)
  }

  function MonthFrom(y: nat, d: nat, m: nat): (r: nat)
    requires 1 <= m <= 12 && DaysBeforeMonth(y, m) <= d
    ensures 1 <= r <= 12 && DaysBeforeMonth(y, r) <= d && (r < 12 ==> d < DaysBeforeMonth(y, r + 1))
    decreases 12 - m
  {
    if m == 12 || d < DaysBeforeMonth(y, m + 1) then m else MonthFrom(y, d, m + 1)
  }

  /** In years 0000 to 9999, which RFC 3339 can write. */
  predicate Storable(t: Time) {
    -366 * DAY <= t < 3_652_059 * DAY
  }

  /** Day counts in closed form; ten thousand years have 3,652,425 days. */
  lemma {:induction false} DaysFormula(y: nat)
    ensures DaysBeforeYear(y) == 365 * y + (y + 3) / 4 - (y + 99) / 100 + (y + 399) / 400
  {
    if y > 0 {
      DaysFormula(y - 1);
      LeapCount(y - 1);
    }
  }

  lemma LeapCount(y: nat)
    ensures YearLen(y) == 365 + ((y + 4) / 4 - (y + 3) / 4) - ((y + 100) / 100 - (y + 99) / 100) + ((y + 400) / 400 - (y + 399) / 400)
  {
    assert (y + 4) / 4 - (y + 3) / 4 == if y % 4 == 0 then 1 else 0;
    assert (y + 100) / 100 - (y + 99) / 100 == if y % 100 == 0 then 1 else 0;
    assert (y + 400) / 400 - (y + 399) / 400 == if y % 400 == 0 then 1 else 0;
  }

  /** Calendar and clock reading of an instant. */
  function CivilOf(t: Time): Civil
    requires Storable(t)
  {
    var s, day := t / SECOND, t / DAY + 366;
    var clock := s - t / DAY * 86_400;
    var year := YearFrom(day, 0);
    var d := day - DaysBeforeYear(year);
    var month := MonthFrom(year, d, 1);
    ClockRange(t);
    Civil(year, month, d - DaysBeforeMonth(year, month) + 1,
          clock / 3_600, clock / 60 % 60, clock % 60, t % SECOND)
  }

  lemma ClockRange(t: Time)
    ensures 0 <= t / SECOND - t / DAY * 86_400 < 86_400
  {
    var d, s := t / DAY, t / SECOND;
    assert t == d * DAY + t % DAY && t == s * SECOND + t % SECOND;
  }

  /** The reading is a valid one and names the instant. */
  lemma CivilOfInstant(t: Time)
    requires Storable(t)
    ensures Valid(CivilOf(t)) && Instant(CivilOf(t)) == t
    ensures Seconds(CivilOf(t)) == t / SECOND && CivilOf(t).nanos == t % SECOND
  {
    var c, clock := CivilOf(t), t / SECOND - t / DAY * 86_400;
    ClockRange(t);
    ClockParts(clock);
    DateOf(t);
    hide DaysBeforeYear, DaysBeforeMonth, YearFrom, MonthFrom, MonthLen;
    assert Days(c) == t / DAY + 367;
  }

  lemma DateOf(t: Time)
    requires Storable(t)
    ensures var c := CivilOf(t);
            && c.year < YEARS && 1 <= c.month <= 12 && 1 <= c.day <= MonthLen(c.year, c.month)
  {
    hide DaysBeforeYear, DaysBeforeMonth, YearFrom, MonthFrom, MonthLen, Leap, YearLen;
    DaysFormula(YEARS);
    assert t / DAY < 3_652_059;
    DateOfDay(t / DAY + 366);
  }

  lemma DateOfDay(day: nat)
    requires day < DaysBeforeYear(YEARS)
    ensures var y := YearFrom(day, 0); var d := day - DaysBeforeYear(y); var m := MonthFrom(y, d, 1);
            y < YEARS && d - DaysBeforeMonth(y, m) < MonthLen(y, m)
  {
    var year := YearFrom(day, 0);
    hide DaysBeforeYear, YearFrom, MonthFrom, MonthLen, YearLen, Leap, DaysBeforeMonth;
    YearInRange(day);
    NextYear(year);
    MonthFits(year, day - DaysBeforeYear(year));
  }

  lemma NextYear(y: nat)
    ensures DaysBeforeYear(y + 1) == DaysBeforeYear(y) + YearLen(y)
  {}

  lemma YearInRange(day: nat)
    requires day < DaysBeforeYear(YEARS)
    ensures YearFrom(day, 0) < YEARS
  {
    var y := YearFrom(day, 0);
    if y >= YEARS { YearsGrow(YEARS, y); }
  }

  lemma MonthFits(y: nat, d: nat)
    requires d < YearLen(y)
    ensures d - DaysBeforeMonth(y, MonthFrom(y, d, 1)) < MonthLen(y, MonthFrom(y, d, 1))
  {
    YearEnds(y);
  }

  /** No other valid reading names it. */
  lemma CivilIsUnique(a: Civil, b: Civil)
    requires Valid(a) && Valid(b) && Instant(a) == Instant(b)
    ensures a == b
  {
    assert Instant(a) / SECOND == Seconds(a) && Instant(b) / SECOND == Seconds(b);
    SecondsOrder(a, b);
    var f, g := Fields(a), Fields(b);
    assert forall i :: 0 <= i < 6 ==> f[i] == g[i];
  }

  lemma ClockParts(clock: nat)
    requires clock < 86_400
    ensures clock / 3_600 < 24 && clock / 3_600 * 3_600 + clock / 60 % 60 * 60 + clock % 60 == clock
  {}

  lemma {:induction false} YearsGrow(y: nat, z: nat)
    requires y <= z
    ensures DaysBeforeYear(y) <= DaysBeforeYear(z)
  {
    if y < z { YearsAdd(y, z); }
  }

  function Text(t: Time): string
    requires Storable(t)
  {
    Format(CivilOf(t))
  }

  /** m is n cut off behind some decimal place of the nine. */
  predicate CutOff(m: int, n: int) {
    && 0 <= m < n
    && (|| m == n - n % 10 || m == n - n % 100 || m == n - n % 1_000
        || m == n - n % 10_000 || m == n - n % 100_000 || m == n - n % 1_000_000
        || m == n - n % 10_000_000 || m == n - n % 100_000_000 || m == n - n % 1_000_000_000)
  }

  /** Two instants of one second, one of them the other cut off behind some decimal place; a whole second
      is confused with everything else in it. */
  predicate Confused(a: Time, b: Time) {
    a / SECOND == b / SECOND && (CutOff(a % SECOND, b % SECOND) || CutOff(b % SECOND, a % SECOND))
  }

  /** The order in which the index sees two times: the order of time, reversed for confused ones. That
      this is the order of their stored texts is TextOrderIff. */
  predicate TextLeq(a: Time, b: Time) {
    if Confused(a, b) then b < a else a <= b
  }

  lemma TextLeqIs(a: Time, b: Time)
    ensures TextLeq(a, b) <==> if Confused(a, b) then b < a else a <= b
    ensures Confused(a, b) <==> Confused(b, a)
  {}

  lemma TextReflexive(a: Time)
    ensures TextLeq(a, a)
  {}

  // ---------------------------------------------------------------- cutting off is taking a prefix

  /** n without its last w digits, and those digits. */
  function Hi(n: nat, w: nat): nat { if w == 0 then n else Hi(n / 10, w - 1) }
  function Lo(n: nat, w: nat): nat { if w == 0 then 0 else Lo(n / 10, w - 1) * 10 + n % 10 }

  lemma {:induction false} DigitsSplit(n: nat, v: nat, w: nat)
    ensures Digits(n, v + w) == Digits(Hi(n, w), v) + Digits(Lo(n, w), w)
    decreases w
  {
    if w > 0 {
      DigitsSplit(n / 10, v, w - 1);
      assert Lo(n, w) / 10 == Lo(n / 10, w - 1) && Lo(n, w) % 10 == n % 10;
      assert Digits(n, v + w) == Digits(n / 10, v + (w - 1)) + [Digit(n % 10)];
    }
  }

  lemma {:induction false} HiLo(n: nat, v: nat, w: nat)
    requires n < Pow10(v + w)
    ensures n == Hi(n, w) * Pow10(w) + Lo(n, w) && Lo(n, w) < Pow10(w) && Hi(n, w) < Pow10(v)
    decreases w
  {
    if w > 0 {
      assert Pow10(v + w) == 10 * Pow10(v + (w - 1)) && Pow10(w) == 10 * Pow10(w - 1);
      assert Hi(n, w) == Hi(n / 10, w - 1) && Lo(n, w) == Lo(n / 10, w - 1) * 10 + n % 10;
      hide Hi, Lo, Pow10;
      HiLo(n / 10, v, w - 1);
      OneMoreDigit(n, Hi(n, w), Lo(n / 10, w - 1), Pow10(w - 1));
    }
  }

  lemma OneMoreDigit(n: nat, h: nat, l: nat, p: nat)
    requires n / 10 == h * p + l
    ensures n == h * (10 * p) + (l * 10 + n % 10)
  {
    assert h * (10 * p) == 10 * (h * p);
  }

  lemma LoLiterals(n: nat)
    ensures Lo(n, 1) == n % 10 && Lo(n, 2) == n % 100 && Lo(n, 3) == n % 1_000
    ensures Lo(n, 4) == n % 10_000 && Lo(n, 5) == n % 100_000 && Lo(n, 6) == n % 1_000_000
    ensures Lo(n, 7) == n % 10_000_000 && Lo(n, 8) == n % 100_000_000 && Lo(n, 9) == n % 1_000_000_000
  {
    LoMod(n, 1, 10);
    LoMod(n, 2, 100);
    LoMod(n, 3, 1_000);
    LoMod(n, 4, 10_000);
    LoMod(n, 5, 100_000);
    LoMod(n, 6, 1_000_000);
    LoMod(n, 7, 10_000_000);
    LoMod(n, 8, 100_000_000);
    LoMod(n, 9, 1_000_000_000);
  }

  lemma LoMod(n: nat, w: nat, p: nat)
    requires PowerIs(w, p)
    ensures Lo(n, w) == n % p
    decreases w
  {
    if w == 1 {
      assert Lo(n / 10, 0) == 0;
    } else {
      LoMod(n / 10, w - 1, p / 10);
      hide Lo;
      assert Lo(n, w) == Lo(n / 10, w - 1) * 10 + n % 10 by { LoUnfold(n, w); }
      hide PowerIs;
      ModTen(n, p);
    }
  }

  lemma LoUnfold(n: nat, w: nat)
    requires w > 0
    ensures Lo(n, w) == Lo(n / 10, w - 1) * 10 + n % 10
  {}

  /** The powers of ten that occur. */
  predicate PowerIs(w: nat, p: nat) {
    || (w == 1 && p == 10) || (w == 2 && p == 100) || (w == 3 && p == 1_000)
    || (w == 4 && p == 10_000) || (w == 5 && p == 100_000) || (w == 6 && p == 1_000_000)
    || (w == 7 && p == 10_000_000) || (w == 8 && p == 100_000_000) || (w == 9 && p == 1_000_000_000)
  }

  lemma ModTen(n: nat, p: nat)
    requires p in {100, 1_000, 10_000, 100_000, 1_000_000, 10_000_000, 100_000_000, 1_000_000_000}
    ensures n / 10 % (p / 10) * 10 + n % 10 == n % p
  {}

  lemma {:induction false} TrimAppend(x: string, z: string)
    ensures AllZero(z) ==> TrimZeros(x + z) == TrimZeros(x)
    ensures !AllZero(z) ==> |TrimZeros(x + z)| > |x|
    decreases |z|
  {
    if z == [] {
      assert x + z == x;
    } else {
      var front := z[..|z| - 1];
      assert (x + z)[..|x + z| - 1] == x + front;
      if z[|z| - 1] == '0' {
        TrimAppend(x, front);
        assert AllZero(z) <==> AllZero(front) by {
          assert forall i :: 0 <= i < |front| ==> front[i] == z[i];
        }
      }
    }
  }

  lemma CutOffAt(m: nat, n: nat)
    requires n < 1_000_000_000
    ensures CutOff(m, n) <==> m < n && exists w: nat :: 1 <= w <= 9 && m == n - Lo(n, w)
  {
    LoLiterals(n);
    hide Lo;
    if m < n && exists w: nat :: 1 <= w <= 9 && m == n - Lo(n, w) {
      var w: nat :| 1 <= w <= 9 && m == n - Lo(n, w);
      assert w in {1, 2, 3, 4, 5, 6, 7, 8, 9};
    }
  }

  lemma TailZero(r: nat, w: nat)
    requires r < Pow10(w) && AllZero(Digits(r, w))
    ensures r == 0
  {
    ZeroDigits(w);
    assert Digits(r, w) == Digits(0, w);
    DigitsOrder(r, 0, w);
  }

  /** Numbers that share all but their last w digits, m with zeros there. */
  lemma SameHead(m: nat, n: nat, w: nat)
    requires w <= 9 && m < 1_000_000_000 && n < 1_000_000_000
    ensures m == n - Lo(n, w) <==> Hi(m, w) == Hi(n, w) && Lo(m, w) == 0
  {
    PowNine();
    HiLo(m, 9 - w, w);
    HiLo(n, 9 - w, w);
    hide Pow10, Hi, Lo;
    var p, h, k := Pow10(w), Hi(m, w), Hi(n, w);
    if m == n - Lo(n, w) {
      assert h * p + Lo(m, w) == k * p + 0;
      SameQuotient(h, Lo(m, w), k, 0, p);
    }
  }

  lemma SameQuotient(d: int, r: int, e: int, q: int, p: int)
    requires 0 <= r < p && 0 <= q < p && d * p + r == e * p + q
    ensures d == e && r == q
  {
    if d > e { AtLeastOne(d - e, p); }
    if e > d { AtLeastOne(e - d, p); }
  }

  lemma AtLeastOne(k: int, p: int)
    requires k >= 1 && p > 0
    ensures k * p >= p
  {
    assert (k - 1) * p >= 0;
  }

  /** Cutting off w digits makes the printed fraction a proper prefix. */
  lemma CutIsPrefix(m: nat, n: nat, w: nat)
    requires n < 1_000_000_000 && 1 <= w <= 9 && m < n && m == n - Lo(n, w)
    ensures Fraction(m) < Fraction(n)
  {
    var v := 9 - w;
    SameHead(m, n, w);
    DigitsSplit(n, v, w);
    DigitsSplit(m, v, w);
    ZeroDigits(w);
    PowNine();
    HiLo(n, v, w);
    var d, tail := Digits(Hi(n, w), v), Digits(Lo(n, w), w);
    hide Pow10, Hi, Lo;
    assert !AllZero(tail) by { if AllZero(tail) { TailZero(Lo(n, w), w); } }
    TrimmedGrows(d, Digits(0, w), tail);
    hide TrimZeros, Digits, AllZero;
    var x, y := TrimZeros(Digits(m, 9)), TrimZeros(Digits(n, 9));
    assert "." + x < "." + y;
  }

  lemma TrimmedGrows(d: string, zeros: string, tail: string)
    requires AllZero(zeros) && !AllZero(tail)
    ensures TrimZeros(d + zeros) < TrimZeros(d + tail)
  {
    TrimAppend(d, zeros);
    TrimAppend(d, tail);
    hide AllZero;
    var x, y := TrimZeros(d + zeros), TrimZeros(d + tail);
    assert x == TrimZeros(d);
    hide TrimZeros;
    assert y[..|d|] == (d + tail)[..|d|] == d;
  }

  /** And a proper prefix comes from cutting off. */
  lemma PrefixIsCut(m: nat, n: nat) returns (w: nat)
    requires m < 1_000_000_000 && n < 1_000_000_000 && Fraction(m) < Fraction(n)
    ensures 1 <= w <= 9 && m < n && m == n - Lo(n, w)
  {
    hide *;
    SmallerIfPrefix(m, n);
    if m == 0 {
      w := 9;
      LoLiterals(n);
    } else {
      TrimmedPrefix(m, n);
      var a, b := Digits(m, 9), Digits(n, 9);
      var x, y := TrimZeros(a), TrimZeros(b);
      TrimFacts(a);
      var v := |x|;
      w := 9 - v;
      assert x == a[..v] && x == b[..v] by { assert x == y[..v]; }
      CommonHead(m, n, v, w);
    }
  }

  lemma TrimmedPrefix(m: nat, n: nat)
    requires m > 0 && Fraction(m) < Fraction(n)
    ensures TrimZeros(Digits(m, 9)) < TrimZeros(Digits(n, 9))
  {
    hide TrimZeros, Digits;
    assert Fraction(m)[1..] == TrimZeros(Digits(m, 9)) && Fraction(n)[1..] == TrimZeros(Digits(n, 9));
  }

  lemma CommonHead(m: nat, n: nat, v: nat, w: nat)
    requires v + w == 9 && m < 1_000_000_000 && n < 1_000_000_000
    requires Digits(m, 9)[..v] == Digits(n, 9)[..v] && AllZero(Digits(m, 9)[v..])
    ensures m == n - Lo(n, w)
  {
    PowNine();
    DigitsSplit(m, v, w);
    DigitsSplit(n, v, w);
    HiLo(m, v, w);
    HiLo(n, v, w);
    SameHead(m, n, w);
    hide Digits, AllZero, Pow10, Hi, Lo;
    var q, r, tail := Hi(m, w), Hi(n, w), Lo(m, w);
    assert Digits(m, 9)[..v] == Digits(q, v) && Digits(n, 9)[..v] == Digits(r, v) && Digits(m, 9)[v..] == Digits(tail, w);
    TailZero(tail, w);
    DigitsOrder(q, r, v);
  }

  /** One printed fraction is a proper prefix of another exactly when its number is the other's cut off. */
  lemma PrefixIffCutOff(m: nat, n: nat)
    requires m < 1_000_000_000 && n < 1_000_000_000
    ensures Fraction(m) < Fraction(n) <==> CutOff(m, n)
  {
    CutOffAt(m, n);
    hide CutOff, Fraction, Lo;
    if Fraction(m) < Fraction(n) { var w := PrefixIsCut(m, n); }
    if CutOff(m, n) {
      var w: nat :| 1 <= w <= 9 && m == n - Lo(n, w);
      CutIsPrefix(m, n, w);
    }
  }

  // ---------------------------------------------------------------- the order of stored texts

  /** The order in which the index sees two times is the byte order of their stored texts. */
  lemma TextOrderIff(a: Time, b: Time)
    requires Storable(a) && Storable(b)
    ensures TextLeq(a, b) <==> !TextLess(Text(b), Text(a))
  {
    var c, d := CivilOf(a), CivilOf(b);
    CivilOfInstant(a);
    CivilOfInstant(b);
    PrefixIffCutOff(a % SECOND, b % SECOND);
    PrefixIffCutOff(b % SECOND, a % SECOND);
    hide CivilOf, Valid, Format, Seconds, Fraction, Storable, CutOff;
    if a == b {
      TextIrreflexive(Text(a));
      NotCutOff(a % SECOND);
    } else if a / SECOND != b / SECOND {
      TextOrderIsTimeOrder(d, c);
    } else {
      SameSecondOrderIff(d, c);
    }
  }

  lemma NotCutOff(n: int)
    ensures !CutOff(n, n)
  {}

  /** Nothing is lost in writing a time. */
  lemma TextIsInjective(a: Time, b: Time)
    requires Storable(a) && Storable(b) && Text(a) == Text(b)
    ensures a == b
  {
    TextOrderIff(a, b);
    TextOrderIff(b, a);
    TextIrreflexive(Text(a));
    TextLeqIs(a, b);
    TextLeqIs(b, a);
    hide Text, Confused, Storable, TextLeq;
  }

  /** Outside one another's second the texts are ordered as the times are. */
  lemma RangeQueryExactOutsideBoundSecond(end: Time, from: Time)
    requires Storable(end) && Storable(from) && end / SECOND != from / SECOND
    ensures !TextLess(Text(end), Text(from)) <==> from <= end
  {
    TextOrderIff(from, end);
    hide Text, Storable, TextLess;
  }

  /** A whole second is confused with every later instant of that second. */
  lemma WholeSecondConfused(s: Time, t: Time)
    requires s % SECOND == 0 && s < t < s + SECOND
    ensures Confused(s, t) && Confused(t, s)
  {
    assert t / SECOND == s / SECOND && t % SECOND == t - s;
  }

  /** So in the stored texts a bound on a whole second misses every row that ends later within that second,
      and a bound within a second keeps a row that ended when the second began. */
  lemma WholeSecondBoundMisses(s: Time, t: Time)
    requires Storable(s) && Storable(t) && s % SECOND == 0 && s < t < s + SECOND
    ensures TextLess(Text(t), Text(s)) && !TextLess(Text(s), Text(t))
  {
    WholeSecondConfused(s, t);
    TextOrderIff(s, t);
    TextOrderIff(t, s);
    hide Text, Storable, TextLess, Confused;
  }
}
