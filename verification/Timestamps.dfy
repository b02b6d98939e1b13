// UTC timestamps as RFC3339Nano writes them, and how their text order relates
// to their time order. Section 5.1 of RFC 3339 allows comparing timestamps as
// strings only when the fractional digits are equal in number; this format
// drops trailing zeros.

module Timestamps {
  import opened Wrappers
  import opened Text

  datatype Instant = Instant(year: nat, month: nat, day: nat, hour: nat, minute: nat, second: nat, nanos: nat) {
    /** The values fit their columns: a four-digit year, and civil fields otherwise. */
    predicate Valid() {
      year < 10000 && 1 <= month <= 12 && 1 <= day <= 31
      && hour < 24 && minute < 60 && second < 60 && nanos < 1000000000
    }

    function Whole(): seq<nat> { [year, month, day, hour, minute, second] }
  }

  const WIDTHS: seq<nat> := [4, 2, 2, 2, 2, 2]
  const SEPARATORS: seq<string> := ["-", "-", "T", ":", ":", ""]

  function Pow10(w: nat): nat { if w == 0 then 1 else 10 * Pow10(w - 1) }

  function Digit(d: nat): char
    requires d < 10
  {
    '0' + d as char
  }

  predicate IsDigit(c: char) { '0' <= c <= '9' }
  predicate Digits(s: string) { forall i :: 0 <= i < |s| ==> IsDigit(s[i]) }

  /** n in exactly w digits. */
  function Pad(n: nat, w: nat): (s: string)
    ensures |s| == w && Digits(s)
  {
    if w == 0 then "" else Pad(n / 10, w - 1) + [Digit(n % 10)]
  }

  /** Fixed-width fields, each followed by its separator. */
  function Written(f: seq<nat>, w: seq<nat>, sep: seq<string>): string
    requires |f| == |w| == |sep|
  {
    if f == [] then "" else Pad(f[0], w[0]) + (sep[0] + Written(f[1..], w[1..], sep[1..]))
  }

  /** Digits without trailing zeros. */
  function Trim(s: string): (t: string)
    ensures Digits(s) ==> Digits(t)
  {
    if s == "" then ""
    else
      var t := Trim(s[1..]);
      if t == "" && s[0] == '0' then "" else [s[0]] + t
  }

  /** The fraction's digits as written. */
  function Fraction(t: Instant): string { Trim(Pad(t.nanos, 9)) }

  function Suffix(digits: string): string { (if digits == "" then "" else "." + digits) + "Z" }

  /** Format(time.RFC3339Nano) of a UTC time. */
  function Format(t: Instant): string { Written(t.Whole(), WIDTHS, SEPARATORS) + Suffix(Fraction(t)) }

  // --- time order ---

  /** Lexicographic order on fields, most significant first. */
  predicate FieldsBefore(a: seq<nat>, b: seq<nat>)
    requires |a| == |b|
  {
    a != [] && (a[0] < b[0] || (a[0] == b[0] && FieldsBefore(a[1..], b[1..])))
  }

  predicate Before(a: Instant, b: Instant) {
    FieldsBefore(a.Whole(), b.Whole()) || (a.Whole() == b.Whole() && a.nanos < b.nanos)
  }

  /** One fraction, as written, is a proper beginning of the other. */
  predicate PrefixRelated(u: string, v: string) { u != v && (u <= v || v <= u) }

  // --- the order of fixed-width text ---

  lemma {:induction false} EqualLengthDecides(a: string, b: string, x: string, y: string)
    requires |a| == |b|
    ensures Less(a + x, b + y) <==> Less(a, b) || (a == b && Less(x, y))
  {
    if a == "" {
      assert a + x == x && b + y == y;
    } else {
      assert (a + x)[1..] == a[1..] + x && (b + y)[1..] == b[1..] + y;
      EqualLengthDecides(a[1..], b[1..], x, y);
      assert a == [a[0]] + a[1..] && b == [b[0]] + b[1..];
    }
  }

  lemma {:induction false} PadOrder(m: nat, n: nat, w: nat)
    requires m < Pow10(w) && n < Pow10(w)
    ensures Less(Pad(m, w), Pad(n, w)) <==> m < n
    ensures Pad(m, w) == Pad(n, w) <==> m == n
  {
    if w > 0 {
      assert m / 10 < Pow10(w - 1) && n / 10 < Pow10(w - 1);
      PadOrder(m / 10, n / 10, w - 1);
      var p, q, c, d := Pad(m / 10, w - 1), Pad(n / 10, w - 1), [Digit(m % 10)], [Digit(n % 10)];
      EqualLengthDecides(p, q, c, d);
      assert Less(c, d) <==> m % 10 < n % 10;
      assert p + c == q + d <==> p == q && c == d by {
        assert (p + c)[..w - 1] == p && (q + d)[..w - 1] == q;
        assert (p + c)[w - 1] == c[0] && (q + d)[w - 1] == d[0];
      }
      assert c == d <==> c[0] == d[0];
    }
  }

  ghost predicate Fits(f: seq<nat>, w: seq<nat>) {
    |f| == |w| && forall i :: 0 <= i < |f| ==> f[i] < Pow10(w[i])
  }

  lemma Reassociate(a: string, b: string, c: string, d: string)
    ensures (a + (b + c)) + d == a + (b + (c + d))
  {
  }

  lemma WrittenUnfolds(f: seq<nat>, w: seq<nat>, sep: seq<string>, end: string)
    requires |f| == |w| == |sep| && f != []
    ensures Written(f, w, sep) + end == Pad(f[0], w[0]) + (sep[0] + (Written(f[1..], w[1..], sep[1..]) + end))
    ensures |Written(f, w, sep)| == w[0] + |sep[0]| + |Written(f[1..], w[1..], sep[1..])|
  {
    Reassociate(Pad(f[0], w[0]), sep[0], Written(f[1..], w[1..], sep[1..]), end);
  }

  lemma HeadAndTail(a: seq<nat>, b: seq<nat>)
    requires a != [] && |a| == |b|
    ensures a == b <==> a[0] == b[0] && a[1..] == b[1..]
  {
    assert a == [a[0]] + a[1..] && b == [b[0]] + b[1..];
  }

  lemma {:induction false} WrittenOrder(a: seq<nat>, b: seq<nat>, w: seq<nat>, sep: seq<string>, x: string, y: string)
    requires Fits(a, w) && Fits(b, w) && |sep| == |w|
    ensures Less(Written(a, w, sep) + x, Written(b, w, sep) + y) <==> FieldsBefore(a, b) || (a == b && Less(x, y))
    ensures |Written(a, w, sep)| == |Written(b, w, sep)|
  {
    if a == [] {
      assert Written(a, w, sep) + x == x && Written(b, w, sep) + y == y;
    } else {
      var p, q := Pad(a[0], w[0]), Pad(b[0], w[0]);
      var r, s := Written(a[1..], w[1..], sep[1..]), Written(b[1..], w[1..], sep[1..]);
      WrittenOrder(a[1..], b[1..], w[1..], sep[1..], x, y);
      PadOrder(a[0], b[0], w[0]);
      WrittenUnfolds(a, w, sep, x);
      WrittenUnfolds(b, w, sep, y);
      EqualLengthDecides(p, q, sep[0] + (r + x), sep[0] + (s + y));
      FirstDifferenceDecides(sep[0], r + x, s + y);
      HeadAndTail(a, b);
    }
  }

  // --- the order of fractions ---

  lemma {:induction false} TrimOrder(a: string, b: string)
    requires |a| == |b| && Digits(a) && Digits(b)
    ensures Less(Trim(a), Trim(b)) <==> Less(a, b)
    ensures Trim(a) == Trim(b) <==> a == b
  {
    if a != "" {
      assert Digits(a[1..]) && Digits(b[1..]);
      TrimOrder(a[1..], b[1..]);
      assert a == [a[0]] + a[1..] && b == [b[0]] + b[1..];
      assert IsDigit(a[0]) && IsDigit(b[0]);
    }
  }

  /** 'Z' sorts after every digit, so a fraction that continues another sorts before it. */
  lemma {:induction false} TerminatedOrder(u: string, v: string)
    requires Digits(u) && Digits(v)
    ensures Less(u + "Z", v + "Z") <==> if PrefixRelated(u, v) then Less(v, u) else Less(u, v)
  {
    if u == "" || v == "" {
      LessIsTotal(u, v);
    } else {
      assert (u + "Z")[1..] == u[1..] + "Z" && (v + "Z")[1..] == v[1..] + "Z";
      assert Digits(u[1..]) && Digits(v[1..]);
      TerminatedOrder(u[1..], v[1..]);
      assert u == [u[0]] + u[1..] && v == [v[0]] + v[1..];
      if u[0] == v[0] {
        assert PrefixRelated(u, v) <==> PrefixRelated(u[1..], v[1..]);
      }
    }
  }

  lemma SuffixOrder(u: string, v: string)
    requires Digits(u) && Digits(v)
    ensures Less(Suffix(u), Suffix(v)) <==> if PrefixRelated(u, v) then Less(v, u) else Less(u, v)
  {
    TerminatedOrder(u, v);
    if u != "" && v != "" {
      assert Suffix(u) == "." + (u + "Z") && Suffix(v) == "." + (v + "Z");
      FirstDifferenceDecides(".", u + "Z", v + "Z");
    } else if u != "" {
      assert Suffix(u)[0] == '.';
    } else if v != "" {
      assert Suffix(v)[0] == '.';
    }
  }

  lemma WholeFits(t: Instant)
    requires t.Valid()
    ensures Fits(t.Whole(), WIDTHS)
  {
    assert Pow10(2) == 100 && Pow10(4) == 100 * Pow10(2);
  }

  lemma NineDigits()
    ensures Pow10(9) == 1000000000
  {
    assert Pow10(3) == 1000 && Pow10(6) == 1000 * Pow10(3) && Pow10(9) == 1000 * Pow10(6);
  }

  /** Exactly how text order relates to time order: they agree, except that within one second the order of two
      fractions is reversed when one, as written, is the beginning of the other. */
  lemma TextOrder(a: Instant, b: Instant)
    requires a.Valid() && b.Valid()
    ensures Less(Format(a), Format(b)) <==>
              if a.Whole() == b.Whole() && PrefixRelated(Fraction(a), Fraction(b)) then Before(b, a) else Before(a, b)
  {
    WholeFits(a);
    WholeFits(b);
    WrittenOrder(a.Whole(), b.Whole(), WIDTHS, SEPARATORS, Suffix(Fraction(a)), Suffix(Fraction(b)));
    FractionOrder(a, b);
    FractionOrder(b, a);
    SuffixOrder(Fraction(a), Fraction(b));
    BeforeIsStrict(a.Whole(), b.Whole());
  }

  lemma FractionOrder(a: Instant, b: Instant)
    requires a.Valid() && b.Valid()
    ensures Less(Fraction(a), Fraction(b)) <==> a.nanos < b.nanos
    ensures Fraction(a) == Fraction(b) <==> a.nanos == b.nanos
  {
    NineDigits();
    PadOrder(a.nanos, b.nanos, 9);
    TrimOrder(Pad(a.nanos, 9), Pad(b.nanos, 9));
  }

  lemma {:induction false} BeforeIsStrict(a: seq<nat>, b: seq<nat>)
    requires |a| == |b|
    ensures FieldsBefore(a, b) || FieldsBefore(b, a) || a == b
    ensures !(FieldsBefore(a, b) && FieldsBefore(b, a))
    ensures a == b ==> !FieldsBefore(a, b)
  {
    if a != [] {
      BeforeIsStrict(a[1..], b[1..]);
      assert a == [a[0]] + a[1..] && b == [b[0]] + b[1..];
    }
  }

  // --- field by field ---

  /** a comes before b: the year decides, then the month, and so on down to the nanoseconds. */
  ghost predicate Earlier(a: Instant, b: Instant) {
    || a.year < b.year
    || (a.year == b.year &&
        (|| a.month < b.month
         || (a.month == b.month &&
             (|| a.day < b.day
              || (a.day == b.day &&
                  (|| a.hour < b.hour
                   || (a.hour == b.hour &&
                       (|| a.minute < b.minute
                        || (a.minute == b.minute &&
                            (|| a.second < b.second
                             || (a.second == b.second && a.nanos < b.nanos)))))))))))
  }

  ghost predicate SameSecond(a: Instant, b: Instant) {
    && a.year == b.year && a.month == b.month && a.day == b.day
    && a.hour == b.hour && a.minute == b.minute && a.second == b.second
  }

  lemma FirstFieldDecides(x: nat, xs: seq<nat>, y: nat, ys: seq<nat>)
    requires |xs| == |ys|
    ensures FieldsBefore([x] + xs, [y] + ys) <==> x < y || (x == y && FieldsBefore(xs, ys))
  {
    assert ([x] + xs)[1..] == xs && ([y] + ys)[1..] == ys;
  }

  /** The time order is the order of the fields. */
  lemma BeforeIff(a: Instant, b: Instant)
    ensures Before(a, b) <==> Earlier(a, b)
    ensures a.Whole() == b.Whole() <==> SameSecond(a, b)
  {
    FirstFieldDecides(a.second, [], b.second, []);
    FirstFieldDecides(a.minute, [a.second], b.minute, [b.second]);
    FirstFieldDecides(a.hour, [a.minute, a.second], b.hour, [b.minute, b.second]);
    FirstFieldDecides(a.day, [a.hour, a.minute, a.second], b.day, [b.hour, b.minute, b.second]);
    FirstFieldDecides(a.month, [a.day, a.hour, a.minute, a.second], b.month, [b.day, b.hour, b.minute, b.second]);
    assert [a.second] == [a.second] + [] && [b.second] == [b.second] + [];
    assert [a.minute, a.second] == [a.minute] + [a.second] && [b.minute, b.second] == [b.minute] + [b.second];
    assert [a.hour, a.minute, a.second] == [a.hour] + [a.minute, a.second];
    assert [b.hour, b.minute, b.second] == [b.hour] + [b.minute, b.second];
    assert [a.day, a.hour, a.minute, a.second] == [a.day] + [a.hour, a.minute, a.second];
    assert [b.day, b.hour, b.minute, b.second] == [b.day] + [b.hour, b.minute, b.second];
    var p, q := [a.month, a.day, a.hour, a.minute, a.second], [b.month, b.day, b.hour, b.minute, b.second];
    assert p == [a.month] + [a.day, a.hour, a.minute, a.second] && q == [b.month] + [b.day, b.hour, b.minute, b.second];
    FirstFieldDecides(a.year, p, b.year, q);
    assert a.Whole() == [a.year] + p && b.Whole() == [b.year] + q;
    SameFields(a, b);
  }

  lemma SameFields(a: Instant, b: Instant)
    ensures a.Whole() == b.Whole() <==> SameSecond(a, b)
  {
    var p, q := a.Whole(), b.Whole();
    if p == q {
      assert p[0] == q[0] && p[1] == q[1] && p[2] == q[2] && p[3] == q[3] && p[4] == q[4] && p[5] == q[5];
    }
  }

  /** The number a digit stands for. */
  function Ord(c: char): int { c as int - 48 }

  ghost predicate TwoDigits(s: string, n: nat) {
    |s| == 2 && Digits(s) && 10 * Ord(s[0]) + Ord(s[1]) == n
  }

  ghost predicate FourDigits(s: string, n: nat) {
    |s| == 4 && Digits(s) && 1000 * Ord(s[0]) + 100 * Ord(s[1]) + 10 * Ord(s[2]) + Ord(s[3]) == n
  }

  const PLACES: seq<nat> := [100000000, 10000000, 1000000, 100000, 10000, 1000, 100, 10, 1]

  /** The digit of n at the i-th of nine decimal places. */
  function Place(n: nat, i: nat): int
    requires i < 9
  {
    n / PLACES[i] % 10
  }

  /** The fraction's digits: decimal place by decimal place down to the last that is not zero. */
  ghost predicate FractionDigits(d: string, nanos: nat) {
    && |d| <= 9 && Digits(d) && (d != "" ==> d[|d| - 1] != '0')
    && forall i :: 0 <= i < 9 ==> Place(nanos, i) == if i < |d| then Ord(d[i]) else 0
  }

  /** n without its last j decimal digits. */
  function Tens(n: nat, j: nat): nat { if j == 0 then n else Tens(n, j - 1) / 10 }

  lemma {:induction false} TensShift(n: nat, j: nat)
    ensures Tens(n / 10, j) == Tens(n, j + 1)
  {
    if j > 0 { TensShift(n, j - 1); }
  }

  lemma {:induction false} PadDigit(n: nat, w: nat, j: nat)
    requires j < w
    ensures Ord(Pad(n, w)[w - 1 - j]) == Tens(n, j) % 10
  {
    if j > 0 {
      PadDigit(n / 10, w - 1, j - 1);
      TensShift(n, j - 1);
    }
  }

  lemma TwoDigitField(n: nat)
    requires n < 100
    ensures TwoDigits(Pad(n, 2), n)
  {
    PadDigit(n, 2, 0);
    PadDigit(n, 2, 1);
    assert Tens(n, 1) == Tens(n, 0) / 10;
  }

  lemma FourDigitField(n: nat)
    requires n < 10000
    ensures FourDigits(Pad(n, 4), n)
  {
    PadDigit(n, 4, 0);
    PadDigit(n, 4, 1);
    PadDigit(n, 4, 2);
    PadDigit(n, 4, 3);
    LowTens(n);
  }

  lemma LowTens(n: nat)
    ensures Tens(n, 1) == n / 10 && Tens(n, 2) == n / 100 && Tens(n, 3) == n / 1000 && Tens(n, 4) == n / 10000
  {
    assert Tens(n, 1) == Tens(n, 0) / 10;
    assert Tens(n, 2) == Tens(n, 1) / 10;
    assert Tens(n, 3) == Tens(n, 2) / 10;
    assert Tens(n, 4) == Tens(n, 3) / 10;
  }

  lemma HighTens(n: nat)
    ensures Tens(n, 5) == n / 100000 && Tens(n, 6) == n / 1000000
    ensures Tens(n, 7) == n / 10000000 && Tens(n, 8) == n / 100000000
  {
    LowTens(n);
    assert Tens(n, 5) == Tens(n, 4) / 10;
    assert Tens(n, 6) == Tens(n, 5) / 10;
    assert Tens(n, 7) == Tens(n, 6) / 10;
    assert Tens(n, 8) == Tens(n, 7) / 10;
  }

  lemma PlacesAreTens(n: nat, i: nat)
    requires i < 9
    ensures PLACES[i] > 0 && n / PLACES[i] == Tens(n, 8 - i)
  {
    LowTens(n);
    HighTens(n);
  }

  lemma {:induction false} TrimEnds(s: string)
    ensures Trim(s) != "" ==> Trim(s)[|Trim(s)| - 1] != '0'
  {
    if s != "" { TrimEnds(s[1..]); }
  }

  lemma {:induction false} ZerosAre(n: nat, i: nat)
    requires i < n
    ensures |Zeros(n)| == n && Zeros(n)[i] == '0'
  {
    ZerosAreDigits(n);
    if i > 0 { ZerosAre(n - 1, i - 1); }
  }

  lemma PlaceDigit(n: nat, i: nat)
    requires i < 9
    ensures Place(n, i) == Ord(Pad(n, 9)[i])
  {
    PlacesAreTens(n, i);
    PadDigit(n, 9, 8 - i);
  }

  lemma PaddedWith(s: string, d: string, i: nat)
    requires |d| <= |s| && s == d + Zeros(|s| - |d|) && i < |s|
    ensures s[i] == if i < |d| then d[i] else '0'
  {
    if i >= |d| { ZerosAre(|s| - |d|, i - |d|); }
  }

  lemma PlaceReads(n: nat, d: string, i: nat)
    requires |d| <= 9 && Pad(n, 9) == d + Zeros(9 - |d|) && i < 9
    ensures Place(n, i) == if i < |d| then Ord(d[i]) else 0
  {
    PlaceDigit(n, i);
    PaddedWith(Pad(n, 9), d, i);
  }

  lemma FractionReads(t: Instant)
    requires t.Valid()
    ensures FractionDigits(Fraction(t), t.nanos)
  {
    var d := Fraction(t);
    TrimThenZeros(Pad(t.nanos, 9));
    TrimEnds(Pad(t.nanos, 9));
    forall i | 0 <= i < 9 ensures Place(t.nanos, i) == if i < |d| then Ord(d[i]) else 0 {
      PlaceReads(t.nanos, d, i);
    }
  }

  /** Where each field stands in the text of a time. */
  ghost predicate Layout(t: Instant, s: string) {
    && |s| >= 20
    && FourDigits(s[..4], t.year) && s[4] == '-' && TwoDigits(s[5..7], t.month) && s[7] == '-'
    && TwoDigits(s[8..10], t.day) && s[10] == 'T'
    && TwoDigits(s[11..13], t.hour) && s[13] == ':' && TwoDigits(s[14..16], t.minute) && s[16] == ':'
    && TwoDigits(s[17..19], t.second)
    && exists d :: FractionDigits(d, t.nanos) && s[19..] == if d == "" then "Z" else "." + d + "Z"
  }

  /** The text of a field, its separator, and the rest. */
  lemma NextField(s: string, at: nat, p: string, sep: string, rest: string)
    requires at <= |s| && s[at..] == p + (sep + rest)
    ensures
      var mid, end := at + |p|, at + |p| + |sep|;
      end <= |s| && s[at..mid] == p && s[mid..end] == sep && s[end..] == rest
  {
    Cut(p, sep, rest);
    assert s[at..][..|p|] == s[at..at + |p|];
    assert s[at..][|p|..|p| + |sep|] == s[at + |p|..at + |p| + |sep|];
    assert s[at..][|p| + |sep|..] == s[at + |p| + |sep|..];
  }

  function Rest(f: seq<nat>, w: seq<nat>, sep: seq<string>, n: nat, end: string): string
    requires |f| == |w| == |sep| && n <= |f|
  {
    Written(f[n..], w[n..], sep[n..]) + end
  }

  lemma RestUnfolds(f: seq<nat>, w: seq<nat>, sep: seq<string>, n: nat, end: string)
    requires |f| == |w| == |sep| && n < |f|
    ensures Rest(f, w, sep, n, end) == Pad(f[n], w[n]) + (sep[n] + Rest(f, w, sep, n + 1, end))
  {
    assert f[n..][1..] == f[n + 1..] && w[n..][1..] == w[n + 1..] && sep[n..][1..] == sep[n + 1..];
    Reassociate(Pad(f[n], w[n]), sep[n], Written(f[n + 1..], w[n + 1..], sep[n + 1..]), end);
  }

  lemma FieldAt(s: string, at: nat, f: seq<nat>, w: seq<nat>, sep: seq<string>, n: nat, end: string)
    requires |f| == |w| == |sep| && n < |f| && at <= |s| && s[at..] == Rest(f, w, sep, n, end)
    ensures
      var mid, next := at + w[n], at + w[n] + |sep[n]|;
      next <= |s| && s[at..mid] == Pad(f[n], w[n]) && s[mid..next] == sep[n] && s[next..] == Rest(f, w, sep, n + 1, end)
  {
    RestUnfolds(f, w, sep, n, end);
    NextField(s, at, Pad(f[n], w[n]), sep[n], Rest(f, w, sep, n + 1, end));
  }

  lemma DateLayout(t: Instant, s: string, f: seq<nat>, end: string)
    requires f == t.Whole() && s == Rest(f, WIDTHS, SEPARATORS, 0, end)
    ensures |s| >= 11 && s[..4] == Pad(t.year, 4) && s[5..7] == Pad(t.month, 2) && s[8..10] == Pad(t.day, 2)
    ensures s[4] == '-' && s[7] == '-' && s[10] == 'T' && s[11..] == Rest(f, WIDTHS, SEPARATORS, 3, end)
  {
    assert s[0..] == s;
    FieldAt(s, 0, f, WIDTHS, SEPARATORS, 0, end);
    FieldAt(s, 5, f, WIDTHS, SEPARATORS, 1, end);
    FieldAt(s, 8, f, WIDTHS, SEPARATORS, 2, end);
    assert s[..4] == s[0..4] && s[4] == s[4..5][0] && s[7] == s[7..8][0] && s[10] == s[10..11][0];
  }

  lemma ClockLayout(t: Instant, s: string, f: seq<nat>, end: string)
    requires f == t.Whole() && |s| >= 11 && s[11..] == Rest(f, WIDTHS, SEPARATORS, 3, end)
    ensures |s| >= 19 && s[11..13] == Pad(t.hour, 2) && s[14..16] == Pad(t.minute, 2) && s[17..19] == Pad(t.second, 2)
    ensures s[13] == ':' && s[16] == ':' && s[19..] == end
  {
    FieldAt(s, 11, f, WIDTHS, SEPARATORS, 3, end);
    FieldAt(s, 14, f, WIDTHS, SEPARATORS, 4, end);
    FieldAt(s, 17, f, WIDTHS, SEPARATORS, 5, end);
    assert s[13] == s[13..14][0] && s[16] == s[16..17][0];
    assert Rest(f, WIDTHS, SEPARATORS, 6, end) == "" + end;
  }

  lemma WholeText(t: Instant)
    ensures Format(t) == Rest(t.Whole(), WIDTHS, SEPARATORS, 0, Suffix(Fraction(t)))
  {
    assert t.Whole()[0..] == t.Whole() && WIDTHS[0..] == WIDTHS && SEPARATORS[0..] == SEPARATORS;
  }

  /** Every text the store writes has this layout. */
  lemma FormatLayout(t: Instant)
    requires t.Valid()
    ensures Layout(t, Format(t))
  {
    var s, end := Format(t), Suffix(Fraction(t));
    WholeText(t);
    DateLayout(t, s, t.Whole(), end);
    ClockLayout(t, s, t.Whole(), end);
    FieldsRead(t);
    assert end == if Fraction(t) == "" then "Z" else "." + Fraction(t) + "Z";
    assert |s| == 19 + |end|;
  }

  lemma FieldsRead(t: Instant)
    requires t.Valid()
    ensures FourDigits(Pad(t.year, 4), t.year) && TwoDigits(Pad(t.month, 2), t.month) && TwoDigits(Pad(t.day, 2), t.day)
    ensures TwoDigits(Pad(t.hour, 2), t.hour) && TwoDigits(Pad(t.minute, 2), t.minute)
    ensures TwoDigits(Pad(t.second, 2), t.second) && FractionDigits(Fraction(t), t.nanos)
  {
    FourDigitField(t.year);
    TwoDigitField(t.month);
    TwoDigitField(t.day);
    TwoDigitField(t.hour);
    TwoDigitField(t.minute);
    TwoDigitField(t.second);
    FractionReads(t);
  }

  /** Whole seconds that differ decide: then the strings compare as the times do. */
  lemma DifferentSecondsAgree(a: Instant, b: Instant)
    requires a.Valid() && b.Valid() && a.Whole() != b.Whole()
    ensures Less(Format(a), Format(b)) <==> Before(a, b)
  {
    TextOrder(a, b);
  }

  /** The comparison of the strings is wrong exactly for two different times of one second whose written fractions are
      prefix-related. */
  lemma TextOrderIsWrongIff(a: Instant, b: Instant)
    requires a.Valid() && b.Valid()
    ensures (Less(Format(a), Format(b)) != Before(a, b)) <==>
              a.Whole() == b.Whole() && PrefixRelated(Fraction(a), Fraction(b))
  {
    TextOrder(a, b);
    FractionOrder(a, b);
    BeforeIsStrict(a.Whole(), b.Whole());
  }

  // --- reading timestamps back ---

  function Value(s: string): nat
    requires Digits(s)
  {
    if s == "" then 0 else 10 * Value(s[..|s| - 1]) + (s[|s| - 1] as nat - '0' as nat)
  }

  function Zeros(n: nat): string { if n == 0 then "" else "0" + Zeros(n - 1) }

  function ReadFields(s: string, w: seq<nat>, sep: seq<string>): Option<(seq<nat>, string)>
    requires |w| == |sep|
  {
    if w == [] then Some(([], s))
    else if |s| < w[0] + |sep[0]| || !Digits(s[..w[0]]) || s[w[0]..w[0] + |sep[0]|] != sep[0] then None
    else
      match ReadFields(s[w[0] + |sep[0]|..], w[1..], sep[1..])
      case None => None
      case Some((f, rest)) => Some(([Value(s[..w[0]])] + f, rest))
  }

  function ReadNanos(rest: string): Option<nat> {
    if rest == "Z" then Some(0)
    else if 3 <= |rest| <= 11 && rest[0] == '.' && rest[|rest| - 1] == 'Z' && Digits(rest[1..|rest| - 1]) then
      var digits := rest[1..|rest| - 1];
      ZerosAreDigits(9 - |digits|);
      Some(Value(digits + Zeros(9 - |digits|)))
    else None
  }

  /** time.Parse with the same layout, on UTC texts with at most nine fractional digits. */
  function Parse(s: string): Option<Instant> {
    match ReadFields(s, WIDTHS, SEPARATORS)
    case None => None
    case Some((f, rest)) =>
      if |f| != 6 then None
      else
        match ReadNanos(rest)
        case None => None
        case Some(nanos) =>
          var t := Instant(f[0], f[1], f[2], f[3], f[4], f[5], nanos);
          if t.Valid() then Some(t) else None
  }

  lemma ZerosAreDigits(n: nat)
    ensures |Zeros(n)| == n && forall s :: Digits(s) ==> Digits(s + Zeros(n))
  {
  }

  lemma {:induction false} ValueOfPad(n: nat, w: nat)
    requires n < Pow10(w)
    ensures Value(Pad(n, w)) == n
  {
    if w > 0 {
      ValueOfPad(n / 10, w - 1);
      assert Pad(n, w)[..w - 1] == Pad(n / 10, w - 1);
    }
  }

  lemma {:induction false} TrimThenZeros(s: string)
    ensures |Trim(s)| <= |s| && Trim(s) + Zeros(|s| - |Trim(s)|) == s
  {
    if s != "" {
      TrimThenZeros(s[1..]);
      var t, z := Trim(s[1..]), Zeros(|s[1..]| - |Trim(s[1..])|);
      if t == "" && s[0] == '0' {
        ZerosGrow(s, z);
      } else {
        Regroup([s[0]], t, z);
        Refront(s);
      }
    }
  }

  lemma Refront(s: string)
    requires s != ""
    ensures [s[0]] + s[1..] == s
  {
  }

  lemma ZerosGrow(s: string, z: string)
    requires s != "" && s[0] == '0' && z == Zeros(|s| - 1) && "" + z == s[1..]
    ensures "" + Zeros(|s|) == s
  {
    Refront(s);
    assert "" + z == z;
    assert "" + Zeros(|s|) == Zeros(|s|);
  }

  lemma Regroup(a: string, b: string, c: string)
    ensures (a + b) + c == a + (b + c)
  {
  }

  lemma Cut(p: string, sep: string, tail: string)
    ensures
      var s := p + (sep + tail);
      |s| >= |p| + |sep| && s[..|p|] == p && s[|p|..|p| + |sep|] == sep && s[|p| + |sep|..] == tail
  {
  }

  lemma {:induction false} ReadWritten(f: seq<nat>, w: seq<nat>, sep: seq<string>, rest: string)
    requires Fits(f, w) && |sep| == |w|
    ensures ReadFields(Written(f, w, sep) + rest, w, sep) == Some((f, rest))
  {
    if f == [] {
      assert Written(f, w, sep) + rest == rest;
    } else {
      ReadWritten(f[1..], w[1..], sep[1..], rest);
      ValueOfPad(f[0], w[0]);
      ReadHead(Pad(f[0], w[0]), Written(f[1..], w[1..], sep[1..]) + rest, f, w, sep, rest);
      WrittenUnfolds(f, w, sep, rest);
    }
  }

  lemma ReadHead(p: string, tail: string, f: seq<nat>, w: seq<nat>, sep: seq<string>, rest: string)
    requires |w| == |sep| && w != [] && f != [] && |p| == w[0] && Digits(p) && Value(p) == f[0]
    requires ReadFields(tail, w[1..], sep[1..]) == Some((f[1..], rest))
    ensures ReadFields(p + (sep[0] + tail), w, sep) == Some((f, rest))
  {
    Cut(p, sep[0], tail);
    ReadOne(p + (sep[0] + tail), w, sep, f, rest);
  }

  lemma ReadOne(s: string, w: seq<nat>, sep: seq<string>, f: seq<nat>, rest: string)
    requires |w| == |sep| && w != [] && f != [] && |s| >= w[0] + |sep[0]|
    requires Digits(s[..w[0]]) && s[w[0]..w[0] + |sep[0]|] == sep[0] && Value(s[..w[0]]) == f[0]
    requires ReadFields(s[w[0] + |sep[0]|..], w[1..], sep[1..]) == Some((f[1..], rest))
    ensures ReadFields(s, w, sep) == Some((f, rest))
  {
    assert [f[0]] + f[1..] == f;
  }

  lemma ReadSuffix(t: Instant)
    requires t.Valid()
    ensures ReadNanos(Suffix(Fraction(t))) == Some(t.nanos)
  {
    var s, d := Pad(t.nanos, 9), Fraction(t);
    NineDigits();
    ValueOfPad(t.nanos, 9);
    TrimThenZeros(s);
    if d == "" {
      assert s == Zeros(9);
      assert Value(Zeros(9)) == 0 by { ValueOfZeros(9); }
    } else {
      var rest := Suffix(d);
      assert rest == "." + d + "Z";
      assert rest[1..|rest| - 1] == d;
    }
  }

  lemma {:induction false} ValueOfZeros(n: nat)
    ensures Digits(Zeros(n)) && Value(Zeros(n)) == 0
  {
    if n > 0 {
      ValueOfZeros(n - 1);
      ZerosEnd(n);
      assert Zeros(n) == Zeros(n - 1) + "0";
    }
  }

  lemma {:induction false} ZerosEnd(n: nat)
    requires n > 0
    ensures |Zeros(n)| == n && Zeros(n)[..n - 1] == Zeros(n - 1) && Zeros(n)[n - 1] == '0'
  {
    ZerosAreDigits(n);
    if n > 1 {
      ZerosEnd(n - 1);
      assert Zeros(n)[..n - 1] == "0" + Zeros(n - 1)[..n - 2];
    }
  }

  /** Every timestamp Format writes is read back as the same instant. */
  lemma ParseInvertsFormat(t: Instant)
    requires t.Valid()
    ensures Parse(Format(t)) == Some(t)
  {
    WholeFits(t);
    ReadWritten(t.Whole(), WIDTHS, SEPARATORS, Suffix(Fraction(t)));
    ReadSuffix(t);
  }
}
