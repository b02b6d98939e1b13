// Lexicographic order on strings, sorting by a string label, and white space.

module Text {
  predicate Less(a: string, b: string) {
    b != [] && (a == [] || a[0] < b[0] || (a[0] == b[0] && Less(a[1..], b[1..])))
  }

  predicate AtMost(a: string, b: string) { !Less(b, a) }

  lemma {:induction false} LessIsTotal(a: string, b: string)
    ensures Less(a, b) || Less(b, a) || a == b
    ensures !(Less(a, b) && Less(b, a))
    ensures !Less(a, a)
  {
    if a != [] {
      LessIsTotal(a[1..], a[1..]);
      if b != [] {
        LessIsTotal(a[1..], b[1..]);
        assert a == [a[0]] + a[1..] && b == [b[0]] + b[1..];
      }
    }
  }

  lemma {:induction false} AtMostTransitive(a: string, b: string, c: string)
    requires AtMost(a, b) && AtMost(b, c)
    ensures AtMost(a, c)
  {
    if a != [] && b != [] && c != [] && a[0] == b[0] && b[0] == c[0] {
      assert !Less(c[1..], b[1..]) && !Less(b[1..], a[1..]);
      AtMostTransitive(a[1..], b[1..], c[1..]);
    }
  }

  /** The first position where two strings differ decides. */
  lemma {:induction false} FirstDifferenceDecides(p: string, a: string, b: string)
    ensures Less(p + a, p + b) <==> Less(a, b)
  {
    if p == [] {
      assert p + a == a && p + b == b;
    } else {
      assert (p + a)[1..] == p[1..] + a && (p + b)[1..] == p[1..] + b;
      FirstDifferenceDecides(p[1..], a, b);
    }
  }

  /** Up to i the strings agree, and there the first one ends or holds the smaller character. */
  ghost predicate SmallerAt(a: string, b: string, i: nat) {
    i <= |a| && i < |b| && a[..i] == b[..i] && (i == |a| || a[i] < b[i])
  }

  lemma SmallerLater(a: string, b: string, i: nat)
    requires a != [] && b != [] && a[0] == b[0]
    ensures SmallerAt(a, b, i + 1) <==> SmallerAt(a[1..], b[1..], i)
    ensures !SmallerAt(a, b, 0)
  {
    if i < |a| && i < |b| {
      assert a[..i + 1] == [a[0]] + a[1..][..i] && b[..i + 1] == [b[0]] + b[1..][..i];
      assert a[1..][..i] == a[..i + 1][1..] && b[1..][..i] == b[..i + 1][1..];
    }
  }

  /** What the order is. */
  lemma {:induction false} LessIff(a: string, b: string)
    ensures Less(a, b) <==> exists i :: SmallerAt(a, b, i)
  {
    if a != [] && b != [] && a[0] == b[0] {
      LessIff(a[1..], b[1..]);
      SmallerLater(a, b, 0);
      if Less(a, b) {
        var i: nat :| SmallerAt(a[1..], b[1..], i);
        SmallerLater(a, b, i);
      } else {
        forall i: nat | i > 0 ensures !SmallerAt(a, b, i) { SmallerLater(a, b, i - 1); }
      }
    } else if a != [] && b != [] {
      assert SmallerAt(a, b, 0) <==> a[0] < b[0];
      forall i: nat | i > 0 ensures !SmallerAt(a, b, i) {
        if i <= |a| && i < |b| { assert a[..i][0] != b[..i][0]; }
      }
    } else if b != [] {
      assert SmallerAt(a, b, 0);
    }
  }

  ghost predicate SortedBy<T>(xs: seq<T>, name: T -> string) {
    forall i, j :: 0 <= i < j < |xs| ==> AtMost(name(xs[i]), name(xs[j]))
  }

  /** What a sort promises: the same elements, in label order. Elements with equal labels come in any order. */
  ghost predicate IsSortOf<T>(ys: seq<T>, xs: seq<T>, name: T -> string) {
    multiset(ys) == multiset(xs) && SortedBy(ys, name)
  }

  /** sort.Strings and sort.Slice: an insertion sort stands for whichever algorithm the library uses. */
  method SortBy<T>(xs: seq<T>, name: T -> string) returns (ys: seq<T>)
    ensures IsSortOf(ys, xs, name)
  {
    ys := [];
    for n := 0 to |xs|
      invariant IsSortOf(ys, xs[..n], name)
    {
      var i := 0;
      while i < |ys| && !Less(name(xs[n]), name(ys[i]))
        invariant i <= |ys|
        invariant forall k :: 0 <= k < i ==> AtMost(name(ys[k]), name(xs[n]))
      {
        i := i + 1;
      }
      InsertKeepsOrder(ys, i, xs[n], name);
      InsertAdds(ys, i, xs[n]);
      assert xs[..n + 1] == xs[..n] + [xs[n]];
      ys := ys[..i] + [xs[n]] + ys[i..];
    }
    assert xs[..|xs|] == xs;
  }

  lemma InsertAdds<T>(ys: seq<T>, i: nat, x: T)
    requires i <= |ys|
    ensures multiset(ys[..i] + [x] + ys[i..]) == multiset(ys) + multiset{x}
  {
    assert ys == ys[..i] + ys[i..];
  }

  lemma InsertKeepsOrder<T>(ys: seq<T>, i: nat, x: T, name: T -> string)
    requires SortedBy(ys, name) && i <= |ys|
    requires forall k :: 0 <= k < i ==> AtMost(name(ys[k]), name(x))
    requires i < |ys| ==> Less(name(x), name(ys[i]))
    ensures SortedBy(ys[..i] + [x] + ys[i..], name)
  {
    forall k | i <= k < |ys| ensures AtMost(name(x), name(ys[k])) {
      LessIsTotal(name(x), name(ys[i]));
      LessIsTotal(name(ys[i]), name(ys[i]));
      AtMostTransitive(name(x), name(ys[i]), name(ys[k]));
    }
  }

  /** Sorting strings has one possible result. */
  lemma {:induction false} SortedStringsAreUnique(a: seq<string>, b: seq<string>)
    requires SortedBy(a, s => s) && SortedBy(b, s => s) && multiset(a) == multiset(b)
    ensures a == b
  {
    if a == [] {
      assert |multiset(b)| == 0;
    } else {
      assert |multiset(a)| == |multiset(b)|;
      assert a[0] in multiset(b) && b[0] in multiset(a);
      HeadIsLeast(a, b[0]);
      HeadIsLeast(b, a[0]);
      LessIsTotal(a[0], b[0]);
      Behead(a);
      Behead(b);
      SortedStringsAreUnique(a[1..], b[1..]);
    }
  }

  lemma Behead(a: seq<string>)
    requires a != []
    ensures a == [a[0]] + a[1..] && multiset(a[1..]) == multiset(a) - multiset{a[0]}
    ensures SortedBy(a, s => s) ==> SortedBy(a[1..], s => s)
  {
    assert a == [a[0]] + a[1..];
  }

  lemma HeadIsLeast(a: seq<string>, x: string)
    requires a != [] && x in a && SortedBy(a, s => s)
    ensures AtMost(a[0], x)
  {
    LessIsTotal(x, x);
  }

  /** Two sequences over the same elements, both strictly ordered by label, are equal. */
  lemma {:induction false} StrictlySortedIsUnique<T>(a: seq<T>, b: seq<T>, name: T -> string)
    requires SortedBy(a, name) && SortedBy(b, name) && |a| == |b|
    requires forall x :: x in a <==> x in b
    requires forall i, j :: 0 <= i < j < |a| ==> name(a[i]) != name(a[j])
    requires forall i, j :: 0 <= i < j < |b| ==> name(b[i]) != name(b[j])
    ensures a == b
  {
    if a != [] {
      assert a[0] in a && b[0] in b;
      var i :| 0 <= i < |b| && b[i] == a[0];
      var j :| 0 <= j < |a| && a[j] == b[0];
      LessIsTotal(name(a[0]), name(b[0]));
      LessIsTotal(name(a[0]), name(a[0]));
      assert a[0] == b[0];
      forall x ensures x in a[1..] <==> x in b[1..] {
        assert x in a[1..] ==> x in a && x != a[0];
        assert x in b[1..] ==> x in b && x != b[0];
        assert x in a && x != a[0] ==> x in a[1..];
        assert x in b && x != b[0] ==> x in b[1..];
      }
      StrictlySortedIsUnique(a[1..], b[1..], name);
      assert a == [a[0]] + a[1..] && b == [b[0]] + b[1..];
    }
  }

  /** unicode.IsSpace. */
  predicate IsSpace(c: char) {
    || '\t' <= c <= '\r' || c == ' ' || c == '\U{85}' || c == '\U{A0}' || c == '\U{1680}'
    || '\U{2000}' <= c <= '\U{200A}' || c == '\U{2028}' || c == '\U{2029}' || c == '\U{202F}'
    || c == '\U{205F}' || c == '\U{3000}'
  }

  /** strings.TrimSpace. */
  function TrimLeft(s: string): string {
    if s != "" && IsSpace(s[0]) then TrimLeft(s[1..]) else s
  }

  function TrimRight(s: string): string {
    if s != "" && IsSpace(s[|s| - 1]) then TrimRight(s[..|s| - 1]) else s
  }

  function TrimSpace(s: string): string { TrimRight(TrimLeft(s)) }

  ghost predicate Blank(s: string) { forall i :: 0 <= i < |s| ==> IsSpace(s[i]) }

  /** What trimming does: it takes white space off both ends, and leaves none there. */
  ghost predicate IsTrimmed(s: string, t: string, a: string, b: string) {
    s == a + t + b && Blank(a) && Blank(b) && (t != "" ==> !IsSpace(t[0]) && !IsSpace(t[|t| - 1]))
  }

  lemma {:induction false} TrimLeftReads(s: string) returns (a: string)
    ensures s == a + TrimLeft(s) && Blank(a)
    ensures TrimLeft(s) != "" ==> !IsSpace(TrimLeft(s)[0])
  {
    a := "";
    if s != "" && IsSpace(s[0]) {
      var rest := TrimLeftReads(s[1..]);
      a := [s[0]] + rest;
    }
  }

  lemma {:induction false} TrimRightReads(s: string) returns (b: string)
    ensures s == TrimRight(s) + b && Blank(b) && TrimRight(s) <= s
    ensures TrimRight(s) != "" ==> !IsSpace(TrimRight(s)[|TrimRight(s)| - 1])
  {
    b := "";
    if s != "" && IsSpace(s[|s| - 1]) {
      var rest := TrimRightReads(s[..|s| - 1]);
      b := rest + [s[|s| - 1]];
      assert s == s[..|s| - 1] + [s[|s| - 1]];
    }
  }

  lemma TrimSpaceReads(s: string) returns (a: string, b: string)
    ensures IsTrimmed(s, TrimSpace(s), a, b)
  {
    a := TrimLeftReads(s);
    b := TrimRightReads(TrimLeft(s));
  }

  /** Trimming leaves nothing exactly of a blank text. */
  lemma BlankIff(s: string)
    ensures Blank(s) <==> TrimSpace(s) == ""
  {
    var a, b := TrimSpaceReads(s);
    if TrimSpace(s) != "" { assert s[|a|] == TrimSpace(s)[0]; }
  }

  /** The white space characters, one by one. */
  lemma SpacesAre(c: char)
    ensures IsSpace(c) <==> c in [
      '\t', '\n', '\U{0B}', '\U{0C}', '\r', ' ', '\U{85}', '\U{A0}', '\U{1680}', '\U{2000}', '\U{2001}', '\U{2002}',
      '\U{2003}', '\U{2004}', '\U{2005}', '\U{2006}', '\U{2007}', '\U{2008}', '\U{2009}', '\U{200A}', '\U{2028}',
      '\U{2029}', '\U{202F}', '\U{205F}', '\U{3000}']
  {
  }
}
