/** The string predicates the validators use. */
module Text {

  /** Java's `Character.isWhitespace`: the ASCII controls TAB..CR and
      FS..US, plus every Unicode space, line or paragraph separator except
      the three non-breaking spaces U+00A0, U+2007 and U+202F. */
  predicate IsWhitespace(c: char): (r: bool)
    ensures c == '\U{A0}' || c == '\U{2007}' || c == '\U{202F}' ==> !r
    ensures c == ' ' || c == '\t' || c == '\n' || c == '\r' ==> r
    ensures r ==> c <= '\U{3000}'
  {
    || c == ' '
    || ('\t' <= c <= '\r')
    || ('\U{1C}' <= c <= '\U{1F}')
    || c == '\U{1680}'
    || ('\U{2000}' <= c <= '\U{200A}' && c != '\U{2007}')
    || c == '\U{2028}' || c == '\U{2029}'
    || c == '\U{205F}' || c == '\U{3000}'
  }

  /** Java's `String.isBlank`: empty, or whitespace only. */
  predicate IsBlank(s: string): (r: bool)
    ensures s == [] ==> r
    ensures r <==> forall c :: c in s ==> IsWhitespace(c)
  {
    forall i :: 0 <= i < |s| ==> IsWhitespace(s[i])
  }

  /** Java's `String.contains` for a one-character needle. */
  predicate Contains(s: string, c: char) {
    c in s
  }

  /** A string holding a non-whitespace character is not blank. */
  lemma NotBlankIfContainsVisible(s: string, c: char)
    requires Contains(s, c) && !IsWhitespace(c)
    ensures !IsBlank(s)
  {
    var i :| 0 <= i < |s| && s[i] == c;
  }

  /** A character outside the Basic Multilingual Plane, which UTF-16
      stores as a surrogate pair. */
  predicate IsAstral(c: char) {
    c >= '\U{10000}'
  }

  /** Java's `String.length`: the number of UTF-16 code units, one per
      character of the Basic Multilingual Plane and two per astral one. */
  function Utf16Length(s: string): (n: nat)
    ensures |s| <= n <= 2 * |s|
    ensures n == |s| <==> forall i :: 0 <= i < |s| ==> !IsAstral(s[i])
    ensures n == 2 * |s| <==> forall i :: 0 <= i < |s| ==> IsAstral(s[i])
  {
    if s == [] then 0
    else
      var rest := Utf16Length(s[1..]);
      assert forall i :: 0 < i < |s| ==> s[i] == s[1..][i - 1];
      (if IsAstral(s[0]) then 2 else 1) + rest
  }
}

/** Calendar dates as `java.time.LocalDate` compares them. */
module Dates {

  /** A (year, month, day) triple; ordering is lexicographic. */
  datatype Date = Date(year: int, month: int, day: int)

  /** Month and day within their calendar ranges. */
  predicate InRange(d: Date) {
    1 <= d.month <= 12 && 1 <= d.day <= 31
  }

  /** A day number that grows with the date: 31 slots per month, 12 months
      per year. Dates in range are ordered as their day numbers. */
  function DayNumber(d: Date): int {
    (d.year * 12 + (d.month - 1)) * 31 + (d.day - 1)
  }

  /** `LocalDate.isBefore`: compare years, then months, then days. */
  predicate IsBefore(a: Date, b: Date): (r: bool)
    ensures InRange(a) && InRange(b) ==> (r <==> DayNumber(a) < DayNumber(b))
  {
    || a.year < b.year
    || (a.year == b.year && a.month < b.month)
    || (a.year == b.year && a.month == b.month && a.day < b.day)
  }

  /** `LocalDate.isAfter`: the converse of `isBefore`. */
  predicate IsAfter(a: Date, b: Date): (r: bool)
    ensures InRange(a) && InRange(b) ==> (r <==> DayNumber(a) > DayNumber(b))
  {
    IsBefore(b, a)
  }

  /** The order is strict and total, so "not before" means "equal or after". */
  lemma Trichotomy(a: Date, b: Date)
    ensures !IsBefore(a, a)
    ensures IsBefore(a, b) || a == b || IsBefore(b, a)
    ensures !(IsBefore(a, b) && IsBefore(b, a))
  {
  }
}

/** Facts about sequences without repetitions. */
module SeqFacts {

  predicate Distinct<T(==)>(xs: seq<T>) {
    forall i, j :: 0 <= i < j < |xs| ==> xs[i] != xs[j]
  }

  function Elements<T>(xs: seq<T>): set<T> {
    set x | x in xs
  }

  /** A sequence without repetitions has as many elements as its set. */
  lemma {:induction false} DistinctCardinality<T>(xs: seq<T>)
    requires Distinct(xs)
    ensures |Elements(xs)| == |xs|
  {
    if xs != [] {
      var tail := xs[1..];
      assert Distinct(tail) by {
        forall i, j | 0 <= i < j < |tail| ensures tail[i] != tail[j] {
          assert tail[i] == xs[i + 1] && tail[j] == xs[j + 1];
        }
      }
      DistinctCardinality(tail);
      assert xs[0] !in tail by {
        forall k | 0 <= k < |tail| ensures tail[k] != xs[0] {
          assert tail[k] == xs[k + 1];
        }
      }
      assert Elements(xs) == Elements(tail) + {xs[0]} by {
        assert xs == [xs[0]] + tail;
      }
    }
  }

  /** Some member of a non-empty set. The verifier does not connect
      `s != {}` to `exists x :: x in s` by itself, so a `:|` choice from a
      non-empty set needs this lemma first: the case split below makes the
      existence explicit (its empty case contradicts `s != {}`). */
  lemma Member(s: set<int>) returns (x: int)
    requires s != {}
    ensures x in s
  {
    if forall y :: y !in s {
      assert false;
    }
    x :| x in s;
  }

  /** A set enumerated in some order, each element once, as iterating a
      hash set does: the order is not fixed, so any order is allowed. */
  method Enumerate(ids: set<int>) returns (xs: seq<int>)
    ensures Distinct(xs)
    ensures Elements(xs) == ids
    ensures |xs| == |ids|
  {
    xs := [];
    var rest := ids;
    while rest != {}
      invariant rest <= ids
      invariant Distinct(xs)
      invariant Elements(xs) == ids - rest
      invariant |xs| + |rest| == |ids|
      decreases |rest|
    {
      // The ghost witness is never read: calling Member only puts an
      // element of `rest` in scope, which proves the `:|` choice below can
      // be made. The choice itself stays non-ghost.
      ghost var some := Member(rest);
      var x :| x in rest;
      assert x !in Elements(xs);
      assert Elements(xs + [x]) == Elements(xs) + {x};
      xs := xs + [x];
      rest := rest - {x};
    }
  }

  /** The ids of `xs` that are in `keep`, in `xs`'s order. */
  function KeepIn(xs: seq<int>, keep: set<int>): (r: seq<int>)
    ensures Elements(r) == Elements(xs) * keep
    ensures Distinct(xs) ==> Distinct(r)
  {
    if xs == [] then []
    else
      var rest := KeepIn(xs[1..], keep);
      assert Elements(xs) == {xs[0]} + Elements(xs[1..]) by { assert xs == [xs[0]] + xs[1..]; }
      assert Distinct(xs) ==> Distinct(xs[1..]) by {
        if Distinct(xs) {
          forall i, j | 0 <= i < j < |xs[1..]| ensures xs[1..][i] != xs[1..][j] {
            assert xs[1..][i] == xs[i + 1] && xs[1..][j] == xs[j + 1];
          }
        }
      }
      assert Elements([xs[0]] + rest) == {xs[0]} + Elements(rest);
      if xs[0] in keep then [xs[0]] + rest else rest
  }
}
