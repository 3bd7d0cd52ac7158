/** The popularity order of `getPopularFilms`: a stable sort by like count,
    most liked first, then truncation. */
module Ranking {
  import opened FilmModel

  /** Like counts never rise along the sequence. */
  ghost predicate NonIncreasing(xs: seq<Film>) {
    forall i, j :: 0 <= i < j < |xs| ==> LikesCount(xs[i]) >= LikesCount(xs[j])
  }

  /** The films of `xs` with exactly `c` likes, in their order in `xs`.
      A sort is stable when it keeps every such subsequence. */
  function WithLikes(xs: seq<Film>, c: int): (r: seq<Film>)
    ensures forall e :: e in r ==> e in xs && LikesCount(e) == c
  {
    if xs == [] then []
    else (if LikesCount(xs[0]) == c then [xs[0]] else []) + WithLikes(xs[1..], c)
  }

  /** `r` keeps, for every like count, a prefix of that count's films of
      `xs` in their `xs` order. */
  ghost predicate KeepsTieOrder(r: seq<Film>, xs: seq<Film>) {
    forall c :: WithLikes(r, c) <= WithLikes(xs, c)
  }

  /** No film of `xs` left out of `r` has more likes than the last film of `r`. */
  ghost predicate NoneOmittedAbove(r: seq<Film>, xs: seq<Film>) {
    |r| > 0 ==> forall x :: x in multiset(xs) - multiset(r) ==> LikesCount(x) <= LikesCount(r[|r| - 1])
  }

  /** Places `x` in front of the first film with no more likes than it has,
      so that `x` precedes the films of `ys` it ties with. */
  function Insert(x: Film, ys: seq<Film>): (r: seq<Film>)
    ensures |r| == |ys| + 1
    ensures multiset(r) == multiset(ys) + multiset{x}
    ensures forall e :: e in r <==> e == x || e in ys
  {
    if ys == [] || LikesCount(ys[0]) <= LikesCount(x) then [x] + ys
    else
      assert ys == [ys[0]] + ys[1..];
      [ys[0]] + Insert(x, ys[1..])
  }

  /** Every film of `xs` has at most `m` likes. */
  ghost predicate AtMost(xs: seq<Film>, m: int) {
    forall i :: 0 <= i < |xs| ==> LikesCount(xs[i]) <= m
  }

  /** A film followed by a non-increasing run it bounds is non-increasing. */
  lemma ConsKeepsOrder(y: Film, rest: seq<Film>)
    requires NonIncreasing(rest) && AtMost(rest, LikesCount(y))
    ensures NonIncreasing([y] + rest)
  {
    var r := [y] + rest;
    forall i, j | 0 <= i < j < |r| ensures LikesCount(r[i]) >= LikesCount(r[j]) {
      assert r[j] == rest[j - 1];
      if i > 0 {
        assert r[i] == rest[i - 1];
      }
    }
  }

  /** Inserting a film under a bound keeps the whole sequence under it. */
  lemma {:induction false} InsertBounded(x: Film, ys: seq<Film>, m: int)
    requires LikesCount(x) <= m && AtMost(ys, m)
    ensures AtMost(Insert(x, ys), m)
  {
    if ys != [] && LikesCount(ys[0]) > LikesCount(x) {
      var rest := Insert(x, ys[1..]);
      InsertBounded(x, ys[1..], m);
      assert Insert(x, ys) == [ys[0]] + rest;
    }
  }

  /** Inserting into a non-increasing sequence keeps it non-increasing. */
  lemma {:induction false} InsertKeepsOrder(x: Film, ys: seq<Film>)
    requires NonIncreasing(ys)
    ensures NonIncreasing(Insert(x, ys))
  {
    if ys == [] || LikesCount(ys[0]) <= LikesCount(x) {
      assert AtMost(ys, LikesCount(x)) by {
        if ys != [] {
          assert forall i :: 0 < i < |ys| ==> LikesCount(ys[0]) >= LikesCount(ys[i]);
        }
      }
      ConsKeepsOrder(x, ys);
    } else {
      var y := ys[0];
      InsertKeepsOrder(x, ys[1..]);
      assert AtMost(ys[1..], LikesCount(y)) by {
        forall i | 0 <= i < |ys[1..]| ensures LikesCount(ys[1..][i]) <= LikesCount(y) {
          assert ys[1..][i] == ys[i + 1];
        }
      }
      InsertBounded(x, ys[1..], LikesCount(y));
      ConsKeepsOrder(y, Insert(x, ys[1..]));
    }
  }

  /** The tie group of a film followed by a sequence. */
  lemma WithLikesCons(y: Film, rest: seq<Film>, c: int)
    ensures WithLikes([y] + rest, c) == (if LikesCount(y) == c then [y] else []) + WithLikes(rest, c)
  {
    assert ([y] + rest)[1..] == rest;
  }

  /** Inserting `x` puts it at the head of its tie group and leaves the
      other tie groups alone. */
  lemma {:induction false} InsertTieGroups(x: Film, ys: seq<Film>, c: int)
    ensures WithLikes(Insert(x, ys), c) == (if LikesCount(x) == c then [x] else []) + WithLikes(ys, c)
  {
    if ys == [] || LikesCount(ys[0]) <= LikesCount(x) {
      assert Insert(x, ys) == [x] + ys;
      WithLikesCons(x, ys, c);
    } else {
      InsertTieGroups(x, ys[1..], c);
      InsertBelowHead(x, ys, c);
    }
  }

  /** The step of `InsertTieGroups` when `x` goes below the head of `ys`. */
  lemma InsertBelowHead(x: Film, ys: seq<Film>, c: int)
    requires ys != [] && LikesCount(ys[0]) > LikesCount(x)
    requires WithLikes(Insert(x, ys[1..]), c) == (if LikesCount(x) == c then [x] else []) + WithLikes(ys[1..], c)
    ensures WithLikes(Insert(x, ys), c) == (if LikesCount(x) == c then [x] else []) + WithLikes(ys, c)
  {
    var y, tail := ys[0], ys[1..];
    assert ys == [y] + tail;
    var rest := Insert(x, tail);
    assert Insert(x, ys) == [y] + rest;
    WithLikesCons(y, rest, c);
    WithLikesCons(y, tail, c);
    if LikesCount(y) == c {
      assert LikesCount(x) != c;
      assert WithLikes(rest, c) == WithLikes(tail, c);
    } else {
      assert WithLikes([y] + rest, c) == WithLikes(rest, c);
      assert WithLikes(ys, c) == WithLikes(tail, c);
    }
  }

  /** The stable descending sort by like count (insertion sort). */
  function SortByLikes(xs: seq<Film>): (r: seq<Film>)
    ensures |r| == |xs|
    ensures multiset(r) == multiset(xs)
    ensures NonIncreasing(r)
    ensures forall c :: WithLikes(r, c) == WithLikes(xs, c)
  {
    if xs == [] then []
    else
      var tail := SortByLikes(xs[1..]);
      assert xs == [xs[0]] + xs[1..];
      InsertKeepsOrder(xs[0], tail);
      forall c ensures WithLikes(Insert(xs[0], tail), c) == WithLikes(xs, c) {
        InsertTieGroups(xs[0], tail, c);
      }
      Insert(xs[0], tail)
  }

  /** Truncating keeps a prefix of each tie group. */
  lemma {:induction false} WithLikesOfPrefix(xs: seq<Film>, k: nat, c: int)
    requires k <= |xs|
    ensures WithLikes(xs[..k], c) <= WithLikes(xs, c)
  {
    if k > 0 {
      assert xs[..k][1..] == xs[1..][..k - 1];
      WithLikesOfPrefix(xs[1..], k - 1, c);
    }
  }

  /** In a non-increasing sequence, nothing after position `k` is more
      liked than the film just before it. */
  lemma OmittedNoMoreLiked(sorted: seq<Film>, k: nat)
    requires NonIncreasing(sorted) && k <= |sorted|
    ensures k > 0 ==> forall x :: x in multiset(sorted) - multiset(sorted[..k]) ==> LikesCount(x) <= LikesCount(sorted[k - 1])
  {
    if k == 0 { return; }
    assert sorted == sorted[..k] + sorted[k..];
    assert multiset(sorted) - multiset(sorted[..k]) == multiset(sorted[k..]);
    forall x | x in multiset(sorted[k..]) ensures LikesCount(x) <= LikesCount(sorted[k - 1]) {
      var j :| 0 <= j < |sorted[k..]| && sorted[k..][j] == x;
      assert sorted[k + j] == x;
    }
  }

  /** The first `limit` films of the stable descending order: at most
      `limit` of them, none more liked than an omitted one is missing, and
      films with equal counts in their input order. */
  function Top(xs: seq<Film>, limit: nat): (r: seq<Film>)
    ensures |r| == if limit < |xs| then limit else |xs|
    ensures multiset(r) <= multiset(xs)
    ensures NonIncreasing(r)
    ensures KeepsTieOrder(r, xs)
    ensures NoneOmittedAbove(r, xs)
  {
    var sorted := SortByLikes(xs);
    var k := if limit < |xs| then limit else |xs|;
    PrefixOfSorted(xs, sorted, k);
    sorted[..k]
  }

  /** What a prefix of a stable descending arrangement of `xs` keeps. */
  lemma PrefixOfSorted(xs: seq<Film>, sorted: seq<Film>, k: nat)
    requires NonIncreasing(sorted) && k <= |sorted|
    requires multiset(sorted) == multiset(xs)
    requires forall c :: WithLikes(sorted, c) == WithLikes(xs, c)
    ensures multiset(sorted[..k]) <= multiset(xs)
    ensures forall i :: 0 <= i < k ==> sorted[..k][i] in xs
    ensures NonIncreasing(sorted[..k])
    ensures KeepsTieOrder(sorted[..k], xs)
    ensures NoneOmittedAbove(sorted[..k], xs)
  {
    assert sorted == sorted[..k] + sorted[k..];
    forall i | 0 <= i < k ensures sorted[..k][i] in xs {
      assert sorted[..k][i] in multiset(sorted);
    }
    forall c ensures WithLikes(sorted[..k], c) <= WithLikes(xs, c) {
      WithLikesOfPrefix(sorted, k, c);
    }
    OmittedNoMoreLiked(sorted, k);
  }

  /** The first film of a sequence is in its own tie group. */
  lemma NonEmptyTieGroup(xs: seq<Film>)
    requires xs != []
    ensures WithLikes(xs, LikesCount(xs[0])) != []
  {
  }

  /** The head of a non-increasing order has the largest like count, so
      no film of another order with the same tie groups has more. */
  lemma HeadCountAtMost(a: seq<Film>, b: seq<Film>)
    requires a != [] && b != []
    requires NonIncreasing(b)
    requires forall c :: WithLikes(a, c) == WithLikes(b, c)
    ensures LikesCount(a[0]) <= LikesCount(b[0])
  {
    var ca := LikesCount(a[0]);
    NonEmptyTieGroup(a);
    var w := WithLikes(b, ca);
    assert w[0] in w;
    var j :| 0 <= j < |b| && b[j] == w[0];
    if j > 0 { assert LikesCount(b[0]) >= LikesCount(b[j]); }
  }

  /** Removing equal heads keeps the tie groups equal. */
  lemma TailTieGroups(a: seq<Film>, b: seq<Film>, c: int)
    requires a != [] && b != [] && a[0] == b[0]
    requires WithLikes(a, c) == WithLikes(b, c)
    ensures WithLikes(a[1..], c) == WithLikes(b[1..], c)
  {
    var ta, tb := WithLikes(a[1..], c), WithLikes(b[1..], c);
    if LikesCount(a[0]) == c {
      assert WithLikes(a, c) == [a[0]] + ta;
      assert WithLikes(b, c) == [a[0]] + tb;
      assert ([a[0]] + ta)[1..] == ta;
      assert ([a[0]] + tb)[1..] == tb;
    } else {
      assert WithLikes(a, c) == [] + ta == ta;
      assert WithLikes(b, c) == [] + tb == tb;
    }
  }

  /** A non-increasing order is fixed by its tie groups: two such orders
      that agree on every tie group are equal. */
  lemma {:induction false} StableOrderUnique(a: seq<Film>, b: seq<Film>)
    requires NonIncreasing(a) && NonIncreasing(b)
    requires forall c :: WithLikes(a, c) == WithLikes(b, c)
    ensures a == b
  {
    if a == [] && b == [] {
    } else if a == [] || b == [] {
      var z := if a == [] then b else a;
      NonEmptyTieGroup(z);
      assert false;
    } else {
      HeadCountAtMost(a, b);
      HeadCountAtMost(b, a);
      var ca := LikesCount(a[0]);
      assert a[0] == b[0] by {
        assert WithLikes(a, ca)[0] == a[0];
        assert WithLikes(b, ca)[0] == b[0];
      }
      forall c ensures WithLikes(a[1..], c) == WithLikes(b[1..], c) {
        TailTieGroups(a, b, c);
      }
      assert NonIncreasing(a[1..]) && NonIncreasing(b[1..]);
      StableOrderUnique(a[1..], b[1..]);
      assert a == [a[0]] + a[1..] && b == [b[0]] + b[1..];
    }
  }

  /** The sort is the one stable descending order of its input: any
      non-increasing arrangement that keeps every tie group equals it. */
  lemma SortIsTheStableOrder(xs: seq<Film>, r: seq<Film>)
    requires NonIncreasing(r)
    requires forall c :: WithLikes(r, c) == WithLikes(xs, c)
    ensures r == SortByLikes(xs)
  {
    StableOrderUnique(r, SortByLikes(xs));
  }

  /** Tie groups distribute over concatenation. */
  lemma {:induction false} WithLikesConcat(a: seq<Film>, b: seq<Film>, c: int)
    ensures WithLikes(a + b, c) == WithLikes(a, c) + WithLikes(b, c)
  {
    if a == [] {
      assert a + b == b;
    } else {
      assert (a + b)[0] == a[0];
      assert (a + b)[1..] == a[1..] + b;
      WithLikesConcat(a[1..], b, c);
    }
  }

  /** Films liked by 3, 1 and 5 users have the same tie groups in input
      order and in most-liked-first order. */
  lemma ExampleTieGroups(f1: Film, f2: Film, f3: Film, c: int)
    requires LikesCount(f1) == 3 && LikesCount(f2) == 1 && LikesCount(f3) == 5
    ensures WithLikes([f3, f1, f2], c) == WithLikes([f1, f2, f3], c)
  {
    WithLikesConcat([f3], [f1], c);
    WithLikesConcat([f3, f1], [f2], c);
    assert [f3] + [f1] == [f3, f1] && [f3, f1] + [f2] == [f3, f1, f2];
    WithLikesConcat([f1], [f2], c);
    WithLikesConcat([f1, f2], [f3], c);
    assert [f1] + [f2] == [f1, f2] && [f1, f2] + [f3] == [f1, f2, f3];
  }

  /** Films liked by 3, 1 and 5 users sort as 5, 3, 1. */
  lemma SortExample(f1: Film, f2: Film, f3: Film)
    requires LikesCount(f1) == 3 && LikesCount(f2) == 1 && LikesCount(f3) == 5
    ensures SortByLikes([f1, f2, f3]) == [f3, f1, f2]
  {
    assert NonIncreasing([f2]);
    assert AtMost([f2], LikesCount(f1));
    ConsKeepsOrder(f1, [f2]);
    assert AtMost([f1, f2], LikesCount(f3));
    assert [f1] + [f2] == [f1, f2];
    ConsKeepsOrder(f3, [f1, f2]);
    assert [f3] + [f1, f2] == [f3, f1, f2];
    forall c ensures WithLikes([f3, f1, f2], c) == WithLikes([f1, f2, f3], c) {
      ExampleTieGroups(f1, f2, f3, c);
    }
    SortIsTheStableOrder([f1, f2, f3], [f3, f1, f2]);
  }

  /** Films liked by 3, 1 and 5 users, asked for the top two: the 5-like
      film, then the 3-like one. */
  lemma TopExample(f1: Film, f2: Film, f3: Film)
    requires LikesCount(f1) == 3 && LikesCount(f2) == 1 && LikesCount(f3) == 5
    ensures Top([f1, f2, f3], 2) == [f3, f1]
  {
    SortExample(f1, f2, f3);
    assert [f3, f1, f2][..2] == [f3, f1];
  }
}
