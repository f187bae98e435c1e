/** Which rows survive the row-clearing scan of main.c, for any notion of "full" row. */
module Survivors {

  /** The survivors of the first n rows, read from the bottom: a full row is dropped, and the row
      that falls into its place is kept without being looked at. */
  function Kept<T>(full: T -> bool, g: seq<T>, n: nat): (k: seq<T>)
    requires n <= |g|
    ensures |k| <= n
  {
    if n == 0 then []
    else if !full(g[n - 1]) then Kept(full, g, n - 1) + [g[n - 1]]
    else if n == 1 then []
    else Kept(full, g, n - 2) + [g[n - 2]]
  }

  // Only the first n rows matter.
  lemma {:induction false} KeptPrefix<T>(full: T -> bool, g: seq<T>, h: seq<T>, n: nat)
    requires n <= |g| && n <= |h|
    requires forall i :: 0 <= i < n ==> g[i] == h[i]
    ensures Kept(full, g, n) == Kept(full, h, n)
  {
    if n > 0 {
      KeptPrefix(full, g, h, n - 1);
      if n > 1 {
        KeptPrefix(full, g, h, n - 2);
      }
    }
  }

  // The three cases of the definition.
  lemma KeptNothing<T>(full: T -> bool, g: seq<T>)
    ensures Kept(full, g, 0) == []
  {
  }

  lemma KeptStays<T>(full: T -> bool, g: seq<T>, n: nat)
    requires 0 < n <= |g| && !full(g[n - 1])
    ensures Kept(full, g, n) == Kept(full, g, n - 1) + [g[n - 1]]
  {
  }

  lemma KeptDrops<T>(full: T -> bool, g: seq<T>, n: nat)
    requires 1 < n <= |g| && full(g[n - 1])
    ensures Kept(full, g, n) == Kept(full, g, n - 2) + [g[n - 2]]
  {
  }

  lemma {:induction false} KeptAppend<T>(full: T -> bool, u: seq<T>, v: seq<T>, n: nat)
    requires n <= |v| && (v == [] || !full(v[0]))
    ensures Kept(full, u + v, |u| + n) == Kept(full, u, |u|) + Kept(full, v, n)
  {
    hide Kept;
    var g, m := u + v, |u| + n;
    if n == 0 {
      KeptPrefix(full, g, u, |u|);
      KeptNothing(full, v);
    } else if !full(v[n - 1]) {
      KeptAppend(full, u, v, n - 1);
      KeptStays(full, g, m);
      KeptStays(full, v, n);
    } else {
      KeptAppend(full, u, v, n - 2);
      KeptDrops(full, g, m);
      KeptDrops(full, v, n);
    }
  }

  ghost predicate AllFull<T>(full: T -> bool, f: seq<T>) {
    forall i :: 0 <= i < |f| ==> full(f[i])
  }

  // Of a block of full rows, every second row survives, counted from the bottom.
  lemma {:induction false} KeptFull<T>(full: T -> bool, f: seq<T>, n: nat)
    requires AllFull(full, f) && n <= |f|
    ensures |Kept(full, f, n)| == n / 2
    ensures forall i :: 0 <= i < n / 2 ==> Kept(full, f, n)[i] == f[n % 2 + 2 * i]
  {
    if n > 1 {
      KeptFull(full, f, n - 2);
    }
  }

  lemma {:induction false} KeptAboveFull<T>(full: T -> bool, a: seq<T>, f: seq<T>, n: nat)
    requires AllFull(full, f) && n <= |f| && (a == [] || !full(a[|a| - 1]))
    ensures Kept(full, a + f, |a| + n) == Kept(full, a, |a|) + Kept(full, f, n)
  {
    hide Kept;
    var g, m := a + f, |a| + n;
    KeptPrefix(full, g, a, |a|);
    KeptNothing(full, f);
    if n == 1 {
      KeptOne(full, f);
      if a == [] {
        assert g == f;
        KeptNothing(full, a);
      } else {
        KeptPrefix(full, g, a, |a| - 1);
        KeptStays(full, a, |a|);
        KeptDrops(full, g, m);
      }
    } else if n > 1 {
      KeptAboveFull(full, a, f, n - 2);
      KeptDrops(full, g, m);
      KeptDrops(full, f, n);
    }
  }

  lemma KeptOne<T>(full: T -> bool, f: seq<T>)
    requires f != [] && full(f[0])
    ensures Kept(full, f, 1) == []
  {
  }

  function Survive<T>(full: T -> bool, g: seq<T>): seq<T> {
    Kept(full, g, |g|)
  }

  /** A maximal block of k adjacent full rows keeps every second row, so it loses exactly
      k - k / 2 of them, whatever lies above and below; the rest is scanned independently. */
  lemma BlockLosesHalf<T>(full: T -> bool, a: seq<T>, f: seq<T>, b: seq<T>)
    requires AllFull(full, f)
    requires a == [] || !full(a[|a| - 1])
    requires b == [] || !full(b[0])
    ensures Survive(full, a + f + b) == Survive(full, a) + Survive(full, f) + Survive(full, b)
    ensures |Survive(full, f)| == |f| / 2
    ensures forall i :: 0 <= i < |f| / 2 ==> Survive(full, f)[i] == f[|f| % 2 + 2 * i]
  {
    KeptFull(full, f, |f|);
    KeptAboveFull(full, a, f, |f|);
    KeptAppend(full, a + f, b, |b|);
    assert |a + f| == |a| + |f| && |a + f + b| == |a + f| + |b|;
  }

  /** Two full rows lie next to each other among the first n. */
  ghost predicate Adjacent<T>(full: T -> bool, g: seq<T>, n: nat)
    requires n <= |g|
  {
    exists i :: 0 < i < n && full(g[i - 1]) && full(g[i])
  }

  ghost predicate SomeFull<T>(full: T -> bool, g: seq<T>) {
    exists i :: 0 <= i < |g| && full(g[i])
  }

  lemma AdjacentMore<T>(full: T -> bool, g: seq<T>, n: nat)
    requires 0 < n <= |g|
    ensures Adjacent(full, g, n) <==> Adjacent(full, g, n - 1) || (n > 1 && full(g[n - 2]) && full(g[n - 1]))
  {
    if n > 1 && full(g[n - 2]) && full(g[n - 1]) {
      var i := n - 1;
      assert full(g[i - 1]) && full(g[i]);
    }
  }

  lemma SomeFullMore<T>(full: T -> bool, k: seq<T>, r: T)
    ensures SomeFull(full, k + [r]) <==> SomeFull(full, k) || full(r)
  {
    var m := k + [r];
    assert m[|k|] == r;
    if SomeFull(full, k) {
      var i :| 0 <= i < |k| && full(k[i]);
      assert m[i] == k[i];
    }
  }

  /** A full row is left behind exactly when two full rows were adjacent. */
  lemma {:induction false} FullRowLeftExactly<T>(full: T -> bool, g: seq<T>, n: nat)
    requires n <= |g|
    ensures SomeFull(full, Kept(full, g, n)) <==> Adjacent(full, g, n)
  {
    hide Adjacent, SomeFull;
    if n == 0 {
      NoneFull(full, g);
    } else {
      AdjacentMore(full, g, n);
      if !full(g[n - 1]) {
        FullRowLeftExactly(full, g, n - 1);
        SomeFullMore(full, Kept(full, g, n - 1), g[n - 1]);
      } else if n == 1 {
        NoneFull(full, g);
      } else {
        FullRowLeftExactly(full, g, n - 2);
        SomeFullMore(full, Kept(full, g, n - 2), g[n - 2]);
        AdjacentMore(full, g, n - 1);
      }
    }
  }

  lemma NoneFull<T>(full: T -> bool, g: seq<T>)
    ensures !SomeFull(full, []) && !Adjacent(full, g, 0)
  {
  }

  /** The rows that are not full among the first n, in order. */
  function Partial<T>(full: T -> bool, g: seq<T>, n: nat): seq<T>
    requires n <= |g|
  {
    if n == 0 then []
    else if full(g[n - 1]) then Partial(full, g, n - 1)
    else Partial(full, g, n - 1) + [g[n - 1]]
  }

  lemma {:induction false} PartialPrefix<T>(full: T -> bool, g: seq<T>, h: seq<T>, n: nat)
    requires n <= |g| && n <= |h|
    requires forall i :: 0 <= i < n ==> g[i] == h[i]
    ensures Partial(full, g, n) == Partial(full, h, n)
  {
    if n > 0 {
      PartialPrefix(full, g, h, n - 1);
    }
  }

  lemma PartialSnoc<T>(full: T -> bool, k: seq<T>, r: T)
    ensures Partial(full, k + [r], |k| + 1) == Partial(full, k, |k|) + (if full(r) then [] else [r])
  {
    PartialPrefix(full, k + [r], k, |k|);
  }

  /** No row that is not full is lost, and those rows keep their order. */
  lemma {:induction false} PartialRowsSurvive<T>(full: T -> bool, g: seq<T>, n: nat)
    requires n <= |g|
    ensures Partial(full, Kept(full, g, n), |Kept(full, g, n)|) == Partial(full, g, n)
  {
    if n > 0 {
      if !full(g[n - 1]) {
        PartialRowsSurvive(full, g, n - 1);
        PartialSnoc(full, Kept(full, g, n - 1), g[n - 1]);
      } else if n > 1 {
        PartialRowsSurvive(full, g, n - 2);
        PartialSnoc(full, Kept(full, g, n - 2), g[n - 2]);
      }
    }
  }
}
