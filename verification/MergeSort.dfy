/**
 The bottom-up list merge sort of HASH_SRT as a function on sequences, and the proof that it is a
 stable sort.  `HashSort` refines these functions on linked nodes.

 `le(x, y)` stands for the test `cmpfcn(x, y) <= 0`.
 */
module MergeSort {
  import Bytes

  /** `le` is total and transitive on the elements of `s`. */
  ghost predicate TotalPreorder<T>(le: (T, T) -> bool, s: seq<T>) {
    && (forall x, y :: x in s && y in s ==> le(x, y) || le(y, x))
    && (forall x, y, z {:trigger le(x, y), le(y, z)} :: x in s && y in s && z in s && le(x, y) && le(y, z) ==> le(x, z))
  }

  /** Take from the left run on ties; this is what makes the sort stable. */
  ghost function Merge<T>(le: (T, T) -> bool, a: seq<T>, b: seq<T>): (r: seq<T>)
    ensures |r| == |a| + |b|
    decreases |a| + |b|
  {
    if a == [] then b
    else if b == [] then a
    else if le(a[0], b[0]) then [a[0]] + Merge(le, a[1..], b)
    else [b[0]] + Merge(le, a, b[1..])
  }

  /** End of the run of length `w` that starts at `i` in a list of `n`. */
  function RunEnd(i: nat, w: nat, n: nat): nat { Bytes.Min(i + w, n) }

  /** One pass from position `i` on: merge neighbouring runs of length `w`. */
  ghost function Pass<T>(le: (T, T) -> bool, s: seq<T>, i: nat, w: nat): (r: seq<T>)
    requires 0 < w && i <= |s|
    ensures |r| == |s| - i
    decreases |s| - i
  {
    if i == |s| then []
    else
      var m := RunEnd(i, w, |s|);
      var k := RunEnd(m, w, |s|);
      Merge(le, s[i..m], s[m..k]) + Pass(le, s, k, w)
  }

  /** Number of merges that pass performs on a list of `n`; the sort stops after a pass with at most one. */
  ghost function Merges(n: nat, i: nat, w: nat): nat
    requires 0 < w && i <= n
    decreases n - i
  {
    if i == n then 0 else 1 + Merges(n, RunEnd(RunEnd(i, w, n), w, n), w)
  }

  lemma MergesAtMostOne(n: nat, w: nat)
    requires 0 < w
    ensures Merges(n, 0, w) <= 1 <==> n <= 2 * w
  {
  }

  /** Passes with doubling width until one pass needs at most one merge. */
  ghost function Sort<T>(le: (T, T) -> bool, s: seq<T>, w: nat): (r: seq<T>)
    requires 0 < w
    ensures |r| == |s|
    decreases if |s| > w then |s| - w else 0
  {
    var p := Pass(le, s, 0, w);
    if |s| <= 2 * w then p else Sort(le, p, 2 * w)
  }

  // ----- Sortedness

  ghost predicate Sorted<T>(le: (T, T) -> bool, s: seq<T>) {
    forall i, j :: 0 <= i < j < |s| ==> le(s[i], s[j])
  }

  /** `s` is cut into runs of `w` elements (the last may be shorter), each of them sorted. */
  ghost predicate Runs<T>(le: (T, T) -> bool, s: seq<T>, w: nat)
    requires 0 < w
    decreases |s|
  {
    if |s| <= w then Sorted(le, s) else Sorted(le, s[..w]) && Runs(le, s[w..], w)
  }

  lemma {:induction false} MergeElements<T>(le: (T, T) -> bool, a: seq<T>, b: seq<T>)
    ensures multiset(Merge(le, a, b)) == multiset(a) + multiset(b)
    decreases |a| + |b|
  {
    if a == [] || b == [] {
    } else if le(a[0], b[0]) {
      MergeElements(le, a[1..], b);
      assert a == [a[0]] + a[1..];
      assert multiset(a) == multiset{a[0]} + multiset(a[1..]);
    } else {
      MergeElements(le, a, b[1..]);
      assert b == [b[0]] + b[1..];
      assert multiset(b) == multiset{b[0]} + multiset(b[1..]);
    }
  }

  lemma InMultiset<T>(s: seq<T>, x: T)
    ensures x in multiset(s) <==> x in s
  {
  }

  lemma SortedCons<T>(le: (T, T) -> bool, x: T, s: seq<T>)
    requires Sorted(le, s) && forall y :: y in s ==> le(x, y)
    ensures Sorted(le, [x] + s)
  {
  }

  lemma MergeBelow<T>(le: (T, T) -> bool, x: T, a: seq<T>, b: seq<T>)
    requires (forall y :: y in a ==> le(x, y)) && (forall y :: y in b ==> le(x, y))
    ensures forall y :: y in Merge(le, a, b) ==> le(x, y)
  {
    forall y | y in Merge(le, a, b) ensures le(x, y) {
      MergeElements(le, a, b);
      InMultiset(Merge(le, a, b), y);
      InMultiset(a, y);
      InMultiset(b, y);
    }
  }

  lemma Sub<T>(le: (T, T) -> bool, s: seq<T>, t: seq<T>)
    requires TotalPreorder(le, s) && forall x :: x in t ==> x in s
    ensures TotalPreorder(le, t)
  {
  }

  lemma {:induction false} MergeSorted<T>(le: (T, T) -> bool, a: seq<T>, b: seq<T>)
    requires TotalPreorder(le, a + b) && Sorted(le, a) && Sorted(le, b)
    ensures Sorted(le, Merge(le, a, b))
    decreases |a| + |b|
  {
    if a == [] || b == [] {
    } else if le(a[0], b[0]) {
      Sub(le, a + b, a[1..] + b);
      MergeSorted(le, a[1..], b);
      forall y | y in b ensures le(a[0], y) {
        var j :| 0 <= j < |b| && b[j] == y;
        assert j == 0 || le(b[0], b[j]);
      }
      MergeBelow(le, a[0], a[1..], b);
      SortedCons(le, a[0], Merge(le, a[1..], b));
    } else {
      Sub(le, a + b, a + b[1..]);
      MergeSorted(le, a, b[1..]);
      assert le(b[0], a[0]);
      forall y | y in a ensures le(b[0], y) {
        var j :| 0 <= j < |a| && a[j] == y;
        assert j == 0 || le(a[0], a[j]);
      }
      MergeBelow(le, b[0], a, b[1..]);
      SortedCons(le, b[0], Merge(le, a, b[1..]));
    }
  }

  /** The two runs that start at `i`, and what is left after them. */
  lemma RunsSplit<T>(le: (T, T) -> bool, s: seq<T>, i: nat, w: nat)
    requires 0 < w && i <= |s| && Runs(le, s[i..], w)
    ensures var m := RunEnd(i, w, |s|); var k := RunEnd(m, w, |s|);
            Sorted(le, s[i..m]) && Sorted(le, s[m..k]) && Runs(le, s[k..], w)
  {
    RunsFirst(le, s, i, w);
    RunsFirst(le, s, RunEnd(i, w, |s|), w);
  }

  lemma RunsFirst<T>(le: (T, T) -> bool, s: seq<T>, i: nat, w: nat)
    requires 0 < w && i <= |s| && Runs(le, s[i..], w)
    ensures var m := RunEnd(i, w, |s|); Sorted(le, s[i..m]) && Runs(le, s[m..], w)
  {
    var m := RunEnd(i, w, |s|);
    if i + w < |s| {
      assert s[i..][..w] == s[i..m] && s[i..][w..] == s[m..];
    } else {
      assert s[i..] == s[i..m] && s[m..] == [];
    }
  }

  lemma RunsCons<T>(le: (T, T) -> bool, head: seq<T>, rest: seq<T>, w: nat)
    requires 0 < w && Sorted(le, head) && Runs(le, rest, w)
    requires |head| == w || rest == []
    requires |head| <= w
    ensures Runs(le, head + rest, w)
  {
    if rest == [] {
      assert head + rest == head;
    } else {
      assert (head + rest)[..w] == head && (head + rest)[w..] == rest;
    }
  }

  lemma {:induction false} PassRuns<T>(le: (T, T) -> bool, s: seq<T>, i: nat, w: nat)
    requires 0 < w && i <= |s| && TotalPreorder(le, s) && Runs(le, s[i..], w)
    ensures Runs(le, Pass(le, s, i, w), 2 * w)
    decreases |s| - i
  {
    if i < |s| {
      var m := RunEnd(i, w, |s|);
      var k := RunEnd(m, w, |s|);
      RunsSplit(le, s, i, w);
      Sub(le, s, s[i..m] + s[m..k]);
      MergeSorted(le, s[i..m], s[m..k]);
      PassRuns(le, s, k, w);
      RunsCons(le, Merge(le, s[i..m], s[m..k]), Pass(le, s, k, w), 2 * w);
    }
  }

  lemma MultisetSplit<T>(s: seq<T>, i: nat, m: nat, k: nat)
    requires i <= m <= k <= |s|
    ensures multiset(s[i..]) == multiset(s[i..m]) + multiset(s[m..k]) + multiset(s[k..])
  {
    assert s[i..] == s[i..m] + s[m..k] + s[k..];
  }

  lemma {:induction false} PassElements<T>(le: (T, T) -> bool, s: seq<T>, i: nat, w: nat)
    requires 0 < w && i <= |s|
    ensures multiset(Pass(le, s, i, w)) == multiset(s[i..])
    decreases |s| - i
  {
    if i < |s| {
      var m := RunEnd(i, w, |s|);
      var k := RunEnd(m, w, |s|);
      MergeElements(le, s[i..m], s[m..k]);
      PassElements(le, s, k, w);
      MultisetSplit(s, i, m, k);
    }
  }

  /** The sort permutes its input, whatever the comparison does. */
  lemma {:induction false} SortElements<T>(le: (T, T) -> bool, s: seq<T>, w: nat)
    requires 0 < w
    ensures multiset(Sort(le, s, w)) == multiset(s)
    decreases if |s| > w then |s| - w else 0
  {
    PassElements(le, s, 0, w);
    assert s[0..] == s;
    if |s| > 2 * w {
      SortElements(le, Pass(le, s, 0, w), 2 * w);
    }
  }

  // ----- Stability

  predicate Tie<T>(le: (T, T) -> bool, x: T, y: T) {
    le(x, y) && le(y, x)
  }

  /** The elements of `s` that `x` cannot be told apart from, in the order they occur. */
  ghost function Ties<T>(le: (T, T) -> bool, x: T, s: seq<T>): seq<T> {
    if s == [] then []
    else (if Tie(le, x, s[0]) then [s[0]] else []) + Ties(le, x, s[1..])
  }

  lemma {:induction false} TiesConcat<T>(le: (T, T) -> bool, x: T, a: seq<T>, b: seq<T>)
    ensures Ties(le, x, a + b) == Ties(le, x, a) + Ties(le, x, b)
  {
    hide Ties, Tie;
    var tb := Ties(le, x, b);
    if a == [] {
      NoTies(le, x, a);
      assert a + b == b && [] + tb == tb;
    } else {
      var y, ta := a[0], Ties(le, x, a[1..]);
      TiesConcat(le, x, a[1..], b);
      TiesCons(le, x, y, a[1..]);
      TiesCons(le, x, y, a[1..] + b);
      assert a == [y] + a[1..] && a + b == [y] + (a[1..] + b);
      assert [y] + (ta + tb) == [y] + ta + tb && [] + (ta + tb) == [] + ta + tb;
    }
  }

  lemma TiesCons<T>(le: (T, T) -> bool, x: T, y: T, s: seq<T>)
    ensures Ties(le, x, [y] + s) == (if Tie(le, x, y) then [y] else []) + Ties(le, x, s)
  {
    assert ([y] + s)[1..] == s;
  }

  /** Once the right run's `b[j]`, a tie of `x`, is taken before `a[k]`, no tie of `x` is left in `a`. */
  ghost predicate LeftTiesFirst<T>(le: (T, T) -> bool, x: T, a: seq<T>, b: seq<T>) {
    forall k, l, j :: 0 <= k <= l < |a| && 0 <= j < |b| && Tie(le, x, b[j]) && !le(a[k], b[j]) ==> !Tie(le, x, a[l])
  }

  lemma SortedLeftTiesFirst<T>(le: (T, T) -> bool, x: T, a: seq<T>, b: seq<T>)
    requires TotalPreorder(le, [x] + a + b) && Sorted(le, a)
    ensures LeftTiesFirst(le, x, a, b)
  {
    var s := [x] + a + b;
    forall k, l, j | 0 <= k <= l < |a| && 0 <= j < |b| && Tie(le, x, b[j]) && !le(a[k], b[j])
      ensures !Tie(le, x, a[l])
    {
      assert x in s && a[k] in s && a[l] in s && b[j] in s;
      assert k == l || le(a[k], a[l]);
    }
  }

  lemma {:induction false} NoTies<T>(le: (T, T) -> bool, x: T, a: seq<T>)
    requires forall i :: 0 <= i < |a| ==> !Tie(le, x, a[i])
    ensures Ties(le, x, a) == []
  {
    if a != [] {
      assert !Tie(le, x, a[0]);
      NoTies(le, x, a[1..]);
    }
  }

  lemma {:induction false} MergeTiesLeft<T>(le: (T, T) -> bool, x: T, a: seq<T>, b: seq<T>)
    requires a != [] && b != [] && le(a[0], b[0])
    requires Ties(le, x, Merge(le, a[1..], b)) == Ties(le, x, a[1..]) + Ties(le, x, b)
    ensures Ties(le, x, Merge(le, a, b)) == Ties(le, x, a) + Ties(le, x, b)
  {
    hide Merge, Ties, Tie;
    var ta, tb := Ties(le, x, a[1..]), Ties(le, x, b);
    MergeLeftStep(le, a, b);
    TiesCons(le, x, a[0], Merge(le, a[1..], b));
    TiesCons(le, x, a[0], a[1..]);
    assert a == [a[0]] + a[1..];
    assert [a[0]] + (ta + tb) == [a[0]] + ta + tb && [] + (ta + tb) == [] + ta + tb;
  }

  lemma MergeLeftStep<T>(le: (T, T) -> bool, a: seq<T>, b: seq<T>)
    requires a != [] && b != [] && le(a[0], b[0])
    ensures Merge(le, a, b) == [a[0]] + Merge(le, a[1..], b)
  {
  }

  lemma {:induction false} MergeTiesRight<T>(le: (T, T) -> bool, x: T, a: seq<T>, b: seq<T>)
    requires a != [] && b != [] && !le(a[0], b[0])
    requires Tie(le, x, b[0]) ==> Ties(le, x, a) == []
    requires Ties(le, x, Merge(le, a, b[1..])) == Ties(le, x, a) + Ties(le, x, b[1..])
    ensures Ties(le, x, Merge(le, a, b)) == Ties(le, x, a) + Ties(le, x, b)
  {
    var ta, tb := Ties(le, x, a), Ties(le, x, b[1..]);
    TiesCons(le, x, b[0], Merge(le, a, b[1..]));
    if Tie(le, x, b[0]) {
      assert ta + tb == tb && ta + ([b[0]] + tb) == [b[0]] + tb;
    } else {
      assert [] + (ta + tb) == ta + tb && [] + tb == tb;
    }
  }

  lemma {:induction false} MergeTies<T>(le: (T, T) -> bool, x: T, a: seq<T>, b: seq<T>)
    requires LeftTiesFirst(le, x, a, b)
    ensures Ties(le, x, Merge(le, a, b)) == Ties(le, x, a) + Ties(le, x, b)
    decreases |a| + |b|
  {
    if a == [] || b == [] {
    } else if le(a[0], b[0]) {
      MergeTies(le, x, a[1..], b);
      MergeTiesLeft(le, x, a, b);
    } else {
      MergeTies(le, x, a, b[1..]);
      if Tie(le, x, b[0]) {
        NoTies(le, x, a);
      }
      MergeTiesRight(le, x, a, b);
    }
  }

  lemma {:induction false} TiesSplit<T>(le: (T, T) -> bool, x: T, s: seq<T>, i: nat, m: nat, k: nat)
    requires i <= m <= k <= |s|
    ensures Ties(le, x, s[i..]) == Ties(le, x, s[i..m]) + Ties(le, x, s[m..k]) + Ties(le, x, s[k..])
  {
    TiesConcat(le, x, s[i..m], s[m..k]);
    TiesConcat(le, x, s[i..m] + s[m..k], s[k..]);
    assert s[i..] == s[i..m] + s[m..k] + s[k..];
  }

  lemma {:induction false} PassTies<T>(le: (T, T) -> bool, x: T, s: seq<T>, i: nat, w: nat)
    requires 0 < w && i <= |s| && TotalPreorder(le, [x] + s) && Runs(le, s[i..], w)
    ensures Ties(le, x, Pass(le, s, i, w)) == Ties(le, x, s[i..])
    decreases |s| - i
  {
    if i < |s| {
      var m := RunEnd(i, w, |s|);
      var k := RunEnd(m, w, |s|);
      RunsSplit(le, s, i, w);
      Sub(le, [x] + s, [x] + s[i..m] + s[m..k]);
      SortedLeftTiesFirst(le, x, s[i..m], s[m..k]);
      MergeTies(le, x, s[i..m], s[m..k]);
      PassTies(le, x, s, k, w);
      TiesConcat(le, x, Merge(le, s[i..m], s[m..k]), Pass(le, s, k, w));
      TiesSplit(le, x, s, i, m, k);
    }
  }

  // ----- The sort as a whole

  lemma PassKeepsTies<T>(le: (T, T) -> bool, s: seq<T>, w: nat)
    requires 0 < w && TotalPreorder(le, s) && Runs(le, s, w)
    ensures forall x :: x in s ==> Ties(le, x, Pass(le, s, 0, w)) == Ties(le, x, s)
  {
    forall x | x in s ensures Ties(le, x, Pass(le, s, 0, w)) == Ties(le, x, s) {
      Sub(le, s, [x] + s);
      assert s[0..] == s;
      PassTies(le, x, s, 0, w);
    }
  }

  lemma SameElements<T>(s: seq<T>, t: seq<T>)
    requires multiset(s) == multiset(t)
    ensures forall x :: x in s ==> x in t
    ensures forall x :: x in t ==> x in s
  {
    forall x | x in s ensures x in t {
      InMultiset(s, x);
      InMultiset(t, x);
    }
    forall x | x in t ensures x in s {
      InMultiset(s, x);
      InMultiset(t, x);
    }
  }

  lemma {:induction false} SortCorrectFrom<T>(le: (T, T) -> bool, s: seq<T>, w: nat)
    requires 0 < w && TotalPreorder(le, s) && Runs(le, s, w)
    ensures Sorted(le, Sort(le, s, w))
    ensures forall x :: x in s ==> Ties(le, x, Sort(le, s, w)) == Ties(le, x, s)
    decreases if |s| > w then |s| - w else 0
  {
    var p := Pass(le, s, 0, w);
    assert s[0..] == s;
    PassRuns(le, s, 0, w);
    PassElements(le, s, 0, w);
    SameElements(p, s);
    PassKeepsTies(le, s, w);
    Sub(le, s, p);
    if |s| > 2 * w {
      SortCorrectFrom(le, p, 2 * w);
    } else {
      SingleRun(le, p, 2 * w);
    }
  }

  lemma SingleRun<T>(le: (T, T) -> bool, s: seq<T>, w: nat)
    requires 0 < w && |s| <= w && Runs(le, s, w)
    ensures Sorted(le, s)
  {
  }

  lemma {:induction false} SingletonRuns<T>(le: (T, T) -> bool, s: seq<T>)
    ensures Runs(le, s, 1)
    decreases |s|
  {
    if |s| > 1 {
      SingletonRuns(le, s[1..]);
    }
  }

  /** HASH_SRT yields a sorted permutation that keeps tied elements in their old order. */
  lemma SortIsStableSort<T>(le: (T, T) -> bool, s: seq<T>)
    requires TotalPreorder(le, s)
    ensures Sorted(le, Sort(le, s, 1))
    ensures multiset(Sort(le, s, 1)) == multiset(s)
    ensures forall x :: x in s ==> Ties(le, x, Sort(le, s, 1)) == Ties(le, x, s)
  {
    SingletonRuns(le, s);
    SortElements(le, s, 1);
    SortCorrectFrom(le, s, 1);
  }
}
