/**
 HASH_SRT: the in-place merge sort of the application-order list, proved to compute
 `MergeSort.Sort` by rewiring only `prev` and `next`.
 */
module HashSort {
  import opened HashNode
  import opened MergeSort
  import Bytes

  /** `le` is the test `cmpfcn(x, y) <= 0` on `nodes`. */
  ghost predicate Compares<K, V>(le: (Node<K, V>, Node<K, V>) -> bool, cmp: ((K, V), (K, V)) -> int,
      nodes: set<Node<K, V>>)
    reads nodes`key, nodes`value
  {
    forall x, y :: x in nodes && y in nodes ==> (le(x, y) <==> cmp((x.key, x.value), (y.key, y.value)) <= 0)
  }

  /** The output list built so far: linked in both directions, except that the last `next` is stale. */
  ghost predicate Emitted<K, V>(out: seq<Node<K, V>>, list: Node?<K, V>, tail: Node?<K, V>)
    reads out`next, out`prev
  {
    && list == At(out, 0)
    && tail == At(out, |out| - 1)
    && Distinct(out)
    && (forall k {:trigger out[k].next} :: 0 <= k < |out| - 1 ==> out[k].next == out[k + 1])
    && (forall k {:trigger out[k].prev} :: 0 <= k < |out| ==> out[k].prev == At(out, k - 1))
  }

  /** What is left to merge: the run `rest[i..m]` and, from `j` on, the rest of the old list. */
  ghost predicate Pending<K, V>(rest: seq<Node<K, V>>, i: nat, m: nat, j: nat)
    requires i <= m <= j <= |rest|
    reads rest`next
  {
    && (forall k {:trigger rest[k].next} :: i <= k < m - 1 ==> rest[k].next == rest[k + 1])
    && (forall k {:trigger rest[k].next} :: j <= k < |rest| ==> rest[k].next == At(rest, k + 1))
  }

  ghost predicate Apart<K, V>(out: seq<Node<K, V>>, rest: seq<Node<K, V>>, i: nat, m: nat, j: nat)
    requires i <= m <= j <= |rest|
  {
    && (forall a, k :: 0 <= a < |out| && i <= k < m ==> out[a] != rest[k])
    && (forall a, k :: 0 <= a < |out| && j <= k < |rest| ==> out[a] != rest[k])
  }

  /** Moving `rest[h]`, the head of one of the two runs, to the output keeps the parts apart. */
  lemma ApartStep<K, V>(out: seq<Node<K, V>>, rest: seq<Node<K, V>>, i: nat, m: nat, j: nat, h: nat)
    requires i <= m <= j <= |rest| && Distinct(rest) && Apart(out, rest, i, m, j)
    requires (h == i < m) || (h == j < |rest|)
    ensures Apart(out, [rest[h]], 0, 0, 0)
    ensures h == i < m ==> Apart(out + [rest[h]], rest, i + 1, m, j)
    ensures h == j ==> Apart(out + [rest[h]], rest, i, m, j + 1)
  {
  }

  ghost predicate Within<T>(s: seq<T>, nodes: set<T>) {
    forall k :: 0 <= k < |s| ==> s[k] in nodes
  }

  lemma MergeLeft<T>(le: (T, T) -> bool, rest: seq<T>, i: nat, m: nat, j: nat, k: nat, out: seq<T>)
    requires i < m <= j <= k <= |rest|
    requires j == k || le(rest[i], rest[j])
    ensures out + Merge(le, rest[i..m], rest[j..k]) == out + [rest[i]] + Merge(le, rest[i + 1..m], rest[j..k])
  {
    assert rest[i..m][1..] == rest[i + 1..m];
    assert rest[i..m] == [rest[i]] + rest[i + 1..m];
  }

  lemma MergeRight<T>(le: (T, T) -> bool, rest: seq<T>, i: nat, m: nat, j: nat, k: nat, out: seq<T>)
    requires i <= m <= j < k <= |rest|
    requires i == m || !le(rest[i], rest[j])
    ensures out + Merge(le, rest[i..m], rest[j..k]) == out + [rest[j]] + Merge(le, rest[i..m], rest[j + 1..k])
  {
    assert rest[j..k][1..] == rest[j + 1..k];
    assert rest[j..k] == [rest[j]] + rest[j + 1..k];
  }

  /** Lines 1036-1046: append `e`, just taken off one of the two runs, to the output list. */
  method Emit<K(==), V>(list0: Node?<K, V>, tail0: Node?<K, V>, e: Node<K, V>, ghost out: seq<Node<K, V>>,
                        ghost rest: seq<Node<K, V>>, ghost i: nat, ghost m: nat, ghost j: nat)
      returns (list: Node?<K, V>, tail: Node?<K, V>)
    requires i <= m <= j <= |rest|
    requires Emitted(out, list0, tail0) && Pending(rest, i, m, j)
    requires Apart(out + [e], rest, i, m, j) && Apart(out, [e], 0, 0, 0)
    modifies (if tail0 == null then {} else {tail0})`next, e`prev
    ensures Emitted(out + [e], list, tail) && Pending(rest, i, m, j)
  {
    list, tail := list0, tail0;
    ghost var all := out + [e];
    assert tail0 != null ==> all[|out| - 1] == tail0;
    if tail != null {
      tail.next := e;
    } else {
      list := e;
    }
    e.prev := tail;
    tail := e;
  }

  /** The state of the merge loop: `rest[..i]` and `rest[m..j]` have moved to `out`. */
  ghost predicate Merging<K, V>(
      out: seq<Node<K, V>>, list: Node?<K, V>, tail: Node?<K, V>, rest: seq<Node<K, V>>, i: nat, m: nat, j: nat,
      nodes: set<Node<K, V>>)
    reads out`next, out`prev, rest`next
  {
    && i <= m <= j <= |rest|
    && Emitted(out, list, tail) && Pending(rest, i, m, j) && Apart(out, rest, i, m, j)
    && Distinct(rest) && Within(out, nodes) && Within(rest, nodes)
  }

  /** Lines 1013-1019 and 1024-1029: take the head of the left run. */
  method TakeLeft<K(==), V>(
      list0: Node?<K, V>, tail0: Node?<K, V>, p0: Node<K, V>,
      ghost out: seq<Node<K, V>>, ghost rest: seq<Node<K, V>>, ghost i: nat, ghost m: nat, ghost j: nat,
      ghost nodes: set<Node<K, V>>)
      returns (list: Node?<K, V>, tail: Node?<K, V>, p: Node?<K, V>)
    requires Merging(out, list0, tail0, rest, i, m, j, nodes) && i < m && p0 == rest[i]
    modifies nodes`next, nodes`prev
    ensures Merging(out + [rest[i]], list, tail, rest, i + 1, m, j, nodes)
    ensures i + 1 < m ==> p == rest[i + 1]
  {
    p := p0.next;
    ApartStep(out, rest, i, m, j, i);
    list, tail := Emit(list0, tail0, p0, out, rest, i + 1, m, j);
  }

  /** Lines 1008-1012 and 1030-1034: take the head of the right run. */
  method TakeRight<K(==), V>(
      list0: Node?<K, V>, tail0: Node?<K, V>, q0: Node<K, V>,
      ghost out: seq<Node<K, V>>, ghost rest: seq<Node<K, V>>, ghost i: nat, ghost m: nat, ghost j: nat,
      ghost nodes: set<Node<K, V>>)
      returns (list: Node?<K, V>, tail: Node?<K, V>, q: Node?<K, V>)
    requires Merging(out, list0, tail0, rest, i, m, j, nodes) && j < |rest| && q0 == rest[j]
    modifies nodes`next, nodes`prev
    ensures Merging(out + [rest[j]], list, tail, rest, i, m, j + 1, nodes)
    ensures q == At(rest, j + 1)
  {
    q := q0.next;
    ApartStep(out, rest, i, m, j, j);
    list, tail := Emit(list0, tail0, q0, out, rest, i, m, j + 1);
  }

  /** The program variables of the merge loop agree with the ghost positions. */
  ghost predicate Cursors<K, V>(p: Node?<K, V>, psize: nat, q: Node?<K, V>, qsize: nat,
                                rest: seq<Node<K, V>>, i: nat, m: nat, j: nat, insize: nat) {
    && i <= m <= j <= |rest|
    && psize == m - i && (psize != 0 ==> p == rest[i])
    && qsize == m + insize - j && q == At(rest, j)
  }

  /** One iteration of the loop at lines 1007-1047. */
  method MergeStep<K(==), V>(
      cmp: ((K, V), (K, V)) -> int, list0: Node?<K, V>, tail0: Node?<K, V>,
      p0: Node?<K, V>, psize0: nat, q0: Node?<K, V>, qsize0: nat,
      ghost le: (Node<K, V>, Node<K, V>) -> bool, ghost out0: seq<Node<K, V>>, ghost rest: seq<Node<K, V>>,
      ghost i0: nat, ghost m: nat, ghost j0: nat, ghost insize: nat, ghost nodes: set<Node<K, V>>)
      returns (list: Node?<K, V>, tail: Node?<K, V>, p: Node?<K, V>, psize: nat, q: Node?<K, V>, qsize: nat,
               ghost out: seq<Node<K, V>>, ghost i: nat, ghost j: nat)
    requires Merging(out0, list0, tail0, rest, i0, m, j0, nodes) && Compares(le, cmp, nodes)
    requires Cursors(p0, psize0, q0, qsize0, rest, i0, m, j0, insize)
    requires psize0 != 0 || (qsize0 != 0 && q0 != null)
    modifies nodes`next, nodes`prev
    ensures Merging(out, list, tail, rest, i, m, j, nodes)
    ensures Cursors(p, psize, q, qsize, rest, i, m, j, insize)
    ensures psize + qsize < psize0 + qsize0
    ensures var k := Bytes.Min(m + insize, |rest|);
            out + Merge(le, rest[i..m], rest[j..k]) == out0 + Merge(le, rest[i0..m], rest[j0..k])
  {
    list, tail, p, psize, q, qsize, out, i, j := list0, tail0, p0, psize0, q0, qsize0, out0, i0, j0;
    ghost var k := Bytes.Min(m + insize, |rest|);
    var left := if psize == 0 then false
                else if qsize == 0 || q == null then true
                else cmp((p.key, p.value), (q.key, q.value)) <= 0;
    if left {
      MergeLeft(le, rest, i, m, j, k, out);
      list, tail, p := TakeLeft(list, tail, p, out, rest, i, m, j, nodes);
      out, i, psize := out + [rest[i]], i + 1, psize - 1;
    } else {
      MergeRight(le, rest, i, m, j, k, out);
      list, tail, q := TakeRight(list, tail, q, out, rest, i, m, j, nodes);
      out, j, qsize := out + [rest[j]], j + 1, qsize - 1;
    }
  }

  /** Lines 1006-1047: merge the run `s[i0..m]` at `p` with the run at `q` onto the end of the output list. */
  method MergeRuns<K(==), V>(
      cmp: ((K, V), (K, V)) -> int, list0: Node?<K, V>, tail0: Node?<K, V>,
      p0: Node<K, V>, psize0: nat, q0: Node?<K, V>, insize: nat,
      ghost le: (Node<K, V>, Node<K, V>) -> bool, ghost out0: seq<Node<K, V>>, ghost s: seq<Node<K, V>>,
      ghost i0: nat, ghost m: nat, ghost nodes: set<Node<K, V>>)
      returns (list: Node?<K, V>, tail: Node?<K, V>, q: Node?<K, V>, ghost out: seq<Node<K, V>>)
    requires Merging(out0, list0, tail0, s, i0, m, m, nodes) && Compares(le, cmp, nodes)
    requires Cursors(p0, psize0, q0, insize, s, i0, m, m, insize)
    modifies nodes`next, nodes`prev
    ensures var k := RunEnd(m, insize, |s|);
      && Merging(out, list, tail, s, m, m, k, nodes)
      && out == out0 + Merge(le, s[i0..m], s[m..k])
      && q == At(s, k)
  {
    list, tail, q, out := list0, tail0, q0, out0;
    var p: Node?<K, V>, psize: nat, qsize: nat := p0, psize0, insize;
    ghost var i: nat, j: nat, k := i0, m, RunEnd(m, insize, |s|);
    while psize != 0 || (qsize != 0 && q != null)
      invariant Merging(out, list, tail, s, i, m, j, nodes)
      invariant Cursors(p, psize, q, qsize, s, i, m, j, insize)
      invariant out + Merge(le, s[i..m], s[j..k]) == out0 + Merge(le, s[i0..m], s[m..k])
      decreases psize + qsize
    {
      list, tail, p, psize, q, qsize, out, i, j :=
        MergeStep(cmp, list, tail, p, psize, q, qsize, le, out, s, i, m, j, insize, nodes);
    }
    assert s[i..m] == [] && s[j..k] == [];
  }

  /** Lines 996-1005: step over at most `insize` elements to find the second run. */
  method SecondRun<K(==), V>(p: Node<K, V>, insize: nat, ghost s: seq<Node<K, V>>, ghost i0: nat)
      returns (q: Node?<K, V>, psize: nat)
    requires 0 < insize && i0 < |s| && p == s[i0] && Pending(s, i0, i0, i0)
    ensures i0 + psize == RunEnd(i0, insize, |s|) && q == At(s, i0 + psize)
  {
    q, psize := p, 0;
    for i := 0 to insize
      invariant psize == i < |s| - i0 && q == s[i0 + i]
    {
      psize := psize + 1;
      q := q.next;
      if q == null {
        break;
      }
    }
  }

  lemma SplitRun<K, V>(out: seq<Node<K, V>>, list: Node?<K, V>, tail: Node?<K, V>, s: seq<Node<K, V>>,
                       i: nat, m: nat, nodes: set<Node<K, V>>)
    requires i <= m <= |s| && Merging(out, list, tail, s, i, i, i, nodes)
    ensures Merging(out, list, tail, s, i, m, m, nodes)
  {
  }

  lemma BothRead<K, V>(out: seq<Node<K, V>>, list: Node?<K, V>, tail: Node?<K, V>, s: seq<Node<K, V>>,
                       m: nat, k: nat, nodes: set<Node<K, V>>)
    requires Merging(out, list, tail, s, m, m, k, nodes)
    ensures Merging(out, list, tail, s, k, k, k, nodes)
  {
  }

  /** Lines 995-1048: merge the two runs that start at position `i` of `s`. */
  method MergePair<K(==), V>(
      cmp: ((K, V), (K, V)) -> int, insize: nat, list0: Node?<K, V>, tail0: Node?<K, V>, p0: Node<K, V>,
      ghost le: (Node<K, V>, Node<K, V>) -> bool, ghost out0: seq<Node<K, V>>, ghost s: seq<Node<K, V>>, ghost i: nat,
      ghost nodes: set<Node<K, V>>)
      returns (list: Node?<K, V>, tail: Node?<K, V>, p: Node?<K, V>, ghost out: seq<Node<K, V>>)
    requires 0 < insize && Merging(out0, list0, tail0, s, i, i, i, nodes) && Compares(le, cmp, nodes)
    requires i < |s| && p0 == s[i]
    modifies nodes`next, nodes`prev
    ensures var m := RunEnd(i, insize, |s|); var k := RunEnd(m, insize, |s|);
      && Merging(out, list, tail, s, k, k, k, nodes) && p == At(s, k)
      && out == out0 + Merge(le, s[i..m], s[m..k])
  {
    var q, psize := SecondRun(p0, insize, s, i);
    ghost var m := i + psize;
    SplitRun(out0, list0, tail0, s, i, m, nodes);
    list, tail, p, out := MergeRuns(cmp, list0, tail0, p0, psize, q, insize, le, out0, s, i, m, nodes);
    BothRead(out, list, tail, s, m, RunEnd(m, insize, |s|), nodes);
  }

  /** Lines 1050-1052: end the output list. */
  method CloseList<K(==), V>(tail: Node<K, V>, ghost out: seq<Node<K, V>>)
    requires out != [] && Emitted(out, out[0], tail)
    modifies tail`next
    ensures Listed(out)
  {
    tail.next := null;
  }

  /** Lines 990-1049: the loop over pairs of runs. */
  method PassLoop<K(==), V>(
      cmp: ((K, V), (K, V)) -> int, insize: nat, list0: Node<K, V>,
      ghost le: (Node<K, V>, Node<K, V>) -> bool, ghost s: seq<Node<K, V>>, ghost nodes: set<Node<K, V>>)
      returns (list: Node?<K, V>, tail: Node?<K, V>, nmerges: nat, ghost out: seq<Node<K, V>>)
    requires 0 < insize && s != [] && list0 == s[0] && Merging([], null, null, s, 0, 0, 0, nodes)
        && Compares(le, cmp, nodes)
    modifies nodes`next, nodes`prev
    ensures out == Pass(le, s, 0, insize) && Emitted(out, list, tail) && Within(out, nodes)
    ensures nmerges == Merges(|s|, 0, insize)
  {
    var p: Node?<K, V> := list0;
    list, tail, nmerges, out := null, null, 0, [];
    ghost var i: nat := 0;
    while p != null
      invariant Merging(out, list, tail, s, i, i, i, nodes) && p == At(s, i)
      invariant out + Pass(le, s, i, insize) == Pass(le, s, 0, insize)
      invariant nmerges + Merges(|s|, i, insize) == Merges(|s|, 0, insize)
      decreases |s| - i
    {
      nmerges := nmerges + 1;
      PassStep(le, s, i, insize, out);
      list, tail, p, out := MergePair(cmp, insize, list, tail, p, le, out, s, i, nodes);
      i := RunEnd(RunEnd(i, insize, |s|), insize, |s|);
    }
    assert out == Pass(le, s, 0, insize);
  }

  /** Lines 990-1052: one pass over the list `s`. */
  method SortPass<K(==), V>(
      cmp: ((K, V), (K, V)) -> int, insize: nat, list0: Node<K, V>,
      ghost le: (Node<K, V>, Node<K, V>) -> bool, ghost s: seq<Node<K, V>>, ghost nodes: set<Node<K, V>>)
      returns (list: Node<K, V>, tail: Node<K, V>, nmerges: nat, ghost out: seq<Node<K, V>>)
    requires 0 < insize && s != [] && Listed(s) && Distinct(s) && list0 == s[0] && Compares(le, cmp, nodes)
    requires Within(s, nodes)
    modifies nodes`next, nodes`prev
    ensures out == Pass(le, s, 0, insize) && Within(out, nodes)
    ensures Listed(out) && Distinct(out) && list == out[0] && tail == out[|out| - 1]
    ensures nmerges == Merges(|s|, 0, insize)
  {
    var l, t;
    l, t, nmerges, out := PassLoop(cmp, insize, list0, le, s, nodes);
    list, tail := l, t;
    CloseList(tail, out);
  }

  lemma PassStep<T>(le: (T, T) -> bool, s: seq<T>, i: nat, w: nat, out: seq<T>)
    requires 0 < w && i < |s|
    ensures var m := RunEnd(i, w, |s|); var k := RunEnd(m, w, |s|);
            && Merges(|s|, i, w) == 1 + Merges(|s|, k, w)
            && out + Merge(le, s[i..m], s[m..k]) + Pass(le, s, k, w) == out + Pass(le, s, i, w)
  {
  }

  /** HASH_SRT on a non-empty list. */
  method SortList<K(==), V>(
      cmp: ((K, V), (K, V)) -> int, head: Node<K, V>,
      ghost le: (Node<K, V>, Node<K, V>) -> bool, ghost s: seq<Node<K, V>>, ghost nodes: set<Node<K, V>>)
      returns (list: Node<K, V>, tail: Node<K, V>, ghost out: seq<Node<K, V>>)
    requires Within(s, nodes)
    requires s != [] && Listed(s) && Distinct(s) && head == s[0] && Compares(le, cmp, nodes)
    modifies nodes`next, nodes`prev
    ensures out == Sort(le, s, 1)
    ensures Listed(out) && Distinct(out) && list == out[0] && tail == out[|out| - 1]
  {
    list, tail, out := head, head, s;
    var insize, looping := 1, true;
    while looping
      invariant 0 < insize && out != [] && list == out[0] && (looping || tail == out[|out| - 1])
      invariant Listed(out) && Distinct(out) && Within(out, nodes)
      invariant looping ==> Sort(le, out, insize) == Sort(le, s, 1)
      invariant !looping ==> out == Sort(le, s, 1)
      decreases looping, if |out| > insize then |out| - insize else 0
    {
      var nmerges;
      ghost var before := out;
      list, tail, nmerges, out := SortPass(cmp, insize, list, le, out, nodes);
      MergesAtMostOne(|before|, insize);
      if nmerges <= 1 {
        looping := false;
      }
      insize := insize * 2;
    }
  }
}
