/**
 HASH_EXPAND_BUCKETS: moving every node of the old chains onto the chains of a bucket array twice
 as long.  `Doubled` says exactly which chains come out; `Rehash` is the loop nest that builds them.
 */
module HashExpand {
  import opened Bits
  import opened HashNode
  import opened HashChain

  /** The old chain that feeds new bucket `b`. */
  ghost function Source<T>(chains: seq<seq<T>>, b: nat): seq<T>
    requires b < 2 * |chains|
  {
    if b < |chains| then chains[b] else chains[b - |chains|]
  }

  /** The first `m` chains after doubling `|chains|` buckets. */
  ghost function DoubledUpTo<T>(hv: T -> nat, chains: seq<seq<T>>, m: nat): (r: seq<seq<T>>)
    requires m <= 2 * |chains|
    ensures |r| == m
  {
    if m == 0 then []
    else DoubledUpTo(hv, chains, m - 1) + [NewChain(hv, chains, m - 1)]
  }

  /** The chain of new bucket `b`. */
  ghost function NewChain<T>(hv: T -> nat, chains: seq<seq<T>>, b: nat): seq<T>
    requires b < 2 * |chains|
  {
    Picked(hv, Source(chains, b), |Source(chains, b)|, b, 2 * |chains|)
  }

  /** The chains after doubling. */
  ghost function Doubled<T>(hv: T -> nat, chains: seq<seq<T>>): (r: seq<seq<T>>)
    ensures |r| == 2 * |chains|
  {
    DoubledUpTo(hv, chains, 2 * |chains|)
  }

  lemma {:induction false} DoubledAt<T>(hv: T -> nat, chains: seq<seq<T>>, m: nat)
    requires m <= 2 * |chains|
    ensures forall b :: 0 <= b < m ==> DoubledUpTo(hv, chains, m)[b] == NewChain(hv, chains, b)
  {
    if m > 0 {
      DoubledAt(hv, chains, m - 1);
    }
  }

  /** Each node of `chains[j]` hashes to bucket `j`, and occurs once. */
  ghost predicate Filed<T>(hv: T -> nat, chains: seq<seq<T>>)
    requires chains != []
  {
    forall j :: 0 <= j < |chains| ==> FiledIn(hv, chains[j], j, |chains|)
  }

  ghost predicate FiledIn<T>(hv: T -> nat, c: seq<T>, b: nat, n: nat)
    requires n > 0
  {
    Distinct(c) && forall q :: 0 <= q < |c| ==> ToBkt(hv(c[q]), n) == b
  }

  lemma NewChainsShare<T>(hv: T -> nat, chains: seq<seq<T>>, k: nat, i: nat)
    requires |chains| == Pow2(k) && i < |chains| && Filed(hv, chains)
    ensures |NewChain(hv, chains, i)| + |NewChain(hv, chains, i + |chains|)| == |chains[i]|
  {
    assert FiledIn(hv, chains[i], i, |chains|);
    PickedPartition(hv, chains[i], |chains[i]|, i, k);
  }

  /** Doubling keeps the number of nodes. */
  lemma DoubledCount<T>(hv: T -> nat, chains: seq<seq<T>>, k: nat)
    requires |chains| == Pow2(k) && Filed(hv, chains)
    ensures Excess(Doubled(hv, chains), 0) == Excess(chains, 0)
  {
    var n, d := |chains|, Doubled(hv, chains);
    var lo, hi := d[..n], d[n..];
    DoubledHalves(hv, chains, k, lo, hi);
    ExcessAdds(lo, hi, chains);
    ExcessConcat(lo, hi, 0);
    assert lo + hi == d;
  }

  lemma DoubledHalves<T>(hv: T -> nat, chains: seq<seq<T>>, k: nat, lo: seq<seq<T>>, hi: seq<seq<T>>)
    requires |chains| == Pow2(k) && Filed(hv, chains)
    requires lo == Doubled(hv, chains)[..|chains|] && hi == Doubled(hv, chains)[|chains|..]
    ensures forall i :: 0 <= i < |chains| ==> |lo[i]| + |hi[i]| == |chains[i]|
  {
    DoubledAt(hv, chains, 2 * |chains|);
    forall i | 0 <= i < |chains| ensures |lo[i]| + |hi[i]| == |chains[i]| {
      NewChainsShare(hv, chains, k, i);
    }
  }

  lemma PickedFiled<T>(hv: T -> nat, c: seq<T>, t: nat, b: nat, n: nat)
    requires n > 0 && t <= |c| && Distinct(c)
    ensures FiledIn(hv, Picked(hv, c, t, b, n), b, n)
    ensures forall x :: x in Picked(hv, c, t, b, n) ==> x in c[..t]
  {
    PickedDistinct(hv, c, t, b, n);
    PickedElements(hv, c, t, b, n);
    var p := Picked(hv, c, t, b, n);
    forall q | 0 <= q < |p| ensures ToBkt(hv(p[q]), n) == b {
      assert p[q] in p;
    }
  }

  /** Doubling files every node under its new bucket number, in one of the two buckets its old one feeds. */
  lemma DoubledFiled<T>(hv: T -> nat, chains: seq<seq<T>>)
    requires chains != [] && Filed(hv, chains)
    ensures Filed(hv, Doubled(hv, chains))
    ensures forall b, x :: 0 <= b < 2 * |chains| && x in Doubled(hv, chains)[b] ==> x in Source(chains, b)
  {
    var n, d := |chains|, Doubled(hv, chains);
    DoubledAt(hv, chains, 2 * n);
    forall b | 0 <= b < 2 * n ensures FiledIn(hv, d[b], b, 2 * n) {
      var c := Source(chains, b);
      assert FiledIn(hv, c, if b < n then b else b - n, n);
      PickedFiled(hv, c, |c|, b, 2 * n);
    }
    forall b, x | 0 <= b < 2 * n && x in d[b] ensures x in Source(chains, b) {
      var c := Source(chains, b);
      assert FiledIn(hv, c, if b < n then b else b - n, n);
      PickedFiled(hv, c, |c|, b, 2 * n);
      assert c[..|c|] == c;
    }
  }

  /** Doubling loses no node. */
  lemma DoubledComplete<T>(hv: T -> nat, chains: seq<seq<T>>, k: nat, j: nat, x: T)
    requires |chains| == Pow2(k) && Filed(hv, chains) && j < |chains| && x in chains[j]
    ensures var b := ToBkt(hv(x), 2 * |chains|); b < 2 * |chains| && x in Doubled(hv, chains)[b]
  {
    var c, n := chains[j], |chains|;
    DoubledAt(hv, chains, 2 * n);
    assert FiledIn(hv, c, j, n);
    ToBktDoubled(hv(x), k);
    var b := ToBkt(hv(x), 2 * n);
    assert Source(chains, b) == c;
    PickedElements(hv, c, |c|, b, 2 * n);
    assert c[..|c|] == c;
  }

  /** `expand_mult` of a bucket that has received `count` nodes (lines 946-951). */
  ghost function Mult(count: nat, ideal: nat): nat {
    if count == 0 then 0
    else
      var m := Mult(count - 1, ideal);
      if count > ideal && count > m * ideal then m + 1 else m
  }

  /**
   What it comes to for a chain above the ideal length: the number of ideal lengths that cover the chain,
   rounded up, or the excess over the ideal length if that is less.
   */
  lemma {:induction false} MultMeans(count: nat, ideal: nat)
    requires ideal > 0
    ensures count <= ideal ==> Mult(count, ideal) == 0
    ensures count > ideal ==>
      var m := Mult(count, ideal);
      && 1 <= m <= count - ideal && (m - 1) * ideal < count
      && (m * ideal >= count || m == count - ideal)
  {
    if count > 0 {
      MultMeans(count - 1, ideal);
      var m := Mult(count - 1, ideal);
      MultStep(count, ideal, m);
    }
  }

  lemma MultStep(count: nat, ideal: nat, m: nat)
    ensures (m + 1) * ideal == m * ideal + ideal && (m > 0 ==> m * ideal == (m - 1) * ideal + ideal)
  {
  }

  /** With ideal chains shorter than the threshold of 10, no chain reaches its limit by being redistributed. */
  lemma MultBounds(count: nat, ideal: nat)
    requires 0 < ideal < 10
    ensures count < (Mult(count, ideal) + 1) * 10
  {
    hide Mult;
    MultMeans(count, ideal);
    var m := Mult(count, ideal);
    if count > ideal && m * ideal >= count {
      assert m * ideal <= m * 9;
    }
  }

  /** And only then: an ideal chain of 10 or more can hold 10 items without its limit being raised. */
  lemma MultBoundsIff(ideal: nat)
    requires ideal > 0
    ensures (forall count: nat :: count < (Mult(count, ideal) + 1) * 10) <==> ideal < 10
  {
    hide Mult;
    if ideal < 10 {
      forall count: nat ensures count < (Mult(count, ideal) + 1) * 10 {
        MultBounds(count, ideal);
      }
    } else {
      MultMeans(10, ideal);
      assert !(10 < (Mult(10, ideal) + 1) * 10);
    }
  }

  // ----- The loop nest

  /** How much of old chain `j` has been moved when chain `i` has been moved up to `t`. */
  ghost function Moved<T>(chains: seq<seq<T>>, i: nat, t: nat, j: nat): nat
    requires j < |chains|
  {
    if j < i then |chains[j]| else if j == i then t else 0
  }

  ghost predicate PartlyDoubled<T>(hv: T -> nat, chains: seq<seq<T>>, i: nat, t: nat, nc: seq<seq<T>>)
    requires chains != [] && i <= |chains| && (if i < |chains| then t <= |chains[i]| else t == 0)
  {
    && |nc| == 2 * |chains|
    && forall b :: 0 <= b < |nc| ==>
         nc[b] == Picked(hv, Source(chains, b), Moved(chains, i, t, if b < |chains| then b else b - |chains|), b,
             2 * |chains|)
  }

  ghost predicate BucketOf<K, V>(bkt: Bucket<K, V>, c: seq<Node<K, V>>) {
    bkt.hhHead == At(c, 0) && bkt.count == |c|
  }

  /** The new buckets are properly chained. */
  ghost predicate Rechained<K, V>(nb: array<Bucket<K, V>>, nc: seq<seq<Node<K, V>>>, ideal: nat, nodes: set<Node<K, V>>)
    reads nb, nodes`hhNext, nodes`hhPrev
  {
    && |nc| == nb.Length
    && (forall b, q :: 0 <= b < |nc| && 0 <= q < |nc[b]| ==> nc[b][q] in nodes)
    && (forall b :: 0 <= b < |nc| ==>
          Chained(nc[b]) && BucketOf(nb[b], nc[b]) && nb[b].expandMult == Mult(|nc[b]|, ideal))
  }

  /** What is not yet moved can still be walked. */
  ghost predicate Walkable<K, V>(chains: seq<seq<Node<K, V>>>, i: nat, t: nat, nodes: set<Node<K, V>>)
    reads nodes`hhNext
  {
    && (forall j, q :: 0 <= j < |chains| && 0 <= q < |chains[j]| ==> chains[j][q] in nodes)
    && (forall j, q {:trigger chains[j][q]} :: i <= j < |chains| && 0 <= q < |chains[j]| && (j == i ==> t <= q) ==>
          chains[j][q].hhNext == At(chains[j], q + 1))
  }

  /** `x` is not in the new chains and every node of new chain `b` hashes to `b`. */
  ghost predicate NewTo<T>(hv: T -> nat, nc: seq<seq<T>>, x: T, n: nat)
    requires n > 0
  {
    forall b, q :: 0 <= b < |nc| && 0 <= q < |nc[b]| ==> nc[b][q] != x && ToBkt(hv(nc[b][q]), n) == b
  }

  /** The step of `PartlyDoubled` when node `t` of chain `i` is pushed on its new chain. */
  lemma MoveOne<T>(hv: T -> nat, chains: seq<seq<T>>, k: nat, i: nat, t: nat, nc: seq<seq<T>>)
    requires |chains| == Pow2(k) && Filed(hv, chains)
    requires i < |chains| && t < |chains[i]| && PartlyDoubled(hv, chains, i, t, nc)
    ensures var x := chains[i][t]; var b := ToBkt(hv(x), 2 * |chains|);
            b < |nc| && PartlyDoubled(hv, chains, i, t + 1, nc[b := [x] + nc[b]])
  {
    assert FiledIn(hv, chains[i], i, |chains|);
    ToBktDoubled(hv(chains[i][t]), k);
  }

  lemma MovesNew<T>(hv: T -> nat, chains: seq<seq<T>>, i: nat, t: nat, nc: seq<seq<T>>)
    requires chains != [] && Filed(hv, chains)
    requires i < |chains| && t < |chains[i]| && PartlyDoubled(hv, chains, i, t, nc)
    ensures NewTo(hv, nc, chains[i][t], 2 * |chains|)
    ensures forall b :: 0 <= b < |nc| ==> Distinct(nc[b])
  {
    var n, x := |chains|, chains[i][t];
    assert FiledIn(hv, chains[i], i, n);
    forall b | 0 <= b < |nc|
      ensures FiledIn(hv, nc[b], b, 2 * n) && x !in nc[b]
    {
      var j := if b < n then b else b - n;
      assert FiledIn(hv, chains[j], j, n);
      PickedFiled(hv, chains[j], Moved(chains, i, t, j), b, 2 * n);
    }
    forall b, q | 0 <= b < |nc| && 0 <= q < |nc[b]| ensures nc[b][q] != x && ToBkt(hv(nc[b][q]), 2 * n) == b {
      assert FiledIn(hv, nc[b], b, 2 * n);
    }
  }

  /** What `MoveNode` needs, and what it then achieves for `PartlyDoubled`. */
  lemma MoveReady<T>(hv: T -> nat, chains: seq<seq<T>>, k: nat, i: nat, t: nat, nc: seq<seq<T>>)
    requires |chains| == Pow2(k) && Filed(hv, chains)
    requires i < |chains| && t < |chains[i]| && PartlyDoubled(hv, chains, i, t, nc)
    ensures var x := chains[i][t]; var b := ToBkt(hv(x), |chains| * 2);
            b < |nc| && PartlyDoubled(hv, chains, i, t + 1, nc[b := [x] + nc[b]])
    ensures NewTo(hv, nc, chains[i][t], 2 * |chains|)
    ensures forall b :: 0 <= b < |nc| ==> Distinct(nc[b])
  {
    MoveOne(hv, chains, k, i, t, nc);
    MovesNew(hv, chains, i, t, nc);
  }

  /** Lines 952-957: push `x` on new bucket `b`. */
  method Requeue<K(==), V>(
      x: Node<K, V>, b: nat, count: nat, mult: nat, nb: array<Bucket<K, V>>, ideal: nat,
      ghost hv: Node<K, V> -> nat, ghost nc: seq<seq<Node<K, V>>>, ghost nodes: set<Node<K, V>>, ghost n: nat)
    requires n > 0 && b < nb.Length && Rechained(nb, nc, ideal, nodes) && x in nodes
    requires NewTo(hv, nc, x, n) && Distinct(nc[b])
    requires count == |nc[b]| + 1 && mult == Mult(count, ideal)
    modifies nb, nodes`hhPrev, x`hhNext
    ensures Rechained(nb, nc[b := [x] + nc[b]], ideal, nodes)
  {
    Push(nb[b].hhHead, x, nc[b]);
    nb[b] := Bucket(x, count, mult);
  }

  /** Lines 943-957 for one node `x == chains[i][t]`. */
  method MoveNode<K(==), V>(
      x: Node<K, V>, n: nat, ideal: nat, nonideal0: nat, nb: array<Bucket<K, V>>,
      ghost hv: Node<K, V> -> nat, ghost chains: seq<seq<Node<K, V>>>, ghost i: nat, ghost t: nat,
      ghost nc0: seq<seq<Node<K, V>>>, ghost nodes: set<Node<K, V>>)
      returns (nxt: Node?<K, V>, nonideal: nat, ghost nc: seq<seq<Node<K, V>>>)
    requires n == |chains| > 0 && Filed(hv, chains) && i < n && t < |chains[i]| && x == chains[i][t]
    requires x.hashv == hv(x) && ToBkt(hv(x), n * 2) < |nc0|
    requires Rechained(nb, nc0, ideal, nodes) && Walkable(chains, i, t, nodes)
    requires NewTo(hv, nc0, x, 2 * n) && forall b :: 0 <= b < |nc0| ==> Distinct(nc0[b])
    requires nonideal0 == Excess(nc0, ideal)
    modifies nb, nodes`hhNext, nodes`hhPrev
    ensures nxt == At(chains[i], t + 1)
    ensures var b := ToBkt(hv(x), n * 2); nc == nc0[b := [x] + nc0[b]]
    ensures Rechained(nb, nc, ideal, nodes) && Walkable(chains, i, t + 1, nodes)
    ensures nonideal == Excess(nc, ideal)
  {
    nxt := x.hhNext;
    var b := ToBkt(x.hashv, n * 2);
    var count := nb[b].count + 1;
    var mult := nb[b].expandMult;
    nonideal := nonideal0;
    if count > ideal {
      nonideal := nonideal + 1;
      if count > mult * ideal {
        mult := mult + 1;
      }
    }
    nc := nc0[b := [x] + nc0[b]];
    ExcessUpdate(nc0, b, [x] + nc0[b], ideal);
    StillWalkable(hv, chains, i, t, nodes);
    Requeue(x, b, count, mult, nb, ideal, hv, nc0, nodes, 2 * n);
  }

  /** Lines 941-959: move one old chain. */
  method MoveChain<K(==), V>(
      first: Node?<K, V>, n: nat, ideal: nat, nonideal0: nat, nb: array<Bucket<K, V>>,
      ghost hv: Node<K, V> -> nat, ghost chains: seq<seq<Node<K, V>>>, ghost k: nat, ghost i: nat,
      ghost nc0: seq<seq<Node<K, V>>>, ghost nodes: set<Node<K, V>>)
      returns (nonideal: nat, ghost nc: seq<seq<Node<K, V>>>)
    requires n == |chains| == Pow2(k) && Filed(hv, chains) && i < n && first == At(chains[i], 0)
    requires forall x :: x in nodes ==> x.hashv == hv(x)
    requires PartlyDoubled(hv, chains, i, 0, nc0) && Rechained(nb, nc0, ideal, nodes) && Walkable(chains, i, 0, nodes)
    requires nonideal0 == Excess(nc0, ideal)
    modifies nb, nodes`hhNext, nodes`hhPrev
    ensures PartlyDoubled(hv, chains, i + 1, 0, nc) && Rechained(nb, nc, ideal, nodes)
        && Walkable(chains, i + 1, 0, nodes)
    ensures nonideal == Excess(nc, ideal)
  {
    nonideal, nc := nonideal0, nc0;
    var thh := first;
    ghost var t: nat := 0;
    while thh != null
      invariant t <= |chains[i]| && thh == At(chains[i], t)
      invariant PartlyDoubled(hv, chains, i, t, nc) && Rechained(nb, nc, ideal, nodes) && Walkable(chains, i, t, nodes)
      invariant nonideal == Excess(nc, ideal)
      decreases |chains[i]| - t
    {
      MoveReady(hv, chains, k, i, t, nc);
      thh, nonideal, nc := MoveNode(thh, n, ideal, nonideal, nb, hv, chains, i, t, nc, nodes);
      t := t + 1;
    }
    NextChain(hv, chains, i, nc);
  }

  lemma NextChain<T>(hv: T -> nat, chains: seq<seq<T>>, i: nat, nc: seq<seq<T>>)
    requires i < |chains| && PartlyDoubled(hv, chains, i, |chains[i]|, nc)
    ensures PartlyDoubled(hv, chains, i + 1, 0, nc)
  {
  }

  /** Lines 940-960: the loop over the old buckets. */
  method Rehash<K(==), V>(
      old_: array<Bucket<K, V>>, n: nat, ideal: nat, nb: array<Bucket<K, V>>,
      ghost hv: Node<K, V> -> nat, ghost chains: seq<seq<Node<K, V>>>, ghost k: nat, ghost nodes: set<Node<K, V>>)
      returns (nonideal: nat)
    requires n == old_.Length == |chains| == Pow2(k) && Filed(hv, chains) && old_ != nb
    requires forall b :: 0 <= b < n ==> BucketOf(old_[b], chains[b])
    requires forall x :: x in nodes ==> x.hashv == hv(x)
    requires Walkable(chains, 0, 0, nodes)
    requires nb.Length == 2 * n && forall b :: 0 <= b < 2 * n ==> nb[b] == Bucket(null, 0, 0)
    modifies nb, nodes`hhNext, nodes`hhPrev
    ensures Rechained(nb, Doubled(hv, chains), ideal, nodes)
    ensures nonideal == Excess(Doubled(hv, chains), ideal)
  {
    ghost var nc := NothingMoved(nb, hv, chains, ideal, nodes);
    nonideal := 0;
    for i := 0 to n
      invariant PartlyDoubled(hv, chains, i, 0, nc) && Rechained(nb, nc, ideal, nodes) && Walkable(chains, i, 0, nodes)
      invariant nonideal == Excess(nc, ideal)
    {
      nonideal, nc := MoveChain(old_[i].hhHead, n, ideal, nonideal, nb, hv, chains, k, i, nc, nodes);
    }
    AllMoved(hv, chains, nc);
  }

  lemma NothingMoved<K, V>(nb: array<Bucket<K, V>>, hv: Node<K, V> -> nat, chains: seq<seq<Node<K, V>>>, ideal: nat,
                           nodes: set<Node<K, V>>) returns (nc: seq<seq<Node<K, V>>>)
    requires chains != [] && nb.Length == 2 * |chains| && forall b :: 0 <= b < nb.Length ==> nb[b] == Bucket(null, 0, 0)
    ensures PartlyDoubled(hv, chains, 0, 0, nc) && Rechained(nb, nc, ideal, nodes) && Excess(nc, ideal) == 0
  {
    nc := seq(2 * |chains|, _ => []);
    ExcessEmpty(nc, ideal);
  }

  lemma AllMoved<T>(hv: T -> nat, chains: seq<seq<T>>, nc: seq<seq<T>>)
    requires chains != [] && PartlyDoubled(hv, chains, |chains|, 0, nc)
    ensures nc == Doubled(hv, chains)
  {
    DoubledAt(hv, chains, 2 * |chains|);
  }

  lemma StillWalkable<K, V>(hv: Node<K, V> -> nat, chains: seq<seq<Node<K, V>>>, i: nat, t: nat, nodes: set<Node<K, V>>)
    requires chains != [] && Filed(hv, chains) && i < |chains| && t < |chains[i]| && Walkable(chains, i, t, nodes)
    ensures forall j, q {:trigger chains[j][q]} ::
              i <= j < |chains| && 0 <= q < |chains[j]| && (j == i ==> t + 1 <= q) ==>
              chains[j][q] != chains[i][t] && chains[j][q].hhNext == At(chains[j], q + 1)
  {
    assert FiledIn(hv, chains[i], i, |chains|);
    forall j, q {:trigger chains[j][q]} | i <= j < |chains| && 0 <= q < |chains[j]| && (j == i ==> t + 1 <= q)
      ensures chains[j][q] != chains[i][t] && chains[j][q].hhNext == At(chains[j], q + 1)
    {
      assert FiledIn(hv, chains[j], j, |chains|);
    }
  }

  /** The doubled chains hold the same nodes as before, each in its new bucket. */
  lemma DoubledFiling<K, V>(nb: array<Bucket<K, V>>, hv: Node<K, V> -> nat, chains: seq<seq<Node<K, V>>>, k: nat,
                            ideal: nat, nodes: set<Node<K, V>>)
    requires |chains| == Pow2(k) && Filed(hv, chains) && Rechained(nb, Doubled(hv, chains), ideal, nodes)
    requires forall x :: x in nodes ==> x.hashv == hv(x)
    requires forall x {:trigger InChain(x, chains)} :: x in nodes ==> InChain(x, chains)
    ensures Filing(Doubled(hv, chains), nodes)
  {
    var d, n := Doubled(hv, chains), |chains|;
    DoubledFiled(hv, chains);
    forall b | 0 <= b < |d| ensures ChainOk(d[b], b, |d|) {
      assert FiledIn(hv, d[b], b, 2 * n);
      assert Chained(d[b]);
    }
    forall x | x in nodes ensures InChain(x, d) {
      assert InChain(x, chains);
      var j :| 0 <= j < n && x in chains[j];
      DoubledComplete(hv, chains, k, j, x);
    }
  }

  lemma FilingFiled<K, V>(hv: Node<K, V> -> nat, chains: seq<seq<Node<K, V>>>, nodes: set<Node<K, V>>)
    requires Filing(chains, nodes) && forall x :: x in nodes ==> x.hashv == hv(x)
    ensures Filed(hv, chains) && Walkable(chains, 0, 0, nodes)
    ensures forall x {:trigger InChain(x, chains)} :: x in nodes ==> InChain(x, chains)
  {
    forall j | 0 <= j < |chains| ensures FiledIn(hv, chains[j], j, |chains|) {
      assert ChainOk(chains[j], j, |chains|);
    }
    forall j, q {:trigger chains[j][q]} | 0 <= j < |chains| && 0 <= q < |chains[j]|
      ensures chains[j][q].hhNext == At(chains[j], q + 1)
    {
      assert ChainOk(chains[j], j, |chains|);
    }
  }

  /** Lines 929-935 and 940-960: allocate and fill the doubled bucket array. */
  method BuildDoubled<K(==), V>(bkts: array<Bucket<K, V>>, n: nat, ideal: nat,
                                ghost chains: seq<seq<Node<K, V>>>, ghost k: nat, ghost nodes: set<Node<K, V>>)
      returns (nb: array<Bucket<K, V>>, nonideal: nat, ghost hv: Node<K, V> -> nat)
    requires n == bkts.Length == |chains| == Pow2(k) && Filing(chains, nodes)
    requires forall b :: 0 <= b < n ==> BucketOf(bkts[b], chains[b])
    modifies nodes`hhNext, nodes`hhPrev
    ensures fresh(nb) && nb.Length == 2 * n
    ensures forall x :: x in nodes ==> hv(x) == x.hashv
    ensures Filing(Doubled(hv, chains), nodes)
    ensures forall b :: 0 <= b < 2 * n ==> BucketOf(nb[b], Doubled(hv, chains)[b])
    ensures forall b :: 0 <= b < 2 * n ==> nb[b].expandMult == Mult(nb[b].count, ideal)
    ensures nonideal == Excess(Doubled(hv, chains), ideal)
    ensures Excess(Doubled(hv, chains), 0) == Excess(chains, 0)
  {
    ghost var snapshot := map x | x in nodes :: x.hashv;
    hv := x => if x in snapshot then snapshot[x] else 0;
    FilingFiled(hv, chains, nodes);
    nb := new Bucket<K, V>[2 * n](_ => Bucket(null, 0, 0));
    nonideal := Rehash(bkts, n, ideal, nb, hv, chains, k, nodes);
    DoubledFiling(nb, hv, chains, k, ideal, nodes);
    DoubledCount(hv, chains, k);
  }
}
