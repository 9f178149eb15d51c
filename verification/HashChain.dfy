/**
 Bucket chains of uthash.h: the pointer operations on one chain, and where the nodes of a chain go
 when the number of buckets doubles.
 */
module HashChain {
  import opened Bits
  import opened HashNode
  import opened Kept

  /** HASH_TO_BKT. */
  function ToBkt(hashv: nat, numBuckets: nat): nat
    requires numBuckets > 0
  {
    And(hashv, numBuckets - 1)
  }

  lemma ToBktRange(hashv: nat, k: nat)
    ensures ToBkt(hashv, Pow2(k)) < Pow2(k)
  {
    MaskIsMod(hashv, k);
  }

  /** An item of old bucket `i` goes to new bucket `i` or `i + n`. */
  lemma ToBktDoubled(hashv: nat, k: nat)
    ensures ToBkt(hashv, Pow2(k + 1)) < Pow2(k + 1) == 2 * Pow2(k)
    ensures var i := ToBkt(hashv, Pow2(k));
            ToBkt(hashv, Pow2(k + 1)) == i || ToBkt(hashv, Pow2(k + 1)) == i + Pow2(k)
  {
    MaskIsMod(hashv, k + 1);
    AndDoubled(hashv, k);
  }

  // ----- Pointer operations

  /** The bucket record `UT_hash_bucket`. */
  datatype Bucket<K(==), V> = Bucket(hhHead: Node?<K, V>, count: nat, expandMult: nat)

  /** Lines 861-866 and 952-957: push `x` on the front of a chain. */
  method Push<K(==), V>(head: Node?<K, V>, x: Node<K, V>, ghost chain: seq<Node<K, V>>)
    requires Chained(chain) && Distinct(chain) && head == At(chain, 0)
    requires forall i :: 0 <= i < |chain| ==> chain[i] != x
    modifies x`hhNext, x`hhPrev, (if head == null then {} else {head})`hhPrev
    ensures Chained([x] + chain) && Distinct([x] + chain)
  {
    x.hhNext := head;
    x.hhPrev := null;
    if head != null {
      head.hhPrev := x;
    }
  }

  /** `c` is the properly linked chain of bucket `b` of `n`. */
  ghost predicate ChainOk<K, V>(c: seq<Node<K, V>>, b: nat, n: nat)
    requires n > 0
    reads c`hashv, c`hhNext, c`hhPrev
  {
    Distinct(c) && Chained(c) && forall q :: 0 <= q < |c| ==> ToBkt(c[q].hashv, n) == b
  }

  ghost predicate InChain<T>(x: T, chains: seq<seq<T>>) {
    exists b :: 0 <= b < |chains| && x in chains[b]
  }

  function NodeSet<T(==)>(s: seq<T>): set<T> {
    set x | x in s
  }

  /** Properly linked chains that hold nodes of `nodes` only, and every one of them in its bucket. */
  ghost predicate Filing<K, V>(chains: seq<seq<Node<K, V>>>, nodes: set<Node<K, V>>)
    reads nodes`hashv, nodes`hhNext, nodes`hhPrev
  {
    && chains != []
    && (forall b, q :: 0 <= b < |chains| && 0 <= q < |chains[b]| ==> chains[b][q] in nodes)
    && (forall b {:trigger ChainOk(chains[b], b, |chains|)} :: 0 <= b < |chains| ==> ChainOk(chains[b], b, |chains|))
    && (forall x {:trigger InChain(x, chains)} :: x in nodes ==> InChain(x, chains))
  }

  /** Push a new node on chain `b`; the other chains are not touched. */
  method PushOn<K(==), V>(head: Node?<K, V>, x: Node<K, V>, ghost chains: seq<seq<Node<K, V>>>, ghost b: nat,
                          ghost nodes: set<Node<K, V>>)
    requires Filing(chains, nodes) && x !in nodes
    requires b < |chains| && head == At(chains[b], 0) && ToBkt(x.hashv, |chains|) == b
    modifies nodes`hhPrev, x`hhNext, x`hhPrev
    ensures Filing(chains[b := [x] + chains[b]], nodes + {x})
  {
    assert ChainOk(chains[b], b, |chains|);
    Push(head, x, chains[b]);
    ghost var r := chains[b := [x] + chains[b]];
    forall b' | 0 <= b' < |chains| && b' != b ensures ChainOk(chains[b'], b', |chains|) {
      assert old(ChainOk(chains[b'], b', |chains|));
    }
    forall y | y in nodes + {x} ensures InChain(y, r) {
      if y in nodes {
        assert InChain(y, chains);
        var b' :| 0 <= b' < |chains| && y in chains[b'];
        assert y in r[b'];
      } else {
        assert r[b][0] == x && x in r[b];
      }
    }
  }

  lemma WithoutDistinct<T>(s: seq<T>, i: nat)
    requires i < |s| && Distinct(s)
    ensures Distinct(Without(s, i))
    ensures forall x :: x in s && x != s[i] ==> x in Without(s, i)
    ensures forall x :: x in Without(s, i) ==> x in s && x != s[i]
  {
    var r := Without(s, i);
    forall x | x in s && x != s[i] ensures x in r {
      var j :| 0 <= j < |s| && s[j] == x;
      assert if j < i then r[j] == x else r[j - 1] == x;
    }
  }

  /** Lines 883-891: unlink `x` from its chain and return the chain's new head. */
  method Unchain<K(==), V>(head0: Node?<K, V>, x: Node<K, V>, ghost chain: seq<Node<K, V>>, ghost i: nat)
      returns (head: Node?<K, V>)
    requires Chained(chain) && Distinct(chain) && head0 == At(chain, 0)
    requires i < |chain| && chain[i] == x
    modifies chain`hhNext, chain`hhPrev
    ensures Chained(Without(chain, i)) && head == At(Without(chain, i), 0)
  {
    head := head0;
    if head == x {
      head := x.hhNext;
    }
    if x.hhPrev != null {
      assert x.hhPrev == chain[i - 1];
      x.hhPrev.hhNext := x.hhNext;
    }
    if x.hhNext != null {
      assert x.hhNext == chain[i + 1];
      x.hhNext.hhPrev := x.hhPrev;
    }
  }

  /** Remove node `q` of chain `b`; the other chains are not touched. */
  method UnchainFrom<K(==), V>(head0: Node?<K, V>, x: Node<K, V>, ghost chains: seq<seq<Node<K, V>>>, ghost b: nat,
                               ghost q: nat, ghost nodes: set<Node<K, V>>)
      returns (head: Node?<K, V>)
    requires Filing(chains, nodes) && b < |chains| && q < |chains[b]| && chains[b][q] == x && head0 == At(chains[b], 0)
    modifies nodes`hhNext, nodes`hhPrev
    ensures Filing(chains[b := Without(chains[b], q)], nodes - {x}) && head == At(Without(chains[b], q), 0)
  {
    ghost var c, n := chains[b], |chains|;
    assert ChainOk(c, b, n);
    head := Unchain(head0, x, c, q);
    ghost var r := chains[b := Without(c, q)];
    WithoutDistinct(c, q);
    forall b' | 0 <= b' < n ensures ChainOk(r[b'], b', n) {
      assert old(ChainOk(chains[b'], b', n));
    }
    forall b', p | 0 <= b' < n && 0 <= p < |r[b']| ensures r[b'][p] in nodes - {x} {
      assert old(ChainOk(chains[b'], b', n));
    }
    forall y | y in nodes - {x} ensures InChain(y, r) {
      assert InChain(y, chains);
      var b' :| 0 <= b' < n && y in chains[b'];
      assert y in r[b'];
    }
  }

  /** Lines 469-479: unlink `x` from the application-order list. */
  method Unlist<K(==), V>(head0: Node<K, V>, tail0: Node<K, V>, x: Node<K, V>, ghost items: seq<Node<K, V>>,
      ghost i: nat)
      returns (head: Node<K, V>, tail: Node<K, V>)
    requires Listed(items) && Distinct(items) && |items| > 1
    requires head0 == items[0] && tail0 == items[|items| - 1]
    requires i < |items| && items[i] == x
    modifies items`next, items`prev
    ensures var r := Without(items, i);
            Listed(r) && head == r[0] && tail == r[|r| - 1]
  {
    head, tail := head0, tail0;
    if x == tail {
      tail := x.prev;
    }
    if x.prev != null {
      assert x.prev == items[i - 1];
      x.prev.next := x.next;
    } else {
      head := x.next;
    }
    if x.next != null {
      assert x.next == items[i + 1];
      x.next.prev := x.prev;
    }
  }

  /** HASH_APPEND_LIST. */
  method AppendList<K(==), V>(tail: Node<K, V>, add: Node<K, V>, ghost items: seq<Node<K, V>>)
    requires items != [] && Listed(items) && Distinct(items) && tail == items[|items| - 1]
    requires forall i :: 0 <= i < |items| ==> items[i] != add
    modifies tail`next, add`next, add`prev
    ensures Listed(items + [add]) && Distinct(items + [add])
  {
    add.next := null;
    add.prev := tail;
    tail.next := add;
  }

  // ----- Where a chain's nodes go

  /** The first `t` nodes of `c` that hash to bucket `b` of `n`, each pushed on the front in turn. */
  ghost function Picked<T>(hv: T -> nat, c: seq<T>, t: nat, b: nat, n: nat): seq<T>
    requires t <= |c| && n > 0
  {
    if t == 0 then []
    else if ToBkt(hv(c[t - 1]), n) == b then [c[t - 1]] + Picked(hv, c, t - 1, b, n)
    else Picked(hv, c, t - 1, b, n)
  }

  lemma {:induction false} PickedElements<T>(hv: T -> nat, c: seq<T>, t: nat, b: nat, n: nat)
    requires t <= |c| && n > 0
    ensures forall x :: x in Picked(hv, c, t, b, n) ==> x in c[..t] && ToBkt(hv(x), n) == b
    ensures forall x :: x in c[..t] && ToBkt(hv(x), n) == b ==> x in Picked(hv, c, t, b, n)
  {
    if t > 0 {
      PickedElements(hv, c, t - 1, b, n);
      assert c[..t] == c[..t - 1] + [c[t - 1]];
    }
  }

  /** What goes to the same bucket ends up in the reverse of its old order. */
  lemma {:induction false} PickedReverses<T>(hv: T -> nat, c: seq<T>, t: nat, b: nat, n: nat, p: nat, q: nat)
      returns (i: nat, j: nat)
    requires p < q < t <= |c| && n > 0 && ToBkt(hv(c[p]), n) == ToBkt(hv(c[q]), n) == b
    ensures var r := Picked(hv, c, t, b, n); i < j < |r| && r[i] == c[q] && r[j] == c[p]
  {
    if q < t - 1 {
      i, j := PickedReverses(hv, c, t - 1, b, n, p, q);
      if ToBkt(hv(c[t - 1]), n) == b {
        i, j := i + 1, j + 1;
      }
    } else {
      PickedElements(hv, c, t - 1, b, n);
      var r := Picked(hv, c, t - 1, b, n);
      assert c[..t - 1][p] == c[p];
      var k :| 0 <= k < |r| && r[k] == c[p];
      i, j := 0, k + 1;
    }
  }

  lemma {:induction false} PickedDistinct<T>(hv: T -> nat, c: seq<T>, t: nat, b: nat, n: nat)
    requires t <= |c| && n > 0 && Distinct(c)
    ensures Distinct(Picked(hv, c, t, b, n))
  {
    if t > 0 {
      PickedDistinct(hv, c, t - 1, b, n);
      PickedElements(hv, c, t - 1, b, n);
      assert c[t - 1] !in c[..t - 1];
    }
  }

  /** The two new buckets fed by an old one share its nodes between them. */
  lemma {:induction false} PickedPartition<T>(hv: T -> nat, c: seq<T>, t: nat, i: nat, k: nat)
    requires t <= |c|
    requires forall x :: x in c ==> ToBkt(hv(x), Pow2(k)) == i
    ensures |Picked(hv, c, t, i, Pow2(k + 1))| + |Picked(hv, c, t, i + Pow2(k), Pow2(k + 1))| == t
  {
    if t > 0 {
      PickedPartition(hv, c, t - 1, i, k);
      assert c[t - 1] in c;
      ToBktDoubled(hv(c[t - 1]), k);
    }
  }

  // ----- Sums over buckets

  /** Total of what each chain's length exceeds `m` by; with `m == 0` the number of nodes. */
  ghost function Excess<T>(chains: seq<seq<T>>, m: nat): nat {
    if chains == [] then 0
    else (if |chains[0]| > m then |chains[0]| - m else 0) + Excess(chains[1..], m)
  }

  lemma {:induction false} ExcessUpdate<T>(chains: seq<seq<T>>, b: nat, c: seq<T>, m: nat)
    requires b < |chains|
    ensures Excess(chains[b := c], m) - (if |c| > m then |c| - m else 0)
         == Excess(chains, m) - (if |chains[b]| > m then |chains[b]| - m else 0)
  {
    if b > 0 {
      ExcessUpdate(chains[1..], b - 1, c, m);
      assert chains[b := c][1..] == chains[1..][b - 1 := c];
    } else {
      assert chains[b := c][1..] == chains[1..];
    }
  }

  lemma {:induction false} ExcessConcat<T>(a: seq<seq<T>>, b: seq<seq<T>>, m: nat)
    ensures Excess(a + b, m) == Excess(a, m) + Excess(b, m)
  {
    if a == [] {
      assert a + b == b;
    } else {
      ExcessConcat(a[1..], b, m);
      assert (a + b)[1..] == a[1..] + b;
    }
  }

  /** Chains whose lengths add up pointwise have totals that add up. */
  lemma {:induction false} ExcessAdds<T>(a: seq<seq<T>>, b: seq<seq<T>>, c: seq<seq<T>>)
    requires |a| == |b| == |c| && forall i :: 0 <= i < |a| ==> |a[i]| + |b[i]| == |c[i]|
    ensures Excess(a, 0) + Excess(b, 0) == Excess(c, 0)
  {
    if a != [] {
      ExcessAdds(a[1..], b[1..], c[1..]);
    }
  }

  lemma {:induction false} ExcessEmpty<T>(chains: seq<seq<T>>, m: nat)
    requires forall i :: 0 <= i < |chains| ==> chains[i] == []
    ensures Excess(chains, m) == 0
  {
    if chains != [] {
      ExcessEmpty(chains[1..], m);
    }
  }
}
