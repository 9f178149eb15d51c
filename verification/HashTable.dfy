/**
 The hash table of uthash.h: the application-order list and the bucket chains over the same nodes.

 In the C code the table record hangs off every element and is reached through the head element; it
 is allocated by the first add and freed by the last delete.  Here one object holds the head pointer
 together with the record, and the record means nothing while `head` is null.
 */
module HashTable {
  import opened Bits
  import opened HashNode
  import opened HashChain
  import opened HashExpand
  import opened Kept
  import HashSort
  import MergeSort

  const INITIAL_NUM_BUCKETS := 32
  const INITIAL_NUM_BUCKETS_LOG2 := 5
  const BKT_CAPACITY_THRESH := 10

  ghost predicate UnderLimit<K, V>(b: Bucket<K, V>) {
    b.count < (b.expandMult + 1) * BKT_CAPACITY_THRESH
  }

  lemma Pow2Initial()
    ensures Pow2(INITIAL_NUM_BUCKETS_LOG2) == INITIAL_NUM_BUCKETS
  {
    assert Pow2(1) == 2 && Pow2(2) == 4 && Pow2(3) == 8 && Pow2(4) == 16;
  }

  // ----- The map that a list of elements with distinct keys stands for

  ghost predicate KeysDistinct<K, V>(items: seq<Node<K, V>>)
    reads items`key
  {
    forall i, j :: 0 <= i < j < |items| ==> items[i].key != items[j].key
  }

  ghost function ModelOf<K, V>(items: seq<Node<K, V>>): map<K, Node<K, V>>
    requires KeysDistinct(items)
    reads items`key
  {
    map i | 0 <= i < |items| :: items[i].key := items[i]
  }

  lemma ModelHas<K, V>(items: seq<Node<K, V>>, x: Node<K, V>)
    requires KeysDistinct(items) && x in items
    ensures x.key in ModelOf(items) && ModelOf(items)[x.key] == x
  {
    var i :| 0 <= i < |items| && items[i] == x;
    assert items[i].key in ModelOf(items);
  }

  lemma ModelEntry<K, V>(items: seq<Node<K, V>>, k: K)
    requires KeysDistinct(items) && k in ModelOf(items)
    ensures ModelOf(items)[k] in items && ModelOf(items)[k].key == k
  {
  }

  /** Adding an element with a new key adds its entry. */
  lemma ModelAdd<K, V>(items: seq<Node<K, V>>, x: Node<K, V>)
    requires KeysDistinct(items) && x.key !in ModelOf(items)
    ensures KeysDistinct(items + [x]) && ModelOf(items + [x]) == ModelOf(items)[x.key := x]
  {
    forall i | 0 <= i < |items| ensures items[i].key != x.key {
      ModelHas(items, items[i]);
    }
    assert KeysDistinct(items + [x]);
    hide ModelOf;
    forall k | k in ModelOf(items + [x])
      ensures k == x.key || (k in ModelOf(items) && ModelOf(items + [x])[k] == ModelOf(items)[k])
    {
      ModelEntry(items + [x], k);
      if k != x.key {
        ModelHas(items, ModelOf(items + [x])[k]);
      }
    }
    forall k | k in ModelOf(items) ensures k in ModelOf(items + [x]) {
      ModelEntry(items, k);
      ModelHas(items + [x], ModelOf(items)[k]);
    }
    ModelHas(items + [x], x);
  }

  /** Deleting an element removes its entry. */
  lemma ModelDelete<K, V>(items: seq<Node<K, V>>, i: nat)
    requires KeysDistinct(items) && i < |items|
    ensures KeysDistinct(Without(items, i)) && ModelOf(Without(items, i)) == ModelOf(items) - {items[i].key}
  {
    var r := Without(items, i);
    WithoutDistinct(items, i);
    assert KeysDistinct(r);
    hide ModelOf, KeysDistinct, Without, Distinct;
    ModelHas(items, items[i]);
    forall k | k in ModelOf(r) ensures k in ModelOf(items) && k != items[i].key && ModelOf(r)[k] == ModelOf(items)[k] {
      ModelEntry(r, k);
      ModelHas(items, ModelOf(r)[k]);
    }
    forall k | k in ModelOf(items) && k != items[i].key ensures k in ModelOf(r) {
      ModelEntry(items, k);
      ModelHas(r, ModelOf(items)[k]);
    }
  }

  lemma PermutedKeys<K, V>(a: seq<Node<K, V>>, b: seq<Node<K, V>>)
    requires KeysDistinct(a) && Distinct(b) && forall x :: x in b ==> x in a
    ensures KeysDistinct(b)
  {
    forall i, j | 0 <= i < j < |b| ensures b[i].key != b[j].key {
      assert b[i] in b && b[j] in b;
      var k :| 0 <= k < |a| && a[k] == b[i];
      var l :| 0 <= l < |a| && a[l] == b[j];
    }
  }

  /** Sorting changes nothing. */
  lemma ModelSort<K, V>(a: seq<Node<K, V>>, b: seq<Node<K, V>>)
    requires KeysDistinct(a) && Distinct(b) && multiset(a) == multiset(b)
    ensures KeysDistinct(b) && ModelOf(a) == ModelOf(b)
  {
    hide ModelOf, KeysDistinct, Distinct;
    MergeSort.SameElements(a, b);
    PermutedKeys(a, b);
    forall k | k in ModelOf(a) ensures k in ModelOf(b) && ModelOf(a)[k] == ModelOf(b)[k] {
      ModelEntry(a, k);
      ModelHas(b, ModelOf(a)[k]);
    }
    forall k | k in ModelOf(b) ensures k in ModelOf(a) {
      ModelEntry(b, k);
      ModelHas(a, ModelOf(b)[k]);
    }
  }

  class Table<K(==), V> {
    const hash: K -> nat

    var head: Node?<K, V>
    var tail: Node?<K, V>
    var buckets: array<Bucket<K, V>>
    var numBuckets: nat
    var log2NumBuckets: nat
    var numItems: nat
    var idealChainMaxlen: nat
    var nonidealItems: nat
    var ineffExpands: nat
    var noexpand: bool

    /** The elements in application order. */
    ghost var Items: seq<Node<K, V>>
    /** The elements of each bucket in chain order. */
    ghost var Chains: seq<seq<Node<K, V>>>

    /** What HASH_FSCK checks, and that list and chains hold the same nodes, each in its own bucket. */
    ghost predicate Valid()
      reads this, buckets, Items
    {
      && Listed(Items) && Distinct(Items) && head == At(Items, 0)
      && (head != null ==>
            tail == Items[|Items| - 1] && numItems == |Items| == Excess(Chains, 0) && TableOk(NodeSet(Items)))
    }

    /** The bucket part of the record describes exactly `nodes`. */
    ghost predicate TableOk(nodes: set<Node<K, V>>)
      reads `numBuckets, `log2NumBuckets, `buckets, `Chains, buckets
      reads nodes`key, nodes`hashv, nodes`hhNext, nodes`hhPrev
    {
      && numBuckets == Pow2(log2NumBuckets) == buckets.Length == |Chains|
      && (forall b :: 0 <= b < |Chains| ==> BucketOf(buckets[b], Chains[b]))
      && Filing(Chains, nodes)
      && (forall x :: x in nodes ==> x.hashv == hash(x.key))
    }

    /** No chain has reached the length at which adding to it expands the table, unless expansion is given up. */
    ghost predicate Bounded()
      reads `noexpand, `buckets, buckets
    {
      noexpand || forall b :: 0 <= b < buckets.Length ==> UnderLimit(buckets[b])
    }

    /** The abstract map from keys to elements. */
    ghost function Model(): map<K, Node<K, V>>
      requires KeysDistinct(Items)
      reads this, Items
    {
      ModelOf(Items)
    }

    constructor (hash: K -> nat)
      ensures Valid() && Items == [] && this.hash == hash && fresh(buckets)
    {
      this.hash := hash;
      head, tail := null, null;
      buckets := new Bucket<K, V>[0];
      numBuckets, log2NumBuckets, numItems := 0, 0, 0;
      idealChainMaxlen, nonidealItems, ineffExpands, noexpand := 0, 0, 0, false;
      Items, Chains := [], [];
    }

    /** What HASH_ITER relies on: `head` and `next` run through the list, and no node is in it twice. */
    lemma ListWalk(i: nat)
      requires Valid()
      ensures head == At(Items, 0)
      ensures i < |Items| ==> Items[i].next == At(Items, i + 1)
      ensures forall j :: 0 <= j < |Items| && i < |Items| && Items[j] == Items[i] ==> j == i
    {
    }

    /** Every element is in the chain of the bucket that its hash selects, the remainder by the number of buckets. */
    lemma Placed(x: Node<K, V>)
      requires Valid() && x in Items
      ensures numBuckets > 0 && numBuckets == |Chains| && x in Chains[hash(x.key) % numBuckets]
    {
      assert InChain(x, Chains);
      var b :| 0 <= b < |Chains| && x in Chains[b];
      assert ChainOk(Chains[b], b, |Chains|);
      MaskIsMod(hash(x.key), log2NumBuckets);
    }

    /** HASH_FIND: some element with this key, if there is one. */
    method Find(key: K) returns (out: Node?<K, V>)
      requires Valid()
      ensures out != null ==> out in Items && out.key == key
      ensures out == null ==> forall x :: x in Items ==> x.key != key
    {
      out := null;
      if head != null {
        var hashv := hash(key);
        ToBktRange(hashv, log2NumBuckets);
        var b := ToBkt(hashv, numBuckets);
        ghost var c := Chains[b];
        assert ChainOk(c, b, numBuckets);
        out := buckets[b].hhHead;
        ghost var q := 0;
        while out != null
          invariant 0 <= q <= |c| && out == At(c, q)
          invariant forall p :: 0 <= p < q ==> c[p].key != key
          decreases |c| - q
        {
          if out.hashv == hashv && out.key == key {
            return;
          }
          out := out.hhNext;
          q := q + 1;
        }
        forall x | x in Items ensures x.key != key {
          assert InChain(x, Chains);
          var b' :| 0 <= b' < |Chains| && x in Chains[b'];
          assert ChainOk(Chains[b'], b', numBuckets);
        }
      }
    }

    /** With distinct keys, what `Find` promises is exactly a lookup in the abstract map. */
    lemma FindIsLookup(key: K, out: Node?<K, V>)
      requires KeysDistinct(Items)
      requires out != null ==> out in Items && out.key == key
      requires out == null ==> forall x :: x in Items ==> x.key != key
      ensures out == if key in Model() then Model()[key] else null
    {
      if out != null {
        var i :| 0 <= i < |Items| && Items[i] == out;
        assert Items[i].key in Model();
      }
    }

    /** HASH_MAKE_TABLE. */
    method MakeTable()
      modifies `numBuckets, `log2NumBuckets, `numItems, `buckets, `Chains, `idealChainMaxlen, `nonidealItems,
               `ineffExpands, `noexpand
      ensures TableOk({}) && numItems == Excess(Chains, 0) == 0 && fresh(buckets) && Bounded()
      ensures numBuckets == 32 && log2NumBuckets == 5
      ensures forall b :: 0 <= b < buckets.Length ==> buckets[b] == Bucket(null, 0, 0)
      ensures idealChainMaxlen == nonidealItems == ineffExpands == 0 && !noexpand
    {
      hide Pow2, Excess;
      numBuckets, log2NumBuckets, numItems := INITIAL_NUM_BUCKETS, INITIAL_NUM_BUCKETS_LOG2, 0;
      idealChainMaxlen, nonidealItems, ineffExpands, noexpand := 0, 0, 0, false;
      buckets := new Bucket<K, V>[INITIAL_NUM_BUCKETS](_ => Bucket(null, 0, 0));
      Chains := seq(INITIAL_NUM_BUCKETS, _ => []);
      Pow2Initial();
      ExcessEmpty(Chains, 0);
    }

    /** HASH_ADD_TO_BKT without the expansion at its end. */
    method AddToBkt(x: Node<K, V>, ghost nodes: set<Node<K, V>>) returns (b: nat)
      requires TableOk(nodes) && x !in nodes && x.hashv == hash(x.key)
      modifies `Chains, buckets, nodes`hhPrev, x`hhNext, x`hhPrev
      ensures TableOk(nodes + {x}) && Excess(Chains, 0) == old(Excess(Chains, 0)) + 1
      ensures numBuckets > 0 && numBuckets == |old(Chains)| == buckets.Length && b == x.hashv % numBuckets
      ensures b == ToBkt(x.hashv, numBuckets) && Chains == old(Chains)[b := [x] + old(Chains)[b]]
      ensures buckets[b].count == old(buckets[b].count) + 1 && buckets[b].expandMult == old(buckets[b].expandMult)
      ensures forall c :: 0 <= c < buckets.Length && c != b ==> buckets[c] == old(buckets[c])
    {
      ToBktRange(x.hashv, log2NumBuckets);
      MaskIsMod(x.hashv, log2NumBuckets);
      b := ToBkt(x.hashv, numBuckets);
      ghost var chains := Chains;
      var first := buckets[b].hhHead;
      buckets[b] := Bucket(x, buckets[b].count + 1, buckets[b].expandMult);
      Chains := chains[b := [x] + chains[b]];
      ExcessUpdate(chains, b, [x] + chains[b], 0);
      PushOn(first, x, chains, b, nodes);
    }

    /** HASH_EXPAND_BUCKETS. */
    method ExpandBuckets(ghost nodes: set<Node<K, V>>) returns (ghost hv: Node<K, V> -> nat)
      requires TableOk(nodes) && numItems == Excess(Chains, 0)
      modifies `numBuckets, `log2NumBuckets, `buckets, `Chains, `idealChainMaxlen, `nonidealItems, `ineffExpands,
               `noexpand, nodes`hhNext, nodes`hhPrev
      ensures TableOk(nodes) && numItems == Excess(Chains, 0) && fresh(buckets)
      ensures numBuckets == 2 * old(numBuckets) && log2NumBuckets == old(log2NumBuckets) + 1
      ensures forall x :: x in nodes ==> hv(x) == x.hashv
      ensures old(Chains) != [] && Chains == Doubled(hv, old(Chains))
      ensures idealChainMaxlen == CeilDiv(numItems, numBuckets)
      ensures nonidealItems == Excess(Chains, idealChainMaxlen)
      ensures forall b :: 0 <= b < numBuckets ==> buckets[b].expandMult == Mult(buckets[b].count, idealChainMaxlen)
      ensures ineffExpands == (if 2 * nonidealItems > numItems then old(ineffExpands) + 1 else 0)
      ensures noexpand == (old(noexpand) || ineffExpands > 1)
    {
      ghost var chains := Chains;
      var ideal := IdealChain();
      var nb, nonideal;
      nb, nonideal, hv := BuildDoubled(buckets, numBuckets, ideal, chains, log2NumBuckets, nodes);
      Install(nb, ideal, nonideal, Doubled(hv, chains));
    }

    /** Lines 936-938: the chain length of an even spread over twice the buckets, rounded up. */
    method IdealChain() returns (ideal: nat)
      requires numBuckets == Pow2(log2NumBuckets)
      ensures ideal == CeilDiv(numItems, 2 * numBuckets)
    {
      ideal := CeilShift(numItems, log2NumBuckets + 1, numBuckets * 2);
      CeilByShift(numItems, log2NumBuckets + 1);
    }

    /**
     Lines 936-939 and 962-970: record the new buckets.  Two expansions in a row that leave more than
     half of the items misplaced stop all further expansion.
     */
    method Install(nb: array<Bucket<K, V>>, ideal: nat, nonideal: nat, ghost nc: seq<seq<Node<K, V>>>)
      modifies `numBuckets, `log2NumBuckets, `buckets, `Chains, `idealChainMaxlen, `nonidealItems, `ineffExpands,
          `noexpand
      ensures numBuckets == 2 * old(numBuckets) && log2NumBuckets == old(log2NumBuckets) + 1
      ensures buckets == nb && Chains == nc && idealChainMaxlen == ideal && nonidealItems == nonideal
      ensures ineffExpands == (if 2 * nonidealItems > numItems then old(ineffExpands) + 1 else 0)
      ensures noexpand == (old(noexpand) || ineffExpands > 1)
    {
      idealChainMaxlen, nonidealItems := ideal, nonideal;
      numBuckets, log2NumBuckets, buckets, Chains := numBuckets * 2, log2NumBuckets + 1, nb, nc;
      ShiftIsDiv(numItems, 1);
      ineffExpands := if nonidealItems > Shr(numItems, 1) then ineffExpands + 1 else 0;
      if ineffExpands > 1 {
        noexpand := true;
      }
    }

    /** Lines 410-420: give `x` its place in the list, making the table first if there is none. */
    method Enlist(x: Node<K, V>)
      requires Valid() && x !in Items
      modifies this, NodeSet(Items)`next, x`next, x`prev
      ensures Items == old(Items) + [x] && NodeSet(Items) == old(NodeSet(Items)) + {x}
      ensures Listed(Items) && Distinct(Items) && head == Items[0] && tail == x
      ensures TableOk(old(NodeSet(Items))) && numItems == |old(Items)| == Excess(Chains, 0)
      ensures buckets == old(buckets) || fresh(buckets)
      ensures old(head == null || Bounded()) ==> Bounded()
      ensures old(head) == null ==>
        && numBuckets == 32 && ineffExpands == 0 && !noexpand
        && forall b :: 0 <= b < buckets.Length ==> buckets[b] == Bucket(null, 0, 0)
      ensures old(head) != null ==>
        && numBuckets == old(numBuckets) && buckets == old(buckets) && buckets[..] == old(buckets[..])
        && Chains == old(Chains) && ineffExpands == old(ineffExpands) && noexpand == old(noexpand)
    {
      hide TableOk, Excess, Pow2;
      if head == null {
        x.next, x.prev := null, null;
        assert Items == [] && NodeSet(Items) == {};
        MakeTable();
        head := x;
      } else {
        AppendList(tail, x, Items);
      }
      tail := x;
      Items := Items + [x];
      assert NodeSet(Items) == old(NodeSet(Items)) + {x};
    }

    /** The end of HASH_ADD_TO_BKT: double the buckets when bucket `b` is full and expansion is not given up. */
    method ExpandIfFull(b: nat, ghost nodes: set<Node<K, V>>)
      requires TableOk(nodes) && numItems == Excess(Chains, 0) > 0 && b < buckets.Length
      modifies `numBuckets, `log2NumBuckets, `buckets, `Chains, `idealChainMaxlen, `nonidealItems, `ineffExpands,
               `noexpand, nodes`hhNext, nodes`hhPrev
      ensures TableOk(nodes) && numItems == Excess(Chains, 0)
      ensures if old(buckets[b].count >= (buckets[b].expandMult + 1) * 10 && !noexpand) then
                && fresh(buckets) && numBuckets == 2 * old(numBuckets)
                && idealChainMaxlen == CeilDiv(numItems, numBuckets)
                && nonidealItems == Excess(Chains, idealChainMaxlen)
                && ineffExpands == (if 2 * nonidealItems > numItems then old(ineffExpands) + 1 else 0)
                && noexpand == (ineffExpands > 1) && (Bounded() || idealChainMaxlen >= 10)
              else
                && buckets == old(buckets) && numBuckets == old(numBuckets) && Chains == old(Chains)
                && ineffExpands == old(ineffExpands) && noexpand == old(noexpand)
    {
      if buckets[b].count >= (buckets[b].expandMult + 1) * BKT_CAPACITY_THRESH && !noexpand {
        ghost var hv := ExpandBuckets(nodes);
        ExpandedBounded();
      }
    }

    /**
     Line 407 and HASH_ADD_TO_TABLE: file `x` at the front of its bucket's chain, and double the buckets exactly
     if that makes the chain 10 times as long as the bucket's multiplier, plus one, allows.
     */
    method AddToTable(x: Node<K, V>, ghost nodes: set<Node<K, V>>) returns (b: nat)
      requires TableOk(nodes) && numItems == Excess(Chains, 0) && x !in nodes
      modifies `numBuckets, `log2NumBuckets, `numItems, `buckets, `Chains, `idealChainMaxlen, `nonidealItems,
               `ineffExpands, `noexpand, buckets, nodes`hhNext, nodes`hhPrev, x`hhNext, x`hhPrev, x`hashv
      ensures TableOk(nodes + {x}) && numItems == Excess(Chains, 0) == old(numItems) + 1
      ensures buckets == old(buckets) || fresh(buckets)
      ensures old(Bounded()) ==> Bounded() || (fresh(buckets) && idealChainMaxlen >= BKT_CAPACITY_THRESH)
      ensures old(numBuckets) > 0 && b == hash(x.key) % old(numBuckets) < |old(Chains)| == old(buckets.Length)
      ensures if old(buckets[b].count) + 1 >= (old(buckets[b].expandMult) + 1) * 10 && !old(noexpand) then
                && fresh(buckets) && numBuckets == 2 * old(numBuckets)
                && idealChainMaxlen == CeilDiv(numItems, numBuckets)
                && nonidealItems == Excess(Chains, idealChainMaxlen)
                && ineffExpands == (if 2 * nonidealItems > numItems then old(ineffExpands) + 1 else 0)
                && noexpand == (ineffExpands > 1)
              else
                && buckets == old(buckets) && numBuckets == old(numBuckets)
                && Chains == old(Chains)[b := [x] + old(Chains)[b]]
                && ineffExpands == old(ineffExpands) && noexpand == old(noexpand)
    {
      hide TableOk, Excess;
      x.hashv := hash(x.key);
      numItems := numItems + 1;
      b := AddToBkt(x, nodes);
      ExpandIfFull(b, nodes + {x});
    }

    lemma ExpandedBounded()
      requires numItems > 0 && numBuckets == buckets.Length > 0 && idealChainMaxlen == CeilDiv(numItems, numBuckets)
      requires forall b :: 0 <= b < numBuckets ==> buckets[b].expandMult == Mult(buckets[b].count, idealChainMaxlen)
      ensures Bounded() || idealChainMaxlen >= BKT_CAPACITY_THRESH
    {
      hide Mult;
      if idealChainMaxlen < BKT_CAPACITY_THRESH {
        CeilDivLeast(numItems, numBuckets);
        forall b | 0 <= b < buckets.Length ensures UnderLimit(buckets[b]) {
          MultBounds(buckets[b].count, idealChainMaxlen);
        }
      }
    }

    /**
     HASH_ADD_KEYPTR_BYHASHVALUE.  The key need not be new.  The bound on chain lengths is kept, unless the
     call expands the table and even spread over twice the buckets makes chains of 10 or more.
     */
    method Add(x: Node<K, V>) returns (ghost b: nat)
      requires Valid() && x !in Items
      modifies this, buckets, NodeSet(Items)`next, NodeSet(Items)`hhNext, NodeSet(Items)`hhPrev,
               x`next, x`prev, x`hhNext, x`hhPrev, x`hashv
      ensures Valid() && Items == old(Items) + [x]
      ensures buckets == old(buckets) || fresh(buckets)
      ensures old(head == null || Bounded()) ==>
        Bounded() || (fresh(buckets) && idealChainMaxlen >= BKT_CAPACITY_THRESH)
      ensures old(head) == null ==> numBuckets == 32
      ensures old(head) != null ==>
        && old(numBuckets) > 0 && b == hash(x.key) % old(numBuckets) < old(buckets.Length)
        && numBuckets == if old(buckets[b].count) + 1 >= (old(buckets[b].expandMult) + 1) * 10 && !old(noexpand)
                      then 2 * old(numBuckets) else old(numBuckets)
    {
      hide TableOk, Listed, Distinct, Excess;
      ghost var nodes := NodeSet(Items);
      Enlist(x);
      var bucket := AddToTable(x, nodes);
      b := bucket;
    }

    /** Lines 480-482 with HASH_DEL_IN_BKT. */
    method DelInBkt(x: Node<K, V>, ghost nodes: set<Node<K, V>>)
      requires TableOk(nodes) && x in nodes
      requires numItems == Excess(Chains, 0)
      modifies `Chains, `numItems, buckets, nodes`hhNext, nodes`hhPrev
      ensures TableOk(nodes - {x}) && numItems == Excess(Chains, 0) == old(numItems) - 1
      ensures old(Bounded()) ==> Bounded()
    {
      var b := ToBkt(x.hashv, numBuckets);
      ghost var q := WhereIs(x, nodes, b);
      ghost var chains := Chains;
      var first := UnchainFrom(buckets[b].hhHead, x, chains, b, q, nodes);
      buckets[b] := Bucket(first, buckets[b].count - 1, buckets[b].expandMult);
      Chains := chains[b := Without(chains[b], q)];
      ExcessUpdate(chains, b, Without(chains[b], q), 0);
      numItems := numItems - 1;
    }

    lemma WhereIs(x: Node<K, V>, nodes: set<Node<K, V>>, b: nat) returns (q: nat)
      requires TableOk(nodes) && x in nodes && b == ToBkt(x.hashv, numBuckets)
      ensures b < |Chains| && q < |Chains[b]| && Chains[b][q] == x
    {
      assert InChain(x, Chains);
      var b' :| 0 <= b' < |Chains| && x in Chains[b'];
      assert ChainOk(Chains[b'], b', |Chains|);
      q :| 0 <= q < |Chains[b']| && Chains[b'][q] == x;
    }

    /** Lines 469-479: take `x` out of the list. */
    method Delist(x: Node<K, V>, ghost i: nat)
      requires Valid() && i < |Items| && Items[i] == x && |Items| > 1
      modifies `head, `tail, `Items, NodeSet(Items)`next, NodeSet(Items)`prev
      ensures Items == Without(old(Items), i) && NodeSet(Items) == old(NodeSet(Items)) - {x}
      ensures Listed(Items) && Distinct(Items) && head == Items[0] && tail == Items[|Items| - 1]
    {
      ghost var items := Items;
      WithoutDistinct(items, i);
      Items := Without(items, i);
      head, tail := Unlist(head, tail, x, items, i);
    }

    /** HASH_DELETE_HH. */
    method Delete(x: Node<K, V>) returns (ghost i: nat)
      requires Valid() && x in Items
      modifies this, buckets, NodeSet(Items)`next, NodeSet(Items)`prev, NodeSet(Items)`hhNext, NodeSet(Items)`hhPrev
      ensures i < |old(Items)| && old(Items)[i] == x
      ensures Valid() && Items == Without(old(Items), i) && buckets == old(buckets)
      ensures old(Bounded()) ==> head == null || Bounded()
    {
      hide TableOk, Excess;
      i :| 0 <= i < |Items| && Items[i] == x;
      if x.prev == null && x.next == null {
        head := null;
        Items := [];
      } else {
        ghost var nodes := NodeSet(Items);
        Delist(x, i);
        DelInBkt(x, nodes);
      }
    }

    /** Lines 985-1060: sort a non-empty table's list. */
    method Resort(cmp: ((K, V), (K, V)) -> int, ghost le: (Node<K, V>, Node<K, V>) -> bool)
      requires Valid() && head != null && HashSort.Compares(le, cmp, NodeSet(Items))
      modifies `head, `tail, `Items, NodeSet(Items)`next, NodeSet(Items)`prev
      ensures Valid() && Items == MergeSort.Sort(le, old(Items), 1) && NodeSet(Items) == old(NodeSet(Items))
    {
      hide TableOk, Listed, Distinct, Excess, HashSort.Compares, MergeSort.Sort;
      ghost var items, nodes := Items, NodeSet(Items);
      var list, t;
      ghost var out;
      list, t, out := HashSort.SortList(cmp, head, le, items, nodes);
      head, tail, Items := list, t, out;
      SortNodes(le, items);
    }

    static lemma SortNodes(le: (Node<K, V>, Node<K, V>) -> bool, s: seq<Node<K, V>>)
      ensures NodeSet(MergeSort.Sort(le, s, 1)) == NodeSet(s)
    {
      MergeSort.SortElements(le, s, 1);
      MergeSort.SameElements(MergeSort.Sort(le, s, 1), s);
    }

    /** The test `cmpfcn(x, y) <= 0` on elements with these keys and values. */
    static ghost function Order(cmp: ((K, V), (K, V)) -> int, entry: map<Node<K, V>, (K, V)>):
        (Node<K, V>, Node<K, V>) -> bool
    {
      (x, y) => x in entry && y in entry && cmp(entry[x], entry[y]) <= 0
    }

    /** HASH_SRT: for a total preorder, a stable sort of the list; the chains are not touched. */
    method Sort(cmp: ((K, V), (K, V)) -> int) returns (ghost le: (Node<K, V>, Node<K, V>) -> bool)
      requires Valid()
      modifies `head, `tail, `Items, NodeSet(Items)`next, NodeSet(Items)`prev
      ensures Valid() && multiset(Items) == old(multiset(Items))
      ensures forall x, y :: x in old(Items) && y in old(Items) ==>
        (le(x, y) <==> cmp((x.key, x.value), (y.key, y.value)) <= 0)
      ensures MergeSort.TotalPreorder(le, old(Items)) ==>
                && (forall i, j :: 0 <= i < j < |Items| ==> le(Items[i], Items[j]))
                && forall x :: x in old(Items) ==> MergeSort.Ties(le, x, Items) == MergeSort.Ties(le, x, old(Items))
    {
      hide Listed, TableOk, Distinct, Excess, MergeSort.Sort, MergeSort.TotalPreorder, MergeSort.Ties;
      ghost var entry := map x | x in NodeSet(Items) :: (x.key, x.value);
      le := Order(cmp, entry);
      if head != null {
        Resort(cmp, le);
        SortFacts(le, old(Items));
      }
    }

    static lemma SortFacts(le: (Node<K, V>, Node<K, V>) -> bool, s: seq<Node<K, V>>)
      ensures multiset(MergeSort.Sort(le, s, 1)) == multiset(s)
      ensures MergeSort.TotalPreorder(le, s) ==>
                && MergeSort.Sorted(le, MergeSort.Sort(le, s, 1))
                && forall x :: x in s ==> MergeSort.Ties(le, x, MergeSort.Sort(le, s, 1)) == MergeSort.Ties(le, x, s)
    {
      MergeSort.SortElements(le, s, 1);
      if MergeSort.TotalPreorder(le, s) {
        MergeSort.SortIsStableSort(le, s);
      }
    }

    /** HASH_FSCK, the table's own debug check: it finds nothing to complain about. */
    method Fsck() returns (ok: bool)
      requires Valid()
      ensures ok
    {
      ok := true;
      if head != null {
        var count := 0;
        ghost var done: seq<seq<Node<K, V>>> := [];
        for i := 0 to numBuckets
          invariant ok && done == Chains[..i] && count == Excess(done, 0)
        {
          var good, n := FsckChain(i);
          ok, count := ok && good && buckets[i].count == n, count + n;
          ExcessConcat(done, [Chains[i]], 0);
          assert Chains[..i + 1] == done + [Chains[i]];
          done := done + [Chains[i]];
        }
        assert done == Chains;
        if count != numItems {
          ok := false;
        }
        var good, n := FsckList();
        if !good || n != numItems {
          ok := false;
        }
      }
    }

    /** Lines 531-542: walk one chain, comparing back pointers and counting. */
    method FsckChain(i: nat) returns (good: bool, n: nat)
      requires Valid() && head != null && i < numBuckets
      ensures good && n == |Chains[i]|
    {
      ghost var c := Chains[i];
      assert ChainOk(c, i, |Chains|);
      good, n := true, 0;
      var thh, prev: Node?<K, V> := buckets[i].hhHead, null;
      while thh != null
        invariant good && n <= |c| && thh == At(c, n) && prev == At(c, n - 1)
        decreases |c| - n
      {
        if prev != thh.hhPrev {
          good := false;
        }
        n, prev, thh := n + 1, thh, thh.hhNext;
      }
    }

    /** Lines 553-564: the same for the application-order list. */
    method FsckList() returns (good: bool, n: nat)
      requires Valid() && head != null
      ensures good && n == |Items|
    {
      good, n := true, 0;
      var thh, prev: Node?<K, V> := head, null;
      while thh != null
        invariant good && n <= |Items| && thh == At(Items, n) && prev == At(Items, n - 1)
        decreases |Items| - n
      {
        if prev != thh.prev {
          good := false;
        }
        n, prev, thh := n + 1, thh, thh.next;
      }
    }
  }
}