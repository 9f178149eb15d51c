/**
 The handle `UT_hash_handle` of uthash.h together with the element it is embedded in, and the two
 doubly linked structures threaded through it: the application-order list (`prev`, `next`) and the
 chain of one bucket (`hhPrev`, `hhNext`).
 */
module HashNode {

  class Node<K(==), V> {
    var prev: Node?<K, V>
    var next: Node?<K, V>
    var hhPrev: Node?<K, V>
    var hhNext: Node?<K, V>
    var key: K
    var hashv: nat
    var value: V

    constructor (key: K, value: V)
      ensures this.key == key && this.value == value
    {
      this.prev, this.next, this.hhPrev, this.hhNext := null, null, null, null;
      this.key, this.hashv, this.value := key, 0, value;
    }
  }

  ghost predicate Distinct<T>(s: seq<T>) {
    forall i, j :: 0 <= i < j < |s| ==> s[i] != s[j]
  }

  function At<K, V>(s: seq<Node<K, V>>, i: int): Node?<K, V> {
    if 0 <= i < |s| then s[i] else null
  }

  /** `s` is a complete application-order list. */
  ghost predicate Listed<K, V>(s: seq<Node<K, V>>)
    reads s`next, s`prev
  {
    && (forall i {:trigger s[i].next} :: 0 <= i < |s| ==> s[i].next == At(s, i + 1))
    && (forall i {:trigger s[i].prev} :: 0 <= i < |s| ==> s[i].prev == At(s, i - 1))
  }

  /** `s` is a complete bucket chain. */
  ghost predicate Chained<K, V>(s: seq<Node<K, V>>)
    reads s`hhNext, s`hhPrev
  {
    && (forall i {:trigger s[i].hhNext} :: 0 <= i < |s| ==> s[i].hhNext == At(s, i + 1))
    && (forall i {:trigger s[i].hhPrev} :: 0 <= i < |s| ==> s[i].hhPrev == At(s, i - 1))
  }
}
