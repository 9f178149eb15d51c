/**
 The arena of domain_lookup.c: a fixed array of cache entries and a stack of pointers to the free ones.
 */
module DomainArena {
  import opened HashNode
  import opened DomainSpec

  datatype Info = Info(application: int, category: int, expire: int)

  /** `domain_info_t`: the handle, the domain as its key, and the rest. */
  type Slot = Node<string, Info>

  class Arena {
    /** `_domain_info_arena`. */
    const slots: seq<Slot>
    const ptr: array<Slot>
    var index: int

    /** The stack of free slots. */
    ghost function Free(): seq<Slot>
      reads `index, ptr
    {
      if 0 <= index <= ptr.Length then ptr[index..] else []
    }

    /** Every slot is either one of `live` or on the stack, once; `index` counts the live ones. */
    ghost predicate Ok(live: set<Slot>)
      reads `index, ptr
    {
      && ptr.Length == |slots| == ARENA_SIZE && 0 <= index <= ARENA_SIZE && index == |live|
      && Distinct(Free()) && (forall x :: x in Free() ==> x in slots && x !in live)
      && (forall x :: x in live ==> x in slots)
      && (forall x :: x in slots ==> x in live || x in Free())
    }

    /** The static array of slots. */
    static method MakeSlots(n: nat) returns (s: seq<Slot>)
      ensures |s| == n && Distinct(s) && forall x :: x in s ==> fresh(x)
    {
      s := [];
      for i := 0 to n
        invariant |s| == i && Distinct(s) && forall x :: x in s ==> fresh(x)
      {
        var x := new Node("", Info(0, 0, 0));
        s := s + [x];
      }
    }

    /** domain_info_arena_init. */
    constructor ()
      ensures Ok({}) && fresh(ptr) && forall x :: x in slots ==> fresh(x)
    {
      var s := MakeSlots(ARENA_SIZE);
      slots := s;
      ptr := new Slot[ARENA_SIZE](i requires 0 <= i < |s| => s[i]);
      index := 0;
      new;
      assert ptr[..] == slots;
    }

    /** domain_info_allocate: a slot that is not live, unless all are. */
    method Allocate(ghost live: set<Slot>) returns (x: Node?<string, Info>)
      requires Ok(live)
      modifies `index
      ensures x == null <==> |live| >= ARENA_SIZE
      ensures x == null ==> Ok(live)
      ensures x != null ==> Ok(live + {x}) && x !in live && x in slots
    {
      assert index >= 0;
      if index >= ARENA_SIZE {
        return null;
      }
      x := ptr[index];
      index := index + 1;
      assert old(Free()) == [x] + Free();
    }

    /** domain_info_deallocate: the slot given back was live, and both assertions hold. */
    method Deallocate(x: Slot, ghost live: set<Slot>)
      requires Ok(live) && x in live
      modifies `index, ptr
      ensures Ok(live - {x})
    {
      assert live == live - {x} + {x};
      assert index > 0;
      index := index - 1;
      ptr[index] := x;
      assert Free() == [x] + old(Free());
    }
  }
}
