/**
 domain_lookup.c on the real structures: the arena, the hash table, the collector inside insert.  Every
 operation is proved to do what `DomainSpec` says, and the arena and the table to agree at every step.
 */
module DomainCache {
  import opened Bytes
  import opened HashNode
  import opened HashChain
  import opened DomainSpec
  import opened Kept
  import opened DomainArena
  import HashTable
  import Suffix

  function EntryOf(key: string, info: Info): Entry {
    Entry(key, info.application, info.category, info.expire)
  }

  /** `entries` is what the nodes hold. */
  ghost predicate Bound(items: seq<Slot>, entries: seq<Entry>)
    reads items`key, items`value
  {
    |items| == |entries| && forall i :: 0 <= i < |items| ==> EntryOf(items[i].key, items[i].value) == entries[i]
  }

  lemma LiveWithout(items: seq<Slot>, i: nat, extra: set<Slot>)
    requires i < |items| && Distinct(items) && NodeSet(items) !! extra
    ensures NodeSet(Without(items, i)) + extra == NodeSet(items) + extra - {items[i]}
    ensures NodeSet(Without(items, i)) == NodeSet(items) - {items[i]}
  {
    WithoutDistinct(items, i);
  }

  lemma BoundWithout(items: seq<Slot>, entries: seq<Entry>, i: nat)
    requires Bound(items, entries) && i < |items|
    ensures |items| == |entries| && Bound(Without(items, i), Without(entries, i))
  {
  }

  class Cache {
    const arena: Arena
    const table: HashTable.Table<string, Info>
    var lastGc: int
    /** The cached entries in application order. */
    ghost var Entries: seq<Entry>

    /** The live slots are those in the table and, while a call is at work, those in `extra`. */
    ghost predicate ValidWith(extra: set<Slot>)
      reads this, arena, arena.ptr, table, table.buckets, table.Items
    {
      && table.Valid() && Bound(table.Items, Entries)
      && arena.Ok(NodeSet(table.Items) + extra) && NodeSet(table.Items) !! extra
    }

    ghost predicate Valid()
      reads this, arena, arena.ptr, table, table.buckets, table.Items
    {
      ValidWith({})
    }

    ghost function Abs(): State
      reads this
    {
      State(Entries, lastGc)
    }

    /** Static initialisation. */
    constructor (hash: string -> nat)
      ensures Valid() && Abs() == EMPTY
    {
      arena := new Arena();
      table := new HashTable.Table(hash);
      lastGc, Entries := 0, [];
      new;
      assert NodeSet(table.Items) + {} == {};
    }

    lemma AllDistinct()
      requires table.Valid()
      ensures Distinct(table.Items)
    {
    }

    /** domain_info_cache_delete of the entry at position `p`. */
    method Unfile(x: Slot, ghost p: nat, ghost extra: set<Slot>)
      requires ValidWith(extra) && p < |table.Items| && table.Items[p] == x
      modifies `Entries, table, table.buckets, NodeSet(table.Items)`next,
               NodeSet(table.Items)`prev, NodeSet(table.Items)`hhNext, NodeSet(table.Items)`hhPrev
      ensures ValidWith(extra + {x}) && x !in extra && table.buckets == old(table.buckets)
      ensures table.Items == Without(old(table.Items), p) && NodeSet(table.Items) <= old(NodeSet(table.Items))
      ensures p < |old(Entries)| && Entries == Without(old(Entries), p)
    {
      hide HashTable.Table.Valid, Arena.Ok, Bound;
      ghost var items, entries := table.Items, Entries;
      AllDistinct();
      ghost var i := table.Delete(x);
      LiveWithout(items, p, extra);
      BoundWithout(items, entries, p);
      assert NodeSet(table.Items) + (extra + {x}) == NodeSet(items) + extra;
      Entries := Without(entries, p);
    }

    lemma ArenaElsewhere(items: seq<Slot>)
      ensures (arena.ptr as object) != table.buckets && (arena as object) != table && (arena as object) != this
      ensures forall y :: y in items ==> (arena.ptr as object) != y && (arena as object) != y
    {
    }

    /** domain_info_free. */
    method Release(x: Slot, ghost extra: set<Slot>)
      requires ValidWith(extra + {x}) && x !in extra
      modifies arena`index, arena.ptr
      ensures ValidWith(extra)
    {
      hide HashTable.Table.Valid, Arena.Ok, Bound, NodeSet;
      ArenaElsewhere(table.Items);
      ghost var nodes := NodeSet(table.Items);
      assert nodes + (extra + {x}) - {x} == nodes + extra;
      arena.Deallocate(x, nodes + (extra + {x}));
    }

    /** domain_info_cache_delete and domain_info_free. */
    method Evict(x: Slot, ghost p: nat, ghost extra: set<Slot>)
      requires ValidWith(extra) && p < |table.Items| && table.Items[p] == x
      modifies `Entries, arena`index, arena.ptr, table, table.buckets, NodeSet(table.Items)`next,
               NodeSet(table.Items)`prev, NodeSet(table.Items)`hhNext, NodeSet(table.Items)`hhPrev
      ensures ValidWith(extra) && table.buckets == old(table.buckets)
      ensures table.Items == Without(old(table.Items), p) && NodeSet(table.Items) <= old(NodeSet(table.Items))
      ensures p < |old(Entries)| && Entries == Without(old(Entries), p)
    {
      hide HashTable.Table.Valid, ValidWith, NodeSet;
      Unfile(x, p, extra);
      Release(x, extra);
    }

    // ----- The collector

    /** After `k` of the entries cached at the start have been visited, the ones kept so far come first. */
    ghost predicate Swept(items: seq<Slot>, entries: seq<Entry>, k: nat, kept: seq<Slot>, keptEntries: seq<Entry>)
      reads this, table
    {
      && k <= |items| == |entries| && |kept| == |keptEntries|
      && table.Items == kept + items[k..] && Entries == keptEntries + entries[k..]
    }

    /** The initialisation of HASH_ITER. */
    method First(ghost extra: set<Slot>) returns (d: Node?<string, Info>, tmp: Node?<string, Info>)
      requires ValidWith(extra)
      ensures ValidWith(extra) && |table.Items| == |Entries| && d == At(table.Items, 0) && tmp == At(table.Items, 1)
    {
      hide HashTable.Table.Valid;
      table.ListWalk(0);
      d := table.head;
      tmp := if d == null then null else d.next;
    }

    /** The increment of HASH_ITER: `tmp` was read before the body ran and is still in the list. */
    method Advance(tmp0: Node?<string, Info>, ghost items: seq<Slot>, ghost entries: seq<Entry>, ghost k: nat,
                   ghost kept: seq<Slot>, ghost keptEntries: seq<Entry>, ghost extra: set<Slot>)
        returns (d: Node?<string, Info>, tmp: Node?<string, Info>)
      requires ValidWith(extra) && Swept(items, entries, k, kept, keptEntries) && tmp0 == At(items, k)
      ensures ValidWith(extra) && d == At(items, k) && tmp == At(items, k + 1)
    {
      hide HashTable.Table.Valid, Bound, Arena.Ok;
      d, tmp := tmp0, null;
      if d != null {
        table.ListWalk(|kept|);
        tmp := d.next;
      }
    }

    lemma HoldsEntry(p: nat, extra: set<Slot>)
      requires ValidWith(extra) && p < |table.Items|
      ensures |Entries| == |table.Items| && Entries[p].expire == table.Items[p].value.expire
    {
    }

    /** The body of the loop at lines 242-248. */
    method SweepOne(d: Slot, now: int, rand: nat, ghost items: seq<Slot>, ghost entries: seq<Entry>, ghost k: nat,
                    ghost kept0: seq<Slot>, ghost keptEntries0: seq<Entry>, ghost extra: set<Slot>)
        returns (ghost kept: seq<Slot>, ghost keptEntries: seq<Entry>)
      requires ValidWith(extra) && Swept(items, entries, k, kept0, keptEntries0) && k < |items| && d == items[k]
      modifies `Entries, arena`index, arena.ptr, table, table.buckets, NodeSet(table.Items)`next,
               NodeSet(table.Items)`prev, NodeSet(table.Items)`hhNext, NodeSet(table.Items)`hhPrev
      ensures ValidWith(extra) && table.buckets == old(table.buckets)
          && NodeSet(table.Items) <= old(NodeSet(table.Items))
      ensures Swept(items, entries, k + 1, kept, keptEntries)
      ensures keptEntries == keptEntries0 + (if Doomed(entries[k], now, rand) then [] else [entries[k]])
    {
      hide HashTable.Table.Valid, ValidWith, NodeSet;
      kept, keptEntries := kept0, keptEntries0;
      HoldsEntry(|kept|, extra);
      assert table.Items[|kept|] == d && Entries[|kept|] == entries[k];
      if d.value.expire < now || rand == 0 {
        Evict(d, |kept|, extra);
        WithoutMiddle(kept, items, k);
        WithoutMiddle(keptEntries, entries, k);
      } else {
        kept, keptEntries := kept + [items[k]], keptEntries + [entries[k]];
      }
    }

    /**
     Lines 242-248, deleting while iterating: each entry cached at the start is visited once, exactly the
     expired and the unlucky ones are removed, the others stay in order.
     */
    method Sweep(now: int, roll: nat -> nat, ghost extra: set<Slot>)
      requires ValidWith(extra)
      modifies `Entries, arena`index, arena.ptr, table, table.buckets, NodeSet(table.Items)`next,
               NodeSet(table.Items)`prev, NodeSet(table.Items)`hhNext, NodeSet(table.Items)`hhPrev
      ensures ValidWith(extra) && table.buckets == old(table.buckets)
          && NodeSet(table.Items) <= old(NodeSet(table.Items))
      ensures Entries == Survivors(old(Entries), now, roll, 0)
    {
      hide HashTable.Table.Valid, ValidWith, Survivors, Doomed, NodeSet;
      ghost var items, entries := table.Items, Entries;
      ghost var kept: seq<Slot>, keptEntries: seq<Entry> := [], [];
      var k := 0;
      var d, tmp := First(extra);
      while d != null
        invariant 0 <= k && Swept(items, entries, k, kept, keptEntries) && d == At(items, k) && tmp == At(items, k + 1)
        invariant ValidWith(extra) && table.buckets == old(table.buckets)
            && NodeSet(table.Items) <= old(NodeSet(table.Items))
        invariant Survivors(entries, now, roll, 0) == keptEntries + Survivors(entries[k..], now, roll, k)
        decreases |items| - k
      {
        SurvivorsNext(entries, k, now, roll, keptEntries);
        kept, keptEntries := SweepOne(d, now, roll(k), items, entries, k, kept, keptEntries, extra);
        k := k + 1;
        d, tmp := Advance(tmp, items, entries, k, kept, keptEntries, extra);
      }
      SurvivorsLast(now, roll, k);
    }

    // ----- Storing an entry

    /** The allocation in domain_info_create. */
    method Take() returns (x: Node?<string, Info>)
      requires Valid()
      modifies arena`index
      ensures x == null <==> |Entries| >= ARENA_SIZE
      ensures x == null ==> Valid()
      ensures x != null ==> ValidWith({x}) && x in arena.slots
    {
      hide HashTable.Table.Valid, Arena.Ok;
      AllDistinct();
      CountNodes(table.Items);
      assert NodeSet(table.Items) + {} == NodeSet(table.Items);
      x := arena.Allocate(NodeSet(table.Items));
    }

    /** memset and the assignments of domain_info_create. */
    method Fill(x: Slot, domain: string, info: Info)
      requires ValidWith({x})
      modifies x
      ensures ValidWith({x}) && EntryOf(x.key, x.value) == EntryOf(domain, info)
    {
      hide HashTable.Table.Valid, Arena.Ok;
      ArenaElsewhere([x]);
      assert x !in NodeSet(table.Items);
      x.prev, x.next, x.hhPrev, x.hhNext, x.hashv := null, null, null, null, 0;
      x.key := domain;
      x.value := info;
    }

    /** HASH_ADD_STR. */
    method File(x: Slot)
      requires ValidWith({x})
      modifies `Entries, table, table.buckets, NodeSet(table.Items)`next, NodeSet(table.Items)`hhNext,
               NodeSet(table.Items)`hhPrev, x`next, x`prev, x`hhNext, x`hhPrev, x`hashv
      ensures Valid() && Entries == old(Entries) + [old(EntryOf(x.key, x.value))]
      ensures table.buckets == old(table.buckets) || fresh(table.buckets)
    {
      hide HashTable.Table.Valid, Arena.Ok;
      assert x !in NodeSet(table.Items);
      ghost var items := table.Items;
      ghost var b := table.Add(x);
      assert NodeSet(table.Items) + {} == NodeSet(items) + {x};
      Entries := Entries + [EntryOf(x.key, x.value)];
    }

    /** domain_info_cache_insert: the collection runs while the new entry is allocated but not yet filed. */
    method Insert(x: Slot, now: int, roll: nat -> nat)
      requires ValidWith({x})
      modifies this, arena`index, arena.ptr, table, table.buckets, NodeSet(table.Items)`next, NodeSet(table.Items)`prev,
               NodeSet(table.Items)`hhNext, NodeSet(table.Items)`hhPrev, x`next, x`prev, x`hhNext, x`hhPrev, x`hashv
      ensures Valid() && (table.buckets == old(table.buckets) || fresh(table.buckets))
      ensures var t := Collect(old(Abs()), now, roll);
        Abs() == t.(entries := t.entries + [old(EntryOf(x.key, x.value))])
    {
      hide HashTable.Table.Valid, ValidWith, Valid, Survivors, NodeSet;
      if lastGc < now - GC_INTERVAL {
        Sweep(now, roll, {x});
        SetLastGc(now, {x});
      }
      File(x);
    }

    method SetLastGc(now: int, ghost extra: set<Slot>)
      requires ValidWith(extra)
      modifies `lastGc
      ensures ValidWith(extra) && lastGc == now
    {
      hide HashTable.Table.Valid, Bound, Arena.Ok;
      lastGc := now;
    }

    lemma LiveInArena(extra: set<Slot>)
      requires ValidWith(extra)
      ensures forall y :: y in NodeSet(table.Items) ==> y in arena.slots
    {
      hide HashTable.Table.Valid;
    }

    /** domain_info_create and domain_info_cache_insert. */
    method StoreEntry(domain: string, info: Info, now: int, roll: nat -> nat)
      requires Valid()
      modifies this, arena`index, arena.ptr, table, table.buckets, arena.slots
      ensures table.buckets == old(table.buckets) || fresh(table.buckets)
      ensures Valid() && Abs() == Store(old(Abs()), EntryOf(domain, info), now, roll)
    {
      hide HashTable.Table.Valid, ValidWith, Valid, Collect, NodeSet;
      var x := Take();
      if x == null {
        return;
      }
      Fill(x, domain, info);
      LiveInArena({x});
      Insert(x, now, roll);
    }

    // ----- domain_lookup

    /** HASH_FIND_STR in terms of the entries. */
    method FindEntry(key: string) returns (x: Node?<string, Info>, ghost i: nat)
      requires Valid()
      ensures x == null ==> forall j :: 0 <= j < |Entries| ==> Entries[j].domain != key
      ensures x != null ==> && i < |table.Items| == |Entries| && table.Items[i] == x
                            && Entries[i] == EntryOf(x.key, x.value) && Entries[i].domain == key
    {
      hide HashTable.Table.Valid, Arena.Ok;
      x := table.Find(key);
      i := 0;
      if x != null {
        i :| 0 <= i < |table.Items| && table.Items[i] == x;
      } else {
        forall j | 0 <= j < |Entries| ensures Entries[j].domain != key {
          assert table.Items[j] in table.Items;
        }
      }
    }

    /** domain_info_cache_lookup. */
    method Lookup(domain: string) returns (x: Node?<string, Info>, ghost pick: Option<nat>)
      requires Valid()
      ensures PickOk(Abs(), domain, pick) && (x == null <==> pick == None)
      ensures x != null ==> && pick.value < |table.Items| == |Entries| && table.Items[pick.value] == x
                            && Entries[pick.value] == EntryOf(x.key, x.value)
    {
      hide Valid, Suffix.DotFrom, Suffix.TailsFrom;
      var ptr := 0;
      ghost var n, all := 0, Suffix.Candidates(domain);
      while true
        invariant 0 <= ptr <= |domain| && 0 <= n < |all| && all[n..] == Suffix.TailsFrom(domain, ptr)
        invariant NoneBefore(Abs(), domain, n)
        decreases |domain| - ptr
      {
        assert all[n] == all[n..][0] == domain[ptr..];
        ghost var i;
        x, i := FindEntry(domain[ptr..]);
        if x != null {
          pick := Some(i);
          return;
        }
        var dot := Suffix.DotFrom(domain, ptr);
        Suffix.TailsStep(domain, ptr);
        if dot == |domain| {
          pick := None;
          return;
        }
        assert all[n + 1..] == all[n..][1..];
        ptr, n := dot + 1, n + 1;
      }
    }

    /** Lines 348-372: cache the answer under each of the domains the server named. */
    method StoreNamed(q: Request, ds: seq<Option<string>>, answer: Response, ttl: int)
      requires Valid() && answer == Answer(q.reply) && ttl == Ttl(q.reply)
      modifies this, arena`index, arena.ptr, table, table.buckets, arena.slots
      ensures Valid() && Abs() == StoreAll(old(Abs()), Named(ds), q, 0)
    {
      hide HashTable.Table.Valid, Valid, StoreAll, Store, Named, Answer, Ttl;
      var k := 0;
      for i := 0 to |ds|
        invariant Valid() && 0 <= k && (table.buckets == old(table.buckets) || fresh(table.buckets))
        invariant StoreAll(old(Abs()), Named(ds), q, 0) == StoreAll(Abs(), Named(ds[i..]), q, k)
      {
        NamedNext(ds, i);
        if ds[i].Some? {
          StoreAllNext(Abs(), ds[i].value, Named(ds[i + 1..]), q, k);
          StoreEntry(ds[i].value, Info(answer.application, answer.category, q.now + ttl), q.clock(k), q.roll(k));
          k := k + 1;
        }
      }
      StoreAllLast(Abs(), q, k);
      assert ds[|ds|..] == [];
    }

    /** Lines 323-386: what is done with the server's answer. */
    method StoreReply(q: Request)
      requires Valid()
      modifies this, arena`index, arena.ptr, table, table.buckets, arena.slots
      ensures Valid() && Abs() == StoreAll(old(Abs()), Domains(q.domain, q.reply), q, 0)
    {
      hide HashTable.Table.Valid, Valid, StoreAll, Store, Named;
      StoreAllNext(Abs(), q.domain, [], q, 0);
      StoreAllLast(Store(Abs(), EntryFor(q.domain, q.now, q.reply), q.clock(0), q.roll(0)), q, 1);
      assert [q.domain] + [] == [q.domain];
      if q.reply.Failure? {
        StoreEntry(q.domain, Info(0, 0, q.now + DEFAULT_TTL), q.clock(0), q.roll(0));
        return;
      }
      var category, application, ttl := 0, 0, 0;
      if q.reply.category.Some? {
        category := q.reply.category.value;
      }
      if q.reply.category.Some? {
        application := GetOr(q.reply.application, 0);
      }
      if q.reply.ttl.Some? {
        ttl := q.reply.ttl.value;
        if ttl == 0 {
          ttl := DEFAULT_TTL;
        }
      }
      if q.reply.cacheDomains.Some? {
        StoreNamed(q, q.reply.cacheDomains.value, Response(category, application), ttl);
      } else {
        StoreEntry(q.domain, Info(application, category, q.now + ttl), q.clock(0), q.roll(0));
      }
    }

    /** domain_lookup, for a response that the caller has zeroed. */
    method DomainLookup(q: Request) returns (response: Response, ghost pick: Option<nat>)
      requires Valid()
      modifies this, arena`index, arena.ptr, table, table.buckets, arena.slots
      ensures Valid() && PickOk(old(Abs()), q.domain, pick)
      ensures Abs() == Step(old(Abs()), q, pick) && response == Respond(old(Abs()), q, pick)
    {
      hide HashTable.Table.Valid, ValidWith, StoreAll, PickOk, Domains, NodeSet;
      response := UNANSWERED;
      var x;
      x, pick := Lookup(q.domain);
      if x != null {
        if x.value.expire > q.now {
          response := Response(x.value.category, x.value.application);
          return;
        }
        LiveInArena({});
        Evict(x, pick.value, {});
      }
      StoreReply(q);
    }
  }

  lemma NamedNext(ds: seq<Option<string>>, i: nat)
    requires i < |ds|
    ensures Named(ds[i..]) == if ds[i].Some? then [ds[i].value] + Named(ds[i + 1..]) else Named(ds[i + 1..])
  {
    assert ds[i..][1..] == ds[i + 1..];
  }

  lemma StoreAllNext(s: State, domain: string, rest: seq<string>, q: Request, k: nat)
    ensures StoreAll(s, [domain] + rest, q, k)
         == StoreAll(Store(s, EntryFor(domain, q.now, q.reply), q.clock(k), q.roll(k)), rest, q, k + 1)
  {
    hide Store, EntryFor;
    assert ([domain] + rest)[1..] == rest;
  }

  lemma StoreAllLast(s: State, q: Request, k: nat)
    ensures StoreAll(s, [], q, k) == s && Named([]) == []
  {
  }

  lemma {:induction false} CountNodes(items: seq<Slot>)
    requires Distinct(items)
    ensures |NodeSet(items)| == |items|
  {
    if items != [] {
      var init, last := items[..|items| - 1], items[|items| - 1];
      CountNodes(init);
      assert last !in init;
      assert NodeSet(items) == NodeSet(init) + {last};
    }
  }

  lemma SurvivorsNext(entries: seq<Entry>, k: nat, now: int, roll: nat -> nat, kept: seq<Entry>)
    requires k < |entries|
    ensures kept + Survivors(entries[k..], now, roll, k)
         == (kept + if Doomed(entries[k], now, roll(k)) then [] else [entries[k]])
             + Survivors(entries[k + 1..], now, roll, k + 1)
  {
    assert entries[k..][1..] == entries[k + 1..];
  }

  lemma SurvivorsLast(now: int, roll: nat -> nat, k: nat)
    ensures Survivors([], now, roll, k) == []
  {
  }
}
