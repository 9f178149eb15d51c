/**
 tcpflow.c and the handler of tcp443.c on the real structures: flow records with fixed buffers, cached
 in the hash table.  Every operation is proved to do to the abstract state what `FlowSpec` says.
 */
module TcpFlow {
  import opened Bytes
  import opened HashNode
  import opened HashChain
  import opened FlowSpec
  import opened Kept
  import HashTable
  import ClientHello

  /** The value part of `tcpflow_t`; the key and the handle are in the node that holds it. */
  class Record {
    var timestamp: int
    var expected: nat
    var current: nat
    const payload: array<byte>
    const ids: array<Id>
    var index: nat

    ghost predicate Valid()
      reads this, payload, ids
    {
      && payload.Length == FLOW_PAYLOAD_SIZE && ids.Length == MAX_PACKET_COUNT
      && current <= FLOW_PAYLOAD_SIZE && index <= MAX_PACKET_COUNT
      && (forall k :: current <= k < FLOW_PAYLOAD_SIZE ==> payload[k] == 0)
      && (payload as object) != ids
    }

    ghost function View(key: Key): Flow
      reads this, payload, ids
      requires Valid()
    {
      Flow(key, timestamp, expected, payload[..current], ids[..index])
    }

    /** tcpflow_create: calloc zeroes every field but `expected`. */
    constructor (expected: nat)
      ensures Valid() && forall key :: View(key) == NewFlow(key, expected)
      ensures fresh(payload) && fresh(ids)
    {
      this.timestamp, this.expected, this.current, this.index := 0, expected, 0, 0;
      payload := new byte[FLOW_PAYLOAD_SIZE](_ => 0);
      ids := new Id[MAX_PACKET_COUNT](_ => 0);
    }

    /** tcpflow_value_append. */
    method AppendPacket(id: Id, data: seq<byte>, ghost key: Key) returns (ok: bool)
      requires Valid()
      modifies this, payload, ids
      ensures Valid() && ok == CanAppend(old(View(key)), data)
      ensures View(key) == if ok then Append(old(View(key)), id, data) else old(View(key))
    {
      if index >= MAX_PACKET_COUNT {
        return false;
      }
      var newCurrent := current + |data|;
      if newCurrent > FLOW_PAYLOAD_SIZE {
        return false;
      }
      Memcpy(payload, current, data);
      ghost var before := old(payload[..]);
      assert payload[..] == before[..current] + data + before[newCurrent..];
      assert payload[..newCurrent] == before[..current] + data;
      forall k | newCurrent <= k < FLOW_PAYLOAD_SIZE ensures payload[k] == 0 {
        assert payload[..][k] == before[k];
      }
      current := newCurrent;
      ids[index] := id;
      index := index + 1;
      assert ids[..index] == old(ids[..index]) + [id];
      ok := true;
    }
  }

  type FlowNode = Node<Key, Record>

  ghost predicate Apart(a: Record, b: Record) {
    && a != b && a.payload != b.payload && a.ids != b.ids
    && (a.payload as object) != b.ids && (b.payload as object) != a.ids
  }

  /** The records and their buffers. */
  ghost function Parts(records: seq<Record>): set<object> {
    (set r | r in records :: r as object) + (set r | r in records :: r.payload) + (set r | r in records :: r.ids)
  }

  lemma PartsHold(records: seq<Record>)
    ensures forall i :: 0 <= i < |records| ==>
      records[i] in Parts(records) && records[i].payload in Parts(records) && records[i].ids in Parts(records)
  {
    forall i | 0 <= i < |records|
      ensures records[i] in Parts(records) && records[i].payload in Parts(records) && records[i].ids in Parts(records)
    {
      assert records[i] in records;
    }
  }

  /** `flows` is what the records hold; no two records share a buffer and no two flows a key. */
  ghost predicate Shows(records: seq<Record>, flows: seq<Flow>)
    reads Parts(records)
  {
    PartsHold(records);
    && |records| == |flows|
    && (forall i :: 0 <= i < |records| ==> records[i].Valid() && records[i].View(flows[i].key) == flows[i])
    && (forall i, j :: 0 <= i < j < |records| ==> Apart(records[i], records[j]))
    && (forall i, j :: 0 <= i < j < |flows| ==> flows[i].key != flows[j].key)
  }

  /** The nodes of the table hold the records. */
  ghost predicate Bound(items: seq<FlowNode>, records: seq<Record>, flows: seq<Flow>)
    reads items`value, items`key
  {
    && |items| == |records| == |flows|
    && forall i :: 0 <= i < |items| ==> items[i].value == records[i] && items[i].key == flows[i].key
  }

  /** Records and buffers are no part of the table. */
  lemma PartsElsewhere(records: seq<Record>, cache: Cache, table: HashTable.Table<Key, Record>, items: seq<FlowNode>)
    ensures cache !in Parts(records) && table !in Parts(records) && table.buckets !in Parts(records)
    ensures forall x :: x in items ==> (x as object) !in Parts(records)
  {
  }

  lemma BoundWithout(items: seq<FlowNode>, records: seq<Record>, flows: seq<Flow>, i: nat)
    requires Bound(items, records, flows) && i < |items|
    ensures |items| == |records| == |flows| && items[i].value == records[i]
    ensures Bound(Without(items, i), Without(records, i), Without(flows, i))
  {
  }

  lemma BoundWith(items: seq<FlowNode>, records: seq<Record>, flows: seq<Flow>, x: FlowNode, f: Flow)
    requires Bound(items, records, flows) && x.key == f.key
    ensures Bound(items + [x], records + [x.value], flows + [f])
  {
  }

  lemma ShowsWith(records: seq<Record>, flows: seq<Flow>, r: Record, f: Flow)
    requires Shows(records, flows) && r.Valid() && r.View(f.key) == f && Find(flows, f.key) == None
    requires forall x :: x in records ==> Apart(x, r)
    ensures Shows(records + [r], flows + [f])
  {
    hide Record.Valid, Record.View, Find, Apart;
  }

  lemma ShowsWithout(records: seq<Record>, flows: seq<Flow>, i: nat)
    requires Shows(records, flows) && i < |records|
    ensures records[i].Valid() && records[i].View(flows[i].key) == flows[i]
    ensures Shows(Without(records, i), Without(flows, i))
  {
    hide Apart, Record.Valid, Record.View;
    var r := Without(records, i);
    forall j | 0 <= j < |r| ensures r[j] == records[if j < i then j else j + 1] {
    }
  }

  class Cache {
    const table: HashTable.Table<Key, Record>
    var lastGc: int
    var log: seq<(Id, Verdict)>
    /** The records in application order, and the flows they hold as values. */
    ghost var Records: seq<Record>
    ghost var Flows: seq<Flow>
    /** Packets whose append was refused. */
    ghost var Lost: seq<Id>

    ghost predicate Valid()
      reads this, table, table.buckets, table.Items, Parts(Records)
    {
      table.Valid() && Bound(table.Items, Records, Flows) && Shows(Records, Flows)
    }

    ghost function Abs(): State
      reads this
    {
      State(Flows, lastGc, log, Lost)
    }

    constructor (hash: Key -> nat)
      ensures Valid() && Abs() == INITIAL
    {
      table := new HashTable.Table(hash);
      lastGc, log, Records, Flows, Lost := 0, [], [], [], [];
    }

    /** tcpflow_setverdict. */
    method SetVerdict(r: Record, v: Verdict)
      requires r.Valid()
      modifies `log
      ensures log == old(log) + Answers(r.ids[..r.index], v)
    {
      for i := 0 to r.index
        invariant log == old(log) + Answers(r.ids[..i], v)
      {
        log := log + [(r.ids[i], v)];
        assert Answers(r.ids[..i + 1], v) == Answers(r.ids[..i], v) + [(r.ids[i], v)];
      }
    }

    /** tcpflow_delete. */
    method DeleteNode(x: FlowNode) returns (ghost i: nat)
      requires Valid() && x in table.Items
      modifies `Flows, `Records, table, table.buckets, NodeSet(table.Items)`next, NodeSet(table.Items)`prev,
               NodeSet(table.Items)`hhNext, NodeSet(table.Items)`hhPrev
      ensures i < |old(table.Items)| && old(table.Items)[i] == x && table.Items == Without(old(table.Items), i)
      ensures Valid() && table.buckets == old(table.buckets)
      ensures i < |old(Flows)| == |old(Records)| && Records == Without(old(Records), i)
          && Flows == Without(old(Flows), i)
      ensures x.value == old(Records)[i] && x.value.Valid() && x.value.View(old(Flows)[i].key) == old(Flows)[i]
    {
      hide HashTable.Table.Valid, Shows, Bound, Record.Valid, Record.View;
      ghost var items, records, flows := table.Items, Records, Flows;
      PartsElsewhere(records, this, table, items);
      i := table.Delete(x);
      BoundWithout(items, records, flows, i);
      ShowsWithout(records, flows, i);
      PartsElsewhere(Without(records, i), this, table, table.Items);
      Records, Flows := Without(records, i), Without(flows, i);
    }

    /** tcpflow_setverdict_and_free. */
    method SetVerdictAndFree(x: FlowNode, v: Verdict) returns (ghost i: nat)
      requires Valid() && x in table.Items
      modifies `log, `Flows, `Records, table, table.buckets, NodeSet(table.Items)`next, NodeSet(table.Items)`prev,
               NodeSet(table.Items)`hhNext, NodeSet(table.Items)`hhPrev
      ensures i < |old(table.Items)| && old(table.Items)[i] == x && table.Items == Without(old(table.Items), i)
      ensures Valid() && table.buckets == old(table.buckets)
      ensures i < |old(Flows)| == |old(Records)| && Records == Without(old(Records), i)
      ensures Abs() == Settle(old(Abs()), i, old(Flows)[i].ids, v)
    {
      hide HashTable.Table.Valid, Shows, Bound;
      i := DeleteNode(x);
      PartsElsewhere(Records, this, table, table.Items);
      SetVerdict(x.value, v);
    }

    /** tcpflow_rungc. */
    method RunGc(now: int)
      requires Valid()
      modifies this, table, table.buckets, NodeSet(table.Items)`next, NodeSet(table.Items)`prev,
               NodeSet(table.Items)`hhNext, NodeSet(table.Items)`hhPrev
      ensures Valid() && table.buckets == old(table.buckets)
      ensures Abs() == Gc(old(Abs()), now)
    {
      hide HashTable.Table.Valid, Shows, Bound, Parts, Fresh, GcAnswers;
      Sweep(now);
      PartsElsewhere(Records, this, table, table.Items);
      lastGc := now;
    }

    /**
     Lines 37-43, deleting while iterating: each flow cached at the start is visited once, exactly the
     stale ones are dropped, the others stay in order.
     */
    method Sweep(now: int)
      requires Valid()
      modifies `log, `Flows, `Records, table, table.buckets, NodeSet(table.Items)`next, NodeSet(table.Items)`prev,
               NodeSet(table.Items)`hhNext, NodeSet(table.Items)`hhPrev
      ensures Valid() && table.buckets == old(table.buckets)
      ensures Flows == Fresh(old(Flows), now) && log == old(log) + GcAnswers(old(Flows), now)
    {
      hide HashTable.Table.Valid, Valid, Fresh, GcAnswers, Answers, Stale, NodeSet;
      ghost var items, flows := table.Items, Flows;
      ghost var kept: seq<FlowNode>, keptFlows: seq<Flow>, sent: seq<(Id, Verdict)>, k: nat := [], [], [], 0;
      SameLength();
      var x, tmp := First();
      while x != null
        invariant Swept(items, flows, k, kept, keptFlows) && x == At(items, k) && tmp == At(items, k + 1)
        invariant Valid() && table.buckets == old(table.buckets) && NodeSet(table.Items) <= old(NodeSet(table.Items))
        invariant log == old(log) + sent
        invariant Fresh(flows, now) == keptFlows + Fresh(flows[k..], now)
        invariant GcAnswers(flows, now) == sent + GcAnswers(flows[k..], now)
        decreases |items| - k
      {
        GcNext(flows, k, now, keptFlows, sent);
        sent := sent + if Stale(flows[k], now) then Answers(flows[k].ids, Drop) else [];
        kept, keptFlows := SweepOne(x, now, items, flows, k, kept, keptFlows);
        k := k + 1;
        x, tmp := Advance(tmp, items, flows, k, kept, keptFlows);
      }
      GcLast(now);
    }

    /** After `k` of the flows cached at the start have been visited, the ones kept so far come first. */
    ghost predicate Swept(items: seq<FlowNode>, flows: seq<Flow>, k: nat, kept: seq<FlowNode>, keptFlows: seq<Flow>)
      reads this, table
    {
      && k <= |items| == |flows| && |kept| == |keptFlows|
      && table.Items == kept + items[k..] && Flows == keptFlows + flows[k..]
    }

    /** The initialisation of HASH_ITER. */
    method First() returns (x: Node?<Key, Record>, tmp: Node?<Key, Record>)
      requires Valid()
      ensures Valid() && x == At(table.Items, 0) && tmp == At(table.Items, 1)
    {
      table.ListWalk(0);
      x := table.head;
      tmp := if x == null then null else x.next;
    }

    /** The increment of HASH_ITER: `tmp` was read before the body ran and is still in the list. */
    method Advance(tmp0: Node?<Key, Record>, ghost items: seq<FlowNode>, ghost flows: seq<Flow>, ghost k: nat,
                   ghost kept: seq<FlowNode>, ghost keptFlows: seq<Flow>)
        returns (x: Node?<Key, Record>, tmp: Node?<Key, Record>)
      requires Valid() && Swept(items, flows, k, kept, keptFlows) && tmp0 == At(items, k)
      ensures Valid() && x == At(items, k) && tmp == At(items, k + 1)
    {
      hide HashTable.Table.Valid, Shows, Bound;
      x, tmp := tmp0, null;
      if x != null {
        table.ListWalk(|kept|);
        tmp := x.next;
      }
    }

    method SweepOne(x: FlowNode, now: int, ghost items: seq<FlowNode>, ghost flows: seq<Flow>, ghost k: nat,
                    ghost kept0: seq<FlowNode>, ghost keptFlows0: seq<Flow>)
        returns (ghost kept: seq<FlowNode>, ghost keptFlows: seq<Flow>)
      requires Valid() && Swept(items, flows, k, kept0, keptFlows0) && k < |items| && x == items[k]
      modifies `log, `Flows, `Records, table, table.buckets, NodeSet(table.Items)`next, NodeSet(table.Items)`prev,
               NodeSet(table.Items)`hhNext, NodeSet(table.Items)`hhPrev
      ensures Valid() && table.buckets == old(table.buckets) && NodeSet(table.Items) <= old(NodeSet(table.Items))
      ensures Swept(items, flows, k + 1, kept, keptFlows)
      ensures keptFlows == keptFlows0 + (if Stale(flows[k], now) then [] else [flows[k]])
      ensures log == old(log) + (if Stale(flows[k], now) then Answers(flows[k].ids, Drop) else [])
    {
      hide HashTable.Table.Valid, Valid, Answers, Stale;
      kept, keptFlows := kept0, keptFlows0;
      ghost var gone := CollectIf(x, now, |kept|);
      if gone {
        WithoutMiddle(kept, items, k);
        WithoutMiddle(keptFlows, flows, k);
      } else {
        kept, keptFlows := kept + [items[k]], keptFlows + [flows[k]];
      }
    }

    lemma Position(i: nat)
      requires Valid() && i < |table.Items|
      ensures forall j :: 0 <= j < |table.Items| && table.Items[j] == table.Items[i] ==> j == i
    {
      table.ListWalk(i);
    }

    lemma SameLength()
      requires Valid()
      ensures |table.Items| == |Flows|
    {
    }

    lemma RecordOf(i: nat)
      requires Valid() && i < |table.Items|
      ensures |Flows| == |table.Items| && table.Items[i].value.Valid()
          && table.Items[i].value.View(Flows[i].key) == Flows[i]
    {
    }

    /** The body of the loop at lines 38-42 for the node at position `p`. */
    method CollectIf(x: FlowNode, now: int, ghost p: nat) returns (ghost gone: bool)
      requires Valid() && p < |table.Items| == |Flows| && table.Items[p] == x
      modifies `log, `Flows, `Records, table, table.buckets, NodeSet(table.Items)`next, NodeSet(table.Items)`prev,
               NodeSet(table.Items)`hhNext, NodeSet(table.Items)`hhPrev
      ensures Valid() && table.buckets == old(table.buckets) && gone == Stale(old(Flows)[p], now)
      ensures gone ==> && table.Items == Without(old(table.Items), p) && Flows == Without(old(Flows), p)
                       && log == old(log) + Answers(old(Flows)[p].ids, Drop)
      ensures !gone ==> table.Items == old(table.Items) && Flows == old(Flows) && log == old(log)
    {
      hide HashTable.Table.Valid, Shows, Bound, Parts, Record.Valid;
      var expiredTime := now - 5;
      RecordOf(p);
      gone := false;
      if x.value.timestamp < expiredTime {
        table.ListWalk(p);
        ghost var i := SetVerdictAndFree(x, Drop);
        gone := true;
      }
    }

    /** tcpflow_lookup. */
    method Lookup(key: Key) returns (x: Node?<Key, Record>, ghost i: nat)
      requires Valid()
      ensures Valid()
      ensures x == null ==> Find(Flows, key) == None
      ensures x != null ==> Find(Flows, key) == Some(i) && i < |table.Items| == |Flows| && table.Items[i] == x
      ensures x != null ==>
        x.value in Parts(Records) && x.value.payload in Parts(Records) && x.value.ids in Parts(Records)
    {
      hide HashTable.Table.Valid, Record.Valid, Record.View, Apart;
      x := table.Find(key);
      i := 0;
      if x != null {
        i :| 0 <= i < |table.Items| && table.Items[i] == x;
        assert x.value == Records[i] && Records[i] in Records;
      }
      FindAgrees(key, x, i);
    }

    lemma FindAgrees(key: Key, x: Node?<Key, Record>, i: nat)
      requires Valid()
      requires x != null ==> i < |table.Items| && table.Items[i] == x && x.key == key
      requires x == null ==> forall y :: y in table.Items ==> y.key != key
      ensures Find(Flows, key) == if x == null then None else Some(i)
    {
      hide HashTable.Table.Valid, Find, Record.Valid, Record.View, Apart;
      if Find(Flows, key).Some? {
        var j := Find(Flows, key).value;
        assert table.Items[j].key == key && table.Items[j] in table.Items;
      }
    }

    /** tcpflow_value_append on a cached flow. */
    method AppendTo(x: FlowNode, id: Id, data: seq<byte>, ghost i: nat) returns (ok: bool)
      requires Valid() && i < |table.Items| == |Flows| && table.Items[i] == x
      modifies `Flows, x.value, x.value.payload, x.value.ids
      ensures Valid() && ok == CanAppend(old(Flows)[i], data)
      ensures Flows == if ok then old(Flows)[i := Append(old(Flows)[i], id, data)] else old(Flows)
    {
      hide HashTable.Table.Valid, Record.Valid, Record.View;
      PartsElsewhere(Records, this, table, table.Items);
      RecordOf(i);
      ghost var flows := Flows;
      ok := x.value.AppendPacket(id, data, flows[i].key);
      if ok {
        Flows := flows[i := Append(flows[i], id, data)];
      }
    }

    /** Lines 62-70 and 91-95: the verdict on a complete ClientHello. */
    static method JudgePayload(payload: Memory, length: nat, access: seq<byte> -> Verdict) returns (v: Verdict)
      ensures v == Judge(payload, length, access)
    {
      hide ClientHello.Sni;
      var domain := new byte[DOMAIN_LENGTH](_ => 0);
      assert domain[..] == Zeros(DOMAIN_LENGTH);
      var found;
      ghost var reach;
      found, reach := ClientHello.ExtractSni(domain, payload, length);
      v := Accept;
      if found {
        assert domain[..] == Domain(ClientHello.Sni(payload, length).value);
        v := access(domain[..]);
      }
    }

    /** The verdict while the cache stands still. */
    method JudgeNow(payload: Memory, length: nat, access: seq<byte> -> Verdict) returns (v: Verdict)
      requires Valid()
      ensures Valid() && v == Judge(payload, length, access)
    {
      hide HashTable.Table.Valid, Judge, Apart;
      v := JudgePayload(payload, length, access);
    }

    /** tcpflow_insert. */
    method InsertFlow(x: FlowNode, now: int, ghost f: Flow)
      requires Valid() && x !in table.Items && x.key == f.key && Find(Flows, f.key) == None
      requires x.value.Valid() && x.value.View(f.key) == f && forall r :: r in Records ==> Apart(r, x.value)
      modifies this, table, table.buckets, NodeSet(table.Items)`next, NodeSet(table.Items)`prev,
               NodeSet(table.Items)`hhNext, NodeSet(table.Items)`hhPrev,
               x`next, x`prev, x`hhNext, x`hhPrev, x`hashv
      ensures Valid() && Abs() == Insert(old(Abs()), f, now)
    {
      hide HashTable.Table.Valid, Valid, Find, Record.Valid, Gc;
      AddFlow(x, f);
      if lastGc < now - 60 {
        RunGc(now);
      }
    }

    method AddFlow(x: FlowNode, ghost f: Flow)
      requires Valid() && x !in table.Items && x.key == f.key && Find(Flows, f.key) == None
      requires x.value.Valid() && x.value.View(f.key) == f && forall r :: r in Records ==> Apart(r, x.value)
      modifies `Records, `Flows, table, table.buckets, NodeSet(table.Items)`next,
               NodeSet(table.Items)`hhNext, NodeSet(table.Items)`hhPrev,
               x`next, x`prev, x`hhNext, x`hhPrev, x`hashv
      ensures Valid() && Flows == old(Flows) + [f] && table.Items == old(table.Items) + [x]
      ensures table.buckets == old(table.buckets) || fresh(table.buckets)
    {
      hide HashTable.Table.Valid, Find, Record.Valid, Record.View, Bound, Shows, Apart;
      ghost var items, records, flows := table.Items, Records, Flows;
      PartsElsewhere(records + [x.value], this, table, items + [x]);
      BoundWith(items, records, flows, x, f);
      ShowsWith(records, flows, x.value, f);
      ghost var b := table.Add(x);
      Records, Flows := records + [x.value], flows + [f];
    }

    /** Lines 50-81: a data packet of the cached flow `x`. */
    method ContinueFlow(x: FlowNode, id: Id, payload: seq<byte>, c: Context, ghost i: nat)
      requires Valid() && i < |table.Items| == |Flows| && table.Items[i] == x
      modifies this, table, table.buckets, NodeSet(table.Items)`next, NodeSet(table.Items)`prev,
               NodeSet(table.Items)`hhNext, NodeSet(table.Items)`hhPrev, x.value, x.value.payload, x.value.ids
      ensures Valid() && Abs() == Continue(old(Abs()), i, id, payload, c)
    {
      hide HashTable.Table.Valid, Valid, Judge, Answers;
      Position(i);
      var ok := AppendTo(x, id, payload, i);
      if !ok {
        ghost var j := SetVerdictAndFree(x, Accept);
        Lose(id);
        return;
      }
      RecordOf(i);
      if x.value.current >= x.value.expected {
        var memory := x.value.payload[..] + c.beyond;
        BufferIs(x.value, Flows[i], c.beyond);
        var v := JudgeNow(memory, x.value.current, c.access);
        ghost var j := SetVerdictAndFree(x, v);
      }
    }

    /** The refused packet is forgotten: no verdict is sent for it. */
    ghost method Lose(id: Id)
      requires Valid()
      modifies `Lost
      ensures Valid() && Lost == old(Lost) + [id]
    {
      Lost := Lost + [id];
    }

    static lemma BufferIs(r: Record, f: Flow, beyond: seq<byte>)
      requires r.Valid() && r.View(f.key) == f
      ensures |f.payload| == r.current && r.payload[..] + beyond == FlowMemory(f, beyond)
    {
      assert r.payload[..] == r.payload[..r.current] + Zeros(FLOW_PAYLOAD_SIZE - r.current);
    }

    /** nfq_send_verdict for one packet. */
    method Send(id: Id, v: Verdict)
      requires Valid()
      modifies `log
      ensures Valid() && log == old(log) + Answers([id], v)
    {
      log := log + [(id, v)];
    }

    /** Lines 111-117: a new node whose record holds the first packet. */
    method MakeNode(key: Key, id: Id, payload: seq<byte>) returns (x: FlowNode, ok: bool)
      requires Valid() && |payload| >= MIN_PAYLOAD
      ensures Valid() && fresh(x) && x !in table.Items && x.key == key && x.value.Valid()
      ensures ok == CanAppend(NewFlow(key, RecordLength(payload)), payload)
      ensures ok ==> x.value.View(key) == Append(NewFlow(key, RecordLength(payload)), id, payload)
      ensures forall r :: r in Records ==> Apart(r, x.value)
    {
      hide HashTable.Table.Valid, Be16;
      var r := new Record(RecordLength(payload));
      ok := r.AppendPacket(id, payload, key);
      x := new Node(key, r);
    }

    /** Lines 111-123: start a flow with its first packet. */
    method StartFlow(key: Key, id: Id, payload: seq<byte>, c: Context)
      requires Valid() && Find(Flows, key) == None && |payload| >= MIN_PAYLOAD
      modifies this, table, table.buckets, NodeSet(table.Items)`next, NodeSet(table.Items)`prev,
               NodeSet(table.Items)`hhNext, NodeSet(table.Items)`hhPrev
      ensures Valid()
      ensures var f := NewFlow(key, RecordLength(payload));
        Abs() == if CanAppend(f, payload) then Insert(old(Abs()), Append(f, id, payload), c.now)
                 else Answer(old(Abs()), [id], Accept)
    {
      hide HashTable.Table.Valid, Valid, Find, Insert, Answers, Be16;
      var x, ok := MakeNode(key, id, payload);
      if !ok {
        Send(id, Accept);
        return;
      }
      InsertFlow(x, c.now, Append(NewFlow(key, RecordLength(payload)), id, payload));
    }

    /** packet_handle_tcp443. */
    method Handle(id: Id, key: Key, payload: seq<byte>, c: Context)
      requires Valid()
      modifies this, table, table.buckets, NodeSet(table.Items)`next, NodeSet(table.Items)`prev,
               NodeSet(table.Items)`hhNext, NodeSet(table.Items)`hhPrev, Parts(Records)
      ensures Valid() && Abs() == Handle443(old(Abs()), id, key, payload, c)
    {
      hide HashTable.Table.Valid, Valid, Find, Insert, Answers, Continue, Judge;
      if |payload| < MIN_PAYLOAD {
        Send(id, Accept);
        return;
      }
      var x;
      ghost var i;
      x, i := Lookup(key);
      if x != null {
        ContinueFlow(x, id, payload, c, i);
        return;
      }
      if payload[0] != 0x16 || payload[5] != 0x01 {
        Send(id, Accept);
        return;
      }
      var handshakeLength := Be16(payload[3], payload[4]);
      if |payload| >= handshakeLength {
        var v := JudgeNow(payload + c.beyond, |payload|, c.access);
        Send(id, v);
        return;
      }
      if handshakeLength > FLOW_PAYLOAD_SIZE {
        Send(id, Accept);
        return;
      }
      if c.oom {
        Send(id, Accept);
        return;
      }
      StartFlow(key, id, payload, c);
    }

    /** packet_handle: the other handlers send one verdict for their packet. */
    method Dispatch(e: Event)
      requires Valid()
      modifies this, table, table.buckets, NodeSet(table.Items)`next, NodeSet(table.Items)`prev,
               NodeSet(table.Items)`hhNext, NodeSet(table.Items)`hhPrev, Parts(Records)
      ensures Valid() && Abs() == Step(old(Abs()), e)
    {
      hide HashTable.Table.Valid, Valid, Handle443, Answers;
      match e.packet
      case Tls(id, key, payload) =>
        Handle(id, key, payload, e.context);
      case Plain(id, v) =>
        Send(id, v);
    }
  }

  lemma GcNext(flows: seq<Flow>, k: nat, now: int, kept: seq<Flow>, sent: seq<(Id, Verdict)>)
    requires k < |flows|
    ensures kept + Fresh(flows[k..], now)
         == (kept + if Stale(flows[k], now) then [] else [flows[k]]) + Fresh(flows[k + 1..], now)
    ensures sent + GcAnswers(flows[k..], now)
         == (sent + if Stale(flows[k], now) then Answers(flows[k].ids, Drop) else []) + GcAnswers(flows[k + 1..], now)
  {
    assert flows[k..][1..] == flows[k + 1..];
  }

  lemma GcLast(now: int)
    ensures Fresh([], now) == [] && GcAnswers([], now) == []
  {
  }
}
