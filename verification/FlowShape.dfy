/** The invariant of cached flows over every run, and how long a flow can stay cached. */
module FlowShape {
  import opened Bytes
  import opened FlowSpec
  import opened Kept
  import opened FlowRuns

  ghost predicate FlowOk(f: Flow) {
    && 1 <= |f.ids| <= MAX_PACKET_COUNT
    && MIN_PAYLOAD <= |f.payload| < f.expected <= FLOW_PAYLOAD_SIZE
    && StartsHello(f.payload) && RecordLength(f.payload) == f.expected
    && f.timestamp == 0
  }

  ghost predicate UniqueKeys(flows: seq<Flow>) {
    forall i, j :: 0 <= i < j < |flows| ==> flows[i].key != flows[j].key
  }

  ghost predicate Inv(s: State) {
    UniqueKeys(s.flows) && forall i :: 0 <= i < |s.flows| ==> FlowOk(s.flows[i])
  }

  /** The append at line 117 of tcp443.c, to a flow just created, is never refused. */
  lemma FirstAppendNeverRefused(key: Key, payload: seq<byte>)
    requires MIN_PAYLOAD <= |payload| < RecordLength(payload) <= FLOW_PAYLOAD_SIZE
    ensures CanAppend(NewFlow(key, RecordLength(payload)), payload)
  {
  }

  lemma AppendKeepsHeader(f: Flow, id: Id, payload: seq<byte>)
    requires FlowOk(f)
    ensures var g := Append(f, id, payload);
            |g.payload| >= MIN_PAYLOAD && StartsHello(g.payload) && RecordLength(g.payload) == g.expected
  {
  }

  /** When a flow is complete, the checks extract_sni starts with (lines 138-155) all pass. */
  lemma CompletionPassesChecks(f: Flow, id: Id, payload: seq<byte>, beyond: seq<byte>)
    requires FlowOk(f) && CanAppend(f, payload) && IsComplete(Append(f, id, payload))
    ensures var g := Append(f, id, payload); var mem := FlowMemory(g, beyond);
      && |g.payload| >= 10 && Peek(mem, 0) == 0x16 && Peek(mem, 5) == 0x01
      && Read16(mem, 3) == f.expected <= |g.payload|
  {
    hide Be16;
    AppendKeepsHeader(f, id, payload);
  }

  /**
   A collection visits every flow once, drops exactly the stale ones, and leaves the others in order: `at`
   are the positions of those that stay.
   */
  lemma {:induction false} FreshExact(flows: seq<Flow>, now: int) returns (at: seq<nat>)
    ensures Picks(Fresh(flows, now), flows, at)
    ensures forall i :: 0 <= i < |flows| ==> (i in at <==> flows[i].timestamp >= now - 5)
  {
    hide Picks, Extended;
    if flows == [] {
      at := NoPicks(flows);
    } else {
      var f, first := flows[0], !Stale(flows[0], now);
      var rest := FreshExact(flows[1..], now);
      at := Extended(first, rest);
      assert [f] + flows[1..] == flows;
      ExtendedPicks(Fresh(flows[1..], now), f, flows[1..], rest, first);
      forall i | 0 <= i < |flows| ensures i in at <==> flows[i].timestamp >= now - 5 {
        ExtendedIn(first, rest, i);
      }
    }
  }

  /** `timestamp` is never assigned, so a collection empties the cache once the clock has passed 5. */
  lemma {:induction false} FreshUntimed(flows: seq<Flow>, now: int)
    requires forall i :: 0 <= i < |flows| ==> flows[i].timestamp == 0
    ensures Fresh(flows, now) == if now > 5 then [] else flows
  {
    if flows != [] {
      FreshUntimed(flows[1..], now);
      assert flows == [flows[0]] + flows[1..];
    }
  }

  lemma ContinueKeepsInv(s: State, i: nat, id: Id, payload: seq<byte>, c: Context)
    requires Inv(s) && i < |s.flows|
    ensures Inv(Continue(s, i, id, payload, c))
  {
    hide Judge, FlowMemory, Answers;
    var f := s.flows[i];
    assert FlowOk(f);
    AppendKeepsHeader(f, id, payload);
  }

  lemma InsertKeepsInv(s: State, f: Flow, now: int)
    requires Inv(s) && FlowOk(f) && forall i :: 0 <= i < |s.flows| ==> s.flows[i].key != f.key
    ensures Inv(Insert(s, f, now))
  {
    hide GcAnswers, StartsHello, RecordLength;
    FreshUntimed(s.flows + [f], now);
  }

  lemma BeginKeepsInv(s: State, id: Id, key: Key, payload: seq<byte>, c: Context)
    requires Inv(s) && |payload| >= MIN_PAYLOAD && forall i :: 0 <= i < |s.flows| ==> s.flows[i].key != key
    ensures Inv(Begin(s, id, key, payload, c))
  {
    hide Insert, Judge, Answers, Be16;
    if StartsHello(payload) && |payload| < RecordLength(payload) <= FLOW_PAYLOAD_SIZE {
      var f := Append(NewFlow(key, RecordLength(payload)), id, payload);
      assert f.payload == payload;
      InsertKeepsInv(s, f, c.now);
    }
  }

  lemma StepKeepsInv(s: State, e: Event)
    requires Inv(s)
    ensures Inv(Step(s, e))
  {
    hide Continue, Begin, FlowOk;
    if e.packet.Tls? && |e.packet.payload| >= MIN_PAYLOAD {
      match Find(s.flows, e.packet.key)
      case Some(i) =>
        ContinueKeepsInv(s, i, e.packet.id, e.packet.payload, e.context);
      case None =>
        BeginKeepsInv(s, e.packet.id, e.packet.key, e.packet.payload, e.context);
    }
  }

  lemma {:induction false} RunKeepsInv(s: State, events: seq<Event>)
    requires Inv(s)
    ensures Inv(Run(s, events))
  {
    hide Inv, Step;
    if events != [] {
      RunKeepsInv(s, events[..|events| - 1]);
      StepKeepsInv(Run(s, events[..|events| - 1]), events[|events| - 1]);
    }
  }

  /** In every reachable state the keys are unique and every flow is well formed. */
  lemma ReachableFlowsOk(events: seq<Event>)
    ensures Inv(Run(INITIAL, events))
  {
    RunKeepsInv(INITIAL, events);
  }

  // ----- Buffered bytes are the held segments

  /** The payloads of the held packets, one after the other. */
  ghost function Joined(seen: map<Id, seq<byte>>, ids: seq<Id>): seq<byte>
    requires forall i :: 0 <= i < |ids| ==> ids[i] in seen
  {
    if ids == [] then [] else Joined(seen, ids[..|ids| - 1]) + seen[ids[|ids| - 1]]
  }

  lemma {:induction false} JoinedExtends(seen: map<Id, seq<byte>>, ids: seq<Id>, id: Id, payload: seq<byte>)
    requires (forall i :: 0 <= i < |ids| ==> ids[i] in seen) && id !in seen
    ensures Joined(seen[id := payload], ids) == Joined(seen, ids)
  {
    if ids != [] {
      JoinedExtends(seen, ids[..|ids| - 1], id, payload);
    }
  }

  ghost predicate FlowJoined(seen: map<Id, seq<byte>>, f: Flow) {
    (forall i :: 0 <= i < |f.ids| ==> f.ids[i] in seen) && f.payload == Joined(seen, f.ids)
  }

  /** The payload each received packet carried. */
  ghost function Seen(events: seq<Event>): map<Id, seq<byte>> {
    if events == [] then map[]
    else
      var p := events[|events| - 1].packet;
      Seen(events[..|events| - 1])[p.id := if p.Tls? then p.payload else []]
  }

  lemma {:induction false} SeenIds(events: seq<Event>)
    ensures forall x :: x in Seen(events) ==> exists i :: 0 <= i < |events| && events[i].packet.id == x
  {
    if events != [] {
      var init := events[..|events| - 1];
      SeenIds(init);
      forall x | x in Seen(events) ensures exists i :: 0 <= i < |events| && events[i].packet.id == x {
        if x in Seen(init) {
          var i :| 0 <= i < |init| && init[i].packet.id == x;
          assert events[i].packet.id == x;
        } else {
          assert events[|events| - 1].packet.id == x;
        }
      }
    }
  }

  ghost predicate AllJoined(seen: map<Id, seq<byte>>, flows: seq<Flow>) {
    forall i :: 0 <= i < |flows| ==> FlowJoined(seen, flows[i])
  }

  lemma AllJoinedExtends(seen: map<Id, seq<byte>>, flows: seq<Flow>, id: Id, payload: seq<byte>)
    requires AllJoined(seen, flows) && id !in seen
    ensures AllJoined(seen[id := payload], flows)
  {
    forall i | 0 <= i < |flows| ensures FlowJoined(seen[id := payload], flows[i]) {
      assert FlowJoined(seen, flows[i]);
      JoinedExtends(seen, flows[i].ids, id, payload);
    }
  }

  lemma AppendJoined(seen: map<Id, seq<byte>>, f: Flow, id: Id, payload: seq<byte>)
    requires FlowJoined(seen, f) && id in seen && seen[id] == payload
    ensures FlowJoined(seen, Append(f, id, payload))
  {
    var g := Append(f, id, payload);
    assert g.ids[..|g.ids| - 1] == f.ids;
  }

  lemma {:induction false} FreshJoined(seen: map<Id, seq<byte>>, flows: seq<Flow>, now: int)
    requires AllJoined(seen, flows)
    ensures AllJoined(seen, Fresh(flows, now))
  {
    hide FlowJoined;
    if flows != [] {
      FreshJoined(seen, flows[1..], now);
    }
  }

  lemma StepJoined(seen: map<Id, seq<byte>>, s: State, e: Event)
    requires AllJoined(seen, s.flows)
    requires e.packet.Tls? ==> e.packet.id in seen && seen[e.packet.id] == e.packet.payload
    ensures AllJoined(seen, Step(s, e).flows)
  {
    hide FlowJoined, Judge, FlowMemory, Answers, Fresh, GcAnswers, StartsHello, RecordLength;
    if e.packet.Tls? && |e.packet.payload| >= MIN_PAYLOAD {
      var id, key, payload := e.packet.id, e.packet.key, e.packet.payload;
      match Find(s.flows, key)
      case Some(i) =>
        AppendJoined(seen, s.flows[i], id, payload);
      case None =>
        var f := NewFlow(key, RecordLength(payload));
        EmptyJoined(seen, f);
        AppendJoined(seen, f, id, payload);
        FreshJoined(seen, s.flows + [Append(f, id, payload)], e.context.now);
    }
  }

  lemma EmptyJoined(seen: map<Id, seq<byte>>, f: Flow)
    requires f.ids == [] && f.payload == []
    ensures FlowJoined(seen, f)
  {
  }

  /** In every run with distinct ids, a flow's buffer is the concatenation of the packets it holds, in order. */
  lemma {:induction false} BufferIsHeldSegments(events: seq<Event>)
    requires DistinctIds(events)
    ensures AllJoined(Seen(events), Run(INITIAL, events).flows)
  {
    hide Step, AllJoined;
    if events == [] {
      NoneJoined();
    } else {
      var init, e := events[..|events| - 1], events[|events| - 1];
      BufferIsHeldSegments(init);
      SeenIds(init);
      assert e.packet.id !in Seen(init);
      AllJoinedExtends(Seen(init), Run(INITIAL, init).flows, e.packet.id,
          if e.packet.Tls? then e.packet.payload else []);
      StepJoined(Seen(events), Run(INITIAL, init), e);
    }
  }

  lemma NoneJoined()
    ensures AllJoined(map[], INITIAL.flows)
  {
  }

  // ----- A flow leaves the cache

  ghost predicate IsData(e: Event, key: Key) {
    e.packet.Tls? && e.packet.key == key && |e.packet.payload| >= MIN_PAYLOAD
  }

  /** The data packets of one connection in a run: ids and payloads, in order of arrival. */
  ghost function DataOf(events: seq<Event>, key: Key): seq<(Id, seq<byte>)> {
    if events == [] then []
    else
      var e := events[|events| - 1];
      DataOf(events[..|events| - 1], key) + (if IsData(e, key) then [(e.packet.id, e.packet.payload)] else [])
  }

  ghost predicate Answered(s: State, x: Id) {
    exists j :: 0 <= j < |s.log| && s.log[j].0 == x
  }

  /** Every packet of `held` has been answered, or they head a cached flow that holds at least `n` packets. */
  ghost predicate Progress(s: State, key: Key, held: seq<Id>, n: nat) {
    || AllAnswered(s, held)
    || exists i :: 0 <= i < |s.flows| && Leads(s.flows[i], key, held, n)
  }

  ghost predicate AllAnswered(s: State, held: seq<Id>) {
    forall k :: 0 <= k < |held| ==> Answered(s, held[k])
  }

  ghost predicate Leads(f: Flow, key: Key, held: seq<Id>, n: nat) {
    f.key == key && held <= f.ids && |f.ids| >= n
  }

  lemma AnsweredBy(log: seq<(Id, Verdict)>, ids: seq<Id>, v: Verdict, k: nat)
    requires k < |ids|
    ensures |log + Answers(ids, v)| == |log| + |ids|
    ensures (log + Answers(ids, v))[|log| + k] == (ids[k], v)
  {
  }

  lemma {:induction false} GcAnswersStale(flows: seq<Flow>, now: int, i: nat, k: nat)
    requires i < |flows| && Stale(flows[i], now) && k < |flows[i].ids|
    ensures (flows[i].ids[k], Drop) in GcAnswers(flows, now)
  {
    if i == 0 {
      var mine := Answers(flows[0].ids, Drop);
      assert mine[k] == (flows[0].ids[k], Drop);
      assert (mine + GcAnswers(flows[1..], now))[k] == mine[k];
    } else {
      GcAnswersStale(flows[1..], now, i - 1, k);
    }
  }

  /**
   A collection that runs when flow `f` is inserted drops every pending packet of every reachable
   state, those of `f` included, and leaves no flow.
   */
  lemma CollectionDropsAll(events: seq<Event>, f: Flow, now: int)
    requires f.timestamp == 0 && now > 5 && GcDue(Run(INITIAL, events), now)
    ensures var s := Run(INITIAL, events); var t := Insert(s, f, now);
      && t.flows == []
      && forall i, k :: 0 <= i <= |s.flows| && 0 <= k < |(s.flows + [f])[i].ids| ==>
           ((s.flows + [f])[i].ids[k], Drop) in t.log
  {
    hide Run, FlowOk, GcAnswers;
    var s := Run(INITIAL, events);
    RunKeepsInv(INITIAL, events);
    var flows := s.flows + [f];
    forall i | 0 <= i < |s.flows| ensures s.flows[i].timestamp == 0 {
      Untimed(s.flows[i]);
    }
    FreshUntimed(flows, now);
    forall i, k | 0 <= i <= |s.flows| && 0 <= k < |flows[i].ids|
      ensures (flows[i].ids[k], Drop) in Insert(s, f, now).log
    {
      GcAnswersStale(flows, now, i, k);
    }
  }

  /** An input that shows it: the first segment of a ClientHello, a minute after the epoch, is dropped at once. */
  lemma FirstSegmentCollected(id: Id, access: seq<byte> -> Verdict)
    ensures var s := Run(INITIAL, [Event(Tls(id, CONNECTION, BEGINNING), Context(61, false, [], access))]);
      s.flows == [] && s.log == [(id, Drop)]
  {
    hide Judge, FlowMemory;
    var e := Event(Tls(id, CONNECTION, BEGINNING), Context(61, false, [], access));
    var f := Append(NewFlow(CONNECTION, 12000), id, BEGINNING);
    assert [e][..0] == [] && RecordLength(BEGINNING) == 12000;
    assert Step(INITIAL, e) == Insert(INITIAL, f, 61);
    assert [f][1..] == [] && Answers(f.ids, Drop) == [(id, Drop)];
    assert Fresh([f], 61) == [] && GcAnswers([f], 61) == [(id, Drop)];
    assert INITIAL.flows + [f] == [f];
  }

  lemma Untimed(f: Flow)
    requires FlowOk(f)
    ensures f.timestamp == 0
  {
  }

  lemma {:induction false} FreshKeeps(flows: seq<Flow>, now: int, i: nat)
    requires i < |flows| && !Stale(flows[i], now)
    ensures flows[i] in Fresh(flows, now)
  {
    if i > 0 {
      FreshKeeps(flows[1..], now, i - 1);
    }
  }

  lemma LogGrows(s: State, e: Event)
    ensures s.log <= Step(s, e).log
  {
    hide Judge, FlowMemory, Answers, Fresh, GcAnswers;
  }

  lemma InsertProgress(s: State, f: Flow, now: int, key: Key, held: seq<Id>, n: nat, i: nat)
    requires i < |s.flows| && Leads(s.flows[i], key, held, n)
    ensures Progress(Insert(s, f, now), key, held, n)
  {
    hide Fresh, GcAnswers;
    var flows := s.flows + [f];
    var t := Insert(s, f, now);
    assert flows[i] == s.flows[i];
    if GcDue(s, now) {
      if Stale(flows[i], now) {
        forall k | 0 <= k < |held| ensures Answered(t, held[k]) {
          GcAnswersStale(flows, now, i, k);
          var j :| 0 <= j < |GcAnswers(flows, now)| && GcAnswers(flows, now)[j] == (held[k], Drop);
          assert t.log[|s.log| + j] == (held[k], Drop);
        }
      } else {
        FreshKeeps(flows, now, i);
        var j :| 0 <= j < |t.flows| && t.flows[j] == flows[i];
        assert Leads(t.flows[j], key, held, n);
      }
    } else {
      assert Leads(t.flows[i], key, held, n);
    }
  }

  lemma ContinueProgress(s: State, j: nat, id: Id, payload: seq<byte>, c: Context, key: Key, held: seq<Id>, n: nat,
      i: nat)
    requires i < |s.flows| && j < |s.flows| && Leads(s.flows[i], key, held, n)
    ensures Progress(Continue(s, j, id, payload, c), key, held, if i == j then n + 1 else n)
  {
    hide Judge, FlowMemory, Answers;
    var f, t := s.flows[j], Continue(s, j, id, payload, c);
    var g := Append(f, id, payload);
    if !CanAppend(f, payload) || IsComplete(g) {
      if i == j {
        var ids := if CanAppend(f, payload) then g.ids else f.ids;
        var v := if CanAppend(f, payload) then Judge(FlowMemory(g, c.beyond), |g.payload|, c.access) else Accept;
        forall k | 0 <= k < |held| ensures Answered(t, held[k]) {
          AnsweredBy(s.log, ids, v, k);
          assert t.log[|s.log| + k].0 == held[k];
        }
      } else {
        var k := if i < j then i else i - 1;
        assert t.flows[k] == s.flows[i] && Leads(t.flows[k], key, held, n);
      }
    } else {
      assert Leads(t.flows[i], key, held, if i == j then n + 1 else n);
    }
  }

  lemma StepProgress(s: State, e: Event, key: Key, held: seq<Id>, n: nat)
    requires Inv(s) && Progress(s, key, held, n)
    ensures Progress(Step(s, e), key, held, if IsData(e, key) then n + 1 else n)
  {
    hide Continue, Insert, FlowOk, Judge, StartsHello, RecordLength, Leads;
    var t := Step(s, e);
    if AllAnswered(s, held) {
      forall k | 0 <= k < |held| ensures Answered(t, held[k]) {
        var j :| 0 <= j < |s.log| && s.log[j].0 == held[k];
        LogGrows(s, e);
        assert t.log[j].0 == held[k];
      }
    } else {
      var i :| 0 <= i < |s.flows| && Leads(s.flows[i], key, held, n);
      assert s.flows[i].key == key by {
        LeadsKey(s.flows[i], key, held, n);
      }
      if e.packet.Tls? && |e.packet.payload| >= MIN_PAYLOAD {
        var id, payload := e.packet.id, e.packet.payload;
        match Find(s.flows, e.packet.key)
        case Some(j) =>
          ContinueProgress(s, j, id, payload, e.context, key, held, n, i);
        case None =>
          InsertProgress(s, Append(NewFlow(e.packet.key, RecordLength(payload)), id, payload), e.context.now, key,
              held, n, i);
      }
    }
  }

  lemma LeadsKey(f: Flow, key: Key, held: seq<Id>, n: nat)
    requires Leads(f, key, held, n)
    ensures f.key == key
  {
  }

  lemma {:induction false} RunProgress(s: State, events: seq<Event>, key: Key, held: seq<Id>, n: nat)
    requires Inv(s) && Progress(s, key, held, n)
    ensures Progress(Run(s, events), key, held, n + |DataOf(events, key)|)
  {
    hide Inv, Step, Progress;
    if events != [] {
      var init := events[..|events| - 1];
      RunProgress(s, init, key, held, n);
      RunKeepsInv(s, init);
      StepProgress(Run(s, init), events[|events| - 1], key, held, n + |DataOf(init, key)|);
    }
  }

  /** All packets of a flow that holds `n` are answered by the time `9 - n` more data packets of its key have come. */
  lemma AllAnsweredInTime(s: State, i: nat, events: seq<Event>)
    requires Inv(s) && i < |s.flows|
    requires |s.flows[i].ids| + |DataOf(events, s.flows[i].key)| > MAX_PACKET_COUNT
    ensures AllAnswered(Run(s, events), s.flows[i].ids)
  {
    hide Run, DataOf;
    var f := s.flows[i];
    assert FlowOk(f) && Leads(f, f.key, f.ids, |f.ids|);
    RunProgress(s, events, f.key, f.ids, |f.ids|);
    RunKeepsInv(s, events);
  }

  lemma AnsweredTimes(s: State, x: Id)
    requires Answered(s, x)
    ensures Times(LogIds(s.log), x) >= 1
  {
    var j :| 0 <= j < |s.log| && s.log[j].0 == x;
    assert LogIds(s.log)[j] == x;
    InTimes(LogIds(s.log), x);
  }

  /**
   A flow that holds `n` packets in a reachable state is gone by the time `9 - n` more data packets of its
   key have come, whatever else happens: each of its packets has been answered once and is held nowhere.
   */
  lemma FlowLeavesInTime(before: seq<Event>, events: seq<Event>, i: nat)
    requires DistinctIds(before + events) && i < |Run(INITIAL, before).flows|
    requires var f := Run(INITIAL, before).flows[i];
      |f.ids| + |DataOf(events, f.key)| > MAX_PACKET_COUNT
    ensures var f, t := Run(INITIAL, before).flows[i], Run(INITIAL, before + events);
      forall k :: 0 <= k < |f.ids| ==> Times(LogIds(t.log), f.ids[k]) == 1 && HeldTimes(t.flows, f.ids[k]) == 0
  {
    hide Run, DataOf, HeldTimes, Times, LogIds, Answered, DistinctIds;
    var s := Run(INITIAL, before);
    var f, t := s.flows[i], Run(INITIAL, before + events);
    ReachableFlowsOk(before);
    AllAnsweredInTime(s, i, events);
    RunConcat(INITIAL, before, events);
    forall k | 0 <= k < |f.ids| ensures Times(LogIds(t.log), f.ids[k]) == 1 && HeldTimes(t.flows, f.ids[k]) == 0 {
      AnsweredTimes(t, f.ids[k]);
      AtMostOnce(before + events, f.ids[k]);
    }
  }
}
