/**
 Which verdict each packet is given, over every run with distinct packet ids, case by case and in the
 numbers of tcp443.c.  `Verdicts(log, x)` is the set of verdicts packet `x` has been given.
 */
module FlowVerdicts {
  import opened Bytes
  import opened FlowSpec
  import opened FlowRuns
  import opened FlowShape
  import opened Segments
  import ClientHello
  import opened Kept

  /** A verdict in the log is the only one its packet has. */
  lemma OnlyVerdict(events: seq<Event>, x: Id, v: Verdict)
    requires DistinctIds(events) && (x, v) in Run(INITIAL, events).log
    ensures Verdicts(Run(INITIAL, events).log, x) == {v}
  {
    hide Run, Times, HeldTimes, LogIds, DistinctIds, Verdicts;
    AtMostOnce(events, x);
    OneVerdict(Run(INITIAL, events).log, x, v);
  }

  lemma {:induction false} RunLogKept(s: State, events: seq<Event>, x: (Id, Verdict))
    requires x in s.log
    ensures x in Run(s, events).log
  {
    hide Step;
    if events != [] {
      RunLogKept(s, events[..|events| - 1], x);
      LogKept(Run(s, events[..|events| - 1]), events[|events| - 1], x);
    }
  }

  /** What is sent when packet `i` comes is the only verdict of the packet it is sent for, ever. */
  lemma SentThen(events: seq<Event>, i: nat, x: Id, v: Verdict)
    requires DistinctIds(events) && i < |events| && (x, v) in Step(Run(INITIAL, events[..i]), events[i]).log
    ensures Verdicts(Run(INITIAL, events).log, x) == {v}
  {
    hide Step, Verdicts, DistinctIds;
    var first, rest := events[..i + 1], events[i + 1..];
    assert first[..|first| - 1] == events[..i] && first + rest == events;
    RunConcat(INITIAL, first, rest);
    RunLogKept(Run(INITIAL, first), rest, (x, v));
    OnlyVerdict(events, x, v);
  }

  lemma LastSent(log: seq<(Id, Verdict)>, id: Id, v: Verdict)
    ensures (id, v) in log + Answers([id], v)
  {
    assert (log + Answers([id], v))[|log|] == (id, v);
  }

  lemma AllSent(log: seq<(Id, Verdict)>, ids: seq<Id>, v: Verdict, x: Id)
    requires x in ids
    ensures (x, v) in log + Answers(ids, v)
  {
    var k :| 0 <= k < |ids| && ids[k] == x;
    assert (log + Answers(ids, v))[|log| + k] == (x, v);
  }

  // ----- Packets that are answered as they come

  /** A packet of the other handlers gets the verdict its handler sends. */
  lemma PlainVerdict(events: seq<Event>, i: nat)
    requires DistinctIds(events) && i < |events| && events[i].packet.Plain?
    ensures Verdicts(Run(INITIAL, events).log, events[i].packet.id) == {events[i].packet.verdict}
  {
    hide Run, Verdicts, DistinctIds;
    var s, p := Run(INITIAL, events[..i]), events[i].packet;
    LastSent(s.log, p.id, p.verdict);
    SentThen(events, i, p.id, p.verdict);
  }

  /** A TLS packet of less than 10 bytes is accepted. */
  lemma ShortVerdict(events: seq<Event>, i: nat)
    requires DistinctIds(events) && i < |events| && events[i].packet.Tls? && |events[i].packet.payload| < 10
    ensures Verdicts(Run(INITIAL, events).log, events[i].packet.id) == {Accept}
  {
    hide Run, Verdicts, DistinctIds;
    var s, p := Run(INITIAL, events[..i]), events[i].packet;
    LastSent(s.log, p.id, Accept);
    SentThen(events, i, p.id, Accept);
  }

  /** Packet `i` is a data packet of a connection that has no cached flow when it comes. */
  ghost predicate Opens(events: seq<Event>, i: nat) {
    && i < |events| && events[i].packet.Tls? && |events[i].packet.payload| >= 10
    && Unknown(Run(INITIAL, events[..i]), events[i].packet.key)
  }

  /** Lines 83-124 for such a packet. */
  lemma OpensBegins(events: seq<Event>, i: nat)
    requires Opens(events, i)
    ensures var s, p := Run(INITIAL, events[..i]), events[i].packet;
      |p.payload| >= MIN_PAYLOAD && Step(s, events[i]) == Begin(s, p.id, p.key, p.payload, events[i].context)
  {
    hide Run, Begin;
  }

  /** It is accepted if it does not start like a ClientHello. */
  lemma NoHelloVerdict(events: seq<Event>, i: nat)
    requires DistinctIds(events) && Opens(events, i)
    requires var payload := events[i].packet.payload; payload[0] != 0x16 || payload[5] != 0x01
    ensures Verdicts(Run(INITIAL, events).log, events[i].packet.id) == {Accept}
  {
    hide Run, Verdicts, DistinctIds, Step;
    var s, p := Run(INITIAL, events[..i]), events[i].packet;
    OpensBegins(events, i);
    LastSent(s.log, p.id, Accept);
    SentThen(events, i, p.id, Accept);
  }

  /** The first bytes are those of a ClientHello whose record length field says `length`. */
  ghost predicate HelloOf(payload: seq<byte>, length: nat) {
    && |payload| >= 10 && payload[0] == 0x16 && payload[5] == 0x01
    && var hi: int := payload[3]; length == 256 * hi + payload[4]
  }

  lemma HelloLength(payload: seq<byte>, length: nat)
    requires HelloOf(payload, length)
    ensures |payload| >= MIN_PAYLOAD && StartsHello(payload) && RecordLength(payload) == length
  {
  }

  /** What a name found in a payload means: `None` for no name. */
  ghost function NameVerdict(name: Option<seq<byte>>, access: seq<byte> -> Verdict): Verdict
    requires name.Some? ==> |name.value| <= DOMAIN_LENGTH
  {
    if name.None? then Accept else access(Domain(name.value))
  }

  /** If it covers the length field it gets the verdict on the name in it, Accept if there is none. */
  lemma CompleteVerdict(events: seq<Event>, i: nat, length: nat)
    requires DistinctIds(events) && Opens(events, i) && HelloOf(events[i].packet.payload, length)
    requires |events[i].packet.payload| >= length
    ensures var p, c := events[i].packet, events[i].context;
      Verdicts(Run(INITIAL, events).log, p.id)
        == {NameVerdict(ClientHello.Sni(p.payload + c.beyond, |p.payload|), c.access)}
  {
    hide Run, Verdicts, DistinctIds, Step, ClientHello.Sni, RecordLength, StartsHello;
    var s, p, c := Run(INITIAL, events[..i]), events[i].packet, events[i].context;
    HelloLength(p.payload, length);
    OpensBegins(events, i);
    var v := NameVerdict(ClientHello.Sni(p.payload + c.beyond, |p.payload|), c.access);
    LastSent(s.log, p.id, v);
    SentThen(events, i, p.id, v);
  }

  /** If it does not, and the record is longer than 12000 bytes or memory is short, it is accepted. */
  lemma UnheldVerdict(events: seq<Event>, i: nat, length: nat)
    requires DistinctIds(events) && Opens(events, i) && HelloOf(events[i].packet.payload, length)
    requires |events[i].packet.payload| < length && (length > 12000 || events[i].context.oom)
    ensures Verdicts(Run(INITIAL, events).log, events[i].packet.id) == {Accept}
  {
    hide Run, Verdicts, DistinctIds, Step, RecordLength, StartsHello;
    var s, p := Run(INITIAL, events[..i]), events[i].packet;
    HelloLength(p.payload, length);
    OpensBegins(events, i);
    LastSent(s.log, p.id, Accept);
    SentThen(events, i, p.id, Accept);
  }

  /**
   Otherwise it is held: a flow of this connection, which expects `length` bytes and has this packet, is
   added last, unless the last collection is more than 60 seconds ago; then one is made at once.
   */
  lemma HeldFirst(events: seq<Event>, i: nat, length: nat)
    requires Opens(events, i) && HelloOf(events[i].packet.payload, length)
    requires |events[i].packet.payload| < length <= 12000 && !events[i].context.oom
    ensures var s, p, now := Run(INITIAL, events[..i]), events[i].packet, events[i].context.now;
      var t, f := Step(s, events[i]), Flow(p.key, 0, length, p.payload, [p.id]);
      if now <= s.lastGc + 60 then t == State(s.flows + [f], s.lastGc, s.log, s.lost)
      else t.lastGc == now && t.flows == Fresh(s.flows + [f], now) && t.log == s.log + GcAnswers(s.flows + [f], now)
           && t.lost == s.lost
  {
    hide Run, Step, RecordLength, StartsHello, Fresh, GcAnswers;
    var p := events[i].packet;
    HelloLength(p.payload, length);
    OpensBegins(events, i);
    FirstAppendNeverRefused(p.key, p.payload);
    assert [] + p.payload == p.payload && [] + [p.id] == [p.id];
  }

  // ----- Packets of a cached flow

  /** Packet `i` is a data packet of the flow at position `j` of the cache. */
  ghost predicate Continues(events: seq<Event>, i: nat, j: nat) {
    && i < |events| && events[i].packet.Tls? && |events[i].packet.payload| >= 10
    && j < |Run(INITIAL, events[..i]).flows| && Run(INITIAL, events[..i]).flows[j].key == events[i].packet.key
  }

  lemma ContinuesFlow(events: seq<Event>, i: nat, j: nat)
    requires Continues(events, i, j)
    ensures var s, p := Run(INITIAL, events[..i]), events[i].packet;
      Step(s, events[i]) == Continue(s, j, p.id, p.payload, events[i].context)
  {
    hide Run, Continue, FlowOk;
    ReachableFlowsOk(events[..i]);
    assert Find(Run(INITIAL, events[..i]).flows, events[i].packet.key) == Some(j);
  }

  /** If the flow has no room for it, the packets held so far are accepted. */
  lemma RefusedVerdict(events: seq<Event>, i: nat, j: nat, x: Id)
    requires DistinctIds(events) && Continues(events, i, j)
    requires var f := Run(INITIAL, events[..i]).flows[j];
      x in f.ids && (|f.ids| >= 8 || |f.payload| + |events[i].packet.payload| > 12000)
    ensures Verdicts(Run(INITIAL, events).log, x) == {Accept}
  {
    hide Run, Verdicts, DistinctIds, Step, Judge, FlowMemory;
    var s := Run(INITIAL, events[..i]);
    ContinuesFlow(events, i, j);
    AllSent(s.log, s.flows[j].ids, Accept, x);
    SentThen(events, i, x, Accept);
  }

  /** If it completes the record, all packets of the flow get the verdict on the name in the buffer. */
  lemma CompletedVerdict(events: seq<Event>, i: nat, j: nat, x: Id)
    requires DistinctIds(events) && Continues(events, i, j)
    requires var f, p := Run(INITIAL, events[..i]).flows[j], events[i].packet;
      && x in f.ids + [p.id] && |f.ids| < 8 && f.expected <= |f.payload| + |p.payload| <= 12000
    ensures var f, p, c := Run(INITIAL, events[..i]).flows[j], events[i].packet, events[i].context;
      var buffer := f.payload + p.payload;
      Verdicts(Run(INITIAL, events).log, x)
        == {NameVerdict(ClientHello.Sni(buffer + Zeros(12000 - |buffer|) + c.beyond, |buffer|), c.access)}
  {
    hide Run, Verdicts, DistinctIds, Step, ClientHello.Sni, Zeros;
    var s, p, c := Run(INITIAL, events[..i]), events[i].packet, events[i].context;
    var buffer := s.flows[j].payload + p.payload;
    ContinuesFlow(events, i, j);
    var v := NameVerdict(ClientHello.Sni(buffer + Zeros(12000 - |buffer|) + c.beyond, |buffer|), c.access);
    AllSent(s.log, s.flows[j].ids + [p.id], v, x);
    SentThen(events, i, x, v);
  }

  /** Otherwise it is held: its bytes and its id are added to the flow, and nothing is sent. */
  lemma HeldOn(events: seq<Event>, i: nat, j: nat)
    requires Continues(events, i, j)
    requires var f, n := Run(INITIAL, events[..i]).flows[j], |events[i].packet.payload|;
      |f.ids| < 8 && |f.payload| + n <= 12000 && |f.payload| + n < f.expected
    ensures var s, p := Run(INITIAL, events[..i]), events[i].packet;
      var f := s.flows[j];
      Step(s, events[i]) == s.(flows := s.flows[j := Flow(p.key, f.timestamp, f.expected, f.payload + p.payload,
                                                          f.ids + [p.id])])
  {
    hide Run, Step;
    ContinuesFlow(events, i, j);
  }

  // ----- Collections

  /** No collection is made within 60 seconds of the last one, and one that is made is made now. */
  lemma CollectionInterval(s: State, e: Event)
    requires Step(s, e).lastGc != s.lastGc
    ensures e.context.now > s.lastGc + 60 && Step(s, e).lastGc == e.context.now
  {
    hide Judge, FlowMemory, Answers, Fresh, GcAnswers, StartsHello, RecordLength;
  }

  /**
   When one is made after the clock has passed 5, every packet held at that time is dropped, the one that
   has just come included, and no flow is left.
   */
  lemma CollectedVerdict(events: seq<Event>, i: nat, length: nat, x: Id)
    requires DistinctIds(events) && Opens(events, i) && HelloOf(events[i].packet.payload, length)
    requires |events[i].packet.payload| < length <= 12000 && !events[i].context.oom
    requires var s, now := Run(INITIAL, events[..i]), events[i].context.now;
      && now > s.lastGc + 60 && now > 5
      && (x == events[i].packet.id || exists j :: 0 <= j < |s.flows| && x in s.flows[j].ids)
    ensures Verdicts(Run(INITIAL, events).log, x) == {Drop}
    ensures Step(Run(INITIAL, events[..i]), events[i]).flows == []
  {
    hide Run, Verdicts, DistinctIds, Step, RecordLength, StartsHello, Fresh, GcAnswers, FlowOk, HelloOf;
    var s, p, now := Run(INITIAL, events[..i]), events[i].packet, events[i].context.now;
    var f := Flow(p.key, 0, length, p.payload, [p.id]);
    var flows := s.flows + [f];
    HeldFirst(events, i, length);
    ReachableFlowsOk(events[..i]);
    forall j | 0 <= j < |flows| ensures flows[j].timestamp == 0 {
      if j < |s.flows| {
        Untimed(s.flows[j]);
      }
    }
    FreshUntimed(flows, now);
    var j := if x == p.id then |s.flows| else var j :| 0 <= j < |s.flows| && x in s.flows[j].ids; j;
    assert x in flows[j].ids;
    var k :| 0 <= k < |flows[j].ids| && flows[j].ids[k] == x;
    GcAnswersStale(flows, now, j, k);
    SentThen(events, i, x, Drop);
  }
}
