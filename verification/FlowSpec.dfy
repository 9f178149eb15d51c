/**
 The verdict machine of tcp443.c and tcpflow.c as a function on values: what one packet does to the
 cached flows and to the log of verdicts.  `TcpFlow` refines it; `FlowRuns` proves what every run keeps.
 */
module FlowSpec {
  import opened Bytes
  import opened Kept
  import ClientHello

  const MAX_PACKET_COUNT := 8
  const FLOW_PAYLOAD_SIZE := 12000
  const MIN_PAYLOAD := 10

  type Id = nat

  datatype Verdict = Accept | Drop

  datatype Key = Key(src: nat, dst: nat, port: nat)

  /** A cached flow: `payload` is the filled part of its buffer, `ids` the packets it holds. */
  datatype Flow = Flow(key: Key, timestamp: int, expected: nat, payload: seq<byte>, ids: seq<Id>)

  /** `log` is every verdict sent so far; `lost` the packets whose append to a cached flow was refused. */
  datatype State = State(flows: seq<Flow>, lastGc: int, log: seq<(Id, Verdict)>, lost: seq<Id>)

  /**
   What the daemon's surroundings contribute while one packet is handled: the clock, whether calloc
   fails, the bytes that follow the payload in memory, and the outcome of check_access for the content
   of the domain field.
   */
  datatype Context = Context(now: int, oom: bool, beyond: seq<byte>, access: seq<byte> -> Verdict)

  // ----- tcpflow.c

  predicate CanAppend(f: Flow, payload: seq<byte>) {
    |f.ids| < MAX_PACKET_COUNT && |f.payload| + |payload| <= FLOW_PAYLOAD_SIZE
  }

  function Append(f: Flow, id: Id, payload: seq<byte>): Flow {
    f.(payload := f.payload + payload, ids := f.ids + [id])
  }

  predicate IsComplete(f: Flow) {
    |f.payload| >= f.expected
  }

  function NewFlow(key: Key, expected: nat): Flow {
    Flow(key, 0, expected, [], [])
  }

  /** One verdict for each packet, in order. */
  function Answers(ids: seq<Id>, v: Verdict): seq<(Id, Verdict)> {
    seq(|ids|, i requires 0 <= i < |ids| => (ids[i], v))
  }

  predicate Stale(f: Flow, now: int) {
    f.timestamp < now - 5
  }

  /** What the garbage collector leaves in the cache. */
  function Fresh(flows: seq<Flow>, now: int): seq<Flow> {
    if flows == [] then []
    else (if Stale(flows[0], now) then [] else [flows[0]]) + Fresh(flows[1..], now)
  }

  /** The verdicts it sends. */
  function GcAnswers(flows: seq<Flow>, now: int): seq<(Id, Verdict)> {
    if flows == [] then []
    else (if Stale(flows[0], now) then Answers(flows[0].ids, Drop) else []) + GcAnswers(flows[1..], now)
  }

  predicate GcDue(s: State, now: int) {
    s.lastGc < now - 60
  }

  function Gc(s: State, now: int): State {
    State(Fresh(s.flows, now), now, s.log + GcAnswers(s.flows, now), s.lost)
  }

  function Insert(s: State, f: Flow, now: int): State {
    var t := s.(flows := s.flows + [f]);
    if GcDue(s, now) then Gc(t, now) else t
  }

  // ----- tcp443.c

  function Find(flows: seq<Flow>, key: Key): (r: Option<nat>)
    ensures r.Some? ==> r.value < |flows| && flows[r.value].key == key
    ensures r.None? ==> forall i :: 0 <= i < |flows| ==> flows[i].key != key
  {
    if flows == [] then None
    else if flows[0].key == key then Some(0)
    else match Find(flows[1..], key)
      case None => None
      case Some(i) => Some(i + 1)
  }

  /** The flow's buffer, zeroed by calloc, and what follows it. */
  function FlowMemory(f: Flow, beyond: seq<byte>): Memory
    requires |f.payload| <= FLOW_PAYLOAD_SIZE
  {
    f.payload + Zeros(FLOW_PAYLOAD_SIZE - |f.payload|) + beyond
  }

  /** Accept unless a server name is found and refused. */
  function Judge(mem: Memory, length: nat, access: seq<byte> -> Verdict): Verdict {
    match ClientHello.Sni(mem, length)
    case None => Accept
    case Some(name) => access(Domain(name))
  }

  function Answer(s: State, ids: seq<Id>, v: Verdict): State {
    s.(log := s.log + Answers(ids, v))
  }

  /** tcpflow_setverdict_and_free of flow `i`, whose packets are now `ids`. */
  function Settle(s: State, i: nat, ids: seq<Id>, v: Verdict): State
    requires i < |s.flows|
  {
    s.(flows := Without(s.flows, i), log := s.log + Answers(ids, v))
  }

  /** A data packet of a cached flow (lines 50-81). */
  function Continue(s: State, i: nat, id: Id, payload: seq<byte>, c: Context): State
    requires i < |s.flows|
  {
    var f := s.flows[i];
    if !CanAppend(f, payload) then Settle(s, i, f.ids, Accept).(lost := s.lost + [id])
    else
      var g := Append(f, id, payload);
      if IsComplete(g) then Settle(s, i, g.ids, Judge(FlowMemory(g, c.beyond), |g.payload|, c.access))
      else s.(flows := s.flows[i := g])
  }

  predicate StartsHello(payload: seq<byte>)
    requires |payload| >= MIN_PAYLOAD
  {
    payload[0] == 0x16 && payload[5] == 0x01
  }

  function RecordLength(payload: seq<byte>): u16
    requires |payload| >= MIN_PAYLOAD
  {
    Be16(payload[3], payload[4])
  }

  /** A data packet that belongs to no cached flow (lines 83-123). */
  function Begin(s: State, id: Id, key: Key, payload: seq<byte>, c: Context): State
    requires |payload| >= MIN_PAYLOAD
  {
    if !StartsHello(payload) then Answer(s, [id], Accept)
    else if |payload| >= RecordLength(payload) then
      Answer(s, [id], Judge(payload + c.beyond, |payload|, c.access))
    else if RecordLength(payload) > FLOW_PAYLOAD_SIZE || c.oom then Answer(s, [id], Accept)
    else if !CanAppend(NewFlow(key, RecordLength(payload)), payload) then Answer(s, [id], Accept)
    else Insert(s, Append(NewFlow(key, RecordLength(payload)), id, payload), c.now)
  }

  /** packet_handle_tcp443. */
  function Handle443(s: State, id: Id, key: Key, payload: seq<byte>, c: Context): State {
    if |payload| < MIN_PAYLOAD then Answer(s, [id], Accept)
    else match Find(s.flows, key)
      case Some(i) => Continue(s, i, id, payload, c)
      case None => Begin(s, id, key, payload, c)
  }

  // ----- nfqueue.c

  /** `Plain` is every packet that does not go to packet_handle_tcp443: its handler sends one verdict. */
  datatype Packet = Tls(id: Id, key: Key, payload: seq<byte>) | Plain(id: Id, verdict: Verdict)

  datatype Event = Event(packet: Packet, context: Context)

  /** packet_handle. */
  function Step(s: State, e: Event): State {
    match e.packet
    case Tls(id, key, payload) => Handle443(s, id, key, payload, e.context)
    case Plain(id, v) => Answer(s, [id], v)
  }

  const INITIAL := State([], 0, [], [])

  function Run(s: State, events: seq<Event>): State {
    if events == [] then s else Step(Run(s, events[..|events| - 1]), events[|events| - 1])
  }
}
