/**
 Segmentation: a ClientHello record that arrives in several packets is judged as if it had come in
 one, exactly when each of them has at least 10 bytes, there are at most 8 of them and the record fits the
 flow buffer.
 */
module Segments {
  import opened Bytes
  import opened FlowSpec
  import opened FlowRuns
  import opened FlowShape
  import ClientHello

  ghost function Joint(d: seq<(Id, seq<byte>)>): seq<byte> {
    if d == [] then [] else Joint(d[..|d| - 1]) + d[|d| - 1].1
  }

  ghost function IdsOf(d: seq<(Id, seq<byte>)>): seq<Id> {
    seq(|d|, i requires 0 <= i < |d| => d[i].0)
  }

  /** No flow has key `key`. */
  ghost predicate Unknown(s: State, key: Key) {
    forall i :: 0 <= i < |s.flows| ==> s.flows[i].key != key
  }

  ghost predicate NoGc(s: State, e: Event) {
    Step(s, e).lastGc == s.lastGc
  }

  /**
   During the run no collection happens; calloc succeeds for the first data packet of `key`; and at the one
   that completes `record`, the only one check_access is called for, check_access answers by `access`.
   */
  ghost predicate Calm(s: State, events: seq<Event>, key: Key, record: seq<byte>, access: seq<byte> -> Verdict) {
    && (forall n :: 0 <= n < |events| ==> NoGc(Run(s, events[..n]), events[n]))
    && (forall n :: 0 <= n < |events| && IsData(events[n], key) ==> CalmAt(events, n, key, record, access))
  }

  ghost predicate CalmAt(events: seq<Event>, n: nat, key: Key, record: seq<byte>, access: seq<byte> -> Verdict)
    requires n < |events|
  {
    var d := DataOf(events[..n + 1], key);
    (|d| == 1 ==> !events[n].context.oom) && (Joint(d) == record ==> events[n].context.access == access)
  }

  lemma CalmInit(s: State, events: seq<Event>, key: Key, record: seq<byte>, access: seq<byte> -> Verdict)
    requires Calm(s, events, key, record, access) && events != []
    ensures var init, n := events[..|events| - 1], |events| - 1;
      && Calm(s, init, key, record, access) && NoGc(Run(s, init), events[n])
      && (IsData(events[n], key) ==> CalmAt(events, n, key, record, access))
  {
    hide NoGc, Run, DataOf, IsData, Joint;
    var init := events[..|events| - 1];
    forall n | 0 <= n < |init| ensures NoGc(Run(s, init[..n]), init[n]) {
      assert init[..n] == events[..n];
    }
    forall n | 0 <= n < |init| && IsData(init[n], key) ensures CalmAt(init, n, key, record, access) {
      assert CalmAt(events, n, key, record, access);
      assert init[..n + 1] == events[..n + 1];
    }
  }

  // ----- What other packets do to the connection

  /** A packet that is no data packet of `key` neither starts nor touches a flow of `key`. */
  lemma OtherKeepsUnknown(s: State, e: Event, key: Key)
    requires Unknown(s, key) && !IsData(e, key) && NoGc(s, e)
    ensures Unknown(Step(s, e), key)
  {
    hide Judge, FlowMemory, Answers, Fresh, GcAnswers, StartsHello, RecordLength;
  }

  lemma OtherKeepsFlow(s: State, e: Event, f: Flow)
    requires Inv(s) && f in s.flows && !IsData(e, f.key) && NoGc(s, e)
    ensures f in Step(s, e).flows
  {
    hide Judge, FlowMemory, Answers, Fresh, GcAnswers, StartsHello, RecordLength, FlowOk;
    var i :| 0 <= i < |s.flows| && s.flows[i] == f;
    var t := Step(s, e);
    if e.packet.Tls? && |e.packet.payload| >= MIN_PAYLOAD {
      match Find(s.flows, e.packet.key)
      case Some(j) =>
        assert t.flows[if i < j || |t.flows| == |s.flows| then i else i - 1] == f;
      case None =>
        assert t.flows[i] == f;
    }
  }

  lemma FoundByKey(s: State, f: Flow)
    requires Inv(s) && f in s.flows
    ensures var r := Find(s.flows, f.key); r.Some? && s.flows[r.value] == f
  {
    hide FlowOk;
    var i :| 0 <= i < |s.flows| && s.flows[i] == f;
  }

  // ----- One connection

  /** The flow that holds the packets `d`. */
  ghost function Holding(key: Key, expected: nat, d: seq<(Id, seq<byte>)>): Flow {
    Flow(key, 0, expected, Joint(d), IdsOf(d))
  }

  ghost predicate AllGot(log: seq<(Id, Verdict)>, d: seq<(Id, seq<byte>)>, v: Verdict) {
    forall i :: 0 <= i < |d| ==> (d[i].0, v) in log
  }

  /** The record is small enough to be held. */
  ghost predicate Holdable(record: seq<byte>, d: seq<(Id, seq<byte>)>) {
    |d| <= MAX_PACKET_COUNT && |record| <= FLOW_PAYLOAD_SIZE
  }

  /** `record` starts like a ClientHello, and its length field counts what follows the 5-byte record header. */
  ghost predicate IsRecord(record: seq<byte>) {
    |record| >= 2 * MIN_PAYLOAD && StartsHello(record) && RecordLength(record) + 5 == |record|
  }

  /** Where the connection stands after the data packets `d`, of which `record` is the whole. */
  ghost predicate Stands(s: State, key: Key, record: seq<byte>, d: seq<(Id, seq<byte>)>, v: Verdict)
    requires |record| >= MIN_PAYLOAD
  {
    if d == [] then Unknown(s, key)
    else if RecordLength(record) > FLOW_PAYLOAD_SIZE || |d| > MAX_PACKET_COUNT then (d[0].0, Accept) in s.log
    else if Joint(d) != record then Holding(key, RecordLength(record), d) in s.flows
    else if |record| > FLOW_PAYLOAD_SIZE then (d[0].0, Accept) in s.log
    else AllGot(s.log, d, v)
  }

  /** `d` is a proper beginning of the record, at least 10 bytes short of it, or all of it. */
  ghost predicate Beginning(record: seq<byte>, d: seq<(Id, seq<byte>)>) {
    Joint(d) <= record && (Joint(d) == record || |Joint(d)| + MIN_PAYLOAD <= |record|)
  }

  lemma LogKept(s: State, e: Event, x: (Id, Verdict))
    requires x in s.log
    ensures x in Step(s, e).log
  {
    hide Step;
    LogGrows(s, e);
  }

  lemma OtherStands(s: State, e: Event, key: Key, record: seq<byte>, d: seq<(Id, seq<byte>)>, v: Verdict)
    requires |record| >= MIN_PAYLOAD && Inv(s) && NoGc(s, e) && !IsData(e, key) && Stands(s, key, record, d, v)
    ensures Stands(Step(s, e), key, record, d, v)
  {
    hide Step, Inv, IsData, NoGc, Joint, RecordLength;
    if d == [] {
      OtherKeepsUnknown(s, e, key);
    } else if Holding(key, RecordLength(record), d) in s.flows {
      OtherKeepsFlow(s, e, Holding(key, RecordLength(record), d));
    }
    if d != [] && (d[0].0, Accept) in s.log {
      LogKept(s, e, (d[0].0, Accept));
    }
    if AllGot(s.log, d, v) {
      forall i | 0 <= i < |d| ensures (d[i].0, v) in Step(s, e).log {
        LogKept(s, e, (d[i].0, v));
      }
    }
  }

  lemma JointSnoc(d: seq<(Id, seq<byte>)>, id: Id, payload: seq<byte>)
    ensures Joint(d + [(id, payload)]) == Joint(d) + payload
    ensures IdsOf(d + [(id, payload)]) == IdsOf(d) + [id]
  {
    assert (d + [(id, payload)])[..|d|] == d;
  }

  lemma PrefixHeader(record: seq<byte>, payload: seq<byte>)
    requires MIN_PAYLOAD <= |payload| && payload <= record
    ensures StartsHello(payload) == StartsHello(record) && RecordLength(payload) == RecordLength(record)
  {
  }

  /** The first data packet. */
  lemma FirstStands(s: State, e: Event, key: Key, record: seq<byte>, v: Verdict)
    requires IsRecord(record) && IsData(e, key) && NoGc(s, e) && !e.context.oom && Unknown(s, key)
    requires e.packet.payload <= record && |e.packet.payload| + MIN_PAYLOAD <= |record|
    ensures Stands(Step(s, e), key, record, [(e.packet.id, e.packet.payload)], v)
  {
    hide Be16, Judge, Fresh, GcAnswers;
    var id, payload := e.packet.id, e.packet.payload;
    PrefixHeader(record, payload);
    var d := [(id, payload)];
    JointSnoc([], id, payload);
    assert [] + d == d && [] + payload == payload && IdsOf([]) + [id] == [id];
    var t := Step(s, e);
    if RecordLength(record) > FLOW_PAYLOAD_SIZE {
      assert t.log[|s.log|] == (id, Accept);
    } else {
      assert t.flows[|s.flows|] == Holding(key, RecordLength(record), d);
    }
  }

  lemma GotAnswers(log: seq<(Id, Verdict)>, d: seq<(Id, seq<byte>)>, v: Verdict)
    ensures AllGot(log + Answers(IdsOf(d), v), d, v)
  {
    forall i | 0 <= i < |d| ensures (d[i].0, v) in log + Answers(IdsOf(d), v) {
      AnsweredBy(log, IdsOf(d), v, i);
    }
  }

  /** A later data packet while the flow is held. */
  lemma NextStands(s: State, e: Event, key: Key, record: seq<byte>, d: seq<(Id, seq<byte>)>, v: Verdict)
    requires IsRecord(record) && RecordLength(record) <= FLOW_PAYLOAD_SIZE && Inv(s) && IsData(e, key)
    requires d != [] && |d| <= MAX_PACKET_COUNT && Holding(key, RecordLength(record), d) in s.flows
    requires var d' := d + [(e.packet.id, e.packet.payload)]; Beginning(record, d')
    requires |record| <= FLOW_PAYLOAD_SIZE && Joint(d + [(e.packet.id, e.packet.payload)]) == record ==>
               Judge(record + Zeros(FLOW_PAYLOAD_SIZE - |record|) + e.context.beyond, |record|, e.context.access) == v
    ensures Stands(Step(s, e), key, record, d + [(e.packet.id, e.packet.payload)], v)
  {
    hide Judge, Be16, Zeros, Answers, Inv, StartsHello, RecordLength, Joint;
    var id, payload, c := e.packet.id, e.packet.payload, e.context;
    var d' := d + [(id, payload)];
    var f := Holding(key, RecordLength(record), d);
    JointSnoc(d, id, payload);
    FoundByKey(s, f);
    var i := Find(s.flows, key).value;
    var t := Step(s, e);
    assert t == Continue(s, i, id, payload, c);
    if !CanAppend(f, payload) {
      GotAnswers(s.log, d, Accept);
      assert (d'[0].0, Accept) in t.log;
    } else {
      var g := Append(f, id, payload);
      assert g == Holding(key, RecordLength(record), d');
      if Joint(d') == record {
        GotAnswers(s.log, d', v);
      } else {
        assert t.flows[i] == g;
      }
    }
  }

  /** A data packet after the flow was given up leaves the early verdict in the log. */
  lemma LateStands(s: State, e: Event, key: Key, record: seq<byte>, d: seq<(Id, seq<byte>)>, v: Verdict)
    requires |record| >= MIN_PAYLOAD && e.packet.Tls? && d != [] && (d[0].0, Accept) in s.log
    requires RecordLength(record) > FLOW_PAYLOAD_SIZE || |d| > MAX_PACKET_COUNT
    ensures Stands(Step(s, e), key, record, d + [(e.packet.id, e.packet.payload)], v)
  {
    hide Step, RecordLength, Joint;
    LogKept(s, e, (d[0].0, Accept));
  }

  /** The verdict a flow that holds the whole record is given, whatever lies behind the buffer. */
  ghost predicate JudgedAs(record: seq<byte>, access: seq<byte> -> Verdict, v: Verdict) {
    forall beyond :: Judge(record + beyond, |record|, access) == v
  }

  lemma DataStands(s: State, e: Event, key: Key, record: seq<byte>, d: seq<(Id, seq<byte>)>, v: Verdict)
    requires IsRecord(record) && Inv(s) && IsData(e, key) && NoGc(s, e) && Stands(s, key, record, d, v)
    requires d == [] ==> !e.context.oom
    requires Joint(d + [(e.packet.id, e.packet.payload)]) == record ==> JudgedAs(record, e.context.access, v)
    requires var d' := d + [(e.packet.id, e.packet.payload)];
      Beginning(record, d') && |d'| >= 2 - (if Joint(d') == record then 0 else 1)
    ensures Stands(Step(s, e), key, record, d + [(e.packet.id, e.packet.payload)], v)
  {
    hide Step, Inv, NoGc, Judge, StartsHello, RecordLength, Zeros;
    var id, payload := e.packet.id, e.packet.payload;
    JointSnoc(d, id, payload);
    if d == [] {
      assert d + [(id, payload)] == [(id, payload)] && Joint(d) + payload == payload;
      FirstStands(s, e, key, record, v);
    } else if RecordLength(record) > FLOW_PAYLOAD_SIZE || |d| > MAX_PACKET_COUNT {
      LateStands(s, e, key, record, d, v);
    } else {
      assert Joint(d) != record;
      if |record| <= FLOW_PAYLOAD_SIZE && Joint(d + [(id, payload)]) == record {
        var z := Zeros(FLOW_PAYLOAD_SIZE - |record|);
        assert record + z + e.context.beyond == record + (z + e.context.beyond);
      }
      NextStands(s, e, key, record, d, v);
    }
  }

  /** Parts of a record cut into data packets are beginnings of it. */
  lemma InitBeginning(record: seq<byte>, d: seq<(Id, seq<byte>)>, id: Id, payload: seq<byte>)
    requires |payload| >= MIN_PAYLOAD && Beginning(record, d + [(id, payload)])
    ensures Beginning(record, d) && Joint(d) != record
  {
    JointSnoc(d, id, payload);
  }

  lemma {:induction false} RunStands(s: State, events: seq<Event>, key: Key, record: seq<byte>,
      access: seq<byte> -> Verdict, v: Verdict)
    requires IsRecord(record) && Inv(s) && Unknown(s, key) && Calm(s, events, key, record, access)
    requires JudgedAs(record, access, v)
    requires Beginning(record, DataOf(events, key))
    requires |DataOf(events, key)| == 1 ==> Joint(DataOf(events, key)) != record
    ensures Stands(Run(s, events), key, record, DataOf(events, key), v)
  {
    hide Step, Inv, NoGc, JudgedAs, IsRecord, Stands, Beginning, Joint;
    if events == [] {
      StandsAtFirst(s, key, record, v);
    } else {
      var init, e := events[..|events| - 1], events[|events| - 1];
      var d := DataOf(init, key);
      CalmInit(s, events, key, record, access);
      assert events[..|events|] == events;
      RunKeepsInv(s, init);
      if IsData(e, key) {
        InitBeginning(record, d, e.packet.id, e.packet.payload);
        RunStands(s, init, key, record, access, v);
        DataStands(Run(s, init), e, key, record, d, v);
      } else {
        assert DataOf(events, key) == d;
        RunStands(s, init, key, record, access, v);
        RecordHasHeader(record);
        OtherStands(Run(s, init), e, key, record, d, v);
      }
    }
  }

  lemma RecordHasHeader(record: seq<byte>)
    requires IsRecord(record)
    ensures |record| >= MIN_PAYLOAD
  {
  }

  lemma StandsAtFirst(s: State, key: Key, record: seq<byte>, v: Verdict)
    requires IsRecord(record) && Unknown(s, key)
    ensures Stands(s, key, record, [], v)
  {
  }

  // ----- The theorems

  /** The verdict on a ClientHello: what check_access says of its first server name, if it has one. */
  ghost function HelloVerdict(h: ClientHello.Hello, access: seq<byte> -> Verdict): Verdict {
    match ClientHello.FirstName(h.extensions, ClientHello.MAX_EXTENSIONS)
    case None => Accept
    case Some(name) => access(Domain(name))
  }

  lemma EncodedIsRecord(h: ClientHello.Hello)
    requires ClientHello.Fits(h)
    ensures IsRecord(ClientHello.EncodeRecord(h))
  {
    hide ClientHello.EncodeHead, ClientHello.EncodeBody, Be16;
    var r := ClientHello.EncodeRecord(h);
    ClientHello.HeadFields(r, h, ClientHello.EncodeBody(h));
    assert Read16(r, 3) == Be16(r[3], r[4]);
  }

  lemma EncodedJudgedAs(h: ClientHello.Hello, access: seq<byte> -> Verdict)
    requires ClientHello.Fits(h)
    ensures JudgedAs(ClientHello.EncodeRecord(h), access, HelloVerdict(h, access))
  {
    hide ClientHello.Sni, ClientHello.FirstName, ClientHello.EncodeRecord;
    var r := ClientHello.EncodeRecord(h);
    forall beyond ensures Judge(r + beyond, |r|, access) == HelloVerdict(h, access) {
      ClientHello.SniRoundTrip(r + beyond, h, |r|);
    }
  }

  /** The record in one packet is answered at once with the verdict on its ClientHello. */
  lemma WholeRecord(s: State, e: Event, h: ClientHello.Hello)
    requires e.packet.Tls? && Unknown(s, e.packet.key) && ClientHello.Fits(h)
    requires e.packet.payload == ClientHello.EncodeRecord(h)
    ensures Step(s, e) == Answer(s, [e.packet.id], HelloVerdict(h, e.context.access))
  {
    hide Judge, Answer, ClientHello.EncodeRecord, HelloVerdict, Be16;
    EncodedIsRecord(h);
    EncodedJudgedAs(h, e.context.access);
  }

  /**
   The record in two or more data packets, with packets of other connections anywhere in between: if
   there are at most 8 of them and the record fits the buffer, every one of them gets the verdict the
   whole record would get; if not, the first one is accepted whatever the ClientHello says.
   */
  lemma SegmentedRecord(s: State, events: seq<Event>, key: Key, h: ClientHello.Hello, access: seq<byte> -> Verdict)
    requires Inv(s) && Unknown(s, key) && ClientHello.Fits(h)
    requires Calm(s, events, key, ClientHello.EncodeRecord(h), access)
    requires Joint(DataOf(events, key)) == ClientHello.EncodeRecord(h) && |DataOf(events, key)| >= 2
    ensures var d, t := DataOf(events, key), Run(s, events);
      if Holdable(ClientHello.EncodeRecord(h), d) then AllGot(t.log, d, HelloVerdict(h, access))
      else (d[0].0, Accept) in t.log
  {
    hide Run, Inv, Calm, HelloVerdict, Joint, DataOf, ClientHello.EncodeRecord;
    var record := ClientHello.EncodeRecord(h);
    EncodedIsRecord(h);
    EncodedJudgedAs(h, access);
    RunStands(s, events, key, record, access, HelloVerdict(h, access));
  }

  // ----- Exactly when

  /** The verdicts packet `x` has been given. */
  ghost function Verdicts(log: seq<(Id, Verdict)>, x: Id): set<Verdict> {
    set j | 0 <= j < |log| && log[j].0 == x :: log[j].1
  }

  lemma TwiceTimes(s: seq<Id>, i: nat, j: nat)
    requires i < j < |s| && s[i] == s[j]
    ensures Times(s, s[i]) >= 2
  {
    var x := s[i];
    assert s == s[..j] + s[j..];
    TimesConcat(s[..j], s[j..], x);
    assert s[..j][i] == x && s[j..][0] == x;
  }

  /** A packet answered once has one verdict. */
  lemma OneVerdict(log: seq<(Id, Verdict)>, x: Id, v: Verdict)
    requires Times(LogIds(log), x) <= 1 && (x, v) in log
    ensures Verdicts(log, x) == {v}
  {
    var i :| 0 <= i < |log| && log[i] == (x, v);
    forall j | 0 <= j < |log| && log[j].0 == x ensures j == i {
      if j < i {
        TwiceTimes(LogIds(log), j, i);
      } else if i < j {
        TwiceTimes(LogIds(log), i, j);
      }
    }
  }

  lemma {:induction false} DataReceived(events: seq<Event>, key: Key, i: nat)
    requires i < |DataOf(events, key)|
    ensures exists n :: 0 <= n < |events| && events[n].packet.id == DataOf(events, key)[i].0
  {
    var init, e := events[..|events| - 1], events[|events| - 1];
    var d := DataOf(init, key);
    if i < |d| {
      DataReceived(init, key, i);
      var n :| 0 <= n < |init| && init[n].packet.id == d[i].0;
      assert events[n].packet.id == DataOf(events, key)[i].0;
    } else {
      assert events[|events| - 1].packet.id == DataOf(events, key)[i].0;
    }
  }

  /**
   In a run with distinct packet ids, a ClientHello that arrives in two to 8 packets of at least 10 bytes and
   is at most 12000 bytes long has every one of them given one verdict, that of the whole record.
   */
  lemma DataIndependent(before: seq<Event>, events: seq<Event>, key: Key, h: ClientHello.Hello,
                        access: seq<byte> -> Verdict)
    requires DistinctIds(before + events) && Unknown(Run(INITIAL, before), key) && ClientHello.Fits(h)
    requires Calm(Run(INITIAL, before), events, key, ClientHello.EncodeRecord(h), access)
    requires Joint(DataOf(events, key)) == ClientHello.EncodeRecord(h) && |DataOf(events, key)| >= 2
    requires Holdable(ClientHello.EncodeRecord(h), DataOf(events, key))
    ensures var d, log := DataOf(events, key), Run(INITIAL, before + events).log;
      forall i :: 0 <= i < |d| ==> Verdicts(log, d[i].0) == {HelloVerdict(h, access)}
  {
    hide Run, Calm, HelloVerdict, Joint, DataOf, Unknown, ClientHello.EncodeRecord, ClientHello.Fits, Inv, Verdicts,
         DistinctIds;
    var d, log := DataOf(events, key), Run(INITIAL, before + events).log;
    ReachableFlowsOk(before);
    SegmentedRecord(Run(INITIAL, before), events, key, h, access);
    RunConcat(INITIAL, before, events);
    forall i | 0 <= i < |d| ensures Verdicts(log, d[i].0) == {HelloVerdict(h, access)} {
      VerdictIs(before, events, key, i, HelloVerdict(h, access));
    }
  }

  /** Otherwise the first data packet is accepted, whatever the ClientHello says. */
  lemma UnheldAccepted(before: seq<Event>, events: seq<Event>, key: Key, h: ClientHello.Hello,
                       access: seq<byte> -> Verdict)
    requires DistinctIds(before + events) && Unknown(Run(INITIAL, before), key) && ClientHello.Fits(h)
    requires Calm(Run(INITIAL, before), events, key, ClientHello.EncodeRecord(h), access)
    requires Joint(DataOf(events, key)) == ClientHello.EncodeRecord(h) && |DataOf(events, key)| >= 2
    requires !Holdable(ClientHello.EncodeRecord(h), DataOf(events, key))
    ensures Verdicts(Run(INITIAL, before + events).log, DataOf(events, key)[0].0) == {Accept}
  {
    hide Run, Calm, HelloVerdict, Joint, DataOf, Unknown, ClientHello.EncodeRecord, ClientHello.Fits, Inv, Verdicts,
         DistinctIds;
    ReachableFlowsOk(before);
    SegmentedRecord(Run(INITIAL, before), events, key, h, access);
    RunConcat(INITIAL, before, events);
    VerdictIs(before, events, key, 0, Accept);
  }

  lemma VerdictIs(before: seq<Event>, events: seq<Event>, key: Key, i: nat, v: Verdict)
    requires DistinctIds(before + events) && i < |DataOf(events, key)|
    requires (DataOf(events, key)[i].0, v) in Run(INITIAL, before + events).log
    ensures Verdicts(Run(INITIAL, before + events).log, DataOf(events, key)[i].0) == {v}
  {
    hide Run, DataOf, Verdicts, DistinctIds, HeldTimes, LogIds, Times;
    var x := DataOf(events, key)[i].0;
    DataReceived(events, key, i);
    var n :| 0 <= n < |events| && events[n].packet.id == x;
    assert (before + events)[|before| + n] == events[n];
    ExactlyOnePlace(before + events, |before| + n);
    OneVerdict(Run(INITIAL, before + events).log, x, v);
  }

  // ----- Packets of any size

  /** A packet of the connection that carries data, however little. */
  ghost predicate Carries(e: Event, key: Key) {
    e.packet.Tls? && e.packet.key == key && e.packet.payload != []
  }

  /** The packets of one connection in a run that carry data, in order of arrival. */
  ghost function PacketsOf(events: seq<Event>, key: Key): seq<(Id, seq<byte>)> {
    if events == [] then []
    else
      var e := events[|events| - 1];
      PacketsOf(events[..|events| - 1], key) + (if Carries(e, key) then [(e.packet.id, e.packet.payload)] else [])
  }

  ghost predicate AllLong(p: seq<(Id, seq<byte>)>) {
    forall i :: 0 <= i < |p| ==> |p[i].1| >= MIN_PAYLOAD
  }

  lemma {:induction false} LongAreData(events: seq<Event>, key: Key)
    requires AllLong(PacketsOf(events, key))
    ensures DataOf(events, key) == PacketsOf(events, key)
  {
    if events != [] {
      var init, e := events[..|events| - 1], events[|events| - 1];
      var p := PacketsOf(init, key);
      forall i | 0 <= i < |p| ensures |p[i].1| >= MIN_PAYLOAD {
        assert PacketsOf(events, key)[i] == p[i];
      }
      LongAreData(init, key);
      if Carries(e, key) {
        assert PacketsOf(events, key)[|p|] == (e.packet.id, e.packet.payload);
      }
    }
  }

  lemma ShortAnswered(s: State, e: Event)
    requires e.packet.Tls? && |e.packet.payload| < MIN_PAYLOAD
    ensures (e.packet.id, Accept) in Step(s, e).log
  {
    assert Step(s, e).log[|s.log|] == (e.packet.id, Accept);
  }

  /** A packet of less than 10 bytes is accepted as it comes. */
  lemma {:induction false} ShortAccepted(s: State, events: seq<Event>, key: Key, i: nat)
    requires i < |PacketsOf(events, key)| && |PacketsOf(events, key)[i].1| < MIN_PAYLOAD
    ensures (PacketsOf(events, key)[i].0, Accept) in Run(s, events).log
  {
    hide Step;
    var init, e := events[..|events| - 1], events[|events| - 1];
    var p := PacketsOf(init, key);
    if i < |p| {
      ShortAccepted(s, init, key, i);
      LogKept(Run(s, init), e, (p[i].0, Accept));
    } else {
      ShortAnswered(Run(s, init), e);
    }
  }

  /** Nothing about the cut gets in the way: no small packet, not too many of them, not too long a record. */
  ghost predicate WellCut(record: seq<byte>, p: seq<(Id, seq<byte>)>) {
    (forall i :: 0 <= i < |p| ==> |p[i].1| >= 10) && |p| <= 8 && |record| <= 12000
  }

  /**
   Segmentation independence: in a run with distinct packet ids, every one of two or more packets that carry
   a ClientHello is given exactly one verdict, that of the whole record, whichever it is, if the record is
   well cut.
   */
  lemma SegmentationIndependent(before: seq<Event>, events: seq<Event>, key: Key, h: ClientHello.Hello,
                                access: seq<byte> -> Verdict)
    requires DistinctIds(before + events) && Unknown(Run(INITIAL, before), key) && ClientHello.Fits(h)
    requires Calm(Run(INITIAL, before), events, key, ClientHello.EncodeRecord(h), access)
    requires Joint(PacketsOf(events, key)) == ClientHello.EncodeRecord(h) && |PacketsOf(events, key)| >= 2
    requires WellCut(ClientHello.EncodeRecord(h), PacketsOf(events, key))
    ensures var p, log := PacketsOf(events, key), Run(INITIAL, before + events).log;
      forall i :: 0 <= i < |p| ==> Verdicts(log, p[i].0) == {HelloVerdict(h, access)}
  {
    hide Run, Calm, HelloVerdict, Joint, DataOf, PacketsOf, Unknown, ClientHello.EncodeRecord, ClientHello.Fits,
         Verdicts, DistinctIds, AllLong;
    LongAreData(events, key);
    DataIndependent(before, events, key, h, access);
  }

  /**
   And only if: a ClientHello that is to be dropped and comes in two or more packets has every one of them
   dropped, and given no other verdict, exactly when each of them has at least 10 bytes, there are at most 8
   of them and the record is at most 12000 bytes long.
   */
  lemma SegmentationExact(before: seq<Event>, events: seq<Event>, key: Key, h: ClientHello.Hello,
                          access: seq<byte> -> Verdict)
    requires DistinctIds(before + events) && Unknown(Run(INITIAL, before), key) && ClientHello.Fits(h)
    requires Calm(Run(INITIAL, before), events, key, ClientHello.EncodeRecord(h), access)
    requires Joint(PacketsOf(events, key)) == ClientHello.EncodeRecord(h) && |PacketsOf(events, key)| >= 2
    requires HelloVerdict(h, access) == Drop
    ensures var p, log := PacketsOf(events, key), Run(INITIAL, before + events).log;
      WellCut(ClientHello.EncodeRecord(h), p) <==> forall i :: 0 <= i < |p| ==> Verdicts(log, p[i].0) == {Drop}
  {
    hide Run, Calm, HelloVerdict, Joint, DataOf, PacketsOf, Unknown, ClientHello.EncodeRecord, ClientHello.Fits,
         Verdicts, DistinctIds;
    var p, record := PacketsOf(events, key), ClientHello.EncodeRecord(h);
    if WellCut(record, p) {
      SegmentationIndependent(before, events, key, h, access);
    } else if AllLong(p) {
      LongAreData(events, key);
      UnheldAccepted(before, events, key, h, access);
      assert Accept in Verdicts(Run(INITIAL, before + events).log, p[0].0);
    } else {
      var i :| 0 <= i < |p| && |p[i].1| < MIN_PAYLOAD;
      ShortAccepted(Run(INITIAL, before), events, key, i);
      RunConcat(INITIAL, before, events);
      AmongVerdicts(Run(INITIAL, before + events).log, p[i].0, Accept);
    }
  }

  lemma AmongVerdicts(log: seq<(Id, Verdict)>, x: Id, v: Verdict)
    requires (x, v) in log
    ensures v in Verdicts(log, x)
  {
    var j :| 0 <= j < |log| && log[j] == (x, v);
  }

  // ----- A ClientHello that gets through

  /** A ClientHello with one server name of 29 bytes; its record is 90 bytes long. */
  ghost function SmallHello(): ClientHello.Hello {
    var name := seq<byte>(29, _ => 97);
    ClientHello.Hello([3, 1], [3, 3], Zeros(32), [], [0, 47], [0], [ClientHello.ServerName(name, [])])
  }

  lemma SmallHelloFits()
    ensures ClientHello.Fits(SmallHello()) && |ClientHello.EncodeRecord(SmallHello())| == 90
  {
    hide ClientHello.EncodeExtension, ClientHello.EncodeExtensions, ClientHello.EncodeRecord;
    var e := SmallHello().extensions[0];
    ClientHello.ExtensionLength(e);
    ClientHello.OneExtension(e);
    assert SmallHello().extensions == [e];
  }

  const DROP: seq<byte> -> Verdict := _ => Drop

  /** Its first `10 * k` bytes, ten at a time. */
  ghost function Slices(record: seq<byte>, k: nat): (r: seq<Event>)
    requires 10 * k <= |record|
    ensures |r| == k
  {
    seq(k, n requires 0 <= n < k =>
      Event(Tls(n, CONNECTION, record[10 * n..10 * n + 10]), Context(0, false, [], DROP)))
  }

  lemma {:induction false} SlicesData(record: seq<byte>, k: nat)
    requires 10 * k <= |record|
    ensures var d := DataOf(Slices(record, k), CONNECTION);
      |d| == k && Joint(d) == record[..10 * k] && forall n :: 0 <= n < k ==> d[n].0 == n
  {
    if k > 0 {
      hide Joint;
      SlicesData(record, k - 1);
      var d := DataOf(Slices(record, k - 1), CONNECTION);
      SlicesSnoc(record, k);
      JointSnoc(d, k - 1, record[10 * k - 10..10 * k]);
      assert record[..10 * k] == record[..10 * k - 10] + record[10 * k - 10..10 * k];
    } else {
      assert record[..0] == [];
    }
  }

  lemma SlicesSnoc(record: seq<byte>, k: nat)
    requires 0 < k && 10 * k <= |record|
    ensures DataOf(Slices(record, k), CONNECTION)
         == DataOf(Slices(record, k - 1), CONNECTION) + [(k - 1, record[10 * k - 10..10 * k])]
  {
    assert Slices(record, k)[..k - 1] == Slices(record, k - 1);
  }

  lemma StepAtZero(s: State, e: Event)
    requires s.lastGc == 0 && e.context.now == 0
    ensures Step(s, e).lastGc == 0
  {
    hide Judge, FlowMemory, Answers, Fresh, GcAnswers, StartsHello, RecordLength;
  }

  lemma {:induction false} RunAtZero(events: seq<Event>)
    requires forall n :: 0 <= n < |events| ==> events[n].context.now == 0
    ensures Run(INITIAL, events).lastGc == 0
  {
    hide Step;
    if events != [] {
      RunAtZero(events[..|events| - 1]);
      StepAtZero(Run(INITIAL, events[..|events| - 1]), events[|events| - 1]);
    }
  }

  lemma SlicesCalm(record: seq<byte>, k: nat)
    requires 10 * k <= |record|
    ensures Calm(INITIAL, Slices(record, k), CONNECTION, record, DROP) && DistinctIds(Slices(record, k))
  {
    hide Step, Run;
    var events := Slices(record, k);
    forall n | 0 <= n < k ensures NoGc(Run(INITIAL, events[..n]), events[n]) {
      RunAtZero(events[..n]);
      StepAtZero(Run(INITIAL, events[..n]), events[n]);
    }
  }

  /**
   An input that shows it: check_access refuses every name, and one packet that carries this ClientHello is
   dropped; cut into nine packets, the first one is accepted.
   */
  lemma NineSlicesGetThrough()
    ensures ClientHello.Fits(SmallHello()) && |ClientHello.EncodeRecord(SmallHello())| == 90
    ensures var record := ClientHello.EncodeRecord(SmallHello());
      && Step(INITIAL, Event(Tls(0, CONNECTION, record), Context(0, false, [], DROP))).log == [(0, Drop)]
      && Verdicts(Run(INITIAL, Slices(record, 9)).log, 0) == {Accept}
  {
    hide ClientHello.EncodeRecord, ClientHello.Fits, Step, Run, Calm, DistinctIds, Joint, DataOf, Slices, Verdicts;
    var h := SmallHello();
    SmallHelloFits();
    var record := ClientHello.EncodeRecord(h);
    SmallHelloDropped();
    WholeRecord(INITIAL, Event(Tls(0, CONNECTION, record), Context(0, false, [], DROP)), h);
    var events := Slices(record, 9);
    SlicesData(record, 9);
    assert record[..90] == record;
    SlicesCalm(record, 9);
    assert [] + events == events && Run(INITIAL, []) == INITIAL by {
      RunNothing();
    }
    UnheldAccepted([], events, CONNECTION, h, DROP);
  }

  lemma RunNothing()
    ensures Run(INITIAL, []) == INITIAL
  {
  }

  lemma SmallHelloDropped()
    ensures HelloVerdict(SmallHello(), DROP) == Drop
  {
  }

  /** A shorter one: five bytes, then the rest.  Both packets are accepted at once. */
  lemma FiveBytesFirst()
    ensures ClientHello.Fits(SmallHello()) && |ClientHello.EncodeRecord(SmallHello())| == 90
    ensures var record, c := ClientHello.EncodeRecord(SmallHello()), Context(0, false, [], DROP);
      Run(INITIAL, [Event(Tls(0, CONNECTION, record[..5]), c), Event(Tls(1, CONNECTION, record[5..]), c)]).log
        == [(0, Accept), (1, Accept)]
  {
    hide ClientHello.EncodeRecord, ClientHello.Fits, Judge;
    SmallHelloFits();
    var h := SmallHello();
    var record, c := ClientHello.EncodeRecord(h), Context(0, false, [], DROP);
    EncodedIsRecord(h);
    assert record[5..][0] == record[5] == 0x01;
    var a, b := Event(Tls(0, CONNECTION, record[..5]), c), Event(Tls(1, CONNECTION, record[5..]), c);
    assert [a, b][..1] == [a] && [a][..0] == [];
    assert Run(INITIAL, [a]) == Answer(INITIAL, [0], Accept);
    assert Answers([0], Accept) == [(0, Accept)] && Answers([1], Accept) == [(1, Accept)];
    assert Run(INITIAL, [a, b]) == Answer(Run(INITIAL, [a]), [1], Accept);
  }
}
