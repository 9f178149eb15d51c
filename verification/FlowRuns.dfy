/** Verdict conservation over every run of the verdict machine, and which packets get no verdict. */
module FlowRuns {
  import opened Bytes
  import opened FlowSpec
  import opened Kept

  // ----- Verdict conservation

  function LogIds(log: seq<(Id, Verdict)>): seq<Id> {
    seq(|log|, i requires 0 <= i < |log| => log[i].0)
  }

  /** How often `x` occurs in `s`. */
  function Times(s: seq<Id>, x: Id): nat {
    multiset(s)[x]
  }

  lemma TimesConcat(a: seq<Id>, b: seq<Id>, x: Id)
    ensures Times(a + b, x) == Times(a, x) + Times(b, x)
  {
    assert multiset(a + b) == multiset(a) + multiset(b);
  }

  function HeldTimes(flows: seq<Flow>, x: Id): nat {
    if flows == [] then 0 else Times(flows[0].ids, x) + HeldTimes(flows[1..], x)
  }

  /** How often packet `x` has been answered, is held by a cached flow, or was lost. */
  function Accounted(s: State, x: Id): nat {
    Times(LogIds(s.log), x) + HeldTimes(s.flows, x) + Times(s.lost, x)
  }

  lemma LogAppend(log: seq<(Id, Verdict)>, more: seq<(Id, Verdict)>, x: Id)
    ensures Times(LogIds(log + more), x) == Times(LogIds(log), x) + Times(LogIds(more), x)
  {
    assert LogIds(log + more) == LogIds(log) + LogIds(more);
    TimesConcat(LogIds(log), LogIds(more), x);
  }

  lemma LogAnswers(log: seq<(Id, Verdict)>, ids: seq<Id>, v: Verdict, x: Id)
    ensures Times(LogIds(log + Answers(ids, v)), x) == Times(LogIds(log), x) + Times(ids, x)
  {
    LogAppend(log, Answers(ids, v), x);
    assert LogIds(Answers(ids, v)) == ids;
  }

  lemma {:induction false} HeldConcat(a: seq<Flow>, b: seq<Flow>, x: Id)
    ensures HeldTimes(a + b, x) == HeldTimes(a, x) + HeldTimes(b, x)
  {
    if a == [] {
      assert a + b == b;
    } else {
      HeldConcat(a[1..], b, x);
      assert (a + b)[1..] == a[1..] + b;
    }
  }

  lemma HeldSplit(flows: seq<Flow>, i: nat, x: Id)
    requires i < |flows|
    ensures HeldTimes(flows, x) == HeldTimes(flows[..i], x) + Times(flows[i].ids, x) + HeldTimes(flows[i + 1..], x)
  {
    HeldConcat(flows[..i], flows[i..], x);
    assert flows == flows[..i] + flows[i..];
    assert flows[i..][1..] == flows[i + 1..];
  }

  lemma HeldRemove(flows: seq<Flow>, i: nat, x: Id)
    requires i < |flows|
    ensures HeldTimes(flows, x) == HeldTimes(Without(flows, i), x) + Times(flows[i].ids, x)
  {
    HeldSplit(flows, i, x);
    HeldConcat(flows[..i], flows[i + 1..], x);
  }

  lemma HeldUpdate(flows: seq<Flow>, i: nat, f: Flow, x: Id)
    requires i < |flows|
    ensures HeldTimes(flows[i := f], x) + Times(flows[i].ids, x) == HeldTimes(flows, x) + Times(f.ids, x)
  {
    HeldSplit(flows, i, x);
    HeldSplit(flows[i := f], i, x);
    assert flows[i := f][..i] == flows[..i] && flows[i := f][i + 1..] == flows[i + 1..];
  }

  lemma HeldOne(f: Flow, x: Id)
    ensures HeldTimes([f], x) == Times(f.ids, x)
  {
    assert [f][1..] == [];
  }

  lemma {:induction false} GcAccounted(flows: seq<Flow>, now: int, x: Id)
    ensures HeldTimes(flows, x) == HeldTimes(Fresh(flows, now), x) + Times(LogIds(GcAnswers(flows, now)), x)
  {
    hide Times, Answers;
    if flows == [] {
      NoIds(x);
    } else {
      GcAccounted(flows[1..], now, x);
      var rest := GcAnswers(flows[1..], now);
      if Stale(flows[0], now) {
        var mine := Answers(flows[0].ids, Drop);
        LogAppend(mine, rest, x);
        LogAnswers([], flows[0].ids, Drop, x);
        NoIds(x);
        assert [] + mine == mine && [] + Fresh(flows[1..], now) == Fresh(flows[1..], now);
      } else {
        HeldConcat([flows[0]], Fresh(flows[1..], now), x);
        HeldOne(flows[0], x);
        assert [] + rest == rest;
      }
    }
  }

  lemma NoIds(x: Id)
    ensures Times(LogIds([]), x) == 0
  {
  }

  lemma AnswerAccounted(s: State, ids: seq<Id>, v: Verdict, x: Id)
    ensures Accounted(Answer(s, ids, v), x) == Accounted(s, x) + Times(ids, x)
  {
    hide LogIds, Times, Answers;
    LogAnswers(s.log, ids, v, x);
  }

  lemma SettleAccounted(s: State, i: nat, ids: seq<Id>, v: Verdict, x: Id)
    requires i < |s.flows|
    ensures Accounted(Settle(s, i, ids, v), x) + Times(s.flows[i].ids, x) == Accounted(s, x) + Times(ids, x)
  {
    hide LogIds, Times, Answers;
    LogAnswers(s.log, ids, v, x);
    HeldRemove(s.flows, i, x);
  }

  lemma ContinueAccounted(s: State, i: nat, id: Id, payload: seq<byte>, c: Context, x: Id)
    requires i < |s.flows|
    ensures Accounted(Continue(s, i, id, payload, c), x) == Accounted(s, x) + Times([id], x)
  {
    hide LogIds, Times, Answers, HeldTimes, Judge, FlowMemory;
    var f := s.flows[i];
    if !CanAppend(f, payload) {
      SettleAccounted(s, i, f.ids, Accept, x);
      TimesConcat(s.lost, [id], x);
    } else {
      var g := Append(f, id, payload);
      TimesConcat(f.ids, [id], x);
      if IsComplete(g) {
        SettleAccounted(s, i, g.ids, Judge(FlowMemory(g, c.beyond), |g.payload|, c.access), x);
      } else {
        HeldUpdate(s.flows, i, g, x);
      }
    }
  }

  lemma InsertAccounted(s: State, f: Flow, now: int, x: Id)
    ensures Accounted(Insert(s, f, now), x) == Accounted(s, x) + Times(f.ids, x)
  {
    hide LogIds, Times, HeldTimes, Fresh, GcAnswers;
    HeldConcat(s.flows, [f], x);
    HeldOne(f, x);
    GcAccounted(s.flows + [f], now, x);
    LogAppend(s.log, GcAnswers(s.flows + [f], now), x);
  }

  lemma BeginAccounted(s: State, id: Id, key: Key, payload: seq<byte>, c: Context, x: Id)
    requires |payload| >= MIN_PAYLOAD
    ensures Accounted(Begin(s, id, key, payload, c), x) == Accounted(s, x) + Times([id], x)
  {
    hide Accounted, Answer, Insert, Judge, StartsHello, RecordLength, Times;
    AnswerAccounted(s, [id], Accept, x);
    AnswerAccounted(s, [id], Judge(payload + c.beyond, |payload|, c.access), x);
    var f := Append(NewFlow(key, RecordLength(payload)), id, payload);
    assert f.ids == [id];
    InsertAccounted(s, f, c.now, x);
  }

  /** Each packet is accounted for exactly once more by the step that handles it, and no other changes. */
  lemma StepAccounted(s: State, e: Event, x: Id)
    ensures Accounted(Step(s, e), x) == Accounted(s, x) + (if x == e.packet.id then 1 else 0)
  {
    hide Accounted, Answer, Continue, Begin;
    var id := e.packet.id;
    match e.packet
    case Plain(_, v) =>
      AnswerAccounted(s, [id], v, x);
    case Tls(_, key, payload) =>
      AnswerAccounted(s, [id], Accept, x);
      if |payload| >= MIN_PAYLOAD {
        match Find(s.flows, key)
        case Some(i) =>
          ContinueAccounted(s, i, id, payload, e.context, x);
        case None =>
          BeginAccounted(s, id, key, payload, e.context, x);
      }
  }

  function Received(events: seq<Event>): seq<Id> {
    seq(|events|, i requires 0 <= i < |events| => events[i].packet.id)
  }

  /** Over every run, a packet is answered, held and lost together exactly as often as it was received. */
  lemma {:induction false} Conservation(events: seq<Event>, x: Id)
    ensures Accounted(Run(INITIAL, events), x) == Times(Received(events), x)
  {
    hide Accounted, Step;
    if events == [] {
      NothingAccounted(x);
    } else {
      var init := events[..|events| - 1];
      var last := events[|events| - 1];
      Conservation(init, x);
      StepAccounted(Run(INITIAL, init), last, x);
      assert Received(events) == Received(init) + [last.packet.id];
      TimesConcat(Received(init), [last.packet.id], x);
    }
  }

  lemma NothingAccounted(x: Id)
    ensures Accounted(INITIAL, x) == 0
  {
  }

  ghost predicate DistinctIds(events: seq<Event>) {
    forall i, j :: 0 <= i < j < |events| ==> events[i].packet.id != events[j].packet.id
  }

  /**
   With distinct packet ids no packet is answered twice, and every received packet is in exactly one
   place: answered once, held in exactly one cached flow, or lost.
   */
  lemma ExactlyOnePlace(events: seq<Event>, i: nat)
    requires DistinctIds(events) && i < |events|
    ensures var s, x := Run(INITIAL, events), events[i].packet.id;
            Times(LogIds(s.log), x) + HeldTimes(s.flows, x) + Times(s.lost, x) == 1
  {
    hide Run, Received, Times, HeldTimes, LogIds, DistinctIds;
    Conservation(events, events[i].packet.id);
    ReceivedOnce(events, i);
  }

  /** With distinct ids no packet is accounted for twice. */
  lemma AtMostOnce(events: seq<Event>, x: Id)
    requires DistinctIds(events)
    ensures var s := Run(INITIAL, events);
            Times(LogIds(s.log), x) + HeldTimes(s.flows, x) + Times(s.lost, x) <= 1
  {
    hide Run, Times, HeldTimes, LogIds, DistinctIds, Received;
    Conservation(events, x);
    if Times(Received(events), x) > 0 {
      InTimes(Received(events), x);
      var i := Position(events, x);
      ReceivedOnce(events, i);
    }
  }

  lemma Position(events: seq<Event>, x: Id) returns (i: nat)
    requires x in Received(events)
    ensures i < |events| && events[i].packet.id == x
  {
    i :| 0 <= i < |events| && Received(events)[i] == x;
  }

  lemma ReceivedOnce(events: seq<Event>, i: nat)
    requires DistinctIds(events) && i < |events|
    ensures Times(Received(events), events[i].packet.id) == 1
  {
    hide Times;
    var x, r := events[i].packet.id, Received(events);
    assert r == r[..i] + [x] + r[i + 1..];
    TimesConcat(r[..i] + [x], r[i + 1..], x);
    TimesConcat(r[..i], [x], x);
    NotIn(r[..i], x);
    NotIn(r[i + 1..], x);
    TimesSelf(x);
  }

  lemma TimesSelf(x: Id)
    ensures Times([x], x) == 1
  {
  }

  lemma NotIn(s: seq<Id>, x: Id)
    requires x !in s
    ensures Times(s, x) == 0
  {
  }

  lemma {:induction false} RunConcat(s: State, a: seq<Event>, b: seq<Event>)
    ensures Run(s, a + b) == Run(Run(s, a), b)
    decreases |b|
  {
    hide Step;
    if b == [] {
      assert a + b == a;
    } else {
      var init := b[..|b| - 1];
      RunConcat(s, a, init);
      assert (a + b)[..|a + b| - 1] == a + init;
    }
  }

  // ----- The packets that get no verdict

  /** A data packet of a cached flow that has no room for it. */
  predicate Refused(s: State, e: Event) {
    && e.packet.Tls? && |e.packet.payload| >= MIN_PAYLOAD
    && var i := Find(s.flows, e.packet.key); i.Some? && !CanAppend(s.flows[i.value], e.packet.payload)
  }

  lemma StepLost(s: State, e: Event)
    ensures Step(s, e).lost == s.lost + if Refused(s, e) then [e.packet.id] else []
  {
    hide Judge, FlowMemory, Answers, Fresh, GcAnswers, StartsHello, RecordLength;
  }

  lemma {:induction false} LostWasReceived(events: seq<Event>, x: Id)
    requires x in Run(INITIAL, events).lost
    ensures exists n :: 0 <= n < |events| && events[n].packet.id == x
  {
    hide Step, Refused;
    if events != [] {
      var init, e := events[..|events| - 1], events[|events| - 1];
      StepLost(Run(INITIAL, init), e);
      if x in Run(INITIAL, init).lost {
        LostWasReceived(init, x);
        var n :| 0 <= n < |init| && init[n].packet.id == x;
        assert events[n].packet.id == x;
      } else {
        assert e.packet.id == x;
      }
    }
  }

  /** A packet is lost exactly if its flow refused it when it came. */
  lemma {:induction false} LostIffRefused(events: seq<Event>, i: nat)
    requires DistinctIds(events) && i < |events|
    ensures events[i].packet.id in Run(INITIAL, events).lost <==> Refused(Run(INITIAL, events[..i]), events[i])
  {
    hide Step, Refused;
    var init, e := events[..|events| - 1], events[|events| - 1];
    StepLost(Run(INITIAL, init), e);
    if i < |init| {
      LostIffRefused(init, i);
      assert init[..i] == events[..i];
    } else if e.packet.id in Run(INITIAL, init).lost {
      LostWasReceived(init, e.packet.id);
      assert false;
    }
  }

  /**
   When no packet is refused every packet is answered once or still held; a packet that is refused is
   neither, ever: the flow it belonged to is settled without it.
   */
  lemma UnansweredIffRefused(events: seq<Event>, i: nat)
    requires DistinctIds(events) && i < |events|
    ensures var s, x := Run(INITIAL, events), events[i].packet.id;
            Times(LogIds(s.log), x) + HeldTimes(s.flows, x)
                == if Refused(Run(INITIAL, events[..i]), events[i]) then 0 else 1
  {
    hide Run, Refused, HeldTimes, LogIds, Times, DistinctIds;
    ExactlyOnePlace(events, i);
    LostIffRefused(events, i);
    InTimes(Run(INITIAL, events).lost, events[i].packet.id);
  }

  lemma {:induction false} InTimes(s: seq<Id>, x: Id)
    ensures x in s <==> Times(s, x) > 0
  {
    if s != [] {
      InTimes(s[1..], x);
    }
  }

  /** The first ten bytes of a ClientHello record of 12000 bytes. */
  const BEGINNING: seq<byte> := [0x16, 3, 1, 0x2e, 0xe0, 1, 0, 0, 0, 0]

  const CONNECTION := Key(1, 2, 3)

  function Piece(n: nat): Event {
    Event(Tls(n, CONNECTION, BEGINNING), Context(0, false, [], _ => Accept))
  }

  function Pieces(k: nat): (r: seq<Event>)
    ensures |r| == k
  {
    seq(k, n requires 0 <= n < k => Piece(n))
  }

  function Gathered(k: nat): (f: Flow)
    ensures f.key == CONNECTION && f.expected == 12000 && |f.payload| == 10 * k && |f.ids| == k
  {
    if k == 0 then NewFlow(CONNECTION, 12000) else Append(Gathered(k - 1), k - 1, BEGINNING)
  }

  lemma {:induction false} PiecesAreHeld(k: nat)
    requires 1 <= k <= MAX_PACKET_COUNT
    ensures Run(INITIAL, Pieces(k)) == State([Gathered(k)], 0, [], [])
  {
    hide Judge, FlowMemory, Answers, Fresh, GcAnswers, Gathered;
    assert Pieces(k)[..k - 1] == Pieces(k - 1);
    assert RecordLength(BEGINNING) == 12000;
    GatheredStep(k);
    if k > 1 {
      PiecesAreHeld(k - 1);
      assert [Gathered(k - 1)][0 := Gathered(k)] == [Gathered(k)];
    }
  }

  lemma GatheredStep(k: nat)
    requires k > 0
    ensures Gathered(k) == Append(Gathered(k - 1), k - 1, BEGINNING) && Gathered(0) == NewFlow(CONNECTION, 12000)
  {
  }

  /** It does happen: of nine small packets of one connection the last gets no verdict. */
  lemma NinthIsLost()
    ensures Run(INITIAL, Pieces(9)).lost == [8] && Run(INITIAL, Pieces(9)).flows == []
  {
    hide Answers, Gathered;
    assert Pieces(9)[..8] == Pieces(8);
    PiecesAreHeld(8);
  }
}
