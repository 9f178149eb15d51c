/**
 The daemon as one machine: flows and domain cache together.  The verdict on a packet comes from the cache
 as it is when check_access is called, and the call changes the cache.
 */
module Daemon {
  import opened Bytes
  import ClientHello
  import DomainSpec
  import FlowRuns
  import FlowShape
  import FlowSpec
  import FlowVerdicts
  import Policy
  import Segments
  import Suffix
  import Udp53

  /** `Plain` is a packet of the other handlers: they send one verdict, after calling check_access or not. */
  datatype Packet =
    | Tls(id: FlowSpec.Id, key: FlowSpec.Key, payload: seq<byte>)
    | Plain(id: FlowSpec.Id, field: Option<seq<byte>>)

  /** `ask` and `pick` are what the surroundings contribute to the lookup of a domain, if there is one. */
  datatype Event = Event(packet: Packet, now: int, oom: bool, beyond: seq<byte>,
                         ask: string -> DomainSpec.Request, pick: Option<nat>)

  datatype State = State(flows: FlowSpec.State, cache: DomainSpec.State)

  const INITIAL := State(FlowSpec.INITIAL, DomainSpec.EMPTY)

  /** What check_access says of the content of the domain field, with the domain cache in state `s`. */
  ghost function Access(rules: Policy.Rules, s: DomainSpec.State, ask: string -> DomainSpec.Request, pick: Option<nat>):
      seq<byte> -> FlowSpec.Verdict
  {
    field => Policy.Verdict(rules, Udp53.CString(field), DomainSpec.Respond(s, ask(Udp53.CString(field)), pick))
  }

  function Field(name: Option<seq<byte>>): Option<seq<byte>> {
    match name
    case None => None
    case Some(n) => if |n| <= DOMAIN_LENGTH then Some(Domain(n)) else None
  }

  /** The content of the domain field check_access is called with for a packet, if it is called. */
  function Judged(s: FlowSpec.State, packet: Packet, beyond: seq<byte>): Option<seq<byte>> {
    match packet
    case Plain(_, field) => field
    case Tls(id, key, payload) =>
      if |payload| < FlowSpec.MIN_PAYLOAD then None
      else match FlowSpec.Find(s.flows, key)
        case Some(i) =>
          var g := FlowSpec.Append(s.flows[i], id, payload);
          if FlowSpec.CanAppend(s.flows[i], payload) && FlowSpec.IsComplete(g)
          then Field(ClientHello.Sni(FlowSpec.FlowMemory(g, beyond), |g.payload|)) else None
        case None =>
          if FlowSpec.StartsHello(payload) && |payload| >= FlowSpec.RecordLength(payload)
          then Field(ClientHello.Sni(payload + beyond, |payload|)) else None
  }

  /** The packet as the verdict machine sees it when check_access answers by `access`. */
  ghost function Seen(e: Event, access: seq<byte> -> FlowSpec.Verdict): FlowSpec.Event {
    var c := FlowSpec.Context(e.now, e.oom, e.beyond, access);
    match e.packet
    case Tls(id, key, payload) => FlowSpec.Event(FlowSpec.Tls(id, key, payload), c)
    case Plain(id, None) => FlowSpec.Event(FlowSpec.Plain(id, FlowSpec.Accept), c)
    case Plain(id, Some(field)) => FlowSpec.Event(FlowSpec.Plain(id, access(field)), c)
  }

  ghost function FlowEvent(s: State, e: Event, rules: Policy.Rules): FlowSpec.Event {
    Seen(e, Access(rules, s.cache, e.ask, e.pick))
  }

  /** One packet. */
  ghost function Step(s: State, e: Event, rules: Policy.Rules): State {
    State(FlowSpec.Step(s.flows, FlowEvent(s, e, rules)),
          match Judged(s.flows, e.packet, e.beyond)
          case None => s.cache
          case Some(field) => DomainSpec.Step(s.cache, e.ask(Udp53.CString(field)), e.pick))
  }

  ghost function Run(events: seq<Event>, rules: Policy.Rules): State {
    if events == [] then INITIAL else Step(Run(events[..|events| - 1], rules), events[|events| - 1], rules)
  }

  // ----- check_access is called at most once for a packet, with that field

  /** Only what check_access says of the judged field makes a difference. */
  lemma JudgedOnce(s: FlowSpec.State, e: Event, access: seq<byte> -> FlowSpec.Verdict,
      other: seq<byte> -> FlowSpec.Verdict)
    requires var f := Judged(s, e.packet, e.beyond); f.Some? ==> access(f.value) == other(f.value)
    ensures FlowSpec.Step(s, Seen(e, access)) == FlowSpec.Step(s, Seen(e, other))
  {
    hide ClientHello.Sni, FlowSpec.FlowMemory, FlowSpec.Insert, FlowSpec.Answers, FlowSpec.StartsHello,
         FlowSpec.RecordLength, FlowSpec.Find;
  }

  // ----- The two parts of a run

  /** The packets of a run as the verdict machine sees them. */
  ghost function FlowEvents(events: seq<Event>, rules: Policy.Rules): (r: seq<FlowSpec.Event>)
    ensures |r| == |events|
  {
    if events == [] then []
    else
      var init := events[..|events| - 1];
      FlowEvents(init, rules) + [FlowEvent(Run(init, rules), events[|events| - 1], rules)]
  }

  /** The calls of domain_lookup a run makes. */
  ghost function Calls(events: seq<Event>, rules: Policy.Rules): seq<DomainSpec.Call> {
    if events == [] then []
    else
      var init, e := events[..|events| - 1], events[|events| - 1];
      Calls(init, rules) + match Judged(Run(init, rules).flows, e.packet, e.beyond)
        case None => []
        case Some(field) => [DomainSpec.Call(e.ask(Udp53.CString(field)), e.pick)]
  }

  /** A run of the daemon is a run of the verdict machine and a run of the domain cache. */
  lemma {:induction false} RunParts(events: seq<Event>, rules: Policy.Rules)
    ensures Run(events, rules).flows == FlowSpec.Run(FlowSpec.INITIAL, FlowEvents(events, rules))
    ensures Run(events, rules).cache == DomainSpec.Run(Calls(events, rules))
  {
    hide FlowSpec.Step, DomainSpec.Step, Judged, FlowEvent;
    if events != [] {
      var init, e := events[..|events| - 1], events[|events| - 1];
      RunParts(init, rules);
      var es, cs := FlowEvents(events, rules), Calls(events, rules);
      assert es[..|es| - 1] == FlowEvents(init, rules);
      if Judged(Run(init, rules).flows, e.packet, e.beyond).Some? {
        assert cs[..|cs| - 1] == Calls(init, rules);
      } else {
        assert cs == Calls(init, rules);
      }
    }
  }

  lemma {:induction false} SameIds(events: seq<Event>, rules: Policy.Rules, i: nat)
    requires i < |events|
    ensures FlowEvents(events, rules)[i].packet.id == events[i].packet.id
  {
    hide Run, Access;
    if i < |events| - 1 {
      SameIds(events[..|events| - 1], rules, i);
    }
  }

  /** So in every run with distinct ids each packet is answered once, held once, or lost, whatever the cache does. */
  lemma EachInOnePlace(events: seq<Event>, rules: Policy.Rules, i: nat)
    requires i < |events| && DistinctPackets(events)
    ensures var s, x := Run(events, rules).flows, events[i].packet.id;
      FlowRuns.Times(FlowRuns.LogIds(s.log), x) + FlowRuns.HeldTimes(s.flows, x) + FlowRuns.Times(s.lost, x) == 1
  {
    hide Run, FlowEvents, FlowSpec.Run, FlowRuns.Times, FlowRuns.LogIds, FlowRuns.HeldTimes;
    var es := FlowEvents(events, rules);
    DistinctSeen(events, rules);
    SameIds(events, rules, i);
    RunParts(events, rules);
    FlowRuns.ExactlyOnePlace(es, i);
  }

  // ----- The verdict is what the rules say of the cache as it was

  lemma {:induction false} EventAt(events: seq<Event>, rules: Policy.Rules, i: nat)
    requires i < |events|
    ensures FlowEvents(events, rules)[i] == FlowEvent(Run(events[..i], rules), events[i], rules)
    ensures FlowEvents(events, rules)[..i] == FlowEvents(events[..i], rules)
  {
    hide Run, FlowEvent;
    if i < |events| - 1 {
      var init := events[..|events| - 1];
      EventAt(init, rules, i);
      assert init[..i] == events[..i];
    }
  }

  /** What the rules say when check_access is called for `field` at event `i`. */
  ghost function Says(events: seq<Event>, rules: Policy.Rules, i: nat, field: seq<byte>): FlowSpec.Verdict
    requires i < |events|
  {
    var domain := Udp53.CString(field);
    var s := Run(events[..i], rules).cache;
    Policy.Verdict(rules, domain, DomainSpec.Respond(s, events[i].ask(domain), events[i].pick))
  }

  ghost predicate DistinctPackets(events: seq<Event>) {
    forall j, k :: 0 <= j < k < |events| ==> events[j].packet.id != events[k].packet.id
  }

  lemma DistinctSeen(events: seq<Event>, rules: Policy.Rules)
    requires DistinctPackets(events)
    ensures FlowRuns.DistinctIds(FlowEvents(events, rules))
  {
    hide FlowEvents;
    var es := FlowEvents(events, rules);
    forall j, k | 0 <= j < k < |es| ensures es[j].packet.id != es[k].packet.id {
      SameIds(events, rules, j);
      SameIds(events, rules, k);
    }
  }

  /**
   A packet of the other handlers has exactly the verdict of the rules on the domain its handler found and
   on what the cache, as it was when the packet came, answers for it; exactly Accept if it found none.
   */
  lemma PlainJudged(events: seq<Event>, rules: Policy.Rules, i: nat)
    requires DistinctPackets(events) && i < |events| && events[i].packet.Plain?
    ensures var p := events[i].packet;
      Segments.Verdicts(Run(events, rules).flows.log, p.id)
        == {if p.field.None? then FlowSpec.Accept else Says(events, rules, i, p.field.value)}
  {
    hide Run, FlowEvents, FlowSpec.Run, Segments.Verdicts, DistinctPackets, Policy.Verdict, DomainSpec.Respond,
         Udp53.CString;
    var es := FlowEvents(events, rules);
    DistinctSeen(events, rules);
    RunParts(events, rules);
    EventAt(events, rules, i);
    FlowVerdicts.PlainVerdict(es, i);
  }

  /**
   So has a TLS packet at which check_access is called, and with it every packet its flow holds.
   */
  lemma TlsJudged(events: seq<Event>, rules: Policy.Rules, i: nat, field: seq<byte>, x: FlowSpec.Id)
    requires DistinctPackets(events) && i < |events| && events[i].packet.Tls?
    requires var s, p := Run(events[..i], rules).flows, events[i].packet;
      && Judged(s, p, events[i].beyond) == Some(field)
      && (x == p.id || exists j :: 0 <= j < |s.flows| && s.flows[j].key == p.key && x in s.flows[j].ids)
    ensures Segments.Verdicts(Run(events, rules).flows.log, x) == {Says(events, rules, i, field)}
  {
    hide Run, FlowEvents, FlowSpec.Run, Segments.Verdicts, DistinctPackets, Policy.Verdict, DomainSpec.Respond,
         Udp53.CString, FlowSpec.Step, Judged, FlowShape.Inv;
    var es := FlowEvents(events, rules);
    DistinctSeen(events, rules);
    RunParts(events, rules);
    RunParts(events[..i], rules);
    EventAt(events, rules, i);
    FlowShape.ReachableFlowsOk(FlowEvents(events[..i], rules));
    JudgedSends(Run(events[..i], rules).flows, es[i], events[i], field, x);
    FlowVerdicts.SentThen(es, i, x, Says(events, rules, i, field));
  }

  /** What is sent at such a packet. */
  lemma JudgedSends(s: FlowSpec.State, f: FlowSpec.Event, e: Event, field: seq<byte>, x: FlowSpec.Id)
    requires FlowShape.Inv(s) && e.packet.Tls? && f == Seen(e, f.context.access)
    requires Judged(s, e.packet, e.beyond) == Some(field)
    requires x == e.packet.id || exists j :: 0 <= j < |s.flows| && s.flows[j].key == e.packet.key && x in s.flows[j].ids
    ensures (x, f.context.access(field)) in FlowSpec.Step(s, f).log
  {
    hide ClientHello.Sni, FlowSpec.FlowMemory, FlowSpec.Answers, FlowSpec.StartsHello, FlowSpec.RecordLength,
         FlowShape.FlowOk;
    var v := f.context.access(field);
    match FlowSpec.Find(s.flows, e.packet.key)
    case Some(i) =>
      var ids := s.flows[i].ids + [e.packet.id];
      assert x in ids;
      FlowVerdicts.AllSent(s.log, ids, v, x);
    case None =>
      FlowVerdicts.LastSent(s.log, e.packet.id, v);
  }

  // ----- A domain not heard of before

  /** No call of `calls` stored an answer under a dot-suffix of `domain`. */
  ghost predicate Unseen(calls: seq<DomainSpec.Call>, domain: string) {
    forall j, t :: 0 <= j < |calls| && t in DomainSpec.Domains(calls[j].q.domain, calls[j].q.reply) ==>
      !Suffix.DotSuffix(t, domain)
  }

  /**
   In every run, what check_access says when it is called for a domain no answer has been stored for is what
   the rules say of an unknown category and application, whatever the server knows of it and replies.
   */
  lemma UnseenIsUnknown(events: seq<Event>, e: Event, rules: Policy.Rules, field: seq<byte>)
    requires Judged(Run(events, rules).flows, e.packet, e.beyond) == Some(field)
    requires DomainSpec.Legal(Calls(events + [e], rules))
    requires Unseen(Calls(events, rules), e.ask(Udp53.CString(field)).domain)
    ensures Access(rules, Run(events, rules).cache, e.ask, e.pick)(field)
         == Policy.Verdict(rules, Udp53.CString(field), DomainSpec.Response(0, 0))
  {
    hide Run, Judged, DomainSpec.Run, DomainSpec.Legal, DomainSpec.Domains, DomainSpec.Respond, Suffix.DotSuffix,
         Policy.Verdict;
    var all, cs, ds := events + [e], Calls(events, rules), Calls(events + [e], rules);
    assert all[..|all| - 1] == events;
    RunParts(events, rules);
    assert ds == cs + [DomainSpec.Call(e.ask(Udp53.CString(field)), e.pick)] && ds[..|cs|] == cs;
    forall j, t | 0 <= j < |cs| && t in DomainSpec.Domains(ds[j].q.domain, ds[j].q.reply)
      ensures !Suffix.DotSuffix(t, ds[|cs|].q.domain)
    {
      assert ds[j] == cs[j];
    }
    DomainSpec.UnseenIsUnanswered(ds, |cs|);
  }

  /**
   A ClientHello for such a name in two or more well-cut packets: every one of them gets that verdict.
   `n` is the call of domain_lookup made at the packet that completes the record.
   */
  lemma UnseenHelloIsUnknown(
      before: seq<FlowSpec.Event>, events: seq<FlowSpec.Event>, key: FlowSpec.Key, h: ClientHello.Hello,
      name: seq<byte>, rules: Policy.Rules, calls: seq<DomainSpec.Call>, n: nat, ask: string -> DomainSpec.Request)
    requires FlowRuns.DistinctIds(before + events) && ClientHello.Fits(h)
    requires Segments.Unknown(FlowSpec.Run(FlowSpec.INITIAL, before), key)
    requires Segments.Joint(Segments.PacketsOf(events, key)) == ClientHello.EncodeRecord(h)
    requires Segments.WellCut(ClientHello.EncodeRecord(h), Segments.PacketsOf(events, key))
    requires |Segments.PacketsOf(events, key)| >= 2
    requires |name| <= DOMAIN_LENGTH && ClientHello.FirstName(h.extensions, ClientHello.MAX_EXTENSIONS) == Some(name)
    requires DomainSpec.Legal(calls) && n < |calls| && calls[n].q == ask(Udp53.CString(Domain(name)))
    requires Unseen(calls[..n], calls[n].q.domain)
    requires Segments.Calm(FlowSpec.Run(FlowSpec.INITIAL, before), events, key, ClientHello.EncodeRecord(h),
                           Access(rules, DomainSpec.Run(calls[..n]), ask, calls[n].pick))
    ensures var p, log := Segments.PacketsOf(events, key), FlowSpec.Run(FlowSpec.INITIAL, before + events).log;
      forall i :: 0 <= i < |p| ==>
        Segments.Verdicts(log, p[i].0)
          == {Policy.Verdict(rules, Udp53.CString(Domain(name)), DomainSpec.Response(0, 0))}
  {
    hide FlowSpec.Run, FlowRuns.DistinctIds, ClientHello.EncodeRecord, ClientHello.Fits, ClientHello.FirstName,
         Policy.Verdict, DomainSpec.Run, DomainSpec.Legal, DomainSpec.Domains, DomainSpec.Respond, Suffix.DotSuffix,
         Segments.Unknown, Segments.Joint, Segments.PacketsOf, Segments.WellCut, Segments.Calm, Segments.Verdicts;
    var access := Access(rules, DomainSpec.Run(calls[..n]), ask, calls[n].pick);
    Segments.SegmentationIndependent(before, events, key, h, access);
    forall j, t | 0 <= j < n && t in DomainSpec.Domains(calls[j].q.domain, calls[j].q.reply)
      ensures !Suffix.DotSuffix(t, calls[n].q.domain)
    {
      assert calls[..n][j] == calls[j];
    }
    DomainSpec.UnseenIsUnanswered(calls, n);
  }
}
