/**
 packet_handle_udp53: the name in the query, the access decision and the forged answer put together.
 */
module Udp53 {
  import opened Bytes
  import opened DnsName
  import opened DnsAnswer
  import Datagram
  import DnsReply
  import DomainCache
  import DomainSpec
  import FlowSpec
  import HashTable
  import Policy

  /** The C string at the front of a zeroed domain field. */
  function CString(text: seq<byte>): (s: string)
    ensures |s| <= |text| && forall i :: 0 <= i < |s| ==> s[i] as int == text[i] != 0
    ensures |s| < |text| ==> text[|s|] == 0
  {
    seq(Strlen(text), i requires 0 <= i < Strlen(text) => text[i] as char)
  }

  /** The DNS message in a packet. */
  function Message(packet: Memory): Memory {
    if DnsAt(packet) <= |packet| then packet[DnsAt(packet)..] else []
  }

  /** The domain a query asks for, as check_access sees it. */
  function Asked(packet: Memory, length: nat): string
    requires DnsAt(packet) <= length
  {
    CString(Text(Message(packet), length - DnsAt(packet)))
  }

  /** With the domain cache in state `s`, the lookup can find what makes the verdict Drop. */
  ghost predicate MayDrop(rules: Policy.Rules, s: DomainSpec.State, q: DomainSpec.Request) {
    exists pick :: DomainSpec.PickOk(s, q.domain, pick)
      && Policy.Verdict(rules, q.domain, DomainSpec.Respond(s, q, pick)) == FlowSpec.Drop
  }

  /**
   packet_handle_udp53, for a packet that holds its headers, whose name fits the buffer and whose query, if
   it can come to be answered, leaves room for the answer.  `ask` is what the surroundings contribute to the
   lookup of a domain.
   */
  method Handle(packet: Memory, length: nat, config: Policy.Config, cache: DomainCache.Cache,
                ask: string -> DomainSpec.Request)
      returns (verdict: FlowSpec.Verdict, answer: Option<seq<byte>>, ghost pick: Option<nat>)
    requires config.Valid() && cache.Valid() && forall d :: ask(d).domain == d
    requires DnsAt(packet) <= length
    requires Accepted(Message(packet), length - DnsAt(packet)) ==>
      MayDrop(config.Abs(), cache.Abs(), ask(Asked(packet, length))) ==>
        58 + 2 * QueryLength(packet) <= BUFFER_SIZE
    requires Looked(Message(packet), length - DnsAt(packet)) ==>
      |Text(Message(packet), length - DnsAt(packet))| < DOMAIN_LENGTH
    modifies cache, cache.arena`index, cache.arena.ptr, cache.table, cache.table.buckets, cache.arena.slots
    ensures cache.Valid()
    ensures !Accepted(Message(packet), length - DnsAt(packet)) ==>
      verdict == FlowSpec.Accept && cache.Abs() == old(cache.Abs())
    ensures Accepted(Message(packet), length - DnsAt(packet)) ==>
      var q, s := ask(Asked(packet, length)), old(cache.Abs());
      && DomainSpec.PickOk(s, q.domain, pick) && cache.Abs() == DomainSpec.Step(s, q, pick)
      && verdict == Policy.Verdict(old(config.Abs()), q.domain, DomainSpec.Respond(s, q, pick))
    ensures verdict == FlowSpec.Drop ==> 58 + 2 * QueryLength(packet) <= BUFFER_SIZE
    ensures answer == if verdict == FlowSpec.Drop then Some(Answer(packet, QueryLength(packet))) else None
  {
    hide HashTable.Table.Valid, DomainCache.Cache.Valid, Policy.Config.Valid, Policy.Config.Abs, Policy.Verdict,
         Policy.Reason, DomainSpec.PickOk, DomainSpec.Step, DomainSpec.Respond, Answer, Accepted, Text, Looked;
    verdict, answer, pick := FlowSpec.Accept, None, None;
    var found, domain := NameOf(Message(packet), length - DnsAt(packet));
    if found {
      var log := new Policy.Log(domain);
      verdict, pick := log.CheckAccess(config, cache, ask(domain));
      if verdict == FlowSpec.Drop {
        var datagram := Forge(packet);
        answer := Some(datagram);
      }
    }
  }

  /** The name extract_dns_domain leaves in the log record, read as a C string. */
  method NameOf(message: Memory, length: nat) returns (found: bool, domain: string)
    requires Looked(message, length) ==> |Text(message, length)| < DOMAIN_LENGTH
    ensures found == Accepted(message, length) && (found ==> domain == CString(Text(message, length)))
  {
    hide Text, Strlen;
    var field := new byte[DOMAIN_LENGTH](_ => 0);
    assert field[..] == Zeros(DOMAIN_LENGTH);
    found := ExtractDomain(field, message, length);
    domain := "";
    if found {
      domain := CString(field[..]);
      StrlenDomain(Text(message, length));
    }
  }

  lemma {:induction false} StrlenDomain(text: seq<byte>)
    requires |text| < DOMAIN_LENGTH
    ensures CString(Domain(text)) == CString(text)
  {
    StrlenZeros(text, DOMAIN_LENGTH - |text|);
  }

  lemma {:induction false} StrlenZeros(text: seq<byte>, n: nat)
    requires n > 0
    ensures Strlen(text + Zeros(n)) == Strlen(text)
  {
    if text != [] {
      StrlenZeros(text[1..], n);
      assert (text + Zeros(n))[1..] == text[1..] + Zeros(n);
    }
  }

  method Forge(packet: Memory) returns (datagram: seq<byte>)
    requires 58 + 2 * QueryLength(packet) <= BUFFER_SIZE
    ensures datagram == Answer(packet, QueryLength(packet))
  {
    hide Answer, QueryLength;
    var buffer := new byte[BUFFER_SIZE](_ => 0);
    assert buffer[..] == Zeros(BUFFER_SIZE);
    var len := BuildAnswer(buffer, packet);
    datagram := buffer[..len];
  }

  /**
   From query to forged answer: a query of an accepted type for a name the blacklist covers and the
   whitelist does not is dropped whatever the server says of it, and the host that asked accepts the datagram
   that goes back and reads that this name, asked under this id, is at 127.0.0.1.
   */
  lemma BlacklistedIsForged(packet: Memory, length: nat, labels: seq<Label>, qtype: u16, qclass: u16,
                            rules: Policy.Rules, r: DomainSpec.Response)
    requires DnsReply.Asks(packet, labels, qtype, qclass) && labels != [] && |Qname(labels)| <= 227
    requires QueryAt(packet) + |Question(labels, qtype, qclass)| <= length
    requires Read16(packet, DnsAt(packet) + 4) != 0 && (qtype % 256 <= 17 || qtype % 256 == 28 || qtype % 256 == 65)
    requires Policy.Covered(rules.blacklist, CString(Dotted(labels)))
    requires !Policy.Covered(rules.whitelist, CString(Dotted(labels)))
    ensures Accepted(Message(packet), length - DnsAt(packet)) && Asked(packet, length) == CString(Dotted(labels))
    ensures Policy.Verdict(rules, Asked(packet, length), r) == FlowSpec.Drop
    ensures 58 + 2 * QueryLength(packet) <= BUFFER_SIZE
    ensures var d := Datagram.Receive(Answer(packet, QueryLength(packet)));
      && d.Some? && d.value == Returned(packet, d.value.data)
      && DnsReply.Parse(d.value.data, |d.value.data|)
        == Some(DnsReply.Message(Read16(packet, DnsAt(packet)), 0x8180, DnsReply.Question(labels, qtype, qclass),
                                 DnsReply.Record(labels, 1, 1, 10, [127, 0, 0, 1])))
  {
    hide Qname, Dotted, Text, Lies, DnsReply.Parse, QueryLength, Policy.Covered, Dns, Answer, Strlen, IsLabel, Wanted,
         Datagram.Receive;
    var message := Message(packet);
    QuestionLies(packet, labels, qtype, qclass);
    NameRoundTrip(message, length - DnsAt(packet), labels, qtype, qclass);
    DnsReply.AnswerParses(packet, labels, qtype, qclass);
    AnswerReturns(packet, QueryLength(packet));
  }

  /**
   The same between two hosts: when what the daemon gets is a datagram that carries such a query, the host
   that sent it receives one from where it sent it to, with the two ports exchanged, and reads 127.0.0.1.
   */
  lemma ForgedInReturn(packet: Memory, length: nat, request: Datagram.Udp, labels: seq<Label>, qtype: u16, qclass: u16,
                       rules: Policy.Rules, r: DomainSpec.Response)
    requires length <= |packet| && Datagram.Receive(packet[..length]) == Some(request)
    requires |request.data| >= 12 && Question(labels, qtype, qclass) <= request.data[12..]
    requires IsName(labels) && labels != [] && |Qname(labels)| <= 227
    requires Read16(request.data, 4) != 0 && (qtype % 256 <= 17 || qtype % 256 == 28 || qtype % 256 == 65)
    requires Policy.Covered(rules.blacklist, CString(Dotted(labels)))
    requires !Policy.Covered(rules.whitelist, CString(Dotted(labels)))
    ensures DnsAt(packet) <= length && Accepted(Message(packet), length - DnsAt(packet))
    ensures Policy.Verdict(rules, Asked(packet, length), r) == FlowSpec.Drop
    ensures 58 + 2 * QueryLength(packet) <= BUFFER_SIZE
    ensures var d := Datagram.Receive(Answer(packet, QueryLength(packet)));
      && d.Some? && d.value.src == request.dst && d.value.dst == request.src
      && d.value.sport == request.dport && d.value.dport == request.sport
      && DnsReply.Parse(d.value.data, |d.value.data|)
        == Some(DnsReply.Message(Read16(request.data, 0), 0x8180, DnsReply.Question(labels, qtype, qclass),
                                 DnsReply.Record(labels, 1, 1, 10, [127, 0, 0, 1])))
  {
    hide Qname, Dotted, Text, DnsReply.Parse, QueryLength, Policy.Covered, Answer, Strlen, IsName, Wanted,
         Datagram.Receive, Returned, Accepted, CString, Policy.Verdict;
    CarriesQuery(packet, length, request, labels, qtype, qclass);
    BlacklistedIsForged(packet, length, labels, qtype, qclass, rules, r);
    RequestParts(packet, length, request, Datagram.Receive(Answer(packet, QueryLength(packet))).value.data);
  }

  lemma CarriesQuery(packet: Memory, length: nat, request: Datagram.Udp, labels: seq<Label>, qtype: u16, qclass: u16)
    requires length <= |packet| && Datagram.Receive(packet[..length]) == Some(request)
    requires |request.data| >= 12 && IsName(labels) && Question(labels, qtype, qclass) <= request.data[12..]
    ensures DnsReply.Asks(packet, labels, qtype, qclass)
    ensures QueryAt(packet) + |Question(labels, qtype, qclass)| <= length
    ensures Read16(packet, DnsAt(packet)) == Read16(request.data, 0)
    ensures Read16(packet, DnsAt(packet) + 4) == Read16(request.data, 4)
  {
    hide Question, IsName, DnsAt, Datagram.Receive, Returned;
    RequestParts(packet, length, request, []);
    var at, data, s := DnsAt(packet), request.data, Question(labels, qtype, qclass);
    assert |data| == length - at;
    HeadAgrees(data[12..], s, |s|);
    forall i | 0 <= i < |data| ensures data[i] == packet[at + i] {
      assert packet[at..length][i] == packet[at + i];
    }
    forall i | 0 <= i < |s| ensures packet[at + 12..][i] == s[i] {
      assert data[12..][i] == data[12 + i];
    }
  }

  lemma QuestionLies(packet: Memory, labels: seq<Label>, qtype: u16, qclass: u16)
    requires DnsReply.Asks(packet, labels, qtype, qclass)
    ensures Lies(Message(packet), HEADER, Question(labels, qtype, qclass)) && DnsAt(packet) + HEADER <= |packet|
    ensures Read16(Message(packet), 4) == Read16(packet, DnsAt(packet) + 4)
  {
    hide Qname, IsLabel;
    var m, s, n := Message(packet), Question(labels, qtype, qclass), QueryAt(packet);
    forall i {:trigger s[i]} | 0 <= i < |s| ensures Peek(m, HEADER + i) == s[i] {
      assert packet[n..][..|s|][i] == packet[n + i];
    }
  }
}
