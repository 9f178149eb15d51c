/**
 What a resolver reads from the forged answer: a parser that follows sections 4.1.1 to 4.1.3 of RFC 1035,
 and the proof that it gets the request's id and question back, and one address record for its name.
 */
module DnsReply {
  import opened Bytes
  import opened DnsName
  import opened DnsAnswer

  datatype Question = Question(name: seq<Label>, qtype: u16, qclass: u16)

  datatype Record = Record(name: seq<Label>, rtype: u16, rclass: u16, ttl: nat, data: seq<byte>)

  datatype Message = Message(id: u16, flags: u16, question: Question, answer: Record)

  /** The name at `at` and where it ends; compressed names are not understood. */
  function ParseName(mem: Memory, at: nat, end: nat): Option<(seq<Label>, nat)>
    decreases end - at
  {
    if at >= end then None
    else
      var n := Peek(mem, at);
      if n == 0 then Some(([], at + 1))
      else if n > 63 || at + 1 + n > end then None
      else match ParseName(mem, at + 1 + n, end)
        case None => None
        case Some((labels, next)) => Some(([Copy(mem, at + 1, n)] + labels, next))
  }

  /** A question and where it ends. */
  function ParseQuestion(mem: Memory, at: nat, end: nat): Option<(Question, nat)> {
    match ParseName(mem, at, end)
    case None => None
    case Some((name, next)) =>
      if next + 4 > end then None else Some((Question(name, Read16(mem, next), Read16(mem, next + 2)), next + 4))
  }

  /** A resource record and where it ends. */
  function ParseRecord(mem: Memory, at: nat, end: nat): Option<(Record, nat)> {
    match ParseName(mem, at, end)
    case None => None
    case Some((name, next)) =>
      if next + 10 > end || next + 10 + Read16(mem, next + 8) > end then None
      else
        var length := Read16(mem, next + 8);
        Some((Record(name, Read16(mem, next), Read16(mem, next + 2),
            Read16(mem, next + 4) * 65536 + Read16(mem, next + 6),
                     Copy(mem, next + 10, length)), next + 10 + length))
  }

  /** A message of one question and one answer, with nothing after it. */
  function Parse(mem: Memory, end: nat): Option<Message> {
    if end < HEADER || Read16(mem, 4) != 1 || Read16(mem, 6) != 1 || Read16(mem, 8) != 0
        || Read16(mem, 10) != 0 then None
    else match ParseQuestion(mem, HEADER, end)
      case None => None
      case Some((question, next)) =>
        match ParseRecord(mem, next, end)
        case None => None
        case Some((record, last)) =>
          if last != end then None else Some(Message(Read16(mem, 0), Read16(mem, 2), question, record))
  }

  // ----- Reading back what was encoded

  lemma {:induction false} ParseQname(mem: Memory, at: nat, end: nat, labels: seq<Label>)
    requires forall i :: 0 <= i < |labels| ==> IsLabel(labels[i])
    requires Lies(mem, at, Qname(labels)) && at + |Qname(labels)| <= end
    ensures ParseName(mem, at, end) == Some((labels, at + |Qname(labels)|))
    decreases |labels|
  {
    hide Lies, Peek, Copy;
    if labels == [] {
      assert Qname(labels) == [0] + [];
      LiesFirst(mem, at, 0, []);
    } else {
      var l, rest := labels[0], Qname(labels[1..]);
      assert IsLabel(l) && Qname(labels) == [|l|] + (l + rest);
      LiesFirst(mem, at, |l|, l + rest);
      LiesSplit(mem, at + 1, l, rest);
      LiesCopy(mem, at + 1, l);
      ParseQname(mem, at + 1 + |l|, end, labels[1..]);
      assert [l] + labels[1..] == labels;
    }
  }

  lemma QuestionReads(mem: Memory, at: nat, end: nat, labels: seq<Label>, qtype: u16, qclass: u16)
    requires IsName(labels) && Lies(mem, at, DnsName.Question(labels, qtype, qclass))
    requires at + |DnsName.Question(labels, qtype, qclass)| <= end
    ensures ParseQuestion(mem, at, end)
         == Some((Question(labels, qtype, qclass), at + |DnsName.Question(labels, qtype, qclass)|))
  {
    hide Lies, Peek, Read16, Qname, ParseName, IsLabel;
    var n := |Qname(labels)|;
    LiesSplit(mem, at, Qname(labels), EncodeBe16(qtype) + EncodeBe16(qclass));
    ParseQname(mem, at, end, labels);
    LiesBe16(mem, at + n, qtype, EncodeBe16(qclass));
    assert EncodeBe16(qclass) + [] == EncodeBe16(qclass);
    LiesBe16(mem, at + n + 2, qclass, []);
  }

  lemma RecordReads(mem: Memory, at: nat, end: nat, labels: seq<Label>)
    requires IsName(labels) && Lies(mem, at, Qname(labels) + RECORD) && at + |Qname(labels)| + 14 <= end
    ensures ParseRecord(mem, at, end) == Some((Record(labels, 1, 1, 10, [127, 0, 0, 1]), at + |Qname(labels)| + 14))
  {
    hide Lies, Qname, ParseName, IsLabel;
    LiesSplit(mem, at, Qname(labels), RECORD);
    ParseQname(mem, at, end, labels);
    TailReads(mem, at + |Qname(labels)|);
  }

  lemma LiesReads(mem: Memory, at: nat, s: seq<byte>, i: nat)
    requires Lies(mem, at, s) && i + 1 < |s|
    ensures Read16(mem, at + i) == Be16(s[i], s[i + 1])
  {
    assert Peek(mem, at + i) == s[i] && Peek(mem, at + (i + 1)) == s[i + 1];
  }

  lemma TailReads(mem: Memory, at: nat)
    requires Lies(mem, at, RECORD)
    ensures Read16(mem, at) == 1 && Read16(mem, at + 2) == 1 && Read16(mem, at + 4) == 0 && Read16(mem, at + 6) == 10
    ensures Read16(mem, at + 8) == 4 && Copy(mem, at + 10, 4) == [127, 0, 0, 1]
  {
    var head, data: seq<byte> := [0, 1, 0, 1, 0, 0, 0, 10, 0, 4], [127, 0, 0, 1];
    assert RECORD == head + data;
    LiesSplit(mem, at, head, data);
    LiesCopy(mem, at + 10, data);
    LiesReads(mem, at, head, 0);
    LiesReads(mem, at, head, 2);
    LiesReads(mem, at, head, 4);
    LiesReads(mem, at, head, 6);
    LiesReads(mem, at, head, 8);
  }

  lemma HeaderReads(packet: Memory, mem: Memory, rest: seq<byte>)
    requires Lies(mem, 0, DnsHeader(packet) + rest)
    ensures Read16(mem, 0) == Read16(packet, DnsAt(packet)) && Read16(mem, 2) == 0x8180
    ensures Read16(mem, 4) == 1 && Read16(mem, 6) == 1 && Read16(mem, 8) == 0 && Read16(mem, 10) == 0
    ensures Lies(mem, HEADER, rest)
  {
    var h := DnsHeader(packet);
    LiesSplit(mem, 0, h, rest);
    var id := Copy(packet, DnsAt(packet), 2);
    assert h == [id[0], id[1], 0x81, 0x80, 0, 1, 0, 1, 0, 0, 0, 0];
    LiesReads(mem, 0, h, 0);
    LiesReads(mem, 0, h, 2);
    LiesReads(mem, 0, h, 4);
    LiesReads(mem, 0, h, 6);
    LiesReads(mem, 0, h, 8);
    LiesReads(mem, 0, h, 10);
  }

  // ----- The forged answer

  /** The first NUL of an encoded name is its last byte, so that strlen finds its end. */
  lemma {:induction false} StrlenQname(labels: seq<Label>, rest: seq<byte>)
    requires forall i :: 0 <= i < |labels| ==> IsLabel(labels[i])
    ensures Strlen(Qname(labels) + rest) == |Qname(labels)| - 1
    decreases |labels|
  {
    hide Strlen;
    var s := Qname(labels) + rest;
    if labels == [] {
      assert s[0] == 0;
    } else {
      var l, tail := labels[0], Qname(labels[1..]);
      StrlenQname(labels[1..], rest);
      assert IsLabel(l);
      assert s == ([|l|] + l) + (tail + rest);
      StrlenSkip([|l|] + l, tail + rest);
    }
  }

  lemma {:induction false} StrlenSkip(a: seq<byte>, b: seq<byte>)
    requires forall i :: 0 <= i < |a| ==> a[i] != 0
    ensures Strlen(a + b) == |a| + Strlen(b)
  {
    if a == [] {
      assert a + b == b;
    } else {
      StrlenSkip(a[1..], b);
      assert (a + b)[1..] == a[1..] + b;
    }
  }

  /** The request asks one question and is in memory as far as the end of that question. */
  ghost predicate Asks(packet: Memory, labels: seq<Label>, qtype: u16, qclass: u16) {
    var question := DnsName.Question(labels, qtype, qclass);
    && IsName(labels)
    && QueryAt(packet) + |question| <= |packet|
    && packet[QueryAt(packet)..][..|question|] == question
  }

  lemma QueryLengthIs(packet: Memory, labels: seq<Label>, qtype: u16, qclass: u16)
    requires Asks(packet, labels, qtype, qclass)
    ensures QueryLength(packet) == |Qname(labels)|
    ensures Copy(packet, QueryAt(packet), |Qname(labels)| + 4) == DnsName.Question(labels, qtype, qclass)
    ensures Copy(packet, QueryAt(packet), |Qname(labels)|) == Qname(labels)
  {
    hide Qname, Strlen, QueryAt, IsLabel;
    var question, memory := DnsName.Question(labels, qtype, qclass), packet[QueryAt(packet)..];
    var rest := memory[|Qname(labels)|..];
    assert memory == Qname(labels) + rest by {
      assert memory[..|Qname(labels)|] == question[..|Qname(labels)|] == Qname(labels);
    }
    StrlenQname(labels, rest);
    forall i | 0 <= i < |question| ensures Peek(packet, QueryAt(packet) + i) == question[i] {
      assert memory[..|question|][i] == question[i];
    }
  }

  lemma LiesSelf(s: seq<byte>)
    ensures Lies(s, 0, s)
  {
  }

  /**
   For every request with a name of at most 227 bytes on the wire: the resolver reads the request's id
   and question and one A record for 127.0.0.1 under the same name, and nothing else; and the daemon's
   own decoder reads the same domain from the answer as from the request.
   */
  lemma AnswerParses(packet: Memory, labels: seq<Label>, qtype: u16, qclass: u16)
    requires Asks(packet, labels, qtype, qclass) && |Qname(labels)| <= 227
    ensures 58 + 2 * QueryLength(packet) <= BUFFER_SIZE
    ensures var dns := Dns(packet, QueryLength(packet));
      && Parse(dns, |dns|) == Some(Message(Read16(packet, DnsAt(packet)), 0x8180, Question(labels, qtype, qclass),
                                           Record(labels, 1, 1, 10, [127, 0, 0, 1])))
      && (labels != [] ==> Text(dns, |dns|) == Dotted(labels))
  {
    hide Lies, Qname, DnsHeader, ParseQuestion, ParseRecord, Read16, Strlen, QueryLength, Copy, IsName, Asks, Dotted,
        Text, DnsAt;
    QueryLengthIs(packet, labels, qtype, qclass);
    var question, name := DnsName.Question(labels, qtype, qclass), Qname(labels);
    var dns := Dns(packet, |name|);
    assert IsName(labels) by {
      AsksName(packet, labels, qtype, qclass);
    }
    LiesSelf(dns);
    assert dns == DnsHeader(packet) + (question + (name + RECORD));
    HeaderReads(packet, dns, question + (name + RECORD));
    LiesSplit(dns, HEADER, question, name + RECORD);
    HeaderLength(packet);
    QuestionReads(dns, HEADER, |dns|, labels, qtype, qclass);
    RecordReads(dns, HEADER + |question|, |dns|, labels);
    if labels != [] {
      NameRoundTrip(dns, |dns|, labels, qtype, qclass);
    }
  }

  lemma AsksName(packet: Memory, labels: seq<Label>, qtype: u16, qclass: u16)
    requires Asks(packet, labels, qtype, qclass)
    ensures IsName(labels)
  {
  }

  lemma HeaderLength(packet: Memory)
    ensures |DnsHeader(packet)| == HEADER
  {
  }

  // ----- Names that are too long

  /** The answer to a well-formed query fits the 512-byte buffer exactly if the name has at most 227 bytes. */
  lemma AnswerFitsIff(packet: Memory, labels: seq<Label>, qtype: u16, qclass: u16)
    requires Asks(packet, labels, qtype, qclass)
    ensures 58 + 2 * QueryLength(packet) <= BUFFER_SIZE <==> |Qname(labels)| <= 227
  {
    hide Qname, QueryLength, Asks, Copy;
    QueryLengthIs(packet, labels, qtype, qclass);
  }

  function LetterLabel(n: nat): Label {
    seq<byte>(n, _ => 97)
  }

  /** A well-formed name of 228 bytes. */
  function LongName(): seq<Label> {
    [LetterLabel(63), LetterLabel(63), LetterLabel(63), LetterLabel(34)]
  }

  lemma LongNameIsName()
    ensures IsName(LongName()) && |Qname(LongName())| == 228
  {
    var a, b := LetterLabel(63), LetterLabel(34);
    var l, last: seq<Label> := LongName(), [b];
    assert l[1..] == [a, a, b] && [a, a, b][1..] == [a, b] && [a, b][1..] == last && last[1..] == [];
    assert |Qname(last)| == 36;
    assert |Qname([a, b])| == 100;
    assert |Qname([a, a, b])| == 164;
  }

  /** An input that shows it: this query's answer would take 514 bytes. */
  lemma LongNameOverruns() returns (packet: Memory)
    ensures Asks(packet, LongName(), 1, 1) && 58 + 2 * QueryLength(packet) == 514 > BUFFER_SIZE
  {
    hide Qname, LongName, QueryLength, IsName;
    var question := DnsName.Question(LongName(), 1, 1);
    packet := [0x45] + Zeros(39) + question;
    LongNameIsName();
    assert QueryAt(packet) == 40;
    assert packet[40..] == question && question[..|question|] == question;
    QueryLengthIs(packet, LongName(), 1, 1);
  }
}
