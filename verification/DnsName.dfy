/**
 extract_dns_domain of udp53.c: the name in the first question of a DNS query, and the encoding it must
 invert (sections 3.1 and 4.1.2 of RFC 1035).
 */
module DnsName {
  import opened Bytes

  const HEADER := 12
  const DOT: byte := 46

  // ----- The decoder as a function of memory

  /** `text` with one more label. */
  function Extended(text: seq<byte>, l: seq<byte>): seq<byte> {
    text + (if text == [] then [] else [DOT]) + l
  }

  /** Lines 79-92: what the loop writes, with `text` written before. */
  function TextFrom(mem: Memory, at: nat, end: nat, text: seq<byte>): seq<byte>
    decreases end - at
  {
    if at >= end || Peek(mem, at) == 0 then text
    else TextFrom(mem, at + 1 + Peek(mem, at), end, Extended(text, Copy(mem, at + 1, Peek(mem, at))))
  }

  function Text(mem: Memory, length: nat): seq<byte> {
    TextFrom(mem, HEADER, length, [])
  }

  /** strlen of a text that a NUL follows. */
  function Strlen(s: seq<byte>): (n: nat)
    ensures n <= |s| && (forall i :: 0 <= i < n ==> s[i] != 0) && (n < |s| ==> s[n] == 0)
  {
    if s == [] || s[0] == 0 then 0 else 1 + Strlen(s[1..])
  }

  predicate Looked(mem: Memory, length: nat) {
    length >= HEADER && Read16(mem, 4) != 0
  }

  /** Lines 97-102. */
  predicate Wanted(dnsType: byte) {
    dnsType <= 17 || dnsType == 65 || dnsType == 28
  }

  predicate Accepted(mem: Memory, length: nat) {
    Looked(mem, length) && Wanted(Peek(mem, HEADER + Strlen(Text(mem, length)) + 3))
  }

  lemma {:induction false} TextGrows(mem: Memory, at: nat, end: nat, text: seq<byte>)
    ensures |TextFrom(mem, at, end, text)| >= |text|
    decreases end - at
  {
    if at < end && Peek(mem, at) != 0 {
      TextGrows(mem, at + 1 + Peek(mem, at), end, Extended(text, Copy(mem, at + 1, Peek(mem, at))));
    }
  }

  /** extract_dns_domain, on a zeroed buffer that has room for the name and its terminator. */
  method ExtractDomain(domain: array<byte>, packet: Memory, length: nat) returns (ok: bool)
    requires domain.Length == DOMAIN_LENGTH && domain[..] == Zeros(DOMAIN_LENGTH)
    requires Looked(packet, length) ==> |Text(packet, length)| < DOMAIN_LENGTH
    modifies domain
    ensures ok == Accepted(packet, length)
    ensures domain[..] == Domain(if Looked(packet, length) then Text(packet, length) else [])
  {
    if length < HEADER {
      return false;
    }
    var qdcount := Read16(packet, 4);
    if qdcount == 0 {
      return false;
    }
    var dst := WriteName(domain, packet, length);
    var dLen := StrlenOf(domain, dst);
    var dnsType := Peek(packet, HEADER + dLen + 3);
    if dnsType > 17 {
      if dnsType != 65 && dnsType != 28 {
        return false;
      }
    }
    return true;
  }

  /** Lines 85-91: write one label, after a dot unless it is the first. */
  method WriteLabel(domain: array<byte>, dst0: nat, label0: seq<byte>, ghost text: seq<byte>)
      returns (dst: nat, ghost next: seq<byte>)
    requires domain.Length == DOMAIN_LENGTH && |text| == dst0 <= DOMAIN_LENGTH && domain[..] == Domain(text)
    requires |Extended(text, label0)| <= DOMAIN_LENGTH
    modifies domain
    ensures next == Extended(text, label0) && |next| == dst && domain[..] == Domain(next)
  {
    dst := dst0;
    if dst != 0 {
      domain[dst] := DOT;
      dst := dst + 1;
    }
    Memcpy(domain, dst, label0);
    dst := dst + |label0|;
    next := Extended(text, label0);
  }

  /** Lines 79-92. */
  method WriteName(domain: array<byte>, packet: Memory, length: nat) returns (dst: nat)
    requires domain.Length == DOMAIN_LENGTH && domain[..] == Zeros(DOMAIN_LENGTH)
    requires |Text(packet, length)| < DOMAIN_LENGTH
    modifies domain
    ensures dst == |Text(packet, length)| && domain[..] == Domain(Text(packet, length))
  {
    hide Peek, Copy, Extended;
    dst := 0;
    var src := HEADER;
    ghost var text: seq<byte> := [];
    while src < length
      invariant |text| == dst < DOMAIN_LENGTH && domain[..] == Domain(text)
      invariant TextFrom(packet, src, length, text) == Text(packet, length)
      decreases length - src
    {
      hide Domain;
      var labelLen := Peek(packet, src);
      src := src + 1;
      if labelLen == 0 {
        break;
      }
      var bytes := Copy(packet, src, labelLen);
      src := src + labelLen;
      TextGrows(packet, src, length, Extended(text, bytes));
      dst, text := WriteLabel(domain, dst, bytes, text);
    }
  }

  /** strlen. */
  method StrlenOf(domain: array<byte>, ghost n: nat) returns (len: nat)
    requires n < domain.Length && domain[n] == 0
    ensures len == Strlen(domain[..n])
  {
    len := 0;
    while domain[len] != 0
      invariant len <= n && forall i :: 0 <= i < len ==> domain[i] != 0
      decreases n - len
    {
      len := len + 1;
    }
  }

  // ----- Names and their encoding

  type Label = seq<byte>

  /** Section 3.1 of RFC 1035, except that a NUL is refused. */
  ghost predicate IsLabel(l: Label) {
    1 <= |l| <= 63 && forall i :: 0 <= i < |l| ==> l[i] != 0
  }

  ghost predicate IsName(labels: seq<Label>) {
    (forall i :: 0 <= i < |labels| ==> IsLabel(labels[i])) && |Qname(labels)| <= 255
  }

  function Qname(labels: seq<Label>): (r: seq<byte>)
    ensures |r| >= 1
  {
    if labels == [] then [0] else [|labels[0]| % 256] + labels[0] + Qname(labels[1..])
  }

  /** The labels joined by dots. */
  function Dotted(labels: seq<Label>): seq<byte> {
    if labels == [] then [] else if |labels| == 1 then labels[0] else labels[0] + [DOT] + Dotted(labels[1..])
  }

  /** A question: name, type and class. */
  function Question(labels: seq<Label>, qtype: u16, qclass: u16): seq<byte> {
    Qname(labels) + (EncodeBe16(qtype) + EncodeBe16(qclass))
  }

  /** `text` and then the labels, each after a dot. */
  function DottedOn(text: seq<byte>, labels: seq<Label>): seq<byte>
    decreases |labels|
  {
    if labels == [] then text else DottedOn(Extended(text, labels[0]), labels[1..])
  }

  lemma {:induction false} DottedOnIsDotted(text: seq<byte>, labels: seq<Label>)
    requires forall i :: 0 <= i < |labels| ==> labels[i] != []
    ensures DottedOn(text, labels) == if labels == [] then text else Extended(text, Dotted(labels))
    decreases |labels|
  {
    if labels != [] {
      var next := Extended(text, labels[0]);
      DottedOnIsDotted(next, labels[1..]);
      if |labels| > 1 {
        assert Extended(next, Dotted(labels[1..])) == Extended(text, Dotted(labels));
      }
    }
  }

  lemma {:induction false} TextOfLabels(mem: Memory, at: nat, end: nat, labels: seq<Label>, text: seq<byte>)
    requires forall i :: 0 <= i < |labels| ==> IsLabel(labels[i])
    requires Lies(mem, at, Qname(labels)) && at + |Qname(labels)| <= end
    ensures TextFrom(mem, at, end, text) == DottedOn(text, labels)
    decreases |labels|
  {
    hide Lies, Peek, Copy, Extended;
    if labels == [] {
      assert Qname(labels) == [0] + [];
      LiesFirst(mem, at, 0, []);
    } else {
      var l, rest := labels[0], Qname(labels[1..]);
      assert IsLabel(l) && Qname(labels) == [|l|] + (l + rest);
      LiesFirst(mem, at, |l|, l + rest);
      LiesSplit(mem, at + 1, l, rest);
      LiesCopy(mem, at + 1, l);
      TextOfLabels(mem, at + 1 + |l|, end, labels[1..], Extended(text, l));
    }
  }

  lemma LiesFirst(mem: Memory, at: nat, b: byte, rest: seq<byte>)
    requires Lies(mem, at, [b] + rest)
    ensures Peek(mem, at) == b && Lies(mem, at + 1, rest)
  {
    LiesSplit(mem, at, [b], rest);
    assert [b][0] == b;
    assert Peek(mem, at + 0) == b;
  }

  lemma LiesCopy(mem: Memory, at: nat, s: seq<byte>)
    requires Lies(mem, at, s)
    ensures Copy(mem, at, |s|) == s
  {
  }

  lemma {:induction false} DottedLength(labels: seq<Label>)
    requires labels != []
    ensures |Dotted(labels)| == |Qname(labels)| - 2
  {
    if |labels| > 1 {
      DottedLength(labels[1..]);
    } else {
      assert Qname(labels[1..]) == [0];
    }
  }

  lemma {:induction false} DottedNulFree(labels: seq<Label>)
    requires forall i :: 0 <= i < |labels| ==> IsLabel(labels[i])
    ensures forall i :: 0 <= i < |Dotted(labels)| ==> Dotted(labels)[i] != 0
  {
    if |labels| > 1 {
      DottedNulFree(labels[1..]);
    }
  }

  /**
   Round trip: a question for a non-empty name is decoded to its labels joined by dots, which fit the
   buffer, and is accepted or not by the low byte of its type alone.
   */
  lemma NameRoundTrip(mem: Memory, length: nat, labels: seq<Label>, qtype: u16, qclass: u16)
    requires IsName(labels) && labels != [] && Read16(mem, 4) != 0
    requires Lies(mem, HEADER, Question(labels, qtype, qclass)) && HEADER + |Question(labels, qtype, qclass)| <= length
    ensures Text(mem, length) == Dotted(labels) && |Dotted(labels)| == |Qname(labels)| - 2 < DOMAIN_LENGTH
    ensures Accepted(mem, length) <==> qtype % 256 <= 17 || qtype % 256 == 28 || qtype % 256 == 65
  {
    hide Lies, Peek, Qname, Dotted, DottedOn, TextFrom, Strlen, IsLabel;
    LiesSplit(mem, HEADER, Qname(labels), EncodeBe16(qtype) + EncodeBe16(qclass));
    TextOfLabels(mem, HEADER, length, labels, []);
    LabelsNonEmpty(labels);
    DottedOnIsDotted([], labels);
    DottedLength(labels);
    DottedNulFree(labels);
    StrlenAll(Dotted(labels));
    LowByte(mem, HEADER + |Qname(labels)|, qtype, EncodeBe16(qclass));
  }

  lemma LabelsNonEmpty(labels: seq<Label>)
    requires forall i :: 0 <= i < |labels| ==> IsLabel(labels[i])
    ensures forall i :: 0 <= i < |labels| ==> labels[i] != []
  {
  }

  lemma {:induction false} StrlenAll(s: seq<byte>)
    requires forall i :: 0 <= i < |s| ==> s[i] != 0
    ensures Strlen(s) == |s|
  {
    if s != [] {
      StrlenAll(s[1..]);
    }
  }

  lemma LowByte(mem: Memory, at: nat, v: u16, rest: seq<byte>)
    requires Lies(mem, at, EncodeBe16(v) + rest)
    ensures Peek(mem, at + 1) == v % 256
  {
    LiesSplit(mem, at, EncodeBe16(v), rest);
    assert EncodeBe16(v)[1] == v % 256;
  }

  /** For the root name the byte looked at is not of the type at all but the high byte of the class. */
  lemma RootReadsTheClass(mem: Memory, length: nat, qtype: u16, qclass: u16)
    requires Read16(mem, 4) != 0
    requires Lies(mem, HEADER, Question([], qtype, qclass)) && HEADER + |Question([], qtype, qclass)| <= length
    ensures Text(mem, length) == []
    ensures Accepted(mem, length) <==> qclass / 256 <= 17 || qclass / 256 == 28 || qclass / 256 == 65
  {
    var q := Question([], qtype, qclass);
    LiesSplit(mem, HEADER, [0], EncodeBe16(qtype) + EncodeBe16(qclass));
    assert [0][0] == 0;
    assert Peek(mem, HEADER + 0) == 0;
    LiesSplit(mem, HEADER + 1, EncodeBe16(qtype), EncodeBe16(qclass));
    assert EncodeBe16(qclass)[0] == qclass / 256;
    assert Peek(mem, HEADER + 3 + 0) == qclass / 256;
  }

  /**
   For any message at all, a bare header included: what is accepted has a header, a question count that is
   not 0, and one of the types where the code looks for it.
   */
  lemma AcceptedIff(mem: Memory, length: nat)
    ensures Accepted(mem, length) <==>
      && length >= 12 && Read16(mem, 4) != 0
      && var t := Peek(mem, 15 + Strlen(Text(mem, length)));
      t <= 17 || t == 28 || t == 65
  {
    hide Text, Strlen, Peek, Read16;
  }

  lemma TextStep(mem: Memory, at: nat, end: nat, text: seq<byte>, l: seq<byte>)
    requires at < end && Peek(mem, at) == |l| && Copy(mem, at + 1, |l|) == l
    ensures TextFrom(mem, at, end, text)
         == if l == [] then text else TextFrom(mem, at + 1 + |l|, end, Extended(text, l))
  {
  }

  /** The bytes of a query for `a.bc`, of type A and class IN. */
  lemma NameInBytes()
    ensures var query: seq<byte> := [0, 7, 1, 0, 0, 1, 0, 0, 0, 0, 0, 0, 1, 97, 2, 98, 99, 0, 0, 1, 0, 1];
      Accepted(query, 22) && Text(query, 22) == [97, 46, 98, 99]
  {
    hide TextFrom, Strlen;
    var query: seq<byte> := [0, 7, 1, 0, 0, 1, 0, 0, 0, 0, 0, 0, 1, 97, 2, 98, 99, 0, 0, 1, 0, 1];
    var text: seq<byte> := [97, 46, 98, 99];
    assert Copy(query, 13, 1) == [97] && Copy(query, 15, 2) == [98, 99];
    assert Extended([], [97]) == [97] && Extended([97], [98, 99]) == text;
    TextStep(query, 12, 22, [], [97]);
    TextStep(query, 14, 22, [97], [98, 99]);
    TextStep(query, 17, 22, text, []);
    StrlenAll(text);
  }

  // ----- Nothing is lost

  ghost predicate DotFree(l: Label) {
    forall i :: 0 <= i < |l| ==> l[i] != DOT
  }

  /** Names without dots inside labels are told apart by their text. */
  lemma {:induction false} DottedInjective(a: seq<Label>, b: seq<Label>)
    requires forall i :: 0 <= i < |a| ==> IsLabel(a[i]) && DotFree(a[i])
    requires forall i :: 0 <= i < |b| ==> IsLabel(b[i]) && DotFree(b[i])
    requires Dotted(a) == Dotted(b)
    ensures a == b
  {
    if a != [] && b != [] {
      FirstLabel(a);
      FirstLabel(b);
      var s := Dotted(a);
      assert |a[0]| == |b[0]|;
      assert a[0] == s[..|a[0]|] == b[0];
      if |a| > 1 {
        assert Dotted(a[1..]) == s[|a[0]| + 1..] == Dotted(b[1..]);
        DottedInjective(a[1..], b[1..]);
      }
      assert a == [a[0]] + a[1..] && b == [b[0]] + b[1..];
    }
  }

  lemma FirstLabel(a: seq<Label>)
    requires a != [] && forall i :: 0 <= i < |a| ==> IsLabel(a[i])
    ensures a[0] <= Dotted(a) && a[0] != []
    ensures |a| > 1 ==> |Dotted(a)| > |a[0]| && Dotted(a)[|a[0]|] == DOT
    ensures |a| == 1 ==> Dotted(a) == a[0]
  {
  }
}
