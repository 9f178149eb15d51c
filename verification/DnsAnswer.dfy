/**
 dns_answer_send of block.c: the forged answer that points a blocked domain to 127.0.0.1, built in a
 zeroed 512-byte buffer, and what a resolver that follows sections 4.1.1 to 4.1.3 of RFC 1035 reads
 from it.
 */
module DnsAnswer {
  import opened Bytes
  import opened DnsName
  import Checksum
  import Datagram

  const BUFFER_SIZE := 512
  const IP_HEADER := 20
  const UDP_HEADER := 8

  // ----- The request, as the code addresses it

  function UdpAt(packet: Memory): nat {
    Peek(packet, 0) % 16 * 4
  }

  function DnsAt(packet: Memory): nat {
    UdpAt(packet) + UDP_HEADER
  }

  function QueryAt(packet: Memory): nat {
    DnsAt(packet) + HEADER
  }

  /** Line 71: strlen(query) + 1. */
  function QueryLength(packet: Memory): nat {
    1 + Strlen(if QueryAt(packet) <= |packet| then packet[QueryAt(packet)..] else [])
  }

  // ----- The answer, part by part

  /** Version, header length, service, total length, id, fragment, time to live, protocol. */
  function IpFront(totLen: u16): (r: seq<byte>)
    ensures |r| == 10
  {
    [0x45, 0] + EncodeBe16(totLen) + [0, 0, 0, 0, 64, 17]
  }

  /** The addresses, swapped. */
  function IpBack(packet: Memory): (r: seq<byte>)
    ensures |r| == 8
  {
    Copy(packet, 16, 4) + Copy(packet, 12, 4)
  }

  /** The IP header with `check` as the two bytes of its checksum. */
  function IpHeader(packet: Memory, totLen: u16, check: seq<byte>): seq<byte> {
    IpFront(totLen) + check + IpBack(packet)
  }

  /** Ports swapped, length, no checksum. */
  function UdpHeader(packet: Memory, length: u16): seq<byte> {
    Copy(packet, UdpAt(packet) + 2, 2) + Copy(packet, UdpAt(packet), 2) + EncodeBe16(length) + [0, 0]
  }

  /** The request's id, a response, one question and one answer. */
  function DnsHeader(packet: Memory): seq<byte> {
    Copy(packet, DnsAt(packet), 2) + EncodeBe16(0x8180) + EncodeBe16(1) + EncodeBe16(1) + [0, 0, 0, 0]
  }

  /** Type A, class IN, 10 seconds, four bytes, 127.0.0.1. */
  const RECORD: seq<byte> := EncodeBe16(1) + EncodeBe16(1) + [0, 0, 0, 10] + EncodeBe16(4) + [127, 0, 0, 1]

  function Dns(packet: Memory, q: nat): seq<byte> {
    DnsHeader(packet) + Copy(packet, QueryAt(packet), q + 4) + Copy(packet, QueryAt(packet), q) + RECORD
  }

  // ----- Building it in place

  /** Write into a zero gap of the buffer: what is around the gap stays. */
  method Put(buffer: array<byte>, at: nat, src: seq<byte>, ghost pre: seq<byte>, ghost n: nat, ghost post: seq<byte>)
    requires buffer[..] == pre + Zeros(n) + post && at == |pre| && |src| <= n
    modifies buffer
    ensures buffer[..] == pre + src + Zeros(n - |src|) + post
  {
    Memcpy(buffer, at, src);
    assert old(buffer[at + |src|..]) == Zeros(n - |src|) + post;
  }

  /** Lines 73-93: question, owner name and record behind the room for the headers; `ptr - buffer` is returned. */
  method PutPayload(buffer: array<byte>, packet: Memory, q: nat) returns (len: nat)
    requires buffer.Length == BUFFER_SIZE && buffer[..] == Zeros(BUFFER_SIZE) && 58 + 2 * q <= BUFFER_SIZE
    modifies buffer
    ensures len == 58 + 2 * q
    ensures buffer[..] == Zeros(40) + (Copy(packet, QueryAt(packet), q + 4) + Copy(packet, QueryAt(packet), q) + RECORD)
                          + Zeros(BUFFER_SIZE - len)
  {
    hide Copy, QueryAt;
    var ptr := IP_HEADER + UDP_HEADER + HEADER;
    ghost var a, b := Copy(packet, QueryAt(packet), q + 4), Copy(packet, QueryAt(packet), q);
    assert Zeros(BUFFER_SIZE) == Zeros(40) + Zeros(BUFFER_SIZE - 40) + [];
    Put(buffer, ptr, Copy(packet, QueryAt(packet), q + 4), Zeros(40), BUFFER_SIZE - 40, []);
    ptr := ptr + q + 4;
    Put(buffer, ptr, Copy(packet, QueryAt(packet), q), Zeros(40) + a, BUFFER_SIZE - 40 - q - 4, []);
    ptr := ptr + q;
    Put(buffer, ptr, RECORD, Zeros(40) + a + b, BUFFER_SIZE - 40 - q - 4 - q, []);
    ptr := ptr + 14;
    len := ptr;
    assert Zeros(40) + a + b + RECORD == Zeros(40) + (a + b + RECORD);
  }

  /** The bytes of a 16-bit store on a little-endian machine. */
  function Stored(c: u16): (r: seq<byte>)
    ensures |r| == 2
  {
    [c % 256, c / 256]
  }

  function IpChecksum(packet: Memory, totLen: u16): u16 {
    Checksum.Finish(Checksum.Sum(Checksum.Words(IpHeader(packet, totLen, [0, 0]))))
  }

  /** Lines 95-107. */
  method PutIpHeader(buffer: array<byte>, packet: Memory, len: u16, ghost payload: seq<byte>)
    requires buffer[..] == Zeros(40) + payload
    modifies buffer
    ensures buffer[..] == IpHeader(packet, len, Stored(IpChecksum(packet, len))) + Zeros(20) + payload
  {
    hide IpFront, IpBack, Checksum.Sum, Checksum.Finish, Checksum.Words, Checksum.OnesSum;
    ghost var front, back := IpFront(len), IpBack(packet);
    var ip := IpHeader(packet, len, [0, 0]);
    assert Zeros(40) + payload == [] + Zeros(40) + payload;
    Put(buffer, 0, ip, [], 40, payload);
    assert buffer[..IP_HEADER] == buffer[..IP_HEADER][..IP_HEADER] == ip;
    var c := Checksum.Checksum(buffer[..IP_HEADER], IP_HEADER);
    assert buffer[..] == front + [0, 0] + (back + Zeros(20) + payload);
    PutCheck(buffer, c, front, back + Zeros(20) + payload);
    assert front + Stored(c) + (back + Zeros(20) + payload) == IpHeader(packet, len, Stored(c)) + Zeros(20) + payload;
  }

  method PutCheck(buffer: array<byte>, c: u16, ghost front: seq<byte>, ghost rest: seq<byte>)
    requires |front| == 10 && buffer[..] == front + [0, 0] + rest
    modifies buffer
    ensures buffer[..] == front + Stored(c) + rest
  {
    assert front + [0, 0] + rest == front + Zeros(2) + rest;
    Put(buffer, 10, Stored(c), front, 2, rest);
    assert Zeros(0) == [];
  }

  /** Lines 109-129. */
  method PutUdpDns(buffer: array<byte>, packet: Memory, ulen: u16, ghost ip: seq<byte>, ghost payload: seq<byte>)
    requires buffer[..] == ip + Zeros(20) + payload && |ip| == IP_HEADER
    modifies buffer
    ensures buffer[..] == ip + UdpHeader(packet, ulen) + DnsHeader(packet) + payload
  {
    hide Copy, UdpAt;
    ghost var udp := UdpHeader(packet, ulen);
    Put(buffer, IP_HEADER, UdpHeader(packet, ulen), ip, 20, payload);
    Put(buffer, IP_HEADER + UDP_HEADER, DnsHeader(packet), ip + udp, 12, payload);
    assert Zeros(0) == [];
  }

  /**
   dns_answer_send up to the send, for a query that leaves room in the buffer.  The parts lie end to end
   and fill exactly the bytes that are sent; the host that asked accepts them as the answer.
   */
  method BuildAnswer(buffer: array<byte>, packet: Memory) returns (len: nat)
    requires buffer.Length == BUFFER_SIZE && buffer[..] == Zeros(BUFFER_SIZE)
    requires 58 + 2 * QueryLength(packet) <= BUFFER_SIZE
    modifies buffer
    ensures len == 58 + 2 * QueryLength(packet)
    ensures buffer[..len] == Answer(packet, QueryLength(packet)) && buffer[len..] == Zeros(BUFFER_SIZE - len)
    ensures Datagram.Receive(buffer[..len]) == Some(Returned(packet, Dns(packet, QueryLength(packet))))
  {
    hide Copy, QueryLength, QueryAt, Datagram.Receive, Returned, IpHeader, UdpHeader, DnsHeader, Dns,
        Read16;
    var q := QueryLength(packet);
    len := PutPayload(buffer, packet, q);
    ghost var rest := Copy(packet, QueryAt(packet), q + 4) + Copy(packet, QueryAt(packet), q) + RECORD;
    ghost var tail := Zeros(BUFFER_SIZE - len);
    assert Zeros(40) + rest + tail == Zeros(40) + (rest + tail);
    PutIpHeader(buffer, packet, len, rest + tail);
    Lengths(packet, len);
    PutUdpDns(buffer, packet, UDP_HEADER + HEADER + q + 4 + q + 14, Ip(packet, len), rest + tail);
    assert buffer[..] == Answer(packet, q) + tail && |Answer(packet, q)| == len by {
      Assembled(packet, q, rest, tail);
    }
    assert buffer[..len] == buffer[..][..len] == Answer(packet, q) && buffer[len..] == buffer[..][len..] == tail;
    AnswerReturns(packet, q);
  }

  lemma Assembled(packet: Memory, q: nat, rest: seq<byte>, tail: seq<byte>)
    requires 58 + 2 * q <= BUFFER_SIZE
    requires rest == Copy(packet, QueryAt(packet), q + 4) + Copy(packet, QueryAt(packet), q) + RECORD
    ensures |Answer(packet, q)| == 58 + 2 * q
    ensures Ip(packet, 58 + 2 * q) + UdpHeader(packet, 38 + 2 * q) + DnsHeader(packet) + (rest + tail)
        == Answer(packet, q) + tail
  {
    hide Copy, QueryAt, Ip, UdpHeader, DnsHeader;
    Lengths(packet, 58 + 2 * q);
    Lengths(packet, 38 + 2 * q);
    DnsLength(packet, q);
    var h, a, b := DnsHeader(packet), Copy(packet, QueryAt(packet), q + 4), Copy(packet, QueryAt(packet), q);
    assert h + a + b + RECORD == h + rest by {
      Regroup(h, a, b, RECORD);
    }
    Regroup(Ip(packet, 58 + 2 * q) + UdpHeader(packet, 38 + 2 * q), h, rest, tail);
  }

  lemma Regroup(a: seq<byte>, b: seq<byte>, c: seq<byte>, d: seq<byte>)
    ensures a + b + c + d == a + (b + c + d) == a + b + (c + d) == a + (b + c) + d
  {
  }

  function Ip(packet: Memory, totLen: u16): seq<byte> {
    IpHeader(packet, totLen, Stored(IpChecksum(packet, totLen)))
  }

  /** The datagram that answers `packet`, whose query has wire length `q`. */
  function Answer(packet: Memory, q: nat): seq<byte>
    requires 58 + 2 * q <= BUFFER_SIZE
  {
    Ip(packet, 58 + 2 * q) + UdpHeader(packet, 38 + 2 * q) + Dns(packet, q)
  }

  lemma Lengths(packet: Memory, len: u16)
    ensures |Ip(packet, len)| == IP_HEADER && |UdpHeader(packet, len)| == UDP_HEADER && |DnsHeader(packet)| == HEADER
  {
  }

  lemma HeaderValid(packet: Memory, len: u16)
    ensures Checksum.OnesSum(Checksum.NetworkWords(Ip(packet, len))) == 65535
  {
    hide Checksum.Sum, Checksum.Finish, Checksum.Words, Checksum.NetworkWords, Checksum.OnesSum;
    var ip := IpHeader(packet, len, [0, 0]);
    Checksum.ValidOnTheWire(ip, 5);
    assert Ip(packet, len) == Checksum.Store16(ip, 10, IpChecksum(packet, len));
  }

  /**
   The host that asked accepts the datagram, as one that comes from where it sent the request to: addresses
   and ports are exchanged, and the data is the DNS message.
   */
  lemma AnswerReturns(packet: Memory, q: nat)
    requires 58 + 2 * q <= BUFFER_SIZE
    ensures Datagram.Receive(Answer(packet, q)) == Some(Returned(packet, Dns(packet, q)))
  {
    hide Dns, Ip, UdpHeader, UdpAt, Copy, Read16, Datagram.Receive, Checksum.OnesSum, Checksum.NetworkWords;
    var len := 58 + 2 * q;
    Lengths(packet, len);
    DnsLength(packet, q);
    IpFields(packet, len);
    UdpFields(packet, len - IP_HEADER);
    HeaderValid(packet, len);
    Datagram.Accepts(Ip(packet, len), UdpHeader(packet, len - IP_HEADER), Dns(packet, q));
  }

  /** A datagram with this data that answers `packet`. */
  function Returned(packet: Memory, data: seq<byte>): Datagram.Udp {
    var udp := UdpAt(packet);
    Datagram.Udp(Copy(packet, 16, 4), Copy(packet, 12, 4), Read16(packet, udp + 2), Read16(packet, udp), data)
  }

  /** Where the code looks for the parts of a datagram is where they are. */
  lemma RequestParts(packet: Memory, length: nat, request: Datagram.Udp, data: seq<byte>)
    requires length <= |packet| && Datagram.Receive(packet[..length]) == Some(request)
    ensures DnsAt(packet) <= length && packet[DnsAt(packet)..length] == request.data
    ensures Returned(packet, data) == Datagram.Udp(request.dst, request.src, request.dport, request.sport, data)
  {
    hide Checksum.OnesSum, Checksum.NetworkWords;
    var a := packet[..length];
    assert Peek(a, 0) == Peek(packet, 0);
    assert a[12..16] == Copy(packet, 12, 4) && a[16..20] == Copy(packet, 16, 4);
    assert a[DnsAt(packet)..] == packet[DnsAt(packet)..length];
  }

  lemma DnsLength(packet: Memory, q: nat)
    ensures |Dns(packet, q)| == 30 + 2 * q
  {
    hide Copy, QueryAt, QueryLength, DnsHeader, IpHeader, UdpHeader, EncodeBe16, Read16;
    var a, b := Copy(packet, QueryAt(packet), q + 4), Copy(packet, QueryAt(packet), q);
    assert |a| == q + 4 && |b| == q;
    Lengths(packet, 0);
    assert |DnsHeader(packet)| == 12;
    RecordLength();
    assert |DnsHeader(packet) + a + b + RECORD| == 30 + 2 * q;
  }

  lemma RecordLength()
    ensures |RECORD| == 14
  {
  }

  lemma HeadAgrees(a: seq<byte>, b: seq<byte>, n: nat)
    requires n <= |a| && a[..n] == b
    ensures forall i :: 0 <= i < n ==> a[i] == b[i]
  {
    forall i | 0 <= i < n ensures a[i] == b[i] {
      assert a[..n][i] == a[i];
    }
  }

  lemma IpFields(packet: Memory, len: u16)
    ensures var ip := Ip(packet, len);
      && |ip| == 20 && ip[0] == 0x45 && Read16(ip, 2) == len && ip[6] == ip[7] == 0 && ip[8] > 0 && ip[9] == 17
      && ip[12..16] == Copy(packet, 16, 4) && ip[16..20] == Copy(packet, 12, 4)
  {
    var ip, front := Ip(packet, len), IpFront(len);
    assert ip[..10] == front && ip[12..20] == IpBack(packet);
    HeadAgrees(ip, front, 10);
    assert front[2..4] == EncodeBe16(len);
    assert front[2] == front[2..4][0] && front[3] == front[2..4][1];
    assert ip[12..16] == ip[12..20][..4] && ip[16..20] == ip[12..20][4..];
  }

  lemma UdpFields(packet: Memory, length: u16)
    ensures var udp := UdpHeader(packet, length);
      && |udp| == 8 && Read16(udp, 0) == Read16(packet, UdpAt(packet) + 2)
      && Read16(udp, 2) == Read16(packet, UdpAt(packet)) && Read16(udp, 4) == length && Read16(udp, 6) == 0
  {
    hide UdpAt;
    var udp := UdpHeader(packet, length);
    assert udp[4..6] == EncodeBe16(length);
    assert udp[4] == udp[4..6][0] && udp[5] == udp[4..6][1];
  }
}
