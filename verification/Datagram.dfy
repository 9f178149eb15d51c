/** What a host accepts as a UDP datagram over IPv4 (RFC 791 and RFC 768). */
module Datagram {
  import opened Bytes
  import Checksum

  datatype Udp = Udp(src: seq<byte>, dst: seq<byte>, sport: u16, dport: u16, data: seq<byte>)

  /** The bytes of the IPv4 header. */
  function HeaderLength(a: seq<byte>): nat {
    Peek(a, 0) % 16 * 4
  }

  /** The 12 bytes that the UDP checksum covers in front of the UDP header, which is at `h`. */
  function PseudoHeader(a: seq<byte>, h: nat): seq<byte>
    requires 20 <= h && h + 8 <= |a|
  {
    a[12..20] + [0, 17] + a[h + 4..h + 6]
  }

  /**
   Version 4, a header of at least 5 words with a right checksum and the right total length, no fragment, some
   time to live, protocol 17, the right UDP length, and no UDP checksum or a right one.
   */
  function Receive(a: seq<byte>): Option<Udp> {
    var h := HeaderLength(a);
    if h < 20 || |a| < h + 8 || a[0] / 16 != 4 || Read16(a, 2) != |a| then None
    else if Read16(a, 6) % 0x4000 != 0 || a[8] == 0 || a[9] != 17 then None
    else if Checksum.OnesSum(Checksum.NetworkWords(a[..h])) != 0xffff || Read16(a, h + 4) != |a| - h then None
    else if Read16(a, h + 6) != 0 && Checksum.OnesSum(Checksum.NetworkWords(PseudoHeader(a, h) + a[h..])) != 0xffff
      then None
    else Some(Udp(a[12..16], a[16..20], Read16(a, h), Read16(a, h + 2), a[h + 8..]))
  }

  /** Three parts with the right fields are accepted. */
  lemma Accepts(ip: seq<byte>, udp: seq<byte>, data: seq<byte>)
    requires |ip| == 20 && |udp| == 8 && 28 + |data| < 65536
    requires ip[0] == 0x45 && Read16(ip, 2) == 28 + |data| && ip[6] == ip[7] == 0 && ip[8] > 0 && ip[9] == 17
    requires Checksum.OnesSum(Checksum.NetworkWords(ip)) == 0xffff
    requires Read16(udp, 4) == 8 + |data| && Read16(udp, 6) == 0
    ensures Receive(ip + udp + data) == Some(Udp(ip[12..16], ip[16..20], Read16(udp, 0), Read16(udp, 2), data))
  {
    hide Checksum.OnesSum, Checksum.NetworkWords, Read16, PseudoHeader;
    var a := ip + udp + data;
    assert Read16(ip, 6) == 0 by {
      ZeroField(ip, 6);
    }
    SameField(a, [], ip, udp + data, 2);
    SameField(a, [], ip, udp + data, 6);
    SameField(a, ip, udp, data, 0);
    SameField(a, ip, udp, data, 2);
    SameField(a, ip, udp, data, 4);
    SameField(a, ip, udp, data, 6);
    assert a[0] == ip[0] && a[8] == ip[8] && a[9] == ip[9];
    assert a[..20] == ip && a[12..16] == ip[12..16] && a[16..20] == ip[16..20] && a[28..] == data;
    assert HeaderLength(a) == 20;
  }

  lemma ZeroField(a: seq<byte>, i: nat)
    requires i + 1 < |a| && a[i] == a[i + 1] == 0
    ensures Read16(a, i) == 0
  {
  }

  lemma SameField(a: seq<byte>, pre: seq<byte>, part: seq<byte>, post: seq<byte>, i: nat)
    requires a == pre + part + post && i + 1 < |part|
    ensures Read16(a, |pre| + i) == Read16(part, i)
  {
  }
}
