/**
 extract_sni: the ClientHello parser of tcp443.c, the encoder it must invert (sections 4.1.2, 4.2 and
 5.1 of RFC 8446, section 3 of RFC 6066), and the proof that it does.
 */
module ClientHello {
  import opened Bytes

  const MAX_EXTENSIONS := 50

  // ----- The parser as a function of memory

  /** Where the extension after the one at `off` starts. */
  function NextExtension(mem: Memory, off: u16): u16 {
    var lengthAt := U16(off + 2);
    U16(U16(lengthAt + 2) + Read16(mem, lengthAt))
  }

  /** The part of the host name of the server_name extension at `off` that fits the buffer. */
  function HostName(mem: Memory, off: u16): (r: seq<byte>)
    ensures |r| <= DOMAIN_LENGTH
  {
    var nameLengthAt := U16(U16(U16(off + 2) + 2) + 3);
    Copy(mem, U16(nameLengthAt + 2), Min(Read16(mem, nameLengthAt), DOMAIN_LENGTH))
  }

  /** Lines 194-221: the name of the first server_name extension among the first `iterations`. */
  function NameIn(mem: Memory, off: u16, end: u16, iterations: nat): (r: Option<seq<byte>>)
    ensures r.Some? ==> |r.value| <= DOMAIN_LENGTH
    decreases iterations
  {
    if iterations == 0 || off >= end then None
    else if Read16(mem, off) == 0 then Some(HostName(mem, off))
    else NameIn(mem, NextExtension(mem, off), end, iterations - 1)
  }

  /** Lines 138-191: where the extensions start and end. */
  function Extensions(mem: Memory, length: nat): Option<(u16, u16)> {
    if length < 10 || Peek(mem, 0) != 0x16 || Peek(mem, 5) != 0x01 then None
    else
      var handshake := Read16(mem, 3);
      if length < handshake || 45 > length then None
      else
        var sessionId := Peek(mem, 43);
        if sessionId + 45 > handshake then None
        else
          var ciphers := Read16(mem, 44 + sessionId);
          var offset := U16(45 + sessionId + ciphers);
          if offset > handshake then None
          else
            var offset2 := U16(offset + Peek(mem, offset + 1) + 2);
            if offset2 > handshake then None
            else
              var first := U16(offset2 + 2);
              Some((first, U16(first + Read16(mem, offset2))))
  }

  /** The bytes extract_sni copies, if it returns true, when it looks at no more than `limit` extensions. */
  function SniUpTo(mem: Memory, length: nat, limit: nat): (r: Option<seq<byte>>)
    ensures r.Some? ==> |r.value| <= DOMAIN_LENGTH
  {
    match Extensions(mem, length)
    case None => None
    case Some((first, end)) => NameIn(mem, first, end, limit)
  }

  function Sni(mem: Memory, length: nat): (r: Option<seq<byte>>)
    ensures r.Some? ==> |r.value| <= DOMAIN_LENGTH
  {
    SniUpTo(mem, length, MAX_EXTENSIONS)
  }

  // ----- How far it reads

  function Max(x: nat, y: nat): nat { if x < y then y else x }

  /** One past the last byte read at lines 138-191. */
  function HeadReach(mem: Memory, length: nat): nat {
    if length < 10 then 0
    else if Peek(mem, 0) != 0x16 then 1
    else if Peek(mem, 5) != 0x01 then 6
    else
      var handshake := Read16(mem, 3);
      if length < handshake || 45 > length then 6
      else
        var sessionId := Peek(mem, 43);
        if sessionId + 45 > handshake then 44
        else
          var ciphers := Read16(mem, 44 + sessionId);
          var offset := U16(45 + sessionId + ciphers);
          if offset > handshake then 46 + sessionId
          else
            var offset2 := U16(offset + Peek(mem, offset + 1) + 2);
            if offset2 > handshake then Max(46 + sessionId, offset + 2)
            else Max(Max(46 + sessionId, offset + 2), offset2 + 2)
  }

  /** One past the last byte read at lines 194-221, what is copied included. */
  function ScanReach(mem: Memory, off: u16, end: u16, iterations: nat): nat
    decreases iterations
  {
    if iterations == 0 || off >= end then 0
    else
      var fields := Max(off + 2, U16(off + 2) + 2);
      if Read16(mem, off) == 0 then
        var nameLengthAt := U16(U16(U16(off + 2) + 2) + 3);
        var n := Min(Read16(mem, nameLengthAt), DOMAIN_LENGTH);
        Max(Max(fields, nameLengthAt + 2), if n == 0 then 0 else U16(nameLengthAt + 2) + n)
      else Max(fields, ScanReach(mem, NextExtension(mem, off), end, iterations - 1))
  }

  /** One past the last byte extract_sni reads when it looks at no more than `limit` extensions. */
  function ReachUpTo(mem: Memory, length: nat, limit: nat): nat {
    match Extensions(mem, length)
    case None => HeadReach(mem, length)
    case Some((first, end)) => Max(HeadReach(mem, length), ScanReach(mem, first, end, limit))
  }

  function SniReach(mem: Memory, length: nat): nat {
    ReachUpTo(mem, length, MAX_EXTENSIONS)
  }

  // ----- The code

  /** Read a byte; `reach` is one past the last byte read so far. */
  method Load(mem: Memory, i: nat, ghost reach0: nat) returns (b: byte, ghost reach: nat)
    ensures b == Peek(mem, i) && reach == Max(reach0, i + 1)
  {
    b, reach := Peek(mem, i), Max(reach0, i + 1);
  }

  method Load16(mem: Memory, i: nat, ghost reach0: nat) returns (v: u16, ghost reach: nat)
    ensures v == Read16(mem, i) && reach == Max(reach0, i + 2)
  {
    var hi, lo;
    hi, reach := Load(mem, i, reach0);
    lo, reach := Load(mem, i + 1, reach);
    v := Be16(hi, lo);
  }

  /** extract_sni.  On success the name is written over the front of `domain`. */
  method ExtractSni(domain: array<byte>, payload: Memory, payloadLength: nat) returns (found: bool, ghost reach: nat)
    requires domain.Length == DOMAIN_LENGTH
    modifies domain
    ensures found <==> Sni(payload, payloadLength).Some?
    ensures found ==> var name := Sni(payload, payloadLength).value;
              domain[..] == name + old(domain[|name|..])
    ensures !found ==> domain[..] == old(domain[..])
    ensures reach == SniReach(payload, payloadLength)
  {
    found, reach := ExtractUpTo(domain, payload, payloadLength, MAX_EXTENSIONS);
  }

  method ExtractUpTo(domain: array<byte>, payload: Memory, payloadLength: nat, limit: nat)
      returns (found: bool, ghost reach: nat)
    requires domain.Length == DOMAIN_LENGTH
    modifies domain
    ensures found <==> SniUpTo(payload, payloadLength, limit).Some?
    ensures found ==> var name := SniUpTo(payload, payloadLength, limit).value;
              domain[..] == name + old(domain[|name|..])
    ensures !found ==> domain[..] == old(domain[..])
    ensures reach == ReachUpTo(payload, payloadLength, limit)
  {
    hide Extensions, HeadReach, NameIn, ScanReach;
    var range;
    range, reach := FindExtensions(payload, payloadLength);
    match range {
      case None =>
        found := false;
      case Some((first, end)) =>
        found, reach := ScanExtensions(domain, payload, first, end, limit, reach);
    }
  }

  /** Lines 138-191. */
  method FindExtensions(payload: Memory, payloadLength: nat) returns (r: Option<(u16, u16)>, ghost reach: nat)
    ensures r == Extensions(payload, payloadLength) && reach == HeadReach(payload, payloadLength)
  {
    hide Peek, Be16, Read16;
    r, reach := None, 0;
    if payloadLength < 10 {
      return;
    }
    var type_, hello;
    type_, reach := Load(payload, 0, reach);
    if type_ != 0x16 {
      return;
    }
    hello, reach := Load(payload, 5, reach);
    if hello != 0x01 {
      return;
    }
    var handshakeLength;
    handshakeLength, reach := Load16(payload, 3, reach);
    if payloadLength < handshakeLength {
      return;
    }
    var baseOffset := 43;
    if baseOffset + 2 > payloadLength {
      return;
    }
    var sessionIdLength;
    sessionIdLength, reach := Load(payload, baseOffset, reach);
    if sessionIdLength + baseOffset + 2 > handshakeLength {
      return;
    }
    var cipherLength;
    cipherLength, reach := Load16(payload, baseOffset + sessionIdLength + 1, reach);
    var offset: nat := U16(baseOffset + sessionIdLength + cipherLength + 2);
    if offset > handshakeLength {
      return;
    }
    var compressionLength;
    compressionLength, reach := Load(payload, offset + 1, reach);
    offset := U16(offset + compressionLength + 2);
    if offset > handshakeLength {
      return;
    }
    var extensionsLength;
    extensionsLength, reach := Load16(payload, offset, reach);
    var extensionOffset: nat := U16(2 + offset);
    var endOfExtensions := U16(extensionOffset + extensionsLength);
    r := Some((extensionOffset, endOfExtensions));
  }

  /** Lines 205-213, for a server_name extension whose data starts at `dataAt`. */
  method CopyName(domain: array<byte>, payload: Memory, dataAt: u16, ghost reach0: nat) returns (ghost reach: nat)
    requires domain.Length == DOMAIN_LENGTH
    modifies domain
    ensures var at := U16(dataAt + 3);
      var n := Min(Read16(payload, at), DOMAIN_LENGTH);
      && domain[..] == Copy(payload, U16(at + 2), n) + old(domain[n..])
      && reach == Max(Max(reach0, at + 2), if n == 0 then 0 else U16(at + 2) + n)
  {
    hide Peek, Be16, Read16, Copy;
    var extensionOffset: nat := U16(dataAt + 3);
    var sniLength;
    sniLength, reach := Load16(payload, extensionOffset, reach0);
    extensionOffset := U16(extensionOffset + 2);
    var copyLength := Min(sniLength, DOMAIN_LENGTH);
    Memcpy(domain, 0, Copy(payload, extensionOffset, copyLength));
    reach := if copyLength == 0 then reach else Max(reach, extensionOffset + copyLength);
  }

  /** Lines 194-221. */
  method ScanExtensions(domain: array<byte>, payload: Memory, first: u16, end: u16, limit: nat, ghost reach0: nat)
      returns (found: bool, ghost reach: nat)
    requires domain.Length == DOMAIN_LENGTH
    modifies domain
    ensures found <==> NameIn(payload, first, end, limit).Some?
    ensures found ==> var name := NameIn(payload, first, end, limit).value;
              domain[..] == name + old(domain[|name|..])
    ensures !found ==> domain[..] == old(domain[..])
    ensures reach == Max(reach0, ScanReach(payload, first, end, limit))
  {
    hide Peek, Be16, Read16, Copy;
    var extensionOffset: u16, iterations: nat := first, limit;
    reach := reach0;
    while iterations != 0 && extensionOffset < end
      invariant NameIn(payload, extensionOffset, end, iterations) == NameIn(payload, first, end, limit)
      invariant Max(reach, ScanReach(payload, extensionOffset, end, iterations))
             == Max(reach0, ScanReach(payload, first, end, limit))
      invariant domain[..] == old(domain[..])
      decreases iterations
    {
      iterations := iterations - 1;
      var extensionId, extensionLength;
      extensionId, reach := Load16(payload, extensionOffset, reach);
      extensionOffset := U16(extensionOffset + 2);
      extensionLength, reach := Load16(payload, extensionOffset, reach);
      extensionOffset := U16(extensionOffset + 2);
      if extensionId == 0 {
        reach := CopyName(domain, payload, extensionOffset, reach);
        return true, reach;
      }
      extensionOffset := U16(extensionOffset + extensionLength);
    }
    found := false;
  }

  // ----- The encoder

  datatype Extension =
    | ServerName(host: seq<byte>, more: seq<byte>)  // the first host_name entry and what follows it in the list
    | Other(id: nat, data: seq<byte>)

  datatype Hello = Hello(recordVersion: seq<byte>, version: seq<byte>, random: seq<byte>, sessionId: seq<byte>,
                         ciphers: seq<byte>, compression: seq<byte>, extensions: seq<Extension>)

  ghost predicate ExtensionFits(e: Extension) {
    match e
    case ServerName(host, more) => |host| + |more| + 5 < 65536
    case Other(id, data) => 0 < id < 65536 && |data| < 65536
  }

  ghost function EncodeExtension(e: Extension): (r: seq<byte>)
    requires ExtensionFits(e)
    ensures |r| >= 4
  {
    match e
    case ServerName(host, more) =>
      EncodeBe16(0) + (EncodeBe16(|host| + |more| + 5)
        + (EncodeBe16(|host| + |more| + 3) + ([0] + (EncodeBe16(|host|) + (host + more)))))
    case Other(id, data) =>
      EncodeBe16(id) + (EncodeBe16(|data|) + data)
  }

  ghost predicate ExtensionsFit(es: seq<Extension>) {
    forall i :: 0 <= i < |es| ==> ExtensionFits(es[i])
  }

  ghost function EncodeExtensions(es: seq<Extension>): (r: seq<byte>)
    requires ExtensionsFit(es)
    ensures es != [] ==> |r| >= 4
  {
    if es == [] then [] else EncodeExtension(es[0]) + EncodeExtensions(es[1..])
  }

  lemma ExtensionLength(e: Extension)
    requires ExtensionFits(e)
    ensures |EncodeExtension(e)| == if e.ServerName? then 9 + |e.host| + |e.more| else 4 + |e.data|
  {
  }

  lemma OneExtension(e: Extension)
    requires ExtensionFits(e)
    ensures ExtensionsFit([e]) && EncodeExtensions([e]) == EncodeExtension(e)
  {
    hide EncodeExtension;
    assert [e][1..] == [] && EncodeExtensions([]) == [];
  }

  /** The bytes after the compression methods. */
  ghost function EncodeTail(h: Hello): seq<byte>
    requires ExtensionsFit(h.extensions) && |EncodeExtensions(h.extensions)| < 65536
  {
    EncodeBe16(|EncodeExtensions(h.extensions)|) + EncodeExtensions(h.extensions)
  }

  /** A ClientHello whose parts fit their length fields and whose record fits a 16-bit length. */
  ghost predicate Fits(h: Hello) {
    && |h.recordVersion| == 2 && |h.version| == 2 && |h.random| == 32
    && |h.sessionId| <= 255 && |h.compression| <= 255
    && ExtensionsFit(h.extensions)
    && 49 + |h.sessionId| + |h.ciphers| + |h.compression| + |EncodeExtensions(h.extensions)| < 65536
  }

  /** Length of the handshake message, which is the record length field. */
  ghost function MessageLength(h: Hello): nat
    requires Fits(h)
  {
    44 + |h.sessionId| + |h.ciphers| + |h.compression| + |EncodeExtensions(h.extensions)|
  }

  /** Everything up to and including the random. */
  ghost function EncodeHead(h: Hello): (r: seq<byte>)
    requires Fits(h)
    ensures |r| == 43
  {
    var body := MessageLength(h) - 4;
    [0x16] + h.recordVersion + EncodeBe16(MessageLength(h)) + [0x01, 0] + EncodeBe16(body) + h.version + h.random
  }

  ghost function EncodeRecord(h: Hello): (r: seq<byte>)
    requires Fits(h)
    ensures |r| == 5 + MessageLength(h)
  {
    EncodeHead(h) + EncodeBody(h)
  }

  ghost function EncodeBody(h: Hello): seq<byte>
    requires Fits(h)
  {
    [|h.sessionId|] + (h.sessionId + EncodeCiphers(h))
  }

  ghost function EncodeCiphers(h: Hello): seq<byte>
    requires Fits(h)
  {
    EncodeBe16(|h.ciphers|) + (h.ciphers + ([|h.compression|] + (h.compression + EncodeTail(h))))
  }

  /** The host name of the first server_name extension among the first `n`, cut to the buffer. */
  ghost function FirstName(es: seq<Extension>, n: nat): (r: Option<seq<byte>>)
    ensures r.Some? ==> |r.value| <= DOMAIN_LENGTH
  {
    if n == 0 || es == [] then None
    else if es[0].ServerName? then Some(es[0].host[..Min(|es[0].host|, DOMAIN_LENGTH)])
    else FirstName(es[1..], n - 1)
  }

  /** `FirstName` finds a name exactly when one of the first `n` extensions carries one. */
  lemma {:induction false} FirstNameExists(es: seq<Extension>, n: nat)
    ensures FirstName(es, n).Some? <==> exists k :: 0 <= k < n && k < |es| && es[k].ServerName?
  {
    if n > 0 && es != [] && es[0].Other? {
      FirstNameExists(es[1..], n - 1);
      forall k | 0 < k < n && k < |es| ensures es[k] == es[1..][k - 1] {
      }
    }
  }

  // ----- The parser inverts the encoder

  /** On an encoded server_name extension the parser finds the host name. */
  lemma ServerNameFields(mem: Memory, off: nat, e: Extension)
    requires e.ServerName? && ExtensionFits(e) && Lies(mem, off, EncodeExtension(e))
    requires off + |EncodeExtension(e)| < 65536
    ensures Read16(mem, off) == 0 && Read16(mem, off + 7) == |e.host|
    ensures HostName(mem, off) == e.host[..Min(|e.host|, DOMAIN_LENGTH)]
  {
    var n := |e.host| + |e.more|;
    LiesBe16(mem, off, 0, EncodeBe16(n + 5) + (EncodeBe16(n + 3) + ([0] + (EncodeBe16(|e.host|) + (e.host + e.more)))));
    LiesBe16(mem, off + 2, n + 5, EncodeBe16(n + 3) + ([0] + (EncodeBe16(|e.host|) + (e.host + e.more))));
    LiesBe16(mem, off + 4, n + 3, [0] + (EncodeBe16(|e.host|) + (e.host + e.more)));
    LiesSplit(mem, off + 6, [0], EncodeBe16(|e.host|) + (e.host + e.more));
    LiesBe16(mem, off + 7, |e.host|, e.host + e.more);
    LiesSplit(mem, off + 9, e.host, e.more);
    var k := Min(|e.host|, DOMAIN_LENGTH);
    assert Copy(mem, off + 9, k) == e.host[..k];
  }

  /** On any other encoded extension it steps to the end. */
  lemma OtherFields(mem: Memory, off: nat, e: Extension)
    requires e.Other? && ExtensionFits(e) && Lies(mem, off, EncodeExtension(e))
    requires off + |EncodeExtension(e)| < 65536
    ensures Read16(mem, off) != 0 && NextExtension(mem, off) == off + |EncodeExtension(e)|
  {
    LiesBe16(mem, off, e.id, EncodeBe16(|e.data|) + e.data);
    LiesBe16(mem, off + 2, |e.data|, e.data);
  }

  /** The parser's first server name is the encoder's. */
  lemma {:induction false} NameInExtensions(mem: Memory, off: nat, es: seq<Extension>, n: nat)
    requires ExtensionsFit(es) && Lies(mem, off, EncodeExtensions(es))
    requires off + |EncodeExtensions(es)| < 65536
    ensures NameIn(mem, off, off + |EncodeExtensions(es)|, n) == FirstName(es, n)
    decreases |es|
  {
    hide Lies, Read16, NextExtension, HostName, EncodeExtension;
    if es != [] && n > 0 {
      var next := off + |EncodeExtension(es[0])|;
      LiesSplit(mem, off, EncodeExtension(es[0]), EncodeExtensions(es[1..]));
      if es[0].ServerName? {
        ServerNameFields(mem, off, es[0]);
      } else {
        OtherFields(mem, off, es[0]);
        NameInExtensions(mem, next, es[1..], n - 1);
      }
    }
  }

  lemma HeadFields(mem: Memory, h: Hello, rest: seq<byte>)
    requires Fits(h) && Lies(mem, 0, EncodeHead(h) + rest)
    ensures Peek(mem, 0) == 0x16 && Peek(mem, 5) == 0x01 && Read16(mem, 3) == MessageLength(h)
    ensures Lies(mem, 43, rest)
  {
    LiesSplit(mem, 0, EncodeHead(h), rest);
    var e, l := EncodeHead(h), EncodeBe16(MessageLength(h));
    assert e[0] == 0x16 && e[3] == l[0] && e[4] == l[1] && e[5] == 0x01;
    assert Peek(mem, 0 + 0) == e[0] && Peek(mem, 0 + 3) == e[3] && Peek(mem, 0 + 4) == e[4] && Peek(mem, 0 + 5) == e[5];
  }

  lemma BodyFields(mem: Memory, h: Hello)
    requires Fits(h) && Lies(mem, 43, EncodeBody(h))
    ensures Peek(mem, 43) == |h.sessionId|
    ensures Lies(mem, 44 + |h.sessionId|, EncodeCiphers(h))
  {
    LiesSplit(mem, 43, [|h.sessionId|], h.sessionId + EncodeCiphers(h));
    assert Peek(mem, 43 + 0) == [|h.sessionId|][0];
    LiesSplit(mem, 44, h.sessionId, EncodeCiphers(h));
  }

  lemma CipherFields(mem: Memory, h: Hello, at: nat)
    requires Fits(h) && Lies(mem, at, EncodeCiphers(h))
    ensures Read16(mem, at) == |h.ciphers|
    ensures Peek(mem, at + 2 + |h.ciphers|) == |h.compression|
    ensures Lies(mem, at + 3 + |h.ciphers| + |h.compression|, EncodeTail(h))
  {
    var s := [|h.compression|] + (h.compression + EncodeTail(h));
    LiesBe16(mem, at, |h.ciphers|, h.ciphers + s);
    LiesSplit(mem, at + 2, h.ciphers, s);
    var c := at + 2 + |h.ciphers|;
    LiesSplit(mem, c, [|h.compression|], h.compression + EncodeTail(h));
    assert Peek(mem, c + 0) == [|h.compression|][0];
    LiesSplit(mem, c + 1, h.compression, EncodeTail(h));
  }

  lemma NoExtensions()
    ensures EncodeExtensions([]) == []
  {
  }

  /** The parser's offsets step exactly over the variable-length fields. */
  lemma ReachesExtensions(mem: Memory, h: Hello, length: nat)
    requires Fits(h) && Lies(mem, 0, EncodeRecord(h)) && MessageLength(h) <= length
    ensures var at := 49 + |h.sessionId| + |h.ciphers| + |h.compression|;
      && Lies(mem, at, EncodeExtensions(h.extensions))
      && Extensions(mem, length) ==
           (if h.extensions == [] then None else Some((at, at + |EncodeExtensions(h.extensions)|)))
      && HeadReach(mem, length) <= at
  {
    hide Lies, Read16, Peek, Extensions, HeadReach, EncodeHead, EncodeBody, EncodeCiphers, EncodeExtensions, EncodeBe16;
    NoExtensions();
    HeadFields(mem, h, EncodeBody(h));
    BodyFields(mem, h);
    var at := 44 + |h.sessionId|;
    CipherFields(mem, h, at);
    var e := at + 3 + |h.ciphers| + |h.compression|;
    LiesBe16(mem, e, |EncodeExtensions(h.extensions)|, EncodeExtensions(h.extensions));
    ExtensionsFrom(mem, length, MessageLength(h), |h.sessionId|, |h.ciphers|, |h.compression|,
        |EncodeExtensions(h.extensions)|);
  }

  /** `Extensions` on a message with these field values. */
  lemma ExtensionsFrom(mem: Memory, length: nat, message: nat, sid: nat, ciphers: nat, compression: nat, exts: nat)
    requires Peek(mem, 0) == 0x16 && Peek(mem, 5) == 0x01
        && Read16(mem, 3) == message == 44 + sid + ciphers + compression + exts
    requires message < 65531 && (exts == 0 || exts >= 4) && message <= length
    requires Peek(mem, 43) == sid && Read16(mem, 44 + sid) == ciphers && Peek(mem, 46 + sid + ciphers) == compression
    requires Read16(mem, 47 + sid + ciphers + compression) == exts
    ensures var at := 49 + sid + ciphers + compression;
            && Extensions(mem, length) == (if exts == 0 then None else Some((at, at + exts)))
            && HeadReach(mem, length) <= at
  {
    hide Peek, Read16;
    assert U16(45 + sid + ciphers) == 45 + sid + ciphers;
    assert U16(47 + sid + ciphers + compression) == 47 + sid + ciphers + compression;
  }

  /**
   The round trip.  It holds whatever lies outside the record, so no byte outside it matters, and for
   every payload length that covers the handshake message.
   */
  lemma SniRoundTrip(mem: Memory, h: Hello, length: nat)
    requires Fits(h) && Lies(mem, 0, EncodeRecord(h)) && MessageLength(h) <= length
    ensures Sni(mem, length) == FirstName(h.extensions, MAX_EXTENSIONS)
  {
    RoundTripUpTo(mem, h, length, MAX_EXTENSIONS);
  }

  lemma RoundTripUpTo(mem: Memory, h: Hello, length: nat, limit: nat)
    requires Fits(h) && Lies(mem, 0, EncodeRecord(h)) && MessageLength(h) <= length
    ensures SniUpTo(mem, length, limit) == FirstName(h.extensions, limit)
  {
    hide Extensions, SniUpTo, EncodeRecord, Lies;
    ReachesExtensions(mem, h, length);
    SniFromExtensions(mem, length, limit, 49 + |h.sessionId| + |h.ciphers| + |h.compression|, h.extensions);
  }

  lemma SniFromExtensions(mem: Memory, length: nat, limit: nat, at: nat, es: seq<Extension>)
    requires ExtensionsFit(es) && Lies(mem, at, EncodeExtensions(es)) && at + |EncodeExtensions(es)| < 65536
    requires Extensions(mem, length) == if es == [] then None else Some((at, at + |EncodeExtensions(es)|))
    ensures SniUpTo(mem, length, limit) == FirstName(es, limit)
  {
    hide Extensions, NameIn, Lies;
    NameInExtensions(mem, at, es, limit);
  }

  /** The extensions are looked for exactly in these payloads; offsets wrap as the 16-bit variables do. */
  lemma ScannedIff(mem: Memory, length: nat)
    ensures Extensions(mem, length).Some? <==>
      && length >= 45 && length >= Read16(mem, 3) && Peek(mem, 0) == 22 && Peek(mem, 5) == 1
      && var sid := Peek(mem, 43);
      && sid + 45 <= Read16(mem, 3)
      && var methods := (45 + sid + Read16(mem, 44 + sid)) % 65536;
      && methods <= Read16(mem, 3) && (methods + 2 + Peek(mem, methods + 1)) % 65536 <= Read16(mem, 3)
  {
    hide Peek, Read16;
  }

  ghost predicate IsFirstName(es: seq<Extension>, k: nat) {
    k < |es| && es[k].ServerName? && forall j :: 0 <= j < k ==> es[j].Other?
  }

  /**
   What the round trip gives: a name is found exactly if a server name is among the first 50 extensions, and it
   is the first of them, of which the buffer takes 256 bytes.
   */
  lemma NameFoundIff(mem: Memory, h: Hello, length: nat)
    requires Fits(h) && Lies(mem, 0, EncodeRecord(h)) && MessageLength(h) <= length
    ensures Sni(mem, length).Some? <==> exists k :: 0 <= k < 50 && k < |h.extensions| && h.extensions[k].ServerName?
    ensures forall k: nat :: IsFirstName(h.extensions, k) && k < 50 ==>
      var host := h.extensions[k].host; Sni(mem, length) == Some(if |host| <= 256 then host else host[..256])
  {
    hide Sni, EncodeRecord, Lies, FirstName;
    var es, n := h.extensions, MAX_EXTENSIONS;
    SniRoundTrip(mem, h, length);
    FirstNameExists(es, n);
    forall k: nat | IsFirstName(es, k) && k < n
      ensures var host := es[k].host; Sni(mem, length) == Some(if |host| <= 256 then host else host[..256])
    {
      FirstNameAt(es, n, k);
    }
  }

  lemma {:induction false} FirstNameAt(es: seq<Extension>, n: nat, k: nat)
    requires k < n && IsFirstName(es, k)
    ensures var host := es[k].host; FirstName(es, n) == Some(if |host| <= 256 then host else host[..256])
  {
    if k > 0 {
      assert es[0].Other?;
      FirstNameAt(es[1..], n - 1, k - 1);
    } else {
      assert es[0].host[..|es[0].host|] == es[0].host;
    }
  }

  /** The bytes of a record, and the two that are its name. */
  lemma NameInBytes()
    ensures var record: seq<byte> := [22, 3, 1, 0, 58, 1, 0, 0, 54, 3, 3] + Zeros(32)
        + [0, 0, 2, 0, 47, 1, 0, 0, 11, 0, 0, 0, 7, 0, 5, 0, 0, 2, 97, 98];
      Sni(record, 63) == Some([97, 98])
  {
    hide NameIn, Extensions, HeadReach;
    var record: seq<byte> := [22, 3, 1, 0, 58, 1, 0, 0, 54, 3, 3] + Zeros(32)
        + [0, 0, 2, 0, 47, 1, 0, 0, 11, 0, 0, 0, 7, 0, 5, 0, 0, 2, 97, 98];
    ExtensionsFrom(record, 63, 58, 0, 2, 1, 11);
    assert Copy(record, 61, 2) == [97, 98];
    FirstIsName(record, 52, 63, MAX_EXTENSIONS);
  }

  lemma FirstIsName(mem: Memory, off: u16, end: u16, n: nat)
    requires n > 0 && off < end && Read16(mem, off) == 0
    ensures NameIn(mem, off, end, n) == Some(HostName(mem, off))
  {
  }

  // ----- All reads are inside the record

  lemma {:induction false} ScanInBounds(mem: Memory, off: nat, es: seq<Extension>, n: nat)
    requires ExtensionsFit(es) && Lies(mem, off, EncodeExtensions(es))
    requires off + |EncodeExtensions(es)| < 65536
    ensures ScanReach(mem, off, off + |EncodeExtensions(es)|, n) <= off + |EncodeExtensions(es)|
    decreases |es|
  {
    hide Lies, Read16, NextExtension, HostName, EncodeExtension;
    if es != [] && n > 0 {
      var next := off + |EncodeExtension(es[0])|;
      LiesSplit(mem, off, EncodeExtension(es[0]), EncodeExtensions(es[1..]));
      ExtensionLength(es[0]);
      if es[0].ServerName? {
        ServerNameFields(mem, off, es[0]);
      } else {
        OtherFields(mem, off, es[0]);
        ScanInBounds(mem, next, es[1..], n - 1);
      }
    }
  }

  /** On every encoded ClientHello every byte that extract_sni reads or copies lies inside the record. */
  lemma ReadsInBounds(mem: Memory, h: Hello, length: nat)
    requires Fits(h) && Lies(mem, 0, EncodeRecord(h)) && MessageLength(h) <= length
    ensures SniReach(mem, length) <= |EncodeRecord(h)|
  {
    ReachInBounds(mem, h, length, MAX_EXTENSIONS);
  }

  lemma ReachInBounds(mem: Memory, h: Hello, length: nat, limit: nat)
    requires Fits(h) && Lies(mem, 0, EncodeRecord(h)) && MessageLength(h) <= length
    ensures ReachUpTo(mem, length, limit) <= |EncodeRecord(h)|
  {
    hide Lies, Extensions, EncodeRecord, EncodeExtensions, HeadReach, ScanReach;
    ReachesExtensions(mem, h, length);
    ScanInBounds(mem, 49 + |h.sessionId| + |h.ciphers| + |h.compression|, h.extensions, limit);
  }
}
