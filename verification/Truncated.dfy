/**
 A payload counts as complete when it covers the record's length field, which leaves out the 5-byte record
 header (tcp443.c, lines 90 and 153).  One that lacks up to 5 bytes of the record is judged all the same,
 with whatever follows it in memory: when the name found is still the right one.
 */
module Truncated {
  import opened Bytes
  import opened ClientHello
  import Segments

  ghost predicate Agree(a: Memory, b: Memory, n: nat) {
    forall i :: 0 <= i < n ==> Peek(a, i) == Peek(b, i)
  }

  // ----- The result depends on the bytes read only

  lemma HeadDepends(a: Memory, b: Memory, length: nat)
    requires Agree(a, b, HeadReach(a, length))
    ensures Extensions(b, length) == Extensions(a, length)
  {
    hide Peek;
  }

  lemma {:induction false} ScanDepends(a: Memory, b: Memory, off: u16, end: u16, n: nat)
    requires Agree(a, b, ScanReach(a, off, end, n))
    ensures NameIn(b, off, end, n) == NameIn(a, off, end, n)
    decreases n
  {
    hide Peek;
    if n > 0 && off < end {
      if Read16(a, off) == 0 {
        assert HostName(b, off) == HostName(a, off);
      } else {
        ScanDepends(a, b, NextExtension(a, off), end, n - 1);
      }
    }
  }

  lemma DependsUpTo(a: Memory, b: Memory, length: nat, limit: nat)
    requires Agree(a, b, ReachUpTo(a, length, limit))
    ensures SniUpTo(b, length, limit) == SniUpTo(a, length, limit)
  {
    hide Peek, Extensions, HeadReach, NameIn, ScanReach;
    HeadDepends(a, b, length);
    if Extensions(a, length).Some? {
      var (first, end) := Extensions(a, length).value;
      ScanDepends(a, b, first, end, limit);
    }
  }

  /** Memory that holds the first `n` bytes of the record and anything after that. */
  lemma PrefixAgrees(record: seq<byte>, n: nat, beyond: seq<byte>)
    requires n <= |record|
    ensures Agree(record, record[..n] + beyond, n)
  {
  }

  /** If nothing past byte `n` of the record is read, the name found is that of the whole record. */
  lemma NameSurvives(h: Hello, n: nat, beyond: seq<byte>)
    requires Fits(h) && MessageLength(h) <= n <= |EncodeRecord(h)| && SniReach(EncodeRecord(h), n) <= n
    ensures Sni(EncodeRecord(h)[..n] + beyond, n) == FirstName(h.extensions, MAX_EXTENSIONS)
  {
    SurvivesUpTo(h, n, beyond, MAX_EXTENSIONS);
  }

  lemma SurvivesUpTo(h: Hello, n: nat, beyond: seq<byte>, limit: nat)
    requires Fits(h) && MessageLength(h) <= n <= |EncodeRecord(h)| && ReachUpTo(EncodeRecord(h), n, limit) <= n
    ensures SniUpTo(EncodeRecord(h)[..n] + beyond, n, limit) == FirstName(h.extensions, limit)
  {
    hide Peek, EncodeRecord, MessageLength, Fits, ReachUpTo, SniUpTo, FirstName, Lies;
    var record := EncodeRecord(h);
    RecordLies(record);
    RoundTripUpTo(record, h, n, limit);
    PrefixAgrees(record, n, beyond);
    DependsUpTo(record, record[..n] + beyond, n, limit);
  }

  lemma RecordLies(record: seq<byte>)
    ensures Lies(record, 0, record)
  {
  }

  // ----- Exactly when a name survives

  /** Extension `k` is the first server_name, and among the first `n`. */
  ghost predicate FirstNamed(es: seq<Extension>, n: nat, k: nat) {
    k < |es| && k < n && es[k].ServerName? && forall i :: 0 <= i < k ==> es[i].Other?
  }

  /** Where extension `k` starts, from the start of the extensions. */
  ghost function Offset(es: seq<Extension>, k: nat): nat
    requires ExtensionsFit(es) && k < |es|
  {
    if k == 0 then 0 else |EncodeExtension(es[0])| + Offset(es[1..], k - 1)
  }

  /** What the record itself says of the name. */
  lemma {:induction false} NameInRecord(a: Memory, off: nat, es: seq<Extension>, n: nat, k: nat)
    requires ExtensionsFit(es) && Lies(a, off, EncodeExtensions(es)) && off + |EncodeExtensions(es)| < 65536
    requires FirstNamed(es, n, k)
    ensures var o, host, end := Offset(es, k), es[k].host, off + |EncodeExtensions(es)|;
      && off + o + 9 + |host| <= end && Read16(a, off + o) == 0 && Read16(a, off + o + 7) == |host|
      && ScanReach(a, off, end, n) == off + o + 9 + Min(|host|, DOMAIN_LENGTH)
      && FirstName(es, n) == Some(host[..Min(|host|, DOMAIN_LENGTH)])
    decreases k
  {
    hide Lies, Read16, HostName, EncodeExtension, NextExtension;
    var next := off + |EncodeExtension(es[0])|;
    LiesSplit(a, off, EncodeExtension(es[0]), EncodeExtensions(es[1..]));
    ExtensionLength(es[0]);
    if k == 0 {
      ServerNameFields(a, off, es[0]);
    } else {
      OtherFields(a, off, es[0]);
      NameInRecord(a, next, es[1..], n - 1, k - 1);
    }
  }

  /** Memory `b` need only agree up to the type of that extension for its name to be looked at there. */
  lemma {:induction false} ScanAt(a: Memory, b: Memory, off: nat, es: seq<Extension>, n: nat, k: nat, end: u16)
    requires ExtensionsFit(es) && Lies(a, off, EncodeExtensions(es)) && off + |EncodeExtensions(es)| <= end
    requires FirstNamed(es, n, k) && Agree(a, b, off + Offset(es, k) + 2)
    requires Read16(a, off + Offset(es, k)) == 0 && off + Offset(es, k) < end
    ensures NameIn(b, off, end, n) == Some(HostName(b, off + Offset(es, k)))
    decreases k
  {
    hide Lies, HostName, EncodeExtension, Peek, Be16;
    if k > 0 {
      var next := off + |EncodeExtension(es[0])|;
      LiesSplit(a, off, EncodeExtension(es[0]), EncodeExtensions(es[1..]));
      OtherFields(a, off, es[0]);
      ScanAt(a, b, next, es[1..], n - 1, k - 1, end);
    }
  }

  ghost function ExtensionsAt(h: Hello): nat {
    49 + |h.sessionId| + |h.ciphers| + |h.compression|
  }

  /** Where the host name of extension `k` starts in the record. */
  ghost function NameAt(h: Hello, k: nat): nat
    requires Fits(h) && k < |h.extensions|
  {
    ExtensionsAt(h) + Offset(h.extensions, k) + 9
  }

  /** One past the last byte of it that fits the buffer. */
  ghost function NameEnd(h: Hello, k: nat): nat
    requires Fits(h) && k < |h.extensions| && h.extensions[k].ServerName?
  {
    NameAt(h, k) + Min(|h.extensions[k].host|, DOMAIN_LENGTH)
  }

  /** What the parser makes of the record. */
  lemma RecordParse(h: Hello, n: nat, limit: nat, k: nat)
    requires Fits(h) && MessageLength(h) <= n && FirstNamed(h.extensions, limit, k)
    ensures var a, host, at := EncodeRecord(h), h.extensions[k].host, ExtensionsAt(h);
      && NameAt(h, k) + |host| <= |a| && Read16(a, NameAt(h, k) - 9) == 0 && Read16(a, NameAt(h, k) - 2) == |host|
      && FirstName(h.extensions, limit) == Some(host[..Min(|host|, DOMAIN_LENGTH)])
      && Extensions(a, n) == Some((at, at + |EncodeExtensions(h.extensions)|)) && HeadReach(a, n) <= at
      && Lies(a, at, EncodeExtensions(h.extensions)) && at + |EncodeExtensions(h.extensions)| == |a| < 65536
      && ReachUpTo(a, n, limit) == NameEnd(h, k)
  {
    hide Lies, EncodeRecord, EncodeExtensions, Extensions, HeadReach, ScanReach, FirstName, Read16, Offset;
    RecordLies(EncodeRecord(h));
    ReachesExtensions(EncodeRecord(h), h, n);
    NameInRecord(EncodeRecord(h), ExtensionsAt(h), h.extensions, limit, k);
  }

  /** What it makes of memory that agrees with the record up to byte `n`. */
  lemma CutParse(h: Hello, n: nat, b: Memory, limit: nat, k: nat)
    requires Fits(h) && MessageLength(h) <= n <= |EncodeRecord(h)| && FirstNamed(h.extensions, limit, k)
    requires Agree(EncodeRecord(h), b, n)
    ensures NameAt(h, k) < 65536 && SniUpTo(b, n, limit) == Some(HostName(b, NameAt(h, k) - 9))
  {
    hide Lies, HostName, EncodeRecord, EncodeExtensions, Extensions, HeadReach, ReachUpTo, NameIn, Read16, Agree,
         Offset, FirstName, ExtensionsFit;
    var a, at := EncodeRecord(h), ExtensionsAt(h);
    RecordParse(h, n, limit, k);
    LessAgree(a, b, n, HeadReach(a, n));
    HeadDepends(a, b, n);
    LessAgree(a, b, n, at + Offset(h.extensions, k) + 2);
    ScanAt(a, b, at, h.extensions, limit, k, at + |EncodeExtensions(h.extensions)|);
  }

  lemma LessAgree(a: Memory, b: Memory, n: nat, m: nat)
    requires Agree(a, b, n) && m <= n
    ensures Agree(a, b, m)
  {
  }

  function Differing(b: byte): byte {
    if b == 0 then 1 else 0
  }

  /** Bytes after the cut that make the parser find another name. */
  ghost function Misleading(host: seq<byte>, nameAt: nat, n: nat): seq<byte>
    requires n < nameAt + |host|
  {
    if nameAt <= n then [Differing(host[n - nameAt])] else [255, 255, 255, 255, 255]
  }

  lemma CutName(a: Memory, n: nat, nameAt: nat, host: seq<byte>, beyond: seq<byte>)
    requires 9 <= nameAt <= |a| <= n + 5 && n <= |a| && |a| < 65536 && nameAt + |host| <= |a|
    requires Read16(a, nameAt - 2) == |host| && n < nameAt + Min(|host|, DOMAIN_LENGTH)
    requires n < nameAt + |host| && beyond == Misleading(host, nameAt, n)
    ensures HostName(a[..n] + beyond, nameAt - 9) != host[..Min(|host|, DOMAIN_LENGTH)]
  {
    var b, m := a[..n] + beyond, Min(|host|, DOMAIN_LENGTH);
    var name := HostName(b, nameAt - 9);
    if nameAt <= n {
      assert Read16(b, nameAt - 2) == |host|;
      assert name[n - nameAt] == Peek(b, n) == beyond[0];
    } else {
      assert Peek(b, nameAt - 1) == 255;
      assert |name| >= 255;
    }
  }

  /**
   The name of the first server_name extension is found whatever follows the first `n` bytes of the record
   if and only if it ends there: a cut record, which the code takes for complete, can be judged by another
   name exactly when the cut goes through its name.
   */
  lemma NameSurvivesIff(h: Hello, n: nat, k: nat)
    requires Fits(h) && MessageLength(h) <= n <= |EncodeRecord(h)| && FirstNamed(h.extensions, MAX_EXTENSIONS, k)
    ensures (forall beyond: seq<byte> ::
               Sni(EncodeRecord(h)[..n] + beyond, n) == FirstName(h.extensions, MAX_EXTENSIONS))
       <==> NameEnd(h, k) <= n
  {
    SurvivesIffUpTo(h, n, k, MAX_EXTENSIONS);
    forall beyond: seq<byte>
      ensures Sni(EncodeRecord(h)[..n] + beyond, n) == SniUpTo(EncodeRecord(h)[..n] + beyond, n, MAX_EXTENSIONS)
    {
    }
  }

  lemma SurvivesIffUpTo(h: Hello, n: nat, k: nat, limit: nat)
    requires Fits(h) && MessageLength(h) <= n <= |EncodeRecord(h)| && FirstNamed(h.extensions, limit, k)
    ensures (forall beyond: seq<byte> ::
               SniUpTo(EncodeRecord(h)[..n] + beyond, n, limit) == FirstName(h.extensions, limit))
       <==> NameEnd(h, k) <= n
  {
    hide Peek, EncodeRecord, SniUpTo, FirstName, Lies, HostName, ReachUpTo, Read16, Extensions, HeadReach, Offset,
         EncodeExtensions, ExtensionsFit;
    var record := EncodeRecord(h);
    RecordParse(h, n, limit, k);
    if NameEnd(h, k) <= n {
      forall beyond: seq<byte> ensures SniUpTo(record[..n] + beyond, n, limit) == FirstName(h.extensions, limit) {
        SurvivesUpTo(h, n, beyond, limit);
      }
    } else {
      var host, nameAt := h.extensions[k].host, NameAt(h, k);
      var beyond := Misleading(host, nameAt, n);
      PrefixAgrees(record, n, beyond);
      CutParse(h, n, record[..n] + beyond, limit, k);
      CutName(record, n, nameAt, host, beyond);
      assert SniUpTo(record[..n] + beyond, n, limit) != FirstName(h.extensions, limit);
    }
  }

  lemma MessageIs(h: Hello)
    requires Fits(h)
    ensures |EncodeRecord(h)| == MessageLength(h) + 5 < 65536
  {
  }

  /** An input that shows it: without its last byte, the small ClientHello can be taken for another name. */
  lemma OneByteShort()
    ensures Fits(Segments.SmallHello()) && |EncodeRecord(Segments.SmallHello())| == 90
    ensures exists beyond: seq<byte> ::
      Sni(EncodeRecord(Segments.SmallHello())[..89] + beyond, 89)
        != FirstName(Segments.SmallHello().extensions, MAX_EXTENSIONS)
  {
    hide EncodeRecord, Fits, Sni, FirstName;
    var h := Segments.SmallHello();
    Segments.SmallHelloFits();
    MessageIs(h);
    NameSurvivesIff(h, 89, 0);
    assert NameEnd(h, 0) == 90;
  }
}
