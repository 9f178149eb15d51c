/**
 The Internet checksum of block.c: one pass that adds 16-bit words into a wide register, then two folds.
 Section 1 of RFC 1071 defines it word by word with end-around carry; the two agree for as long as the
 two folds are enough.
 */
module Checksum {
  import opened Bytes

  // ----- What RFC 1071 asks for

  /** Addition of 16-bit words with end-around carry. */
  function OnesAdd(a: u16, b: u16): u16 {
    if a + b < 65536 then a + b else a + b - 65535
  }

  function OnesSum(ws: seq<u16>): u16 {
    if ws == [] then 0 else OnesAdd(OnesSum(ws[..|ws| - 1]), ws[|ws| - 1])
  }

  // ----- What the code computes

  function Sum(ws: seq<u16>): nat {
    if ws == [] then 0 else Sum(ws[..|ws| - 1]) + ws[|ws| - 1]
  }

  /** Lines 28-30: fold twice, complement, keep the low 16 bits. */
  function Finish(cksum: nat): u16 {
    var once := cksum / 65536 + cksum % 65536;
    var twice := once + once / 65536;
    65535 - twice % 65536
  }

  /** The words of a buffer on a little-endian machine; a last odd byte stands for itself. */
  function Words(s: seq<byte>): (r: seq<u16>)
    ensures |r| == (|s| + 1) / 2
  {
    seq<u16>((|s| + 1) / 2, k requires 0 <= k < (|s| + 1) / 2 =>
        Be16(if 2 * k + 1 < |s| then s[2 * k + 1] else 0, s[2 * k]))
  }

  /** checksum. `unsigned long` has 64 bits and cannot overflow. */
  method Checksum(buffer: seq<byte>, size0: int) returns (r: u16)
    requires size0 <= |buffer| && size0 < 0x8000_0000
    ensures r == Finish(Sum(Words(if size0 < 0 then [] else buffer[..size0])))
    ensures 0 <= size0 <= 2 * MAX_WORDS ==> r == 65535 - OnesSum(Words(buffer[..size0]))
  {
    hide OnesSum, Finish, Sum, Words;
    var cksum: nat, size, at := 0, size0, 0;
    ghost var s := if size0 < 0 then [] else buffer[..size0];
    ghost var ws := Words(s);
    SumPrefix(ws, 0);
    while size > 1
      invariant 0 <= at <= |ws| && (size0 < 0 ==> at == 0 && size == size0)
          && (size0 >= 0 ==> 0 <= size == size0 - 2 * at)
      invariant cksum == Sum(ws[..at]) <= 65535 * at
    {
      WordAt(s, at);
      SumPrefix(ws, at);
      cksum := cksum + Be16(buffer[2 * at + 1], buffer[2 * at]);
      assert cksum < 0x1_0000_0000_0000_0000;
      at, size := at + 1, size - 2;
    }
    if size > 0 {
      WordAt(s, at);
      SumPrefix(ws, at);
      cksum := cksum + Be16(0, buffer[2 * at]);
      at := at + 1;
    }
    assert ws[..at] == ws;
    r := Finish(cksum);
    if |ws| <= MAX_WORDS {
      ChecksumIsInternet(ws);
    }
  }

  lemma WordAt(s: seq<byte>, k: nat)
    requires 2 * k < |s|
    ensures Words(s)[k] == Be16(if 2 * k + 1 < |s| then s[2 * k + 1] else 0, s[2 * k])
  {
  }

  lemma SumPrefix(ws: seq<u16>, k: nat)
    ensures Sum(ws[..0]) == 0
    ensures k < |ws| ==> Sum(ws[..k + 1]) == Sum(ws[..k]) + ws[k]
  {
    if k < |ws| {
      assert ws[..k + 1][..k] == ws[..k];
    }
  }

  // ----- When the two agree

  /** The end-around sum of words that add up to `total`. */
  function Ones(total: nat): u16 {
    if total == 0 then 0 else (total - 1) % 65535 + 1
  }

  lemma OnesUnique(total: nat, o: int, m: int)
    requires total == o + 65535 * m && total > 0 && 1 <= o <= 65535
    ensures Ones(total) == o
  {
    var q := (total - 1) / 65535;
    assert total - 1 == 65535 * q + (total - 1) % 65535;
    assert q == m;
  }

  lemma OnesSplit(total: nat) returns (m: nat)
    ensures total == Ones(total) + 65535 * m
  {
    m := if total == 0 then 0 else (total - 1) / 65535;
  }

  lemma {:induction false} OnesSumIsOnes(ws: seq<u16>)
    ensures OnesSum(ws) == Ones(Sum(ws))
  {
    if ws != [] {
      var total, w := Sum(ws[..|ws| - 1]), ws[|ws| - 1];
      OnesSumIsOnes(ws[..|ws| - 1]);
      var m := OnesSplit(total);
      var a := OnesAdd(Ones(total), w);
      if a > 0 {
        OnesUnique(total + w, a, if Ones(total) + w < 65536 then m else m + 1);
      }
    }
  }

  lemma {:induction false} SumBound(ws: seq<u16>)
    ensures Sum(ws) <= 65535 * |ws|
  {
    if ws != [] {
      SumBound(ws[..|ws| - 1]);
    }
  }

  /** The carry of the second fold does not carry again. */
  predicate FoldsOut(total: nat) {
    var once := total / 65536 + total % 65536;
    once / 65536 + once % 65536 < 65536
  }

  /** Two folds are enough for exactly these totals, of all those that a buffer can have. */
  lemma FoldsOutExact(total: nat)
    requires total < 0x1_0000_0000_0000
    ensures Finish(total) == 65535 - Ones(total) <==> FoldsOut(total)
  {
    var once := total / 65536 + total % 65536;
    var q, r := once / 65536, once % 65536;
    var a := total / 65536 + q;
    assert once + q == 65536 * q + (q + r);
    assert total == q + r + 65535 * a;
    if FoldsOut(total) {
      if q + r > 0 {
        OnesUnique(total, q + r, a);
      }
    } else {
      assert (once + q) % 65536 == q + r - 65536;
      OnesUnique(total, q + r - 65535, a + 1);
    }
  }

  /** The longest buffer, in words, for which two folds are always enough. */
  const MAX_WORDS: nat := 65538

  /**
   For every buffer of at most 65538 words the code computes the complement of the one's-complement sum.
   */
  lemma ChecksumIsInternet(ws: seq<u16>)
    requires |ws| <= MAX_WORDS
    ensures Finish(Sum(ws)) == 65535 - OnesSum(ws)
  {
    SumBound(ws);
    OnesSumIsOnes(ws);
    var total := Sum(ws);
    assert total <= 65536 * 65536 + 65534;
    FoldsOutExact(total);
  }

  function Repeat(n: nat, w: u16): (r: seq<u16>)
    ensures |r| == n
  {
    seq<u16>(n, _ => w)
  }

  lemma {:induction false} SumRepeat(ws: seq<u16>, n: nat, w: u16)
    ensures Sum(ws + Repeat(n, w)) == Sum(ws) + n * w
  {
    if n == 0 {
      assert ws + Repeat(0, w) == ws;
    } else {
      SumRepeat(ws, n - 1, w);
      var all := ws + Repeat(n, w);
      assert all[..|all| - 1] == ws + Repeat(n - 1, w) && all[|all| - 1] == w;
      assert n * w == (n - 1) * w + w;
    }
  }

  /** A buffer of `n` words on which the code is wrong. */
  function Overlong(n: nat): (ws: seq<u16>)
    requires n > MAX_WORDS
    ensures |ws| == n
  {
    [] + Repeat(MAX_WORDS, 65535) + Repeat(1, 1) + Repeat(n - MAX_WORDS - 1, 0)
  }

  lemma SumOverlong(n: nat)
    requires n > MAX_WORDS
    ensures Sum(Overlong(n)) == 65536 * 65536 + 65535
  {
    hide Sum, Repeat;
    var full := [] + Repeat(MAX_WORDS, 65535);
    SumRepeat([], MAX_WORDS, 65535);
    SumRepeat(full, 1, 1);
    SumRepeat(full + Repeat(1, 1), n - MAX_WORDS - 1, 0);
    assert Sum([]) == 0 by {
      SumBound([]);
    }
  }

  lemma OverlongFails(n: nat)
    requires n > MAX_WORDS
    ensures Finish(Sum(Overlong(n))) != 65535 - OnesSum(Overlong(n))
  {
    hide Sum, OnesSum, Overlong, Finish;
    SumOverlong(n);
    OnesSumIsOnes(Overlong(n));
    FoldsOutExact(Sum(Overlong(n)));
  }

  /** The bound is exact: a longer buffer can make the second fold carry again. */
  lemma BoundIsExact(n: nat)
    ensures (forall ws: seq<u16> :: |ws| == n ==> Finish(Sum(ws)) == 65535 - OnesSum(ws)) <==> n <= MAX_WORDS
  {
    hide Sum, OnesSum, Overlong, Finish;
    if n <= MAX_WORDS {
      forall ws: seq<u16> | |ws| == n ensures Finish(Sum(ws)) == 65535 - OnesSum(ws) {
        ChecksumIsInternet(ws);
      }
    } else {
      OverlongFails(n);
    }
  }

  // ----- Storing the checksum

  lemma {:induction false} SumUpdate(ws: seq<u16>, i: nat, w: u16)
    requires i < |ws|
    ensures Sum(ws[i := w]) == Sum(ws) - ws[i] + w
  {
    var init := ws[..|ws| - 1];
    if i == |ws| - 1 {
      assert ws[i := w][..|ws| - 1] == init;
    } else {
      SumUpdate(init, i, w);
      assert ws[i := w][..|ws| - 1] == init[i := w];
    }
  }

  /** Stored in a word that was zero, the checksum makes the recomputed checksum zero. */
  lemma StoredChecksumValidates(ws: seq<u16>, i: nat)
    requires |ws| <= MAX_WORDS && i < |ws| && ws[i] == 0
    ensures Finish(Sum(ws[i := Finish(Sum(ws))])) == 0
  {
    var c := Finish(Sum(ws));
    ChecksumIsInternet(ws);
    OnesSumIsOnes(ws);
    SumUpdate(ws, i, c);
    var m := OnesSplit(Sum(ws));
    OnesUnique(Sum(ws) + c, 65535, m);
    ChecksumIsInternet(ws[i := c]);
    OnesSumIsOnes(ws[i := c]);
  }

  // ----- Byte order

  function Swap(w: u16): u16 {
    w % 256 * 256 + w / 256
  }

  function Swapped(ws: seq<u16>): (r: seq<u16>)
    ensures |r| == |ws|
  {
    seq<u16>(|ws|, i requires 0 <= i < |ws| => Swap(ws[i]))
  }

  lemma {:induction false} SumSwapped(ws: seq<u16>) returns (k: int)
    ensures Sum(Swapped(ws)) == 256 * Sum(ws) - 65535 * k
  {
    k := 0;
    if ws != [] {
      var w: int := ws[|ws| - 1];
      k := SumSwapped(ws[..|ws| - 1]);
      assert Swapped(ws)[..|ws| - 1] == Swapped(ws[..|ws| - 1]);
      assert Swap(w) == 256 * w - 65535 * (w / 256);
      k := k + w / 256;
    }
  }

  /**
   Section 2(B) of RFC 1071: adding the words in the wrong byte order gives the right sum in the wrong
   byte order, so that a checksum computed and stored in host order is right on the wire.
   */
  lemma ByteOrderIndependent(ws: seq<u16>)
    ensures OnesSum(Swapped(ws)) == Swap(OnesSum(ws))
  {
    OnesSumIsOnes(ws);
    OnesSumIsOnes(Swapped(ws));
    var k := SumSwapped(ws);
    var o: int := Ones(Sum(ws));
    var m := OnesSplit(Sum(ws));
    assert Swap(o) == 256 * o - 65535 * (o / 256);
    if Sum(ws) > 0 {
      SwapNonzero(o);
      SwappedPositive(ws);
      OnesUnique(Sum(Swapped(ws)), Swap(o), o / 256 + 256 * m - k);
    } else {
      SwappedZero(ws);
    }
  }

  lemma SwapNonzero(w: u16)
    requires w > 0
    ensures 1 <= Swap(w) <= 65535
  {
    assert w == 256 * (w / 256) + w % 256;
  }

  lemma {:induction false} SwappedPositive(ws: seq<u16>)
    requires Sum(ws) > 0
    ensures Sum(Swapped(ws)) > 0
  {
    if ws != [] {
      var w := ws[|ws| - 1];
      assert Swapped(ws)[..|ws| - 1] == Swapped(ws[..|ws| - 1]);
      if w > 0 {
        SwapNonzero(w);
      } else {
        SwappedPositive(ws[..|ws| - 1]);
      }
    }
  }

  lemma {:induction false} SwappedZero(ws: seq<u16>)
    requires Sum(ws) == 0
    ensures Sum(Swapped(ws)) == 0
  {
    if ws != [] {
      assert Swapped(ws)[..|ws| - 1] == Swapped(ws[..|ws| - 1]);
      SwappedZero(ws[..|ws| - 1]);
    }
  }

  // ----- A header on the wire

  /** A 16-bit store on a little-endian machine. */
  function Store16(s: seq<byte>, at: nat, w: u16): (r: seq<byte>)
    requires at + 2 <= |s|
    ensures |r| == |s|
  {
    s[at := w % 256][at + 1 := w / 256]
  }

  /** The words of a message in network byte order, an odd byte padded with zero. */
  function NetworkWords(s: seq<byte>): (r: seq<u16>)
    ensures |r| == (|s| + 1) / 2
  {
    seq<u16>((|s| + 1) / 2, k requires 0 <= k < (|s| + 1) / 2 =>
        Be16(s[2 * k], if 2 * k + 1 < |s| then s[2 * k + 1] else 0))
  }

  lemma NetworkIsSwapped(s: seq<byte>)
    ensures NetworkWords(s) == Swapped(Words(s))
  {
  }

  lemma WordsStored(s: seq<byte>, i: nat, w: u16)
    requires 2 * i + 2 <= |s|
    ensures Words(Store16(s, 2 * i, w)) == Words(s)[i := w]
  {
    var t := Store16(s, 2 * i, w);
    forall k | 0 <= k < |Words(t)| && k != i ensures Words(t)[k] == Words(s)[k] {
      assert 2 * k != 2 * i && 2 * k + 1 != 2 * i && 2 * k != 2 * i + 1;
    }
    assert Words(t)[i] == w;
  }

  /**
   What the receiver checks: when the result for a message whose checksum field is zero is stored in that
   field, the words of the message in network order add up to 0xffff with end-around carry.
   */
  lemma ValidOnTheWire(s: seq<byte>, i: nat)
    requires |s| <= 2 * MAX_WORDS && 2 * i + 2 <= |s| && s[2 * i] == 0 && s[2 * i + 1] == 0
    ensures OnesSum(NetworkWords(Store16(s, 2 * i, Finish(Sum(Words(s)))))) == 65535
  {
    hide Sum, OnesSum, Finish, Words, NetworkWords, Swapped;
    var c := Finish(Sum(Words(s)));
    var t := Store16(s, 2 * i, c);
    ZeroWord(s, i);
    WordsStored(s, i, c);
    StoredChecksumValidates(Words(s), i);
    ChecksumIsInternet(Words(t));
    NetworkIsSwapped(t);
    ByteOrderIndependent(Words(t));
  }

  lemma ZeroWord(s: seq<byte>, i: nat)
    requires 2 * i + 2 <= |s| && s[2 * i] == 0 && s[2 * i + 1] == 0
    ensures Words(s)[i] == 0
  {
  }

  /** The same for a segment that is checked together with a pseudo-header that is never sent. */
  lemma SegmentValidOnTheWire(pseudo: seq<byte>, segment: seq<byte>, i: nat)
    requires |pseudo| % 2 == 0 && |pseudo + segment| <= 2 * MAX_WORDS
    requires 2 * i + 2 <= |segment| && segment[2 * i] == 0 && segment[2 * i + 1] == 0
    ensures OnesSum(NetworkWords(pseudo + Store16(segment, 2 * i, Finish(Sum(Words(pseudo + segment)))))) == 65535
  {
    hide Sum, OnesSum, Finish, Words, NetworkWords;
    var s, j := pseudo + segment, |pseudo| / 2 + i;
    var c := Finish(Sum(Words(s)));
    ValidOnTheWire(s, j);
    assert Store16(s, 2 * j, c) == pseudo + Store16(segment, 2 * i, c);
  }
}
