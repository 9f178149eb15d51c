/** Bytes, 16-bit arithmetic and big-endian fields, as the C code handles them. */
module Bytes {

  type byte = x: int | 0 <= x < 256

  datatype Option<+T> = None | Some(value: T)

  /** Size of the domain field of a log record. */
  const DOMAIN_LENGTH := 256

  type u16 = x: int | 0 <= x < 65536

  /** Conversion to uint16_t of a sum that can carry at most once. */
  function U16(x: nat): u16
    requires x < 131072
  {
    if x < 65536 then x else x - 65536
  }

  function Min(x: nat, y: nat): nat { if x < y then x else y }

  /** from_u8be, and ntohs of two consecutive bytes. */
  function Be16(hi: byte, lo: byte): u16 {
    hi * 256 + lo
  }

  /** htons: the two bytes of a 16-bit value in network order. */
  function EncodeBe16(v: u16): (r: seq<byte>)
    ensures |r| == 2 && Be16(r[0], r[1]) == v
  {
    [v / 256, v % 256]
  }

  /** The bytes from where a `const uint8_t *` points on: the object it points into and whatever follows it. */
  type Memory = seq<byte>

  /** `mem[i]`, with 0 standing for a byte past the end of memory. */
  function Peek(mem: Memory, i: nat): byte {
    if i < |mem| then mem[i] else 0
  }

  /** The bytes `s` lie at `off`. */
  ghost predicate Lies(mem: Memory, off: nat, s: seq<byte>) {
    forall i {:trigger s[i]} :: 0 <= i < |s| ==> Peek(mem, off + i) == s[i]
  }

  lemma LiesSplit(mem: Memory, off: nat, a: seq<byte>, b: seq<byte>)
    requires Lies(mem, off, a + b)
    ensures Lies(mem, off, a) && Lies(mem, off + |a|, b)
  {
    forall i {:trigger a[i]} | 0 <= i < |a| ensures Peek(mem, off + i) == a[i] {
      assert (a + b)[i] == a[i];
    }
    forall i {:trigger b[i]} | 0 <= i < |b| ensures Peek(mem, off + |a| + i) == b[i] {
      assert (a + b)[|a| + i] == b[i];
    }
  }

  /** The 16-bit big-endian field at `off`. */
  function Read16(mem: Memory, off: nat): u16 {
    Be16(Peek(mem, off), Peek(mem, off + 1))
  }

  lemma LiesBe16(mem: Memory, off: nat, v: u16, rest: seq<byte>)
    requires Lies(mem, off, EncodeBe16(v) + rest)
    ensures Read16(mem, off) == v && Lies(mem, off + 2, rest)
  {
    LiesSplit(mem, off, EncodeBe16(v), rest);
    var e := EncodeBe16(v);
    assert Peek(mem, off + 0) == e[0] && Peek(mem, off + 1) == e[1];
  }

  /** `n` bytes from `off` on. */
  function Copy(mem: Memory, off: nat, n: nat): (r: seq<byte>)
    ensures |r| == n
  {
    seq<byte>(n, i requires 0 <= i < n => Peek(mem, off + i))
  }

  function Zeros(n: nat): seq<byte> {
    seq<byte>(n, _ => 0)
  }

  /** The zeroed `domain` field of the log record after a name has been copied to its front. */
  function Domain(name: seq<byte>): (r: seq<byte>)
    requires |name| <= DOMAIN_LENGTH
    ensures |r| == DOMAIN_LENGTH
  {
    name + Zeros(DOMAIN_LENGTH - |name|)
  }

  /** memcpy into a buffer at `at`. */
  method Memcpy(dst: array<byte>, at: nat, src: seq<byte>)
    requires at + |src| <= dst.Length
    modifies dst
    ensures dst[..] == old(dst[..at]) + src + old(dst[at + |src|..])
  {
    for i := 0 to |src|
      invariant dst[..] == old(dst[..at]) + src[..i] + old(dst[at + i..])
    {
      dst[at + i] := src[i];
    }
  }
}
