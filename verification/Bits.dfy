/** The bit operations uthash.h applies to unsigned values, and what they mean as arithmetic. */
module Bits {

  function Pow2(k: nat): (r: nat)
    ensures r > 0
  {
    if k == 0 then 1 else 2 * Pow2(k - 1)
  }

  /** Bitwise `x & y`. */
  function And(x: nat, y: nat): nat {
    if x == 0 || y == 0 then 0 else 2 * And(x / 2, y / 2) + (if x % 2 == 1 && y % 2 == 1 then 1 else 0)
  }

  /** Bitwise `x >> k`. */
  function Shr(x: nat, k: nat): nat {
    if k == 0 then x else Shr(x / 2, k - 1)
  }

  lemma ModStep(x: nat, p: nat)
    requires p > 0
    ensures x % (2 * p) == 2 * ((x / 2) % p) + x % 2
    ensures x / (2 * p) == (x / 2) / p
  {
    var q, r := (x / 2) / p, (x / 2) % p;
    assert x / 2 == p * q + r;
    assert x == (2 * p) * q + (2 * r + x % 2);
    DivModUnique(x, 2 * p, q, 2 * r + x % 2);
  }

  lemma DivModUnique(x: nat, d: nat, q: nat, r: nat)
    requires d > 0 && r < d && x == d * q + r
    ensures x / d == q && x % d == r
  {
    var q', r' := x / d, x % d;
    assert x == d * q' + r';
    assert d * (q' - q) == d * q' - d * q == r - r';
    MulSign(d, q' - q);
  }

  lemma MulSign(d: int, e: int)
    requires d > 0
    ensures (e >= 1 ==> d * e >= d) && (e <= -1 ==> d * e <= -d)
  {
  }

  /** HASH_TO_BKT: masking with `num_buckets - 1` reduces modulo `num_buckets`. */
  lemma {:induction false} MaskIsMod(x: nat, k: nat)
    ensures And(x, Pow2(k) - 1) == x % Pow2(k)
    decreases k
  {
    if k == 0 {
      assert x % 1 == 0;
    } else if x == 0 {
      DivModUnique(0, Pow2(k), 0, 0);
    } else {
      var h := Pow2(k - 1);
      MaskIsMod(x / 2, k - 1);
      ModStep(x, h);
      AndStep(x, h);
    }
  }

  lemma OddHalf(h: nat)
    requires h > 0
    ensures (2 * h - 1) / 2 == h - 1 && (2 * h - 1) % 2 == 1
  {
  }

  lemma {:induction false} ShiftIsDiv(x: nat, k: nat)
    ensures Shr(x, k) == x / Pow2(k)
    decreases k
  {
    if k > 0 {
      ShiftIsDiv(x / 2, k - 1);
      ModStep(x, Pow2(k - 1));
    }
  }

  function CeilDiv(x: nat, d: nat): nat
    requires d > 0
  {
    x / d + (if x % d == 0 then 0 else 1)
  }

  /** `CeilDiv(x, d)` is the least `c` with `c * d >= x`. */
  lemma CeilDivLeast(x: nat, d: nat)
    requires d > 0
    ensures x <= CeilDiv(x, d) * d
    ensures forall c: nat :: x <= c * d ==> CeilDiv(x, d) <= c
  {
    var q, r := x / d, x % d;
    assert x == d * q + r;
    forall c: nat | x <= c * d ensures CeilDiv(x, d) <= c {
      assert d * (q - c) == d * q - c * d <= 0;
      MulSign(d, q - c);
    }
    assert (q + 1) * d == d * q + d;
  }

  /** The shift-and-mask form of CeilDiv(n, 2^k) used at lines 936-938. */
  function CeilShift(n: nat, k: nat, b: nat): nat
    requires b > 0
  {
    Shr(n, k) + (if And(n, b - 1) != 0 then 1 else 0)
  }

  /** ceil(n/b) computed with a shift and a mask, as the comment above HASH_EXPAND_BUCKETS derives. */
  lemma CeilByShift(n: nat, k: nat)
    ensures CeilShift(n, k, Pow2(k)) == CeilDiv(n, Pow2(k))
  {
    MaskIsMod(n, k);
    ShiftIsDiv(n, k);
  }

  lemma AndStep(x: nat, h: nat)
    requires h > 0
    ensures And(x, 2 * h - 1) == 2 * And(x / 2, h - 1) + x % 2
  {
    OddHalf(h);
  }

  /** One more mask bit either keeps the bucket or adds the old bucket count. */
  lemma {:induction false} AndDoubled(x: nat, k: nat)
    ensures And(x, Pow2(k + 1) - 1) == And(x, Pow2(k) - 1) || And(x, Pow2(k + 1) - 1) == And(x, Pow2(k) - 1) + Pow2(k)
    decreases k
  {
    AndStep(x, Pow2(k));
    if k > 0 {
      AndStep(x, Pow2(k - 1));
      AndDoubled(x / 2, k - 1);
    }
  }
}
