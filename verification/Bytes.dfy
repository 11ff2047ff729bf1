/** Bytes, bitwise or, division and powers of two on naturals, and the byte code for large counts. */
module Bytes {

  type byte = x: int | 0 <= x < 256

  /** A 32-bit machine word: storing a number in one is a proof that it fits. */
  type word = x: int | 0 <= x < 0x1_0000_0000

  /** A count beyond the range of a marker, as LZO1X and LZO2A write it: zero bytes worth 255 each, then the rest. */
  function LongCode(n: nat): (r: seq<byte>)
    requires 0 < n
    ensures |r| == 1 + (n - 1) / 255
    ensures r[|r| - 1] > 0 && forall i :: 0 <= i < |r| - 1 ==> r[i] == 0
  {
    if n > 255 then [0] + LongCode(n - 255) else [n]
  }

  /** Bitwise or. */
  function Or(a: nat, b: nat): nat
    decreases a + b
  {
    if a == 0 then b
    else if b == 0 then a
    else 2 * Or(a / 2, b / 2) + (if a % 2 == 1 || b % 2 == 1 then 1 else 0)
  }

  /** Setting clear low bits adds them. */
  lemma OrLowBits(a: nat, t: nat)
    requires a % 4 == 0 && t < 4
    ensures Or(a, t) == a + t
  {
    if a > 0 && t > 0 {
      assert Or(a / 2, t / 2) == a / 2 + t / 2;
    }
  }

  /** Quotient and remainder are determined by their equation. */
  lemma DivMod(v: nat, a: nat, q: nat, r: nat)
    requires 0 < a && r < a && v == a * q + r
    ensures v / a == q && v % a == r
  {
    var d := v / a - q;
    assert a * d == r - v % a by {
      assert a * (v / a) + v % a == v;
      assert a * (v / a - q) == a * (v / a) - a * q;
    }
    assert d == 0;
  }

  /** A number whose low `a * b` part is `x` above `r` splits into its three fields. */
  lemma Fields(v: nat, a: nat, b: nat, r: nat, x: nat)
    requires 0 < a && 0 < b && r < a && x < b
    requires a * b > 0 && v % (a * b) == r + a * x
    ensures v % a == r && v / a % b == x && v / a / b == v / (a * b)
  {
    var c := a * b;
    var q := v / c;
    assert v == c * q + (r + a * x);
    assert v == a * (b * q + x) + r by { Unnest(a, b, q, x, r); }
    DivMod(v, a, b * q + x, r);
    DivMod(v / a, b, q, x);
  }

  lemma Unnest(a: nat, b: nat, q: nat, x: nat, r: nat)
    ensures (a * b) * q + (r + a * x) == a * (b * q + x) + r
  {
    assert (a * b) * q == a * (b * q);
    assert a * (b * q + x) == a * (b * q) + a * x;
  }

  function Pow2(k: nat): (p: nat)
    ensures p >= 1
  {
    if k == 0 then 1 else 2 * Pow2(k - 1)
  }

  lemma {:induction false} Pow2Sum(a: nat, b: nat)
    ensures Pow2(a + b) == Pow2(a) * Pow2(b)
  {
    if a > 0 {
      Pow2Sum(a - 1, b);
      assert Pow2(a + b) == 2 * Pow2(a - 1 + b);
      assert 2 * (Pow2(a - 1) * Pow2(b)) == (2 * Pow2(a - 1)) * Pow2(b);
    }
  }

  lemma Pow2Of8()
    ensures Pow2(8) == 256
  {
    assert Pow2(4) == 16;
  }
}
