/** The hash keys of the sliding-window match finder (`lzo_swd.ch`). */
module WindowHash {
  import opened Bytes

  const HSIZE: nat := 16384

  /** Bitwise exclusive or. */
  function Xor(x: nat, y: nat): nat
    decreases x + y
  {
    if x == 0 then y
    else if y == 0 then x
    else 2 * Xor(x / 2, y / 2) + (if x % 2 == y % 2 then 0 else 1)
  }

  lemma {:induction false} XorStep(x: nat, y: nat)
    ensures Xor(x, y) / 2 == Xor(x / 2, y / 2)
    ensures Xor(x, y) % 2 == if x % 2 == y % 2 then 0 else 1
  {
  }

  lemma {:induction false} XorInjective(x: nat, c: nat, d: nat)
    requires Xor(x, c) == Xor(x, d)
    ensures c == d
    decreases x + c + d
  {
    if x + c + d > 0 {
      XorStep(x, c);
      XorStep(x, d);
      XorInjective(x / 2, c / 2, d / 2);
    }
  }

  lemma {:induction false} HalfAgain(x: nat, k: nat)
    requires k > 0
    ensures x / 2 / Pow2(k - 1) == x / Pow2(k)
  {
    Fields(x, 2, Pow2(k - 1), x % Pow2(k) % 2, x % Pow2(k) / 2);
  }

  /** A small operand leaves the high bits alone. */
  lemma {:induction false} XorHigh(x: nat, c: nat, k: nat)
    requires c < Pow2(k)
    ensures Xor(x, c) / Pow2(k) == x / Pow2(k)
    decreases k
  {
    if k > 0 {
      XorStep(x, c);
      XorHigh(x / 2, c / 2, k - 1);
      HalfAgain(x, k);
      HalfAgain(Xor(x, c), k);
    }
  }

  /** The first two bytes, five bits apart. */
  function Mixed(a: byte, b: byte): nat {
    Xor(a * 32, b) * 32
  }

  function Scatter(v: nat): (k: nat)
    ensures k < HSIZE
  {
    0x9f5f * v % 0x1_0000_0000 / 32 % HSIZE
  }

  /** `HEAD3`, in 32-bit arithmetic. */
  function Head3(a: byte, b: byte, c: byte): (k: nat)
    ensures k < HSIZE
  {
    Scatter(Xor(Mixed(a, b), c))
  }

  /** `HEAD2`: the two bytes as a little-endian word. */
  function Head2(a: byte, b: byte): (k: nat)
    ensures k < 65536
  {
    a + 256 * b
  }

  /** No multiple of the factor by less than 256 comes within 32 of a multiple of 2^19. */
  lemma {:induction false} NoNear(t: int, e: int)
    requires 1 <= t <= 255
    ensures !(-32 < 0x9f5f * t - 0x80000 * e < 32)
  {
    var f := t - 13 * e;
    var d := 0x9f5f * t - 0x80000 * e;
    assert d == 0x9f5f * f + 6099 * e;
    var k := if e <= 6 then 0 else if e <= 13 then -1 else -2;
    if 1 <= e <= 20 {
      if f >= k {
        assert d >= 0x9f5f * k + 6099 * e >= 1894;
      } else {
        assert d <= 0x9f5f * (k - 1) + 6099 * e <= -417;
      }
    }
  }

  lemma {:induction false} ScatterIs(v: nat) returns (e: int, r: int)
    ensures 0x9f5f * v == 0x80000 * e + 32 * Scatter(v) + r && 0 <= r < 32
  {
    var p := 0x9f5f * v;
    var w := p % 0x1_0000_0000;
    e, r := 8192 * (p / 0x1_0000_0000) + w / 32 / HSIZE, w % 32;
    assert w == 32 * (w / 32) + r;
    assert w / 32 == HSIZE * (w / 32 / HSIZE) + w / 32 % HSIZE;
  }

  /** Values that agree above their last byte are scattered to different keys. */
  lemma {:induction false} ScatterApart(h: nat, u: byte, w: byte)
    requires Scatter(256 * h + u) == Scatter(256 * h + w)
    ensures u == w
  {
    var e0, r0 := ScatterIs(256 * h + u);
    var e1, r1 := ScatterIs(256 * h + w);
    hide Scatter;
    if u > w {
      NoNear(u - w, e0 - e1);
    } else if w > u {
      NoNear(w - u, e1 - e0);
    }
  }

  /**
   * Two positions with the same key that agree in their first two bytes agree
   * in the third, which the search never compares.
   */
  lemma {:induction false} Head3Third(a: byte, b: byte, c: byte, d: byte)
    requires Head3(a, b, c) == Head3(a, b, d)
    ensures c == d
  {
    var x := Mixed(a, b);
    var v, w := Xor(x, c), Xor(x, d);
    assert Pow2(8) == 256 by { Pow2Of8(); }
    XorHigh(x, c, 8);
    XorHigh(x, d, 8);
    assert v == 256 * (x / 256) + v % 256 && w == 256 * (x / 256) + w % 256;
    hide Scatter, Xor, Mixed;
    ScatterApart(x / 256, v % 256, w % 256);
    XorInjective(x, c, d);
  }

  lemma {:induction false} Head2Both(a: byte, b: byte, c: byte, d: byte)
    requires Head2(a, b) == Head2(c, d)
    ensures a == c && b == d
  {
  }
}
