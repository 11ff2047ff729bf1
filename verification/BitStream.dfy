/** The bit and byte interleaving of LZO2A: `putbits` and `putbyte` of `lzo2a_9x.c`, which reserve a
    byte for bits and fill it later, and the reading macros of `config2a.h`. */
module BitStream {
  import opened Bytes

  // ----- Shifts -----

  /** The low `j` bits, and shifts. */
  function Low(v: nat, j: nat): nat { v % Pow2(j) }

  function Shr(v: nat, j: nat): (r: nat) {
    Quotient(v, Pow2(j));
    v / Pow2(j)
  }

  function Shl(v: nat, j: nat): nat { v * Pow2(j) }

  lemma Quotient(v: nat, a: nat)
    requires 0 < a
    ensures v / a >= 0
  {
  }

  lemma LowHigh(v: nat, j: nat)
    ensures Low(v, j) + Shl(Shr(v, j), j) == v && Low(v, j) < Pow2(j)
  {
    assert v == Pow2(j) * (v / Pow2(j)) + v % Pow2(j);
  }

  lemma MulMonotone(x: nat, y: nat, a: nat)
    requires x <= y
    ensures x * a <= y * a
  {
  }

  lemma BelowProduct(r: nat, x: nat, a: nat, b: nat)
    requires r < a && x < b
    ensures r + x * a < a * b
  {
    MulMonotone(x + 1, b, a);
  }

  lemma MulCancel(c: nat, q: nat, e: nat)
    requires c * q < c * e
    ensures q < e
  {
  }

  lemma QuotientBelow(x: nat, c: nat, e: nat)
    requires 0 < c && x < c * e
    ensures x / c < e
  {
    assert c * (x / c) <= x;
    MulCancel(c, x / c, e);
  }

  lemma StraddleProduct(b: nat, x: nat, a: nat, c: nat, e: nat)
    requires b < a && 0 < c && a * c == 256 && x < c * e
    ensures var w := b + x * a;
            w % 256 % a == b && w % 256 / a == x % c && w / 256 == x / c && x / c < e
  {
    var lo, hi := x % c, x / c;
    var w := b + x * a;
    QuotientBelow(x, c, e);
    BelowProduct(b, lo, a, c);
    assert w == 256 * hi + (b + lo * a) by {
      assert x == c * hi + lo;
      assert (c * hi + lo) * a == (a * c) * hi + lo * a;
    }
    DivMod(w, 256, hi, b + lo * a);
    DivMod(b + lo * a, a, lo, b);
  }

  lemma RejoinProduct(x: nat, v: nat, c: nat, e: nat)
    requires 0 < c && 0 < e && x < c * e && v % e == x / c
    ensures var r := x % c + v * c;
            r % (c * e) == x && r / (c * e) == v / e
  {
    var lo, hi, top := x % c, x / c, v / e;
    assert x == c * hi + lo;
    assert v == e * top + hi;
    RejoinSum(c, e, top, hi, lo);
    DivMod(lo + v * c, c * e, top, x);
  }

  lemma RejoinSum(c: nat, e: nat, top: nat, hi: nat, lo: nat)
    ensures lo + (e * top + hi) * c == (c * e) * top + (c * hi + lo)
  {
    assert (e * top + hi) * c == e * top * c + hi * c;
    assert e * top * c == (c * e) * top;
  }

  /** Bits set above the low `k` bits add up. */
  lemma {:induction false} OrAbove(b: nat, x: nat, k: nat)
    requires b < Pow2(k)
    ensures Or(b, x * Pow2(k)) == b + x * Pow2(k)
    decreases k
  {
    if k > 0 && b > 0 && x > 0 {
      var y := x * Pow2(k - 1);
      assert x * Pow2(k) == 2 * y by {
        assert x * (2 * Pow2(k - 1)) == 2 * (x * Pow2(k - 1));
      }
      OrAbove(b / 2, x, k - 1);
    }
  }

  // ----- Reading -----

  /** Reader state: the next input byte, and `k` unread bits in `b`. */
  datatype Reader = Reader(ip: nat, b: nat, k: nat)

  datatype Got = Got(x: nat, next: Reader) | Short

  /** `NEEDBITS`, `MASKBITS` and `DUMPBITS` for `j` bits. */
  function GetBits(mem: seq<byte>, s: Reader, j: nat): (g: Got)
    ensures g.Got? ==> s.ip <= g.next.ip <= s.ip + 1 && g.x < Pow2(j) && (s.k < 8 ==> g.next.k < 8)
    ensures g.Got? && g.next.ip == s.ip ==> g.x + Shl(g.next.b, j) == s.b && g.next.k + j == s.k
    ensures g.Got? && g.next.ip > s.ip ==>
      s.ip < |mem| && g.x + Shl(g.next.b, j) == s.b + Shl(mem[s.ip], s.k) && g.next.k + j == s.k + 8
  {
    if s.k >= j then
      LowHigh(s.b, j);
      Got(Low(s.b, j), Reader(s.ip, Shr(s.b, j), s.k - j))
    else if s.ip < |mem| && s.k + 8 >= j then
      var b := s.b + Shl(mem[s.ip], s.k);
      LowHigh(b, j);
      Got(Low(b, j), Reader(s.ip + 1, Shr(b, j), s.k + 8 - j))
    else Short
  }

  function GetByte(mem: seq<byte>, s: Reader): Got {
    if s.ip < |mem| then Got(mem[s.ip], s.(ip := s.ip + 1)) else Short
  }

  /** One `putbits` or `putbyte`. */
  datatype Op = Bits(j: nat, x: nat) | Byte(x: nat)

  predicate Proper(op: Op) {
    if op.Bits? then 1 <= op.j < 8 && op.x < Pow2(op.j) else op.x < 256
  }

  function Get(mem: seq<byte>, s: Reader, op: Op): Got {
    match op
    case Bits(j, _) => GetBits(mem, s, j)
    case Byte(_) => GetByte(mem, s)
  }

  datatype Option<T> = None | Some(value: T)

  /** Reads back operations of the same shape: the final state, if every value read is the one
      that was put. */
  function Recover(mem: seq<byte>, s: Reader, ops: seq<Op>): Option<Reader>
    decreases |ops|
  {
    if ops == [] then Some(s)
    else
      var g := Get(mem, s, ops[0]);
      if g.Got? && g.x == ops[0].x then Recover(mem, g.next, ops[1..]) else None
  }

  /** The bits that operations put. */
  function OpWeight(op: Op): nat { if op.Bits? then op.j else 8 }

  function Weight(ops: seq<Op>): nat {
    if ops == [] then 0 else OpWeight(ops[0]) + Weight(ops[1..])
  }

  lemma {:induction false} WeightConcat(a: seq<Op>, b: seq<Op>)
    ensures Weight(a + b) == Weight(a) + Weight(b)
  {
    if a == [] {
      assert a + b == b;
    } else {
      assert (a + b)[1..] == a[1..] + b;
      WeightConcat(a[1..], b);
    }
  }

  /** Reading takes exactly the bits that were put. */
  lemma {:induction false} RecoverWeight(mem: seq<byte>, s: Reader, ops: seq<Op>)
    requires Recover(mem, s, ops).Some?
    ensures var e := Recover(mem, s, ops).value; 8 * s.ip + Weight(ops) + e.k == 8 * e.ip + s.k
    decreases |ops|
  {
    if ops != [] {
      var g := Get(mem, s, ops[0]);
      assert 8 * s.ip + OpWeight(ops[0]) + g.next.k == 8 * g.next.ip + s.k;
      hide Get;
      RecoverWeight(mem, g.next, ops[1..]);
    }
  }

  lemma {:induction false} RecoverConcat(mem: seq<byte>, s: Reader, a: seq<Op>, b: seq<Op>)
    requires Recover(mem, s, a).Some?
    ensures Recover(mem, s, a + b) == Recover(mem, Recover(mem, s, a).value, b)
    decreases |a|
  {
    if a == [] {
      assert a + b == b;
    } else {
      assert (a + b)[1..] == a[1..] + b;
      RecoverConcat(mem, Get(mem, s, a[0]).next, a[1..], b);
    }
  }

  lemma {:induction false} RecoverLonger(mem: seq<byte>, more: seq<byte>, s: Reader, ops: seq<Op>)
    requires Recover(mem, s, ops).Some?
    ensures Recover(mem + more, s, ops) == Recover(mem, s, ops)
    decreases |ops|
  {
    if ops != [] {
      assert Get(mem + more, s, ops[0]) == Get(mem, s, ops[0]);
      RecoverLonger(mem, more, Get(mem, s, ops[0]).next, ops[1..]);
    }
  }

  // ----- Writing -----

  const START: Reader := Reader(0, 0, 0)

  /** The output with the reserved byte filled by `v`. */
  function Filled(out: seq<byte>, bitp: nat, k: nat, v: byte): seq<byte>
    requires k > 0 ==> bitp < |out|
  {
    if k == 0 then out else out[bitp := v]
  }

  /** Where the reader stands after everything put so far, when the reserved byte will hold `v`. */
  function Standing(n: nat, k: nat, v: byte): Reader
    requires k < 8
  {
    if k == 0 then Reader(n, 0, 0) else Reader(n, Shr(v, k), 8 - k)
  }

  /** The writer's promise: whatever bits are still added above the low `k` bits of the reserved
      byte, reading returns the operations put so far. */
  ghost predicate Promise(out: seq<byte>, bitp: nat, b: nat, k: nat, ops: seq<Op>) {
    && k < 8 && b < Pow2(k) && (k > 0 ==> bitp < |out|)
    && forall v: byte :: Fits(v, b, k) ==>
         Recover(Filled(out, bitp, k, v), START, ops) == Some(Standing(|out|, k, v))
  }

  predicate Fits(v: byte, b: nat, k: nat) {
    k == 0 || Low(v, k) == b
  }

  /** Adds one operation to what a stream recovers. */
  lemma RecoverOne(mem: seq<byte>, more: seq<byte>, ops: seq<Op>, s: Reader, op: Op, s': Reader)
    requires Recover(mem, START, ops) == Some(s)
    requires Get(mem + more, s, op) == Got(op.x, s')
    ensures Recover(mem + more, START, ops + [op]) == Some(s')
  {
    RecoverLonger(mem, more, START, ops);
    RecoverConcat(mem + more, START, ops, [op]);
  }

  lemma PromiseByte(out: seq<byte>, bitp: nat, b: nat, k: nat, ops: seq<Op>, x: byte)
    requires Promise(out, bitp, b, k, ops)
    ensures Promise(out + [x], bitp, b, k, ops + [Byte(x)])
  {
    forall v: byte | Fits(v, b, k)
      ensures Recover(Filled(out + [x], bitp, k, v), START, ops + [Byte(x)]) == Some(Standing(|out| + 1, k, v))
    {
      var mem := Filled(out, bitp, k, v);
      assert Filled(out + [x], bitp, k, v) == mem + [x];
      RecoverOne(mem, [x], ops, Standing(|out|, k, v), Byte(x), Standing(|out| + 1, k, v));
    }
  }

  /** Bits at the start of a byte: the byte is reserved now. */
  lemma PromiseReserve(out: seq<byte>, bitp: nat, ops: seq<Op>, j: nat, x: nat, any: byte)
    requires Promise(out, bitp, 0, 0, ops)
    requires Proper(Bits(j, x))
    ensures Promise(out + [any], |out|, x, j, ops + [Bits(j, x)])
  {
    forall v: byte | Fits(v, x, j)
      ensures Recover(Filled(out + [any], |out|, j, v), START, ops + [Bits(j, x)]) == Some(Standing(|out| + 1, j, v))
    {
      assert Filled(out + [any], |out|, j, v) == out + [v];
      assert Recover(Filled(out, bitp, 0, v), START, ops) == Some(Standing(|out|, 0, v)) by { assert Fits(v, 0, 0); }
      assert Pow2(0) == 1;
      RecoverOne(out, [v], ops, Reader(|out|, 0, 0), Bits(j, x), Standing(|out| + 1, j, v));
    }
  }

  /** Bits that fit into the reserved byte and leave room. */
  lemma PromiseMore(out: seq<byte>, bitp: nat, b: nat, k: nat, ops: seq<Op>, j: nat, x: nat)
    requires Promise(out, bitp, b, k, ops) && 0 < k && k + j < 8
    requires Proper(Bits(j, x))
    ensures Promise(out, bitp, b + Shl(x, k), k + j, ops + [Bits(j, x)])
  {
    Pow2Sum(k, j);
    Below(b, x, k, j);
    var w, k' := b + Shl(x, k), k + j;
    forall v: byte | Fits(v, w, k')
      ensures Recover(Filled(out, bitp, k', v), START, ops + [Bits(j, x)]) == Some(Standing(|out|, k', v))
    {
      var mem := Filled(out, bitp, k, v);
      Fields(v, Pow2(k), Pow2(j), b, x);
      assert Fits(v, b, k);
      assert mem + [] == mem;
      RecoverOne(mem, [], ops, Standing(|out|, k, v), Bits(j, x), Standing(|out|, k + j, v));
    }
  }

  lemma Below(b: nat, x: nat, k: nat, j: nat)
    requires b < Pow2(k) && x < Pow2(j)
    ensures b + Shl(x, k) < Pow2(k + j)
  {
    hide Pow2;
    Pow2Sum(k, j);
    BelowProduct(b, x, Pow2(k), Pow2(j));
  }

  /** Bits that fill the reserved byte exactly. */
  lemma PromiseFull(out: seq<byte>, bitp: nat, b: nat, k: nat, ops: seq<Op>, j: nat, x: nat)
    requires Promise(out, bitp, b, k, ops) && 0 < k && k + j == 8
    requires Proper(Bits(j, x))
    ensures b + Shl(x, k) < 256
    ensures Promise(out[bitp := b + Shl(x, k)], bitp, 0, 0, ops + [Bits(j, x)])
  {
    Pow2Of8();
    Pow2Sum(k, j);
    Below(b, x, k, j);
    var v: byte := b + Shl(x, k);
    var mem := Filled(out, bitp, k, v);
    Fields(v, Pow2(k), Pow2(j), b, x);
    assert Fits(v, b, k);
    assert mem + [] == mem;
    RecoverOne(mem, [], ops, Standing(|out|, k, v), Bits(j, x), Reader(|out|, 0, 0));
    assert Pow2(0) == 1;
  }

  /** Arithmetic of bits that straddle two bytes: `x` is cut at the byte boundary. */
  lemma Straddle(b: nat, k: nat, j: nat, x: nat)
    requires 0 < k < 8 && j < 8 < k + j && b < Pow2(k) && x < Pow2(j)
    ensures var w := b + Shl(x, k);
            && Low(w % 256, k) == b
            && Shr(w % 256, k) == Low(x, 8 - k)
            && w / 256 == Shr(x, 8 - k)
            && w / 256 < Pow2(k + j - 8)
  {
    hide Pow2;
    Pow2Of8();
    Pow2Sum(k, 8 - k);
    Pow2Sum(8 - k, k + j - 8);
    StraddleProduct(b, x, Pow2(k), Pow2(8 - k), Pow2(k + j - 8));
  }

  /** Arithmetic of reading them back. */
  lemma Rejoin(k: nat, j: nat, x: nat, v: nat)
    requires 0 < k < 8 && j < 8 < k + j && x < Pow2(j)
    requires Low(v, k + j - 8) == Shr(x, 8 - k)
    ensures var r := Low(x, 8 - k) + Shl(v, 8 - k);
            Low(r, j) == x && Shr(r, j) == Shr(v, k + j - 8)
  {
    hide Pow2;
    Pow2Sum(8 - k, k + j - 8);
    RejoinProduct(x, v, Pow2(8 - k), Pow2(k + j - 8));
  }

  /** Bits that overflow into a newly reserved byte. */
  lemma PromiseSpill(out: seq<byte>, bitp: nat, b: nat, k: nat, ops: seq<Op>, j: nat, x: nat, any: byte)
    requires Promise(out, bitp, b, k, ops) && 0 < k && k + j > 8
    requires Proper(Bits(j, x))
    ensures var w := b + Shl(x, k);
            Promise(out[bitp := w % 256] + [any], |out|, w / 256, k + j - 8, ops + [Bits(j, x)])
  {
    var w := b + Shl(x, k);
    var k' := k + j - 8;
    Straddle(b, k, j, x);
    var mem := Filled(out, bitp, k, w % 256);
    assert Fits(w % 256, b, k);
    forall v: byte | Fits(v, w / 256, k')
      ensures Recover(Filled(mem + [any], |out|, k', v), START, ops + [Bits(j, x)]) == Some(Standing(|out| + 1, k', v))
    {
      SpillOne(mem, ops, |out|, b, k, j, x, any, v);
    }
  }

  /** A field that straddles is completed from the next reserved byte. */
  lemma SpillOne(mem: seq<byte>, ops: seq<Op>, n: nat, b: nat, k: nat, j: nat, x: nat, any: byte, v: byte)
    requires 0 < k < 8 && k + j > 8 && Proper(Bits(j, x)) && b < Pow2(k) && n == |mem|
    requires var w := b + Shl(x, k); Recover(mem, START, ops) == Some(Standing(n, k, w % 256)) && Fits(v, w / 256, k + j - 8)
    ensures
      var k' := k + j - 8;
      Recover(Filled(mem + [any], n, k', v), START, ops + [Bits(j, x)]) == Some(Standing(n + 1, k', v))
  {
    hide Recover, Pow2, Shl, Low, Standing, Get;
    var w, k' := b + Shl(x, k), k + j - 8;
    assert Filled(mem + [any], n, k', v) == mem + [v];
    SpillGet(mem + [v], n, b, k, j, x, v);
    RecoverOne(mem, [v], ops, Standing(n, k, w % 256), Bits(j, x), Standing(n + 1, k', v));
  }

  lemma SpillGet(mem: seq<byte>, n: nat, b: nat, k: nat, j: nat, x: nat, v: byte)
    requires 0 < k < 8 && k + j > 8 && Proper(Bits(j, x)) && b < Pow2(k) && n < |mem| && mem[n] == v
    requires Fits(v, (b + Shl(x, k)) / 256, k + j - 8)
    ensures Get(mem, Standing(n, k, (b + Shl(x, k)) % 256), Bits(j, x)) == Got(x, Standing(n + 1, k + j - 8, v))
  {
    hide Pow2, Shl, Shr, Low;
    Straddle(b, k, j, x);
    Rejoin(k, j, x, v);
  }

  /** Output pointer, bit buffer and reserved byte of the LZO2A encoder. */
  class Writer {
    var out: seq<byte>
    var bitp: nat
    var b: nat
    var k: nat
    ghost var ops: seq<Op>

    ghost predicate Valid()
      reads this
    {
      Promise(out, bitp, b, k, ops)
    }

    constructor ()
      ensures Valid() && ops == [] && out == []
    {
      out, bitp, b, k, ops := [], 0, 0, 0, [];
      new;
      assert Pow2(0) == 1;
    }

    /** `putbyte`. */
    method PutByte(x: byte)
      requires Valid()
      modifies this`out, this`ops
      ensures Valid() && ops == old(ops) + [Byte(x)]
      ensures |out| == |old(out)| + 1
    {
      PromiseByte(out, bitp, b, k, ops, x);
      out, ops := out + [x], ops + [Byte(x)];
    }

    /** `putbits`: reserves a byte when none is open, and writes it as soon as it is full. */
    method PutBits(j: nat, x: nat)
      requires Valid() && Proper(Bits(j, x))
      modifies this
      ensures Valid() && ops == old(ops) + [Bits(j, x)]
    {
      hide Promise;
      if k == 0 {
        NoBits();
        PromiseReserve(out, bitp, ops, j, x, 0);
        bitp, out := |out|, out + [0];
        b, k := x, j;
        ops := ops + [Bits(j, x)];
      } else {
        AddBits(j, x);
      }
    }

    /** `putbits` with a byte open. */
    method AddBits(j: nat, x: nat)
      requires Valid() && Proper(Bits(j, x)) && 0 < k
      modifies this
      ensures Valid() && ops == old(ops) + [Bits(j, x)]
    {
      hide Promise, Shl, Or, Proper;
      OrBits(x);
      InOutput();
      var w := Or(b, Shl(x, k));
      if k + j < 8 {
        PromiseMore(out, bitp, b, k, ops, j, x);
        b, k := w, k + j;
      } else if k + j == 8 {
        PromiseFull(out, bitp, b, k, ops, j, x);
        out := out[bitp := w % 256];
        b, k := w / 256, 0;
      } else {
        PromiseSpill(out, bitp, b, k, ops, j, x, 0);
        out := out[bitp := w % 256];
        b, k := w / 256, k + j - 8;
        bitp, out := |out|, out + [0];
      }
      ops := ops + [Bits(j, x)];
    }

    lemma NoBits()
      requires Valid() && k == 0
      ensures b == 0
    {
      assert Pow2(0) == 1;
    }

    lemma InOutput()
      requires Valid() && k > 0
      ensures bitp < |out|
    {
    }

    lemma OrBits(x: nat)
      requires Valid()
      ensures Or(b, Shl(x, k)) == b + Shl(x, k)
    {
      OrAbove(b, x, k);
    }

    /** The final flush: the stream now recovers every operation that was put. */
    method Flush()
      requires Valid()
      modifies this`out, this`b, this`k
      ensures Recover(out, START, ops).Some? && Recover(out, START, ops).value.ip == |out|
      ensures Recover(out, START, ops).value.k < 8
    {
      if k > 0 {
        Pow2Of8();
        BelowByte();
        assert Low(b, k) == b by { DivMod(b, Pow2(k), 0, b); }
        assert Fits(b, b, k);
        out := out[bitp := b];
        b, k := 0, 0;
      } else {
        assert Fits(0, b, 0);
      }
    }

    lemma BelowByte()
      requires Valid()
      ensures b < 256
    {
      Pow2Of8();
      Pow2Sum(k, 8 - k);
      assert Pow2(k) * 1 <= Pow2(k) * Pow2(8 - k);
    }
  }

  /** Puts one operation after the other. */
  method PutOps(w: Writer, ops: seq<Op>)
    requires w.Valid()
    requires forall i :: 0 <= i < |ops| ==> Proper(ops[i])
    modifies w
    ensures w.Valid() && w.ops == old(w.ops) + ops
  {
    for i := 0 to |ops|
      invariant w.Valid() && w.ops == old(w.ops) + ops[..i]
    {
      match ops[i] {
        case Bits(j, x) => w.PutBits(j, x);
        case Byte(x) => w.PutByte(x);
      }
    }
  }

  /** Interleaving round trip: any sequence of operations, written and flushed, is recovered from
      the whole stream, which is as short as its bits allow. */
  method WriteAll(ops: seq<Op>) returns (out: seq<byte>)
    requires forall i :: 0 <= i < |ops| ==> Proper(ops[i])
    ensures Recover(out, START, ops).Some? && Recover(out, START, ops).value.ip == |out|
    ensures |out| == (Weight(ops) + 7) / 8
  {
    var w := new Writer();
    PutOps(w, ops);
    assert w.ops == ops;
    w.Flush();
    out := w.out;
    RecoverWeight(out, START, ops);
  }
}
