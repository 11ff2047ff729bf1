/**
 * The Adler-32 checksum (lib/lzo/lzo_util.c), which puts its modulo off for
 * up to NMAX bytes, against the definition that reduces after every byte
 * (section 8.2 of RFC 1950).
 */
module Adler32 {
  import opened Bytes

  const BASE := 65521
  const NMAX := 5552

  datatype Sums = Sums(s1: nat, s2: nat)

  function Unpack(adler: word): (s: Sums)
    ensures s.s1 < 0x1_0000 && s.s2 < 0x1_0000
  {
    Sums(adler % 0x1_0000, adler / 0x1_0000)
  }

  function Pack(s: Sums): word
    requires s.s1 < 0x1_0000 && s.s2 < 0x1_0000
  {
    s.s2 * 0x1_0000 + s.s1
  }

  /** The plain sums: of the bytes, and of the sums so far. */
  function Raw(s: Sums, text: seq<byte>): Sums {
    if text == [] then s
    else
      var r := Raw(s, text[..|text| - 1]);
      var b: nat := text[|text| - 1];
      Sums(r.s1 + b, r.s2 + (r.s1 + b))
  }

  /** The definition: both sums reduced after every byte. */
  function Reduced(s: Sums, text: seq<byte>): Sums {
    if text == [] then s
    else
      var r := Reduced(s, text[..|text| - 1]);
      var b: nat := text[|text| - 1];
      var s1 := (r.s1 + b) % BASE;
      Sums(s1, (r.s2 + s1) % BASE)
  }

  lemma ModAdd(a: int, b: int)
    ensures (a % BASE + b) % BASE == (a + b) % BASE
  {
  }

  lemma ReduceBoth(r1: nat, r2: nat, b: nat)
    ensures (r1 % BASE + b) % BASE == (r1 + b) % BASE
    ensures (r2 % BASE + (r1 + b) % BASE) % BASE == (r2 + (r1 + b)) % BASE
    ensures (r2 + (r1 + b) % BASE) % BASE == (r2 + (r1 + b)) % BASE
  {
    ModAdd(r1, b);
    ModAdd(r2, (r1 + b) % BASE);
    ModAdd(r1 + b, r2);
  }

  /** Reducing once at the end is reducing after every byte. */
  lemma {:induction false} RawReduced(s: Sums, text: seq<byte>)
    requires text != []
    ensures Reduced(s, text) == Sums(Raw(s, text).s1 % BASE, Raw(s, text).s2 % BASE)
  {
    hide Raw, Reduced;
    var n := |text| - 1;
    var front := text[..n];
    var r := Raw(s, front);
    Last(s, text);
    ReduceBoth(r.s1, r.s2, text[n]);
    if front != [] {
      RawReduced(s, front);
    } else {
      NoBytes(s);
    }
  }

  lemma Last(s: Sums, text: seq<byte>)
    requires text != []
    ensures
      var n := |text| - 1;
      var b: nat, r, t := text[n], Raw(s, text[..n]), Reduced(s, text[..n]);
      && Raw(s, text) == Sums(r.s1 + b, r.s2 + (r.s1 + b))
      && Reduced(s, text) == Sums((t.s1 + b) % BASE, (t.s2 + (t.s1 + b) % BASE) % BASE)
  {
  }

  lemma NoBytes(s: Sums)
    ensures Raw(s, []) == s && Reduced(s, []) == s
  {
  }

  lemma {:induction false} ReducedConcat(s: Sums, x: seq<byte>, y: seq<byte>)
    ensures Reduced(Reduced(s, x), y) == Reduced(s, x + y)
  {
    if y == [] {
      assert x + y == x;
    } else {
      assert (x + y)[..|x + y| - 1] == x + y[..|y| - 1];
      ReducedConcat(s, x, y[..|y| - 1]);
    }
  }

  lemma {:induction false} ReducedSmall(s: Sums, text: seq<byte>)
    requires s.s1 < 0x1_0000 && s.s2 < 0x1_0000
    ensures Reduced(s, text).s1 < 0x1_0000 && Reduced(s, text).s2 < 0x1_0000
  {
  }

  function Checksum(adler: word, text: seq<byte>): word {
    ReducedSmall(Unpack(adler), text);
    Pack(Reduced(Unpack(adler), text))
  }

  /** Checksumming in pieces is checksumming the whole. */
  lemma ChecksumConcat(adler: word, x: seq<byte>, y: seq<byte>)
    ensures Checksum(Checksum(adler, x), y) == Checksum(adler, x + y)
  {
    var s := Unpack(adler);
    ReducedSmall(s, x);
    PackUnpack(Reduced(s, x));
    ReducedConcat(s, x, y);
  }

  lemma PackUnpack(s: Sums)
    requires s.s1 < 0x1_0000 && s.s2 < 0x1_0000
    ensures Unpack(Pack(s)) == s
  {
  }

  /** The largest second sum after `n` bytes of 255 when both sums start at `top`. */
  function Worst(top: nat, n: nat): nat {
    if n == 0 then top else Worst(top, n - 1) + top + 255 * n
  }

  lemma {:induction false} WorstClosed(top: nat, n: nat)
    ensures 2 * Worst(top, n) == 2 * (n + 1) * top + 255 * (n * (n + 1))
  {
    if n > 0 {
      assert Worst(top, n) == Worst(top, n - 1) + top + 255 * n;
      WorstClosed(top, n - 1);
      hide Worst;
      assert (n - 1) * n + 2 * n == n * (n + 1);
      assert 2 * n * top + 2 * top == 2 * (n + 1) * top;
    }
  }

  lemma {:induction false} WorstGrows(top: nat, m: nat, n: nat)
    requires m <= n
    ensures Worst(top, m) <= Worst(top, n)
  {
    if m < n {
      WorstGrows(top, m, n - 1);
    }
  }

  /** NMAX is the largest block that cannot overflow a word, from reduced sums and from any 16-bit sums. */
  lemma NmaxExact(top: nat, n: nat)
    requires top == BASE - 1 || top == 0xFFFF
    ensures Worst(top, n) <= 0xFFFF_FFFF <==> n <= NMAX
  {
    WorstClosed(top, NMAX);
    WorstClosed(top, NMAX + 1);
    if n <= NMAX {
      WorstGrows(top, n, NMAX);
    } else {
      WorstGrows(top, NMAX + 1, n);
    }
  }

  lemma {:induction false} RawBound(s: Sums, text: seq<byte>, top: nat)
    requires s.s1 <= top && s.s2 <= top
    ensures Raw(s, text).s1 <= top + 255 * |text|
    ensures Raw(s, text).s2 <= Worst(top, |text|)
  {
    if text != [] {
      RawBound(s, text[..|text| - 1], top);
    }
  }

  /** Inside a block neither sum leaves a word. */
  lemma BlockFits(s: Sums, text: seq<byte>)
    requires s.s1 < 0x1_0000 && s.s2 < 0x1_0000 && |text| <= NMAX
    ensures Raw(s, text).s1 <= 0xFFFF_FFFF && Raw(s, text).s2 <= 0xFFFF_FFFF
  {
    RawBound(s, text, 0xFFFF);
    NmaxExact(0xFFFF, |text|);
  }

  /** Adds `n` bytes from `at` to the sums of a block that began at `start`. */
  method AddBytes(text: seq<byte>, ghost start: nat, at: nat, n: nat, ghost s: Sums, s1: word, s2: word)
    returns (t1: word, t2: word)
    requires start <= at <= at + n <= |text| && at + n - start <= NMAX
    requires s.s1 < 0x1_0000 && s.s2 < 0x1_0000
    requires Sums(s1, s2) == Raw(s, text[start..at])
    ensures Sums(t1, t2) == Raw(s, text[start..at + n])
  {
    t1, t2 := s1, s2;
    for i := 0 to n
      invariant Sums(t1, t2) == Raw(s, text[start..at + i])
    {
      ghost var block := text[start..at + i + 1];
      assert block[..|block| - 1] == text[start..at + i];
      BlockFits(s, block);
      t1 := t1 + text[at + i];
      t2 := t2 + t1;
    }
  }

  /** One block: sixteen bytes at a time, then the rest. */
  method AddBlock(text: seq<byte>, at: nat, k: nat, s1: word, s2: word) returns (t1: word, t2: word)
    requires at + k <= |text| && k <= NMAX
    requires s1 < 0x1_0000 && s2 < 0x1_0000
    ensures Sums(t1, t2) == Raw(Sums(s1, s2), text[at..at + k])
  {
    t1, t2 := s1, s2;
    var done := 0;
    while k - done >= 16
      invariant done <= k
      invariant Sums(t1, t2) == Raw(Sums(s1, s2), text[at..at + done])
    {
      t1, t2 := AddBytes(text, at, at + done, 16, Sums(s1, s2), t1, t2);
      done := done + 16;
    }
    if k != done {
      t1, t2 := AddBytes(text, at, at + done, k - done, Sums(s1, s2), t1, t2);
    }
  }

  /** A block is reduced when it is complete. */
  lemma NextBlock(s: Sums, text: seq<byte>, at: nat, k: nat)
    requires 0 < k && at + k <= |text|
    ensures var r := Raw(Reduced(s, text[..at]), text[at..at + k]);
            Reduced(s, text[..at + k]) == Sums(r.s1 % BASE, r.s2 % BASE)
  {
    hide Reduced, Raw;
    var block := text[at..at + k];
    RawReduced(Reduced(s, text[..at]), block);
    ReducedConcat(s, text[..at], block);
    assert text[..at] + block == text[..at + k];
  }

  /** The whole checksum; a missing buffer yields the initial value 1. */
  method Adler(adler: word, buf: Buffer) returns (r: word)
    ensures buf.Missing? ==> r == 1
    ensures buf.Bytes? ==> r == Checksum(adler, buf.text)
  {
    var s1: word, s2: word := adler % 0x1_0000, adler / 0x1_0000 % 0x1_0000;
    if buf.Missing? {
      return 1;
    }
    ghost var s := Unpack(adler);
    hide Reduced, Raw;
    var text := buf.text;
    var at := 0;
    while at < |text|
      invariant at <= |text|
      invariant s1 < 0x1_0000 && s2 < 0x1_0000
      invariant Sums(s1, s2) == Reduced(s, text[..at])
    {
      var k := if |text| - at < NMAX then |text| - at else NMAX;
      NextBlock(s, text, at, k);
      s1, s2 := AddBlock(text, at, k, s1, s2);
      s1, s2 := s1 % BASE, s2 % BASE;
      at := at + k;
    }
    assert text[..at] == text;
    r := s2 * 0x1_0000 + s1;
  }

  datatype Buffer = Missing | Bytes(text: seq<byte>)

  /** The first sum in closed form. */
  function Total(text: seq<byte>): nat {
    if text == [] then 0 else Total(text[..|text| - 1]) + text[|text| - 1]
  }

  lemma {:induction false} RawTotal(s: Sums, text: seq<byte>)
    ensures Raw(s, text).s1 == s.s1 + Total(text)
  {
    if text != [] {
      RawTotal(s, text[..|text| - 1]);
    }
  }

  lemma {:induction false} TotalConcat(x: seq<byte>, y: seq<byte>)
    ensures Total(x + y) == Total(x) + Total(y)
  {
    if y == [] {
      assert x + y == x;
    } else {
      assert (x + y)[..|x + y| - 1] == x + y[..|y| - 1];
      TotalConcat(x, y[..|y| - 1]);
    }
  }

  lemma TotalChange(text: seq<byte>, i: nat, b: byte)
    requires i < |text|
    ensures Total(text[i := b]) + text[i] == Total(text) + b
  {
    var other := text[i := b];
    assert text == text[..i] + ([text[i]] + text[i + 1..]);
    assert other == text[..i] + ([b] + text[i + 1..]);
    TotalConcat(text[..i], [text[i]] + text[i + 1..]);
    TotalConcat(text[..i], [b] + text[i + 1..]);
    TotalConcat([text[i]], text[i + 1..]);
    TotalConcat([b], text[i + 1..]);
    assert Total([text[i]]) == text[i] && Total([b]) == b;
  }

  lemma Apart(a: nat, b: nat)
    requires a != b && a < b + BASE && b < a + BASE
    ensures a % BASE != b % BASE
  {
  }

  /** Every byte times the number of bytes from it to the end. */
  function Weighted(text: seq<byte>): nat {
    if text == [] then 0
    else
      var b: nat := text[0];
      |text| * b + Weighted(text[1..])
  }

  lemma {:induction false} WeightedMore(text: seq<byte>, b: byte)
    ensures Weighted(text + [b]) == Weighted(text) + Total(text + [b])
  {
    hide Weighted, Total;
    var all := text + [b];
    WeightedFirst(all);
    if text == [] {
      assert all == [b] && all[1..] == [];
      OfOne(b);
    } else {
      assert all[1..] == text[1..] + [b] && all == [text[0]] + (text[1..] + [b]);
      WeightedFirst(text);
      WeightedMore(text[1..], b);
      TotalConcat([text[0]], text[1..] + [b]);
      OfOne(text[0]);
      OneMore(|text|, text[0]);
    }
  }

  lemma WeightedFirst(text: seq<byte>)
    requires text != []
    ensures var b: nat := text[0]; Weighted(text) == |text| * b + Weighted(text[1..])
  {
  }

  lemma OfOne(b: byte)
    ensures Total([b]) == b && Weighted([]) == 0
  {
    assert [b][..0] == [];
    assert Total([]) == 0;
  }

  /** The second sum in closed form. */
  lemma {:induction false} RawWeighted(s: Sums, text: seq<byte>)
    ensures Raw(s, text).s2 == s.s2 + |text| * s.s1 + Weighted(text)
  {
    if text == [] {
      assert Weighted(text) == 0;
    } else {
      hide Raw, Weighted, Total;
      var n := |text| - 1;
      var front := text[..n];
      RawWeighted(s, front);
      RawTotal(s, text);
      RawSecond(s, text);
      assert text == front + [text[n]];
      WeightedMore(front, text[n]);
      OneMore(n, s.s1);
    }
  }

  lemma RawSecond(s: Sums, text: seq<byte>)
    requires text != []
    ensures Raw(s, text).s2 == Raw(s, text[..|text| - 1]).s2 + Raw(s, text).s1
  {
  }

  lemma OneMore(n: nat, x: nat)
    ensures (n + 1) * x == n * x + x
  {
  }

  /** The checksum in closed form: the low half is the sum of the bytes, the high half weighs each by its distance
      from the end, and both continue the halves of the value passed in. */
  lemma ChecksumClosed(adler: word, text: seq<byte>)
    ensures text == [] ==> Checksum(adler, text) == adler
    ensures text != [] ==>
      var low, high := adler % 65536, adler / 65536;
      && Checksum(adler, text) % 65536 == (low + Total(text)) % 65521
      && Checksum(adler, text) / 65536 == (high + |text| * low + Weighted(text)) % 65521
  {
    var s := Unpack(adler);
    if text != [] {
      RawReduced(s, text);
      RawTotal(s, text);
      RawWeighted(s, text);
      Halves(Reduced(s, text));
    }
    hide Reduced, Raw, Total, Weighted;
  }

  lemma Halves(s: Sums)
    requires s.s1 < 0x1_0000 && s.s2 < 0x1_0000
    ensures Pack(s) % 65536 == s.s1 && Pack(s) / 65536 == s.s2
  {
  }

  /** Changing one byte anywhere always changes the checksum. */
  lemma ByteChangeDetected(adler: word, text: seq<byte>, i: nat, b: byte)
    requires i < |text| && text[i] != b
    ensures Checksum(adler, text[i := b]) != Checksum(adler, text)
  {
    var s, other := Unpack(adler), text[i := b];
    assert Reduced(s, text).s1 != Reduced(s, other).s1 by {
      hide Reduced, Raw, Total, Unpack;
      RawReduced(s, text);
      RawReduced(s, other);
      RawTotal(s, text);
      RawTotal(s, other);
      TotalChange(text, i, b);
      Apart(Raw(s, text).s1, Raw(s, other).s1);
    }
    ReducedSmall(s, text);
    ReducedSmall(s, other);
    PackUnpack(Reduced(s, text));
    PackUnpack(Reduced(s, other));
    hide Reduced, Unpack, Pack;
  }
}
