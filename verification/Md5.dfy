/** Streaming MD5 (`md5c.c`): `MD5Init`, `MD5Update`, `MD5Final`, `Encode` and `Decode`, over any
    block transformation. */
module Md5 {
  import opened Bytes

  const WORD: nat := 0x1_0000_0000
  const TWO_WORDS: nat := 0x1_0000_0000_0000_0000

  /** The four chaining words. */
  datatype Chain = Chain(a: word, b: word, c: word, d: word)

  const INIT: Chain := Chain(0x67452301, 0xefcdab89, 0x98badcfe, 0x10325476)

  /** `MD5Transform`: the chaining words after one 64-byte block. */
  type Transform = (Chain, seq<byte>) -> Chain

  // ----- Words as bytes -----

  function EncodeWord(w: word): (r: seq<byte>)
    ensures |r| == 4
  {
    [w % 256, w / 0x100 % 256, w / 0x1_0000 % 256, w / 0x100_0000]
  }

  function DecodeWord(b: seq<byte>): (w: word)
    requires |b| == 4
  {
    var b0: nat, b1: nat, b2: nat, b3: nat := b[0], b[1], b[2], b[3];
    b0 + b1 * 0x100 + b2 * 0x1_0000 + b3 * 0x100_0000
  }

  function LittleEndian(ws: seq<word>): (r: seq<byte>)
    ensures |r| == 4 * |ws|
  {
    if ws == [] then [] else EncodeWord(ws[0]) + LittleEndian(ws[1..])
  }

  function Words(b: seq<byte>): (r: seq<word>)
    requires |b| % 4 == 0
    ensures 4 * |r| == |b|
  {
    if b == [] then [] else [DecodeWord(b[..4])] + Words(b[4..])
  }

  lemma WordBytes(w: word)
    ensures DecodeWord(EncodeWord(w)) == w
  {
    var q1 := w / 0x100;
    var q2 := q1 / 0x100;
    assert w / 0x1_0000 == q2 && w / 0x100_0000 == q2 / 0x100;
  }

  lemma BytesWord(b: seq<byte>)
    requires |b| == 4
    ensures EncodeWord(DecodeWord(b)) == b
  {
    var b0: nat, b1: nat, b2: nat, b3: nat := b[0], b[1], b[2], b[3];
    var v := DecodeWord(b);
    var q1, q2 := b1 + 0x100 * b2 + 0x1_0000 * b3, b2 + 0x100 * b3;
    assert v == 0x100 * q1 + b0 && q1 == 0x100 * q2 + b1;
    assert v / 0x100 == q1 && v / 0x1_0000 == q2 && v / 0x100_0000 == b3;
    hide DecodeWord;
  }

  /** `Decode` undoes `Encode`. */
  lemma {:induction false} DecodeEncode(ws: seq<word>)
    ensures Words(LittleEndian(ws)) == ws
  {
    if ws != [] {
      WordBytes(ws[0]);
      DecodeEncode(ws[1..]);
      var b := LittleEndian(ws);
      assert b[..4] == EncodeWord(ws[0]) && b[4..] == LittleEndian(ws[1..]);
    }
  }

  /** `Encode` undoes `Decode` on whole words. */
  lemma {:induction false} EncodeDecode(b: seq<byte>)
    requires |b| % 4 == 0
    ensures LittleEndian(Words(b)) == b
  {
    if b != [] {
      BytesWord(b[..4]);
      EncodeDecode(b[4..]);
    }
  }

  /** `Encode`. */
  method Encode(input: seq<word>) returns (output: seq<byte>)
    ensures output == LittleEndian(input)
  {
    output := [];
    var i := 0;
    while i < |input|
      invariant i <= |input|
      invariant output + LittleEndian(input[i..]) == LittleEndian(input)
    {
      assert output + LittleEndian(input[i..]) == output + EncodeWord(input[i]) + LittleEndian(input[i + 1..]) by {
        assert input[i..][1..] == input[i + 1..];
      }
      output := output + EncodeWord(input[i]);
      i := i + 1;
    }
  }

  /** `Decode`. */
  method Decode(input: seq<byte>) returns (output: seq<word>)
    requires |input| % 4 == 0
    ensures output == Words(input)
  {
    hide DecodeWord, Words;
    output := [];
    var j := 0;
    assert input[j..] == input;
    while j < |input|
      invariant j <= |input| && j % 4 == 0
      invariant output + Words(input[j..]) == Words(input)
    {
      WordsStep(input[j..]);
      WordsShift(input, j);
      Regroup(output, [DecodeWord(input[j..j + 4])], Words(input[j + 4..]));
      output := output + [DecodeWord(input[j..j + 4])];
      j := j + 4;
    }
    NoWords(input[j..]);
  }

  lemma WordsShift(input: seq<byte>, j: nat)
    requires j + 4 <= |input|
    ensures input[j..][4..] == input[j + 4..] && input[j..][..4] == input[j..j + 4]
  {
  }

  lemma NoWords(b: seq<byte>)
    requires b == []
    ensures Words(b) == []
  {
  }

  lemma Regroup<T>(a: seq<T>, b: seq<T>, c: seq<T>)
    ensures a + b + c == a + (b + c)
  {
  }

  lemma WordsStep(b: seq<byte>)
    requires |b| % 4 == 0 && b != []
    ensures Words(b) == [DecodeWord(b[..4])] + Words(b[4..])
  {
  }

  // ----- The digest of a message, from RFC 1321 -----

  /** The chaining words after all whole blocks of `s`. */
  function Fold(f: Transform, h: Chain, s: seq<byte>): Chain
    decreases |s|
  {
    if |s| < 64 then h else Fold(f, f(h, s[..64]), s[64..])
  }

  lemma {:induction false} FoldConcat(f: Transform, h: Chain, a: seq<byte>, b: seq<byte>)
    requires |a| % 64 == 0
    ensures Fold(f, h, a + b) == Fold(f, Fold(f, h, a), b)
    decreases |a|
  {
    if a == [] {
      assert a + b == b;
    } else {
      assert (a + b)[..64] == a[..64] && (a + b)[64..] == a[64..] + b;
      FoldConcat(f, f(h, a[..64]), a[64..], b);
    }
  }

  lemma FoldOne(f: Transform, h: Chain, a: seq<byte>, block: seq<byte>)
    requires |a| % 64 == 0 && |block| == 64
    ensures Fold(f, h, a + block) == f(Fold(f, h, a), block)
  {
    FoldConcat(f, h, a, block);
    assert block[..64] == block;
  }

  lemma FoldTail(f: Transform, h: Chain, a: seq<byte>, tail: seq<byte>)
    requires |a| % 64 == 0 && |tail| < 64
    ensures Fold(f, h, a + tail) == Fold(f, h, a)
  {
    FoldConcat(f, h, a, tail);
  }

  /** The 64-bit little-endian form of the low 64 bits of `n` (section 3.2 of RFC 1321). */
  function Length64(n: nat): (r: seq<byte>)
    ensures |r| == 8
  {
    LittleEndian([n % WORD, n / WORD % WORD])
  }

  /** A one bit and zero bits up to 448 modulo 512 bits, then the length in bits (sections 3.1 and
      3.2 of RFC 1321). */
  function Padded(msg: seq<byte>): (r: seq<byte>)
    ensures |r| % 64 == 0
  {
    assert (|msg| + 1 + (55 - |msg|) % 64 + 8) % 64 == 0;
    msg + (Padding((55 - |msg|) % 64) + Length64(8 * |msg|))
  }

  function Padding(zeros: nat): (r: seq<byte>)
    ensures |r| == zeros + 1
  {
    [0x80] + seq(zeros, i => 0)
  }

  function Digest(f: Transform, msg: seq<byte>): (r: seq<byte>)
    ensures |r| == 16
  {
    var h := Fold(f, INIT, Padded(msg));
    LittleEndian([h.a, h.b, h.c, h.d])
  }

  /** The number that bytes stand for, lowest first. */
  function Value(b: seq<byte>): nat {
    if b == [] then 0 else b[0] + 256 * Value(b[1..])
  }

  lemma ValueOfWord(w: word)
    ensures Value(EncodeWord(w)) == w
  {
    var b := EncodeWord(w);
    WordBytes(w);
    hide EncodeWord;
    assert b[1..][1..] == b[2..] && b[2..][1..] == b[3..] && b[3..][1..] == [];
    var b1: nat, b2: nat, b3: nat := b[1], b[2], b[3];
    assert Value(b[3..]) == b3;
    assert Value(b[2..]) == b2 + 256 * b3;
    assert Value(b[1..]) == b1 + 256 * (b2 + 256 * b3);
  }

  lemma {:induction false} ValueConcat(a: seq<byte>, b: seq<byte>)
    requires |a| == 4
    ensures Value(a + b) == Value(a) + WORD * Value(b)
  {
    assert (a + b)[1..] == a[1..] + b && (a[1..] + b)[1..] == a[2..] + b;
    assert (a[2..] + b)[1..] == a[3..] + b && (a[3..] + b)[1..] == b;
    assert a[1..][1..] == a[2..] && a[2..][1..] == a[3..] && a[3..][1..] == [];
    assert Value(a[3..] + b) == a[3] + 256 * Value(b) && Value(a[3..]) == a[3];
    assert Value(a[2..] + b) == a[2] + 256 * Value(a[3..] + b) && Value(a[2..]) == a[2] + 256 * Value(a[3..]);
    assert Value(a[1..] + b) == a[1] + 256 * Value(a[2..] + b) && Value(a[1..]) == a[1] + 256 * Value(a[2..]);
  }

  /** Each word takes four bytes, in its place, lowest byte first. */
  lemma {:induction false} LittleEndianAt(ws: seq<word>, i: nat)
    requires i < |ws|
    ensures Value(LittleEndian(ws)[4 * i..4 * i + 4]) == ws[i]
    decreases i
  {
    var r := LittleEndian(ws);
    if i == 0 {
      ValueOfWord(ws[0]);
      assert r[0..4] == EncodeWord(ws[0]);
    } else {
      LittleEndianAt(ws[1..], i - 1);
      assert r[4 * i..4 * i + 4] == LittleEndian(ws[1..])[4 * (i - 1)..4 * (i - 1) + 4];
    }
  }

  lemma ValueOfLength(n: nat)
    ensures Value(Length64(n)) == n % TWO_WORDS
  {
    var lo, hi := n % WORD, n / WORD % WORD;
    ValueOfWord(lo);
    ValueOfWord(hi);
    ValueConcat(EncodeWord(lo), EncodeWord(hi));
    hide EncodeWord, Value;
    assert LittleEndian([lo, hi]) == EncodeWord(lo) + (EncodeWord(hi) + LittleEndian([])) by {
      assert [lo, hi][1..] == [hi] && [hi][1..] == [];
    }
    assert EncodeWord(hi) + LittleEndian([]) == EncodeWord(hi);
    LowTwoWords(n);
  }

  lemma LowTwoWords(n: nat)
    ensures n % WORD + WORD * (n / WORD % WORD) == n % TWO_WORDS
  {
    var q := n / WORD;
    var m := q / WORD;
    assert n == WORD * q + n % WORD && q == WORD * m + q % WORD;
    assert n == TWO_WORDS * m + (n % WORD + WORD * (q % WORD));
    DivMod(n, TWO_WORDS, m, n % WORD + WORD * (q % WORD));
  }

  /** The padded message: the message, the byte 0x80, as few zeros as fill the blocks, and the length in bits. */
  lemma PaddedExact(msg: seq<byte>)
    ensures
      var r := Padded(msg);
      && |r| % 64 == 0 && |msg| + 9 <= |r| <= |msg| + 72
      && r[..|msg|] == msg && r[|msg|] == 0x80
      && (forall i :: |msg| < i < |r| - 8 ==> r[i] == 0)
      && Value(r[|r| - 8..]) == 8 * |msg| % TWO_WORDS
  {
    var r := Padded(msg);
    var zeros := (55 - |msg|) % 64;
    ValueOfLength(8 * |msg|);
    hide Value, LittleEndian;
    assert r[|r| - 8..] == Length64(8 * |msg|);
    forall i | |msg| < i < |r| - 8 ensures r[i] == 0 {
      assert r[i] == Padding(zeros)[i - |msg|];
    }
  }

  /** Nothing else has that form. */
  lemma PaddedOnly(msg: seq<byte>, r: seq<byte>)
    requires |r| % 64 == 0 && |msg| + 9 <= |r| <= |msg| + 72
    requires r[..|msg|] == msg && r[|msg|] == 0x80 && forall i :: |msg| < i < |r| - 8 ==> r[i] == 0
    requires Value(r[|r| - 8..]) == 8 * |msg| % TWO_WORDS
    ensures r == Padded(msg)
  {
    var s := Padded(msg);
    PaddedExact(msg);
    assert |r| == |s|;
    ValueOnce(r[|r| - 8..], s[|s| - 8..]);
    hide Padded, Value;
    forall i | 0 <= i < |r| ensures r[i] == s[i] {
      if i < |msg| {
        assert r[..|msg|][i] == s[..|msg|][i];
      } else if i >= |r| - 8 {
        assert r[|r| - 8..][i - (|r| - 8)] == s[|s| - 8..][i - (|r| - 8)];
      }
    }
  }

  lemma {:induction false} ValueOnce(a: seq<byte>, b: seq<byte>)
    requires |a| == |b| && Value(a) == Value(b)
    ensures a == b
  {
    if a != [] {
      assert a[0] == b[0];
      ValueOnce(a[1..], b[1..]);
      assert a == [a[0]] + a[1..] && b == [b[0]] + b[1..];
    }
  }

  /** The digest holds the four words of the last chain in order, and starts from the four words of section 3.3 of
      RFC 1321: a transformation that changes nothing leaves them to be seen. */
  lemma DigestStart(f: Transform, msg: seq<byte>)
    requires forall h, b :: f(h, b) == h
    ensures Digest(f, msg) == [0x01, 0x23, 0x45, 0x67, 0x89, 0xab, 0xcd, 0xef, 0xfe, 0xdc, 0xba, 0x98, 0x76, 0x54, 0x32, 0x10]
  {
    FoldNothing(f, INIT, Padded(msg));
    hide Fold, Padded, EncodeWord;
    FourWords(INIT.a, INIT.b, INIT.c, INIT.d);
    InitBytes();
  }

  lemma InitBytes()
    ensures EncodeWord(INIT.a) == [0x01, 0x23, 0x45, 0x67] && EncodeWord(INIT.b) == [0x89, 0xab, 0xcd, 0xef]
    ensures EncodeWord(INIT.c) == [0xfe, 0xdc, 0xba, 0x98] && EncodeWord(INIT.d) == [0x76, 0x54, 0x32, 0x10]
  {
  }

  lemma FourWords(a: word, b: word, c: word, d: word)
    ensures LittleEndian([a, b, c, d]) == EncodeWord(a) + EncodeWord(b) + EncodeWord(c) + EncodeWord(d)
  {
    hide EncodeWord;
    assert [a, b, c, d][1..] == [b, c, d] && [b, c, d][1..] == [c, d] && [c, d][1..] == [d] && [d][1..] == [];
    assert LittleEndian([d]) == EncodeWord(d);
    assert LittleEndian([c, d]) == EncodeWord(c) + EncodeWord(d);
    assert LittleEndian([b, c, d]) == EncodeWord(b) + (EncodeWord(c) + EncodeWord(d));
  }

  lemma {:induction false} FoldNothing(f: Transform, h: Chain, s: seq<byte>)
    requires forall h, b :: f(h, b) == h
    ensures Fold(f, h, s) == h
    decreases |s|
  {
    if |s| >= 64 {
      FoldNothing(f, f(h, s[..64]), s[64..]);
    }
  }

  // ----- The bit counter -----

  /** The two words hold the bit length of `n` bytes, modulo 2^64. */
  ghost predicate Counts(c0: word, c1: word, n: nat) {
    c1 * WORD + c0 == 8 * n % TWO_WORDS
  }

  /** Adding `8 * n` to the two-word counter, with the carry test of `MD5Update`. */
  function CountAdd(c0: word, c1: word, n: word): (r: (word, word)) {
    var bits := n * 8 % WORD;
    var low := (c0 + bits) % WORD;
    var carry := if low < bits then 1 else 0;
    (low, (c1 + carry + n / 0x2000_0000) % WORD)
  }

  /** One step of the counter loses only multiples of 2^64. */
  lemma CountStep(c0: word, c1: word, n: word) returns (q: nat)
    ensures var r := CountAdd(c0, c1, n); r.1 * WORD + r.0 + q * TWO_WORDS == c1 * WORD + c0 + 8 * n
  {
    var bits, h := n * 8 % WORD, n / 0x2000_0000;
    assert n * 8 == h * WORD + bits;
    var low := (c0 + bits) % WORD;
    var carry := if low < bits then 1 else 0;
    assert c0 + bits == carry * WORD + low;
    var high := c1 + carry + h;
    q := high / WORD;
    assert high == q * WORD + high % WORD;
  }

  lemma CountTotal(v: nat, v': nat, n: nat, total: nat, q: nat)
    requires v == 8 * total % TWO_WORDS && v' < TWO_WORDS
    requires v' + q * TWO_WORDS == v + 8 * n
    ensures v' == 8 * (total + n) % TWO_WORDS
  {
    var m := 8 * total / TWO_WORDS;
    assert 8 * (total + n) == TWO_WORDS * (m + q) + v';
    DivMod(8 * (total + n), TWO_WORDS, m + q, v');
  }

  /** The counter counts bits modulo 2^64. */
  lemma CountAddExact(c0: word, c1: word, n: word, total: nat)
    requires Counts(c0, c1, total)
    ensures var r := CountAdd(c0, c1, n); Counts(r.0, r.1, total + n)
  {
    var q := CountStep(c0, c1, n);
    var r := CountAdd(c0, c1, n);
    hide CountAdd;
    CountTotal(c1 * WORD + c0, r.1 * WORD + r.0, n, total, q);
  }

  /** The low word gives the number of buffered bytes. */
  lemma CountIndex(c0: word, c1: word, total: nat)
    requires Counts(c0, c1, total)
    ensures c0 / 8 % 64 == total % 64
  {
    var m := 8 * total / TWO_WORDS;
    assert total == m * 0x2000_0000_0000_0000 + c1 * 0x2000_0000 + c0 / 8;
    DivMod(total, 64, m * 0x80_0000_0000_0000 + c1 * 0x80_0000 + c0 / 8 / 64, c0 / 8 % 64);
  }

  // ----- The context -----

  /** The first bytes of the buffer are the unfinished block of the message. */
  ghost predicate Buffers(b: seq<byte>, msg: seq<byte>) {
    |b| == 64 && b[..|msg| % 64] == msg[|msg| - |msg| % 64..]
  }

  class Context {
    const f: Transform
    var state: Chain
    var count0: word
    var count1: word
    const buffer: array<byte>
    ghost var msg: seq<byte>

    /** Everything the context says about the bytes it was given. */
    ghost predicate Valid()
      reads this, buffer
    {
      && buffer.Length == 64
      && Counts(count0, count1, |msg|)
      && state == Fold(f, INIT, msg)
      && Buffers(buffer[..], msg)
    }

    /** `MD5Init`. */
    constructor (f: Transform)
      ensures Valid() && msg == [] && fresh(buffer) && this.f == f
    {
      this.f := f;
      count0, count1 := 0, 0;
      state := INIT;
      buffer := new byte[64];
      msg := [];
    }

    /** Copies `input[i..i+n]` to the buffer at `idx`. */
    method Fill(idx: nat, input: seq<byte>, i: nat, n: nat)
      requires idx + n <= buffer.Length && i + n <= |input|
      modifies buffer
      ensures buffer[..idx + n] == old(buffer[..idx]) + input[i..i + n]
    {
      for k := 0 to n
        invariant buffer[..idx + k] == old(buffer[..idx]) + input[i..i + k]
      {
        buffer[idx + k] := input[i + k];
        assert input[i..i + k + 1] == input[i..i + k] + [input[i + k]];
      }
    }

    /** The block loop of `MD5Update`, with its 32-bit index: transforms the whole blocks of `input`
        from `partLen` on. */
    method Blocks(input: seq<byte>, partLen: nat, ghost done: seq<byte>) returns (i: nat)
      requires partLen <= 64 && partLen <= |input| && |input| + 64 - partLen < WORD
      requires |done| % 64 == 0 && state == Fold(f, INIT, done)
      modifies this`state
      ensures partLen <= i <= |input| < i + 64 && (i - partLen) % 64 == 0
      ensures state == Fold(f, INIT, done + input[partLen..i])
    {
      hide Fold;
      i := partLen;
      assert done + input[partLen..i] == done;
      while (i + 63) % WORD < |input|
        invariant partLen <= i <= |input| && (i - partLen) % 64 == 0
        invariant state == Fold(f, INIT, done + input[partLen..i])
        decreases |input| - i
      {
        NoWrap(64 - partLen, |input|, i);
        FoldOne(f, INIT, done + input[partLen..i], input[i..i + 64]);
        JoinSlices(done, input, partLen, i, i + 64);
        state := f(state, input[i..i + 64]);
        i := i + 64;
      }
      NoWrap(64 - partLen, |input|, i);
    }

    /** The transforming half of `MD5Update`: completes the buffered block if it can, and all blocks
        behind it. Position `i` of the input is reached, with `idx'` bytes still buffered. */
    method Absorb(input: seq<byte>, idx: nat) returns (i: nat, idx': nat)
      requires idx == |msg| % 64 && idx + |input| < WORD
      requires state == Fold(f, INIT, msg) && Buffers(buffer[..], msg)
      modifies this`state, buffer
      ensures i <= |input| && idx' <= |msg| && idx' + |input| - i < 64 && (|msg| + i - idx') % 64 == 0
      ensures state == Fold(f, INIT, (msg + input)[..|msg| + i - idx'])
      ensures buffer.Length == 64 && buffer[..idx'] == (msg + input)[|msg| + i - idx'..|msg| + i]
    {
      hide Fold;
      FoldSplit(f, msg);
      var partLen := 64 - idx;
      if |input| < partLen {
        NotComplete(msg, input, idx);
        assert buffer[..][..idx] == buffer[..idx];
        return 0, idx;
      }
      FirstBlock(input, idx);
      i := Blocks(input, partLen, msg + input[..partLen]);
      Joins(msg, input, partLen, i);
      idx' := 0;
    }

    /** Completes the buffered block and transforms it. */
    method FirstBlock(input: seq<byte>, idx: nat)
      requires idx == |msg| % 64 && 64 - idx <= |input|
      requires state == Fold(f, INIT, msg[..|msg| - idx]) && Buffers(buffer[..], msg)
      modifies this`state, buffer
      ensures |msg + input[..64 - idx]| % 64 == 0
      ensures state == Fold(f, INIT, msg + input[..64 - idx]) && buffer.Length == 64
    {
      hide Fold;
      Complete(msg, input, idx, buffer[..]);
      assert buffer[..][..idx] == buffer[..idx];
      hide Buffers;
      Fill(idx, input, 0, 64 - idx);
      assert buffer[..] == buffer[..idx + (64 - idx)];
      FoldOne(f, INIT, msg[..|msg| - idx], buffer[..]);
      state := f(state, buffer[..]);
    }

    /** `MD5Update`. An input whose last block would push the 32-bit index past its range is not
        handled by the original; `GuardExact` says which inputs those are. */
    method Update(input: seq<byte>)
      requires Valid() && |input| < WORD
      requires |msg| % 64 + |input| < WORD
      modifies this, buffer
      ensures Valid() && msg == old(msg) + input
    {
      hide Fold, Counts, Buffers;
      var idx := AddBits(|input|);
      var i;
      i, idx := Absorb(input, idx);
      FoldRest(f, msg, input, i, idx);
      Keep(input, i, idx);
      msg := msg + input;
    }

    /** The last part of `MD5Update`: what does not fill a block is buffered. */
    method Keep(input: seq<byte>, i: nat, idx: nat)
      requires i <= |input| && idx <= |msg| && idx + |input| - i < 64 && (|msg| + i - idx) % 64 == 0
      requires buffer.Length == 64 && buffer[..idx] == (msg + input)[|msg| + i - idx..|msg| + i]
      modifies buffer
      ensures Buffers(buffer[..], msg + input)
    {
      var n := |input| - i;
      Fill(idx, input, i, n);
      assert input[i..i + n] == input[i..];
      Tail(msg, input, i, idx, buffer[..idx + n]);
      assert buffer[..][..idx + n] == buffer[..idx + n];
    }

    /** The counter part of `MD5Update`: returns how many bytes were buffered before. */
    method AddBits(n: word) returns (idx: nat)
      requires Counts(count0, count1, |msg|)
      modifies this`count0, this`count1
      ensures Counts(count0, count1, |msg| + n) && idx == |msg| % 64
    {
      CountIndex(count0, count1, |msg|);
      CountAddExact(count0, count1, n, |msg|);
      idx := count0 / 8 % 64;
      var counts := CountAdd(count0, count1, n);
      count0, count1 := counts.0, counts.1;
    }

    /** `MD5Final`: the digest of everything given so far; the context is wiped. */
    method Final() returns (digest: seq<byte>)
      requires Valid()
      modifies this, buffer
      ensures digest == Digest(f, old(msg))
      ensures state == Chain(0, 0, 0, 0) && count0 == 0 && count1 == 0
      ensures forall k :: 0 <= k < buffer.Length ==> buffer[k] == 0
    {
      hide Fold, Padded;
      Pad();
      digest := Encode([state.a, state.b, state.c, state.d]);
      state, count0, count1 := Chain(0, 0, 0, 0), 0, 0;
      forall k | 0 <= k < buffer.Length { buffer[k] := 0; }
    }

    /** Pads out to 56 modulo 64 and appends the length before padding. */
    method Pad()
      requires Valid()
      modifies this, buffer
      ensures Valid() && msg == Padded(old(msg))
    {
      hide Fold, Counts, Buffers, LittleEndian, Length64, Padding;
      ghost var m := msg;
      CountIndex(count0, count1, |m|);
      CountWords(count0, count1, |m|);
      var bits := Encode([count0, count1]);
      var idx := count0 / 8 % 64;
      var padLen := if idx < 56 then 56 - idx else 120 - idx;
      PadLength(|m|);
      var padding := Padding(padLen - 1);
      Update(padding);
      Update(bits);
      Regroup(m, padding, bits);
    }
  }

  lemma JoinSlices(a: seq<byte>, s: seq<byte>, i: nat, j: nat, k: nat)
    requires i <= j <= k <= |s|
    ensures a + s[i..j] + s[j..k] == a + s[i..k]
  {
    assert s[i..j] + s[j..k] == s[i..k];
    Regroup(a, s[i..j], s[j..k]);
  }

  lemma Joins(msg: seq<byte>, input: seq<byte>, j: nat, i: nat)
    requires j <= i <= |input|
    ensures msg + input[..j] + input[j..i] == (msg + input)[..|msg| + i]
  {
    JoinSlices(msg, input, 0, j, i);
    assert (msg + input)[..|msg| + i] == msg + input[..i];
  }

  /** Too little input to complete the buffered block. */
  lemma NotComplete(msg: seq<byte>, input: seq<byte>, idx: nat)
    requires idx <= |msg|
    ensures (msg + input)[..|msg| - idx] == msg[..|msg| - idx]
    ensures (msg + input)[|msg| - idx..|msg|] == msg[|msg| - idx..]
  {
  }

  /** The buffer, completed, is the next block of the message. */
  lemma Complete(msg: seq<byte>, input: seq<byte>, idx: nat, b: seq<byte>)
    requires Buffers(b, msg) && idx == |msg| % 64 && 64 - idx <= |input|
    ensures msg + input[..64 - idx] == msg[..|msg| - idx] + (b[..idx] + input[..64 - idx])
    ensures |msg + input[..64 - idx]| % 64 == 0 && |msg[..|msg| - idx]| % 64 == 0
  {
    assert msg == msg[..|msg| - idx] + b[..idx];
  }

  lemma PadLength(n: nat)
    ensures var idx := n % 64; (55 - n) % 64 == (if idx < 56 then 56 - idx else 120 - idx) - 1
  {
  }

  /** Only whole blocks have reached the chaining words. */
  lemma FoldSplit(f: Transform, m: seq<byte>)
    ensures Fold(f, INIT, m) == Fold(f, INIT, m[..|m| - |m| % 64])
  {
    hide Fold;
    var k := |m| - |m| % 64;
    assert m == m[..k] + m[k..];
    FoldTail(f, INIT, m[..k], m[k..]);
  }

  /** The input behind position `i` does not complete a block. */
  lemma FoldRest(f: Transform, m: seq<byte>, input: seq<byte>, i: nat, idx: nat)
    requires i <= |input| && idx <= |m| && (|m| + i - idx) % 64 == 0
    requires idx + |input| - i < 64
    ensures |m + input| % 64 == idx + |input| - i
    ensures Fold(f, INIT, m + input) == Fold(f, INIT, (m + input)[..|m| + i - idx])
  {
    hide Fold;
    var all := m + input;
    var k := |m| + i - idx;
    assert |all| == k + (idx + |input| - i);
    assert all == all[..k] + all[k..];
    FoldTail(f, INIT, all[..k], all[k..]);
  }

  /** What is buffered after an update is the unfinished block of the new message. */
  lemma Tail(m: seq<byte>, input: seq<byte>, i: nat, idx: nat, buffered: seq<byte>)
    requires i <= |input| && idx <= |m| && (|m| + i - idx) % 64 == 0 && idx + |input| - i < 64
    requires buffered == (m + input)[|m| + i - idx..|m| + i] + input[i..]
    ensures var all := m + input; |buffered| == |all| % 64 && buffered == all[|all| - |all| % 64..]
  {
    var all := m + input;
    var k := |m| + i - idx;
    assert |all| == k + (idx + |input| - i);
    assert all[k..] == all[k..|m| + i] + input[i..];
  }

  lemma CountWords(c0: word, c1: word, total: nat)
    requires Counts(c0, c1, total)
    ensures LittleEndian([c0, c1]) == Length64(8 * total)
  {
    hide LittleEndian;
    var n := 8 * total;
    var m := n / TWO_WORDS;
    assert n == WORD * (WORD * m + c1) + c0;
    DivMod(n, WORD, WORD * m + c1, c0);
    DivMod(WORD * m + c1, WORD, m, c1);
  }

  /** Inside the limit the 32-bit guard means what it says. */
  lemma NoWrap(idx: nat, n: nat, i: nat)
    requires idx <= 64 && idx + n < WORD
    requires i <= n && (i - (64 - idx)) % 64 == 0
    ensures (i + 63) % WORD < n <==> i + 64 <= n
  {
    var k := (i - (64 - idx)) / 64;
    assert i + idx == 64 * (k + 1);
    assert i + idx <= WORD - 64;
  }

  /** The guard of the block loop, in 32-bit arithmetic. */
  predicate Guard(i: nat, n: nat) {
    (i + 63) % WORD < n
  }

  /** The loop comes to index `i`: it starts there, or every index before lets it go on. */
  ghost predicate Arrives(i: nat, idx: nat, n: nat) {
    && 64 - idx <= i && (i + idx) % 64 == 0
    && forall j: nat :: 64 - idx <= j < i && (j + idx) % 64 == 0 ==> Guard(j, n)
  }

  /** Wherever the loop comes, the guard lets only whole blocks of the input through. */
  ghost predicate GuardSound(idx: nat, n: nat) {
    forall i: nat :: Arrives(i, idx, n) && Guard(i, n) ==> i + 64 <= n
  }

  /** Exactly the inputs that keep the buffered bytes and their own below 2^32 are handled. */
  lemma GuardExact(idx: nat, n: nat)
    requires idx < 64 && 64 - idx <= n < WORD
    ensures GuardSound(idx, n) <==> idx + n < WORD
  {
    if idx + n < WORD {
      forall i: nat | Arrives(i, idx, n) && Guard(i, n)
        ensures i + 64 <= n
      {
        ArrivesWithin(i, idx, n);
        NoWrap(idx, n, i);
      }
    } else {
      GuardOverruns(idx, n);
    }
  }

  /** Inside the limit the loop never leaves the input. */
  lemma ArrivesWithin(i: nat, idx: nat, n: nat)
    requires idx < 64 && 64 - idx <= n && idx + n < WORD && Arrives(i, idx, n)
    ensures i <= n
  {
    if i > 64 - idx {
      var j := i - 64;
      assert (j + idx) % 64 == 0 && j >= 64 - idx by { BlockBefore(i, idx); }
      assert Guard(j, n);
      if j <= n {
        NoWrap(idx, n, j);
      } else {
        var k := n - (n + idx) % 64;
        LastBlock(n, idx);
        assert Guard(k, n);
        NoWrap(idx, n, k);
      }
    }
  }

  lemma BlockBefore(i: nat, idx: nat)
    requires idx < 64 && i > 64 - idx && (i + idx) % 64 == 0
    ensures i - 64 >= 64 - idx && (i - 64 + idx) % 64 == 0
  {
  }

  lemma LastBlock(n: nat, idx: nat)
    requires idx < 64 && 64 - idx <= n
    ensures var k := n - (n + idx) % 64; 64 - idx <= k <= n < k + 64 && (k + idx) % 64 == 0
  {
  }

  /** Beyond it every index up to 2^32 passes, and the one after wraps round and passes too. */
  lemma GuardOverruns(idx: nat, n: nat)
    requires idx < 64 && n < WORD <= idx + n
    ensures Arrives(WORD - idx, idx, n) && Guard(WORD - idx, n) && WORD - idx + 64 > n
  {
    forall j: nat | 64 - idx <= j < WORD - idx && (j + idx) % 64 == 0
      ensures Guard(j, n)
    {
      assert j + 64 <= WORD - idx;
    }
    assert WORD - idx + 63 == WORD + (63 - idx);
  }

  function Joined(chunks: seq<seq<byte>>): seq<byte> {
    if chunks == [] then [] else Joined(chunks[..|chunks| - 1]) + chunks[|chunks| - 1]
  }

  lemma JoinedMore(chunks: seq<seq<byte>>, k: nat)
    requires k < |chunks|
    ensures Joined(chunks[..k + 1]) == Joined(chunks[..k]) + chunks[k]
  {
    assert chunks[..k + 1][..k] == chunks[..k];
  }

  /** Streaming equals one-shot: however a message is cut into updates, the digest is the digest of
      the padded whole. */
  method HashChunks(f: Transform, chunks: seq<seq<byte>>) returns (digest: seq<byte>)
    requires forall k :: 0 <= k < |chunks| ==> |Joined(chunks[..k])| % 64 + |chunks[k]| < WORD && |chunks[k]| < WORD
    ensures digest == Digest(f, Joined(chunks))
  {
    hide Fold, Counts, Buffers, Digest;
    var c := new Context(f);
    assert Joined(chunks[..0]) == [];
    hide Joined;
    for k := 0 to |chunks|
      invariant fresh(c) && fresh(c.buffer) && c.Valid() && c.f == f
      invariant c.msg == Joined(chunks[..k])
    {
      JoinedMore(chunks, k);
      c.Update(chunks[k]);
    }
    assert chunks[..|chunks|] == chunks;
    digest := c.Final();
  }
}
