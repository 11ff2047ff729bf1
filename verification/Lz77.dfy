/** The byte-at-a-time LZ77 copy that every decoder of the library performs. */
module Lz77 {
  import opened Bytes

  /** Appends `len` bytes to `buf`, each read `off` bytes behind the end of the growing buffer.
      With `off < len` the copy overlaps itself and repeats its own output. */
  function CopyMatch(buf: seq<byte>, off: nat, len: nat): (r: seq<byte>)
    requires 0 < off <= |buf|
    ensures |r| == |buf| + len
    ensures r[..|buf|] == buf
    decreases len
  {
    if len == 0 then buf else CopyMatch(buf + [buf[|buf| - off]], off, len - 1)
  }

  lemma CopyMatchStep(buf: seq<byte>, off: nat, len: nat)
    requires 0 < off <= |buf| && 0 < len
    ensures CopyMatch(buf, off, len) == CopyMatch(buf + [buf[|buf| - off]], off, len - 1)
  {
  }

  lemma CopyMatchNone(buf: seq<byte>, off: nat)
    requires 0 < off <= |buf|
    ensures CopyMatch(buf, off, 0) == buf
  {
  }

  /** `s[p..p+len]` repeats the bytes that lie `off` before it. */
  ghost predicate Repeats(s: seq<byte>, p: nat, off: nat, len: nat) {
    && 0 < off <= p
    && p + len <= |s|
    && forall j :: p <= j < p + len ==> s[j] == s[j - off]
  }

  /** Copying a true repetition reproduces the original text. */
  lemma {:induction false} CopyRepeats(s: seq<byte>, p: nat, off: nat, len: nat)
    requires Repeats(s, p, off, len)
    ensures CopyMatch(s[..p], off, len) == s[..p + len]
    decreases len
  {
    if len > 0 {
      assert s[..p] + [s[..p][p - off]] == s[..p + 1];
      CopyRepeats(s, p + 1, off, len - 1);
    }
  }

  /** Every byte produced by the copy equals the byte `off` before it. */
  lemma {:induction false} CopyMatchRepeats(buf: seq<byte>, off: nat, len: nat)
    requires 0 < off <= |buf|
    ensures Repeats(CopyMatch(buf, off, len), |buf|, off, len)
    decreases len
  {
    if len > 0 {
      var next := buf + [buf[|buf| - off]];
      var r := CopyMatch(next, off, len - 1);
      CopyMatchRepeats(next, off, len - 1);
      assert r[..|next|][|buf|] == next[|buf|];
      assert r[..|next|][|buf| - off] == next[|buf| - off];
    }
  }

  /** The copy can be cut anywhere. */
  lemma {:induction false} CopyMatchSplit(buf: seq<byte>, off: nat, a: nat, b: nat)
    requires 0 < off <= |buf|
    ensures CopyMatch(CopyMatch(buf, off, a), off, b) == CopyMatch(buf, off, a + b)
    decreases a
  {
    hide CopyMatch;
    if a == 0 {
      CopyMatchNone(buf, off);
    } else {
      var next := buf + [buf[|buf| - off]];
      CopyMatchStep(buf, off, a);
      CopyMatchStep(buf, off, a + b);
      CopyMatchSplit(next, off, a - 1, b);
    }
  }

  /** Bytes in front of the buffer that the copy does not reach do not matter. */
  lemma {:induction false} CopyBehind(front: seq<byte>, buf: seq<byte>, off: nat, len: nat)
    requires 0 < off <= |buf|
    ensures CopyMatch(front + buf, off, len) == front + CopyMatch(buf, off, len)
    decreases len
  {
    if len == 0 {
      CopyMatchNone(buf, off);
      CopyMatchNone(front + buf, off);
    } else {
      CopyMatchStep(buf, off, len);
      CopyMatchStep(front + buf, off, len);
      hide CopyMatch;
      var x := buf[|buf| - off];
      assert (front + buf)[|front + buf| - off] == x;
      assert front + buf + [x] == front + (buf + [x]);
      CopyBehind(front, buf + [x], off, len - 1);
    }
  }
}
