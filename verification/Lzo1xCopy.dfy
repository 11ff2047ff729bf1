/** The copy macros of `lzo1x_d3.c`: an LZ77 copy whose source may lie in a preset dictionary, in
    the output, or run from one into the other. */
module Lzo1xCopy {
  import opened Bytes
  import opened Lz77

  /** The LZ77 copy on the virtual buffer `dict + out`. */
  function CopyVirtual(dict: seq<byte>, out: seq<byte>, off: nat, len: nat): (r: seq<byte>)
    requires 0 < off <= |dict| + |out|
    ensures |r| == |out| + len && r[..|out|] == out
    ensures dict + r == CopyMatch(dict + out, off, len)
  {
    var all := CopyMatch(dict + out, off, len);
    assert all[..|dict + out|] == dict + out;
    assert all[..|dict|] == dict;
    all[|dict|..]
  }

  /** `FAST_MEMCPY` of `len` bytes of `src` from `s` on. */
  method FastMemcpy(out: array<byte>, op: nat, src: seq<byte>, s: nat, len: nat)
    requires s + len <= |src| && op + len <= out.Length
    modifies out
    ensures out[..op + len] == old(out[..op]) + src[s..s + len]
  {
    forall i | 0 <= i < len { out[op + i] := src[s + i]; }
    assert out[..op] == old(out[..op]);
    assert out[op..op + len] == src[s..s + len];
    assert out[..op + len] == out[..op] + out[op..op + len];
  }

  /** `SLOW_MEMCPY` from `m` inside the output on, one byte after the other. */
  method SlowMemcpy(out: array<byte>, op: nat, m: nat, len: nat)
    requires m < op && op + len <= out.Length
    modifies out
    ensures out[..op + len] == CopyMatch(old(out[..op]), op - m, len)
  {
    hide CopyMatch;
    var off := op - m;
    var i := 0;
    while i < len
      invariant i <= len
      invariant CopyMatch(out[..op + i], off, len - i) == CopyMatch(old(out[..op]), off, len)
    {
      ghost var done := out[..op + i];
      CopyMatchStep(done, off, len - i);
      out[op + i] := out[m + i];
      assert out[..op + i + 1] == done + [done[|done| - off]];
      i := i + 1;
    }
    CopyMatchNone(out[..op + len], off);
  }

  /** A copy that does not reach its own output is one block move. */
  lemma BlockCopy(buf: seq<byte>, off: nat, len: nat)
    requires 0 < off <= |buf| && len <= off
    ensures CopyMatch(buf, off, len) == buf + buf[|buf| - off..|buf| - off + len]
  {
    var r := buf + buf[|buf| - off..|buf| - off + len];
    CopyRepeats(r, |buf|, off, len);
    assert r[..|buf|] == buf && r[..|buf| + len] == r;
  }

  /** `COPY_DICT`: the copy may lie in the output, lie in the dictionary, or run from the end of
      the dictionary into the output and on into what it has just written. */
  method CopyDict(dict: seq<byte>, out: array<byte>, op: nat, off: nat, len: nat)
    requires 0 < off <= |dict| + op && op + len <= out.Length
    modifies out
    ensures out[..op + len] == CopyVirtual(dict, old(out[..op]), off, len)
  {
    ghost var was := out[..op];
    if off <= op {
      CopyInOutput(dict, was, off, len);
      if off >= len {
        BlockCopy(was, off, len);
        FastMemcpy(out, op, out[..op], op - off, len);
      } else {
        SlowMemcpy(out, op, op - off, len);
      }
    } else {
      CopyDictDict(dict, out, op, off, len);
    }
  }

  /** `COPY_DICT_DICT`. */
  method CopyDictDict(dict: seq<byte>, out: array<byte>, op: nat, off: nat, len: nat)
    requires op < off <= |dict| + op && op + len <= out.Length
    modifies out
    ensures out[..op + len] == CopyVirtual(dict, old(out[..op]), off, len)
  {
    hide CopyMatch, CopyVirtual;
    ghost var was := out[..op];
    var dOff := off - op;
    if len > dOff {
      CopyAcross(dict, was, off, len);
      FastMemcpy(out, op, dict, |dict| - dOff, dOff);
      assert dict[|dict| - dOff..|dict|] == dict[|dict| - dOff..];
      SlowMemcpy(out, op + dOff, 0, len - dOff);
    } else {
      CopyInDict(dict, was, off, len);
      FastMemcpy(out, op, dict, |dict| - dOff, len);
    }
  }

  lemma CopyInOutput(dict: seq<byte>, out: seq<byte>, off: nat, len: nat)
    requires 0 < off <= |out|
    ensures CopyVirtual(dict, out, off, len) == CopyMatch(out, off, len)
  {
    CopyBehind(dict, out, off, len);
    hide CopyMatch;
    var r := CopyMatch(out, off, len);
    assert (dict + r)[|dict|..] == r;
  }

  lemma CopyInDict(dict: seq<byte>, out: seq<byte>, off: nat, len: nat)
    requires |out| < off <= |dict| + |out| && len <= off - |out|
    ensures var m := |dict| - (off - |out|);
            CopyVirtual(dict, out, off, len) == out + dict[m..m + len]
  {
    BlockCopy(dict + out, off, len);
    hide CopyMatch;
    var m := |dict| - (off - |out|);
    var r := out + dict[m..m + len];
    assert (dict + out)[m..m + len] == dict[m..m + len];
    assert dict + out + dict[m..m + len] == dict + r;
    assert (dict + r)[|dict|..] == r;
  }

  lemma CopyAcross(dict: seq<byte>, out: seq<byte>, off: nat, len: nat)
    requires |out| < off <= |dict| + |out| && len > off - |out|
    ensures var dOff := off - |out|;
            var mid := out + dict[|dict| - dOff..];
            CopyVirtual(dict, out, off, len) == CopyMatch(mid, |mid|, len - dOff)
  {
    hide CopyMatch;
    var dOff := off - |out|;
    var mid := out + dict[|dict| - dOff..];
    CopyInDict(dict, out, off, dOff);
    assert dict[|dict| - dOff..|dict|] == dict[|dict| - dOff..];
    assert CopyMatch(dict + out, off, dOff) == dict + mid;
    CopyMatchSplit(dict + out, off, dOff, len - dOff);
    CopyBehind(dict, mid, off, len - dOff);
    var r := CopyMatch(mid, |mid|, len - dOff);
    assert (dict + r)[|dict|..] == r;
  }
}
