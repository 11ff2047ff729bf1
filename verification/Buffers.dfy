/** The copy macros of `lzo_util.h`, on a caller-supplied output buffer. */
module Buffers {
  import opened Bytes
  import opened Lz77

  /** `MEMCPY_DS`: `len` bytes of `src` from `s` on are stored at `out[op..]`. */
  method CopyForward(out: array<byte>, op: nat, src: seq<byte>, s: nat, len: nat)
    requires s + len <= |src| && op + len <= out.Length
    modifies out
    ensures out[..op + len] == old(out[..op]) + src[s..s + len]
    ensures forall k :: op + len <= k < out.Length ==> out[k] == old(out[k])
  {
    var i := 0;
    while i < len
      invariant i <= len
      invariant out[..op + i] == old(out[..op]) + src[s..s + i]
      invariant forall k :: op + i <= k < out.Length ==> out[k] == old(out[k])
    {
      out[op + i] := src[s + i];
      assert out[..op + i + 1] == out[..op + i] + [src[s + i]];
      i := i + 1;
    }
  }

  /** `MEMMOVE_DS`: the byte-forward copy inside the output, which may overlap itself. */
  method CopyOverlap(out: array<byte>, op: nat, off: nat, len: nat)
    requires 0 < off <= op && op + len <= out.Length
    modifies out
    ensures out[..op + len] == CopyMatch(old(out[..op]), off, len)
    ensures forall k :: op + len <= k < out.Length ==> out[k] == old(out[k])
  {
    hide CopyMatch;
    var i := 0;
    while i < len
      invariant i <= len
      invariant CopyMatch(out[..op + i], off, len - i) == CopyMatch(old(out[..op]), off, len)
      invariant forall k :: op + i <= k < out.Length ==> out[k] == old(out[k])
    {
      ghost var done := out[..op + i];
      CopyMatchStep(done, off, len - i);
      out[op + i] := out[op + i - off];
      assert out[..op + i + 1] == done + [done[|done| - off]];
      i := i + 1;
    }
    CopyMatchNone(out[..op + len], off);
  }
}
