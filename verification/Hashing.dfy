/** Dictionary indices of the LZO1 family (`lzo_dict.h`, incremental hash version A). */
module Hashing {
  import opened Bytes

  const D_SIZE: nat := 8192

  /** Three bytes folded into a hash value, five bits apart. */
  function Mix(a: bv32, b: bv32, c: bv32): bv32 {
    (((a << 5) ^ b) << 5) ^ c
  }

  /** The low 13 bits, a slot of the dictionary. */
  function Slot(v: bv32): (i: nat)
    ensures i < D_SIZE
  {
    (v & 0x1fff) as nat
  }

  /** `DVAL_FIRST`: hash value of the three bytes at `p`. */
  function DvalFirst(s: seq<byte>, p: nat): bv32
    requires p + 3 <= |s|
  {
    Mix(s[p] as bv32, s[p + 1] as bv32, s[p + 2] as bv32)
  }

  /** `DINDEX`. */
  function Dindex(dv: bv32): (i: nat)
    ensures i < D_SIZE
  {
    Slot((0x9f5f * dv) >> 5)
  }

  /** `D_INDEX1`. */
  function Dindex1(s: seq<byte>, p: nat): (i: nat)
    requires p + 3 <= |s|
    ensures i < D_SIZE
  {
    Slot((0x21 * Mix(s[p + 2] as bv32, s[p + 1] as bv32, s[p] as bv32)) >> 5)
  }

  /** `D_INDEX2`: exclusive or with the all-ones mask. */
  function Dindex2(i: nat): (j: nat)
    requires i < D_SIZE
    ensures j < D_SIZE && j != i
  {
    D_SIZE - 1 - i
  }
}
