/** The LZO1X and LZO1Y instruction format (`config1x.h`, `config1y.h`): what `code_match`
    writes for a match, and how many bytes that takes. */
module Lzo1xFormat {
  import opened Bytes

  const M1_MAX_OFFSET: nat := 0x0400
  const M3_MAX_OFFSET: nat := 0x4000
  const M4_MAX_OFFSET: nat := 0xbfff
  const M2_MIN_LEN: nat := 3
  const M3_MAX_LEN: nat := 33
  const M4_MAX_LEN: nat := 9
  const M3_MARKER: nat := 32
  const M4_MARKER: nat := 16

  /** The end-of-stream code, `M4_MARKER | 1` followed by a zero offset. */
  const EOF_CODE: seq<byte> := [17, 0, 0]

  datatype Variant = X | Y {
    function M2MaxLen(): nat { if X? then 8 else 14 }
    function M2MaxOffset(): nat { if X? then 0x0800 else 0x0400 }
    function MxMaxOffset(): nat { M1_MAX_OFFSET + M2MaxOffset() }
  }

  /** What precedes a marker: a match without literals or the start (`Top`), a match with one to
      three literals in its low bits (`AfterLits`), or a literal run (`AfterRun`). */
  datatype Mode = Top | AfterLits | AfterRun

  function ModeOf(lit: nat): Mode {
    if lit == 0 then Top else if lit < 4 then AfterLits else AfterRun
  }

  /** A match that has an instruction after `mode`. */
  predicate Codable(mode: Mode, len: nat, off: nat) {
    && 0 < off <= M4_MAX_OFFSET
    && len >= 2
    && (len == 2 ==> off <= M1_MAX_OFFSET && mode == AfterLits)
  }

  /** The instruction for a match, with its two literal-count bits still clear. */
  function MatchInstr(v: Variant, mode: Mode, len: nat, off: nat): (r: seq<byte>)
    requires Codable(mode, len, off)
    ensures |r| >= 2 && r[|r| - 2] % 4 == 0
  {
    if len == 2 then
      M1Instr(off - 1)
    else if len <= v.M2MaxLen() && off <= v.M2MaxOffset() then
      M2Instr(v, len, off - 1)
    else if len == M2_MIN_LEN && off <= v.MxMaxOffset() && mode == AfterRun then
      M1Instr(off - 1 - v.M2MaxOffset())
    else if off <= M3_MAX_OFFSET then
      Lengthened(M3_MARKER, M3_MAX_LEN, len) + OffsetBytes(off - 1)
    else
      var o := off - 0x4000;
      Lengthened(M4_MARKER + o / 0x4000 * 8, M4_MAX_LEN, len) + OffsetBytes(o)
  }

  function M1Instr(o: nat): (r: seq<byte>)
    requires o < 0x400
    ensures |r| == 2 && r[0] % 4 == 0
  {
    [o % 4 * 4, o / 4]
  }

  function M2Instr(v: Variant, len: nat, o: nat): (r: seq<byte>)
    requires 3 <= len <= v.M2MaxLen() && o < v.M2MaxOffset()
    ensures |r| == 2 && r[0] % 4 == 0
  {
    if v.X? then [(len - 1) * 32 + o % 8 * 4, o / 8] else [(len + 1) * 16 + o % 4 * 4, o / 4]
  }

  /** The low fourteen bits of an M3 or M4 offset, above two clear bits. */
  function OffsetBytes(o: nat): (r: seq<byte>)
    ensures |r| == 2 && r[0] % 4 == 0
  {
    [o % 64 * 4, o / 64 % 256]
  }

  /** An M3 or M4 marker carrying the length, or followed by it. */
  function Lengthened(marker: nat, max: nat, len: nat): (r: seq<byte>)
    requires 3 <= len && 3 <= max && marker + max - 2 < 256
    ensures |r| >= 1
  {
    if len <= max then [marker + len - 2] else [marker] + LongCode(len - max)
  }

  /** Closed form of `len_of_coded_match`; -1 for a match that cannot be coded. */
  function CodedLength(v: Variant, len: nat, off: nat, lit: nat): int {
    if len < 2 then -1
    else if len == 2 then (if off <= M1_MAX_OFFSET && 0 < lit < 4 then 2 else -1)
    else if len <= v.M2MaxLen() && off <= v.M2MaxOffset() then 2
    else if len == M2_MIN_LEN && off <= v.MxMaxOffset() && lit >= 4 then 2
    else if off <= M3_MAX_OFFSET then (if len <= M3_MAX_LEN then 3 else 4 + (len - M3_MAX_LEN - 1) / 255)
    else if off <= M4_MAX_OFFSET then (if len <= M4_MAX_LEN then 3 else 4 + (len - M4_MAX_LEN - 1) / 255)
    else -1
  }

  /** `len_of_coded_match` predicts the size of what `code_match` writes in the same literal
      context, is negative exactly for the matches that cannot be coded, and never exceeds the
      length of the match. */
  lemma CodedLengthExact(v: Variant, len: nat, off: nat, lit: nat)
    requires 0 < off
    ensures CodedLength(v, len, off, lit) > 0 <==> Codable(ModeOf(lit), len, off)
    ensures CodedLength(v, len, off, lit) < 0 <==> !Codable(ModeOf(lit), len, off)
    ensures Codable(ModeOf(lit), len, off) ==>
              CodedLength(v, len, off, lit) == |MatchInstr(v, ModeOf(lit), len, off)| <= len
  {
  }

  /** `len_of_coded_match`, with its counting loops. */
  method LenOfCodedMatch(v: Variant, len: nat, off: nat, lit: nat) returns (n: int)
    ensures n == CodedLength(v, len, off, lit)
  {
    n := 4;
    if len < 2 { return -1; }
    if len == 2 { return if off <= M1_MAX_OFFSET && lit > 0 && lit < 4 then 2 else -1; }
    if len <= v.M2MaxLen() && off <= v.M2MaxOffset() { return 2; }
    if len == M2_MIN_LEN && off <= v.MxMaxOffset() && lit >= 4 { return 2; }
    var m := len;
    if off <= M3_MAX_OFFSET {
      if len <= M3_MAX_LEN { return 3; }
      m := m - M3_MAX_LEN;
    } else if off <= M4_MAX_OFFSET {
      if len <= M4_MAX_LEN { return 3; }
      m := m - M4_MAX_LEN;
    } else {
      return -1;
    }
    ghost var total := 4 + (m - 1) / 255;
    while m > 255
      invariant m > 0 && n + (m - 1) / 255 == total
    {
      m := m - 255;
      n := n + 1;
    }
  }
}
