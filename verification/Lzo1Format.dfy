/** What LZO1 and LZO1A share in their default configurations (5 run bits, level 1): the constants
    of the format, run lengths, match instructions and the measuring of a match. */
module Lzo1Format {
  import opened Bytes
  import opened Lz77

  const R0MIN: nat := 32
  const R0FAST: nat := 280
  const MIN_MATCH: nat := 3
  const MIN_MATCH_LONG: nat := 9
  const MAX_MATCH_LONG: nat := 264
  const MAX_OFFSET: nat := 8192
  const DVAL_LEN: nat := 3

  /** Length of the long literal runs with codes 1 to 7: 512, 1024, ..., 32768. */
  function RunSize(bits: nat): (n: nat)
    ensures n >= 256 && (bits > 0 ==> n >= 512) && n % 8 == 0
  {
    if bits == 0 then 256 else 2 * RunSize(bits - 1)
  }

  /** Literal count announced by the byte that follows a zero marker. */
  function R0Length(t: byte): (n: nat)
    ensures n >= R0MIN
  {
    if t < R0FAST - R0MIN then t + R0MIN
    else if t == R0FAST - R0MIN then R0FAST
    else RunSize(t - (R0FAST - R0MIN))
  }

  /** Match offset: low five bits in the marker, high eight in the byte after it. */
  function OffsetOf(marker: nat, high: nat): (off: nat)
    ensures off > 0
  {
    1 + marker % 32 + high * 32
  }

  /** Where the literals of a run start and how many there are. */
  datatype Head = Head(ip: nat, n: nat) | NoHead

  function RunHead(mem: seq<byte>, ip: nat): (h: Head)
    requires ip < |mem| && mem[ip] < R0MIN
    ensures h.Head? ==> ip < h.ip <= |mem| && h.n > 0
  {
    if mem[ip] > 0 then Head(ip + 1, mem[ip])
    else if ip + 1 < |mem| then Head(ip + 2, R0Length(mem[ip + 1]))
    else NoHead
  }

  /** `head` announces a run of `n` literals. */
  predicate IsRunHead(head: seq<byte>, n: nat) {
    || (|head| == 1 && 0 < head[0] < R0MIN && n == head[0])
    || (|head| == 2 && head[0] == 0 && n == R0Length(head[1]))
  }

  /** `instr` is the two- or three-byte instruction for a match. */
  predicate IsMatchCode(instr: seq<byte>, off: nat, len: nat) {
    && 2 <= |instr| <= 3
    && off == OffsetOf(instr[0], instr[1])
    && (|instr| == 2 ==> 32 <= instr[0] < 224 && len == instr[0] / 32 + 2)
    && (|instr| == 3 ==> instr[0] >= 224 && len == MIN_MATCH_LONG + instr[2])
  }

  /** The instruction for a match: the decoder reads its offset and length back. */
  function MatchCode(off: nat, len: nat): (instr: seq<byte>)
    requires 0 < off <= MAX_OFFSET && MIN_MATCH <= len <= MAX_MATCH_LONG
    ensures IsMatchCode(instr, off, len) && |instr| < len
  {
    var o := off - 1;
    if len < MIN_MATCH_LONG then [(len - 2) * 32 + o % 32, o / 32]
    else [224 + o % 32, o / 32, len - MIN_MATCH_LONG]
  }

  // ----- Loops shared by the compressors and decompressors -----

  /** The doubling loop that turns a run code into its length. */
  method ShiftRunSize(t: nat) returns (tt: nat)
    requires 0 < t
    ensures tt == RunSize(t)
  {
    tt := 256;
    var k := t;
    while k > 0
      invariant k <= t && tt == RunSize(t - k)
    {
      tt := 2 * tt;
      k := k - 1;
    }
  }

  /** Reads the marker of a run, and the length byte behind a zero marker. */
  method ReadRunHead(mem: seq<byte>, ip: nat) returns (h: Head)
    requires ip < |mem| && mem[ip] < R0MIN
    ensures h == RunHead(mem, ip)
  {
    var n: nat := mem[ip];
    if n > 0 { return Head(ip + 1, n); }
    if ip + 1 >= |mem| { return NoHead; }
    n := mem[ip + 1];
    if n >= R0FAST - R0MIN {
      n := n - (R0FAST - R0MIN);
      if n == 0 { n := R0FAST; } else { n := ShiftRunSize(n); }
    } else {
      n := n + R0MIN;
    }
    return Head(ip + 2, n);
  }

  predicate ThreeEqual(text: seq<byte>, a: nat, b: nat)
    requires a < b && b + 3 <= |text|
  {
    text[a] == text[b] && text[a + 1] == text[b + 1] && text[a + 2] == text[b + 2]
  }

  /** Measures the match at `ii`: it is as long as the text repeats, up to the format's maximum
      and the look-ahead limit `inEnd`. */
  method MeasureMatch(text: seq<byte>, inEnd: nat, ii: nat, mOff: nat) returns (ip: nat)
    requires ii + MIN_MATCH_LONG <= inEnd <= |text|
    requires Repeats(text, ii, mOff, MIN_MATCH)
    ensures ii + 3 <= ip <= inEnd && ip <= ii + 264
    ensures Repeats(text, ii, mOff, ip - ii)
    ensures ip < inEnd && ip < ii + 264 ==> text[ip] != text[ip - mOff]
  {
    ip := ii + MIN_MATCH;
    while ip < ii + MIN_MATCH_LONG && text[ip - mOff] == text[ip]
      invariant ii + MIN_MATCH <= ip <= ii + MIN_MATCH_LONG
      invariant Repeats(text, ii, mOff, ip - ii)
    {
      ip := ip + 1;
    }
    if ip == ii + MIN_MATCH_LONG {
      var end := if inEnd <= ip + (MAX_MATCH_LONG - MIN_MATCH_LONG) then inEnd else ip + (MAX_MATCH_LONG - MIN_MATCH_LONG);
      while ip < end && text[ip - mOff] == text[ip]
        invariant ii + MIN_MATCH_LONG <= ip <= end
        invariant Repeats(text, ii, mOff, ip - ii)
      {
        ip := ip + 1;
      }
    }
  }
}
