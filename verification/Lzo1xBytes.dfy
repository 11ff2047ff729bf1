/** The LZO1X and LZO1Y stream byte by byte: what `lzo1x_decompress_dict_safe` does with each kind of instruction,
    told from the bytes alone. */
module Lzo1xBytes {
  import opened Bytes
  import opened Lz77
  import opened Lzo1xFormat
  import opened Lzo1xCopy
  import opened Lzo1xDecoder

  // ----- What instructions do -----

  /** `n` literals from `ip` on follow `out`, if there is room for them and a byte behind them. */
  ghost predicate Copies(env: Env, s: State, out: seq<byte>, ip: nat, n: nat, mode: Mode) {
    if |out| + n > env.cap then s == Stop(OUTPUT_OVERRUN, out)
    else if ip <= env.inLen <= ip + n then s == Stop(INPUT_OVERRUN, out)
    else if ip + n > |env.mem| then s == Stop(ACCESS_FAULT, out)
    else s == Go(ip + n, mode, out + env.mem[ip..ip + n])
  }

  /** The byte `off` before position `i` of the output, in the output or in the dictionary before it. */
  function Back(dict: seq<byte>, out: seq<byte>, i: nat, off: nat): byte
    requires i < |out| && 0 < off <= |dict| + i
  {
    if off <= i then out[i - off] else dict[|dict| + i - off]
  }

  /** `len` bytes follow `out`, each equal to the one `off` before it, and then `lit` literals from `end` on. Room is
      looked for first, then the match. */
  ghost predicate Repeated(env: Env, s: State, out: seq<byte>, off: nat, len: nat, end: nat, lit: nat)
    requires 0 < off
  {
    if |out| + len > env.cap then s == Stop(OUTPUT_OVERRUN, out)
    else if off > |env.dict| + |out| then s == Stop(LOOKBEHIND_OVERRUN, out)
    else
      && |out| + len <= |s.out| && s.out[..|out|] == out
      && (forall i :: |out| <= i < |out| + len ==> s.out[i] == Back(env.dict, s.out, i, off))
      && (if lit == 0 then s == Go(end, Top, s.out[..|out| + len])
          else Copies(env, s, s.out[..|out| + len], end, lit, AfterLits))
  }

  lemma VirtualBack(dict: seq<byte>, out: seq<byte>, off: nat, len: nat, i: nat)
    requires 0 < off <= |dict| + |out| && |out| <= i < |out| + len
    ensures var r := CopyVirtual(dict, out, off, len); r[i] == Back(dict, r, i, off)
  {
    var r := CopyVirtual(dict, out, off, len);
    var all := CopyMatch(dict + out, off, len);
    CopyMatchRepeats(dict + out, off, len);
    hide CopyMatch, CopyVirtual;
    assert (dict + r)[|dict| + i] == all[|dict| + i] == all[|dict| + i - off];
  }

  lemma LiteralsCopy(env: Env, ip: nat, n: nat, mode: Mode, out: seq<byte>)
    ensures Copies(env, env.Literals(ip, n, mode, out), out, ip, n, mode)
  {
  }

  lemma LiteralsAfter(env: Env, ip: nat, n: nat, mode: Mode, out: seq<byte>)
    ensures out <= env.Literals(ip, n, mode, out).out
  {
  }

  lemma CopyRepeated(env: Env, p: Parsed, out: seq<byte>)
    requires p.Match? && 2 <= p.ip <= |env.mem| && p.off > 0
    ensures Repeated(env, env.Copy(p, out), out, p.off, p.len, p.ip, env.mem[p.ip - 2] % 4)
  {
    var s, lit := env.Copy(p, out), env.mem[p.ip - 2] % 4;
    if |out| + p.len <= env.cap && p.off <= |env.dict| + |out| {
      var r := CopyVirtual(env.dict, out, p.off, p.len);
      LiteralsCopy(env, p.ip, lit, AfterLits, r);
      LiteralsAfter(env, p.ip, lit, AfterLits, r);
      assert r <= s.out && s.out[..|r|] == r && r[..|out|] == out;
      forall i | |out| <= i < |out| + p.len
        ensures s.out[i] == Back(env.dict, s.out, i, p.off)
      {
        VirtualBack(env.dict, out, p.off, p.len, i);
      }
      hide CopyVirtual, Env.Literals, Copies;
      assert s.out[..|out|] == r[..|out|];
    }
  }

  // ----- How they are written -----

  /** Which matches have an instruction. */
  lemma HaveInstruction(mode: Mode, len: nat, off: nat)
    ensures Codable(mode, len, off) <==> 1 <= off <= 49151 && (len >= 3 || (len == 2 && off <= 1024 && mode == AfterLits))
  {
  }

  /** Which of the short forms below it has; the literal count is added later. */
  lemma ShortForms(v: Variant, mode: Mode, len: nat, off: nat)
    requires Codable(mode, len, off)
    ensures
      var r, near := MatchInstr(v, mode, len, off), if v.X? then 2048 else 1024;
      if len == 2 then r == [(off - 1) % 4 * 4, (off - 1) / 4]
      else if len <= (if v.X? then 8 else 14) && off <= near then
        r == if v.X? then [(len - 1) * 32 + (off - 1) % 8 * 4, (off - 1) / 8] else [(len + 1) * 16 + (off - 1) % 4 * 4, (off - 1) / 4]
      else if len == 3 && off <= near + 1024 && mode == AfterRun then r == [(off - 1 - near) % 4 * 4, (off - 1 - near) / 4]
      else |r| >= 3
  {
    hide Lengthened, OffsetBytes;
  }

  /** The others carry their length in the marker, or count what is over behind it, and end with the offset. */
  lemma LongForms(v: Variant, mode: Mode, len: nat, off: nat)
    requires Codable(mode, len, off) && |MatchInstr(v, mode, len, off)| >= 3
    ensures
      var r := MatchInstr(v, mode, len, off);
      if off <= 16384 then
        && r[|r| - 2..] == [(off - 1) % 64 * 4, (off - 1) / 64]
        && r[..|r| - 2] == if len <= 33 then [32 + len - 2] else [32] + LongCode(len - 33)
      else
        && r[|r| - 2..] == [(off - 16384) % 64 * 4, (off - 16384) / 64 % 256]
        && r[..|r| - 2] == if len <= 9 then [16 + (off - 16384) / 16384 * 8 + len - 2]
                           else [16 + (off - 16384) / 16384 * 8] + LongCode(len - 9)
  {
    hide LongCode, M1Instr, M2Instr;
  }

  /** The decoder takes the byte at `ip` for a marker. */
  predicate AtMarker(env: Env, ip: nat, mode: Mode) {
    ip < env.inLen <= |env.mem| && (mode == AfterLits ==> ip + 1 < env.inLen)
  }

  /** `z` zero bytes from `ip` on and `c` behind them. */
  predicate Zeros(env: Env, ip: nat, z: nat, c: nat) {
    && ip + z < env.inLen <= |env.mem| && 0 < c
    && (forall i :: ip <= i < ip + z ==> env.mem[i] == 0)
    && env.mem[ip + z] == c
  }

  lemma {:induction false} ZerosRead(env: Env, ip: nat, z: nat, c: nat, acc: nat)
    requires Zeros(env, ip, z, c)
    ensures env.ReadCount(ip, acc) == Count(ip + z + 1, acc + 255 * z + c)
    decreases z
  {
    if z > 0 {
      assert env.mem[ip] == 0;
      ZerosRead(env, ip + 1, z - 1, c, acc + 255);
    }
  }

  /** A match length in a marker field of its own, with operands at `at`; beyond `max` the field is zero and a count
      of what is over follows. */
  predicate Measured(env: Env, ip: nat, field: nat, max: nat, len: nat, at: nat) {
    if len <= max then field == len - 2 && at == ip
    else
      var over := len - max - 1;
      field == 0 && at == ip + over / 255 + 1 && Zeros(env, ip, over / 255, over % 255 + 1)
  }

  lemma MeasuredRead(env: Env, ip: nat, field: nat, max: nat, len: nat, at: nat)
    requires 3 <= len && 3 <= max && ip <= |env.mem| && Measured(env, ip, field, max, len, at)
    ensures env.ReadLength(ip, field, max - 2) == Count(at, len - 2)
  {
    if len > max {
      var over := len - max - 1;
      ZerosRead(env, ip, over / 255, over % 255 + 1, max - 2);
      assert over == 255 * (over / 255) + over % 255;
    }
  }

  /** An instruction read as a match is carried out as one. */
  lemma StepRepeats(env: Env, ip: nat, mode: Mode, out: seq<byte>, off: nat, len: nat, end: nat)
    requires AtMarker(env, ip, mode) && (mode == Top ==> env.mem[ip] >= 16)
    requires env.Parse(env.mem[ip], ip + 1, mode) == Match(end, off, len)
    ensures 2 <= end <= |env.mem| && 0 < off
    ensures Repeated(env, env.Step(ip, mode, out), out, off, len, end, env.mem[end - 2] % 4)
  {
    hide Env.Parse, Env.Copy, Repeated;
    CopyRepeated(env, Match(end, off, len), out);
  }

  /** M2: short matches near by, in two bytes. */
  lemma DecodesM2(env: Env, ip: nat, mode: Mode, out: seq<byte>, off: nat, len: nat, lit: nat)
    requires AtMarker(env, ip, mode) && ip + 2 <= |env.mem| && lit < 4 && 3 <= len && 1 <= off
    requires env.v.X? ==>
      len <= 8 && off <= 2048 && env.mem[ip] == (len - 1) * 32 + (off - 1) % 8 * 4 + lit && env.mem[ip + 1] == (off - 1) / 8
    requires env.v.Y? ==>
      len <= 14 && off <= 1024 && env.mem[ip] == (len + 1) * 16 + (off - 1) % 4 * 4 + lit && env.mem[ip + 1] == (off - 1) / 4
    ensures Repeated(env, env.Step(ip, mode, out), out, off, len, ip + 2, lit)
  {
    hide Env.Step, Repeated;
    if env.v.X? {
      M2FieldsX(env.mem[ip], env.mem[ip + 1], off, len, lit);
    } else {
      M2FieldsY(env.mem[ip], env.mem[ip + 1], off, len, lit);
    }
    StepRepeats(env, ip, mode, out, off, len, ip + 2);
  }

  lemma M2FieldsX(a: byte, b: byte, off: nat, len: nat, lit: nat)
    requires lit < 4 && 3 <= len <= 8 && 1 <= off <= 2048
    requires a == (len - 1) * 32 + (off - 1) % 8 * 4 + lit && b == (off - 1) / 8
    ensures a >= 64 && a % 4 == lit && 1 + a / 4 % 8 + b * 8 == off && a / 32 + 1 == len
  {
    assert a / 4 == (len - 1) * 8 + (off - 1) % 8;
  }

  lemma M2FieldsY(a: byte, b: byte, off: nat, len: nat, lit: nat)
    requires lit < 4 && 3 <= len <= 14 && 1 <= off <= 1024
    requires a == (len + 1) * 16 + (off - 1) % 4 * 4 + lit && b == (off - 1) / 4
    ensures a >= 64 && a % 4 == lit && 1 + a / 4 % 4 + b * 4 == off && a / 16 - 1 == len
  {
    assert a / 4 == (len + 1) * 4 + (off - 1) % 4;
  }

  /** M1: two bytes copied after literals, or three from further away after a run. */
  lemma DecodesM1(env: Env, ip: nat, mode: Mode, out: seq<byte>, o: nat, lit: nat)
    requires AtMarker(env, ip, mode) && mode != Top && ip + 2 <= |env.mem| && lit < 4 && o < 1024
    requires env.mem[ip] == o % 4 * 4 + lit && env.mem[ip + 1] == o / 4
    ensures mode == AfterLits ==> Repeated(env, env.Step(ip, mode, out), out, o + 1, 2, ip + 2, lit)
    ensures mode == AfterRun ==>
      Repeated(env, env.Step(ip, mode, out), out, o + 1 + (if env.v.X? then 2048 else 1024), 3, ip + 2, lit)
  {
    hide Env.Step, Repeated;
    var off, len := o + 1 + (if mode == AfterLits then 0 else if env.v.X? then 2048 else 1024), if mode == AfterLits then 2 else 3;
    assert env.mem[ip] / 4 == o % 4 && env.mem[ip] % 4 == lit;
    StepRepeats(env, ip, mode, out, off, len, ip + 2);
  }

  /** M3: matches up to 16 KB back. */
  lemma DecodesM3(env: Env, ip: nat, mode: Mode, out: seq<byte>, off: nat, len: nat, lit: nat, field: nat, at: nat)
    requires AtMarker(env, ip, mode) && lit < 4 && 3 <= len && 1 <= off <= 16384
    requires env.mem[ip] == 32 + field && Measured(env, ip + 1, field, 33, len, at) && at + 2 <= |env.mem|
    requires env.mem[at] == (off - 1) % 64 * 4 + lit && env.mem[at + 1] == (off - 1) / 64
    ensures Repeated(env, env.Step(ip, mode, out), out, off, len, at + 2, lit)
  {
    hide Env.Step, Repeated, Env.ReadLength;
    MeasuredRead(env, ip + 1, field, 33, len, at);
    assert env.mem[ip] % 32 == field;
    hide Measured;
    assert env.ReadOffset(at) == off - 1 && env.mem[at] % 4 == lit;
    StepRepeats(env, ip, mode, out, off, len, at + 2);
  }

  /** M4: matches beyond, up to 48 KB back. */
  lemma DecodesM4(env: Env, ip: nat, mode: Mode, out: seq<byte>, off: nat, len: nat, lit: nat, field: nat, at: nat)
    requires AtMarker(env, ip, mode) && lit < 4 && 3 <= len && 16384 < off < 49152
    requires env.mem[ip] == 16 + (off - 16384) / 16384 * 8 + field && Measured(env, ip + 1, field, 9, len, at)
    requires at + 2 <= |env.mem|
    requires env.mem[at] == (off - 16384) % 64 * 4 + lit && env.mem[at + 1] == (off - 16384) / 64 % 256
    ensures Repeated(env, env.Step(ip, mode, out), out, off, len, at + 2, lit)
  {
    hide Env.Step, Repeated, Env.ReadLength;
    MeasuredRead(env, ip + 1, field, 9, len, at);
    M4Fields(off - 16384, field, env.mem[ip], env.mem[at], env.mem[at + 1], lit);
    hide Measured;
    StepRepeats(env, ip, mode, out, off, len, at + 2);
  }

  lemma M4Fields(o: nat, field: nat, t: byte, a: byte, b: byte, lit: nat)
    requires 0 < o < 32768 && field < 8 && lit < 4
    requires t == 16 + o / 16384 * 8 + field && a == o % 64 * 4 + lit && b == o / 64 % 256
    ensures 16 <= t < 32 && t % 8 == field && t / 8 % 2 == o / 16384
    ensures t / 8 % 2 * 0x4000 + (a / 4 + b * 64) == o && a % 4 == lit
  {
    assert o / 64 == o / 16384 * 256 + o / 64 % 256;
  }

  /** The end: an M4 match of length three with an offset of nothing. */
  lemma DecodesEnd(env: Env, ip: nat, mode: Mode, out: seq<byte>)
    requires AtMarker(env, ip, mode) && ip + 3 <= |env.mem|
    requires env.mem[ip] == 17 && env.mem[ip + 1] == 0 && env.mem[ip + 2] == 0
    ensures env.Step(ip, mode, out)
         == Stop(if ip + 3 == env.inLen then OK else if ip + 3 < env.inLen then INPUT_NOT_CONSUMED else INPUT_OVERRUN, out)
  {
    assert env.Parse(17, ip + 1, mode) == Eof(ip + 3);
  }

  /** A run of four literals or more: up to eighteen counted in the marker, more behind it. */
  lemma DecodesRun(env: Env, ip: nat, out: seq<byte>, n: nat, at: nat)
    requires AtMarker(env, ip, Top) && 4 <= n
    requires
      if n <= 18 then env.mem[ip] == n - 3 && at == ip + 1
      else env.mem[ip] == 0 && at == ip + 2 + (n - 19) / 255 && Zeros(env, ip + 1, (n - 19) / 255, (n - 19) % 255 + 1)
    ensures Copies(env, env.Step(ip, Top, out), out, at, n, AfterRun)
  {
    if n > 18 {
      ZerosRead(env, ip + 1, (n - 19) / 255, (n - 19) % 255 + 1, 15);
      assert n - 19 == 255 * ((n - 19) / 255) + (n - 19) % 255;
    }
    hide Env.ReadCount, Zeros;
    LiteralsCopy(env, at, n, AfterRun, out);
    hide Env.Literals, Copies;
    assert env.Step(ip, Top, out) == env.RunStep(env.mem[ip], ip + 1, out);
  }

  /** A first byte above 17 is a run of its own; a stream that starts otherwise starts with a marker. */
  lemma DecodesFirst(env: Env)
    requires 0 < env.inLen <= |env.mem|
    ensures env.mem[0] > 17 ==>
      var n := env.mem[0] - 17;
      Copies(env, env.Start(), [], 1, n, if n < 4 then AfterLits else AfterRun)
    ensures env.mem[0] <= 17 ==> env.Start() == Go(0, Top, [])
  {
  }

  /** A stream that ends where a marker should be has no end code. */
  lemma DecodesNoMarker(env: Env, ip: nat, mode: Mode, out: seq<byte>)
    requires ip < |env.mem| && ((mode == Top && ip >= env.inLen) || (mode == AfterLits && ip + 1 >= env.inLen))
    ensures env.Step(ip, mode, out) == Stop(EOF_NOT_FOUND, out)
  {
  }
}
