/** Why an LZO1X stream is uniquely decodable: what each instruction that the 999 encoder
    writes makes of the decoder, whatever bytes follow it. */
module Lzo1xStream {
  import opened Bytes
  import opened Lzo1xFormat
  import opened Lzo1xCopy
  import opened Lzo1xDecoder

  /** The surroundings of a roundtrip, without the stream. */
  datatype Setup = Setup(v: Variant, dict: seq<byte>, cap: nat) {
    function With(mem: seq<byte>): Env {
      Env(v, dict, mem, |mem|, cap)
    }
  }

  /** Followed by `more`, `code` brings the decoder before the marker at `|code|` in `mode`, with
      `text` as its output. */
  ghost predicate LeadsOn(z: Setup, code: seq<byte>, mode: Mode, text: seq<byte>, more: seq<byte>) {
    z.With(code + more).Decode() == z.With(code + more).Run(Go(|code|, mode, text))
  }

  /** The same for every continuation at least as long as an end code. */
  ghost predicate Leads(z: Setup, code: seq<byte>, mode: Mode, text: seq<byte>) {
    forall more: seq<byte> :: |more| >= 3 ==> LeadsOn(z, code, mode, text, more)
  }

  /** Before `instr` in `mode`, the decoder goes on behind it in `mode'`. */
  ghost predicate TakesOn(z: Setup, code: seq<byte>, mode: Mode, text: seq<byte>,
                          instr: seq<byte>, mode': Mode, text': seq<byte>, more: seq<byte>) {
    z.With(code + (instr + more)).Step(|code|, mode, text) == Go(|code| + |instr|, mode', text')
  }

  ghost predicate Takes(z: Setup, code: seq<byte>, mode: Mode, text: seq<byte>,
                        instr: seq<byte>, mode': Mode, text': seq<byte>) {
    forall more: seq<byte> :: |more| >= 3 ==> TakesOn(z, code, mode, text, instr, mode', text', more)
  }

  lemma RunStep(env: Env, ip: nat, mode: Mode, out: seq<byte>)
    requires ip <= |env.mem|
    ensures env.Run(Go(ip, mode, out)) == env.Run(env.Step(ip, mode, out))
  {
    hide Env.Step;
  }

  lemma LeadsOnAppend(z: Setup, code: seq<byte>, mode: Mode, text: seq<byte>,
                      instr: seq<byte>, mode': Mode, text': seq<byte>, more: seq<byte>)
    requires LeadsOn(z, code, mode, text, instr + more)
    requires TakesOn(z, code, mode, text, instr, mode', text', more)
    ensures LeadsOn(z, code + instr, mode', text', more)
  {
    hide Env.Step, Env.Decode, Env.Run;
    assert code + instr + more == code + (instr + more);
    RunStep(z.With(code + (instr + more)), |code|, mode, text);
  }

  /** An instruction that takes the decoder on extends a prefix. */
  lemma LeadsAppend(z: Setup, code: seq<byte>, mode: Mode, text: seq<byte>,
                    instr: seq<byte>, mode': Mode, text': seq<byte>)
    requires Leads(z, code, mode, text)
    requires Takes(z, code, mode, text, instr, mode', text')
    ensures Leads(z, code + instr, mode', text')
  {
    hide LeadsOn, TakesOn;
    forall more: seq<byte> | |more| >= 3
      ensures LeadsOn(z, code + instr, mode', text', more)
    {
      LeadsOnAppend(z, code, mode, text, instr, mode', text', more);
    }
  }

  /** The end code stops the decoder with OK behind the last byte, in every mode. */
  lemma LeadsEof(z: Setup, code: seq<byte>, mode: Mode, text: seq<byte>)
    requires Leads(z, code, mode, text)
    ensures z.With(code + EOF_CODE).Decode() == Stop(OK, text)
  {
    hide Env.Step, Env.Decode;
    var env := z.With(code + EOF_CODE);
    assert |EOF_CODE| == 3;
    assert LeadsOn(z, code, mode, text, EOF_CODE);
    assert env.mem[|code|..] == EOF_CODE;
    EofStep(env, |code|, mode, text);
    RunStep(env, |code|, mode, text);
  }

  lemma EofStep(env: Env, ip: nat, mode: Mode, text: seq<byte>)
    requires env.inLen == |env.mem| == ip + 3
    requires env.mem[ip..] == EOF_CODE
    ensures env.Step(ip, mode, text) == Stop(OK, text)
  {
    hide Env.ReadCount, CopyVirtual;
    assert env.mem[ip] == env.mem[ip..][0] == 17;
    assert env.mem[ip + 1] == env.mem[ip..][1] == 0;
    assert env.mem[ip + 2] == env.mem[ip..][2] == 0;
    assert env.Parse(17, ip + 1, mode) == Eof(ip + 3);
  }

  /** `code` lies in the stream at `ip`. */
  ghost predicate Holds(env: Env, ip: nat, code: seq<byte>) {
    && ip + |code| <= env.inLen <= |env.mem|
    && forall i :: ip <= i < ip + |code| ==> env.mem[i] == code[i - ip]
  }

  lemma HoldsPrefix(env: Env, ip: nat, head: seq<byte>, tail: seq<byte>)
    requires Holds(env, ip, head + tail)
    ensures Holds(env, ip, head)
    ensures Holds(env, ip + |head|, tail)
  {
    forall i | ip + |head| <= i < ip + |head| + |tail|
      ensures env.mem[i] == tail[i - (ip + |head|)]
    {
      assert env.mem[i] == (head + tail)[i - ip];
    }
    forall i | ip <= i < ip + |head|
      ensures env.mem[i] == head[i - ip]
    {
      assert env.mem[i] == (head + tail)[i - ip];
    }
  }

  lemma HoldsSlice(env: Env, ip: nat, code: seq<byte>)
    requires Holds(env, ip, code)
    ensures env.mem[ip..ip + |code|] == code
  {
  }

  /** A count written by `LongCode` is read back. */
  lemma {:induction false} LongCodeRead(env: Env, ip: nat, acc: nat, n: nat)
    requires 0 < n && Holds(env, ip, LongCode(n))
    ensures env.ReadCount(ip, acc) == Count(ip + |LongCode(n)|, acc + n)
    decreases n
  {
    assert env.mem[ip] == LongCode(n)[0];
    if n > 255 {
      assert LongCode(n) == [0] + LongCode(n - 255);
      hide LongCode;
      HoldsPrefix(env, ip, [0], LongCode(n - 255));
      hide Holds;
      LongCodeRead(env, ip + 1, acc + 255, n - 255);
    }
  }

  /** An instruction with `t` literals counted in its low bits. */
  function Patch(code: seq<byte>, t: nat): (r: seq<byte>)
    requires |code| >= 2 && code[|code| - 2] % 4 == 0 && t < 4
    ensures |r| == |code|
  {
    code[|code| - 2 := code[|code| - 2] + t]
  }

  /** A match instruction is read back as the match it was written for, even with a literal
      count in its low bits, and never as the end code. */
  lemma MatchRead(env: Env, ip: nat, mode: Mode, len: nat, off: nat, t: nat)
    requires Codable(mode, len, off) && t < 4
    requires Holds(env, ip, Patch(MatchInstr(env.v, mode, len, off), t))
    ensures var n := |MatchInstr(env.v, mode, len, off)|;
            && env.Parse(env.mem[ip], ip + 1, mode) == Match(ip + n, off, len)
            && env.mem[ip + n - 2] % 4 == t
            && (mode == Top ==> env.mem[ip] >= 16)
  {
    var n := |MatchInstr(env.v, mode, len, off)|;
    if n == 2 {
      ShortRead(env, ip, mode, len, off, t);
    } else {
      ExtendedRead(env, ip, mode, len, off, t);
    }
  }

  /** The fields of an M2 marker, in LZO1X and in LZO1Y. */
  lemma M2Fields(len: nat, o: nat, t: nat)
    requires t < 4 && 3 <= len
    ensures var a := (len - 1) * 32 + o % 8 * 4 + t; a / 4 % 8 == o % 8 && a / 32 == len - 1 && a % 4 == t
    ensures var a := (len + 1) * 16 + o % 4 * 4 + t; a / 4 % 4 == o % 4 && a / 16 == len + 1 && a % 4 == t
  {
    assert ((len - 1) * 32 + o % 8 * 4 + t) / 4 == (len - 1) * 8 + o % 8;
    assert ((len + 1) * 16 + o % 4 * 4 + t) / 4 == (len + 1) * 4 + o % 4;
  }

  /** Fourteen offset bits split over two bytes above a literal count. */
  lemma OffsetFields(o: nat, t: nat)
    requires t < 4
    ensures (o % 64 * 4 + t) / 4 == o % 64
    ensures (o % 64 * 4 + t) % 4 == t
    ensures o % 64 + o / 64 % 256 * 64 == o % 0x4000
  {
    var q, m := o / 0x4000, o % 0x4000;
    assert o / 64 == 256 * q + m / 64;
  }

  /** The two-byte instructions. */
  lemma ShortRead(env: Env, ip: nat, mode: Mode, len: nat, off: nat, t: nat)
    requires Codable(mode, len, off) && t < 4
    requires |MatchInstr(env.v, mode, len, off)| == 2
    requires Holds(env, ip, Patch(MatchInstr(env.v, mode, len, off), t))
    ensures env.Parse(env.mem[ip], ip + 1, mode) == Match(ip + 2, off, len)
    ensures env.mem[ip] % 4 == t
    ensures mode == Top ==> env.mem[ip] >= 16
  {
    hide Env.Parse, LongCode;
    var plain := MatchInstr(env.v, mode, len, off);
    var a: nat, b: nat := env.mem[ip], env.mem[ip + 1];
    assert a == plain[0] + t && b == plain[1];
    var o := off - 1;
    if len == 2 {
      ShortM1(env, ip, mode, o, t);
    } else if len <= env.v.M2MaxLen() && off <= env.v.M2MaxOffset() {
      ShortM2(env, ip, mode, len, o, t);
    } else {
      ShortM1(env, ip, mode, off - 1 - env.v.M2MaxOffset(), t);
    }
  }

  lemma ShortM1(env: Env, ip: nat, mode: Mode, o: nat, t: nat)
    requires t < 4 && ip + 2 <= |env.mem| && env.mem[ip] == o % 4 * 4 + t && env.mem[ip + 1] == o / 4
    ensures env.mem[ip] % 4 == t
    ensures env.Parse(env.mem[ip], ip + 1, mode)
         == if mode == AfterRun then Match(ip + 2, 1 + env.v.M2MaxOffset() + o, 3) else Match(ip + 2, 1 + o, 2)
  {
    var a: nat := env.mem[ip];
    assert a / 4 == o % 4 && a < 16;
  }

  lemma ShortM2(env: Env, ip: nat, mode: Mode, len: nat, o: nat, t: nat)
    requires t < 4 && 3 <= len <= env.v.M2MaxLen() && o < env.v.M2MaxOffset() && ip + 2 <= |env.mem|
    requires env.mem[ip] == M2Instr(env.v, len, o)[0] + t && env.mem[ip + 1] == M2Instr(env.v, len, o)[1]
    ensures env.mem[ip] % 4 == t && env.mem[ip] >= 64
    ensures env.Parse(env.mem[ip], ip + 1, mode) == Match(ip + 2, 1 + o, len)
  {
    M2Fields(len, o, t);
  }

  /** The length of an M3 or M4 instruction is read back. */
  lemma LengthRead(env: Env, ip: nat, marker: nat, max: nat, len: nat)
    requires 3 <= len && 3 <= max && marker + max - 2 < 256
    requires Holds(env, ip, Lengthened(marker, max, len))
    ensures marker <= env.mem[ip] <= marker + max - 2
    ensures env.ReadLength(ip + 1, env.mem[ip] - marker, max - 2) == Count(ip + |Lengthened(marker, max, len)|, len - 2)
  {
    hide Env.ReadCount, LongCode;
    assert env.mem[ip] == Lengthened(marker, max, len)[0];
    if len > max {
      LongLengthRead(env, ip, marker, max, len);
    }
  }

  lemma LongLengthRead(env: Env, ip: nat, marker: byte, max: nat, len: nat)
    requires 3 <= max < len && Holds(env, ip, [marker] + LongCode(len - max))
    ensures env.ReadCount(ip + 1, max - 2) == Count(ip + 1 + |LongCode(len - max)|, len - 2)
  {
    hide Env.ReadCount, LongCode;
    var count := LongCode(len - max);
    HoldsPrefix(env, ip, [marker], count);
    hide Holds;
    LongCodeRead(env, ip + 1, max - 2, len - max);
  }

  lemma M3Read(env: Env, ip: nat, mode: Mode, len: nat, o: nat, t: nat)
    requires 3 <= len && o < 0x4000 && t < 4
    requires Holds(env, ip, Lengthened(M3_MARKER, M3_MAX_LEN, len) + [o % 64 * 4 + t, o / 64 % 256])
    ensures var h := ip + |Lengthened(M3_MARKER, M3_MAX_LEN, len)|;
            && env.Parse(env.mem[ip], ip + 1, mode) == Match(h + 2, 1 + o, len)
            && env.mem[h] % 4 == t
    ensures env.mem[ip] >= 16
  {
    hide Env.ReadCount, Env.ReadLength, Env.ReadOffset, Lengthened, LongCode;
    var head := Lengthened(M3_MARKER, M3_MAX_LEN, len);
    TailRead(env, ip, head, o, t, o / 64 % 256);
    LengthRead(env, ip, M3_MARKER, M3_MAX_LEN, len);
    assert env.mem[ip] % 32 == env.mem[ip] - 32;
  }

  lemma M4Read(env: Env, ip: nat, mode: Mode, len: nat, o: nat, t: nat)
    requires 3 <= len && 0 < o < 0x8000 && t < 4
    requires Holds(env, ip, Lengthened(M4_MARKER + o / 0x4000 * 8, M4_MAX_LEN, len) + [o % 64 * 4 + t, o / 64 % 256])
    ensures var h := ip + |Lengthened(M4_MARKER + o / 0x4000 * 8, M4_MAX_LEN, len)|;
            && env.Parse(env.mem[ip], ip + 1, mode) == Match(h + 2, 0x4000 + o, len)
            && env.mem[h] % 4 == t
    ensures env.mem[ip] >= 16
  {
    hide Env.ReadCount, Env.ReadLength, Env.ReadOffset, Lengthened, LongCode;
    var k := o / 0x4000;
    var head := Lengthened(M4_MARKER + k * 8, M4_MAX_LEN, len);
    TailRead(env, ip, head, o, t, o / 64 % 256);
    LengthRead(env, ip, M4_MARKER + k * 8, M4_MAX_LEN, len);
    assert env.mem[ip] % 8 == env.mem[ip] - (16 + k * 8) && env.mem[ip] / 8 % 2 == k;
  }

  /** The M3 and M4 instructions, whose length may be spread over several bytes. */
  lemma ExtendedRead(env: Env, ip: nat, mode: Mode, len: nat, off: nat, t: nat)
    requires Codable(mode, len, off) && t < 4
    requires |MatchInstr(env.v, mode, len, off)| > 2
    requires Holds(env, ip, Patch(MatchInstr(env.v, mode, len, off), t))
    ensures var n := |MatchInstr(env.v, mode, len, off)|;
            && env.Parse(env.mem[ip], ip + 1, mode) == Match(ip + n, off, len)
            && env.mem[ip + n - 2] % 4 == t
    ensures env.mem[ip] >= 16
  {
    hide Env.Parse, Lengthened;
    var plain := MatchInstr(env.v, mode, len, off);
    if off <= M3_MAX_OFFSET {
      var o := off - 1;
      assert Patch(plain, t) == Lengthened(M3_MARKER, M3_MAX_LEN, len) + [o % 64 * 4 + t, o / 64 % 256];
      M3Read(env, ip, mode, len, o, t);
    } else {
      var o := off - 0x4000;
      assert Patch(plain, t) == Lengthened(M4_MARKER + o / 0x4000 * 8, M4_MAX_LEN, len) + [o % 64 * 4 + t, o / 64 % 256];
      M4Read(env, ip, mode, len, o, t);
    }
  }

  /** The two offset bytes at the end of an M3 or M4 instruction. */
  lemma TailRead(env: Env, ip: nat, head: seq<byte>, o: nat, t: nat, high: byte)
    requires t < 4 && high == o / 64 % 256
    requires Holds(env, ip, head + [o % 64 * 4 + t, high])
    ensures Holds(env, ip, head)
    ensures env.ReadOffset(ip + |head|) == o % 0x4000
    ensures env.mem[ip + |head|] % 4 == t
  {
    HoldsPrefix(env, ip, head, [o % 64 * 4 + t, high]);
    var h := ip + |head|;
    assert env.mem[h] == o % 64 * 4 + t && env.mem[h + 1] == high;
    OffsetFields(o, t);
  }

  // ----- Matches -----

  /** What a match instruction followed by its counted literals does to the decoder. */
  lemma MatchTakesOn(z: Setup, code: seq<byte>, mode: Mode, text: seq<byte>, len: nat, off: nat,
                     lits: seq<byte>, more: seq<byte>)
    requires Codable(mode, len, off) && off <= |z.dict| + |text|
    requires |lits| < 4 && |text| + len + |lits| <= z.cap && |more| >= 3
    ensures TakesOn(z, code, mode, text, Patch(MatchInstr(z.v, mode, len, off), |lits|) + lits,
                    ModeOf(|lits|), CopyVirtual(z.dict, text, off, len) + lits, more)
  {
    hide Env.Parse, MatchInstr, CopyVirtual;
    var instr := Patch(MatchInstr(z.v, mode, len, off), |lits|);
    var env := z.With(code + (instr + lits + more));
    var ip := |code| + |instr|;
    assert Holds(env, |code|, instr);
    MatchRead(env, |code|, mode, len, off, |lits|);
    assert env.mem[ip..ip + |lits|] == lits;
    assert CopyVirtual(z.dict, text, off, len) + [] == CopyVirtual(z.dict, text, off, len);
  }

  /** The stream ends in a match whose literal count is still zero: up to three literals may yet be
      counted in its second-last byte and appended. */
  ghost predicate Pending(z: Setup, code: seq<byte>, text: seq<byte>) {
    && |code| >= 2 && code[|code| - 2] % 4 == 0
    && forall lits: seq<byte> :: |lits| < 4 && |text| + |lits| <= z.cap ==> PendingWith(z, code, text, lits)
  }

  ghost predicate PendingWith(z: Setup, code: seq<byte>, text: seq<byte>, lits: seq<byte>)
    requires |code| >= 2 && code[|code| - 2] % 4 == 0 && |lits| < 4
  {
    Leads(z, Patch(code, |lits|) + lits, ModeOf(|lits|), text + lits)
  }

  /** Coding a match leaves the stream pending. */
  lemma LeadsMatch(z: Setup, code: seq<byte>, mode: Mode, text: seq<byte>, len: nat, off: nat)
    requires Leads(z, code, mode, text)
    requires Codable(mode, len, off) && off <= |z.dict| + |text| && |text| + len <= z.cap
    ensures Pending(z, code + MatchInstr(z.v, mode, len, off), CopyVirtual(z.dict, text, off, len))
  {
    hide MatchInstr, CopyVirtual, LeadsOn, TakesOn, Leads;
    var instr := MatchInstr(z.v, mode, len, off);
    var text' := CopyVirtual(z.dict, text, off, len);
    forall lits: seq<byte> | |lits| < 4 && |text'| + |lits| <= z.cap
      ensures PendingWith(z, code + instr, text', lits)
    {
      forall more: seq<byte> | |more| >= 3
        ensures TakesOn(z, code, mode, text, Patch(instr, |lits|) + lits, ModeOf(|lits|), text' + lits, more)
      {
        MatchTakesOn(z, code, mode, text, len, off, lits, more);
      }
      LeadsAppend(z, code, mode, text, Patch(instr, |lits|) + lits, ModeOf(|lits|), text' + lits);
      assert code + (Patch(instr, |lits|) + lits) == Patch(code + instr, |lits|) + lits;
    }
  }

  // ----- Literal runs -----

  /** Header of a run of at least four literals. */
  function RunInstr(t: nat): (r: seq<byte>)
    requires t >= 4
    ensures |r| >= 1
  {
    if t <= 18 then [t - 3] else [0] + LongCode(t - 18)
  }

  lemma RunRead(env: Env, ip: nat, text: seq<byte>, lits: seq<byte>)
    requires |lits| >= 4 && |text| + |lits| <= env.cap
    requires Holds(env, ip, RunInstr(|lits|) + lits)
    requires ip + |RunInstr(|lits|)| + |lits| < env.inLen
    ensures env.Step(ip, Top, text) == Go(ip + |RunInstr(|lits|)| + |lits|, AfterRun, text + lits)
    ensures env.mem[ip] <= 15
  {
    var t := |lits|;
    var h := ip + |RunInstr(t)|;
    HoldsPrefix(env, ip, RunInstr(t), lits);
    RunHeadRead(env, ip, t);
    HoldsSlice(env, h, lits);
    hide Env.ReadCount, Env.MatchStep, RunInstr, Holds;
    assert env.RunStep(env.mem[ip], ip + 1, text) == env.Literals(h, t, AfterRun, text);
  }

  /** The count of a run, in its marker or behind it, is read back. */
  lemma RunHeadRead(env: Env, ip: nat, t: nat)
    requires t >= 4 && Holds(env, ip, RunInstr(t))
    ensures env.mem[ip] <= 15
    ensures (if env.mem[ip] == 0 then env.ReadCount(ip + 1, 15) else Count(ip + 1, env.mem[ip]))
         == Count(ip + |RunInstr(t)|, t - 3)
  {
    hide Env.ReadCount, LongCode;
    assert env.mem[ip] == RunInstr(t)[0];
    if t > 18 {
      var count := LongCode(t - 18);
      HoldsPrefix(env, ip, [0], count);
      hide Holds;
      LongCodeRead(env, ip + 1, 15, t - 18);
    }
  }

  /** A run after a match without literals. */
  lemma LeadsRun(z: Setup, code: seq<byte>, text: seq<byte>, lits: seq<byte>)
    requires Leads(z, code, Top, text)
    requires |lits| >= 4 && |text| + |lits| <= z.cap
    ensures Leads(z, code + (RunInstr(|lits|) + lits), AfterRun, text + lits)
  {
    hide Env.Step, LeadsOn, RunInstr;
    var instr := RunInstr(|lits|) + lits;
    forall more: seq<byte> | |more| >= 3
      ensures TakesOn(z, code, Top, text, instr, AfterRun, text + lits, more)
    {
      var env := z.With(code + (instr + more));
      assert Holds(env, |code|, instr);
      RunRead(env, |code|, text, lits);
    }
    LeadsAppend(z, code, Top, text, instr, AfterRun, text + lits);
  }

  /** The run that begins a stream: in the first byte when it is short enough. */
  function FirstRun(lits: seq<byte>): (r: seq<byte>)
    requires lits != []
  {
    if |lits| <= 238 then [17 + |lits|] + lits else RunInstr(|lits|) + lits
  }

  lemma StartRead(env: Env, lits: seq<byte>)
    requires 0 < |lits| <= 238 && |lits| <= env.cap
    requires Holds(env, 0, [17 + |lits|] + lits) && |lits| + 1 < env.inLen
    ensures env.Start() == Go(|lits| + 1, ModeOf(|lits|), lits)
  {
    HoldsPrefix(env, 0, [17 + |lits|], lits);
    assert env.mem[0] == 17 + |lits|;
    assert env.mem[1..1 + |lits|] == lits;
    assert [] + lits == lits;
  }

  lemma LeadsFirstOn(z: Setup, lits: seq<byte>, more: seq<byte>)
    requires lits != [] && |lits| <= z.cap && |more| >= 3
    ensures LeadsOn(z, FirstRun(lits), ModeOf(|lits|), lits, more)
  {
    hide Env.Step, Env.Run, RunInstr;
    var env := z.With(FirstRun(lits) + more);
    if |lits| <= 238 {
      hide Env.Start;
      StartRead(env, lits);
    } else {
      RunRead(env, 0, [], lits);
      assert [] + lits == lits;
      RunStep(env, 0, Top, []);
    }
  }

  lemma LeadsFirst(z: Setup, lits: seq<byte>)
    requires lits != [] && |lits| <= z.cap
    ensures Leads(z, FirstRun(lits), ModeOf(|lits|), lits)
  {
    hide LeadsOn, FirstRun;
    forall more: seq<byte> | |more| >= 3
      ensures LeadsOn(z, FirstRun(lits), ModeOf(|lits|), lits, more)
    {
      LeadsFirstOn(z, lits, more);
    }
  }
}
