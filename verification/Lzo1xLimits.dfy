/** When `lzo1x_decompress_dict_safe` succeeds: a stream that decodes needs exactly the room of its text and exactly
    its own length of input. */
module Lzo1xLimits {
  import opened Bytes
  import opened Lzo1xFormat
  import opened Lzo1xCopy
  import opened Lzo1xDecoder

  /** An instruction is read from the memory and, where a length is counted, up to the end of the stream. */
  lemma ParseVia(env: Env, env': Env, t: nat, ip: nat, mode: Mode)
    requires env'.v == env.v && env'.mem == env.mem && 0 < ip <= |env.mem|
    ensures t >= 64 || t < 16 ==> env'.Parse(t, ip, mode) == env.Parse(t, ip, mode)
    ensures 16 <= t < 64 ==>
      var c, c' := Length(env, t, ip), Length(env', t, ip);
      && (c' == c ==> env'.Parse(t, ip, mode) == env.Parse(t, ip, mode))
      && (c'.NoCount? ==> env'.Parse(t, ip, mode) == Bad(c'.status))
  {
    hide Env.ReadLength, Env.ReadOffset;
    if 16 <= t < 64 {
      var c := Length(env, t, ip);
      if c.Count? && c.ip + 2 <= |env.mem| {
        SameOffset(env, env', c.ip);
      }
    }
  }

  lemma SameOffset(env: Env, env': Env, i: nat)
    requires env'.mem == env.mem && i + 2 <= |env.mem|
    ensures env'.ReadOffset(i) == env.ReadOffset(i)
  {
  }

  /** A counted length ends two bytes before the instruction does. */
  lemma ParseEnd(env: Env, t: nat, ip: nat, mode: Mode)
    requires 0 < ip <= |env.mem| && 16 <= t < 64
    ensures
      var c, p := Length(env, t, ip), env.Parse(t, ip, mode);
      if c.NoCount? then p == Bad(c.status) else match p case Match(end, _, _) => end == c.ip + 2 case Eof(end) => end == c.ip + 2 case Bad(_) => true
  {
    hide Env.ReadLength, Env.ReadOffset;
  }

  /** The length of an M3 or M4 match. */
  function Length(env: Env, t: nat, ip: nat): Count
    requires 16 <= t < 64 && ip <= |env.mem|
  {
    if t >= 32 then env.ReadLength(ip, t % 32, 31) else env.ReadLength(ip, t % 8, 7)
  }

  // ----- Room for the output -----

  /** With capacity `cap`, a step that led to `s` leads there too, or finds no room. */
  predicate Fits(s: State, s': State, cap: nat) {
    if |s.out| <= cap then s' == s else s'.Stop? && s'.status == OUTPUT_OVERRUN
  }

  lemma {:induction false} CountRoom(env: Env, cap: nat, ip: nat, acc: nat)
    ensures env.(cap := cap).ReadCount(ip, acc) == env.ReadCount(ip, acc)
    decreases |env.mem| - ip
  {
    if env.NeedIp(ip, 1) && ip < |env.mem| && env.mem[ip] == 0 {
      CountRoom(env, cap, ip + 1, acc + 255);
    }
  }

  lemma ParseRoom(env: Env, cap: nat, t: nat, ip: nat, mode: Mode)
    requires 0 < ip <= |env.mem|
    ensures env.(cap := cap).Parse(t, ip, mode) == env.Parse(t, ip, mode)
  {
    hide Env.Parse, Env.ReadCount;
    ParseVia(env, env.(cap := cap), t, ip, mode);
    CountRoom(env, cap, ip, 31);
    CountRoom(env, cap, ip, 7);
  }

  lemma LiteralsRoom(env: Env, cap: nat, ip: nat, n: nat, mode: Mode, out: seq<byte>)
    requires env.Literals(ip, n, mode, out).Go?
    ensures Fits(env.Literals(ip, n, mode, out), env.(cap := cap).Literals(ip, n, mode, out), cap)
    ensures |env.Literals(ip, n, mode, out).out| == |out| + n
  {
  }

  lemma CopyRoom(env: Env, cap: nat, p: Parsed, out: seq<byte>)
    requires p.Match? && 2 <= p.ip <= |env.mem| && p.off > 0 && env.Copy(p, out).Go?
    ensures Fits(env.Copy(p, out), env.(cap := cap).Copy(p, out), cap)
    ensures |out| <= |env.Copy(p, out).out|
  {
    var out' := CopyVirtual(env.dict, out, p.off, p.len);
    var t := env.mem[p.ip - 2] % 4;
    hide CopyVirtual;
    if t > 0 {
      LiteralsRoom(env, cap, p.ip, t, AfterLits, out');
      hide Env.Literals;
    }
  }

  lemma MatchRoom(env: Env, cap: nat, t: nat, ip: nat, mode: Mode, out: seq<byte>)
    requires 0 < ip <= |env.mem| && |out| <= cap
    requires var s := env.MatchStep(t, ip, mode, out); s.Go? || s.status == OK
    ensures Fits(env.MatchStep(t, ip, mode, out), env.(cap := cap).MatchStep(t, ip, mode, out), cap)
    ensures |out| <= |env.MatchStep(t, ip, mode, out).out|
  {
    hide Env.Parse, Env.Copy;
    ParseRoom(env, cap, t, ip, mode);
    var p := env.Parse(t, ip, mode);
    if p.Match? {
      NoOkCopy(env, p, out);
      CopyRoom(env, cap, p, out);
    }
  }

  /** A copy does not end the stream. */
  lemma NoOkCopy(env: Env, p: Parsed, out: seq<byte>)
    requires p.Match? && 2 <= p.ip <= |env.mem| && p.off > 0
    ensures var s := env.Copy(p, out); s.Go? || s.status != OK
  {
    hide CopyVirtual;
  }

  lemma RunHeadRoom(env: Env, cap: nat, t: nat, ip: nat, out: seq<byte>)
    requires ip <= |env.mem| && t < 16 && |out| <= cap
    requires var s := env.RunStep(t, ip, out); s.Go? || s.status == OK
    ensures Fits(env.RunStep(t, ip, out), env.(cap := cap).RunStep(t, ip, out), cap)
    ensures |out| <= |env.RunStep(t, ip, out).out|
  {
    hide Env.ReadCount, Env.Literals;
    CountRoom(env, cap, ip, 15);
    CountNotOk(env, ip, 15);
    var c := if t == 0 then env.ReadCount(ip, 15) else Count(ip, t);
    NoOkLiterals(env, if c.Count? then c.ip else 0, if c.Count? then c.n + 3 else 0, AfterRun, out);
    LiteralsRoom(env, cap, c.ip, c.n + 3, AfterRun, out);
  }

  lemma {:induction false} CountNotOk(env: Env, ip: nat, acc: nat)
    ensures var c := env.ReadCount(ip, acc); c.NoCount? ==> c.status != OK
    decreases |env.mem| - ip
  {
    if env.NeedIp(ip, 1) && ip < |env.mem| && env.mem[ip] == 0 {
      CountNotOk(env, ip + 1, acc + 255);
    }
  }

  lemma NoOkLiterals(env: Env, ip: nat, n: nat, mode: Mode, out: seq<byte>)
    ensures var s := env.Literals(ip, n, mode, out); s.Go? || s.status != OK
  {
  }

  lemma StepRoom(env: Env, cap: nat, ip: nat, mode: Mode, out: seq<byte>)
    requires ip <= |env.mem| && |out| <= cap
    requires var s := env.Step(ip, mode, out); s.Go? || s.status == OK
    ensures Fits(env.Step(ip, mode, out), env.(cap := cap).Step(ip, mode, out), cap)
    ensures |out| <= |env.Step(ip, mode, out).out|
  {
    hide Env.RunStep, Env.MatchStep;
    if mode == Top && env.mem[ip] < 16 {
      RunHeadRoom(env, cap, env.mem[ip], ip + 1, out);
    } else {
      MatchRoom(env, cap, env.mem[ip], ip + 1, mode, out);
    }
  }

  lemma {:induction false} RunRoom(env: Env, cap: nat, s: State)
    requires s.Go? && s.ip <= |env.mem| && |s.out| <= cap && env.Run(s).status == OK
    ensures Fits(env.Run(s), env.(cap := cap).Run(s), cap) && |s.out| <= |env.Run(s).out|
    decreases |env.mem| - s.ip
  {
    var next := env.Step(s.ip, s.mode, s.out);
    StepRoom(env, cap, s.ip, s.mode, s.out);
    if next.Go? {
      hide Env.Step;
      if |next.out| <= cap {
        RunRoom(env, cap, next);
      } else {
        RunGrows(env, next);
      }
    }
  }

  lemma {:induction false} RunGrows(env: Env, s: State)
    requires s.Go? && s.ip <= |env.mem| && env.Run(s).status == OK
    ensures |s.out| <= |env.Run(s).out|
    decreases |env.mem| - s.ip
  {
    var next := env.Step(s.ip, s.mode, s.out);
    StepRoom(env, |s.out|, s.ip, s.mode, s.out);
    hide Env.Step;
    if next.Go? {
      RunGrows(env, next);
    }
  }

  /** A stream that decodes with some capacity decodes to the same text with every capacity that can
      hold the text, and reports an output overrun with every other. */
  lemma RoomExact(env: Env, cap: nat)
    requires env.Decode().status == OK
    ensures
      var r, r' := env.Decode(), env.(cap := cap).Decode();
      if |r.out| <= cap then r' == r else r'.status == OUTPUT_OVERRUN
  {
    var s := env.Start();
    if env.mem[0] > 17 {
      var n := env.mem[0] - 17;
      LiteralsRoom(env, cap, 1, n, if n < 4 then AfterLits else AfterRun, []);
    }
    assert Fits(s, env.(cap := cap).Start(), cap);
    hide Env.Start;
    if |s.out| <= cap {
      RunRoom(env, cap, s);
    } else {
      RunGrows(env, s);
    }
  }

  // ----- Length of the input -----

  /** What a stream cut short comes to. */
  predicate Short(s: State) {
    s.Stop? && (s.status == INPUT_OVERRUN || s.status == EOF_NOT_FOUND)
  }

  lemma {:induction false} CountShort(env: Env, n: nat, ip: nat, acc: nat)
    requires n < env.inLen && env.ReadCount(ip, acc).Count?
    ensures
      var c := env.(inLen := n).ReadCount(ip, acc);
      c == env.ReadCount(ip, acc) || c == NoCount(INPUT_OVERRUN)
    decreases |env.mem| - ip
  {
    if env.mem[ip] == 0 {
      CountShort(env, n, ip + 1, acc + 255);
    }
  }

  lemma ParseShort(env: Env, n: nat, t: nat, ip: nat, mode: Mode)
    requires n < env.inLen && 0 < ip <= |env.mem| && !env.Parse(t, ip, mode).Bad?
    ensures
      var p := env.(inLen := n).Parse(t, ip, mode);
      p == env.Parse(t, ip, mode) || p == Bad(INPUT_OVERRUN)
  {
    hide Env.Parse, Env.ReadCount;
    ParseVia(env, env.(inLen := n), t, ip, mode);
    if 16 <= t < 64 {
      ParseEnd(env, t, ip, mode);
    }
    if 32 <= t < 64 && t % 32 == 0 {
      CountShort(env, n, ip, 31);
    } else if 16 <= t < 32 && t % 8 == 0 {
      CountShort(env, n, ip, 7);
    }
  }

  lemma LiteralsShort(env: Env, n: nat, ip: nat, k: nat, mode: Mode, out: seq<byte>)
    requires n < env.inLen && env.Literals(ip, k, mode, out).Go?
    ensures
      var s := env.(inLen := n).Literals(ip, k, mode, out);
      s == env.Literals(ip, k, mode, out) || Short(s)
  {
  }

  lemma CopyShort(env: Env, n: nat, p: Parsed, out: seq<byte>)
    requires n < env.inLen && p.Match? && 2 <= p.ip <= |env.mem| && p.off > 0 && env.Copy(p, out).Go?
    ensures var s := env.(inLen := n).Copy(p, out); s == env.Copy(p, out) || Short(s)
  {
    var out' := CopyVirtual(env.dict, out, p.off, p.len);
    var t := env.mem[p.ip - 2] % 4;
    hide CopyVirtual;
    if t > 0 {
      LiteralsShort(env, n, p.ip, t, AfterLits, out');
      hide Env.Literals;
    }
  }

  lemma MatchShort(env: Env, n: nat, t: nat, ip: nat, mode: Mode, out: seq<byte>)
    requires n < env.inLen && 0 < ip <= |env.mem|
    requires var s := env.MatchStep(t, ip, mode, out); s.Go? || s.status == OK
    ensures
      var s, s' := env.MatchStep(t, ip, mode, out), env.(inLen := n).MatchStep(t, ip, mode, out);
      Short(s') || (s.Go? && s' == s)
  {
    hide Env.Parse, Env.Copy;
    var p := env.Parse(t, ip, mode);
    if p.Bad? {
      ParseNotOk(env, t, ip, mode);
    } else {
      ParseShort(env, n, t, ip, mode);
      if p.Match? {
        NoOkCopy(env, p, out);
        CopyShort(env, n, p, out);
      }
    }
  }

  lemma ParseNotOk(env: Env, t: nat, ip: nat, mode: Mode)
    requires 0 < ip <= |env.mem|
    ensures var p := env.Parse(t, ip, mode); p.Bad? ==> p.status != OK
  {
    CountNotOk(env, ip, 31);
    CountNotOk(env, ip, 7);
    hide Env.ReadCount, Env.ReadOffset;
  }

  lemma RunHeadShort(env: Env, n: nat, t: nat, ip: nat, out: seq<byte>)
    requires n < env.inLen && ip <= |env.mem| && t < 16
    requires var s := env.RunStep(t, ip, out); s.Go? || s.status == OK
    ensures
      var s, s' := env.RunStep(t, ip, out), env.(inLen := n).RunStep(t, ip, out);
      Short(s') || (s.Go? && s' == s)
  {
    hide Env.ReadCount, Env.Literals;
    CountNotOk(env, ip, 15);
    var c := if t == 0 then env.ReadCount(ip, 15) else Count(ip, t);
    if t == 0 {
      CountShort(env, n, ip, 15);
    }
    NoOkLiterals(env, c.ip, c.n + 3, AfterRun, out);
    LiteralsShort(env, n, c.ip, c.n + 3, AfterRun, out);
  }

  /** A step takes a stream cut short to where it went before, or finds the cut. */
  lemma StepShort(env: Env, n: nat, ip: nat, mode: Mode, out: seq<byte>)
    requires n < env.inLen && ip <= |env.mem|
    requires var s := env.Step(ip, mode, out); s.Go? || s.status == OK
    ensures
      var s, s' := env.Step(ip, mode, out), env.(inLen := n).Step(ip, mode, out);
      Short(s') || (s.Go? && s' == s)
  {
    hide Env.RunStep, Env.MatchStep;
    if mode == Top && env.mem[ip] < 16 {
      RunHeadShort(env, n, env.mem[ip], ip + 1, out);
    } else {
      MatchShort(env, n, env.mem[ip], ip + 1, mode, out);
    }
  }

  lemma {:induction false} RunShort(env: Env, n: nat, s: State)
    requires n < env.inLen && s.Go? && s.ip <= |env.mem| && env.Run(s).status == OK
    ensures Short(env.(inLen := n).Run(s))
    decreases |env.mem| - s.ip
  {
    var next := env.Step(s.ip, s.mode, s.out);
    StepShort(env, n, s.ip, s.mode, s.out);
    hide Env.Step;
    if next.Go? && env.(inLen := n).Step(s.ip, s.mode, s.out) == next {
      RunShort(env, n, next);
    }
  }

  /** A decoder on its way to success stands inside the stream. */
  lemma {:induction false} RunWithin(env: Env, s: State)
    requires s.Go? && s.ip <= |env.mem| && env.Run(s).status == OK
    ensures s.ip < env.inLen
    decreases |env.mem| - s.ip
  {
    hide Env.Step;
    var next := env.Step(s.ip, s.mode, s.out);
    if next.Go? {
      RunWithin(env, next);
    } else {
      LastWithin(env, s.ip, s.mode, s.out);
    }
  }

  lemma LastWithin(env: Env, ip: nat, mode: Mode, out: seq<byte>)
    requires ip <= |env.mem| && env.Step(ip, mode, out).Stop? && env.Step(ip, mode, out).status == OK
    ensures ip < env.inLen
  {
    hide Env.Parse, Env.RunStep, Env.Copy;
    if ip < |env.mem| {
      var p := env.Parse(env.mem[ip], ip + 1, mode);
      ParseNotOk(env, env.mem[ip], ip + 1, mode);
      if p.Match? {
        NoOkCopy(env, p, out);
      }
    }
  }

  lemma {:induction false} CountLong(env: Env, n: nat, ip: nat, acc: nat)
    requires env.inLen < n && env.ReadCount(ip, acc).Count? && env.ReadCount(ip, acc).ip <= env.inLen
    ensures env.(inLen := n).ReadCount(ip, acc) == env.ReadCount(ip, acc)
    decreases |env.mem| - ip
  {
    if env.mem[ip] == 0 {
      CountLong(env, n, ip + 1, acc + 255);
    }
  }

  lemma ParseLong(env: Env, n: nat, t: nat, ip: nat, mode: Mode)
    requires env.inLen < n && 0 < ip <= |env.mem|
    requires
      match env.Parse(t, ip, mode)
      case Bad(_) => false
      case Match(end, _, _) => end <= env.inLen
      case Eof(end) => end <= env.inLen
    ensures env.(inLen := n).Parse(t, ip, mode) == env.Parse(t, ip, mode)
  {
    hide Env.Parse, Env.ReadCount;
    ParseVia(env, env.(inLen := n), t, ip, mode);
    if 16 <= t < 64 {
      ParseEnd(env, t, ip, mode);
    }
    if 32 <= t < 64 && t % 32 == 0 {
      CountLong(env, n, ip, 31);
    } else if 16 <= t < 32 && t % 8 == 0 {
      CountLong(env, n, ip, 7);
    }
  }

  lemma CopyLong(env: Env, n: nat, p: Parsed, out: seq<byte>)
    requires env.inLen < n && p.Match? && 2 <= p.ip <= |env.mem| && p.off > 0
    requires env.Copy(p, out).Go? && env.Copy(p, out).ip <= env.inLen
    ensures env.(inLen := n).Copy(p, out) == env.Copy(p, out) && p.ip <= env.inLen
  {
    hide CopyVirtual;
  }

  lemma MatchLong(env: Env, n: nat, t: nat, ip: nat, mode: Mode, out: seq<byte>)
    requires env.inLen < n && 0 < ip <= |env.mem|
    requires var s := env.MatchStep(t, ip, mode, out); if s.Go? then s.ip <= env.inLen else s.status == OK
    ensures
      var s, s' := env.MatchStep(t, ip, mode, out), env.(inLen := n).MatchStep(t, ip, mode, out);
      s' == if s.Go? then s else Stop(INPUT_NOT_CONSUMED, s.out)
  {
    hide Env.Parse, Env.Copy;
    var p := env.Parse(t, ip, mode);
    ParseNotOk(env, t, ip, mode);
    if p.Match? {
      NoOkCopy(env, p, out);
      CopyLong(env, n, p, out);
    }
    ParseLong(env, n, t, ip, mode);
  }

  lemma RunHeadLong(env: Env, n: nat, t: nat, ip: nat, out: seq<byte>)
    requires env.inLen < n && ip <= |env.mem| && t < 16
    requires var s := env.RunStep(t, ip, out); if s.Go? then s.ip <= env.inLen else s.status == OK
    ensures env.RunStep(t, ip, out).Go? && env.(inLen := n).RunStep(t, ip, out) == env.RunStep(t, ip, out)
  {
    hide Env.ReadCount;
    CountNotOk(env, ip, 15);
    if t == 0 {
      CountLong(env, n, ip, 15);
    }
  }

  /** With more input to come a step goes where it went before, and success is input left over. */
  lemma StepLong(env: Env, n: nat, ip: nat, mode: Mode, out: seq<byte>)
    requires env.inLen < n && ip <= |env.mem|
    requires var s := env.Step(ip, mode, out); if s.Go? then s.ip <= env.inLen else s.status == OK
    ensures
      var s, s' := env.Step(ip, mode, out), env.(inLen := n).Step(ip, mode, out);
      s' == if s.Go? then s else Stop(INPUT_NOT_CONSUMED, s.out)
  {
    hide Env.RunStep, Env.MatchStep;
    if mode == Top && env.mem[ip] < 16 {
      RunHeadLong(env, n, env.mem[ip], ip + 1, out);
    } else {
      MatchLong(env, n, env.mem[ip], ip + 1, mode, out);
    }
  }

  lemma {:induction false} RunLong(env: Env, n: nat, s: State)
    requires env.inLen < n && s.Go? && s.ip <= |env.mem| && env.Run(s).status == OK
    ensures env.(inLen := n).Run(s) == Stop(INPUT_NOT_CONSUMED, env.Run(s).out)
    decreases |env.mem| - s.ip
  {
    var next := env.Step(s.ip, s.mode, s.out);
    if next.Go? {
      RunWithin(env, next);
    }
    StepLong(env, n, s.ip, s.mode, s.out);
    hide Env.Step;
    if next.Go? {
      RunLong(env, n, next);
    }
  }

  /** A stream decodes with its own length only: with less the decoder misses input, with more it reports what is left. */
  lemma LengthExact(env: Env, n: nat)
    requires env.Decode().status == OK
    ensures
      var r := env.(inLen := n).Decode();
      if n < env.inLen then Short(r)
      else if n == env.inLen then r == env.Decode()
      else r == Stop(INPUT_NOT_CONSUMED, env.Decode().out)
  {
    var s := env.Start();
    RunWithin(env, s);
    if n < env.inLen {
      assert var s' := env.(inLen := n).Start(); s' == s || Short(s');
      hide Env.Start;
      RunShort(env, n, s);
    } else if n > env.inLen {
      assert env.(inLen := n).Start() == s;
      hide Env.Start;
      RunLong(env, n, s);
    }
  }
}
