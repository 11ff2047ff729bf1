/** `lzo1x_decompress_dict_safe` and `lzo1y_decompress_dict_safe` (`lzo1x_d.ch` with the copy
    macros of `lzo1x_d3.c`): the decoder with a preset dictionary and overrun tests. */
module Lzo1xDecoder {
  import opened Bytes
  import opened Buffers
  import opened Lzo1xFormat
  import opened Lzo1xCopy

  datatype Status =
    | OK
    | INPUT_OVERRUN
    | OUTPUT_OVERRUN
    | LOOKBEHIND_OVERRUN
    | EOF_NOT_FOUND
    | INPUT_NOT_CONSUMED
    | ACCESS_FAULT // a read outside the memory the caller supplied

  /** The decoder stands before a marker, or has stopped. */
  datatype State =
    | Go(ip: nat, mode: Mode, out: seq<byte>)
    | Stop(status: Status, out: seq<byte>)

  /** A count read behind a zero length field. */
  datatype Count = Count(ip: nat, n: nat) | NoCount(status: Status)

  /** A match instruction read from the stream. */
  datatype Parsed = Match(ip: nat, off: nat, len: nat) | Eof(ip: nat) | Bad(status: Status)

  /** The fixed surroundings of one call: the memory at `in`, of which `inLen` bytes are the
      stream, the dictionary and the capacity of the output buffer. */
  datatype Env = Env(v: Variant, dict: seq<byte>, mem: seq<byte>, inLen: nat, cap: nat) {

    /** `NEED_IP`: the unsigned difference wraps when `ip` has passed the end already. */
    predicate NeedIp(ip: nat, x: nat) {
      ip > inLen || inLen - ip >= x
    }

    predicate NeedOp(out: seq<byte>, x: nat) {
      |out| + x <= cap
    }

    function At(i: nat): (b: nat)
      requires i < |mem|
      ensures b < 256
    {
      mem[i]
    }

    /** The loop that sums 255 for every zero byte. */
    function ReadCount(ip: nat, acc: nat): (c: Count)
      ensures c.Count? ==> ip < c.ip <= |mem| && c.n > acc
      decreases |mem| - ip
    {
      if !NeedIp(ip, 1) then NoCount(INPUT_OVERRUN)
      else if ip >= |mem| then NoCount(ACCESS_FAULT)
      else if mem[ip] == 0 then ReadCount(ip + 1, acc + 255)
      else Count(ip + 1, acc + mem[ip])
    }

    /** Length of an M3 or M4 match: in the marker, or counted behind it. */
    function ReadLength(ip: nat, field: nat, base: nat): (c: Count)
      requires ip <= |mem|
      ensures c.Count? ==> ip <= c.ip <= |mem| && c.n > 0
    {
      if field == 0 then ReadCount(ip, base) else Count(ip, field)
    }

    /** Offset bits of an M3 or M4 match, above the two literal-count bits. */
    function ReadOffset(ip: nat): (o: nat)
      requires ip + 2 <= |mem|
    {
      At(ip) / 4 + At(ip + 1) * 64
    }

    /** The match instruction with marker `t`, whose operands start at `ip`. */
    function Parse(t: nat, ip: nat, mode: Mode): (p: Parsed)
      requires 0 < ip <= |mem|
      ensures p.Match? ==> ip < p.ip <= |mem| && 2 <= p.ip && p.off > 0 && p.len >= 2
      ensures p.Eof? ==> ip < p.ip
    {
      if t >= 64 then
        if ip >= |mem| then Bad(ACCESS_FAULT)
        else if v.X? then Match(ip + 1, 1 + t / 4 % 8 + At(ip) * 8, t / 32 + 1)
        else Match(ip + 1, 1 + t / 4 % 4 + At(ip) * 4, t / 16 - 1)
      else if t >= 32 then
        var c := ReadLength(ip, t % 32, 31);
        if c.NoCount? then Bad(c.status)
        else if c.ip + 2 > |mem| then Bad(ACCESS_FAULT)
        else Match(c.ip + 2, 1 + ReadOffset(c.ip), c.n + 2)
      else if t >= 16 then
        var c := ReadLength(ip, t % 8, 7);
        if c.NoCount? then Bad(c.status)
        else if c.ip + 2 > |mem| then Bad(ACCESS_FAULT)
        else
          var o := t / 8 % 2 * 0x4000 + ReadOffset(c.ip);
          if o == 0 then Eof(c.ip + 2) else Match(c.ip + 2, 0x4000 + o, c.n + 2)
      else
        if ip >= |mem| then Bad(ACCESS_FAULT)
        else if mode == AfterRun then Match(ip + 1, 1 + v.M2MaxOffset() + t / 4 + At(ip) * 4, 3)
        else Match(ip + 1, 1 + t / 4 + At(ip) * 4, 2)
    }

    /** Copies `n` literals; a marker must follow them. */
    function Literals(ip: nat, n: nat, mode: Mode, out: seq<byte>): (s: State)
      ensures s.Go? ==> s.ip == ip + n <= |mem| && s.mode == mode && s.out == out + mem[ip..ip + n]
    {
      if !NeedOp(out, n) then Stop(OUTPUT_OVERRUN, out)
      else if !NeedIp(ip, n + 1) then Stop(INPUT_OVERRUN, out)
      else if ip + n > |mem| then Stop(ACCESS_FAULT, out)
      else Go(ip + n, mode, out + mem[ip..ip + n])
    }

    /** Copies a match, then the literals counted in the low bits of its second-last byte. */
    function Copy(p: Parsed, out: seq<byte>): (s: State)
      requires p.Match? && 2 <= p.ip <= |mem| && p.off > 0
      ensures s.Go? ==> p.ip <= s.ip <= |mem| && |out| + p.len <= |s.out|
    {
      if !NeedOp(out, p.len) then Stop(OUTPUT_OVERRUN, out)
      else if p.off > |dict| + |out| then Stop(LOOKBEHIND_OVERRUN, out)
      else
        var out' := CopyVirtual(dict, out, p.off, p.len);
        var t := mem[p.ip - 2] % 4;
        if t == 0 then Go(p.ip, Top, out') else Literals(p.ip, t, AfterLits, out')
    }

    function MatchStep(t: nat, ip: nat, mode: Mode, out: seq<byte>): (s: State)
      requires 0 < ip <= |mem|
      ensures s.Go? ==> ip < s.ip <= |mem|
    {
      var p := Parse(t, ip, mode);
      match p
      case Bad(status) => Stop(status, out)
      case Eof(end) => Stop(if end == inLen then OK else if end < inLen then INPUT_NOT_CONSUMED else INPUT_OVERRUN, out)
      case Match(_, _, _) => Copy(p, out)
    }

    /** The literal run with marker `t`. */
    function RunStep(t: nat, ip: nat, out: seq<byte>): (s: State)
      requires ip <= |mem| && t < 16
      ensures s.Go? ==> ip < s.ip <= |mem|
    {
      var c := if t == 0 then ReadCount(ip, 15) else Count(ip, t);
      if c.NoCount? then Stop(c.status, out) else Literals(c.ip, c.n + 3, AfterRun, out)
    }

    /** What the marker at `mem[ip]` does. */
    function Step(ip: nat, mode: Mode, out: seq<byte>): (s: State)
      requires ip <= |mem|
      ensures s.Go? ==> ip < s.ip <= |mem|
    {
      if mode == Top && ip >= inLen then Stop(EOF_NOT_FOUND, out)
      else if ip >= |mem| then Stop(ACCESS_FAULT, out)
      else if mode == Top && mem[ip] < 16 then RunStep(mem[ip], ip + 1, out)
      else if mode == AfterLits && ip + 1 >= inLen then Stop(EOF_NOT_FOUND, out)
      else MatchStep(mem[ip], ip + 1, mode, out)
    }

    /** A first byte above 17 is a literal run of its own. */
    function Start(): (s: State)
      ensures s.Go? ==> s.ip <= |mem|
    {
      if mem == [] then Stop(ACCESS_FAULT, [])
      else if mem[0] > 17 then Literals(1, mem[0] - 17, if mem[0] - 17 < 4 then AfterLits else AfterRun, [])
      else Go(0, Top, [])
    }

    function Run(s: State): (r: State)
      requires s.Go? ==> s.ip <= |mem|
      ensures r.Stop?
      decreases if s.Go? then |mem| - s.ip + 1 else 0
    {
      if s.Stop? then s else Run(Step(s.ip, s.mode, s.out))
    }

    function Decode(): (r: State)
      ensures r.Stop?
    {
      Run(Start())
    }
  }

  // ----- The decompression loop -----

  /** `NEED_IP` and the zero-counting loop. */
  method ScanCount(env: Env, ip: nat, base: nat) returns (c: Count)
    ensures c == env.ReadCount(ip, base)
  {
    var p, t := ip, base;
    if !env.NeedIp(p, 1) { return NoCount(INPUT_OVERRUN); }
    if p >= |env.mem| { return NoCount(ACCESS_FAULT); }
    while env.mem[p] == 0
      invariant p < |env.mem| && env.NeedIp(p, 1)
      invariant env.ReadCount(ip, base) == env.ReadCount(p, t)
      decreases |env.mem| - p
    {
      t, p := t + 255, p + 1;
      if !env.NeedIp(p, 1) { return NoCount(INPUT_OVERRUN); }
      if p >= |env.mem| { return NoCount(ACCESS_FAULT); }
    }
    return Count(p + 1, t + env.mem[p]);
  }

  /** Whether a loop turn goes on, or the status it stops with. */
  datatype Turn = Onward(ip: nat, mode: Mode) | Halt(status: Status)

  /** The output buffer holds the output of `s`, and `turn` is the rest of it. */
  ghost predicate Shows(out: array<byte>, op: nat, turn: Turn, s: State)
    reads out
  {
    && op <= out.Length
    && out[..op] == s.out
    && (turn.Onward? ==> s.Go? && s.ip == turn.ip && s.mode == turn.mode)
    && (turn.Halt? ==> s.Stop? && s.status == turn.status)
  }

  method CopyLiterals(env: Env, ip: nat, n: nat, mode: Mode, out: array<byte>, op: nat) returns (turn: Turn, op': nat)
    requires env.cap == out.Length && op <= out.Length
    modifies out
    ensures Shows(out, op', turn, env.Literals(ip, n, mode, old(out[..op])))
  {
    if env.cap - op < n { return Halt(OUTPUT_OVERRUN), op; }
    if !env.NeedIp(ip, n + 1) { return Halt(INPUT_OVERRUN), op; }
    if ip + n > |env.mem| { return Halt(ACCESS_FAULT), op; }
    CopyForward(out, op, env.mem, ip, n);
    return Onward(ip + n, mode), op + n;
  }

  method CopyMatchTurn(env: Env, p: Parsed, out: array<byte>, op: nat) returns (turn: Turn, op': nat)
    requires env.cap == out.Length && op <= out.Length
    requires p.Match? && 2 <= p.ip <= |env.mem| && p.off > 0
    modifies out
    ensures Shows(out, op', turn, env.Copy(p, old(out[..op])))
  {
    if env.cap - op < p.len { return Halt(OUTPUT_OVERRUN), op; }
    if p.off > |env.dict| + op { return Halt(LOOKBEHIND_OVERRUN), op; }
    CopyDict(env.dict, out, op, p.off, p.len);
    op' := op + p.len;
    var t: nat := env.mem[p.ip - 2] % 4;
    if t == 0 { return Onward(p.ip, Top), op'; }
    turn, op' := CopyLiterals(env, p.ip, t, AfterLits, out, op');
  }

  /** Reads the instruction with marker `t`: the four branches of the match loop. */
  method ReadMatch(env: Env, t: nat, ip: nat, mode: Mode) returns (p: Parsed)
    requires 0 < ip <= |env.mem|
    ensures p == env.Parse(t, ip, mode)
  {
    if t >= 64 || t < 16 {
      if ip >= |env.mem| { return Bad(ACCESS_FAULT); }
      var b := env.At(ip);
      if t < 16 {
        return if mode == AfterRun then Match(ip + 1, 1 + env.v.M2MaxOffset() + t / 4 + b * 4, 3)
               else Match(ip + 1, 1 + t / 4 + b * 4, 2);
      }
      return if env.v.X? then Match(ip + 1, 1 + t / 4 % 8 + b * 8, t / 32 + 1)
             else Match(ip + 1, 1 + t / 4 % 4 + b * 4, t / 16 - 1);
    }
    p := ReadLong(env, t, ip, mode);
  }

  method ReadLong(env: Env, t: nat, ip: nat, ghost mode: Mode) returns (p: Parsed)
    requires 0 < ip <= |env.mem| && 16 <= t < 64
    ensures p == env.Parse(t, ip, mode)
  {
    hide Env.ReadCount;
    var mask, base := if t >= 32 then 32 else 8, if t >= 32 then 31 else 7;
    var c := Count(ip, t % mask);
    if t % mask == 0 {
      c := ScanCount(env, ip, base);
    }
    assert c == env.ReadLength(ip, t % mask, base);
    hide Env.ReadLength, Env.ReadOffset;
    if c.NoCount? { return Bad(c.status); }
    if c.ip + 2 > |env.mem| { return Bad(ACCESS_FAULT); }
    var o := env.ReadOffset(c.ip);
    if t >= 32 { return Match(c.ip + 2, 1 + o, c.n + 2); }
    o := o + t / 8 % 2 * 0x4000;
    if o == 0 { return Eof(c.ip + 2); }
    return Match(c.ip + 2, 0x4000 + o, c.n + 2);
  }

  method TakeTurn(env: Env, ip: nat, mode: Mode, out: array<byte>, op: nat) returns (turn: Turn, op': nat)
    requires env.cap == out.Length && op <= out.Length && ip <= |env.mem|
    modifies out
    ensures Shows(out, op', turn, env.Step(ip, mode, old(out[..op])))
  {
    hide Env.RunStep, Env.MatchStep;
    if mode == Top && ip >= env.inLen { return Halt(EOF_NOT_FOUND), op; }
    if ip >= |env.mem| { return Halt(ACCESS_FAULT), op; }
    var t: nat := env.mem[ip];
    if mode == Top && t < 16 {
      turn, op' := RunTurn(env, t, ip + 1, out, op);
      return;
    }
    if mode == AfterLits && ip + 1 >= env.inLen { return Halt(EOF_NOT_FOUND), op; }
    turn, op' := MatchTurn(env, t, ip + 1, mode, out, op);
  }

  method RunTurn(env: Env, t: nat, ip: nat, out: array<byte>, op: nat) returns (turn: Turn, op': nat)
    requires env.cap == out.Length && op <= out.Length && ip <= |env.mem| && t < 16
    modifies out
    ensures Shows(out, op', turn, env.RunStep(t, ip, old(out[..op])))
  {
    hide Env.ReadCount, Env.Literals;
    var c := Count(ip, t);
    if t == 0 {
      c := ScanCount(env, ip, 15);
    }
    if c.NoCount? { return Halt(c.status), op; }
    turn, op' := CopyLiterals(env, c.ip, c.n + 3, AfterRun, out, op);
  }

  method MatchTurn(env: Env, t: nat, ip: nat, mode: Mode, out: array<byte>, op: nat) returns (turn: Turn, op': nat)
    requires env.cap == out.Length && op <= out.Length && 0 < ip <= |env.mem|
    modifies out
    ensures Shows(out, op', turn, env.MatchStep(t, ip, mode, old(out[..op])))
  {
    hide Env.Parse, Env.Copy;
    var p := ReadMatch(env, t, ip, mode);
    match p {
      case Bad(status) => return Halt(status), op;
      case Eof(end) =>
        return Halt(if end == env.inLen then OK else if end < env.inLen then INPUT_NOT_CONSUMED else INPUT_OVERRUN), op;
      case Match(_, _, _) => turn, op' := CopyMatchTurn(env, p, out, op);
    }
  }

  /** Only the last `M4_MAX_OFFSET` bytes of a dictionary can be reached. */
  function Preset(dict: seq<byte>): (r: seq<byte>)
    ensures |r| <= M4_MAX_OFFSET && |r| <= |dict| && r == dict[|dict| - |r|..]
    ensures |r| == |dict| || |r| == 49151
  {
    if |dict| > M4_MAX_OFFSET then dict[|dict| - M4_MAX_OFFSET..] else dict
  }

  /** `lzo1x_decompress_dict_safe`. */
  method DecompressDictSafe(v: Variant, dict: seq<byte>, mem: seq<byte>, inLen: nat, out: array<byte>)
    returns (status: Status, outLen: nat)
    requires inLen <= |mem|
    modifies out
    ensures var r := Env(v, Preset(dict), mem, inLen, out.Length).Decode();
            status == r.status && outLen <= out.Length && out[..outLen] == r.out
  {
    var env := Env(v, Preset(dict), mem, inLen, out.Length);
    ghost var result := env.Decode();
    var turn, op: nat := Onward(0, Top), 0;
    if mem == [] { return ACCESS_FAULT, 0; }
    if mem[0] > 17 {
      var t: nat := mem[0];
      t := t - 17;
      turn, op := CopyLiterals(env, 1, t, if t < 4 then AfterLits else AfterRun, out, 0);
    }
    while turn.Onward?
      invariant op <= out.Length
      invariant turn.Onward? ==> turn.ip <= |mem| && env.Run(Go(turn.ip, turn.mode, out[..op])) == result
      invariant turn.Halt? ==> result == Stop(turn.status, out[..op])
      decreases if turn.Onward? then |mem| - turn.ip + 1 else 0
    {
      turn, op := TakeTurn(env, turn.ip, turn.mode, out, op);
    }
    return turn.status, op;
  }

  // ----- Reads behind the stream -----

  /** How far behind the stream the decoder can stand: not at all after a run, by the operands of one
      match before a marker that is tested, and by three literals more before one that is not. */
  predicate Near(env: Env, s: State) {
    match s
    case Stop(status, _) => status != ACCESS_FAULT
    case Go(ip, mode, _) => ip <= match mode case Top => env.inLen + 2 case AfterLits => env.inLen + 5 case AfterRun => env.inLen - 1
  }

  lemma {:induction false} CountNear(env: Env, ip: nat, acc: nat)
    requires ip <= env.inLen <= |env.mem|
    ensures
      var c := env.ReadCount(ip, acc);
      if c.Count? then c.ip <= env.inLen else c.status == INPUT_OVERRUN
    decreases env.inLen - ip
  {
    if ip < env.inLen && env.mem[ip] == 0 {
      CountNear(env, ip + 1, acc + 255);
    }
  }

  lemma ParseNear(env: Env, t: nat, ip: nat, mode: Mode)
    requires 0 < ip <= env.inLen && env.inLen + 6 <= |env.mem|
    ensures
      var p := env.Parse(t, ip, mode);
      match p
      case Bad(status) => status != ACCESS_FAULT
      case Match(end, _, _) => end <= env.inLen + 2
      case Eof(_) => true
  {
    CountNear(env, ip, 31);
    CountNear(env, ip, 7);
    hide Env.ReadCount;
  }

  lemma LiteralsNear(env: Env, ip: nat, n: nat, mode: Mode, out: seq<byte>)
    requires env.inLen + 6 <= |env.mem|
    requires if mode == AfterRun then ip <= env.inLen else mode == AfterLits && ip <= env.inLen + 2 && n <= 3
    ensures Near(env, env.Literals(ip, n, mode, out))
  {
  }

  lemma MatchNear(env: Env, t: nat, ip: nat, mode: Mode, out: seq<byte>)
    requires 0 < ip <= env.inLen && env.inLen + 6 <= |env.mem|
    ensures Near(env, env.MatchStep(t, ip, mode, out))
  {
    ParseNear(env, t, ip, mode);
    hide Env.Parse, CopyVirtual, Env.Literals;
    var p := env.Parse(t, ip, mode);
    if p.Match? && env.NeedOp(out, p.len) && p.off <= |env.dict| + |out| {
      LiteralsNear(env, p.ip, env.mem[p.ip - 2] % 4, AfterLits, CopyVirtual(env.dict, out, p.off, p.len));
    }
  }

  lemma RunHeadNear(env: Env, t: nat, ip: nat, out: seq<byte>)
    requires ip <= env.inLen && env.inLen + 6 <= |env.mem| && t < 16
    ensures Near(env, env.RunStep(t, ip, out))
  {
    CountNear(env, ip, 15);
    hide Env.ReadCount, Env.Literals;
    var c := if t == 0 then env.ReadCount(ip, 15) else Count(ip, t);
    if c.Count? {
      LiteralsNear(env, c.ip, c.n + 3, AfterRun, out);
    }
  }

  lemma StepNear(env: Env, ip: nat, mode: Mode, out: seq<byte>)
    requires env.inLen + 6 <= |env.mem| && ip <= |env.mem| && Near(env, Go(ip, mode, out))
    ensures Near(env, env.Step(ip, mode, out))
  {
    hide Env.MatchStep, Env.RunStep;
    if ip < env.inLen {
      MatchNear(env, env.mem[ip], ip + 1, mode, out);
      if env.mem[ip] < 16 {
        RunHeadNear(env, env.mem[ip], ip + 1, out);
      }
    }
  }

  lemma {:induction false} RunNear(env: Env, s: State)
    requires env.inLen + 6 <= |env.mem| && (s.Go? ==> s.ip <= |env.mem|) && Near(env, s)
    ensures env.Run(s).status != ACCESS_FAULT
    decreases if s.Go? then |env.mem| - s.ip + 1 else 0
  {
    if s.Go? {
      StepNear(env, s.ip, s.mode, s.out);
      hide Near, Env.Step;
      RunNear(env, env.Step(s.ip, s.mode, s.out));
    }
  }

  /** With six readable bytes behind a stream that is not empty, the decoder reads nothing else. */
  lemma SixSuffice(env: Env)
    requires 0 < env.inLen && env.inLen + 6 <= |env.mem|
    ensures env.Decode().status != ACCESS_FAULT
  {
    assert Near(env, env.Start());
    hide Near, Env.Start;
    RunNear(env, env.Start());
  }

  /** Four literals, then a match that ends with the stream but for its offset, which counts three literals. */
  function Cut(v: Variant, k: nat): (env: Env)
    requires k < 6
    ensures env.inLen == 6 && |env.mem| == 6 + k
  {
    Env(v, [], [21, 1, 2, 3, 4, 33] + [3, 0, 5, 6, 7][..k], 6, 16)
  }

  lemma CutRun(v: Variant, k: nat)
    requires k < 6
    ensures
      var env := Cut(v, k);
      |env.mem[1..5]| == 4 && env.Decode() == env.Run(env.Step(5, AfterRun, env.mem[1..5]))
  {
    hide Env.Step, Env.Parse;
    var env := Cut(v, k);
    assert env.mem[0] == 21;
    assert env.Start() == Go(5, AfterRun, env.mem[1..5]);
    assert env.Run(Go(5, AfterRun, env.mem[1..5])) == env.Run(env.Step(5, AfterRun, env.mem[1..5]));
  }

  lemma CutMatch(v: Variant, k: nat, out: seq<byte>)
    requires k < 6 && |out| == 4
    ensures
      var s := Cut(v, k).Step(5, AfterRun, out);
      if k < 5 then s.Stop? && s.status == ACCESS_FAULT else s.Go? && s.ip == 11 && s.mode == AfterLits
  {
    var env := Cut(v, k);
    hide CopyVirtual, Env.ReadCount;
    assert env.mem[5] == 33;
    assert env.ReadLength(6, 1, 31) == Count(6, 1);
    if k >= 2 {
      assert env.mem[6] == 3 && env.mem[7] == 0;
      assert env.Parse(33, 6, AfterRun) == Match(8, 1, 3);
    }
  }

  /** With fewer, it reads behind them. */
  lemma FewerFail(v: Variant, k: nat)
    requires k < 6
    ensures Cut(v, k).Decode().status == ACCESS_FAULT
  {
    var env := Cut(v, k);
    var out := env.mem[1..5];
    CutRun(v, k);
    CutMatch(v, k, out);
    var s := env.Step(5, AfterRun, out);
    if k == 5 {
      assert env.Step(11, AfterLits, s.out) == Stop(ACCESS_FAULT, s.out);
    }
    hide Cut, Env.Step, Env.Decode;
  }

  /** Six bytes is the exact margin that a caller must leave readable behind the stream. */
  lemma MarginExact(v: Variant, k: nat)
    ensures (forall env: Env :: env.v == v && 0 < env.inLen && |env.mem| == env.inLen + k ==> env.Decode().status != ACCESS_FAULT)
       <==> k >= 6
  {
    if k >= 6 {
      forall env: Env | env.v == v && 0 < env.inLen && |env.mem| == env.inLen + k
        ensures env.Decode().status != ACCESS_FAULT
      {
        SixSuffice(env);
      }
    } else {
      FewerFail(v, k);
    }
  }
}
