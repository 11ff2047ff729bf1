/** The LZO2A-999 codec: the encoder of `lzo2a_9x.c` over the sliding-window match finder, and
    the safe decoder of `lzo2a_d.ch`. */
module Lzo2a {
  import opened Bytes
  import opened Lz77
  import opened BitStream
  import opened Buffers
  import opened MatchFinder

  const N: nat := 8191
  const LOOKAHEAD: nat := 2048
  const M1_MIN_LEN: nat := 2
  const M1_MAX_LEN: nat := 5

  // ----- Tokens and how they are written -----

  datatype Token = Lit(x: byte) | Match(len: nat, off: nat)

  predicate IsM1(len: nat, off: nat) {
    M1_MIN_LEN <= len <= M1_MAX_LEN && off <= 256
  }

  predicate Codable(t: Token) {
    t.Match? ==> 0 < t.off <= N && (t.len >= 3 || IsM1(t.len, t.off))
  }

  function ByteOps(s: seq<byte>): (r: seq<Op>)
    ensures |r| == |s|
  {
    seq(|s|, i requires 0 <= i < |s| => Byte(s[i]))
  }

  function TokenOps(t: Token): (r: seq<Op>)
    requires Codable(t)
    ensures forall i :: 0 <= i < |r| ==> Proper(r[i])
  {
    assert Pow2(1) == 2 && Pow2(2) == 4;
    match t
    case Lit(x) => [Bits(1, 0), Byte(x)]
    case Match(len, off) =>
      if IsM1(len, off) then
        [Bits(1, 1), Bits(1, 0), Bits(2, len - M1_MIN_LEN), Byte(off - 1)]
      else if len <= 9 then
        [Bits(1, 1), Bits(1, 1), Byte((len - 2) * 32 + off % 32), Byte(off / 32)]
      else
        [Bits(1, 1), Bits(1, 1), Byte(off % 32), Byte(off / 32)] + ByteOps(LongCode(len - 9))
  }

  const EOF_OPS: seq<Op> := [Bits(1, 1), Bits(1, 1), Byte(32), Byte(0)]

  function AllOps(ts: seq<Token>): seq<Op>
    requires forall i :: 0 <= i < |ts| ==> Codable(ts[i])
  {
    if ts == [] then [] else TokenOps(ts[0]) + AllOps(ts[1..])
  }

  function Apply(out: seq<byte>, t: Token): seq<byte>
    requires t.Match? ==> 0 < t.off <= |out|
  {
    match t
    case Lit(x) => out + [x]
    case Match(len, off) => CopyMatch(out, off, len)
  }

  // ----- Decoding -----

  datatype Status =
    | OK
    | INPUT_OVERRUN
    | OUTPUT_OVERRUN
    | LOOKBEHIND_OVERRUN
    | EOF_NOT_FOUND
    | INPUT_NOT_CONSUMED

  datatype State = Go(r: Reader, out: seq<byte>) | Stop(status: Status, out: seq<byte>)

  datatype Count = Count(ip: nat, n: nat) | NoCount

  function ReadCount(mem: seq<byte>, ip: nat, acc: nat): (c: Count)
    ensures c.Count? ==> ip < c.ip <= |mem|
    decreases |mem| - ip
  {
    if ip >= |mem| then NoCount
    else if mem[ip] == 0 then ReadCount(mem, ip + 1, acc + 255)
    else Count(ip + 1, acc + mem[ip])
  }

  function LiteralStep(mem: seq<byte>, buf: seq<byte>, r: Reader, out: seq<byte>): State {
    var g := GetByte(mem, r);
    if g.Short? then Stop(INPUT_OVERRUN, out)
    else if |out| >= |buf| then Stop(OUTPUT_OVERRUN, out)
    else Go(g.next, out + [mem[r.ip]])
  }

  function M1Step(mem: seq<byte>, buf: seq<byte>, r: Reader, out: seq<byte>): State {
    var g := GetBits(mem, r, 2);
    if g.Short? then Stop(INPUT_OVERRUN, out)
    else
      var len := M1_MIN_LEN + g.x;
      var d := GetByte(mem, g.next);
      if d.Short? then Stop(INPUT_OVERRUN, out)
      else if |out| + len > |buf| then Stop(OUTPUT_OVERRUN, out)
      else if 1 + d.x > |out| then Stop(LOOKBEHIND_OVERRUN, out)
      else Go(d.next, CopyMatch(out, 1 + d.x, len))
  }

  /** A long match with offset zero copies what the output buffer `buf` held before onto itself. */
  function CopyStep(buf: seq<byte>, r: Reader, off: nat, len: nat, out: seq<byte>): State {
    if off > |out| then Stop(LOOKBEHIND_OVERRUN, out)
    else if |out| + len > |buf| then Stop(OUTPUT_OVERRUN, out)
    else Go(r, if off == 0 then out + buf[|out|..|out| + len] else CopyMatch(out, off, len))
  }

  function OffsetAt(mem: seq<byte>, ip: nat): (off: nat)
    requires ip + 2 <= |mem|
  {
    var lo: nat, hi: nat := mem[ip], mem[ip + 1];
    lo % 32 + hi * 32
  }

  function LongStep(mem: seq<byte>, buf: seq<byte>, r: Reader, out: seq<byte>): State {
    if r.ip + 2 > |mem| then Stop(INPUT_OVERRUN, out)
    else
      var off := OffsetAt(mem, r.ip);
      var t := mem[r.ip] / 32;
      if t == 0 then
        var c := ReadCount(mem, r.ip + 2, 9);
        if c.NoCount? then Stop(INPUT_OVERRUN, out) else CopyStep(buf, r.(ip := c.ip), off, c.n, out)
      else if off == 0 then
        Stop(if r.ip + 2 == |mem| then OK else INPUT_NOT_CONSUMED, out)
      else
        CopyStep(buf, r.(ip := r.ip + 2), off, t + 2, out)
  }

  /** One turn of the decompression loop. */
  function Step(mem: seq<byte>, buf: seq<byte>, r: Reader, out: seq<byte>): (s: State)
    ensures s.Go? ==> r.ip < s.r.ip <= |mem|
  {
    if r.ip >= |mem| then Stop(EOF_NOT_FOUND, out)
    else
      var g := GetBits(mem, r, 1);
      if g.Short? then Stop(INPUT_OVERRUN, out)
      else if g.x == 0 then LiteralStep(mem, buf, g.next, out)
      else
        var h := GetBits(mem, g.next, 1);
        if h.Short? then Stop(INPUT_OVERRUN, out)
        else if h.x == 0 then M1Step(mem, buf, h.next, out)
        else LongStep(mem, buf, h.next, out)
  }

  function Run(mem: seq<byte>, buf: seq<byte>, r: Reader, out: seq<byte>): (s: State)
    ensures s.Stop?
    decreases |mem| - r.ip
  {
    var s := Step(mem, buf, r, out);
    if s.Stop? then s else Run(mem, buf, s.r, s.out)
  }

  // ----- Reading tokens back -----

  lemma {:induction false} BytesRead(mem: seq<byte>, r: Reader, s: seq<byte>)
    requires Recover(mem, r, ByteOps(s)).Some?
    ensures r.ip + |s| <= |mem| || s == []
    ensures s != [] ==> mem[r.ip..r.ip + |s|] == s
    ensures Recover(mem, r, ByteOps(s)) == Some(r.(ip := r.ip + |s|))
    decreases |s|
  {
    if s != [] {
      assert ByteOps(s)[1..] == ByteOps(s[1..]);
      assert ByteOps(s)[0] == Byte(s[0]);
      BytesRead(mem, r.(ip := r.ip + 1), s[1..]);
      assert mem[r.ip..r.ip + |s|] == [mem[r.ip]] + mem[r.ip + 1..r.ip + 1 + |s[1..]|];
    }
  }

  lemma {:induction false} CountRead(mem: seq<byte>, ip: nat, acc: nat, n: nat)
    requires 0 < n && ip + |LongCode(n)| <= |mem|
    requires mem[ip..ip + |LongCode(n)|] == LongCode(n)
    ensures ReadCount(mem, ip, acc) == Count(ip + |LongCode(n)|, acc + n)
    decreases n
  {
    var code := LongCode(n);
    assert mem[ip] == mem[ip..ip + |code|][0];
    if n > 255 {
      var rest := LongCode(n - 255);
      assert code == [0] + rest;
      assert mem[ip + 1..ip + 1 + |rest|] == mem[ip..ip + |code|][1..];
      CountRead(mem, ip + 1, acc + 255, n - 255);
    }
  }

  /** Two leading operations, read one after the other. */
  lemma RecoverTwo(mem: seq<byte>, r: Reader, a: Op, b: Op, rest: seq<Op>)
    requires Recover(mem, r, [a, b] + rest).Some?
    ensures var g := Get(mem, r, a);
            && g.Got? && g.x == a.x
            && Get(mem, g.next, b).Got? && Get(mem, g.next, b).x == b.x
            && Recover(mem, r, [a, b] + rest) == Recover(mem, Get(mem, g.next, b).next, rest)
  {
    var ops := [a, b] + rest;
    assert ops[1..] == [b] + rest;
    assert ([b] + rest)[1..] == rest;
  }

  /** A token that was put is decoded as that token. */
  lemma TokenStep(mem: seq<byte>, buf: seq<byte>, r: Reader, out: seq<byte>, t: Token, r': Reader)
    requires Codable(t) && (t.Match? ==> t.off <= |out|)
    requires |Apply(out, t)| <= |buf|
    requires Recover(mem, r, TokenOps(t)) == Some(r')
    ensures Step(mem, buf, r, out) == Go(r', Apply(out, t))
  {
    hide GetBits, CopyMatch;
    var ops := TokenOps(t);
    if t.Lit? {
      assert ops == [Bits(1, 0), Byte(t.x)] + [];
      RecoverTwo(mem, r, Bits(1, 0), Byte(t.x), []);
    } else if IsM1(t.len, t.off) {
      var tail := [Bits(2, t.len - M1_MIN_LEN), Byte(t.off - 1)];
      assert ops == [Bits(1, 1), Bits(1, 0)] + tail;
      RecoverTwo(mem, r, Bits(1, 1), Bits(1, 0), tail);
      var r2 := GetBits(mem, GetBits(mem, r, 1).next, 1).next;
      assert tail == tail + [];
      RecoverTwo(mem, r2, tail[0], tail[1], []);
    } else {
      MatchStep(mem, buf, r, out, t, r');
    }
  }

  lemma MatchStep(mem: seq<byte>, buf: seq<byte>, r: Reader, out: seq<byte>, t: Token, r': Reader)
    requires Codable(t) && t.Match? && !IsM1(t.len, t.off) && t.off <= |out|
    requires |out| + t.len <= |buf|
    requires Recover(mem, r, TokenOps(t)) == Some(r')
    ensures Step(mem, buf, r, out) == Go(r', CopyMatch(out, t.off, t.len))
  {
    hide GetBits, LongCode, LongStep;
    var tail := LongOps(t);
    assert TokenOps(t) == [Bits(1, 1), Bits(1, 1)] + tail;
    RecoverTwo(mem, r, Bits(1, 1), Bits(1, 1), tail);
    var r2 := GetBits(mem, GetBits(mem, r, 1).next, 1).next;
    LongRead(mem, buf, r2, out, t, r');
  }

  /** The bytes of a two- or three-byte match. */
  function LongOps(t: Token): seq<Op>
    requires Codable(t) && t.Match? && !IsM1(t.len, t.off)
  {
    var marker := if t.len <= 9 then (t.len - 2) * 32 + t.off % 32 else t.off % 32;
    [Byte(marker), Byte(t.off / 32)] + ByteOps(if t.len <= 9 then [] else LongCode(t.len - 9))
  }

  lemma LongRead(mem: seq<byte>, buf: seq<byte>, r: Reader, out: seq<byte>, t: Token, r': Reader)
    requires Codable(t) && t.Match? && !IsM1(t.len, t.off) && t.off <= |out|
    requires |out| + t.len <= |buf|
    requires Recover(mem, r, LongOps(t)) == Some(r')
    ensures LongStep(mem, buf, r, out) == Go(r', CopyMatch(out, t.off, t.len)) && r.ip < |mem|
  {
    hide Recover, LongOps, CopyMatch, ReadCount, OffsetAt, CopyStep;
    LongBytes(mem, r, t, r');
    CopyGoes(buf, r', t.off, t.len, out);
  }

  lemma CopyGoes(buf: seq<byte>, r: Reader, off: nat, len: nat, out: seq<byte>)
    requires 0 < off <= |out| && |out| + len <= |buf|
    ensures CopyStep(buf, r, off, len, out) == Go(r, CopyMatch(out, off, len))
  {
    hide CopyMatch;
  }

  lemma LongBytes(mem: seq<byte>, r: Reader, t: Token, r': Reader)
    requires Codable(t) && t.Match? && !IsM1(t.len, t.off)
    requires Recover(mem, r, LongOps(t)) == Some(r')
    ensures r.ip + 2 <= |mem| && OffsetAt(mem, r.ip) == t.off
    ensures r' == r.(ip := r'.ip)
    ensures t.len <= 9 ==> mem[r.ip] / 32 == t.len - 2 && r'.ip == r.ip + 2
    ensures t.len > 9 ==> mem[r.ip] / 32 == 0 && ReadCount(mem, r.ip + 2, 9) == Count(r'.ip, t.len)
  {
    hide LongCode, ReadCount, Recover, ByteOps, LongOps;
    LongHead(mem, r, t);
    var count: seq<byte> := if t.len <= 9 then [] else LongCode(t.len - 9);
    BytesRead(mem, r.(ip := r.ip + 2), count);
    if t.len > 9 {
      CountRead(mem, r.ip + 2, 9, t.len - 9);
    }
  }

  lemma LongHead(mem: seq<byte>, r: Reader, t: Token)
    requires Codable(t) && t.Match? && !IsM1(t.len, t.off)
    requires Recover(mem, r, LongOps(t)).Some?
    ensures r.ip + 2 <= |mem| && OffsetAt(mem, r.ip) == t.off && mem[r.ip] / 32 == if t.len <= 9 then t.len - 2 else 0
    ensures Recover(mem, r, LongOps(t))
         == Recover(mem, r.(ip := r.ip + 2), ByteOps(if t.len <= 9 then [] else LongCode(t.len - 9)))
  {
    hide LongCode, Recover, ByteOps, GetBits;
    var marker := if t.len <= 9 then (t.len - 2) * 32 + t.off % 32 else t.off % 32;
    assert marker % 32 == t.off % 32;
    RecoverTwo(mem, r, Byte(marker), Byte(t.off / 32), ByteOps(if t.len <= 9 then [] else LongCode(t.len - 9)));
  }

  lemma EofStep(mem: seq<byte>, buf: seq<byte>, r: Reader, out: seq<byte>, r': Reader)
    requires Recover(mem, r, EOF_OPS) == Some(r') && r'.ip == |mem|
    ensures Step(mem, buf, r, out) == Stop(OK, out)
  {
    hide GetBits;
    var tail := [Byte(32), Byte(0)];
    assert EOF_OPS == [Bits(1, 1), Bits(1, 1)] + tail;
    RecoverTwo(mem, r, Bits(1, 1), Bits(1, 1), tail);
    var r2 := GetBits(mem, GetBits(mem, r, 1).next, 1).next;
    assert tail == tail + [];
    RecoverTwo(mem, r2, Byte(32), Byte(0), []);
  }

  /** `ts` turns the output `out` into `text`. */
  ghost predicate Expands(out: seq<byte>, ts: seq<Token>, text: seq<byte>)
    decreases |ts|
  {
    if ts == [] then out == text
    else
      && Codable(ts[0])
      && (ts[0].Match? ==> ts[0].off <= |out|)
      && Expands(Apply(out, ts[0]), ts[1..], text)
  }

  lemma {:induction false} ExpandsGrows(out: seq<byte>, ts: seq<Token>, text: seq<byte>)
    requires Expands(out, ts, text)
    ensures |out| <= |text|
    ensures forall i :: 0 <= i < |ts| ==> Codable(ts[i])
    decreases |ts|
  {
    if ts != [] {
      ExpandsGrows(Apply(out, ts[0]), ts[1..], text);
    }
  }

  lemma {:induction false} ExpandsAppend(out: seq<byte>, ts: seq<Token>, text: seq<byte>, t: Token)
    requires Expands(out, ts, text)
    requires Codable(t) && (t.Match? ==> t.off <= |text|)
    ensures Expands(out, ts + [t], Apply(text, t))
    decreases |ts|
  {
    if ts == [] {
      assert ts + [t] == [t];
      assert [t][1..] == [];
    } else {
      assert (ts + [t])[1..] == ts[1..] + [t];
      ExpandsAppend(Apply(out, ts[0]), ts[1..], text, t);
    }
  }

  lemma {:induction false} AllOpsAppend(ts: seq<Token>, t: Token)
    requires forall i :: 0 <= i < |ts| ==> Codable(ts[i])
    requires Codable(t)
    ensures forall i :: 0 <= i < |ts + [t]| ==> Codable((ts + [t])[i])
    ensures AllOps(ts + [t]) == AllOps(ts) + TokenOps(t)
    decreases |ts|
  {
    hide TokenOps;
    if ts == [] {
      assert ts + [t] == [t];
      assert AllOps([t][1..]) == [];
    } else {
      assert (ts + [t])[1..] == ts[1..] + [t];
      AllOpsAppend(ts[1..], t);
    }
  }

  /** A stream that recovers the operations of `ts` and the end code decodes to their text, with
      status OK, in a buffer of the text's size. */
  lemma {:induction false} DecodeTokens(mem: seq<byte>, buf: seq<byte>, r: Reader, out: seq<byte>, ts: seq<Token>, text: seq<byte>)
    requires Expands(out, ts, text)
    requires forall i :: 0 <= i < |ts| ==> Codable(ts[i])
    requires var e := Recover(mem, r, AllOps(ts) + EOF_OPS); e.Some? && e.value.ip == |mem|
    requires |buf| == |text|
    ensures Run(mem, buf, r, out) == Stop(OK, text)
    decreases |ts|
  {
    hide Recover, Step, TokenOps, Apply;
    if ts == [] {
      assert AllOps(ts) + EOF_OPS == EOF_OPS;
      EofStep(mem, buf, r, out, Recover(mem, r, EOF_OPS).value);
    } else {
      var first, rest := TokenOps(ts[0]), AllOps(ts[1..]) + EOF_OPS;
      assert AllOps(ts) + EOF_OPS == first + rest;
      RecoverPrefix(mem, r, first, rest);
      var r' := Recover(mem, r, first).value;
      ExpandsGrows(Apply(out, ts[0]), ts[1..], text);
      TokenStep(mem, buf, r, out, ts[0], r');
      DecodeTokens(mem, buf, r', Apply(out, ts[0]), ts[1..], text);
    }
  }

  lemma {:induction false} RecoverPrefix(mem: seq<byte>, s: Reader, a: seq<Op>, b: seq<Op>)
    requires Recover(mem, s, a + b).Some?
    ensures Recover(mem, s, a).Some?
    ensures Recover(mem, s, a + b) == Recover(mem, Recover(mem, s, a).value, b)
    decreases |a|
  {
    if a == [] {
      assert a + b == b;
    } else {
      assert (a + b)[1..] == a[1..] + b;
      RecoverPrefix(mem, Get(mem, s, a[0]).next, a[1..], b);
    }
  }

  // ----- The decompression loop -----

  /** From `op` on, the output buffer still holds what it did before the call. */
  ghost predicate Rests(out: array<byte>, op: nat, buf: seq<byte>)
    reads out
  {
    op <= out.Length == |buf| && forall k :: op <= k < |buf| ==> out[k] == buf[k]
  }

  /** The output buffer and reader show the state `s`. */
  ghost predicate Shows(out: array<byte>, op: nat, buf: seq<byte>, r: Reader, halt: Option<Status>, s: State)
    reads out
  {
    && Rests(out, op, buf) && out[..op] == s.out
    && (halt.None? ==> s.Go? && s.r == r)
    && (halt.Some? ==> s.Stop? && s.status == halt.value)
  }

  method ScanCount(mem: seq<byte>, ip: nat, base: nat) returns (c: Count)
    ensures c == ReadCount(mem, ip, base)
  {
    var p, t := ip, base;
    if p >= |mem| { return NoCount; }
    while mem[p] == 0
      invariant p < |mem| && ReadCount(mem, ip, base) == ReadCount(mem, p, t)
      decreases |mem| - p
    {
      t, p := t + 255, p + 1;
      if p >= |mem| { return NoCount; }
    }
    return Count(p + 1, t + mem[p]);
  }

  /** `MEMMOVE_DS` with nothing in between. */
  method CopyOnto(out: array<byte>, op: nat, len: nat)
    requires op + len <= out.Length
    modifies out
    ensures out[..] == old(out[..])
  {
    for i := 0 to len
      invariant out[..] == old(out[..])
    {
      out[op + i] := out[op + i];
    }
  }

  method CopyTurn(out: array<byte>, op: nat, ghost buf: seq<byte>, r: Reader, off: nat, len: nat)
    returns (r': Reader, halt: Option<Status>, op': nat)
    requires Rests(out, op, buf)
    modifies out
    ensures Shows(out, op', buf, r', halt, CopyStep(buf, r, off, len, old(out[..op])))
  {
    if off > op { return r, Some(LOOKBEHIND_OVERRUN), op; }
    if out.Length - op < len { return r, Some(OUTPUT_OVERRUN), op; }
    if off == 0 {
      CopyOnto(out, op, len);
      assert out[..op + len] == old(out[..op]) + buf[op..op + len];
    } else {
      CopyOverlap(out, op, off, len);
    }
    return r, None, op + len;
  }

  method LongTurn(mem: seq<byte>, out: array<byte>, op: nat, ghost buf: seq<byte>, r: Reader)
    returns (r': Reader, halt: Option<Status>, op': nat)
    requires Rests(out, op, buf)
    modifies out
    ensures Shows(out, op', buf, r', halt, LongStep(mem, buf, r, old(out[..op])))
  {
    hide CopyStep, ReadCount, OffsetAt;
    if r.ip + 2 > |mem| { return r, Some(INPUT_OVERRUN), op; }
    var off := OffsetAt(mem, r.ip);
    var t: nat := mem[r.ip] / 32;
    if t == 0 {
      var c := ScanCount(mem, r.ip + 2, 9);
      if c.NoCount? { return r, Some(INPUT_OVERRUN), op; }
      r', halt, op' := CopyTurn(out, op, buf, r.(ip := c.ip), off, c.n);
    } else if off == 0 {
      return r, Some(if r.ip + 2 == |mem| then OK else INPUT_NOT_CONSUMED), op;
    } else {
      r', halt, op' := CopyTurn(out, op, buf, r.(ip := r.ip + 2), off, t + 2);
    }
  }

  method TakeTurn(mem: seq<byte>, out: array<byte>, op: nat, ghost buf: seq<byte>, r: Reader)
    returns (r': Reader, halt: Option<Status>, op': nat)
    requires Rests(out, op, buf)
    modifies out
    ensures Shows(out, op', buf, r', halt, Step(mem, buf, r, old(out[..op])))
  {
    hide GetBits, LongStep;
    if r.ip >= |mem| { return r, Some(EOF_NOT_FOUND), op; }
    var g := GetBits(mem, r, 1);
    if g.Short? { return r, Some(INPUT_OVERRUN), op; }
    if g.x == 0 {
      var d := GetByte(mem, g.next);
      if d.Short? { return r, Some(INPUT_OVERRUN), op; }
      if op >= out.Length { return r, Some(OUTPUT_OVERRUN), op; }
      ghost var was := out[..op];
      out[op] := mem[g.next.ip];
      assert out[..op + 1] == was + [mem[g.next.ip]];
      return d.next, None, op + 1;
    }
    var h := GetBits(mem, g.next, 1);
    if h.Short? { return r, Some(INPUT_OVERRUN), op; }
    if h.x == 0 {
      r', halt, op' := M1Turn(mem, out, op, buf, h.next);
    } else {
      r', halt, op' := LongTurn(mem, out, op, buf, h.next);
    }
  }

  method M1Turn(mem: seq<byte>, out: array<byte>, op: nat, ghost buf: seq<byte>, r: Reader)
    returns (r': Reader, halt: Option<Status>, op': nat)
    requires Rests(out, op, buf)
    modifies out
    ensures Shows(out, op', buf, r', halt, M1Step(mem, buf, r, old(out[..op])))
  {
    hide GetBits;
    var g := GetBits(mem, r, 2);
    if g.Short? { return r, Some(INPUT_OVERRUN), op; }
    var len := M1_MIN_LEN + g.x;
    var d := GetByte(mem, g.next);
    if d.Short? { return r, Some(INPUT_OVERRUN), op; }
    if out.Length - op < len { return r, Some(OUTPUT_OVERRUN), op; }
    if 1 + d.x > op { return r, Some(LOOKBEHIND_OVERRUN), op; }
    CopyOverlap(out, op, 1 + d.x, len);
    return d.next, None, op + len;
  }

  /** `lzo2a_decompress_safe`. */
  method Decompress(mem: seq<byte>, out: array<byte>) returns (status: Status, outLen: nat)
    modifies out
    ensures var s := Run(mem, old(out[..]), START, []);
            status == s.status && outLen <= out.Length && out[..outLen] == s.out
  {
    hide Step;
    var r, halt, op: nat := START, None, 0;
    ghost var buf := out[..];
    while halt.None?
      invariant Rests(out, op, buf)
      invariant halt.None? ==> Run(mem, buf, r, out[..op]) == Run(mem, buf, START, [])
      invariant halt.Some? ==> Run(mem, buf, START, []) == Stop(halt.value, out[..op])
      decreases halt.None?, |mem| - r.ip
    {
      r, halt, op := TakeTurn(mem, out, op, buf, r);
    }
    return halt.value, op;
  }

  // ----- Compression -----

  /** The match finder has just searched at `bp`. */
  ghost predicate Slides(win: Window, text: seq<byte>, bp: nat)
    reads win, win.b, win.head3, win.llen3, win.succ3, win.best3, win.head2
  {
    && win.Valid()
    && win.text == text && win.start == 0 && win.n == N && win.f == LOOKAHEAD && win.bestSize == 0
    && bp <= |text| && win.pos == bp + 1
    && (bp < |text| ==> win.bChar == text[bp])
  }

  /** A reported match of two or more bytes repeats the text within the window. */
  ghost predicate Honest(text: seq<byte>, bp: nat, m: Found) {
    m.len <= LOOKAHEAD && (m.len >= 2 ==> m.off <= N && Repeats(text, bp, m.off, m.len))
  }

  /** Accepts the bytes of a match, or one byte, and searches at the new position. */
  method Advance(win: Window, text: seq<byte>, ghost bp: nat, thisLen: nat, skip: nat, maxChain: nat)
    returns (m: Found, look: nat, at: nat)
    requires Slides(win, text, bp) && bp + thisLen - skip < |text| + (if skip == 0 then 1 else 0)
    requires if skip == 0 then thisLen == 1 else skip <= thisLen <= LOOKAHEAD
    modifies win, win.b, win.head3, win.llen3, win.succ3, win.best3, win.head2
    ensures at == bp + thisLen - skip + (if skip == 0 then 0 else 1)
    ensures Slides(win, text, at) && Honest(text, at, m) && look == Look(text, at)
  {
    hide Window.Sound, Window.Clock, Window.BestKept, Window.BestBounded, LongestSince;
    if skip > 0 {
      win.Reach(thisLen - skip);
    }
    m, look, at := win.FindMatch(thisLen, skip, maxChain);
  }

  /** The state of the encoder: `ts` has been put, and expands to the text before `bp`. */
  ghost predicate Written(w: Writer, ts: seq<Token>, text: seq<byte>, bp: nat)
    reads w
  {
    && bp <= |text|
    && w.Valid()
    && (forall i :: 0 <= i < |ts| ==> Codable(ts[i]))
    && w.ops == AllOps(ts)
    && Expands([], ts, text[..bp])
  }

  /** Puts the literal at `bp`, or the match of `len` bytes there. */
  method PutToken(w: Writer, ghost ts: seq<Token>, text: seq<byte>, bp: nat, t: Token) returns (ghost ts': seq<Token>)
    requires Written(w, ts, text, bp) && bp < |text| && Codable(t)
    requires t.Lit? ==> t.x == text[bp]
    requires t.Match? ==> Repeats(text, bp, t.off, t.len)
    modifies w
    ensures Written(w, ts', text, bp + (if t.Lit? then 1 else t.len)) && ts' == ts + [t]
  {
    hide Writer.Valid, AllOps, Expands, TokenOps, CopyMatch;
    ts' := ts + [t];
    AllOpsAppend(ts, t);
    ExpandsAppend([], ts, text[..bp], t);
    if t.Lit? {
      assert text[..bp] + [text[bp]] == text[..bp + 1];
    } else {
      CopyRepeats(text, bp, t.off, t.len);
    }
    PutOps(w, TokenOps(t));
  }

  /** The minimum gain a match one position later must bring, from the two matches. */
  function MinGain(len: nat, off: nat, next: Found): (g: int)
    ensures 1 <= g
  {
    var base := if IsM1(len, off) then 2 else 1;
    var extra := if IsM1(len, off) && !IsM1(next.len, next.off) then 2 else 0;
    var less := if IsM1(next.len, next.off) then 1 else 0;
    if base + extra - less < 1 then 1 else base + extra - less
  }

  /** Sets the match finder up and searches at the start. */
  method Open(text: seq<byte>, maxChain: nat) returns (win: Window, m: Found, look: nat, at: nat)
    ensures fresh(win) && fresh(win.b) && fresh(win.head3) && fresh(win.llen3)
    ensures fresh(win.succ3) && fresh(win.best3) && fresh(win.head2)
    ensures at == 0 && Slides(win, text, 0) && Honest(text, 0, m) && look == Look(text, 0)
  {
    hide Window.Sound, Window.Clock, Window.BestKept, Window.BestBounded, Tail, LongestSince;
    win := new Window([], text, N, LOOKAHEAD, 0, false);
    TailNone(N);
    assert [] + text == text;
    m, look, at := win.FindMatch(0, 0, maxChain);
  }

  /** One turn of the main loop: a match, a literal, or a literal before a better match. */
  method Turn(w: Writer, win: Window, ghost ts: seq<Token>, text: seq<byte>, bp: nat, cur: Found, look: nat, maxChain: nat)
    returns (ghost ts': seq<Token>, cur': Found, look': nat, bp': nat)
    requires Written(w, ts, text, bp) && bp < |text|
    requires Slides(win, text, bp) && Honest(text, bp, cur) && look == Look(text, bp)
    modifies w, win, win.b, win.head3, win.llen3, win.succ3, win.best3, win.head2
    ensures bp < bp' <= |text| && Written(w, ts', text, bp')
    ensures Slides(win, text, bp') && Honest(text, bp', cur') && look' == Look(text, bp')
    ensures if cur.len < 3 && !IsM1(cur.len, cur.off) then ts' == ts + [Lit(text[bp])] && bp' == bp + 1
            else (ts' == ts + [Match(cur.len, cur.off)] && bp' == bp + cur.len)
                 || (ts' == ts + [Lit(text[bp])] && bp' == bp + 1 && cur'.len >= cur.len + MinGain(cur.len, cur.off, cur'))
  {
    hide Repeats, Written, Writer.Valid, Window.Valid;
    var lit := win.bChar;
    var mLen, mOff := cur.len, cur.off;
    if !IsM1(mLen, mOff) && mLen < 3 {
      ts' := PutToken(w, ts, text, bp, Lit(lit));
      cur', look', bp' := Advance(win, text, bp, 1, 0, maxChain);
      return;
    }
    MatchInside(text, bp, mOff, mLen);
    var ahead := 0;
    if look > mLen {
      cur', look', bp' := Advance(win, text, bp, 1, 0, maxChain);
      if cur'.len >= mLen + MinGain(mLen, mOff, cur') {
        ts' := PutToken(w, ts, text, bp, Lit(lit));
        return;
      }
      ahead := 1;
    }
    ts' := PutToken(w, ts, text, bp, Match(mLen, mOff));
    cur', look', bp' := Advance(win, text, bp + ahead, mLen, 1 + ahead, maxChain);
  }

  lemma {:induction false} ByteWeight(s: seq<byte>)
    ensures Weight(ByteOps(s)) == 8 * |s|
  {
    if s != [] {
      assert ByteOps(s)[1..] == ByteOps(s[1..]);
      ByteWeight(s[1..]);
    }
  }

  /** No token takes more than nine bits for each byte it stands for. */
  lemma TokenWeight(t: Token)
    requires Codable(t)
    ensures Weight(TokenOps(t)) <= 9 * if t.Lit? then 1 else t.len
  {
    if t.Lit? {
      assert TokenOps(t)[1..] == [Byte(t.x)];
      FewOps([Byte(t.x)]);
    } else if t.len > 9 && !IsM1(t.len, t.off) {
      var code := LongCode(t.len - 9);
      var front := [Bits(1, 1), Bits(1, 1), Byte(t.off % 32), Byte(t.off / 32)];
      WeightConcat(front, ByteOps(code));
      ByteWeight(code);
      FewOps(front);
    } else {
      FewOps(TokenOps(t));
    }
  }

  lemma FewOps(ops: seq<Op>)
    requires |ops| <= 4
    ensures |ops| == 1 ==> Weight(ops) == OpWeight(ops[0])
    ensures |ops| == 4 ==> Weight(ops) == OpWeight(ops[0]) + OpWeight(ops[1]) + OpWeight(ops[2]) + OpWeight(ops[3])
  {
    hide Weight;
    if |ops| == 4 {
      Peel(ops);
      Peel(ops[1..]);
      Peel(ops[2..]);
      Peel(ops[3..]);
      assert ops[1..][1..] == ops[2..] && ops[2..][1..] == ops[3..] && ops[3..][1..] == [];
    } else if |ops| == 1 {
      Peel(ops);
      assert ops[1..] == [];
    }
    NoWeight();
  }

  lemma Peel(ops: seq<Op>)
    requires ops != []
    ensures Weight(ops) == OpWeight(ops[0]) + Weight(ops[1..])
  {
  }

  lemma NoWeight()
    ensures Weight([]) == 0
  {
  }

  /** Nor do they together. */
  lemma {:induction false} AllWeight(out: seq<byte>, ts: seq<Token>, text: seq<byte>)
    requires Expands(out, ts, text) && forall i :: 0 <= i < |ts| ==> Codable(ts[i])
    ensures |out| <= |text| && Weight(AllOps(ts)) <= 9 * (|text| - |out|)
    decreases |ts|
  {
    if ts != [] {
      hide TokenOps, CopyMatch;
      TokenWeight(ts[0]);
      WeightConcat(TokenOps(ts[0]), AllOps(ts[1..]));
      AllWeight(Apply(out, ts[0]), ts[1..], text);
    }
  }

  /** `lzo2a_999_compress_callback`: for every text and search limit, the stream decodes to the
      text with status OK, in a buffer of the text's size, and takes at most nine bits for each byte
      and eighteen for its end. */
  method Compress(text: seq<byte>, maxChain: nat) returns (out: seq<byte>)
    ensures forall buf: seq<byte> :: |buf| == |text| ==> Run(out, buf, START, []) == Stop(OK, text)
    ensures |out| <= |text| + (|text| + 25) / 8
  {
    hide Run, Repeats, Written, Slides, Honest, Writer.Valid;
    var w := new Writer();
    ghost var ts: seq<Token> := [];
    WrittenStart(w, text);
    var chain := if maxChain > 0 then maxChain else 2048;
    var win, cur, look, bp := Open(text, chain);
    while look > 0
      invariant fresh(w) && fresh(win) && fresh(win.b) && fresh(win.head3) && fresh(win.llen3)
      invariant fresh(win.succ3) && fresh(win.best3) && fresh(win.head2)
      invariant bp <= |text| && Slides(win, text, bp) && Honest(text, bp, cur) && look == Look(text, bp)
      invariant Written(w, ts, text, bp)
      decreases |text| - bp
    {
      ts, cur, look, bp := Turn(w, win, ts, text, bp, cur, look, chain);
    }
    WrittenEnd(w, ts, text);
    PutOps(w, EofOps());
    w.Flush();
    out := w.out;
    forall buf: seq<byte> | |buf| == |text|
      ensures Run(out, buf, START, []) == Stop(OK, text)
    {
      DecodeTokens(out, buf, START, [], ts, text);
    }
    StreamSize(out, ts, text);
  }

  lemma StreamSize(out: seq<byte>, ts: seq<Token>, text: seq<byte>)
    requires Expands([], ts, text) && forall i :: 0 <= i < |ts| ==> Codable(ts[i])
    requires var e := Recover(out, START, AllOps(ts) + EOF_OPS); e.Some? && e.value.ip == |out| && e.value.k < 8
    ensures |out| <= |text| + (|text| + 25) / 8
  {
    hide Recover, AllOps;
    AllWeight([], ts, text);
    WeightConcat(AllOps(ts), EOF_OPS);
    FewOps(EOF_OPS);
    RecoverWeight(out, START, AllOps(ts) + EOF_OPS);
  }

  function Look(text: seq<byte>, bp: nat): nat
    requires bp <= |text|
  {
    if |text| - bp > LOOKAHEAD then LOOKAHEAD + 1 else |text| - bp
  }

  lemma WrittenStart(w: Writer, text: seq<byte>)
    requires w.Valid() && w.ops == []
    ensures Written(w, [], text, 0)
  {
  }

  lemma WrittenEnd(w: Writer, ts: seq<Token>, text: seq<byte>)
    requires Written(w, ts, text, |text|)
    ensures w.Valid() && Expands([], ts, text)
    ensures forall i :: 0 <= i < |ts| ==> Codable(ts[i])
    ensures w.ops == AllOps(ts)
  {
    assert text[..|text|] == text;
  }

  lemma MatchInside(text: seq<byte>, p: nat, off: nat, len: nat)
    requires Repeats(text, p, off, len)
    ensures 0 < off <= p && p + len <= |text|
  {
  }

  /** The round trip as a caller sees it. */
  method RoundTrip(text: seq<byte>, maxChain: nat) returns (status: Status, back: seq<byte>)
    ensures status == OK && back == text
  {
    var code := Compress(text, maxChain);
    var plain := new byte[|text|];
    var n;
    status, n := Decompress(code, plain);
    back := plain[..n];
  }

  function EofOps(): (r: seq<Op>)
    ensures r == EOF_OPS && forall i :: 0 <= i < |r| ==> Proper(r[i])
  {
    assert Pow2(1) == 2;
    EOF_OPS
  }
}
