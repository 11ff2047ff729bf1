/** The LZO1A codec in its default configuration LZO1A-5/1. After a short literal run a match
    must follow, so a marker below 32 is free there: it means an R1 match, three copied bytes
    and one literal, and the compressor makes one by rewriting a marker it already wrote. */
module Lzo1a {
  import opened Bytes
  import opened Lz77
  import opened Buffers
  import opened Hashing
  import opened Lzo1Format

  // ----- The code, read one marker at a time -----

  /** `lit` says that the decoder is in its after-literal loop. */
  datatype Step = Next(ip: nat, out: seq<byte>, lit: bool) | Wild

  function LiteralStep(mem: seq<byte>, ip: nat, n: nat, out: seq<byte>, lit: bool): Step {
    if ip + n <= |mem| then Next(ip + n, out + mem[ip..ip + n], lit) else Wild
  }

  function MatchStep(ip: nat, off: nat, len: nat, out: seq<byte>): Step
    requires 0 < off
  {
    if off <= |out| then Next(ip, CopyMatch(out, off, len), false) else Wild
  }

  /** An R1 match: three bytes from behind, then one literal. */
  function R1Step(mem: seq<byte>, ip: nat, out: seq<byte>): Step
    requires ip < |mem|
  {
    if ip + 2 >= |mem| || OffsetOf(mem[ip], mem[ip + 1]) > |out| then Wild
    else Next(ip + 3, CopyMatch(out, OffsetOf(mem[ip], mem[ip + 1]), 3) + [mem[ip + 2]], true)
  }

  /** What the marker at `mem[ip]` does to the output, in the given state. */
  function DecodeStep(mem: seq<byte>, ip: nat, out: seq<byte>, lit: bool): (s: Step)
    requires ip < |mem|
    ensures s.Next? ==> ip < s.ip <= |mem| && |out| <= |s.out| && s.out[..|out|] == out
  {
    var t := mem[ip];
    if t >= R0MIN then
      if ip + 1 >= |mem| then Wild
      else if t < 224 then MatchStep(ip + 2, OffsetOf(t, mem[ip + 1]), t / 32 + 2, out)
      else if ip + 2 >= |mem| then Wild
      else MatchStep(ip + 3, OffsetOf(t, mem[ip + 1]), MIN_MATCH_LONG + mem[ip + 2], out)
    else if lit then
      R1Step(mem, ip, out)
    else
      var h := RunHead(mem, ip);
      if h.NoHead? then Wild else LiteralStep(mem, h.ip, h.n, out, h.n < R0FAST)
  }

  datatype Outcome = Outcome(out: seq<byte>, ip: nat, lit: bool, ok: bool)

  function Decode(mem: seq<byte>, end: nat, ip: nat, out: seq<byte>, lit: bool): (r: Outcome)
    requires end <= |mem| && ip <= |mem|
    ensures |out| <= |r.out|
    ensures r.ok ==> end <= r.ip <= |mem|
    decreases |mem| - ip
  {
    if ip >= end then Outcome(out, ip, lit, true)
    else
      var s := DecodeStep(mem, ip, out, lit);
      if s.Wild? then Outcome(out, ip, lit, false) else Decode(mem, end, s.ip, s.out, s.lit)
  }

  /** `code` is a complete stream for `text` that leaves the decoder in state `lit`. */
  ghost predicate CodesIn(code: seq<byte>, text: seq<byte>, lit: bool) {
    Decode(code, |code|, 0, [], false) == Outcome(text, |code|, lit, true)
  }

  ghost predicate Codes(code: seq<byte>, text: seq<byte>) {
    CodesIn(code, text, true) || CodesIn(code, text, false)
  }

  lemma CodesNothing()
    ensures CodesIn([], [], false)
  {
  }

  lemma RunExtends(mem: seq<byte>, more: seq<byte>, ip: nat)
    requires ip < |mem| && mem[ip] < R0MIN
    ensures var h := RunHead(mem, ip);
            && (h.Head? ==> RunHead(mem + more, ip) == h)
            && (h.Head? && h.ip + h.n <= |mem| ==> (mem + more)[h.ip..h.ip + h.n] == mem[h.ip..h.ip + h.n])
  {
    hide R0Length;
  }

  lemma StepExtends(mem: seq<byte>, more: seq<byte>, ip: nat, out: seq<byte>, lit: bool)
    requires ip < |mem|
    requires DecodeStep(mem, ip, out, lit).Next?
    ensures DecodeStep(mem + more, ip, out, lit) == DecodeStep(mem, ip, out, lit)
  {
    hide RunHead, CopyMatch;
    if mem[ip] < R0MIN && !lit {
      RunExtends(mem, more, ip);
    }
  }

  /** Decoding a longer stream first decodes any prefix that is itself a complete stream. */
  lemma {:induction false} DecodeExtends(mem: seq<byte>, more: seq<byte>, ip: nat, out: seq<byte>, lit: bool,
                                         text: seq<byte>, lit': bool)
    requires ip <= |mem|
    requires Decode(mem, |mem|, ip, out, lit) == Outcome(text, |mem|, lit', true)
    ensures Decode(mem + more, |mem + more|, ip, out, lit) == Decode(mem + more, |mem + more|, |mem|, text, lit')
    decreases |mem| - ip
  {
    if ip < |mem| {
      var s := DecodeStep(mem, ip, out, lit);
      StepExtends(mem, more, ip, out, lit);
      DecodeExtends(mem, more, s.ip, s.out, s.lit, text, lit');
    }
  }

  /** Appending one decodable instruction to a complete stream gives a complete stream. */
  lemma CodesAppend(code: seq<byte>, instr: seq<byte>, text: seq<byte>, lit: bool, text': seq<byte>, lit': bool)
    requires CodesIn(code, text, lit)
    requires instr != []
    requires DecodeStep(code + instr, |code|, text, lit) == Next(|code| + |instr|, text', lit')
    ensures CodesIn(code + instr, text', lit')
  {
    DecodeExtends(code, instr, 0, [], false, text, lit);
  }

  /** A literal run may follow a match or a long run. */
  lemma CodesAppendLiterals(code: seq<byte>, head: seq<byte>, lits: seq<byte>, text: seq<byte>)
    requires CodesIn(code, text, false)
    requires IsRunHead(head, |lits|)
    ensures CodesIn(code + head + lits, text + lits, |lits| < R0FAST)
  {
    hide CodesIn, DecodeStep, IsRunHead;
    LiteralsDecoded(code, head, lits, text);
    CodesAppend(code, head + lits, text, false, text + lits, |lits| < R0FAST);
    assert code + (head + lits) == code + head + lits;
  }

  lemma LiteralsDecoded(code: seq<byte>, head: seq<byte>, lits: seq<byte>, text: seq<byte>)
    requires IsRunHead(head, |lits|)
    ensures head != []
    ensures DecodeStep(code + (head + lits), |code|, text, false)
         == Next(|code| + |head + lits|, text + lits, |lits| < R0FAST)
  {
    hide R0Length;
    var mem := code + (head + lits);
    assert mem[|code|] == head[0];
    assert |head| == 2 ==> mem[|code| + 1] == head[1];
    assert RunHead(mem, |code|) == Head(|code| + |head|, |lits|);
    assert mem[|code| + |head|..|code| + |head| + |lits|] == lits;
  }

  /** A match may follow anything. */
  lemma CodesAppendMatch(code: seq<byte>, instr: seq<byte>, text: seq<byte>, lit: bool, off: nat, len: nat)
    requires CodesIn(code, text, lit)
    requires 0 < off <= |text|
    requires IsMatchCode(instr, off, len)
    ensures CodesIn(code + instr, CopyMatch(text, off, len), false)
  {
    hide CodesIn, CopyMatch;
    var mem := code + instr;
    assert mem[|code|] == instr[0] && mem[|code| + 1] == instr[1];
    assert |instr| == 3 ==> mem[|code| + 2] == instr[2];
    CodesAppend(code, instr, text, lit, CopyMatch(text, off, len), false);
  }

  /** In the after-literal state, clearing the length bits of a three-byte match and adding a
      literal turns the match into an R1 match. */
  lemma CodesAppendR1(code: seq<byte>, instr: seq<byte>, text: seq<byte>, off: nat, x: byte)
    requires CodesIn(code, text, true)
    requires 0 < off <= |text|
    requires |instr| == 2 && IsMatchCode(instr, off, 3)
    ensures CodesIn(code + [instr[0] % 32, instr[1], x], CopyMatch(text, off, 3) + [x], true)
  {
    var r1 := [instr[0] % 32, instr[1], x];
    var mem := code + r1;
    assert mem[|code|] == r1[0] && mem[|code| + 1] == r1[1] && mem[|code| + 2] == r1[2];
    assert OffsetOf(r1[0], r1[1]) == off;
    CodesAppend(code, r1, text, true, CopyMatch(text, off, 3) + [x], true);
  }

  // ----- Decompression -----

  datatype Status = OK | INPUT_NOT_CONSUMED | INPUT_OVERRUN | ACCESS_FAULT

  /** `lzo1a_decompress`. The two nested loops of the original become one loop with the flag
      `lit`: set while the inner, after-literal loop runs. */
  method Decompress(mem: seq<byte>, inLen: nat, out: array<byte>) returns (err: Status, outLen: nat)
    requires inLen <= |mem|
    requires |Decode(mem, inLen, 0, [], false).out| <= out.Length
    modifies out
    ensures outLen <= out.Length && out[..outLen] == Decode(mem, inLen, 0, [], false).out
    ensures err == ACCESS_FAULT <==> !Decode(mem, inLen, 0, [], false).ok
    ensures err == OK <==> Decode(mem, inLen, 0, [], false).ok && Decode(mem, inLen, 0, [], false).ip == inLen
    ensures err != INPUT_NOT_CONSUMED
  {
    ghost var result := Decode(mem, inLen, 0, [], false);
    var ip: nat, op: nat, lit := 0, 0, false;
    while ip < inLen
      invariant ip <= |mem| && op <= out.Length
      invariant Decode(mem, inLen, ip, out[..op], lit) == result
      decreases |mem| - ip
    {
      var ok;
      if mem[ip] >= R0MIN {
        ok, ip, op := DecompressMatch(mem, ip, out, op, lit);
        lit := false;
      } else if lit {
        ok, ip, op := DecompressR1(mem, ip, out, op);
      } else {
        ok, ip, op, lit := DecompressRun(mem, ip, out, op);
      }
      if !ok { return ACCESS_FAULT, op; }
    }
    outLen := op;
    err := if ip == inLen then OK else if ip < inLen then INPUT_NOT_CONSUMED else INPUT_OVERRUN;
  }

  method DecompressRun(mem: seq<byte>, ip: nat, out: array<byte>, op: nat)
    returns (ok: bool, ip': nat, op': nat, lit: bool)
    requires ip < |mem| && mem[ip] < R0MIN && op <= out.Length
    requires var s := DecodeStep(mem, ip, out[..op], false); s.Next? ==> |s.out| <= out.Length
    modifies out
    ensures var s := DecodeStep(mem, ip, old(out[..op]), false);
            && op' <= out.Length
            && (ok ==> s == Next(ip', out[..op'], lit))
            && (!ok ==> s.Wild? && out[..op'] == old(out[..op]))
  {
    hide RunHead;
    var h := ReadRunHead(mem, ip);
    if h.NoHead? { return false, ip + 1, op, false; }
    if h.ip + h.n > |mem| { return false, h.ip, op, false; }
    CopyForward(out, op, mem, h.ip, h.n);
    return true, h.ip + h.n, op + h.n, h.n < R0FAST;
  }

  method DecompressR1(mem: seq<byte>, ip: nat, out: array<byte>, op: nat) returns (ok: bool, ip': nat, op': nat)
    requires ip < |mem| && mem[ip] < R0MIN && op <= out.Length
    requires var s := DecodeStep(mem, ip, out[..op], true); s.Next? ==> |s.out| <= out.Length
    modifies out
    ensures var s := DecodeStep(mem, ip, old(out[..op]), true);
            && op' <= out.Length
            && (ok ==> s == Next(ip', out[..op'], true))
            && (!ok ==> s.Wild? && out[..op'] == old(out[..op]))
  {
    if ip + 2 >= |mem| { return false, ip + 1, op; }
    var off := OffsetOf(mem[ip], mem[ip + 1]);
    if off > op { return false, ip + 2, op; }
    CopyOverlap(out, op, off, 3);
    ghost var copied := out[..op + 3];
    out[op + 3] := mem[ip + 2];
    assert out[..op + 4] == copied + [mem[ip + 2]];
    return true, ip + 3, op + 4;
  }

  method DecompressMatch(mem: seq<byte>, ip: nat, out: array<byte>, op: nat, ghost lit: bool)
    returns (ok: bool, ip': nat, op': nat)
    requires ip < |mem| && mem[ip] >= R0MIN && op <= out.Length
    requires var s := DecodeStep(mem, ip, out[..op], lit); s.Next? ==> |s.out| <= out.Length
    modifies out
    ensures var s := DecodeStep(mem, ip, old(out[..op]), lit);
            && op' <= out.Length
            && (ok ==> s == Next(ip', out[..op'], false))
            && (!ok ==> s.Wild? && out[..op'] == old(out[..op]))
  {
    hide CopyMatch, R0Length, R1Step;
    ip', op' := ip + 1, op;
    var t: nat := mem[ip];
    if ip' >= |mem| { return false, ip', op'; }
    var off := OffsetOf(t, mem[ip']);
    ip' := ip' + 1;
    if t < 224 {
      t := t / 32;
    } else {
      if ip' >= |mem| { return false, ip', op'; }
      t := mem[ip'];
      t := t + (MIN_MATCH_LONG - 2);
      ip' := ip' + 1;
    }
    if off > op { return false, ip', op'; }
    CopyOverlap(out, op, off, 2 + t);
    return true, ip', op + 2 + t;
  }

  // ----- Compression -----

  /** State inside `store_run`: `r` literals are left at `p`, and room for them remains. */
  ghost predicate RunState(out: array<byte>, op: nat, text: seq<byte>, p: nat, r: nat, ii: nat, rLen: nat, op0: nat)
    reads out
  {
    && p + r == ii + rLen <= |text|
    && op0 <= op
    && op + r + r / 32 <= op0 + rLen + rLen / 32 < out.Length
    && CodesIn(out[..op], text[..p], false)
  }

  /** `store_run` of LZO1A: runs of 32768 while they last, at most one of each smaller power of
      two, runs of 280, and the rest. */
  method StoreRun(out: array<byte>, op: nat, text: seq<byte>, ii: nat, rLen: nat) returns (op': nat)
    requires 0 < rLen && ii + rLen <= |text|
    requires op + rLen + rLen / 32 + 1 <= out.Length
    requires CodesIn(out[..op], text[..ii], false)
    modifies out
    ensures op <= op' <= op + rLen + rLen / 32 + 1
    ensures Codes(out[..op'], text[..ii + rLen])
  {
    hide CodesIn;
    op' := op;
    var r: nat, p: nat := rLen, ii;
    if r >= 512 {
      assert RunSize(3) == 2048 && RunSize(5) == 8192 && RunSize(7) == 32768;
      op', p, r := StoreChunks(out, op', [0, 255], text, p, r, 32768, ii, rLen, op);
      op', p, r := StorePowers(out, op', text, p, r, ii, rLen, op);
    }
    op', p, r := StoreChunks(out, op', [0, R0FAST - R0MIN], text, p, r, R0FAST, ii, rLen, op);
    if r >= R0MIN {
      op' := StoreChunk(out, op', [0, r - R0MIN], text, p, r);
    } else if r > 0 {
      op' := StoreChunk(out, op', [r], text, p, r);
    }
  }

  /** Codes at most one run of each power of two from 16384 down to 512. */
  method StorePowers(out: array<byte>, op: nat, text: seq<byte>, p: nat, r: nat,
                     ghost ii: nat, ghost rLen: nat, ghost op0: nat)
    returns (op': nat, p': nat, r': nat)
    requires RunState(out, op, text, p, r, ii, rLen, op0) && r < RunSize(7)
    modifies out
    ensures RunState(out, op', text, p', r', ii, rLen, op0) && r' < 512
  {
    hide CodesIn;
    op', p', r' := op, p, r;
    var rBits := 6;
    while rBits > 0
      invariant rBits <= 6
      invariant r' < RunSize(rBits + 1)
      invariant RunState(out, op', text, p', r', ii, rLen, op0)
    {
      var n := RunSize(rBits);
      if r' >= n {
        op' := StoreChunk(out, op', [0, R0FAST - R0MIN + rBits], text, p', n);
        r', p' := r' - n, p' + n;
      }
      rBits := rBits - 1;
    }
    assert RunSize(1) == 512;
  }

  /** Codes runs of `n` literals for as long as that many are left. */
  method StoreChunks(out: array<byte>, op: nat, head: seq<byte>, text: seq<byte>, p: nat, r: nat, n: nat,
                     ghost ii: nat, ghost rLen: nat, ghost op0: nat)
    returns (op': nat, p': nat, r': nat)
    requires RunState(out, op, text, p, r, ii, rLen, op0)
    requires IsRunHead(head, n) && n >= R0FAST
    modifies out
    ensures RunState(out, op', text, p', r', ii, rLen, op0)
    ensures r' < n && r' <= r
  {
    op', p', r' := op, p, r;
    while r' >= n
      invariant r' <= r
      invariant RunState(out, op', text, p', r', ii, rLen, op0)
      decreases r'
    {
      op' := StoreChunk(out, op', head, text, p', n);
      r', p' := r' - n, p' + n;
    }
  }

  /** A run header followed by its literals. */
  method StoreChunk(out: array<byte>, op: nat, head: seq<byte>, text: seq<byte>, p: nat, n: nat) returns (op': nat)
    requires p + n <= |text| && op + |head| + n <= out.Length
    requires CodesIn(out[..op], text[..p], false)
    requires IsRunHead(head, n)
    modifies out
    ensures op' == op + |head| + n
    ensures CodesIn(out[..op'], text[..p + n], n < R0FAST)
  {
    hide CodesIn, IsRunHead;
    ghost var code := out[..op];
    CopyForward(out, op, head, 0, |head|);
    assert out[..op + |head|] == code + head;
    op' := op + |head|;
    CopyForward(out, op', text, p, n);
    op' := op' + n;
    assert out[..op'] == code + head + text[p..p + n];
    assert text[..p] + text[p..p + n] == text[..p + n];
    CodesAppendLiterals(code, head, text[p..p + n], text[..p]);
  }

  /** When the last instruction, coded at `r1`, is a three-byte match, it was coded in the
      after-literal state, so it can still become an R1 match. */
  ghost predicate R1Ready(code: seq<byte>, text: seq<byte>, ii: nat, r1: nat)
    requires ii <= |text|
  {
    r1 + MIN_MATCH == ii ==>
      && |code| >= 2
      && CodesIn(code[..|code| - 2], text[..r1], true)
      && code[|code| - 2] / 32 == 1
      && Repeats(text, r1, OffsetOf(code[|code| - 2], code[|code| - 1]), MIN_MATCH)
  }

  lemma R1ReadyAfterMatch(code: seq<byte>, instr: seq<byte>, text: seq<byte>, r1: nat, off: nat)
    requires r1 + MIN_MATCH <= |text|
    requires CodesIn(code, text[..r1], true)
    requires |instr| == 2 && IsMatchCode(instr, off, MIN_MATCH)
    requires Repeats(text, r1, off, MIN_MATCH)
    ensures R1Ready(code + instr, text, r1 + MIN_MATCH, r1)
  {
    assert (code + instr)[..|code|] == code;
  }

  lemma R1Rewrite(code: seq<byte>, text: seq<byte>, ii: nat, r1: nat)
    requires ii < |text| && r1 + MIN_MATCH == ii
    requires R1Ready(code, text, ii, r1)
    ensures var n := |code|;
            n >= 2 && CodesIn(code[..n - 2] + [code[n - 2] % 32, code[n - 1], text[ii]], text[..ii + 1], true)
  {
    hide CodesIn;
    var n := |code|;
    var off := OffsetOf(code[n - 2], code[n - 1]);
    CodesAppendR1(code[..n - 2], [code[n - 2], code[n - 1]], text[..r1], off, text[ii]);
    CopyRepeats(text, r1, off, MIN_MATCH);
    assert text[..ii] + [text[ii]] == text[..ii + 1];
  }

  /** Rewrites the marker of the last match, which began at `r1`, and adds the literal at `ii`. */
  method CodeR1(out: array<byte>, op: nat, text: seq<byte>, ii: nat, r1: nat) returns (op': nat)
    requires ii < |text| && op < out.Length && r1 + MIN_MATCH == ii
    requires R1Ready(out[..op], text, ii, r1)
    modifies out
    ensures op' == op + 1
    ensures CodesIn(out[..op'], text[..ii + 1], true)
  {
    ghost var code := out[..op];
    R1Rewrite(code, text, ii, r1);
    out[op - 2] := out[op - 2] % 32;
    out[op] := text[ii];
    op' := op + 1;
    assert out[..op'] == code[..op - 2] + [code[op - 2] % 32, code[op - 1], text[ii]];
  }

  /** Codes the literals `text[ii..ip]` before a match at `ip`, and moves the R1 pointer when the
      run leaves the decoder in its after-literal state. */
  method CodeRun(out: array<byte>, op: nat, text: seq<byte>, ii: nat, ip: nat, r1: nat)
    returns (op': nat, r1': nat)
    requires ii < ip <= |text| && op + (ip - ii) + (ip - ii) / 32 + 1 <= out.Length
    requires CodesIn(out[..op], text[..ii], false)
    requires R1Ready(out[..op], text, ii, r1)
    requires r1 + MIN_MATCH <= ii || ip < r1
    modifies out
    ensures op <= op' <= op + (ip - ii) + (ip - ii) / 32 + 1
    ensures Codes(out[..op'], text[..ip])
    ensures r1' == if ip - ii < R0FAST then ip else r1
    ensures r1' == ip ==> CodesIn(out[..op'], text[..ip], true)
  {
    r1' := r1;
    var t := ip - ii;
    if ip == r1 + MIN_MATCH + 1 {
      op' := CodeR1(out, op, text, ii, r1);
      r1' := ip;
    } else if t < R0MIN {
      op' := StoreChunk(out, op, [t], text, ii, t);
      r1' := ip;
    } else if t < R0FAST {
      op' := StoreChunk(out, op, [0, t - R0MIN], text, ii, t);
      r1' := ip;
    } else {
      op' := StoreRun(out, op, text, ii, t);
    }
  }

  lemma MatchCoded(code: seq<byte>, text: seq<byte>, ii: nat, ip: nat, mOff: nat, r1: nat)
    requires ii + MIN_MATCH <= ip <= ii + MAX_MATCH_LONG && mOff <= MAX_OFFSET
    requires Repeats(text, ii, mOff, ip - ii)
    requires Codes(code, text[..ii])
    requires r1 == ii ==> CodesIn(code, text[..ii], true)
    requires r1 <= ii ==> r1 == ii || r1 + MIN_MATCH <= ii
    ensures CodesIn(code + MatchCode(mOff, ip - ii), text[..ip], false)
    ensures r1 <= ii ==> R1Ready(code + MatchCode(mOff, ip - ii), text, ip, r1)
  {
    hide CodesIn;
    var instr := MatchCode(mOff, ip - ii);
    CodesAppendMatch(code, instr, text[..ii], CodesIn(code, text[..ii], true), mOff, ip - ii);
    CopyRepeats(text, ii, mOff, ip - ii);
    if r1 == ii && ip == r1 + MIN_MATCH {
      R1ReadyAfterMatch(code, instr, text, r1, mOff);
    }
  }

  /** Codes the match `text[ii..ip]`; a three-byte match right after a run is ready for R1. */
  method CodeMatch(text: seq<byte>, out: array<byte>, op: nat, ii: nat, ip: nat, mOff: nat, ghost r1: nat)
    returns (op': nat)
    requires ii + MIN_MATCH <= ip <= ii + MAX_MATCH_LONG && mOff <= MAX_OFFSET
    requires Repeats(text, ii, mOff, ip - ii)
    requires op + 3 <= out.Length
    requires Codes(out[..op], text[..ii])
    requires r1 == ii ==> CodesIn(out[..op], text[..ii], true)
    requires r1 <= ii ==> r1 == ii || r1 + MIN_MATCH <= ii
    modifies out
    ensures op < op' <= op + 3 && op' - op < ip - ii
    ensures CodesIn(out[..op'], text[..ip], false)
    ensures r1 <= ii ==> R1Ready(out[..op'], text, ip, r1)
  {
    ghost var code := out[..op];
    var instr := MatchCode(mOff, ip - ii);
    MatchCoded(code, text, ii, ip, mOff, r1);
    CopyForward(out, op, instr, 0, |instr|);
    op' := op + |instr|;
    assert out[..op'] == code + instr;
  }

  /** Looks for three matching bytes in two dictionary slots, and records `ip` in the slot
      probed last. Entries may hold anything: `LZO_CHECK_MPOS_NON_DET` takes only positions
      inside the text and before `ip`. */
  method Probe(text: seq<byte>, ip: nat, dict: array<int>) returns (mPos: int)
    requires ip + DVAL_LEN <= |text|
    requires dict.Length == D_SIZE
    modifies dict
    ensures mPos == -1 || (0 <= mPos < ip <= mPos + MAX_OFFSET && Repeats(text, ip, ip - mPos, MIN_MATCH))
    ensures var d1 := Dindex1(text, ip); var d2 := Dindex2(d1);
            var e1, e2 := old(dict[d1]), old(dict[d2]);
            if Usable(ip, e1) && !ThreeEqual(text, e1, ip) then
              && mPos == (if Usable(ip, e2) && ThreeEqual(text, e2, ip) then e2 else -1)
              && dict[..] == old(dict[..])[d2 := ip]
            else
              && mPos == (if Usable(ip, e1) then e1 else -1)
              && dict[..] == old(dict[..])[d1 := ip]
  {
    var dindex := Dindex1(text, ip);
    mPos := dict[dindex];
    if Usable(ip, mPos) {
      if !ThreeEqual(text, mPos, ip) {
        dindex := Dindex2(dindex);
        mPos := dict[dindex];
        if !(Usable(ip, mPos) && ThreeEqual(text, mPos, ip)) {
          mPos := -1;
        }
      }
    } else {
      mPos := -1;
    }
    dict[dindex] := ip;
  }

  predicate Usable(ip: nat, entry: int) {
    entry >= 0 && 0 < ip - entry <= MAX_OFFSET
  }

  /** `do_compress`, whether or not the dictionary is cleared first. */
  method DoCompress(text: seq<byte>, out: array<byte>, dict: array<int>, deterministic: bool) returns (outLen: nat)
    requires |text| > MIN_MATCH_LONG + DVAL_LEN + 1
    requires out.Length >= |text| + |text| / 32 + 1
    requires dict.Length == D_SIZE
    modifies out, dict
    ensures outLen <= |text| + |text| / 32 + 1
    ensures Codes(out[..outLen], text)
  {
    hide CodesIn, Repeats, R1Ready;
    var ipEnd := |text| - DVAL_LEN - MIN_MATCH_LONG;
    var inEnd := |text| - DVAL_LEN;
    var op: nat, ip: nat, ii: nat := 0, 0, 0;
    var r1: nat := ipEnd;
    if deterministic {
      forall k | 0 <= k < dict.Length { dict[k] := -1; }
    }
    dict[Dindex(DvalFirst(text, ip))] := ip;
    ip := ip + 1;
    CodesNothing();
    assert out[..op] == [] && text[..ii] == [];
    while ip < ipEnd
      invariant 0 <= ii <= ip <= inEnd
      invariant op <= ii + ii / 32
      invariant CodesIn(out[..op], text[..ii], false)
      invariant r1 + MIN_MATCH <= ii || r1 == ipEnd
      invariant r1 < ipEnd ==> R1Ready(out[..op], text, ii, r1)
      invariant r1 == ipEnd && ip < ipEnd ==> r1 + MIN_MATCH != ii
    {
      var mPos := Probe(text, ip, dict);
      if mPos == -1 {
        ip := ip + 1;
      } else {
        op, ip, r1 := EmitMatch(text, out, op, ii, ip, mPos, inEnd, r1, ipEnd);
        ii := ip;
      }
    }
    outLen := StoreRun(out, op, text, ii, |text| - ii);
    assert text[..|text|] == text;
  }

  /** Codes the literals before a match and the match itself, as long as it goes. */
  method EmitMatch(text: seq<byte>, out: array<byte>, op: nat, ii: nat, ip: nat, mPos: nat, inEnd: nat, r1: nat, ghost ipEnd: nat)
    returns (op': nat, ip': nat, r1': nat)
    requires out.Length >= |text| + |text| / 32 + 1 && op <= ii + ii / 32
    requires ii <= ip < ipEnd && ip + MIN_MATCH_LONG <= inEnd <= |text|
    requires CodesIn(out[..op], text[..ii], false)
    requires r1 + MIN_MATCH <= ii || r1 == ipEnd
    requires r1 < ipEnd ==> R1Ready(out[..op], text, ii, r1)
    requires r1 == ipEnd ==> r1 + MIN_MATCH != ii
    requires mPos < ip <= mPos + MAX_OFFSET && Repeats(text, ip, ip - mPos, MIN_MATCH)
    modifies out
    ensures ip < ip' <= inEnd && op' <= ip' + ip' / 32 && CodesIn(out[..op'], text[..ip'], false)
    ensures r1' + MIN_MATCH <= ip' || r1' == ipEnd
    ensures r1' < ipEnd ==> R1Ready(out[..op'], text, ip', r1')
  {
    hide CodesIn, Repeats;
    op', r1' := op, r1;
    if ip > ii {
      op', r1' := CodeRun(out, op', text, ii, ip, r1');
    }
    hide R1Ready;
    ip' := MeasureMatch(text, inEnd, ip, ip - mPos);
    op' := CodeMatch(text, out, op', ip, ip', ip - mPos, r1');
  }

  /** `lzo1a_compress`. */
  method Compress(text: seq<byte>, out: array<byte>, dict: array<int>, deterministic: bool) returns (outLen: nat)
    requires out.Length >= |text| + |text| / 32 + 1
    requires dict.Length == D_SIZE
    modifies out, dict
    ensures outLen <= |text| + |text| / 32 + 1
    ensures Codes(out[..outLen], text)
  {
    if |text| == 0 {
      outLen := 0;
    } else if |text| <= MIN_MATCH_LONG + DVAL_LEN + 1 {
      outLen := StoreRun(out, 0, text, 0, |text|);
      assert text[..|text|] == text;
    } else {
      outLen := DoCompress(text, out, dict, deterministic);
    }
  }

  /** The round trip for arbitrary contents of the work memory. */
  method RoundTrip(text: seq<byte>, work: seq<int>, deterministic: bool) returns (err: Status, back: seq<byte>)
    requires |work| == D_SIZE
    ensures err == OK && back == text
  {
    var out := new byte[|text| + |text| / 32 + 1];
    var dict := new int[D_SIZE](i requires 0 <= i < |work| => work[i]);
    var n := Compress(text, out, dict, deterministic);
    var plain := new byte[|text|];
    var len;
    err, len := Decompress(out[..n], n, plain);
    back := plain[..len];
  }
}
