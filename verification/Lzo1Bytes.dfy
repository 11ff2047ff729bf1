/** The LZO1 and LZO1A streams byte by byte: what the decoders make of each kind of instruction behind a complete
    stream, told from the bytes alone. */
module Lzo1Bytes {
  import opened Bytes
  import opened Lz77
  import Lzo1
  import Lzo1Format
  import Lzo1a

  /** The lengths that runs of more than 280 literals come in. */
  const LONG_RUNS: seq<nat> := [512, 1024, 2048, 4096, 8192, 16384, 32768]

  /** The head of a run of `n` literals: a short run, one of up to 280, or a long one. */
  predicate Announces(head: seq<byte>, n: nat) {
    || (1 <= n <= 31 && head == [n])
    || (32 <= n <= 280 && head == [0, n - 32])
    || exists k :: 0 <= k < 7 && n == LONG_RUNS[k] && head == [0, 249 + k]
  }

  /** A match of 3 to 8 bytes `off` back, or of 9 to 264. */
  predicate Refers(instr: seq<byte>, off: nat, len: nat) {
    && 1 <= off <= 8192
    && if 3 <= len <= 8 then instr == [(len - 2) * 32 + (off - 1) % 32, (off - 1) / 32]
       else 9 <= len <= 264 && instr == [224 + (off - 1) % 32, (off - 1) / 32, len - 9]
  }

  // ----- LZO1 -----

  lemma RunSizes(k: nat)
    requires k < 7
    ensures Lzo1Format.R0Length(249 + k) == LONG_RUNS[k]
  {
    assert Lzo1Format.RunSize(1) == 512 && Lzo1Format.RunSize(2) == 1024;
    assert Lzo1Format.RunSize(3) == 2048 && Lzo1Format.RunSize(4) == 4096;
    assert Lzo1Format.RunSize(5) == 8192 && Lzo1Format.RunSize(6) == 16384;
    assert Lzo1Format.RunSize(7) == 32768;
    hide Lzo1Format.RunSize;
    assert Lzo1Format.R0Length(249 + k) == Lzo1Format.RunSize(k + 1);
  }

  lemma HeadRead(head: seq<byte>, n: nat)
    requires Announces(head, n)
    ensures Lzo1Format.IsRunHead(head, n)
  {
    if !(1 <= n <= 31 && head == [n]) && !(32 <= n <= 280 && head == [0, n - 32]) {
      var k :| 0 <= k < 7 && n == LONG_RUNS[k] && head == [0, 249 + k];
      RunSizes(k);
    }
  }

  lemma MatchRead(instr: seq<byte>, off: nat, len: nat)
    requires Refers(instr, off, len)
    ensures Lzo1Format.IsMatchCode(instr, off, len)
  {
  }

  /** The compressors write every match they may find in that form. */
  lemma MatchWritten(off: nat, len: nat)
    requires 1 <= off <= 8192 && 3 <= len <= 264
    ensures Refers(Lzo1Format.MatchCode(off, len), off, len)
  {
  }

  /** LZO1: literals behind their head. */
  lemma DecodesRun(code: seq<byte>, text: seq<byte>, head: seq<byte>, lits: seq<byte>)
    requires Lzo1.Codes(code, text) && Announces(head, |lits|)
    ensures Lzo1.Codes(code + head + lits, text + lits)
  {
    HeadRead(head, |lits|);
    Lzo1.CodesAppendLiterals(code, head, lits, text);
  }

  /** LZO1: a match, which must lie inside the output. */
  lemma DecodesMatch(code: seq<byte>, text: seq<byte>, instr: seq<byte>, off: nat, len: nat)
    requires Lzo1.Codes(code, text) && Refers(instr, off, len)
    ensures off <= |text| ==> Lzo1.Codes(code + instr, CopyMatch(text, off, len))
    ensures off > |text| ==> !Lzo1.Decode(code + instr, |code + instr|, 0, []).ok
  {
    MatchRead(instr, off, len);
    if off <= |text| {
      Lzo1.CodesAppendMatch(code, instr, text, off, len);
    } else {
      Lzo1.DecodeExtends(code, instr, 0, [], text);
      var mem := code + instr;
      assert mem[|code|] == instr[0] && mem[|code| + 1] == instr[1];
      assert |instr| == 3 ==> mem[|code| + 2] == instr[2];
      assert Lzo1.DecodeStep(mem, |code|, text).Wild?;
    }
  }

  // ----- LZO1A -----

  /** LZO1A: literals behind their head, unless the last instruction was a run of less than 280 already. */
  lemma DecodesRunA(code: seq<byte>, text: seq<byte>, head: seq<byte>, lits: seq<byte>)
    requires Lzo1a.CodesIn(code, text, false) && Announces(head, |lits|)
    ensures Lzo1a.CodesIn(code + head + lits, text + lits, |lits| < 280)
  {
    HeadRead(head, |lits|);
    Lzo1a.CodesAppendLiterals(code, head, lits, text);
  }

  /** LZO1A: a match, in either state. */
  lemma DecodesMatchA(code: seq<byte>, text: seq<byte>, lit: bool, instr: seq<byte>, off: nat, len: nat)
    requires Lzo1a.CodesIn(code, text, lit) && Refers(instr, off, len)
    ensures off <= |text| ==> Lzo1a.CodesIn(code + instr, CopyMatch(text, off, len), false)
    ensures off > |text| ==> !Lzo1a.Decode(code + instr, |code + instr|, 0, [], false).ok
  {
    MatchRead(instr, off, len);
    if off <= |text| {
      Lzo1a.CodesAppendMatch(code, instr, text, lit, off, len);
    } else {
      hide Lzo1a.CodesIn, CopyMatch;
      var mem := code + instr;
      assert mem[|code|] == instr[0] && mem[|code| + 1] == instr[1];
      assert |instr| == 3 ==> mem[|code| + 2] == instr[2];
      assert Lzo1a.DecodeStep(mem, |code|, text, lit).Wild?;
      Stops(code, instr, text, lit);
    }
  }

  /** LZO1A: after literals, an offset without length bits copies three bytes and brings a literal with it. */
  lemma DecodesR1(code: seq<byte>, text: seq<byte>, off: nat, x: byte)
    requires Lzo1a.CodesIn(code, text, true) && 1 <= off <= 8192
    ensures
      var all := code + [(off - 1) % 32, (off - 1) / 32, x];
      if off <= |text| then Lzo1a.CodesIn(all, CopyMatch(text, off, 3) + [x], true)
      else !Lzo1a.Decode(all, |all|, 0, [], false).ok
  {
    var instr := [(off - 1) % 32, (off - 1) / 32, x];
    if off <= |text| {
      hide Lzo1a.CodesIn, CopyMatch;
      var long := [32 + (off - 1) % 32, (off - 1) / 32];
      assert Refers(long, off, 3);
      MatchRead(long, off, 3);
      assert instr == [long[0] % 32, long[1], x];
      Lzo1a.CodesAppendR1(code, long, text, off, x);
    } else {
      FarR1(code, text, instr, off);
    }
  }

  lemma FarR1(code: seq<byte>, text: seq<byte>, instr: seq<byte>, off: nat)
    requires Lzo1a.CodesIn(code, text, true) && |text| < off <= 8192
    requires |instr| == 3 && instr[0] == (off - 1) % 32 && instr[1] == (off - 1) / 32
    ensures !Lzo1a.Decode(code + instr, |code + instr|, 0, [], false).ok
  {
    FarR1Step(code + instr, |code|, text, off);
    hide Lzo1a.DecodeStep, Lzo1a.CodesIn;
    Stops(code, instr, text, true);
  }

  lemma FarR1Step(mem: seq<byte>, ip: nat, text: seq<byte>, off: nat)
    requires ip + 3 <= |mem| && |text| < off <= 8192 && mem[ip] == (off - 1) % 32 && mem[ip + 1] == (off - 1) / 32
    ensures Lzo1a.DecodeStep(mem, ip, text, true).Wild?
  {
    assert Lzo1Format.OffsetOf(mem[ip], mem[ip + 1]) == off;
    hide CopyMatch, Lzo1Format.RunHead;
  }

  /** An instruction that cannot be carried out ends decoding. */
  lemma Stops(code: seq<byte>, instr: seq<byte>, text: seq<byte>, lit: bool)
    requires Lzo1a.CodesIn(code, text, lit) && instr != []
    requires Lzo1a.DecodeStep(code + instr, |code|, text, lit).Wild?
    ensures !Lzo1a.Decode(code + instr, |code + instr|, 0, [], false).ok
  {
    hide Lzo1a.DecodeStep;
    Lzo1a.DecodeExtends(code, instr, 0, [], false, text, lit);
  }
}
