/** The LZO2A stream field by field: what `lzo2a_decompress_safe` does with each kind of token, told from its bits and
    bytes, and how much input and room a stream takes. */
module Lzo2aBytes {
  import opened Bytes
  import opened Lz77
  import opened BitStream
  import opened Lzo2a

  // ----- Tokens -----

  /** A zero bit and a byte: a literal. */
  lemma DecodesLiteral(mem: seq<byte>, buf: seq<byte>, r: Reader, out: seq<byte>, x: byte, r': Reader)
    requires Recover(mem, r, [Bits(1, 0), Byte(x)]) == Some(r')
    ensures Step(mem, buf, r, out) == if |out| < |buf| then Go(r', out + [x]) else Stop(OUTPUT_OVERRUN, out)
  {
    hide GetBits;
    assert [Bits(1, 0), Byte(x)] + [] == [Bits(1, 0), Byte(x)];
    RecoverTwo(mem, r, Bits(1, 0), Byte(x), []);
  }

  /** One, zero, two bits of length and a byte of offset: two to five bytes from less than 257 back. Room is looked for
      before the match. */
  lemma DecodesM1(mem: seq<byte>, buf: seq<byte>, r: Reader, out: seq<byte>, len: nat, off: nat, r': Reader)
    requires 2 <= len <= 5 && 1 <= off <= 256
    requires Recover(mem, r, [Bits(1, 1), Bits(1, 0), Bits(2, len - 2), Byte(off - 1)]) == Some(r')
    ensures Step(mem, buf, r, out)
         == if |out| + len > |buf| then Stop(OUTPUT_OVERRUN, out)
            else if off > |out| then Stop(LOOKBEHIND_OVERRUN, out)
            else Go(r', CopyMatch(out, off, len))
  {
    hide GetBits, CopyMatch;
    var tail := [Bits(2, len - 2), Byte(off - 1)];
    assert [Bits(1, 1), Bits(1, 0)] + tail == [Bits(1, 1), Bits(1, 0), Bits(2, len - 2), Byte(off - 1)];
    RecoverTwo(mem, r, Bits(1, 1), Bits(1, 0), tail);
    assert tail + [] == tail;
    RecoverTwo(mem, GetBits(mem, GetBits(mem, r, 1).next, 1).next, tail[0], tail[1], []);
  }

  /** Two ones, and the reader behind them. */
  lemma TwoOnes(mem: seq<byte>, buf: seq<byte>, r: Reader, out: seq<byte>, rest: seq<Op>) returns (r2: Reader)
    requires Recover(mem, r, [Bits(1, 1), Bits(1, 1)] + rest).Some?
    requires rest != [] && rest[0].Byte?
    ensures Recover(mem, r2, rest) == Recover(mem, r, [Bits(1, 1), Bits(1, 1)] + rest)
    ensures Step(mem, buf, r, out) == LongStep(mem, buf, r2, out)
  {
    hide GetBits, LongStep;
    RecoverTwo(mem, r, Bits(1, 1), Bits(1, 1), rest);
    r2 := GetBits(mem, GetBits(mem, r, 1).next, 1).next;
  }

  lemma TwoBytes(mem: seq<byte>, r: Reader, a: nat, b: nat, rest: seq<Op>)
    requires Recover(mem, r, [Byte(a), Byte(b)] + rest).Some?
    ensures r.ip + 2 <= |mem| && mem[r.ip] == a && mem[r.ip + 1] == b
    ensures Recover(mem, r.(ip := r.ip + 2), rest) == Recover(mem, r, [Byte(a), Byte(b)] + rest)
  {
    RecoverTwo(mem, r, Byte(a), Byte(b), rest);
  }

  /** What a match found behind two ones does: here the match is looked for before room. */
  function Copied(buf: seq<byte>, out: seq<byte>, len: nat, off: nat, r': Reader): State
    requires 0 < off
  {
    if off > |out| then Stop(LOOKBEHIND_OVERRUN, out)
    else if |out| + len > |buf| then Stop(OUTPUT_OVERRUN, out)
    else Go(r', CopyMatch(out, off, len))
  }

  /** Two ones, three bits of length above five of offset, and the other eight: three to nine bytes. */
  lemma DecodesLong(mem: seq<byte>, buf: seq<byte>, r: Reader, out: seq<byte>, len: nat, off: nat, r': Reader)
    requires 3 <= len <= 9 && 1 <= off < 8192
    requires Recover(mem, r, [Bits(1, 1), Bits(1, 1)] + [Byte((len - 2) * 32 + off % 32), Byte(off / 32)]) == Some(r')
    ensures Step(mem, buf, r, out) == Copied(buf, out, len, off, r')
  {
    hide GetBits, CopyMatch, Step;
    var bytes := [Byte((len - 2) * 32 + off % 32), Byte(off / 32)];
    var r2 := TwoOnes(mem, buf, r, out, bytes);
    assert bytes + [] == bytes;
    TwoBytes(mem, r2, (len - 2) * 32 + off % 32, off / 32, []);
    assert mem[r2.ip] / 32 == len - 2 && mem[r2.ip] % 32 == off % 32;
  }

  /** With no length there, ten bytes or more: zero bytes worth 255 each and a last one count what is over nine. An
      offset of nothing keeps what the buffer held. */
  lemma DecodesLonger(mem: seq<byte>, buf: seq<byte>, r: Reader, out: seq<byte>, z: nat, c: byte, off: nat, r': Reader)
    requires 1 <= c && off < 8192
    requires Recover(mem, r, [Bits(1, 1), Bits(1, 1)] + ([Byte(off % 32), Byte(off / 32)] + ByteOps(Zeros(z, c)))) == Some(r')
    ensures
      var len := 9 + 255 * z + c;
      Step(mem, buf, r, out)
      == if off > 0 then Copied(buf, out, len, off, r')
         else if |out| + len > |buf| then Stop(OUTPUT_OVERRUN, out)
         else Go(r', out + buf[|out|..|out| + len])
  {
    hide GetBits, CopyMatch, Step, ByteOps, ReadCount, Recover, OffsetAt, Zeros;
    var count := ByteOps(Zeros(z, c));
    var bytes := [Byte(off % 32), Byte(off / 32)] + count;
    var r2 := TwoOnes(mem, buf, r, out, bytes);
    TwoBytes(mem, r2, off % 32, off / 32, count);
    BytesRead(mem, r2.(ip := r2.ip + 2), Zeros(z, c));
    ZerosRead(mem, r2.ip + 2, z, c, 9);
    NoLength(mem, r2.ip, off);
  }

  lemma NoLength(mem: seq<byte>, ip: nat, off: nat)
    requires ip + 2 <= |mem| && mem[ip] == off % 32 && mem[ip + 1] == off / 32
    ensures OffsetAt(mem, ip) == off && mem[ip] / 32 == 0
  {
  }

  function Zeros(z: nat, c: byte): (r: seq<byte>)
    ensures |r| == z + 1
  {
    seq(z, i => 0) + [c]
  }

  lemma {:induction false} ZerosRead(mem: seq<byte>, ip: nat, z: nat, c: byte, acc: nat)
    requires 1 <= c && ip + z + 1 <= |mem| && mem[ip..ip + z + 1] == Zeros(z, c)
    ensures ReadCount(mem, ip, acc) == Count(ip + z + 1, acc + 255 * z + c)
    decreases z
  {
    assert mem[ip] == mem[ip..ip + z + 1][0];
    if z > 0 {
      assert mem[ip + 1..ip + z + 1] == mem[ip..ip + z + 1][1..] == Zeros(z - 1, c);
      ZerosRead(mem, ip + 1, z - 1, c, acc + 255);
    }
  }

  /** Two ones and the bytes 32 and 0: the end. */
  lemma DecodesEnd(mem: seq<byte>, buf: seq<byte>, r: Reader, out: seq<byte>, r': Reader)
    requires Recover(mem, r, [Bits(1, 1), Bits(1, 1)] + [Byte(32), Byte(0)]) == Some(r')
    ensures Step(mem, buf, r, out) == Stop(if r'.ip == |mem| then OK else INPUT_NOT_CONSUMED, out)
  {
    hide GetBits, Step;
    var bytes := [Byte(32), Byte(0)];
    var r2 := TwoOnes(mem, buf, r, out, bytes);
    assert bytes + [] == bytes;
    TwoBytes(mem, r2, 32, 0, []);
  }

  // ----- Room for the output -----

  /** In `buf'`, a step that led to `s` leads there too, or finds no room. */
  predicate Fits(s: State, s': State, buf': seq<byte>) {
    if |s.out| <= |buf'| then s' == s else s'.Stop? && s'.status == OUTPUT_OVERRUN
  }

  /** Two buffers that hold the same as far as both go. */
  predicate Alike(buf: seq<byte>, buf': seq<byte>) {
    buf <= buf' || buf' <= buf
  }

  lemma CopyRoom(buf: seq<byte>, buf': seq<byte>, r: Reader, off: nat, len: nat, out: seq<byte>)
    requires Alike(buf, buf') && |out| <= |buf'| && CopyStep(buf, r, off, len, out).Go?
    ensures Fits(CopyStep(buf, r, off, len, out), CopyStep(buf', r, off, len, out), buf')
    ensures |out| <= |CopyStep(buf, r, off, len, out).out|
  {
    hide CopyMatch;
    if off == 0 && |out| + len <= |buf'| {
      assert buf[|out|..|out| + len] == buf'[|out|..|out| + len];
    }
  }

  lemma LongRoom(mem: seq<byte>, buf: seq<byte>, buf': seq<byte>, r: Reader, out: seq<byte>)
    requires Alike(buf, buf') && |out| <= |buf'|
    requires var s := LongStep(mem, buf, r, out); s.Go? || s.status == OK
    ensures Fits(LongStep(mem, buf, r, out), LongStep(mem, buf', r, out), buf')
    ensures |out| <= |LongStep(mem, buf, r, out).out|
  {
    hide CopyStep, ReadCount, OffsetAt;
    var off, t := OffsetAt(mem, r.ip), mem[r.ip] / 32;
    if t == 0 {
      var c := ReadCount(mem, r.ip + 2, 9);
      NoOkCopy(buf, r.(ip := c.ip), off, c.n, out);
      CopyRoom(buf, buf', r.(ip := c.ip), off, c.n, out);
    } else if off > 0 {
      NoOkCopy(buf, r.(ip := r.ip + 2), off, t + 2, out);
      CopyRoom(buf, buf', r.(ip := r.ip + 2), off, t + 2, out);
    }
  }

  lemma NoOkCopy(buf: seq<byte>, r: Reader, off: nat, len: nat, out: seq<byte>)
    ensures var s := CopyStep(buf, r, off, len, out); s.Go? || s.status != OK
  {
  }

  lemma M1Room(mem: seq<byte>, buf: seq<byte>, buf': seq<byte>, r: Reader, out: seq<byte>)
    requires |out| <= |buf'|
    requires var s := M1Step(mem, buf, r, out); s.Go? || s.status == OK
    ensures Fits(M1Step(mem, buf, r, out), M1Step(mem, buf', r, out), buf')
    ensures |out| <= |M1Step(mem, buf, r, out).out|
  {
    hide GetBits, CopyMatch;
  }

  lemma StepRoom(mem: seq<byte>, buf: seq<byte>, buf': seq<byte>, r: Reader, out: seq<byte>)
    requires Alike(buf, buf') && |out| <= |buf'|
    requires var s := Step(mem, buf, r, out); s.Go? || s.status == OK
    ensures Fits(Step(mem, buf, r, out), Step(mem, buf', r, out), buf')
    ensures |out| <= |Step(mem, buf, r, out).out|
  {
    hide GetBits, LongStep, M1Step;
    var g := GetBits(mem, r, 1);
    if g.x != 0 {
      var h := GetBits(mem, g.next, 1);
      if h.x == 0 {
        M1Room(mem, buf, buf', h.next, out);
      } else {
        LongRoom(mem, buf, buf', h.next, out);
      }
    }
  }

  lemma {:induction false} RunRoom(mem: seq<byte>, buf: seq<byte>, buf': seq<byte>, r: Reader, out: seq<byte>)
    requires Alike(buf, buf') && |out| <= |buf'| && Run(mem, buf, r, out).status == OK
    ensures Fits(Run(mem, buf, r, out), Run(mem, buf', r, out), buf')
    decreases |mem| - r.ip
  {
    hide Step;
    var s := Step(mem, buf, r, out);
    StepRoom(mem, buf, buf', r, out);
    if s.Go? {
      if |s.out| <= |buf'| {
        RunRoom(mem, buf, buf', s.r, s.out);
      } else {
        RunGrows(mem, buf, s.r, s.out);
      }
    }
  }

  lemma {:induction false} RunGrows(mem: seq<byte>, buf: seq<byte>, r: Reader, out: seq<byte>)
    requires Run(mem, buf, r, out).status == OK
    ensures |out| <= |Run(mem, buf, r, out).out|
    decreases |mem| - r.ip
  {
    hide Step;
    var s := Step(mem, buf, r, out);
    if |out| <= |buf| {
      StepRoom(mem, buf, buf, r, out);
    } else {
      StepOver(mem, buf, r, out);
    }
    if s.Go? {
      RunGrows(mem, buf, s.r, s.out);
    }
  }

  lemma StepOver(mem: seq<byte>, buf: seq<byte>, r: Reader, out: seq<byte>)
    ensures |out| <= |Step(mem, buf, r, out).out|
  {
    hide GetBits, CopyMatch, ReadCount, OffsetAt;
  }

  /** A stream that decodes into some buffer decodes to the same text in every buffer that can hold it and held the
      same before, and reports an output overrun in every shorter one. */
  lemma RoomExact(mem: seq<byte>, buf: seq<byte>, buf': seq<byte>)
    requires Alike(buf, buf') && Run(mem, buf, START, []).status == OK
    ensures
      var s, s' := Run(mem, buf, START, []), Run(mem, buf', START, []);
      if |s.out| <= |buf'| then s' == s else s'.status == OUTPUT_OVERRUN
  {
    RunRoom(mem, buf, buf', START, []);
  }

  // ----- Length of the input -----

  predicate Cut(s: State) {
    s.Stop? && (s.status == INPUT_OVERRUN || s.status == EOF_NOT_FOUND)
  }

  lemma BitsCut(mem: seq<byte>, more: seq<byte>, r: Reader, j: nat)
    ensures var g := GetBits(mem, r, j); g == GetBits(mem + more, r, j) || g.Short?
  {
  }

  lemma {:induction false} CountCut(mem: seq<byte>, more: seq<byte>, ip: nat, acc: nat)
    ensures
      var c, c' := ReadCount(mem, ip, acc), ReadCount(mem + more, ip, acc);
      c.NoCount? || c == c'
    decreases |mem| - ip
  {
    if ip < |mem| && mem[ip] == 0 {
      CountCut(mem, more, ip + 1, acc + 255);
    }
  }

  lemma LongCut(mem: seq<byte>, more: seq<byte>, buf: seq<byte>, r: Reader, out: seq<byte>)
    requires more != []
    requires var s := LongStep(mem + more, buf, r, out); s.Go? || s.status == OK
    ensures
      var s, s' := LongStep(mem + more, buf, r, out), LongStep(mem, buf, r, out);
      Cut(s') || (s.Go? && s' == s)
  {
    hide CopyStep, ReadCount;
    CountCut(mem, more, r.ip + 2, 9);
    if r.ip + 2 <= |mem| {
      assert OffsetAt(mem, r.ip) == OffsetAt(mem + more, r.ip);
      var off, t := OffsetAt(mem, r.ip), mem[r.ip] / 32;
      if t == 0 {
        var c := ReadCount(mem + more, r.ip + 2, 9);
        if c.Count? {
          NoOkCopy(buf, r.(ip := c.ip), off, c.n, out);
        }
      } else if off > 0 {
        NoOkCopy(buf, r.(ip := r.ip + 2), off, t + 2, out);
      }
    }
  }

  lemma M1Cut(mem: seq<byte>, more: seq<byte>, buf: seq<byte>, r: Reader, out: seq<byte>)
    requires var s := M1Step(mem + more, buf, r, out); s.Go? || s.status == OK
    ensures
      var s, s' := M1Step(mem + more, buf, r, out), M1Step(mem, buf, r, out);
      Cut(s') || (s.Go? && s' == s)
  {
    hide GetBits, CopyMatch;
    BitsCut(mem, more, r, 2);
  }

  /** A step takes a stream cut short to where it went before, or finds the cut. */
  lemma StepCut(mem: seq<byte>, more: seq<byte>, buf: seq<byte>, r: Reader, out: seq<byte>)
    requires more != []
    requires var s := Step(mem + more, buf, r, out); s.Go? || s.status == OK
    ensures
      var s, s' := Step(mem + more, buf, r, out), Step(mem, buf, r, out);
      Cut(s') || (s.Go? && s' == s)
  {
    hide GetBits, LongStep, M1Step;
    BitsCut(mem, more, r, 1);
    var g := GetBits(mem + more, r, 1);
    if g.Got? && g.x != 0 {
      BitsCut(mem, more, g.next, 1);
      var h := GetBits(mem + more, g.next, 1);
      if h.x == 0 {
        M1Cut(mem, more, buf, h.next, out);
      } else {
        LongCut(mem, more, buf, h.next, out);
      }
    }
  }

  lemma {:induction false} RunCut(mem: seq<byte>, more: seq<byte>, buf: seq<byte>, r: Reader, out: seq<byte>)
    requires more != [] && Run(mem + more, buf, r, out).status == OK
    ensures Cut(Run(mem, buf, r, out))
    decreases |mem| + |more| - r.ip
  {
    hide Step;
    var s := Step(mem + more, buf, r, out);
    StepCut(mem, more, buf, r, out);
    if s.Go? && Step(mem, buf, r, out) == s {
      RunCut(mem, more, buf, s.r, s.out);
    }
  }

  lemma LongMore(mem: seq<byte>, more: seq<byte>, buf: seq<byte>, r: Reader, out: seq<byte>)
    requires more != []
    requires var s := LongStep(mem, buf, r, out); s.Go? || s.status == OK
    ensures
      var s, s' := LongStep(mem, buf, r, out), LongStep(mem + more, buf, r, out);
      s' == if s.Go? then s else Stop(INPUT_NOT_CONSUMED, s.out)
  {
    hide CopyStep, ReadCount;
    CountCut(mem, more, r.ip + 2, 9);
    assert OffsetAt(mem, r.ip) == OffsetAt(mem + more, r.ip);
    var off, t := OffsetAt(mem, r.ip), mem[r.ip] / 32;
    if t == 0 {
      var c := ReadCount(mem, r.ip + 2, 9);
      NoOkCopy(buf, r.(ip := c.ip), off, c.n, out);
    } else if off > 0 {
      NoOkCopy(buf, r.(ip := r.ip + 2), off, t + 2, out);
    }
  }

  lemma StepMore(mem: seq<byte>, more: seq<byte>, buf: seq<byte>, r: Reader, out: seq<byte>)
    requires more != []
    requires var s := Step(mem, buf, r, out); s.Go? || s.status == OK
    ensures
      var s, s' := Step(mem, buf, r, out), Step(mem + more, buf, r, out);
      s' == if s.Go? then s else Stop(INPUT_NOT_CONSUMED, s.out)
  {
    hide GetBits, LongStep, CopyMatch;
    BitsCut(mem, more, r, 1);
    var g := GetBits(mem, r, 1);
    if g.x != 0 {
      BitsCut(mem, more, g.next, 1);
      var h := GetBits(mem, g.next, 1);
      if h.x == 0 {
        BitsCut(mem, more, h.next, 2);
      } else {
        LongMore(mem, more, buf, h.next, out);
      }
    }
  }

  lemma {:induction false} RunMore(mem: seq<byte>, more: seq<byte>, buf: seq<byte>, r: Reader, out: seq<byte>)
    requires more != [] && Run(mem, buf, r, out).status == OK
    ensures Run(mem + more, buf, r, out) == Stop(INPUT_NOT_CONSUMED, Run(mem, buf, r, out).out)
    decreases |mem| - r.ip
  {
    hide Step;
    var s := Step(mem, buf, r, out);
    StepMore(mem, more, buf, r, out);
    if s.Go? {
      RunMore(mem, more, buf, s.r, s.out);
    }
  }

  /** A stream decodes with its own length only. */
  lemma LengthExact(mem: seq<byte>, more: seq<byte>, buf: seq<byte>)
    requires more != []
    ensures Run(mem + more, buf, START, []).status == OK ==> Cut(Run(mem, buf, START, []))
    ensures Run(mem, buf, START, []).status == OK ==>
      Run(mem + more, buf, START, []) == Stop(INPUT_NOT_CONSUMED, Run(mem, buf, START, []).out)
  {
    if Run(mem + more, buf, START, []).status == OK {
      RunCut(mem, more, buf, START, []);
    }
    if Run(mem, buf, START, []).status == OK {
      RunMore(mem, more, buf, START, []);
    }
  }
}
