/** The LZO1 codec in its default configuration LZO1-5/1: `lzo1_decompress`, `store_run`,
    `do_compress` and `lzo1_compress`. */
module Lzo1 {
  import opened Bytes
  import opened Lz77
  import opened Buffers
  import opened Hashing
  import opened Lzo1Format

  // ----- The code, read one marker at a time -----

  /** One marker decoded: the new input position and output, or an access outside the
      memory the caller supplied (`Wild`). */
  datatype Step = Next(ip: nat, out: seq<byte>) | Wild

  function LiteralStep(mem: seq<byte>, ip: nat, n: nat, out: seq<byte>): Step {
    if ip + n <= |mem| then Next(ip + n, out + mem[ip..ip + n]) else Wild
  }

  function MatchStep(ip: nat, off: nat, len: nat, out: seq<byte>): Step
    requires 0 < off
  {
    if off <= |out| then Next(ip, CopyMatch(out, off, len)) else Wild
  }

  /** What the marker at `mem[ip]` does to the output. */
  function DecodeStep(mem: seq<byte>, ip: nat, out: seq<byte>): (s: Step)
    requires ip < |mem|
    ensures s.Next? ==> ip < s.ip <= |mem| && |out| <= |s.out| && s.out[..|out|] == out
  {
    var t := mem[ip];
    if t < R0MIN then
      var h := RunHead(mem, ip);
      if h.NoHead? then Wild else LiteralStep(mem, h.ip, h.n, out)
    else if ip + 1 >= |mem| then
      Wild
    else
      var off := OffsetOf(t, mem[ip + 1]);
      if t < 224 then
        MatchStep(ip + 2, off, t / 32 + 2, out)
      else if ip + 2 < |mem| then
        MatchStep(ip + 3, off, MIN_MATCH_LONG + mem[ip + 2], out)
      else
        Wild
  }

  /** Result of decoding: the output, the final input position, and whether every access
      stayed inside the memory the caller supplied. */
  datatype Outcome = Outcome(out: seq<byte>, ip: nat, ok: bool)

  function Decode(mem: seq<byte>, end: nat, ip: nat, out: seq<byte>): (r: Outcome)
    requires end <= |mem| && ip <= |mem|
    ensures |out| <= |r.out|
    ensures r.ok ==> end <= r.ip <= |mem|
    decreases |mem| - ip
  {
    if ip >= end then Outcome(out, ip, true)
    else
      var s := DecodeStep(mem, ip, out);
      if s.Wild? then Outcome(out, ip, false) else Decode(mem, end, s.ip, s.out)
  }

  /** `code` is a complete LZO1 stream for `text`: decoding consumes exactly all of it. */
  ghost predicate Codes(code: seq<byte>, text: seq<byte>) {
    Decode(code, |code|, 0, []) == Outcome(text, |code|, true)
  }

  lemma CodesNothing()
    ensures Codes([], [])
  {
  }

  /** A marker whose operands lie inside `mem` means the same when more bytes follow. */
  lemma StepExtends(mem: seq<byte>, more: seq<byte>, ip: nat, out: seq<byte>)
    requires ip < |mem|
    requires DecodeStep(mem, ip, out).Next?
    ensures DecodeStep(mem + more, ip, out) == DecodeStep(mem, ip, out)
  {
    var s := DecodeStep(mem, ip, out);
    assert forall a, b :: 0 <= a <= b <= |mem| ==> (mem + more)[a..b] == mem[a..b];
  }

  /** Decoding a longer stream first decodes any prefix that is itself a complete stream. */
  lemma {:induction false} DecodeExtends(mem: seq<byte>, more: seq<byte>, ip: nat, out: seq<byte>, text: seq<byte>)
    requires ip <= |mem|
    requires Decode(mem, |mem|, ip, out) == Outcome(text, |mem|, true)
    ensures Decode(mem + more, |mem + more|, ip, out) == Decode(mem + more, |mem + more|, |mem|, text)
    decreases |mem| - ip
  {
    if ip < |mem| {
      var s := DecodeStep(mem, ip, out);
      StepExtends(mem, more, ip, out);
      DecodeExtends(mem, more, s.ip, s.out, text);
    }
  }

  /** Appending one decodable instruction to a complete stream gives a complete stream. */
  lemma CodesAppend(code: seq<byte>, instr: seq<byte>, text: seq<byte>, text': seq<byte>)
    requires Codes(code, text)
    requires instr != []
    requires DecodeStep(code + instr, |code|, text) == Next(|code| + |instr|, text')
    ensures Codes(code + instr, text')
  {
    DecodeExtends(code, instr, 0, [], text);
  }

  lemma CodesAppendLiterals(code: seq<byte>, head: seq<byte>, lits: seq<byte>, text: seq<byte>)
    requires Codes(code, text)
    requires IsRunHead(head, |lits|)
    ensures Codes(code + head + lits, text + lits)
  {
    var mem := code + (head + lits);
    assert mem[|code| + |head|..|code| + |head| + |lits|] == lits;
    assert mem[|code|] == head[0];
    assert |head| == 2 ==> mem[|code| + 1] == head[1];
    CodesAppend(code, head + lits, text, text + lits);
    assert mem == code + head + lits;
  }

  lemma CodesAppendMatch(code: seq<byte>, instr: seq<byte>, text: seq<byte>, off: nat, len: nat)
    requires Codes(code, text)
    requires 0 < off <= |text|
    requires IsMatchCode(instr, off, len)
    ensures Codes(code + instr, CopyMatch(text, off, len))
  {
    var mem := code + instr;
    assert mem[|code|] == instr[0] && mem[|code| + 1] == instr[1];
    assert |instr| == 3 ==> mem[|code| + 2] == instr[2];
    CodesAppend(code, instr, text, CopyMatch(text, off, len));
  }

  // ----- Decompression -----

  datatype Status = OK | INPUT_NOT_CONSUMED | INPUT_OVERRUN | ACCESS_FAULT

  /** Decoding never shrinks the output, so a buffer that holds the result holds every
      intermediate output. */
  lemma StepFits(mem: seq<byte>, end: nat, ip: nat, out: seq<byte>)
    requires end <= |mem| && ip < end
    ensures var s := DecodeStep(mem, ip, out);
            s.Next? ==> |s.out| <= |Decode(mem, end, ip, out).out|
  {
  }

  /** `lzo1_decompress`. `mem` is the memory at `in`, of which the first `inLen` bytes are the
      stream; the only check of the original is that it ends exactly at `inLen`. */
  method Decompress(mem: seq<byte>, inLen: nat, out: array<byte>) returns (err: Status, outLen: nat)
    requires inLen <= |mem|
    requires |Decode(mem, inLen, 0, []).out| <= out.Length
    modifies out
    ensures outLen <= out.Length && out[..outLen] == Decode(mem, inLen, 0, []).out
    ensures err == ACCESS_FAULT <==> !Decode(mem, inLen, 0, []).ok
    ensures err == OK <==> Decode(mem, inLen, 0, []).ok && Decode(mem, inLen, 0, []).ip == inLen
    ensures err != INPUT_NOT_CONSUMED
  {
    ghost var result := Decode(mem, inLen, 0, []);
    var ip: nat, op: nat := 0, 0;
    while ip < inLen
      invariant ip <= |mem| && op <= out.Length
      invariant Decode(mem, inLen, ip, out[..op]) == result
      decreases |mem| - ip
    {
      StepFits(mem, inLen, ip, out[..op]);
      var ok;
      if mem[ip] < R0MIN {
        ok, ip, op := DecompressRun(mem, ip, out, op);
      } else {
        ok, ip, op := DecompressMatch(mem, ip, out, op);
      }
      if !ok { return ACCESS_FAULT, op; }
    }
    outLen := op;
    err := if ip == inLen then OK else if ip < inLen then INPUT_NOT_CONSUMED else INPUT_OVERRUN;
  }

  /** The literal-run branch of the decompression loop. */
  method DecompressRun(mem: seq<byte>, ip: nat, out: array<byte>, op: nat) returns (ok: bool, ip': nat, op': nat)
    requires ip < |mem| && mem[ip] < R0MIN && op <= out.Length
    requires var s := DecodeStep(mem, ip, out[..op]); s.Next? ==> |s.out| <= out.Length
    modifies out
    ensures var s := DecodeStep(mem, ip, old(out[..op]));
            && op' <= out.Length
            && (ok ==> s == Next(ip', out[..op']))
            && (!ok ==> s.Wild? && out[..op'] == old(out[..op]))
  {
    hide RunHead;
    var h := ReadRunHead(mem, ip);
    if h.NoHead? { return false, ip + 1, op; }
    if h.ip + h.n > |mem| { return false, h.ip, op; }
    CopyForward(out, op, mem, h.ip, h.n);
    return true, h.ip + h.n, op + h.n;
  }

  /** The match branch of the decompression loop. */
  method DecompressMatch(mem: seq<byte>, ip: nat, out: array<byte>, op: nat) returns (ok: bool, ip': nat, op': nat)
    requires ip < |mem| && mem[ip] >= R0MIN && op <= out.Length
    requires var s := DecodeStep(mem, ip, out[..op]); s.Next? ==> |s.out| <= out.Length
    modifies out
    ensures var s := DecodeStep(mem, ip, old(out[..op]));
            && op' <= out.Length
            && (ok ==> s == Next(ip', out[..op']))
            && (!ok ==> s.Wild? && out[..op'] == old(out[..op]))
  {
    hide CopyMatch, R0Length;
    ip', op' := ip + 1, op;
    var t: nat := mem[ip];
    if ip' >= |mem| { return false, ip', op'; }
    var off := OffsetOf(t, mem[ip']);
    ip' := ip' + 1;
    var tt: nat;
    if t >= 224 {
      if ip' >= |mem| { return false, ip', op'; }
      tt := mem[ip'];
      tt := tt + (MIN_MATCH_LONG - 2);
      ip' := ip' + 1;
    } else {
      tt := t / 32;
    }
    if off > op { return false, ip', op'; }
    CopyOverlap(out, op, off, 2 + tt);
    return true, ip', op + 2 + tt;
  }

  // ----- Compression -----

  /** `store_run`: codes `rLen` literals. The output stays a complete stream, and the overhead
      is one byte plus at most one for every 32 literals. */
  method StoreRun(out: array<byte>, op: nat, text: seq<byte>, ii: nat, rLen: nat) returns (op': nat)
    requires 0 < rLen && ii + rLen <= |text|
    requires op + rLen + rLen / 32 + 1 <= out.Length
    requires Codes(out[..op], text[..ii])
    modifies out
    ensures op <= op' <= op + rLen + rLen / 32 + 1
    ensures Codes(out[..op'], text[..ii + rLen])
  {
    hide Codes;
    op' := op;
    var r: nat, p: nat := rLen, ii;
    if r >= 512 {
      var rBits := 7;
      while rBits > 0
        invariant rBits <= 7
        invariant RunState(out, op', text, p, r, ii, rLen, op)
        invariant rBits < 7 ==> r < RunSize(rBits + 1)
      {
        op', p, r := StoreChunks(out, op', [0, R0FAST - R0MIN + rBits], text, p, r, RunSize(rBits), ii, rLen, op);
        rBits := rBits - 1;
      }
      assert RunSize(1) == 512;
    }
    op', p, r := StoreChunks(out, op', [0, R0FAST - R0MIN], text, p, r, R0FAST, ii, rLen, op);
    if r >= R0MIN {
      op' := StoreChunk(out, op', [0, r - R0MIN], text, p, r);
    } else if r > 0 {
      op' := StoreChunk(out, op', [r], text, p, r);
    }
  }

  /** State inside `store_run`: `r` literals are left at `p`, and room for them remains. */
  ghost predicate RunState(out: array<byte>, op: nat, text: seq<byte>, p: nat, r: nat, ii: nat, rLen: nat, op0: nat)
    reads out
  {
    && p + r == ii + rLen <= |text|
    && op0 <= op
    && op + r + r / 32 <= op0 + rLen + rLen / 32 < out.Length
    && Codes(out[..op], text[..p])
  }

  /** Codes runs of `n` literals for as long as that many are left. */
  method StoreChunks(out: array<byte>, op: nat, head: seq<byte>, text: seq<byte>, p: nat, r: nat, n: nat,
                     ghost ii: nat, ghost rLen: nat, ghost op0: nat)
    returns (op': nat, p': nat, r': nat)
    requires RunState(out, op, text, p, r, ii, rLen, op0)
    requires IsRunHead(head, n) && n >= R0FAST
    modifies out
    ensures RunState(out, op', text, p', r', ii, rLen, op0)
    ensures r' < n && r' <= r
  {
    op', p', r' := op, p, r;
    while r' >= n
      invariant r' <= r
      invariant RunState(out, op', text, p', r', ii, rLen, op0)
      decreases r'
    {
      op' := StoreChunk(out, op', head, text, p', n);
      r', p' := r' - n, p' + n;
    }
  }

  /** A run header followed by its literals. */
  method StoreChunk(out: array<byte>, op: nat, head: seq<byte>, text: seq<byte>, p: nat, n: nat) returns (op': nat)
    requires p + n <= |text| && op + |head| + n <= out.Length
    requires Codes(out[..op], text[..p])
    requires IsRunHead(head, n)
    modifies out
    ensures op' == op + |head| + n
    ensures Codes(out[..op'], text[..p + n])
  {
    hide Codes, IsRunHead;
    ghost var code := out[..op];
    CopyForward(out, op, head, 0, |head|);
    assert out[..op + |head|] == code + head;
    op' := op + |head|;
    CopyForward(out, op', text, p, n);
    op' := op' + n;
    assert out[..op'] == code + head + text[p..p + n];
    assert text[..p] + text[p..p + n] == text[..p + n];
    CodesAppendLiterals(code, head, text[p..p + n], text[..p]);
  }

  /** Every dictionary entry is empty (-1) or a position strictly before `ip`. */
  ghost predicate Dictionary(dict: array<int>, ip: nat)
    reads dict
  {
    dict.Length == D_SIZE && forall k :: 0 <= k < D_SIZE ==> -1 <= dict[k] < ip
  }

  /** `LZO_CHECK_MPOS_DET`, negated: the entry is set and not too far back. */
  predicate Near(ip: nat, entry: int) {
    entry != -1 && ip - entry <= MAX_OFFSET
  }

  /** Looks for three matching bytes in two dictionary slots, and records `ip` in the slot
      probed last. `mPos` is -1 when the byte at `ip` becomes a literal. */
  method Probe(text: seq<byte>, ip: nat, dict: array<int>) returns (mPos: int)
    requires ip + DVAL_LEN <= |text|
    requires Dictionary(dict, ip)
    modifies dict
    ensures Dictionary(dict, ip + 1)
    ensures mPos == -1 || (0 <= mPos < ip <= mPos + MAX_OFFSET && Repeats(text, ip, ip - mPos, MIN_MATCH))
    ensures var d1 := Dindex1(text, ip); var d2 := Dindex2(d1);
            var e1, e2 := old(dict[d1]), old(dict[d2]);
            if Near(ip, e1) && !ThreeEqual(text, e1, ip) then
              && mPos == (if Near(ip, e2) && ThreeEqual(text, e2, ip) then e2 else -1)
              && dict[..] == old(dict[..])[d2 := ip]
            else
              && mPos == (if Near(ip, e1) then e1 else -1)
              && dict[..] == old(dict[..])[d1 := ip]
  {
    var dindex := Dindex1(text, ip);
    mPos := dict[dindex];
    if Near(ip, mPos) {
      if !ThreeEqual(text, mPos, ip) {
        dindex := Dindex2(dindex);
        mPos := dict[dindex];
        if !(Near(ip, mPos) && ThreeEqual(text, mPos, ip)) {
          mPos := -1;
        }
      }
    } else {
      mPos := -1;
    }
    dict[dindex] := ip;
  }

  /** Codes the match `text[ii..ip]` in two or three bytes, fewer than it covers. */
  method CodeMatch(text: seq<byte>, out: array<byte>, op: nat, ii: nat, ip: nat, mOff: nat) returns (op': nat)
    requires ii + MIN_MATCH <= ip <= ii + MAX_MATCH_LONG && mOff <= MAX_OFFSET
    requires Repeats(text, ii, mOff, ip - ii)
    requires op + 3 <= out.Length
    requires Codes(out[..op], text[..ii])
    modifies out
    ensures op < op' <= op + 3 && op' - op < ip - ii
    ensures Codes(out[..op'], text[..ip])
  {
    hide Codes;
    ghost var code := out[..op];
    var instr := MatchCode(mOff, ip - ii);
    MatchCoded(code, text, ii, ip, mOff);
    CopyForward(out, op, instr, 0, |instr|);
    op' := op + |instr|;
    assert out[..op'] == code + instr;
  }

  lemma MatchCoded(code: seq<byte>, text: seq<byte>, ii: nat, ip: nat, mOff: nat)
    requires ii + MIN_MATCH <= ip <= ii + MAX_MATCH_LONG && mOff <= MAX_OFFSET
    requires Repeats(text, ii, mOff, ip - ii)
    requires Codes(code, text[..ii])
    ensures Codes(code + MatchCode(mOff, ip - ii), text[..ip])
  {
    hide Codes;
    CodesAppendMatch(code, MatchCode(mOff, ip - ii), text[..ii], mOff, ip - ii);
    CopyRepeats(text, ii, mOff, ip - ii);
  }

  /** `do_compress`. */
  method DoCompress(text: seq<byte>, out: array<byte>, dict: array<int>) returns (outLen: nat)
    requires |text| > MIN_MATCH_LONG + DVAL_LEN + 1
    requires out.Length >= |text| + |text| / 32 + 1
    requires dict.Length == D_SIZE
    modifies out, dict
    ensures outLen <= |text| + |text| / 32 + 1
    ensures Codes(out[..outLen], text)
  {
    hide Codes, Repeats;
    var ipEnd := |text| - DVAL_LEN - MIN_MATCH_LONG;
    var inEnd := |text| - DVAL_LEN;
    var op: nat, ip: nat, ii: nat := 0, 0, 0;
    forall k | 0 <= k < dict.Length { dict[k] := -1; }
    dict[Dindex(DvalFirst(text, ip))] := ip;
    ip := ip + 1;
    CodesNothing();
    assert out[..op] == [] && text[..ii] == [];
    while ip < ipEnd
      invariant 0 <= ii <= ip <= inEnd
      invariant op <= ii + ii / 32
      invariant Codes(out[..op], text[..ii])
      invariant Dictionary(dict, ip)
    {
      var mPos := Probe(text, ip, dict);
      if mPos == -1 {
        ip := ip + 1;
      } else {
        op, ip := EmitMatch(text, out, op, ii, ip, mPos, inEnd);
        ii := ip;
      }
    }
    outLen := StoreRun(out, op, text, ii, |text| - ii);
    assert text[..|text|] == text;
  }

  /** Codes the literals before a match and the match itself, as long as it goes. */
  method EmitMatch(text: seq<byte>, out: array<byte>, op: nat, ii: nat, ip: nat, mPos: nat, inEnd: nat)
    returns (op': nat, ip': nat)
    requires out.Length >= |text| + |text| / 32 + 1 && op <= ii + ii / 32
    requires ii <= ip && ip + MIN_MATCH_LONG <= inEnd <= |text|
    requires Codes(out[..op], text[..ii])
    requires mPos < ip <= mPos + MAX_OFFSET && Repeats(text, ip, ip - mPos, MIN_MATCH)
    modifies out
    ensures ip < ip' <= inEnd && op' <= ip' + ip' / 32 && Codes(out[..op'], text[..ip'])
  {
    hide Codes, Repeats;
    op' := op;
    if ip > ii {
      op' := StoreRun(out, op', text, ii, ip - ii);
    }
    ip' := MeasureMatch(text, inEnd, ip, ip - mPos);
    op' := CodeMatch(text, out, op', ip, ip', ip - mPos);
  }

  /** `lzo1_compress`: for every text and every prior content of the work memory, the output is a
      complete stream for the text, no longer than the text plus one byte and a thirty-second. */
  method Compress(text: seq<byte>, out: array<byte>, dict: array<int>) returns (outLen: nat)
    requires out.Length >= |text| + |text| / 32 + 1
    requires dict.Length == D_SIZE
    modifies out, dict
    ensures outLen <= |text| + |text| / 32 + 1
    ensures Codes(out[..outLen], text)
  {
    if |text| == 0 {
      outLen := 0;
    } else if |text| <= MIN_MATCH_LONG + DVAL_LEN + 1 {
      outLen := StoreRun(out, 0, text, 0, |text|);
      assert text[..|text|] == text;
    } else {
      outLen := DoCompress(text, out, dict);
    }
  }

  /** The round trip as a caller sees it: decompressing what `Compress` wrote reports OK,
      consumes all of it, and restores the text. */
  method RoundTrip(text: seq<byte>) returns (err: Status, back: seq<byte>)
    ensures err == OK && back == text
  {
    var out := new byte[|text| + |text| / 32 + 1];
    var dict := new int[D_SIZE];
    var n := Compress(text, out, dict);
    var plain := new byte[|text|];
    var len;
    err, len := Decompress(out[..n], n, plain);
    back := plain[..len];
  }
}
