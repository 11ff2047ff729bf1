/** The LZO1X-999 and LZO1Y-999 encoder (`lzo1x_9x.c`) over its sliding-window match finder. */
module Lzo1xEncoder {
  import opened Bytes
  import opened Lz77
  import opened Lzo1xFormat
  import opened Lzo1xCopy
  import opened Lzo1xDecoder
  import opened Lzo1xStream
  import opened MatchFinder

  const SWD_BEST_OFF: nat := 34
  const LOOKAHEAD: nat := 2048

  /** `len` bytes at `p` repeat what lies `off` before them in the dictionary and the text. */
  ghost predicate TrueMatch(dict: seq<byte>, text: seq<byte>, p: nat, len: nat, off: nat) {
    off <= M4_MAX_OFFSET && Repeats(dict + text, |dict| + p, off, len)
  }

  /** Every match reported at `p`, and every shorter one kept by length, is really there. */
  ghost predicate HonestAt(dict: seq<byte>, text: seq<byte>, p: nat, f: Found) {
    && |f.best| == SWD_BEST_OFF
    && (f.len >= 2 ==>
          && TrueMatch(dict, text, p, f.len, f.off)
          && forall i :: 2 <= i < SWD_BEST_OFF && f.best[i] != 0 ==> TrueMatch(dict, text, p, i, f.best[i]))
  }

  lemma {:induction false} TrueHonest(dict: seq<byte>, text: seq<byte>, p: nat, f: Found)
    requires TrueAt(dict + text, |dict| + p, M4_MAX_OFFSET, f) && |f.best| == SWD_BEST_OFF
    ensures HonestAt(dict, text, p, f)
  {
    hide Repeats;
  }

  /** A shorter true match at the same offset. */
  lemma Shortened(dict: seq<byte>, text: seq<byte>, p: nat, len: nat, off: nat, k: nat)
    requires TrueMatch(dict, text, p, len, off) && k <= len
    ensures TrueMatch(dict, text, p, k, off)
  {
  }

  /** Decoding a true match reproduces the text. */
  lemma CopyTrueMatch(dict: seq<byte>, text: seq<byte>, p: nat, len: nat, off: nat)
    requires TrueMatch(dict, text, p, len, off)
    ensures 0 < off <= |dict| + p && p + len <= |text|
    ensures CopyVirtual(dict, text[..p], off, len) == text[..p + len]
  {
    var all := dict + text;
    CopyRepeats(all, |dict| + p, off, len);
    assert all[..|dict| + p] == dict + text[..p];
    assert all[..|dict| + p + len] == dict + text[..p + len];
  }

  /** `min_gain`. */
  function MinGain(ahead: nat, lit1: nat, lit2: nat, l1: int, l2: int, l3: int): (g: int)
    ensures g >= 0
    ensures var d := ahead + 2 * (l2 - l1) - (if l3 > 0 then 2 * (ahead - l3) else 0);
            d <= g && (g == 0 || g <= d + (if lit1 <= 3 < lit2 then 2 else if 3 < lit1 <= 18 < lit2 then 1 else 0))
  {
    var literals := if lit1 <= 3 then (if lit2 <= 3 then 0 else 2)
                    else if lit1 <= 18 then (if lit2 <= 18 then 0 else 1)
                    else 0;
    var g := ahead + literals + (l2 - l1) * 2 - (if l3 > 0 then (ahead - l3) * 2 else 0);
    if g < 0 then 0 else g
  }

  /** A lazy match that clears the gain saves more bytes than the match it displaces, counting
      what is kept of that one. */
  lemma LazySaves(ahead: nat, lit1: nat, lit2: nat, l1: int, l2: int, l3: int, mLen: nat, len: nat)
    requires 1 <= ahead && len >= mLen + MinGain(ahead, lit1, lit2, l1, l2, l3)
    ensures (len - l2) + (if l3 > 0 then ahead - l3 else 0) > mLen - l1
  {
    var d := l2 - l1 - (if l3 > 0 then ahead - l3 else 0);
    if d >= 0 {
      assert len >= mLen + ahead + 2 * d;
    }
  }

  /** What coding a match saves beyond the head of a run of `lit` literals before it. */
  function Saving(v: Variant, len: nat, off: nat, lit: nat): (n: nat) {
    var c := CodedLength(v, len, off, lit);
    var head := if lit >= 4 then 1 else 0;
    if 0 < c <= len - head then len - c - head else 0
  }

  /** A match worth taking still is when the literals before it have been coded. */
  lemma SavingAlone(v: Variant, len: nat, off: nat, lit: nat)
    requires len >= 3 && 0 < off && CodedLength(v, len, off, lit) > 0
    ensures len - CodedLength(v, len, off, lit) - 1 <= Saving(v, len, off, 0)
  {
    CodedLengthExact(v, len, off, lit);
    CodedLengthExact(v, len, off, 0);
  }

  /** Bytes that announce a run of `t` literals. */
  function HeadSize(first: bool, t: nat): nat {
    if t == 0 then 0
    else if first && t <= 238 then 1
    else if t <= 3 then 0
    else if t <= 18 then 1
    else 2 + (t - 19) / 255
  }

  /** A run and the match behind it grow the output by little more than the text they code. */
  lemma HeadBound(first: bool, t: nat, len: nat)
    requires len >= 2 && (t >= 4 ==> len >= 3)
    ensures HeadSize(first, t) <= (if first || t >= 4 then 1 else 0) + (t + len) / 22
  {
    if t >= 19 {
      assert (t - 19) / 255 <= (t - 19) / 22;
    }
  }

  /** The limit on the output for `n` coded bytes. */
  function Limit(n: nat): nat { n + n / 22 + 1 }

  lemma LimitSum(m: nat, n: nat)
    ensures Limit(m) + n + n / 22 <= Limit(m + n)
  {
  }

  /** Coding `t` literals and `len` matched bytes in `c` bytes. */
  lemma SizeStep(size: nat, ii: nat, t: nat, len: nat, c: nat, owed: int)
    requires len >= 2 && (t >= 4 ==> len >= 3)
    requires size <= Limit(ii) + owed
    ensures size + t + HeadSize(false, t) + c <= Limit(ii + t + len) + owed + c - len + (if t >= 4 then 1 else 0)
  {
    HeadBound(false, t, len);
    LimitSum(ii, t + len);
    hide HeadSize, Limit;
  }

  lemma SizeFirst(t: nat, len: nat, c: nat)
    requires len >= 2 && (t >= 4 ==> len >= 3) && c <= len
    ensures t + HeadSize(true, t) + c <= Limit(t + len)
  {
    HeadBound(true, t, len);
    hide HeadSize;
  }

  /** A match that is no longer than the text it stands for, counting the head of the run before it. */
  ghost predicate WorthCoding(v: Variant, len: nat, off: nat, lit: nat) {
    0 < CodedLength(v, len, off, lit) <= len - (if lit >= 4 then 1 else 0)
  }

  /** What the encoder accepts is worth coding, also after `better_match`. */
  lemma WorthTaking(v: Variant, len: nat, off: nat, lit: nat, len': nat, off': nat)
    requires 0 < off <= M4_MAX_OFFSET && 0 < off'
    requires Codable(ModeOf(lit), len', off')
    requires Codable(ModeOf(lit), len, off) && !(len == M2_MIN_LEN && off > v.MxMaxOffset() && lit >= 4)
    requires (len' == len && off' == off) || CodedLength(v, len', off', lit) + (len - len') <= CodedLength(v, len, off, lit)
    ensures WorthCoding(v, len', off', lit) && Saving(v, len, off, lit) <= Saving(v, len', off', lit)
  {
    CodedLengthExact(v, len, off, lit);
    CodedLengthExact(v, len', off', lit);
    assert WorthCoding(v, len, off, lit);
    hide CodedLength;
  }

  /** What it does not accept saves nothing. */
  lemma NothingSaved(v: Variant, len: nat, off: nat, lit: nat)
    requires len <= 2 || (len == M2_MIN_LEN && off > v.MxMaxOffset() && lit >= 4)
    ensures Saving(v, len, off, lit) == 0
  {
  }

  lemma LastRun(size: nat, ii: nat, t: nat, first: bool)
    requires size <= Limit(ii)
    ensures size + t + HeadSize(first, t) + 3 <= Limit(ii + t) + 5
  {
    LimitSum(ii, t);
    assert HeadSize(first, t) <= 2 + t / 22 by {
      assert t >= 19 ==> (t - 19) / 255 <= t / 22;
    }
    hide HeadSize, Limit;
  }

  /** Coding it pays what it owes. */
  lemma SizeTaken(v: Variant, size: nat, ii: nat, lit: nat, mLen: nat, mOff: nat)
    requires 0 < mOff && Codable(ModeOf(lit), mLen, mOff)
    requires WorthCoding(v, mLen, mOff, lit) && size <= Limit(ii) + Saving(v, mLen, mOff, lit)
    ensures size + lit + HeadSize(false, lit) + CodedLength(v, mLen, mOff, lit) <= Limit(ii + lit + mLen)
    ensures lit + HeadSize(true, lit) + CodedLength(v, mLen, mOff, lit) <= Limit(ii + lit + mLen)
  {
    hide CodedLength, Limit, HeadSize;
    SizeStep(size, ii, lit, mLen, CodedLength(v, mLen, mOff, lit), Saving(v, mLen, mOff, lit));
    SizeFirst(lit, mLen, CodedLength(v, mLen, mOff, lit));
    LimitSum(lit + mLen, ii);
  }

  /** Coding the match shortened to `ahead` bytes leaves no more owing than the lazy match will save. */
  lemma SizeShortened(v: Variant, size: nat, ii: nat, lit: nat, ahead: nat, mLen: nat, mOff: nat, f: Found)
    requires 0 < mOff && 0 < f.off && mLen <= f.len && ahead < mLen
    requires WorthCoding(v, mLen, mOff, lit) && size <= Limit(ii) + Saving(v, mLen, mOff, lit)
    requires Codable(ModeOf(lit), ahead, mOff) && CodedLength(v, f.len, f.off, lit + ahead) > 0
    requires (f.len - CodedLength(v, f.len, f.off, lit + ahead)) + (ahead - CodedLength(v, ahead, mOff, lit))
           > mLen - CodedLength(v, mLen, mOff, lit)
    ensures size + lit + HeadSize(false, lit) + CodedLength(v, ahead, mOff, lit)
         <= Limit(ii + lit + ahead) + Saving(v, f.len, f.off, 0)
  {
    hide CodedLength, Limit, HeadSize;
    CodedLengthExact(v, ahead, mOff, lit);
    SizeStep(size, ii, lit, ahead, CodedLength(v, ahead, mOff, lit), Saving(v, mLen, mOff, lit));
    SavingAlone(v, f.len, f.off, lit + ahead);
  }

  /** Holding `ahead` more literals back leaves no more owing than the lazy match will save. */
  lemma SizeHeld(v: Variant, lit: nat, ahead: nat, mLen: nat, mOff: nat, f: Found)
    requires WorthCoding(v, mLen, mOff, lit) && CodedLength(v, f.len, f.off, lit + ahead) > 0
    requires f.len - CodedLength(v, f.len, f.off, lit + ahead) > mLen - CodedLength(v, mLen, mOff, lit)
    ensures Saving(v, mLen, mOff, lit) <= Saving(v, f.len, f.off, lit + ahead)
  {
    hide CodedLength;
  }

  /** `better_match`: gives up one or two bytes of a match for a closer one. The result is again
      a true match, and its code is shorter by at least as many bytes as were given up. */
  method BetterMatch(v: Variant, best: seq<nat>, len: nat, off: nat,
                     ghost dict: seq<byte>, ghost text: seq<byte>, ghost p: nat)
    returns (len': nat, off': nat)
    requires len >= 2 && TrueMatch(dict, text, p, len, off)
    requires HonestAt(dict, text, p, Found(len, off, best))
    ensures TrueMatch(dict, text, p, len', off')
    ensures (len' == len && off' == off) || (M2_MIN_LEN <= len' < len <= len' + 2 && off' < off)
    ensures forall lit: nat :: len' < len ==>
              CodedLength(v, len', off', lit) + (len - len') <= CodedLength(v, len, off, lit)
    ensures 4 <= len <= v.M2MaxLen() + 1 && off > v.M2MaxOffset() && 0 < best[len - 1] <= v.M2MaxOffset() ==>
              len' == len - 1 && off' == best[len - 1]
    ensures 10 <= len <= 34 && off > 16384 && 0 < best[len - 1] <= 16384 ==> len' < len
  {
    if len <= M2_MIN_LEN || off <= v.M2MaxOffset() { return len, off; }
    if M2_MIN_LEN + 1 <= len <= v.M2MaxLen() + 1 && 0 < best[len - 1] <= v.M2MaxOffset() {
      return len - 1, best[len - 1];
    }
    if off > M3_MAX_OFFSET && M4_MAX_LEN + 1 <= len <= v.M2MaxLen() + 2 && 0 < best[len - 2] <= v.M2MaxOffset() {
      return len - 2, best[len - 2];
    }
    if off > M3_MAX_OFFSET && M4_MAX_LEN + 1 <= len <= M3_MAX_LEN + 1 && 0 < best[len - 1] <= M3_MAX_OFFSET {
      return len - 1, best[len - 1];
    }
    return len, off;
  }

  /** What `STORE_RUN` makes of the output. */
  function Stored(code: seq<byte>, lits: seq<byte>): seq<byte>
    requires lits != []
    requires code == [] || (|code| >= 2 && code[|code| - 2] % 4 == 0)
  {
    if code == [] then FirstRun(lits)
    else if |lits| <= 3 then Patch(code, |lits|) + lits
    else code + (RunInstr(|lits|) + lits)
  }

  lemma StoredSize(code: seq<byte>, lits: seq<byte>)
    requires lits != []
    requires code == [] || (|code| >= 2 && code[|code| - 2] % 4 == 0)
    ensures |Stored(code, lits)| == |code| + |lits| + HeadSize(code == [], |lits|)
  {
    hide LongCode;
  }

  /** The output codes `text`, and can take any number of literals or a match. */
  ghost predicate Coded(z: Setup, code: seq<byte>, text: seq<byte>) {
    if code == [] then text == [] else Pending(z, code, text)
  }

  /** A stored run leads the decoder to the mode that its length implies. */
  lemma StoredLeads(z: Setup, code: seq<byte>, text: seq<byte>, lits: seq<byte>)
    requires Coded(z, code, text) && lits != [] && |text| + |lits| <= z.cap
    ensures code == [] || (|code| >= 2 && code[|code| - 2] % 4 == 0)
    ensures Leads(z, Stored(code, lits), ModeOf(|lits|), text + lits)
  {
    hide Leads, RunInstr, FirstRun;
    if code == [] {
      LeadsFirst(z, lits);
      assert text + lits == lits;
    } else if |lits| <= 3 {
      assert PendingWith(z, code, text, lits);
    } else {
      NoLiterals(z, code, text);
      LeadsRun(z, code, text, lits);
    }
  }

  lemma NoLiterals(z: Setup, code: seq<byte>, text: seq<byte>)
    requires Pending(z, code, text) && |text| <= z.cap
    ensures Leads(z, code, Top, text)
  {
    hide Leads;
    assert PendingWith(z, code, text, []);
    assert Patch(code, 0) + [] == code;
    assert text + [] == text;
  }

  /** `LZO_COMPRESS_T` together with the output written so far. */
  class Compressor {
    const v: Variant
    const text: seq<byte>
    const window: Window
    var out: seq<byte>
    var bp: nat
    var look: nat
    var textsize: nat
    var found: Found
    var r1Lit: nat
    var r1MLen: nat
    var litBytes: nat
    var matchBytes: nat
    var lazy: nat

    constructor (v: Variant, dict: seq<byte>, text: seq<byte>, useBestOff: bool)
      ensures this.v == v && this.text == text && window.useBestOff == useBestOff
      ensures out == [] && bp == 0 && textsize == 0
      ensures r1Lit == 0 && r1MLen == 0 && litBytes == 0 && matchBytes == 0 && lazy == 0
      ensures Sliding(Tail(dict, M4_MAX_OFFSET)) && window.pos == |Tail(dict, M4_MAX_OFFSET)|
      ensures fresh(Footprint())
    {
      var w := new Window(dict, text, M4_MAX_OFFSET, LOOKAHEAD, SWD_BEST_OFF, useBestOff);
      this.v, this.text, window := v, text, w;
      out, bp, textsize, look := [], 0, 0, 0;
      found := Found(0, 0, seq(SWD_BEST_OFF, i => 0));
      r1Lit, r1MLen, litBytes, matchBytes, lazy := 0, 0, 0, 0, 0;
    }

    ghost function Footprint(): set<object> {
      {window, window.b, window.head3, window.llen3, window.succ3, window.best3, window.head2}
    }

    /** The match finder slides over the dictionary and the text. */
    ghost predicate Sliding(dict: seq<byte>)
      reads window, window.b, window.head3, window.llen3, window.succ3, window.best3, window.head2
    {
      && window.Valid()
      && window.n == M4_MAX_OFFSET && window.f == LOOKAHEAD && window.bestSize == SWD_BEST_OFF
      && window.text == dict + text && window.start == |dict|
    }

    /** It has just searched at `bp`. */
    ghost predicate Tracks(dict: seq<byte>)
      reads this`bp, this`found, this`look, window, window.b, window.head3, window.llen3, window.succ3, window.best3, window.head2
    {
      && Sliding(dict) && window.pos == |dict| + bp + 1
      && bp <= |text| && look == Look() && found.len <= LOOKAHEAD
    }

    /** Bytes in the look-ahead buffer. */
    ghost function Look(): (n: nat)
      reads this`bp
      requires bp <= |text|
    {
      if |text| - bp > LOOKAHEAD then LOOKAHEAD + 1 else |text| - bp
    }

    /** `find_match`: accepts the bytes of a match, or one byte, and searches at the new position. */
    method FindMatch(ghost dict: seq<byte>, thisLen: nat, skip: nat, maxChain: nat)
      requires skip == 0 ==> thisLen <= 1
      requires skip > 0 ==> skip <= thisLen && thisLen - skip <= LOOKAHEAD
      requires Sliding(dict) && window.pos == |dict| + bp + (if thisLen == 0 then 0 else 1)
      requires bp + (if skip > 0 then thisLen - skip + 1 else thisLen) <= |text|
      modifies this`bp, this`textsize, this`found, this`look, Footprint()
      ensures bp == old(bp) + (if skip > 0 then thisLen - skip + 1 else thisLen)
      ensures textsize - old(textsize) == bp - old(bp)
      ensures Tracks(dict) && HonestAt(dict, text, bp, found)
    {
      hide Window.Sound, Window.Clock, Window.BestKept, Window.BestBounded, LongestSince, TrueAt, HonestAt;
      if skip > 0 {
        window.Reach(thisLen - skip);
      }
      textsize := textsize + if skip > 0 then thisLen - skip + 1 else thisLen;
      var at;
      found, look, at := window.FindMatch(thisLen, skip, maxChain);
      bp := at - window.start;
      TrueHonest(dict, text, bp, found);
    }

    /** The zero-padded count of long runs and matches. */
    method PutCount(n: nat)
      requires 0 < n
      modifies this`out
      ensures out == old(out) + LongCode(n)
    {
      var m: nat := n;
      while m > 255
        invariant 0 < m && out + LongCode(m) == old(out) + LongCode(n)
      {
        ghost var before := out;
        out := out + [0];
        m := m - 255;
        assert out + LongCode(m) == before + ([0] + LongCode(m));
      }
      out := out + [m];
    }

    /** `code_match`. */
    method CodeMatch(mLen: nat, mOff: nat)
      requires Codable(ModeOf(r1Lit), mLen, mOff)
      modifies this`out, this`matchBytes
      ensures out == old(out) + MatchInstr(v, ModeOf(r1Lit), mLen, mOff)
      ensures matchBytes == old(matchBytes) + mLen
    {
      hide Lengthened;
      matchBytes := matchBytes + mLen;
      if mLen == 2 {
        out := out + M1Instr(mOff - 1);
      } else if mLen <= v.M2MaxLen() && mOff <= v.M2MaxOffset() {
        out := out + M2Instr(v, mLen, mOff - 1);
      } else if mLen == M2_MIN_LEN && mOff <= v.MxMaxOffset() && r1Lit >= 4 {
        out := out + M1Instr(mOff - (1 + v.M2MaxOffset()));
      } else if mOff <= M3_MAX_OFFSET {
        PutLength(M3_MARKER, M3_MAX_LEN, mLen);
        out := out + OffsetBytes(mOff - 1);
        assert out == old(out) + (Lengthened(M3_MARKER, M3_MAX_LEN, mLen) + OffsetBytes(mOff - 1));
      } else {
        var o := mOff - 0x4000;
        PutLength(M4_MARKER + o / 0x4000 * 8, M4_MAX_LEN, mLen);
        out := out + OffsetBytes(o);
        assert out == old(out) + (Lengthened(M4_MARKER + o / 0x4000 * 8, M4_MAX_LEN, mLen) + OffsetBytes(o));
      }
    }

    method PutLength(marker: nat, max: nat, mLen: nat)
      requires 3 <= mLen && 3 <= max && marker + max - 2 < 256
      modifies this`out
      ensures out == old(out) + Lengthened(marker, max, mLen)
    {
      hide LongCode;
      if mLen <= max {
        out := out + [marker + mLen - 2];
      } else {
        out := out + [marker];
        PutCount(mLen - max);
        assert out == old(out) + ([marker] + LongCode(mLen - max));
      }
    }

    method PutRunHead(t: nat)
      requires t >= 4
      modifies this`out
      ensures out == old(out) + RunInstr(t)
    {
      hide LongCode;
      if t <= 18 {
        out := out + [t - 3];
      } else {
        out := out + [0];
        PutCount(t - 18);
        assert out == old(out) + ([0] + LongCode(t - 18));
      }
    }

    /** `STORE_RUN`. A run of up to three literals is counted in a byte already written. */
    method StoreRun(ii: nat, t: nat)
      requires 0 < t && ii + t <= |text|
      requires out == [] || (|out| >= 2 && out[|out| - 2] % 4 == 0)
      modifies this`out, this`litBytes
      ensures out == Stored(old(out), text[ii..ii + t])
      ensures litBytes == old(litBytes) + t
    {
      hide LongCode;
      litBytes := litBytes + t;
      ghost var was, lits := out, text[ii..ii + t];
      if out == [] && t <= 238 {
        out := out + [17 + t];
        assert out + lits == FirstRun(lits);
      } else if t <= 3 {
        OrLowBits(out[|out| - 2], t);
        out := out[|out| - 2 := Or(out[|out| - 2], t)];
        assert out + lits == Stored(was, lits);
      } else {
        PutRunHead(t);
        assert out + lits == was + (RunInstr(t) + lits);
      }
      out := out + text[ii..ii + t];
    }

    /** `code_run`. */
    method CodeRun(ii: nat, lit: nat, mLen: nat)
      requires ii + lit <= |text|
      requires out == [] || (|out| >= 2 && out[|out| - 2] % 4 == 0)
      modifies this`out, this`litBytes, this`r1Lit, this`r1MLen
      ensures out == if lit > 0 then Stored(old(out), text[ii..ii + lit]) else old(out)
      ensures litBytes == old(litBytes) + lit
      ensures r1Lit == lit && r1MLen == if lit > 0 then mLen else 0
    {
      if lit > 0 {
        StoreRun(ii, lit);
        r1MLen, r1Lit := mLen, lit;
      } else {
        r1MLen, r1Lit := 0, 0;
      }
    }

    /** The encoder's state at the head of its loop: `text[..bp - lit]` is coded, `lit` literals
        are held back, and every byte is accounted for. */
    ghost predicate Ready(z: Setup, lit: nat)
      reads this
    {
      && z.v == v && z.cap == |text|
      && lit <= bp <= |text|
      && textsize == bp
      && litBytes + matchBytes == bp - lit
      && Coded(z, out, text[..bp - lit])
    }

    /** The output is within its limit, except for bytes that the match just found will save. */
    ghost predicate Small(lit: nat)
      reads this`out, this`bp, this`found
    {
      lit <= bp && |out| <= Limit(bp - lit) + Saving(v, found.len, found.off, lit)
    }

    /** Codes the held-back literals and a true match behind them. */
    method CodeBoth(ghost z: Setup, ii: nat, lit: nat, mLen: nat, mOff: nat)
      requires z.v == v && z.cap == |text|
      requires ii + lit <= |text| && Coded(z, out, text[..ii])
      requires out != [] || lit > 0
      requires Codable(ModeOf(lit), mLen, mOff) && TrueMatch(z.dict, text, ii + lit, mLen, mOff)
      modifies this`out, this`litBytes, this`matchBytes, this`r1Lit, this`r1MLen
      ensures out != [] && Coded(z, out, text[..ii + lit + mLen])
      ensures litBytes == old(litBytes) + lit && matchBytes == old(matchBytes) + mLen
      ensures |out| == |old(out)| + lit + HeadSize(old(out) == [], lit) + CodedLength(v, mLen, mOff, lit)
    {
      hide Leads, Pending, MatchInstr, CopyVirtual, Stored, CodedLength;
      CodedLengthExact(v, mLen, mOff, lit);
      assert text[..ii] + text[ii..ii + lit] == text[..ii + lit];
      if lit > 0 {
        StoredLeads(z, out, text[..ii], text[ii..ii + lit]);
        StoredSize(out, text[ii..ii + lit]);
      } else {
        PendingShape(z, out, text[..ii]);
        NoLiterals(z, out, text[..ii]);
      }
      CodeRun(ii, lit, mLen);
      assert Leads(z, out, ModeOf(lit), text[..ii + lit]);
      CopyTrueMatch(z.dict, text, ii + lit, mLen, mOff);
      LeadsMatch(z, out, ModeOf(lit), text[..ii + lit], mLen, mOff);
      CodeMatch(mLen, mOff);
    }

    /** Whether the match found at `bp` is taken, with `lit` literals held back. */
    predicate Accepts(lit: nat)
      reads this
    {
      && found.len >= 2
      && !(found.len == 2 && (found.off > M1_MAX_OFFSET || lit == 0 || lit >= 4))
      && !(found.len == 2 && out == [])
      && !(out == [] && lit == 0)
      && !(found.len == M2_MIN_LEN && found.off > v.MxMaxOffset() && lit >= 4)
    }

    /** That is exactly when its code and the head of the run before it are no longer than the match, and there is
        something before it to follow: the stream starts with a literal, and a two-byte match needs one before it
        that was not the first run. */
    lemma AcceptsExact(lit: nat)
      requires found.len >= 2 ==> 0 < found.off <= 49151
      ensures Accepts(lit) <==>
                found.len >= 2 && WorthCoding(v, found.len, found.off, lit) && (out != [] || (lit > 0 && found.len > 2))
    {
      if found.len >= 2 {
        CodedLengthExact(v, found.len, found.off, lit);
      }
    }

    /** Weighs the match found `ahead` positions behind an accepted one. `l3` is the code size of
        the accepted match shortened to `ahead` bytes, when that can be coded. */
    method Weigh(ghost z: Setup, lit: nat, ahead: nat, mLen: nat, mOff: nat, l1: int)
      returns (pays: bool, l3: int)
      requires HonestAt(z.dict, text, bp, found) && 0 < mOff && 2 <= mLen && 1 <= ahead
      modifies this`found
      ensures HonestAt(z.dict, text, bp, found) && found.len <= old(found.len)
      ensures pays ==> found.len >= mLen && 0 < found.off
      ensures l3 > 0 ==> out != [] && Codable(ModeOf(lit), ahead, mOff) && l3 == CodedLength(v, ahead, mOff, lit)
      ensures var l2 := CodedLength(v, found.len, found.off, lit + ahead);
        pays <==>
          && (old(found.len) > mLen || (old(found.len) == mLen && old(found.off) < mOff)) && 0 < l2
          && found.len >= mLen + MinGain(ahead, lit, lit + ahead, l1, l2, if out == [] then -1 else CodedLength(v, ahead, mOff, lit))
      ensures pays ==>
        var l2 := CodedLength(v, found.len, found.off, lit + ahead);
        0 < l2 && (found.len - l2) + (if l3 > 0 then ahead - l3 else 0) > mLen - l1
    {
      hide CodedLength, MinGain, MatchInstr, TrueMatch;
      l3 := -1;
      if found.len < mLen { return false, l3; }
      if found.len == mLen && found.off >= mOff { return false, l3; }
      if window.useBestOff {
        var bLen, bOff := BetterMatch(v, found.best, found.len, found.off, z.dict, text, bp);
        found := Found(bLen, bOff, found.best);
      }
      OffsetLimit(z.dict, text, bp, found.len, found.off);
      CodedLengthExact(v, found.len, found.off, lit + ahead);
      var l2 := LenOfCodedMatch(v, found.len, found.off, lit + ahead);
      if l2 < 0 { return false, l3; }
      if out != [] {
        l3 := LenOfCodedMatch(v, ahead, mOff, lit);
        CodedLengthExact(v, ahead, mOff, lit);
      }
      pays := found.len >= mLen + MinGain(ahead, lit, lit + ahead, l1, l2, l3);
      if pays {
        LazySaves(ahead, lit, lit + ahead, l1, l2, l3, mLen, found.len);
      }
    }

    /** Turns the bytes before a lazy match into a shortened match or into literals. */
    method TakeLazy(ghost z: Setup, ii: nat, lit: nat, ahead: nat, mLen: nat, mOff: nat, l3: int) returns (lit': nat)
      requires Ready(z, lit + ahead) && ii == bp - ahead - lit && 0 < mOff && mLen <= found.len && ahead < mLen && 0 < found.off
      requires TrueMatch(z.dict, text, ii + lit, mLen, mOff)
      requires l3 > 0 ==> out != [] && Codable(ModeOf(lit), ahead, mOff) && l3 == CodedLength(v, ahead, mOff, lit)
      requires var l2 := CodedLength(v, found.len, found.off, lit + ahead);
        0 < l2 && (found.len - l2) + (if l3 > 0 then ahead - l3 else 0) > mLen - CodedLength(v, mLen, mOff, lit)
      requires WorthCoding(v, mLen, mOff, lit) && |out| <= Limit(ii) + Saving(v, mLen, mOff, lit)
      modifies this`lazy, this`out, this`litBytes, this`matchBytes, this`r1Lit, this`r1MLen
      ensures Ready(z, lit') && Small(lit')
    {
      hide Coded, TrueMatch, CodedLength, Saving, Limit, WorthCoding, HeadSize;
      lazy := lazy + 1;
      if l3 > 0 {
        Shortened(z.dict, text, ii + lit, mLen, mOff, ahead);
        SizeShortened(v, |out|, ii, lit, ahead, mLen, mOff, found);
        CodeBoth(z, ii, lit, ahead, mOff);
        lit' := 0;
      } else {
        SizeHeld(v, lit, ahead, mLen, mOff, found);
        lit' := lit + ahead;
      }
    }

    /** The lazy-match loop: looks up to `maxAhead` positions ahead for a match that pays off. When
        it finds one it turns the bytes before it into a shortened match or into literals. */
    method TryLazy(ghost z: Setup, goodLength: nat, maxChain: nat, ii: nat, lit: nat, mLen: nat, mOff: nat,
                   l1: int, maxAhead: nat)
      returns (ahead: nat, done: bool, lit': nat)
      requires Tracks(z.dict)
      requires Ready(z, lit) && ii == bp - lit && (out != [] || lit > 0)
      requires TrueMatch(z.dict, text, bp, mLen, mOff) && Codable(ModeOf(lit), mLen, mOff)
      requires maxAhead < mLen
      requires maxAhead > 0 ==> l1 == CodedLength(v, mLen, mOff, lit)
      requires WorthCoding(v, mLen, mOff, lit) && |out| <= Limit(ii) + Saving(v, mLen, mOff, lit)
      modifies this, Footprint()
      ensures Tracks(z.dict)
      ensures done ==> Small(lit')
      ensures done ==> Ready(z, lit') && old(bp) < bp < |text| && HonestAt(z.dict, text, bp, found)
      ensures !done ==> ahead <= maxAhead && bp == old(bp) + ahead && lit' == lit && (ahead == maxAhead || look <= mLen)
      ensures done ==> found.len >= mLen
      ensures !done ==> textsize == bp && out == old(out) && litBytes == old(litBytes) && matchBytes == old(matchBytes)
    {
      hide Coded, TrueMatch, HonestAt, Compressor.Sliding, CodedLength, Saving, Limit, WorthCoding, HeadSize;
      ahead, done, lit' := 0, false, lit;
      while ahead < maxAhead && look > mLen
        invariant Tracks(z.dict)
        invariant ahead <= maxAhead && bp == old(bp) + ahead <= |text|
        invariant textsize == bp && out == old(out) && litBytes == old(litBytes) && matchBytes == old(matchBytes)
      {
        FindMatch(z.dict, 1, 0, if mLen >= goodLength then maxChain / 4 else maxChain);
        ahead := ahead + 1;
        var l3;
        done, l3 := Weigh(z, lit, ahead, mLen, mOff, l1);
        if done {
          lit' := TakeLazy(z, ii, lit, ahead, mLen, mOff, l3);
          return;
        }
      }
    }

    /** Codes the accepted match at `bp`, or something better a little further on. */
    method TakeMatch(ghost z: Setup, lazyTries: nat, lazyLimit: nat, goodLength: nat, maxChain: nat, lit: nat)
      returns (lit': nat)
      requires Tracks(z.dict)
      requires Ready(z, lit) && Small(lit) && bp < |text| && HonestAt(z.dict, text, bp, found) && Accepts(lit)
      modifies this, Footprint()
      ensures Tracks(z.dict) && Ready(z, lit') && Small(lit') && old(bp) < bp
      ensures HonestAt(z.dict, text, bp, found)
    {
      hide Coded, TrueMatch, HonestAt, Compressor.Sliding, Compressor.Accepts;
      hide CodedLength, Saving, Limit, WorthCoding, HeadSize;
      var ii := bp - lit;
      var mLen, mOff, l1, maxAhead := Choose(z, lazyTries, lazyLimit, lit);
      var ahead, done;
      ahead, done, lit' := TryLazy(z, goodLength, maxChain, ii, lit, mLen, mOff, l1, maxAhead);
      if !done {
        SizeTaken(v, |out|, ii, lit, mLen, mOff);
        CodeBoth(z, ii, lit, mLen, mOff);
        lit' := 0;
        FindMatch(z.dict, mLen, 1 + ahead, maxChain);
      }
    }

    /** The match to take at `bp`, its code size and how far to look for a better one. */
    method Choose(ghost z: Setup, lazyTries: nat, lazyLimit: nat, lit: nat)
      returns (mLen: nat, mOff: nat, l1: int, maxAhead: nat)
      requires bp < |text| && HonestAt(z.dict, text, bp, found) && Accepts(lit)
      ensures mLen <= found.len && bp + mLen <= |text| && maxAhead < mLen && (out != [] || lit > 0)
      ensures TrueMatch(z.dict, text, bp, mLen, mOff) && Codable(ModeOf(lit), mLen, mOff)
      ensures maxAhead > 0 ==> l1 == CodedLength(v, mLen, mOff, lit)
      ensures if lazyTries == 0 || mLen >= lazyLimit then maxAhead == 0
              else maxAhead <= lazyTries && maxAhead < CodedLength(v, mLen, mOff, lit)
                   && (maxAhead == lazyTries || maxAhead + 1 == CodedLength(v, mLen, mOff, lit))
      ensures WorthCoding(v, mLen, mOff, lit)
      ensures Saving(v, found.len, found.off, lit) <= Saving(v, mLen, mOff, lit)
    {
      hide TrueMatch, CodedLength, MatchInstr;
      mLen, mOff, l1, maxAhead := found.len, found.off, 0, 0;
      assert TrueMatch(z.dict, text, bp, mLen, mOff);
      OffsetLimit(z.dict, text, bp, mLen, mOff);
      if window.useBestOff {
        mLen, mOff := BetterMatch(v, found.best, mLen, mOff, z.dict, text, bp);
      }
      CopyTrueMatch(z.dict, text, bp, mLen, mOff);
      OffsetLimit(z.dict, text, bp, mLen, mOff);
      CodedLengthExact(v, mLen, mOff, lit);
      WorthTaking(v, found.len, found.off, lit, mLen, mOff);
      if lazyTries > 0 && mLen < lazyLimit {
        l1 := LenOfCodedMatch(v, mLen, mOff, lit);
        maxAhead := if lazyTries < l1 - 1 then lazyTries else l1 - 1;
      }
    }

    /** Stores the final run and the end code. */
    method Finish(ghost z: Setup, lit: nat)
      requires Ready(z, lit) && bp == |text| && |out| <= Limit(bp - lit)
      modifies this`out, this`litBytes
      ensures z.With(out).Decode() == Stop(OK, text)
      ensures litBytes + matchBytes == |text|
      ensures |out| <= Limit(|text|) + 5
    {
      hide Env.Decode, Leads, Coded, HeadSize, Limit;
      LastRun(|out|, bp - lit, lit, out == []);
      FinalRun(z, lit);
      if out == [] {
        EofAlone(z);
      } else {
        LeadsEof(z, out, ModeOf(lit), text);
      }
      out := out + EOF_CODE;
    }

    method FinalRun(ghost z: Setup, lit: nat)
      requires Ready(z, lit) && bp == |text|
      modifies this`out, this`litBytes
      ensures if out == [] then text == [] else Leads(z, out, ModeOf(lit), text)
      ensures |out| == |old(out)| + lit + HeadSize(old(out) == [], lit)
      ensures litBytes == old(litBytes) + lit
    {
      hide Leads, Pending, Stored;
      var ii := bp - lit;
      if lit > 0 {
        StoredLeads(z, out, text[..ii], text[ii..bp]);
        StoredSize(out, text[ii..bp]);
        assert text[..ii] + text[ii..bp] == text;
        StoreRun(ii, lit);
      } else {
        assert text[..ii] == text;
        if out != [] {
          NoLiterals(z, out, text);
        }
      }
    }

    /** `lzo1x_999_compress_internal`. For every dictionary, text and setting, the literals and
        matches coded cover the text exactly once and in order, so the decoder with the same
        dictionary and a buffer of the text's size restores it. */
    method Compress(ghost dict: seq<byte>, tryLazy: int, goodLength: nat, maxLazy: nat, niceLength: nat, maxChain: nat)
      requires out == [] && bp == 0 && textsize == 0 && litBytes == 0 && matchBytes == 0
      requires Sliding(dict) && window.pos == |dict|
      modifies this, Footprint()
      ensures Setup(v, dict, |text|).With(out).Decode() == Stop(OK, text)
      ensures textsize == |text|
      ensures litBytes + matchBytes == |text|
      ensures |out| <= |text| + |text| / 22 + 6
    {
      hide Env.Decode, HonestAt, Pending, Coded;
      var lazyTries := if tryLazy < 0 then 1 else tryLazy;
      var good := if goodLength == 0 then 32 else goodLength;
      var lazyLimit := if maxLazy == 0 then 32 else maxLazy;
      var chain := if maxChain == 0 then 2048 else maxChain;
      ghost var z := Setup(v, dict, |text|);
      var lit := 0;
      hide Compressor.Sliding;
      Open(z, niceLength, chain);
      while look > 0
        invariant Tracks(dict) && Ready(z, lit) && Small(lit) && HonestAt(dict, text, bp, found)
        decreases |text| - bp
      {
        lit := Turn(z, lazyTries, lazyLimit, good, chain, lit);
      }
      NothingLeft(z, lit);
      Finish(z, lit);
    }

    /** At the end of the text nothing is found. */
    lemma NothingLeft(z: Setup, lit: nat)
      requires Small(lit) && bp == |text| && HonestAt(z.dict, text, bp, found)
      ensures |out| <= Limit(bp - lit)
    {
      hide Limit;
      NothingSaved(v, if found.len >= 2 then 2 else found.len, found.off, lit);
    }

    /** One turn of the main loop: a match is taken, or one more literal is held back. */
    method Turn(ghost z: Setup, lazyTries: nat, lazyLimit: nat, goodLength: nat, maxChain: nat, lit: nat)
      returns (lit': nat)
      requires Tracks(z.dict) && Ready(z, lit) && Small(lit) && HonestAt(z.dict, text, bp, found) && look > 0
      modifies this, Footprint()
      ensures Tracks(z.dict) && Ready(z, lit') && Small(lit') && HonestAt(z.dict, text, bp, found)
      ensures old(bp) < bp
    {
      hide Coded, HonestAt, Compressor.Sliding, Saving, Limit;
      if Accepts(lit) {
        hide Compressor.Accepts;
        lit' := TakeMatch(z, lazyTries, lazyLimit, goodLength, maxChain, lit);
      } else {
        Refused(lit);
        hide Compressor.Accepts;
        lit' := lit + 1;
        FindMatch(z.dict, 1, 0, maxChain);
      }
    }

    /** A refused match owes nothing. */
    lemma Refused(lit: nat)
      requires Small(lit) && !Accepts(lit)
      ensures |out| <= Limit(bp - lit)
    {
      if out != [] {
        NothingSaved(v, found.len, found.off, lit);
      }
    }

    method SetNice(ghost dict: seq<byte>, niceLength: nat)
      requires Sliding(dict)
      modifies window`niceLength
      ensures Sliding(dict) && window.niceLength == if niceLength > 0 then niceLength else old(window.niceLength)
    {
      hide Window.Sound, Window.Clock, Window.BestKept, Window.BestBounded;
      if niceLength > 0 {
        window.niceLength := niceLength;
      }
    }

    /** The first search, before anything is coded. */
    method Open(ghost z: Setup, niceLength: nat, maxChain: nat)
      requires z.v == v && z.cap == |text| && out == [] && bp == textsize == litBytes == matchBytes == 0
      requires Sliding(z.dict) && window.pos == |z.dict|
      modifies this`bp, this`textsize, this`found, this`look, Footprint()
      ensures Tracks(z.dict) && Ready(z, 0) && Small(0) && HonestAt(z.dict, text, bp, found)
    {
      hide Compressor.Sliding, HonestAt, Pending;
      SetNice(z.dict, niceLength);
      FindMatch(z.dict, 0, 0, maxChain);
    }
  }

  lemma OffsetLimit(dict: seq<byte>, text: seq<byte>, p: nat, len: nat, off: nat)
    requires TrueMatch(dict, text, p, len, off)
    ensures 0 < off <= M4_MAX_OFFSET
  {
  }

  lemma EofAlone(z: Setup)
    ensures z.With([] + EOF_CODE).Decode() == Stop(OK, [])
  {
    hide Env.Step;
    var env := z.With([] + EOF_CODE);
    assert env.mem[0] == 17 && env.mem[0..] == EOF_CODE;
    EofStep(env, 0, Top, []);
    RunStep(env, 0, Top, []);
  }

  lemma PendingShape(z: Setup, code: seq<byte>, text: seq<byte>)
    requires Pending(z, code, text)
    ensures |code| >= 2 && code[|code| - 2] % 4 == 0
  {
  }

  /** The round trip as a caller sees it, with a preset dictionary. */
  method RoundTrip(v: Variant, dict: seq<byte>, text: seq<byte>, useBestOff: bool,
                   tryLazy: int, goodLength: nat, maxLazy: nat, niceLength: nat, maxChain: nat)
    returns (status: Status, back: seq<byte>)
    ensures status == OK && back == text
  {
    var c := new Compressor(v, dict, text, useBestOff);
    c.Compress(Preset(dict), tryLazy, goodLength, maxLazy, niceLength, maxChain);
    var plain := new byte[|text|];
    var n;
    status, n := DecompressDictSafe(v, dict, c.out, |c.out|, plain);
    back := plain[..n];
  }
}
