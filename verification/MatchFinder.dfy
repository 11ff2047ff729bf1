/**
 * The sliding-window match finder (`lzo_swd.ch`, `lzo_mchw.ch`): a ring
 * buffer, hash chains that are cut short by counting, and a table of byte
 * pairs. Every match it reports is really there.
 */
module MatchFinder {
  import opened Bytes
  import opened Lz77
  import opened WindowHash
  import opened WindowRing

  /** A match, and for each length below some bound an offset with a match of that length, or zero. */
  datatype Found = Found(len: nat, off: nat, best: seq<nat>)

  /** Every reported match is a repetition at most `n` bytes back. */
  ghost predicate TrueAt(text: seq<byte>, pos: nat, n: nat, m: Found) {
    m.len >= 2 ==>
      && m.off <= n && Repeats(text, pos, m.off, m.len)
      && forall i :: 2 <= i < |m.best| && m.best[i] != 0 ==> m.best[i] <= n && Repeats(text, pos, m.best[i], i)
  }

  /** The match of `pos` with `p` is longer than `len`, which the look-ahead `f` allows. */
  ghost predicate Longer(text: seq<byte>, pos: nat, f: nat, len: nat, p: nat)
    requires p < pos
  {
    len < f && Repeats(text, pos, pos - p, len + 1)
  }

  /** No position in `seen` has a match longer than `len`. */
  ghost predicate LongestOf(text: seq<byte>, pos: nat, f: nat, len: nat, seen: seq<nat>) {
    forall i :: 0 <= i < |seen| ==> seen[i] < pos && !Longer(text, pos, f, len, seen[i])
  }

  /** No position from `low` up to `pos` has. */
  ghost predicate LongestSince(text: seq<byte>, low: nat, pos: nat, f: nat, len: nat) {
    forall p: nat :: low <= p < pos ==> !Longer(text, pos, f, len, p)
  }

  lemma {:induction false} LongestLater(text: seq<byte>, low: nat, low': nat, pos: nat, f: nat, len: nat)
    requires low <= low' && LongestSince(text, low, pos, f, len)
    ensures LongestSince(text, low', pos, f, len)
  {
    hide Longer;
  }

  /** A list holds no more positions than there are. */
  lemma {:induction false} FallingLength(c: seq<nat>, low: nat, top: nat)
    requires Falling(c, low, top) && low <= top
    ensures |c| <= top - low
    decreases |c|
  {
    if c != [] {
      FallingLength(c[1..], low, c[0]);
    }
  }

  /** The offset kept for the length of a match is its own, and none is kept for greater lengths. */
  ghost predicate OwnBest(m: Found) {
    m.len >= 2 ==>
      && (m.len < |m.best| ==> m.best[m.len] == m.off)
      && forall i :: m.len < i < |m.best| ==> m.best[i] == 0
  }

  /** A match of three bytes or more is with the nearest position of the list that has one as long. */
  ghost predicate NearestOf(text: seq<byte>, pos: nat, f: nat, len: nat, off: int, c: seq<nat>) {
    len >= 3 ==> exists k :: 0 <= k < |c| && c[k] + off == pos && LongestOf(text, pos, f, len - 1, c[..k])
  }

  /** What a search answers: a true match, the longest and nearest of those seen. */
  ghost predicate Answers(text: seq<byte>, pos: nat, n: nat, f: nat, m: Found, seen: seq<nat>, useBest: bool) {
    && TrueAt(text, pos, n, m) && 1 <= m.len <= f
    && LongestOf(text, pos, f, m.len, seen) && NearestOf(text, pos, f, m.len, m.off, seen)
    && (useBest ==> OwnBest(m))
  }

  /** The lengths kept for the positions from `low` up to `up` bound their matches with earlier ones. */
  ghost predicate Bounded(text: seq<byte>, best: seq<nat>, low: nat, up: nat, f: nat, size: nat)
    requires 0 < size == |best|
  {
    forall p: nat :: low <= p < up ==> LongestSince(text, low, p, f, best[Idx(p, size)])
  }

  lemma {:induction false} BoundedLater(text: seq<byte>, best: seq<nat>, low: nat, low': nat, up: nat, f: nat, size: nat)
    requires 0 < size == |best| && low <= low' && Bounded(text, best, low, up, f, size)
    ensures Bounded(text, best, low', up, f, size)
  {
    hide Longer, Idx;
    forall p: nat | low' <= p < up
      ensures LongestSince(text, low', p, f, best[Idx(p, size)])
    {
      assert LongestSince(text, low, p, f, best[Idx(p, size)]);
    }
  }

  /** The length kept for the newest position joins them. */
  lemma {:induction false} BoundedMore(text: seq<byte>, best: seq<nat>, low: nat, up: nat, f: nat, size: nat, len: nat)
    requires 0 < size == |best| && low <= up < low + size
    requires Bounded(text, best, low, up, f, size) && LongestSince(text, low, up, f, len)
    ensures Bounded(text, best[Idx(up, size) := len], low, up + 1, f, size)
  {
    hide LongestSince, Idx;
    var best' := best[Idx(up, size) := len];
    forall p: nat | low <= p < up + 1
      ensures LongestSince(text, low, p, f, best'[Idx(p, size)])
    {
      if p < up {
        IdxApart(p, up, size);
        assert LongestSince(text, low, p, f, best[Idx(p, size)]);
      }
    }
  }

  /** A length beyond the look-ahead bounds everything. */
  lemma {:induction false} NothingLonger(text: seq<byte>, low: nat, pos: nat, f: nat, len: nat)
    requires f <= len
    ensures LongestSince(text, low, pos, f, len)
  {
  }

  /** Why stopping there loses nothing: an earlier position with a longer match would have had a match
      with `p` longer than the length kept for `p`. */
  lemma {:induction false} StopLosesNothing(text: seq<byte>, low: nat, pos: nat, f: nat, p: nat, best: nat, len: nat, q: nat)
    requires low <= q < p < pos && LongestSince(text, low, p, f, best)
    requires best < len <= f && Repeats(text, pos, pos - p, len)
    ensures !Longer(text, pos, f, len, q)
  {
    hide Repeats;
    assert !Longer(text, p, f, best, q);
    if Longer(text, pos, f, len, q) {
      RepeatsBetween(text, pos, p, q, len, best + 1);
    }
  }

  lemma {:induction false} RepeatsBetween(text: seq<byte>, pos: nat, p: nat, q: nat, len: nat, k: nat)
    requires q < p < pos && k <= len && Repeats(text, pos, pos - p, len) && Repeats(text, pos, pos - q, len + 1)
    ensures Repeats(text, p, p - q, k)
  {
    forall j | p <= j < p + k
      ensures text[j] == text[j - (p - q)]
    {
      var i := j - p;
      assert text[pos + i] == text[pos + i - (pos - p)];
      assert text[pos + i] == text[pos + i - (pos - q)];
    }
  }

  /** How many positions of a list a search limited to `maxChain` looks at. */
  function Limited(len: nat, maxChain: nat): nat {
    if maxChain > 0 && len > maxChain then maxChain else len
  }

  lemma {:induction false} Nothing(text: seq<byte>, low: nat, pos: nat, n: nat, f: nat, off: nat, best: seq<nat>, c: seq<nat>, k: nat)
    requires |text| <= pos + 1 && Falling(c, low, pos) && k <= |c|
    ensures LongestOf(text, pos, f, 1, c[..k]) && TrueAt(text, pos, n, Found(1, off, best))
    ensures LongestSince(text, low, pos, f, 1)
  {
  }

  /** The part of the dictionary the window keeps. */
  function Tail(dict: seq<byte>, n: nat): (r: seq<byte>)
    ensures |r| <= n && |r| <= |dict| && r == dict[|dict| - |r|..]
    ensures |r| == |dict| || |r| == n
  {
    if |dict| > n then dict[|dict| - n..] else dict
  }

  lemma {:induction false} TailNone(n: nat)
    ensures Tail([], n) == []
  {
  }

  class Window {
    const text: seq<byte>
    const start: nat
    const n: nat
    const f: nat
    const bestSize: nat
    const useBestOff: bool

    const b: array<byte>
    const head3: array<nat>
    const llen3: array<nat>
    const succ3: array<nat>
    const best3: array<nat>
    const head2: array<nat>

    var niceLength: nat
    var bChar: int
    var mOff: nat
    var bestOff: seq<nat>
    var ip: nat
    var bp: nat
    var rp: nat
    var look: nat
    var nodeCount: nat
    var input: nat

    ghost var pos: nat
    ghost var low: nat
    ghost var top: nat
    ghost var pairTop: nat
    ghost var chain: seq<seq<nat>>
    ghost var whole: bool // no search has been limited so far

    /** Look-ahead of the first fill. */
    function First(): nat
      requires start <= |text|
    {
      if |text| - start > f then f else |text| - start
    }

    ghost predicate Fixed() {
      && 3 <= f && 2 * f < n && n + 2 * f < NIL
      && start <= |text| && start <= n
      && b.Length == n + 2 * f
      && head3.Length == llen3.Length == HSIZE
      && succ3.Length == best3.Length == n + f
      && head2.Length == 65536
      && head3 != llen3 && head3 != succ3 && head3 != best3 && head3 != head2 && llen3 != succ3
      && llen3 != best3 && llen3 != head2 && succ3 != best3 && succ3 != head2 && best3 != head2
    }

    ghost function Z(): Shape
      requires Fixed()
    {
      Shape(n + f, f, start + First())
    }

    ghost function End(): nat
      requires Fixed()
      reads this`pos
    {
      pos + First()
    }

    /** Ring, lists and pairs agree on the positions from `low` to `top`; pairs may lag behind. */
    ghost predicate Sound()
      requires Fixed()
      reads this`pos, this`low, this`top, this`pairTop, this`chain, b, head3, llen3, succ3, head2
    {
      && Holds(b[..], text, End(), Z())
      && Chains(head3[..], llen3[..], succ3[..], chain, low, top, n + f)
      && Keyed(b[..], chain, low, top, n + f)
      && Paired(b[..], head2[..], low, pairTop, n + f)
    }

    /** Where the pointers stand for position `p`. */
    ghost predicate ClockAt(p: nat)
      requires Fixed()
      reads this`bp, this`ip, this`rp, this`look, this`input
    {
      && start <= p <= |text| + 1
      && bp == Idx(p, n + f) && ip == Idx(p + First(), n + f) && rp == Idx(p + f, n + f)
      && look == (if p > |text| then 0 else if |text| - p > First() then First() else |text| - p)
      && input == if p + First() > |text| then |text| else p + First()
    }

    ghost predicate Clock()
      requires Fixed()
      reads this`pos, this`bp, this`ip, this`rp, this`look, this`input
    {
      ClockAt(pos)
    }

    /** Offsets by length are kept only if asked for. */
    ghost predicate BestKept()
      reads this`bestOff
    {
      |bestOff| == bestSize && (!useBestOff ==> forall i :: 0 <= i < bestSize ==> bestOff[i] == 0)
    }

    /** Unless a search was limited, `best3` bounds the matches of every position before `up`. */
    ghost predicate BestBounded(up: nat)
      requires Fixed()
      reads this`low, this`whole, best3
    {
      whole ==> Bounded(text, best3[..], low, up, f, n + f)
    }

    ghost predicate Valid()
      reads this, b, head3, llen3, succ3, best3, head2
    {
      && Fixed() && Sound() && Clock() && BestKept() && BestBounded(pos)
      && low <= top == pairTop == pos && pos - low + nodeCount == n
    }

    /** In the middle of a step: position `pos` is listed, and the oldest one is gone. */
    ghost predicate Stepping()
      reads this, b, head3, llen3, succ3, best3, head2
    {
      && Fixed() && Sound() && Clock() && BestKept() && BestBounded(pos + 1)
      && low <= top == pairTop == pos + 1 && pos - low + nodeCount == n - 1
    }

    /** `swd_init`: the dictionary and the first bytes of the input fill the ring; the tables may hold anything. */
    constructor (dict: seq<byte>, data: seq<byte>, n: nat, f: nat, bestSize: nat, useBestOff: bool)
      requires 3 <= f && 2 * f < n && n + 2 * f < NIL
      ensures Valid() && whole && pos == start == |Tail(dict, n)| && text == Tail(dict, n) + data
      ensures this.n == n && this.f == f && this.bestSize == bestSize && this.useBestOff == useBestOff
      ensures fresh(b) && fresh(head3) && fresh(llen3) && fresh(succ3) && fresh(best3) && fresh(head2)
    {
      hide Valid;
      var kept := Tail(dict, n);
      this.n, this.f, this.bestSize, this.useBestOff := n, f, bestSize, useBestOff;
      text, start := kept + data, |kept|;
      niceLength, bChar, mOff, bestOff := f, 0, 0, seq(bestSize, _ => 0);
      b := new byte[n + 2 * f];
      head3 := new nat[HSIZE];
      llen3 := new nat[HSIZE](_ => 0);
      succ3 := new nat[n + f];
      best3 := new nat[n + f];
      head2 := new nat[65536](_ => NIL);
      bp := |kept|;
      pos, low, top, pairTop := |kept|, |kept|, |kept|, |kept|;
      chain := seq(HSIZE, _ => []);
      nodeCount, whole := n, true;
      new;
      Start();
    }

    method Start()
      requires Fixed() && pos == low == top == pairTop == bp == start && nodeCount == n && BestKept()
      requires chain == seq(HSIZE, _ => []) && (forall k :: 0 <= k < HSIZE ==> llen3[k] == 0)
      requires forall k :: 0 <= k < 65536 ==> head2[k] == NIL
      modifies this`nodeCount, this`low, this`chain, this`top, this`pairTop, this`look, this`ip, this`rp, this`input,
               b, head3, llen3, succ3, best3, head2
      ensures Valid()
    {
      hide Holds, Chains, Keyed, Paired, Idx;
      FillRing();
      var first := ListDict();
      ClockStart();
      rp := if first >= nodeCount then first - nodeCount else first + (n + f - nodeCount);
    }

    /** Lists the positions of the dictionary if there is a pair of bytes behind it. */
    method ListDict() returns (first: nat)
      requires Fixed() && pos == low == top == pairTop == bp == start && nodeCount == n
      requires chain == seq(HSIZE, _ => []) && (forall k :: 0 <= k < HSIZE ==> llen3[k] == 0)
      requires forall k :: 0 <= k < 65536 ==> head2[k] == NIL
      requires Holds(b[..], text, End(), Z())
      modifies this`nodeCount, this`low, this`chain, this`top, this`pairTop, head3, llen3, succ3, best3, head2
      ensures Sound() && low <= top == pairTop == start && start - low + nodeCount == n && BestBounded(start)
      ensures first == low && (low == 0 || low == start)
    {
      hide Holds, Chains, Keyed, Paired, Idx;
      first := start;
      if look >= 2 && start > 0 {
        first := 0;
        low, top, pairTop := 0, 0, 0;
        Unlisted();
        InsertDict();
      } else {
        Unlisted();
      }
    }

    /** Copies the dictionary and the first bytes of the input to the start of the ring. */
    method FillRing()
      requires Fixed() && pos == start
      modifies this`look, this`ip, this`input, b
      ensures Holds(b[..], text, End(), Z())
      ensures look == First() && input == start + look && ip == if input == n + f then 0 else input
    {
      look := First();
      input := start + look;
      ip := if input == n + f then 0 else input;
      forall k | 0 <= k < start + look {
        b[k] := text[k];
      }
      hide Holds;
      Filled(b[..], text, start + look, Z());
    }

    lemma {:induction false} ClockStart()
      requires Fixed() && pos == start
      ensures Idx(start, n + f) == start
      ensures Idx(start + First(), n + f) == if start + First() == n + f then 0 else start + First()
      ensures Idx(start + f, n + f) == if start == n then 0 else start + f
    {
      IdxSmall(start, n + f);
      IdxPlus(start, First(), n + f);
      IdxPlus(start, f, n + f);
    }

    /** With no position listed the tables may hold anything. */
    lemma {:induction false} Unlisted()
      requires Fixed() && low == top == pairTop && Holds(b[..], text, End(), Z())
      requires chain == seq(HSIZE, _ => []) && (forall k :: 0 <= k < HSIZE ==> llen3[k] == 0)
      requires forall k :: 0 <= k < 65536 ==> head2[k] == NIL
      ensures Sound()
    {
      hide Holds;
    }

    /** `swd_insertdict`. */
    method InsertDict()
      requires Fixed() && Sound() && low == top == pairTop == 0 && pos == start && bp == start
      modifies this`nodeCount, this`chain, this`top, this`pairTop, head3, llen3, succ3, best3, head2
      ensures Sound() && top == pairTop == start && nodeCount == n - start && BestBounded(start)
    {
      hide Holds, Chains, Keyed, Paired, Idx;
      nodeCount := n - start;
      for node := 0 to start
        invariant Sound() && top == pairTop == node && nodeCount == n - start && BestBounded(node)
      {
        IdxSmall(node, n + f);
        var _, _, _ := PushNode(node);
        KeepBest(node, node, f + 1);
        AddPair(node, node);
      }
    }

    /** Notes a length for the newest position. */
    method KeepBest(at: nat, ghost p: nat, len: nat)
      requires Fixed() && low <= p < low + (n + f) && at == Idx(p, n + f) && BestBounded(p)
      requires whole ==> f <= len || LongestSince(text, low, p, f, len)
      modifies best3
      ensures BestBounded(p + 1) && best3[at] == len
    {
      hide Bounded, LongestSince, Idx;
      ghost var kept := best3[..];
      best3[at] := len;
      assert best3[..] == kept[at := len];
      if whole {
        if f <= len {
          NothingLonger(text, low, p, f, len);
        }
        BoundedMore(text, kept, low, p, f, n + f, len);
      }
    }

    /** Lists the next position under its key and returns the list it joins. */
    method PushNode(at: nat) returns (node: nat, cnt: nat, ghost c: seq<nat>)
      requires Fixed() && Sound() && low <= top < low + (n + f) && at == Idx(top, n + f)
      modifies this`chain, this`top, head3, succ3, llen3
      ensures Sound() && top == old(top) + 1
      ensures cnt == |c| && Falling(c, low, old(top)) && Linked(succ3[..], c, n + f)
      ensures |old(chain)| == HSIZE && c == old(chain)[KeyAt(b[..], at)]
      ensures chain == old(chain)[KeyAt(b[..], at) := [old(top)] + c]
      ensures c != [] ==> node == Idx(c[0], n + f)
      ensures forall i :: 0 <= i < |c| ==> KeyAt(b[..], Idx(c[i], n + f)) == KeyAt(b[..], at)
    {
      hide Idx, KeyAt, Holds, Paired, Listed, Chains, Keyed, Falling, Linked;
      var key := KeyAt(b[..], at);
      JoinList(head3[..], llen3[..], succ3[..], chain, b[..], low, top, n + f, key);
      c := chain[key];
      PushChain(head3[..], llen3[..], succ3[..], chain, low, top, n + f, key);
      PushKeyed(b[..], chain, low, top, n + f);
      node, cnt := head3[key], llen3[key];
      ghost var heads, lens, succs := head3[..], llen3[..], succ3[..];
      succ3[at] := node;
      head3[key] := at;
      var longer: nat := cnt + 1;
      llen3[key] := longer;
      assert head3[..] == heads[key := at] && llen3[..] == lens[key := longer] && succ3[..] == succs[at := node];
      chain := chain[key := [top] + c];
      top := top + 1;
    }

    /** `swd_remove_node`: once the window is full its oldest position leaves the lists. */
    method RemoveNode()
      requires Fixed() && Sound() && low <= pos == pairTop <= top <= pos + 1
      requires rp == Idx(pos + f, n + f) && pos >= low && pos - low + nodeCount == n
      modifies this`nodeCount, this`low, this`chain, llen3, head2
      ensures Sound() && old(low) <= low <= pos && pos - low + nodeCount == n - 1
    {
      if nodeCount == 0 {
        DropOldest();
      } else {
        nodeCount := nodeCount - 1;
      }
    }

    method DropOldest()
      requires Fixed() && Sound() && low < pos == pairTop <= top <= pos + 1
      requires rp == Idx(pos + f, n + f) && pos - low == n
      modifies this`low, this`chain, llen3, head2
      ensures Sound() && low == old(low) + 1
    {
      hide Idx, KeyAt, PairAt, Holds, Chains, Keyed, Paired;
      IdxRound(low, n + f);
      DropListed();
      DropPair();
      low := low + 1;
    }

    /** The oldest position's pair, if it still leads there, leads nowhere. */
    method DropPair()
      requires Fixed() && low < pairTop <= low + (n + f) && rp == Idx(low, n + f) && Paired(b[..], head2[..], low, pairTop, n + f)
      modifies head2
      ensures Paired(b[..], head2[..], low + 1, pairTop, n + f)
    {
      hide Idx, PairAt, Paired;
      PopPaired(b[..], head2[..], low, pairTop, n + f);
      ClearPair(PairAt(b[..], rp), rp);
    }

    /** The list of the oldest position gets shorter by one. */
    method DropListed()
      requires Fixed() && low < top && rp == Idx(low, n + f) && n + f + 2 < b.Length
      requires Chains(head3[..], llen3[..], succ3[..], chain, low, top, n + f) && Keyed(b[..], chain, low, top, n + f)
      modifies this`chain, llen3
      ensures Chains(head3[..], llen3[..], succ3[..], chain, low + 1, top, n + f) && Keyed(b[..], chain, low + 1, top, n + f)
    {
      hide Idx, KeyAt, Chains, Keyed;
      var key := KeyAt(b[..], rp);
      PopLists(head3[..], llen3[..], succ3[..], chain, b[..], low, top, n + f);
      ghost var lens := llen3[..];
      var shorter: nat := llen3[key] - 1;
      chain := chain[key := chain[key][..shorter]];
      llen3[key] := shorter;
      assert llen3[..] == lens[key := shorter];
    }

    method ClearPair(pair: nat, node: nat)
      requires pair < head2.Length
      modifies head2
      ensures head2[..] == if old(head2[pair]) == node then old(head2[..])[pair := NIL] else old(head2[..])
    {
      if head2[pair] == node {
        head2[pair] := NIL;
      }
    }

    /** The pair of bytes at an index now leads there. */
    method AddPair(at: nat, ghost p: nat)
      requires Fixed() && Sound() && low <= p == pairTop < top && at == Idx(p, n + f)
      modifies this`pairTop, head2
      ensures Sound() && pairTop == p + 1
    {
      hide Idx, PairAt, Holds, Chains, Keyed;
      PushPaired(b[..], head2[..], low, pairTop, n + f);
      var pair := PairAt(b[..], at);
      ghost var pairs := head2[..];
      head2[pair] := at;
      assert head2[..] == pairs[pair := at];
      pairTop := pairTop + 1;
    }

    /** `swd_getbyte`: moves the window on by one byte, reading another while there is one. */
    method GetByte()
      requires Stepping() && pos <= |text|
      modifies this`look, this`ip, this`bp, this`rp, this`input, this`pos, b
      ensures Valid() && pos == old(pos) + 1
    {
      hide Holds, Chains, Keyed, Paired, ClockAt;
      Ends();
      if input < |text| {
        ReadByte();
      } else {
        NoByte();
      }
      Tick();
      pos := pos + 1;
    }

    lemma {:induction false} Ends()
      requires Fixed() && Clock()
      ensures input < |text| <==> End() < |text|
    {
    }

    /** Look-ahead and pointers move on by one. */
    method Tick()
      requires Fixed() && ClockAt(pos) && pos <= |text|
      modifies this`look, this`ip, this`bp, this`rp, this`input
      ensures ClockAt(pos + 1)
    {
      hide Idx;
      if input < |text| {
        input := input + 1;
      } else if look > 0 {
        look := look - 1;
      }
      Advance();
    }

    /** Ring, lists and pairs as they are found once the position has moved on. */
    ghost predicate SoundNext()
      requires Fixed()
      reads this`pos, this`low, this`top, this`pairTop, this`chain, b, head3, llen3, succ3, head2
    {
      && Holds(b[..], text, End() + 1, Z())
      && Chains(head3[..], llen3[..], succ3[..], chain, low, top, n + f)
      && Keyed(b[..], chain, low, top, n + f)
      && Paired(b[..], head2[..], low, pairTop, n + f)
    }

    /** At the end of the input nothing is stored. */
    lemma {:induction false} NoByte()
      requires Fixed() && Sound() && |text| <= End()
      ensures SoundNext()
    {
      hide Holds, Chains, Keyed, Paired;
      EndHolds(b[..], text, End(), Z());
    }

    /** Stores the next byte of the input, clear of everything that is listed. */
    method ReadByte()
      requires Stepping() && pos <= |text| && input < |text|
      modifies b
      ensures SoundNext()
    {
      hide Holds, Chains, Keyed, Paired, Idx, Stored;
      ghost var end := End();
      assert First() == f && input == end;
      ChainsWithin(head3[..], llen3[..], succ3[..], chain, low, top, n + f);
      StoreHolds(b[..], text, end, Z());
      StoreKeyed(b[..], text[end], end, Z(), chain, low, top);
      StorePaired(b[..], text[end], end, Z(), head2[..], low, pairTop);
      Store(text[input]);
    }

    method Store(x: byte)
      requires Fixed() && ip < n + f
      modifies b
      ensures b[..] == Stored(old(b[..]), x, ip, Z())
    {
      b[ip] := x;
      if ip < f {
        b[n + f + ip] := x;
      }
    }

    method Advance()
      requires Fixed() && bp < n + f && ip < n + f && rp < n + f
      requires bp == Idx(pos, n + f) && ip == Idx(pos + First(), n + f) && rp == Idx(pos + f, n + f)
      modifies this`ip, this`bp, this`rp
      ensures bp == Idx(pos + 1, n + f) && ip == Idx(pos + 1 + First(), n + f) && rp == Idx(pos + 1 + f, n + f)
    {
      hide Idx;
      IdxPlus(pos, 1, n + f);
      IdxPlus(pos + First(), 1, n + f);
      IdxPlus(pos + f, 1, n + f);
      ip := if ip + 1 == n + f then 0 else ip + 1;
      bp := if bp + 1 == n + f then 0 else bp + 1;
      rp := if rp + 1 == n + f then 0 else rp + 1;
    }

    /** `swd_accept`: lists the next `k` positions without searching. */
    method Accept(k: nat)
      requires Valid() && k <= look
      modifies this`nodeCount, this`low, this`chain, this`top, this`pairTop, this`look, this`ip, this`bp, this`rp, this`input,
               this`pos, b, head3, llen3, succ3, best3, head2
      ensures Valid() && pos == old(pos) + k
    {
      hide Idx, Sound, Bounded, BestKept;
      for i := 0 to k
        invariant Valid() && pos == old(pos) + i
      {
        Enter();
        GetByte();
      }
    }

    /** Lists `pos` under its key and under its pair. */
    method Enter()
      requires Valid()
      modifies this`nodeCount, this`low, this`chain, this`top, this`pairTop, head3, llen3, succ3, best3, head2
      ensures Stepping()
    {
      hide Idx, Sound, Bounded, ClockAt, BestKept, LongestSince;
      MakeRoom(pos);
      ListHere();
    }

    method ListHere()
      requires Fixed() && Sound() && Clock() && BestBounded(pos) && low <= pos == top == pairTop && pos - low < n
      modifies this`chain, this`top, this`pairTop, head3, llen3, succ3, best3, head2
      ensures Sound() && BestBounded(pos + 1) && top == pairTop == pos + 1
    {
      hide Idx, Sound, Bounded, ClockAt, LongestSince;
      At();
      var _, _, _ := PushNode(bp);
      KeepBest(bp, pos, f + 1);
      AddPair(bp, pos);
    }

    lemma {:induction false} At()
      requires Fixed() && Clock()
      ensures bp == Idx(pos, n + f) && rp == Idx(pos + f, n + f) && bp < n + f
      ensures pos <= |text| && look <= 1 ==> |text| <= pos + 1
    {
    }

    /** The oldest position leaves the window once it is full. */
    method MakeRoom(ghost up: nat)
      requires Fixed() && Sound() && Clock() && BestBounded(up)
      requires low <= pos == pairTop <= top <= pos + 1 && pos - low + nodeCount == n
      modifies this`nodeCount, this`low, this`chain, llen3, head2
      ensures Sound() && BestBounded(up) && old(low) <= low <= pos && pos - low + nodeCount == n - 1
    {
      hide Sound, Idx, Bounded, ClockAt;
      At();
      RemoveNode();
      LaterBounded(old(low), up);
    }

    /** Positions that leave the window are forgotten. */
    lemma {:induction false} LaterBounded(from: nat, up: nat)
      requires Fixed() && from <= low && (whole ==> Bounded(text, best3[..], from, up, f, n + f))
      ensures BestBounded(up)
    {
      if whole {
        BoundedLater(text, best3[..], from, low, up, f, n + f);
      }
    }

    /** What the finder has gathered so far about position `pos`. */
    ghost predicate Gathered(mLen: nat, mPos: nat, bestPos: seq<nat>)
      requires Fixed()
      reads this`pos, this`low
    {
      && |bestPos| == bestSize
      && (mLen >= 2 ==> Seen(text, pos, low, n + f, mPos, mLen))
      && (forall i :: 2 <= i < |bestPos| && bestPos[i] != 0 ==> Seen(text, pos, low, n + f, bestPos[i] - 1, i))
      && (2 <= mLen < |bestPos| ==> bestPos[mLen] == mPos + 1)
      && (forall i :: mLen < i < |bestPos| ==> bestPos[i] == 0)
    }

    /**
     * Measures a candidate whose first two bytes and key agree. The third byte
     * is skipped: the key vouches for it.
     */
    method Measure(node: nat) returns (i: nat)
      requires Fixed() && node < n + f && bp < n + f && 3 <= look <= f
      requires b[node] == b[bp] && b[node + 1] == b[bp + 1] && KeyAt(b[..], node) == KeyAt(b[..], bp)
      ensures 3 <= i <= look && Same(b[..], node, bp, i) && (i < look ==> !Same(b[..], node, bp, i + 1))
    {
      FirstThree(b[..], node, bp);
      hide KeyAt;
      i := 3;
      while i < look && b[bp + i] == b[node + i]
        invariant 3 <= i <= look
        invariant Same(b[..], node, bp, i)
      {
        SameMore(b[..], node, bp, i);
        i := i + 1;
      }
      if i < look {
        SameMore(b[..], node, bp, i);
      }
    }

    lemma {:induction false} SameSeen(p: nat, i: nat)
      requires Fixed() && Sound() && Clock() && pos <= |text| && pos - low <= n
      requires low <= p < pos && i <= look && Same(b[..], Idx(p, n + f), bp, i)
      ensures Seen(text, pos, low, n + f, Idx(p, n + f), i)
    {
      hide Idx, Chains, Keyed, Paired, Holds;
      SameRepeats(b[..], text, End(), Z(), p, pos, i);
    }

    /** Nothing longer than `len` matches at `p`. */
    ghost predicate Beaten(p: nat, len: nat)
      requires Fixed()
      reads this`look, this`bp, b
    {
      len < look ==> !Same(b[..], Idx(p, n + f), bp, len + 1)
    }

    lemma {:induction false} BeatenMore(p: nat, len: nat, len': nat)
      requires Fixed() && Beaten(p, len) && len <= len'
      ensures Beaten(p, len')
    {
      hide Idx;
      if len' < look && Same(b[..], Idx(p, n + f), bp, len' + 1) {
        SameLess(b[..], Idx(p, n + f), bp, len + 1, len' + 1);
      }
    }

    /** One candidate of the search: measured if its ends agree, and kept if it is longer. */
    method Consider(node: nat, ghost p: nat, mLen: nat, mPos: nat, bestPos: seq<nat>)
      returns (mLen': nat, mPos': nat, bestPos': seq<nat>)
      requires Fixed() && Sound() && Clock() && pos <= |text| && pos - low <= n
      requires 2 <= mLen < look && Gathered(mLen, mPos, bestPos)
      requires low <= p < pos && node == Idx(p, n + f) && KeyAt(b[..], node) == KeyAt(b[..], bp)
      ensures mLen <= mLen' <= look && Gathered(mLen', mPos', bestPos') && Beaten(p, mLen')
      ensures mPos' == if mLen < mLen' then node else mPos
    {
      hide Idx, KeyAt, Sound, Seen, Same;
      mLen', mPos', bestPos' := mLen, mPos, bestPos;
      if b[node + mLen - 1] == b[bp + mLen - 1] && b[node + mLen] == b[bp + mLen] &&
         b[node] == b[bp] && b[node + 1] == b[bp + 1]
      {
        var i := Measure(node);
        SameSeen(p, i);
        if i < |bestPos'| && bestPos'[i] == 0 {
          bestPos' := bestPos'[i := node + 1];
        }
        if i > mLen {
          mLen', mPos' := i, node;
        } else {
          BeatenMore(p, i, mLen);
        }
      } else {
        EndsDiffer(b[..], node, bp, mLen);
      }
    }

    /**
     * `swd_search`: follows one list from `first` for `cnt` positions, or until
     * the match is as long as the look-ahead, long enough, or longer than what
     * was found at the last of them. No position visited has a longer match.
     */
    method Search(first: nat, cnt: nat, ghost c: seq<nat>, mLen0: nat, mPos0: nat, bestPos0: seq<nat>)
      returns (mLen: nat, mPos: nat, bestPos: seq<nat>, ghost visited: nat, ghost at: nat)
      requires Fixed() && Sound() && Clock() && pos <= |text| && pos - low <= n
      requires 2 <= mLen0 < look && Gathered(mLen0, mPos0, bestPos0)
      requires cnt <= |c| && Falling(c, low, pos) && Linked(succ3[..], c, n + f)
      requires c != [] ==> first == Idx(c[0], n + f)
      requires forall i :: 0 <= i < |c| ==> KeyAt(b[..], Idx(c[i], n + f)) == KeyAt(b[..], bp)
      ensures mLen0 <= mLen <= look && Gathered(mLen, mPos, bestPos)
      ensures visited <= cnt && forall i :: 0 <= i < visited ==> Beaten(c[i], mLen)
      ensures visited == cnt || (Stops(best3[..], c, visited, mLen) && mPos == Idx(c[visited - 1], n + f))
      ensures mLen > mLen0 ==> FirstAt(c, visited, at, mLen, mPos)
    {
      hide Idx, KeyAt, Sound, Seen, Same, Gathered, Beaten;
      mLen, mPos, bestPos, at := mLen0, mPos0, bestPos0, 0;
      var node := first;
      var j := 0;
      while j < cnt
        invariant j <= cnt && mLen0 <= mLen < look && Gathered(mLen, mPos, bestPos)
        invariant j < |c| ==> node == Idx(c[j], n + f)
        invariant forall i :: 0 <= i < j ==> Beaten(c[i], mLen)
        invariant mLen > mLen0 ==> FirstAt(c, j, at, mLen, mPos)
      {
        var longer;
        longer, mPos, bestPos := Consider(node, c[j], mLen, mPos, bestPos);
        forall i | 0 <= i < j ensures Beaten(c[i], longer) && (longer > mLen ==> Beaten(c[i], longer - 1)) {
          BeatenMore(c[i], mLen, longer);
          if longer > mLen {
            BeatenMore(c[i], mLen, longer - 1);
          }
        }
        if longer > mLen {
          at := j;
        }
        j := j + 1;
        if longer > mLen && (longer == look || longer >= niceLength || longer > best3[node]) {
          return longer, mPos, bestPos, j, at;
        }
        mLen := longer;
        node := succ3[node];
      }
      visited := j;
    }

    /** The match is with the position at `at`, and none before it has one as long. */
    ghost predicate FirstAt(c: seq<nat>, visited: nat, at: nat, mLen: nat, mPos: nat)
      requires Fixed()
      reads this`look, this`bp, b
    {
      at < visited <= |c| && 0 < mLen && mPos == Idx(c[at], n + f) && forall i :: 0 <= i < at ==> Beaten(c[i], mLen - 1)
    }

    /** Why a search ends before its list does. */
    ghost predicate Stops(best: seq<nat>, c: seq<nat>, visited: nat, mLen: nat)
      requires Fixed() && |best| == n + f
      reads this`look, this`niceLength
    {
      0 < visited <= |c| && 2 <= mLen && (mLen == look || mLen >= niceLength || mLen > best[Idx(c[visited - 1], n + f)])
    }

    /** `swd_search2`: the last position that starts with the same two bytes. */
    method SearchPair(bestPos0: seq<nat>) returns (found: bool, mLen: nat, mPos: nat, bestPos: seq<nat>)
      requires Fixed() && Sound() && Clock() && pos <= |text| && pos - low <= n && 2 <= look
      requires |bestPos0| == bestSize && forall i :: 0 <= i < |bestPos0| ==> bestPos0[i] == 0
      requires pairTop == pos
      ensures Gathered(mLen, mPos, bestPos)
      ensures mLen == if found then 2 else 1
      ensures !found ==> forall p: nat :: low <= p < pos ==> Beaten(p, 1)
    {
      hide Idx, Holds, Chains, Keyed, Seen, Beaten;
      bestPos := bestPos0;
      var key := PairAt(b[..], bp);
      var node := head2[key];
      if node == NIL {
        NoPair();
        return false, 1, 0, bestPos;
      }
      assert head2[..][key] == node;
      assert PairKept(b[..], node, key, low, pairTop, n + f);
      ghost var p: nat :| low <= p < pairTop && node == Idx(p, n + f) && PairAt(b[..], Idx(p, n + f)) == key;
      Head2Both(b[node], b[node + 1], b[bp], b[bp + 1]);
      assert b[..][node..node + 2] == [b[node], b[node + 1]] && b[..][bp..bp + 2] == [b[bp], b[bp + 1]];
      SameSeen(p, 2);
      if 2 < |bestPos| {
        bestPos := bestPos[2 := node + 1];
      }
      return true, 2, node, bestPos;
    }

    /** A pair that leads nowhere is the start of no kept position. */
    lemma {:induction false} NoPair()
      requires Fixed() && Sound() && Clock() && pairTop == pos && head2[PairAt(b[..], bp)] == NIL
      ensures forall p: nat :: low <= p < pos ==> Beaten(p, 1)
    {
      hide Holds, Chains, Keyed, Idx, Same, PairAt;
      forall p: nat | low <= p < pos
        ensures Beaten(p, 1)
      {
        assert PairLeads(b[..], head2[..], p, pairTop, n + f);
        if Same(b[..], Idx(p, n + f), bp, 2) {
          SamePair(b[..], Idx(p, n + f), bp);
          assert false;
        }
      }
    }

    /** The search proper: pairs first, then the list. */
    method Gather(first: nat, cnt: nat, ghost c: seq<nat>)
      returns (mLen: nat, mPos: nat, bestPos: seq<nat>, ghost visited: nat, ghost at: nat)
      requires Fixed() && Sound() && Clock() && pos <= |text| && pos - low <= n && 2 <= look && pairTop == pos
      requires cnt <= |c| && Falling(c, low, pos) && Linked(succ3[..], c, n + f)
      requires c != [] ==> first == Idx(c[0], n + f)
      requires forall i :: 0 <= i < |c| ==> KeyAt(b[..], Idx(c[i], n + f)) == KeyAt(b[..], bp)
      ensures 1 <= mLen <= look && Gathered(mLen, mPos, bestPos)
      ensures visited <= cnt && forall i :: 0 <= i < visited ==> Beaten(c[i], mLen)
      ensures visited == cnt || (Stops(best3[..], c, visited, mLen) && mPos == Idx(c[visited - 1], n + f))
      ensures mLen == 1 ==> forall p: nat :: low <= p < pos ==> Beaten(p, 1)
      ensures mLen >= 3 ==> FirstAt(c, visited, at, mLen, mPos)
    {
      hide Idx, KeyAt, Sound, Clock, Linked, Gathered, Beaten, FirstAt;
      bestPos := seq(bestSize, _ => 0);
      visited, at := cnt, 0;
      var found;
      found, mLen, mPos, bestPos := SearchPair(bestPos);
      if found && look >= 3 {
        mLen, mPos, bestPos, visited, at := Search(first, cnt, c, mLen, mPos, bestPos);
      } else if found {
        AllBeaten(c);
      }
    }

    /** No match is longer than the look-ahead. */
    lemma {:induction false} AllBeaten(c: seq<nat>)
      requires Fixed()
      ensures forall i :: 0 <= i < |c| ==> Beaten(c[i], look)
    {
    }

    /** Offsets of the best positions by length. */
    method Offsets(mLen: nat, mPos: nat, bestPos: seq<nat>) returns (best: seq<nat>)
      requires Fixed() && Gathered(mLen, mPos, bestPos) && bp == Idx(pos, n + f) && pos < low + (n + f)
      ensures |best| == bestSize
      ensures forall i :: 2 <= i < |best| && best[i] != 0 ==> best[i] <= pos - low && Repeats(text, pos, best[i], i)
      ensures 2 <= mLen < |best| ==> best[mLen] == Distance(bp, mPos, n + f)
      ensures forall i :: mLen < i < |best| ==> best[i] == 0
    {
      hide Idx, Seen, Distance;
      best := [];
      for i := 0 to bestSize
        invariant |best| == i
        invariant forall k :: 2 <= k < i && best[k] != 0 ==> best[k] <= pos - low && Repeats(text, pos, best[k], k)
        invariant 2 <= mLen < i ==> best[mLen] == Distance(bp, mPos, n + f)
        invariant forall k :: mLen < k < i ==> best[k] == 0
      {
        var off: nat := 0;
        if i >= 2 && bestPos[i] > 0 {
          SeenDistance(text, pos, low, n + f, bestPos[i] - 1, i);
          off := Distance(bp, bestPos[i] - 1, n + f);
        }
        best := best + [off];
      }
    }

    /** `swd_findbest`: searches at `pos` and lists it. */
    method FindBest(maxChain: nat) returns (m: Found, ghost seen: seq<nat>)
      requires Valid() && pos <= |text|
      modifies this`bChar, this`mOff, this`bestOff, this`nodeCount, this`low, this`chain, this`top, this`pairTop, this`whole,
               head3, llen3, succ3, best3, head2
      ensures Stepping()
      ensures bChar == if pos < |text| then text[pos] else -1
      ensures TrueAt(text, pos, n, m) && 1 <= m.len <= f && |m.best| == bestSize
      ensures
        var c := old(chain)[KeyAt(old(b[..]), old(bp))];
        && seen <= c && LongestOf(text, pos, f, m.len, seen)
        && (maxChain > 0 ==> |seen| <= maxChain)
        && (seen == c || |seen| == maxChain || Stops(old(best3[..]), c, |seen|, m.len))
        && (seen == c ==> LongestSince(text, old(low), pos, f, m.len))
        && whole == (old(whole) && (maxChain == 0 || |c| <= maxChain) && niceLength >= f)
        && (whole ==> LongestSince(text, old(low), pos, f, m.len))
      ensures old(whole) && (maxChain == 0 || n <= maxChain) && niceLength >= f ==> whole
      ensures old(low) <= low
      ensures NearestOf(text, pos, f, m.len, m.off, seen) && (useBestOff ==> OwnBest(m))
    {
      hide Sound, Idx, KeyAt, LongestOf, LongestSince, Stops, TrueAt, Bounded, NearestOf, OwnBest;
      CharAt();
      bChar := if look == 0 then -1 else b[bp];
      var mLen;
      mLen, seen := SearchHere(maxChain);
      m := Found(mLen, mOff, bestOff);
      hide ClockAt, BestKept;
      Retire();
    }

    /** The oldest position leaves, and `pos` takes over its pair of bytes. */
    method Retire()
      requires Fixed() && Sound() && Clock() && BestKept() && BestBounded(pos + 1)
      requires low <= pos == pairTop && top == pos + 1 && pos - low + nodeCount == n
      modifies this`nodeCount, this`low, this`chain, this`pairTop, llen3, head2
      ensures Stepping() && old(low) <= low
    {
      hide Sound, Idx, Bounded, ClockAt, BestKept;
      At();
      MakeRoom(pos + 1);
      AddPair(bp, pos);
    }

    /** Neither of the two limits a caller sets can end a search of `len` positions. */
    ghost predicate Unlimited(len: nat, maxChain: nat)
      reads this`niceLength
    {
      (maxChain == 0 || len <= maxChain) && niceLength >= f
    }

    /** Lists `pos` under its key and searches the list as it was. */
    method SearchHere(maxChain: nat) returns (mLen: nat, ghost seen: seq<nat>)
      requires Valid() && pos <= |text|
      modifies this`mOff, this`bestOff, this`chain, this`top, this`whole, head3, llen3, succ3, best3
      ensures Fixed() && Sound() && BestKept() && top == pos + 1 && BestBounded(pos + 1)
      ensures Answers(text, pos, n, f, Found(mLen, mOff, bestOff), seen, useBestOff)
      ensures
        var c := old(chain)[KeyAt(b[..], bp)];
        && seen <= c
        && |seen| <= Limited(|c|, maxChain)
        && (|seen| == Limited(|c|, maxChain) || Stops(old(best3[..]), c, |seen|, mLen))
        && (seen == c ==> LongestSince(text, low, pos, f, mLen))
        && whole == (old(whole) && Unlimited(|c|, maxChain))
        && (whole ==> LongestSince(text, low, pos, f, mLen))
      ensures old(whole) && (maxChain == 0 || n <= maxChain) && niceLength >= f ==> whole
    {
      hide Idx, KeyAt, Sound, LongestSince, Bounded, ClockAt, BestKept, Stops, Unlimited, Answers, IsList;
      At();
      var node, cnt;
      ghost var c;
      node, cnt, c := JoinHere(maxChain);
      var kept;
      mLen, kept, seen := SearchIf(node, cnt, c, maxChain);
      KeepBest(bp, pos, kept);
    }

    /** The list of positions with the key of `pos`, which is in front of it already. */
    ghost predicate IsList(c: seq<nat>, first: nat)
      requires Fixed() && bp < n + f
      reads this`low, this`pos, this`bp, this`chain, b, succ3
    {
      && Falling(c, low, pos) && Linked(succ3[..], c, n + f)
      && (c != [] ==> first == Idx(c[0], n + f))
      && (forall i :: 0 <= i < |c| ==> KeyAt(b[..], Idx(c[i], n + f)) == KeyAt(b[..], bp))
      && |chain| == HSIZE && chain[KeyAt(b[..], bp)] == [pos] + c
    }

    method JoinHere(maxChain: nat) returns (first: nat, len: nat, ghost c: seq<nat>)
      requires Valid()
      modifies this`chain, this`top, this`whole, head3, llen3, succ3
      ensures Fixed() && Sound() && top == pos + 1 && bp < n + f && IsList(c, first) && len == |c|
      ensures |old(chain)| == HSIZE && c == old(chain)[KeyAt(b[..], bp)]
      ensures BestBounded(pos) && whole == (old(whole) && Unlimited(|c|, maxChain))
      ensures old(whole) && (maxChain == 0 || n <= maxChain) && niceLength >= f ==> whole
    {
      hide Idx, KeyAt, Sound, Falling, Linked, Bounded, ClockAt, BestKept, Unlimited;
      At();
      first, len, c := PushNode(bp);
      WhenUnlimited(c, maxChain);
      whole := whole && Unlimited(|c|, maxChain);
    }

    lemma {:induction false} WhenUnlimited(c: seq<nat>, maxChain: nat)
      requires low <= pos <= low + n && Falling(c, low, pos)
      ensures (maxChain == 0 || n <= maxChain) && niceLength >= f ==> Unlimited(|c|, maxChain)
    {
      FallingLength(c, low, pos);
    }

    /** Nothing is searched for less than two bytes, and nothing is known of the position then. */
    method SearchIf(first: nat, len: nat, ghost c: seq<nat>, maxChain: nat) returns (mLen: nat, kept: nat, ghost seen: seq<nat>)
      requires Fixed() && Sound() && Clock() && BestKept() && pos <= |text| && low <= pos <= low + n && pairTop == pos
      requires len == |c| && top == pos + 1 && bp < n + f && IsList(c, first)
      modifies this`mOff, this`bestOff
      ensures BestKept() && Answers(text, pos, n, f, Found(mLen, mOff, bestOff), seen, useBestOff)
      ensures kept == if look <= 1 then f + 1 else mLen
      ensures seen <= c && |seen| <= Limited(|c|, maxChain)
      ensures |seen| == Limited(|c|, maxChain) || Stops(best3[..], c, |seen|, mLen)
      ensures seen == c ==> LongestSince(text, low, pos, f, mLen)
      ensures Unlimited(|c|, maxChain) && Bounded(text, best3[..], low, pos, f, n + f) ==> LongestSince(text, low, pos, f, mLen)
    {
      hide Idx, KeyAt, Sound, Falling, Linked, LongestOf, TrueAt, LongestSince, Bounded, ClockAt, BestKept, Stops;
      At();
      var cnt := if maxChain > 0 && len > maxChain then maxChain else len;
      if look <= 1 {
        mLen, mOff, kept, seen := 1, 0, f + 1, c[..cnt];
        Nothing(text, low, pos, n, f, mOff, bestOff, c, cnt);
      } else {
        mLen, seen := SearchList(first, cnt, c);
        kept := mLen;
      }
    }

    /** Searches and takes down what was found. */
    method SearchList(first: nat, cnt: nat, ghost c: seq<nat>) returns (mLen: nat, ghost seen: seq<nat>)
      requires Fixed() && Sound() && Clock() && BestKept() && pos <= |text| && low <= pos <= low + n && 2 <= look && pairTop == pos
      requires cnt <= |c| && Falling(c, low, pos) && Linked(succ3[..], c, n + f)
      requires c != [] ==> first == Idx(c[0], n + f)
      requires forall i :: 0 <= i < |c| ==> KeyAt(b[..], Idx(c[i], n + f)) == KeyAt(b[..], bp)
      requires top == pos + 1 && |chain| == HSIZE && chain[KeyAt(b[..], bp)] == [pos] + c
      modifies this`mOff, this`bestOff
      ensures BestKept() && TrueAt(text, pos, n, Found(mLen, mOff, bestOff)) && 1 <= mLen <= f
      ensures seen <= c && LongestOf(text, pos, f, mLen, seen)
      ensures |seen| <= cnt && (|seen| == cnt || Stops(best3[..], c, |seen|, mLen))
      ensures seen == c ==> LongestSince(text, low, pos, f, mLen)
      ensures cnt == |c| && niceLength >= f && Bounded(text, best3[..], low, pos, f, n + f) ==> LongestSince(text, low, pos, f, mLen)
      ensures NearestOf(text, pos, f, mLen, mOff, seen) && (useBestOff ==> OwnBest(Found(mLen, mOff, bestOff)))
    {
      hide Idx, KeyAt, Sound, Linked, Gathered, Beaten, LongestOf, LongestSince, Repeats, Bounded, Seen, FirstAt, NearestOf, Distance;
      var mPos, bestPos;
      ghost var visited, at;
      mLen, mPos, bestPos, visited, at := Gather(first, cnt, c);
      Longest(c, visited, mLen);
      Nearest(c, visited, at, mLen, mPos);
      seen := c[..visited];
      if visited == |c| {
        assert c[..visited] == c;
        LongestOfAll(c, mLen);
      } else if cnt == |c| && niceLength >= f && Bounded(text, best3[..], low, pos, f, n + f) {
        KeptSeen(mLen, mPos, bestPos);
        NothingMissed(c, visited, mLen, mPos);
        LongestOfAll(c, mLen);
      }
      mOff := Report(mLen, mPos, bestPos);
      if useBestOff {
        bestOff := Offsets(mLen, mPos, bestPos);
      }
    }

    lemma {:induction false} Nearest(c: seq<nat>, visited: nat, at: nat, mLen: nat, mPos: nat)
      requires Fixed() && Sound() && Clock() && pos <= |text| && pos - low <= n && Falling(c, low, pos) && visited <= |c|
      requires mLen >= 3 ==> FirstAt(c, visited, at, mLen, mPos)
      ensures forall off :: mLen < 3 || off == Distance(bp, mPos, n + f) ==> NearestOf(text, pos, f, mLen, off, c[..visited])
    {
      hide Sound, Beaten, LongestOf, Idx, Distance;
      if mLen >= 3 {
        Longest(c, at, mLen - 1);
        DistanceIs(c[at], pos, n + f);
        assert c[..visited][..at] == c[..at] && c[..visited][at] == c[at];
      }
    }

    lemma {:induction false} KeptSeen(mLen: nat, mPos: nat, bestPos: seq<nat>)
      requires Fixed() && Gathered(mLen, mPos, bestPos)
      ensures mLen >= 2 ==> Seen(text, pos, low, n + f, mPos, mLen)
    {
    }

    /** Positions beaten in the ring are beaten in the text. */
    lemma {:induction false} Longest(c: seq<nat>, visited: nat, mLen: nat)
      requires Fixed() && Sound() && Clock() && pos <= |text| && pos - low <= n
      requires Falling(c, low, pos) && visited <= |c|
      requires forall i :: 0 <= i < visited ==> Beaten(c[i], mLen)
      ensures LongestOf(text, pos, f, mLen, c[..visited])
    {
      hide Sound, ClockAt, Beaten, Longer;
      forall i | 0 <= i < visited
        ensures !Longer(text, pos, f, mLen, c[i])
      {
        LongestAt(c[i], mLen);
      }
    }

    /** A longer match anywhere in the window would start with the same three bytes, or the same two, and be in the list. */
    lemma {:induction false} LongestOfAll(c: seq<nat>, mLen: nat)
      requires Fixed() && Sound() && Clock() && pos <= |text| && pos - low <= n && 1 <= mLen
      requires top == pos + 1 && |chain| == HSIZE && chain[KeyAt(b[..], bp)] == [pos] + c
      requires LongestOf(text, pos, f, mLen, c)
      requires mLen == 1 ==> forall p: nat :: low <= p < pos ==> Beaten(p, 1)
      ensures LongestSince(text, low, pos, f, mLen)
    {
      hide Sound, ClockAt, Beaten, Longer, KeyAt;
      forall p: nat | low <= p < pos
        ensures !Longer(text, pos, f, mLen, p)
      {
        if mLen == 1 {
          LongestAt(p, mLen);
        } else if p !in c {
          NotListed(c, p, mLen);
        }
      }
    }

    /** A search that was not limited has passed over nothing longer, wherever it stopped. */
    lemma {:induction false} NothingMissed(c: seq<nat>, visited: nat, mLen: nat, mPos: nat)
      requires Fixed() && Clock() && pos <= |text| && pos - low <= n && mLen <= look
      requires Falling(c, low, pos) && visited <= |c| && LongestOf(text, pos, f, mLen, c[..visited])
      requires Bounded(text, best3[..], low, pos, f, n + f) && niceLength >= f
      requires visited == |c| || (Stops(best3[..], c, visited, mLen) && mPos == Idx(c[visited - 1], n + f))
      requires mLen >= 2 ==> Seen(text, pos, low, n + f, mPos, mLen)
      ensures LongestOf(text, pos, f, mLen, c)
    {
      hide Longer, Idx, LongestSince;
      forall i | 0 <= i < |c|
        ensures !Longer(text, pos, f, mLen, c[i])
      {
        if i < visited {
          assert c[..visited][i] == c[i];
        } else if mLen == look || mLen >= f {
          LookedAll(c[i], mLen);
        } else {
          SeenAt(c[visited - 1], mPos, mLen);
          assert LongestSince(text, low, c[visited - 1], f, best3[..][Idx(c[visited - 1], n + f)]);
          StopLosesNothing(text, low, pos, f, c[visited - 1], best3[mPos], mLen, c[i]);
        }
      }
    }

    /** Nothing is longer than the look-ahead. */
    lemma {:induction false} LookedAll(p: nat, mLen: nat)
      requires Fixed() && Clock() && pos <= |text| && p < pos && (mLen == look || mLen >= f)
      ensures !Longer(text, pos, f, mLen, p)
    {
    }

    /** An index of the window belongs to one position. */
    lemma {:induction false} SeenAt(p: nat, node: nat, i: nat)
      requires Fixed() && pos - low <= n && low <= p < pos && node == Idx(p, n + f)
      requires Seen(text, pos, low, n + f, node, i)
      ensures Repeats(text, pos, pos - p, i)
    {
      hide Idx, Repeats;
      var q: nat :| low <= q < pos && node == Idx(q, n + f) && Repeats(text, pos, pos - q, i);
      if p < q {
        IdxApart(p, q, n + f);
      } else if q < p {
        IdxApart(q, p, n + f);
      }
    }

    lemma {:induction false} NotListed(c: seq<nat>, p: nat, mLen: nat)
      requires Fixed() && Sound() && Clock() && pos <= |text| && pos - low <= n && 2 <= mLen
      requires top == pos + 1 && |chain| == HSIZE && chain[KeyAt(b[..], bp)] == [pos] + c
      requires low <= p < pos && p !in c
      ensures !Longer(text, pos, f, mLen, p)
    {
      hide Idx, Chains, Paired, Holds, Repeats, Same, KeyAt;
      assert p in chain[KeyAt(b[..], Idx(p, n + f))];
      assert p !in [pos] + c;
      if Longer(text, pos, f, mLen, p) {
        RepeatsEnd(text, pos, pos - p, mLen + 1);
        RepeatsSame(b[..], text, End(), Z(), p, pos, mLen + 1);
        SameLess(b[..], Idx(p, n + f), bp, 3, mLen + 1);
        SameKey(b[..], Idx(p, n + f), bp);
        assert false;
      }
    }

    lemma {:induction false} LongestAt(p: nat, mLen: nat)
      requires Fixed() && Sound() && Clock() && pos <= |text| && pos - low <= n
      requires low <= p < pos && Beaten(p, mLen)
      ensures !Longer(text, pos, f, mLen, p)
    {
      hide Idx, Chains, Keyed, Paired, Holds, Repeats, Same;
      if Longer(text, pos, f, mLen, p) {
        RepeatsEnd(text, pos, pos - p, mLen + 1);
        RepeatsSame(b[..], text, End(), Z(), p, pos, mLen + 1);
      }
    }

    /** The offset of the match found, or the last one reported. */
    method Report(mLen: nat, mPos: nat, bestPos: seq<nat>) returns (off: nat)
      requires Fixed() && Gathered(mLen, mPos, bestPos) && bp == Idx(pos, n + f) && pos < low + (n + f)
      ensures mLen >= 2 ==> off <= pos - low && Repeats(text, pos, off, mLen) && off == Distance(bp, mPos, n + f)
    {
      hide Idx, Seen, Distance;
      off := mOff;
      if mLen > 1 {
        SeenDistance(text, pos, low, n + f, mPos, mLen);
        off := Distance(bp, mPos, n + f);
      }
    }

    /** The look-ahead covers what is left, up to its size. */
    lemma {:induction false} Reach(k: nat)
      requires Valid() && pos + k <= |text| && k <= f
      ensures k <= look
    {
    }

    lemma {:induction false} CharAt()
      requires Fixed() && Sound() && Clock() && pos <= |text|
      ensures pos < |text| ==> look > 0 && b[bp] == text[pos]
    {
      if pos < |text| {
        hide Chains, Keyed, Paired;
        ReadAt(b[..], text, End(), Z(), pos, 0);
      }
    }

    /** Searches at `pos` and moves on. */
    method SearchNext(maxChain: nat) returns (m: Found)
      requires Valid() && pos <= |text|
      modifies this`bChar, this`mOff, this`bestOff, this`nodeCount, this`low, this`chain, this`top, this`pairTop, this`whole,
               this`look, this`ip, this`bp, this`rp, this`input, this`pos, b, head3, llen3, succ3, best3, head2
      ensures Valid() && pos == old(pos) + 1
      ensures bChar == if old(pos) < |text| then text[old(pos)] else -1
      ensures TrueAt(text, old(pos), n, m) && m.len <= f && |m.best| == bestSize
      ensures whole ==> LongestSince(text, low, old(pos), f, m.len)
      ensures old(whole) && (maxChain == 0 || n <= maxChain) && niceLength >= f ==> whole
    {
      hide Sound, Idx, LongestSince, Bounded, KeyAt, LongestOf, Stops, Limited, Unlimited, BestKept, TrueAt, ClockAt;
      ghost var seen;
      m, seen := FindBest(maxChain);
      if whole {
        LongestLater(text, old(low), low, pos, f, m.len);
      }
      GetByte();
    }

    /** `find_match`: accepts all but `skip` of `thisLen` bytes, then searches at the next one. */
    method FindMatch(thisLen: nat, skip: nat, maxChain: nat) returns (m: Found, look': nat, at: nat)
      requires Valid() && (skip > 0 ==> skip <= thisLen && thisLen - skip <= look)
      requires pos <= |text|
      modifies this`bChar, this`mOff, this`bestOff, this`nodeCount, this`low, this`chain, this`top, this`pairTop, this`whole,
               this`look, this`ip, this`bp, this`rp, this`input, this`pos, b, head3, llen3, succ3, best3, head2
      ensures Valid() && at == old(pos) + (if skip > 0 then thisLen - skip else 0) <= |text| && pos == at + 1
      ensures look' == if |text| - at > f then f + 1 else |text| - at
      ensures TrueAt(text, at, n, m) && m.len <= f && |m.best| == bestSize
      ensures at < |text| ==> bChar == text[at]
      ensures whole && at < |text| ==> LongestSince(text, low, at, f, m.len)
      ensures old(whole) && (maxChain == 0 || n <= maxChain) && niceLength >= f ==> whole
    {
      hide Sound, Idx, LongestSince, Bounded, BestKept;
      if skip > 0 {
        Accept(thisLen - skip);
      }
      m := SearchNext(maxChain);
      if bChar < 0 {
        look' := 0;
        m := m.(len := 0);
      } else {
        look' := look + 1;
      }
      at := input - look';
    }
  }

  lemma {:induction false} Filled(b: seq<byte>, text: seq<byte>, end: nat, z: Shape)
    requires z.Valid() && z.filled == end <= |text| && |b| == z.size + z.tail
    requires forall p :: 0 <= p < end ==> b[p] == text[p]
    ensures Holds(b, text, end, z)
  {
    forall p: nat | p < end ensures Idx(p, z.size) == p {
      IdxSmall(p, z.size);
    }
  }

  lemma {:induction false} RepeatsEnd(text: seq<byte>, pos: nat, off: nat, len: nat)
    requires Repeats(text, pos, off, len)
    ensures pos + len <= |text|
  {
  }
}
