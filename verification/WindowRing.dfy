/**
 * The ring buffer and hash chains of the sliding-window match finder
 * (`lzo_swd.ch`), as facts about their contents. A position counts bytes from
 * the start of the dictionary; its index is where the ring keeps it.
 */
module WindowRing {
  import opened Bytes
  import opened Lz77
  import opened WindowHash

  // ---------- Positions and indices ----------

  function Idx(p: nat, size: nat): (i: nat)
    requires 0 < size
    ensures i < size
  {
    p % size
  }

  lemma {:induction false} IdxSmall(p: nat, size: nat)
    requires p < size
    ensures Idx(p, size) == p
  {
    DivMod(p, size, 0, p);
  }

  lemma {:induction false} IdxBelow(p: nat, size: nat)
    requires 0 < size
    ensures Idx(p, size) <= p
  {
    if p < size {
      IdxSmall(p, size);
    }
  }

  lemma {:induction false} IdxPlus(p: nat, k: nat, size: nat)
    requires 0 < size && k <= size
    ensures Idx(p + k, size) == if Idx(p, size) + k < size then Idx(p, size) + k else Idx(p, size) + k - size
  {
    var q, r := p / size, p % size;
    assert p == size * q + r;
    if r + k < size {
      DivMod(p + k, size, q, r + k);
    } else {
      assert size * (q + 1) == size * q + size;
      DivMod(p + k, size, q + 1, r + k - size);
    }
  }

  lemma {:induction false} IdxRound(p: nat, size: nat)
    requires 0 < size
    ensures Idx(p + size, size) == Idx(p, size)
  {
    IdxPlus(p, size, size);
  }

  lemma {:induction false} IdxApart(p: nat, q: nat, size: nat)
    requires p < q < p + size
    ensures Idx(p, size) != Idx(q, size)
  {
    IdxPlus(p, q - p, size);
  }

  /** `swd_pos2off`: the distance back to an index. */
  function Distance(at: nat, node: nat, size: nat): int {
    if at > node then at - node else size - (node - at)
  }

  lemma {:induction false} DistanceIs(p: nat, q: nat, size: nat)
    requires p < q < p + size
    ensures Distance(Idx(q, size), Idx(p, size), size) == q - p
  {
    IdxPlus(p, q - p, size);
  }

  // ---------- The buffer ----------

  /** Ring size, length of the copy of its start kept behind it, and how much was filled at once. */
  datatype Shape = Shape(size: nat, tail: nat, filled: nat) {
    predicate Valid() {
      3 <= tail && 3 * tail < size && filled <= size
    }
  }

  /** The ring holds the last `size` bytes of `text[..end]`, and behind it again those at its start. */
  ghost predicate Holds(b: seq<byte>, text: seq<byte>, end: nat, z: Shape) {
    && z.Valid()
    && |b| == z.size + z.tail
    && (forall p: nat :: end <= p + z.size && p < end && p < |text| ==> b[Idx(p, z.size)] == text[p])
    && (forall p: nat :: end <= p + z.size && p < end && p < |text| && z.filled <= p && Idx(p, z.size) < z.tail ==>
          b[z.size + Idx(p, z.size)] == text[p])
  }

  /** Reading on from an index runs into the copy instead of wrapping. */
  lemma {:induction false} ReadAt(b: seq<byte>, text: seq<byte>, end: nat, z: Shape, p: nat, k: nat)
    requires Holds(b, text, end, z)
    requires end <= p + k + z.size && p + k < end && p + k < |text| && k <= z.tail
    ensures b[Idx(p, z.size) + k] == text[p + k]
  {
    var q := p + k;
    hide Idx;
    IdxPlus(p, k, z.size);
    IdxBelow(p, z.size);
    assert b[Idx(q, z.size)] == text[q];
    if Idx(p, z.size) + k >= z.size {
      assert b[z.size + Idx(q, z.size)] == text[q];
    }
  }

  /** `swd_getbyte`'s store. */
  function Stored(b: seq<byte>, x: byte, i: nat, z: Shape): (r: seq<byte>)
    requires |b| == z.size + z.tail && i < z.size
    ensures |r| == |b|
  {
    if i < z.tail then b[i := x][z.size + i := x] else b[i := x]
  }

  /** Storing touches no cell of the positions before `end` that the ring keeps. */
  lemma {:induction false} StoredElsewhere(b: seq<byte>, x: byte, end: nat, z: Shape, p: nat, k: nat)
    requires z.Valid() && |b| == z.size + z.tail && k < z.tail
    requires end < p + k + z.size && p + k < end
    ensures Stored(b, x, Idx(end, z.size), z)[Idx(p, z.size) + k] == b[Idx(p, z.size) + k]
  {
    IdxPlus(p, k, z.size);
    IdxApart(p + k, end, z.size);
  }

  lemma {:induction false} StoreHolds(b: seq<byte>, text: seq<byte>, end: nat, z: Shape)
    requires Holds(b, text, end, z) && end < |text| && z.filled <= end
    ensures Holds(Stored(b, text[end], Idx(end, z.size), z), text, end + 1, z)
  {
    var r := Stored(b, text[end], Idx(end, z.size), z);
    forall p: nat | end + 1 <= p + z.size && p < end + 1 && p < |text|
      ensures r[Idx(p, z.size)] == text[p]
      ensures z.filled <= p && Idx(p, z.size) < z.tail ==> r[z.size + Idx(p, z.size)] == text[p]
    {
      if p < end {
        IdxApart(p, end, z.size);
      }
    }
  }

  /** Without a byte to store the end may still move on. */
  lemma {:induction false} EndHolds(b: seq<byte>, text: seq<byte>, end: nat, z: Shape)
    requires Holds(b, text, end, z) && |text| <= end
    ensures Holds(b, text, end + 1, z)
  {
  }

  // ---------- Keys ----------

  function KeyAt(b: seq<byte>, i: nat): (k: nat)
    requires i + 2 < |b|
    ensures k < HSIZE
  {
    Head3(b[i], b[i + 1], b[i + 2])
  }

  function PairAt(b: seq<byte>, i: nat): (k: nat)
    requires i + 1 < |b|
    ensures k < 65536
  {
    Head2(b[i], b[i + 1])
  }

  // ---------- Chains ----------

  /** Positions from `low` up to `top`, newest first. */
  ghost predicate Falling(c: seq<nat>, low: nat, top: nat) {
    && (forall i :: 0 <= i < |c| ==> low <= c[i] < top)
    && (forall i, j :: 0 <= i < j < |c| ==> c[i] > c[j])
  }

  ghost predicate Linked(succ: seq<nat>, c: seq<nat>, size: nat)
    requires 0 < size <= |succ|
  {
    forall i :: 0 <= i < |c| - 1 ==> succ[Idx(c[i], size)] == Idx(c[i + 1], size)
  }

  /** One list: its head index and length are known, its links lead through exactly `c`. */
  ghost predicate Listed(head: nat, len: nat, succ: seq<nat>, c: seq<nat>, low: nat, top: nat, size: nat)
    requires 0 < size <= |succ|
  {
    && Falling(c, low, top)
    && len == |c|
    && (c != [] ==> head == Idx(c[0], size))
    && Linked(succ, c, size)
  }

  ghost predicate Chains(head: seq<nat>, len: seq<nat>, succ: seq<nat>, chain: seq<seq<nat>>,
                         low: nat, top: nat, size: nat) {
    && 0 < size == |succ|
    && |head| == |len| == |chain| == HSIZE
    && forall k :: 0 <= k < HSIZE ==> Listed(head[k], len[k], succ, chain[k], low, top, size)
  }

  lemma {:induction false} ListedApart(head: nat, len: nat, succ: seq<nat>, c: seq<nat>,
                                       low: nat, top: nat, size: nat, x: nat)
    requires 0 < size <= |succ| && Listed(head, len, succ, c, low, top, size) && top < low + size
    ensures Listed(head, len, succ[Idx(top, size) := x], c, low, top + 1, size)
  {
    var succ' := succ[Idx(top, size) := x];
    forall i | 0 <= i < |c| - 1
      ensures succ'[Idx(c[i], size)] == Idx(c[i + 1], size)
    {
      IdxApart(c[i], top, size);
    }
  }

  lemma {:induction false} ListedFront(head: nat, len: nat, succ: seq<nat>, c: seq<nat>,
                                       low: nat, top: nat, size: nat)
    requires 0 < size <= |succ| && low <= top
    requires Listed(head, len, succ, c, low, top, size) && top < low + size
    ensures Listed(Idx(top, size), len + 1, succ[Idx(top, size) := head], [top] + c, low, top + 1, size)
  {
    var succ' := succ[Idx(top, size) := head];
    var all := [top] + c;
    ListedApart(head, len, succ, c, low, top, size, head);
    forall i | 0 <= i < |all| - 1
      ensures succ'[Idx(all[i], size)] == Idx(all[i + 1], size)
    {
      if i > 0 {
        assert all[i] == c[i - 1] && all[i + 1] == c[i];
      }
    }
  }

  /** Adding the newest position to the list of its key. */
  lemma {:induction false} PushChain(head: seq<nat>, len: seq<nat>, succ: seq<nat>, chain: seq<seq<nat>>,
                                     low: nat, top: nat, size: nat, k: nat)
    requires Chains(head, len, succ, chain, low, top, size) && low <= top < low + size && k < HSIZE
    ensures Chains(head[k := Idx(top, size)], len[k := len[k] + 1], succ[Idx(top, size) := head[k]],
                   chain[k := [top] + chain[k]], low, top + 1, size)
  {
    var head', len' := head[k := Idx(top, size)], len[k := len[k] + 1];
    var succ', chain' := succ[Idx(top, size) := head[k]], chain[k := [top] + chain[k]];
    forall j | 0 <= j < HSIZE
      ensures Listed(head'[j], len'[j], succ', chain'[j], low, top + 1, size)
    {
      hide Listed;
      if j == k {
        ListedFront(head[k], len[k], succ, chain[k], low, top, size);
      } else {
        ListedApart(head[j], len[j], succ, chain[j], low, top, size, head[k]);
      }
    }
  }

  /** The oldest position ends its list: dropping it is counting one less. */
  lemma {:induction false} PopChain(head: seq<nat>, len: seq<nat>, succ: seq<nat>, chain: seq<seq<nat>>,
                                    low: nat, top: nat, size: nat, k: nat)
    requires Chains(head, len, succ, chain, low, top, size) && k < HSIZE && low in chain[k]
    requires forall j :: 0 <= j < HSIZE && low in chain[j] ==> j == k
    ensures len[k] > 0 && chain[k][len[k] - 1] == low
    ensures Chains(head, len[k := len[k] - 1], succ, chain[k := chain[k][..len[k] - 1]], low + 1, top, size)
  {
    var c := chain[k];
    assert Listed(head[k], len[k], succ, c, low, top, size);
    var i :| 0 <= i < |c| && c[i] == low;
    assert low <= c[|c| - 1];
    assert i == |c| - 1;
    forall j | 0 <= j < HSIZE
      ensures Listed(head[j], len[k := len[k] - 1][j], succ, chain[k := c[..len[k] - 1]][j], low + 1, top, size)
    {
      assert Listed(head[j], len[j], succ, chain[j], low, top, size);
      if j != k {
        assert forall i :: 0 <= i < |chain[j]| ==> chain[j][i] in chain[j];
      }
    }
  }

  /** The lists hold exactly the positions from `low` to `top`, each under its key. */
  ghost predicate Keyed(b: seq<byte>, chain: seq<seq<nat>>, low: nat, top: nat, size: nat) {
    && 0 < size && size + 2 < |b| && |chain| == HSIZE
    && (forall p: nat :: low <= p < top ==> p in chain[KeyAt(b, Idx(p, size))])
    && (forall k, p :: 0 <= k < HSIZE && p in chain[k] ==> KeyAt(b, Idx(p, size)) == k)
  }

  lemma {:induction false} PushKeyed(b: seq<byte>, chain: seq<seq<nat>>, low: nat, top: nat, size: nat)
    requires Keyed(b, chain, low, top, size)
    ensures
      var k := KeyAt(b, Idx(top, size));
      Keyed(b, chain[k := [top] + chain[k]], low, top + 1, size)
  {
    var k := KeyAt(b, Idx(top, size));
    var chain' := chain[k := [top] + chain[k]];
    forall p: nat | low <= p < top + 1
      ensures p in chain'[KeyAt(b, Idx(p, size))]
    {
      hide KeyAt;
      if p < top {
        assert p in chain[KeyAt(b, Idx(p, size))];
      }
    }
  }

  /** The list that the newest position joins. */
  lemma {:induction false} JoinList(head: seq<nat>, len: seq<nat>, succ: seq<nat>, chain: seq<seq<nat>>, b: seq<byte>,
                                    low: nat, top: nat, size: nat, k: nat)
    requires Chains(head, len, succ, chain, low, top, size) && Keyed(b, chain, low, top, size)
    requires low <= top < low + size && k < HSIZE
    ensures |chain| == |len| == |head| == HSIZE && |succ| == size
    ensures
      var c := chain[k];
      && len[k] == |c| && Falling(c, low, top) && (c != [] ==> head[k] == Idx(c[0], size))
      && Linked(succ[Idx(top, size) := head[k]], c, size)
      && forall i :: 0 <= i < |c| ==> KeyAt(b, Idx(c[i], size)) == k
  {
    var c := chain[k];
    assert Listed(head[k], len[k], succ, c, low, top, size);
    ListedApart(head[k], len[k], succ, c, low, top, size, head[k]);
    assert forall i :: 0 <= i < |c| ==> c[i] in c;
    hide KeyAt, Idx;
  }

  lemma {:induction false} PopKeyed(b: seq<byte>, chain: seq<seq<nat>>, low: nat, top: nat, size: nat)
    requires Keyed(b, chain, low, top, size) && low < top
    requires var c := chain[KeyAt(b, Idx(low, size))]; c != [] && c[|c| - 1] == low
    ensures
      var k := KeyAt(b, Idx(low, size));
      Keyed(b, chain[k := chain[k][..|chain[k]| - 1]], low + 1, top, size)
  {
    hide KeyAt;
    var k := KeyAt(b, Idx(low, size));
    var c := chain[k];
    var chain' := chain[k := c[..|c| - 1]];
    forall p: nat | low + 1 <= p < top
      ensures p in chain'[KeyAt(b, Idx(p, size))]
    {
      assert p in chain[KeyAt(b, Idx(p, size))];
      assert c == c[..|c| - 1] + [low];
    }
  }

  /** The oldest position leaves the list of its key, and no other list changes. */
  lemma {:induction false} PopLists(head: seq<nat>, len: seq<nat>, succ: seq<nat>, chain: seq<seq<nat>>, b: seq<byte>,
                                    low: nat, top: nat, size: nat)
    requires Chains(head, len, succ, chain, low, top, size) && Keyed(b, chain, low, top, size) && low < top
    ensures
      var k := KeyAt(b, Idx(low, size));
      && |chain| == |len| == HSIZE && len[k] > 0 && |chain[k]| == len[k]
      && Chains(head, len[k := len[k] - 1], succ, chain[k := chain[k][..len[k] - 1]], low + 1, top, size)
      && Keyed(b, chain[k := chain[k][..len[k] - 1]], low + 1, top, size)
  {
    hide KeyAt, Idx;
    var k := KeyAt(b, Idx(low, size));
    assert Listed(head[k], len[k], succ, chain[k], low, top, size);
    PopChain(head, len, succ, chain, low, top, size, k);
    PopKeyed(b, chain, low, top, size);
  }

  /** Each pair of bytes leads to the last kept position that starts with it, or nowhere if there is none. */
  ghost predicate Paired(b: seq<byte>, head2: seq<nat>, low: nat, top: nat, size: nat) {
    && 0 < size && size + 1 < |b| && |head2| == 65536
    && (forall k :: 0 <= k < 65536 && head2[k] != NIL ==> PairKept(b, head2[k], k, low, top, size))
    && (forall p: nat :: low <= p < top ==> PairLeads(b, head2, p, top, size))
  }

  const NIL: nat := 65535

  ghost predicate PairKept(b: seq<byte>, i: nat, k: nat, low: nat, top: nat, size: nat)
    requires 0 < size && size + 1 < |b|
  {
    exists p: nat :: low <= p < top && i == Idx(p, size) && PairAt(b, Idx(p, size)) == k
  }

  /** The pair at `p` leads there or to a later position. */
  ghost predicate PairLeads(b: seq<byte>, head2: seq<nat>, p: nat, top: nat, size: nat)
    requires 0 < size && size + 1 < |b| && |head2| == 65536
  {
    exists q: nat :: p <= q < top && head2[PairAt(b, Idx(p, size))] == Idx(q, size)
  }

  /** The newest position takes over its pair. */
  lemma {:induction false} PushPaired(b: seq<byte>, head2: seq<nat>, low: nat, top: nat, size: nat)
    requires Paired(b, head2, low, top, size) && low <= top
    ensures Paired(b, head2[PairAt(b, Idx(top, size)) := Idx(top, size)], low, top + 1, size)
  {
    hide PairAt, Idx;
    var k := PairAt(b, Idx(top, size));
    var head2' := head2[k := Idx(top, size)];
    forall j | 0 <= j < 65536 && head2'[j] != NIL
      ensures PairKept(b, head2'[j], j, low, top + 1, size)
    {
      if j != k {
        assert PairKept(b, head2[j], j, low, top, size);
      }
    }
    var above := top + 1;
    forall p: nat | low <= p < above
      ensures PairLeads(b, head2', p, above, size)
    {
      if p < top {
        assert PairLeads(b, head2, p, top, size);
      }
    }
  }

  lemma {:induction false} PopPaired(b: seq<byte>, head2: seq<nat>, low: nat, top: nat, size: nat)
    requires Paired(b, head2, low, top, size) && low < top <= low + size
    ensures
      var k := PairAt(b, Idx(low, size));
      Paired(b, if head2[k] == Idx(low, size) then head2[k := NIL] else head2, low + 1, top, size)
  {
    hide PairAt, Idx;
    var k := PairAt(b, Idx(low, size));
    var head2' := if head2[k] == Idx(low, size) then head2[k := NIL] else head2;
    forall j | 0 <= j < 65536 && head2'[j] != NIL
      ensures PairKept(b, head2'[j], j, low + 1, top, size)
    {
      assert PairKept(b, head2[j], j, low, top, size);
      var p: nat :| low <= p < top && head2[j] == Idx(p, size) && PairAt(b, Idx(p, size)) == j;
      assert p != low;
    }
    forall p: nat | low + 1 <= p < top
      ensures PairLeads(b, head2', p, top, size)
    {
      assert PairLeads(b, head2, p, top, size);
      var q: nat :| p <= q < top && head2[PairAt(b, Idx(p, size))] == Idx(q, size);
      IdxApart(low, q, size);
    }
  }

  // ---------- Storing under the lists ----------

  lemma {:induction false} StoreKeyed(b: seq<byte>, x: byte, end: nat, z: Shape, chain: seq<seq<nat>>, low: nat, top: nat)
    requires z.Valid() && |b| == z.size + z.tail
    requires Keyed(b, chain, low, top, z.size) && end < low + z.size && top + 1 < end
    requires forall k, p :: 0 <= k < HSIZE && p in chain[k] ==> low <= p < top
    ensures Keyed(Stored(b, x, Idx(end, z.size), z), chain, low, top, z.size)
  {
    var r := Stored(b, x, Idx(end, z.size), z);
    forall p: nat | low <= p < top
      ensures KeyAt(r, Idx(p, z.size)) == KeyAt(b, Idx(p, z.size))
    {
      StoredElsewhere(b, x, end, z, p, 0);
      StoredElsewhere(b, x, end, z, p, 1);
      StoredElsewhere(b, x, end, z, p, 2);
      hide Stored;
    }
    hide Stored, KeyAt;
  }

  lemma {:induction false} StorePaired(b: seq<byte>, x: byte, end: nat, z: Shape, head2: seq<nat>, low: nat, top: nat)
    requires z.Valid() && |b| == z.size + z.tail
    requires Paired(b, head2, low, top, z.size) && end < low + z.size && top < end
    ensures Paired(Stored(b, x, Idx(end, z.size), z), head2, low, top, z.size)
  {
    var r := Stored(b, x, Idx(end, z.size), z);
    forall p: nat | low <= p < top
      ensures PairAt(r, Idx(p, z.size)) == PairAt(b, Idx(p, z.size))
    {
      StoredElsewhere(b, x, end, z, p, 0);
      StoredElsewhere(b, x, end, z, p, 1);
    }
    hide Stored, PairAt;
    forall k | 0 <= k < 65536 && head2[k] != NIL
      ensures PairKept(r, head2[k], k, low, top, z.size)
    {
      assert PairKept(b, head2[k], k, low, top, z.size);
    }
    forall p: nat | low <= p < top
      ensures PairLeads(r, head2, p, top, z.size)
    {
      assert PairLeads(b, head2, p, top, z.size);
    }
  }

  lemma {:induction false} ChainsWithin(head: seq<nat>, len: seq<nat>, succ: seq<nat>, chain: seq<seq<nat>>,
                                        low: nat, top: nat, size: nat)
    requires Chains(head, len, succ, chain, low, top, size)
    ensures forall k, p :: 0 <= k < HSIZE && p in chain[k] ==> low <= p < top
  {
    forall k, p | 0 <= k < HSIZE && p in chain[k] ensures low <= p < top {
      assert Listed(head[k], len[k], succ, chain[k], low, top, size);
    }
  }

  // ---------- Matches ----------

  /** The first `i` bytes at two indices agree. */
  ghost predicate Same(b: seq<byte>, x: nat, y: nat, i: nat) {
    x + i <= |b| && y + i <= |b| && b[x..x + i] == b[y..y + i]
  }

  /** One more byte agrees. */
  lemma {:induction false} SameMore(b: seq<byte>, x: nat, y: nat, i: nat)
    requires Same(b, x, y, i) && x + i < |b| && y + i < |b|
    ensures Same(b, x, y, i + 1) <==> b[x + i] == b[y + i]
  {
    assert b[x..x + i + 1] == b[x..x + i] + [b[x + i]] && b[y..y + i + 1] == b[y..y + i] + [b[y + i]];
    if Same(b, x, y, i + 1) {
      assert b[x..x + i + 1][i] == b[y..y + i + 1][i];
    }
  }

  lemma {:induction false} SameLess(b: seq<byte>, x: nat, y: nat, i: nat, j: nat)
    requires Same(b, x, y, j) && i <= j
    ensures Same(b, x, y, i)
  {
    var u, v := b[x..x + j], b[y..y + j];
    assert b[x..x + i] == u[..i];
    assert b[y..y + i] == v[..i];
  }

  lemma {:induction false} SameAt(b: seq<byte>, x: nat, y: nat, i: nat, j: nat)
    requires Same(b, x, y, i) && j < i
    ensures b[x + j] == b[y + j]
  {
    assert b[x..x + i][j] == b[y..y + i][j];
  }

  /** A difference within the first or at the last two of `len + 1` bytes. */
  lemma {:induction false} EndsDiffer(b: seq<byte>, x: nat, y: nat, len: nat)
    requires 1 <= len && x + len < |b| && y + len < |b|
    requires b[x + len - 1] != b[y + len - 1] || b[x + len] != b[y + len] || b[x] != b[y] || b[x + 1] != b[y + 1]
    ensures !Same(b, x, y, len + 1)
  {
    if Same(b, x, y, len + 1) {
      SameAt(b, x, y, len + 1, len - 1);
      SameAt(b, x, y, len + 1, len);
      SameAt(b, x, y, len + 1, 0);
      SameAt(b, x, y, len + 1, 1);
    }
  }

  /** Equal keys and equal first two bytes make three. */
  lemma {:induction false} FirstThree(b: seq<byte>, x: nat, y: nat)
    requires x + 2 < |b| && y + 2 < |b|
    requires b[x] == b[y] && b[x + 1] == b[y + 1] && KeyAt(b, x) == KeyAt(b, y)
    ensures Same(b, x, y, 3)
  {
    Head3Third(b[x], b[x + 1], b[x + 2], b[y + 2]);
    assert b[x..x + 3] == [b[x], b[x + 1], b[x + 2]] && b[y..y + 3] == [b[y], b[y + 1], b[y + 2]];
  }

  /** Bytes that repeat in the text agree in the ring. */
  lemma {:induction false} RepeatsSame(b: seq<byte>, text: seq<byte>, end: nat, z: Shape, p: nat, pos: nat, i: nat)
    requires Holds(b, text, end, z) && p < pos && end <= p + z.size && i <= z.tail
    requires pos + i <= end && Repeats(text, pos, pos - p, i)
    ensures Same(b, Idx(p, z.size), Idx(pos, z.size), i)
  {
    var x, y := Idx(p, z.size), Idx(pos, z.size);
    var u, v := b[x..x + i], b[y..y + i];
    forall j | 0 <= j < i
      ensures u[j] == v[j]
    {
      ReadAt(b, text, end, z, p, j);
      ReadAt(b, text, end, z, pos, j);
      assert text[pos + j] == text[pos + j - (pos - p)];
    }
  }

  /** Equal bytes have equal keys. */
  lemma {:induction false} SameKey(b: seq<byte>, x: nat, y: nat)
    requires Same(b, x, y, 3)
    ensures KeyAt(b, x) == KeyAt(b, y)
  {
    SameAt(b, x, y, 3, 0);
    SameAt(b, x, y, 3, 1);
    SameAt(b, x, y, 3, 2);
  }

  lemma {:induction false} SamePair(b: seq<byte>, x: nat, y: nat)
    requires Same(b, x, y, 2)
    ensures PairAt(b, x) == PairAt(b, y)
  {
    SameAt(b, x, y, 2, 0);
    SameAt(b, x, y, 2, 1);
  }

  /** Bytes that agree in the ring repeat in the text. */
  lemma {:induction false} SameRepeats(b: seq<byte>, text: seq<byte>, end: nat, z: Shape, p: nat, pos: nat, i: nat)
    requires Holds(b, text, end, z) && p < pos && end <= p + z.size && i <= z.tail
    requires pos + i <= end && pos + i <= |text|
    requires Same(b, Idx(p, z.size), Idx(pos, z.size), i)
    ensures Repeats(text, pos, pos - p, i)
  {
    forall q | pos <= q < pos + i
      ensures text[q] == text[q - (pos - p)]
    {
      var j := q - pos;
      ReadAt(b, text, end, z, p, j);
      ReadAt(b, text, end, z, pos, j);
      assert b[Idx(p, z.size)..Idx(p, z.size) + i][j] == b[Idx(pos, z.size)..Idx(pos, z.size) + i][j];
    }
  }

  /** `i` bytes at `pos` repeat at the position kept at index `node`. */
  ghost predicate Seen(text: seq<byte>, pos: nat, low: nat, size: nat, node: nat, i: nat)
    requires 0 < size
  {
    exists p: nat :: low <= p < pos && node == Idx(p, size) && Repeats(text, pos, pos - p, i)
  }

  /** What the finder reports from an index it saw is a true distance within the window. */
  lemma {:induction false} SeenDistance(text: seq<byte>, pos: nat, low: nat, size: nat, node: nat, i: nat)
    requires 0 < size && Seen(text, pos, low, size, node, i) && pos < low + size
    ensures
      var off := Distance(Idx(pos, size), node, size);
      0 < off <= pos - low && Repeats(text, pos, off, i)
  {
    var p: nat :| low <= p < pos && node == Idx(p, size) && Repeats(text, pos, pos - p, i);
    DistanceIs(p, pos, size);
  }
}
