/** Singly linked lists in memory: the link fields of all nodes are a map from address to address,
    with 0 for NULL. */
module LinkedLists {

  type Addr = nat
  type Links = map<Addr, Addr>

  /** From `first`, the links run through exactly `nodes` and then to `end`. */
  ghost predicate Segment(next: Links, first: Addr, nodes: seq<Addr>, end: Addr)
    decreases |nodes|
  {
    if nodes == [] then first == end
    else first == nodes[0] && first != 0 && first in next && Segment(next, next[first], nodes[1..], end)
  }

  ghost predicate Distinct(nodes: seq<Addr>) {
    forall i, j :: 0 <= i < j < |nodes| ==> nodes[i] != nodes[j]
  }

  lemma {:induction false} SegmentConcat(next: Links, first: Addr, a: seq<Addr>, mid: Addr, b: seq<Addr>, end: Addr)
    requires Segment(next, first, a, mid) && Segment(next, mid, b, end)
    ensures Segment(next, first, a + b, end)
    decreases |a|
  {
    if a == [] {
      assert a + b == b;
    } else {
      assert (a + b)[1..] == a[1..] + b;
      SegmentConcat(next, next[first], a[1..], mid, b, end);
    }
  }

  /** A segment can be cut before any of its nodes. */
  lemma {:induction false} SegmentCut(next: Links, first: Addr, nodes: seq<Addr>, end: Addr, n: nat)
    requires Segment(next, first, nodes, end) && n < |nodes|
    ensures Segment(next, first, nodes[..n], nodes[n]) && Segment(next, nodes[n], nodes[n..], end)
    decreases |nodes|
  {
    if n == 0 {
      assert nodes[..0] == [] && nodes[0..] == nodes;
    } else {
      assert nodes[1..][..n - 1] == nodes[..n][1..] && nodes[1..][n - 1..] == nodes[n..];
      SegmentCut(next, next[first], nodes[1..], end, n - 1);
    }
  }

  /** A link outside a segment does not matter to it. */
  lemma {:induction false} SegmentFrame(next: Links, first: Addr, nodes: seq<Addr>, end: Addr, x: Addr, y: Addr)
    requires Segment(next, first, nodes, end) && x !in nodes
    ensures Segment(next[x := y], first, nodes, end)
    decreases |nodes|
  {
    if nodes != [] {
      assert first in nodes;
      SegmentFrame(next, next[first], nodes[1..], end, x, y);
    }
  }

  /** Rewriting the link of its last node moves the end of a segment. */
  lemma {:induction false} SegmentRelink(next: Links, first: Addr, nodes: seq<Addr>, end: Addr, y: Addr)
    requires Segment(next, first, nodes, end) && nodes != [] && Distinct(nodes)
    ensures Segment(next[nodes[|nodes| - 1] := y], first, nodes, y)
    decreases |nodes|
  {
    var last := nodes[|nodes| - 1];
    if |nodes| > 1 {
      assert nodes[1..][|nodes| - 2] == last && nodes[0] != last;
      SegmentRelink(next, next[first], nodes[1..], end, y);
    }
  }

  lemma DistinctParts(all: seq<Addr>, n: nat)
    requires Distinct(all) && n <= |all|
    ensures Distinct(all[..n]) && Distinct(all[n..])
    ensures forall x :: x in all[..n] ==> x !in all[n..]
  {
    forall x | x in all[..n]
      ensures x !in all[n..]
    {
      var i :| 0 <= i < n && all[..n][i] == x;
      assert all[i] == x;
    }
  }

  lemma DistinctMember(all: seq<Addr>, k: nat)
    requires Distinct(all) && k < |all|
    ensures all[k] !in all[..k] && all[k] !in all[k + 1..]
    ensures Distinct(all[..k] + all[k + 1..])
  {
  }

  /** Unlinking the node at position `k > 0` through the link of its predecessor. */
  lemma SegmentUnlink(next: Links, first: Addr, nodes: seq<Addr>, k: nat)
    requires Segment(next, first, nodes, 0) && Distinct(nodes) && 0 < k < |nodes|
    ensures nodes[k] in next
    ensures Segment(next[nodes[k - 1] := next[nodes[k]]], first, nodes[..k] + nodes[k + 1..], 0)
  {
    var x, p := nodes[k], nodes[k - 1];
    SegmentCut(next, first, nodes, 0, k);
    assert nodes[k..][1..] == nodes[k + 1..];
    var rest := next[x];
    DistinctParts(nodes, k);
    assert p == nodes[..k][k - 1] && p in nodes[..k];
    assert p !in nodes[k + 1..];
    SegmentRelink(next, first, nodes[..k], x, rest);
    SegmentFrame(next, rest, nodes[k + 1..], 0, p, rest);
    SegmentConcat(next[p := rest], first, nodes[..k], rest, nodes[k + 1..], 0);
  }

  lemma {:induction false} SegmentNonNull(next: Links, first: Addr, nodes: seq<Addr>, end: Addr)
    requires Segment(next, first, nodes, end)
    ensures 0 !in nodes && forall a :: a in nodes ==> a in next
    decreases |nodes|
  {
    if nodes != [] {
      SegmentNonNull(next, next[first], nodes[1..], end);
    }
  }

  /** Taking a node out and putting it in front permutes the list. */
  lemma MoveToFront(nodes: seq<Addr>, k: nat)
    requires k < |nodes| && Distinct(nodes)
    ensures var now := [nodes[k]] + (nodes[..k] + nodes[k + 1..]);
            multiset(now) == multiset(nodes) && Distinct(now) && forall a :: a in now <==> a in nodes
  {
    hide Distinct;
    var others := nodes[..k] + nodes[k + 1..];
    DistinctMember(nodes, k);
    SameMembers(nodes, k);
    DistinctFront(nodes[k], others);
  }

  lemma SameMembers(nodes: seq<Addr>, k: nat)
    requires k < |nodes|
    ensures var now := [nodes[k]] + (nodes[..k] + nodes[k + 1..]);
            multiset(now) == multiset(nodes) && forall a :: a in now <==> a in nodes
  {
    var now := [nodes[k]] + (nodes[..k] + nodes[k + 1..]);
    assert nodes == nodes[..k] + [nodes[k]] + nodes[k + 1..];
    assert multiset(now) == multiset(nodes);
    assert forall a :: a in now <==> a in multiset(now);
  }

  lemma DistinctFront(x: Addr, others: seq<Addr>)
    requires Distinct(others) && x !in others
    ensures Distinct([x] + others)
  {
    var now := [x] + others;
    forall i, j | 0 <= i < j < |now|
      ensures now[i] != now[j]
    {
      assert now[j] == others[j - 1];
      if i > 0 {
        assert now[i] == others[i - 1];
      }
    }
  }
}
