/** The free list of receive buffers of an asynchronous channel: `asyncmsg_get`, with one receiver
    at a time and the kernel's receive call as a parameter. */
module ReceiveBuffers {

  import opened LinkedLists

  class Channel {
    var free: Addr
    var numFree: nat
    const maxNumBuffer: nat
    var iovs: seq<Addr>
    var next: Links
    ghost var chain: seq<Addr>
    ghost var inUse: set<Addr>
    ghost var handed: set<Addr>

    /** `num_free` is the length of the chain of free buffers, which ends in NULL. */
    ghost predicate Listed()
      reads this`free, this`numFree, this`next, this`chain
    {
      && Segment(next, free, chain, 0)
      && Distinct(chain)
      && numFree == |chain|
    }

    /** Every buffer allocated so far and not freed is on that chain, once, or with a caller, not both. */
    ghost predicate Valid()
      reads this
    {
      && Listed()
      && (forall a :: a in inUse <==> a in chain || a in handed)
      && (forall a :: a in chain ==> a !in handed)
    }

    /** `asyncmsg_channel_create`. */
    constructor (maxNumBuffer: nat)
      ensures Valid() && chain == [] && inUse == handed == {} && this.maxNumBuffer == maxNumBuffer
    {
      this.maxNumBuffer := maxNumBuffer;
      free, numFree, iovs, next, chain := 0, 0, [], map[], [];
      inUse, handed := {}, {};
    }

    /** Links one newly allocated buffer in front. */
    method Push(agh: Addr)
      requires Listed() && agh != 0 && agh !in chain
      modifies this`free, this`numFree, this`next, this`chain
      ensures Listed() && chain == [agh] + old(chain) && next == old(next)[agh := old(free)]
    {
      SegmentFrame(next, free, chain, 0, agh, free);
      next := next[agh := free];
      free, numFree, chain := agh, numFree + 1, [agh] + chain;
      assert chain[1..] == old(chain);
    }

    /** Allocates up to the maximum; `pool` holds what the allocator will return, in order. */
    method Refill(pool: seq<Addr>) returns (k: nat)
      requires Listed()
      requires Distinct(pool) && forall a :: a in pool ==> a != 0 && a !in chain
      modifies this`free, this`numFree, this`next, this`chain
      ensures Listed() && k <= |pool| && chain == Reversed(pool[..k]) + old(chain)
      ensures k == Lacking(maxNumBuffer, old(numFree), |pool|)
    {
      hide Segment, Reversed, Distinct;
      k := 0;
      assert pool[..0] == [] && Reversed(pool[..0]) == [] by { ReversedNone(pool); }
      while numFree < maxNumBuffer && k < |pool|
        invariant k <= |pool| && Listed() && numFree == old(numFree) + k
        invariant chain == Reversed(pool[..k]) + old(chain)
        invariant k > 0 ==> numFree <= maxNumBuffer
        decreases |pool| - k
      {
        assert pool[k] in pool;
        NextPooled(pool, k, old(chain));
        Push(pool[k]);
        k := k + 1;
      }
    }

    /** Cuts the first `n` buffers off the free list and lists them for the kernel. */
    method Split() returns (n: nat)
      requires Listed()
      modifies this`free, this`numFree, this`iovs, this`next, this`chain
      ensures Listed()
      ensures n == |iovs| == if maxNumBuffer < |old(chain)| then maxNumBuffer else |old(chain)|
      ensures iovs == old(chain)[..n] && chain == old(chain)[n..]
      ensures n > 0 ==> Segment(next, iovs[0], iovs, 0)
    {
      n := 0;
      iovs := [];
      var agh := free;
      while n < maxNumBuffer && agh != 0
        invariant n <= |chain| && n <= maxNumBuffer
        invariant Listed() && chain == old(chain) && next == old(next)
        invariant iovs == chain[..n]
        invariant Segment(next, agh, chain[n..], 0)
        decreases maxNumBuffer - n
      {
        assert chain[n..][1..] == chain[n + 1..];
        iovs := iovs + [agh];
        n := n + 1;
        agh := next[agh];
      }
      ghost var all := chain;
      assert n < |all| ==> agh == all[n];
      DistinctParts(all, n);
      if n == 0 { return; }
      if agh != 0 {
        free := agh;
        SegmentCut(next, all[0], all, 0, n);
        SegmentRelink(next, iovs[0], iovs, agh, 0);
        SegmentFrame(next, agh, all[n..], 0, iovs[n - 1], 0);
        next := next[iovs[n - 1] := 0];
      } else {
        free := 0;
        assert all[..n] == all;
      }
      numFree := numFree - n;
      chain := all[n..];
    }

    /** Puts the listed buffers from position `from` on back in front of the free list. */
    method Splice(from: nat)
      requires Listed() && from < |iovs| && Segment(next, iovs[0], iovs, 0)
      requires Distinct(iovs) && (forall b :: b in iovs ==> b !in chain) && Distinct(iovs[from..] + chain)
      modifies this`free, this`numFree, this`next, this`chain
      ensures Listed() && chain == iovs[from..] + old(chain)
      ensures from > 0 ==> Segment(next, iovs[0], iovs[..from], 0)
    {
      var n := |iovs|;
      var last := iovs[n - 1];
      SegmentRelink(next, iovs[0], iovs, 0, free);
      SegmentFrame(next, free, chain, 0, last, free);
      next := next[last := free];
      SegmentCut(next, iovs[0], iovs, free, from);
      SegmentConcat(next, iovs[from], iovs[from..], free, chain, 0);
      free := iovs[from];
      if from > 0 {
        DistinctParts(iovs, from);
        ghost var tail := iovs[from - 1];
        assert tail == iovs[..from][from - 1] && tail in iovs[..from];
        SegmentRelink(next, iovs[0], iovs[..from], iovs[from], 0);
        SegmentFrame(next, free, iovs[from..] + chain, 0, tail, 0);
        next := next[iovs[from - 1] := 0];
      }
      numFree := numFree + (n - from);
      chain := iovs[from..] + chain;
    }

    /** `asyncmsg_get`. `pool` is what the allocator can provide, none of it in use, and the kernel
        fills `used` of the buffers offered, or fails with a value of zero or less. Every buffer that
        was free or newly allocated is afterwards on the free list or in the returned chain, in order;
        the returned chain has exactly `used` buffers and ends in NULL. */
    method Get(pool: seq<Addr>, used: int) returns (agh: Addr, ghost got: seq<Addr>, ghost made: seq<Addr>)
      requires Valid()
      requires Distinct(pool) && forall a :: a in pool ==> a != 0 && a !in inUse
      modifies this
      ensures Valid() && made <= pool && |made| == Lacking(maxNumBuffer, |old(chain)|, |pool|)
      ensures inUse == old(inUse) + (set a | a in made) && handed == old(handed) + (set a | a in got)
      ensures got + chain == Reversed(made) + old(chain)
      ensures Segment(next, agh, got, 0)
      ensures var offered := if maxNumBuffer < |made| + |old(chain)| then maxNumBuffer else |made| + |old(chain)|;
              && (used <= 0 ==> got == [])
              && (used > 0 ==> |got| == if used < offered then used else offered)
    {
      agh, got, made := Exchange(pool, used);
      Accounted(old(chain), made, got, chain, old(inUse), old(handed));
      inUse := inUse + (set a | a in made);
      handed := handed + (set a | a in got);
    }

    /** Refill, split, receive and splice. */
    method Exchange(pool: seq<Addr>, used: int) returns (agh: Addr, ghost got: seq<Addr>, ghost made: seq<Addr>)
      requires Listed()
      requires Distinct(pool) && forall a :: a in pool ==> a != 0 && a !in chain
      modifies this`free, this`numFree, this`iovs, this`next, this`chain
      ensures Listed() && made <= pool && |made| == Lacking(maxNumBuffer, |old(chain)|, |pool|)
      ensures got + chain == Reversed(made) + old(chain) && Distinct(got + chain)
      ensures Segment(next, agh, got, 0)
      ensures var offered := if maxNumBuffer < |made| + |old(chain)| then maxNumBuffer else |made| + |old(chain)|;
              && (used <= 0 ==> got == [])
              && (used > 0 ==> |got| == if used < offered then used else offered)
    {
      hide Segment, Distinct, Reversed;
      var k := Refill(pool);
      made := pool[..k];
      agh, got := Receive(used);
    }

    /** Offers the first free buffers to the kernel and takes back what it did not use. */
    method Receive(used: int) returns (agh: Addr, ghost got: seq<Addr>)
      requires Listed()
      modifies this`free, this`numFree, this`iovs, this`next, this`chain
      ensures Listed() && got + chain == old(chain) && Distinct(old(chain))
      ensures Segment(next, agh, got, 0)
      ensures var offered := if maxNumBuffer < |old(chain)| then maxNumBuffer else |old(chain)|;
              && (used <= 0 ==> got == [])
              && (used > 0 ==> |got| == if used < offered then used else offered)
    {
      hide Distinct;
      ghost var all := chain;
      var n := Split();
      if n == 0 {
        return 0, [];
      }
      DistinctParts(all, n);
      assert iovs + chain == all;
      if used <= 0 {
        assert iovs[0..] == iovs;
        Splice(0);
        return 0, [];
      }
      got := iovs;
      if used < n {
        assert iovs[used..] + chain == all[used..];
        DistinctParts(all, used);
        Splice(used);
        got := iovs[..used];
        assert got + chain == all;
      }
      agh := iovs[0];
    }

    /** `asyncmsg_free`: a caller gives a buffer back to the allocator. */
    method Free(agh: Addr)
      requires Valid() && agh in handed
      modifies this`inUse, this`handed
      ensures Valid() && inUse == old(inUse) - {agh} && handed == old(handed) - {agh}
    {
      inUse := inUse - {agh};
      handed := handed - {agh};
    }
  }

  /** How many buffers are allocated: what is missing to the maximum, as far as there is memory. */
  function Lacking(max: nat, free: nat, room: nat): (k: nat)
    ensures if free >= max then k == 0 else k <= room && free + k <= max && (k == room || free + k == max)
  {
    if free >= max then 0 else if room < max - free then room else max - free
  }

  /** What was free or has been made is free or has been got, and nothing is both. */
  lemma Accounted(was: seq<Addr>, made: seq<Addr>, got: seq<Addr>, now: seq<Addr>, inUse: set<Addr>, handed: set<Addr>)
    requires got + now == Reversed(made) + was && Distinct(got + now)
    requires (forall a :: a in inUse <==> a in was || a in handed) && (forall a :: a in was ==> a !in handed)
    requires forall a :: a in made ==> a !in inUse
    ensures
      var inUse', handed' := inUse + (set a | a in made), handed + (set a | a in got);
      && (forall a :: a in inUse' <==> a in now || a in handed')
      && (forall a :: a in now ==> a !in handed')
  {
    forall a
      ensures a in got || a in now <==> a in made || a in was
    {
      assert a in got + now <==> a in Reversed(made) + was;
    }
    forall a | a in now
      ensures a !in got
    {
      DistinctAcross(got, now, a);
    }
  }

  lemma DistinctAcross(got: seq<Addr>, now: seq<Addr>, a: Addr)
    requires Distinct(got + now) && a in now
    ensures a !in got
  {
    var all := got + now;
    var j :| 0 <= j < |now| && now[j] == a;
    assert all[|got| + j] == a;
    forall i | 0 <= i < |got|
      ensures got[i] != a
    {
      assert all[i] == got[i];
    }
  }

  /** Pushed one after the other, buffers end up in reverse. */
  function Reversed(s: seq<Addr>): (r: seq<Addr>)
    ensures |r| == |s| && forall x :: x in r <==> x in s
  {
    if s == [] then [] else [s[|s| - 1]] + Reversed(s[..|s| - 1])
  }

  lemma ReversedNone(pool: seq<Addr>)
    ensures Reversed(pool[..0]) == []
  {
  }

  /** The next buffer of the pool is new to the chain, and goes in front of those before it. */
  lemma NextPooled(pool: seq<Addr>, k: nat, chain: seq<Addr>)
    requires Distinct(pool) && k < |pool| && pool[k] !in chain
    ensures pool[k] !in Reversed(pool[..k]) + chain
    ensures [pool[k]] + (Reversed(pool[..k]) + chain) == Reversed(pool[..k + 1]) + chain
  {
    assert pool[..k + 1][..k] == pool[..k];
  }
}
