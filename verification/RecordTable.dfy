/**
 * The record table of the migration library (lib/mig4nto/_table.c): an
 * array of records kept sorted on request, with a cursor that walks it.
 */
module RecordTable {

  /** The fields that operations change: records, scan cursor, last hit. */
  datatype View<R> = View(recs: seq<R>, next: nat, last: nat)

  /** Sorted by key, equal keys allowed. */
  predicate Ordered<R>(recs: seq<R>, key: R -> int) {
    forall i, j :: 0 <= i < j < |recs| ==> key(recs[i]) <= key(recs[j])
  }

  /** The number of leading records with a smaller key. */
  function Place<R>(recs: seq<R>, key: R -> int, k: int): (p: nat)
    ensures p <= |recs|
    ensures forall i :: 0 <= i < p ==> key(recs[i]) < k
    ensures p < |recs| ==> k <= key(recs[p])
  {
    if recs == [] || k <= key(recs[0]) then 0 else 1 + Place(recs[1..], key, k)
  }

  function Insert<R>(recs: seq<R>, p: nat, r: R): seq<R>
    requires p <= |recs|
  {
    recs[..p] + [r] + recs[p..]
  }

  function Drop<R>(recs: seq<R>, i: nat): seq<R>
    requires i < |recs|
  {
    recs[..i] + recs[i + 1..]
  }

  lemma InsertOrdered<R>(recs: seq<R>, key: R -> int, r: R)
    requires Ordered(recs, key)
    ensures Ordered(Insert(recs, Place(recs, key, key(r)), r), key)
  {
    var p := Place(recs, key, key(r));
    var all := Insert(recs, p, r);
    forall i, j | 0 <= i < j < |all|
      ensures key(all[i]) <= key(all[j])
    {
      assert all[i] == if i < p then recs[i] else if i == p then r else recs[i - 1];
      assert all[j] == if j < p then recs[j] else if j == p then r else recs[j - 1];
      if i == p {
        assert key(recs[p]) <= key(recs[j - 1]) || p == j - 1;
      }
    }
  }

  /** The cursor after deleting record `i`: the source steps back at `i` and beyond. */
  function CursorAfterDelete(next: nat, i: nat): nat {
    if next >= i && next > 0 then next - 1 else next
  }

  /** Where a new record goes. */
  function Spot<R>(v: View<R>, key: R -> int, sorted: bool, r: R): (p: nat)
    ensures p <= |v.recs|
  {
    if sorted then Place(v.recs, key, key(r)) else |v.recs|
  }

  function Added<R>(v: View<R>, key: R -> int, sorted: bool, r: R): View<R> {
    v.(recs := Insert(v.recs, Spot(v, key, sorted, r), r))
  }

  function Deleted<R>(v: View<R>, i: nat): View<R>
    requires i < |v.recs|
  {
    v.(recs := Drop(v.recs, i), next := CursorAfterDelete(v.next, i))
  }

  class Table<R(!new)> {
    const key: R -> int
    const sorted: bool
    var recs: seq<R>
    var next: nat
    var last: nat

    ghost predicate Valid()
      reads this
    {
      && (sorted ==> Ordered(recs, key))
      && next <= |recs|
    }

    ghost function Content(): View<R>
      reads this
    {
      View(recs, next, last)
    }

    constructor (key: R -> int, sorted: bool)
      ensures this.key == key && this.sorted == sorted
      ensures Valid() && Content() == View([], 0, 0)
    {
      this.key, this.sorted := key, sorted;
      recs, next, last := [], 0, 0;
    }

    /** The linear search `Lfind`: the first record with key `k`. */
    method LinearFind(k: int) returns (i: nat)
      ensures i <= |recs|
      ensures forall j :: 0 <= j < i ==> key(recs[j]) != k
      ensures i < |recs| ==> key(recs[i]) == k
    {
      i := 0;
      while i < |recs| && key(recs[i]) != k
        invariant i <= |recs|
        invariant forall j :: 0 <= j < i ==> key(recs[j]) != k
      {
        i := i + 1;
      }
    }

    /** The binary chop of the C library: some record with key `k`, or none at all. */
    method BinaryFind(k: int) returns (i: nat)
      requires Ordered(recs, key)
      ensures i <= |recs|
      ensures i < |recs| ==> key(recs[i]) == k
      ensures i == |recs| ==> forall j :: 0 <= j < |recs| ==> key(recs[j]) != k
    {
      var p, n: nat := 0, |recs|;
      while 0 < n
        invariant p + n <= |recs|
        invariant forall j :: 0 <= j < p ==> key(recs[j]) < k
        invariant forall j :: p + n <= j < |recs| ==> k < key(recs[j])
      {
        var q := p + n / 2;
        if k < key(recs[q]) {
          n := n / 2;
        } else if k == key(recs[q]) {
          return q;
        } else {
          p, n := q + 1, n - (n / 2 + 1);
        }
      }
      i := |recs|;
    }

    /** A record with key `k`, by the search the table's order allows. */
    method Find(k: int) returns (i: nat)
      requires Valid()
      ensures i <= |recs|
      ensures i < |recs| ==> key(recs[i]) == k
      ensures i == |recs| <==> forall j :: 0 <= j < |recs| ==> key(recs[j]) != k
      ensures !sorted ==> forall j :: 0 <= j < i ==> key(recs[j]) != k
    {
      if sorted {
        i := BinaryFind(k);
      } else {
        i := LinearFind(k);
      }
    }

    /** The scan `Bfind`: one past the last record smaller than `k`, before any equal one. */
    method FindSlot(k: int) returns (slot: nat)
      requires Ordered(recs, key)
      ensures slot == Place(recs, key, k)
    {
      slot := 0;
      var i := 0;
      while i < |recs| && key(recs[i]) != k
        invariant i <= |recs|
        invariant slot <= i
        invariant forall j :: 0 <= j < slot ==> key(recs[j]) < k
        invariant forall j :: slot <= j < i ==> k < key(recs[j])
      {
        if k > key(recs[i]) {
          slot := i + 1;
        }
        i := i + 1;
      }
      assert slot < |recs| ==> k <= key(recs[slot]);
    }

    /** `room` is false when the array cannot be enlarged. */
    method AddRecord(r: R, room: bool) returns (ok: bool)
      requires Valid()
      modifies this
      ensures Valid()
      ensures ok == room
      ensures Content() == if ok then Added(old(Content()), key, sorted, r) else old(Content())
    {
      if !room {
        return false;
      }
      if sorted {
        var slot := FindSlot(key(r));
        InsertOrdered(recs, key, r);
        recs := recs[..slot] + [r] + recs[slot..];
      } else {
        recs := recs + [r];
        assert recs == Insert(old(recs), |old(recs)|, r);
      }
      return true;
    }

    /** Deletion by record number; a number outside the table fails. */
    method DeleteAt(i: int) returns (ok: bool)
      requires Valid()
      modifies this
      ensures Valid()
      ensures ok == (0 <= i < |old(recs)|)
      ensures Content() == if ok then Deleted(old(Content()), i) else old(Content())
    {
      if i < 0 || i >= |recs| {
        return false;
      }
      if next >= i {
        next := if next == 0 then 0 else next - 1;
      }
      recs := recs[..i] + recs[i + 1..];
      return true;
    }

    /** Deletion of a record with key `k`. */
    method DeleteKey(k: int) returns (ok: bool, i: nat)
      requires Valid()
      modifies this
      ensures Valid()
      ensures ok <==> exists j :: 0 <= j < |old(recs)| && key(old(recs)[j]) == k
      ensures ok ==> i < |old(recs)| && key(old(recs)[i]) == k && Content() == Deleted(old(Content()), i)
      ensures !ok ==> Content() == old(Content())
    {
      i := Find(k);
      ok := DeleteAt(i);
    }

    /** Looks a key up and remembers where it was. */
    method GetRecord(k: int) returns (i: nat)
      requires Valid()
      modifies this`last
      ensures Valid()
      ensures i <= |recs|
      ensures i < |recs| ==> key(recs[i]) == k && last == i
      ensures i == |recs| ==> last == old(last)
      ensures i == |recs| <==> forall j :: 0 <= j < |recs| ==> key(recs[j]) != k
      ensures !sorted ==> forall j :: 0 <= j < i ==> key(recs[j]) != k
    {
      i := Find(k);
      if i < |recs| {
        last := i;
      }
    }

    /** S_RESET: the first record, which the next S_NEXT returns again. */
    method Reset() returns (found: bool)
      requires Valid()
      modifies this`next
      ensures Valid()
      ensures found == (|recs| > 0)
      ensures next == if found then 0 else old(next)
    {
      found := |recs| > 0;
      if found {
        next := 0;
      }
    }

    /** S_NEXT forwards: the record number to visit, or the table's length at the end. */
    method Forward() returns (i: nat)
      requires Valid()
      modifies this`next
      ensures Valid()
      ensures i == old(next)
      ensures next == if i < |recs| then i + 1 else i
    {
      i := next;
      if next < |recs| {
        next := next + 1;
      }
    }

    /** S_NEXT backwards: undoes a step forwards and returns the same record. */
    method Backward() returns (found: bool, i: nat)
      requires Valid()
      modifies this`next
      ensures Valid()
      ensures found == (old(next) > 0)
      ensures found ==> i < |recs| && i == next == old(next) - 1
      ensures !found ==> next == old(next)
    {
      i := 0;
      found := |recs| > 0 && next > 0;
      if found {
        next := next - 1;
        i := next;
      }
    }

    /** S_LAST: the number that the last search found, if the table is still that long. */
    method Recall() returns (found: bool, i: nat)
      requires Valid()
      ensures found == (last < |recs|)
      ensures found ==> i == last && Recalled(Content()) == Some(recs[i])
      ensures !found ==> Recalled(Content()) == None
    {
      found, i := |recs| > 0 && last < |recs|, last;
    }

    /** Whatever a client does is one operation on the view. A search remembers a record with the key it looks for. */
    method Perform(op: Op<R>)
      requires Valid() && Enabled(Content(), op)
      modifies this
      ensures Valid()
      ensures !op.Look? ==> Content() == Apply(old(Content()), key, sorted, op)
      ensures op.Look? ==>
        && last < |old(recs)| && key(old(recs)[last]) == key(old(recs)[op.i])
        && Content() == Apply(old(Content()), key, sorted, Look(last))
    {
      hide Ordered, Added, Deleted;
      match op {
        case Add(r) => var _ := AddRecord(r, true);
        case Delete(i) => var _ := DeleteAt(i);
        case Rewind => var _ := Reset();
        case Step => var _ := Forward();
        case StepBack => var _, _ := Backward();
        case Look(i) => var _ := GetRecord(key(recs[i]));
      }
    }

    /** A whole forward scan that deletes the visits `drop` picks as they are returned. */
    method Sweep(drop: nat -> bool) returns (visited: seq<R>)
      requires Valid()
      modifies this
      ensures Valid()
      ensures visited == old(recs)
      ensures recs == Kept(old(recs), drop)
    {
      visited := [];
      var found := Reset();
      if !found {
        return;
      }
      ghost var was := recs;
      var i: nat := Forward();
      assert Swept(was, visited, recs, i, drop);
      while i < |recs|
        invariant Valid()
        invariant Swept(was, visited, recs, i, drop)
        invariant next == if i < |recs| then i + 1 else i
        decreases |was| - |visited|
      {
        SweepNext(was, visited, recs, i, drop);
        hide Swept, Ordered;
        var gone := drop(|visited|);
        visited := visited + [recs[i]];
        if gone {
          var _ := DeleteAt(i);
        }
        i := Forward();
      }
      SweepDone(was, visited, recs, i, drop);
    }
  }

  /** Visits with the numbers `drop` does not pick. */
  function Kept<R>(visits: seq<R>, drop: nat -> bool): seq<R> {
    if visits == [] then []
    else
      var n := |visits| - 1;
      Kept(visits[..n], drop) + if drop(n) then [] else [visits[n]]
  }

  lemma KeptSnoc<R>(visits: seq<R>, r: R, drop: nat -> bool)
    ensures Kept(visits + [r], drop) == Kept(visits, drop) + if drop(|visits|) then [] else [r]
  {
    assert (visits + [r])[..|visits|] == visits;
  }

  /** A scan of `was` at record `i`: what was kept, then what is still to come. */
  ghost predicate Swept<R(!new)>(was: seq<R>, visited: seq<R>, recs: seq<R>, i: nat, drop: nat -> bool) {
    && visited <= was
    && recs == Kept(visited, drop) + was[|visited|..]
    && i == |Kept(visited, drop)|
  }

  lemma {:induction false} SweepNext<R(!new)>(was: seq<R>, visited: seq<R>, recs: seq<R>, i: nat, drop: nat -> bool)
    requires Swept(was, visited, recs, i, drop) && i < |recs|
    ensures |visited| < |was|
    ensures
      var all := visited + [recs[i]];
      if drop(|visited|) then Swept(was, all, Drop(recs, i), i, drop) else Swept(was, all, recs, i + 1, drop)
  {
    var n, kept := |visited|, Kept(visited, drop);
    assert recs[i] == was[n];
    KeptSnoc(visited, recs[i], drop);
    hide Kept;
    assert Drop(recs, i) == kept + was[n + 1..];
    assert recs == (kept + [was[n]]) + was[n + 1..];
  }

  lemma {:induction false} SweepDone<R(!new)>(was: seq<R>, visited: seq<R>, recs: seq<R>, i: nat, drop: nat -> bool)
    requires Swept(was, visited, recs, i, drop) && i >= |recs|
    ensures visited == was && recs == Kept(was, drop)
  {
    assert |was[|visited|..]| == 0;
    assert recs == Kept(visited, drop);
  }

  /** One operation of any client of the table. */
  datatype Op<R> = Add(r: R) | Delete(i: nat) | Rewind | Step | StepBack | Look(i: nat)

  predicate Enabled<R>(v: View<R>, op: Op<R>) {
    match op
    case Delete(i) => i < |v.recs|
    case Look(i) => i < |v.recs|
    case _ => true
  }

  function Apply<R>(v: View<R>, key: R -> int, sorted: bool, op: Op<R>): View<R>
    requires Enabled(v, op)
  {
    match op
    case Add(r) => Added(v, key, sorted, r)
    case Delete(i) => Deleted(v, i)
    case Rewind => if v.recs == [] then v else v.(next := 0)
    case Step => if v.next < |v.recs| then v.(next := v.next + 1) else v
    case StepBack => if v.next > 0 then v.(next := v.next - 1) else v
    case Look(i) => v.(last := i)
  }

  /** `ops` can be carried out one after another. */
  predicate Runs<R>(v: View<R>, key: R -> int, sorted: bool, ops: seq<Op<R>>)
    decreases |ops|
  {
    ops == [] || (Enabled(v, ops[0]) && Runs(Apply(v, key, sorted, ops[0]), key, sorted, ops[1..]))
  }

  function After<R>(v: View<R>, key: R -> int, sorted: bool, ops: seq<Op<R>>): View<R>
    requires Runs(v, key, sorted, ops)
    decreases |ops|
  {
    if ops == [] then v else After(Apply(v, key, sorted, ops[0]), key, sorted, ops[1..])
  }

  /** Every run keeps a sorted table ordered and the cursor within it. */
  lemma {:induction false} RunKeeps<R>(v: View<R>, key: R -> int, sorted: bool, ops: seq<Op<R>>)
    requires Runs(v, key, sorted, ops)
    requires v.next <= |v.recs|
    requires sorted ==> Ordered(v.recs, key)
    ensures
      var w := After(v, key, sorted, ops);
      w.next <= |w.recs| && (sorted ==> Ordered(w.recs, key))
    decreases |ops|
  {
    if ops != [] {
      if ops[0].Add? && sorted {
        InsertOrdered(v.recs, key, ops[0].r);
      }
      RunKeeps(Apply(v, key, sorted, ops[0]), key, sorted, ops[1..]);
    }
  }

  /** What a forward scan has still to return. */
  function Ahead<R>(v: View<R>): seq<R>
    requires v.next <= |v.recs|
  {
    v.recs[v.next..]
  }

  /** What it should still return once record `i` is gone. */
  function AheadWithout<R>(v: View<R>, i: nat): seq<R>
    requires v.next <= |v.recs| && i < |v.recs|
  {
    if i < v.next then Ahead(v) else Drop(Ahead(v), i - v.next)
  }

  /**
   * A deletion leaves the rest of a forward scan intact exactly when it does
   * not hit the record the cursor stands on, unless the scan is at its start.
   */
  lemma DeleteDuringScan<R>(v: View<R>, i: nat)
    requires v.next <= |v.recs| && i < |v.recs|
    ensures Ahead(Deleted(v, i)) == AheadWithout(v, i) <==> i != v.next || v.next == 0
  {
    var w := Deleted(v, i);
    if i < v.next || v.next == 0 || i > v.next {
      assert Ahead(w) == AheadWithout(v, i);
    } else {
      assert |Ahead(w)| == |AheadWithout(v, i)| + 1;
    }
  }

  /** Deleting the record about to be returned makes the scan return the previous one again. */
  lemma DeleteAtCursorRevisits<R>(v: View<R>, i: nat)
    requires 0 < v.next == i < |v.recs|
    ensures Ahead(Deleted(v, i)) == [v.recs[i - 1]] + AheadWithout(v, i)
  {
    assert Ahead(Deleted(v, i)) == [v.recs[i - 1]] + v.recs[i + 1..];
  }

  /** What the scan should still return once a record is put at `p`: that record too, if its place is ahead. */
  function AheadWith<R>(v: View<R>, p: nat, r: R): seq<R>
    requires v.next <= |v.recs| && p <= |v.recs|
  {
    if p < v.next then Ahead(v) else Insert(Ahead(v), p - v.next, r)
  }

  /**
   * An addition leaves the rest of a forward scan intact exactly when its place
   * is at the cursor or past it: additions do not move the cursor.
   */
  lemma AddDuringScan<R>(v: View<R>, key: R -> int, sorted: bool, r: R)
    requires v.next <= |v.recs|
    ensures Ahead(Added(v, key, sorted, r)) == AheadWith(v, Spot(v, key, sorted, r), r) <==> Spot(v, key, sorted, r) >= v.next
  {
    var p, w := Spot(v, key, sorted, r), Added(v, key, sorted, r);
    hide Spot;
    if p >= v.next {
      assert Ahead(w) == AheadWith(v, p, r);
    } else {
      assert |Ahead(w)| == |AheadWith(v, p, r)| + 1;
    }
  }

  /** Before the cursor, it makes the scan return the previous record again. */
  lemma AddBehindRevisits<R>(v: View<R>, key: R -> int, r: R)
    requires v.next <= |v.recs| && Place(v.recs, key, key(r)) < v.next
    ensures Ahead(Added(v, key, true, r)) == [v.recs[v.next - 1]] + Ahead(v)
  {
  }

  // ---------- The last hit ----------

  datatype Option<T> = None | Some(value: T)

  /** What S_LAST returns. */
  function Recalled<R>(v: View<R>): Option<R> {
    if v.last < |v.recs| then Some(v.recs[v.last]) else None
  }

  /** No record is in the table twice. */
  ghost predicate Single<R(!new)>(recs: seq<R>) {
    forall i, j :: 0 <= i < j < |recs| ==> recs[i] != recs[j]
  }

  /** The last hit is still the record that was found exactly as long as deletions come after it. */
  lemma RecallAfterDelete<R(!new)>(v: View<R>, i: nat)
    requires Single(v.recs) && v.last < |v.recs| && i < |v.recs|
    ensures Recalled(Deleted(v, i)) == Recalled(v) <==> v.last < i
  {
    var w := Deleted(v, i);
    if v.last >= i && v.last < |w.recs| {
      assert w.recs[v.last] == v.recs[v.last + 1];
    }
  }

  /** And so do additions. */
  lemma RecallAfterAdd<R(!new)>(v: View<R>, key: R -> int, sorted: bool, r: R)
    requires Single(v.recs) && r !in v.recs && v.last < |v.recs|
    ensures Recalled(Added(v, key, sorted, r)) == Recalled(v) <==> v.last < Spot(v, key, sorted, r)
  {
    var p, w := Spot(v, key, sorted, r), Added(v, key, sorted, r);
    hide Spot;
    assert w.recs[v.last] == if v.last < p then v.recs[v.last] else if v.last == p then r else v.recs[v.last - 1];
  }

  // ---------- Whole scans ----------

  /** What a run of forward steps and changes returns, what it deletes unseen and what it adds ahead. */
  datatype Tally<R> = Tally(seen: seq<R>, unseen: seq<R>, added: seq<R>)

  /** A step, a search, or a change that leaves the rest of the scan intact. */
  predicate ScanOp<R>(v: View<R>, key: R -> int, sorted: bool, op: Op<R>) {
    match op
    case Step => true
    case Look(_) => true
    case Delete(i) => i != v.next || v.next == 0
    case Add(r) => Spot(v, key, sorted, r) >= v.next
    case _ => false
  }

  predicate ScanRun<R>(v: View<R>, key: R -> int, sorted: bool, ops: seq<Op<R>>)
    decreases |ops|
  {
    ops == [] ||
    (Enabled(v, ops[0]) && ScanOp(v, key, sorted, ops[0]) && ScanRun(Apply(v, key, sorted, ops[0]), key, sorted, ops[1..]))
  }

  /** What was ahead or was added is returned, deleted unseen or still ahead. */
  ghost predicate Balanced<R>(ahead: seq<R>, t: Tally<R>, ahead': seq<R>) {
    multiset(ahead) + multiset(t.added) == multiset(t.seen) + multiset(t.unseen) + multiset(ahead')
  }

  function Both<R>(t: Tally<R>, u: Tally<R>): Tally<R> {
    Tally(t.seen + u.seen, t.unseen + u.unseen, t.added + u.added)
  }

  lemma BalancedBoth<R>(a: seq<R>, t: Tally<R>, b: seq<R>, u: Tally<R>, c: seq<R>)
    requires Balanced(a, t, b) && Balanced(b, u, c)
    ensures Balanced(a, Both(t, u), c)
  {
    var ma, mb, mc := multiset(a), multiset(b), multiset(c);
    var ts, tu, ta := multiset(t.seen), multiset(t.unseen), multiset(t.added);
    var us, uu, ua := multiset(u.seen), multiset(u.unseen), multiset(u.added);
    calc {
      ma + (ta + ua);
      (ma + ta) + ua;
      (ts + tu) + (mb + ua);
      (ts + us) + (tu + uu) + mc;
    }
  }

  lemma BalancedNone<R>(a: seq<R>)
    ensures Balanced(a, Tally([], [], []), a)
  {
  }

  /** One operation's share of the tally. */
  function Noted<R>(v: View<R>, op: Op<R>): Tally<R>
    requires Enabled(v, op)
  {
    if op.Step? && v.next < |v.recs| then Tally([v.recs[v.next]], [], [])
    else if op.Delete? && op.i >= v.next then Tally([], [v.recs[op.i]], [])
    else if op.Add? then Tally([], [], [op.r])
    else Tally([], [], [])
  }

  function Scan<R>(v: View<R>, key: R -> int, sorted: bool, ops: seq<Op<R>>): Tally<R>
    requires ScanRun(v, key, sorted, ops)
    decreases |ops|
  {
    if ops == [] then Tally([], [], [])
    else
      var now := Noted(v, ops[0]);
      var rest := Scan(Apply(v, key, sorted, ops[0]), key, sorted, ops[1..]);
      Both(now, rest)
  }

  lemma ScanRuns<R>(v: View<R>, key: R -> int, sorted: bool, ops: seq<Op<R>>)
    requires ScanRun(v, key, sorted, ops)
    ensures Runs(v, key, sorted, ops)
    decreases |ops|
  {
    if ops != [] {
      ScanRuns(Apply(v, key, sorted, ops[0]), key, sorted, ops[1..]);
    }
  }

  lemma DropCount<R>(s: seq<R>, i: nat)
    requires i < |s|
    ensures multiset(s) == multiset([s[i]]) + multiset(Drop(s, i))
  {
    assert s == s[..i] + [s[i]] + s[i + 1..];
  }

  lemma {:induction false} StepForward<R>(v: View<R>)
    requires v.next < |v.recs|
    ensures Balanced(Ahead(v), Tally([v.recs[v.next]], [], []), Ahead(v.(next := v.next + 1)))
  {
    assert Ahead(v) == [v.recs[v.next]] + Ahead(v.(next := v.next + 1));
  }

  lemma {:induction false} StepDelete<R>(v: View<R>, i: nat)
    requires v.next <= |v.recs| && i < |v.recs| && (i != v.next || v.next == 0)
    ensures Balanced(Ahead(v), Tally([], if i >= v.next then [v.recs[i]] else [], []), Ahead(Deleted(v, i)))
  {
    DeleteDuringScan(v, i);
    hide Deleted;
    if i >= v.next {
      var ahead, k := Ahead(v), i - v.next;
      assert ahead[k] == v.recs[i] && Ahead(Deleted(v, i)) == Drop(ahead, k);
      hide Ahead, AheadWithout, Drop;
      DropCount(ahead, k);
    }
  }

  lemma {:induction false} StepAdd<R>(v: View<R>, key: R -> int, sorted: bool, r: R)
    requires v.next <= |v.recs| && Spot(v, key, sorted, r) >= v.next
    ensures Balanced(Ahead(v), Tally([], [], [r]), Ahead(Added(v, key, sorted, r)))
  {
    AddDuringScan(v, key, sorted, r);
    var ahead, k := Ahead(v), Spot(v, key, sorted, r) - v.next;
    hide Added, Spot;
    assert Ahead(Added(v, key, sorted, r)) == Insert(ahead, k, r);
    hide Ahead, AheadWith, Balanced, Insert;
    InsertCount(ahead, k, r);
  }

  lemma InsertCount<R>(s: seq<R>, k: nat, r: R)
    requires k <= |s|
    ensures Balanced(s, Tally([], [], [r]), Insert(s, k, r))
  {
    assert s == s[..k] + s[k..];
  }

  lemma SameAhead<R>(v: View<R>, i: nat)
    requires v.next <= |v.recs|
    ensures Ahead(v.(last := i)) == Ahead(v)
  {
  }

  lemma {:induction false} ScanStep<R>(v: View<R>, key: R -> int, sorted: bool, op: Op<R>)
    requires Enabled(v, op) && ScanOp(v, key, sorted, op) && v.next <= |v.recs|
    ensures
      var w := Apply(v, key, sorted, op);
      var t := Noted(v, op);
      && w.next <= |w.recs|
      && Balanced(Ahead(v), t, Ahead(w))
  {
    hide Ahead, Balanced, Spot;
    match op {
      case Delete(i) => StepDelete(v, i);
      case Add(r) => StepAdd(v, key, sorted, r);
      case Step =>
        if v.next < |v.recs| {
          StepForward(v);
        } else {
          BalancedNone(Ahead(v));
        }
      case Look(i) =>
        SameAhead(v, i);
        BalancedNone(Ahead(v));
    }
  }

  /**
   * Along every such run each record that was ahead of the cursor or was added is
   * returned once, deleted before its turn, or still ahead: none twice, none lost.
   */
  lemma {:induction false} ScanExactlyOnce<R>(v: View<R>, key: R -> int, sorted: bool, ops: seq<Op<R>>)
    requires ScanRun(v, key, sorted, ops)
    requires v.next <= |v.recs|
    ensures Runs(v, key, sorted, ops)
    ensures
      var w := After(v, key, sorted, ops);
      var t := Scan(v, key, sorted, ops);
      && w.next <= |w.recs|
      && Balanced(Ahead(v), t, Ahead(w))
    decreases |ops|
  {
    ScanRuns(v, key, sorted, ops);
    if ops != [] {
      ScanStep(v, key, sorted, ops[0]);
      hide Apply, Noted, Ahead, Enabled, ScanOp, Balanced, Both;
      var w := Apply(v, key, sorted, ops[0]);
      ScanExactlyOnce(w, key, sorted, ops[1..]);
      BalancedBoth(Ahead(v), Noted(v, ops[0]), Ahead(w), Scan(w, key, sorted, ops[1..]), Ahead(After(w, key, sorted, ops[1..])));
    } else {
      BalancedNone(Ahead(v));
    }
  }
}
