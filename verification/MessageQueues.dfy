/** The list of open message queues (`mq.c`): `mqmatch`, `mqlookup`, `mqmodify`, `mqinsert` and
    `mqdelete`, a linked list in most-recently-used order with cyclic identifiers. */
module MessageQueues {
  import opened LinkedLists

  const MQ_MAGIC: nat := 0x716D0000
  const IDS: nat := 0x1_0000

  /** `struct mqd` without its link: the descriptor, and everything else about the queue. */
  datatype Mqd = Mqd(id: nat, data: int)

  /** `(id & 0xFFFF0000) == MQ_MAGIC`. */
  predicate Magic(id: nat) {
    MQ_MAGIC <= id < MQ_MAGIC + IDS
  }

  ghost predicate DistinctIds(mqd: map<Addr, Mqd>, chain: seq<Addr>)
    requires forall a :: a in chain ==> a in mqd
  {
    forall a, b :: a in chain && b in chain && a != b ==> mqd[a].id != mqd[b].id
  }

  /** The identifiers in use. */
  ghost function Ids(mqd: map<Addr, Mqd>, chain: seq<Addr>): set<nat>
    requires forall a :: a in chain ==> a in mqd
  {
    set a | a in chain :: mqd[a].id
  }

  class Control {
    var queues: Addr
    var sequence: nat
    var link: Links
    var mqd: map<Addr, Mqd>
    var locked: bool // `mqmodify` keeps the mutex until it is called again
    ghost var chain: seq<Addr>

    /** Live descriptors are distinct and carry the magic. */
    ghost predicate Valid()
      reads this
    {
      && sequence < IDS
      && Segment(link, queues, chain, 0)
      && Distinct(chain)
      && (forall a :: a in chain ==> a in mqd && Magic(mqd[a].id))
      && DistinctIds(mqd, chain)
    }

    ghost predicate Live(id: nat)
      reads this
      requires Valid()
    {
      id in Ids(mqd, chain)
    }

    /** The last number given and the numbers in use. */
    ghost function Book(): Ledger
      requires Valid()
      reads this
    {
      Ledger(sequence, InUse(Ids(mqd, chain)))
    }

    constructor ()
      ensures Valid() && chain == [] && !locked && Book() == Ledger(0, {})
    {
      queues, sequence, link, mqd, chain := 0, 0, map[], map[], [];
      locked := false;
      new;
      assert Ids(mqd, chain) == {};
    }

    /** `mqmatch`: the node with the identifier, and the node whose link leads to it (0 for the head
        of the list). */
    method Match(id: nat) returns (mq: Addr, prev: Addr, ghost k: nat)
      requires Valid()
      ensures mq == 0 <==> !Live(id)
      ensures mq != 0 ==> k < |chain| && mq == chain[k] && mqd[mq].id == id
      ensures mq != 0 ==> prev == if k == 0 then 0 else chain[k - 1]
    {
      k := 0;
      mq, prev := queues, 0;
      assert chain[0..] == chain;
      while mq != 0 && mqd[mq].id != id
        invariant k <= |chain|
        invariant Segment(link, mq, chain[k..], 0)
        invariant mq != 0 ==> k < |chain| && mq == chain[k]
        invariant prev == if k == 0 then 0 else chain[k - 1]
        invariant forall j :: 0 <= j < k ==> mqd[chain[j]].id != id
        decreases |chain| - k
      {
        assert chain[k..][1..] == chain[k + 1..];
        prev := mq;
        mq := link[mq];
        k := k + 1;
        assert mq != 0 ==> chain[k..] != [] && mq == chain[k..][0];
      }
      if mq == 0 {
        assert chain[k..] == [];
      }
    }

    /** `mqlookup`: a copy of the queue, which moves to the front; the others keep their order. */
    method Lookup(id: nat) returns (found: bool, copy: Mqd)
      requires Valid() && !locked
      modifies this`queues, this`link, this`chain
      ensures Valid()
      ensures found <==> old(Live(id))
      ensures found ==> copy.id == id
      ensures found ==> exists k :: 0 <= k < |old(chain)| && Fronted(old(chain), k, chain) && mqd[old(chain)[k]] == copy
      ensures !found ==> chain == old(chain)
      ensures Book() == old(Book())
    {
      if !Magic(id) { return false, Mqd(0, 0); }
      var mp, prev;
      ghost var k;
      mp, prev, k := Match(id);
      if mp == 0 { return false, Mqd(0, 0); }
      ToFront(mp, prev, k);
      return true, mqd[mp];
    }

    /** Relinks the queue at position `k` in front of the others. */
    method ToFront(mp: Addr, prev: Addr, ghost k: nat)
      requires Valid() && k < |chain| && mp == chain[k] && prev == if k == 0 then 0 else chain[k - 1]
      modifies this`queues, this`link, this`chain
      ensures Valid() && Fronted(old(chain), k, chain) && Book() == old(Book())
    {
      hide InUse, Ids;
      ghost var was := chain;
      SegmentNonNull(link, queues, chain, 0);
      MoveToFront(was, k);
      FrontedIds(mqd, was, k);
      if prev != 0 {
        SegmentUnlink(link, queues, chain, k);
        DistinctMember(chain, k);
        var next := link[prev := link[mp]];
        SegmentFrame(next, queues, was[..k] + was[k + 1..], 0, mp, queues);
        link := next[mp := queues];
        queues := mp;
        chain := [mp] + (was[..k] + was[k + 1..]);
        assert chain[1..] == was[..k] + was[k + 1..];
      } else {
        assert was == [mp] + (was[..k] + was[k + 1..]);
      }
    }

    /** `mqmodify`: the queue in place, for `mq_setattr`. A first call that finds it keeps the mutex, a
        second one gives it back. */
    method Modify(id: nat, modified: bool) returns (mp: Addr)
      requires Valid() && locked == modified
      modifies this`locked
      ensures Valid() && locked == (mp != 0)
      ensures mp != 0 <==> !modified && Live(id)
      ensures mp != 0 ==> mp in chain && mqd[mp].id == id
    {
      if modified {
        locked := false;
        return 0;
      }
      if !Magic(id) { return 0; }
      locked := true;
      var prev;
      ghost var k;
      mp, prev, k := Match(id);
      if mp == 0 {
        locked := false;
      }
    }

    /** `mqinsert`: gives the created queue the next identifier in cyclic order that is not live. It
        fails exactly when all identifiers are live. */
    method Insert(created: Addr) returns (ok: bool)
      requires Valid() && !locked
      requires created != 0 && created !in chain && created in mqd
      modifies this
      ensures Valid() && !locked
      ensures ok <==> exists s :: 0 <= s < IDS && Numbered(s) !in old(Ids(mqd, chain))
      ensures ok ==> chain == [created] + old(chain)
      ensures ok ==> Ids(mqd, chain) == old(Ids(mqd, chain)) + {mqd[created].id}
      ensures ok ==> mqd[created].id !in old(Ids(mqd, chain)) && mqd[created].data == old(mqd[created].data)
      ensures forall a :: a in old(chain) ==> a in mqd && mqd[a] == old(mqd)[a]
      ensures !ok ==> chain == old(chain)
      ensures ok ==> mqd[created].id == 0x716D0000 + sequence && exists t :: Gives(old(Book()), t, Book())
      ensures !ok ==> Refuses(old(Book()), Book())
    {
      hide Segment, Gives, Refuses, Passed;
      ghost var before := Book();
      ok := Number(created);
      ghost var ids := Ids(mqd, chain);
      if !ok {
        RefusesAll(before, sequence, ids);
      }
      if ok {
        ghost var now := Ledger(sequence, InUse(ids + {Numbered(sequence)}));
        ghost var t := GivesNext(before, now, ids);
        SegmentFrame(link, queues, chain, 0, created, queues);
        SegmentPush(link, queues, chain, created);
        link := link[created := queues];
        queues := created;
        chain := [created] + chain;
        assert forall a :: a in chain <==> a == created || a in old(chain);
        assert Ids(mqd, chain) == ids + {Numbered(sequence)};
        assert Gives(before, t, Book());
      }
    }

    /** The search for a free identifier: starts behind the last one given and goes round once. */
    method Number(created: Addr) returns (ok: bool)
      requires Valid()
      requires created !in chain && created in mqd
      modifies this`sequence, this`mqd
      ensures Valid() && Ids(mqd, chain) == old(Ids(mqd, chain))
      ensures Renamed(old(mqd), mqd, created)
      ensures ok <==> exists s :: 0 <= s < IDS && Numbered(s) !in Ids(mqd, chain)
      ensures ok ==> mqd[created].id == Numbered(sequence) && mqd[created].id !in Ids(mqd, chain)
      ensures ok ==> exists t :: Passed(old(sequence), t, sequence, Ids(mqd, chain))
      ensures !ok ==> sequence == After(old(sequence), 0)
    {
      ghost var ids, was := Ids(mqd, chain), mqd;
      hide Ids, Control.Valid, Tried, Renamed, Ahead, Passed, After;
      StartsAfter(sequence);
      Advance();
      var wrap := sequence;
      ghost var tried := 0;
      TriedNone(wrap, ids);
      RenamedNot(was, created);
      while true
        invariant Valid() && InMqd() && Ids(mqd, chain) == ids
        invariant created in mqd && Renamed(was, mqd, created)
        invariant wrap < IDS && tried < IDS && sequence == Ahead(wrap, tried)
        invariant Tried(wrap, tried, ids)
        decreases IDS - tried
      {
        ghost var before := mqd;
        ok := Try(created);
        RenamedAgain(was, before, mqd, created);
        if ok {
          TriedPassed(old(sequence), tried, ids);
          return;
        }
        TriedOne(wrap, tried, ids);
        AheadNext(wrap, tried);
        Advance();
        tried := tried + 1;
        if sequence == wrap { break; }
      }
      AheadAll(wrap, ids);
    }

    /** `++_mqctrl.sequence`. */
    method Advance()
      requires Valid()
      modifies this`sequence
      ensures Valid() && InMqd() && sequence < IDS && old(sequence) < IDS && sequence == Next(old(sequence))
    {
      sequence := Next(sequence);
    }

    ghost predicate InMqd()
      reads this
    {
      forall a :: a in chain ==> a in mqd
    }

    /** Gives the created queue the current number and looks whether another one has it. */
    method Try(created: Addr) returns (free: bool)
      requires Valid()
      requires created !in chain && created in mqd
      modifies this`mqd
      ensures Valid() && InMqd() && Ids(mqd, chain) == old(Ids(mqd, chain))
      ensures Renamed(old(mqd), mqd, created) && mqd[created].id == Numbered(sequence)
      ensures free <==> Numbered(sequence) !in Ids(mqd, chain)
    {
      hide Segment;
      var d := mqd[created].(id := Numbered(sequence));
      SetOther(mqd, chain, created, d);
      mqd := mqd[created := d];
      var mq, prev;
      ghost var k;
      mq, prev, k := Match(Numbered(sequence));
      free := mq == 0;
    }

    /** `mqdelete`: unlinks the queue; its identifier is free again. */
    method Delete(id: nat) returns (mp: Addr)
      requires Valid() && !locked
      modifies this`queues, this`link, this`chain
      ensures Valid() && !Live(id)
      ensures mp != 0 <==> old(Live(id))
      ensures mp != 0 ==> mp in mqd && mqd[mp].id == id
      ensures mp != 0 ==> exists k :: 0 <= k < |old(chain)| && old(chain)[k] == mp && Removed(old(chain), k, chain)
      ensures mp == 0 ==> chain == old(chain)
      ensures Book() == if mp == 0 then old(Book()) else Ledger(old(sequence), old(Book()).used - {id - MQ_MAGIC})
    {
      var prev;
      ghost var k;
      mp, prev, k := Match(id);
      if mp == 0 { return; }
      ghost var was := chain;
      IdsWithout(mqd, was, k);
      SegmentNonNull(link, queues, was, 0);
      DistinctMember(was, k);
      if prev != 0 {
        SegmentUnlink(link, queues, was, k);
        link := link[prev := link[mp]];
      } else {
        assert was[1..] == was[..k] + was[k + 1..];
        queues := link[mp];
      }
      DropOne(mqd, was, k);
      hide Segment, Distinct, DistinctIds, Ids;
      chain := was[..k] + was[k + 1..];
    }
  }

  /** The last number given, and the numbers in use. */
  datatype Ledger = Ledger(last: nat, used: set<nat>)

  ghost function InUse(ids: set<nat>): set<nat> {
    set n: nat | n < IDS && Numbered(n) in ids
  }

  /** The number `u` places behind the one after `last`, round and round. */
  function After(last: nat, u: nat): (n: nat)
    ensures n < IDS && (last + 1 + u - n) % 65536 == 0
  {
    (last + 1 + u) % IDS
  }

  /** The numbers behind `last` are in use as far as `n`. */
  ghost predicate Passed(last: nat, t: nat, n: nat, ids: set<nat>) {
    t < IDS && n == After(last, t) && forall u :: 0 <= u < t ==> MQ_MAGIC + After(last, u) in ids
  }

  /** The first free number behind the last one given is given. */
  ghost predicate Gives(b: Ledger, t: nat, b': Ledger) {
    && t < IDS
    && (forall u :: 0 <= u < t ==> After(b.last, u) in b.used)
    && After(b.last, t) !in b.used
    && b' == Ledger(After(b.last, t), b.used + {After(b.last, t)})
  }

  /** All numbers are in use; the count still moves on by one. */
  ghost predicate Refuses(b: Ledger, b': Ledger) {
    (forall n :: 0 <= n < IDS ==> n in b.used) && b' == Ledger(After(b.last, 0), b.used)
  }

  lemma StartsAfter(s: nat)
    requires s < IDS
    ensures After(s, 0) == Next(s)
  {
  }

  lemma TriedPassed(last: nat, t: nat, ids: set<nat>)
    requires last < IDS && t < IDS && Tried(Next(last), t, ids)
    ensures Passed(last, t, Ahead(Next(last), t), ids)
  {
    forall u | 0 <= u <= t ensures After(last, u) == Ahead(Next(last), u) {
      RoundAfter(last, u);
    }
    forall u | 0 <= u < t ensures MQ_MAGIC + After(last, u) in ids {
      assert Numbered(Ahead(Next(last), u)) in ids;
    }
  }

  lemma RoundAfter(last: nat, u: nat)
    requires last < IDS && u < IDS
    ensures After(last, u) == Ahead(Next(last), u)
  {
  }

  lemma GivesNext(b: Ledger, b': Ledger, ids: set<nat>) returns (t: nat)
    requires b.used == InUse(ids) && b'.last < IDS && Numbered(b'.last) !in ids
    requires exists t :: Passed(b.last, t, b'.last, ids)
    requires b'.used == InUse(ids + {Numbered(b'.last)})
    ensures Gives(b, t, b')
  {
    t :| Passed(b.last, t, b'.last, ids);
    assert b'.used == InUse(ids) + {b'.last};
    forall u | 0 <= u < t ensures After(b.last, u) in b.used {
      assert Numbered(After(b.last, u)) in ids;
    }
  }

  lemma RefusesAll(b: Ledger, n: nat, ids: set<nat>)
    requires b.used == InUse(ids) && n == After(b.last, 0) && !exists s :: 0 <= s < IDS && Numbered(s) !in ids
    ensures Refuses(b, Ledger(n, InUse(ids)))
  {
    forall s | 0 <= s < IDS ensures s in b.used {
      assert Numbered(s) in ids;
    }
  }

  /** Taking one queue out of the list takes its number out of use. */
  lemma IdsWithout(mqd: map<Addr, Mqd>, was: seq<Addr>, k: nat)
    requires k < |was| && Distinct(was) && (forall a :: a in was ==> a in mqd && Magic(mqd[a].id)) && DistinctIds(mqd, was)
    ensures
      var now := was[..k] + was[k + 1..];
      && (forall a :: a in now ==> a in mqd)
      && InUse(Ids(mqd, now)) == InUse(Ids(mqd, was)) - {mqd[was[k]].id - MQ_MAGIC}
  {
    DistinctMember(was, k);
    var now := was[..k] + was[k + 1..];
    assert forall a :: a in now <==> a in was && a != was[k] by {
      assert was == was[..k] + [was[k]] + was[k + 1..];
    }
    assert Ids(mqd, now) == Ids(mqd, was) - {mqd[was[k]].id};
  }

  lemma FrontedIds(mqd: map<Addr, Mqd>, was: seq<Addr>, k: nat)
    requires k < |was| && forall a :: a in was ==> a in mqd
    ensures
      var now := [was[k]] + (was[..k] + was[k + 1..]);
      (forall a :: a in now <==> a in was) && Ids(mqd, now) == Ids(mqd, was)
  {
    SameMembers(was, k);
  }

  // ----- Runs of creations and deletions -----

  /** A number given behind `t` that are in use, a refusal, or a deletion. */
  datatype Event = Create(t: nat) | Refuse | Remove(n: nat)

  ghost predicate Happens(b: Ledger, e: Event, b': Ledger) {
    match e
    case Create(t) => Gives(b, t, b')
    case Refuse => Refuses(b, b')
    case Remove(n) => n in b.used && b' == Ledger(b.last, b.used - {n})
  }

  ghost predicate Reaches(b: Ledger, es: seq<Event>, bs: seq<Ledger>)
    requires |bs| == |es|
    decreases |es|
  {
    es == [] || (Happens(b, es[0], bs[0]) && Reaches(bs[0], es[1..], bs[1..]))
  }

  /** How many numbers an event tries. */
  function Tries(e: Event): nat {
    match e
    case Create(t) => t + 1
    case Refuse => IDS + 1
    case Remove(_) => 0
  }

  function AllTries(es: seq<Event>): nat {
    if es == [] then 0 else Tries(es[0]) + AllTries(es[1..])
  }

  /** A number was tried: found in use, or given. */
  ghost predicate TriedIn(b: Ledger, e: Event, y: nat) {
    e.Refuse? || (e.Create? && exists u :: 0 <= u <= e.t && y == After(b.last, u))
  }

  ghost predicate EverTried(b: Ledger, es: seq<Event>, bs: seq<Ledger>, y: nat)
    requires |bs| == |es|
    decreases |es|
  {
    es != [] && (TriedIn(b, es[0], y) || EverTried(bs[0], es[1..], bs[1..], y))
  }

  lemma AfterSum(last: nat, k: nat, u: nat)
    ensures After((last + k) % IDS, u) == After(last, k + u)
  {
  }

  /** The last number given is as far on as numbers have been tried. */
  lemma {:induction false} LastAhead(b: Ledger, es: seq<Event>, bs: seq<Ledger>)
    requires b.last < IDS && |bs| == |es| && Reaches(b, es, bs)
    ensures (if bs == [] then b else bs[|bs| - 1]).last == (b.last + AllTries(es)) % IDS
    decreases |es|
  {
    if es != [] {
      LastOne(b, es[0], bs[0]);
      hide Happens, After, Tries;
      LastAhead(bs[0], es[1..], bs[1..]);
      Round(b.last, Tries(es[0]), AllTries(es[1..]));
    }
  }

  lemma LastOne(b: Ledger, e: Event, b': Ledger)
    requires b.last < IDS && Happens(b, e, b')
    ensures b'.last == (b.last + Tries(e)) % IDS
  {
  }

  lemma Round(a: nat, b: nat, c: nat)
    ensures ((a + b) % IDS + c) % IDS == (a + b + c) % IDS
  {
  }

  lemma {:induction false} TriedOnTheWay(b: Ledger, es: seq<Event>, bs: seq<Ledger>, j: nat)
    requires b.last < IDS && |bs| == |es| && Reaches(b, es, bs) && j < AllTries(es)
    ensures EverTried(b, es, bs, After(b.last, j))
    decreases |es|
  {
    var k := Tries(es[0]);
    if j < k {
      if es[0].Create? {
        assert TriedIn(b, es[0], After(b.last, j));
      }
    } else {
      LastOne(b, es[0], bs[0]);
      hide Happens, After, Tries, TriedIn;
      AfterSum(b.last, k, j - k);
      TriedOnTheWay(bs[0], es[1..], bs[1..], j - k);
    }
  }

  /** A number that was given last is given again only after every other number has been tried, and given or found
      in use. */
  lemma NotSoonAgain(b: Ledger, es: seq<Event>, bs: seq<Ledger>, y: nat)
    requires b.last < IDS && |bs| == |es| > 0 && Reaches(b, es, bs) && y < IDS
    requires es[|es| - 1].Create? && bs[|bs| - 1].last == b.last
    ensures EverTried(b, es, bs, y)
  {
    LastAhead(b, es, bs);
    SomeTries(es);
    FullRounds(b.last, AllTries(es));
    var j := (y + IDS - b.last - 1) % IDS;
    assert After(b.last, j) == y;
    TriedOnTheWay(b, es, bs, j);
  }

  lemma {:induction false} SomeTries(es: seq<Event>)
    requires es != [] && es[|es| - 1].Create?
    ensures AllTries(es) > 0
    decreases |es|
  {
    if |es| > 1 {
      SomeTries(es[1..]);
    }
  }

  lemma FullRounds(a: nat, n: nat)
    requires a < IDS && 0 < n && (a + n) % IDS == a
    ensures n >= IDS
  {
  }

  /** A 16-bit increment. */
  function Next(s: nat): (r: nat)
    requires s < IDS
    ensures r < IDS
  {
    if s + 1 < IDS then s + 1 else 0
  }

  function Ahead(s: nat, t: nat): (r: nat)
    requires s < IDS && t <= IDS
    ensures r < IDS
  {
    if s + t < IDS then s + t else s + t - IDS
  }

  /** Going on from `t` places ahead, either further round or back at the start. */
  lemma AheadNext(s: nat, t: nat)
    requires s < IDS && t < IDS
    ensures Ahead(s, 0) == s && Next(Ahead(s, t)) == Ahead(s, t + 1) && (Ahead(s, t + 1) == s <==> t + 1 == IDS)
  {
  }

  /** Only the identifier of one descriptor differs. */
  ghost predicate Renamed(was: map<Addr, Mqd>, now: map<Addr, Mqd>, a: Addr) {
    a in was && a in now && now == was[a := was[a].(id := now[a].id)]
  }

  lemma RenamedNot(was: map<Addr, Mqd>, a: Addr)
    requires a in was
    ensures Renamed(was, was, a)
  {
  }

  lemma RenamedAgain(was: map<Addr, Mqd>, mid: map<Addr, Mqd>, now: map<Addr, Mqd>, a: Addr)
    requires Renamed(was, mid, a) && Renamed(mid, now, a)
    ensures Renamed(was, now, a)
  {
  }

  /** `MQ_MAGIC | sequence`. */
  function Numbered(s: nat): (id: nat)
    requires s < IDS
    ensures Magic(id)
  {
    MQ_MAGIC + s
  }

  /** The first `n` numbers from `wrap` on are all in use. */
  ghost predicate Tried(wrap: nat, n: nat, ids: set<nat>)
    requires wrap < IDS && n <= IDS
  {
    forall t :: 0 <= t < n ==> Numbered(Ahead(wrap, t)) in ids
  }

  lemma TriedNone(wrap: nat, ids: set<nat>)
    requires wrap < IDS
    ensures Tried(wrap, 0, ids)
  {
  }

  lemma TriedOne(wrap: nat, n: nat, ids: set<nat>)
    requires wrap < IDS && n < IDS && Tried(wrap, n, ids) && Numbered(Ahead(wrap, n)) in ids
    ensures Tried(wrap, n + 1, ids)
  {
  }

  /** Position `k` moved to the front, the others in order behind it. */
  ghost predicate Fronted(was: seq<Addr>, k: nat, now: seq<Addr>)
    requires k < |was|
  {
    now == [was[k]] + (was[..k] + was[k + 1..])
  }

  ghost predicate Removed(was: seq<Addr>, k: nat, now: seq<Addr>)
    requires k < |was|
  {
    now == was[..k] + was[k + 1..]
  }

  /** Once round, every number has been tried. */
  lemma AheadAll(wrap: nat, ids: set<nat>)
    requires wrap < IDS && Tried(wrap, IDS, ids)
    ensures forall s :: 0 <= s < IDS ==> Numbered(s) in ids
  {
    forall s | 0 <= s < IDS
      ensures Numbered(s) in ids
    {
      var t := if s >= wrap then s - wrap else s - wrap + IDS;
      assert Ahead(wrap, t) == s;
    }
  }

  /** Without one of them the descriptors are still distinct, and its identifier is free. */
  lemma DropOne(mqd: map<Addr, Mqd>, was: seq<Addr>, k: nat)
    requires k < |was| && Distinct(was)
    requires (forall a :: a in was ==> a in mqd && Magic(mqd[a].id)) && DistinctIds(mqd, was)
    ensures
      var now := was[..k] + was[k + 1..];
      && Distinct(now) && (forall a :: a in now ==> a in mqd && Magic(mqd[a].id)) && DistinctIds(mqd, now)
      && mqd[was[k]].id !in Ids(mqd, now)
  {
    DistinctMember(was, k);
    var now := was[..k] + was[k + 1..];
    assert forall i :: 0 <= i < |now| ==> now[i] == was[if i < k then i else i + 1];
  }

  /** Writing a descriptor that is not in the list. */
  lemma SetOther(mqd: map<Addr, Mqd>, chain: seq<Addr>, created: Addr, d: Mqd)
    requires (forall a :: a in chain ==> a in mqd) && created !in chain
    ensures Ids(mqd[created := d], chain) == Ids(mqd, chain)
  {
  }

  lemma SegmentPush(next: Links, first: Addr, nodes: seq<Addr>, x: Addr)
    requires Segment(next, first, nodes, 0) && x != 0 && x !in nodes
    ensures Segment(next[x := first], x, [x] + nodes, 0)
  {
    SegmentFrame(next, first, nodes, 0, x, first);
    assert ([x] + nodes)[1..] == nodes;
  }
}
