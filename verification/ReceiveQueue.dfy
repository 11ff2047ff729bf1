/**
 * The message queue behind Receive() in the migration library
 * (lib/mig4nto/ipc_funcs.c). A process waits for one sender or for anyone;
 * messages from others are set aside, and repeated triggers of one proxy are
 * counted on a single record.
 */
module ReceiveQueue {
  import opened RecordTable

  /**
   * What arrives: a Send() message or a manager's proxy message, both held by
   * the receive id of their blocked sender, or a proxy pulse (receive id 0).
   */
  datatype Message =
    | Send(pid: int, rcvid: nat)
    | Proxy(pid: int, rcvid: nat)
    | Pulse(pid: int)

  /** `room` is false when there is no memory to set the message aside; other pulses are ignored. */
  datatype Arrival = Arrival(msg: Message, room: bool) | Stray

  datatype Queued = Queued(msg: Message, count: nat)

  function PidOf(x: Queued): int {
    x.msg.pid
  }

  /** A message taken may fail to be read or processed; one for which there is no memory is lost. */
  datatype Outcome = Delivered(msg: Message) | Failed(msg: Message) | Lost(msg: Message) | NoSuchProcess | Interrupted

  /** A call waits for one process or, with 0, for anyone; `works` tells whether reading and processing
      the message it takes succeeds. */
  datatype Call = Call(pid: int, works: bool)

  datatype Received = Received(queue: seq<Queued>, out: Outcome, used: nat)

  /** The first record from sender `pid`, or the queue's length. */
  function FirstOf(q: seq<Queued>, pid: int): (i: nat)
    ensures i <= |q|
    ensures forall j :: 0 <= j < i ==> q[j].msg.pid != pid
    ensures i < |q| ==> q[i].msg.pid == pid
  {
    if q == [] || q[0].msg.pid == pid then 0 else 1 + FirstOf(q[1..], pid)
  }

  /** The record a Receive() on `pid` takes; zero stands for anyone. */
  function Pick(q: seq<Queued>, pid: int): nat {
    if pid == 0 then 0 else FirstOf(q, pid)
  }

  predicate Coalesces(q: seq<Queued>, m: Message) {
    !m.Send? && FirstOf(q, m.pid) < |q|
  }

  function Bump(x: Queued): Queued {
    x.(count := x.count + 1)
  }

  function Putting(q: seq<Queued>, m: Message): seq<Queued> {
    if Coalesces(q, m) then q[FirstOf(q, m.pid) := Bump(q[FirstOf(q, m.pid)])]
    else q + [Queued(m, 0)]
  }

  function Taking(q: seq<Queued>, i: nat): seq<Queued>
    requires i < |q|
  {
    if q[i].count == 0 then Drop(q, i) else q[i := q[i].(count := q[i].count - 1)]
  }

  function Taken(m: Message, works: bool): Outcome {
    if works then Delivered(m) else Failed(m)
  }

  /** Waiting for `pid` with nothing queued for it. */
  function Await(q: seq<Queued>, call: Call, arrivals: seq<Arrival>): (r: Received)
    ensures r.used <= |arrivals|
    decreases |arrivals|
  {
    if arrivals == [] then Received(q, Interrupted, 0)
    else if arrivals[0].Stray? then
      var r := Await(q, call, arrivals[1..]);
      r.(used := r.used + 1)
    else
      var m := arrivals[0].msg;
      if call.pid == 0 || call.pid == m.pid then Received(q, Taken(m, call.works), 1)
      else if !arrivals[0].room && !Coalesces(q, m) then Received(q, Lost(m), 1)
      else
        var r := Await(Putting(q, m), call, arrivals[1..]);
        r.(used := r.used + 1)
  }

  function Receive(q: seq<Queued>, call: Call, arrivals: seq<Arrival>): (r: Received)
    ensures r.used <= |arrivals|
  {
    var i := Pick(q, call.pid);
    if call.pid < 0 then Received(q, NoSuchProcess, 0)
    else if i < |q| then Received(Taking(q, i), Taken(q[i].msg, call.works), 0)
    else Await(q, call, arrivals)
  }

  /** The table of queued messages of one process. */
  class Receiver {
    const table: Table<Queued>

    ghost predicate Valid()
      reads this, table
    {
      table.Valid() && !table.sorted && table.key == PidOf
    }

    constructor ()
      ensures Valid() && fresh(table) && table.recs == []
    {
      var t := new Table(PidOf, false);
      table := t;
    }

    /** Sets a message aside, or counts it on the record its proxy already has. */
    method PutQueued(m: Message, room: bool) returns (ok: bool)
      requires Valid()
      modifies table
      ensures Valid()
      ensures ok == (room || Coalesces(old(table.recs), m))
      ensures table.recs == if ok then Putting(old(table.recs), m) else old(table.recs)
    {
      if !m.Send? {
        var i := table.GetRecord(m.pid);
        FirstOfIs(table.recs, m.pid, i);
        if i < |table.recs| {
          table.recs := table.recs[i := Bump(table.recs[i])];
          return true;
        }
      }
      ok := table.AddRecord(Queued(m, 0), room);
    }

    /** Takes the next queued message for `pid`, if there is one, also when it cannot be read. */
    method GetQueued(pid: int, works: bool) returns (status: Status, m: Message)
      requires Valid() && pid >= 0
      modifies table
      ensures Valid()
      ensures status == NO_MSG <==> Pick(old(table.recs), pid) == |old(table.recs)|
      ensures status == NO_MSG ==> table.recs == old(table.recs)
      ensures status != NO_MSG ==>
        && (status == GOT_MSG <==> works)
        && m == old(table.recs)[Pick(old(table.recs), pid)].msg
        && table.recs == Taking(old(table.recs), Pick(old(table.recs), pid))
    {
      var i: nat;
      if pid > 0 {
        i := table.GetRecord(pid);
        FirstOfIs(table.recs, pid, i);
      } else {
        var _ := table.Reset();
        i := table.Forward();
      }
      m := Pulse(0);
      if i >= |table.recs| {
        return NO_MSG, m;
      }
      m := table.recs[i].msg;
      if table.recs[i].count == 0 {
        var _ := table.DeleteAt(i);
      } else {
        table.recs := table.recs[i := table.recs[i].(count := table.recs[i].count - 1)];
      }
      status := if works then GOT_MSG else ERROR;
    }

    /** Receivemx(): a queued message if there is one, else wait and set others aside. */
    method ReceiveFrom(call: Call, arrivals: seq<Arrival>) returns (out: Outcome, used: nat)
      requires Valid()
      modifies table
      ensures Valid()
      ensures Received(table.recs, out, used) == Receive(old(table.recs), call, arrivals)
    {
      if call.pid < 0 {
        return NoSuchProcess, 0;
      }
      var status, m := GetQueued(call.pid, call.works);
      match status {
        case GOT_MSG => return Delivered(m), 0;
        case ERROR => return Failed(m), 0;
        case NO_MSG =>
      }
      used := 0;
      while used < |arrivals|
        invariant Valid()
        invariant used <= |arrivals|
        invariant Ongoing(old(table.recs), table.recs, call, arrivals, used)
      {
        var a := arrivals[used];
        used := used + 1;
        assert arrivals[used - 1..][1..] == arrivals[used..];
        if a.Arrival? {
          if call.pid == 0 || call.pid == a.msg.pid {
            return Taken(a.msg, call.works), used;
          }
          var ok := PutQueued(a.msg, a.room);
          if !ok {
            return Lost(a.msg), used;
          }
        }
      }
      return Interrupted, used;
    }
  }

  datatype Status = NO_MSG | GOT_MSG | ERROR

  /** After `used` arrivals the wait goes on as if it had started from `now`. */
  ghost predicate Ongoing(was: seq<Queued>, now: seq<Queued>, call: Call, arrivals: seq<Arrival>, used: nat)
    requires used <= |arrivals|
  {
    var rest := Await(now, call, arrivals[used..]);
    Await(was, call, arrivals) == rest.(used := rest.used + used)
  }

  lemma FirstOfIs(q: seq<Queued>, pid: int, i: nat)
    requires i <= |q|
    requires forall j :: 0 <= j < i ==> PidOf(q[j]) != pid
    requires i < |q| ==> PidOf(q[i]) == pid
    ensures i == FirstOf(q, pid)
  {
  }

  // ---------- Nothing is lost or made up ----------

  /** Messages the queue still owes for id `pid`: count + 1 for each record. */
  function Held(q: seq<Queued>, pid: int): nat {
    if q == [] then 0 else (if q[0].msg.pid == pid then q[0].count + 1 else 0) + Held(q[1..], pid)
  }

  function Arrived(arrivals: seq<Arrival>, pid: int): nat {
    if arrivals == [] then 0
    else (if arrivals[0].Arrival? && arrivals[0].msg.pid == pid then 1 else 0) + Arrived(arrivals[1..], pid)
  }

  /** One if the call disposed of a message with id `pid`. */
  function Gone(out: Outcome, pid: int): nat {
    if (out.Delivered? || out.Failed? || out.Lost?) && out.msg.pid == pid then 1 else 0
  }

  lemma {:induction false} HeldConcat(a: seq<Queued>, b: seq<Queued>, pid: int)
    ensures Held(a + b, pid) == Held(a, pid) + Held(b, pid)
  {
    if a == [] {
      assert a + b == b;
    } else {
      assert (a + b)[1..] == a[1..] + b;
      HeldConcat(a[1..], b, pid);
    }
  }

  lemma HeldAround(q: seq<Queued>, i: nat, pid: int)
    requires i < |q|
    ensures Held(q, pid) == Held(q[..i], pid) + Held([q[i]], pid) + Held(q[i + 1..], pid)
  {
    assert q == q[..i] + ([q[i]] + q[i + 1..]);
    HeldConcat(q[..i], [q[i]] + q[i + 1..], pid);
    HeldConcat([q[i]], q[i + 1..], pid);
  }

  lemma HeldUpdate(q: seq<Queued>, i: nat, x: Queued, pid: int)
    requires i < |q|
    ensures Held(q[i := x], pid) + Held([q[i]], pid) == Held(q, pid) + Held([x], pid)
  {
    HeldAround(q, i, pid);
    HeldAround(q[i := x], i, pid);
    assert q[i := x][..i] == q[..i] && q[i := x][i + 1..] == q[i + 1..];
  }

  lemma PutHeld(q: seq<Queued>, m: Message, pid: int)
    ensures Held(Putting(q, m), pid) == Held(q, pid) + if m.pid == pid then 1 else 0
  {
    if Coalesces(q, m) {
      var i := FirstOf(q, m.pid);
      HeldUpdate(q, i, Bump(q[i]), pid);
    } else {
      HeldConcat(q, [Queued(m, 0)], pid);
    }
  }

  lemma TakeHeld(q: seq<Queued>, i: nat, pid: int)
    requires i < |q|
    ensures Held(Taking(q, i), pid) + (if q[i].msg.pid == pid then 1 else 0) == Held(q, pid)
  {
    if q[i].count == 0 {
      HeldAround(q, i, pid);
      HeldConcat(q[..i], q[i + 1..], pid);
    } else {
      HeldUpdate(q, i, q[i].(count := q[i].count - 1), pid);
    }
  }

  lemma {:induction false} ArrivedFirst(arrivals: seq<Arrival>, n: nat, id: int)
    requires 0 < n <= |arrivals|
    ensures Arrived(arrivals[..n], id)
         == (if arrivals[0].Arrival? && arrivals[0].msg.pid == id then 1 else 0) + Arrived(arrivals[1..][..n - 1], id)
  {
    assert arrivals[..n][1..] == arrivals[1..][..n - 1];
  }

  lemma {:induction false} AwaitConserves(q: seq<Queued>, call: Call, arrivals: seq<Arrival>, id: int)
    ensures
      var r := Await(q, call, arrivals);
      Held(r.queue, id) + Gone(r.out, id) == Held(q, id) + Arrived(arrivals[..r.used], id)
    decreases |arrivals|
  {
    var r := Await(q, call, arrivals);
    if arrivals != [] {
      ArrivedFirst(arrivals, r.used, id);
      hide Held, Putting, Coalesces;
      if arrivals[0].Stray? {
        AwaitConserves(q, call, arrivals[1..], id);
      } else if call.pid != 0 && call.pid != arrivals[0].msg.pid && (arrivals[0].room || Coalesces(q, arrivals[0].msg)) {
        PutHeld(q, arrivals[0].msg, id);
        AwaitConserves(Putting(q, arrivals[0].msg), call, arrivals[1..], id);
      } else {
        assert Arrived(arrivals[1..][..0], id) == 0;
      }
    }
  }

  /** Per id, what arrived minus what was disposed of is the sum of count + 1 over its records. */
  lemma ReceiveConserves(q: seq<Queued>, call: Call, arrivals: seq<Arrival>, id: int)
    ensures
      var r := Receive(q, call, arrivals);
      Held(r.queue, id) + Gone(r.out, id) == Held(q, id) + Arrived(arrivals[..r.used], id)
  {
    if call.pid >= 0 {
      if Pick(q, call.pid) < |q| {
        TakeHeld(q, Pick(q, call.pid), id);
      } else {
        AwaitConserves(q, call, arrivals, id);
      }
    }
  }

  /** Every record with id `id` is a pulse's. */
  predicate PulsesOnly(q: seq<Queued>, id: int) {
    forall i :: 0 <= i < |q| && q[i].msg.pid == id ==> q[i].msg.Pulse?
  }

  predicate PulsesOnlyIn(arrivals: seq<Arrival>, id: int) {
    forall i :: 0 <= i < |arrivals| && arrivals[i].Arrival? && arrivals[i].msg.pid == id ==> arrivals[i].msg.Pulse?
  }

  lemma {:induction false} AwaitPulses(q: seq<Queued>, call: Call, arrivals: seq<Arrival>, id: int)
    requires PulsesOnly(q, id) && PulsesOnlyIn(arrivals, id)
    ensures
      var r := Await(q, call, arrivals);
      PulsesOnly(r.queue, id) && (Gone(r.out, id) > 0 ==> r.out.msg.Pulse?)
    decreases |arrivals|
  {
    if arrivals != [] {
      assert PulsesOnlyIn(arrivals[1..], id);
      if arrivals[0].Stray? {
        AwaitPulses(q, call, arrivals[1..], id);
      } else if call.pid != 0 && call.pid != arrivals[0].msg.pid {
        AwaitPulses(Putting(q, arrivals[0].msg), call, arrivals[1..], id);
      }
    }
  }

  /** An id that only pulses use is taken as a pulse every time. */
  lemma ReceivePulses(q: seq<Queued>, call: Call, arrivals: seq<Arrival>, id: int)
    requires PulsesOnly(q, id) && PulsesOnlyIn(arrivals, id)
    ensures
      var r := Receive(q, call, arrivals);
      PulsesOnly(r.queue, id) && (Gone(r.out, id) > 0 ==> r.out.msg.Pulse?)
  {
    if call.pid >= 0 && Pick(q, call.pid) == |q| {
      AwaitPulses(q, call, arrivals, id);
    }
  }

  // ---------- Order of Send() messages ----------

  /**
   * Process ids and proxy ids do not overlap, so no trigger is ever counted
   * on a Send() record.
   */
  predicate Apart(q: seq<Queued>, procs: set<int>) {
    forall x :: x in q ==> (x.msg.Send? <==> x.msg.pid in procs) && (x.msg.Send? ==> x.count == 0)
  }

  predicate ApartIn(arrivals: seq<Arrival>, procs: set<int>) {
    forall i :: 0 <= i < |arrivals| && arrivals[i].Arrival? ==> (arrivals[i].msg.Send? <==> arrivals[i].msg.pid in procs)
  }

  /** `m` is a Send() message from `who`; zero stands for any sender. */
  predicate From(m: Message, who: int) {
    m.Send? && (who == 0 || m.pid == who)
  }

  function Waiting(q: seq<Queued>, who: int): seq<Message> {
    if q == [] then [] else (if From(q[0].msg, who) then [q[0].msg] else []) + Waiting(q[1..], who)
  }

  function Sent(arrivals: seq<Arrival>, who: int): seq<Message> {
    if arrivals == [] then []
    else (if arrivals[0].Arrival? && From(arrivals[0].msg, who) then [arrivals[0].msg] else []) + Sent(arrivals[1..], who)
  }

  /** What a call took out of the line. */
  function Handed(out: Outcome, who: int): seq<Message> {
    if (out.Delivered? || out.Failed?) && From(out.msg, who) then [out.msg] else []
  }

  /** What it had no memory for. */
  function Missed(out: Outcome, who: int): seq<Message> {
    if out.Lost? && From(out.msg, who) then [out.msg] else []
  }

  function Mine(x: Queued, who: int): seq<Message> {
    if From(x.msg, who) then [x.msg] else []
  }

  lemma {:induction false} WaitingConcat(a: seq<Queued>, b: seq<Queued>, who: int)
    ensures Waiting(a + b, who) == Waiting(a, who) + Waiting(b, who)
  {
    if a == [] {
      assert a + b == b;
    } else {
      assert (a + b)[1..] == a[1..] + b;
      assert Waiting(a + b, who) == Mine(a[0], who) + Waiting(a[1..] + b, who);
      assert Waiting(a, who) == Mine(a[0], who) + Waiting(a[1..], who);
      WaitingConcat(a[1..], b, who);
      hide Waiting, Mine;
      Regroup(Mine(a[0], who), Waiting(a[1..], who), Waiting(b, who));
    }
  }

  lemma {:induction false} WaitingNone(q: seq<Queued>, who: int)
    requires forall x :: x in q ==> !From(x.msg, who)
    ensures Waiting(q, who) == []
  {
    if q != [] {
      assert q[0] in q;
      forall x | x in q[1..] ensures !From(x.msg, who) {
        assert x in q;
      }
      WaitingNone(q[1..], who);
    }
  }

  lemma WaitingAround(q: seq<Queued>, i: nat, who: int)
    requires i < |q|
    ensures Waiting(q, who) == Waiting(q[..i], who) + Waiting([q[i]], who) + Waiting(q[i + 1..], who)
  {
    assert q == q[..i] + ([q[i]] + q[i + 1..]);
    WaitingConcat(q[..i], [q[i]] + q[i + 1..], who);
    WaitingConcat([q[i]], q[i + 1..], who);
  }

  lemma WaitingOne(x: Queued, who: int)
    ensures Waiting([x], who) == Handed(Delivered(x.msg), who)
  {
  }

  lemma WaitingUpdate(q: seq<Queued>, i: nat, x: Queued, who: int)
    requires i < |q| && x.msg == q[i].msg
    ensures Waiting(q[i := x], who) == Waiting(q, who)
  {
    WaitingAround(q, i, who);
    WaitingAround(q[i := x], i, who);
    assert q[i := x][..i] == q[..i] && q[i := x][i + 1..] == q[i + 1..];
  }

  lemma PutWaiting(q: seq<Queued>, m: Message, who: int)
    ensures Waiting(Putting(q, m), who) == Waiting(q, who) + Handed(Delivered(m), who)
  {
    if Coalesces(q, m) {
      var i := FirstOf(q, m.pid);
      WaitingUpdate(q, i, Bump(q[i]), who);
    } else {
      WaitingConcat(q, [Queued(m, 0)], who);
    }
  }

  lemma PutApart(q: seq<Queued>, m: Message, procs: set<int>)
    requires Apart(q, procs) && (m.Send? <==> m.pid in procs)
    ensures Apart(Putting(q, m), procs)
  {
    var i := FirstOf(q, m.pid);
    if Coalesces(q, m) {
      assert q[i] in q;
      forall x | x in Putting(q, m)
        ensures (x.msg.Send? <==> x.msg.pid in procs) && (x.msg.Send? ==> x.count == 0)
      {
        assert x == Bump(q[i]) || x in q;
      }
    }
  }

  lemma TakeApart(q: seq<Queued>, i: nat, procs: set<int>)
    requires Apart(q, procs) && i < |q|
    ensures Apart(Taking(q, i), procs)
  {
    assert q[i] in q;
    forall x | x in Taking(q, i)
      ensures (x.msg.Send? <==> x.msg.pid in procs) && (x.msg.Send? ==> x.count == 0)
    {
      assert x in q || (q[i].count > 0 && x == q[i].(count := q[i].count - 1));
    }
  }

  /** The record taken is the first of those in line, for its own sender and for anyone. */
  lemma TakeWaiting(q: seq<Queued>, pid: int, who: int, procs: set<int>)
    requires Apart(q, procs) && Pick(q, pid) < |q| && (who != 0 || pid == 0)
    ensures
      var i := Pick(q, pid);
      Handed(Delivered(q[i].msg), who) + Waiting(Taking(q, i), who) == Waiting(q, who)
  {
    hide Waiting, Handed;
    var i := Pick(q, pid);
    assert q[i] in q;
    WaitingAround(q, i, who);
    WaitingOne(q[i], who);
    NoneBefore(q, pid, who);
    Moved(Handed(Delivered(q[i].msg), who), Waiting(q[..i], who), Waiting(q[i + 1..], who));
    if q[i].count > 0 {
      NotHanded(q[i].msg, who);
      WaitingUpdate(q, i, q[i].(count := q[i].count - 1), who);
    } else {
      WaitingConcat(q[..i], q[i + 1..], who);
    }
  }

  lemma NotHanded(m: Message, who: int)
    requires !m.Send?
    ensures Handed(Delivered(m), who) == []
  {
  }

  lemma NoneBefore(q: seq<Queued>, pid: int, who: int)
    requires Pick(q, pid) < |q| && (who != 0 || pid == 0)
    ensures var i := Pick(q, pid); Handed(Delivered(q[i].msg), who) == [] || Waiting(q[..i], who) == []
  {
    var i := Pick(q, pid);
    if From(q[i].msg, who) {
      WaitingNone(q[..i], who);
    }
  }

  lemma Moved<T>(h: seq<T>, a: seq<T>, b: seq<T>)
    requires h == [] || a == []
    ensures h + (a + b) == a + h + b
  {
  }

  lemma PutElsewhere(q: seq<Queued>, m: Message, pid: int)
    requires Pick(q, pid) == |q| && pid != 0 && pid != m.pid
    ensures Pick(Putting(q, m), pid) == |Putting(q, m)|
  {
    var r := Putting(q, m);
    assert forall i :: 0 <= i < |r| ==> r[i].msg.pid == if i < |q| then q[i].msg.pid else m.pid;
  }

  lemma HandDirectly(q: seq<Queued>, pid: int, m: Message, who: int)
    requires Pick(q, pid) == |q| && (who != 0 || pid == 0) && (pid == 0 || pid == m.pid)
    ensures Handed(Delivered(m), who) + Waiting(q, who) == Waiting(q, who) + Handed(Delivered(m), who)
  {
    if From(m, who) {
      WaitingNone(q, who);
    }
  }

  lemma SentFirst(arrivals: seq<Arrival>, n: nat, who: int)
    requires 0 < n <= |arrivals|
    ensures Sent(arrivals[..n], who)
         == (if arrivals[0].Arrival? then Handed(Delivered(arrivals[0].msg), who) else []) + Sent(arrivals[1..][..n - 1], who)
  {
    assert arrivals[..n][1..] == arrivals[1..][..n - 1];
  }

  lemma ApartTail(arrivals: seq<Arrival>, procs: set<int>)
    requires ApartIn(arrivals, procs) && arrivals != []
    ensures ApartIn(arrivals[1..], procs)
    ensures arrivals[0].Arrival? ==> (arrivals[0].msg.Send? <==> arrivals[0].msg.pid in procs)
  {
  }

  lemma Regroup<T>(a: seq<T>, b: seq<T>, c: seq<T>)
    ensures a + b + c == a + (b + c)
  {
  }

  /** The arrivals a call saw, without one that it lost: that is always the last. */
  function Kept(r: Received): nat {
    if r.out.Lost? && r.used > 0 then r.used - 1 else r.used
  }

  lemma {:induction false} AwaitInOrder(q: seq<Queued>, call: Call, arrivals: seq<Arrival>, who: int, procs: set<int>)
    requires Apart(q, procs) && ApartIn(arrivals, procs)
    requires Pick(q, call.pid) == |q| && (who != 0 || call.pid == 0)
    ensures
      var r := Await(q, call, arrivals);
      && Apart(r.queue, procs) && (r.out.Lost? ==> r.used > 0)
      && Handed(r.out, who) + Waiting(r.queue, who) == Waiting(q, who) + Sent(arrivals[..Kept(r)], who)
    decreases |arrivals|
  {
    var r := Await(q, call, arrivals);
    hide Apart, ApartIn, Waiting, Pick, Putting, Sent, Handed, From, Coalesces;
    if arrivals == [] {
      Empty(q, who);
    } else {
      ApartTail(arrivals, procs);
      if arrivals[0].Stray? {
        AwaitInOrder(q, call, arrivals[1..], who, procs);
        SentStray(arrivals, Kept(r), who);
      } else if call.pid == 0 || call.pid == arrivals[0].msg.pid || (!arrivals[0].room && !Coalesces(q, arrivals[0].msg)) {
        AwaitEnds(q, call, arrivals, who, r);
      } else {
        AwaitOthers(q, call, arrivals, who, procs, r);
      }
    }
  }

  lemma Empty(q: seq<Queued>, who: int)
    ensures Handed(Interrupted, who) + Waiting(q, who) == Waiting(q, who) + Sent([], who)
  {
  }

  lemma SentStray(arrivals: seq<Arrival>, n: nat, who: int)
    requires 0 < n <= |arrivals| && arrivals[0].Stray?
    ensures Sent(arrivals[..n], who) == Sent(arrivals[1..][..n - 1], who)
  {
    SentFirst(arrivals, n, who);
  }

  /** The turn that takes a message, or has no memory to set it aside. */
  lemma AwaitEnds(q: seq<Queued>, call: Call, arrivals: seq<Arrival>, who: int, r: Received)
    requires Pick(q, call.pid) == |q| && (who != 0 || call.pid == 0)
    requires arrivals != [] && arrivals[0].Arrival? && r.queue == q && r.used == 1
    requires r.out == Lost(arrivals[0].msg) ||
             (r.out == Taken(arrivals[0].msg, call.works) && (call.pid == 0 || call.pid == arrivals[0].msg.pid))
    ensures Handed(r.out, who) + Waiting(r.queue, who) == Waiting(q, who) + Sent(arrivals[..Kept(r)], who)
  {
    var m := arrivals[0].msg;
    hide Waiting, Pick, From;
    assert Sent(arrivals[1..][..0], who) == [] && Sent(arrivals[..0], who) == [];
    if !r.out.Lost? {
      SentFirst(arrivals, 1, who);
      HandDirectly(q, call.pid, m, who);
    }
  }

  /** The turn that sets a message aside. */
  lemma AwaitOthers(q: seq<Queued>, call: Call, arrivals: seq<Arrival>, who: int, procs: set<int>, r: Received)
    requires Apart(q, procs) && Pick(q, call.pid) == |q| && (who != 0 || call.pid == 0)
    requires arrivals != [] && arrivals[0].Arrival? && ApartIn(arrivals[1..], procs)
    requires call.pid != 0 && call.pid != arrivals[0].msg.pid
    requires arrivals[0].msg.Send? <==> arrivals[0].msg.pid in procs
    requires
      var rest := Await(Putting(q, arrivals[0].msg), call, arrivals[1..]);
      r == rest.(used := rest.used + 1)
    ensures Apart(r.queue, procs) && (r.out.Lost? ==> r.used > 0)
    ensures Handed(r.out, who) + Waiting(r.queue, who) == Waiting(q, who) + Sent(arrivals[..Kept(r)], who)
    decreases |arrivals|, 0
  {
    hide Apart, ApartIn, Waiting, Pick, Putting, Sent, Handed, From, Await;
    var m := arrivals[0].msg;
    PutWaiting(q, m, who);
    PutApart(q, m, procs);
    PutElsewhere(q, m, call.pid);
    AwaitInOrder(Putting(q, m), call, arrivals[1..], who, procs);
    SentFirst(arrivals, Kept(r), who);
    Regroup(Waiting(q, who), Handed(Delivered(m), who), Sent(arrivals[1..][..Kept(r) - 1], who));
  }

  /**
   * What a call takes out of the line followed by what is left in it is what
   * was in line followed by what arrived and was not lost: per sender for every
   * call, over all senders when the call takes anyone.
   */
  lemma ReceiveInOrder(q: seq<Queued>, call: Call, arrivals: seq<Arrival>, who: int, procs: set<int>)
    requires Apart(q, procs) && ApartIn(arrivals, procs)
    requires who != 0 || call.pid == 0
    ensures
      var r := Receive(q, call, arrivals);
      && Apart(r.queue, procs)
      && Handed(r.out, who) + Waiting(r.queue, who) == Waiting(q, who) + Sent(arrivals[..Kept(r)], who)
  {
    if call.pid >= 0 {
      if Pick(q, call.pid) < |q| {
        TakeWaiting(q, call.pid, who, procs);
        TakeApart(q, Pick(q, call.pid), procs);
      } else {
        AwaitInOrder(q, call, arrivals, who, procs);
      }
    }
  }

  /** The one that is lost is the last a call saw. */
  lemma {:induction false} AwaitLoses(q: seq<Queued>, call: Call, arrivals: seq<Arrival>)
    ensures
      var r := Await(q, call, arrivals);
      r.out.Lost? ==> r.used > 0 && arrivals[r.used - 1].Arrival? && arrivals[r.used - 1].msg == r.out.msg
    decreases |arrivals|
  {
    if arrivals != [] {
      hide Putting, Coalesces;
      AwaitLoses(q, call, arrivals[1..]);
      if arrivals[0].Arrival? {
        AwaitLoses(Putting(q, arrivals[0].msg), call, arrivals[1..]);
      }
    }
  }

  lemma ReceiveLoses(q: seq<Queued>, call: Call, arrivals: seq<Arrival>, who: int)
    ensures
      var r := Receive(q, call, arrivals);
      Sent(arrivals[..r.used], who) == Sent(arrivals[..Kept(r)], who) + Missed(r.out, who)
  {
    var r := Receive(q, call, arrivals);
    AwaitLoses(q, call, arrivals);
    if r.out.Lost? {
      var n := r.used;
      assert arrivals[..n] == arrivals[..n - 1] + [arrivals[n - 1]];
      ArrivedConcat(arrivals[..n - 1], [arrivals[n - 1]], 0, who);
      assert Sent([arrivals[n - 1]], who) == Missed(r.out, who);
    }
  }

  // ---------- Which message a call takes ----------

  /** A call takes this message if it meets it. */
  predicate Wanted(call: Call, m: Message) {
    call.pid == 0 || m.pid == call.pid
  }

  predicate WantedArrival(call: Call, a: Arrival) {
    a.Arrival? && Wanted(call, a.msg)
  }

  /** Waiting ends with the first arrival that is wanted, with one that is not and finds no memory, or when there are
      no more. */
  lemma {:induction false} AwaitFirst(q: seq<Queued>, call: Call, arrivals: seq<Arrival>)
    ensures
      var r := Await(q, call, arrivals);
      && (forall k :: 0 <= k < r.used - 1 ==> !WantedArrival(call, arrivals[k]))
      && match r.out
         case Interrupted => r.used == |arrivals| && (r.used > 0 ==> !WantedArrival(call, arrivals[r.used - 1]))
         case NoSuchProcess => false
         case Lost(m) => r.used > 0 && arrivals[r.used - 1] == Arrival(m, false) && !Wanted(call, m)
         case _ => r.used > 0 && WantedArrival(call, arrivals[r.used - 1]) && arrivals[r.used - 1].msg == r.out.msg
                   && (r.out.Delivered? <==> call.works)
    decreases |arrivals|
  {
    if arrivals != [] && !WantedArrival(call, arrivals[0]) {
      var rest := arrivals[1..];
      if arrivals[0].Stray? {
        AwaitFirst(q, call, rest);
      } else if arrivals[0].room || Coalesces(q, arrivals[0].msg) {
        AwaitFirst(Putting(q, arrivals[0].msg), call, rest);
      }
      hide Putting, Coalesces;
      var r := Await(q, call, arrivals);
      forall k | 0 <= k < r.used - 1 ensures !WantedArrival(call, arrivals[k]) {
        assert k > 0 ==> arrivals[k] == rest[k - 1];
      }
    }
  }

  /** The first record a call wants is the one it takes, as one message and no arrival; a call on 0 wants the oldest
      of all, whatever its kind. */
  lemma ReceiveQueuedFirst(q: seq<Queued>, call: Call, arrivals: seq<Arrival>, i: nat)
    requires call.pid >= 0 && i < |q| && Wanted(call, q[i].msg)
    requires forall j :: 0 <= j < i ==> !Wanted(call, q[j].msg)
    ensures
      var r := Receive(q, call, arrivals);
      && r.out == (if call.works then Delivered(q[i].msg) else Failed(q[i].msg)) && r.used == 0
      && r.queue == if q[i].count == 0 then q[..i] + q[i + 1..] else q[i := Queued(q[i].msg, q[i].count - 1)]
  {
    if call.pid == 0 {
      assert i == 0 || Wanted(call, q[0].msg);
    } else {
      FirstOfIs(q, call.pid, i);
    }
    assert Pick(q, call.pid) == i;
  }

  /** Without one it waits. */
  lemma ReceiveWaits(q: seq<Queued>, call: Call, arrivals: seq<Arrival>)
    requires call.pid >= 0 && forall j :: 0 <= j < |q| ==> !Wanted(call, q[j].msg)
    ensures Receive(q, call, arrivals) == Await(q, call, arrivals)
  {
  }

  /** A call is given only what it waits for, fails with no message only for a process that cannot be, and is
      interrupted only when nothing more arrives. */
  lemma ReceiveOnlyWanted(q: seq<Queued>, call: Call, arrivals: seq<Arrival>)
    ensures
      var r := Receive(q, call, arrivals);
      match r.out
      case Delivered(m) => call.works && (call.pid == 0 || m.pid == call.pid)
      case Failed(m) => !call.works && (call.pid == 0 || m.pid == call.pid)
      case Lost(m) => call.pid != 0 && m.pid != call.pid
      case NoSuchProcess => call.pid < 0
      case Interrupted => r.used == |arrivals|
  {
    AwaitFirst(q, call, arrivals);
    hide Await;
  }

  // ---------- Whole runs ----------

  /** The outcomes of one call after another, each going on from where the last stopped. */
  datatype History = History(queue: seq<Queued>, outs: seq<Outcome>, used: nat)

  function Calls(q: seq<Queued>, calls: seq<Call>, arrivals: seq<Arrival>): (h: History)
    ensures h.used <= |arrivals|
    decreases |calls|
  {
    if calls == [] then History(q, [], 0)
    else
      var r := Receive(q, calls[0], arrivals);
      var h := Calls(r.queue, calls[1..], arrivals[r.used..]);
      History(h.queue, [r.out] + h.outs, r.used + h.used)
  }

  function AllGone(outs: seq<Outcome>, id: int): nat {
    if outs == [] then 0 else Gone(outs[0], id) + AllGone(outs[1..], id)
  }

  function AllHanded(outs: seq<Outcome>, who: int): seq<Message> {
    if outs == [] then [] else Handed(outs[0], who) + AllHanded(outs[1..], who)
  }

  function AllMissed(outs: seq<Outcome>, who: int): seq<Message> {
    if outs == [] then [] else Missed(outs[0], who) + AllMissed(outs[1..], who)
  }

  /** The Send() messages that arrived during a run and were not lost, in order. */
  function Stayed(q: seq<Queued>, calls: seq<Call>, arrivals: seq<Arrival>, who: int): seq<Message>
    decreases |calls|
  {
    if calls == [] then []
    else
      var r := Receive(q, calls[0], arrivals);
      Sent(arrivals[..Kept(r)], who) + Stayed(r.queue, calls[1..], arrivals[r.used..], who)
  }

  lemma {:induction false} ArrivedConcat(a: seq<Arrival>, b: seq<Arrival>, id: int, who: int)
    ensures Arrived(a + b, id) == Arrived(a, id) + Arrived(b, id)
    ensures Sent(a + b, who) == Sent(a, who) + Sent(b, who)
  {
    if a == [] {
      assert a + b == b;
    } else {
      assert (a + b)[1..] == a[1..] + b;
      ArrivedConcat(a[1..], b, id, who);
    }
  }

  lemma ArrivedSplit(arrivals: seq<Arrival>, u: nat, v: nat, id: int, who: int)
    requires u + v <= |arrivals|
    ensures Arrived(arrivals[..u + v], id) == Arrived(arrivals[..u], id) + Arrived(arrivals[u..][..v], id)
    ensures Sent(arrivals[..u + v], who) == Sent(arrivals[..u], who) + Sent(arrivals[u..][..v], who)
  {
    assert arrivals[..u + v] == arrivals[..u] + arrivals[u..][..v];
    ArrivedConcat(arrivals[..u], arrivals[u..][..v], id, who);
  }

  /** A run is its first call and a run from there. */
  lemma FirstCall(q: seq<Queued>, calls: seq<Call>, arrivals: seq<Arrival>, who: int)
    requires calls != []
    ensures
      var r := Receive(q, calls[0], arrivals);
      var rest := arrivals[r.used..];
      var h := Calls(r.queue, calls[1..], rest);
      && Calls(q, calls, arrivals) == History(h.queue, [r.out] + h.outs, r.used + h.used)
      && Stayed(q, calls, arrivals, who) == Sent(arrivals[..Kept(r)], who) + Stayed(r.queue, calls[1..], rest, who)
  {
    hide Receive, Sent, Kept;
  }

  lemma FirstOutcome(out: Outcome, outs: seq<Outcome>, id: int, who: int)
    ensures AllGone([out] + outs, id) == Gone(out, id) + AllGone(outs, id)
    ensures AllHanded([out] + outs, who) == Handed(out, who) + AllHanded(outs, who)
    ensures AllMissed([out] + outs, who) == Missed(out, who) + AllMissed(outs, who)
  {
    hide Gone, Handed, Missed;
    assert ([out] + outs)[1..] == outs;
  }

  /** Over every run: arrived minus disposed of is what the records still hold. */
  lemma {:induction false} RunConserves(q: seq<Queued>, calls: seq<Call>, arrivals: seq<Arrival>, id: int)
    ensures
      var h := Calls(q, calls, arrivals);
      Held(h.queue, id) + AllGone(h.outs, id) == Held(q, id) + Arrived(arrivals[..h.used], id)
    decreases |calls|
  {
    if calls != [] {
      hide Receive, Held, Arrived, Gone, Calls, AllGone, Stayed, Sent, Kept, AllHanded, Handed, AllMissed, Missed;
      FirstCall(q, calls, arrivals, 0);
      var r := Receive(q, calls[0], arrivals);
      var h := Calls(r.queue, calls[1..], arrivals[r.used..]);
      ReceiveConserves(q, calls[0], arrivals, id);
      RunConserves(r.queue, calls[1..], arrivals[r.used..], id);
      ArrivedSplit(arrivals, r.used, h.used, id, 0);
      FirstOutcome(r.out, h.outs, id, 0);
    }
  }

  lemma ApartLater(arrivals: seq<Arrival>, n: nat, procs: set<int>)
    requires ApartIn(arrivals, procs) && n <= |arrivals|
    ensures ApartIn(arrivals[n..], procs)
  {
  }

  /**
   * Over every run Send() messages are handed over in the order they came:
   * per sender whatever the calls wait for, overall when they all take anyone.
   */
  lemma {:induction false} RunInOrder(q: seq<Queued>, calls: seq<Call>, arrivals: seq<Arrival>, who: int, procs: set<int>)
    requires Apart(q, procs) && ApartIn(arrivals, procs)
    requires who != 0 || forall i :: 0 <= i < |calls| ==> calls[i].pid == 0
    ensures
      var h := Calls(q, calls, arrivals);
      AllHanded(h.outs, who) + Waiting(h.queue, who) == Waiting(q, who) + Stayed(q, calls, arrivals, who)
    decreases |calls|
  {
    if calls != [] {
      hide Receive, Apart, ApartIn, Handed, Waiting, Sent, Kept, Calls, Stayed, AllHanded;
      FirstCall(q, calls, arrivals, who);
      var r := Receive(q, calls[0], arrivals);
      var rest := arrivals[r.used..];
      var h := Calls(r.queue, calls[1..], rest);
      ReceiveInOrder(q, calls[0], arrivals, who, procs);
      ApartLater(arrivals, r.used, procs);
      RunInOrder(r.queue, calls[1..], rest, who, procs);
      InOrderStep(Handed(r.out, who), AllHanded(h.outs, who), Waiting(q, who), Waiting(r.queue, who),
                  Waiting(h.queue, who), Sent(arrivals[..Kept(r)], who), Stayed(r.queue, calls[1..], rest, who));
      FirstOutcome(r.out, h.outs, 0, who);
    }
  }

  lemma InOrderStep<T>(now: seq<T>, later: seq<T>, q0: seq<T>, q1: seq<T>, q2: seq<T>, came: seq<T>, comes: seq<T>)
    requires now + q1 == q0 + came
    requires later + q2 == q1 + comes
    ensures now + later + q2 == q0 + (came + comes)
  {
    assert now + later + q2 == now + (later + q2);
    assert now + (q1 + comes) == now + q1 + comes;
    assert q0 + came + comes == q0 + (came + comes);
  }

  /** `sent` is made up of `stayed` and `missed`, each in its order. */
  predicate AllBut<T(==)>(stayed: seq<T>, sent: seq<T>, missed: seq<T>)
    decreases |sent|
  {
    if sent == [] then stayed == missed == []
    else
      || (stayed != [] && stayed[0] == sent[0] && AllBut(stayed[1..], sent[1..], missed))
      || (missed != [] && missed[0] == sent[0] && AllBut(stayed, sent[1..], missed[1..]))
  }

  /** So nothing else is missing, and nothing at all if nothing is missed. */
  lemma {:induction false} AllButCounts<T>(stayed: seq<T>, sent: seq<T>, missed: seq<T>)
    requires AllBut(stayed, sent, missed)
    ensures multiset(sent) == multiset(stayed) + multiset(missed) && (missed == [] ==> stayed == sent)
    decreases |sent|
  {
    if sent != [] {
      assert sent == [sent[0]] + sent[1..];
      if stayed != [] && stayed[0] == sent[0] && AllBut(stayed[1..], sent[1..], missed) {
        assert stayed == [stayed[0]] + stayed[1..];
        AllButCounts(stayed[1..], sent[1..], missed);
      } else {
        assert missed == [missed[0]] + missed[1..];
        AllButCounts(stayed, sent[1..], missed[1..]);
      }
    }
  }

  lemma {:induction false} AllButKept<T>(kept: seq<T>, stayed: seq<T>, sent: seq<T>, missed: seq<T>)
    requires AllBut(stayed, sent, missed)
    ensures AllBut(kept + stayed, kept + sent, missed)
    decreases |kept|
  {
    if kept == [] {
      assert kept + stayed == stayed && kept + sent == sent;
    } else {
      AllButKept(kept[1..], stayed, sent, missed);
      assert (kept + stayed)[1..] == kept[1..] + stayed && (kept + sent)[1..] == kept[1..] + sent;
    }
  }

  lemma {:induction false} AllButLost<T>(lost: seq<T>, stayed: seq<T>, sent: seq<T>, missed: seq<T>)
    requires AllBut(stayed, sent, missed)
    ensures AllBut(stayed, lost + sent, lost + missed)
    decreases |lost|
  {
    if lost == [] {
      assert lost + missed == missed && lost + sent == sent;
    } else {
      AllButLost(lost[1..], stayed, sent, missed);
      assert (lost + missed)[1..] == lost[1..] + missed && (lost + sent)[1..] == lost[1..] + sent;
    }
  }

  /** Nothing but what was lost is missing from what stayed, and both are in the order they came. */
  lemma {:induction false} RunStayed(q: seq<Queued>, calls: seq<Call>, arrivals: seq<Arrival>, who: int)
    ensures
      var h := Calls(q, calls, arrivals);
      AllBut(Stayed(q, calls, arrivals, who), Sent(arrivals[..h.used], who), AllMissed(h.outs, who))
    decreases |calls|
  {
    if calls != [] {
      hide AllBut, Receive, Sent, Kept, Missed, Calls, Stayed, AllMissed, Arrived, Gone, AllGone, Handed, AllHanded;
      FirstCall(q, calls, arrivals, who);
      var r := Receive(q, calls[0], arrivals);
      var rest := arrivals[r.used..];
      var h := Calls(r.queue, calls[1..], rest);
      ReceiveLoses(q, calls[0], arrivals, who);
      RunStayed(r.queue, calls[1..], rest, who);
      ArrivedSplit(arrivals, r.used, h.used, 0, who);
      FirstOutcome(r.out, h.outs, 0, who);
      StayedStep(Sent(arrivals[..Kept(r)], who), Missed(r.out, who), Sent(rest[..h.used], who),
                 Stayed(r.queue, calls[1..], rest, who), AllMissed(h.outs, who));
    }
  }

  lemma StayedStep<T>(kept: seq<T>, lost: seq<T>, sent: seq<T>, stayed: seq<T>, missed: seq<T>)
    requires AllBut(stayed, sent, missed)
    ensures AllBut(kept + stayed, kept + lost + sent, lost + missed)
  {
    AllButLost(lost, stayed, sent, missed);
    AllButKept(kept, stayed, lost + sent, lost + missed);
    assert kept + (lost + sent) == kept + lost + sent;
  }

  // ---------- Where the record keeping falls short ----------

  /**
   * A trigger leaves every Send() record due once exactly when the first
   * record with its id is not a Send() record.
   */
  lemma TriggerSparesSends(q: seq<Queued>, m: Message)
    requires !m.Send?
    requires forall x :: x in q && x.msg.Send? ==> x.count == 0
    ensures (forall x :: x in Putting(q, m) && x.msg.Send? ==> x.count == 0)
       <==> (FirstOf(q, m.pid) < |q| ==> !q[FirstOf(q, m.pid)].msg.Send?)
  {
    var i := FirstOf(q, m.pid);
    if i < |q| {
      var r := Putting(q, m);
      assert r[i] == Bump(q[i]);
      assert r[i] in r;
      forall x | x in r ensures x == r[i] || x in q {
      }
    }
  }

  /** With a shared id one Send() message is handed over twice and the pulse never. */
  lemma SharedIdRepeats(rcvid: nat)
    ensures
      var calls := [Call(7, true), Call(5, true), Call(5, true)];
      var arrivals := [Arrival(Send(5, rcvid), true), Arrival(Pulse(5), true), Arrival(Pulse(7), true)];
      Calls([], calls, arrivals).outs == [Delivered(Pulse(7)), Delivered(Send(5, rcvid)), Delivered(Send(5, rcvid))]
  {
    TwoOnOne(Send(5, rcvid), Pulse(5));
  }

  /** A record counted twice is taken twice, whatever the second message was. */
  lemma TwoOnOne(m: Message, m': Message)
    requires m.pid == m'.pid == 5 && !m'.Send?
    ensures
      var calls := [Call(7, true), Call(5, true), Call(5, true)];
      var arrivals := [Arrival(m, true), Arrival(m', true), Arrival(Pulse(7), true)];
      Calls([], calls, arrivals).outs == [Delivered(Pulse(7)), Delivered(m), Delivered(m)]
  {
    var c7, c5 := Call(7, true), Call(5, true);
    var arrivals := [Arrival(m, true), Arrival(m', true), Arrival(Pulse(7), true)];
    hide Receive, Calls, Stayed, Sent, Kept;
    TwoSetAside(m, m');
    TwoTaken(m);
    assert [c7, c5, c5][1..] == [c5, c5];
    assert arrivals[3..] == [];
    FirstCall([], [c7, c5, c5], arrivals, 0);
  }

  lemma TwoTaken(m: Message)
    requires m.pid == 5
    ensures Calls([Queued(m, 1)], [Call(5, true), Call(5, true)], []).outs == [Delivered(m), Delivered(m)]
  {
    var c5 := Call(5, true);
    assert Calls([], [], []) == History([], [], 0);
    hide Receive, Calls, Stayed, Sent, Kept;
    TakeCounted(m);
    assert [c5, c5][1..] == [c5] && [c5][1..] == [];
    FirstCall([Queued(m, 0)], [c5], [], 0);
    FirstCall([Queued(m, 1)], [c5, c5], [], 0);
  }

  lemma TakeCounted(m: Message)
    requires m.pid == 5
    ensures Receive([Queued(m, 1)], Call(5, true), []) == Received([Queued(m, 0)], Delivered(m), 0)
    ensures Receive([Queued(m, 0)], Call(5, true), []) == Received([], Delivered(m), 0)
  {
  }

  lemma TwoSetAside(m: Message, m': Message)
    requires m.pid == m'.pid == 5 && !m'.Send?
    ensures Receive([], Call(7, true), [Arrival(m, true), Arrival(m', true), Arrival(Pulse(7), true)])
         == Received([Queued(m, 1)], Delivered(Pulse(7)), 3)
  {
    var c, a0, a1, a2 := Call(7, true), Arrival(m, true), Arrival(m', true), Arrival(Pulse(7), true);
    var q1, q2 := [Queued(m, 0)], [Queued(m, 1)];
    assert Putting([], m) == q1 && Putting(q1, m') == q2;
    assert [a0, a1, a2][1..] == [a1, a2] && [a1, a2][1..] == [a2];
    assert !Coalesces([], m);
    hide Putting, Coalesces;
    assert Await(q2, c, [a2]) == Received(q2, Delivered(Pulse(7)), 1);
    assert Await(q1, c, [a1, a2]) == Received(q2, Delivered(Pulse(7)), 2);
    assert Await([], c, [a0, a1, a2]) == Received(q2, Delivered(Pulse(7)), 3);
  }

  predicate Remembers(q: seq<Queued>, m: Message) {
    exists x :: x in q && x.msg == m
  }

  /**
   * A manager's proxy message set aside keeps its receive id, and so can be
   * answered, exactly when no record with its id is queued.
   */
  lemma ProxyRemembered(q: seq<Queued>, m: Message)
    requires m.Proxy? && !Remembers(q, m)
    ensures Remembers(Putting(q, m), m) <==> FirstOf(q, m.pid) == |q|
  {
    var i := FirstOf(q, m.pid);
    var r := Putting(q, m);
    if i < |q| {
      forall x | x in r ensures x.msg != m {
        assert x in q || x == Bump(q[i]);
        assert q[i] in q;
      }
    } else {
      assert r[|q|] == Queued(m, 0);
    }
  }

  /** Two messages for one proxy: the first is taken twice, the second sender is never answered. */
  lemma ProxyForgotten(first: nat, second: nat)
    ensures
      var calls := [Call(7, true), Call(5, true), Call(5, true)];
      var arrivals := [Arrival(Proxy(5, first), true), Arrival(Proxy(5, second), true), Arrival(Pulse(7), true)];
      Calls([], calls, arrivals).outs == [Delivered(Pulse(7)), Delivered(Proxy(5, first)), Delivered(Proxy(5, first))]
  {
    TwoOnOne(Proxy(5, first), Proxy(5, second));
  }

  // ---------- Replies ----------

  /** A received Send() message whose sender waits for a reply. */
  datatype Blocked = Blocked(pid: int, rcvid: nat)

  function BlockedPid(b: Blocked): int {
    b.pid
  }

  /**
   * The receive id behind `pid`, struck off when `remove` is set: one sender
   * of that pid is found exactly when there is one, and none is answered twice.
   */
  method RcvidFromPid(table: Table<Blocked>, pid: int, remove: bool) returns (found: bool, rcvid: nat)
    requires table.Valid() && table.key == BlockedPid
    modifies table
    ensures table.Valid()
    ensures found <==> exists i :: 0 <= i < |old(table.recs)| && old(table.recs)[i].pid == pid
    ensures found ==> Blocked(pid, rcvid) in old(table.recs)
    ensures multiset(table.recs) == multiset(old(table.recs)) - if found && remove then multiset{Blocked(pid, rcvid)} else multiset{}
  {
    rcvid := 0;
    var i := table.GetRecord(pid);
    found := i < |table.recs|;
    if found {
      ghost var was := table.recs;
      rcvid := table.recs[i].rcvid;
      assert BlockedPid(was[i]) == pid;
      if remove {
        DropCount(was, i);
        var _ := table.DeleteAt(i);
      }
    } else {
      assert forall j :: 0 <= j < |table.recs| ==> BlockedPid(table.recs[j]) != pid;
    }
  }
}
