/** The send ring of an asynchronous connection: `asyncmsg_putv`, the kernel's delivery loop, the
    trigger timer, the event thread and `asyncmsg_connect_detach`, as steps that interleave in any
    order. */
module SendRing {

  const EFAULT: int := 14
  const EBADF: int := 9

  /** What a caller puts: buffer, number of parts, handle. */
  datatype Msg = Msg(iov: int, parts: int, handle: nat)

  /** A message with the status its callback reports. */
  datatype Report = Report(err: int, msg: Msg)

  // ----- The ring -----

  /** The number of indices from `a` up to `b` in a ring. */
  function Count(size: nat, a: nat, b: nat): (n: nat)
    requires a <= size
  {
    if a <= b then b - a else size - a + b
  }

  /** The index `i` places after `a`. */
  function At(size: nat, a: nat, i: nat): int {
    if a + i < size then a + i else a + i - size
  }

  /** The elements from index `a` up to index `b`, around the end if need be. */
  function Span(slots: seq<Report>, a: nat, b: nat): (r: seq<Report>)
    requires a <= |slots| && b <= |slots|
    ensures |r| == Count(|slots|, a, b)
    ensures forall i :: 0 <= i < |r| ==> 0 <= At(|slots|, a, i) < |slots| && r[i] == slots[At(|slots|, a, i)]
  {
    seq(Count(|slots|, a, b), i requires 0 <= i < Count(|slots|, a, b) => slots[At(|slots|, a, i)])
  }

  /** The queue of the connection descriptor, open until the drain takes its mutex for good. */
  datatype Queue = Queue(slots: seq<Report>, free: nat, head: nat, tail: nat, curmsg: nat, open: bool) {
    /** Index arithmetic of the ring: `++i >= size` wraps to zero. */
    function After(i: nat): nat {
      if i + 1 >= |slots| then 0 else i + 1
    }

    predicate Indices() {
      if slots == [] then free == 0 && head == 0 && tail == 0
      else free < |slots| && head < |slots| && tail < |slots|
    }

    /** The slots from index `a` up to index `b`, around the end of the ring if need be. */
    function Between(a: nat, b: nat): seq<Report>
      requires a <= |slots| && b <= |slots|
    {
      Span(slots, a, b)
    }

    predicate Cyclic() {
      free <= head <= tail || head <= tail < free || tail < free <= head
    }

    /** `free`, `head` and `tail` in cyclic order, and the count of undelivered messages. */
    predicate Ordered() {
      && Indices()
      && (open ==> Cyclic() && curmsg == |Between(head, tail)|)
    }

    /** The uncollected messages, oldest first. */
    function Held(): seq<Report>
      requires Indices()
    {
      Between(free, tail)
    }
  }

  function EmptyQueue(size: nat): (q: Queue)
    ensures q.Ordered() && q.Held() == [] && |q.slots| == size
  {
    Queue(seq(size, i => Report(0, Msg(0, 0, 0))), 0, 0, 0, 0, true)
  }

  /** The queue is full when the next tail would meet `free`. */
  predicate Full(q: Queue) {
    q.After(q.tail) == q.free
  }

  /** `asyncmsg_putv` with room. */
  function Append(q: Queue, m: Msg): Queue
    requires q.Ordered() && !Full(q)
  {
    q.(slots := q.slots[q.tail := Report(0, m)], tail := q.After(q.tail), curmsg := q.curmsg + 1)
  }

  /** The kernel delivers the message at `head`; a fault at the sender is stored in the slot. */
  function Deliver(q: Queue, fault: bool): Queue
    requires q.Ordered() && q.head != q.tail
  {
    q.(slots := if fault then q.slots[q.head := q.slots[q.head].(err := EFAULT)] else q.slots,
       head := q.After(q.head),
       curmsg := if q.curmsg > 0 then q.curmsg - 1 else 0)
  }

  /** One turn of the event thread's collection loop. */
  function Collect(q: Queue): Queue {
    q.(free := q.After(q.free))
  }

  /** The report of slot `i` in the drain loop of `asyncmsg_connect_detach`, which stamps a message
      that it takes for undelivered. */
  function StampAt(q: Queue, i: nat): Report
    requires i < |q.slots|
  {
    if i >= q.head then q.slots[i].(err := EBADF) else q.slots[i]
  }

  /** One turn of that loop. */
  function Drain(q: Queue): Queue
    requires q.free < |q.slots|
  {
    q.(slots := q.slots[q.free := StampAt(q, q.free)], free := q.After(q.free))
  }

  // ----- How the uncollected messages change -----

  lemma AppendOrdered(q: Queue, m: Msg)
    requires q.Ordered() && !Full(q)
    ensures Append(q, m).Ordered()
  {
    hide Span;
  }

  lemma AppendHeld(q: Queue, m: Msg)
    requires q.Ordered() && !Full(q)
    ensures Append(q, m).Indices()
    ensures Append(q, m).Held() == q.Held() + [Report(0, m)]
    ensures q.open ==> Append(q, m).Between(q.free, q.head) == q.Between(q.free, q.head)
  {
    hide Span;
    SpanExtend(q.slots, q.free, q.tail, Report(0, m));
    if q.open {
      SpanOther(q.slots, q.free, q.head, q.tail, Report(0, m));
    }
  }

  /** Filling the slot behind a range that does not yet fill the ring extends the range. */
  lemma SpanExtend(slots: seq<Report>, a: nat, b: nat, r: Report)
    requires a < |slots| && b < |slots|
    requires (if b + 1 >= |slots| then 0 else b + 1) != a
    ensures Span(slots[b := r], a, if b + 1 >= |slots| then 0 else b + 1) == Span(slots, a, b) + [r]
  {
    hide Span;
  }

  /** A slot outside a range does not matter to it. */
  lemma SpanOther(slots: seq<Report>, a: nat, b: nat, i: nat, r: Report)
    requires a < |slots| && b < |slots| && i < |slots|
    requires if a <= b then i < a || b <= i else b <= i < a
    ensures Span(slots[i := r], a, b) == Span(slots, a, b)
  {
    hide Span;
  }

  /** The first slot of a range that is not empty. */
  lemma SpanFirst(slots: seq<Report>, a: nat, b: nat)
    requires a < |slots| && b < |slots| && a != b
    ensures Span(slots, a, b) == [slots[a]] + Span(slots, if a + 1 >= |slots| then 0 else a + 1, b)
  {
    hide Span;
  }

  lemma SpanEmpty(slots: seq<Report>, a: nat)
    requires a <= |slots|
    ensures Span(slots, a, a) == []
  {
  }

  lemma DeliverOrdered(q: Queue, fault: bool)
    requires q.Ordered() && q.head != q.tail && q.open
    ensures Deliver(q, fault).Ordered() && q.curmsg > 0
  {
    hide Span;
  }

  /** Changing the slot `k` places into a range changes element `k`. */
  lemma SpanChange(slots: seq<Report>, a: nat, b: nat, i: nat, r: Report)
    requires a < |slots| && b < |slots| && i < |slots|
    requires Count(|slots|, a, i) < Count(|slots|, a, b)
    ensures Span(slots, a, b)[Count(|slots|, a, i)] == slots[i]
    ensures Span(slots[i := r], a, b) == Span(slots, a, b)[Count(|slots|, a, i) := r]
  {
    hide Span;
  }

  /** Delivering marks the oldest undelivered message and moves the border past it. */
  lemma DeliverHeld(q: Queue, fault: bool)
    requires q.Ordered() && q.head != q.tail && q.open
    ensures Deliver(q, fault).Indices()
    ensures
      var k, r := |q.Between(q.free, q.head)|, q.slots[q.head];
      && k < |q.Held()| && q.Held()[k] == r
      && Deliver(q, fault).Held() == q.Held()[k := Report(if fault then 14 else r.err, r.msg)]
      && |Deliver(q, fault).Between(q.free, Deliver(q, fault).head)| == k + 1
  {
    hide Span;
    var r := q.slots[q.head];
    var r' := Report(if fault then EFAULT else r.err, r.msg);
    assert Deliver(q, fault).slots == q.slots[q.head := r'];
    SpanChange(q.slots, q.free, q.tail, q.head, r');
  }

  lemma CollectHeld(q: Queue)
    requires q.Ordered() && q.open && q.free != q.head
    ensures q.free < |q.slots| && Collect(q).Ordered()
    ensures q.Held() == [q.slots[q.free]] + Collect(q).Held()
    ensures q.Between(q.free, q.head) == [q.slots[q.free]] + Collect(q).Between(Collect(q).free, q.head)
  {
    hide Span;
    SpanFirst(q.slots, q.free, q.head);
    SpanFirst(q.slots, q.free, q.tail);
  }

  lemma DrainHeld(q: Queue)
    requires q.Ordered() && !q.open && q.free != q.tail
    ensures q.free < |q.slots| && Drain(q).Ordered()
    ensures q.Held() == [q.slots[q.free]] + Drain(q).Held()
  {
    hide Span, StampAt;
    SpanFirst(q.slots, q.free, q.tail);
    SpanOther(q.slots, q.After(q.free), q.tail, q.free, StampAt(q, q.free));
  }

  // ----- Wakeups -----

  /** `trigger_time`: no time at all disables the timer, an interval makes it fire again and again. */
  datatype Time = Never | Once | Every

  /** What gets undelivered messages moving: whether the connection is linked on the channel, the
      timer itself and the flag the library keeps for it, and expiries that the event thread has yet
      to see. The kernel's end of the connection goes away before its handle. */
  datatype Wake = Wake(
    trigger: nat, // trigger_num_msg
    time: Time, // trigger_time
    timerOff: bool,
    armed: bool,
    pulses: nat,
    queued: bool,
    kernel: bool,
    handle: bool)

  /** Somebody will see to the undelivered messages: the receiver, the timer or the event thread. */
  predicate Woken(k: Wake) {
    k.queued || k.armed || k.pulses > 0
  }

  predicate Triggers(k: Wake, n: nat) {
    k.trigger > 0 && n >= k.trigger
  }

  /** `_asyncmsg_put_trigger`, now that there are `n` messages: links the connection or, if its flag
      says the timer is off, sets the timer. */
  function Trigger(k: Wake, n: nat): Wake {
    if Triggers(k, n) then k.(queued := k.queued || k.kernel)
    else if k.timerOff then k.(armed := k.handle && k.time != Never, timerOff := false)
    else k
  }

  /** `MsgSendAsync`, as `asyncmsg_flush` calls it. */
  function Send(k: Wake, n: nat): Wake {
    k.(queued := k.queued || (k.kernel && n > 0))
  }

  /** The timer expires; a periodic one is set again. */
  function Expire(k: Wake): Wake {
    k.(armed := k.time == Every, pulses := k.pulses + 1)
  }

  /** The event thread sees an expiry. */
  function SeeExpiry(k: Wake, n: nat): Wake
    requires k.pulses > 0
  {
    Send(k, n).(timerOff := true, pulses := k.pulses - 1)
  }

  /** What a caller can know of a connection's past: whether a sender fault came after the last put,
      flush or expiry that found messages; whether a flush or expiry found messages since the
      connection was last taken off the channel, and how many messages have been waiting or put since;
      and whether any put stayed below the trigger. */
  datatype Past = Past(cut: bool, roused: bool, batch: nat, timed: bool)

  /** The past has put the connection on the channel. */
  predicate Linked(k: Wake, p: Past) {
    !p.cut && (p.roused || (k.trigger > 0 && p.batch >= k.trigger))
  }

  /** How link, timer and flag follow from the attributes and the past, with `n` messages undelivered
      and, if `any`, a message put before. */
  predicate Follows(k: Wake, p: Past, n: nat, any: bool) {
    k.kernel ==>
      && (k.queued <==> Linked(k, p))
      && (!k.queued ==> p.batch == n && !p.roused)
      && (n > 0 && k.timerOff && !p.cut ==> k.queued)
      && (k.time == Never ==> !k.armed && k.pulses == 0)
      && (k.time == Once ==> (!k.timerOff <==> k.armed || k.pulses > 0) && k.pulses <= 1 && !(k.armed && k.pulses > 0))
      && (k.time == Every ==> (k.armed <==> p.timed) && (!p.timed ==> k.pulses == 0))
      && (!p.timed ==> k.timerOff)
      && (p.roused ==> p.batch > 0) && (p.batch > 0 ==> any)
      && (if k.trigger == 1 then !p.timed else any ==> p.timed)
  }

  // ----- Runs -----

  /** A connection with its history: what was accepted, what the kernel delivered and how, and what was
      handed to a callback. */
  datatype World = World(q: Queue, k: Wake, accepted: seq<Msg>, taken: seq<Report>, collected: seq<Report>, past: Past)

  /** A put, a delivery, the removal of an emptied connection from the channel (at once or, when the
      receiver was preempted, later), a collection, an expiry and its handling, a flush; and the parts
      of a detach: `ConnectDetach`, the deletion of handle and timer, taking the mutex, and the turns
      of the drain. Threads that found the connection before its handle was deleted still use it. */
  datatype Event =
    | EPut(m: Msg) | ETake(fault: bool) | EUnlink | ECollect | EExpire | EPulse | EFlush
    | EDisconnect | EForget | EClose | EDrain

  predicate CanTake(w: World) {
    w.q.open && w.k.kernel && w.k.queued && w.q.head != w.q.tail
  }

  predicate CanCollect(w: World) {
    w.q.open && w.q.free != w.q.head
  }

  predicate Enabled(w: World, e: Event)
    requires w.q.Ordered()
  {
    match e
    case EPut(_) => w.q.open && !Full(w.q)
    case ETake(_) => CanTake(w)
    case EUnlink => w.q.open && w.k.kernel && w.k.queued && w.q.head == w.q.tail
    case ECollect => CanCollect(w)
    case EExpire => w.k.armed
    case EPulse => w.q.open && w.k.pulses > 0
    case EFlush => w.q.open
    case EDisconnect => w.k.kernel
    case EForget => w.k.handle && !w.k.kernel
    case EClose => w.q.open && !w.k.handle
    case EDrain => !w.q.open && w.q.free != w.q.tail
  }

  function Step(w: World, e: Event): World
    requires w.q.Ordered() && Enabled(w, e)
  {
    var q, k, p, n := w.q, w.k, w.past, w.q.curmsg;
    match e
    case EPut(m) =>
      w.(q := Append(q, m), k := Trigger(k, n + 1), accepted := w.accepted + [m], past := PastPut(k, p, n + 1))
    case ETake(fault) =>
      var r := q.slots[q.head];
      w.(q := Deliver(q, fault),
         k := if fault then k.(queued := false) else k,
         taken := w.taken + [if fault then r.(err := EFAULT) else r],
         past := if fault then p.(cut := true, roused := false, batch := if n > 0 then n - 1 else 0) else p)
    case EUnlink => w.(k := k.(queued := false), past := p.(roused := false, batch := 0))
    case ECollect => w.(q := Collect(q), collected := w.collected + [q.slots[q.free]])
    case EExpire => w.(k := Expire(k))
    case EPulse => w.(k := SeeExpiry(k, n), past := PastSend(k, p, n))
    case EFlush => w.(k := Send(k, n), past := PastSend(k, p, n))
    case EDisconnect => w.(k := k.(kernel := false, queued := false))
    case EForget => w.(k := k.(handle := false, armed := false))
    case EClose => w.(q := q.(open := false))
    case EDrain => w.(q := Drain(q), collected := w.collected + [StampAt(q, q.free)])
  }

  function PastPut(k: Wake, p: Past, n: nat): Past {
    p.(cut := false, batch := p.batch + 1, timed := p.timed || !Triggers(k, n))
  }

  function PastSend(k: Wake, p: Past, n: nat): Past {
    if k.kernel && n > 0 then p.(cut := false, roused := true) else p
  }

  function Msgs(rs: seq<Report>): (ms: seq<Msg>)
    ensures |ms| == |rs| && forall i :: 0 <= i < |rs| ==> ms[i] == rs[i].msg
  {
    seq(|rs|, i requires 0 <= i < |rs| => rs[i].msg)
  }

  /** Accepted messages as their callbacks will report them if nothing else goes wrong. */
  function Fresh(ms: seq<Msg>): (rs: seq<Report>)
    ensures |rs| == |ms| && forall i :: 0 <= i < |ms| ==> rs[i] == Report(0, ms[i])
  {
    seq(|ms|, i requires 0 <= i < |ms| => Report(0, ms[i]))
  }

  ghost predicate Statuses(rs: seq<Report>) {
    forall i :: 0 <= i < |rs| ==> rs[i].err == 0 || rs[i].err == EFAULT
  }

  /** Until the drain, only delivered messages are collected, each with the status of its own delivery. */
  ghost predicate Account(q: Queue, accepted: seq<Msg>, taken: seq<Report>, collected: seq<Report>)
    requires q.Indices()
  {
    && |taken| <= |accepted|
    && taken + Fresh(accepted[|taken|..]) == collected + q.Held()
    && |collected| + |q.Between(q.free, q.head)| == |taken|
    && Statuses(taken)
  }

  /** Every accepted message is either collected or held, once, in order. */
  ghost predicate Inv(w: World) {
    && w.q.Ordered()
    && Msgs(w.collected) + Msgs(w.q.Held()) == w.accepted
    && (w.k.kernel ==> w.k.handle) && (w.k.handle ==> w.q.open)
    && (w.q.open ==> Account(w.q, w.accepted, w.taken, w.collected))
    && Follows(w.k, w.past, w.q.curmsg, w.accepted != [])
  }

  // ----- Every step of every party keeps the account -----

  lemma AppendAccount(q: Queue, accepted: seq<Msg>, taken: seq<Report>, collected: seq<Report>, m: Msg)
    requires q.Ordered() && q.open && !Full(q) && Account(q, accepted, taken, collected)
    ensures Append(q, m).Indices() && Account(Append(q, m), accepted + [m], taken, collected)
  {
    AppendHeld(q, m);
    hide Queue.Held, Queue.Between, Queue.Ordered, Append, Full;
    var later, r := accepted[|taken|..], Report(0, m);
    assert (accepted + [m])[|taken|..] == later + [m];
    assert Fresh(later + [m]) == Fresh(later) + [r];
    assert taken + (Fresh(later) + [r]) == taken + Fresh(later) + [r];
    assert collected + (q.Held() + [r]) == collected + q.Held() + [r];
  }

  lemma AppendMsgs(q: Queue, collected: seq<Report>, m: Msg)
    requires q.Ordered() && !Full(q)
    ensures Append(q, m).Indices()
    ensures Msgs(collected) + Msgs(Append(q, m).Held()) == Msgs(collected) + Msgs(q.Held()) + [m]
  {
    AppendHeld(q, m);
    hide Queue.Held, Queue.Between, Queue.Ordered, Append, Full;
    assert Msgs(q.Held() + [Report(0, m)]) == Msgs(q.Held()) + [m];
  }

  lemma DeliverAccount(q: Queue, accepted: seq<Msg>, taken: seq<Report>, collected: seq<Report>, fault: bool)
    requires q.Ordered() && q.open && q.head != q.tail && Account(q, accepted, taken, collected)
    ensures
      var r := Report(if fault then EFAULT else q.slots[q.head].err, q.slots[q.head].msg);
      && Deliver(q, fault).Indices() && Account(Deliver(q, fault), accepted, taken + [r], collected)
      && Msgs(Deliver(q, fault).Held()) == Msgs(q.Held())
    ensures accepted != []
  {
    DeliverHeld(q, fault);
    var k := |q.Between(q.free, q.head)|;
    var r := Report(if fault then EFAULT else q.slots[q.head].err, q.slots[q.head].msg);
    var p := Deliver(q, fault);
    assert p.free == q.free;
    hide Queue.Held, Queue.Between, Queue.Ordered, Deliver;
    DeliverHistory(accepted, taken, collected, q.Held(), k, r);
  }

  /** Delivering the oldest undelivered message settles its status in the history. */
  lemma DeliverHistory(accepted: seq<Msg>, taken: seq<Report>, collected: seq<Report>, held: seq<Report>, k: nat, r: Report)
    requires |taken| <= |accepted| && Statuses(taken)
    requires taken + Fresh(accepted[|taken|..]) == collected + held
    requires |collected| + k == |taken| && k < |held| && r.msg == held[k].msg && (r.err == EFAULT || r == held[k])
    ensures |taken| < |accepted| && Statuses(taken + [r])
    ensures taken + [r] + Fresh(accepted[|taken| + 1..]) == collected + held[k := r]
  {
    var n := |taken|;
    var all := collected + held;
    assert |all| == |accepted|;
    assert all[n] == held[k] && all[n] == (taken + Fresh(accepted[n..]))[n];
    assert taken + [r] + Fresh(accepted[n + 1..]) == all[n := r] by {
      assert Fresh(accepted[n..])[1..] == Fresh(accepted[n + 1..]);
    }
    assert collected + held[k := r] == all[n := r];
  }

  lemma CollectAccount(q: Queue, accepted: seq<Msg>, taken: seq<Report>, collected: seq<Report>)
    requires q.Ordered() && q.open && q.free != q.head && Account(q, accepted, taken, collected)
    ensures q.free < |q.slots| && Collect(q).Indices()
    ensures Account(Collect(q), accepted, taken, collected + [q.slots[q.free]])
  {
    CollectHeld(q);
    var p := Collect(q);
    assert p.head == q.head;
    hide Queue.Held, Queue.Between, Queue.Ordered, Collect;
    var r := q.slots[q.free];
    assert collected + [r] + p.Held() == collected + ([r] + p.Held());
  }

  /** Moving the oldest held message to the collected ones keeps the messages. */
  lemma HandOver(collected: seq<Report>, held: seq<Report>, held': seq<Report>, r: Report, r': Report)
    requires held == [r] + held' && r'.msg == r.msg
    ensures Msgs(collected + [r']) + Msgs(held') == Msgs(collected) + Msgs(held)
  {
    assert Msgs(held) == [r.msg] + Msgs(held');
    assert Msgs(collected + [r']) == Msgs(collected) + [r.msg];
  }

  // ----- and the wakeups -----

  lemma FollowsPut(k: Wake, p: Past, n: nat, any: bool)
    requires Follows(k, p, n, any) && (k.kernel ==> k.handle) && (!any ==> n == 0)
    ensures Follows(Trigger(k, n + 1), PastPut(k, p, n + 1), n + 1, true)
  {
  }

  lemma FollowsTake(k: Wake, p: Past, n: nat, fault: bool)
    requires Follows(k, p, n, true) && n > 0 && k.queued
    ensures
      if fault then Follows(k.(queued := false), p.(cut := true, roused := false, batch := n - 1), n - 1, true)
      else Follows(k, p, n - 1, true)
  {
  }

  lemma FollowsSend(k: Wake, p: Past, n: nat, any: bool)
    requires Follows(k, p, n, any)
    ensures Follows(Send(k, n), PastSend(k, p, n), n, any)
    ensures k.pulses > 0 ==> Follows(SeeExpiry(k, n), PastSend(k, p, n), n, any)
    ensures k.armed ==> Follows(Expire(k), p, n, any)
    ensures k.queued && n == 0 ==> Follows(k.(queued := false), p.(roused := false, batch := 0), 0, any)
  {
  }

  lemma StepPut(w: World, m: Msg)
    requires Inv(w) && Enabled(w, EPut(m))
    ensures Inv(Step(w, EPut(m)))
  {
    AppendOrdered(w.q, m);
    AppendMsgs(w.q, w.collected, m);
    AppendAccount(w.q, w.accepted, w.taken, w.collected, m);
    if w.accepted == [] {
      NothingPut(w);
    }
    FollowsPut(w.k, w.past, w.q.curmsg, w.accepted != []);
    hide Queue.Held, Queue.Between, Queue.Indices, Queue.Cyclic, Follows, Account, Full, Trigger, PastPut;
  }

  lemma NothingPut(w: World)
    requires Inv(w) && w.q.open && w.accepted == []
    ensures w.q.curmsg == 0
  {
    hide Span;
    assert |w.collected + w.q.Held()| == 0;
  }

  lemma StepTake(w: World, fault: bool)
    requires Inv(w) && Enabled(w, ETake(fault))
    ensures Inv(Step(w, ETake(fault)))
  {
    DeliverOrdered(w.q, fault);
    DeliverAccount(w.q, w.accepted, w.taken, w.collected, fault);
    FollowsTake(w.k, w.past, w.q.curmsg, fault);
    hide Queue.Held, Queue.Between, Queue.Indices, Queue.Cyclic, Follows, Account;
  }

  lemma StepCollect(w: World)
    requires Inv(w) && Enabled(w, ECollect)
    ensures Inv(Step(w, ECollect))
  {
    CollectHeld(w.q);
    CollectAccount(w.q, w.accepted, w.taken, w.collected);
    var r := w.q.slots[w.q.free];
    HandOver(w.collected, w.q.Held(), Collect(w.q).Held(), r, r);
    hide Queue.Held, Queue.Between, Queue.Cyclic, Follows, Account;
  }

  lemma StepDrain(w: World)
    requires Inv(w) && Enabled(w, EDrain)
    ensures Inv(Step(w, EDrain))
  {
    DrainHeld(w.q);
    HandOver(w.collected, w.q.Held(), Drain(w.q).Held(), w.q.slots[w.q.free], StampAt(w.q, w.q.free));
    hide Queue.Held, Queue.Between, Queue.Cyclic, Follows, Account;
  }

  lemma StepQuiet(w: World, e: Event)
    requires Inv(w) && Enabled(w, e) && !e.EPut? && !e.ETake? && !e.ECollect? && !e.EDrain?
    ensures Inv(Step(w, e))
  {
    FollowsSend(w.k, w.past, w.q.curmsg, w.accepted != []);
    if e.EUnlink? {
      SpanEmpty(w.q.slots, w.q.tail);
      assert w.q.curmsg == 0;
    }
    assert e.EClose? ==> w.q.(open := false).Held() == w.q.Held();
    hide Queue.Between, Queue.Cyclic, Account, Send, SeeExpiry, Expire, PastSend;
    assert e.EDisconnect? || e.EForget? ==> Follows(Step(w, e).k, w.past, w.q.curmsg, w.accepted != []);
    hide Follows;
  }

  lemma StepInv(w: World, e: Event)
    requires Inv(w) && Enabled(w, e)
    ensures Inv(Step(w, e))
  {
    hide Inv, Step, Enabled;
    match e {
      case EPut(m) => StepPut(w, m);
      case ETake(fault) => StepTake(w, fault);
      case ECollect => StepCollect(w);
      case EDrain => StepDrain(w);
      case _ => StepQuiet(w, e);
    }
  }

  lemma StepFixed(w: World, e: Event)
    requires w.q.Ordered() && Enabled(w, e)
    ensures
      var v := Step(w, e);
      |v.q.slots| == |w.q.slots| && v.k.trigger == w.k.trigger && v.k.time == w.k.time
    ensures e != ETake(true) && !w.past.cut ==> !Step(w, e).past.cut
  {
    hide Span;
  }

  // ----- Every run -----

  /** The worlds that a connection can reach from its creation. */
  ghost predicate Reaches(w: World, es: seq<Event>, w': World)
    decreases |es|
  {
    if es == [] then w' == w
    else w.q.Ordered() && Enabled(w, es[0]) && Reaches(Step(w, es[0]), es[1..], w')
  }

  function Attach(trigger: nat, time: Time): Wake {
    Wake(trigger, time, true, false, 0, false, true, true)
  }

  function Start(size: nat, trigger: nat, time: Time): (w: World)
    ensures Inv(w)
  {
    World(EmptyQueue(size), Attach(trigger, time), [], [], [], Past(false, false, 0, false))
  }

  lemma {:induction false} ReachesInv(w: World, es: seq<Event>, w': World)
    requires Inv(w) && Reaches(w, es, w')
    ensures Inv(w')
    ensures |w'.q.slots| == |w.q.slots| && w'.k.trigger == w.k.trigger && w'.k.time == w.k.time
    ensures ETake(true) !in es && !w.past.cut ==> !w'.past.cut
    decreases |es|
  {
    if es != [] {
      StepInv(w, es[0]);
      StepFixed(w, es[0]);
      assert es[0] in es && forall e :: e in es[1..] ==> e in es;
      hide Step, Inv, Enabled;
      ReachesInv(Step(w, es[0]), es[1..], w');
    }
  }

  /** Safety of every run from creation, whatever comes between the parts of a detach: at most
      `size - 1` slots are in use, the callbacks so far are exactly the oldest accepted messages in
      order, until the drain each carries the status of its own delivery and comes after it, and when
      the drain is done every accepted message has been handed back exactly once. */
  lemma RingSafety(size: nat, trigger: nat, time: Time, es: seq<Event>, w: World)
    requires Reaches(Start(size, trigger, time), es, w)
    ensures w.q.Ordered() && |w.q.Held()| <= (if size == 0 then 0 else size - 1)
    ensures Msgs(w.collected) <= w.accepted
    ensures w.q.open ==> w.collected <= w.taken && Msgs(w.taken) <= w.accepted
    ensures w.q.open ==> w.q.curmsg == |w.accepted| - |w.taken|
    ensures !w.q.open && w.q.free == w.q.tail ==> Msgs(w.collected) == w.accepted
  {
    ReachesInv(Start(size, trigger, time), es, w);
    if w.q.open {
      OpenSafety(w);
    } else {
      hide Span;
    }
  }

  lemma OpenSafety(w: World)
    requires Inv(w) && w.q.open
    ensures w.collected <= w.taken && Msgs(w.taken) <= w.accepted
    ensures w.q.curmsg == |w.accepted| - |w.taken|
  {
    hide Span, Follows;
    var held := w.q.Held();
    assert |w.collected + held| == |w.accepted|;
    TakenPart(w.accepted, w.taken, w.collected, held);
  }

  lemma TakenPart(accepted: seq<Msg>, taken: seq<Report>, collected: seq<Report>, held: seq<Report>)
    requires |collected| <= |taken| <= |accepted|
    requires taken + Fresh(accepted[|taken|..]) == collected + held
    requires Msgs(collected) + Msgs(held) == accepted
    ensures collected <= taken && Msgs(taken) <= accepted
  {
    var all, later := collected + held, Fresh(accepted[|taken|..]);
    assert |taken + later| == |accepted|;
    forall i | 0 <= i < |taken|
      ensures taken[i] == all[i] && taken[i].msg == accepted[i]
    {
      assert taken[i] == (taken + later)[i];
      assert all[i].msg == (Msgs(collected) + Msgs(held))[i];
    }
    assert forall i :: 0 <= i < |collected| ==> collected[i] == all[i];
  }

  /** In every run, undelivered messages have a wakeup coming exactly when the past has put the
      connection on the channel, or a one-shot timer is running, or a periodic one was ever set. */
  lemma Wakeups(size: nat, trigger: nat, time: Time, es: seq<Event>, w: World)
    requires Reaches(Start(size, trigger, time), es, w) && w.k.kernel && w.q.curmsg > 0
    ensures Woken(w.k) <==>
              Linked(w.k, w.past) || (time == Once && !w.k.timerOff) || (time == Every && w.past.timed)
  {
    ReachesInv(Start(size, trigger, time), es, w);
    hide Queue.Ordered, Account;
  }

  /** A connection is on the channel only if messages were waiting or put since it was last taken off. */
  lemma LinkedForMessages(size: nat, trigger: nat, time: Time, es: seq<Event>, w: World)
    requires Reaches(Start(size, trigger, time), es, w) && w.k.kernel && w.k.queued
    ensures w.past.batch > 0 && w.accepted != []
  {
    ReachesInv(Start(size, trigger, time), es, w);
    hide Queue.Ordered, Account;
  }

  /** With a timer the condition is a fault: it must have come after the last put, flush or expiry
      that found messages, with the one-shot timer off or the periodic one never set. */
  lemma TimedWakeups(size: nat, trigger: nat, time: Time, es: seq<Event>, w: World)
    requires Reaches(Start(size, trigger, time), es, w) && w.k.kernel && w.q.curmsg > 0 && time != Never
    ensures !Woken(w.k) <==> w.past.cut && if time == Once then w.k.timerOff else !w.past.timed
  {
    ReachesInv(Start(size, trigger, time), es, w);
    hide Queue.Ordered, Account;
  }

  predicate WokenNow(w: World) {
    w.k.kernel && w.q.curmsg > 0 ==> Woken(w.k)
  }

  /** No run leaves undelivered messages without a wakeup; `faults` admits faults at the sender. */
  ghost predicate AlwaysWoken(size: nat, trigger: nat, time: Time, faults: bool) {
    forall es, w :: Reaches(Start(size, trigger, time), es, w) && (faults || ETake(true) !in es) ==> WokenNow(w)
  }

  const MSG: Msg := Msg(1, 1, 1)

  /** A ring of less than two slots takes no message. */
  lemma TooSmall(w: World)
    requires Inv(w) && |w.q.slots| < 2
    ensures WokenNow(w)
  {
    SpanEmpty(w.q.slots, 0);
    hide Account, Follows;
  }

  /** Without faults, exactly the attributes with a trigger time, or that trigger on every message,
      never leave a message waiting for nobody. */
  lemma WokenWithoutFaults(size: nat, trigger: nat, time: Time)
    ensures AlwaysWoken(size, trigger, time, false) <==> size < 2 || time != Never || trigger == 1
  {
    var w0 := Start(size, trigger, time);
    if size < 2 || time != Never || trigger == 1 {
      forall es, w | Reaches(w0, es, w) && ETake(true) !in es
        ensures WokenNow(w)
      {
        ReachesInv(w0, es, w);
        hide Queue.Ordered, Account, Reaches;
        if size < 2 {
          TooSmall(w);
        }
      }
    } else {
      var w := PutOne(size, trigger);
      assert ETake(true) !in [EPut(MSG)];
      hide Reaches, Start;
    }
  }

  /** With faults, only a periodic timer that the first put sets will do; a ring of two slots holds one
      message at a time, and a fault leaves none waiting. */
  lemma WokenDespiteFaults(size: nat, trigger: nat, time: Time)
    ensures AlwaysWoken(size, trigger, time, true) <==>
              size < 2 || (time == Every && trigger != 1) || (size == 2 && (time != Never || trigger == 1))
  {
    if size < 2 {
      forall es, w | Reaches(Start(size, trigger, time), es, w)
        ensures WokenNow(w)
      {
        ReachesInv(Start(size, trigger, time), es, w);
        hide Reaches, Inv, WokenNow, Start;
        TooSmall(w);
      }
    } else if size == 2 {
      WokenOneByOne(trigger, time);
    } else {
      WokenInBatches(size, trigger, time);
    }
  }

  /** With one message at a time nothing waits behind a fault. */
  predicate Alone(w: World) {
    |w.q.slots| == 2 && (w.k.kernel && w.q.curmsg > 0 ==> !w.past.cut)
  }

  lemma StepAlone(w: World, e: Event)
    requires Inv(w) && Alone(w) && Enabled(w, e)
    ensures Alone(Step(w, e))
  {
    hide Account, Follows;
  }

  lemma {:induction false} RunAlone(w: World, es: seq<Event>, w': World)
    requires Inv(w) && Alone(w) && Reaches(w, es, w')
    ensures Inv(w') && Alone(w')
    decreases |es|
  {
    if es != [] {
      StepInv(w, es[0]);
      StepAlone(w, es[0]);
      hide Inv, Alone, Step, Enabled;
      RunAlone(Step(w, es[0]), es[1..], w');
    }
  }

  lemma WokenOneByOne(trigger: nat, time: Time)
    ensures AlwaysWoken(2, trigger, time, true) <==> time != Never || trigger == 1
  {
    var w0 := Start(2, trigger, time);
    if time != Never || trigger == 1 {
      forall es, w | Reaches(w0, es, w)
        ensures WokenNow(w)
      {
        ReachesInv(w0, es, w);
        RunAlone(w0, es, w);
        hide Queue.Ordered, Account, Reaches;
      }
    } else {
      var w := PutOne(2, trigger);
      hide Reaches, Start;
    }
  }

  lemma WokenInBatches(size: nat, trigger: nat, time: Time)
    requires size >= 3
    ensures AlwaysWoken(size, trigger, time, true) <==> time == Every && trigger != 1
  {
    var w0 := Start(size, trigger, time);
    if time == Every && trigger != 1 {
      forall es, w | Reaches(w0, es, w)
        ensures WokenNow(w)
      {
        ReachesInv(w0, es, w);
        if w.q.open && w.accepted == [] {
          NothingPut(w);
        }
        hide Queue.Ordered, Account, Reaches;
      }
    } else {
      var es, w := Unwoken(size, trigger, time);
      hide Reaches, Start;
    }
  }

  /** A run that leaves a message waiting for nobody, where there is one. */
  lemma Unwoken(size: nat, trigger: nat, time: Time) returns (es: seq<Event>, w: World)
    requires size >= 3 && (time != Every || trigger == 1)
    ensures Reaches(Start(size, trigger, time), es, w) && !WokenNow(w)
  {
    if trigger == 1 {
      w := PutTwoFault(size, time);
      es := [EPut(MSG), EPut(MSG)] + [ETake(true)];
    } else if time == Never {
      w := PutOne(size, trigger);
      es := [EPut(MSG)];
    } else {
      w := TimerFault(size, trigger);
      es := [EPut(MSG), EPut(MSG)] + ([EExpire, EPulse] + [ETake(true)]);
    }
  }

  lemma Run1(w: World, a: Event) returns (w': World)
    requires w.q.Ordered() && Enabled(w, a)
    ensures w' == Step(w, a) && Reaches(w, [a], w')
  {
    hide Enabled, Step, Queue.Ordered;
    w' := Step(w, a);
    assert [a][1..] == [];
  }

  lemma Run2(w: World, a: Event, b: Event) returns (w': World)
    requires w.q.Ordered() && Enabled(w, a)
    requires Step(w, a).q.Ordered() && Enabled(Step(w, a), b)
    ensures w' == Step(Step(w, a), b) && Reaches(w, [a, b], w')
  {
    hide Enabled, Step, Queue.Ordered;
    w' := Run1(Step(w, a), b);
    assert [a, b][1..] == [b];
  }

  lemma {:induction false} ReachesConcat(w: World, a: seq<Event>, mid: World, b: seq<Event>, w': World)
    requires Reaches(w, a, mid) && Reaches(mid, b, w')
    ensures Reaches(w, a + b, w')
    decreases |a|
  {
    if a == [] {
      assert a + b == b;
    } else {
      hide Step, Enabled, Queue.Ordered;
      assert (a + b)[1..] == a[1..] + b;
      ReachesConcat(Step(w, a[0]), a[1..], mid, b, w');
    }
  }

  /** One put below the trigger, and no timer: nobody will come for the message. */
  lemma PutOne(size: nat, trigger: nat) returns (w: World)
    requires size >= 2 && trigger != 1
    ensures Reaches(Start(size, trigger, Never), [EPut(MSG)], w) && !WokenNow(w)
  {
    w := Run1(Start(size, trigger, Never), EPut(MSG));
    hide Reaches, Span;
  }

  /** Two messages put into a new connection. */
  lemma PutTwo(size: nat, trigger: nat, time: Time) returns (w: World)
    requires size >= 3
    ensures Reaches(Start(size, trigger, time), [EPut(MSG), EPut(MSG)], w)
    ensures Inv(w) && w.q.Ordered() && w.q.open && w.q.curmsg == 2 && w.q.head != w.q.tail
    ensures w.k == Trigger(Trigger(Attach(trigger, time), 1), 2)
  {
    var w0 := Start(size, trigger, time);
    StepInv(w0, EPut(MSG));
    StepInv(Step(w0, EPut(MSG)), EPut(MSG));
    w := Run2(w0, EPut(MSG), EPut(MSG));
    hide Span, Reaches, Follows, Account;
  }

  /** Two messages are on the channel, the first one faults: the second waits for nobody. */
  lemma PutTwoFault(size: nat, time: Time) returns (w: World)
    requires size >= 3
    ensures Reaches(Start(size, 1, time), [EPut(MSG), EPut(MSG)] + [ETake(true)], w) && !WokenNow(w)
  {
    var w2 := PutTwo(size, 1, time);
    hide Queue.Ordered, Inv, Start, Reaches;
    w := Run1(w2, ETake(true));
    ReachesConcat(Start(size, 1, time), [EPut(MSG), EPut(MSG)], w2, [ETake(true)], w);
  }

  /** The same after a one-shot timer has put them on the channel. */
  lemma TimerFault(size: nat, trigger: nat) returns (w: World)
    requires size >= 3 && trigger != 1
    ensures Reaches(Start(size, trigger, Once), [EPut(MSG), EPut(MSG)] + ([EExpire, EPulse] + [ETake(true)]), w)
    ensures !WokenNow(w)
  {
    var w2 := PutTwo(size, trigger, Once);
    hide Queue.Ordered, Inv, Start, Reaches;
    var w4 := Run2(w2, EExpire, EPulse);
    w := Run1(w4, ETake(true));
    ReachesConcat(w2, [EExpire, EPulse], w4, [ETake(true)], w);
    ReachesConcat(Start(size, trigger, Once), [EPut(MSG), EPut(MSG)], w2, [EExpire, EPulse] + [ETake(true)], w);
  }

  // ----- Room for a put that waits -----

  /** A delivery that works, a collection, an expiry or its handling: what other parties do unasked. */
  predicate Helps(e: Event) {
    e == ETake(false) || e.ECollect? || e.EExpire? || e.EPulse?
  }

  /** A put that waits for room can be let go by such steps alone. */
  ghost predicate CanRelease(w: World) {
    exists es, w' :: Reaches(w, es, w') && !Full(w'.q) && forall e :: e in es ==> Helps(e)
  }

  /** A full ring of a connected sender. */
  predicate Blocked(w: World) {
    w.k.kernel && |w.q.slots| >= 2 && Full(w.q)
  }

  predicate Moving(w: World) {
    CanCollect(w) || Woken(w.k)
  }

  /** What a step of a helper makes possible stays possible before it. */
  lemma ReleaseBefore(w: World, e: Event)
    requires w.q.Ordered() && Enabled(w, e) && Helps(e) && CanRelease(Step(w, e))
    ensures CanRelease(w)
  {
    hide Step, Enabled, Queue.Ordered, Full, Helps, Reaches;
    var es, w' :| Reaches(Step(w, e), es, w') && !Full(w'.q) && forall e :: e in es ==> Helps(e);
    var w1 := Run1(w, e);
    ReachesConcat(w, [e], w1, es, w');
    assert forall f :: f in [e] + es ==> Helps(f);
  }

  lemma Released(w: World)
    requires !Full(w.q)
    ensures CanRelease(w)
  {
    hide Full, Helps;
    assert Reaches(w, [], w) && forall e :: e in [] ==> Helps(e);
  }

  /** Collecting one message makes room. */
  lemma CollectReleases(w: World)
    requires Inv(w) && Blocked(w) && CanCollect(w)
    ensures CanRelease(w)
  {
    hide Span, Account, Follows, CanRelease;
    Released(Step(w, ECollect));
    ReleaseBefore(w, ECollect);
  }

  /** A step in a full ring makes room or leaves it full with something on the way. */
  lemma StepMoves(w: World, e: Event)
    requires Inv(w) && Blocked(w) && Moving(w) && Enabled(w, e) && e != EDisconnect
    ensures !Full(Step(w, e).q) || (Blocked(Step(w, e)) && Moving(Step(w, e)))
    ensures e.ETake? ==> CanCollect(Step(w, e))
    ensures e.EPulse? ==> Step(w, e).k.queued || CanCollect(Step(w, e))
  {
    hide Span, Account, Follows;
  }

  /** A full ring in motion is let go: by the event thread, after a delivery, after it has seen an
      expiry, after the timer. */
  lemma MovingReleases(w: World)
    requires Inv(w) && Blocked(w) && Moving(w)
    ensures CanRelease(w)
    decreases if CanCollect(w) then 0 else if w.k.queued then 1 else if w.k.pulses > 0 then 2 else 3
  {
    if CanCollect(w) {
      CollectReleases(w);
    } else {
      var e := if w.k.queued then ETake(false) else if w.k.pulses > 0 then EPulse else EExpire;
      assert Enabled(w, e) by { hide Span, Account, Follows, CanRelease; }
      StepInv(w, e);
      StepMoves(w, e);
      if Full(Step(w, e).q) {
        assert w.k.kernel && e.EExpire? ==> Step(w, e).k.pulses > 0;
        hide Inv, CanRelease, Enabled, Queue.Ordered, Full;
        MovingReleases(Step(w, e));
      } else {
        Released(Step(w, e));
      }
      hide Inv, Step, Enabled, CanRelease;
      ReleaseBefore(w, e);
    }
  }

  /** A full ring at rest stays as it is until a flush or the detach. */
  lemma RestStays(w: World, es: seq<Event>, w': World)
    requires Inv(w) && Blocked(w) && !Moving(w) && Reaches(w, es, w')
    requires EFlush !in es && EDisconnect !in es
    ensures es == []
  {
    forall e | e in es
      ensures !Enabled(w, e)
    {
      AtRest(w, e);
    }
    hide Inv, Enabled;
  }

  lemma AtRest(w: World, e: Event)
    requires Inv(w) && Blocked(w) && !Moving(w) && e != EFlush && e != EDisconnect
    ensures !Enabled(w, e)
  {
    hide Span, Account, Follows;
  }

  /** In every run a put that waits for room can be let go without a flush if and only if something is
      delivered already or the rest has a wakeup; else no other step is possible at all. */
  lemma FullProgress(size: nat, trigger: nat, time: Time, es: seq<Event>, w: World)
    requires Reaches(Start(size, trigger, time), es, w) && Blocked(w)
    ensures CanRelease(w) <==> Moving(w)
    ensures !Moving(w) ==>
              forall fs, w' :: Reaches(w, fs, w') && EFlush !in fs && EDisconnect !in fs ==> fs == []
  {
    ReachesInv(Start(size, trigger, time), es, w);
    if Moving(w) {
      MovingReleases(w);
    } else {
      forall fs, w' | Reaches(w, fs, w') && EFlush !in fs && EDisconnect !in fs
        ensures fs == []
      {
        RestStays(w, fs, w');
      }
    }
  }

  /** The ring is full before and after every one of these steps. */
  ghost predicate StaysFull(w: World, es: seq<Event>)
    decreases |es|
  {
    Full(w.q) && (es == [] || (w.q.Ordered() && Enabled(w, es[0]) && StaysFull(Step(w, es[0]), es[1..])))
  }

  /** Until it is let go or the connection is taken away, a put that can be let go still can, whatever
      others do, faults included. */
  lemma {:induction false} StillReleasable(w: World, es: seq<Event>, w': World)
    requires Inv(w) && Blocked(w) && Moving(w)
    requires Reaches(w, es, w') && StaysFull(w, es) && EDisconnect !in es
    ensures Blocked(w') && Moving(w') && CanRelease(w')
    decreases |es|
  {
    if es != [] {
      var e := es[0];
      assert e in es && forall f :: f in es[1..] ==> f in es;
      StepInv(w, e);
      StepMoves(w, e);
      hide Inv, Step, Enabled, Full;
      StillReleasable(Step(w, e), es[1..], w');
    } else {
      MovingReleases(w);
    }
  }

  /** Nothing has been delivered, and nothing is about to be. */
  ghost predicate Untouched(w: World) {
    !Woken(w.k) && w.taken == []
  }

  /** With no trigger time and a trigger that the ring cannot hold, or none, only a flush ever gets a
      message delivered. */
  lemma {:induction false} NeverDelivered(w: World, es: seq<Event>, w': World)
    requires Reaches(w, es, w') && Inv(w) && Untouched(w) && w.k.time == Never
    requires w.k.trigger == 0 || w.k.trigger >= |w.q.slots|
    requires EFlush !in es
    ensures Untouched(w')
    decreases |es|
  {
    if es != [] {
      var e := es[0];
      assert e in es && forall f :: f in es[1..] ==> f in es;
      StepInv(w, e);
      StepFixed(w, e);
      StepUntouched(w, e);
      hide Inv, Step, Enabled, Untouched;
      NeverDelivered(Step(w, e), es[1..], w');
    }
  }

  lemma StepUntouched(w: World, e: Event)
    requires Inv(w) && Untouched(w) && Enabled(w, e) && w.k.time == Never && e != EFlush
    requires w.k.trigger == 0 || w.k.trigger >= |w.q.slots|
    ensures Untouched(Step(w, e))
  {
    hide Span, Account, Follows;
  }

  // ----- The drain's reports -----

  /** The slots as the drain reports them. */
  function Stamps(q: Queue): (r: seq<Report>)
    ensures |r| == |q.slots| && forall i :: 0 <= i < |r| ==> r[i] == StampAt(q, i)
  {
    seq(|q.slots|, i requires 0 <= i < |q.slots| => StampAt(q, i))
  }

  /** Everything a drain reports. */
  function Drained(q: Queue): seq<Report>
    requires q.Indices()
  {
    Span(Stamps(q), q.free, q.tail)
  }

  function Rejected(rs: seq<Report>): (r: seq<Report>)
    ensures |r| == |rs| && forall i :: 0 <= i < |r| ==> r[i] == rs[i].(err := 9)
  {
    seq(|rs|, i requires 0 <= i < |rs| => rs[i].(err := EBADF))
  }

  /** The reports that would be right: delivered messages keep their status, the others are rejected. */
  function Right(q: Queue): seq<Report>
    requires q.Indices()
  {
    q.Between(q.free, q.head) + Rejected(q.Between(q.head, q.tail))
  }

  /** In every run the slots that the drain will find carry no rejection yet. */
  lemma HeldStatuses(w: World)
    requires Inv(w) && w.q.open
    ensures Statuses(w.q.Held())
  {
    hide Span, Follows;
    var held, n := w.q.Held(), |w.collected|;
    forall i | 0 <= i < |held| ensures held[i].err == 0 || held[i].err == EFAULT {
      assert held[i] == (w.collected + held)[n + i];
      assert held[i] == (w.taken + Fresh(w.accepted[|w.taken|..]))[n + i];
    }
  }

  /** The drain reports a rejection for exactly the undelivered messages if and only if neither part
      of the ring wraps: its comparison of indices is not cyclic. */
  lemma StampsExact(q: Queue)
    requires q.Ordered() && q.open && Statuses(q.Held())
    ensures Drained(q) == Right(q) <==> q.free <= q.head && (q.head <= q.tail || q.tail == 0)
  {
    hide Span;
    if q.free <= q.head && (q.head <= q.tail || q.tail == 0) {
      StampsStraight(q);
    } else if q.free > q.head {
      assert Drained(q)[0].err == EBADF;
      assert q.Held()[0] == q.slots[q.free] == Right(q)[0];
    } else {
      var k := |q.slots| - q.free;
      assert q.Held()[k] == q.slots[0] == Drained(q)[k];
      assert Right(q)[k].err == EBADF;
    }
  }

  lemma StampsStraight(q: Queue)
    requires q.Ordered() && q.open && q.free <= q.head && (q.head <= q.tail || q.tail == 0)
    ensures Drained(q) == Right(q)
  {
    hide Span;
    var first, n := |q.Between(q.free, q.head)|, |q.Held()|;
    assert |Right(q)| == n;
    forall i | 0 <= i < n ensures Drained(q)[i] == Right(q)[i] {
      assert Drained(q)[i] == StampAt(q, At(|q.slots|, q.free, i));
    }
  }

  lemma DrainedMsgs(q: Queue)
    requires q.Indices()
    ensures Msgs(Drained(q)) == Msgs(q.Held())
  {
    hide Span;
  }

  /** A drain turn reports the next stamped slot and leaves the other stamps as they are. */
  lemma DrainedStep(q: Queue)
    requires q.Ordered() && !q.open && q.free != q.tail
    ensures q.free < |q.slots| && Drain(q).Indices()
    ensures Stamps(Drain(q)) == Stamps(q)
    ensures Drained(q) == [StampAt(q, q.free)] + Drained(Drain(q))
  {
    hide Span;
    assert Stamps(Drain(q)) == Stamps(q);
    SpanFirst(Stamps(q), q.free, q.tail);
  }

  /** Once the drain has the mutex, every step adds to the callbacks what it takes off the drain's reports. */
  lemma {:induction false} ClosedRun(w: World, es: seq<Event>, w': World)
    requires w.q.Ordered() && !w.q.open && Reaches(w, es, w')
    ensures w'.q.Ordered() && !w'.q.open && w'.collected + Drained(w'.q) == w.collected + Drained(w.q)
    decreases |es|
  {
    if es != [] {
      ClosedStep(w, es[0]);
      hide Step, Enabled, Drained, Queue.Ordered;
      ClosedRun(Step(w, es[0]), es[1..], w');
    }
  }

  lemma ClosedStep(w: World, e: Event)
    requires w.q.Ordered() && !w.q.open && Enabled(w, e)
    ensures
      var v := Step(w, e);
      v.q.Ordered() && !v.q.open && v.collected + Drained(v.q) == w.collected + Drained(w.q)
  {
    hide Drained, Span;
    if e.EDrain? {
      DrainedStep(w.q);
      var r := StampAt(w.q, w.q.free);
      assert w.collected + ([r] + Drained(Drain(w.q))) == w.collected + [r] + Drained(Drain(w.q));
    }
  }

  /** A drain that is done has called back with its reports, in order. */
  lemma DrainRun(w: World, rest: seq<Event>, w': World)
    requires w.q.Ordered() && Enabled(w, EClose) && Reaches(Step(w, EClose), rest, w') && w'.q.free == w'.q.tail
    ensures w'.collected == w.collected + Drained(w.q)
  {
    hide Drained, Span, Reaches;
    CloseDrained(w.q);
    ClosedRun(Step(w, EClose), rest, w');
    NothingDrained(w'.q);
    assert w'.collected + [] == w'.collected;
  }

  /** In every run: what a drain would report now is right if and only if neither part of the ring wraps. */
  lemma RunStamps(size: nat, trigger: nat, time: Time, es: seq<Event>, w: World)
    requires Reaches(Start(size, trigger, time), es, w) && w.q.open
    ensures w.q.Ordered()
    ensures Drained(w.q) == Right(w.q) <==> w.q.free <= w.q.head && (w.q.head <= w.q.tail || w.q.tail == 0)
  {
    hide Reaches, Start, Drained, Right, Statuses, Follows, Account, Queue.Cyclic;
    ReachesInv(Start(size, trigger, time), es, w);
    HeldStatuses(w);
    StampsExact(w.q);
  }

  /** In every run that a detach brings to its end, the callbacks of the drain are right if and only if
      neither part of the ring wrapped when the drain took the mutex. */
  lemma DetachReports(size: nat, trigger: nat, time: Time, es: seq<Event>, w: World, rest: seq<Event>, w': World)
    requires Reaches(Start(size, trigger, time), es, w) && w.q.Ordered() && Enabled(w, EClose)
    requires Reaches(Step(w, EClose), rest, w') && w'.q.free == w'.q.tail
    ensures w'.collected == w.collected + Drained(w.q)
    ensures w'.collected == w.collected + Right(w.q) <==>
              w.q.free <= w.q.head && (w.q.head <= w.q.tail || w.q.tail == 0)
  {
    hide Reaches, Start, Drained, Right, Queue.Cyclic, Span;
    RunStamps(size, trigger, time, es, w);
    DrainRun(w, rest, w');
    SameTail(w.collected, Drained(w.q), Right(w.q));
  }

  lemma SameTail<T>(a: seq<T>, b: seq<T>, c: seq<T>)
    ensures a + b == a + c <==> b == c
  {
    if a + b == a + c {
      assert b == (a + b)[|a|..] == (a + c)[|a|..] == c;
    }
  }

  /** A message put, delivered and collected. */
  function Turn(): seq<Event> {
    [EPut(MSG), ETake(false)] + [ECollect]
  }

  function Detach(): seq<Event> {
    [EDisconnect, EForget] + ([EClose, EDrain] + [EDrain])
  }

  /** Wrapped, the drain reports success for a message that was never delivered. */
  lemma WrapMisreports() returns (w: World)
    ensures Reaches(Start(3, 1, Never), Turn() + (Turn() + ([EPut(MSG), EPut(MSG)] + Detach())), w)
    ensures |w.taken| == 2 && |w.collected| == 4 && w.collected[3].err == 0
  {
    var s0 := Start(3, 1, Never);
    hide Inv, Reaches, Turn, Detach, Queue.Ordered, Span;
    assert Idle(s0) && s0.q.free == 0;
    assert s0.taken == s0.collected == [];
    hide Start;
    var s1 := TakeTurn(s0);
    var s2 := TakeTurn(s1);
    assert s2.q.free == 2;
    hide Idle;
    var s3 := PutPut(s2);
    w := DetachAll(s3);
    ReachesConcat(s2, [EPut(MSG), EPut(MSG)], s3, Detach(), w);
    ReachesConcat(s1, Turn(), s2, [EPut(MSG), EPut(MSG)] + Detach(), w);
    ReachesConcat(s0, Turn(), s1, Turn() + ([EPut(MSG), EPut(MSG)] + Detach()), w);
  }

  /** A ring of three that triggers on every message, with nothing in it. */
  predicate Idle(w: World) {
    && |w.q.slots| == 3 && w.q.open && w.q.free == w.q.head == w.q.tail
    && w.k.kernel && w.k.handle && w.k.trigger == 1
  }

  lemma TakeTurn(w: World) returns (w': World)
    requires Inv(w) && Idle(w)
    ensures Reaches(w, Turn(), w') && Inv(w') && Idle(w')
    ensures w'.q.free == w.q.After(w.q.tail)
    ensures |w'.taken| == |w.taken| + 1 && |w'.collected| == |w.collected| + 1
  {
    var w1 := Step(w, EPut(MSG));
    StepInv(w, EPut(MSG));
    StepInv(w1, ETake(false));
    hide Span, Account, Follows, Reaches;
    var w2 := Run2(w, EPut(MSG), ETake(false));
    StepInv(w2, ECollect);
    w' := Run1(w2, ECollect);
    ReachesConcat(w, [EPut(MSG), ETake(false)], w2, [ECollect], w');
  }

  lemma PutPut(w: World) returns (w': World)
    requires Inv(w) && Idle(w) && w.q.free == 2
    ensures Reaches(w, [EPut(MSG), EPut(MSG)], w') && w'.q.Ordered() && w'.k.kernel && w'.k.handle && w'.q.open
    ensures |w'.q.slots| == 3 && w'.q.free == w'.q.head == 2 && w'.q.tail == 1 && w'.q.slots[0].err == 0
    ensures w'.taken == w.taken && w'.collected == w.collected
  {
    StepInv(w, EPut(MSG));
    StepInv(Step(w, EPut(MSG)), EPut(MSG));
    hide Span, Account, Follows, Reaches;
    w' := Run2(w, EPut(MSG), EPut(MSG));
  }

  lemma DetachAll(w: World) returns (w': World)
    requires w.q.Ordered() && w.k.kernel && w.k.handle && w.q.open
    requires |w.q.slots| == 3 && w.q.free == w.q.head == 2 && w.q.tail == 1 && w.q.slots[0].err == 0
    ensures Reaches(w, Detach(), w')
    ensures w'.taken == w.taken && |w'.collected| == |w.collected| + 2 && w'.collected[|w.collected| + 1].err == 0
  {
    hide Span, Reaches;
    var w4 := Run2(w, EDisconnect, EForget);
    var w6 := Run2(w4, EClose, EDrain);
    w' := Run1(w6, EDrain);
    ReachesConcat(w4, [EClose, EDrain], w6, [EDrain], w');
    ReachesConcat(w, [EDisconnect, EForget], w4, [EClose, EDrain] + [EDrain], w');
  }

  // ----- The descriptor as the library changes it -----

  datatype PutResult = ACCEPTED | EAGAIN | WAIT

  class Connection {
    var sendq: array<Report>
    var free: nat
    var head: nat
    var tail: nat
    var curmsg: nat
    var open: bool
    const trigger: nat
    const time: Time
    var timerOff: bool
    var armed: bool
    var pulses: nat
    var queued: bool
    var kernel: bool
    var handle: bool

    ghost function Q(): Queue
      reads this`sendq, this`free, this`head, this`tail, this`curmsg, this`open, sendq
    {
      Queue(sendq[..], free, head, tail, curmsg, open)
    }

    ghost function K(): Wake
      reads this`timerOff, this`armed, this`pulses, this`queued, this`kernel, this`handle
    {
      Wake(trigger, time, timerOff, armed, pulses, queued, kernel, handle)
    }

    /** `asyncmsg_connect_attach`. */
    constructor (size: nat, trigger: nat, time: Time)
      ensures Q() == EmptyQueue(size) && K() == Attach(trigger, time) && fresh(sendq)
    {
      sendq := new Report[size](i => Report(0, Msg(0, 0, 0)));
      free, head, tail, curmsg, open := 0, 0, 0, 0, true;
      this.trigger, this.time := trigger, time;
      timerOff, armed, pulses, queued := true, false, 0, false;
      kernel, handle := true, true;
      new;
      assert sendq[..] == seq(size, i => Report(0, Msg(0, 0, 0)));
    }

    /** One locked pass of `asyncmsg_putv`: a full queue is refused, or waited for. */
    method Putv(m: Msg, nonblock: bool) returns (r: PutResult)
      requires Q().Ordered()
      modifies this`tail, this`curmsg, this`timerOff, this`armed, this`queued, sendq
      ensures r == ACCEPTED <==> !Full(old(Q()))
      ensures r == ACCEPTED ==> Q() == Append(old(Q()), m) && K() == Trigger(old(K()), curmsg)
      ensures r != ACCEPTED ==> Q() == old(Q()) && K() == old(K()) && (r == EAGAIN <==> nonblock)
    {
      hide Span;
      var newTail := tail + 1;
      if newTail >= sendq.Length {
        newTail := 0;
      }
      if newTail == free {
        return if nonblock then EAGAIN else WAIT;
      }
      sendq[tail] := Report(0, m);
      tail := newTail;
      PutTrigger();
      return ACCEPTED;
    }

    /** `_asyncmsg_put_trigger`. */
    method PutTrigger()
      modifies this`curmsg, this`timerOff, this`armed, this`queued
      ensures curmsg == old(curmsg) + 1 && K() == Trigger(old(K()), curmsg)
    {
      curmsg := curmsg + 1;
      if trigger > 0 && curmsg >= trigger {
        queued := queued || kernel;
        return;
      }
      if timerOff {
        armed := handle && time != Never;
        timerOff := false;
      }
    }

    /** The event thread sees that the timer expired. */
    method TakePulse()
      requires pulses > 0
      modifies this`pulses, this`queued, this`timerOff
      ensures K() == SeeExpiry(old(K()), curmsg)
    {
      pulses := pulses - 1;
      if curmsg > 0 {
        queued := queued || kernel;
      }
      timerOff := true;
    }

    /** One turn of the event thread's collection loop, under the mutex. */
    method CollectOne() returns (call: Report)
      requires Q().Ordered() && open && free != head
      modifies this`free
      ensures Q() == Collect(old(Q()))
      ensures call == old(sendq[free])
    {
      hide Span;
      call := sendq[free];
      free := if free + 1 >= sendq.Length then 0 else free + 1;
    }

    /** The whole loop: calls back for every delivered slot in order. */
    method CollectAll() returns (calls: seq<Report>)
      requires Q().Ordered() && open
      modifies this`free
      ensures Q() == old(Q()).(free := head) && Q().Ordered()
      ensures calls == old(Q()).Between(old(free), head)
    {
      hide Span;
      calls := [];
      ghost var start := Q();
      while free != head
        invariant Q() == start.(free := free) && Q().Ordered()
        invariant calls + Q().Between(free, head) == start.Between(start.free, head)
        decreases |Q().Between(free, head)|
      {
        ghost var q, before := Q(), calls;
        CollectHeld(q);
        var call := CollectOne();
        calls := calls + [call];
        assert calls + Q().Between(free, head) == before + ([call] + Q().Between(free, head));
      }
      SpanEmpty(sendq[..], head);
      assert calls + [] == calls;
    }

    /** One turn of the drain loop of `asyncmsg_connect_detach`. */
    method DrainOne() returns (call: Report)
      requires Q().Ordered() && !open && free != tail
      modifies this`free, sendq
      ensures Q() == Drain(old(Q()))
      ensures call == StampAt(old(Q()), old(free))
    {
      hide Span;
      if free >= head {
        sendq[free] := sendq[free].(err := EBADF);
      }
      call := sendq[free];
      assert sendq[..] == old(sendq[..])[free := call];
      free := if free + 1 >= sendq.Length then 0 else free + 1;
    }

    /** The locked part of `asyncmsg_connect_detach`: calls back for everything left, in order, with
        the statuses that its comparison of indices gives. */
    method DrainAll() returns (calls: seq<Report>)
      requires Q().Ordered() && !handle && open
      modifies this`free, this`open, sendq
      ensures !open && free == tail && Q().Ordered()
      ensures calls == Drained(old(Q())) && Msgs(calls) == Msgs(old(Q()).Held())
    {
      hide Span, StampAt, Drain, Drained;
      DrainedMsgs(Q());
      open := false;
      calls := [];
      ghost var start := Q();
      CloseDrained(old(Q()));
      while free != tail
        invariant Q().Ordered() && !open
        invariant calls + Drained(Q()) == Drained(start)
        decreases |Q().Held()|
      {
        DrainTurn(Q(), calls);
        var call := DrainOne();
        calls := calls + [call];
      }
      NothingDrained(Q());
      assert calls + [] == calls;
    }
  }

  lemma DrainTurn(q: Queue, calls: seq<Report>)
    requires q.Ordered() && !q.open && q.free != q.tail
    ensures q.free < |q.slots| && Drain(q).Ordered() && |Drain(q).Held()| < |q.Held()|
    ensures calls + [StampAt(q, q.free)] + Drained(Drain(q)) == calls + Drained(q)
  {
    hide Drained, Span;
    DrainHeld(q);
    DrainedStep(q);
    var r := StampAt(q, q.free);
    assert calls + ([r] + Drained(Drain(q))) == calls + [r] + Drained(Drain(q));
  }

  lemma CloseDrained(q: Queue)
    requires q.Indices()
    ensures Drained(q.(open := false)) == Drained(q)
  {
    assert Stamps(q.(open := false)) == Stamps(q);
  }

  lemma NothingDrained(q: Queue)
    requires q.Indices() && q.free == q.tail
    ensures Drained(q) == []
  {
  }
}
