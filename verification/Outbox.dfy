// Sending on a connection: the queue for messages the codec cannot take yet, and what becomes
// of every message, over reconnects.
module Outbox {

  const MAX_OUTBOX_LEN: nat := 64
  const OUTBOX_WARN_THRESHOLD: nat := 8

  // How an attempt to send ends.
  datatype Send = Confirmed | Pending | Discarded | ConnectionLost | OtherError

  // What the task wakes up for; o is how sending ends if something is sent.
  datatype Event =
    | Established
    | Decoded(o: Send)
    | Closed
    | RecvError(connectionLost: bool)
    | Submitted(o: Send)
    | Tick(o: Send)
    | Elsewhere
    | Cancelled

  datatype Phase = Up | Down | Stopped

  // Messages stand for their numbers in the order of arrival. Each list says in which order
  // messages came to that end.
  datatype Line = Line(
    phase: Phase, queue: seq<nat>, warned: bool, arrived: nat,
    confirmed: seq<nat>, discarded: seq<nat>, failed: seq<nat>, overflowed: seq<nat>, abandoned: seq<nat>)

  const IDLE: Line := Line(Down, [], false, 0, [], [], [], [], [])

  // ---- One step ---------------------------------------------------------------------------------

  function Enqueue(l: Line, m: nat): Line {
    var k := if |l.queue| >= MAX_OUTBOX_LEN
             then l.(queue := l.queue[1..], overflowed := l.overflowed + [l.queue[0]])
             else l;
    var q := k.queue + [m];
    k.(queue := q, warned := k.warned || |q| > OUTBOX_WARN_THRESHOLD)
  }

  // The connection is dead: what is still queued is given up.
  function Reconnect(l: Line): Line {
    l.(phase := Down, queue := [], abandoned := l.abandoned + l.queue)
  }

  // The front of the queue is tried.
  function Drain(l: Line, o: Send): Line {
    if l.queue == [] then l
    else
      var m, rest := l.queue[0], l.queue[1..];
      match o
      case Confirmed => l.(queue := rest, confirmed := l.confirmed + [m])
      case Pending => l
      case Discarded => l.(queue := rest, discarded := l.discarded + [m])
      case ConnectionLost => Reconnect(l)
      case OtherError => l.(queue := rest, failed := l.failed + [m])
  }

  function Submit(l: Line, o: Send): Line {
    var m := l.arrived;
    var k := l.(arrived := m + 1);
    if l.queue != [] then Drain(Enqueue(k, m), o)
    else
      match o
      case Confirmed => k.(confirmed := k.confirmed + [m])
      case Pending => Enqueue(k, m)
      case Discarded => k.(discarded := k.discarded + [m])
      case ConnectionLost => Reconnect(k.(failed := k.failed + [m]))
      case OtherError => k.(failed := k.failed + [m])
  }

  // Nothing but a new connection is waited for while the line is down.
  function Step(l: Line, e: Event): Line {
    match l.phase
    case Stopped => l
    case Down =>
      if e == Established then l.(phase := Up, warned := false)
      else if e == Cancelled then l.(phase := Stopped)
      else l
    case Up =>
      match e
      case Established => l
      case Decoded(o) => Drain(l, o)
      case Closed => Reconnect(l)
      case RecvError(connectionLost) => if connectionLost then Reconnect(l) else l
      case Submitted(o) => Submit(l, o)
      case Tick(o) => Drain(l, o)
      case Elsewhere => l
      case Cancelled => l.(phase := Stopped)
  }

  function Run(l: Line, es: seq<Event>): Line {
    if es == [] then l else Step(Run(l, es[..|es| - 1]), es[|es| - 1])
  }

  // ---- What every run keeps ------------------------------------------------------------------------

  predicate Increasing(s: seq<nat>) {
    forall i, j | 0 <= i < j < |s| :: s[i] < s[j]
  }

  predicate AllBelow(s: seq<nat>, n: nat) {
    forall x | x in s :: x < n
  }

  // Everything older than this has come to an end.
  function Oldest(l: Line): nat { if l.queue == [] then l.arrived else l.queue[0] }

  function Fates(l: Line): multiset<nat> {
    Total(multiset(l.confirmed), multiset(l.discarded), multiset(l.failed), multiset(l.overflowed),
          multiset(l.abandoned), multiset(l.queue))
  }

  function Total(c: multiset<nat>, d: multiset<nat>, f: multiset<nat>,
                 o: multiset<nat>, a: multiset<nat>, q: multiset<nat>): multiset<nat> {
    c + d + f + o + a + q
  }

  function FirstNumbers(n: nat): seq<nat> {
    if n == 0 then [] else FirstNumbers(n - 1) + [n - 1]
  }

  // Every message that arrived has exactly one fate.
  ghost predicate OneFate(l: Line) {
    Fates(l) == multiset(FirstNumbers(l.arrived))
  }

  // Messages are confirmed in the order of their arrival, none of them twice, and none that is
  // still queued is older than one that has come to an end.
  ghost predicate Ordered(l: Line) {
    && Increasing(l.queue) && AllBelow(l.queue, l.arrived)
    && Increasing(l.confirmed) && AllBelow(l.confirmed, Oldest(l))
    && AllBelow(l.discarded, Oldest(l)) && AllBelow(l.failed, Oldest(l))
    && AllBelow(l.overflowed, Oldest(l)) && AllBelow(l.abandoned, Oldest(l))
  }

  // Only a message that 64 newer ones were queued behind is dropped for want of room.
  ghost predicate Bounded(l: Line) {
    && |l.queue| <= MAX_OUTBOX_LEN
    && (forall m | m in l.overflowed :: m + MAX_OUTBOX_LEN < l.arrived)
    && (|l.queue| > OUTBOX_WARN_THRESHOLD ==> l.warned)
    && (l.phase == Down ==> l.queue == [])
  }

  lemma IncreasingGap(s: seq<nat>, i: nat)
    requires Increasing(s) && i < |s|
    ensures s[i] >= s[0] + i
  {
    if i > 0 {
      IncreasingGap(s, i - 1);
    }
  }

  lemma IncreasingSnoc(s: seq<nat>, m: nat)
    requires Increasing(s) && AllBelow(s, m)
    ensures Increasing(s + [m])
  {
    forall i, j | 0 <= i < j < |s + [m]| ensures (s + [m])[i] < (s + [m])[j] {
      assert (s + [m])[i] == s[i] && s[i] in s;
    }
  }

  lemma IncreasingTail(s: seq<nat>)
    requires Increasing(s) && s != []
    ensures Increasing(s[1..]) && forall x | x in s[1..] :: s[0] < x
  {}

  ghost predicate Good(l: Line) {
    Ordered(l) && Bounded(l) && OneFate(l)
  }

  // A message at the front of the queue comes to an end.
  lemma PopOrdered(l: Line)
    requires Ordered(l) && l.queue != []
    ensures var m, rest := l.queue[0], l.queue[1..];
            && Increasing(rest) && AllBelow(rest, l.arrived) && m < l.arrived
            && (rest != [] ==> m < rest[0])
            && Increasing(l.confirmed + [m])
  {
    IncreasingTail(l.queue);
    IncreasingSnoc(l.confirmed, l.queue[0]);
    assert l.queue[0] in l.queue;
    assert forall x | x in l.queue[1..] :: x in l.queue;
    if l.queue[1..] != [] {
      assert l.queue[1..][0] == l.queue[1];
    }
  }

  lemma BelowAll(l: Line, n: nat)
    requires Ordered(l) && Oldest(l) <= n
    ensures AllBelow(l.confirmed, n) && AllBelow(l.discarded, n) && AllBelow(l.failed, n)
    ensures AllBelow(l.overflowed, n) && AllBelow(l.abandoned, n)
  {}

  lemma BelowSnoc(s: seq<nat>, m: nat, n: nat)
    requires AllBelow(s, n) && m < n
    ensures AllBelow(s + [m], n)
  {}

  lemma SettleFront(l: Line, r: Line)
    requires Ordered(l) && l.queue != [] && r.queue == l.queue[1..] && r.arrived == l.arrived
    requires r.confirmed == l.confirmed || r.confirmed == l.confirmed + [l.queue[0]]
    requires r.discarded == l.discarded || r.discarded == l.discarded + [l.queue[0]]
    requires r.failed == l.failed || r.failed == l.failed + [l.queue[0]]
    requires r.overflowed == l.overflowed || r.overflowed == l.overflowed + [l.queue[0]]
    requires r.abandoned == l.abandoned
    ensures Ordered(r)
  {
    hide Increasing, AllBelow;
    PopOrdered(l);
    var m, n := l.queue[0], Oldest(r);
    BelowAll(l, n);
    BelowSnoc(l.confirmed, m, n);
    BelowSnoc(l.discarded, m, n);
    BelowSnoc(l.failed, m, n);
    BelowSnoc(l.overflowed, m, n);
  }

  // A new message joins the queue.
  lemma JoinOrdered(l: Line)
    requires Ordered(l)
    ensures Ordered(l.(arrived := l.arrived + 1, queue := l.queue + [l.arrived]))
  {
    var r := l.(arrived := l.arrived + 1, queue := l.queue + [l.arrived]);
    IncreasingSnoc(l.queue, l.arrived);
    assert Oldest(r) == Oldest(l);
  }

  lemma EnqueueOrdered(l: Line)
    requires Ordered(l)
    ensures Ordered(Enqueue(l.(arrived := l.arrived + 1), l.arrived))
  {
    hide Ordered;
    var j := l.(arrived := l.arrived + 1, queue := l.queue + [l.arrived]);
    var r := Enqueue(l.(arrived := l.arrived + 1), l.arrived);
    JoinOrdered(l);
    if |l.queue| >= MAX_OUTBOX_LEN {
      assert j.queue[1..] == l.queue[1..] + [l.arrived];
      SettleFront(j, r);
    } else {
      WarnedOrdered(j, r.warned);
    }
  }

  lemma WarnedOrdered(l: Line, w: bool)
    requires Ordered(l)
    ensures Ordered(l.(warned := w))
  {}

  lemma EnqueueBounded(l: Line)
    requires Ordered(l) && Bounded(l) && l.phase != Down
    ensures Bounded(Enqueue(l.(arrived := l.arrived + 1), l.arrived))
  {
    if |l.queue| >= MAX_OUTBOX_LEN {
      IncreasingGap(l.queue, MAX_OUTBOX_LEN - 1);
      assert l.queue[MAX_OUTBOX_LEN - 1] in l.queue;
    }
  }

  // Wherever one more message is counted, it is one more message.
  lemma OneMore(c: multiset<nat>, d: multiset<nat>, f: multiset<nat>,
                o: multiset<nat>, a: multiset<nat>, q: multiset<nat>, m: nat)
    ensures var one := multiset{m}; var t := Total(c, d, f, o, a, q) + one;
            && Total(c + one, d, f, o, a, q) == t
            && Total(c, d + one, f, o, a, q) == t
            && Total(c, d, f + one, o, a, q) == t
            && Total(c, d, f, o + one, a, q) == t
            && Total(c, d, f, o, a, q + one) == t
  {}

  // What one message more in each list would amount to.
  lemma CountOneMore(l: Line, m: nat)
    ensures var t := Fates(l) + multiset{m};
            && Fates(l.(confirmed := l.confirmed + [m])) == t
            && Fates(l.(discarded := l.discarded + [m])) == t
            && Fates(l.(failed := l.failed + [m])) == t
            && Fates(l.(overflowed := l.overflowed + [m])) == t
            && Fates(l.(queue := l.queue + [m])) == t
            && Fates(l.(queue := [m] + l.queue)) == t
  {
    hide Total;
    OneMore(multiset(l.confirmed), multiset(l.discarded), multiset(l.failed), multiset(l.overflowed),
            multiset(l.abandoned), multiset(l.queue), m);
    assert multiset([m] + l.queue) == multiset(l.queue) + multiset{m};
  }

  lemma SameFates(l: Line, k: Line)
    requires k.confirmed == l.confirmed && k.discarded == l.discarded && k.failed == l.failed
    requires k.overflowed == l.overflowed && k.abandoned == l.abandoned && k.queue == l.queue
    ensures Fates(k) == Fates(l)
  {}

  lemma NextNumber(n: nat)
    ensures multiset(FirstNumbers(n + 1)) == multiset(FirstNumbers(n)) + multiset{n}
  {
    assert FirstNumbers(n + 1) == FirstNumbers(n) + [n];
  }

  lemma EnqueueOneFate(l: Line)
    requires OneFate(l)
    ensures OneFate(Enqueue(l.(arrived := l.arrived + 1), l.arrived))
  {
    hide Fates, FirstNumbers;
    var q, m := l.queue, l.arrived;
    var r := Enqueue(l.(arrived := m + 1), m);
    NextNumber(m);
    CountOneMore(l, m);
    if |q| >= MAX_OUTBOX_LEN {
      // the oldest leaves the queue and is counted again among the overflowed
      var k := l.(queue := q[1..] + [m]);
      CountOneMore(k, q[0]);
      assert [q[0]] + k.queue == q + [m];
      SameFates(k.(overflowed := l.overflowed + [q[0]]), r);
    } else {
      SameFates(l.(queue := q + [m]), r);
    }
  }

  lemma EnqueueKeeps(l: Line)
    requires Good(l) && l.phase != Down
    ensures Good(Enqueue(l.(arrived := l.arrived + 1), l.arrived))
  {
    hide Ordered, Bounded, OneFate, Enqueue;
    EnqueueOrdered(l);
    EnqueueBounded(l);
    EnqueueOneFate(l);
  }

  lemma ReconnectKeeps(l: Line)
    requires Good(l)
    ensures Good(Reconnect(l))
  {
    hide OneFate;
    ReconnectOneFate(l);
    if l.queue != [] {
      assert l.queue[0] in l.queue;
    }
  }

  lemma ReconnectOneFate(l: Line)
    requires OneFate(l)
    ensures OneFate(Reconnect(l))
  {
    hide FirstNumbers;
  }

  lemma DrainOneFate(l: Line, o: Send)
    requires OneFate(l)
    ensures OneFate(Drain(l, o))
  {
    hide Reconnect, Fates, FirstNumbers;
    ReconnectOneFate(l);
    if l.queue != [] {
      var m, k := l.queue[0], l.(queue := l.queue[1..]);
      CountOneMore(k, m);
      assert [m] + k.queue == l.queue;
      assert l.(queue := [m] + k.queue) == l;
    }
  }

  lemma DrainKeeps(l: Line, o: Send)
    requires Good(l) && l.phase != Down
    ensures Good(Drain(l, o))
  {
    hide Ordered, OneFate, Reconnect;
    DrainOneFate(l, o);
    ReconnectKeeps(l);
    if l.queue != [] && (o == Confirmed || o == Discarded || o == OtherError) {
      SettleFront(l, Drain(l, o));
    }
  }

  // With an empty queue a message that is sent or refused at once keeps everything in order.
  lemma FastOrdered(l: Line, r: Line)
    requires Ordered(l) && l.queue == [] && r.queue == [] && r.arrived == l.arrived + 1
    requires r.confirmed == l.confirmed || r.confirmed == l.confirmed + [l.arrived]
    requires r.discarded == l.discarded || r.discarded == l.discarded + [l.arrived]
    requires r.failed == l.failed || r.failed == l.failed + [l.arrived]
    requires r.overflowed == l.overflowed && r.abandoned == l.abandoned
    ensures Ordered(r)
  {
    IncreasingSnoc(l.confirmed, l.arrived);
  }

  lemma FastOneFate(l: Line, o: Send)
    requires OneFate(l) && l.queue == []
    ensures OneFate(Submit(l, o))
  {
    hide Enqueue, Reconnect, Fates, FirstNumbers;
    EnqueueOneFate(l);
    var m := l.arrived;
    NextNumber(m);
    CountOneMore(l, m);
    var k := l.(arrived := m + 1);
    SameFates(l.(confirmed := l.confirmed + [m]), k.(confirmed := l.confirmed + [m]));
    SameFates(l.(discarded := l.discarded + [m]), k.(discarded := l.discarded + [m]));
    SameFates(l.(failed := l.failed + [m]), k.(failed := l.failed + [m]));
    ReconnectOneFate(k.(failed := l.failed + [m]));
  }

  lemma FastKeeps(l: Line, o: Send)
    requires Good(l) && l.phase != Down && l.queue == []
    ensures Good(Submit(l, o))
  {
    hide Ordered, OneFate, Enqueue, Reconnect;
    FastOneFate(l, o);
    EnqueueKeeps(l);
    var m := l.arrived;
    var lost := l.(arrived := m + 1, failed := l.failed + [m]);
    if o != Pending {
      FastOrdered(l, if o == ConnectionLost then lost else Submit(l, o));
    }
    if o == ConnectionLost {
      FastOneFate(l, OtherError);
      ReconnectKeeps(lost);
    }
  }

  lemma StepKeeps(l: Line, e: Event)
    requires Good(l)
    ensures Good(Step(l, e))
  {
    hide Good, Enqueue, Drain, Reconnect, Submit;
    if l.phase == Up {
      ReconnectKeeps(l);
      match e {
        case Decoded(o) => DrainKeeps(l, o);
        case Tick(o) => DrainKeeps(l, o);
        case Submitted(o) => SubmitKeeps(l, o);
        case _ =>
      }
    }
    PhaseKeeps(l, Stopped, l.warned);
    PhaseKeeps(l, Up, false);
  }

  lemma SubmitKeeps(l: Line, o: Send)
    requires Good(l) && l.phase == Up
    ensures Good(Submit(l, o))
  {
    hide Good, Drain, Reconnect;
    if l.queue == [] {
      FastKeeps(l, o);
    } else {
      EnqueueKeeps(l);
      DrainKeeps(Enqueue(l.(arrived := l.arrived + 1), l.arrived), o);
    }
  }

  // The line goes up with an empty queue, or stops.
  lemma PhaseKeeps(l: Line, p: Phase, w: bool)
    requires Good(l)
    ensures (p == Stopped && w == l.warned) || (l.phase == Down && p == Up) ==> Good(l.(phase := p, warned := w))
  {}

  // Over every run: the queue never holds more than 64 messages, messages are confirmed in
  // order and at most once, and each has exactly one fate.
  lemma {:induction false} RunKeeps(es: seq<Event>)
    ensures var l := Run(IDLE, es); Ordered(l) && Bounded(l) && OneFate(l)
    ensures var l := Run(IDLE, es); |l.queue| <= 64 && forall m | m in l.overflowed :: m + 64 < l.arrived
  {
    hide Step, Ordered, Bounded, OneFate;
    BoundIs64(Run(IDLE, es));
    if es == [] {
      IdleKeeps();
    } else {
      RunKeeps(es[..|es| - 1]);
      StepKeeps(Run(IDLE, es[..|es| - 1]), es[|es| - 1]);
    }
  }

  lemma BoundIs64(l: Line)
    ensures Bounded(l) ==> |l.queue| <= 64 && forall m | m in l.overflowed :: m + 64 < l.arrived
  {}

  lemma IdleKeeps()
    ensures Good(IDLE)
  {}

  // ---- Back-pressure alone -----------------------------------------------------------------------------

  // The connection holds, and the codec only ever takes a message or asks to wait.
  predicate Gentle(e: Event) {
    match e
    case Decoded(o) => o == Confirmed || o == Pending
    case Submitted(o) => o == Confirmed || o == Pending
    case Tick(o) => o == Confirmed || o == Pending
    case RecvError(connectionLost) => !connectionLost
    case Closed => false
    case _ => true
  }

  // What is confirmed and what is queued, in this order, are all messages in the order of
  // arrival.
  ghost predicate InLine(l: Line) {
    && l.discarded == l.failed == l.abandoned == []
    && (l.overflowed == [] ==> l.confirmed + l.queue == FirstNumbers(l.arrived))
  }

  lemma DrainInLine(l: Line, o: Send)
    requires InLine(l) && (o == Confirmed || o == Pending)
    ensures InLine(Drain(l, o))
  {
    hide FirstNumbers;
    if l.queue != [] {
      assert l.confirmed + [l.queue[0]] + l.queue[1..] == l.confirmed + l.queue;
    }
  }

  lemma EnqueueInLine(l: Line)
    requires InLine(l)
    ensures InLine(Enqueue(l.(arrived := l.arrived + 1), l.arrived))
  {
    if |l.queue| < MAX_OUTBOX_LEN {
      assert l.confirmed + (l.queue + [l.arrived]) == l.confirmed + l.queue + [l.arrived];
    }
  }

  lemma StepInLine(l: Line, e: Event)
    requires InLine(l) && Gentle(e)
    ensures InLine(Step(l, e))
  {
    hide Enqueue, Drain, FirstNumbers;
    match e {
      case Decoded(o) => DrainInLine(l, o);
      case Tick(o) => DrainInLine(l, o);
      case Submitted(o) =>
        EnqueueInLine(l);
        if l.queue != [] {
          DrainInLine(Enqueue(l.(arrived := l.arrived + 1), l.arrived), o);
        } else {
          FirstAndNext(l.confirmed, l.arrived);
        }
      case _ =>
    }
  }

  lemma FirstAndNext(confirmed: seq<nat>, n: nat)
    ensures confirmed + [] == FirstNumbers(n) ==> confirmed + [n] + [] == FirstNumbers(n + 1)
  {
    assert confirmed + [] == confirmed && confirmed + [n] + [] == confirmed + [n];
  }

  // Back-pressure alone loses nothing and reorders nothing as long as at most 64 messages
  // were submitted: those confirmed followed by those queued are all messages in order.
  lemma {:induction false} BackPressureLosesNothing(es: seq<Event>)
    requires forall e | e in es :: Gentle(e)
    ensures var l := Run(IDLE, es);
            && InLine(l)
            && (l.arrived <= 64 ==> l.overflowed == [] && l.confirmed + l.queue == FirstNumbers(l.arrived))
  {
    hide Step, Ordered, OneFate, FirstNumbers, Gentle;
    RunKeeps(es);
    RunInLine(es);
    if Run(IDLE, es).overflowed != [] {
      assert Run(IDLE, es).overflowed[0] in Run(IDLE, es).overflowed;
    }
  }

  lemma {:induction false} RunInLine(es: seq<Event>)
    requires forall e | e in es :: Gentle(e)
    ensures InLine(Run(IDLE, es))
  {
    hide Step, Gentle;
    if es != [] {
      assert es[|es| - 1] in es;
      RunInLine(es[..|es| - 1]);
      StepInLine(Run(IDLE, es[..|es| - 1]), es[|es| - 1]);
    }
  }

  // ---- Which attempt leads to which fate ------------------------------------------------------------

  // A message was tried, and how that ended; atOnce tells that it had not been queued.
  datatype Attempt = Attempt(m: nat, o: Send, atOnce: bool)

  // The queue with the message that e brings, if others are before it. When 64 messages wait
  // already, the oldest makes room.
  function Waiting(l: Line, e: Event): seq<nat> {
    if l.phase == Up && e.Submitted? && l.queue != [] then
      var q := l.queue + [l.arrived];
      if |q| > 64 then q[1..] else q
    else l.queue
  }

  // What is tried when e happens: the message that has waited longest, or if none waits a new
  // one; at most one message.
  function Tried(l: Line, e: Event): (r: seq<Attempt>)
    ensures |r| <= 1
  {
    if l.phase != Up || !(e.Decoded? || e.Tick? || e.Submitted?) then []
    else if Waiting(l, e) != [] then [Attempt(Waiting(l, e)[0], e.o, false)]
    else if e.Submitted? then [Attempt(l.arrived, e.o, true)]
    else []
  }

  function Attempts(es: seq<Event>): seq<Attempt> {
    if es == [] then []
    else Attempts(es[..|es| - 1]) + Tried(Run(IDLE, es[..|es| - 1]), es[|es| - 1])
  }

  // The messages whose attempt ended in o, in the order of the attempts.
  function EndedAs(as_: seq<Attempt>, o: Send): seq<nat> {
    if as_ == [] then []
    else EndedAs(as_[..|as_| - 1], o) + if as_[|as_| - 1].o == o then [as_[|as_| - 1].m] else []
  }

  // The messages whose attempt failed for good: with an error, or with the connection when it
  // was not queued.
  function FailedIn(as_: seq<Attempt>): seq<nat> {
    if as_ == [] then []
    else
      var a := as_[|as_| - 1];
      FailedIn(as_[..|as_| - 1])
      + if a.o == OtherError || (a.o == ConnectionLost && a.atOnce) then [a.m] else []
  }

  // The connection turns out to be lost when e happens.
  predicate Loses(l: Line, e: Event) {
    l.phase == Up
    && (e == Closed || e == RecvError(true) || (|Tried(l, e)| == 1 && Tried(l, e)[0].o == ConnectionLost))
  }

  lemma StepFates(l: Line, e: Event)
    requires |l.queue| <= 64
    ensures var r, a := Step(l, e), Tried(l, e);
            && r.confirmed == l.confirmed + EndedAs(a, Confirmed)
            && r.discarded == l.discarded + EndedAs(a, Discarded)
            && r.failed == l.failed + FailedIn(a)
  {
    hide EndedAs, FailedIn;
    OneAttempt(Tried(l, e));
    assert l.confirmed + [] == l.confirmed && l.discarded + [] == l.discarded && l.failed + [] == l.failed;
  }

  // What waits is given up when the connection is lost, and only then. A message that has to
  // wait stays at the front of the queue.
  lemma StepLeaves(l: Line, e: Event)
    requires |l.queue| <= 64
    ensures var r, a := Step(l, e), Tried(l, e);
            && r.abandoned == l.abandoned + (if Loses(l, e) then Waiting(l, e) else [])
            && (|a| == 1 && a[0].o == Pending ==> r.queue != [] && r.queue[0] == a[0].m)
  {
    assert l.abandoned + [] == l.abandoned;
  }

  lemma OneAttempt(a: seq<Attempt>)
    requires |a| <= 1
    ensures forall o :: EndedAs(a, o) == if |a| == 1 && a[0].o == o then [a[0].m] else []
    ensures FailedIn(a) ==
            if |a| == 1 && (a[0].o == OtherError || (a[0].o == ConnectionLost && a[0].atOnce)) then [a[0].m] else []
  {
    if |a| == 1 {
      assert a[..0] == [];
    }
  }

  // The line goes down when the connection is lost, and only then; then nothing is queued.
  lemma StepPhase(l: Line, e: Event)
    ensures var r := Step(l, e);
            && (l.phase == Up ==> (r.phase == Down <==> Loses(l, e)) && (r.phase == Stopped <==> e == Cancelled))
            && (Loses(l, e) ==> r.queue == [])
            && (l.phase == Down ==> (r.phase == Up <==> e == Established) && (r.phase == Stopped <==> e == Cancelled))
            && (l.phase == Stopped ==> r == l)
  {}

  // The depth of the queue is warned about when it first exceeds eight on a connection.
  lemma StepWarns(l: Line, e: Event)
    requires |l.queue| <= 64
    ensures var r := Step(l, e);
            && (l.phase == Up ==> (r.warned <==> l.warned || (e.Submitted? && |Waiting(l, e)| > 8)))
            && (l.phase == Down && r.phase == Up ==> !r.warned)
  {}

  lemma {:induction false} EndedAppend(a: seq<Attempt>, b: seq<Attempt>, o: Send)
    requires |b| <= 1
    ensures EndedAs(a + b, o) == EndedAs(a, o) + EndedAs(b, o) && FailedIn(a + b) == FailedIn(a) + FailedIn(b)
  {
    OneAttempt(b);
    if b == [] {
      assert a + b == a;
    } else {
      assert (a + b)[..|a|] == a;
    }
  }

  // Over every run, the messages confirmed are those whose attempt ended so, in this order,
  // and so are those discarded and those failed. A message that the codec asked to wait with
  // has none of these fates, and is the first to be tried again.
  lemma {:induction false} FatesByAttempts(es: seq<Event>)
    ensures var l, a := Run(IDLE, es), Attempts(es);
            l.confirmed == EndedAs(a, Confirmed) && l.discarded == EndedAs(a, Discarded) && l.failed == FailedIn(a)
  {
    hide Step, Tried, Loses, Waiting, Ordered, Bounded, OneFate;
    if es != [] {
      var init, e := es[..|es| - 1], es[|es| - 1];
      var l, a := Run(IDLE, init), Attempts(init);
      FatesByAttempts(init);
      RunKeeps(init);
      StepFates(l, e);
      EndedAppend(a, Tried(l, e), Confirmed);
      EndedAppend(a, Tried(l, e), Discarded);
    }
  }

  // ---- The task -------------------------------------------------------------------------------------------

  datatype DrainOutcome = Idle | MustReconnect

  class ConnectionTask {
    var phase: Phase
    var pendingOutbox: seq<nat>
    var outboxWarned: bool
    var arrived: nat
    ghost var confirmed: seq<nat>
    ghost var discarded: seq<nat>
    ghost var failed: seq<nat>
    ghost var overflowed: seq<nat>
    ghost var abandoned: seq<nat>

    ghost function View(): Line
      reads this
    {
      Line(phase, pendingOutbox, outboxWarned, arrived, confirmed, discarded, failed, overflowed, abandoned)
    }

    constructor ()
      ensures View() == IDLE
    {
      phase, pendingOutbox, outboxWarned, arrived := Down, [], false, 0;
      confirmed, discarded, failed, overflowed, abandoned := [], [], [], [], [];
    }

    method EnqueueOutbox(m: nat)
      modifies this
      ensures View() == Enqueue(old(View()), m)
    {
      if |pendingOutbox| >= MAX_OUTBOX_LEN {
        overflowed := overflowed + [pendingOutbox[0]];
        pendingOutbox := pendingOutbox[1..];
      }
      pendingOutbox := pendingOutbox + [m];
      if !outboxWarned && |pendingOutbox| > OUTBOX_WARN_THRESHOLD {
        outboxWarned := true;
      }
    }

    // A message that cannot be sent goes back to the front. When the connection turns out to
    // be lost, the caller drops the queue.
    method DrainOutbox(o: Send) returns (r: DrainOutcome)
      modifies this
      ensures r == MustReconnect <==> o == ConnectionLost && old(pendingOutbox) != []
      ensures View() == if r == MustReconnect then old(View()) else Drain(old(View()), o)
    {
      if pendingOutbox == [] {
        return Idle;
      }
      var m := pendingOutbox[0];
      pendingOutbox := pendingOutbox[1..];
      assert [m] + pendingOutbox == old(pendingOutbox);
      match o {
        case Confirmed =>
          confirmed := confirmed + [m];
          r := Idle;
        case Pending =>
          pendingOutbox := [m] + pendingOutbox;
          r := Idle;
        case Discarded =>
          discarded := discarded + [m];
          r := Idle;
        case ConnectionLost =>
          pendingOutbox := [m] + pendingOutbox;
          r := MustReconnect;
        case OtherError =>
          failed := failed + [m];
          r := Idle;
      }
    }

    // Sends at once when nothing is queued, and otherwise behind what is queued.
    method OnSubmitted(o: Send) returns (r: DrainOutcome)
      modifies this
      ensures Submit(old(View()), o) == if r == MustReconnect then Reconnect(View()) else View()
    {
      var m := arrived;
      arrived := arrived + 1;
      if pendingOutbox != [] {
        EnqueueOutbox(m);
        r := DrainOutbox(o);
        return;
      }
      r := Idle;
      match o {
        case Confirmed => confirmed := confirmed + [m];
        case Pending => EnqueueOutbox(m);
        case Discarded => discarded := discarded + [m];
        case ConnectionLost =>
          failed := failed + [m];
          r := MustReconnect;
        case OtherError => failed := failed + [m];
      }
    }

    // The task over everything it wakes up for.
    method Serve(events: seq<Event>)
      modifies this
      ensures View() == Run(old(View()), events)
    {
      hide Enqueue, Drain, Submit;
      for i := 0 to |events|
        invariant View() == Run(old(View()), events[..i])
      {
        ghost var before := View();
        OnEvent(events[i]);
        assert events[..i + 1][..i] == events[..i];
      }
      assert events[..|events|] == events;
    }

    method OnEvent(e: Event)
      modifies this
      ensures View() == Step(old(View()), e)
    {
      hide Enqueue, Submit;
      if phase == Stopped {
        return;
      }
      if e == Cancelled {
        phase := Stopped;
        return;
      }
      if phase == Down {
        if e == Established {
          phase := Up;
          outboxWarned := false;
        }
        return;
      }
      var r := Idle;
      match e {
        case Established =>
        case Decoded(o) => r := DrainOutbox(o);
        case Closed => r := MustReconnect;
        case RecvError(connectionLost) =>
          if connectionLost {
            r := MustReconnect;
          }
        case Submitted(o) => r := OnSubmitted(o);
        case Tick(o) =>
          if pendingOutbox != [] {
            r := DrainOutbox(o);
          }
        case Elsewhere =>
        case Cancelled =>
      }
      if r == MustReconnect {
        // sending the queue again after a reconnect would not be safe
        phase := Down;
        if pendingOutbox != [] {
          abandoned := abandoned + pendingOutbox;
          pendingOutbox := [];
        }
        assert abandoned + [] == abandoned;
      }
    }
  }
}
