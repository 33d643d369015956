// Messages to be sent at a later time: a priority queue and a timer.
module DelayQueue {

  // A message is known by its number in the order of arrival; timestamp is wall-clock time.
  datatype Message = Message(no: nat, timestamp: nat)

  datatype Scheduled = Scheduled(message: Message, deadline: nat)

  // What arrived, with the wall clock and the monotonic clock at that time.
  datatype Receipt = Receipt(item: Scheduled, wall: nat, at: nat)

  // A message that was sent, the monotonic time, and how many messages had arrived by then.
  datatype Sent = Sent(item: Scheduled, at: nat, seen: nat)

  datatype State = State(queue: seq<Scheduled>, log: seq<Sent>, received: seq<Receipt>, now: nat)

  function FromMessage(m: Message, wall: nat, now: nat): (s: Scheduled)
    ensures s.message == m
  {
    Scheduled(m, if m.timestamp >= wall then now + (m.timestamp - wall) else now)
  }

  // With clocks that are a constant apart, the deadline is the message's own time, or the
  // time of arrival if that is later.
  lemma DeadlineIsTimestamp(m: Message, wall: nat, now: nat, offset: int)
    requires wall == now + offset
    ensures var d := FromMessage(m, wall, now).deadline + offset;
            d >= m.timestamp && d >= wall && (d == m.timestamp || d == wall)
  {}

  // ---- What every run keeps ------------------------------------------------------------------------

  function ItemsSent(log: seq<Sent>): seq<Scheduled> {
    if log == [] then [] else ItemsSent(log[..|log| - 1]) + [log[|log| - 1].item]
  }

  function ItemsReceived(rs: seq<Receipt>): seq<Scheduled> {
    if rs == [] then [] else ItemsReceived(rs[..|rs| - 1]) + [rs[|rs| - 1].item]
  }

  // Every message that arrived is either sent or queued, and never both.
  ghost predicate Conserved(s: State) {
    multiset(ItemsSent(s.log)) + multiset(s.queue) == multiset(ItemsReceived(s.received))
  }

  // Messages are numbered as they arrive, and scheduled for their time.
  ghost predicate Dated(s: State) {
    forall i | 0 <= i < |s.received| ::
      var r := s.received[i]; r.item.message.no == i && r.item == FromMessage(r.item.message, r.wall, r.at)
  }

  // No message was sent early, and none in the future.
  ghost predicate OnTime(s: State) {
    forall e | e in s.log :: e.item.deadline <= e.at <= s.now
  }

  // A message never overtakes one with an earlier deadline that was waiting with it.
  ghost predicate InOrder(s: State) {
    && (forall i, j | 0 <= i < j < |s.log| && s.log[j].item.message.no < s.log[i].seen ::
          s.log[i].item.deadline <= s.log[j].item.deadline)
    && (forall e, x | e in s.log && x in s.queue && x.message.no < e.seen :: e.item.deadline <= x.deadline)
    && (forall e | e in s.log :: e.seen <= |s.received|)
  }

  ghost predicate Valid(s: State) {
    Conserved(s) && Dated(s) && OnTime(s) && InOrder(s)
  }

  predicate Least(q: seq<Scheduled>, i: nat) {
    i < |q| && forall x | x in q :: q[i].deadline <= x.deadline
  }

  function Pushed(s: State, timestamp: nat, wall: nat): State {
    var item := FromMessage(Message(|s.received|, timestamp), wall, s.now);
    s.(queue := s.queue + [item], received := s.received + [Receipt(item, wall, s.now)])
  }

  // Item i leaves the queue and is sent.
  function Popped(s: State, i: nat): State
    requires i < |s.queue|
  {
    s.(queue := s.queue[..i] + s.queue[i + 1..], log := s.log + [Sent(s.queue[i], s.now, |s.received|)])
  }

  lemma LaterKeeps(s: State, now: nat)
    requires Valid(s) && s.now <= now
    ensures Valid(s.(now := now))
  {}

  lemma PushKeeps(s: State, timestamp: nat, wall: nat)
    requires Valid(s)
    ensures Valid(Pushed(s, timestamp, wall))
  {
    hide ItemsSent, ItemsReceived;
    var item := FromMessage(Message(|s.received|, timestamp), wall, s.now);
    ReceivedSnoc(s.received, Receipt(item, wall, s.now));
  }

  lemma ReceivedSnoc(rs: seq<Receipt>, r: Receipt)
    ensures ItemsReceived(rs + [r]) == ItemsReceived(rs) + [r.item]
  {
    assert (rs + [r])[..|rs + [r]| - 1] == rs;
  }

  lemma SentSnoc(log: seq<Sent>, e: Sent)
    ensures ItemsSent(log + [e]) == ItemsSent(log) + [e.item]
  {
    assert (log + [e])[..|log + [e]| - 1] == log;
  }

  lemma PopConserved(s: State, i: nat)
    requires Conserved(s) && i < |s.queue|
    ensures Conserved(Popped(s, i))
  {
    hide ItemsSent, ItemsReceived;
    SentSnoc(s.log, Sent(s.queue[i], s.now, |s.received|));
    assert s.queue == s.queue[..i] + [s.queue[i]] + s.queue[i + 1..];
  }

  // Sending the item with the least deadline, when it is due.
  lemma PopKeeps(s: State, i: nat)
    requires Valid(s) && Least(s.queue, i) && s.queue[i].deadline <= s.now
    ensures Valid(Popped(s, i))
  {
    hide Conserved, Dated;
    PopConserved(s, i);
    PopDated(s, i);
    var r := Popped(s, i);
    assert s.queue[i] in s.queue;
    forall j, k | 0 <= j < k < |r.log| && r.log[k].item.message.no < r.log[j].seen
      ensures r.log[j].item.deadline <= r.log[k].item.deadline
    {
      assert r.log[j] == s.log[j] && s.log[j] in s.log;
    }
    forall e, x | e in r.log && x in r.queue && x.message.no < e.seen ensures e.item.deadline <= x.deadline {
      assert x in s.queue;
    }
  }

  lemma PopDated(s: State, i: nat)
    requires Dated(s) && i < |s.queue|
    ensures Dated(Popped(s, i))
  {}

  lemma {:induction false} LeastExists(q: seq<Scheduled>)
    requires q != []
    ensures exists i: nat :: Least(q, i)
  {
    if |q| == 1 {
      assert Least(q, 0);
    } else {
      var init, last := q[..|q| - 1], q[|q| - 1];
      LeastExists(init);
      var i: nat :| Least(init, i);
      assert q == init + [last];
      if last.deadline < q[i].deadline {
        assert Least(q, |q| - 1);
      } else {
        assert Least(q, i);
      }
    }
  }

  // ---- What is seen of a run --------------------------------------------------------------------------

  // What ends a wait, and when on the monotonic clock: the timer, at any time, a message, with
  // the wall clock as it arrives, or the end of the channel.
  datatype Wake = TimerFired(at: nat) | Arrived(timestamp: nat, wall: nat, at: nat) | Closed(at: nat)

  // How many events are taken in before the channel is closed.
  function Open(events: seq<Wake>): (n: nat)
    ensures n <= |events| && (n < |events| ==> events[n].Closed?)
    ensures forall i | 0 <= i < n :: !events[i].Closed?
  {
    if events == [] || events[0].Closed? then 0 else 1 + Open(events[1..])
  }

  // The messages among the events.
  function Arrivals(events: seq<Wake>): seq<Wake> {
    if events == [] then []
    else
      var last := events[|events| - 1];
      Arrivals(events[..|events| - 1]) + if last.Arrived? then [last] else []
  }

  // Each message was taken in as it came, and not before it came.
  ghost predicate HeardAs(rs: seq<Receipt>, came: seq<Wake>) {
    && |rs| == |came|
    && forall i | 0 <= i < |rs| ::
         && came[i].Arrived? && rs[i].item.message.timestamp == came[i].timestamp
         && rs[i].wall == came[i].wall && rs[i].at >= came[i].at
  }

  // The state in which the task waits, and when the event before that happened.
  datatype Wait = Wait(state: State, since: nat)

  // The clock was read since that event, and nothing was due.
  ghost predicate AtRest(w: Wait) {
    forall x | x in w.state.queue :: w.since <= w.state.now < x.deadline
  }

  function Since(events: seq<Wake>, j: nat): nat
    requires j <= |events|
  {
    if j == 0 then 0 else events[j - 1].at
  }

  // How the task waits for event j of a run that had received r0 messages before.
  ghost predicate Rests(w: Wait, events: seq<Wake>, j: nat, r0: nat, log: seq<Sent>)
    requires j <= |events|
  {
    && Valid(w.state) && AtRest(w) && w.since == Since(events, j)
    && |w.state.received| == r0 + |Arrivals(events[..j])|
    && w.state.log <= log
  }

  // ws are the task's waits for the first events, one for each.
  ghost predicate AllRest(ws: seq<Wait>, events: seq<Wake>, r0: nat, log: seq<Sent>) {
    |ws| <= |events| + 1 && forall j | 0 <= j < |ws| :: Rests(ws[j], events, j, r0, log)
  }

  // Whenever the task waits, every message that was due by the last event, or when the clock
  // was read after it, has been sent.
  lemma DueIsSent(w: Wait, i: nat)
    requires Valid(w.state) && AtRest(w) && i < |w.state.received|
    ensures w.state.received[i].item.deadline <= w.since ==> w.state.received[i].item in ItemsSent(w.state.log)
    ensures w.state.received[i].item.deadline <= w.state.now ==> w.state.received[i].item in ItemsSent(w.state.log)
  {
    hide ItemsSent, Dated, OnTime, InOrder;
    var x := w.state.received[i].item;
    ReceivedIs(w.state.received, i);
    assert x in multiset(ItemsReceived(w.state.received));
    assert x in multiset(ItemsSent(w.state.log)) || x in multiset(w.state.queue);
  }

  lemma {:induction false} ReceivedIs(rs: seq<Receipt>, i: nat)
    requires i < |rs|
    ensures rs[i].item in ItemsReceived(rs)
  {
    if i < |rs| - 1 {
      ReceivedIs(rs[..|rs| - 1], i);
    }
  }

  // Every item that was sent had been received.
  lemma SentIsReceived(s: State, x: Scheduled)
    requires Valid(s) && x in ItemsSent(s.log)
    ensures x in ItemsReceived(s.received)
  {
    hide ItemsSent, ItemsReceived, Dated, OnTime, InOrder;
    assert x in multiset(ItemsSent(s.log)) + multiset(s.queue);
    assert x in multiset(ItemsReceived(s.received));
  }

  // ---- The task --------------------------------------------------------------------------------------

  class DelayQueueTask {
    var queue: seq<Scheduled>
    var arrived: nat
    var clock: nat                  // the monotonic clock
    var now: nat                    // when it was last read
    ghost var log: seq<Sent>
    ghost var received: seq<Receipt>
    ghost var waits: seq<Wait>

    ghost function View(): State
      reads this
    {
      State(queue, log, received, now)
    }

    ghost predicate Sound()
      reads this
    {
      Valid(View()) && arrived == |received| && now <= clock
    }

    constructor ()
      ensures Sound() && queue == [] && log == [] && received == [] && waits == []
    {
      queue, arrived, clock, now, log, received, waits := [], 0, 0, 0, [], [], [];
    }

    method ReadClock()
      requires Sound()
      modifies this`now, this`clock
      ensures Sound() && old(clock) <= clock == now
    {
      hide Valid;
      var later: nat :| clock <= later;
      LaterKeeps(View(), later);
      clock, now := later, later;
    }

    method Push(timestamp: nat, wall: nat)
      requires Sound()
      modifies this`queue, this`received, this`arrived
      ensures Sound() && View() == Pushed(old(View()), timestamp, wall)
    {
      hide Valid;
      PushKeeps(View(), timestamp, wall);
      var item := FromMessage(Message(arrived, timestamp), wall, now);
      queue := queue + [item];
      arrived := arrived + 1;
      received := received + [Receipt(item, wall, now)];
    }

    // Takes the heap's least item, or one of them, if it is due.
    method SendDue() returns (sent: bool)
      requires Sound() && queue != []
      modifies this`queue, this`log
      ensures Sound() && old(log) <= log
      ensures sent ==> |queue| < |old(queue)|
      ensures !sent ==> View() == old(View()) && forall x | x in queue :: x.deadline > now
    {
      hide Valid;
      LeastExists(queue);
      var k: nat :| Least(queue, k);
      if queue[k].deadline > now {
        return false;
      }
      PopKeeps(View(), k);
      log := log + [Sent(queue[k], now, arrived)];
      queue := queue[..k] + queue[k + 1..];
      return true;
    }

    // Sends everything that is due; then there is nothing left to do but to wait.
    method Settle(ghost since: nat)
      requires Sound() && since <= clock
      modifies this`queue, this`log, this`now, this`clock, this`waits
      ensures Sound() && old(log) <= log && old(clock) <= clock
      ensures waits == old(waits) + [Wait(View(), since)] && AtRest(Wait(View(), since))
    {
      hide Valid;
      while queue != []
        invariant Sound() && old(log) <= log && old(clock) <= clock && waits == old(waits)
        decreases |queue|
      {
        ReadClock();
        var sent := SendDue();
        if !sent {
          break;
        }
      }
      waits := waits + [Wait(View(), since)];
    }

    // Runs until the channel is closed, or all that is to come has come. Before each event it
    // waits for, and at the end, everything due has been sent.
    method Serve(events: seq<Wake>)
      requires Sound()
      modifies this
      ensures Sound() && old(log) <= log && old(received) <= received
      ensures HeardAs(received[|old(received)|..], Arrivals(events[..Open(events)]))
      ensures |waits| == |old(waits)| + Open(events) + 1 && old(waits) <= waits
      ensures AllRest(waits[|old(waits)|..], events, |old(received)|, log)
      ensures waits[|waits| - 1].state.log == log && waits[|waits| - 1].state.queue == queue
    {
      hide Valid, FromMessage, Rests, AllRest, HeardAs, Arrivals, AtRest, Open;
      ghost var n0, r0 := |waits|, |received|;
      var i := 0;
      NothingYet(received, waits, events, log);
      while true
        invariant Sound() && old(log) <= log && old(received) <= received && old(waits) <= waits
        invariant i <= Open(events) && Since(events, i) <= clock
        invariant HeardAs(received[r0..], Arrivals(events[..i]))
        invariant |waits| == n0 + i && AllRest(waits[n0..], events, r0, log)
        decreases |events| - i
      {
        ghost var ws, log0 := waits, log;
        Settle(Since(events, i));
        RestsNow(Wait(View(), Since(events, i)), events, i, r0, received, log);
        StillRest(ws[n0..], events, r0, log0, log, Wait(View(), Since(events, i)));
        assert waits[n0..] == ws[n0..] + [Wait(View(), Since(events, i))];
        StillOpen(events, i);
        if i == |events| {
          return;
        }
        var e := events[i];
        clock := if clock < e.at then e.at else clock;
        match e {
          case TimerFired(_) =>
            // the queue is looked at again, whether or not the time has come
          case Arrived(timestamp, wall, at) =>
            ReadClock();
            ghost var item := FromMessage(Message(arrived, timestamp), wall, now);
            HeardMore(received, r0, events, i, Receipt(item, wall, now));
            Push(timestamp, wall);
          case Closed(_) =>
            return;
        }
        HeardNothing(events, i);
        i := i + 1;
      }
    }
  }

  lemma NothingYet(rs: seq<Receipt>, ws: seq<Wait>, events: seq<Wake>, log: seq<Sent>)
    ensures HeardAs(rs[|rs|..], Arrivals(events[..0])) && AllRest(ws[|ws|..], events, |rs|, log)
  {}

  lemma StillOpen(events: seq<Wake>, i: nat)
    requires i <= Open(events)
    ensures i == |events| || events[i].Closed? ==> i == Open(events)
    ensures i < |events| && !events[i].Closed? ==> i < Open(events)
  {}

  lemma HeardMore(rs: seq<Receipt>, r0: nat, events: seq<Wake>, i: nat, r: Receipt)
    requires r0 <= |rs| && i < |events| && HeardAs(rs[r0..], Arrivals(events[..i]))
    requires events[i].Arrived? && r.item.message.timestamp == events[i].timestamp
    requires r.wall == events[i].wall && r.at >= events[i].at
    ensures HeardAs((rs + [r])[r0..], Arrivals(events[..i + 1]))
  {
    assert events[..i + 1][..i] == events[..i];
    assert (rs + [r])[r0..] == rs[r0..] + [r];
  }

  lemma HeardNothing(events: seq<Wake>, i: nat)
    requires i < |events|
    ensures !events[i].Arrived? ==> Arrivals(events[..i + 1]) == Arrivals(events[..i])
  {
    assert events[..i + 1][..i] == events[..i];
  }

  lemma RestsNow(w: Wait, events: seq<Wake>, j: nat, r0: nat, rs: seq<Receipt>, log: seq<Sent>)
    requires j <= |events| && Valid(w.state) && AtRest(w) && w.since == Since(events, j)
    requires w.state.received == rs && r0 <= |rs| && HeardAs(rs[r0..], Arrivals(events[..j]))
    requires w.state.log == log
    ensures Rests(w, events, j, r0, log)
  {
    hide Valid;
  }

  // One more wait; the log only grows.
  lemma StillRest(ws: seq<Wait>, events: seq<Wake>, r0: nat, before: seq<Sent>, log: seq<Sent>, w: Wait)
    requires AllRest(ws, events, r0, before) && before <= log
    requires |ws| <= |events| && Rests(w, events, |ws|, r0, log)
    ensures AllRest(ws + [w], events, r0, log)
  {
    hide Valid, AtRest;
    forall j | 0 <= j < |ws| ensures Rests((ws + [w])[j], events, j, r0, log) {
      assert (ws + [w])[j] == ws[j];
    }
  }
}
