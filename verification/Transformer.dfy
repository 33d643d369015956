// The transformer: frames that arrive as whole messages, from any number of connections in any
// order, each with its own session state.
module Transformer {
  import opened Bytes
  import opened Wire
  import opened Scan
  import opened Session
  import opened Samples
  import opened Decoder

  // ---- What one connection's messages mean ------------------------------------------------------

  // marked says that the codec parsed the message already.
  datatype Packet = Packet(connection: nat, payload: seq<byte>, arrival: nat, marked: bool)

  datatype Answer = Fine | NoSync | Truncated | BadFrame

  // The answer, and what is added to the message.
  datatype Outcome = Outcome(answer: Answer, report: Option<Report>)

  predicate StartsWithSync(payload: seq<byte>) {
    |payload| >= 4 && payload[..4] == SYNC
  }

  function Receive(s: State, p: Packet): (State, Outcome) {
    if p.marked then (s, Outcome(Fine, None))
    else if !StartsWithSync(p.payload) then (s, Outcome(NoSync, None))
    else
      match Parse(p.payload)
      case NeedMore => (s, Outcome(Truncated, None))
      case Reject => (FRESH_STATE, Outcome(BadFrame, None))
      case Complete(f) =>
        var (s1, r) := Arrive(s, f, p.arrival);
        (s1, Outcome(Fine, Some(r)))
  }

  // A connection on its own.
  function ReceiveAll(s: State, ps: seq<Packet>): (r: (State, seq<Outcome>))
    ensures |r.1| == |ps|
    decreases |ps|
  {
    if ps == [] then (s, [])
    else
      var (s1, o) := Receive(s, ps[0]);
      var (s2, os) := ReceiveAll(s1, ps[1..]);
      (s2, [o] + os)
  }

  // ---- All connections together -------------------------------------------------------------------

  // A connection that has not been heard of is in the fresh state.
  function StateOf(ss: map<nat, State>, c: nat): State {
    if c in ss then ss[c] else FRESH_STATE
  }

  function Handle(ss: map<nat, State>, p: Packet): (map<nat, State>, Outcome) {
    var (s, o) := Receive(StateOf(ss, p.connection), p);
    (if p.marked || !StartsWithSync(p.payload) then ss else ss[p.connection := s], o)
  }

  function HandleAll(ss: map<nat, State>, ps: seq<Packet>): (r: (map<nat, State>, seq<Outcome>))
    ensures |r.1| == |ps|
    decreases |ps|
  {
    if ps == [] then (ss, [])
    else
      var (ss1, o) := Handle(ss, ps[0]);
      var (ss2, os) := HandleAll(ss1, ps[1..]);
      (ss2, [o] + os)
  }

  function PacketsOf(c: nat, ps: seq<Packet>): seq<Packet> {
    if ps == [] then []
    else (if ps[0].connection == c then [ps[0]] else []) + PacketsOf(c, ps[1..])
  }

  function OutcomesOf(c: nat, ps: seq<Packet>, os: seq<Outcome>): seq<Outcome>
    requires |os| == |ps|
  {
    if ps == [] then []
    else (if ps[0].connection == c then [os[0]] else []) + OutcomesOf(c, ps[1..], os[1..])
  }

  // However the packets of the connections are interleaved, each connection is answered
  // exactly as if it were alone.
  lemma {:induction false} NonInterference(ss: map<nat, State>, ps: seq<Packet>, c: nat)
    ensures var (ss1, os) := HandleAll(ss, ps);
            ReceiveAll(StateOf(ss, c), PacketsOf(c, ps)) == (StateOf(ss1, c), OutcomesOf(c, ps, os))
    decreases |ps|
  {
    hide Receive;
    if ps != [] {
      var p := ps[0];
      var (ss1, o) := Handle(ss, p);
      SameState(ss, p);
      NonInterference(ss1, ps[1..], c);
      var rest := OutcomesOf(c, ps[1..], HandleAll(ss1, ps[1..]).1);
      assert HandleAll(ss, ps).1[1..] == HandleAll(ss1, ps[1..]).1;
      if p.connection == c {
        var own := [p] + PacketsOf(c, ps[1..]);
        assert own[0] == p && own[1..] == PacketsOf(c, ps[1..]);
      } else {
        assert [] + PacketsOf(c, ps[1..]) == PacketsOf(c, ps[1..]);
        assert [] + rest == rest;
      }
    }
  }

  lemma SameState(ss: map<nat, State>, p: Packet)
    ensures forall c :: StateOf(Handle(ss, p).0, c)
                        == if c == p.connection then Receive(StateOf(ss, c), p).0 else StateOf(ss, c)
    ensures Handle(ss, p).1 == Receive(StateOf(ss, p.connection), p).1
  {
    hide Parse, Arrive;
  }

  // A message that the codec has not parsed is taken exactly when it starts with a frame that an
  // encoder can send; one without a sync word, and one that is cut off, are told apart.
  lemma Answered(s: State, p: Packet)
    requires !p.marked
    ensures var a := Receive(s, p).1.answer;
            && (a == Fine <==> exists h, payload :: StartsWithFrame(p.payload, h, payload))
            && (a == NoSync <==> !StartsWithSync(p.payload))
            && (a == Truncated <==> StartsWithSync(p.payload) && Parse(p.payload) == NeedMore)
  {
    hide Parse, Arrive, Encode, Exact, HeaderBytes;
    if StartsWithSync(p.payload) {
      AcceptedIff(p.payload);
    }
    forall h, payload | StartsWithFrame(p.payload, h, payload) ensures StartsWithSync(p.payload) {
      StartsWithItsSync(p.payload, h, payload);
    }
  }

  lemma StartsWithItsSync(s: seq<byte>, h: Header, payload: seq<byte>)
    requires StartsWithFrame(s, h, payload)
    ensures StartsWithSync(s)
  {
    hide Encode, Exact;
    var enc := Encode(h, payload);
    EncodeStartsWithSync(h, payload, s[|enc|..]);
    assert s == enc + s[|enc|..];
  }

  // A message that is refused leaves no trace, except that after an invalid frame the
  // connection starts over.
  lemma RefusedLeavesNoTrace(s: State, p: Packet, ps: seq<Packet>)
    requires Receive(s, p).1.report == None
    ensures var o := Receive(s, p).1;
            ReceiveAll(s, [p] + ps).1 == [o] + ReceiveAll(if o.answer == BadFrame then FRESH_STATE else s, ps).1
  {
    hide Parse, Arrive;
    var all := [p] + ps;
    assert all[0] == p && all[1..] == ps;
  }

  // Frames, each in a message of its own.
  function PacketsFor(c: nat, fs: seq<Frame>, arrivals: seq<nat>): (r: seq<Packet>)
    requires |fs| == |arrivals|
    ensures |r| == |fs|
  {
    if fs == [] then []
    else [Packet(c, Encode(fs[0].header, fs[0].payload), arrivals[0], false)] + PacketsFor(c, fs[1..], arrivals[1..])
  }

  function OutcomesFor(rs: seq<Report>): seq<Outcome> {
    if rs == [] then [] else [Outcome(Fine, Some(rs[0]))] + OutcomesFor(rs[1..])
  }

  // Frames that arrive message by message are reported exactly as they would be from a stream.
  lemma {:induction false} MessagesLikeStream(s: State, c: nat, fs: seq<Frame>, arrivals: seq<nat>)
    requires |fs| == |arrivals| && forall f | f in fs :: Sendable(f)
    ensures var (s1, rs) := ArriveAll(s, FieldsOfAll(fs), arrivals);
            ReceiveAll(s, PacketsFor(c, fs, arrivals)) == (s1, OutcomesFor(rs))
    decreases |fs|
  {
    hide Parse, Arrive, Encode, FieldsOf, Exact, Receive, Sendable;
    if fs != [] {
      var f, more := fs[0], PacketsFor(c, fs[1..], arrivals[1..]);
      assert Sendable(f);
      OneMessage(s, c, f, arrivals[0]);
      assert FieldsOfAll(fs)[1..] == FieldsOfAll(fs[1..]);
      assert PacketsFor(c, fs, arrivals)[1..] == more;
      var s1 := Arrive(s, FieldsOf(f.header, f.payload), arrivals[0]).0;
      MessagesLikeStream(s1, c, fs[1..], arrivals[1..]);
      var rs := ArriveAll(s, FieldsOfAll(fs), arrivals).1;
      assert rs[1..] == ArriveAll(s1, FieldsOfAll(fs[1..]), arrivals[1..]).1;
    }
  }

  lemma OneMessage(s: State, c: nat, f: Frame, arrival: nat)
    requires Sendable(f)
    ensures var (s1, r) := Arrive(s, FieldsOf(f.header, f.payload), arrival);
            Receive(s, Packet(c, Encode(f.header, f.payload), arrival, false)) == (s1, Outcome(Fine, Some(r)))
  {
    hide Parse, Arrive, Encode, FieldsOf, Exact;
    var bytes := Encode(f.header, f.payload);
    EncodeThenParse(f.header, f.payload, []);
    EncodeStartsWithSync(f.header, f.payload, []);
    assert bytes + [] == bytes;
  }

  // ---- The transformer ------------------------------------------------------------------------------

  class RxMessage {
    const connection: nat
    const payload: seq<byte>
    const timestamp: u64
    var values: seq<Value>
    var metadata: seq<Meta>

    constructor (connection: nat, payload: seq<byte>, timestamp: u64)
      ensures this.connection == connection && this.payload == payload && this.timestamp == timestamp
      ensures values == [] && metadata == []
    {
      this.connection, this.payload, this.timestamp := connection, payload, timestamp;
      values, metadata := [], [];
    }

    // The codec leaves this mark on each message it parsed.
    predicate Marked()
      reads this
    {
      MarkIn(metadata)
    }
  }

  predicate MarkIn(metadata: seq<Meta>) {
    exists i :: 0 <= i < |metadata| && metadata[i].DatatypeCode?
  }

  // Whatever the codec delivers carries the mark, so that the transformer leaves it alone.
  lemma CodecLeavesMark(m: Message, r: Report, arrival: nat)
    requires IsMessageOf(m, r, arrival)
    ensures MarkIn(m.metadata)
  {
    hide ValuesOf, WholeSampled;
    assert m.metadata[0].DatatypeCode?;
  }

  // What the outcome adds to a message.
  ghost predicate Adds(o: Outcome, values: seq<Value>, metadata: seq<Meta>) {
    match o.report
    case None => values == [] && metadata == []
    case Some(r) =>
      var f := r.event.frame;
      && WholeSampled(f) && values == ValuesOf(f.profile.dtype, f.profile.channels, f.payload)
      && metadata == MetadataOf(r.event)
  }

  class CbrtTransformer {
    var sessions: map<nat, SessionState>

    ghost predicate Valid()
      reads this
    {
      forall a, b | a in sessions && b in sessions && a != b :: sessions[a] != sessions[b]
    }

    ghost function Footprint(): set<SessionState>
      reads this
    {
      set c | c in sessions :: sessions[c]
    }

    ghost function View(): map<nat, State>
      reads this, Footprint()
    {
      map c | c in sessions :: sessions[c].View()
    }

    constructor ()
      ensures Valid() && View() == map[]
    {
      sessions := map[];
    }

    // The state of a connection, created when there is none yet.
    method Entry(c: nat) returns (state: SessionState)
      requires Valid()
      modifies this
      ensures Valid() && c in sessions && sessions[c] == state
      ensures fresh(Footprint() - old(Footprint()))
      ensures state.View() == StateOf(old(View()), c)
      ensures View() == old(View())[c := StateOf(old(View()), c)]
    {
      if c !in sessions {
        state := new SessionState();
        sessions := sessions[c := state];
      } else {
        state := sessions[c];
      }
    }

    // Parses the payload in the session of its connection.
    method Dispatch(m: RxMessage, arrival: u64) returns (answer: Answer)
      requires Valid() && StartsWithSync(m.payload)
      modifies this, Footprint(), m
      ensures Valid() && fresh(Footprint() - old(Footprint()))
      ensures var before := StateOf(old(View()), m.connection);
              var (s, o) := Receive(before, Packet(m.connection, m.payload, arrival, false));
              && View() == old(View())[m.connection := s]
              && answer == o.answer && Extended(m, old(m.values), old(m.metadata), o)
      ensures answer != Fine ==> m.metadata == old(m.metadata)
      ensures answer == Fine ==> m.Marked()
    {
      hide Parse, Arrive, Adds, Receive, Extended, StartsWithSync, StateOf, MarkIn;
      var state := Entry(m.connection);
      ghost var ss := View();
      answer := ParseInto(state, m, arrival);
      assert View() == ss[m.connection := state.View()];
    }

    method OnReceive(m: RxMessage, clock: u64) returns (answer: Answer)
      requires Valid()
      modifies this, Footprint(), m
      ensures Valid() && fresh(Footprint() - old(Footprint()))
      ensures var arrival := if m.timestamp != 0 then m.timestamp else clock;
              var (ss, o) := Handle(old(View()), Packet(m.connection, m.payload, arrival, old(m.Marked())));
              View() == ss && answer == o.answer && Extended(m, old(m.values), old(m.metadata), o)
      // a message is parsed once: by the codec or here
      ensures old(m.Marked()) ==>
                answer == Fine && View() == old(View()) && m.values == old(m.values) && m.metadata == old(m.metadata)
      ensures answer == Fine <==> m.Marked()
    {
      hide Parse, Arrive, Adds, Receive, Extended, StateOf, MarkIn;
      var arrival := if m.timestamp != 0 then m.timestamp else clock;
      if m.Marked() {
        Unchanged(m, StateOf(View(), m.connection), arrival, true);
        return Fine;
      }
      if |m.payload| < 4 || m.payload[..4] != SYNC {
        Unchanged(m, StateOf(View(), m.connection), arrival, false);
        return NoSync;
      }
      answer := Dispatch(m, arrival);
    }
  }

  // The message got the values and the metadata that the outcome calls for.
  ghost predicate Extended(m: RxMessage, values: seq<Value>, metadata: seq<Meta>, o: Outcome)
    reads m
  {
    && values <= m.values && metadata <= m.metadata
    && Adds(o, m.values[|values|..], m.metadata[|metadata|..])
  }

  lemma Unchanged(m: RxMessage, s: State, arrival: nat, marked: bool)
    requires marked || !StartsWithSync(m.payload)
    ensures var (s1, o) := Receive(s, Packet(m.connection, m.payload, arrival, marked));
            s1 == s && o.answer == (if marked then Fine else NoSync) && Extended(m, m.values, m.metadata, o)
  {}

  method ParseInto(state: SessionState, m: RxMessage, arrival: u64) returns (answer: Answer)
    requires StartsWithSync(m.payload)
    modifies state, m
    ensures var (s, o) := Receive(old(state.View()), Packet(m.connection, m.payload, arrival, false));
            state.View() == s && answer == o.answer && Extended(m, old(m.values), old(m.metadata), o)
    ensures answer != Fine ==> m.metadata == old(m.metadata)
    ensures answer == Fine ==> m.Marked()
  {
    hide Parse, Arrive, IsMessageOf, MetadataOf, ValuesOf, WholeSampled, MarkIn;
    assert m.payload[0..] == m.payload;
    ghost var before := state.View();
    var out := ParseAt(state, m.payload, 0, arrival);
    match out {
      case Parsed(frameEnd, parsed) =>
        MessageAdds(parsed, Arrive(before, Parse(m.payload).fields, arrival).1, arrival);
        m.values := m.values + parsed.values;
        CodecLeavesMark(parsed, Arrive(before, Parse(m.payload).fields, arrival).1, arrival);
        MarkStays(m.metadata, parsed.metadata);
        m.metadata := m.metadata + parsed.metadata;
        answer := Fine;
      case NeedsMore =>
        answer := Truncated;
      case Rejected =>
        // a corrupted message must not poison the session
        state.Reset();
        answer := BadFrame;
    }
  }

  lemma MarkStays(a: seq<Meta>, b: seq<Meta>)
    requires MarkIn(b)
    ensures MarkIn(a + b)
  {
    var i :| 0 <= i < |b| && b[i].DatatypeCode?;
    assert (a + b)[|a| + i] == b[i];
  }

  lemma MessageAdds(m: Message, r: Report, arrival: nat)
    requires IsMessageOf(m, r, arrival)
    ensures m.report == r && Adds(Outcome(Fine, Some(r)), m.values, m.metadata)
  {}
}
