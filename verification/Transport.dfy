// CodecTransport with the CBRT codec: reads of any size, timeouts, session boundaries, end of
// stream and failures, turned into messages.
module Transport {
  import opened Bytes
  import opened Wire
  import opened Scan
  import opened Session
  import opened Clock
  import opened Samples
  import opened Decoder
  import opened Buffers

  // What the byte stream does next. A boundary says that it moved on to a new session.
  datatype Io = Read(bytes: seq<byte>, boundary: bool) | Timeout(boundary: bool) | Eof | IoError

  const READ_BUF: nat := 102400
  const MAX_BUFFER_SIZE: nat := 0x4000_0000

  ghost predicate ValidIo(e: Io) {
    e.Read? ==> 0 < |e.bytes| <= READ_BUF
  }

  // ---- What should be delivered ---------------------------------------------------------------

  // The bytes of each session in turn, the current one last.
  function Sessions(es: seq<Io>): (r: seq<seq<byte>>)
    ensures r != []
  {
    if es == [] then [[]]
    else
      var before := Sessions(es[..|es| - 1]);
      match es[|es| - 1]
      case Read(bytes, boundary) =>
        if boundary then before + [bytes]
        else before[..|before| - 1] + [before[|before| - 1] + bytes]
      case Timeout(boundary) => if boundary then before + [[]] else before
      case Eof => before + [[]]
      case IoError => before
  }

  // The simple decoder: all bytes of a session at once, from a fresh state.
  function OneShot(bytes: seq<byte>): seq<Event> {
    FollowAll(FRESH, Split(bytes).frames).1
  }

  function OneShots(sessions: seq<seq<byte>>): seq<Event> {
    if sessions == [] then []
    else OneShots(sessions[..|sessions| - 1]) + OneShot(sessions[|sessions| - 1])
  }

  function Current(es: seq<Io>): seq<byte> {
    var all := Sessions(es);
    all[|all| - 1]
  }

  // What is to be delivered after es: every session decoded on its own, in order.
  function Expected(es: seq<Io>): seq<Event> {
    OneShots(Sessions(es))
  }

  lemma EmptyOneShot()
    ensures Split([]) == Stream([], []) && OneShot([]) == []
  {
    EmptyIsStuck();
  }

  // What one more thing that the stream does means for the sessions.
  lemma SessionsRead(es: seq<Io>, bytes: seq<byte>, boundary: bool)
    ensures var ss, next := Sessions(es), Sessions(es + [Read(bytes, boundary)]);
            var begun := if boundary then ss + [[]] else ss;
            next == begun[..|begun| - 1] + [begun[|begun| - 1] + bytes]
  {
    assert (es + [Read(bytes, boundary)])[..|es|] == es;
    assert (Sessions(es) + [[]])[..|Sessions(es)|] == Sessions(es);
    assert [] + bytes == bytes;
  }

  lemma SessionsQuiet(es: seq<Io>, e: Io)
    requires !e.Read?
    ensures Sessions(es + [e]) == if e == Timeout(true) || e == Eof then Sessions(es) + [[]] else Sessions(es)
  {
    assert (es + [e])[..|es|] == es;
  }

  ghost predicate Uninterrupted(es: seq<Io>) {
    forall e | e in es :: e == Timeout(false) || e == IoError || (e.Read? && !e.boundary)
  }

  function BytesRead(es: seq<Io>): seq<byte> {
    if es == [] then []
    else BytesRead(es[..|es| - 1]) + if es[|es| - 1].Read? then es[|es| - 1].bytes else []
  }

  lemma {:induction false} OneSession(es: seq<Io>)
    requires Uninterrupted(es)
    ensures Sessions(es) == [BytesRead(es)]
  {
    if es != [] {
      var before, e := es[..|es| - 1], es[|es| - 1];
      OneSession(before);
      assert e in es;
      assert BytesRead(before) + [] == BytesRead(before);
    }
  }

  // The stream goes on to a new session.
  predicate Begins(e: Io) { e == Eof || (e.Read? && e.boundary) || e == Timeout(true) }

  // A session begins at the end of the last one or at a boundary, and it has all bytes read
  // from then on to the next: nothing is lost between sessions, and nothing is in two of them.
  lemma {:induction false} NextSession(before: seq<Io>, e: Io, es: seq<Io>)
    requires Begins(e) && Uninterrupted(es)
    ensures Sessions(before + [e] + es) == Sessions(before) + [(if e.Read? then e.bytes else []) + BytesRead(es)]
    decreases |es|
  {
    var all := before + [e] + es;
    if es == [] {
      assert all == before + [e] && all[..|all| - 1] == before;
      assert (if e.Read? then e.bytes else []) + [] == if e.Read? then e.bytes else [];
    } else {
      var init, last := es[..|es| - 1], es[|es| - 1];
      assert all[..|all| - 1] == before + [e] + init;
      assert last in es;
      NextSession(before, e, init);
      assert BytesRead(init) + [] == BytesRead(init);
      var first := if e.Read? then e.bytes else [];
      if last.Read? {
        assert first + BytesRead(init) + last.bytes == first + (BytesRead(init) + last.bytes);
      }
    }
  }

  // ---- What a message is ------------------------------------------------------------------------

  function Reports(ms: seq<Message>): (r: seq<Report>)
    ensures |r| == |ms| && forall i | 0 <= i < |ms| :: r[i] == ms[i].report
  {
    if ms == [] then [] else [ms[0].report] + Reports(ms[1..])
  }

  // When the messages were decoded.
  function Stamps(ms: seq<Message>): (r: seq<nat>)
    ensures |r| == |ms| && forall i | 0 <= i < |ms| :: r[i] == ms[i].timestamp
  {
    if ms == [] then [] else [ms[0].timestamp] + Stamps(ms[1..])
  }

  function EventsIn(ms: seq<Message>): seq<Event> { EventsOf(Reports(ms)) }

  lemma Joins(a: seq<Message>, b: seq<Message>)
    ensures Reports(a + b) == Reports(a) + Reports(b) && Stamps(a + b) == Stamps(a) + Stamps(b)
    ensures EventsIn(a + b) == EventsIn(a) + EventsIn(b)
  {
    hide Reports, Stamps, EventsOf;
  }

  lemma SplitFound(buf: seq<byte>)
    ensures match Next(buf)
            case Stuck(rest) => Split(buf) == Stream([], rest)
            case Found(f, rest) => Split(buf) == Stream([f] + Split(rest).frames, Split(rest).rest)
  {
    hide Next;
  }

  // The values and the metadata of the message are those of the frame it reports. Without a
  // time in the frame its host time is that of its arrival, and with one it is not later.
  ghost predicate Faithful(m: Message) {
    && m.metadata == MetadataOf(m.report.event)
    && (m.report.event.fullTs.None? <==> m.report.event.frame.ts.None?)
    && (m.report.event.fullTs.None? ==> m.report.baseUs == m.timestamp)
    && (m.report.event.fullTs.Some? && m.report.event.fullTs.value < TWO63 && m.timestamp < TWO63 ==>
          m.report.baseUs <= m.timestamp)
    && var f := m.report.event.frame;
       WholeSampled(f) && m.values == ValuesOf(f.profile.dtype, f.profile.channels, f.payload)
  }

  ghost predicate AllFaithful(ms: seq<Message>) {
    forall m | m in ms :: Faithful(m)
  }

  lemma MoreFaithful(ms: seq<Message>, m: Message, s: State, f: Fields, arrival: nat)
    requires AllFaithful(ms) && IsMessageOf(m, Arrive(s, f, arrival).1, arrival)
    ensures AllFaithful(ms + [m])
  {
    hide Arrive, MetadataOf, ValuesOf, WholeSampled;
    HostTimeOf(s, f, arrival);
    ReportKeepsFrame(s, f, arrival);
    assert Faithful(m);
  }

  lemma FirstFaithful(ms: seq<Message>)
    requires AllFaithful(ms) && ms != []
    ensures Faithful(ms[0]) && AllFaithful(ms[1..])
  {}

  lemma NoneFaithful()
    ensures AllFaithful([])
  {}

  // ---- All messages of a run --------------------------------------------------------------------

  // ms are the messages of one session: what decoding its bytes at once from a fresh state
  // gives, if its frames arrive when the messages say.
  ghost predicate OneSessionOf(bytes: seq<byte>, ms: seq<Message>) {
    var fs := Split(bytes).frames;
    |fs| == |ms| && Reports(ms) == ArriveAll(FRESH_STATE, fs, Stamps(ms)).1
  }

  // How many of the messages belong to the last session.
  function Own(bytes: seq<byte>): nat { |Split(bytes).frames| }

  // ms are the messages of all sessions, one session after another.
  ghost predicate Explains(sessions: seq<seq<byte>>, ms: seq<Message>) {
    if sessions == [] then ms == []
    else
      var last := sessions[|sessions| - 1];
      && Own(last) <= |ms|
      && Explains(sessions[..|sessions| - 1], ms[..|ms| - Own(last)])
      && OneSessionOf(last, ms[|ms| - Own(last)..])
  }

  lemma ExplainsSnoc(sessions: seq<seq<byte>>, bytes: seq<byte>, ms: seq<Message>, more: seq<Message>)
    requires Explains(sessions, ms) && OneSessionOf(bytes, more)
    ensures Explains(sessions + [bytes], ms + more)
  {
    hide Split, Reports, Stamps, ArriveAll;
    var all := sessions + [bytes];
    assert all[..|all| - 1] == sessions;
    assert (ms + more)[..|ms|] == ms && (ms + more)[|ms|..] == more;
  }

  lemma EmptyOneSession()
    ensures OneSessionOf([], []) && Own([]) == 0
  {
    EmptyOneShot();
  }

  // A session that has begun without any bytes.
  lemma ExplainsEmpty(sessions: seq<seq<byte>>, ms: seq<Message>)
    requires Explains(sessions, ms)
    ensures Explains(sessions + [[]], ms)
  {
    hide Explains, OneSessionOf, Own;
    EmptyOneSession();
    ExplainsSnoc(sessions, [], ms, []);
    assert ms + [] == ms;
  }

  // The state after the frames of a session that are delivered or pending.
  ghost function After(bytes: seq<byte>, ms: seq<Message>): State {
    if Own(bytes) <= |ms|
    then ArriveAll(FRESH_STATE, Split(bytes).frames, Stamps(ms[|ms| - Own(bytes)..])).0
    else FRESH_STATE
  }

  lemma SessionGrows(cur: seq<byte>, bytes: seq<byte>, own: seq<Message>, more: seq<Message>)
    requires OneSessionOf(cur, own)
    requires var fs := Split(Split(cur).rest + bytes).frames;
             var state := ArriveAll(FRESH_STATE, Split(cur).frames, Stamps(own)).0;
             |fs| == |more| && Reports(more) == ArriveAll(state, fs, Stamps(more)).1
    ensures var next := Split(Split(cur).rest + bytes);
            var state := ArriveAll(FRESH_STATE, Split(cur).frames, Stamps(own)).0;
            && OneSessionOf(cur + bytes, own + more) && Own(cur + bytes) == |own + more|
            && ArriveAll(FRESH_STATE, Split(cur + bytes).frames, Stamps(own + more)).0
               == ArriveAll(state, next.frames, Stamps(more)).0
            && Split(cur + bytes).rest == next.rest
  {
    hide Split, Reports, Stamps, ArriveAll;
    SplitAppend(cur, bytes);
    Joins(own, more);
    ArriveAppend(FRESH_STATE, Split(cur).frames, Split(Split(cur).rest + bytes).frames, Stamps(own), Stamps(more));
  }

  // More messages of the session that is going on.
  lemma ExplainsMore(sessions: seq<seq<byte>>, bytes: seq<byte>, ms: seq<Message>, more: seq<Message>)
    requires sessions != [] && Explains(sessions, ms)
    requires var cur := sessions[|sessions| - 1];
             var fs := Split(Split(cur).rest + bytes).frames;
             |fs| == |more| && Reports(more) == ArriveAll(After(cur, ms), fs, Stamps(more)).1
    ensures var cur := sessions[|sessions| - 1];
            var next := Split(Split(cur).rest + bytes);
            && Explains(sessions[..|sessions| - 1] + [cur + bytes], ms + more)
            && After(cur + bytes, ms + more) == ArriveAll(After(cur, ms), next.frames, Stamps(more)).0
            && Split(cur + bytes).rest == next.rest
  {
    hide Split, Reports, Stamps, ArriveAll, OneSessionOf;
    var cur := sessions[|sessions| - 1];
    var k := |ms| - Own(cur);
    var own := ms[k..];
    SessionGrows(cur, bytes, own, more);
    ExplainsSnoc(sessions[..|sessions| - 1], cur + bytes, ms[..k], own + more);
    assert ms + more == ms[..k] + (own + more);
    assert (ms + more)[k..] == own + more;
  }

  // Apart from host times, what is delivered depends on the bytes only.
  lemma {:induction false} EventsExplained(sessions: seq<seq<byte>>, ms: seq<Message>)
    requires Explains(sessions, ms)
    ensures EventsIn(ms) == OneShots(sessions)
    decreases |sessions|
  {
    hide Split, Reports, Stamps, ArriveAll, FollowAll, EventsOf;
    if sessions == [] {
      NoEvents();
    } else {
      var init, last := sessions[..|sessions| - 1], sessions[|sessions| - 1];
      var k := |ms| - Own(last);
      EventsExplained(init, ms[..k]);
      Joins(ms[..k], ms[k..]);
      assert ms == ms[..k] + ms[k..];
      EventsIgnoreArrival(FRESH_STATE, Split(last).frames, Stamps(ms[k..]));
    }
  }

  // ---- What a host learns from the messages of a session ---------------------------------------

  // The host times in the messages: never before the true time, never after the message was
  // decoded.
  lemma HostTimesDelivered(bytes: seq<byte>, ms: seq<Message>, p: Profile, ts: seq<nat>,
                           skew: int, delays: seq<nat>, i: nat)
    requires OneSessionOf(bytes, ms)
    requires StampedAt(Split(bytes).frames, p, ts) && AllFollowable(ts)
    requires i < |ms| && ts[|ts| - 1] - Origin(ts[0]) < TWO63
    requires ArriveWith(ts, delays, skew, Stamps(ms))
    ensures ts[i] + skew <= ms[i].report.baseUs <= ms[i].timestamp
    ensures i > 0 ==> ms[i].report.baseUs - (ts[i] + skew) <= ms[i - 1].report.baseUs - (ts[i - 1] + skew)
  {
    hide Split, ArriveAll, StampedAt, AllFollowable, ArriveWith, Origin;
    var fs := Split(bytes).frames;
    SameLength(fs, p, ts);
    HostTimeBounds(FRESH_STATE, fs, p, ts, skew, delays, Stamps(ms), i);
    assert Stamps(ms)[i] == ms[i].timestamp && Reports(ms)[i] == ms[i].report;
    if i > 0 {
      assert Reports(ms)[i - 1] == ms[i - 1].report;
    }
  }

  lemma SameLength(fs: seq<Fields>, p: Profile, ts: seq<nat>)
    requires StampedAt(fs, p, ts)
    ensures |fs| == |ts|
  {}

  function LostInAll(ms: seq<Message>): int {
    if ms == [] then 0 else LostIn(ms[0].metadata) + LostInAll(ms[1..])
  }

  // The losses that the messages of a session tell in their metadata add up to the frames
  // missing if and only if no gap exceeds 254, and then no message tells of a duplicate.
  lemma LossesDelivered(bytes: seq<byte>, ms: seq<Message>, p: Profile, ks: seq<nat>)
    requires OneSessionOf(bytes, ms) && AllFaithful(ms) && ms != []
    requires SentAs(Split(bytes).frames, p, ks)
    ensures var missing := Missing(ks[0], ks[1..]);
            && LostInAll(ms) <= missing
            && (LostInAll(ms) == missing <==> ShortGaps(ks))
            && (ShortGaps(ks) ==> forall m | m in ms :: SeqDuplicate !in m.metadata)
  {
    hide Split, ArriveAll, FollowAll, ShortGaps, AnyDuplicate, DroppedTotal, LostInAll, AllFaithful, Faithful, Reports;
    var fs := Split(bytes).frames;
    LossConserved(FRESH, fs, p, ks);
    EventsIgnoreArrival(FRESH_STATE, fs, Stamps(ms));
    LossesTold(ms);
  }

  lemma {:induction false} LossesTold(ms: seq<Message>)
    requires AllFaithful(ms)
    ensures LostInAll(ms) == DroppedTotal(EventsIn(ms))
    ensures !AnyDuplicate(EventsIn(ms)) ==> forall m | m in ms :: SeqDuplicate !in m.metadata
  {
    hide MetadataOf, LostIn, Lost, EventsIn, AnyDuplicate, Faithful, AllFaithful;
    if ms == [] {
      NoEvents();
    } else {
      var m, rest := ms[0], ms[1..];
      var e, es := m.report.event, EventsIn(ms[1..]);
      FirstFaithful(ms);
      LossesTold(rest);
      FirstEvent(ms);
      FaithfulMetadata(m);
      MetadataSay(e);
      if !AnyDuplicate([e] + es) {
        NoDuplicateIn(e, es);
      }
      assert ([e] + es)[1..] == es;
      assert ms == [m] + rest;
    }
  }

  lemma FaithfulMetadata(m: Message)
    requires Faithful(m)
    ensures m.metadata == MetadataOf(m.report.event)
  {}

  lemma FirstEvent(ms: seq<Message>)
    requires ms != []
    ensures EventsIn(ms) == [ms[0].report.event] + EventsIn(ms[1..])
  {
    hide Reports, EventsOf;
  }

  lemma NoDuplicateIn(e: Event, es: seq<Event>)
    requires !AnyDuplicate([e] + es)
    ensures !AnyDuplicate(es) && e.seqEvent != Duplicate
  {
    forall i | 0 <= i < |es| ensures es[i].seqEvent != Duplicate {
      assert ([e] + es)[i + 1] == es[i];
    }
    assert ([e] + es)[0] == e;
  }

  // ---- The transport ------------------------------------------------------------------------------

  predicate Ends(e: Io) { e == Eof || e == IoError }

  datatype Received = Got(message: Message) | Closed | Failed | Waiting

  // Of what the stream did between before and after, an end or a failure came last if at all,
  // and is what was returned.
  ghost predicate ReportsEnd(before: seq<Io>, after: seq<Io>, r: Received) {
    forall i | |before| <= i < |after| && Ends(after[i]) ::
      i == |after| - 1 && r == if after[i] == Eof then Closed else Failed
  }

  ghost predicate NoEnd(before: seq<Io>, after: seq<Io>) {
    forall i | |before| <= i < |after| :: !Ends(after[i])
  }

  lemma NoEndYet(before: seq<Io>, after: seq<Io>, e: Io, r: Received)
    requires NoEnd(before, after)
    ensures ReportsEnd(before, after, r)
    ensures !Ends(e) ==> NoEnd(before, after + [e])
    ensures ReportsEnd(before, after + [e], if e == Eof then Closed else Failed)
  {}

  class CodecTransport {
    const codec: CbrtCodec
    const buffer: ByteBuffer
    var pending: seq<Message>
    var stream: seq<Io>            // what the byte stream will do
    ghost var history: seq<Io>     // what it did so far
    ghost var delivered: seq<Message>  // what recv returned so far

    ghost predicate Valid()
      reads this, buffer, codec, codec.state
    {
      (forall e | e in stream :: ValidIo(e)) && UpTo(history) && AllFaithful(pending)
    }

    // Exactly the messages that es calls for are delivered or pending, and the codec is where
    // decoding the current session at once would be.
    ghost predicate UpTo(es: seq<Io>)
      reads this, buffer, codec, codec.state
    {
      && Explains(Sessions(es), delivered + pending)
      && InSession(After(Current(es), delivered + pending), Split(Current(es)).rest)
    }

    // The codec's state and the buffer.
    ghost predicate InSession(state: State, rest: seq<byte>)
      reads buffer, codec, codec.state
    {
      codec.state.View() == state && buffer.data == rest
    }

    ghost function Footprint(): set<object>
      reads this
    {
      {this, buffer, codec.state}
    }

    constructor (script: seq<Io>)
      requires forall e | e in script :: ValidIo(e)
      ensures Valid() && fresh(Footprint())
      ensures stream == script && history == [] && delivered == []
    {
      hide Explains, After, Split;
      codec := new CbrtCodec();
      buffer := new ByteBuffer();
      pending, stream, history, delivered := [], script, [], [];
      new;
      NothingExplained();
      NoneFaithful();
      assert delivered + pending == [];
    }

    // The inner loop of recv: decodes until nothing more is found.
    method DecodeAvailable() returns (ghost more: seq<Message>)
      requires AllFaithful(pending)
      modifies buffer, codec.state, this`pending
      ensures pending == old(pending) + more && AllFaithful(pending)
      ensures var s := Split(old(buffer.data));
              && |s.frames| == |more|
              && var (state, rs) := ArriveAll(old(codec.state.View()), s.frames, Stamps(more));
                 InSession(state, s.rest) && Reports(more) == rs
    {
      hide Next, Split, Arrive, ArriveAll, AllFaithful, Reports, Stamps;
      ghost var done: seq<Fields> := [];
      more := [];
      ghost var state0 := codec.state.View();
      NothingArrived(state0);
      assert pending + [] == pending && [] + Split(buffer.data).frames == Split(buffer.data).frames;
      while true
        invariant pending == old(pending) + more && AllFaithful(pending) && |done| == |more|
        invariant Split(old(buffer.data)) == Stream(done + Split(buffer.data).frames, Split(buffer.data).rest)
        invariant ArriveAll(state0, done, Stamps(more)) == (codec.state.View(), Reports(more))
        decreases |buffer.data|
      {
        ghost var state, step := codec.state.View(), Next(buffer.data);
        SplitFound(buffer.data);
        var now: u64 := *;
        var m := codec.Decode(buffer, now);
        if m.None? {
          assert done + [] == done;
          return;
        }
        MoreFaithful(pending, m.value, state, step.fields, now);
        OneMore(state0, state, done, more, step.fields, m.value, now);
        assert done + ([step.fields] + Split(buffer.data).frames) == done + [step.fields] + Split(buffer.data).frames;
        assert pending + [m.value] == old(pending) + (more + [m.value]);
        pending := pending + [m.value];
        done, more := done + [step.fields], more + [m.value];
      }
    }

    // Starts over with a fresh session. Nothing more can be decoded from the buffer at this
    // point, so decode_eof has no final frame to give.
    method StartSession()
      requires Next(buffer.data) == Stuck(buffer.data)
      modifies buffer, codec.state
      ensures InSession(FRESH_STATE, [])
    {
      hide Next, Arrive;
      if |buffer.data| > 0 {
        var now: u64 := *;
        var m := codec.Decode(buffer, now);
        assert m.None?;
      }
      codec.Reset();
      buffer.Clear();
    }

    method OnRead(ghost es: seq<Io>, bytes: seq<byte>, boundary: bool)
      requires UpTo(es) && pending == [] && ValidIo(Read(bytes, boundary))
      modifies buffer, codec.state, this`pending
      ensures UpTo(es + [Read(bytes, boundary)]) && AllFaithful(pending)
    {
      hide Next, Split, Explains, After, AllFaithful, Sessions, ArriveAll, Reports, Stamps;
      NoneFaithful();
      ghost var all := delivered;
      assert delivered + pending == all;
      SplitQuiet(Current(es));
      SessionsRead(es, bytes, boundary);
      if boundary {
        StartSession();
        ExplainsEmpty(Sessions(es), all);
        EmptyAfter(all);
      } else {
        RestIsShort(Current(es));
      }
      // so the source's check for an overflowing buffer never fires
      assert |buffer.data| + |bytes| <= MAX_BUFFER_SIZE;
      buffer.Extend(bytes);
      ghost var more := DecodeAvailable();
      assert pending == more;
      ExplainsMore(if boundary then Sessions(es) + [[]] else Sessions(es), bytes, all, more);
    }

    method OnTimeout(ghost es: seq<Io>, boundary: bool)
      requires UpTo(es) && pending == []
      modifies buffer, codec.state
      ensures UpTo(es + [Timeout(boundary)])
    {
      hide Next, Split, Explains, After, Sessions, Arrive;
      SplitQuiet(Current(es));
      SessionsQuiet(es, Timeout(boundary));
      if boundary {
        StartSession();
        ExplainsEmpty(Sessions(es), delivered + pending);
        EmptyAfter(delivered + pending);
      } else {
        // decode_timeout finds nothing that decode did not find
        if |buffer.data| > 0 {
          var now: u64 := *;
          var m := codec.Decode(buffer, now);
          assert m.None?;
        }
      }
    }

    method OnEof(ghost es: seq<Io>)
      requires UpTo(es) && pending == []
      modifies buffer, codec.state
      ensures UpTo(es + [Eof])
    {
      hide Next, Split, Explains, After, Sessions;
      SplitQuiet(Current(es));
      SessionsQuiet(es, Eof);
      StartSession();
      ExplainsEmpty(Sessions(es), delivered + pending);
      EmptyAfter(delivered + pending);
    }

    method PopFront() returns (r: Received)
      requires Valid() && pending != []
      modifies this`pending, this`delivered
      ensures Valid() && r.Got? && delivered == old(delivered) + [r.message] && Faithful(r.message)
    {
      hide Split, Explains, After, Sessions, AllFaithful, Faithful;
      FirstFaithful(pending);
      var m := pending[0];
      r := Got(m);
      assert delivered + [m] + pending[1..] == delivered + pending;
      delivered := delivered + [m];
      pending := pending[1..];
    }

    // Nothing is pending, so what was delivered is all that was due.
    lemma AllDelivered()
      requires Valid() && pending == []
      ensures Explains(Sessions(history), delivered) && EventsIn(delivered) == Expected(history)
    {
      hide Split, Explains, After, Sessions, EventsIn, OneShots;
      assert delivered + pending == delivered;
      EventsExplained(Sessions(history), delivered);
    }

    // Waits for the byte stream and takes in what it does next.
    method Wait() returns (e: Io)
      requires Valid() && pending == [] && stream != []
      modifies Footprint()
      ensures Valid() && delivered == old(delivered)
      ensures e == old(stream)[0] && history == old(history) + [e] && stream == old(stream)[1..]
      ensures history + stream == old(history + stream) && history[..|history| - 1] == old(history)
      ensures e == Eof || e == IoError ==> pending == []
    {
      hide Split, Explains, After, Sessions, AllFaithful, Faithful;
      e := stream[0];
      assert ValidIo(e);
      match e {
        case Eof => OnEof(history);
        case Read(bytes, boundary) => OnRead(history, bytes, boundary);
        case IoError => SessionsQuiet(history, IoError);
        case Timeout(boundary) => OnTimeout(history, boundary);
      }
      history, stream := history + [e], stream[1..];
    }

    // Returns the next message. Waiting stands for a call that has not returned yet: the
    // stream has done all that is known of it.
    method Recv() returns (r: Received)
      requires Valid()
      modifies Footprint()
      ensures Valid()
      ensures old(history) <= history && history + stream == old(history + stream)
      ensures r.Got? ==> delivered == old(delivered) + [r.message] && Faithful(r.message)
      ensures !r.Got? ==> delivered == old(delivered) && Explains(Sessions(history), delivered)
      ensures !r.Got? ==> EventsIn(delivered) == Expected(history)
      ensures r == Closed ==> |history| > |old(history)| && history[|history| - 1] == Eof
      ensures r == Failed ==> |history| > |old(history)| && history[|history| - 1] == IoError
      ensures r == Waiting ==> stream == []
      // the end of the stream and a failure are reported at once
      ensures ReportsEnd(old(history), history, r)
      // nothing is read while a message is there to return
      ensures |history| > |old(history)| ==> Explains(Sessions(history[..|history| - 1]), old(delivered))
    {
      hide Valid, Explains, Sessions, EventsIn, OneShots, Faithful, ReportsEnd, NoEnd;
      NothingHeard(history);
      while true
        invariant Valid()
        invariant old(history) <= history && history + stream == old(history + stream)
        invariant delivered == old(delivered)
        invariant NoEnd(old(history), history)
        invariant |history| > |old(history)| ==> Explains(Sessions(history[..|history| - 1]), old(delivered))
        decreases |stream|
      {
        if pending != [] {
          r := PopFront();
          NoEndYet(old(history), history, Eof, r);
          return;
        }
        AllDelivered();
        if stream == [] {
          NoEndYet(old(history), history, Eof, Waiting);
          return Waiting;
        }
        NoEndYet(old(history), history, stream[0], Waiting);
        var e := Wait();
        if e == Eof {
          AllDelivered();
          return Closed;
        } else if e == IoError {
          AllDelivered();
          return Failed;
        }
      }
    }
  }

  lemma NothingHeard(before: seq<Io>)
    ensures NoEnd(before, before)
  {}

  lemma NoEvents()
    ensures EventsIn([]) == []
  {}

  lemma NothingArrived(s: State)
    ensures ArriveAll(s, [], Stamps([])) == (s, Reports([]))
  {}

  // Before anything is read.
  lemma NothingExplained()
    ensures Explains(Sessions([]), []) && After(Current([]), []) == FRESH_STATE && Split(Current([])).rest == []
  {
    hide OneSessionOf, Own, ArriveAll, After;
    EmptyOneSession();
    ExplainsSnoc([], [], [], []);
    assert Sessions([]) == [] + [[]] == [[]];
    EmptyAfter([]);
  }

  lemma EmptyAfter(ms: seq<Message>)
    ensures After([], ms) == FRESH_STATE && Split([]) == Stream([], [])
  {
    EmptyOneShot();
  }

  // One more frame decoded.
  lemma OneMore(s0: State, s: State, done: seq<Fields>, ms: seq<Message>, f: Fields, m: Message, arrival: nat)
    requires |done| == |ms| && ArriveAll(s0, done, Stamps(ms)) == (s, Reports(ms))
    requires IsMessageOf(m, Arrive(s, f, arrival).1, arrival)
    ensures ArriveAll(s0, done + [f], Stamps(ms + [m])) == (Arrive(s, f, arrival).0, Reports(ms + [m]))
  {
    hide Arrive, ArriveAll;
    ArriveAppend(s0, done, [f], Stamps(ms), [arrival]);
    ArriveOne(s, f, arrival);
    assert Stamps(ms + [m]) == Stamps(ms) + [arrival];
    assert Reports(ms + [m]) == Reports(ms) + [m.report];
  }
}
