// The decoder as it runs: the session state, the parser with its cursor, the receive buffer
// and the codec that scans it in place.
module Decoder {
  import opened Bytes
  import opened Crc16
  import opened Wire
  import opened Scan
  import opened Session
  import opened Samples
  import opened Buffers

  type u64 = n: nat | n < TWO64

  // ---- Messages -----------------------------------------------------------------------------

  datatype Meta =
    | DatatypeCode(dtype: nat)
    | SampleTotal(samples: nat)
    | SeqDuplicate
    | SeqDropped(count: nat)
    | OtherMeta

  datatype Message = Message(report: Report, timestamp: nat, values: seq<Value>, metadata: seq<Meta>)

  function MetadataOf(e: Event): seq<Meta> {
    [DatatypeCode(e.frame.profile.dtype), SampleTotal(e.samples)]
    + match e.seqEvent
      case Quiet => []
      case Duplicate => [SeqDuplicate]
      case Dropped(n) => [SeqDropped(n)]
  }

  // How many frames the metadata say were lost before this one.
  function LostIn(metadata: seq<Meta>): int {
    if metadata == [] then 0
    else (if metadata[0].SeqDropped? then metadata[0].count else 0) + LostIn(metadata[1..])
  }

  // The metadata of a message tell what happened to the sequence numbers, the datatype, and
  // the number of samples.
  lemma MetadataSay(e: Event)
    ensures var md := MetadataOf(e);
            && LostIn(md) == Lost(e.seqEvent)
            && (SeqDuplicate in md <==> e.seqEvent == Duplicate)
            && (forall dt :: DatatypeCode(dt) in md <==> dt == e.frame.profile.dtype)
            && (forall n :: SampleTotal(n) in md <==> n == e.samples)
  {
    var head := [DatatypeCode(e.frame.profile.dtype), SampleTotal(e.samples)];
    var tail: seq<Meta> := match e.seqEvent
                           case Quiet => []
                           case Duplicate => [SeqDuplicate]
                           case Dropped(n) => [SeqDropped(n)];
    var md := MetadataOf(e);
    assert md == head + tail;
    assert md[1..][1..] == tail;
    assert LostIn(md) == LostIn(md[1..]) == LostIn(tail);
    if tail != [] {
      assert LostIn(tail) == (if tail[0].SeqDropped? then tail[0].count else 0) + LostIn(tail[1..]);
      assert tail[1..] == [];
    }
  }

  ghost predicate WholeSampled(f: Fields) {
    f.profile.channels > 0 && Exact(|f.payload|, f.profile.dtype, f.profile.channels)
  }

  ghost predicate IsMessageOf(m: Message, r: Report, arrival: nat) {
    && m.report == r
    && m.timestamp == arrival
    && m.metadata == MetadataOf(r.event)
    && var f := r.event.frame;
       WholeSampled(f) && m.values == ValuesOf(f.profile.dtype, f.profile.channels, f.payload)
  }

  // Every accepted frame holds a whole number of samples.
  lemma CompleteIsWhole(s: seq<byte>)
    requires Parse(s).Complete?
    ensures WholeSampled(Parse(s).fields)
  {
    hide Exact, FromLe, CrcMatches;
  }

  // The values of an accepted frame are one for each channel of each sample, in the order of
  // the payload, and the payload can be put together from them again.
  lemma AcceptedValues(s: seq<byte>)
    requires Parse(s).Complete?
    ensures var f := Parse(s).fields;
            var dt, channels := f.profile.dtype, f.profile.channels;
            && WholeSampled(f)
            && var vs := ValuesOf(dt, channels, f.payload);
               && |vs| == SampleCount(|f.payload|, dt, channels) * channels
               && (forall i | 0 <= i < |vs| :: vs[i].channel == i % channels)
               && (dt != BOOL ==> ValueBytes(vs) == f.payload)
               && (dt == BOOL ==> Pack(Switches(vs)) == f.payload)
  {
    hide Parse, Exact, FixedValues, BoolValues, ValueBytes, Pack, Switches, BytesPerDatatype, SampleCount;
    CompleteIsWhole(s);
    var f := Parse(s).fields;
    PayloadKept(f.profile.dtype, f.profile.channels, f.payload);
  }

  lemma PayloadKept(dt: nat, channels: nat, payload: seq<byte>)
    requires channels > 0 && Exact(|payload|, dt, channels)
    ensures var vs := ValuesOf(dt, channels, payload);
            && |vs| == SampleCount(|payload|, dt, channels) * channels
            && (forall i | 0 <= i < |vs| :: vs[i].channel == i % channels)
            && (dt != BOOL ==> ValueBytes(vs) == payload)
            && (dt == BOOL ==> Pack(Switches(vs)) == payload)
  {
    hide FixedValues, BoolValues, ValueBytes, Pack, Switches;
    if dt == BOOL {
      BoolSlots(|payload|, channels);
      BoolsKeepBits(channels, payload);
    } else {
      var w := BytesPerDatatype(dt).value;
      var count := |payload| / (channels * w) * channels;
      AllSlots(|payload|, channels, w);
      FixedSlots(|payload|, dt, channels, w);
      ValuesKeepBytes(dt, w, channels, payload, count);
      assert payload[..count * w] == payload;
      forall i | 0 <= i < count ensures FixedValues(dt, w, channels, payload, count)[i].channel == i % channels {
        FixedAt(dt, w, channels, payload, count, i);
      }
    }
  }

  // ---- Session state ----------------------------------------------------------------------------

  class SessionState {
    var profile: Option<Profile>
    var lastSeq: Option<byte>
    var lastTsRaw: Option<nat>
    var wrapCount: nat
    var frameCount: nat
    var tsAnchorUs: Option<int>

    ghost function View(): State
      reads this
    {
      State(Track(profile, lastSeq, lastTsRaw, wrapCount, frameCount), tsAnchorUs)
    }

    constructor ()
      ensures View() == FRESH_STATE
    {
      profile, lastSeq, lastTsRaw := None, None, None;
      wrapCount, frameCount, tsAnchorUs := 0, 0, None;
    }

    method Reset()
      modifies this
      ensures View() == FRESH_STATE
    {
      profile := None;
      lastSeq := None;
      lastTsRaw := None;
      wrapCount := 0;
      frameCount := 0;
      tsAnchorUs := None;
    }

    // Detects a wrap of the 32-bit clock.
    method Unwrap(raw: nat) returns (full: nat)
      modifies this`wrapCount, this`lastTsRaw
      ensures wrapCount == if Wrapped(old(lastTsRaw), raw) then Increment(old(wrapCount)) else old(wrapCount)
      ensures lastTsRaw == Some(raw) && full == FullTs(wrapCount, raw)
    {
      if lastTsRaw.Some? && raw < lastTsRaw.value && lastTsRaw.value - raw > 0x8000_0000 {
        wrapCount := if wrapCount + 1 < TWO64 then wrapCount + 1 else TWO64 - 1;
      }
      lastTsRaw := Some(raw);
      full := wrapCount * TWO32 % TWO64 + raw;
    }

    // Detects lost and repeated frames.
    method CheckSeq(seqNo: Option<byte>) returns (dropped: SeqEvent)
      modifies this`lastSeq
      ensures dropped == SeqEventOf(old(lastSeq), seqNo)
      ensures lastSeq == if seqNo.Some? then seqNo else old(lastSeq)
    {
      dropped := Quiet;
      if seqNo.Some? && lastSeq.Some? {
        var delta := (seqNo.value - lastSeq.value) % 0x100;
        if delta == 0 {
          dropped := Duplicate;
        } else if delta > 1 {
          dropped := Dropped(delta - 1);
        }
      }
      if seqNo.Some? {
        lastSeq := seqNo;
      }
    }

    // Maps device time to host time, by the smallest offset seen in the session.
    method AnchorTo(ts: nat, arrival: u64) returns (baseUs: nat)
      modifies this`tsAnchorUs
      ensures tsAnchorUs == Some(Anchored(old(tsAnchorUs), ts, arrival))
      ensures baseUs == BaseUs(tsAnchorUs.value, ts)
    {
      var candidate := Clamp(AsI64(arrival) - AsI64(ts));
      var anchor := candidate;
      if tsAnchorUs.Some? && tsAnchorUs.value < candidate {
        anchor := tsAnchorUs.value;
      }
      tsAnchorUs := Some(anchor);
      var base := Clamp(AsI64(ts) + anchor);
      baseUs := if base < 0 then 0 else base;
    }

    // Takes in a frame that passed validation.
    method Accept(f: Fields, arrival: u64) returns (r: Report)
      modifies this
      ensures (View(), r) == Arrive(old(View()), f, arrival)
    {
      hide SampleCount, SeqEventOf, FullTs, Wrapped, Increment, Anchored, BaseUs;
      if profile != Some(f.profile) {
        profile := Some(f.profile);
        lastSeq := None;
        lastTsRaw := None;
        wrapCount := 0;
        frameCount := 0;
        tsAnchorUs := None;
      }
      var fullTs := None;
      if f.ts.Some? {
        var full := Unwrap(f.ts.value);
        fullTs := Some(full);
      }
      var dropped := CheckSeq(f.seqNo);
      var baseUs := arrival;
      if fullTs.Some? {
        baseUs := AnchorTo(fullTs.value, arrival);
      }
      frameCount := Increment(frameCount);
      var samples := SampleCount(|f.payload|, f.profile.dtype, f.profile.channels);
      r := Report(Event(f, dropped, fullTs, samples), baseUs);
    }
  }

  // ---- Parsing one candidate ---------------------------------------------------------------------

  datatype Head = HeadShort | HeadInvalid | Head(
    flags: byte, channels: byte, seqNo: Option<byte>, ts: Option<nat>, period: Option<nat>,
    payloadLen: nat, cur: nat)

  // What the header of a frame at the start of s says.
  ghost predicate HeadFits(s: seq<byte>, syncPos: nat, h: Head) {
    if |s| < 6 then h == HeadShort
    else if Datatype(s[4]) == 0xF || s[5] == 0 || s[5] > 64 then h == HeadInvalid
    else if |s| < HeaderSize(s[4]) then h == HeadShort
    else
      && h.Head? && h.flags == s[4] && h.channels == s[5]
      && h.seqNo == (if HasSeq(s[4]) then Some(s[SEQ_OFF]) else None)
      && h.ts == (if HasTs(s[4]) then Some(FromLe(s[TsOff(s[4])..PeriodOff(s[4])])) else None)
      && h.period == (if HasPeriod(s[4]) then Some(FromLe(s[PeriodOff(s[4])..LenOff(s[4])])) else None)
      && h.payloadLen == PayloadLen(s)
      && h.cur == syncPos + HeaderSize(s[4])
  }

  // Reads the header with a cursor, field by field.
  method ReadHeader(buf: seq<byte>, syncPos: nat) returns (h: Head)
    requires syncPos <= |buf|
    ensures HeadFits(buf[syncPos..], syncPos, h)
  {
    hide FromLe;
    ghost var s := buf[syncPos..];
    if |buf| < syncPos + 6 {
      return HeadShort;
    }
    var flags := buf[syncPos + 4];
    if Datatype(flags) == 0xF {
      return HeadInvalid;
    }
    var channels := buf[syncPos + 5];
    if channels == 0 || channels > 64 {
      return HeadInvalid;
    }
    var cur := syncPos + 6;
    var seqNo := None;
    if HasSeq(flags) {
      if |buf| < cur + 1 {
        return HeadShort;
      }
      seqNo := Some(buf[cur]);
      cur := cur + 1;
    }
    assert cur == syncPos + TsOff(flags);
    var ts := None;
    if HasTs(flags) {
      if |buf| < cur + 4 {
        return HeadShort;
      }
      SliceOfSuffix(buf, syncPos, TsOff(flags), PeriodOff(flags));
      ts := Some(FromLe(buf[cur..cur + 4]));
      cur := cur + 4;
    }
    assert cur == syncPos + PeriodOff(flags);
    var period := None;
    if HasPeriod(flags) {
      if |buf| < cur + 2 {
        return HeadShort;
      }
      SliceOfSuffix(buf, syncPos, PeriodOff(flags), LenOff(flags));
      period := Some(FromLe(buf[cur..cur + 2]));
      cur := cur + 2;
    }
    if |buf| < cur + 2 {
      return HeadShort;
    }
    SliceOfSuffix(buf, syncPos, LenOff(flags), HeaderSize(flags));
    var payloadLen := FromLe(buf[cur..cur + 2]);
    cur := cur + 2;
    h := Head(flags, channels, seqNo, ts, period, payloadLen, cur);
  }

  lemma SliceOfSuffix(buf: seq<byte>, k: nat, i: nat, j: nat)
    requires i <= j && k + j <= |buf|
    ensures buf[k..][i..j] == buf[k + i..k + j]
  {}

  datatype Candidate = Valid(frameEnd: nat, fields: Fields) | Short | Invalid

  // Walks over the candidate frame at syncPos and checks it.
  method ReadFrame(buf: seq<byte>, syncPos: nat) returns (c: Candidate)
    requires syncPos <= |buf|
    ensures match Parse(buf[syncPos..])
            case NeedMore => c == Short
            case Reject => c == Invalid
            case Complete(f) => c == Valid(syncPos + |f.bytes|, f)
  {
    hide Checksum, Exact, FromLe, ProfileOf, HasSeq, HasTs, HasPeriod, HasCrc, Datatype;
    ghost var s := buf[syncPos..];
    var h := ReadHeader(buf, syncPos);
    if h.HeadShort? {
      return Short;
    } else if h.HeadInvalid? {
      return Invalid;
    }
    if !Exact(h.payloadLen, Datatype(h.flags), h.channels) {
      return Invalid;
    }
    if |buf| < h.cur + h.payloadLen {
      return Short;
    }
    var payloadStart, payloadEnd := h.cur, h.cur + h.payloadLen;
    ghost var n, end := payloadStart - syncPos, payloadEnd - syncPos;
    var frameEnd := payloadEnd;
    if HasCrc(h.flags) {
      if |buf| < payloadEnd + 2 {
        return Short;
      }
      SliceOfSuffix(buf, syncPos, end, end + 2);
      SliceOfSuffix(buf, syncPos, 4, end);
      var stored := FromLe(buf[payloadEnd..payloadEnd + 2]);
      var computed := Checksum(buf[syncPos + 4..payloadEnd]);
      if computed != stored {
        return Invalid;
      }
      frameEnd := payloadEnd + 2;
    }
    SliceOfSuffix(buf, syncPos, n, end);
    SliceOfSuffix(buf, syncPos, 0, frameEnd - syncPos);
    c := Valid(frameEnd, Fields(
      buf[syncPos..frameEnd], ProfileOf(h.flags, h.channels), h.seqNo, h.ts, h.period,
      buf[payloadStart..payloadEnd]));
  }

  datatype ParseOutcome = Parsed(frameEnd: nat, message: Message) | NeedsMore | Rejected

  // The outcome and the new state fit the verdict on the bytes from the sync word on.
  ghost predicate OutcomeFits(s: seq<byte>, syncPos: nat, arrival: nat,
                              before: State, after: State, out: ParseOutcome) {
    match Parse(s)
    case NeedMore => out == NeedsMore && after == before
    case Reject => out == Rejected && after == before
    case Complete(f) =>
      && out.Parsed? && out.frameEnd == syncPos + |f.bytes|
      && after == Arrive(before, f, arrival).0
      && IsMessageOf(out.message, Arrive(before, f, arrival).1, arrival)
  }

  method ParseAt(state: SessionState, buf: seq<byte>, syncPos: nat, arrival: u64) returns (out: ParseOutcome)
    requires syncPos <= |buf|
    modifies state
    ensures OutcomeFits(buf[syncPos..], syncPos, arrival, old(state.View()), state.View(), out)
  {
    hide Parse, Exact, Arrive, SampleCount, ValuesOf;
    var c := ReadFrame(buf, syncPos);
    match c {
      case Short => out := NeedsMore;
      case Invalid => out := Rejected;
      case Valid(frameEnd, f) =>
        CompleteIsWhole(buf[syncPos..]);
        ghost var before := state.View();
        var r := state.Accept(f, arrival);
        ReportKeepsFrame(before, f, arrival);
        var values := MaterializeValues(f.profile.dtype, f.profile.channels, f.payload, r.event.samples);
        out := Parsed(frameEnd, Message(r, arrival, values, MetadataOf(r.event)));
    }
  }

  lemma ReportKeepsFrame(s: State, f: Fields, arrival: nat)
    ensures Arrive(s, f, arrival).1.event.frame == f
    ensures Arrive(s, f, arrival).1.event.samples == SampleCount(|f.payload|, f.profile.dtype, f.profile.channels)
  {}

  // ---- The codec -----------------------------------------------------------------------------------

  // One call of decode, given what the scan finds in the buffer.
  ghost predicate DecodeFits(step: Step, rest: seq<byte>, arrival: nat,
                             before: State, after: State, m: Option<Message>) {
    && rest == step.rest
    && match step
       case Stuck(_) => m == None && after == before
       case Found(f, _) =>
         && after == Arrive(before, f, arrival).0
         && m.Some? && IsMessageOf(m.value, Arrive(before, f, arrival).1, arrival)
  }

  class CbrtCodec {
    const state: SessionState

    constructor ()
      ensures fresh(state) && state.View() == FRESH_STATE
    {
      state := new SessionState();
    }

    method Decode(src: ByteBuffer, arrival: u64) returns (m: Option<Message>)
      modifies src, state
      ensures DecodeFits(Next(old(src.data)), src.data, arrival, old(state.View()), state.View(), m)
    {
      hide Parse, Next, Arrive, AtSync, IsMessageOf;
      while true
        invariant Next(src.data) == Next(old(src.data))
        invariant state.View() == old(state.View())
        decreases |src.data|
      {
        if |src.data| < 4 {
          ShortIsStuck(src.data);
          return None;
        }
        var found := FindSync(src.data);
        if found.None? {
          // keep the last three bytes, in case the sync word is split across reads
          NextClean(src.data);
          src.Advance(|src.data| - 3);
          return None;
        }
        var syncPos := found.value;
        AtFirstSync(src.data, syncPos);
        var out := ParseAt(state, src.data, syncPos, arrival);
        match out {
          case Parsed(frameEnd, message) =>
            src.Advance(frameEnd);
            return Some(message);
          case NeedsMore =>
            src.Advance(syncPos);
            return None;
          case Rejected =>
            // one byte past the start of the rejected candidate
            src.Advance(syncPos + 1);
        }
      }
    }

    method Reset()
      modifies state
      ensures state.View() == FRESH_STATE
    {
      state.Reset();
    }
  }

  lemma AtFirstSync(data: seq<byte>, i: nat)
    requires FindSync(data) == Some(i)
    ensures match Parse(data[i..])
            case NeedMore => Next(data) == Stuck(data[i..])
            case Reject => Next(data) == Next(data[i + 1..])
            case Complete(f) => i + |f.bytes| <= |data| && Next(data) == Found(f, data[i + |f.bytes|..])
  {
    hide Parse, Next, AtSync, SyncAt;
    SyncLength(data, i);
    NextAtSync(data, i);
    SplitAtSync(data, i, data[i..]);
  }

  lemma SplitAtSync(data: seq<byte>, i: nat, w: seq<byte>)
    requires i < |data| && w == data[i..]
    ensures match Parse(w)
            case NeedMore => AtSync(w) == Stuck(data[i..])
            case Reject => AtSync(w) == Next(data[i + 1..])
            case Complete(f) => i + |f.bytes| <= |data| && AtSync(w) == Found(f, data[i + |f.bytes|..])
  {
    hide Parse, Next;
    match Parse(w) {
      case NeedMore =>
      case Reject => assert data[i + 1..] == w[1..];
      case Complete(f) =>
        CompleteIsPrefix(w);
        assert data[i + |f.bytes|..] == w[|f.bytes|..];
    }
  }

  lemma ShortIsStuck(buf: seq<byte>)
    requires |buf| < 4
    ensures Next(buf) == Stuck(buf)
  {}
}
