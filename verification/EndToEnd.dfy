// Whole builder sessions: any calls in any order, what they put on the wire, and what the
// decoder makes of it.
module EndToEnd {
  import opened Bytes
  import opened Wire
  import opened Scan
  import opened Session
  import opened Clock
  import opened Samples
  import opened Builder
  import opened Decoder
  import opened Transport

  // ---- Sessions of the builder ---------------------------------------------------------------

  datatype Call =
    | CallTs(ts: nat)
    | CallPeriod(period: nat)
    | CallValue(want: nat, z: int)
    | CallRaw(bytes: seq<byte>)
    | CallBools(values: seq<byte>)
    | CallFinalize

  // The arguments are of the C types, and a boolean sample has one value per channel.
  ghost predicate ValidCall(c: Config, call: Call) {
    match call
    case CallTs(ts) => ts < 0x1_0000_0000
    case CallPeriod(period) => period < 0x1_0000
    case CallValue(want, z) => InRange(want, z)
    case CallRaw(_) => true
    case CallBools(values) => |values| == c.channels
    case CallFinalize => true
  }

  ghost predicate ValidCalls(c: Config, calls: seq<Call>) {
    forall call | call in calls :: ValidCall(c, call)
  }

  function Apply(c: Config, d: Draft, call: Call): (Draft, seq<Frame>)
    requires ValidConfig(c)
  {
    match call
    case CallTs(ts) => (SetTs(c, d, ts), [])
    case CallPeriod(period) => (SetPeriod(c, d, period), [])
    case CallValue(want, z) => (Append(c, d, want, z), [])
    case CallRaw(bytes) => (AppendRaw(c, d, bytes), [])
    case CallBools(values) => (AppendBoolSample(c, d, values), [])
    case CallFinalize =>
      var (e, f) := Finalize(c, d);
      (e, if f.Some? then [f.value] else [])
  }

  // The builder after the calls, and the frames they emitted.
  function Run(c: Config, d: Draft, calls: seq<Call>): (Draft, seq<Frame>)
    requires ValidConfig(c)
    decreases |calls|
  {
    if calls == [] then (d, [])
    else
      var (d1, fs) := Apply(c, d, calls[0]);
      var (d2, more) := Run(c, d1, calls[1..]);
      (d2, fs + more)
  }

  lemma {:induction false} RunAppend(c: Config, d: Draft, a: seq<Call>, b: seq<Call>)
    requires ValidConfig(c)
    ensures var (d1, fs) := Run(c, d, a);
            var (d2, more) := Run(c, d1, b);
            Run(c, d, a + b) == (d2, fs + more)
    decreases |a|
  {
    hide Apply;
    if a == [] {
      assert a + b == b;
      assert [] + Run(c, d, b).1 == Run(c, d, b).1;
    } else {
      assert (a + b)[1..] == a[1..] + b;
      var (d1, fs) := Apply(c, d, a[0]);
      RunAppend(c, d1, a[1..], b);
      var (d2, fs2) := Run(c, d1, a[1..]);
      var more := Run(c, d2, b).1;
      assert fs + fs2 + more == fs + (fs2 + more);
    }
  }

  // After an error no call changes anything, and nothing is emitted any more.
  lemma {:induction false} ErrorSticks(c: Config, d: Draft, calls: seq<Call>)
    requires ValidConfig(c) && d.err != Ok
    ensures Run(c, d, calls) == (d, [])
    decreases |calls|
  {
    if calls != [] {
      var fs: seq<Frame> := [];
      assert Apply(c, d, calls[0]) == (d, fs);
      ErrorSticks(c, d, calls[1..]);
      assert fs + fs == fs;
    }
  }

  lemma NoErrorBefore(c: Config, d: Draft, calls: seq<Call>)
    requires ValidConfig(c) && calls != [] && Run(c, d, calls).0.err == Ok
    ensures d.err == Ok && Apply(c, d, calls[0]).0.err == Ok
  {
    hide Apply;
    if d.err != Ok {
      ErrorSticks(c, d, calls);
    }
    var (d1, fs) := Apply(c, d, calls[0]);
    if d1.err != Ok {
      ErrorSticks(c, d1, calls[1..]);
    }
  }

  // How many calls go through before the first error.
  function Successes(c: Config, d: Draft, calls: seq<Call>): (k: nat)
    requires ValidConfig(c)
    ensures k <= |calls|
    decreases |calls|
  {
    if calls == [] || Apply(c, d, calls[0]).0.err != Ok then 0
    else 1 + Successes(c, Apply(c, d, calls[0]).0, calls[1..])
  }

  // All frames of a session come from the calls before its first error.
  lemma {:induction false} FramesBeforeError(c: Config, d: Draft, calls: seq<Call>)
    requires ValidConfig(c) && d.err == Ok
    ensures var k := Successes(c, d, calls);
            && Run(c, d, calls[..k]).0.err == Ok
            && Run(c, d, calls).1 == Run(c, d, calls[..k]).1
            && (k < |calls| ==> Run(c, d, calls).0.err != Ok)
    decreases |calls|
  {
    hide Finalize, SetTs, SetPeriod, Append, AppendRaw, AppendBoolSample;
    var k := Successes(c, d, calls);
    if calls != [] {
      var (d1, fs) := Apply(c, d, calls[0]);
      if d1.err != Ok {
        ErrorSticks(c, d1, calls[1..]);
        NothingOnError(c, d, calls[0]);
      } else {
        FramesBeforeError(c, d1, calls[1..]);
        assert calls[..k][1..] == calls[1..][..k - 1];
      }
    }
  }

  lemma NothingOnError(c: Config, d: Draft, call: Call)
    requires ValidConfig(c) && Apply(c, d, call).0.err != Ok
    ensures Apply(c, d, call).1 == []
  {}

  // ---- One frame --------------------------------------------------------------------------------

  function BytesOfCall(call: Call): seq<byte> {
    match call
    case CallValue(want, z) => Stored(want, z)
    case CallRaw(bytes) => bytes
    case _ => []
  }

  function BitsOfCall(call: Call): seq<bool> {
    if call.CallBools? then Truths(call.values) else []
  }

  function BytesAppended(calls: seq<Call>): seq<byte> {
    if calls == [] then [] else BytesOfCall(calls[0]) + BytesAppended(calls[1..])
  }

  function BitsAppended(calls: seq<Call>): seq<bool> {
    if calls == [] then [] else BitsOfCall(calls[0]) + BitsAppended(calls[1..])
  }

  // The last time set by the calls, or else t.
  function LastTs(calls: seq<Call>, t: nat): nat {
    if calls == [] then t
    else LastTs(calls[1..], if calls[0].CallTs? then calls[0].ts else t)
  }

  function LastPeriod(calls: seq<Call>, p: nat): nat {
    if calls == [] then p
    else LastPeriod(calls[1..], if calls[0].CallPeriod? then calls[0].period else p)
  }

  // The draft that the calls, none of them a finalize, make of d.
  function Made(c: Config, d: Draft, calls: seq<Call>): Draft {
    Draft(
      d.seqNo, LastTs(calls, d.ts), LastPeriod(calls, d.period),
      if c.dtype == BOOL then Pack(d.bits + BitsAppended(calls)) else d.payload + BytesAppended(calls),
      d.bits + BitsAppended(calls), Ok)
  }

  ghost predicate Packs(c: Config, d: Draft) {
    c.dtype == BOOL ==> d.payload == Pack(d.bits)
  }

  lemma StepMakes(c: Config, d: Draft, call: Call)
    requires ValidConfig(c) && ValidCall(c, call) && Packs(c, d) && d.err == Ok
    requires call != CallFinalize && Apply(c, d, call).0.err == Ok
    ensures Apply(c, d, call) == (Made(c, d, [call]), [])
    ensures Packs(c, Apply(c, d, call).0)
  {
    hide Stored, Truths, Pack, Room, HasTs, HasPeriod, WidthOf, AppendBits, BytesAppended, BitsAppended;
    OneCall(call);
    assert d.bits + [] == d.bits && d.payload + [] == d.payload;
    if call.CallBools? {
      BitsKept(c, d, Truths(call.values));
      BitsPacked(c, d, Truths(call.values));
    }
  }

  lemma OneCall(call: Call)
    ensures BytesAppended([call]) == BytesOfCall(call) && BitsAppended([call]) == BitsOfCall(call)
    ensures forall t, p :: LastTs([call], t) == (if call.CallTs? then call.ts else t)
                           && LastPeriod([call], p) == (if call.CallPeriod? then call.period else p)
  {
    hide BytesOfCall, BitsOfCall;
    ConsCall([call]);
    var none := [call][1..];
    assert none == [];
    assert BytesAppended(none) == [] && BitsAppended(none) == [];
    assert BytesOfCall(call) + [] == BytesOfCall(call) && BitsOfCall(call) + [] == BitsOfCall(call);
  }

  lemma MadeCons(c: Config, d: Draft, calls: seq<Call>)
    requires calls != []
    ensures Made(c, Made(c, d, [calls[0]]), calls[1..]) == Made(c, d, calls)
  {
    hide BytesOfCall, BitsOfCall, BytesAppended, BitsAppended, LastTs, LastPeriod, Pack;
    var call, rest := calls[0], calls[1..];
    OneCall(call);
    ConsCall(calls);
    assert d.bits + BitsOfCall(call) + BitsAppended(rest) == d.bits + (BitsOfCall(call) + BitsAppended(rest));
    assert d.payload + BytesOfCall(call) + BytesAppended(rest) == d.payload + (BytesOfCall(call) + BytesAppended(rest));
  }

  lemma ConsCall(calls: seq<Call>)
    requires calls != []
    ensures var call, rest := calls[0], calls[1..];
            && BytesAppended(calls) == BytesOfCall(call) + BytesAppended(rest)
            && BitsAppended(calls) == BitsOfCall(call) + BitsAppended(rest)
            && (forall t :: LastTs(calls, t) == LastTs(rest, if call.CallTs? then call.ts else t))
            && (forall p :: LastPeriod(calls, p) == LastPeriod(rest, if call.CallPeriod? then call.period else p))
  {
    hide BytesOfCall, BitsOfCall;
  }

  lemma {:induction false} RunMakes(c: Config, d: Draft, calls: seq<Call>)
    requires ValidConfig(c) && ValidCalls(c, calls) && Packs(c, d)
    requires CallFinalize !in calls && Run(c, d, calls).0.err == Ok
    ensures Run(c, d, calls) == (Made(c, d, calls), [])
    ensures Packs(c, Made(c, d, calls))
    decreases |calls|
  {
    hide Apply, Made, Packs, ValidCall;
    if calls == [] {
      MadeOfNone(c, d);
    } else {
      NoErrorBefore(c, d, calls);
      assert ValidCall(c, calls[0]);
      StepMakes(c, d, calls[0]);
      MadeCons(c, d, calls);
      RunMakes(c, Made(c, d, [calls[0]]), calls[1..]);
      var fs: seq<Frame> := [];
      assert fs + fs == fs;
    }
  }

  lemma MadeOfNone(c: Config, d: Draft)
    ensures d.err == Ok && Packs(c, d) ==> Made(c, d, []) == d
  {
    hide Pack;
    assert d.bits + [] == d.bits && d.payload + [] == d.payload;
  }

  // The frame that calls make, given only its sequence number.
  function FrameFor(c: Config, calls: seq<Call>, seqNo: byte): Frame
    requires ValidConfig(c)
  {
    hide Pack, Padded, Pads, BitsAppended, BytesAppended, LastTs, LastPeriod;
    var bits := BitsAppended(calls);
    Frame(
      Header(WireFlags(c), c.channels, seqNo, LastTs(calls, 0), LastPeriod(calls, 0)),
      if c.dtype == BOOL then Pack(Padded(bits, |bits| / c.channels, c.channels)) else BytesAppended(calls))
  }

  // A finished frame is determined by the calls made for it and its number; what was sent
  // before has no influence, and it leaves no trace for the frames that follow.
  lemma FrameByFrame(c: Config, n: byte, calls: seq<Call>, rest: seq<Call>)
    requires ValidConfig(c) && ValidCalls(c, calls) && CallFinalize !in calls
    requires Run(c, NewDraft(n), calls + [CallFinalize]).0.err == Ok
    ensures var more := Run(c, NewDraft((n + 1) % 0x100), rest);
            Run(c, NewDraft(n), calls + [CallFinalize] + rest) == (more.0, [FrameFor(c, calls, n)] + more.1)
  {
    hide Finalize, Made, FrameFor, Packs, ValidCall;
    var d := NewDraft(n);
    RunAppend(c, d, calls + [CallFinalize], rest);
    RunAppend(c, d, calls, [CallFinalize]);
    var (d1, fs1) := Run(c, d, calls);
    RunOne(c, d1);
    FinalizeOk(c, d1);
    assert Packs(c, d) by { EmptyPacks(c, n); }
    RunMakes(c, d, calls);
    FinalizeMade(c, n, calls);
    assert [] + [FrameFor(c, calls, n)] == [FrameFor(c, calls, n)];
  }

  lemma EmptyPacks(c: Config, n: byte)
    ensures Packs(c, NewDraft(n))
  {}

  lemma RunOne(c: Config, d: Draft)
    requires ValidConfig(c)
    ensures var (e, f) := Finalize(c, d);
            Run(c, d, [CallFinalize]) == (e, if f.Some? then [f.value] else [])
  {
    hide Finalize;
    var fs := Apply(c, d, CallFinalize).1;
    assert [CallFinalize][1..] == [] && fs + [] == fs;
  }

  lemma FinalizeOk(c: Config, d: Draft)
    requires ValidConfig(c)
    ensures Finalize(c, d).0.err == Ok <==> Finalize(c, d).1.Some?
    ensures Finalize(c, d).0.err == Ok ==> d.err == Ok
  {
    hide PadBits, FrameOf;
  }

  lemma PaddedDraft(c: Config, d: Draft)
    requires ValidConfig(c) && c.dtype == BOOL && Packs(c, d) && PadBits(c, d).err == Ok
    ensures PadBits(c, d).payload == Pack(Padded(d.bits, |d.bits| / c.channels, c.channels))
    ensures PadBits(c, d) == d.(payload := PadBits(c, d).payload, bits := PadBits(c, d).bits)
  {
    hide Pack, PadZeros, Pads, AppendBits, AppendBit, Put, PackByte;
    var zeros := PadZeros(|d.bits| / c.channels, c.channels);
    assert PadBits(c, d) == AppendBits(c, d, zeros);
    BitsKept(c, d, zeros);
    BitsPacked(c, d, zeros);
  }

  lemma FinalizeMade(c: Config, n: byte, calls: seq<Call>)
    requires ValidConfig(c)
    requires var d := Made(c, NewDraft(n), calls); Packs(c, d) && Finalize(c, d).0.err == Ok
    ensures Finalize(c, Made(c, NewDraft(n), calls)) == (NewDraft((n + 1) % 0x100), Some(FrameFor(c, calls, n)))
  {
    hide BytesAppended, BitsAppended, LastTs, LastPeriod, Pack, Padded, Packs, WireFlags, AppendBits, PadBits;
    var d := Made(c, NewDraft(n), calls);
    FinalizeOk(c, d);
    assert [] + BitsAppended(calls) == BitsAppended(calls);
    assert [] + BytesAppended(calls) == BytesAppended(calls);
    if c.dtype == BOOL {
      PaddedDraft(c, d);
    } else {
      NotPadded(c, d);
    }
  }

  lemma NotPadded(c: Config, d: Draft)
    requires c.dtype != BOOL && c.channels > 0
    ensures PadBits(c, d) == d
  {}

  // ---- When a frame succeeds ------------------------------------------------------------------------

  // The call suits the session: the field is there, the type is the session's, and raw bytes
  // are whole samples.
  predicate Suits(c: Config, call: Call)
    requires ValidConfig(c)
  {
    match call
    case CallTs(_) => HasTs(c.flags)
    case CallPeriod(_) => HasPeriod(c.flags)
    case CallValue(want, _) => want == c.dtype
    case CallRaw(bytes) =>
      c.dtype != BOOL && c.channels * WidthOf(c.dtype) != 0 && |bytes| % (c.channels * WidthOf(c.dtype)) == 0
    case CallBools(_) => c.dtype == BOOL
    case CallFinalize => true
  }

  lemma PackedLength(bits: seq<bool>, more: seq<bool>)
    ensures |Pack(bits)| <= |Pack(bits + more)|
  {
    hide Pack;
  }

  // Booleans are appended without an error exactly when the bytes they make fit.
  lemma {:induction false} BitsFit(c: Config, d: Draft, bs: seq<bool>)
    requires d.err == Ok && d.payload == Pack(d.bits) && Room(c, |d.payload|)
    ensures AppendBits(c, d, bs).err == Ok <==> Room(c, |Pack(d.bits + bs)|)
    decreases |bs|
  {
    hide Pack, PackByte, HasTs, HasPeriod, HasCrc, HasSeq, AppendBits;
    if bs == [] {
      assert d.bits + bs == d.bits;
      NoBits(c, d);
    } else {
      var init, b := bs[..|bs| - 1], bs[|bs| - 1];
      var e := AppendBits(c, d, init);
      assert bs == init + [b];
      AppendBitsSnoc(c, d, init, b);
      assert d.bits + init + [b] == d.bits + bs;
      BitsFit(c, d, init);
      if e.err == Ok {
        BitsKept(c, d, init);
        BitsPacked(c, d, init);
        PackSnoc(e.bits, b);
      } else {
        PackedLength(d.bits + init, [b]);
      }
    }
  }

  // A call goes through exactly when it suits the session and what it makes has room.
  lemma StepSucceeds(c: Config, d: Draft, call: Call)
    requires ValidConfig(c) && ValidCall(c, call) && call != CallFinalize
    requires d.err == Ok && Packs(c, d) && Room(c, |d.payload|)
    ensures Apply(c, d, call).0.err == Ok <==> Suits(c, call) && Room(c, |Made(c, d, [call]).payload|)
  {
    hide Stored, Truths, Pack, Room, HasTs, HasPeriod, WidthOf, AppendBits, BytesAppended, BitsAppended;
    OneCall(call);
    assert d.payload + [] == d.payload && d.bits + [] == d.bits;
    if call.CallBools? && c.dtype == BOOL {
      BitsFit(c, d, Truths(call.values));
    }
  }

  // Why a call does not go through.
  lemma WhyRefused(c: Config, d: Draft, call: Call)
    requires ValidConfig(c) && ValidCall(c, call) && call != CallFinalize
    requires d.err == Ok && Packs(c, d) && Room(c, |d.payload|)
    ensures var e := Apply(c, d, call).0.err;
            && (e == Overflow <==> Suits(c, call) && !Room(c, |Made(c, d, [call]).payload|))
            && (e == BadState <==> (call.CallTs? || call.CallPeriod?) && !Suits(c, call))
            && (e == BadAlign <==> call.CallRaw? && c.dtype != BOOL && !Suits(c, call))
            && (e == WrongType <==>
                  || (call.CallValue? && call.want != c.dtype)
                  || (call.CallBools? && c.dtype != BOOL)
                  || (call.CallRaw? && c.dtype == BOOL))
  {
    hide Stored, Truths, Pack, Room, HasTs, HasPeriod, WidthOf, AppendBits, Made, Packs;
    StepSucceeds(c, d, call);
    if call.CallBools? {
      BitsOverflow(c, d, Truths(call.values));
    }
  }

  lemma {:induction false} BitsOverflow(c: Config, d: Draft, bs: seq<bool>)
    requires d.err == Ok
    ensures AppendBits(c, d, bs).err == Ok || AppendBits(c, d, bs).err == Overflow
  {
    hide Room, PackByte;
    if bs != [] {
      BitsOverflow(c, d, bs[..|bs| - 1]);
    }
  }

  lemma PayloadGrows(c: Config, d: Draft, calls: seq<Call>)
    requires Packs(c, d)
    ensures |d.payload| <= |Made(c, d, calls).payload|
  {
    hide Pack, BitsAppended, BytesAppended;
    PackedLength(d.bits, BitsAppended(calls));
  }

  lemma RoomBelow(c: Config, m: nat, n: nat)
    requires m <= n && Room(c, n)
    ensures Room(c, m)
  {}

  // Calls go through exactly when each suits the session and all they make has room.
  lemma {:induction false} CallsSucceed(c: Config, d: Draft, calls: seq<Call>)
    requires ValidConfig(c) && ValidCalls(c, calls) && CallFinalize !in calls
    requires d.err == Ok && Packs(c, d) && Room(c, |d.payload|)
    ensures Run(c, d, calls).0.err == Ok <==>
            (forall call | call in calls :: Suits(c, call)) && Room(c, |Made(c, d, calls).payload|)
    decreases |calls|
  {
    hide Apply, Made, Packs, ValidCall, Suits, Room;
    if calls == [] {
      MadeOfNone(c, d);
    } else {
      var call, rest := calls[0], calls[1..];
      assert ValidCall(c, call);
      assert calls == [call] + rest;
      StepSucceeds(c, d, call);
      MadeCons(c, d, calls);
      var d1 := Apply(c, d, call).0;
      if d1.err == Ok {
        StepMakes(c, d, call);
        CallsSucceed(c, d1, rest);
      } else {
        ErrorSticks(c, d1, rest);
        FirstTooMuch(c, d, calls);
      }
    }
  }

  lemma FirstTooMuch(c: Config, d: Draft, calls: seq<Call>)
    requires calls != [] && Packs(c, d)
    ensures Room(c, |Made(c, d, calls).payload|) ==> Room(c, |Made(c, d, [calls[0]]).payload|)
  {
    hide Room, Pack, BitsAppended, BytesAppended, LastTs, LastPeriod;
    MadeCons(c, d, calls);
    var d1 := Made(c, d, [calls[0]]);
    PayloadGrows(c, d1, calls[1..]);
    if Room(c, |Made(c, d, calls).payload|) {
      RoomBelow(c, |d1.payload|, |Made(c, d, calls).payload|);
    }
  }

  // A frame is emitted exactly when every call made for it suits the session, the encoded
  // frame fits the capacity, and its payload is at most 65535 bytes long. What Init has
  // checked is that a frame without payload fits.
  lemma FrameSucceeds(c: Config, n: byte, calls: seq<Call>)
    requires ValidConfig(c) && ValidCalls(c, calls) && CallFinalize !in calls && Room(c, 0)
    ensures var f := FrameFor(c, calls, n);
            Run(c, NewDraft(n), calls + [CallFinalize]).0.err == Ok <==>
            && (forall call | call in calls :: Suits(c, call))
            && |Encode(f.header, f.payload)| <= c.cap && |f.payload| <= 0xFFFF
  {
    hide Finalize, Made, FrameFor, Packs, ValidCall, Room, Suits, Encode;
    var d := NewDraft(n);
    RunAppend(c, d, calls, [CallFinalize]);
    assert Packs(c, d) by { EmptyPacks(c, n); }
    CallsSucceed(c, d, calls);
    var d1 := Run(c, d, calls).0;
    RunOne(c, d1);
    FinalizeOk(c, d1);
    FinalPayload(c, n, calls);
    if d1.err == Ok {
      RunMakes(c, d, calls);
      FinalizeSucceeds(c, d1);
    }
  }

  // What the frame holds, against what was appended for it.
  lemma FinalPayload(c: Config, n: byte, calls: seq<Call>)
    requires ValidConfig(c) && ValidCalls(c, calls)
    ensures var f, d := FrameFor(c, calls, n), Made(c, NewDraft(n), calls);
            && (|Encode(f.header, f.payload)| <= c.cap <==> Room(c, |f.payload|))
            && f.payload == Final(c, d)
            && (Room(c, |f.payload|) ==> Room(c, |d.payload|))
  {
    hide Room, Final, Made, Encode, WireFlags, BitsAppended, BytesAppended, LastTs, LastPeriod, Padded, Pack;
    var f, d := FrameFor(c, calls, n), Made(c, NewDraft(n), calls);
    RoomIsFit(c, f.header, f.payload);
    FrameIsFinal(c, n, calls);
    if Room(c, |f.payload|) {
      RoomBelow(c, |d.payload|, |f.payload|);
    }
  }

  lemma FrameIsFinal(c: Config, n: byte, calls: seq<Call>)
    requires ValidConfig(c)
    ensures var d := Made(c, NewDraft(n), calls);
            FrameFor(c, calls, n).payload == Final(c, d) && |d.payload| <= |Final(c, d)|
  {
    hide Pack, PadZeros, BitsAppended, BytesAppended, LastTs, LastPeriod, WireFlags;
    var d := Made(c, NewDraft(n), calls);
    assert [] + BitsAppended(calls) == BitsAppended(calls) && [] + BytesAppended(calls) == BytesAppended(calls);
    PackedLength(d.bits, PadZeros(|d.bits| / c.channels, c.channels));
  }

  // The payload that finalize emits.
  function Final(c: Config, d: Draft): seq<byte>
    requires c.channels > 0
  {
    if c.dtype == BOOL then Pack(Padded(d.bits, |d.bits| / c.channels, c.channels)) else d.payload
  }

  lemma FinalizeSucceeds(c: Config, d: Draft)
    requires ValidConfig(c) && d.err == Ok && Packs(c, d) && Room(c, |d.payload|)
    ensures Finalize(c, d).0.err == Ok <==> Room(c, |Final(c, d)|) && |Final(c, d)| <= 0xFFFF
    ensures Finalize(c, d).0.err == Ok || Finalize(c, d).0.err == Overflow
  {
    hide Room, Pack, PadZeros, AppendBits, FrameOf;
    if c.dtype == BOOL {
      BitsOverflow(c, d, PadZeros(|d.bits| / c.channels, c.channels));
      BitsFit(c, d, PadZeros(|d.bits| / c.channels, c.channels));
      if PadBits(c, d).err == Ok {
        PaddedDraft(c, d);
      }
    }
  }

  // ---- All frames of a session ----------------------------------------------------------------------

  ghost predicate Sound(c: Config, d: Draft) {
    d.err == Ok ==>
      && d.ts < 0x1_0000_0000 && d.period < 0x1_0000
      && Packs(c, d) && (c.dtype == BOOL ==> c.channels > 0 && |d.bits| % c.channels == 0)
  }

  // What all frames of a session have in common.
  ghost predicate Proper(c: Config, f: Frame)
    requires ValidConfig(c)
  {
    && ValidHeader(f.header) && |f.payload| < 0x1_0000
    && f.header.flags == WireFlags(c) && f.header.channels == c.channels
    && (c.dtype == BOOL ==> Exact(|f.payload|, BOOL, c.channels))
  }

  lemma StepSound(c: Config, d: Draft, call: Call)
    requires ValidConfig(c) && ValidCall(c, call) && Sound(c, d)
    ensures var (e, fs) := Apply(c, d, call);
            && Sound(c, e)
            && |fs| <= 1
            && e.seqNo == (d.seqNo + |fs|) % 0x100
            && (|fs| == 1 ==> e == NewDraft(e.seqNo))
            && (|fs| == 1 ==> Proper(c, fs[0]) && fs[0].header.seqNo == d.seqNo)
  {
    hide Stored, Truths, Pack, Room, HasTs, HasPeriod, WidthOf, AppendBits, WireFlags, Exact, PadBits;
    match call {
      case CallFinalize => FinalizeSound(c, d);
      case CallBools(values) => BoolsSound(c, d, values);
      case _ =>
    }
  }

  lemma BoolsSound(c: Config, d: Draft, values: seq<byte>)
    requires ValidConfig(c) && Sound(c, d) && |values| == c.channels
    ensures var e := AppendBoolSample(c, d, values); Sound(c, e) && e.seqNo == d.seqNo
  {
    hide LeBytes, Truths, Pack, Room, AppendBits;
    if d.err == Ok && c.dtype == BOOL {
      var bs := Truths(values);
      BitsKeepSeq(c, d, bs);
      if AppendBits(c, d, bs).err == Ok {
        BitsKept(c, d, bs);
        BitsPacked(c, d, bs);
        MoreSamples(|d.bits|, c.channels);
      }
    }
  }

  lemma {:induction false} BitsKeepSeq(c: Config, d: Draft, bs: seq<bool>)
    ensures AppendBits(c, d, bs).seqNo == d.seqNo
  {
    if bs != [] {
      BitsKeepSeq(c, d, bs[..|bs| - 1]);
    }
  }

  lemma FinalizeSound(c: Config, d: Draft)
    requires ValidConfig(c) && Sound(c, d)
    ensures var (e, f) := Finalize(c, d);
            && Sound(c, e)
            && (f.None? ==> e.seqNo == d.seqNo)
            && (f.Some? ==> e == NewDraft((d.seqNo + 1) % 0x100))
            && (f.Some? ==> Proper(c, f.value) && f.value.header.seqNo == d.seqNo)
  {
    hide Pack, AppendBits, WireFlags, Exact, BoolValues, Switches, Pads, PadZeros;
    EmptyPacks(c, (d.seqNo + 1) % 0x100);
    WireFlagsValid(c);
    if d.err == Ok && c.dtype == BOOL {
      var k := |d.bits| / c.channels;
      var zeros := PadZeros(k, c.channels);
      BitsKeepSeq(c, d, zeros);
      if AppendBits(c, d, zeros).err == Ok {
        BitsKept(c, d, zeros);
        BitsPacked(c, d, zeros);
        ExactMultiple(|d.bits|, c.channels);
        PaddedDecodes(d.bits, k, c.channels);
      }
    }
  }

  lemma WireFlagsValid(c: Config)
    requires ValidConfig(c)
    ensures Datatype(WireFlags(c)) == c.dtype != 0xF
  {}

  lemma NextNumber(n: nat, k: nat, i: nat)
    ensures ((n + k) % 0x100 + i) % 0x100 == (n + (k + i)) % 0x100
  {}

  // Every frame emitted is a proper frame with the next number.
  lemma {:induction false} EmittedFrame(c: Config, d: Draft, calls: seq<Call>, i: nat)
    requires ValidConfig(c) && ValidCalls(c, calls) && Sound(c, d)
    requires i < |Run(c, d, calls).1|
    ensures var f := Run(c, d, calls).1[i]; Proper(c, f) && f.header.seqNo == (d.seqNo + i) % 0x100
    decreases |calls|
  {
    hide Apply, Sound, Proper, ValidCall, WireFlags, NewDraft, ValidConfig;
    assert ValidCall(c, calls[0]);
    StepSound(c, d, calls[0]);
    var (d1, fs) := Apply(c, d, calls[0]);
    if i >= |fs| {
      EmittedFrame(c, d1, calls[1..], i - |fs|);
      NextNumber(d.seqNo, |fs|, i - |fs|);
    }
  }

  // ---- Whole samples -----------------------------------------------------------------------------------

  // How many values a call appends to a frame of fixed-width samples.
  function UnitsOf(c: Config, call: Call): nat {
    match call
    case CallValue(_, _) => 1
    case CallRaw(bytes) => if WidthOf(c.dtype) == 0 then 0 else |bytes| / WidthOf(c.dtype)
    case _ => 0
  }

  // Before every finalize the number of values appended is a multiple of the channels; frames
  // of booleans need no such care. n values are in the frame already.
  predicate WholeFrames(c: Config, calls: seq<Call>, n: nat)
    requires ValidConfig(c)
    decreases |calls|
  {
    if calls == [] then true
    else if calls[0] == CallFinalize then (c.dtype == BOOL || n % c.channels == 0) && WholeFrames(c, calls[1..], 0)
    else WholeFrames(c, calls[1..], n + UnitsOf(c, calls[0]))
  }

  predicate WholePayload(c: Config, f: Frame)
    requires ValidConfig(c)
  {
    Exact(|f.payload|, c.dtype, c.channels)
  }

  predicate AllWhole(c: Config, fs: seq<Frame>)
    requires ValidConfig(c)
  {
    forall f | f in fs :: WholePayload(c, f)
  }

  // n values of the frame's datatype are in the payload.
  predicate Holds(c: Config, d: Draft, n: nat) {
    c.dtype != BOOL ==> |d.payload| == n * WidthOf(c.dtype)
  }

  lemma HoldsStep(c: Config, d: Draft, call: Call, n: nat)
    requires ValidConfig(c) && d.err == Ok && Holds(c, d, n)
    requires call != CallFinalize && Apply(c, d, call).0.err == Ok
    ensures Holds(c, Apply(c, d, call).0, n + UnitsOf(c, call))
  {
    hide Stored, Truths, Pack, Room, HasTs, HasPeriod, AppendBits, WidthOf;
    WidthsAgree(c.dtype);
    if c.dtype != BOOL {
      var w := WidthOf(c.dtype);
      match call {
        case CallValue(want, z) => Distribute(n, 1, w);
        case CallRaw(bytes) =>
          RawUnits(|bytes|, c.channels, w);
          Distribute(n, |bytes| / w, w);
        case _ =>
      }
    }
  }

  lemma RawUnits(len: nat, channels: nat, w: nat)
    requires channels * w != 0 && len % (channels * w) == 0
    ensures w > 0 && len / w * w == len
  {
    var q := len / (channels * w);
    assert len == q * (channels * w) == q * channels * w;
    DivMod(len, w, q * channels, 0);
  }

  lemma ExactUnits(c: Config, n: nat)
    requires ValidConfig(c) && c.dtype != BOOL
    ensures Exact(n * WidthOf(c.dtype), c.dtype, c.channels) <==> n % c.channels == 0
  {
    WidthsAgree(c.dtype);
    ScaledMod(n, c.channels, WidthOf(c.dtype));
  }

  lemma ScaledMod(n: nat, k: nat, w: nat)
    requires k > 0 && w > 0
    ensures k * w > 0 && n * w / (k * w) == n / k && n * w % (k * w) == n % k * w
    ensures n * w % (k * w) == 0 <==> n % k == 0
  {
    var q, r := n / k, n % k;
    assert n == q * k + r;
    ScaledParts(q, k, r, w);
    Positive(k, w);
    MulLe(r + 1, k, w);
    Distribute(r, 1, w);
    DivMod(n * w, k * w, q, r * w);
    Positive(r, w);
  }

  lemma ScaledParts(q: nat, k: nat, r: nat, w: nat)
    ensures (q * k + r) * w == q * (k * w) + r * w
  {
    Distribute(q * k, r, w);
    assert q * k * w == q * (k * w);
  }

  lemma Positive(k: nat, w: nat)
    requires w > 0
    ensures k * w > 0 <==> k > 0
  {}

  lemma FinalizeWhole(c: Config, d: Draft, n: nat)
    requires ValidConfig(c) && Sound(c, d) && Holds(c, d, n) && Finalize(c, d).1.Some?
    ensures WholePayload(c, Finalize(c, d).1.value) <==> c.dtype == BOOL || n % c.channels == 0
  {
    hide Exact, WidthOf, Sound, AppendBits;
    FinalizeSound(c, d);
    if c.dtype != BOOL {
      ExactUnits(c, n);
    }
  }

  // The frames emitted are whole exactly when the caller counts right.
  lemma {:induction false} WholeIff(c: Config, d: Draft, calls: seq<Call>, n: nat)
    requires ValidConfig(c) && ValidCalls(c, calls) && Sound(c, d) && Holds(c, d, n)
    requires Run(c, d, calls).0.err == Ok
    ensures WholeFrames(c, calls, n) <==> AllWhole(c, Run(c, d, calls).1)
    decreases |calls|
  {
    hide Sound, Holds, ValidCall, UnitsOf, WholePayload, Finalize;
    if calls != [] {
      var call, rest := calls[0], calls[1..];
      assert ValidCall(c, call);
      NoErrorBefore(c, d, calls);
      StepSound(c, d, call);
      var (d1, fs) := Apply(c, d, call);
      if call == CallFinalize {
        FinalizeOk(c, d);
        FinalizeWhole(c, d, n);
        assert Holds(c, d1, 0) by { EmptyHolds(c, d1); }
        WholeIff(c, d1, rest, 0);
        assert fs == [Finalize(c, d).1.value];
      } else {
        NothingEmitted(c, d, call);
        HoldsStep(c, d, call, n);
        WholeIff(c, d1, rest, n + UnitsOf(c, call));
      }
    }
  }

  lemma NothingEmitted(c: Config, d: Draft, call: Call)
    requires ValidConfig(c) && call != CallFinalize
    ensures Apply(c, d, call).1 == []
  {}

  lemma EmptyHolds(c: Config, d: Draft)
    requires d.payload == []
    ensures Holds(c, d, 0)
  {}

  // ---- From the builder to the decoder ---------------------------------------------------------------

  // The frames of a whole session of the builder.
  function Emitted(c: Config, calls: seq<Call>): seq<Frame>
    requires ValidConfig(c)
  {
    Run(c, NewDraft(0), calls).1
  }

  // The calls of a session up to the first error, if there is one.
  function GoodCalls(c: Config, calls: seq<Call>): seq<Call>
    requires ValidConfig(c)
  {
    calls[..Successes(c, NewDraft(0), calls)]
  }

  lemma NewSound(c: Config, n: byte)
    requires ValidConfig(c)
    ensures Sound(c, NewDraft(n)) && Holds(c, NewDraft(n), 0)
  {}

  lemma EmittedWhole(c: Config, calls: seq<Call>)
    requires ValidConfig(c) && ValidCalls(c, calls)
    ensures WholeFrames(c, GoodCalls(c, calls), 0) <==> AllWhole(c, Emitted(c, calls))
  {
    hide Run, WholeFrames, AllWhole, Sound, Holds, Successes, ValidCall;
    NewSound(c, 0);
    FramesBeforeError(c, NewDraft(0), calls);
    WholeIff(c, NewDraft(0), GoodCalls(c, calls), 0);
  }

  // Who always finishes whole samples does so up to the first error too: the condition can be
  // checked on the calls alone, before any is made.
  lemma {:induction false} WholePrefix(c: Config, calls: seq<Call>, k: nat, n: nat)
    requires ValidConfig(c) && k <= |calls| && WholeFrames(c, calls, n)
    ensures WholeFrames(c, calls[..k], n)
    decreases |calls|
  {
    hide UnitsOf;
    if k > 0 {
      var rest := calls[1..];
      assert calls[..k][1..] == rest[..k - 1] && calls[..k][0] == calls[0];
      if calls[0] == CallFinalize {
        WholePrefix(c, rest, k - 1, 0);
      } else {
        WholePrefix(c, rest, k - 1, n + UnitsOf(c, calls[0]));
      }
    }
  }

  lemma WholeCallsAreGood(c: Config, calls: seq<Call>)
    requires ValidConfig(c) && WholeFrames(c, calls, 0)
    ensures WholeFrames(c, GoodCalls(c, calls), 0)
  {
    hide WholeFrames, Successes;
    WholePrefix(c, calls, Successes(c, NewDraft(0), calls), 0);
  }

  // Half a sample: one byte for two channels is finished without an error, and what is sent is
  // not accepted.
  lemma HalfSampleRefused()
    ensures var c, calls := Config(0, 0, 2, 16), [CallValue(0, 7), CallFinalize];
            && ValidConfig(c) && ValidCalls(c, calls) && GoodCalls(c, calls) == calls
            && !WholeFrames(c, calls, 0)
            && Emitted(c, calls) == [Frame(Header(0, 2, 0, 0, 0), [7])]
            && Split(Wired(Emitted(c, calls))).frames != FieldsOfAll(Emitted(c, calls))
  {
    hide Split, SyncAt, Wired, FieldsOfAll, PadBits;
    var c, calls := Config(0, 0, 2, 16), [CallValue(0, 7), CallFinalize];
    var d0 := NewDraft(0);
    var d1 := d0.(payload := [7]);
    OneByte(7);
    assert [] + [7] == [7];
    assert calls[1..] == [CallFinalize] && calls[1..][1..] == [];
    assert Apply(c, d0, calls[0]) == (d1, []);
    NotPadded(c, d1);
    var f := Frame(Header(0, 2, 0, 0, 0), [7]);
    assert Apply(c, d1, CallFinalize) == (NewDraft(1), [f]);
    RunOne(c, d1);
    assert Run(c, d0, calls).1 == [] + [f] == [f];
    assert Successes(c, d1, calls[1..]) == 1;
    assert WholeFrames(c, calls, 0) == WholeFrames(c, calls[1..], 1) == false;
    NoSyncInNothing();
    SessionRoundTrip(c, calls, []);
    assert [] + Wired(Emitted(c, calls)) == Wired(Emitted(c, calls));
  }

  lemma NoSyncInNothing()
    ensures forall j: nat :: !SyncAt([], j)
  {}

  lemma OneByte(v: byte)
    ensures LeBytes(v, 1) == [v] && Pow256(1) == 0x100
  {
    assert LeBytes(v, 1) == [v] + LeBytes(v / 0x100, 0);
    Pow256Values();
  }

  // Decoding all bytes a session of the builder sent, after any bytes without a sync word,
  // gives back the frames in order, with nothing left over, if and only if the caller always
  // finished whole samples.
  lemma SessionRoundTrip(c: Config, calls: seq<Call>, g: seq<byte>)
    requires ValidConfig(c) && ValidCalls(c, calls)
    requires forall j: nat :: !SyncAt(g, j)
    ensures var fs := Emitted(c, calls);
            var s := Split(g + Wired(fs));
            && (s.frames == FieldsOfAll(fs) <==> WholeFrames(c, GoodCalls(c, calls), 0))
            && (WholeFrames(c, GoodCalls(c, calls), 0) && fs != [] ==> s.rest == [])
  {
    hide Run, WholeFrames, Sound, Successes, ValidCall, Split, SyncAt, FieldsOfAll, Wired, Exact;
    var fs := Emitted(c, calls);
    EmittedWhole(c, calls);
    NewSound(c, 0);
    AllProper(c, calls);
    if AllWhole(c, fs) {
      forall f | f in fs ensures Sendable(f) {
        assert WholePayload(c, f);
        WireFlagsValid(c);
      }
      StreamRoundTrip(g, fs);
    }
    if Split(g + Wired(fs)).frames == FieldsOfAll(fs) {
      forall i | 0 <= i < |fs| ensures WholePayload(c, fs[i]) {
        AcceptedIsWhole(g + Wired(fs), i);
        FieldsOfEach(fs, i);
        WireFlagsValid(c);
        assert fs[i] in fs;
        assert Proper(c, fs[i]);
      }
    }
  }

  lemma AllProper(c: Config, calls: seq<Call>)
    requires ValidConfig(c) && ValidCalls(c, calls)
    ensures forall f | f in Emitted(c, calls) :: Proper(c, f)
  {
    hide Run, Proper, Sound, ValidCall;
    NewSound(c, 0);
    var fs := Emitted(c, calls);
    forall i | 0 <= i < |fs| ensures Proper(c, fs[i]) {
      EmittedFrame(c, NewDraft(0), calls, i);
    }
  }

  lemma AcceptedIsWhole(bytes: seq<byte>, i: nat)
    requires i < |Split(bytes).frames|
    ensures WholeSampled(Split(bytes).frames[i])
  {
    hide Parse, Split, WholeSampled, SyncAt;
    assert bytes[0..] == bytes;
    FramesInPlace(bytes, 0, i);
    CompleteIsWhole(bytes[Offsets(bytes, 0)[i]..]);
  }

  lemma {:induction false} FieldsOfEach(fs: seq<Frame>, i: nat)
    requires i < |fs|
    ensures FieldsOfAll(fs)[i] == FieldsOf(fs[i].header, fs[i].payload)
  {
    hide FieldsOf;
    if i > 0 {
      FieldsOfEach(fs[1..], i - 1);
    }
  }

  // What the frames fs, numbered from n on, are reported as: all of them, with nothing lost or
  // repeated.
  ghost predicate Reported(es: seq<Event>, fs: seq<Frame>) {
    && |es| == |fs|
    && forall i | 0 <= i < |fs| ::
         es[i].frame == FieldsOf(fs[i].header, fs[i].payload) && es[i].seqEvent == Quiet
  }

  // t is where the decoder stands before frame n of a session, all frames before it received.
  ghost predicate Before(c: Config, t: Track, n: nat)
    requires ValidConfig(c)
  {
    && (t == FRESH || t.profile == Some(ProfileOf(WireFlags(c), c.channels)))
    && (t.lastSeq.Some? ==> HasSeq(WireFlags(c)) && n > 0 && t.lastSeq.value == (n - 1) % 0x100)
  }

  lemma NextQuietFrame(c: Config, t: Track, f: Frame, n: nat)
    requires ValidConfig(c) && Before(c, t, n) && Proper(c, f) && f.header.seqNo == n % 0x100
    ensures var (t1, e) := Follow(t, FieldsOf(f.header, f.payload));
            && Before(c, t1, n + 1)
            && e.frame == FieldsOf(f.header, f.payload) && e.seqEvent == Quiet
  {
    hide Exact, Encode, FullTs, SampleCount, Wrapped, WireFlags, HasSeq, HasTs, HasPeriod;
    StepOfNumbers(n);
  }

  lemma {:induction false} NothingLost(c: Config, t: Track, fs: seq<Frame>, n: nat)
    requires ValidConfig(c) && Before(c, t, n)
    requires forall i | 0 <= i < |fs| :: Proper(c, fs[i]) && fs[i].header.seqNo == (n + i) % 0x100
    ensures Reported(FollowAll(t, FieldsOfAll(fs)).1, fs)
    decreases |fs|
  {
    hide Follow, FieldsOf, Proper, Before;
    if fs != [] {
      assert Proper(c, fs[0]) && fs[0].header.seqNo == (n + 0) % 0x100;
      NextQuietFrame(c, t, fs[0], n);
      var t1 := Follow(t, FieldsOf(fs[0].header, fs[0].payload)).0;
      forall i | 0 <= i < |fs[1..]|
        ensures Proper(c, fs[1..][i]) && fs[1..][i].header.seqNo == (n + 1 + i) % 0x100
      {
        assert fs[1..][i] == fs[i + 1];
        assert fs[i + 1].header.seqNo == (n + (i + 1)) % 0x100;
      }
      NothingLost(c, t1, fs[1..], n + 1);
      assert FieldsOfAll(fs)[1..] == FieldsOfAll(fs[1..]);
      assert forall i | 1 <= i < |fs| :: fs[i] == fs[1..][i - 1];
    }
  }

  lemma StepOfNumbers(n: nat)
    ensures n > 0 ==> (n % 0x100 - (n - 1) % 0x100) % 0x100 == 1
  {}

  // However the bytes of a session arrive, recv is to deliver each of its frames once, in
  // order, with nothing reported as lost or repeated.
  lemma SessionDelivered(c: Config, calls: seq<Call>, g: seq<byte>, es: seq<Io>)
    requires ValidConfig(c) && ValidCalls(c, calls) && WholeFrames(c, GoodCalls(c, calls), 0)
    requires forall j: nat :: !SyncAt(g, j)
    requires Uninterrupted(es) && BytesRead(es) == g + Wired(Emitted(c, calls))
    ensures Reported(Expected(es), Emitted(c, calls))
  {
    hide Run, WholeFrames, Sound, Successes, ValidCall, Split, SyncAt, FieldsOfAll, Wired, Exact, FollowAll,
      Sessions, Reported, Proper;
    var fs := Emitted(c, calls);
    SessionRoundTrip(c, calls, g);
    NewSound(c, 0);
    forall i | 0 <= i < |fs| ensures Proper(c, fs[i]) && fs[i].header.seqNo == (0 + i) % 0x100 {
      EmittedFrame(c, NewDraft(0), calls, i);
    }
    NothingLost(c, FRESH, fs, 0);
    OneSession(es);
    OneShotsOfOne(BytesRead(es));
  }

  // And each message has a host time between the true time and the time it was decoded: from
  // the device's clock through the frame to the message.
  lemma SessionHostTimes(c: Config, calls: seq<Call>, g: seq<byte>, es: seq<Io>, ms: seq<Message>,
                         ts: seq<nat>, skew: int, delays: seq<nat>, i: nat)
    requires ValidConfig(c) && ValidCalls(c, calls) && WholeFrames(c, GoodCalls(c, calls), 0)
    requires forall j: nat :: !SyncAt(g, j)
    requires Uninterrupted(es) && BytesRead(es) == g + Wired(Emitted(c, calls))
    requires Explains(Sessions(es), ms)
    requires HasTs(c.flags) && StampedBy(Emitted(c, calls), ts) && AllFollowable(ts)
    requires i < |ms| && |ts| == |ms| && ts[|ts| - 1] - Origin(ts[0]) < TWO63
    requires ArriveWith(ts, delays, skew, Stamps(ms))
    ensures ts[i] + skew <= ms[i].report.baseUs <= ms[i].timestamp
  {
    hide Run, WholeFrames, Sound, Successes, ValidCall, Split, SyncAt, FieldsOfAll, Wired, Exact, ArriveAll,
      Sessions, Proper, StampedAt, AllFollowable, ArriveWith, Origin, OneSessionOf, StampedBy, Stamps;
    var bytes, fs := BytesRead(es), Emitted(c, calls);
    SessionRoundTrip(c, calls, g);
    AllProper(c, calls);
    OneSession(es);
    OnlySession(bytes, ms);
    FieldsStamped(c, fs, ts);
    HostTimesDelivered(bytes, ms, ProfileOf(WireFlags(c), c.channels), ts, skew, delays, i);
  }

  // The frames carry the low 32 bits of the device times ts.
  ghost predicate StampedBy(fs: seq<Frame>, ts: seq<nat>) {
    && |fs| == |ts|
    && (forall i | 0 <= i < |fs| :: fs[i].header.ts == ts[i] % TWO32)
    && forall i | 0 <= i < |ts| - 1 :: ts[i] <= ts[i + 1]
  }

  lemma FieldsStamped(c: Config, fs: seq<Frame>, ts: seq<nat>)
    requires ValidConfig(c) && HasTs(c.flags) && StampedBy(fs, ts) && forall f | f in fs :: Proper(c, f)
    ensures StampedAt(FieldsOfAll(fs), ProfileOf(WireFlags(c), c.channels), ts)
  {
    hide Encode, Exact, HasTs, HasSeq, HasPeriod, WireFlags, ProfileOf;
    SameFlags(c);
    forall i | 0 <= i < |fs|
      ensures FieldsOfAll(fs)[i].profile == ProfileOf(WireFlags(c), c.channels)
      ensures FieldsOfAll(fs)[i].ts == Some(ts[i] % TWO32)
    {
      FieldsOfEach(fs, i);
      assert fs[i] in fs;
    }
  }

  lemma OnlySession(bytes: seq<byte>, ms: seq<Message>)
    requires Explains([bytes], ms)
    ensures OneSessionOf(bytes, ms)
  {
    hide OneSessionOf, Own;
    assert [bytes][..0] == [];
    assert ms[0..] == ms;
  }

  lemma OneShotsOfOne(bytes: seq<byte>)
    ensures OneShots([bytes]) == OneShot(bytes)
  {
    hide OneShot;
    assert [bytes][..0] == [];
    assert [] + OneShot(bytes) == OneShot(bytes);
  }

  // ---- What was appended is what is decoded -----------------------------------------------------------

  function NumbersAppended(calls: seq<Call>): seq<int> {
    if calls == [] then []
    else (if calls[0].CallValue? then [calls[0].z] else []) + NumbersAppended(calls[1..])
  }

  // Only the typed appender of the session's own datatype, and no raw bytes.
  ghost predicate TypedOnly(c: Config, calls: seq<Call>) {
    forall call | call in calls :: !call.CallRaw? && (call.CallValue? ==> call.want == c.dtype)
  }

  lemma {:induction false} TypesMatch(c: Config, d: Draft, calls: seq<Call>)
    requires ValidConfig(c) && Run(c, d, calls).0.err == Ok
    ensures forall call | call in calls && call.CallValue? :: call.want == c.dtype
    decreases |calls|
  {
    hide SetTs, SetPeriod, AppendRaw, AppendBoolSample, Finalize, Stored, Room, WidthOf;
    if calls != [] {
      NoErrorBefore(c, d, calls);
      TypesMatch(c, Apply(c, d, calls[0]).0, calls[1..]);
      assert calls == [calls[0]] + calls[1..];
    }
  }

  lemma {:induction false} SlotsAppended(c: Config, calls: seq<Call>, w: nat)
    requires TypedOnly(c, calls) && c.dtype < BOOL && w == WidthOf(c.dtype)
    ensures |BytesAppended(calls)| == |NumbersAppended(calls)| * w
  {
    hide Stored, WidthOf, TypedOnly;
    WidthsAgree(c.dtype);
    if calls != [] {
      TypedTail(c, calls);
      SlotsAppended(c, calls[1..], w);
      Distribute(|NumbersAppended(calls[1..])|, 1, w);
    }
  }

  lemma TypedTail(c: Config, calls: seq<Call>)
    requires TypedOnly(c, calls) && calls != []
    ensures TypedOnly(c, calls[1..]) && !calls[0].CallRaw? && (calls[0].CallValue? ==> calls[0].want == c.dtype)
  {
    assert calls[0] in calls;
  }

  lemma {:induction false} SlotAppended(c: Config, calls: seq<Call>, w: nat, i: nat)
    requires TypedOnly(c, calls) && c.dtype < BOOL && w == WidthOf(c.dtype) && i < |NumbersAppended(calls)|
    requires (i + 1) * w <= |BytesAppended(calls)|
    ensures Slot(BytesAppended(calls), w, i) == Stored(c.dtype, NumbersAppended(calls)[i])
  {
    hide Stored, WidthOf, TypedOnly, Slot;
    WidthsAgree(c.dtype);
    var call, rest := calls[0], calls[1..];
    TypedTail(c, calls);
    var k := if call.CallValue? then 1 else 0;
    SlotsAppended(c, rest, w);
    if i < k {
      FirstSlot(BytesOfCall(call), BytesAppended(rest));
    } else {
      MulLe(i - k + 1, |NumbersAppended(rest)|, w);
      LaterSlot(BytesOfCall(call), BytesAppended(rest), w, k, i);
      SlotAppended(c, rest, w, i - k);
    }
  }

  lemma FirstSlot(a: seq<byte>, b: seq<byte>)
    ensures Slot(a + b, |a|, 0) == a
  {}

  lemma LaterSlot(a: seq<byte>, b: seq<byte>, w: nat, k: nat, i: nat)
    requires k <= i && |a| == k * w && (i - k + 1) * w <= |b|
    ensures (i + 1) * w <= |a + b| && Slot(a + b, w, i) == Slot(b, w, i - k)
  {
    Distribute(k, i - k, w);
    Distribute(k, i - k + 1, w);
  }

  // The sample that a number appended is received as: itself, or for the types that are not
  // integers its bits.
  function Received(dt: nat, z: int): Sample {
    if dt == 0x0 && z >= 0 then Unsigned(1, z)
    else if dt == 0x1 then Signed(1, z)
    else if dt == 0x2 && z >= 0 then Unsigned(2, z)
    else if dt == 0x3 then Signed(2, z)
    else if dt == 0x4 && z >= 0 then Unsigned(4, z)
    else if dt == 0x5 then Signed(4, z)
    else if dt == 0x6 && z >= 0 then Unsigned(8, z)
    else if dt == 0x7 then Signed(8, z)
    else if dt == 0x9 then Raw(8, z % 0x1_0000_0000_0000_0000)
    else if dt == 0x8 || dt == 0xB then Raw(4, z % 0x1_0000_0000)
    else Raw(2, z % 0x1_0000)
  }

  // Every value of the C type of an appender is received as what it was, negative ones of the
  // signed types included.
  lemma ValueSurvives(dt: nat, z: int)
    requires InRange(dt, z)
    ensures SampleOf(dt, Stored(dt, z)) == Received(dt, z)
  {
    hide Stored, StoredWidth, Received, SampleOf;
    if dt <= 0x7 {
      IntegersSurvive(dt, z);
    } else {
      BitsSurvive(dt, z);
    }
  }

  // The bits of the types that are not integers are kept, whatever they mean.
  lemma BitsSurvive(dt: nat, z: int)
    requires 0x7 < dt < BOOL
    ensures SampleOf(dt, Stored(dt, z)) == Received(dt, z)
  {
    hide Stored, StoredWidth, FromLe, Pow256;
    StoredNumber(dt, z);
  }

  lemma StoredNumber(dt: nat, z: int)
    requires dt < BOOL
    ensures var n := FromLe(Stored(dt, z));
            && (dt == 0x0 || dt == 0x1 ==> |Stored(dt, z)| == 1 && n == z % 0x100)
            && (dt == 0x2 || dt == 0x3 || dt == 0xA || dt == 0xC || dt == 0xD ==>
                  |Stored(dt, z)| == 2 && n == z % 0x1_0000)
            && (dt == 0x4 || dt == 0x5 || dt == 0x8 || dt == 0xB ==> |Stored(dt, z)| == 4 && n == z % 0x1_0000_0000)
            && (dt == 0x6 || dt == 0x7 || dt == 0x9 ==>
                  |Stored(dt, z)| == 8 && n == z % 0x1_0000_0000_0000_0000)
  {
    hide FromLe, LeBytes, Pow256;
    Pow256Values();
    FromLeOfLeBytes(z % Pow256(StoredWidth(dt)), StoredWidth(dt));
  }

  // The numbers appended to a frame come back one by one, each on its channel.
  lemma NumbersArrive(c: Config, calls: seq<Call>, n: byte)
    requires ValidConfig(c) && ValidCalls(c, calls) && CallFinalize !in calls && c.dtype != BOOL
    requires Run(c, NewDraft(n), calls).0.err == Ok
    requires forall call | call in calls :: !call.CallRaw?
    requires |NumbersAppended(calls)| % c.channels == 0
    ensures var payload, zs := FrameFor(c, calls, n).payload, NumbersAppended(calls);
            && Exact(|payload|, c.dtype, c.channels)
            && var values := ValuesOf(c.dtype, c.channels, payload);
               && |values| == |zs|
               && forall i | 0 <= i < |zs| ::
                    InRange(c.dtype, zs[i]) && values[i] == Value(i % c.channels, Received(c.dtype, zs[i]))
  {
    hide Run, SampleOf, Stored, Slot, Exact, BytesAppended, FixedValues, WidthOf, Received, InRange;
    var w, zs := WidthOf(c.dtype), NumbersAppended(calls);
    var payload := FrameFor(c, calls, n).payload;
    WidthsAgree(c.dtype);
    TypesMatch(c, NewDraft(n), calls);
    assert TypedOnly(c, calls);
    SlotsAppended(c, calls, w);
    ExactUnits(c, |zs|);
    CountOfSlots(|zs|, c.channels, w);
    FixedSlots(|payload|, c.dtype, c.channels, w);
    forall i | 0 <= i < |zs|
      ensures InRange(c.dtype, zs[i])
      ensures ValuesOf(c.dtype, c.channels, payload)[i] == Value(i % c.channels, Received(c.dtype, zs[i]))
    {
      FixedAt(c.dtype, w, c.channels, payload, |zs|, i);
      SlotAppended(c, calls, w, i);
      NumberInRange(c, calls, i);
      ValueSurvives(c.dtype, zs[i]);
    }
  }

  lemma {:induction false} NumberInRange(c: Config, calls: seq<Call>, i: nat)
    requires ValidCalls(c, calls) && TypedOnly(c, calls) && i < |NumbersAppended(calls)|
    ensures InRange(c.dtype, NumbersAppended(calls)[i])
  {
    hide InRange;
    TypedTail(c, calls);
    assert ValidCall(c, calls[0]);
    var k := if calls[0].CallValue? then 1 else 0;
    if i >= k {
      NumberInRange(c, calls[1..], i - k);
    }
  }

  lemma CountOfSlots(n: nat, channels: nat, w: nat)
    requires channels > 0 && w > 0 && n % channels == 0
    ensures channels * w > 0 && n * w / (channels * w) * channels == n
  {
    ScaledMod(n, channels, w);
  }

  // Of a frame of fixed-width samples, raw bytes included, the values decoded hold exactly the
  // bytes appended, in order.
  lemma BytesArrive(c: Config, calls: seq<Call>, n: byte)
    requires ValidConfig(c) && c.dtype != BOOL && WholePayload(c, FrameFor(c, calls, n))
    ensures ValueBytes(ValuesOf(c.dtype, c.channels, FrameFor(c, calls, n).payload)) == BytesAppended(calls)
  {
    hide Exact, ValueBytes, ValuesOf, BytesAppended, BitsAppended, LastTs, LastPeriod, WireFlags, Pack, Switches;
    PayloadKept(c.dtype, c.channels, FrameFor(c, calls, n).payload);
  }

  // An integer is received as itself exactly when its type can hold it.
  lemma IntegersSurvive(dt: nat, z: int)
    requires dt <= 0x7
    ensures SampleOf(dt, Stored(dt, z)) == Received(dt, z) <==> InRange(dt, z)
  {
    hide Stored, StoredWidth, SampleOf, Received, InRange;
    if dt == 0x0 || dt == 0x2 || dt == 0x4 || dt == 0x6 {
      UnsignedSurvive(dt, z);
    } else {
      SignedSurvive(dt, z);
    }
  }

  lemma UnsignedSurvive(dt: nat, z: int)
    requires dt == 0x0 || dt == 0x2 || dt == 0x4 || dt == 0x6
    ensures SampleOf(dt, Stored(dt, z)) == Received(dt, z) <==> InRange(dt, z)
  {
    hide Stored, StoredWidth, FromLe, Pow256;
    StoredNumber(dt, z);
  }

  lemma SignedSurvive(dt: nat, z: int)
    requires dt == 0x1 || dt == 0x3 || dt == 0x5 || dt == 0x7
    ensures SampleOf(dt, Stored(dt, z)) == Received(dt, z) <==> InRange(dt, z)
  {
    hide Stored, StoredWidth, FromLe, Pow256;
    StoredNumber(dt, z);
    Pow256Values();
  }

  // The channel values of all boolean samples appended, as the C function takes them.
  function FlagsAppended(calls: seq<Call>): seq<byte> {
    if calls == [] then []
    else (if calls[0].CallBools? then calls[0].values else []) + FlagsAppended(calls[1..])
  }

  lemma {:induction false} BitsAreFlags(calls: seq<Call>)
    ensures |BitsAppended(calls)| == |FlagsAppended(calls)|
    ensures forall i | 0 <= i < |FlagsAppended(calls)| :: BitsAppended(calls)[i] == (FlagsAppended(calls)[i] != 0)
  {
    hide Truths;
    if calls != [] {
      BitsAreFlags(calls[1..]);
    }
  }

  // The boolean samples appended to a frame come back, each on its channel, with true for
  // every value that is not zero, followed by at most seven samples of false.
  lemma BoolsArrive(c: Config, calls: seq<Call>, n: byte)
    requires ValidConfig(c) && ValidCalls(c, calls) && CallFinalize !in calls && c.dtype == BOOL
    ensures var payload, flags := FrameFor(c, calls, n).payload, FlagsAppended(calls);
            && Exact(|payload|, BOOL, c.channels)
            && var values := ValuesOf(BOOL, c.channels, payload);
               && |flags| <= |values| <= |flags| + 7 * c.channels
               && forall i | 0 <= i < |values| ::
                    values[i] == Value(i % c.channels, Boolean(i < |flags| && flags[i] != 0))
  {
    hide Pack, Pads, Switches, Exact, BitsAppended, BytesAppended, WireFlags, LastTs, LastPeriod, FlagsAppended,
      PadZeros, SampleCount, BitAt;
    var bits := BitsAppended(calls);
    WholeBits(c, calls);
    BitsAreFlags(calls);
    var k := |bits| / c.channels;
    ExactMultiple(|bits|, c.channels);
    PaddedDecodes(bits, k, c.channels);
    PadsFewest(k, c.channels);
    MulLe(Pads(k, c.channels), 7, c.channels);
    BoolValue(FrameFor(c, calls, n).payload, c.channels, Padded(bits, k, c.channels));
  }

  lemma BoolValue(payload: seq<byte>, channels: nat, all: seq<bool>)
    requires channels > 0 && Switches(BoolValues(channels, payload, 8 * |payload|)) == all
    ensures var vs := BoolValues(channels, payload, 8 * |payload|);
            |vs| == |all| && forall i | 0 <= i < |vs| :: vs[i] == Value(i % channels, Boolean(all[i]))
  {
    hide BitAt;
  }

  lemma {:induction false} WholeBits(c: Config, calls: seq<Call>)
    requires c.channels > 0 && ValidCalls(c, calls)
    ensures |BitsAppended(calls)| % c.channels == 0
  {
    hide Truths;
    if calls != [] {
      assert ValidCall(c, calls[0]);
      WholeBits(c, calls[1..]);
      if calls[0].CallBools? {
        MoreSamples(|BitsAppended(calls[1..])|, c.channels);
      }
    }
  }

  // ---- The struct over a whole session ------------------------------------------------------------------

  // One call; the caller transmits what finalize left in the buffer.
  method Perform(b: FrameBuilder, call: Call) returns (sent: seq<byte>)
    requires b.Valid() && ValidCall(b.Cfg(), call)
    modifies b, b.buf
    ensures b.Valid() && b.Keeps()
    ensures var (d, fs) := Apply(b.Cfg(), old(b.View()), call); b.View() == d && sent == Wired(fs)
  {
    hide SetTs, SetPeriod, Append, AppendRaw, AppendBoolSample, Finalize, Encode;
    sent := [];
    var status;
    match call {
      case CallTs(ts) => status := b.FrameSetTs(ts);
      case CallPeriod(period) => status := b.FrameSetPeriod(period);
      case CallValue(want, z) => status := b.AppendTyped(want, z);
      case CallRaw(bytes) => status := b.AppendRawBytes(bytes);
      case CallBools(values) => status := b.AppendBoolValues(values);
      case CallFinalize =>
        var total := b.FinalizeFrame();
        if total > 0 {
          sent := b.buf[..total];
        }
    }
  }

  // Any calls in any order: the struct does and sends what the model says, and never touches
  // the prefix or the memory beyond its capacity.
  method PerformAll(b: FrameBuilder, calls: seq<Call>) returns (sent: seq<byte>)
    requires b.Valid() && ValidCalls(b.Cfg(), calls)
    modifies b, b.buf
    ensures b.Valid() && b.Keeps()
    ensures var (d, fs) := Run(b.Cfg(), old(b.View()), calls); b.View() == d && sent == Wired(fs)
  {
    hide Apply, Wired, Run, ValidCall, FrameBuilder.Valid;
    sent := [];
    ghost var c, d := b.Cfg(), b.View();
    ConfigIsValid(b);
    NothingRun(c, d);
    for i := 0 to |calls|
      invariant b.Valid() && b.buf == old(b.buf) && b.Keeps()
      invariant b.View() == Run(c, d, calls[..i]).0 && sent == Wired(Run(c, d, calls[..i]).1)
    {
      assert ValidCall(c, calls[i]);
      RunSnoc(c, d, calls, i);
      var more := Perform(b, calls[i]);
      WiredAppend(Run(c, d, calls[..i]).1, Apply(c, Run(c, d, calls[..i]).0, calls[i]).1);
      sent := sent + more;
    }
    assert calls[..|calls|] == calls;
  }

  lemma ConfigIsValid(b: FrameBuilder)
    requires b.Valid()
    ensures ValidConfig(b.Cfg()) && b.cap <= b.buf.Length
  {}

  lemma NothingRun(c: Config, d: Draft)
    requires ValidConfig(c)
    ensures Run(c, d, []) == (d, []) && Wired([]) == []
  {}

  lemma RunSnoc(c: Config, d: Draft, calls: seq<Call>, i: nat)
    requires ValidConfig(c) && i < |calls|
    ensures var (d1, fs) := Run(c, d, calls[..i]);
            var (d2, more) := Apply(c, d1, calls[i]);
            Run(c, d, calls[..i + 1]) == (d2, fs + more)
  {
    hide Apply;
    assert calls[..i + 1] == calls[..i] + [calls[i]];
    RunAppend(c, d, calls[..i], [calls[i]]);
    var d1 := Run(c, d, calls[..i]).0;
    var more := Apply(c, d1, calls[i]).1;
    assert [calls[i]][1..] == [] && more + [] == more;
  }

  lemma {:induction false} WiredAppend(a: seq<Frame>, b: seq<Frame>)
    ensures Wired(a + b) == Wired(a) + Wired(b)
    decreases |a|
  {
    hide Encode;
    if a == [] {
      assert a + b == b;
    } else {
      assert (a + b)[1..] == a[1..] + b;
      WiredAppend(a[1..], b);
    }
  }
}
