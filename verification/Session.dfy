// What the decoder remembers between the frames of a session: profile, sequence number,
// 32-bit clock wraps, and the offset between the device's clock and the host's.
module Session {
  import opened Bytes
  import opened Wire

  const TWO31: int := 0x8000_0000
  const TWO32: int := 0x1_0000_0000
  const TWO63: int := 0x8000_0000_0000_0000
  const TWO64: int := 0x1_0000_0000_0000_0000

  datatype SeqEvent = Quiet | Duplicate | Dropped(count: nat)

  // What is reported of a frame, whenever it arrives.
  datatype Event = Event(frame: Fields, seqEvent: SeqEvent, fullTs: Option<nat>, samples: nat)

  // The part of the session state that does not depend on arrival times.
  datatype Track = Track(
    profile: Option<Profile>, lastSeq: Option<byte>, lastTs: Option<nat>, wraps: nat, frames: nat)

  const FRESH: Track := Track(None, None, None, 0, 0)

  // u64 saturating_add(1).
  function Increment(n: nat): nat { if n + 1 < TWO64 then n + 1 else TWO64 - 1 }

  function SampleCount(len: nat, dt: nat, channels: nat): nat {
    if channels == 0 then 0
    else if dt == BOOL then len * 8 / channels
    else
      match BytesPerDatatype(dt)
      case Some(bps) => len / (channels * bps)
      case None => 0
  }

  predicate Wrapped(last: Option<nat>, raw: nat) {
    last.Some? && raw < last.value && last.value - raw > TWO31
  }

  // (wrap_count << 32) | raw, in 64 bits.
  function FullTs(wraps: nat, raw: nat): nat { wraps * TWO32 % TWO64 + raw }

  function SeqEventOf(last: Option<byte>, current: Option<byte>): SeqEvent {
    if last.Some? && current.Some? then
      var delta := (current.value - last.value) % 0x100;
      if delta == 0 then Duplicate else if delta > 1 then Dropped(delta - 1) else Quiet
    else Quiet
  }

  // A frame with another profile starts a new session.
  function Enter(t: Track, p: Profile): Track {
    if t.profile == Some(p) then t else FRESH.(profile := Some(p))
  }

  function Follow(t: Track, f: Fields): (Track, Event) {
    var s := Enter(t, f.profile);
    var wraps := if f.ts.Some? && Wrapped(s.lastTs, f.ts.value) then Increment(s.wraps) else s.wraps;
    (Track(
       s.profile,
       if f.seqNo.Some? then f.seqNo else s.lastSeq,
       if f.ts.Some? then f.ts else s.lastTs,
       wraps,
       Increment(s.frames)),
     Event(
       f,
       SeqEventOf(s.lastSeq, f.seqNo),
       if f.ts.Some? then Some(FullTs(wraps, f.ts.value)) else None,
       SampleCount(|f.payload|, f.profile.dtype, f.profile.channels)))
  }

  function FollowAll(t: Track, fs: seq<Fields>): (r: (Track, seq<Event>))
    ensures |r.1| == |fs|
    decreases |fs|
  {
    if fs == [] then (t, [])
    else
      var (t1, e) := Follow(t, fs[0]);
      var (t2, es) := FollowAll(t1, fs[1..]);
      (t2, [e] + es)
  }

  lemma {:induction false} FollowAppend(t: Track, a: seq<Fields>, b: seq<Fields>)
    ensures var (t1, es1) := FollowAll(t, a);
            var (t2, es2) := FollowAll(t1, b);
            FollowAll(t, a + b) == (t2, es1 + es2)
    decreases |a|
  {
    hide Follow;
    if a == [] {
      assert a + b == b;
      assert [] + FollowAll(t, b).1 == FollowAll(t, b).1;
    } else {
      var (t1, e) := Follow(t, a[0]);
      assert (a + b)[1..] == a[1..] + b;
      FollowAppend(t1, a[1..], b);
      var (t2, es1) := FollowAll(t1, a[1..]);
      var es2 := FollowAll(t2, b).1;
      assert [e] + (es1 + es2) == [e] + es1 + es2;
    }
  }

  // ---- Host time -----------------------------------------------------------------------------

  datatype State = State(track: Track, anchor: Option<int>)

  const FRESH_STATE: State := State(FRESH, None)

  datatype Report = Report(event: Event, baseUs: nat)

  // `x as i64` of a u64.
  function AsI64(x: nat): int { if x < TWO63 then x else x - TWO64 }

  // Clamped to the i64 range, as the saturating operations do.
  function Clamp(x: int): int {
    if x < -TWO63 then -TWO63 else if x >= TWO63 then TWO63 - 1 else x
  }

  // The smallest offset arrival - ts of the session, with the current frame's counted in.
  function Anchored(anchor: Option<int>, ts: nat, arrival: nat): int {
    var candidate := Clamp(AsI64(arrival) - AsI64(ts));
    if anchor.Some? && anchor.value < candidate then anchor.value else candidate
  }

  function BaseUs(anchor: int, ts: nat): nat {
    var base := Clamp(AsI64(ts) + anchor);
    if base < 0 then 0 else base
  }

  function Arrive(s: State, f: Fields, arrival: nat): (State, Report) {
    var kept := if s.track.profile == Some(f.profile) then s.anchor else None;
    var (track, event) := Follow(s.track, f);
    match event.fullTs
    case None => (State(track, kept), Report(event, arrival))
    case Some(ts) =>
      var anchor := Anchored(kept, ts, arrival);
      (State(track, Some(anchor)), Report(event, BaseUs(anchor, ts)))
  }

  function ArriveAll(s: State, fs: seq<Fields>, arrivals: seq<nat>): (r: (State, seq<Report>))
    requires |fs| == |arrivals|
    ensures |r.1| == |fs|
    decreases |fs|
  {
    if fs == [] then (s, [])
    else
      var (s1, r) := Arrive(s, fs[0], arrivals[0]);
      var (s2, rs) := ArriveAll(s1, fs[1..], arrivals[1..]);
      (s2, [r] + rs)
  }

  lemma {:induction false} ArriveAppend(s: State, a: seq<Fields>, b: seq<Fields>, ta: seq<nat>, tb: seq<nat>)
    requires |a| == |ta| && |b| == |tb|
    ensures var (s1, rs1) := ArriveAll(s, a, ta);
            var (s2, rs2) := ArriveAll(s1, b, tb);
            ArriveAll(s, a + b, ta + tb) == (s2, rs1 + rs2)
    decreases |a|
  {
    hide Arrive;
    if a == [] {
      assert a + b == b && ta + tb == tb;
      assert [] + ArriveAll(s, b, tb).1 == ArriveAll(s, b, tb).1;
    } else {
      var (s1, r) := Arrive(s, a[0], ta[0]);
      assert (a + b)[1..] == a[1..] + b && (ta + tb)[1..] == ta[1..] + tb;
      ArriveAppend(s1, a[1..], b, ta[1..], tb);
      var (s2, rs1) := ArriveAll(s1, a[1..], ta[1..]);
      var rs2 := ArriveAll(s2, b, tb).1;
      assert [r] + (rs1 + rs2) == [r] + rs1 + rs2;
    }
  }

  lemma ArriveOne(s: State, f: Fields, arrival: nat)
    ensures ArriveAll(s, [f], [arrival]) == (Arrive(s, f, arrival).0, [Arrive(s, f, arrival).1])
  {
    hide Arrive;
    var (s1, r) := Arrive(s, f, arrival);
    assert ArriveAll(s1, [f][1..], [arrival][1..]) == (s1, []);
    assert [r] + [] == [r];
  }

  // Host time, one frame at a time: a frame without a time is taken to be as old as it is when
  // it arrives; with a time, it is never put after its arrival, nor before the epoch.
  lemma HostTimeOf(s: State, f: Fields, arrival: nat)
    ensures var r := Arrive(s, f, arrival).1;
            && (f.ts.None? <==> r.event.fullTs.None?)
            && (r.event.fullTs.None? ==> r.baseUs == arrival)
            && (r.event.fullTs.Some? ==> r.baseUs < TWO63)
            && (r.event.fullTs.Some? && r.event.fullTs.value < TWO63 && arrival < TWO63 ==> r.baseUs <= arrival)
  {
    hide SeqEventOf, SampleCount, FullTs, Wrapped;
  }

  function EventsOf(rs: seq<Report>): (es: seq<Event>)
    ensures |es| == |rs|
    ensures forall i | 0 <= i < |rs| :: es[i] == rs[i].event
  {
    if rs == [] then [] else [rs[0].event] + EventsOf(rs[1..])
  }

  // What is reported apart from host times does not depend on when the frames arrive.
  lemma {:induction false} EventsIgnoreArrival(s: State, fs: seq<Fields>, arrivals: seq<nat>)
    requires |fs| == |arrivals|
    ensures var (s1, rs) := ArriveAll(s, fs, arrivals);
            FollowAll(s.track, fs) == (s1.track, EventsOf(rs))
    decreases |fs|
  {
    hide Follow, Anchored, BaseUs;
    if fs != [] {
      EventsIgnoreArrival(Arrive(s, fs[0], arrivals[0]).0, fs[1..], arrivals[1..]);
    }
  }

  // From a frame with another profile on, nothing of the old session is left in any report.
  lemma {:induction false} NewSessionForgets(s: State, fs: seq<Fields>, arrivals: seq<nat>)
    requires |fs| == |arrivals| > 0
    requires s.track.profile != Some(fs[0].profile)
    ensures ArriveAll(s, fs, arrivals) == ArriveAll(FRESH_STATE, fs, arrivals)
  {
    hide Anchored, BaseUs, SeqEventOf, FullTs, SampleCount;
    assert Arrive(s, fs[0], arrivals[0]) == Arrive(FRESH_STATE, fs[0], arrivals[0]);
  }

  // ---- Lost frames -----------------------------------------------------------------------------

  // fs are frames of one session with profile p whose numbers in the order of sending are ks.
  ghost predicate SentAs(fs: seq<Fields>, p: Profile, ks: seq<nat>) {
    && |fs| == |ks|
    && (forall i | 0 <= i < |fs| :: fs[i].profile == p && fs[i].seqNo == Some(ks[i] % 0x100))
    && forall i | 0 <= i < |ks| - 1 :: ks[i] < ks[i + 1]
  }

  // How many frames an event reports as lost.
  function Lost(e: SeqEvent): int { if e.Dropped? then e.count else 0 }

  // How many frames lie between frame k and frame m.
  function Between(k: int, m: int): int { m - k - 1 }

  function DroppedTotal(es: seq<Event>): int {
    if es == [] then 0
    else Lost(es[0].seqEvent) + DroppedTotal(es[1..])
  }

  ghost predicate AnyDuplicate(es: seq<Event>) {
    exists i :: 0 <= i < |es| && es[i].seqEvent == Duplicate
  }

  // How many frames after frame k and up to the last of ks are not among ks.
  function Missing(k: int, ks: seq<nat>): int {
    if ks == [] then 0 else ks[|ks| - 1] - k - |ks|
  }

  // Between two received frames never more than 254 were lost.
  ghost predicate ShortGaps(ks: seq<nat>) {
    forall i | 0 <= i < |ks| - 1 :: Between(ks[i], ks[i + 1]) <= 254
  }

  lemma SeqEventCounts(k: nat, m: nat)
    requires k < m
    ensures var e := SeqEventOf(Some(k % 0x100), Some(m % 0x100));
            && (e == Duplicate <==> (Between(k, m) + 1) % 0x100 == 0)
            && Lost(e) <= Between(k, m)
            && (Lost(e) == Between(k, m) <==> Between(k, m) <= 254)
  {
    var delta := (m % 0x100 - k % 0x100) % 0x100;
    assert delta == (Between(k, m) + 1) % 0x100;
  }

  // Frame counts are conserved: the counts reported never exceed the frames missing between
  // the first and the last one received, and they add up to exactly these if and only if no
  // gap is longer than 254 frames. In that case nothing is called a duplicate.
  lemma {:induction false} LossConserved(t: Track, fs: seq<Fields>, p: Profile, ks: seq<nat>)
    requires SentAs(fs, p, ks) && fs != []
    requires t.profile != Some(p)
    ensures var es := FollowAll(t, fs).1;
            var missing := Missing(ks[0], ks[1..]);
            && DroppedTotal(es) <= missing
            && (DroppedTotal(es) == missing <==> ShortGaps(ks))
            && (ShortGaps(ks) ==> !AnyDuplicate(es))
  {
    hide SeqEventOf, FullTs, SampleCount, Wrapped;
    var (t1, e) := Follow(t, fs[0]);
    assert e.seqEvent == Quiet by { QuietFirst(fs[0].seqNo); }
    LossFrom(t1, fs[1..], p, ks[0], ks[1..]);
    var es := FollowAll(t1, fs[1..]).1;
    assert ([e] + es)[1..] == es;
    assert ks == [ks[0]] + ks[1..];
    if ShortGaps(ks) {
      assert !AnyDuplicate([e] + es);
    }
  }

  lemma TwoFollowed(t: Track, fs: seq<Fields>)
    requires |fs| == 2
    ensures var (t1, e0) := Follow(t, fs[0]);
            FollowAll(t, fs).1 == [e0, Follow(t1, fs[1]).1]
  {
    hide Follow;
    var t1 := Follow(t, fs[0]).0;
    assert fs[1..][1..] == [];
    assert FollowAll(t1, fs[1..]).1 == [Follow(t1, fs[1]).1] + [];
  }

  // Frame k of a session with sequence numbers only, without a payload.
  function Numbered(k: nat): Header { Header(0x10, 1, k % 0x100, 0, 0) }

  // 256 frames are lost between two that the decoder accepts, and it reports no loss.
  lemma LongGapHidesLoss()
    ensures var h0, h1 := Numbered(0), Numbered(257);
            var fs, ks := [FieldsOf(h0, []), FieldsOf(h1, [])], [0, 257];
            && Parse(Encode(h0, [])) == Complete(fs[0]) && Parse(Encode(h1, [])) == Complete(fs[1])
            && SentAs(fs, fs[0].profile, ks) && !ShortGaps(ks)
            && DroppedTotal(FollowAll(FRESH, fs).1) == 0 && Missing(ks[0], ks[1..]) == 256
  {
    hide Encode, Parse, Exact;
    var h0, h1 := Numbered(0), Numbered(257);
    EmptyFrameAccepted(h0);
    EmptyFrameAccepted(h1);
    var fs, ks := [FieldsOf(h0, []), FieldsOf(h1, [])], [0, 257];
    TwoFollowed(FRESH, fs);
    var es := FollowAll(FRESH, fs).1;
    assert DroppedTotal(es[1..][1..]) == 0;
    assert Between(ks[0], ks[0 + 1]) == 256;
  }

  lemma QuietFirst(current: Option<byte>)
    ensures SeqEventOf(None, current) == Quiet
  {}

  ghost predicate ShortFrom(k: nat, ks: seq<nat>) {
    ShortGaps([k] + ks)
  }

  lemma ShortStep(k: nat, ks: seq<nat>)
    requires ks != []
    ensures ShortFrom(k, ks) <==> Between(k, ks[0]) <= 254 && ShortFrom(ks[0], ks[1..])
  {
    var l, r := [k] + ks, [ks[0]] + ks[1..];
    assert ks == r && l[0] == k && l[1] == ks[0];
    if ShortFrom(k, ks) {
      forall i | 0 <= i < |r| - 1 ensures Between(r[i], r[i + 1]) <= 254 {
        assert Between(l[i + 1], l[i + 1 + 1]) <= 254;
      }
      assert Between(l[0], l[0 + 1]) <= 254;
    }
    if Between(k, ks[0]) <= 254 && ShortFrom(ks[0], ks[1..]) {
      forall i | 0 <= i < |l| - 1 ensures Between(l[i], l[i + 1]) <= 254 {
        if i > 0 {
          assert Between(r[i - 1], r[i - 1 + 1]) <= 254;
        }
      }
    }
  }

  // The same from the middle of a session, after frame k.
  lemma {:induction false} LossFrom(t: Track, fs: seq<Fields>, p: Profile, k: nat, ks: seq<nat>)
    requires SentAs(fs, p, ks) && (ks != [] ==> k < ks[0])
    requires t.profile == Some(p) && t.lastSeq == Some(k % 0x100)
    ensures var es := FollowAll(t, fs).1;
            var missing := Missing(k, ks);
            && 0 <= DroppedTotal(es) <= missing
            && (DroppedTotal(es) == missing <==> ShortFrom(k, ks))
            && (ShortFrom(k, ks) ==> !AnyDuplicate(es))
    decreases |fs|
  {
    hide SeqEventOf, FullTs, SampleCount, Wrapped, ShortFrom;
    if ks == [] {
      assert ShortFrom(k, ks) by { ShortNone(k); }
    } else {
      var (t1, e) := Follow(t, fs[0]);
      SeqEventCounts(k, ks[0]);
      SentTail(fs, p, ks);
      LossFrom(t1, fs[1..], p, ks[0], ks[1..]);
      var es := FollowAll(t1, fs[1..]).1;
      assert ([e] + es)[1..] == es;
      ShortStep(k, ks);
      if ShortFrom(k, ks) {
        assert !AnyDuplicate([e] + es);
      }
    }
  }

  lemma SentTail(fs: seq<Fields>, p: Profile, ks: seq<nat>)
    requires SentAs(fs, p, ks) && ks != []
    ensures SentAs(fs[1..], p, ks[1..])
    ensures |ks| > 1 ==> ks[0] < ks[1]
  {
    forall i | 0 <= i < |ks[1..]| - 1 ensures ks[1..][i] < ks[1..][i + 1] {
      assert ks[i + 1] < ks[i + 1 + 1];
    }
    if |ks| > 1 {
      assert ks[0] < ks[0 + 1];
    }
  }

  lemma ShortNone(k: nat)
    ensures ShortFrom(k, [])
  {}
}
