// The 32-bit device clock made 64 bits wide, and mapped onto the host's clock.
module Clock {
  import opened Bytes
  import opened Wire
  import opened Session

  // fs are frames of one session with profile p, stamped at the true device times ts.
  ghost predicate StampedAt(fs: seq<Fields>, p: Profile, ts: seq<nat>) {
    && |fs| == |ts|
    && (forall i | 0 <= i < |fs| :: fs[i].profile == p && fs[i].ts == Some(ts[i] % TWO32))
    && forall i | 0 <= i < |ts| - 1 :: ts[i] <= ts[i + 1]
  }

  // The next time can be told from its low 32 bits: the clock did not wrap in between, or
  // less than 2^31 microseconds passed.
  predicate Followable(now: nat, next: nat) {
    next / TWO32 == now / TWO32 || next - now < TWO31
  }

  // Where the 64-bit clock of a session starts that begins at device time t.
  function Origin(t: nat): int { t - t % TWO32 }

  // The track has the 64-bit time right, counted from origin.
  ghost predicate InStep(t: Track, p: Profile, now: nat, origin: int) {
    && t.profile == Some(p)
    && t.lastTs == Some(now % TWO32)
    && t.wraps * TWO32 + now % TWO32 == now - origin
  }

  lemma ClockStep(t: Track, f: Fields, now: nat, next: nat, origin: int)
    requires InStep(t, f.profile, now, origin) && f.ts == Some(next % TWO32)
    requires now <= next && next - origin < TWO64
    ensures var (t1, e) := Follow(t, f);
            && (e.fullTs == Some(next - origin) <==> Followable(now, next))
            && (Followable(now, next) ==> InStep(t1, f.profile, next, origin))
  {
    hide SeqEventOf, SampleCount;
  }

  lemma ClockStart(t: Track, f: Fields, first: nat)
    requires t.profile != Some(f.profile) && f.ts == Some(first % TWO32)
    ensures var (t1, e) := Follow(t, f);
            && e.fullTs == Some(first - Origin(first))
            && InStep(t1, f.profile, first, Origin(first))
  {
    hide SeqEventOf, SampleCount;
  }

  // All reported times are the true ones, up to one constant.
  ghost predicate TimesRight(es: seq<Event>, ts: seq<nat>, origin: int) {
    && |es| == |ts|
    && forall i | 0 <= i < |es| :: es[i].fullTs == Some(ts[i] - origin)
  }

  ghost predicate AllFollowable(ts: seq<nat>) {
    forall i | 0 <= i < |ts| - 1 :: Followable(ts[i], ts[i + 1])
  }

  lemma ConsTimes(e: Event, es: seq<Event>, t: nat, ts: seq<nat>, origin: int)
    ensures TimesRight([e] + es, [t] + ts, origin) <==> e.fullTs == Some(t - origin) && TimesRight(es, ts, origin)
  {
    var l, r := [e] + es, [t] + ts;
    if TimesRight(l, r, origin) {
      assert l[0].fullTs == Some(r[0] - origin);
      forall i | 0 <= i < |es| ensures es[i].fullTs == Some(ts[i] - origin) {
        assert l[i + 1].fullTs == Some(r[i + 1] - origin);
      }
    }
  }

  lemma ConsFollowable(t: nat, ts: seq<nat>)
    requires ts != []
    ensures AllFollowable([t] + ts) <==> Followable(t, ts[0]) && AllFollowable(ts)
  {
    hide Followable;
    var l := [t] + ts;
    if AllFollowable(l) {
      assert Followable(l[0], l[0 + 1]);
      forall i | 0 <= i < |ts| - 1 ensures Followable(ts[i], ts[i + 1]) {
        assert Followable(l[i + 1], l[i + 1 + 1]);
      }
    }
    if Followable(t, ts[0]) && AllFollowable(ts) {
      forall i | 0 <= i < |l| - 1 ensures Followable(l[i], l[i + 1]) {
        if i > 0 {
          assert Followable(ts[i - 1], ts[i - 1 + 1]);
        }
      }
    }
  }

  lemma StampedTail(fs: seq<Fields>, p: Profile, ts: seq<nat>)
    requires StampedAt(fs, p, ts) && ts != []
    ensures StampedAt(fs[1..], p, ts[1..])
    ensures |ts| > 1 ==> ts[0] <= ts[1]
  {
    forall i | 0 <= i < |ts[1..]| - 1 ensures ts[1..][i] <= ts[1..][i + 1] {
      assert ts[i + 1] <= ts[i + 1 + 1];
    }
    if |ts| > 1 {
      assert ts[0] <= ts[0 + 1];
    }
  }

  lemma {:induction false} ClockFrom(t: Track, fs: seq<Fields>, p: Profile, now: nat, ts: seq<nat>, origin: int)
    requires StampedAt(fs, p, ts) && InStep(t, p, now, origin)
    requires ts != [] ==> now <= ts[0] && ts[|ts| - 1] - origin < TWO64
    ensures TimesRight(FollowAll(t, fs).1, ts, origin) <==> AllFollowable([now] + ts)
    decreases |fs|
  {
    hide Follow, Followable, InStep, AllFollowable, TimesRight;
    if ts == [] {
      NothingToFollow(now, origin);
    } else {
      var (t1, e) := Follow(t, fs[0]);
      StampedTail(fs, p, ts);
      Sorted(ts, 0);
      ClockStep(t, fs[0], now, ts[0], origin);
      var es := FollowAll(t1, fs[1..]).1;
      assert ts == [ts[0]] + ts[1..];
      ConsTimes(e, es, ts[0], ts[1..], origin);
      ConsFollowable(now, ts);
      if Followable(now, ts[0]) {
        ClockFrom(t1, fs[1..], p, ts[0], ts[1..], origin);
      }
    }
  }

  lemma NothingToFollow(now: nat, origin: int)
    ensures TimesRight([], [], origin) && AllFollowable([now] + [])
  {}

  lemma {:induction false} Sorted(ts: seq<nat>, i: nat)
    requires forall j | 0 <= j < |ts| - 1 :: ts[j] <= ts[j + 1]
    requires i < |ts|
    ensures ts[i] <= ts[|ts| - 1]
    decreases |ts| - i
  {
    if i + 1 < |ts| {
      assert ts[i] <= ts[i + 1];
      Sorted(ts, i + 1);
    }
  }

  // Over a whole session and any number of wraps, the 64-bit times reported are the true
  // device times minus one constant, if and only if every next time was followable.
  lemma {:induction false} ClockReconstructed(t: Track, fs: seq<Fields>, p: Profile, ts: seq<nat>)
    requires StampedAt(fs, p, ts) && fs != []
    requires t.profile != Some(p)
    requires ts[|ts| - 1] - Origin(ts[0]) < TWO64
    ensures TimesRight(FollowAll(t, fs).1, ts, Origin(ts[0])) <==> AllFollowable(ts)
  {
    hide Follow, Followable, InStep, AllFollowable, TimesRight, Origin;
    var (t1, e) := Follow(t, fs[0]);
    var origin := Origin(ts[0]);
    ClockStart(t, fs[0], ts[0]);
    StampedTail(fs, p, ts);
    ClockFrom(t1, fs[1..], p, ts[0], ts[1..], origin);
    assert ts == [ts[0]] + ts[1..];
    ConsTimes(e, FollowAll(t1, fs[1..]).1, ts[0], ts[1..], origin);
  }

  // The keep-alive frame of a session with times only, sent at device time ts.
  function Stamped(ts: nat): Header { Header(0x80, 1, 0, ts % TWO32, 0) }

  // A gap that is too long: 3 * 2^30 microseconds with a wrap of the clock in between. Both
  // frames are accepted, and the second is reported at time 0, before the first.
  lemma LongGapHidesWrap()
    ensures var h0, h1 := Stamped(0x4000_0000), Stamped(0x1_0000_0000);
            var fs, ts := [FieldsOf(h0, []), FieldsOf(h1, [])], [0x4000_0000, 0x1_0000_0000];
            var es := FollowAll(FRESH, fs).1;
            && Parse(Encode(h0, [])) == Complete(fs[0]) && Parse(Encode(h1, [])) == Complete(fs[1])
            && StampedAt(fs, fs[0].profile, ts) && !AllFollowable(ts)
            && es[1].fullTs == Some(0) && !TimesRight(es, ts, Origin(ts[0]))
  {
    hide Encode, Parse, Exact;
    var h0, h1 := Stamped(0x4000_0000), Stamped(0x1_0000_0000);
    EmptyFrameAccepted(h0);
    EmptyFrameAccepted(h1);
    var fs, ts := [FieldsOf(h0, []), FieldsOf(h1, [])], [0x4000_0000, 0x1_0000_0000];
    TwoFollowed(FRESH, fs);
    assert !Followable(ts[0], ts[0 + 1]);
  }

  // ---- Host time -----------------------------------------------------------------------------

  // The frames arrive with the given delays after their device times, on a host clock that is
  // ahead of the device clock by skew; host times fit in 63 bits.
  ghost predicate ArriveWith(ts: seq<nat>, delays: seq<nat>, skew: int, arrivals: seq<nat>) {
    && |ts| == |delays| == |arrivals|
    && forall i | 0 <= i < |ts| :: arrivals[i] == ts[i] + skew + delays[i] && arrivals[i] < TWO63
  }

  function Min(a: int, b: int): int { if a <= b then a else b }

  // The running minimum of ds, starting from m.
  function Mins(m: int, ds: seq<nat>): (r: seq<int>)
    ensures |r| == |ds|
  {
    if ds == [] then [] else [Min(m, ds[0])] + Mins(Min(m, ds[0]), ds[1..])
  }

  // The reported host times are the device times on the host's clock, late by the smallest
  // delay seen so far.
  ghost predicate BasesRight(rs: seq<Report>, ts: seq<nat>, skew: int, lates: seq<int>) {
    && |rs| == |ts| == |lates|
    && forall i | 0 <= i < |rs| :: rs[i].baseUs == ts[i] + skew + lates[i]
  }

  // The anchor maps the session's clock to the host's, late by m.
  ghost predicate Anchors(s: State, now: nat, origin: int, skew: int, m: int) {
    && s.anchor == Some(origin + skew + m)
    && m >= 0 && now + skew + m >= 0
  }

  lemma BaseStep(s: State, f: Fields, next: nat, origin: int, skew: int, delay: nat, m: int, now: nat, arrival: nat)
    requires InStep(s.track, f.profile, now, origin) && f.ts == Some(next % TWO32)
    requires now <= next && Followable(now, next) && 0 <= next - origin < TWO63
    requires arrival == next + skew + delay && arrival < TWO63
    requires Anchors(s, now, origin, skew, m)
    ensures var (s1, r) := Arrive(s, f, arrival);
            && Anchors(s1, next, origin, skew, Min(m, delay))
            && InStep(s1.track, f.profile, next, origin)
            && r.baseUs == next + skew + Min(m, delay)
  {
    hide Follow, Followable;
    ClockStep(s.track, f, now, next, origin);
  }

  lemma BaseStart(s: State, f: Fields, first: nat, skew: int, delay: nat, arrival: nat)
    requires s.track.profile != Some(f.profile) && f.ts == Some(first % TWO32)
    requires arrival == first + skew + delay && arrival < TWO63
    ensures var (s1, r) := Arrive(s, f, arrival);
            && Anchors(s1, first, Origin(first), skew, delay)
            && InStep(s1.track, f.profile, first, Origin(first))
            && r.baseUs == first + skew + delay
  {
    hide Follow;
    ClockStart(s.track, f, first);
  }

  lemma ConsBases(r: Report, rs: seq<Report>, t: nat, ts: seq<nat>, skew: int, late: int, lates: seq<int>)
    requires BasesRight(rs, ts, skew, lates) && r.baseUs == t + skew + late
    ensures BasesRight([r] + rs, [t] + ts, skew, [late] + lates)
  {}

  lemma {:induction false} HostTimeFrom(s: State, fs: seq<Fields>, p: Profile, now: nat, ts: seq<nat>, origin: int,
                      skew: int, m: int, delays: seq<nat>, arrivals: seq<nat>)
    requires StampedAt(fs, p, ts) && InStep(s.track, p, now, origin)
    requires AllFollowable([now] + ts) && ArriveWith(ts, delays, skew, arrivals)
    requires ts != [] ==> now <= ts[0] && ts[|ts| - 1] - origin < TWO63
    requires Anchors(s, now, origin, skew, m) && origin <= now
    ensures BasesRight(ArriveAll(s, fs, arrivals).1, ts, skew, Mins(m, delays))
    decreases |fs|
  {
    hide Arrive, Followable, InStep, AllFollowable, Anchors, BasesRight;
    if ts == [] {
      assert BasesRight([], [], skew, []) by { NoBases(skew); }
    } else {
      var (s1, r) := Arrive(s, fs[0], arrivals[0]);
      StampedTail(fs, p, ts);
      Sorted(ts, 0);
      ConsFollowable(now, ts);
      BaseStep(s, fs[0], ts[0], origin, skew, delays[0], m, now, arrivals[0]);
      assert ts == [ts[0]] + ts[1..];
      HostTimeFrom(s1, fs[1..], p, ts[0], ts[1..], origin, skew, Min(m, delays[0]), delays[1..], arrivals[1..]);
      ConsBases(r, ArriveAll(s1, fs[1..], arrivals[1..]).1, ts[0], ts[1..], skew,
                Min(m, delays[0]), Mins(Min(m, delays[0]), delays[1..]));
    }
  }

  lemma NoBases(skew: int)
    ensures BasesRight([], [], skew, [])
  {}

  // The host time reported for each frame of a session is its device time on the host's
  // clock, late by exactly the smallest transport delay so far.
  lemma {:induction false} HostTimeReconstructed(s: State, fs: seq<Fields>, p: Profile, ts: seq<nat>,
                              skew: int, delays: seq<nat>, arrivals: seq<nat>)
    requires StampedAt(fs, p, ts) && fs != [] && AllFollowable(ts)
    requires s.track.profile != Some(p)
    requires ts[|ts| - 1] - Origin(ts[0]) < TWO63
    requires ArriveWith(ts, delays, skew, arrivals)
    ensures BasesRight(ArriveAll(s, fs, arrivals).1, ts, skew, Mins(delays[0], delays))
  {
    hide Arrive, Followable, InStep, AllFollowable, Anchors, BasesRight;
    var (s1, r) := Arrive(s, fs[0], arrivals[0]);
    BaseStart(s, fs[0], ts[0], skew, delays[0], arrivals[0]);
    StampedTail(fs, p, ts);
    assert ts == [ts[0]] + ts[1..];
    HostTimeFrom(s1, fs[1..], p, ts[0], ts[1..], Origin(ts[0]), skew, delays[0], delays[1..], arrivals[1..]);
    ConsBases(r, ArriveAll(s1, fs[1..], arrivals[1..]).1, ts[0], ts[1..], skew,
              delays[0], Mins(delays[0], delays[1..]));
  }

  // The running minimum is a minimum of what came before, and never grows.
  lemma {:induction false} MinsAreMinima(m: int, ds: seq<nat>, i: nat)
    requires i < |ds|
    ensures Mins(m, ds)[i] <= ds[i] && Mins(m, ds)[i] <= m
    ensures Mins(m, ds)[i] == m || exists j :: 0 <= j <= i && ds[j] == Mins(m, ds)[i]
    ensures i > 0 ==> Mins(m, ds)[i] <= Mins(m, ds)[i - 1]
  {
    var m1 := Min(m, ds[0]);
    if i > 0 {
      MinsAreMinima(m1, ds[1..], i - 1);
      if Mins(m, ds)[i] == m1 {
        assert m1 == m || ds[0] == m1;
      } else {
        var j :| 0 <= j <= i - 1 && ds[1..][j] == Mins(m1, ds[1..])[i - 1];
        assert ds[j + 1] == Mins(m, ds)[i];
      }
    } else {
      assert m1 == m || ds[0] == m1;
    }
  }

  // So the reported time is never after the arrival, and the error never grows.
  lemma {:induction false} HostTimeBounds(s: State, fs: seq<Fields>, p: Profile, ts: seq<nat>,
                       skew: int, delays: seq<nat>, arrivals: seq<nat>, i: nat)
    requires StampedAt(fs, p, ts) && fs != [] && AllFollowable(ts)
    requires s.track.profile != Some(p)
    requires ts[|ts| - 1] - Origin(ts[0]) < TWO63
    requires ArriveWith(ts, delays, skew, arrivals)
    requires i < |fs|
    ensures var rs := ArriveAll(s, fs, arrivals).1;
            && ts[i] + skew <= rs[i].baseUs <= arrivals[i]
            && (i > 0 ==> rs[i].baseUs - (ts[i] + skew) <= rs[i - 1].baseUs - (ts[i - 1] + skew))
  {
    hide Arrive, Followable, InStep, AllFollowable, Anchors, StampedAt, Mins;
    HostTimeReconstructed(s, fs, p, ts, skew, delays, arrivals);
    MinsAreMinima(delays[0], delays, i);
  }
}
