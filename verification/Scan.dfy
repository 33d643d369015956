// The resynchronising scan: how a byte stream is cut into frames. It needs no session state,
// because the verdict on a candidate frame does not depend on the session.
module Scan {
  import opened Bytes
  import opened Wire

  predicate SyncAt(s: seq<byte>, i: nat) {
    i + 4 <= |s| && s[i..i + 4] == SYNC
  }

  // The first sync word at or after position i.
  function FindFrom(s: seq<byte>, i: nat): (r: Option<nat>)
    ensures r.None? ==> forall j: nat | i <= j :: !SyncAt(s, j)
    ensures r.Some? ==> r.value >= i && SyncAt(s, r.value) && forall j: nat | i <= j < r.value :: !SyncAt(s, j)
    decreases |s| - i
  {
    if i + 4 > |s| then None
    else if SyncAt(s, i) then Some(i)
    else FindFrom(s, i + 1)
  }

  function FindSync(s: seq<byte>): (r: Option<nat>)
    ensures r.None? ==> forall j: nat :: !SyncAt(s, j)
    ensures r.Some? ==> SyncAt(s, r.value) && forall j: nat | j < r.value :: !SyncAt(s, j)
  {
    FindFrom(s, 0)
  }

  // What one call of decode finds: a frame and the bytes after it, or no frame and the bytes
  // that stay in the buffer.
  datatype Step = Found(fields: Fields, rest: seq<byte>) | Stuck(rest: seq<byte>)

  function Next(buf: seq<byte>): (r: Step)
    ensures |r.rest| <= |buf| && r.rest == buf[|buf| - |r.rest|..]
    ensures r.Found? ==> |r.rest| + |r.fields.bytes| <= |buf| && |r.fields.bytes| >= 8
    decreases |buf|
  {
    if |buf| < 4 then Stuck(buf)
    else
      match FindSync(buf)
      case None => Stuck(buf[|buf| - 3..])
      case Some(i) =>
        match Parse(buf[i..])
        case NeedMore => Stuck(buf[i..])
        case Reject => Next(buf[i + 1..])
        case Complete(f) =>
          CompleteIsPrefix(buf[i..]);
          Found(f, buf[i + |f.bytes|..])
  }

  // What decoding finds when it is repeated until nothing more is found.
  datatype Stream = Stream(frames: seq<Fields>, rest: seq<byte>)

  function Split(buf: seq<byte>): Stream
    decreases |buf|
  {
    match Next(buf)
    case Stuck(rest) => Stream([], rest)
    case Found(f, rest) =>
      var tail := Split(rest);
      Stream([f] + tail.frames, tail.rest)
  }

  // ---- Chunking does not matter --------------------------------------------------------------

  lemma SyncInSuffix(s: seq<byte>, k: nat, i: nat)
    requires k <= |s|
    ensures SyncAt(s[k..], i) == SyncAt(s, k + i)
  {
    if k + i + 4 <= |s| {
      assert s[k..][i..i + 4] == s[k + i..k + i + 4];
    }
  }

  lemma SyncInPrefix(s: seq<byte>, t: seq<byte>, i: nat)
    requires i + 4 <= |s|
    ensures SyncAt(s + t, i) == SyncAt(s, i)
  {
    assert (s + t)[i..i + 4] == s[i..i + 4];
  }

  lemma FirstSync(s: seq<byte>, i: nat)
    requires SyncAt(s, i) && forall j: nat | j < i :: !SyncAt(s, j)
    ensures FindSync(s) == Some(i)
  {}

  // What one call of decode makes of the bytes w from the first sync word on.
  function AtSync(w: seq<byte>): Step {
    match Parse(w)
    case NeedMore => Stuck(w)
    case Reject => if w == [] then Stuck(w) else Next(w[1..])
    case Complete(f) =>
      CompleteIsPrefix(w);
      Found(f, w[|f.bytes|..])
  }

  lemma NextAtSync(s: seq<byte>, i: nat)
    requires FindSync(s) == Some(i)
    ensures Next(s) == AtSync(s[i..])
  {
    hide Parse;
    match Parse(s[i..]) {
      case NeedMore =>
      case Reject =>
        assert s[i..][1..] == s[i + 1..];
      case Complete(f) =>
        CompleteIsPrefix(s[i..]);
        assert s[i..][|f.bytes|..] == s[i + |f.bytes|..];
    }
  }

  // Bytes where no sync word starts can be dropped, as long as three are kept.
  lemma DropClean(s: seq<byte>, k: nat)
    requires k + 3 <= |s|
    requires forall j: nat | j < k :: !SyncAt(s, j)
    ensures Next(s) == Next(s[k..])
  {
    hide Next, AtSync, SyncAt;
    match FindSync(s) {
      case None => DropAll(s, k);
      case Some(i) => DropToSync(s, k, i);
    }
  }

  lemma NextClean(s: seq<byte>)
    requires FindSync(s) == None && |s| >= 3
    ensures Next(s) == Stuck(s[|s| - 3..])
  {
    hide AtSync, SyncAt, Parse;
  }

  lemma DropAll(s: seq<byte>, k: nat)
    requires k + 3 <= |s| && FindSync(s) == None
    ensures Next(s) == Next(s[k..])
  {
    hide Next, AtSync, SyncAt;
    var t := s[k..];
    forall i: nat ensures SyncAt(t, i) == SyncAt(s, k + i) {
      SyncInSuffix(s, k, i);
    }
    NextClean(s);
    NextClean(t);
    assert s[|s| - 3..] == t[|t| - 3..];
  }

  lemma DropToSync(s: seq<byte>, k: nat, i: nat)
    requires k <= i && FindSync(s) == Some(i)
    ensures Next(s) == Next(s[k..])
  {
    hide Next, AtSync, SyncAt;
    SyncLength(s, i);
    var t := s[k..];
    forall j: nat ensures SyncAt(t, j) == SyncAt(s, k + j) {
      SyncInSuffix(s, k, j);
    }
    FirstSync(t, i - k);
    NextAtSync(s, i);
    NextAtSync(t, i - k);
    assert t[i - k..] == s[i..];
  }

  // Appending bytes keeps what was found, and what was stuck goes on from the bytes kept.
  lemma {:induction false} NextAppend(a: seq<byte>, b: seq<byte>)
    ensures match Next(a)
            case Found(f, rest) => Next(a + b) == Found(f, rest + b)
            case Stuck(rest) => Next(a + b) == Next(rest + b)
    decreases |a|
  {
    if |a| >= 4 {
      match FindSync(a) {
        case None =>
          NoSyncAppend(a, b);
        case Some(i) =>
          hide Next, AtSync, Parse;
          AppendToSync(a, b, i);
          NextAtSync(a, i);
          AtSyncAppend(a[i..], b);
          if Parse(a[i..]) == Reject {
            NextAppend(a[i..][1..], b);
          }
      }
    }
  }

  lemma NoSyncAppend(a: seq<byte>, b: seq<byte>)
    requires |a| >= 4 && FindSync(a) == None
    ensures Next(a) == Stuck(a[|a| - 3..]) && Next(a + b) == Next(a[|a| - 3..] + b)
  {
    hide Parse, AtSync;
    var k := |a| - 3;
    forall j: nat | j < k ensures !SyncAt(a + b, j) {
      SyncInPrefix(a, b, j);
    }
    DropClean(a + b, k);
    assert (a + b)[k..] == a[k..] + b;
  }

  lemma AppendToSync(a: seq<byte>, b: seq<byte>, i: nat)
    requires FindSync(a) == Some(i)
    ensures FindSync(a[i..] + b) == Some(0)
    ensures Next(a + b) == Next(a[i..] + b) == AtSync(a[i..] + b)
  {
    hide Next, AtSync;
    forall j: nat | j <= i ensures SyncAt(a + b, j) == SyncAt(a, j) {
      SyncInPrefix(a, b, j);
    }
    FirstSync(a + b, i);
    assert (a + b)[i..] == a[i..] + b;
    SyncInSuffix(a + b, i, 0);
    FirstSync(a[i..] + b, 0);
    NextAtSync(a + b, i);
    NextAtSync(a[i..] + b, 0);
    assert (a[i..] + b)[0..] == a[i..] + b;
  }

  lemma AtSyncAppend(w: seq<byte>, b: seq<byte>)
    requires |w| > 0
    ensures match Parse(w)
            case NeedMore => AtSync(w) == Stuck(w)
            case Reject => AtSync(w) == Next(w[1..]) && AtSync(w + b) == Next(w[1..] + b)
            case Complete(f) =>
              |f.bytes| <= |w| && AtSync(w) == Found(f, w[|f.bytes|..])
              && AtSync(w + b) == Found(f, w[|f.bytes|..] + b)
  {
    hide Parse, Next;
    match Parse(w) {
      case NeedMore =>
      case Reject =>
        ParseExtends(w, b);
        assert (w + b)[1..] == w[1..] + b;
      case Complete(f) =>
        CompleteIsPrefix(w);
        ParseExtends(w, b);
        assert (w + b)[|f.bytes|..] == w[|f.bytes|..] + b;
    }
  }

  // Decoding a to the end, then appending b and decoding on, finds the same frames and keeps
  // the same bytes as decoding all of a + b at once.
  lemma {:induction false} SplitAppend(a: seq<byte>, b: seq<byte>)
    ensures var s := Split(a);
            var t := Split(s.rest + b);
            Split(a + b) == Stream(s.frames + t.frames, t.rest)
    decreases |a|
  {
    hide Next;
    NextAppend(a, b);
    match Next(a) {
      case Stuck(rest) =>
        var t := Split(rest + b);
        assert [] + t.frames == t.frames;
      case Found(f, rest) =>
        SplitAppend(rest, b);
        var t := Split(Split(rest).rest + b);
        assert [f] + (Split(rest).frames + t.frames) == [f] + Split(rest).frames + t.frames;
    }
  }

  // Once nothing more is found, trying again finds nothing and drops nothing.
  lemma SplitQuiet(a: seq<byte>)
    ensures Next(Split(a).rest) == Stuck(Split(a).rest)
    decreases |a|
  {
    hide Next;
    match Next(a) {
      case Stuck(rest) =>
        NextQuiet(a);
      case Found(f, rest) =>
        SplitQuiet(rest);
    }
  }

  lemma NextQuiet(a: seq<byte>)
    requires Next(a).Stuck?
    ensures Next(Next(a).rest) == Next(a)
  {
    hide Next;
    NextAppend(a, []);
    assert a + [] == a && Next(a).rest + [] == Next(a).rest;
  }

  // ---- How much can stay in the buffer -----------------------------------------------------

  lemma {:induction false} StuckIsShort(a: seq<byte>)
    requires Next(a).Stuck?
    ensures |Next(a).rest| <= 65551
    decreases |a|
  {
    hide Parse;
    if |a| >= 4 && FindSync(a).Some? {
      var i := FindSync(a).value;
      match Parse(a[i..]) {
        case NeedMore => NeedMoreIsShort(a[i..]);
        case Reject => StuckIsShort(a[i + 1..]);
        case Complete(f) =>
      }
    }
  }

  lemma {:induction false} RestIsShort(a: seq<byte>)
    ensures |Split(a).rest| <= 65551
    decreases |a|
  {
    hide Next;
    match Next(a) {
      case Stuck(rest) => StuckIsShort(a);
      case Found(f, rest) => RestIsShort(rest);
    }
  }

  // ---- No sync word is lost -------------------------------------------------------------------

  // The position of each frame of Split(buf) in buf.
  function Offsets(buf: seq<byte>, base: nat): seq<nat>
    decreases |buf|
  {
    match Next(buf)
    case Stuck(rest) => []
    case Found(f, rest) =>
      var end := base + |buf| - |rest|;
      [end - |f.bytes|] + Offsets(rest, end)
  }

  lemma FirstFrame(buf: seq<byte>, base: nat)
    requires Next(buf).Found?
    ensures var f, rest := Next(buf).fields, Next(buf).rest;
            var end := base + |buf| - |rest|;
            && Split(buf) == Stream([f] + Split(rest).frames, Split(rest).rest)
            && Offsets(buf, base) == [end - |f.bytes|] + Offsets(rest, end)
  {
    hide Next;
  }

  lemma SplitHead(buf: seq<byte>)
    ensures Next(buf).Found? <==> |Split(buf).frames| > 0
    ensures Next(buf).Stuck? ==> Split(buf).rest == Next(buf).rest
  {
    hide Next;
  }

  lemma {:induction false} OffsetsCount(buf: seq<byte>, base: nat)
    ensures |Offsets(buf, base)| == |Split(buf).frames|
    decreases |buf|
  {
    hide Next;
    match Next(buf) {
      case Stuck(rest) =>
      case Found(f, rest) => OffsetsCount(rest, base + |buf| - |rest|);
    }
  }

  // The frames lie one after another in the stream, each where it is claimed to be and each
  // accepted by Parse at that place; what stays in the buffer is the end of the stream.
  lemma {:induction false} FramesInPlace(all: seq<byte>, base: nat, i: nat)
    requires base <= |all|
    requires i < |Split(all[base..]).frames|
    ensures var fs, os := Split(all[base..]).frames, Offsets(all[base..], base);
            && |os| == |fs|
            && base <= os[i] && os[i] + |fs[i].bytes| <= |all|
            && SyncAt(all, os[i]) && Parse(all[os[i]..]) == Complete(fs[i])
            && all[os[i]..os[i] + |fs[i].bytes|] == fs[i].bytes
            && (i + 1 < |fs| ==> os[i] + |fs[i].bytes| <= os[i + 1])
    decreases |all| - base, i
  {
    hide Parse, Next, Split, Offsets, SyncAt;
    var buf := all[base..];
    OffsetsCount(buf, base);
    SplitHead(buf);
    FirstFrame(buf, base);
    NextFrame(all, base);
    var rest := Next(buf).rest;
    var end := |all| - |rest|;
    assert rest == all[end..];
    if i > 0 {
      FramesInPlace(all, end, i - 1);
    } else if |Split(rest).frames| > 0 {
      FramesInPlace(all, end, 0);
    }
  }

  lemma {:induction false} NextFrame(all: seq<byte>, base: nat)
    requires base <= |all| && Next(all[base..]).Found?
    ensures var f, rest := Next(all[base..]).fields, Next(all[base..]).rest;
            var start := |all| - |rest| - |f.bytes|;
            && start >= base && SyncAt(all, start) && Parse(all[start..]) == Complete(f)
            && all[start..start + |f.bytes|] == f.bytes
    decreases |all| - base
  {
    hide Parse, Next, AtSync, SyncAt;
    var buf := all[base..];
    FoundHasSync(buf);
    var i := FindSync(buf).value;
    SyncLength(buf, i);
    NextAtSync(buf, i);
    var w := all[base + i..];
    assert buf[i..] == w;
    SyncInSuffix(all, base, i);
    AtSyncAppend(w, []);
    if Parse(w) == Reject {
      assert w[1..] == all[base + i + 1..];
      NextFrame(all, base + i + 1);
    } else {
      AcceptedHere(all, base + i);
    }
  }

  lemma AcceptedHere(all: seq<byte>, start: nat)
    requires start <= |all| && Parse(all[start..]).Complete?
    ensures var f, w := Parse(all[start..]).fields, all[start..];
            && |f.bytes| <= |w| && start == |all| - |w[|f.bytes|..]| - |f.bytes|
            && all[start..start + |f.bytes|] == f.bytes
  {
    hide Parse;
    var f, w := Parse(all[start..]).fields, all[start..];
    CompleteIsPrefix(w);
    assert all[start..start + |f.bytes|] == w[..|f.bytes|];
  }

  lemma FoundHasSync(buf: seq<byte>)
    requires Next(buf).Found?
    ensures FindSync(buf).Some?
  {
    hide SyncAt, Parse;
  }

  // The place p is inside an accepted frame.
  ghost predicate Inside(fs: seq<Fields>, os: seq<nat>, p: nat) {
    exists i :: 0 <= i < |fs| && i < |os| && os[i] <= p < os[i] + |fs[i].bytes|
  }

  // Every sync word of the stream is inside an accepted frame, or was rejected, or is still
  // in the buffer.
  lemma {:induction false} EverySyncAccounted(all: seq<byte>, base: nat, p: nat)
    requires base <= p && SyncAt(all, p)
    ensures || Inside(Split(all[base..]).frames, Offsets(all[base..], base), p)
            || Parse(all[p..]) == Reject
            || p >= |all| - |Split(all[base..]).rest|
    decreases |all| - base
  {
    hide Parse, Next, Split, Offsets, SyncAt, Inside;
    SyncLength(all, p);
    var buf := all[base..];
    SplitHead(buf);
    if Next(buf).Stuck? {
      if p < |all| - |Next(buf).rest| {
        PassedOver(all, base, p);
      }
    } else {
      var f, rest := Next(buf).fields, Next(buf).rest;
      var end := |all| - |rest|;
      assert rest == all[end..];
      FirstFrame(buf, base);
      if p >= end {
        EverySyncAccounted(all, end, p);
        if Inside(Split(rest).frames, Offsets(rest, end), p) {
          InsideLater(f, end - |f.bytes|, Split(rest).frames, Offsets(rest, end), p);
        }
      } else {
        PassedOver(all, base, p);
        InsideFirst(f, end - |f.bytes|, Split(rest).frames, Offsets(rest, end), p);
      }
    }
  }

  lemma InsideLater(f: Fields, o: nat, fs: seq<Fields>, os: seq<nat>, p: nat)
    requires Inside(fs, os, p)
    ensures Inside([f] + fs, [o] + os, p)
  {
    var i :| 0 <= i < |fs| && i < |os| && os[i] <= p < os[i] + |fs[i].bytes|;
    assert ([f] + fs)[i + 1] == fs[i] && ([o] + os)[i + 1] == os[i];
  }

  lemma InsideFirst(f: Fields, o: nat, fs: seq<Fields>, os: seq<nat>, p: nat)
    ensures o <= p < o + |f.bytes| ==> Inside([f] + fs, [o] + os, p)
  {
    assert ([f] + fs)[0] == f && ([o] + os)[0] == o;
  }

  // A sync word that one call of decode passes over was rejected or lies in the frame found.
  lemma {:induction false} PassedOver(all: seq<byte>, base: nat, p: nat)
    requires base <= p && SyncAt(all, p) && p < |all| - |Next(all[base..]).rest|
    ensures || Parse(all[p..]) == Reject
            || (Next(all[base..]).Found?
                && p >= |all| - |Next(all[base..]).rest| - |Next(all[base..]).fields.bytes|)
    decreases |all| - base
  {
    hide Parse, Next, AtSync, SyncAt;
    SyncLength(all, p);
    var buf := all[base..];
    SyncInSuffix(all, base, p - base);
    var i := FindSync(buf).value;
    assert i <= p - base;
    SyncLength(buf, i);
    NextAtSync(buf, i);
    var w := all[base + i..];
    assert buf[i..] == w;
    AtSyncAppend(w, []);
    if Parse(w) == Reject && i < p - base {
      assert w[1..] == all[base + i + 1..];
      PassedOver(all, base + i + 1, p);
    }
  }

  lemma SyncLength(s: seq<byte>, p: nat)
    requires SyncAt(s, p)
    ensures p + 4 <= |s|
  {}

  // ---- Decoding what the encoder sent ------------------------------------------------------------

  // The sync word does not overlap itself, so none appears across the border to a frame.
  lemma NoSyncAcross(g: seq<byte>, s: seq<byte>, p: nat)
    requires |s| >= 4 && s[..4] == SYNC
    requires p < |g| < p + 4
    ensures !SyncAt(g + s, p)
  {
    assert (g + s)[|g|] == s[..4][0];
    if p + 4 <= |g + s| {
      assert (g + s)[p..p + 4][|g| - p] == (g + s)[|g|];
    }
  }

  datatype Frame = Frame(header: Header, payload: seq<byte>)

  ghost predicate Sendable(f: Frame) {
    && ValidHeader(f.header)
    && |f.payload| < 0x1_0000
    && Exact(|f.payload|, Datatype(f.header.flags), f.header.channels)
  }

  // The bytes of the frames, one after another.
  function Wired(fs: seq<Frame>): seq<byte> {
    if fs == [] then [] else Encode(fs[0].header, fs[0].payload) + Wired(fs[1..])
  }

  function FieldsOfAll(fs: seq<Frame>): (r: seq<Fields>)
    ensures |r| == |fs|
  {
    if fs == [] then [] else [FieldsOf(fs[0].header, fs[0].payload)] + FieldsOfAll(fs[1..])
  }

  lemma EncodeStartsWithSync(h: Header, payload: seq<byte>, rest: seq<byte>)
    ensures |Encode(h, payload) + rest| >= 8 && (Encode(h, payload) + rest)[..4] == SYNC
  {
    hide LeBytes;
    assert HeaderBytes(h, |payload|)[..4] == SYNC;
  }

  // A frame after bytes without a sync word is found, whatever its payload contains.
  lemma FrameFound(g: seq<byte>, f: Frame, rest: seq<byte>)
    requires Sendable(f)
    requires forall j: nat :: !SyncAt(g, j)
    ensures Next(g + Encode(f.header, f.payload) + rest) == Found(FieldsOf(f.header, f.payload), rest)
  {
    hide Parse, Encode, FieldsOf, Exact;
    var frame := Encode(f.header, f.payload);
    var s := frame + rest;
    assert g + frame + rest == g + s;
    EncodeStartsWithSync(f.header, f.payload, rest);
    forall p: nat | p < |g| ensures !SyncAt(g + s, p) {
      if p + 4 <= |g| {
        SyncInPrefix(g, s, p);
      } else {
        NoSyncAcross(g, s, p);
      }
    }
    assert (g + s)[|g|..] == s && (g + s)[|g|..|g| + 4] == s[..4];
    FirstSync(g + s, |g|);
    EncodeThenParse(f.header, f.payload, rest);
    FieldsBytes(f);
    assert (g + s)[|g| + |frame|..] == rest;
  }

  // From any stream at all, damaged before or after, a whole frame at p is delivered, unless
  // an earlier candidate covers it: one that was accepted, or one that is still incomplete.
  lemma FrameRecovered(all: seq<byte>, f: Frame, p: nat)
    requires Sendable(f)
    requires var enc := Encode(f.header, f.payload); p + |enc| <= |all| && all[p..p + |enc|] == enc
    ensures var fs, os, rest := Split(all).frames, Offsets(all, 0), Split(all).rest;
            && |os| == |fs|
            && (Inside(fs, os, p) || p >= |all| - |rest|)
            && forall i | 0 <= i < |fs| && os[i] == p :: fs[i] == FieldsOf(f.header, f.payload)
  {
    hide Parse, Split, Offsets, SyncAt, Inside, Exact, Encode, FieldsOf;
    var enc := Encode(f.header, f.payload);
    var tail := all[p + |enc|..];
    assert all[p..] == enc + tail;
    assert all[0..] == all;
    EncodeThenParse(f.header, f.payload, tail);
    EncodeStartsWithSync(f.header, f.payload, tail);
    SyncHere(all, p);
    EverySyncAccounted(all, 0, p);
    OffsetsCount(all, 0);
    var fs, os := Split(all).frames, Offsets(all, 0);
    forall i | 0 <= i < |fs| && os[i] == p ensures fs[i] == FieldsOf(f.header, f.payload) {
      FramesInPlace(all, 0, i);
    }
  }

  lemma SyncHere(all: seq<byte>, p: nat)
    requires p + 4 <= |all| && all[p..][..4] == SYNC
    ensures SyncAt(all, p)
  {
    assert all[p..p + 4] == all[p..][..4];
  }

  lemma FieldsBytes(f: Frame)
    ensures FieldsOf(f.header, f.payload).bytes == Encode(f.header, f.payload)
  {}

  // All frames sent, after any bytes without a sync word, come back in order; nothing is
  // left over once the first frame is through.
  lemma {:induction false} StreamRoundTrip(g: seq<byte>, fs: seq<Frame>)
    requires forall f | f in fs :: Sendable(f)
    requires forall j: nat :: !SyncAt(g, j)
    ensures Split(g + Wired(fs)).frames == FieldsOfAll(fs)
    ensures fs != [] ==> Split(g + Wired(fs)).rest == []
    decreases |fs|
  {
    hide Next, Encode, FieldsOf;
    if fs == [] {
      assert g + [] == g;
      assert Next(g).Stuck? by { CleanIsStuck(g); }
    } else {
      var f, tail := fs[0], Wired(fs[1..]);
      FrameFound(g, f, tail);
      assert g + Encode(f.header, f.payload) + tail == g + Wired(fs);
      StreamRoundTrip([], fs[1..]);
      assert [] + tail == tail;
      if |fs| == 1 {
        assert tail == [];
        EmptyIsStuck();
      }
    }
  }

  lemma CleanIsStuck(g: seq<byte>)
    requires forall j: nat :: !SyncAt(g, j)
    ensures Next(g).Stuck?
  {}

  lemma EmptyIsStuck()
    ensures Next([]) == Stuck([])
  {}
}
