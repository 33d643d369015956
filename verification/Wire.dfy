// The CBRT frame on the wire: layout, the encoder's frame, and the decoder's verdict on a
// candidate frame.
module Wire {
  import opened Bytes
  import opened Crc16

  // "CBRT"
  const SYNC: seq<byte> := [0x43, 0x42, 0x52, 0x54]

  // ---- Flags + datatype byte ------------------------------------------------------------

  predicate HasTs(flags: byte) { flags / 0x80 % 2 == 1 }
  predicate HasPeriod(flags: byte) { flags / 0x40 % 2 == 1 }
  predicate HasCrc(flags: byte) { flags / 0x20 % 2 == 1 }
  predicate HasSeq(flags: byte) { flags / 0x10 % 2 == 1 }
  function Datatype(flags: byte): nat { flags % 0x10 }

  const BOOL: nat := 0xE

  // What all frames of one session have in common.
  datatype Profile = Profile(flagBits: nat, dtype: nat, channels: nat)

  function ProfileOf(flags: byte, channels: byte): Profile {
    Profile(flags - flags % 0x10, Datatype(flags), channels)
  }

  function BytesPerDatatype(dt: nat): (r: Option<nat>)
    ensures r.Some? <==> dt < BOOL
    ensures r.Some? ==> r.value == 1 || r.value == 2 || r.value == 4 || r.value == 8
  {
    if dt == 0x0 || dt == 0x1 then Some(1)
    else if dt == 0x2 || dt == 0x3 || dt == 0xA || dt == 0xC || dt == 0xD then Some(2)
    else if dt == 0x4 || dt == 0x5 || dt == 0x8 || dt == 0xB then Some(4)
    else if dt == 0x6 || dt == 0x7 || dt == 0x9 then Some(8)
    else None
  }

  // ---- Layout ---------------------------------------------------------------------------

  const SEQ_OFF: nat := 6
  function TsOff(flags: byte): nat { if HasSeq(flags) then 7 else 6 }
  function PeriodOff(flags: byte): nat { TsOff(flags) + if HasTs(flags) then 4 else 0 }
  function LenOff(flags: byte): nat { PeriodOff(flags) + if HasPeriod(flags) then 2 else 0 }
  function HeaderSize(flags: byte): nat { LenOff(flags) + 2 }
  function TrailerSize(flags: byte): nat { if HasCrc(flags) then 2 else 0 }

  // A header has 8 to 15 bytes, and more than 14 when all optional fields are there.
  lemma HeaderSizes(flags: byte)
    ensures 8 <= HeaderSize(flags) <= 15
    ensures HeaderSize(flags) <= 14 <==> !(HasSeq(flags) && HasTs(flags) && HasPeriod(flags))
    ensures HeaderSize(0xD0) == 15
  {}

  // The payload holds a whole number of samples.
  predicate Exact(len: nat, dt: nat, channels: nat)
    requires channels > 0
  {
    if dt == BOOL then len * 8 % channels == 0
    else
      match BytesPerDatatype(dt)
      case Some(bps) => len % (channels * bps) == 0
      case None => false
  }

  // ---- The decoder's verdict --------------------------------------------------------------

  datatype Fields = Fields(
    bytes: seq<byte>,
    profile: Profile,
    seqNo: Option<byte>,
    ts: Option<nat>,
    period: Option<nat>,
    payload: seq<byte>)

  datatype Verdict = Complete(fields: Fields) | NeedMore | Reject

  function PayloadLen(s: seq<byte>): nat
    requires |s| >= 6 && |s| >= HeaderSize(s[4])
  {
    FromLe(s[LenOff(s[4])..HeaderSize(s[4])])
  }

  function FrameSize(s: seq<byte>): nat
    requires |s| >= 6 && |s| >= HeaderSize(s[4])
  {
    HeaderSize(s[4]) + PayloadLen(s) + TrailerSize(s[4])
  }

  // The fields of the frame at the start of s.
  function FieldsAt(s: seq<byte>): Fields
    requires |s| >= 6 && |s| >= HeaderSize(s[4]) && |s| >= FrameSize(s)
  {
    var flags := s[4];
    Fields(
      s[..FrameSize(s)],
      ProfileOf(flags, s[5]),
      if HasSeq(flags) then Some(s[SEQ_OFF]) else None,
      if HasTs(flags) then Some(FromLe(s[TsOff(flags)..PeriodOff(flags)])) else None,
      if HasPeriod(flags) then Some(FromLe(s[PeriodOff(flags)..LenOff(flags)])) else None,
      s[HeaderSize(flags)..HeaderSize(flags) + PayloadLen(s)])
  }

  predicate CrcMatches(s: seq<byte>)
    requires |s| >= 6 && |s| >= HeaderSize(s[4]) && |s| >= FrameSize(s)
  {
    var end := HeaderSize(s[4]) + PayloadLen(s);
    HasCrc(s[4]) ==> Checksum(s[4..end]) == FromLe(s[end..end + 2])
  }

  // The verdict on the bytes s from a sync word on. No session state takes part in it.
  function Parse(s: seq<byte>): Verdict {
    if |s| < 6 then NeedMore
    else if Datatype(s[4]) == 0xF then Reject
    else if s[5] == 0 || s[5] > 64 then Reject
    else if |s| < HeaderSize(s[4]) then NeedMore
    else if !Exact(PayloadLen(s), Datatype(s[4]), s[5]) then Reject
    else if |s| < FrameSize(s) then NeedMore
    else if !CrcMatches(s) then Reject
    else Complete(FieldsAt(s))
  }

  // More bytes never change a verdict once it is given.
  lemma ParseExtends(s: seq<byte>, t: seq<byte>)
    requires Parse(s) != NeedMore
    ensures Parse(s + t) == Parse(s)
  {
    hide Checksum, Exact, FromLe, ProfileOf;
    if |s| >= HeaderSize(s[4]) {
      var flags, n := s[4], HeaderSize(s[4]);
      assert (s + t)[LenOff(flags)..n] == s[LenOff(flags)..n];
      if |s| >= FrameSize(s) {
        SameSlices(s, t, FrameSize(s));
      }
    }
  }

  lemma SameSlices(s: seq<byte>, t: seq<byte>, end: nat)
    requires end <= |s|
    ensures forall i, j | 0 <= i <= j <= end :: (s + t)[i..j] == s[i..j]
  {}

  // A complete frame is a prefix of the input, and it parses to itself.
  lemma CompleteIsPrefix(s: seq<byte>)
    requires Parse(s).Complete?
    ensures var f := Parse(s).fields;
            8 <= |f.bytes| <= |s| && s[..|f.bytes|] == f.bytes && Parse(f.bytes) == Parse(s)
  {
    hide Checksum, Exact, FromLe, ProfileOf;
    var f := s[..FrameSize(s)];
    SameSlices(f, s[FrameSize(s)..], FrameSize(s));
    assert f + s[FrameSize(s)..] == s;
  }

  // A frame that is still incomplete is shorter than the longest frame.
  lemma NeedMoreIsShort(s: seq<byte>)
    requires Parse(s) == NeedMore
    ensures |s| <= 65551
  {
    if |s| >= 6 && |s| >= HeaderSize(s[4]) {
      LeBytesOfFromLe(s[LenOff(s[4])..HeaderSize(s[4])]);
      Pow256Values();
    }
  }

  // ---- The encoder's frame -----------------------------------------------------------------

  // What a frame says apart from its payload.
  datatype Header = Header(flags: byte, channels: byte, seqNo: byte, ts: nat, period: nat)

  ghost predicate ValidHeader(h: Header) {
    && Datatype(h.flags) != 0xF
    && 1 <= h.channels <= 64
    && h.ts < 0x1_0000_0000
    && h.period < 0x1_0000
  }

  function Prefix(h: Header): seq<byte> { SYNC + [h.flags, h.channels] }
  function SeqField(h: Header): seq<byte> { if HasSeq(h.flags) then [h.seqNo] else [] }
  function TsField(h: Header): seq<byte> { if HasTs(h.flags) then LeBytes(h.ts, 4) else [] }
  function PeriodField(h: Header): seq<byte> { if HasPeriod(h.flags) then LeBytes(h.period, 2) else [] }

  function HeaderBytes(h: Header, len: nat): (s: seq<byte>)
    ensures |s| == HeaderSize(h.flags)
  {
    Prefix(h) + SeqField(h) + TsField(h) + PeriodField(h) + LeBytes(len, 2)
  }

  function Encode(h: Header, payload: seq<byte>): seq<byte> {
    var body := HeaderBytes(h, |payload|) + payload;
    if HasCrc(h.flags) then body + LeBytes(Checksum(body[4..]), 2) else body
  }

  function FieldsOf(h: Header, payload: seq<byte>): Fields {
    Fields(
      Encode(h, payload),
      ProfileOf(h.flags, h.channels),
      if HasSeq(h.flags) then Some(h.seqNo) else None,
      if HasTs(h.flags) then Some(h.ts) else None,
      if HasPeriod(h.flags) then Some(h.period) else None,
      payload)
  }

  lemma SliceOf(a: seq<byte>, b: seq<byte>, c: seq<byte>)
    ensures (a + b + c)[|a|..|a| + |b|] == b
    ensures (a + b + c)[..|a|] == a
  {}

  lemma FiveParts(a: seq<byte>, b: seq<byte>, c: seq<byte>, d: seq<byte>, e: seq<byte>, rest: seq<byte>)
    ensures var s := a + b + c + d + e + rest;
            var i := |a|; var j := i + |b|; var k := j + |c|; var l := k + |d|; var m := l + |e|;
            s[..i] == a && s[i..j] == b && s[j..k] == c && s[k..l] == d && s[l..m] == e
  {
    var s4, s3 := e + rest, d + (e + rest);
    var s2 := c + s3;
    Assoc(a + b + c + d, e, rest);
    Assoc(a + b + c, d, s4);
    Assoc(a + b, c, s3);
    SliceOf(a + b + c + d, e, rest);
    SliceOf(a + b + c, d, s4);
    SliceOf(a + b, c, s3);
    SliceOf(a, b, s2);
  }

  lemma Assoc(a: seq<byte>, b: seq<byte>, c: seq<byte>)
    ensures a + b + c == a + (b + c)
  {}

  // Where the fields of an encoded header are found again.
  lemma HeaderFields(h: Header, len: nat, rest: seq<byte>)
    ensures var s := HeaderBytes(h, len) + rest;
            && s[..4] == SYNC && s[4] == h.flags && s[5] == h.channels
            && (HasSeq(h.flags) ==> s[SEQ_OFF] == h.seqNo)
            && s[TsOff(h.flags)..PeriodOff(h.flags)] == TsField(h)
            && s[PeriodOff(h.flags)..LenOff(h.flags)] == PeriodField(h)
            && s[LenOff(h.flags)..HeaderSize(h.flags)] == LeBytes(len, 2)
  {
    hide LeBytes;
    var s := HeaderBytes(h, len) + rest;
    FiveParts(Prefix(h), SeqField(h), TsField(h), PeriodField(h), LeBytes(len, 2), rest);
    assert s[..4] == s[..6][..4] && s[4] == s[..6][4] && s[5] == s[..6][5];
    if HasSeq(h.flags) {
      assert s[SEQ_OFF] == s[6..7][0];
    }
  }

  // The header of an encoded frame says what it was made from.
  lemma EncodedHeader(h: Header, payload: seq<byte>, rest: seq<byte>)
    requires ValidHeader(h) && |payload| < 0x1_0000
    ensures var s := Encode(h, payload) + rest;
            && |s| >= HeaderSize(h.flags) && s[4] == h.flags && s[5] == h.channels
            && PayloadLen(s) == |payload| && FrameSize(s) == |Encode(h, payload)|
            && (HasSeq(h.flags) ==> s[SEQ_OFF] == h.seqNo)
            && (HasTs(h.flags) ==> FromLe(s[TsOff(h.flags)..PeriodOff(h.flags)]) == h.ts)
            && (HasPeriod(h.flags) ==> FromLe(s[PeriodOff(h.flags)..LenOff(h.flags)]) == h.period)
  {
    hide Checksum, FromLe, LeBytes, HeaderBytes, HasSeq, HasTs, HasPeriod, HasCrc;
    var head := HeaderBytes(h, |payload|);
    var s := Encode(h, payload) + rest;
    var tail := s[|head|..];
    assert s == head + tail;
    HeaderFields(h, |payload|, tail);
    Pow256Values();
    FromLeOfLeBytes(|payload|, 2);
    if HasTs(h.flags) {
      FromLeOfLeBytes(h.ts, 4);
    }
    if HasPeriod(h.flags) {
      FromLeOfLeBytes(h.period, 2);
    }
  }

  // Its checksum is found again, and matches.
  lemma EncodedBody(h: Header, payload: seq<byte>, rest: seq<byte>)
    requires |payload| < 0x1_0000
    ensures var s := Encode(h, payload) + rest;
            var n, end := HeaderSize(h.flags), HeaderSize(h.flags) + |payload|;
            && |s| >= |Encode(h, payload)| >= end
            && s[..|Encode(h, payload)|] == Encode(h, payload) && s[n..end] == payload
            && (HasCrc(h.flags) ==> |s| >= end + 2 && Checksum(s[4..end]) == FromLe(s[end..end + 2]))
  {
    hide Checksum, FromLe, LeBytes, HeaderBytes, HasSeq, HasTs, HasPeriod, HasCrc;
    var head := HeaderBytes(h, |payload|);
    var body := head + payload;
    var s := Encode(h, payload) + rest;
    if HasCrc(h.flags) {
      var crc := Checksum(body[4..]);
      Pow256Values();
      FromLeOfLeBytes(crc, 2);
      SliceOf(body, LeBytes(crc, 2), rest);
      assert s[4..|body|] == body[4..];
    }
    assert s[|head|..|body|] == s[..|body|][|head|..] == payload;
  }

  // An encoded frame, whatever follows it, is accepted with the values it was made from
  // exactly when the payload is a whole number of samples; otherwise it is rejected.
  lemma EncodeThenParse(h: Header, payload: seq<byte>, rest: seq<byte>)
    requires ValidHeader(h) && |payload| < 0x1_0000
    ensures Parse(Encode(h, payload) + rest) ==
            if Exact(|payload|, Datatype(h.flags), h.channels) then Complete(FieldsOf(h, payload)) else Reject
  {
    hide Checksum, Exact, FromLe, ProfileOf, Encode, PayloadLen, HasSeq, HasTs, HasPeriod, HasCrc;
    EncodedHeader(h, payload, rest);
    EncodedBody(h, payload, rest);
  }

  lemma EmptyFrameAccepted(h: Header)
    requires ValidHeader(h)
    ensures Parse(Encode(h, [])) == Complete(FieldsOf(h, []))
  {
    hide Parse, Encode, FieldsOf;
    EncodeThenParse(h, [], []);
    NothingIsWhole(Datatype(h.flags), h.channels);
    assert Encode(h, []) + [] == Encode(h, []);
  }

  lemma NothingIsWhole(dt: nat, channels: nat)
    requires dt < 0xF && channels > 0
    ensures Exact(0, dt, channels)
  {}

  // t has its frame where s has it: the same optional fields, and the same length field.
  ghost predicate SameExtent(s: seq<byte>, t: seq<byte>)
    requires |s| >= 6 && |s| >= HeaderSize(s[4]) && |t| == |s|
  {
    && t[4] / 0x10 == s[4] / 0x10
    && t[LenOff(s[4])..HeaderSize(s[4])] == s[LenOff(s[4])..HeaderSize(s[4])]
  }

  // Any byte or two adjacent ones that go wrong on the way are noticed when the frame carries
  // a checksum: in its header, its payload or the checksum itself. Only the frame's extent
  // must stay what it is.
  lemma CorruptionRejected(s: seq<byte>, t: seq<byte>, k: nat)
    requires Parse(s).Complete? && HasCrc(s[4])
    requires |t| == |s| && t != s && SameExtent(s, t)
    requires 4 <= k && k + 2 <= FrameSize(s)
    requires t[..k] == s[..k] && t[k + 2..] == s[k + 2..]
    ensures Parse(t) == Reject
  {
    hide Checksum, Exact, FromLe, ProfileOf, HasSeq, HasTs, HasPeriod, HasCrc, SameExtent, CrcMatches;
    var n := FrameSize(s);
    SlicesOutside(s, t, k);
    assert s[4..n] == s[4..k] + s[k..k + 2] + s[k + 2..n];
    assert t[4..n] == s[4..k] + t[k..k + 2] + s[k + 2..n];
    WindowDiffers(s, t, k);
    BurstDetected(s[4..k], s[k..k + 2], t[k..k + 2], s[k + 2..n]);
    OtherChecksumRejected(s, t);
  }

  // The same for any burst of at most sixteen bits, wherever it begins.
  lemma BurstRejected(s: seq<byte>, t: seq<byte>, j: nat, d: nat)
    requires Parse(s).Complete? && HasCrc(s[4])
    requires |t| == |s| && SameExtent(s, t)
    requires Burst(s[4..FrameSize(s)], t[4..FrameSize(s)], j, d)
    ensures Parse(t) == Reject
  {
    hide Checksum, Exact, FromLe, ProfileOf, HasSeq, HasTs, HasPeriod, HasCrc, SameExtent, CrcMatches, Burst;
    BurstOf16Detected(s[4..FrameSize(s)], t[4..FrameSize(s)], j, d);
    OtherChecksumRejected(s, t);
  }

  lemma OtherChecksumRejected(s: seq<byte>, t: seq<byte>)
    requires Parse(s).Complete? && HasCrc(s[4])
    requires |t| == |s| && SameExtent(s, t)
    requires Checksum(s[4..FrameSize(s)]) != Checksum(t[4..FrameSize(s)])
    ensures Parse(t) == Reject
  {
    hide Checksum, Exact, FromLe, ProfileOf, HasSeq, HasTs, HasPeriod, HasCrc, CrcMatches;
    SameFrame(s, t);
    CrcMatchesIff(s);
    CrcMatchesIff(t);
  }

  lemma SameFrame(s: seq<byte>, t: seq<byte>)
    requires |s| >= 6 && |s| >= HeaderSize(s[4]) && |t| == |s| && SameExtent(s, t)
    ensures HeaderSize(t[4]) == HeaderSize(s[4]) && HasCrc(t[4]) == HasCrc(s[4])
    ensures PayloadLen(t) == PayloadLen(s) && FrameSize(t) == FrameSize(s)
  {
    hide FromLe, HasSeq, HasTs, HasPeriod, HasCrc;
    SameFlagBits(s[4], t[4]);
  }

  lemma SameFlagBits(f: byte, g: byte)
    requires f / 0x10 == g / 0x10
    ensures HasSeq(f) == HasSeq(g) && HasTs(f) == HasTs(g) && HasPeriod(f) == HasPeriod(g) && HasCrc(f) == HasCrc(g)
  {}

  // The checksum test looks at everything from the flags to the checksum at once.
  lemma CrcMatchesIff(s: seq<byte>)
    requires |s| >= 6 && |s| >= HeaderSize(s[4]) && |s| >= FrameSize(s) && HasCrc(s[4])
    ensures CrcMatches(s) <==> Checksum(s[4..FrameSize(s)]) == 0
  {
    hide Checksum, FromLe, HasSeq, HasTs, HasPeriod, HasCrc;
    var end := HeaderSize(s[4]) + PayloadLen(s);
    assert s[4..FrameSize(s)] == s[4..end] + s[end..end + 2];
    ChecksumChecksItself(s[4..end], s[end..end + 2]);
  }

  lemma SlicesOutside(s: seq<byte>, t: seq<byte>, k: nat)
    requires |t| == |s| && k + 2 <= |s|
    requires t[..k] == s[..k] && t[k + 2..] == s[k + 2..]
    ensures forall i, j | 0 <= i <= j <= k :: t[i..j] == s[i..j]
    ensures forall i, j | k + 2 <= i <= j <= |s| :: t[i..j] == s[i..j]
  {
    forall i, j | 0 <= i <= j <= k ensures t[i..j] == s[i..j] {
      assert t[i..j] == t[..k][i..j];
    }
    forall i, j | k + 2 <= i <= j <= |s| ensures t[i..j] == s[i..j] {
      assert t[i..j] == t[k + 2..][i - k - 2..j - k - 2];
      assert s[i..j] == s[k + 2..][i - k - 2..j - k - 2];
    }
  }

  lemma WindowDiffers(s: seq<byte>, t: seq<byte>, k: nat)
    requires |t| == |s| && t != s && k + 2 <= |s|
    requires t[..k] == s[..k] && t[k + 2..] == s[k + 2..]
    ensures s[k..k + 2] != t[k..k + 2]
  {
    assert s == s[..k] + s[k..k + 2] + s[k + 2..];
    assert t == t[..k] + t[k..k + 2] + t[k + 2..];
  }

  // ---- The decoder accepts exactly what an encoder can send ---------------------------------------

  lemma SyncIsCbrt()
    ensures |SYNC| == 4 && forall i | 0 <= i < 4 :: SYNC[i] == "CBRT"[i] as int
  {}

  // The flags and the datatype share one byte, and say all there is in it.
  lemma FlagBits(flags: byte)
    ensures Datatype(flags) < 0x10
    ensures flags == Datatype(flags)
                     + (if HasSeq(flags) then 0x10 else 0) + (if HasCrc(flags) then 0x20 else 0)
                     + (if HasPeriod(flags) then 0x40 else 0) + (if HasTs(flags) then 0x80 else 0)
  {}

  // Two accepted frames belong to the same session exactly when their bytes for flags and
  // datatype, and for the channels, are the same.
  lemma SameProfileIff(s: seq<byte>, t: seq<byte>)
    requires Parse(s).Complete? && Parse(t).Complete?
    ensures Parse(s).fields.profile == Parse(t).fields.profile <==> s[4] == t[4] && s[5] == t[5]
  {
    hide Exact, FromLe, CrcMatches;
  }

  // The header that starts s.
  function HeaderOf(s: seq<byte>): Header
    requires |s| >= 6 && |s| >= HeaderSize(s[4])
  {
    var flags := s[4];
    Header(
      flags, s[5],
      if HasSeq(flags) then s[SEQ_OFF] else 0,
      if HasTs(flags) then FromLe(s[TsOff(flags)..PeriodOff(flags)]) else 0,
      if HasPeriod(flags) then FromLe(s[PeriodOff(flags)..LenOff(flags)]) else 0)
  }

  lemma HeaderRebuilt(s: seq<byte>)
    requires |s| >= 6 && |s| >= HeaderSize(s[4]) && s[..4] == SYNC
    ensures var h := HeaderOf(s);
            && HeaderBytes(h, PayloadLen(s)) == s[..HeaderSize(s[4])]
            && h.ts < 0x1_0000_0000 && h.period < 0x1_0000 && PayloadLen(s) < 0x1_0000
  {
    hide FromLe, LeBytes, HasSeq, HasTs, HasPeriod;
    var flags, h := s[4], HeaderOf(s);
    Pow256Values();
    LeBytesOfFromLe(s[TsOff(flags)..PeriodOff(flags)]);
    LeBytesOfFromLe(s[PeriodOff(flags)..LenOff(flags)]);
    LeBytesOfFromLe(s[LenOff(flags)..HeaderSize(flags)]);
    assert s[..6] == Prefix(h) by {
      assert s[..6] == s[..4] + [s[4], s[5]];
    }
    Joined(s, 6, TsOff(flags));
    Joined(s, TsOff(flags), PeriodOff(flags));
    Joined(s, PeriodOff(flags), LenOff(flags));
    Joined(s, LenOff(flags), HeaderSize(flags));
    assert s[6..TsOff(flags)] == SeqField(h);
    assert s[TsOff(flags)..PeriodOff(flags)] == TsField(h);
    assert s[PeriodOff(flags)..LenOff(flags)] == PeriodField(h);
  }

  lemma Joined(s: seq<byte>, i: nat, j: nat)
    requires i <= j <= |s|
    ensures s[..j] == s[..i] + s[i..j]
  {}

  // An encoded frame of a payload that is a whole number of samples starts s.
  ghost predicate StartsWithFrame(s: seq<byte>, h: Header, payload: seq<byte>) {
    && ValidHeader(h) && |payload| < 0x1_0000 && Exact(|payload|, Datatype(h.flags), h.channels)
    && Encode(h, payload) <= s
  }

  // What is accepted is the encoding of the fields that are reported.
  lemma AcceptedIsEncoded(s: seq<byte>)
    requires Parse(s).Complete? && s[..4] == SYNC
    ensures var f, h := Parse(s).fields, HeaderOf(s);
            StartsWithFrame(s, h, f.payload) && f == FieldsOf(h, f.payload)
  {
    hide Checksum, Exact, FromLe, LeBytes, HeaderBytes, HasSeq, HasTs, HasPeriod, HasCrc, FieldsAt, PayloadLen,
      CrcMatches;
    var f, h := Parse(s).fields, HeaderOf(s);
    HeaderRebuilt(s);
    BodyRebuilt(s);
    var enc := Encode(h, f.payload);
    assert s == enc + s[|enc|..];
    EncodeThenParse(h, f.payload, s[|enc|..]);
  }

  lemma BodyRebuilt(s: seq<byte>)
    requires Parse(s).Complete? && HeaderBytes(HeaderOf(s), PayloadLen(s)) == s[..HeaderSize(s[4])]
    ensures var f, h := Parse(s).fields, HeaderOf(s);
            && |f.payload| == PayloadLen(s) && Exact(|f.payload|, Datatype(h.flags), h.channels)
            && 1 <= h.channels <= 64 && Datatype(h.flags) != 0xF
            && Encode(h, f.payload) <= s
  {
    hide Checksum, Exact, FromLe, LeBytes, HeaderBytes, HasSeq, HasTs, HasPeriod, PayloadLen;
    var f, h := Parse(s).fields, HeaderOf(s);
    var n := HeaderSize(s[4]);
    var end := n + PayloadLen(s);
    Joined(s, n, end);
    if HasCrc(s[4]) {
      LeBytesOfFromLe(s[end..end + 2]);
      Joined(s, end, end + 2);
      assert s[4..end] == s[..end][4..];
    }
  }

  // The decoder accepts the bytes from a sync word on exactly when a frame that an encoder can
  // send starts there.
  lemma AcceptedIff(s: seq<byte>)
    requires |s| >= 4 && s[..4] == SYNC
    ensures Parse(s).Complete? <==> exists h, payload :: StartsWithFrame(s, h, payload)
  {
    hide Parse, Encode, Exact, FieldsOf;
    if Parse(s).Complete? {
      AcceptedIsEncoded(s);
    }
    forall h, payload | StartsWithFrame(s, h, payload) ensures Parse(s).Complete? {
      var enc := Encode(h, payload);
      assert s == enc + s[|enc|..];
      EncodeThenParse(h, payload, s[|enc|..]);
    }
  }

  ghost predicate NeverAccepted(s: seq<byte>) {
    forall t :: !Parse(s + t).Complete?
  }

  function ZeroBytes(n: nat): (r: seq<byte>)
    ensures |r| == n
  {
    if n == 0 then [] else ZeroBytes(n - 1) + [0]
  }

  // A candidate that nothing can complete is given up as soon as its first six bytes are
  // there, or as its header is, and not before that.
  lemma RejectedAtOnce(s: seq<byte>)
    requires |s| >= 6 && s[..4] == SYNC && (|s| == 6 || |s| == HeaderSize(s[4]))
    ensures Parse(s) == Reject <==> NeverAccepted(s)
  {
    hide Parse, Encode, Exact, FieldsOf, HeaderBytes, FromLe, PayloadLen, HasSeq, HasTs, HasPeriod, HasCrc, Checksum;
    if Parse(s) == Reject {
      forall t ensures !Parse(s + t).Complete? {
        ParseExtends(s, t);
      }
    } else {
      var h, payload := Completion(s);
      var enc := Encode(h, payload);
      assert enc == s + enc[|s|..];
      EncodeThenParse(h, payload, []);
      assert enc + [] == enc;
      assert Parse(s + enc[|s|..]).Complete?;
    }
  }

  lemma Completion(s: seq<byte>) returns (h: Header, payload: seq<byte>)
    requires |s| >= 6 && s[..4] == SYNC && (|s| == 6 || |s| == HeaderSize(s[4])) && Parse(s) != Reject
    ensures StartsWithFrame(Encode(h, payload), h, payload) && s <= Encode(h, payload)
  {
    hide Exact, HeaderBytes, FromLe, HasSeq, HasTs, HasPeriod, HasCrc, Checksum, LeBytes;
    if |s| == 6 {
      h, payload := Header(s[4], s[5], 0, 0, 0), [];
      NothingIsWhole(Datatype(h.flags), h.channels);
      HeaderStart(h, 0);
      assert s == s[..4] + [s[4], s[5]];
    } else {
      h, payload := HeaderOf(s), ZeroBytes(PayloadLen(s));
      HeaderRebuilt(s);
      assert s[..|s|] == s;
    }
  }

  lemma HeaderStart(h: Header, len: nat)
    ensures HeaderBytes(h, len)[..6] == Prefix(h)
  {
    hide LeBytes;
  }

  // ---- The worked example of the protocol ---------------------------------------------------------

  // Ten samples of four channels of i16 with all optional fields (protocol.md, section 8).
  lemma WorkedExample(payload: seq<byte>)
    requires |payload| == 80
    ensures var head := [0x43, 0x42, 0x52, 0x54, 0xF3, 0x04, 0x00, 0x40, 0x42, 0x0F, 0x00, 0xE8, 0x03, 0x50, 0x00];
            var frame := head + payload + LeBytes(Checksum(head[4..] + payload), 2);
            && |frame| == 97
            && Parse(frame) == Complete(Fields(
                 frame, Profile(0xF0, 0x3, 4), Some(0), Some(1_000_000), Some(1000), payload))
  {
    hide Checksum, Parse, Exact, LeBytes;
    var h := Header(0xF3, 4, 0, 1_000_000, 1000);
    ExampleNumbers();
    var head := HeaderBytes(h, 80);
    assert head == [0x43, 0x42, 0x52, 0x54, 0xF3, 0x04, 0x00, 0x40, 0x42, 0x0F, 0x00, 0xE8, 0x03, 0x50, 0x00];
    assert (head + payload)[4..] == head[4..] + payload;
    EncodeThenParse(h, payload, []);
    assert Encode(h, payload) + [] == Encode(h, payload);
  }

  // The same without any optional field.
  lemma BareExample(payload: seq<byte>)
    requires |payload| == 80
    ensures var frame := [0x43, 0x42, 0x52, 0x54, 0x03, 0x04, 0x50, 0x00] + payload;
            |frame| == 88 && Parse(frame) == Complete(Fields(frame, Profile(0x00, 0x3, 4), None, None, None, payload))
  {
    hide Checksum, Parse, Exact, LeBytes;
    var h := Header(0x03, 4, 0, 0, 0);
    ExampleNumbers();
    var head := HeaderBytes(h, 80);
    assert head == [0x43, 0x42, 0x52, 0x54, 0x03, 0x04, 0x50, 0x00];
    EncodeThenParse(h, payload, []);
    assert Encode(h, payload) + [] == Encode(h, payload);
  }

  lemma ExampleNumbers()
    ensures LeBytes(1_000_000, 4) == [0x40, 0x42, 0x0F, 0x00]
    ensures LeBytes(1000, 2) == [0xE8, 0x03] && LeBytes(80, 2) == [0x50, 0x00]
    ensures Exact(80, 0x3, 4)
  {
    LeBytesStep(1_000_000, 4);
    LeBytesStep(3906, 3);
    LeBytesStep(15, 2);
    LeBytesStep(1000, 2);
    LeBytesStep(80, 2);
    LeBytesStep(3, 1);
    LeBytesStep(0, 1);
  }

  lemma LeBytesStep(v: nat, n: nat)
    requires n > 0
    ensures LeBytes(v, n) == [v % 0x100] + LeBytes(v / 0x100, n - 1)
    ensures LeBytes(v, 0) == []
  {}
}
