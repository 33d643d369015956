// The frame builder of the C encoder: what each call does to the frame under construction,
// and the struct with its caller-owned buffer that does it.
module Builder {
  import opened Bytes
  import opened Crc16
  import opened Wire
  import opened Scan
  import opened Samples

  datatype Status = Ok | BadArg | Overflow | WrongType | BadState | BadAlign

  // ---- The builder as a value ----------------------------------------------------------------

  // flags holds the flag bits only; the byte on the wire has the datatype in its low half.
  datatype Config = Config(flags: byte, dtype: nat, channels: nat, cap: nat)

  ghost predicate ValidConfig(c: Config) {
    c.flags % 0x10 == 0 && c.dtype <= BOOL && 1 <= c.channels <= 64
  }

  function WireFlags(c: Config): byte
    requires c.flags % 0x10 == 0 && c.dtype < 0x10
  {
    c.flags + c.dtype
  }

  // The frame under construction. bits are all booleans appended to it.
  datatype Draft = Draft(seqNo: byte, ts: nat, period: nat, payload: seq<byte>, bits: seq<bool>, err: Status)

  function NewDraft(seqNo: byte): Draft { Draft(seqNo, 0, 0, [], [], Ok) }

  // A payload of n bytes fits, with the header and the room kept for the checksum.
  predicate Room(c: Config, n: nat) {
    HeaderSize(c.flags) + n + TrailerSize(c.flags) <= c.cap
  }

  function Put(c: Config, d: Draft, bytes: seq<byte>): Draft {
    if d.err != Ok then d
    else if Room(c, |d.payload| + |bytes|) then d.(payload := d.payload + bytes)
    else d.(err := Overflow)
  }

  function SetTs(c: Config, d: Draft, ts: nat): Draft {
    if d.err != Ok then d
    else if !HasTs(c.flags) then d.(err := BadState)
    else d.(ts := ts)
  }

  function SetPeriod(c: Config, d: Draft, period: nat): Draft {
    if d.err != Ok then d
    else if !HasPeriod(c.flags) then d.(err := BadState)
    else d.(period := period)
  }

  // A typed append. What the bits of a floating-point number mean is of no concern here.
  function Append(c: Config, d: Draft, want: nat, z: int): Draft {
    if d.err != Ok then d
    else if c.dtype != want then d.(err := WrongType)
    else Put(c, d, Stored(want, z))
  }

  // The values of the C type that the appender takes: of the integer types and the fixed-point
  // ones, and of the bits of the floating-point ones.
  predicate InRange(want: nat, z: int) {
    if want == 0x0 then 0 <= z <= 0xFF
    else if want == 0x1 then -0x80 <= z <= 0x7F
    else if want == 0x2 || want == 0xC || want == 0xD then 0 <= z <= 0xFFFF
    else if want == 0x3 || want == 0xA then -0x8000 <= z <= 0x7FFF
    else if want == 0x4 || want == 0x8 then 0 <= z <= 0xFFFF_FFFF
    else if want == 0x5 || want == 0xB then -0x8000_0000 <= z <= 0x7FFF_FFFF
    else if want == 0x6 || want == 0x9 then 0 <= z <= 0xFFFF_FFFF_FFFF_FFFF
    else want == 0x7 && -0x8000_0000_0000_0000 <= z <= 0x7FFF_FFFF_FFFF_FFFF
  }

  // How many bytes the appender stores.
  function StoredWidth(want: nat): nat {
    if want == 0x0 || want == 0x1 then 1
    else if want == 0x2 || want == 0x3 || want == 0xA || want == 0xC || want == 0xD then 2
    else if want == 0x4 || want == 0x5 || want == 0x8 || want == 0xB then 4
    else 8
  }

  // The conversion to the unsigned type of the same width, stored low byte first.
  function Stored(want: nat, z: int): seq<byte> {
    LeBytes(z % Pow256(StoredWidth(want)), StoredWidth(want))
  }

  // The encoder's own table of widths, which appending raw bytes goes by. 0 stands for packed
  // booleans.
  function WidthOf(dt: nat): nat {
    match dt
    case 0x0 => 1
    case 0x1 => 1
    case 0x2 => 2
    case 0x3 => 2
    case 0x4 => 4
    case 0x5 => 4
    case 0x6 => 8
    case 0x7 => 8
    case 0x8 => 4
    case 0x9 => 8
    case 0xA => 2
    case 0xB => 4
    case 0xC => 2
    case 0xD => 2
    case _ => 0
  }

  // What the appenders store, what the encoder counts, and what the decoder reads are of the
  // same width for every datatype.
  lemma WidthsAgree(dt: nat)
    requires dt <= BOOL
    ensures BytesPerDatatype(dt) == if dt == BOOL then None else Some(WidthOf(dt))
    ensures dt < BOOL ==> StoredWidth(dt) == WidthOf(dt) > 0
    ensures forall z :: dt < BOOL ==> |Stored(dt, z)| == WidthOf(dt)
  {}

  function AppendRaw(c: Config, d: Draft, bytes: seq<byte>): Draft {
    if d.err != Ok then d
    else if c.dtype == BOOL then d.(err := WrongType)
    else
      var unit := c.channels * WidthOf(c.dtype);
      if unit == 0 || |bytes| % unit != 0 then d.(err := BadAlign)
      else Put(c, d, bytes)
  }

  function AppendBit(c: Config, d: Draft, b: bool): Draft {
    if d.err != Ok then d
    else
      var all := d.bits + [b];
      if |all| % 8 == 0 then Put(c, d.(bits := all), [PackByte(all[|all| - 8..])])
      else d.(bits := all)
  }

  function AppendBits(c: Config, d: Draft, bs: seq<bool>): Draft {
    if bs == [] then d else AppendBit(c, AppendBits(c, d, bs[..|bs| - 1]), bs[|bs| - 1])
  }

  function Truths(values: seq<byte>): (r: seq<bool>)
    ensures |r| == |values|
    ensures forall i | 0 <= i < |values| :: r[i] == (values[i] != 0)
  {
    if values == [] then [] else Truths(values[..|values| - 1]) + [values[|values| - 1] != 0]
  }

  function AppendBoolSample(c: Config, d: Draft, values: seq<byte>): Draft {
    if d.err != Ok then d
    else if c.dtype != BOOL then d.(err := WrongType)
    else AppendBits(c, d, Truths(values))
  }

  // The samples of a boolean frame are completed with whole zero samples.
  function PadBits(c: Config, d: Draft): Draft
    requires c.channels > 0
  {
    if c.dtype == BOOL
    then AppendBits(c, d, PadZeros(|d.bits| / c.channels, c.channels))
    else d
  }

  function FrameOf(c: Config, d: Draft): Frame
    requires ValidConfig(c)
  {
    Frame(Header(WireFlags(c), c.channels, d.seqNo, d.ts, d.period), d.payload)
  }

  function Finalize(c: Config, d: Draft): (Draft, Option<Frame>)
    requires ValidConfig(c)
  {
    if d.err != Ok then (d, None)
    else
      var p := PadBits(c, d);
      if p.err != Ok then (p, None)
      else if |p.payload| > 0xFFFF then (p.(err := Overflow), None)
      else (NewDraft((p.seqNo + 1) % 0x100), Some(FrameOf(c, p)))
  }

  // ---- Facts the struct needs ----------------------------------------------------------------

  lemma SameFlags(c: Config)
    requires ValidConfig(c)
    ensures var w := WireFlags(c);
            && Datatype(w) == c.dtype
            && HasTs(w) == HasTs(c.flags) && HasPeriod(w) == HasPeriod(c.flags)
            && HasCrc(w) == HasCrc(c.flags) && HasSeq(w) == HasSeq(c.flags)
            && HeaderSize(w) == HeaderSize(c.flags) && TrailerSize(w) == TrailerSize(c.flags)
  {
    hide HasTs, HasPeriod, HasCrc, HasSeq;
    SameFlagBits(c.flags, WireFlags(c));
  }

  // There is room exactly when the encoded frame fits the capacity.
  lemma RoomIsFit(c: Config, h: Header, payload: seq<byte>)
    requires ValidConfig(c) && h.flags == WireFlags(c)
    ensures Room(c, |payload|) <==> |Encode(h, payload)| <= c.cap
  {
    hide HasSeq, HasTs, HasPeriod, HasCrc, WireFlags, Checksum, LeBytes;
    SameFlags(c);
  }

  lemma AppendBitsSnoc(c: Config, d: Draft, bs: seq<bool>, b: bool)
    ensures AppendBits(c, d, bs + [b]) == AppendBit(c, AppendBits(c, d, bs), b)
  {
    hide AppendBit;
    assert (bs + [b])[..|bs + [b]| - 1] == bs;
  }

  lemma {:induction false} AppendBitsAppend(c: Config, d: Draft, a: seq<bool>, b: seq<bool>)
    ensures AppendBits(c, d, a + b) == AppendBits(c, AppendBits(c, d, a), b)
  {
    hide AppendBit;
    if b == [] {
      assert a + b == a;
    } else {
      assert (a + b)[..|a + b| - 1] == a + b[..|b| - 1];
      AppendBitsAppend(c, d, a, b[..|b| - 1]);
    }
  }

  lemma {:induction false} BitsFailed(c: Config, d: Draft, bs: seq<bool>)
    requires d.err != Ok
    ensures AppendBits(c, d, bs) == d
  {
    if bs != [] {
      BitsFailed(c, d, bs[..|bs| - 1]);
    }
  }

  // As long as no error occurs the bits are all kept, and everything else but the payload
  // stays as it was.
  lemma {:induction false} BitsKept(c: Config, d: Draft, bs: seq<bool>)
    requires AppendBits(c, d, bs).err == Ok
    ensures d.err == Ok
    ensures var r := AppendBits(c, d, bs);
            r.bits == d.bits + bs && r == d.(payload := r.payload, bits := r.bits)
  {
    if bs != [] {
      var init := bs[..|bs| - 1];
      if AppendBits(c, d, init).err == Ok {
        BitsKept(c, d, init);
        assert d.bits + init + [bs[|bs| - 1]] == d.bits + bs;
      }
    } else {
      assert d.bits + bs == d.bits;
    }
  }

  // In a frame of booleans the payload is what the bits pack to.
  lemma {:induction false} BitsPacked(c: Config, d: Draft, bs: seq<bool>)
    requires d.payload == Pack(d.bits) && AppendBits(c, d, bs).err == Ok
    ensures AppendBits(c, d, bs).payload == Pack(d.bits + bs)
  {
    hide Pack, PackByte, Room;
    if bs == [] {
      assert d.bits + bs == d.bits;
    } else {
      var init, b := bs[..|bs| - 1], bs[|bs| - 1];
      var e := AppendBits(c, d, init);
      assert e.err == Ok;
      BitsPacked(c, d, init);
      BitsKept(c, d, init);
      PackSnoc(e.bits, b);
      assert e.bits + [b] == d.bits + bs;
      var all := e.bits + [b];
      if |all| % 8 == 0 {
        assert all[|all| - 8..] == Pending(e.bits) + [b];
      }
    }
  }

  // Writing bytes into the buffer at offset off.
  function Write(s: seq<byte>, off: nat, bytes: seq<byte>): (r: seq<byte>)
    requires off + |bytes| <= |s|
    ensures |r| == |s|
  {
    s[..off] + bytes + s[off + |bytes|..]
  }

  lemma WriteNext(s: seq<byte>, p: seq<byte>, bytes: seq<byte>)
    requires |p| + |bytes| <= |s| && s[..|p|] == p
    ensures var r := Write(s, |p|, bytes);
            && r[..|p| + |bytes|] == p + bytes
            && forall k | |p| + |bytes| <= k <= |s| :: r[k..] == s[k..]
  {}

  lemma WritePayload(s: seq<byte>, head: nat, len: nat, bytes: seq<byte>, cap: nat)
    requires 6 <= head && head + len + |bytes| <= cap <= |s|
    ensures var r := Write(s, head + len, bytes);
            && r[head..head + len + |bytes|] == s[head..head + len] + bytes
            && r[..6] == s[..6] && r[cap..] == s[cap..]
  {}

  lemma WriteNothing(s: seq<byte>, off: nat)
    requires off <= |s|
    ensures Write(s, off, []) == s
  {}

  // The buffer after the per-frame header fields were committed.
  function Committed(s: seq<byte>, h: Header, len: nat): seq<byte>
    requires HeaderSize(h.flags) <= |s|
  {
    var s1 := Write(s, 6, SeqField(h));
    var s2 := Write(s1, TsOff(h.flags), TsField(h));
    var s3 := Write(s2, PeriodOff(h.flags), PeriodField(h));
    Write(s3, LenOff(h.flags), LeBytes(len, 2))
  }

  lemma CommittedIsHeader(s: seq<byte>, h: Header, len: nat)
    requires HeaderSize(h.flags) <= |s| && s[..6] == Prefix(h)
    ensures var r := Committed(s, h, len); var n := HeaderSize(h.flags);
            |r| == |s| && r[..n] == HeaderBytes(h, len) && r[n..] == s[n..] && r[..6] == s[..6]
  {
    hide LeBytes, Write;
    var p1 := Prefix(h) + SeqField(h);
    var p2 := p1 + TsField(h);
    var p3 := p2 + PeriodField(h);
    var n := HeaderSize(h.flags);
    WriteNext(s, Prefix(h), SeqField(h));
    var s1 := Write(s, 6, SeqField(h));
    WriteNext(s1, p1, TsField(h));
    var s2 := Write(s1, TsOff(h.flags), TsField(h));
    WriteNext(s2, p2, PeriodField(h));
    var s3 := Write(s2, PeriodOff(h.flags), PeriodField(h));
    WriteNext(s3, p3, LeBytes(len, 2));
    var r := Committed(s, h, len);
    assert r[..6] == r[..n][..6] == HeaderBytes(h, len)[..6] == Prefix(h);
  }

  // ---- The struct --------------------------------------------------------------------------------

  class FrameBuilder {
    var buf: array<byte>
    var cap: nat
    var flags: byte
    var dtype: nat
    var channels: nat
    var headerSize: nat
    var bytesPerSample: nat
    var tsOff: int
    var periodOff: int
    var lenOff: nat
    var seqNo: byte
    var periodUs: nat
    var tsUs: nat
    var payloadLen: nat
    var boolAcc: nat
    var boolNbits: nat
    var err: Status
    ghost var bits: seq<bool>

    // An uninitialised struct; only Init may be called on it.
    constructor () {
      buf := new byte[0];
    }

    ghost function Cfg(): Config
      reads this
    {
      Config(flags, dtype, channels, cap)
    }

    ghost function View(): Draft
      reads this, buf
    {
      Draft(seqNo, tsUs, periodUs,
            if headerSize + payloadLen <= buf.Length then buf[..][headerSize..headerSize + payloadLen] else [],
            bits, err)
    }

    // The offsets fit the flags, the payload and the checksum have room, and the six bytes
    // written by Init are in place.
    ghost predicate Framed()
      reads this, buf
    {
      && ValidConfig(Cfg())
      && cap <= buf.Length
      && OffsetsFit()
      && (err == Ok ==> Room(Cfg(), payloadLen) && buf[..][..6] == SYNC + [WireFlags(Cfg()), channels])
    }

    // The accumulator holds the booleans that do not fill a byte yet.
    ghost predicate Layout()
      reads this, buf
    {
      Framed() && (err == Ok ==> boolNbits == |bits| % 8 && boolAcc == Accumulated(Pending(bits)))
    }

    // What holds between calls: booleans come in whole samples.
    ghost predicate Valid()
      reads this, buf
    {
      Layout() && (err == Ok ==> |bits| % channels == 0)
    }

    // What no call changes: the configuration, the six bytes of the prefix, and the memory
    // beyond the capacity. After an error nothing is changed at all.
    twostate predicate Keeps()
      reads this, buf
    {
      && buf == old(buf) && Cfg() == old(Cfg()) && cap <= buf.Length
      && buf[..][cap..] == old(buf[..][cap..])
      && (cap >= 6 ==> buf[..][..6] == old(buf[..][..6]))
      && (old(err) != Ok ==> buf[..] == old(buf[..]) && View() == old(View()))
    }

    method Init(newBuf: array<byte>, newCap: nat, newDtype: byte, newChannels: byte, newFlags: byte)
      returns (status: Status)
      requires newCap <= newBuf.Length
      modifies this, newBuf
      ensures status == BadArg <==>
              newDtype > 0xE || newChannels == 0 || newChannels > 64 || newFlags % 0x10 != 0
      ensures status == BadArg ==> unchanged(this) && unchanged(newBuf)
      ensures status != BadArg ==>
              && Valid() && buf == newBuf && Cfg() == Config(newFlags, newDtype, newChannels, newCap)
              && View() == NewDraft(0).(err := status)
              && (status == Ok <==> Room(Cfg(), 0)) && (status != Ok ==> status == Overflow)
      ensures newBuf[..][newCap..] == old(newBuf[..][newCap..])
    {
      hide HasSeq, HasTs, HasPeriod, HasCrc, WireFlags, OffsetsFit;
      if newDtype > 0xE || newChannels == 0 || newChannels > 64 || newFlags % 0x10 != 0 {
        return BadArg;
      }
      Configure(newBuf, newCap, newDtype, newChannels, newFlags);
      status := Ok;
      if cap < headerSize + TrailerSize(flags) {
        err := Overflow;
        status := Overflow;
      } else {
        WritePrefix();
      }
    }

    // The offsets fit the flags.
    ghost predicate OffsetsFit()
      reads `flags, `dtype, `headerSize, `bytesPerSample, `tsOff, `periodOff, `lenOff
    {
      && headerSize == HeaderSize(flags)
      && bytesPerSample == WidthOf(dtype)
      && tsOff == (if HasTs(flags) then TsOff(flags) else -1)
      && periodOff == (if HasPeriod(flags) then PeriodOff(flags) else -1)
      && lenOff == LenOff(flags)
    }

    method Configure(newBuf: array<byte>, newCap: nat, newDtype: nat, newChannels: nat, newFlags: byte)
      modifies this
      ensures buf == newBuf && Cfg() == Config(newFlags, newDtype, newChannels, newCap)
      ensures OffsetsFit() && headerSize == HeaderSize(newFlags)
      ensures seqNo == payloadLen == boolAcc == boolNbits == tsUs == periodUs == 0 && err == Ok && bits == []
    {
      hide HasSeq, HasTs, HasPeriod, HasCrc, WidthOf, TsOff, PeriodOff, LenOff, HeaderSize;
      buf, cap, flags, dtype, channels := newBuf, newCap, newFlags, newDtype, newChannels;
      bytesPerSample := WidthOf(dtype);
      seqNo := 0;
      SetOffsets();
      FrameReset();
    }

    // Computes the offsets of the per-frame fields, and the size of the header.
    method SetOffsets()
      modifies this`tsOff, this`periodOff, this`lenOff, this`headerSize
      ensures headerSize == HeaderSize(flags) && lenOff == LenOff(flags)
      ensures tsOff == (if HasTs(flags) then TsOff(flags) else -1)
      ensures periodOff == (if HasPeriod(flags) then PeriodOff(flags) else -1)
    {
      var cur := 6;
      if HasSeq(flags) {
        cur := cur + 1;
      }
      tsOff := if HasTs(flags) then cur else -1;
      if HasTs(flags) {
        cur := cur + 4;
      }
      periodOff := if HasPeriod(flags) then cur else -1;
      if HasPeriod(flags) {
        cur := cur + 2;
      }
      lenOff := cur;
      headerSize := cur + 2;
    }

    method WritePrefix()
      requires ValidConfig(Cfg()) && 6 <= cap <= buf.Length
      modifies buf
      ensures buf[..][..6] == SYNC + [WireFlags(Cfg()), channels]
      ensures buf[..][cap..] == old(buf[..][cap..])
    {
      hide HasSeq, HasTs, HasPeriod, HasCrc;
      buf[0], buf[1], buf[2], buf[3] := 0x43, 0x42, 0x52, 0x54;
      buf[4] := flags + dtype;
      buf[5] := channels;
    }

    method FrameReset()
      modifies this`payloadLen, this`boolAcc, this`boolNbits, this`err, this`tsUs, this`periodUs, this`bits
      ensures payloadLen == boolAcc == boolNbits == tsUs == periodUs == 0 && err == Ok && bits == []
    {
      payloadLen := 0;
      boolAcc := 0;
      boolNbits := 0;
      err := Ok;
      tsUs := 0;
      periodUs := 0;
      bits := [];
    }

    method FrameSetTs(ts: nat) returns (status: Status)
      requires Valid()
      modifies this`err, this`tsUs
      ensures Valid() && Keeps()
      ensures View() == SetTs(Cfg(), old(View()), ts) && status == err
    {
      hide HasSeq, HasTs, HasPeriod, HasCrc, WidthOf, Accumulated;
      if err != Ok {
        return err;
      }
      if tsOff < 0 {
        err := BadState;
        return BadState;
      }
      tsUs := ts;
      return Ok;
    }

    method FrameSetPeriod(period: nat) returns (status: Status)
      requires Valid()
      modifies this`err, this`periodUs
      ensures Valid() && Keeps()
      ensures View() == SetPeriod(Cfg(), old(View()), period) && status == err
    {
      hide HasSeq, HasTs, HasPeriod, HasCrc, WidthOf, Accumulated;
      if err != Ok {
        return err;
      }
      if periodOff < 0 {
        err := BadState;
        return BadState;
      }
      periodUs := period;
      return Ok;
    }

    // Reserves n payload bytes and returns their offset, or none when they do not fit.
    method Reserve(n: nat) returns (off: Option<nat>)
      requires Framed() && err == Ok
      modifies this`err, this`payloadLen
      ensures Framed()
      ensures off.Some? <==> Room(Cfg(), old(payloadLen) + n)
      ensures off.Some? ==> err == Ok && payloadLen == old(payloadLen) + n && off.value == headerSize + old(payloadLen)
      ensures off.None? ==> err == Overflow && payloadLen == old(payloadLen)
    {
      hide HasSeq, HasTs, HasPeriod, HasCrc, WidthOf;
      var o := headerSize + payloadLen;
      var end := o + n;
      if HasCrc(flags) && end + 2 > cap {
        err := Overflow;
        return None;
      }
      if end > cap {
        err := Overflow;
        return None;
      }
      payloadLen := payloadLen + n;
      return Some(o);
    }

    // Stores bytes at an offset behind the prefix.
    method Store(off: nat, bytes: seq<byte>)
      requires 6 <= off && off + |bytes| <= buf.Length
      modifies buf
      ensures buf[..] == Write(old(buf[..]), off, bytes)
    {
      for i := 0 to |bytes|
        invariant buf[..] == Write(old(buf[..]), off, bytes[..i])
      {
        buf[off + i] := bytes[i];
      }
      assert bytes[..|bytes|] == bytes;
    }

    // Reserves room for bytes and stores them.
    method AppendBytes(bytes: seq<byte>)
      requires Framed() && err == Ok
      modifies this`err, this`payloadLen, buf
      ensures Framed() && Keeps()
      ensures View() == Put(Cfg(), old(View()), bytes)
    {
      hide HasSeq, HasTs, HasPeriod, HasCrc, WidthOf, Write;
      ghost var s, n := buf[..], payloadLen;
      var off := Reserve(|bytes|);
      if off.Some? {
        Store(off.value, bytes);
        WritePayload(s, headerSize, n, bytes, cap);
      }
    }

    // All typed appenders: they differ only in the datatype and its width.
    method AppendTyped(want: nat, z: int) returns (status: Status)
      requires Valid() && InRange(want, z)
      modifies this`err, this`payloadLen, buf
      ensures Valid() && Keeps()
      ensures View() == Append(Cfg(), old(View()), want, z) && status == err
    {
      hide HasSeq, HasTs, HasPeriod, HasCrc, Accumulated, LeBytes, Room;
      if err != Ok {
        return err;
      }
      if dtype != want {
        err := WrongType;
        return WrongType;
      }
      AppendBytes(Stored(want, z));
      return err;
    }

    method AppendRawBytes(src: seq<byte>) returns (status: Status)
      requires Valid()
      modifies this`err, this`payloadLen, buf
      ensures Valid() && Keeps()
      ensures View() == AppendRaw(Cfg(), old(View()), src) && status == err
    {
      hide HasSeq, HasTs, HasPeriod, HasCrc, Accumulated, Room;
      if err != Ok {
        return err;
      }
      if dtype == BOOL {
        err := WrongType;
        return WrongType;
      }
      var unit := channels * bytesPerSample;
      if unit == 0 || |src| % unit != 0 {
        err := BadAlign;
        return BadAlign;
      }
      AppendBytes(src);
      return err;
    }

    // Shifts one bit into the accumulator and flushes it when a byte is full.
    method PushBit(b: bool)
      requires Layout() && err == Ok
      modifies this`err, this`payloadLen, this`boolAcc, this`boolNbits, this`bits, buf
      ensures Layout() && Keeps()
      ensures View() == AppendBit(Cfg(), old(View()), b)
    {
      hide HasSeq, HasTs, HasPeriod, HasCrc, Accumulated, PackByte, Pending, Room, Put, OffsetsFit, WireFlags;
      PendingSnoc(bits, b);
      boolAcc := boolAcc * 2 + (if b then 1 else 0);
      boolNbits := boolNbits + 1;
      bits := bits + [b];
      assert View() == old(View()).(bits := bits);
      if boolNbits == 8 {
        AppendBytes([boolAcc % 0x100]);
        if err != Ok {
          return;
        }
        boolAcc := 0;
        boolNbits := 0;
      }
    }

    // Shifts in the bits of one sample, channel by channel.
    method PushSample(sample: seq<bool>)
      requires Layout() && err == Ok
      modifies this`err, this`payloadLen, this`boolAcc, this`boolNbits, this`bits, buf
      ensures Layout() && Keeps()
      ensures View() == AppendBits(Cfg(), old(View()), sample)
    {
      hide HasSeq, HasTs, HasPeriod, HasCrc, Accumulated, Pending, Room, OffsetsFit, WireFlags, AppendBit, AppendBits;
      ghost var c, d := Cfg(), View();
      NoBits(c, d);
      for ch := 0 to |sample|
        invariant Layout() && Keeps() && err == Ok
        invariant View() == AppendBits(c, d, sample[..ch])
      {
        AppendBitsSnoc(c, d, sample[..ch], sample[ch]);
        assert sample[..ch] + [sample[ch]] == sample[..ch + 1];
        PushBit(sample[ch]);
        if err != Ok {
          FailedForGood(c, d, sample[..ch + 1], sample[ch + 1..]);
          assert sample[..ch + 1] + sample[ch + 1..] == sample;
          return;
        }
      }
      assert sample[..|sample|] == sample;
    }

    method AppendBoolValues(values: seq<byte>) returns (status: Status)
      requires Valid() && |values| == channels
      modifies this`err, this`payloadLen, this`boolAcc, this`boolNbits, this`bits, buf
      ensures Valid() && Keeps()
      ensures View() == AppendBoolSample(Cfg(), old(View()), values) && status == err
    {
      hide HasSeq, HasTs, HasPeriod, HasCrc, Accumulated, Pending, Room, OffsetsFit, WireFlags, AppendBits;
      if err != Ok {
        return err;
      }
      if dtype != BOOL {
        err := WrongType;
        return WrongType;
      }
      ghost var c, d := Cfg(), View();
      PushSample(Truths(values));
      if err == Ok {
        BitsKept(c, d, Truths(values));
        MoreSamples(|d.bits|, channels);
      }
      return err;
    }

    // Completes the last byte of a boolean frame with whole zero samples.
    method PadTail()
      requires Valid() && err == Ok && dtype == BOOL
      modifies this`err, this`payloadLen, this`boolAcc, this`boolNbits, this`bits, buf
      ensures Layout() && Keeps()
      ensures View() == PadBits(Cfg(), old(View()))
    {
      hide HasSeq, HasTs, HasPeriod, HasCrc, Accumulated, Pending, Room, OffsetsFit, WireFlags, AppendBits,
        Pads, Full, Zeros;
      ghost var c, d := Cfg(), View();
      ghost var first := |bits| / channels;
      ghost var n := first;
      ghost var z: nat := 0;
      ExactMultiple(|bits|, channels);
      NoZeros(c, d);
      ProductZero(channels);
      while boolNbits != 0
        invariant Layout() && Keeps() && err == Ok && first <= n
        invariant |bits| == n * channels
        invariant z == (n - first) * channels && View() == AppendBits(c, d, Zeros(z))
        invariant forall m: nat | first <= m < n :: !Full(m, channels)
        decreases Pads(n, channels)
      {
        NotFull(n, channels);
        PadsStep(first, n, channels);
        PushSample(Zeros(channels));
        AppendBitsAppend(c, d, Zeros(z), Zeros(channels));
        ZerosAppend(z, channels);
        if err != Ok {
          RowOfPads(first, n, channels);
          FailedForGood(c, d, Zeros(z + channels), Zeros(Pads(first, channels) * channels - (z + channels)));
          ZerosAppend(z + channels, Pads(first, channels) * channels - (z + channels));
          return;
        }
        BitsKept(c, d, Zeros(z + channels));
        BitsKept(c, d, Zeros(z));
        SampleMore(n + 1, first, channels);
        n := n + 1;
        z := z + channels;
      }
      FullHere(n, channels);
      PadsAre(first, n, channels);
    }

    method FlushTail()
      requires Valid() && err == Ok
      modifies this`err, this`payloadLen, this`boolAcc, this`boolNbits, this`bits, buf
      ensures Layout() && Keeps()
      ensures View() == PadBits(Cfg(), old(View()))
    {
      hide HasSeq, HasTs, HasPeriod, HasCrc, Accumulated, OffsetsFit, WireFlags, PadBits, Room;
      if dtype == BOOL && boolNbits != 0 {
        PadTail();
      } else {
        NothingToPad(Cfg(), View());
      }
    }

    // Stores a field when the session has it.
    method StoreIf(present: bool, off: nat, bytes: seq<byte>)
      requires off <= buf.Length && (present ==> 6 <= off && off + |bytes| <= buf.Length)
      modifies buf
      ensures buf[..] == Write(old(buf[..]), off, if present then bytes else [])
    {
      if present {
        Store(off, bytes);
      } else {
        WriteNothing(buf[..], off);
      }
    }

    // Commits the per-frame header fields.
    method CommitHeader(ghost h: Header)
      requires Framed() && err == Ok && h == FrameOf(Cfg(), View()).header
      requires HeaderSize(h.flags) <= buf.Length
      modifies buf
      ensures buf[..] == Committed(old(buf[..]), h, payloadLen)
    {
      hide Write, LeBytes, HasSeq, HasTs, HasPeriod, HasCrc, Room, WireFlags;
      SameFlags(Cfg());
      StoreIf(HasSeq(flags), 6, [seqNo]);
      StoreIf(HasTs(flags), TsOff(flags), LeBytes(tsUs, 4));
      StoreIf(HasPeriod(flags), PeriodOff(flags), LeBytes(periodUs, 2));
      Store(lenOff, LeBytes(payloadLen, 2));
    }

    // Writes the frame around the payload and returns its length.
    method EmitFrame(ghost f: Frame) returns (total: nat)
      requires Framed() && err == Ok && f == FrameOf(Cfg(), View())
      modifies buf
      ensures total == |Encode(f.header, f.payload)| <= cap
      ensures buf[..][..total] == Encode(f.header, f.payload)
      ensures buf[..][..6] == old(buf[..][..6]) && buf[..][cap..] == old(buf[..][cap..])
    {
      hide Write, LeBytes, HasSeq, HasTs, HasPeriod, HasCrc, WireFlags, HeaderBytes, Committed, Checksum;
      ghost var h, s := f.header, buf[..];
      SameFlags(Cfg());
      assert s[..6] == Prefix(h);
      CommitHeader(h);
      CommittedIsHeader(s, h, payloadLen);
      total := headerSize + payloadLen;
      ghost var body := HeaderBytes(h, payloadLen) + f.payload;
      HeadAndPayload(s, buf[..], HeaderBytes(h, payloadLen), f.payload, cap);
      if HasCrc(flags) {
        // the room reserved with every append is still there
        assert total + 2 <= cap;
        var crc := Crc16Bitwise(buf, 4, total - 4);
        assert buf[4..4 + (total - 4)] == buf[..][..total][4..] == body[4..];
        WriteTrailer(buf[..], body, LeBytes(crc, 2), cap);
        Store(total, LeBytes(crc, 2));
        total := total + 2;
      }
    }

    // Emits the frame: returns its length, or 0 on an error.
    method FinalizeFrame() returns (total: nat)
      requires Valid()
      modifies this`err, this`payloadLen, this`boolAcc, this`boolNbits, this`bits, this`tsUs, this`periodUs
      modifies this`seqNo, buf
      ensures Valid() && Keeps()
      ensures View() == Finalize(Cfg(), old(View())).0
      ensures match Finalize(Cfg(), old(View())).1
              case None => total == 0
              case Some(f) =>
                && total == |Encode(f.header, f.payload)| <= cap
                && buf[..][..total] == Encode(f.header, f.payload)
    {
      hide HasSeq, HasTs, HasPeriod, HasCrc, Accumulated, Pending, OffsetsFit, WireFlags, PadBits, FrameOf, Encode,
        Room, NewDraft, Finalize, ValidConfig;
      FinalizeSteps(Cfg(), View());
      if err != Ok {
        return 0;
      }
      FlushTail();
      if err != Ok {
        return 0;
      }
      PayloadInside();
      if payloadLen > 0xFFFF {
        err := Overflow;
        return 0;
      }
      total := EmitFrame(FrameOf(Cfg(), View()));
      Roll();
    }

    // Rolls forward to the next frame; the finished one stays in the buffer.
    method Roll()
      requires Framed() && err == Ok
      modifies this`err, this`payloadLen, this`boolAcc, this`boolNbits, this`bits, this`tsUs, this`periodUs, this`seqNo
      ensures Valid() && View() == NewDraft((old(seqNo) + 1) % 0x100)
    {
      hide HasSeq, HasTs, HasPeriod, HasCrc, Accumulated, Pending, WidthOf, WireFlags;
      seqNo := (seqNo + 1) % 0x100;
      FrameReset();
      EmptyAccumulated();
    }

    lemma PayloadInside()
      requires Framed() && err == Ok
      ensures |View().payload| == payloadLen
    {
      hide HasSeq, HasTs, HasPeriod, HasCrc;
    }
  }

  lemma FinalizeSteps(c: Config, d: Draft)
    requires ValidConfig(c)
    ensures var p, r := PadBits(c, d), Finalize(c, d);
            && (d.err != Ok ==> r == (d, None))
            && (d.err == Ok && p.err != Ok ==> r == (p, None))
            && (d.err == Ok && p.err == Ok && |p.payload| > 0xFFFF ==> r == (p.(err := Overflow), None))
            && (d.err == Ok && p.err == Ok && |p.payload| <= 0xFFFF ==>
                  r == (NewDraft((p.seqNo + 1) % 0x100), Some(FrameOf(c, p))))
  {
    hide PadBits, FrameOf;
  }

  // A frame whose booleans fill whole bytes, or one without booleans, is not padded.
  lemma NothingToPad(c: Config, d: Draft)
    requires ValidConfig(c) && |d.bits| % c.channels == 0
    requires c.dtype != BOOL || |d.bits| % 8 == 0
    ensures PadBits(c, d) == d
  {
    if c.dtype == BOOL {
      ExactMultiple(|d.bits|, c.channels);
      FullHere(|d.bits| / c.channels, c.channels);
      NoZeros(c, d);
      ProductZero(c.channels);
    }
  }

  // The buffer s whose header was overwritten holds header and payload.
  lemma HeadAndPayload(s: seq<byte>, r: seq<byte>, head: seq<byte>, payload: seq<byte>, cap: nat)
    requires |r| == |s| && |head| + |payload| <= cap <= |s|
    requires r[..|head|] == head && r[|head|..] == s[|head|..]
    requires s[|head|..|head| + |payload|] == payload
    ensures r[..|head| + |payload|] == head + payload && r[cap..] == s[cap..]
  {
    assert r[|head|..|head| + |payload|] == r[|head|..][..|payload|] == s[|head|..][..|payload|] == payload;
    assert r[cap..] == r[|head|..][cap - |head|..] == s[|head|..][cap - |head|..] == s[cap..];
  }

  lemma WriteTrailer(s: seq<byte>, body: seq<byte>, crc: seq<byte>, cap: nat)
    requires 6 <= |body| && |body| + |crc| <= cap <= |s| && s[..|body|] == body
    ensures var r := Write(s, |body|, crc);
            r[..|body| + |crc|] == body + crc && r[..6] == s[..6] && r[cap..] == s[cap..]
  {}

  lemma EmptyAccumulated()
    ensures Accumulated(Pending([])) == 0
  {}

  lemma NoBits(c: Config, d: Draft)
    ensures AppendBits(c, d, []) == d
  {}

  lemma NoZeros(c: Config, d: Draft)
    ensures AppendBits(c, d, Zeros(0)) == d
  {}

  lemma ProductZero(channels: nat)
    ensures 0 * channels == 0
  {}

  // A failure in the middle is a failure at the end.
  lemma FailedForGood(c: Config, d: Draft, a: seq<bool>, b: seq<bool>)
    requires AppendBits(c, d, a).err != Ok
    ensures AppendBits(c, d, a + b) == AppendBits(c, d, a)
  {
    hide AppendBits;
    AppendBitsAppend(c, d, a, b);
    BitsFailed(c, AppendBits(c, d, a), b);
  }

  lemma MoreSamples(n: nat, channels: nat)
    requires channels > 0 && n % channels == 0
    ensures (n + channels) % channels == 0
  {
    ExactMultiple(n, channels);
    var q := n / channels;
    assert (q + 1) * channels == n + channels;
    DivMod(n + channels, channels, q + 1, 0);
  }

  lemma ExactMultiple(n: nat, channels: nat)
    requires channels > 0 && n % channels == 0
    ensures n == n / channels * channels
  {}

  lemma NotFull(n: nat, channels: nat)
    ensures n * channels % 8 != 0 ==> !Full(n, channels)
  {}

  lemma FullHere(n: nat, channels: nat)
    ensures n * channels % 8 == 0 ==> Full(n, channels)
  {}

  lemma {:induction false} PadsAre(k: nat, n: nat, channels: nat)
    requires k <= n && Full(n, channels) && forall m: nat | k <= m < n :: !Full(m, channels)
    ensures Pads(k, channels) == n - k
    decreases n - k
  {
    hide Full;
    if k < n {
      PadsAre(k + 1, n, channels);
    }
  }

  // While the samples do not fill whole bytes another one is due.
  lemma {:induction false} PadsStep(k: nat, n: nat, channels: nat)
    requires k <= n && forall m: nat | k <= m <= n :: !Full(m, channels)
    ensures Pads(k, channels) == (n - k) + Pads(n, channels)
    ensures Pads(n, channels) == 1 + Pads(n + 1, channels)
    decreases n - k
  {
    hide Full;
    if k < n {
      PadsStep(k + 1, n, channels);
    }
  }

  lemma ZerosAppend(a: nat, b: nat)
    ensures Zeros(a + b) == Zeros(a) + Zeros(b)
  {}

  lemma RowOfPads(first: nat, n: nat, channels: nat)
    requires first <= n && n - first < Pads(first, channels)
    ensures (n - first) * channels + channels <= Pads(first, channels) * channels
  {
    MulLe(n - first + 1, Pads(first, channels), channels);
    Distribute(n - first, 1, channels);
  }

  lemma SampleMore(n: nat, first: nat, channels: nat)
    requires first < n
    ensures (n - 1 - first) * channels + channels == (n - first) * channels
    ensures (n - 1) * channels + channels == n * channels
  {
    Distribute(n - 1 - first, 1, channels);
    Distribute(n - 1, 1, channels);
  }

  lemma PendingSnoc(bits: seq<bool>, b: bool)
    ensures var all := bits + [b];
            var acc := 2 * Accumulated(Pending(bits)) + if b then 1 else 0;
            if |all| % 8 == 0
            then |bits| % 8 == 7 && acc == PackByte(all[|all| - 8..]) && Accumulated(Pending(all)) == 0
            else |all| % 8 == |bits| % 8 + 1 && acc == Accumulated(Pending(all))
  {
    var all := bits + [b];
    if |all| % 8 == 0 {
      assert Pending(bits) + [b] == all[|all| - 8..];
      AccumulatedSnoc(Pending(bits), b);
    } else {
      assert |all| % 8 == |bits| % 8 + 1;
      assert Pending(bits) + [b] == Pending(all);
      AccumulatedSnoc(Pending(bits), b);
    }
  }

  lemma AccumulatedSnoc(bits: seq<bool>, b: bool)
    ensures Accumulated(bits + [b]) == 2 * Accumulated(bits) + if b then 1 else 0
  {
    assert (bits + [b])[..|bits + [b]| - 1] == bits;
  }
}
