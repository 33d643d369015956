// Samples and the payload bytes they become: fixed-width samples and packed booleans.
module Samples {
  import opened Bytes
  import opened Wire
  import opened Session

  // The number a payload slot holds. Floats and fixed-point numbers are kept as their bits.
  datatype Sample =
    | Unsigned(width: nat, n: nat)
    | Signed(width: nat, z: int)
    | Raw(width: nat, bits: nat)
    | Boolean(on: bool)

  datatype Value = Value(channel: nat, sample: Sample)

  // ---- Fixed-width samples ---------------------------------------------------------------

  function SampleOf(dt: nat, s: seq<byte>): Sample {
    var n, w := FromLe(s), |s|;
    if dt == 0x0 || dt == 0x2 || dt == 0x4 || dt == 0x6 then Unsigned(w, n)
    else if dt == 0x1 || dt == 0x3 || dt == 0x5 || dt == 0x7 then
      Signed(w, if 2 * n < Pow256(w) then n else n - Pow256(w))
    else Raw(w, n)
  }

  // The bytes of a sample in memory order.
  function BytesOf(v: Sample): seq<byte> {
    match v
    case Unsigned(w, n) => LeBytes(n, w)
    case Signed(w, z) => if z + Pow256(w) < 0 then [] else LeBytes(if z < 0 then z + Pow256(w) else z, w)
    case Raw(w, n) => LeBytes(n, w)
    case Boolean(_) => []
  }

  lemma SampleKeepsBytes(dt: nat, s: seq<byte>)
    ensures BytesOf(SampleOf(dt, s)) == s
  {
    LeBytesOfFromLe(s);
  }

  // Slot i of a payload with slots of w bytes.
  function Slot(payload: seq<byte>, w: nat, i: nat): seq<byte>
    requires (i + 1) * w <= |payload|
  {
    assert i * w <= (i + 1) * w;
    payload[i * w..(i + 1) * w]
  }

  // All values of a payload with fixed-width samples, in the order of the payload.
  function FixedValues(dt: nat, w: nat, channels: nat, payload: seq<byte>, count: nat): (r: seq<Value>)
    requires channels > 0 && count * w <= |payload|
    ensures |r| == count
  {
    if count == 0 then []
    else
      SlotsFit(count, w, |payload|);
      FixedValues(dt, w, channels, payload, count - 1)
      + [Value((count - 1) % channels, SampleOf(dt, Slot(payload, w, count - 1)))]
  }

  lemma SlotsFit(count: nat, w: nat, len: nat)
    requires count > 0 && count * w <= len
    ensures (count - 1) * w <= len && (count - 1 + 1) * w <= len
  {
    assert (count - 1) * w == count * w - w;
  }

  function ValueBytes(vs: seq<Value>): seq<byte> {
    if vs == [] then [] else ValueBytes(vs[..|vs| - 1]) + BytesOf(vs[|vs| - 1].sample)
  }

  // The bytes of the values, one after another, are the payload they came from.
  lemma {:induction false} ValuesKeepBytes(dt: nat, w: nat, channels: nat, payload: seq<byte>, count: nat)
    requires channels > 0 && count * w <= |payload|
    ensures ValueBytes(FixedValues(dt, w, channels, payload, count)) == payload[..count * w]
  {
    hide SampleOf, BytesOf;
    if count > 0 {
      SlotsFit(count, w, |payload|);
      var vs := FixedValues(dt, w, channels, payload, count);
      assert vs[..|vs| - 1] == FixedValues(dt, w, channels, payload, count - 1);
      ValuesKeepBytes(dt, w, channels, payload, count - 1);
      SampleKeepsBytes(dt, Slot(payload, w, count - 1));
      assert (count - 1) * w + w == count * w;
      assert payload[..count * w] == payload[..(count - 1) * w] + payload[(count - 1) * w..count * w];
    }
  }

  lemma {:induction false} FixedAt(dt: nat, w: nat, channels: nat, payload: seq<byte>, count: nat, i: nat)
    requires channels > 0 && count * w <= |payload| && i < count
    ensures (i + 1) * w <= |payload|
    ensures FixedValues(dt, w, channels, payload, count)[i] == Value(i % channels, SampleOf(dt, Slot(payload, w, i)))
  {
    hide SampleOf, Slot;
    SlotsFit(count, w, |payload|);
    if i < count - 1 {
      FixedAt(dt, w, channels, payload, count - 1, i);
    }
  }

  // ---- Packed booleans ----------------------------------------------------------------------

  // k halvings: x >> k.
  function Shr(x: nat, k: nat): nat {
    if k == 0 then x else Shr(x / 2, k - 1)
  }

  // Bit i of the payload, counted from the top bit of its first byte.
  function BitAt(payload: seq<byte>, i: nat): bool
    requires i < 8 * |payload|
  {
    Shr(payload[i / 8], 7 - i % 8) % 2 == 1
  }

  // The accumulator after the bits were shifted in one by one.
  function Accumulated(bits: seq<bool>): nat {
    if bits == [] then 0
    else 2 * Accumulated(bits[..|bits| - 1]) + if bits[|bits| - 1] then 1 else 0
  }

  lemma {:induction false} AccumulatedBound(bits: seq<bool>)
    ensures Accumulated(bits) < Pow2(|bits|)
  {
    if bits != [] {
      AccumulatedBound(bits[..|bits| - 1]);
    }
  }

  lemma {:induction false} AccumulatedBit(bits: seq<bool>, i: nat)
    requires i < |bits|
    ensures Shr(Accumulated(bits), |bits| - 1 - i) % 2 == (if bits[i] then 1 else 0)
  {
    var init := bits[..|bits| - 1];
    if i < |bits| - 1 {
      AccumulatedBit(init, i);
      assert Accumulated(bits) / 2 == Accumulated(init);
    }
  }

  function PackByte(bits: seq<bool>): byte
    requires |bits| == 8
  {
    AccumulatedBound(bits);
    assert Pow2(8) == 0x100 by { Pow2Values(); }
    Accumulated(bits)
  }

  // The full bytes that bits make, first bit on top; up to seven bits may be left over.
  function Pack(bits: seq<bool>): (r: seq<byte>)
    ensures |r| == |bits| / 8
  {
    if bits == [] then []
    else
      var before := Pack(bits[..|bits| - 1]);
      if |bits| % 8 == 0 then before + [PackByte(bits[|bits| - 8..])] else before
  }

  // The bits not yet in a full byte.
  function Pending(bits: seq<bool>): (r: seq<bool>)
    ensures |r| == |bits| % 8
  {
    bits[|bits| - |bits| % 8..]
  }

  // One more bit: either it waits with the others, or it completes a byte.
  lemma PackSnoc(bits: seq<bool>, b: bool)
    ensures var all := bits + [b];
            if |all| % 8 == 0
            then |Pending(bits)| == 7 && Pack(all) == Pack(bits) + [PackByte(Pending(bits) + [b])]
            else Pack(all) == Pack(bits) && Pending(all) == Pending(bits) + [b]
  {
    hide PackByte;
    var all := bits + [b];
    assert all[..|all| - 1] == bits;
    if |all| % 8 == 0 {
      assert all[|all| - 8..] == bits[|bits| - 7..] + [b];
    } else {
      assert |all| % 8 == |bits| % 8 + 1;
    }
  }

  lemma {:induction false} PackedBit(bits: seq<bool>, i: nat)
    requires i < 8 * |Pack(bits)|
    ensures BitAt(Pack(bits), i) == bits[i]
  {
    hide PackByte, Shr;
    var n := |bits|;
    if n % 8 == 0 && i >= n - 8 {
      var last := bits[n - 8..];
      assert Pack(bits)[i / 8] == PackByte(last);
      assert last[i % 8] == bits[i];
      PackByteBit(last, i % 8);
    } else {
      PackedBit(bits[..n - 1], i);
    }
  }

  lemma PackByteBit(bits: seq<bool>, i: nat)
    requires |bits| == 8 && i < 8
    ensures (Shr(PackByte(bits), 7 - i) % 2 == 1) == bits[i]
  {
    AccumulatedBit(bits, i);
  }

  // All values of a payload of packed booleans.
  function BoolValues(channels: nat, payload: seq<byte>, count: nat): (r: seq<Value>)
    requires channels > 0 && count <= 8 * |payload|
    ensures |r| == count
    ensures forall i | 0 <= i < count :: r[i] == Value(i % channels, Boolean(BitAt(payload, i)))
  {
    if count == 0 then []
    else BoolValues(channels, payload, count - 1)
         + [Value((count - 1) % channels, Boolean(BitAt(payload, count - 1)))]
  }

  function Switches(vs: seq<Value>): (r: seq<bool>)
    ensures |r| == |vs|
    ensures forall i | 0 <= i < |vs| :: r[i] == (vs[i].sample.Boolean? && vs[i].sample.on)
  {
    if vs == [] then [] else Switches(vs[..|vs| - 1]) + [vs[|vs| - 1].sample.Boolean? && vs[|vs| - 1].sample.on]
  }

  // The packed booleans that were decoded, packed again, are the payload they came from: each
  // of its bits was used exactly once.
  lemma {:induction false} BoolsKeepBits(channels: nat, payload: seq<byte>)
    requires channels > 0
    ensures Pack(Switches(BoolValues(channels, payload, 8 * |payload|))) == payload
  {
    var bits := Switches(BoolValues(channels, payload, 8 * |payload|));
    SameBits(Pack(bits), payload, bits);
  }

  lemma SameBits(p: seq<byte>, q: seq<byte>, bits: seq<bool>)
    requires |bits| == 8 * |q| && p == Pack(bits)
    requires forall i | 0 <= i < |bits| :: bits[i] == BitAt(q, i)
    ensures p == q
  {
    hide Pack;
    forall k | 0 <= k < |q| ensures p[k] == q[k] {
      forall j: nat | j < 8 ensures Shr(p[k], j) % 2 == Shr(q[k], j) % 2 {
        BitIndex(k, 7 - j);
        PackedBit(bits, 8 * k + (7 - j));
        assert BitAt(p, 8 * k + (7 - j)) == BitAt(q, 8 * k + (7 - j));
      }
      Pow2Values();
      ByteFromBits(p[k], q[k], 8);
    }
  }

  lemma BitIndex(k: nat, j: nat)
    requires j < 8
    ensures (8 * k + j) / 8 == k && 7 - (8 * k + j) % 8 == 7 - j
  {}

  lemma {:induction false} ByteFromBits(x: nat, y: nat, n: nat)
    requires x < Pow2(n) && y < Pow2(n)
    requires forall j: nat {:trigger Shr(x, j)} | j < n :: Shr(x, j) % 2 == Shr(y, j) % 2
    ensures x == y
    decreases n
  {
    if n > 0 {
      forall j: nat | j < n - 1 ensures Shr(x / 2, j) % 2 == Shr(y / 2, j) % 2 {
        assert Shr(x, j + 1) % 2 == Shr(y, j + 1) % 2;
      }
      ByteFromBits(x / 2, y / 2, n - 1);
      assert Shr(x, 0) % 2 == Shr(y, 0) % 2;
    }
  }

  // ---- Padding ---------------------------------------------------------------------------------

  // k samples fill whole bytes.
  predicate Full(k: nat, channels: nat) { k * channels % 8 == 0 }

  // How many zero samples are added to k samples so that their bits fill whole bytes.
  function Pads(k: nat, channels: nat): nat
    decreases (8 - k % 8) % 8
  {
    hide Full;
    EightSamples(k, channels);
    if Full(k, channels) then 0 else 1 + Pads(k + 1, channels)
  }

  lemma EightSamples(k: nat, channels: nat)
    ensures k % 8 == 0 ==> Full(k, channels)
  {
    if k % 8 == 0 {
      assert k * channels == 8 * (k / 8 * channels);
    }
  }

  // Padding fills up the last byte, with at most seven samples, and with as few as possible.
  lemma {:induction false} PadsFewest(k: nat, channels: nat)
    ensures Full(k + Pads(k, channels), channels)
    ensures Pads(k, channels) <= (8 - k % 8) % 8 <= 7
    ensures forall m: nat | k <= m < k + Pads(k, channels) :: !Full(m, channels)
    decreases (8 - k % 8) % 8
  {
    hide Full;
    EightSamples(k, channels);
    if !Full(k, channels) {
      PadsFewest(k + 1, channels);
    }
  }

  function Zeros(n: nat): (r: seq<bool>)
    ensures |r| == n && forall i | 0 <= i < n :: !r[i]
  {
    if n == 0 then [] else Zeros(n - 1) + [false]
  }

  // The zero samples that pad k samples.
  function PadZeros(k: nat, channels: nat): (r: seq<bool>)
    ensures |r| == Pads(k, channels) * channels && forall i | 0 <= i < |r| :: !r[i]
  {
    Zeros(Pads(k, channels) * channels)
  }

  // The bits of k whole samples, padded with whole zero samples.
  function Padded(bits: seq<bool>, k: nat, channels: nat): seq<bool> {
    bits + PadZeros(k, channels)
  }

  // The padded bits always pass the decoder's check, and decode to the samples that were
  // appended, followed only by false.
  lemma PaddedDecodes(bits: seq<bool>, k: nat, channels: nat)
    requires channels > 0 && |bits| == k * channels
    ensures var payload := Pack(Padded(bits, k, channels));
            && Exact(|payload|, BOOL, channels)
            && SampleCount(|payload|, BOOL, channels) == k + Pads(k, channels)
            && Switches(BoolValues(channels, payload, 8 * |payload|)) == Padded(bits, k, channels)
  {
    hide Pack, Pads, BitAt;
    var all := Padded(bits, k, channels);
    var n := k + Pads(k, channels);
    PadsFewest(k, channels);
    PaddedLength(k, Pads(k, channels), channels);
    var payload := Pack(all);
    DivMod(n * channels, channels, n, 0);
    forall i | 0 <= i < |all| ensures BitAt(payload, i) == all[i] {
      PackedBit(all, i);
    }
  }

  lemma PaddedLength(k: nat, pads: nat, channels: nat)
    requires Full(k + pads, channels)
    ensures k * channels + pads * channels == (k + pads) * channels
    ensures (k + pads) * channels == 8 * ((k + pads) * channels / 8)
  {}

  // Quotient and remainder are determined by what they are.
  lemma DivMod(x: nat, c: nat, q: nat, r: nat)
    requires x == q * c + r && r < c
    ensures x / c == q && x % c == r
  {
    assert x == x / c * c + x % c;
    NotAbove(x / c, q, c);
    NotAbove(q, x / c, c);
  }

  lemma NotAbove(a: nat, b: nat, c: nat)
    requires a * c < b * c + c
    ensures a <= b
  {
    if a > b {
      MulLe(b + 1, a, c);
    }
  }

  // ---- The decoder's loops -------------------------------------------------------------------------

  // All values of a payload.
  function ValuesOf(dt: nat, channels: nat, payload: seq<byte>): seq<Value>
    requires channels > 0 && Exact(|payload|, dt, channels)
  {
    if dt == BOOL then
      BoolValues(channels, payload, 8 * |payload|)
    else
      var w := BytesPerDatatype(dt).value;
      AllSlots(|payload|, channels, w);
      FixedValues(dt, w, channels, payload, |payload| / (channels * w) * channels)
  }

  lemma AllSlots(len: nat, channels: nat, w: nat)
    requires channels > 0 && w > 0 && len % (channels * w) == 0
    ensures channels * w > 0
    ensures len / (channels * w) * channels * w == len
  {
    var row := channels * w;
    assert len == row * (len / row);
    assert len / row * channels * w == row * (len / row);
  }

  method MaterializeBools(channels: nat, payload: seq<byte>, sampleCount: nat)
    returns (out: seq<Value>)
    requires channels > 0 && sampleCount * channels == 8 * |payload|
    ensures out == BoolValues(channels, payload, 8 * |payload|)
  {
    hide Shr;
    out := [];
    for s := 0 to sampleCount
      invariant s * channels <= 8 * |payload|
      invariant out == BoolValues(channels, payload, s * channels)
    {
      RowFits(s, sampleCount, channels);
      for ch := 0 to channels
        invariant out == BoolValues(channels, payload, s * channels + ch)
      {
        var bitIdx := s * channels + ch;
        var b := payload[bitIdx / 8];
        var bit := Shr(b, 7 - bitIdx % 8) % 2;
        DivMod(bitIdx, channels, s, ch);
        out := out + [Value(ch, Boolean(bit != 0))];
      }
    }
  }

  method MaterializeFixed(dt: nat, w: nat, channels: nat, payload: seq<byte>, sampleCount: nat)
    returns (out: seq<Value>)
    requires channels > 0 && sampleCount * channels * w == |payload|
    ensures out == FixedValues(dt, w, channels, payload, sampleCount * channels)
  {
    hide SampleOf;
    var row := w * channels;
    out := [];
    for s := 0 to sampleCount
      invariant s * channels * w <= |payload|
      invariant out == FixedValues(dt, w, channels, payload, s * channels)
    {
      RowFits(s, sampleCount, channels);
      for ch := 0 to channels
        invariant (s * channels + ch) * w <= |payload|
        invariant out == FixedValues(dt, w, channels, payload, s * channels + ch)
      {
        SlotInRow(s, ch, channels, w, sampleCount, |payload|);
        var off := s * row + ch * w;
        DivMod(s * channels + ch, channels, s, ch);
        out := out + [Value(ch, SampleOf(dt, payload[off..off + w]))];
      }
    }
  }

  method MaterializeValues(dt: nat, channels: nat, payload: seq<byte>, sampleCount: nat)
    returns (out: seq<Value>)
    requires channels > 0 && Exact(|payload|, dt, channels)
    requires sampleCount == SampleCount(|payload|, dt, channels)
    ensures out == ValuesOf(dt, channels, payload)
  {
    if dt == BOOL {
      BoolSlots(|payload|, channels);
      out := MaterializeBools(channels, payload, sampleCount);
    } else {
      var w := BytesPerDatatype(dt).value;
      FixedSlots(|payload|, dt, channels, w);
      out := MaterializeFixed(dt, w, channels, payload, sampleCount);
    }
  }

  lemma BoolSlots(len: nat, channels: nat)
    requires channels > 0 && Exact(len, BOOL, channels)
    ensures SampleCount(len, BOOL, channels) * channels == 8 * len
  {}

  lemma FixedSlots(len: nat, dt: nat, channels: nat, w: nat)
    requires channels > 0 && dt < BOOL && Exact(len, dt, channels) && BytesPerDatatype(dt) == Some(w)
    ensures SampleCount(len, dt, channels) == len / (channels * w)
    ensures SampleCount(len, dt, channels) * channels * w == len
  {
    AllSlots(len, channels, w);
  }

  lemma RowFits(s: nat, count: nat, channels: nat)
    requires s < count
    ensures (s + 1) * channels == s * channels + channels <= count * channels
  {
    assert count * channels == (s + 1) * channels + (count - s - 1) * channels;
  }

  lemma SlotInRow(s: nat, ch: nat, channels: nat, w: nat, count: nat, len: nat)
    requires s < count && ch < channels && count * channels * w == len
    ensures (s * channels + ch + 1) * w <= len
    ensures s * (w * channels) + ch * w == (s * channels + ch) * w
    ensures (s * channels + ch) * w + w == (s * channels + ch + 1) * w
  {
    RowFits(s, count, channels);
    MulLe(s * channels + ch + 1, count * channels, w);
    Reorder(s, w, channels);
    Distribute(s * channels, ch, w);
    Distribute(s * channels + ch, 1, w);
  }

  lemma Reorder(s: nat, w: nat, channels: nat)
    ensures s * (w * channels) == s * channels * w
  {}

  lemma Distribute(a: nat, b: nat, w: nat)
    ensures (a + b) * w == a * w + b * w
  {}

  lemma MulLe(a: nat, b: nat, w: nat)
    requires a <= b
    ensures a * w <= b * w
  {}
}
