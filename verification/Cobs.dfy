// Consistent overhead byte stuffing: payloads without their zero bytes, cut into blocks that
// start with their length.
module Cobs {
  import opened Bytes
  import opened Buffers
  import opened Delimited

  const SENTINEL: byte := 0

  // ---- Stuffing --------------------------------------------------------------------------------

  // The body for a payload of which cur, the open block, is already out.
  function Stuff(cur: seq<byte>, data: seq<byte>): seq<byte>
    requires |cur| < 254
    decreases |data|
  {
    if data == [] then [|cur| + 1] + cur
    else if data[0] == 0 then [|cur| + 1] + cur + Stuff([], data[1..])
    else if |cur| == 253 then [0xFF] + cur + [data[0]] + Stuff([], data[1..])
    else Stuff(cur + [data[0]], data[1..])
  }

  function Body(payload: seq<byte>): seq<byte> { Stuff([], payload) }

  function Encoded(payload: seq<byte>): seq<byte> { Body(payload) + [SENTINEL] }

  // What the body decodes to, if its code bytes are all nonzero. A last block that is cut
  // short is taken as it is.
  function Unstuff(s: seq<byte>): Option<seq<byte>>
    decreases |s|
  {
    if s == [] then Some([])
    else if s[0] == 0 then None
    else
      var end := if s[0] <= |s| then s[0] else |s|;
      match Unstuff(s[end..])
      case None => None
      case Some(t) => Some(s[1..end] + (if s[0] != 0xFF && end < |s| then [0] else []) + t)
  }

  // ---- Properties of the format ------------------------------------------------------------------

  lemma BlockFirst(code: byte, block: seq<byte>, rest: seq<byte>)
    requires 0 < code == |block| + 1
    ensures var s := [code] + block + rest;
            Unstuff(s) == match Unstuff(rest)
                          case None => None
                          case Some(t) => Some(block + (if code != 0xFF && rest != [] then [0] else []) + t)
  {
    var s := [code] + block + rest;
    assert s[1..code] == block && s[code..] == rest;
  }

  lemma {:induction false} StuffNotEmpty(cur: seq<byte>, data: seq<byte>)
    requires |cur| < 254
    ensures Stuff(cur, data) != []
    decreases |data|
  {
    if data != [] && data[0] != 0 && |cur| < 253 {
      StuffNotEmpty(cur + [data[0]], data[1..]);
    }
  }

  lemma StuffStep(cur: seq<byte>, data: seq<byte>)
    requires |cur| < 254
    ensures Stuff(cur, data) ==
            if data == [] then [|cur| + 1] + cur + []
            else if data[0] == 0 then [|cur| + 1] + cur + Stuff([], data[1..])
            else if |cur| == 253 then [0xFF] + (cur + [data[0]]) + Stuff([], data[1..])
            else Stuff(cur + [data[0]], data[1..])
  {}

  // Decoding an encoded payload gives it back.
  lemma {:induction false} UnstuffStuff(cur: seq<byte>, data: seq<byte>)
    requires |cur| < 254
    ensures Unstuff(Stuff(cur, data)) == Some(cur + data)
    decreases |data|
  {
    hide Stuff, Unstuff;
    StuffStep(cur, data);
    if data == [] {
      BlockFirst(|cur| + 1, cur, []);
      EmptyUnstuff();
      assert cur + data == cur + [] + [];
    } else if data[0] == 0 {
      StuffNotEmpty([], data[1..]);
      BlockFirst(|cur| + 1, cur, Stuff([], data[1..]));
      UnstuffStuff([], data[1..]);
      assert cur + data == cur + [0] + ([] + data[1..]);
    } else if |cur| == 253 {
      BlockFirst(0xFF, cur + [data[0]], Stuff([], data[1..]));
      UnstuffStuff([], data[1..]);
      assert cur + data == cur + [data[0]] + [] + ([] + data[1..]);
    } else {
      UnstuffStuff(cur + [data[0]], data[1..]);
      assert cur + data == cur + [data[0]] + data[1..];
    }
  }

  lemma EmptyUnstuff()
    ensures Unstuff([]) == Some([])
  {}

  lemma {:induction false} StuffHasNoZero(cur: seq<byte>, data: seq<byte>)
    requires |cur| < 254 && 0 !in cur
    ensures 0 !in Stuff(cur, data)
    decreases |data|
  {
    if data != [] {
      if data[0] == 0 || |cur| == 253 {
        StuffHasNoZero([], data[1..]);
      } else {
        StuffHasNoZero(cur + [data[0]], data[1..]);
      }
    }
  }

  // The overhead: one byte, and at most one more for every 254 payload bytes; exactly that
  // when no byte had to be stuffed.
  lemma {:induction false} StuffLength(cur: seq<byte>, data: seq<byte>)
    requires |cur| < 254
    ensures var n := |cur| + |data|;
            && n + 1 <= |Stuff(cur, data)| <= n + n / 254 + 1
            && (0 !in data ==> |Stuff(cur, data)| == n + n / 254 + 1)
    decreases |data|
  {
    if data != [] {
      assert data == [data[0]] + data[1..];
      if data[0] == 0 || |cur| == 253 {
        StuffLength([], data[1..]);
      } else {
        StuffLength(cur + [data[0]], data[1..]);
      }
    }
  }

  // An encoded payload never needs more than the room reserved for it.
  lemma EncodedLength(payload: seq<byte>)
    ensures |payload| + 2 <= |Encoded(payload)| <= |payload| + |payload| / 254 + 2
    ensures 0 !in payload ==> |Encoded(payload)| == |payload| + |payload| / 254 + 2
    ensures 0 !in Body(payload)
  {
    StuffLength([], payload);
    StuffHasNoZero([], payload);
  }

  // A body without a zero byte always decodes.
  lemma {:induction false} NoZeroDecodes(s: seq<byte>)
    requires 0 !in s
    ensures Unstuff(s).Some?
    decreases |s|
  {
    if s != [] {
      var end := if s[0] <= |s| then s[0] else |s|;
      NoZeroDecodes(s[end..]);
    }
  }

  // Every block is complete, and a block of 254 bytes is not the last one.
  predicate Canonical(s: seq<byte>)
    decreases |s|
  {
    && s != [] && 0 < s[0] <= |s|
    && if s[0] == |s| then s[0] != 0xFF else Canonical(s[s[0]..])
  }

  lemma {:induction false} StuffCanonical(cur: seq<byte>, data: seq<byte>)
    requires |cur| < 254
    ensures Canonical(Stuff(cur, data))
    decreases |data|
  {
    if data != [] {
      var rest := Stuff([], data[1..]);
      if data[0] == 0 {
        StuffCanonical([], data[1..]);
        StuffNotEmpty([], data[1..]);
        assert ([|cur| + 1] + cur + rest)[|cur| + 1..] == rest;
      } else if |cur| == 253 {
        StuffCanonical([], data[1..]);
        StuffNotEmpty([], data[1..]);
        assert ([0xFF] + cur + [data[0]] + rest)[0xFF..] == rest;
      } else {
        StuffCanonical(cur + [data[0]], data[1..]);
      }
    }
  }

  // Bytes other than zero just make the open block longer, until it is full.
  lemma {:induction false} StuffBlock(cur: seq<byte>, block: seq<byte>, data: seq<byte>)
    requires |cur| + |block| < 254 && 0 !in block
    ensures Stuff(cur, block + data) == Stuff(cur + block, data)
    decreases |block|
  {
    if block == [] {
      assert block + data == data && cur + block == cur;
    } else {
      assert (block + data)[1..] == block[1..] + data;
      assert block[0] in block;
      StuffBlock(cur + [block[0]], block[1..], data);
      assert cur + [block[0]] + block[1..] == cur + block;
    }
  }

  lemma FullBlock(block: seq<byte>, data: seq<byte>)
    requires |block| == 254 && 0 !in block
    ensures Stuff([], block + data) == [0xFF] + block + Stuff([], data)
  {
    var init, last := block[..253], block[253];
    assert block == init + [last];
    assert last in block && 0 !in init;
    assert block + data == init + ([last] + data);
    StuffBlock([], init, [last] + data);
    assert [] + init == init;
    assert ([last] + data)[1..] == data;
    assert [0xFF] + init + [last] == [0xFF] + block;
  }

  // A body is the encoding of what it decodes to exactly when it is canonical: the decoder
  // also accepts bodies that no encoder makes.
  lemma {:induction false} CanonicalIff(s: seq<byte>)
    requires 0 !in s && s != []
    ensures Unstuff(s).Some? && (Body(Unstuff(s).value) == s <==> Canonical(s))
  {
    NoZeroDecodes(s);
    StuffCanonical([], Unstuff(s).value);
    if Canonical(s) {
      CanonicalIsStuffed(s);
    }
  }

  lemma {:induction false} CanonicalIsStuffed(s: seq<byte>)
    requires 0 !in s && Canonical(s)
    ensures Unstuff(s).Some? && Body(Unstuff(s).value) == s
    decreases |s|
  {
    hide Unstuff, Stuff;
    var code := s[0];
    var block, rest := s[1..code], s[code..];
    assert s == [code] + block + rest;
    BlockFirst(code, block, rest);
    EmptyUnstuff();
    if rest == [] {
      assert block + [] + [] == block;
      StuffBlock([], block, []);
      assert block + [] == block && [] + block == block;
      StuffLast(block);
    } else {
      CanonicalIsStuffed(rest);
      var t := Unstuff(rest).value;
      if code == 0xFF {
        assert block + [] + t == block + t;
        FullBlock(block, t);
      } else {
        assert block + [0] + t == block + ([0] + t);
        StuffBlock([], block, [0] + t);
        assert [] + block == block;
        StuffZero(block, t);
      }
    }
  }

  // What an encoder would have sent instead: the last block gets the length it has, and after a
  // full last block the closing code byte is added.
  function Completed(s: seq<byte>): (r: seq<byte>)
    requires 0 !in s && s != []
    decreases |s|
  {
    if s[0] > |s| then [|s|] + s[1..]
    else if s[0] < |s| then s[..s[0]] + Completed(s[s[0]..])
    else if s[0] == 0xFF then s + [1]
    else s
  }

  lemma {:induction false} CompletedForm(s: seq<byte>)
    requires 0 !in s && s != []
    ensures Completed(s) != [] && 0 !in Completed(s) && Canonical(Completed(s))
    ensures Canonical(s) <==> Completed(s) == s
    decreases |s|
  {
    var c := Completed(s);
    if s[0] > |s| {
      assert c[0] == |s| == |c|;
    } else if s[0] < |s| {
      var rest := s[s[0]..];
      CompletedForm(rest);
      assert c == s[..s[0]] + Completed(rest);
      assert c[s[0]..] == Completed(rest) && s == s[..s[0]] + rest;
    } else if s[0] == 0xFF {
      assert c[0xFF..] == [1];
    }
  }

  // A body decodes as its completion does.
  lemma {:induction false} CompletedDecodes(s: seq<byte>)
    requires 0 !in s && s != []
    ensures Unstuff(Completed(s)) == Unstuff(s)
    decreases |s|
  {
    hide Unstuff, Canonical;
    var code := s[0];
    EmptyUnstuff();
    if code > |s| {
      BlockFirst(|s|, s[1..], []);
      assert [|s|] + s[1..] + [] == [|s|] + s[1..];
      UnstuffStep(s, |s| - 1);
      assert s[|s| - 1 + 1..] == [] && s[1..|s| - 1 + 1] == s[1..];
    } else if code < |s| {
      var rest := s[code..];
      CompletedForm(rest);
      CompletedDecodes(rest);
      BlockFirst(code, s[1..code], rest);
      BlockFirst(code, s[1..code], Completed(rest));
      assert s == [code] + s[1..code] + rest;
      assert Completed(s) == [code] + s[1..code] + Completed(rest);
    } else if code == 0xFF {
      FullLast(s[1..]);
      assert s == [0xFF] + s[1..] && Completed(s) == [0xFF] + s[1..] + [1];
    }
  }

  // A full last block decodes with or without the closing code byte.
  lemma FullLast(block: seq<byte>)
    requires |block| == 254
    ensures Unstuff([0xFF] + block) == Unstuff([0xFF] + block + [1]) == Some(block)
  {
    hide Unstuff;
    var none: seq<byte> := [];
    EmptyUnstuff();
    BlockFirst(1, none, none);
    assert [1] + none + none == [1];
    assert none + none + none == none;
    BlockFirst(0xFF, block, none);
    BlockFirst(0xFF, block, [1]);
    assert [0xFF] + block + none == [0xFF] + block;
    assert block + none + none == block;
  }

  // What every body decodes to: the payload whose encoding is its completion.
  lemma BodyOfDecoded(s: seq<byte>)
    requires 0 !in s && s != []
    ensures Unstuff(s).Some? && Body(Unstuff(s).value) == Completed(s)
  {
    hide Unstuff, Completed, Canonical, Stuff;
    CompletedForm(s);
    CompletedDecodes(s);
    CanonicalIsStuffed(Completed(s));
  }

  // The vectors of the encoder's own test.
  lemma ShortVectors()
    ensures Encoded([]) == [1, 0] && Encoded([0]) == [1, 1, 0] && Encoded([0, 0]) == [1, 1, 1, 0]
    ensures Encoded([0, 0x11, 0]) == [1, 2, 0x11, 1, 0]
  {
    hide Stuff;
    StuffStep([], []);
    StuffStep([], [0]);
    StuffStep([], [0, 0]);
    assert [0][1..] == [] && [0, 0][1..] == [0];
    StuffStep([], [0, 0x11, 0]);
    StuffStep([], [0x11, 0]);
    StuffStep([0x11], [0]);
    assert [0, 0x11, 0][1..] == [0x11, 0] && [0x11, 0][1..] == [0] && [] + [0x11] == [0x11];
  }

  lemma LongerVector()
    ensures Encoded([0x11, 0x22, 0, 0x33]) == [3, 0x11, 0x22, 2, 0x33, 0]
  {
    hide Stuff;
    var three: seq<byte> := [0x22, 0, 0x33];
    StuffStep([], [0x11, 0x22, 0, 0x33]);
    StuffStep([0x11], three);
    StuffStep([0x11, 0x22], [0, 0x33]);
    StuffStep([], [0x33]);
    StuffStep([0x33], []);
    assert [0x11, 0x22, 0, 0x33][1..] == three && three[1..] == [0, 0x33] && [0, 0x33][1..] == [0x33];
    assert [0x33][1..] == [] && [0x11] + [0x22] == [0x11, 0x22] && [] + [0x33] == [0x33] && [] + [0x11] == [0x11];
  }

  lemma StuffLast(block: seq<byte>)
    requires |block| < 254
    ensures Stuff(block, []) == [|block| + 1] + block
  {}

  lemma StuffZero(block: seq<byte>, t: seq<byte>)
    requires |block| < 254
    ensures Stuff(block, [0] + t) == [|block| + 1] + block + Stuff([], t)
  {
    assert ([0] + t)[1..] == t;
  }

  // Such a body: its only block claims four bytes and has one.
  lemma TruncatedBlockAccepted()
    ensures Unstuff([5, 1]) == Some([1]) && !Canonical([5, 1])
  {
    assert [5, 1][2..] == [];
    assert [5, 1][1..2] + [] + [] == [1];
    EmptyUnstuff();
  }

  // ---- The stream ----------------------------------------------------------------------------------

  function Bodies(payloads: seq<seq<byte>>): (r: seq<seq<byte>>)
    ensures |r| == |payloads|
  {
    if payloads == [] then [] else [Encoded(payloads[0])] + Bodies(payloads[1..])
  }

  function Decoded(payloads: seq<seq<byte>>): seq<Option<seq<byte>>> {
    if payloads == [] then [] else [Some(payloads[0])] + Decoded(payloads[1..])
  }

  // Payloads sent one after another, with any idle zeros before each, come back in order, the
  // empty ones included, and nothing is left over.
  lemma {:induction false} StreamRoundTrip(gaps: seq<nat>, payloads: seq<seq<byte>>)
    requires |gaps| == |payloads|
    ensures var wire := Spaced(gaps, Bodies(payloads), SENTINEL);
            Results(wire, SENTINEL, Unstuff) == Decoded(payloads) && Tail(wire, SENTINEL) == []
    decreases |payloads|
  {
    hide Results, Tail, Stuff, Unstuff, FirstCut, Idle;
    if payloads == [] {
      ResultsOfNothing(SENTINEL, Unstuff);
    } else {
      var rest := Spaced(gaps[1..], Bodies(payloads[1..]), SENTINEL);
      var body := Body(payloads[0]);
      assert Bodies(payloads)[1..] == Bodies(payloads[1..]);
      StreamRoundTrip(gaps[1..], payloads[1..]);
      EncodedLength(payloads[0]);
      UnstuffStuff([], payloads[0]);
      assert [] + payloads[0] == payloads[0];
      ResultsOfFrame(body, SENTINEL, rest, Unstuff);
      IdleIsSkipped(gaps[0], SENTINEL, body + [SENTINEL] + rest, Unstuff);
      assert Idle(gaps[0], SENTINEL) + Encoded(payloads[0]) + rest
          == Idle(gaps[0], SENTINEL) + (body + [SENTINEL] + rest);
    }
  }

  // ---- The codec -------------------------------------------------------------------------------------

  function SaturatingIncrement(b: byte): byte { if b < 0xFF then b + 1 else 0xFF }

  // Writes a placeholder for each code byte and patches it when its block is complete.
  method EncodeCobs(data: seq<byte>) returns (encoded: seq<byte>)
    ensures encoded == Encoded(data)
  {
    encoded := [0];
    var codeIndex := 0;
    var code: byte := 1;
    ghost var out: seq<byte>, cur: seq<byte> := [], [];
    for i := 0 to |data|
      invariant |cur| < 254 && code == |cur| + 1
      invariant encoded == out + [0] + cur && codeIndex == |out|
      invariant out + Stuff(cur, data[i..]) == Stuff([], data)
    {
      var b := data[i];
      assert data[i..][1..] == data[i + 1..];
      if b == SENTINEL {
        encoded := encoded[codeIndex := code];
        codeIndex := |encoded|;
        encoded := encoded + [0];
        code := 1;
        Assoc(out, [|cur| + 1] + cur, Stuff([], data[i + 1..]));
        out, cur := out + ([|cur| + 1] + cur), [];
      } else {
        encoded := encoded + [b];
        code := SaturatingIncrement(code);
        if code == 0xFF {
          encoded := encoded[codeIndex := code];
          codeIndex := |encoded|;
          encoded := encoded + [0];
          code := 1;
          Assoc(out, [0xFF] + cur + [b], Stuff([], data[i + 1..]));
          out, cur := out + ([0xFF] + cur + [b]), [];
        } else {
          cur := cur + [b];
        }
      }
    }
    encoded := encoded[codeIndex := code];
    assert encoded == out + ([|cur| + 1] + cur);
    encoded := encoded + [SENTINEL];
  }

  method DecodeCobs(data: seq<byte>) returns (r: Option<seq<byte>>)
    ensures r == Unstuff(data)
  {
    hide Unstuff;
    var decoded := [];
    var i := 0;
    NothingBefore(Unstuff(data));
    assert data[0..] == data;
    while i < |data|
      invariant i <= |data|
      invariant Unstuff(data) == Before(decoded, Unstuff(data[i..]))
    {
      var code := data[i];
      if code == 0 {
        NextBlock(data, i, code, 0, decoded);
        return None;
      }
      var start := i;
      i := i + 1;
      var copyLen := if code - 1 < |data| - i then code - 1 else |data| - i;
      // the source's check for a block longer than the buffer never fires
      assert i + copyLen <= |data|;
      NextBlock(data, start, code, copyLen, decoded);
      decoded := decoded + data[i..i + copyLen];
      i := i + copyLen;
      if code != 0xFF && i < |data| {
        decoded := decoded + [SENTINEL];
      }
    }
    assert data[i..] == [];
    EmptyUnstuff();
    assert decoded + [] == decoded;
    return Some(decoded);
  }

  lemma NextBlock(data: seq<byte>, i: nat, code: byte, n: nat, a: seq<byte>)
    requires i < |data| && code == data[i]
    requires code > 0 ==> n == if code - 1 < |data| - (i + 1) then code - 1 else |data| - (i + 1)
    ensures code == 0 ==> Unstuff(data[i..]) == None
    ensures code > 0 ==>
              var end := i + 1 + n;
              var block := a + data[i + 1..end];
              Before(a, Unstuff(data[i..]))
              == Before(if code != 0xFF && end < |data| then block + [SENTINEL] else block, Unstuff(data[end..]))
  {
    hide Unstuff;
    var s := data[i..];
    if code == 0 {
      ZeroCode(s);
    } else {
      var end := i + 1 + n;
      assert s[1..n + 1] == data[i + 1..end] && s[n + 1..] == data[end..];
      UnstuffStep(s, n);
      if Unstuff(data[end..]).Some? {
        var block, t := data[i + 1..end], Unstuff(data[end..]).value;
        if code != 0xFF && end < |data| {
          assert a + (block + [0] + t) == a + block + [SENTINEL] + t;
        } else {
          assert a + (block + [] + t) == a + block + t;
        }
      }
    }
  }

  lemma ZeroCode(s: seq<byte>)
    requires s != [] && s[0] == 0
    ensures Unstuff(s) == None
  {}

  lemma UnstuffStep(s: seq<byte>, n: nat)
    requires s != [] && s[0] > 0 && n == if s[0] - 1 < |s| - 1 then s[0] - 1 else |s| - 1
    ensures Unstuff(s) == match Unstuff(s[n + 1..])
                          case None => None
                          case Some(t) => Some(s[1..n + 1] + (if s[0] != 0xFF && n + 1 < |s| then [0] else []) + t)
  {
    var end := if s[0] <= |s| then s[0] else |s|;
    assert end == n + 1;
  }

  class CobsCodec {
    constructor () {}

    // Cuts the first frame off the buffer. Decoding it never fails.
    method DecodeNext(src: ByteBuffer) returns (d: Decode)
      modifies src
      ensures match FirstCut(old(src.data), SENTINEL)
              case Nothing => d == NoMessage && src.data == old(src.data)
              case Cut(body, rest) =>
                && src.data == rest
                && d == if body == [] then NoMessage else
                   match Unstuff(body)
                   case None => Failed
                   case Some(payload) => Message(payload, body + [SENTINEL])
      ensures d != Failed
    {
      hide FirstCut, Unstuff;
      var found := IndexOf(src.data, SENTINEL);
      if found.None? {
        return NoMessage;
      }
      var index := found.value;
      var frame := src.data[..index + 1];
      ghost var cut := FirstCut(src.data, SENTINEL);
      CutAt(src.data, SENTINEL, index);
      src.Advance(index + 1);
      var encodedData := frame[..|frame| - 1];
      if encodedData == [] {
        return NoMessage;
      }
      NoZeroDecodes(encodedData);
      var payload := DecodeCobs(encodedData);
      match payload {
        case None => return Failed;
        case Some(p) => return Message(p, frame);
      }
    }
  }
}
