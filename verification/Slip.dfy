// The framing of RFC 1055 ("PROTOCOL"): END closes a frame, and END and ESC are escaped inside.
module Slip {
  import opened Bytes
  import opened Buffers
  import opened Delimited

  const END: byte := 0xC0
  const ESC: byte := 0xDB
  const ESC_END: byte := 0xDC
  const ESC_ESC: byte := 0xDD

  // ---- Escaping ----------------------------------------------------------------------------------

  function EscapeByte(b: byte): seq<byte> {
    if b == END then [ESC, ESC_END] else if b == ESC then [ESC, ESC_ESC] else [b]
  }

  function Escape(payload: seq<byte>): seq<byte> {
    if payload == [] then [] else EscapeByte(payload[0]) + Escape(payload[1..])
  }

  function Encoded(payload: seq<byte>, leadingEnd: bool): seq<byte> {
    (if leadingEnd then [END] else []) + Escape(payload) + [END]
  }

  // How the body goes on: the byte that comes next and how much of the body it takes.
  datatype Token = Token(b: byte, size: nat) | BadToken

  function TokenAt(s: seq<byte>): Token
    requires s != []
  {
    if s[0] == ESC then
      if |s| < 2 then BadToken
      else if s[1] == ESC_END then Token(END, 2)
      else if s[1] == ESC_ESC then Token(ESC, 2)
      else BadToken
    else if s[0] == END then BadToken
    else Token(s[0], 1)
  }

  function Unescape(s: seq<byte>): Option<seq<byte>>
    decreases |s|
  {
    if s == [] then Some([])
    else
      match TokenAt(s)
      case BadToken => None
      case Token(b, size) =>
        match Unescape(s[size..])
        case None => None
        case Some(t) => Some([b] + t)
  }

  // ---- Properties of the format ---------------------------------------------------------------------

  lemma TokenOfByte(b: byte, rest: seq<byte>)
    ensures var s := EscapeByte(b) + rest;
            TokenAt(s) == Token(b, |EscapeByte(b)|) && s[|EscapeByte(b)|..] == rest
  {}

  lemma ByteOfToken(s: seq<byte>)
    requires s != [] && TokenAt(s).Token?
    ensures var t := TokenAt(s); t.size <= |s| && s == EscapeByte(t.b) + s[t.size..]
  {}

  // A body decodes to a payload exactly when it is the escaping of that payload.
  lemma {:induction false} UnescapeIff(s: seq<byte>, payload: seq<byte>)
    ensures Unescape(s) == Some(payload) <==> s == Escape(payload)
    decreases |s|
  {
    if s != [] && TokenAt(s).Token? {
      var t := TokenAt(s);
      ByteOfToken(s);
      if payload != [] {
        UnescapeIff(s[t.size..], payload[1..]);
        TokenOfByte(payload[0], Escape(payload[1..]));
        assert payload == [payload[0]] + payload[1..];
      }
    } else if s != [] && payload != [] {
      TokenOfByte(payload[0], Escape(payload[1..]));
    }
  }

  function Specials(payload: seq<byte>): nat {
    if payload == [] then 0
    else (if payload[0] == END || payload[0] == ESC then 1 else 0) + Specials(payload[1..])
  }

  // An escaped payload has no END in it, and grows by one byte for each END and ESC.
  lemma {:induction false} EscapedForm(payload: seq<byte>)
    ensures END !in Escape(payload)
    ensures |Escape(payload)| == |payload| + Specials(payload) <= 2 * |payload|
  {
    if payload != [] {
      EscapedForm(payload[1..]);
    }
  }

  // The byte values that RFC 1055 gives in octal: END is 300, ESC 333, and the two codes after
  // ESC are 334 and 335.
  lemma RfcBytes()
    ensures END == 3 * 64 && ESC == 3 * 64 + 3 * 8 + 3 && ESC_END == ESC + 1 && ESC_ESC == ESC + 2
    ensures Escape([192, 0x11, 219]) == [219, 220, 0x11, 219, 221]
    ensures Encoded([0x11], true) == [192, 0x11, 192] && Encoded([0x11], false) == [0x11, 192]
  {
    assert Escape([]) == [];
    assert [219][1..] == [] && [0x11, 219][1..] == [219] && [192, 0x11, 219][1..] == [0x11, 219] && [0x11][1..] == [];
    assert Escape([219]) == EscapeByte(219) + [] == [219, 221];
    assert Escape([0x11, 219]) == EscapeByte(0x11) + Escape([219]);
    assert Escape([0x11]) == EscapeByte(0x11) + [];
  }

  // ---- The stream ------------------------------------------------------------------------------------

  function Frames(payloads: seq<seq<byte>>, leadingEnd: bool): (r: seq<seq<byte>>)
    ensures |r| == |payloads|
  {
    if payloads == [] then [] else [Encoded(payloads[0], leadingEnd)] + Frames(payloads[1..], leadingEnd)
  }

  // An empty payload cannot be told from an idle line.
  function Decoded(payloads: seq<seq<byte>>): seq<Option<seq<byte>>> {
    if payloads == [] then []
    else (if payloads[0] == [] then [] else [Some(payloads[0])]) + Decoded(payloads[1..])
  }

  // All nonempty payloads come back in order, with or without the leading END and whatever
  // idle ENDs are between the frames.
  lemma {:induction false} StreamRoundTrip(gaps: seq<nat>, payloads: seq<seq<byte>>, leadingEnd: bool)
    requires |gaps| == |payloads|
    ensures var wire := Spaced(gaps, Frames(payloads, leadingEnd), END);
            Results(wire, END, Unescape) == Decoded(payloads) && Tail(wire, END) == []
    decreases |payloads|
  {
    hide Results, Tail, Escape, Unescape, FirstCut, Idle;
    if payloads == [] {
      ResultsOfNothing(END, Unescape);
    } else {
      var rest := Spaced(gaps[1..], Frames(payloads[1..], leadingEnd), END);
      assert Frames(payloads, leadingEnd)[1..] == Frames(payloads[1..], leadingEnd);
      StreamRoundTrip(gaps[1..], payloads[1..], leadingEnd);
      FrameInStream(payloads[0], leadingEnd, rest);
      IdleIsSkipped(gaps[0], END, Encoded(payloads[0], leadingEnd) + rest, Unescape);
      assert Idle(gaps[0], END) + Encoded(payloads[0], leadingEnd) + rest
          == Idle(gaps[0], END) + (Encoded(payloads[0], leadingEnd) + rest);
    }
  }

  lemma FrameInStream(payload: seq<byte>, leadingEnd: bool, rest: seq<byte>)
    ensures var wire := Encoded(payload, leadingEnd) + rest;
            && Results(wire, END, Unescape)
               == (if payload == [] then [] else [Some(payload)]) + Results(rest, END, Unescape)
            && Tail(wire, END) == Tail(rest, END)
  {
    hide Results, Tail, Unescape;
    var body := Escape(payload);
    EscapedForm(payload);
    UnescapeIff(body, payload);
    ResultsOfFrame(body, END, rest, Unescape);
    if leadingEnd {
      var more := body + [END] + rest;
      ResultsOfFrame([], END, more, Unescape);
      assert Encoded(payload, leadingEnd) + rest == [] + [END] + more;
      assert [] + Results(more, END, Unescape) == Results(more, END, Unescape);
    } else {
      assert Encoded(payload, leadingEnd) == body + [END];
    }
  }

  lemma ReadLoopOfFrame(payload: seq<byte>, rest: seq<byte>)
    requires payload != []
    ensures var r := ReadLoop(rest, END, Unescape);
            ReadLoop(Escape(payload) + [END] + rest, END, Unescape) == ([payload] + r.0, r.1)
  {
    hide FirstCut, Unescape;
    EscapedForm(payload);
    UnescapeIff(Escape(payload), payload);
    CutUnique(Escape(payload), END, rest);
  }

  // With a leading END a frame that arrives alone is not delivered by the read that completes
  // it, but by the next call of decode; without a leading END it is delivered at once.
  lemma LeadingEndDelays(payload: seq<byte>)
    requires payload != []
    ensures ReadLoop(Encoded(payload, true), END, Unescape) == ([], Escape(payload) + [END])
    ensures ReadLoop(Escape(payload) + [END], END, Unescape) == ([payload], [])
    ensures ReadLoop(Encoded(payload, false), END, Unescape) == ([payload], [])
    ensures !NothingBehind(Encoded(payload, true), END, Unescape)
  {
    hide FirstCut, Unescape, Escape;
    var body := Escape(payload);
    assert Encoded(payload, true) == [] + [END] + (body + [END]);
    CutUnique([], END, body + [END]);
    assert body + [END] + [] == body + [END];
    assert [] + body + [END] == body + [END];
    ReadLoopOfFrame(payload, []);
    NothingInEmpty();
    assert [payload] + [] == [payload];
    ReadLoopComplete(Encoded(payload, true), END, Unescape);
    FrameInStream(payload, true, []);
    assert Encoded(payload, true) + [] == Encoded(payload, true);
    ResultsOfNothing(END, Unescape);
    assert [Some(payload)] + [] == [Some(payload)];
    GoodCons(Some(payload), []);
  }

  lemma NothingInEmpty()
    ensures ReadLoop([], END, Unescape) == ([], [])
  {}

  // ---- The codec ---------------------------------------------------------------------------------------

  class SlipCodec {
    const pushLeadingEnd: bool

    constructor (pushLeadingEnd: bool := true)
      ensures this.pushLeadingEnd == pushLeadingEnd
    {
      this.pushLeadingEnd := pushLeadingEnd;
    }

    method EncodeSlip(data: seq<byte>) returns (encoded: seq<byte>)
      ensures encoded == Encoded(data, pushLeadingEnd)
    {
      hide Escape, EscapeByte;
      encoded := [];
      if pushLeadingEnd {
        encoded := encoded + [END];
      }
      ghost var lead := encoded;
      for i := 0 to |data|
        invariant encoded + Escape(data[i..]) == lead + Escape(data)
      {
        var b := data[i];
        EscapeNext(data, i);
        ghost var before, rest := encoded, Escape(data[i + 1..]);
        if b == END {
          encoded := encoded + [ESC];
          encoded := encoded + [ESC_END];
        } else if b == ESC {
          encoded := encoded + [ESC];
          encoded := encoded + [ESC_ESC];
        } else {
          encoded := encoded + [b];
        }
        assert encoded == before + EscapeByte(b);
        Assoc(before, EscapeByte(b), rest);
      }
      EscapeEnd(data);
      assert encoded + [] == encoded;
      encoded := encoded + [END];
    }

    method DecodeSlip(data: seq<byte>) returns (r: Option<seq<byte>>)
      ensures r == Unescape(data)
    {
      hide Unescape;
      var decoded := [];
      var i := 0;
      NothingBefore(Unescape(data));
      assert data[0..] == data;
      while i < |data|
        invariant i <= |data|
        invariant Unescape(data) == Before(decoded, Unescape(data[i..]))
      {
        var b := data[i];
        NextToken(data, i, decoded);
        if b == ESC {
          if i + 1 >= |data| {
            return None;
          }
          var next := data[i + 1];
          if next == ESC_END {
            decoded := decoded + [END];
            i := i + 2;
          } else if next == ESC_ESC {
            decoded := decoded + [ESC];
            i := i + 2;
          } else {
            return None;
          }
        } else if b == END {
          return None;
        } else {
          decoded := decoded + [b];
          i := i + 1;
        }
      }
      assert data[i..] == [];
      NothingLeft();
      assert decoded + [] == decoded;
      return Some(decoded);
    }

    // Cuts the first frame off the buffer.
    method DecodeNext(src: ByteBuffer) returns (d: Decode)
      modifies src
      ensures match FirstCut(old(src.data), END)
              case Nothing => d == NoMessage && src.data == old(src.data)
              case Cut(body, rest) =>
                && src.data == rest
                && d == if body == [] then NoMessage else
                   match Unescape(body)
                   case None => Failed
                   case Some(payload) => Message(payload, body + [END])
    {
      hide FirstCut, Unescape;
      var found := IndexOf(src.data, END);
      if found.None? {
        return NoMessage;
      }
      var endPos := found.value;
      var frame := src.data[..endPos + 1];
      CutAt(src.data, END, endPos);
      src.Advance(endPos + 1);
      var frameData := frame[..|frame| - 1];
      if frameData == [] {
        return NoMessage;
      }
      var payload := DecodeSlip(frameData);
      match payload {
        case None => return Failed;
        case Some(p) => return Message(p, frame);
      }
    }

    // What the transport does after each read: decodes until there is no message, and clears
    // the buffer on a failure.
    method DecodeAvailable(buffer: ByteBuffer) returns (pending: seq<seq<byte>>)
      modifies buffer
      ensures (pending, buffer.data) == ReadLoop(old(buffer.data), END, Unescape)
    {
      hide FirstCut, Unescape;
      pending := [];
      while true
        invariant var r, t := ReadLoop(old(buffer.data), END, Unescape), ReadLoop(buffer.data, END, Unescape);
                  r.0 == pending + t.0 && r.1 == t.1
        decreases |buffer.data|
      {
        ghost var before := buffer.data;
        var d := DecodeNext(buffer);
        match d {
          case NoMessage =>
            assert pending + [] == pending;
            return;
          case Message(payload, frame) =>
            Assoc(pending, [payload], ReadLoop(buffer.data, END, Unescape).0);
            pending := pending + [payload];
          case Failed =>
            assert pending + [] == pending;
            buffer.Clear();
            return;
        }
      }
    }
  }

  lemma EscapeNext(data: seq<byte>, i: nat)
    requires i < |data|
    ensures Escape(data[i..]) == EscapeByte(data[i]) + Escape(data[i + 1..])
    ensures data[i] == END ==> EscapeByte(data[i]) == [ESC] + [ESC_END]
    ensures data[i] == ESC ==> EscapeByte(data[i]) == [ESC] + [ESC_ESC]
    ensures data[i] != END && data[i] != ESC ==> EscapeByte(data[i]) == [data[i]]
  {
    assert data[i..][1..] == data[i + 1..];
  }

  lemma EscapeEnd(data: seq<byte>)
    ensures Escape(data[|data|..]) == []
  {}

  lemma NothingLeft()
    ensures Unescape([]) == Some([])
  {}

  lemma NextToken(data: seq<byte>, i: nat, a: seq<byte>)
    requires i < |data|
    ensures match TokenAt(data[i..])
            case BadToken => Unescape(data[i..]) == None
            case Token(b, size) =>
              i + size <= |data| && Before(a, Unescape(data[i..])) == Before(a + [b], Unescape(data[i + size..]))
  {
    hide Unescape, TokenAt, Escape, EscapeByte;
    var s := data[i..];
    UnescapeStep(s);
    if TokenAt(s).Token? {
      var b, size := TokenAt(s).b, TokenAt(s).size;
      assert s[size..] == data[i + size..];
      if Unescape(s[size..]).Some? {
        Assoc(a, [b], Unescape(s[size..]).value);
      }
    }
  }

  lemma UnescapeStep(s: seq<byte>)
    requires s != []
    ensures TokenAt(s) == BadToken ==> Unescape(s) == None
    ensures TokenAt(s).Token? ==>
              var t := TokenAt(s);
              t.size <= |s| && Unescape(s) == Before([t.b], Unescape(s[t.size..]))
  {}
}
