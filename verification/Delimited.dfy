// Byte streams whose frames end with a delimiter byte.
module Delimited {
  import opened Bytes

  // The first place of d in s.
  function IndexOf(s: seq<byte>, d: byte): (r: Option<nat>)
    ensures r.None? ==> d !in s
    ensures r.Some? ==> r.value < |s| && s[r.value] == d && forall k | 0 <= k < r.value :: s[k] != d
  {
    if s == [] then None
    else if s[0] == d then Some(0)
    else
      match IndexOf(s[1..], d)
      case None => None
      case Some(i) =>
        assert forall k | 1 <= k < i + 1 :: s[k] == s[1..][k - 1];
        Some(i + 1)
  }

  // What one call of decode cuts off: nothing, or the bytes before the first delimiter.
  datatype Cut = Nothing | Cut(body: seq<byte>, rest: seq<byte>)

  function FirstCut(buf: seq<byte>, d: byte): (c: Cut)
    ensures c == Nothing <==> d !in buf
    ensures c.Cut? ==> d !in c.body && buf == c.body + [d] + c.rest
  {
    match IndexOf(buf, d)
    case None => Nothing
    case Some(i) => Cut(buf[..i], buf[i + 1..])
  }

  // What one call of decode returns. Without a delimiter there is no message, and an empty frame
  // is skipped.
  datatype Decode = NoMessage | Message(payload: seq<byte>, frame: seq<byte>) | Failed

  // The bytes decoded so far, put before what the rest decodes to.
  function Before(a: seq<byte>, r: Option<seq<byte>>): Option<seq<byte>> {
    match r
    case None => None
    case Some(t) => Some(a + t)
  }

  lemma NothingBefore(r: Option<seq<byte>>)
    ensures Before([], r) == r
  {
    if r.Some? {
      assert [] + r.value == r.value;
    }
  }

  // What is decoded from buf by calling decode as long as there is a delimiter: empty frames
  // are skipped, and f says what becomes of the others.
  function Results<T>(buf: seq<byte>, d: byte, f: seq<byte> -> T): seq<T>
    decreases |buf|
  {
    match FirstCut(buf, d)
    case Nothing => []
    case Cut(body, rest) => (if body == [] then [] else [f(body)]) + Results(rest, d, f)
  }

  // The bytes that stay in the buffer.
  function Tail(buf: seq<byte>, d: byte): (r: seq<byte>)
    ensures d !in r
    decreases |buf|
  {
    match FirstCut(buf, d)
    case Nothing => buf
    case Cut(_, rest) => Tail(rest, d)
  }

  lemma CutUnique(body: seq<byte>, d: byte, rest: seq<byte>)
    requires d !in body
    ensures FirstCut(body + [d] + rest, d) == Cut(body, rest)
  {
    var s := body + [d] + rest;
    var c := FirstCut(s, d);
    assert s[|body|] == d;
    assert forall k | 0 <= k < |body| :: s[k] == body[k] != d;
    assert IndexOf(s, d) == Some(|body|);
    assert s[..|body|] == body && s[|body| + 1..] == rest;
  }

  lemma CutAt(buf: seq<byte>, d: byte, i: nat)
    requires IndexOf(buf, d) == Some(i)
    ensures FirstCut(buf, d) == Cut(buf[..i + 1][..i], buf[i + 1..])
    ensures buf[..i + 1] == buf[..i + 1][..i] + [d]
  {
    assert buf[..i + 1][..i] == buf[..i];
  }

  // Decoding while bytes arrive in pieces gives what decoding them all at once gives.
  lemma {:induction false} ResultsAppend<T>(a: seq<byte>, b: seq<byte>, d: byte, f: seq<byte> -> T)
    ensures Results(a + b, d, f) == Results(a, d, f) + Results(Tail(a, d) + b, d, f)
    ensures Tail(a + b, d) == Tail(Tail(a, d) + b, d)
    decreases |a|
  {
    hide FirstCut;
    match FirstCut(a, d) {
      case Nothing =>
        assert [] + Results(a + b, d, f) == Results(a + b, d, f);
      case Cut(body, rest) =>
        assert a + b == body + [d] + (rest + b);
        CutUnique(body, d, rest + b);
        ResultsAppend(rest, b, d, f);
        var one := if body == [] then [] else [f(body)];
        Assoc(one, Results(rest, d, f), Results(Tail(rest, d) + b, d, f));
    }
  }

  lemma Assoc<T>(a: seq<T>, b: seq<T>, c: seq<T>)
    ensures a + (b + c) == a + b + c
  {}

  lemma ResultsOfFrame<T>(body: seq<byte>, d: byte, rest: seq<byte>, f: seq<byte> -> T)
    requires d !in body
    ensures Results(body + [d] + rest, d, f) == (if body == [] then [] else [f(body)]) + Results(rest, d, f)
    ensures Tail(body + [d] + rest, d) == Tail(rest, d)
  {
    hide FirstCut;
    CutUnique(body, d, rest);
  }

  lemma ResultsOfNothing<T>(d: byte, f: seq<byte> -> T)
    ensures Results([], d, f) == [] && Tail([], d) == []
  {}

  // n delimiters: an idle line.
  function Idle(n: nat, d: byte): (r: seq<byte>)
    ensures |r| == n
  {
    if n == 0 then [] else [d] + Idle(n - 1, d)
  }

  lemma {:induction false} IdleIsSkipped<T>(n: nat, d: byte, rest: seq<byte>, f: seq<byte> -> T)
    ensures Results(Idle(n, d) + rest, d, f) == Results(rest, d, f)
    ensures Tail(Idle(n, d) + rest, d) == Tail(rest, d)
  {
    hide Results, Tail;
    if n == 0 {
      assert Idle(n, d) + rest == rest;
    } else {
      assert Idle(n, d) + rest == [] + [d] + (Idle(n - 1, d) + rest);
      ResultsOfFrame([], d, Idle(n - 1, d) + rest, f);
      IdleIsSkipped(n - 1, d, rest, f);
      assert [] + Results(Idle(n - 1, d) + rest, d, f) == Results(Idle(n - 1, d) + rest, d, f);
    }
  }

  // Frames one after another, each with some idle delimiters before it.
  function Spaced(gaps: seq<nat>, frames: seq<seq<byte>>, d: byte): seq<byte>
    requires |gaps| == |frames|
  {
    if frames == [] then [] else Idle(gaps[0], d) + frames[0] + Spaced(gaps[1..], frames[1..], d)
  }

  // ---- Within one read -----------------------------------------------------------------------------

  // After each read the transport decodes until decode returns no message, and clears the
  // buffer when it fails: the payloads, and what is left in the buffer.
  function ReadLoop<T>(buf: seq<byte>, d: byte, f: seq<byte> -> Option<T>): (seq<T>, seq<byte>)
    decreases |buf|
  {
    match FirstCut(buf, d)
    case Nothing => ([], buf)
    case Cut(body, rest) =>
      if body == [] then ([], rest)
      else
        match f(body)
        case None => ([], [])
        case Some(t) =>
          var (ts, left) := ReadLoop(rest, d, f);
          ([t] + ts, left)
  }

  function Good<T>(rs: seq<Option<T>>): seq<T> {
    if rs == [] then []
    else (if rs[0].Some? then [rs[0].value] else []) + Good(rs[1..])
  }

  // Nothing that decodes lies behind an empty frame or one that does not decode.
  predicate NothingBehind<T(==)>(buf: seq<byte>, d: byte, f: seq<byte> -> Option<T>)
    decreases |buf|
  {
    match FirstCut(buf, d)
    case Nothing => true
    case Cut(body, rest) =>
      if body != [] && f(body).Some? then NothingBehind(rest, d, f)
      else Good(Results(rest, d, f)) == []
  }

  lemma GoodCons<T>(r: Option<T>, rs: seq<Option<T>>)
    ensures Good([r] + rs) == (if r.Some? then [r.value] else []) + Good(rs)
  {
    assert ([r] + rs)[1..] == rs;
  }

  // One read delivers every frame it completes exactly when none of them is behind an empty
  // or a bad one.
  lemma {:induction false} ReadLoopComplete<T>(buf: seq<byte>, d: byte, f: seq<byte> -> Option<T>)
    ensures ReadLoop(buf, d, f).0 == Good(Results(buf, d, f)) <==> NothingBehind(buf, d, f)
    decreases |buf|
  {
    hide FirstCut, Good;
    NoGood<T>();
    match FirstCut(buf, d) {
      case Nothing =>
      case Cut(body, rest) =>
        var more := Results(rest, d, f);
        if body == [] {
          assert [] + more == more;
        } else {
          GoodCons(f(body), more);
          if f(body).Some? {
            ReadLoopComplete(rest, d, f);
            SameTails(f(body).value, ReadLoop(rest, d, f).0, Good(more));
          } else {
            assert [] + Good(more) == Good(more);
          }
        }
    }
  }

  lemma NoGood<T>()
    ensures Good<T>([]) == []
  {}

  lemma SameTails<T>(t: T, a: seq<T>, b: seq<T>)
    ensures [t] + a == [t] + b <==> a == b
  {
    if [t] + a == [t] + b {
      assert a == ([t] + a)[1..] && b == ([t] + b)[1..];
    }
  }

  // How a read goes on after its first frame: a frame that decodes is delivered, an empty one
  // ends the read with all that follows left, and after one that does not decode nothing is
  // left.
  lemma ReadLoopSteps<T>(body: seq<byte>, d: byte, rest: seq<byte>, f: seq<byte> -> Option<T>)
    requires d !in body
    ensures var r, more := ReadLoop(body + [d] + rest, d, f), ReadLoop(rest, d, f);
            && (body == [] ==> r == ([], rest))
            && (body != [] && f(body) == None ==> r == ([], []))
            && (body != [] && f(body).Some? ==> r == ([f(body).value] + more.0, more.1))
  {
    hide FirstCut;
    CutUnique(body, d, rest);
  }

  // Without a delimiter nothing is delivered and everything is left.
  lemma ReadLoopWaits<T>(buf: seq<byte>, d: byte, f: seq<byte> -> Option<T>)
    requires d !in buf
    ensures ReadLoop(buf, d, f) == ([], buf)
  {}
}
