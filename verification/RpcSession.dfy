/** Which request an answer belongs to: frames carry no number, so only their order in the stream tells. */
module RpcSession {
  import opened Integers
  import opened RpcProtocol
  import opened RpcRun
  import opened RpcEngine

  /** Answers of the right sizes for the first calls. */
  predicate AreAnswers(calls: seq<Call>, answers: seq<Bytes>) {
    && |answers| <= |calls|
    && forall k | 0 <= k < |answers| :: InCatalog(calls[k].id) && |answers[k]| == ResponseSize(calls[k].id)
  }

  /** What the client has taken from the stream when its calls so far have all returned true. */
  function Taken(calls: seq<Call>, answers: seq<Bytes>): Bytes
    requires AreAnswers(calls, answers)
  {
    if answers == [] then []
    else
      var n := |answers| - 1;
      Taken(calls, answers[..n]) + Frame(calls[n].id, answers[n])
  }

  /** A prefix of the calls is answered by a prefix of the responses. */
  lemma {:induction false} ResponsesPrefix<S(!new)>(calls: seq<Call>, h: Handler<S>, start: S, k: nat)
    requires Good(calls, h) && k < |calls|
    ensures Good(calls[..k], h)
    ensures Responses(calls[..k], h, start) + ResponseFrame(calls, h, start, k) <= Responses(calls, h, start)
    decreases |calls|
  {
    hide ResponseFrame;
    var n := |calls| - 1;
    if k < n {
      assert calls[..n][..k] == calls[..k];
      ResponsesPrefix(calls[..n], h, start, k);
      SameFrame(calls[..n], calls[n], h, start, k);
      assert calls[..n] + [calls[n]] == calls;
    }
  }

  lemma SameFrame<S(!new)>(calls: seq<Call>, c: Call, h: Handler<S>, start: S, k: nat)
    requires Good(calls, h) && Good(calls + [c], h) && k < |calls|
    ensures ResponseFrame(calls + [c], h, start, k) == ResponseFrame(calls, h, start, k)
  {
    StatesOfPrefix(calls, c, h, start, k);
  }

  /** Two frames of one call at the same place of a stream carry the same payload. */
  lemma SamePayload(id: u32, a: Bytes, b: Bytes, x: Bytes, y: Bytes)
    requires |a| == |b| <= 64 && Frame(id, a) + x == Frame(id, b) + y
    ensures a == b
  {
    hide Header;
    var s := Frame(id, a) + x;
    assert s[12..12 + |a|] == a;
    assert (Frame(id, b) + y)[12..12 + |b|] == b;
  }

  /**
   * On a connection whose stream holds the server's responses, or a front part of them: as long as every call of the
   * client has returned true, each answer is the one to its own request, and the next response is next in the stream.
   */
  lemma {:induction false} AnswersAreOwn<S(!new)>(calls: seq<Call>, h: Handler<S>, start: S, answers: seq<Bytes>, rest: Bytes)
    requires Good(calls, h) && AreAnswers(calls, answers)
    requires Taken(calls, answers) + rest <= Responses(calls, h, start)
    ensures forall k | 0 <= k < |answers| :: answers[k] == Reply(calls, h, start, k)
    ensures Taken(calls, answers) == Responses(calls[..|answers|], h, start)
    decreases |answers|
  {
    hide Frame, Header, Good, ResponseFrame, Reply;
    if answers == [] {
      assert calls[..0] == [];
    } else {
      var n := |answers| - 1;
      var front, frame := Taken(calls, answers[..n]), Frame(calls[n].id, answers[n]);
      assert front + (frame + rest) == Taken(calls, answers) + rest;
      AnswersAreOwn(calls, h, start, answers[..n], frame + rest);
      ResponsesPrefix(calls, h, start, n);
      NextIsOwn(calls, h, start, n, answers[n], front, rest);
      PrefixResponses(calls, h, start, n);
      forall k | 0 <= k < |answers|
        ensures answers[k] == Reply(calls, h, start, k)
      {
        if k < n {
          assert answers[k] == answers[..n][k];
        }
      }
    }
  }

  /** Behind the responses to the earlier calls, only the call's own response can follow. */
  lemma NextIsOwn<S(!new)>(calls: seq<Call>, h: Handler<S>, start: S, n: nat, answer: Bytes, front: Bytes, rest: Bytes)
    requires Good(calls, h) && n < |calls| && InCatalog(calls[n].id) && |answer| == ResponseSize(calls[n].id)
    requires front + (Frame(calls[n].id, answer) + rest) <= Responses(calls, h, start)
    requires front + ResponseFrame(calls, h, start, n) <= Responses(calls, h, start)
    ensures answer == Reply(calls, h, start, n) && Frame(calls[n].id, answer) == ResponseFrame(calls, h, start, n)
  {
    hide Frame, Responses, Reply;
    ReplySize(calls, h, start, n);
    FramesMeet(calls[n].id, answer, Reply(calls, h, start, n), front, rest, Responses(calls, h, start));
  }

  /** Two frames of one call at the same place of a stream are the same frame. */
  lemma FramesMeet(id: u32, a: Bytes, b: Bytes, front: Bytes, rest: Bytes, all: Bytes)
    requires |a| == |b| <= 64 && front + (Frame(id, a) + rest) <= all && front + Frame(id, b) <= all
    ensures a == b
  {
    hide Frame;
    var frame, right := Frame(id, a), Frame(id, b);
    var x, y := Rest(front, frame + rest, all), Rest(front, right, all);
    Cancel(front, frame + rest + x, right + y);
    assert frame + rest + x == frame + (rest + x);
    SamePayload(id, a, b, rest + x, y);
  }

  lemma ReplySize<S(!new)>(calls: seq<Call>, h: Handler<S>, start: S, n: nat)
    requires Good(calls, h) && n < |calls|
    ensures |Reply(calls, h, start, n)| == ResponseSize(calls[n].id) <= 64
  {
    assert IsCall(calls[n]);
  }

  function Rest(front: Bytes, next: Bytes, all: Bytes): (rest: Bytes)
    requires front + next <= all
    ensures all == front + (next + rest)
  {
    var rest := all[|front + next|..];
    assert all == (front + next) + rest;
    rest
  }

  lemma Cancel(front: Bytes, a: Bytes, b: Bytes)
    requires front + a == front + b
    ensures a == b
  {
    assert a == (front + a)[|front|..];
    assert b == (front + b)[|front|..];
  }

  lemma PrefixResponses<S(!new)>(calls: seq<Call>, h: Handler<S>, start: S, n: nat)
    requires Good(calls, h) && n < |calls|
    ensures Good(calls[..n], h) && Good(calls[..n + 1], h)
    ensures Responses(calls[..n + 1], h, start) == Responses(calls[..n], h, start) + ResponseFrame(calls, h, start, n)
  {
    hide ResponseFrame;
    assert calls[..n + 1][..n] == calls[..n];
    SameLast(calls, h, start, n);
  }

  lemma {:induction false} SameLast<S(!new)>(calls: seq<Call>, h: Handler<S>, start: S, n: nat)
    requires Good(calls, h) && n < |calls|
    ensures Good(calls[..n + 1], h) && ResponseFrame(calls[..n + 1], h, start, n) == ResponseFrame(calls, h, start, n)
    decreases |calls|
  {
    hide ResponseFrame;
    if n + 1 == |calls| {
      assert calls[..n + 1] == calls;
    } else {
      var m := |calls| - 1;
      assert calls[..m][..n + 1] == calls[..n + 1] && calls[..m] + [calls[m]] == calls;
      SameLast(calls[..m], h, start, n);
      SameFrame(calls[..m], calls[m], h, start, n);
    }
  }

  /**
   * A call fails while reading, before anything of its answer is taken. The next call with the same id is sent and
   * returns true, but with the answer to the earlier request; its own answer is left in the stream.
   */
  method StaleAnswer(engine: Engine, id: u32, request1: Bytes, request2: Bytes, ghost earlier: Bytes, ghost own: Bytes)
    returns (first: bool, second: bool, response: Bytes)
    requires InCatalog(id) && |request1| == |request2| == RequestSize(id) && |earlier| == |own| == ResponseSize(id)
    requires engine.fd.incoming == Frame(id, earlier) + Frame(id, own)
    requires SendsThenFails(engine.fd.schedule, |request1|)
    requires
      var later := engine.fd.schedule[FrameWrites(|request1|) + 1..];
      Willing(later) && Turns(later) >= 152
    modifies engine, engine.fd
    ensures !first && second && response == earlier
    ensures engine.fd.sent == old(engine.fd.sent) + Frame(id, request1) + Frame(id, request2)
    ensures engine.fd.incoming == Frame(id, own)
  {
    hide Frame, Header;
    var none;
    first, none := CallApi(engine, id, request1);
    ghost var stream := engine.fd.incoming;
    assert Frame(id, earlier) <= stream;
    second, response := CallApi(engine, id, request2);
    SamePayload(id, response, earlier, engine.fd.incoming, Frame(id, own));
    Cancel(Frame(id, earlier), engine.fd.incoming, Frame(id, own));
  }

  // ----- positions in the stream -------------------------------------------------------------------------------------

  /** Where the response to call k begins in the server's stream. */
  ghost function Position<S(!new)>(calls: seq<Call>, h: Handler<S>, start: S, k: nat): (p: nat)
    requires Good(calls, h) && k <= |calls|
    ensures p <= |Responses(calls, h, start)|
  {
    PrefixOfResponses(calls, h, start, k);
    |Responses(calls[..k], h, start)|
  }

  lemma PrefixOfResponses<S(!new)>(calls: seq<Call>, h: Handler<S>, start: S, k: nat)
    requires Good(calls, h) && k <= |calls|
    ensures Good(calls[..k], h) && Responses(calls[..k], h, start) <= Responses(calls, h, start)
  {
    hide Responses, ResponseFrame;
    if k < |calls| {
      ResponsesPrefix(calls, h, start, k);
      Shorter(Responses(calls[..k], h, start), ResponseFrame(calls, h, start, k), Responses(calls, h, start));
    } else {
      assert calls[..k] == calls;
    }
  }

  lemma Shorter(a: Bytes, b: Bytes, c: Bytes)
    requires a + b <= c
    ensures a <= c
  {
  }

  /** Later responses begin later. */
  lemma {:induction false} PositionsGrow<S(!new)>(calls: seq<Call>, h: Handler<S>, start: S, j: nat, k: nat)
    requires Good(calls, h) && j < k <= |calls|
    ensures Position(calls, h, start, j) + 12 <= Position(calls, h, start, k)
    decreases k
  {
    hide Responses, Header;
    PrefixResponses(calls, h, start, k - 1);
    ReplySize(calls, h, start, k - 1);
    if j < k - 1 {
      PositionsGrow(calls, h, start, j, k - 1);
    }
  }

  /** What stands at a position is the frame of the response that begins there. */
  lemma FrameAt<S(!new)>(calls: seq<Call>, h: Handler<S>, start: S, j: nat)
    requires Good(calls, h) && j < |calls|
    ensures ResponseFrame(calls, h, start, j) <= Responses(calls, h, start)[Position(calls, h, start, j)..]
    ensures Position(calls, h, start, j) + |ResponseFrame(calls, h, start, j)| == Position(calls, h, start, j + 1)
  {
    hide Responses, ResponseFrame;
    ResponsesPrefix(calls, h, start, j);
    PrefixResponses(calls, h, start, j);
    var front, frame, all := Responses(calls[..j], h, start), ResponseFrame(calls, h, start, j), Responses(calls, h, start);
    assert (front + frame)[|front|..] == frame;
  }

  /**
   * A call takes its frame from the stream at the beginning of the response to call j: it gets the reply to call j, and
   * that is the response to its own request k exactly when as many bytes came before as the earlier responses have.
   */
  lemma TakesOwnExactly<S(!new)>(calls: seq<Call>, h: Handler<S>, start: S, j: nat, k: nat, answer: Bytes, rest: Bytes)
    requires Good(calls, h) && j < |calls| && k < |calls| && |answer| == ResponseSize(calls[k].id)
    requires Responses(calls, h, start)[Position(calls, h, start, j)..] == Frame(calls[k].id, answer) + rest
    ensures calls[j].id == calls[k].id && answer == Reply(calls, h, start, j)
    ensures rest == Responses(calls, h, start)[Position(calls, h, start, j + 1)..]
    ensures j == k <==> Position(calls, h, start, j) == Position(calls, h, start, k)
  {
    hide Responses, Position, Header, Reply;
    FrameAt(calls, h, start, j);
    ReplySize(calls, h, start, j);
    ReplySize(calls, h, start, k);
    var stream := Responses(calls, h, start)[Position(calls, h, start, j)..];
    SameId(calls[j].id, calls[k].id, Reply(calls, h, start, j), answer, stream);
    var frame := Frame(calls[k].id, answer);
    SamePayload(calls[k].id, answer, Reply(calls, h, start, j), rest, stream[|frame|..]);
    assert stream[|frame|..] == rest;
    if j < k {
      PositionsGrow(calls, h, start, j, k);
    } else if k < j {
      PositionsGrow(calls, h, start, k, j);
    }
  }

  /** Two frames at the front of one stream have the same id. */
  lemma SameId(id1: u32, id2: u32, a: Bytes, b: Bytes, stream: Bytes)
    requires |a| <= 64 && |b| <= 64 && Frame(id1, a) <= stream && Frame(id2, b) <= stream
    ensures id1 == id2
  {
    hide Header;
    HeaderRoundTrip(id1, |a|);
    HeaderRoundTrip(id2, |b|);
    assert stream[..12] == Frame(id1, a)[..12] == Header(id1, |a|);
    assert stream[..12] == Frame(id2, b)[..12] == Header(id2, |b|);
  }
}
