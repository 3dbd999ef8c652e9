/** Client and server in lockstep over two byte streams, with the fragmentation chosen by an adversary. */
module RpcRun {
  import opened Integers
  import opened RpcProtocol

  /** One call of the catalog with the bytes of its request structure. */
  datatype Call = Call(id: u32, request: Bytes)

  predicate IsCall(c: Call) {
    InCatalog(c.id) && |c.request| == RequestSize(c.id)
  }

  /** What the server does for a call, in the firmware's current state: the next state and the response bytes. */
  type Handler<!S> = (S, u32, Bytes) -> (S, Bytes)

  ghost predicate SoundHandler<S(!new)>(h: Handler<S>) {
    forall s: S, id: u32, r: Bytes {:trigger h(s, id, r)} ::
      InCatalog(id) && |r| == RequestSize(id) ==> |h(s, id, r).1| == ResponseSize(id)
  }

  // ----- the two machines --------------------------------------------------------------------------------------

  /** The client works through its calls; got holds the bytes of the header or payload read so far. */
  datatype Client =
    | Sending(rest: Bytes)
    | AwaitHeader(got: Bytes)
    | AwaitPayload(got: Bytes)
    | Finished
    | Failed

  datatype Server<S> =
    | Listening(st: S, got: Bytes)
    | Receiving(st: S, id: u32, got: Bytes)
    | Answering(st: S, rest: Bytes)
    | Closed(st: S)

  /** up and down are the bytes in flight to the server and to the client. */
  datatype System<S> = System(done: nat, results: seq<Bytes>, client: Client, up: Bytes, down: Bytes, server: Server<S>)

  /** One step: a side moves n bytes of the write or read it is at, or a call is interrupted. */
  datatype Action = ClientMoves(n: nat) | ServerMoves(n: nat) | Interrupted

  function RequestFrame(c: Call): (f: Bytes)
    requires IsCall(c)
  {
    Frame(c.id, c.request)
  }

  function NextCall(calls: seq<Call>, i: nat): Client
    requires forall k :: 0 <= k < |calls| ==> IsCall(calls[k])
  {
    if i < |calls| then Sending(RequestFrame(calls[i])) else Finished
  }

  /** call: what follows the header of a response. */
  function AfterResponseHeader(c: Call, h: Bytes): Client
    requires IsCall(c) && |h| == 12
  {
    if MagicOf(h) != MAGIC || SizeOf(h) > 64 then Failed
    else if IdOf(h) != c.id || SizeOf(h) != ResponseSize(c.id) then Failed
    else AwaitPayload([])
  }

  function Answer<S>(h: Handler<S>, st: S, id: u32, request: Bytes): Server<S> {
    var (next, response) := h(st, id, request);
    if |response| <= 64 then Answering(next, Frame(id, response)) else Closed(next)
  }

  /** serve_client and dispatch: what follows the header of a request. */
  function AfterRequestHeader<S>(h: Handler<S>, st: S, header: Bytes): Server<S>
    requires |header| == 12
  {
    var id := IdOf(header);
    if MagicOf(header) != MAGIC || SizeOf(header) > 64 then Closed(st)
    else if !InCatalog(id) || SizeOf(header) != RequestSize(id) then Closed(st)
    else if RequestSize(id) == 0 then Answer(h, st, id, [])
    else Receiving(st, id, [])
  }

  predicate Enabled<S>(calls: seq<Call>, sys: System<S>, a: Action) {
    match a
    case Interrupted => true
    case ClientMoves(n) =>
      n > 0 && (
        match sys.client
        case Sending(rest) => n <= |rest|
        case AwaitHeader(got) => n <= |sys.down| && |got| + n <= 12 && sys.done < |calls|
        case AwaitPayload(got) =>
          n <= |sys.down| && sys.done < |calls| && IsCall(calls[sys.done]) && |got| + n <= ResponseSize(calls[sys.done].id)
        case _ => false)
    case ServerMoves(n) =>
      n > 0 && (
        match sys.server
        case Listening(_, got) => n <= |sys.up| && |got| + n <= 12
        case Receiving(_, id, got) => n <= |sys.up| && InCatalog(id) && |got| + n <= RequestSize(id)
        case Answering(_, rest) => n <= |rest|
        case Closed(_) => false)
  }

  function ClientStep<S>(calls: seq<Call>, sys: System<S>, n: nat): System<S>
    requires (forall k :: 0 <= k < |calls| ==> IsCall(calls[k])) && Enabled(calls, sys, ClientMoves(n))
  {
    match sys.client
    case Sending(rest) =>
      sys.(up := sys.up + rest[..n], client := if n == |rest| then AwaitHeader([]) else Sending(rest[n..]))
    case AwaitHeader(got) =>
      var got' := got + sys.down[..n];
      sys.(down := sys.down[n..],
           client := if |got'| == 12 then AfterResponseHeader(calls[sys.done], got') else AwaitHeader(got'))
    case AwaitPayload(got) =>
      var got' := got + sys.down[..n];
      if |got'| == ResponseSize(calls[sys.done].id)
      then sys.(down := sys.down[n..], results := sys.results + [got'], done := sys.done + 1,
                client := NextCall(calls, sys.done + 1))
      else sys.(down := sys.down[n..], client := AwaitPayload(got'))
  }

  function ServerStep<S>(calls: seq<Call>, h: Handler<S>, sys: System<S>, n: nat): System<S>
    requires Enabled(calls, sys, ServerMoves(n))
  {
    match sys.server
    case Listening(st, got) =>
      var got' := got + sys.up[..n];
      sys.(up := sys.up[n..], server := if |got'| == 12 then AfterRequestHeader(h, st, got') else Listening(st, got'))
    case Receiving(st, id, got) =>
      var got' := got + sys.up[..n];
      sys.(up := sys.up[n..],
           server := if |got'| == RequestSize(id) then Answer(h, st, id, got') else Receiving(st, id, got'))
    case Answering(st, rest) =>
      sys.(down := sys.down + rest[..n], server := if n == |rest| then Listening(st, []) else Answering(st, rest[n..]))
  }

  function Step<S>(calls: seq<Call>, h: Handler<S>, sys: System<S>, a: Action): System<S>
    requires (forall k :: 0 <= k < |calls| ==> IsCall(calls[k])) && Enabled(calls, sys, a)
  {
    match a
    case Interrupted => sys
    case ClientMoves(n) => ClientStep(calls, sys, n)
    case ServerMoves(n) => ServerStep(calls, h, sys, n)
  }

  // ----- what should come out -------------------------------------------------------------------------------------

  /** The firmware state after the first i calls, taken one after the other. */
  ghost function StateAfter<S>(calls: seq<Call>, h: Handler<S>, start: S, i: nat): S
    requires i <= |calls|
  {
    if i == 0 then start else h(StateAfter(calls, h, start, i - 1), calls[i - 1].id, calls[i - 1].request).0
  }

  /** The response that call i deserves. */
  ghost function Reply<S>(calls: seq<Call>, h: Handler<S>, start: S, i: nat): Bytes
    requires i < |calls|
  {
    h(StateAfter(calls, h, start, i), calls[i].id, calls[i].request).1
  }

  // ----- the invariant ----------------------------------------------------------------------------------------------

  ghost predicate Good<S(!new)>(calls: seq<Call>, h: Handler<S>) {
    SoundHandler(h) && forall k :: 0 <= k < |calls| ==> IsCall(calls[k])
  }

  /** Everything up to the current call is settled. */
  ghost predicate Settled<S(!new)>(calls: seq<Call>, h: Handler<S>, start: S, sys: System<S>)
    requires Good(calls, h)
  {
    && |sys.results| == sys.done <= |calls|
    && forall k :: 0 <= k < sys.done ==> sys.results[k] == Reply(calls, h, start, k)
  }

  /** The request is on its way: what the server has read, what is in flight and what the client still has to send. */
  ghost predicate Requesting<S(!new)>(calls: seq<Call>, h: Handler<S>, start: S, sys: System<S>, read: Bytes, unsent: Bytes)
    requires Good(calls, h)
  {
    && sys.done < |calls|
    && read + sys.up + unsent == RequestFrame(calls[sys.done])
    && sys.down == []
    && sys.client == (if unsent != [] then Sending(unsent) else AwaitHeader([]))
    && var st := StateAfter(calls, h, start, sys.done);
    (sys.server == Listening(st, read) && |read| < 12) ||
    (|read| >= 12 && read[..12] == RequestFrame(calls[sys.done])[..12] && |read| < |RequestFrame(calls[sys.done])|
     && sys.server == Receiving(st, calls[sys.done].id, read[12..]))
  }

  ghost function ResponseFrame<S(!new)>(calls: seq<Call>, h: Handler<S>, start: S, i: nat): Bytes
    requires Good(calls, h) && i < |calls|
  {
    Frame(calls[i].id, Reply(calls, h, start, i))
  }

  /** The response is on its way back. */
  ghost predicate Responding<S(!new)>(calls: seq<Call>, h: Handler<S>, start: S, sys: System<S>, read: Bytes, unsent: Bytes)
    requires Good(calls, h)
  {
    && sys.done < |calls|
    && read + sys.down + unsent == ResponseFrame(calls, h, start, sys.done)
    && sys.up == []
    && (var st := StateAfter(calls, h, start, sys.done + 1);
        sys.server == if unsent != [] then Answering(st, unsent) else Listening(st, []))
    && ((sys.client == AwaitHeader(read) && |read| < 12) ||
        (|read| >= 12 && |read| < |ResponseFrame(calls, h, start, sys.done)| && sys.client == AwaitPayload(read[12..])))
  }

  ghost predicate Over<S(!new)>(calls: seq<Call>, h: Handler<S>, start: S, sys: System<S>)
    requires Good(calls, h)
  {
    && sys.done == |calls| && sys.client == Finished && sys.up == [] && sys.down == []
    && sys.server == Listening(StateAfter(calls, h, start, |calls|), [])
  }

  ghost predicate InStep<S(!new)>(calls: seq<Call>, h: Handler<S>, start: S, sys: System<S>)
    requires Good(calls, h)
  {
    && Settled(calls, h, start, sys)
    && ((exists read: Bytes, unsent: Bytes :: Requesting(calls, h, start, sys, read, unsent))
        || (exists read: Bytes, unsent: Bytes :: Responding(calls, h, start, sys, read, unsent))
        || Over(calls, h, start, sys))
  }

  // ----- every step keeps the invariant ------------------------------------------------------------------------------

  lemma MoveBytes(a: Bytes, b: Bytes, c: Bytes, n: nat)
    requires n <= |c|
    ensures a + (b + c[..n]) + c[n..] == a + b + c
  {
  }

  lemma TakeBytes(a: Bytes, b: Bytes, c: Bytes, n: nat)
    requires n <= |b|
    ensures (a + b[..n]) + b[n..] + c == a + b + c
  {
  }

  lemma ClientSends<S(!new)>(calls: seq<Call>, h: Handler<S>, start: S, sys: System<S>, read: Bytes, unsent: Bytes, n: nat)
    requires Good(calls, h) && Settled(calls, h, start, sys) && Requesting(calls, h, start, sys, read, unsent)
    requires Enabled(calls, sys, ClientMoves(n))
    ensures InStep(calls, h, start, Step(calls, h, sys, ClientMoves(n)))
  {
    hide RequestFrame, StateAfter, SoundHandler, Reply;
    var next := Step(calls, h, sys, ClientMoves(n));
    MoveBytes(read, sys.up, unsent, n);
    assert n == |unsent| ==> unsent[n..] == [];
    assert Requesting(calls, h, start, next, read, unsent[n..]);
  }

  /** A request header, complete, is taken for what it is. */
  lemma RequestHeaderRead<S>(h: Handler<S>, st: S, c: Call, header: Bytes)
    requires IsCall(c) && header == RequestFrame(c)[..12]
    ensures
      AfterRequestHeader(h, st, header) ==
      if RequestSize(c.id) == 0 then Answer(h, st, c.id, []) else Receiving(st, c.id, [])
  {
    hide Header, Answer;
    assert header == Header(c.id, |c.request|);
    HeaderRoundTrip(c.id, |c.request|);
  }

  lemma FrameParts(id: u32, payload: Bytes)
    requires |payload| <= 64
    ensures Frame(id, payload)[..12] == Header(id, |payload|) && Frame(id, payload)[12..] == payload
  {
    hide Header;
  }

  /** The request is complete, and the handler's answer goes out. */
  lemma RequestComplete<S(!new)>(calls: seq<Call>, h: Handler<S>, start: S, sys: System<S>, next: System<S>)
    requires Good(calls, h) && Settled(calls, h, start, sys) && sys.done < |calls|
    requires sys.client == AwaitHeader([]) && sys.down == []
    requires
      var c := calls[sys.done];
      next == sys.(up := [], server := Answer(h, StateAfter(calls, h, start, sys.done), c.id, c.request))
    ensures InStep(calls, h, start, next)
  {
    hide Frame;
    var c := calls[sys.done];
    var st := StateAfter(calls, h, start, sys.done);
    assert |h(st, c.id, c.request).1| == ResponseSize(c.id);
    assert h(st, c.id, c.request).1 == Reply(calls, h, start, sys.done);
    assert StateAfter(calls, h, start, sys.done + 1) == h(st, c.id, c.request).0;
    var f := ResponseFrame(calls, h, start, sys.done);
    assert [] + [] + f == f;
    hide StateAfter, Reply, SoundHandler;
    assert Responding(calls, h, start, next, [], f);
  }

  lemma ServerReads<S(!new)>(calls: seq<Call>, h: Handler<S>, start: S, sys: System<S>, read: Bytes, unsent: Bytes, n: nat)
    requires Good(calls, h) && Settled(calls, h, start, sys) && Requesting(calls, h, start, sys, read, unsent)
    requires Enabled(calls, sys, ServerMoves(n))
    ensures InStep(calls, h, start, Step(calls, h, sys, ServerMoves(n)))
  {
    hide RequestFrame, StateAfter, SoundHandler, Reply, AfterRequestHeader, Answer;
    var c := calls[sys.done];
    var st := StateAfter(calls, h, start, sys.done);
    var f := RequestFrame(c);
    var next := Step(calls, h, sys, ServerMoves(n));
    var read' := read + sys.up[..n];
    TakeBytes(read, sys.up, unsent, n);
    PrefixOf(read', sys.up[n..], unsent, f);
    RequestParts(c);
    if |read'| < 12 {
      assert Requesting(calls, h, start, next, read', unsent);
    } else {
      HeadPrefix(read', f, 12);
      if |read| < 12 {
        assert read' == f[..12];
        RequestHeaderRead(h, st, c, read');
      } else {
        assert read'[12..] == read[12..] + sys.up[..n];
      }
      if |read'| < |f| {
        assert |read| < 12 ==> read'[12..] == [];
        assert Requesting(calls, h, start, next, read', unsent);
      } else {
        assert read' == f && sys.up[n..] == [] && unsent == [];
        assert f[12..] == c.request;
        RequestComplete(calls, h, start, sys, next);
      }
    }
  }

  lemma RequestParts(c: Call)
    requires IsCall(c)
    ensures |RequestFrame(c)| == 12 + RequestSize(c.id) && RequestFrame(c)[12..] == c.request
  {
    FrameParts(c.id, c.request);
  }

  /** The part that was read is the front of the frame. */
  lemma PrefixOf(read: Bytes, flight: Bytes, unsent: Bytes, f: Bytes)
    requires read + flight + unsent == f
    ensures |read| <= |f| && read == f[..|read|] && (|read| == |f| ==> flight == [] && unsent == [] && read == f)
  {
  }

  lemma HeadPrefix(read: Bytes, f: Bytes, k: nat)
    requires |read| <= |f| && read == f[..|read|] && k <= |read|
    ensures read[..k] == f[..k]
  {
  }

  lemma ServerSends<S(!new)>(calls: seq<Call>, h: Handler<S>, start: S, sys: System<S>, read: Bytes, unsent: Bytes, n: nat)
    requires Good(calls, h) && Settled(calls, h, start, sys) && Responding(calls, h, start, sys, read, unsent)
    requires Enabled(calls, sys, ServerMoves(n))
    ensures InStep(calls, h, start, Step(calls, h, sys, ServerMoves(n)))
  {
    hide ResponseFrame, StateAfter, SoundHandler, Reply;
    var next := Step(calls, h, sys, ServerMoves(n));
    MoveBytes(read, sys.down, unsent, n);
    assert n == |unsent| ==> unsent[n..] == [];
    assert Responding(calls, h, start, next, read, unsent[n..]);
  }

  lemma ResponseParts<S(!new)>(calls: seq<Call>, h: Handler<S>, start: S, i: nat)
    requires Good(calls, h) && i < |calls|
    ensures
      var f := ResponseFrame(calls, h, start, i);
      && |f| == 12 + ResponseSize(calls[i].id) && f[12..] == Reply(calls, h, start, i)
      && AfterResponseHeader(calls[i], f[..12]) == AwaitPayload([])
  {
    hide Header, StateAfter;
    var c, r := calls[i], Reply(calls, h, start, i);
    assert |h(StateAfter(calls, h, start, i), c.id, c.request).1| == ResponseSize(c.id);
    FrameParts(c.id, r);
    HeaderRoundTrip(c.id, |r|);
  }

  /** The response is complete: its result is recorded, and the next request is ready. */
  lemma ResponseComplete<S(!new)>(calls: seq<Call>, h: Handler<S>, start: S, sys: System<S>, next: System<S>)
    requires Good(calls, h) && Settled(calls, h, start, sys) && sys.done < |calls| && sys.up == []
    requires sys.server == Listening(StateAfter(calls, h, start, sys.done + 1), [])
    requires next == sys.(down := [], results := sys.results + [Reply(calls, h, start, sys.done)], done := sys.done + 1,
                          client := NextCall(calls, sys.done + 1))
    ensures InStep(calls, h, start, next)
  {
    hide StateAfter, SoundHandler, Reply, RequestFrame;
    assert Settled(calls, h, start, next);
    if next.done < |calls| {
      var f := RequestFrame(calls[next.done]);
      RequestParts(calls[next.done]);
      assert [] + [] + f == f;
      assert Requesting(calls, h, start, next, [], f);
    }
  }

  lemma ClientReads<S(!new)>(calls: seq<Call>, h: Handler<S>, start: S, sys: System<S>, read: Bytes, unsent: Bytes, n: nat)
    requires Good(calls, h) && Settled(calls, h, start, sys) && Responding(calls, h, start, sys, read, unsent)
    requires Enabled(calls, sys, ClientMoves(n))
    ensures InStep(calls, h, start, Step(calls, h, sys, ClientMoves(n)))
  {
    hide ResponseFrame, StateAfter, SoundHandler, Reply, AfterResponseHeader, NextCall;
    var c := calls[sys.done];
    var f := ResponseFrame(calls, h, start, sys.done);
    var next := Step(calls, h, sys, ClientMoves(n));
    var read' := read + sys.down[..n];
    TakeBytes(read, sys.down, unsent, n);
    PrefixOf(read', sys.down[n..], unsent, f);
    ResponseParts(calls, h, start, sys.done);
    if |read'| < 12 {
      assert Responding(calls, h, start, next, read', unsent);
    } else {
      HeadPrefix(read', f, 12);
      if |read| < 12 {
        assert read' == f[..12];
        assert read'[12..] == [];
      } else {
        assert read'[12..] == read[12..] + sys.down[..n];
      }
      if |read'| < |f| {
        assert Responding(calls, h, start, next, read', unsent);
      } else {
        assert read' == f && sys.down[n..] == [] && unsent == [];
        ResponseComplete(calls, h, start, sys, next);
      }
    }
  }

  /** Every step keeps client and server in step. */
  lemma StepKeeps<S(!new)>(calls: seq<Call>, h: Handler<S>, start: S, sys: System<S>, a: Action)
    requires Good(calls, h) && InStep(calls, h, start, sys) && Enabled(calls, sys, a)
    ensures InStep(calls, h, start, Step(calls, h, sys, a))
  {
    hide RequestFrame, ResponseFrame, StateAfter, SoundHandler, Reply;
    if a.Interrupted? {
    } else if read: Bytes, unsent: Bytes :| Requesting(calls, h, start, sys, read, unsent) {
      if a.ClientMoves? {
        ClientSends(calls, h, start, sys, read, unsent, a.n);
      } else {
        ServerReads(calls, h, start, sys, read, unsent, a.n);
      }
    } else if read: Bytes, unsent: Bytes :| Responding(calls, h, start, sys, read, unsent) {
      if a.ClientMoves? {
        ClientReads(calls, h, start, sys, read, unsent, a.n);
      } else {
        ServerSends(calls, h, start, sys, read, unsent, a.n);
      }
    }
  }

  // ----- whole runs ------------------------------------------------------------------------------------------------------

  function Initial<S>(calls: seq<Call>, start: S): System<S>
    requires forall k :: 0 <= k < |calls| ==> IsCall(calls[k])
  {
    System(0, [], NextCall(calls, 0), [], [], Listening(start, []))
  }

  /** A run: every action is enabled in the state that the ones before it lead to. */
  ghost predicate IsRun<S>(calls: seq<Call>, h: Handler<S>, sys: System<S>, actions: seq<Action>)
    requires forall k :: 0 <= k < |calls| ==> IsCall(calls[k])
    decreases |actions|
  {
    actions == [] || (Enabled(calls, sys, actions[0]) && IsRun(calls, h, Step(calls, h, sys, actions[0]), actions[1..]))
  }

  ghost function AfterRun<S>(calls: seq<Call>, h: Handler<S>, sys: System<S>, actions: seq<Action>): System<S>
    requires (forall k :: 0 <= k < |calls| ==> IsCall(calls[k])) && IsRun(calls, h, sys, actions)
    decreases |actions|
  {
    if actions == [] then sys else AfterRun(calls, h, Step(calls, h, sys, actions[0]), actions[1..])
  }

  lemma InitiallyInStep<S(!new)>(calls: seq<Call>, h: Handler<S>, start: S)
    requires Good(calls, h)
    ensures InStep(calls, h, start, Initial(calls, start))
  {
    hide RequestFrame;
    var sys := Initial(calls, start);
    if |calls| > 0 {
      var f := RequestFrame(calls[0]);
      RequestParts(calls[0]);
      assert [] + [] + f == f;
      assert Requesting(calls, h, start, sys, [], f);
    }
  }

  lemma {:induction false} RunKeeps<S(!new)>(calls: seq<Call>, h: Handler<S>, start: S, sys: System<S>, actions: seq<Action>)
    requires Good(calls, h) && InStep(calls, h, start, sys) && IsRun(calls, h, sys, actions)
    ensures InStep(calls, h, start, AfterRun(calls, h, sys, actions))
    decreases |actions|
  {
    hide InStep, Step;
    if actions != [] {
      StepKeeps(calls, h, start, sys, actions[0]);
      RunKeeps(calls, h, start, Step(calls, h, sys, actions[0]), actions[1..]);
    }
  }

  /** In step, neither side ever gives up. */
  lemma NeverFails<S(!new)>(calls: seq<Call>, h: Handler<S>, start: S, sys: System<S>)
    requires Good(calls, h) && InStep(calls, h, start, sys)
    ensures !sys.client.Failed? && !sys.server.Closed?
    ensures sys.client == Finished <==> sys.done == |calls|
    ensures sys.done <= |calls| == |sys.results| + (|calls| - sys.done)
    ensures forall k :: 0 <= k < sys.done ==> sys.results[k] == Reply(calls, h, start, k)
  {
    hide RequestFrame, ResponseFrame, StateAfter, SoundHandler, Reply;
  }

  /** When a call has not begun, or all are over, no byte is left in either direction and the server awaits a header. */
  lemma QuietBetweenCalls<S(!new)>(calls: seq<Call>, h: Handler<S>, start: S, sys: System<S>)
    requires Good(calls, h) && InStep(calls, h, start, sys) && sys.client == NextCall(calls, sys.done)
    ensures sys.up == [] && sys.down == [] && sys.done <= |calls|
    ensures sys.server == Listening(StateAfter(calls, h, start, sys.done), [])
  {
    hide RequestFrame, ResponseFrame, StateAfter, SoundHandler, Reply;
    if sys.done < |calls| {
      var f := RequestFrame(calls[sys.done]);
      if read: Bytes, unsent: Bytes :| Requesting(calls, h, start, sys, read, unsent) {
        assert |read + sys.up + unsent| == |f|;
      }
    }
  }

  /** The server takes twelve bytes for a header only where a request begins. */
  lemma HeadersAtBoundaries<S(!new)>(calls: seq<Call>, h: Handler<S>, start: S, sys: System<S>, n: nat)
    requires Good(calls, h) && InStep(calls, h, start, sys) && Enabled(calls, sys, ServerMoves(n))
    requires sys.server.Listening? && |sys.server.got| + n == 12
    ensures sys.done < |calls| && sys.server.got + sys.up[..n] == RequestFrame(calls[sys.done])[..12]
  {
    hide RequestFrame, ResponseFrame, StateAfter, SoundHandler, Reply;
    if read: Bytes, unsent: Bytes :| Requesting(calls, h, start, sys, read, unsent) {
      TakeBytes(read, sys.up, unsent, n);
      PrefixOf(read + sys.up[..n], sys.up[n..], unsent, RequestFrame(calls[sys.done]));
    }
  }

  // ----- progress ---------------------------------------------------------------------------------------------------------

  /** Byte moves, writes and reads, of all calls from i on. */
  function WorkFrom(calls: seq<Call>, i: nat): nat
    requires forall k :: 0 <= k < |calls| ==> IsCall(calls[k])
    decreases |calls| - i
  {
    if i >= |calls| then 0
    else 2 * |RequestFrame(calls[i])| + 2 * (12 + ResponseSize(calls[i].id)) + WorkFrom(calls, i + 1)
  }

  /** Byte moves still to be made. */
  function Work<S>(calls: seq<Call>, sys: System<S>): nat
    requires forall k :: 0 <= k < |calls| ==> IsCall(calls[k])
  {
    if sys.done >= |calls| then 0
    else
      assert IsCall(calls[sys.done]);
      var answer := 2 * (12 + ResponseSize(calls[sys.done].id));
      WorkFrom(calls, sys.done + 1) +
      match sys.client
      case Sending(rest) => 2 * |rest| + |sys.up| + answer
      case _ =>
        if sys.up != [] then |sys.up| + answer
        else |sys.down| + if sys.server.Answering? then 2 * |sys.server.rest| else 0
  }

  lemma SendingWorks<S(!new)>(calls: seq<Call>, h: Handler<S>, start: S, sys: System<S>, read: Bytes, unsent: Bytes, a: Action)
    requires Good(calls, h) && Settled(calls, h, start, sys) && Requesting(calls, h, start, sys, read, unsent)
    requires Enabled(calls, sys, a) && !a.Interrupted?
    ensures Work(calls, Step(calls, h, sys, a)) == Work(calls, sys) - a.n
  {
    hide RequestFrame, StateAfter, SoundHandler, Reply, AfterRequestHeader, Answer;
    var c := calls[sys.done];
    var f := RequestFrame(c);
    var st := StateAfter(calls, h, start, sys.done);
    RequestParts(c);
    if a.ServerMoves? {
      var read' := read + sys.up[..a.n];
      TakeBytes(read, sys.up, unsent, a.n);
      PrefixOf(read', sys.up[a.n..], unsent, f);
      if |read'| >= 12 && |read| < 12 {
        assert read' == f[..12];
        RequestHeaderRead(h, st, c, read');
      }
      if |read'| == |f| {
        AnswerLength(calls, h, st, c);
        assert |read| >= 12 ==> read[12..] + sys.up[..a.n] == c.request by {
          assert read'[12..] == f[12..];
          assert |read| >= 12 ==> read'[12..] == read[12..] + sys.up[..a.n];
        }
      }
    }
  }

  lemma AnswerLength<S(!new)>(calls: seq<Call>, h: Handler<S>, st: S, c: Call)
    requires Good(calls, h) && IsCall(c)
    ensures
      var s := Answer(h, st, c.id, c.request);
      s.Answering? && |s.rest| == 12 + ResponseSize(c.id)
  {
    assert |h(st, c.id, c.request).1| == ResponseSize(c.id);
  }

  lemma AnsweringWorks<S(!new)>(calls: seq<Call>, h: Handler<S>, start: S, sys: System<S>, read: Bytes, unsent: Bytes, a: Action)
    requires Good(calls, h) && Settled(calls, h, start, sys) && Responding(calls, h, start, sys, read, unsent)
    requires Enabled(calls, sys, a) && !a.Interrupted?
    ensures Work(calls, Step(calls, h, sys, a)) == Work(calls, sys) - a.n
  {
    hide RequestFrame, ResponseFrame, StateAfter, SoundHandler, Reply, AfterResponseHeader;
    var c := calls[sys.done];
    var f := ResponseFrame(calls, h, start, sys.done);
    ResponseParts(calls, h, start, sys.done);
    if a.ClientMoves? {
      var read' := read + sys.down[..a.n];
      TakeBytes(read, sys.down, unsent, a.n);
      PrefixOf(read', sys.down[a.n..], unsent, f);
      if |read'| >= 12 && |read| < 12 {
        assert read' == f[..12];
      }
    }
  }

  /** Every move of n bytes brings the run n byte moves nearer to its end. */
  lemma EveryMoveCounts<S(!new)>(calls: seq<Call>, h: Handler<S>, start: S, sys: System<S>, a: Action)
    requires Good(calls, h) && InStep(calls, h, start, sys) && Enabled(calls, sys, a) && !a.Interrupted?
    ensures Work(calls, Step(calls, h, sys, a)) == Work(calls, sys) - a.n
  {
    hide RequestFrame, ResponseFrame, StateAfter, SoundHandler, Reply, Work, Step;
    if read: Bytes, unsent: Bytes :| Requesting(calls, h, start, sys, read, unsent) {
      SendingWorks(calls, h, start, sys, read, unsent, a);
    } else if read: Bytes, unsent: Bytes :| Responding(calls, h, start, sys, read, unsent) {
      AnsweringWorks(calls, h, start, sys, read, unsent, a);
    }
  }

  /** No deadlock: until all calls are answered, one side can move a byte. */
  lemma SomeoneCanMove<S(!new)>(calls: seq<Call>, h: Handler<S>, start: S, sys: System<S>)
    requires Good(calls, h) && InStep(calls, h, start, sys) && sys.client != Finished
    ensures Enabled(calls, sys, ClientMoves(1)) || Enabled(calls, sys, ServerMoves(1))
  {
    hide RequestFrame, ResponseFrame, StateAfter, SoundHandler, Reply;
    if read: Bytes, unsent: Bytes :| Requesting(calls, h, start, sys, read, unsent) {
      RequestParts(calls[sys.done]);
      if unsent == [] {
        assert |read + sys.up| == |RequestFrame(calls[sys.done])|;
      }
    } else if read: Bytes, unsent: Bytes :| Responding(calls, h, start, sys, read, unsent) {
      ResponseParts(calls, h, start, sys.done);
      if unsent == [] {
        assert |read + sys.down| == |ResponseFrame(calls, h, start, sys.done)|;
      }
    }
  }

  /** Moves in a run, interruptions not counted. */
  function Moves(actions: seq<Action>): nat {
    if actions == [] then 0 else (if actions[0].Interrupted? then 0 else 1) + Moves(actions[1..])
  }

  lemma {:induction false} RunsAreShort<S(!new)>(calls: seq<Call>, h: Handler<S>, start: S, sys: System<S>, actions: seq<Action>)
    requires Good(calls, h) && InStep(calls, h, start, sys) && IsRun(calls, h, sys, actions)
    ensures Moves(actions) + Work(calls, AfterRun(calls, h, sys, actions)) <= Work(calls, sys)
    decreases |actions|
  {
    hide InStep, Step, Work;
    if actions != [] {
      var next := Step(calls, h, sys, actions[0]);
      StepKeeps(calls, h, start, sys, actions[0]);
      RunsAreShort(calls, h, start, next, actions[1..]);
      if actions[0].Interrupted? {
        assert next == sys by { InterruptedStays(calls, h, sys); }
      } else {
        EveryMoveCounts(calls, h, start, sys, actions[0]);
        assert actions[0].n > 0 by { EnabledMoves(calls, sys, actions[0]); }
      }
    }
  }

  lemma InterruptedStays<S>(calls: seq<Call>, h: Handler<S>, sys: System<S>)
    requires forall k :: 0 <= k < |calls| ==> IsCall(calls[k])
    ensures Step(calls, h, sys, Interrupted) == sys
  {
  }

  lemma EnabledMoves<S>(calls: seq<Call>, sys: System<S>, a: Action)
    requires Enabled(calls, sys, a) && !a.Interrupted?
    ensures a.n > 0
  {
  }

  /**
   * For every sequence of calls and every fragmentation: a run makes at most a fixed number of moves, and once
   * nobody can move, every call has been answered with exactly what the handler returned for it.
   */
  lemma EveryRunAnswers<S(!new)>(calls: seq<Call>, h: Handler<S>, start: S, actions: seq<Action>)
    requires Good(calls, h) && IsRun(calls, h, Initial(calls, start), actions)
    ensures Moves(actions) <= WorkFrom(calls, 0)
    ensures
      var sys := AfterRun(calls, h, Initial(calls, start), actions);
      InStep(calls, h, start, sys) && (
        !Enabled(calls, sys, ClientMoves(1)) && !Enabled(calls, sys, ServerMoves(1)) ==>
          && sys.client == Finished && |sys.results| == |calls| && sys.up == [] && sys.down == []
          && forall k :: 0 <= k < |calls| ==> sys.results[k] == Reply(calls, h, start, k))
  {
    hide RequestFrame, ResponseFrame, StateAfter, SoundHandler, Reply, Enabled, Requesting, Responding;
    InitiallyInStep(calls, h, start);
    RunKeeps(calls, h, start, Initial(calls, start), actions);
    RunsAreShort(calls, h, start, Initial(calls, start), actions);
    var sys := AfterRun(calls, h, Initial(calls, start), actions);
    NeverFails(calls, h, start, sys);
    InitialWork(calls, start);
    if sys.client != Finished {
      SomeoneCanMove(calls, h, start, sys);
    } else {
      QuietBetweenCalls(calls, h, start, sys);
    }
  }

  lemma InitialWork<S>(calls: seq<Call>, start: S)
    requires forall k :: 0 <= k < |calls| ==> IsCall(calls[k])
    ensures Work(calls, Initial(calls, start)) == WorkFrom(calls, 0)
  {
    hide RequestFrame;
  }
}
