/** The framing engine over a socket that may give short reads and writes, interruptions and failures. */
module RpcEngine {
  import opened Integers
  import Common
  import opened RpcProtocol
  import opened RpcRun

  // ----- the socket -----------------------------------------------------------------------------------------

  /** What one read or write call does; a positive count may be more than is asked for. */
  datatype Outcome = Moves(n: nat) | Interrupted | Fails

  /** Reads and writes may be short, and interrupted any number of times, but do not fail. */
  predicate Willing(schedule: seq<Outcome>) {
    forall k :: 0 <= k < |schedule| ==> schedule[k].Interrupted? || (schedule[k].Moves? && schedule[k].n > 0)
  }

  /** How many of the coming calls are not interrupted. */
  function Turns(schedule: seq<Outcome>): (n: nat)
    ensures n <= |schedule|
  {
    if schedule == [] then 0 else Turns(schedule[1..]) + if schedule[0].Interrupted? then 0 else 1
  }

  /** The next call moves all it is given. */
  predicate TakesAll(schedule: seq<Outcome>, n: nat) {
    schedule != [] && schedule[0].Moves? && schedule[0].n >= n
  }

  /** The coming calls take a frame with n bytes of payload: header and payload are one write each. */
  predicate TakesFrame(schedule: seq<Outcome>, n: nat) {
    TakesAll(schedule, 12) && (n > 0 ==> TakesAll(schedule[1..], n))
  }

  function FrameWrites(n: nat): nat {
    if n == 0 then 1 else 2
  }

  /** A connection: the bytes the peer will have sent, the bytes sent to it, and what the coming calls will do. */
  class Socket {
    var incoming: Bytes
    var sent: Bytes
    var schedule: seq<Outcome>

    constructor (incoming: Bytes, schedule: seq<Outcome>)
      ensures this.incoming == incoming && sent == [] && this.schedule == schedule
    {
      this.incoming := incoming;
      this.sent := [];
      this.schedule := schedule;
    }

    /** One read of at most size bytes: a count, 0 at the end of the stream, or -1 with or without EINTR. */
    method Read(size: nat) returns (received: int, data: Bytes, interrupted: bool)
      requires size > 0
      modifies this
      ensures sent == old(sent) && -1 <= received <= size && (interrupted ==> received == -1)
      ensures received >= 0 ==> |data| == received && old(incoming) == data + incoming
      ensures received < 0 ==> incoming == old(incoming)
      ensures schedule == if old(schedule) == [] then [] else old(schedule)[1..]
      ensures old(schedule) == [] ==> received < 0 && !interrupted
      ensures old(schedule) != [] ==> (received < 0 <==> !old(schedule)[0].Moves?) && interrupted == old(schedule)[0].Interrupted?
      ensures old(schedule) != [] && received >= 0 ==> received == Common.Least(old(schedule)[0].n, Common.Least(size, |old(incoming)|))
    {
      data := [];
      if schedule == [] {
        return -1, [], false;
      }
      var outcome := schedule[0];
      schedule := schedule[1..];
      match outcome
      case Interrupted => return -1, [], true;
      case Fails => return -1, [], false;
      case Moves(n) =>
        var k := if n < size then n else size;
        if k > |incoming| {
          k := |incoming|;
        }
        data := incoming[..k];
        incoming := incoming[k..];
        return k, data, false;
    }

    /** One write of the given bytes: how many were taken, or -1 with or without EINTR. */
    method Write(data: Bytes) returns (written: int, interrupted: bool)
      requires data != []
      modifies this
      ensures incoming == old(incoming) && -1 <= written <= |data| && (interrupted ==> written == -1)
      ensures sent == old(sent) + if written > 0 then data[..written] else []
      ensures schedule == if old(schedule) == [] then [] else old(schedule)[1..]
      ensures old(schedule) == [] ==> written < 0 && !interrupted
      ensures old(schedule) != [] ==> (written < 0 <==> !old(schedule)[0].Moves?) && interrupted == old(schedule)[0].Interrupted?
      ensures old(schedule) != [] && written >= 0 ==> written == Common.Least(old(schedule)[0].n, |data|)
    {
      if schedule == [] {
        return -1, false;
      }
      var outcome := schedule[0];
      schedule := schedule[1..];
      match outcome
      case Interrupted => return -1, true;
      case Fails => return -1, false;
      case Moves(n) =>
        var k := if n < |data| then n else |data|;
        sent := sent + data[..k];
        return k, false;
    }
  }

  /** Whatever the fragmentation: on success all bytes were sent, in order; otherwise only a front part of them. */
  method WriteAll(fd: Socket, data: Bytes) returns (ok: bool)
    modifies fd
    ensures fd.incoming == old(fd.incoming) && |fd.schedule| <= |old(fd.schedule)|
    ensures ok ==> fd.sent == old(fd.sent) + data
    ensures !ok ==> exists k :: 0 <= k < |data| && fd.sent == old(fd.sent) + data[..k]
    ensures Willing(old(fd.schedule)) ==> Willing(fd.schedule) && Turns(old(fd.schedule)) <= Turns(fd.schedule) + |data|
    ensures Willing(old(fd.schedule)) && |data| <= Turns(old(fd.schedule)) ==> ok
    ensures data != [] && TakesAll(old(fd.schedule), |data|) ==> ok && fd.schedule == old(fd.schedule)[1..]
  {
    var done := 0;
    while done < |data|
      invariant Willing(old(fd.schedule)) ==> Willing(fd.schedule) && Turns(old(fd.schedule)) <= Turns(fd.schedule) + done
      invariant TakesAll(old(fd.schedule), |data|) ==>
        if done == 0 then fd.schedule == old(fd.schedule) else done == |data| && fd.schedule == old(fd.schedule)[1..]
      invariant 0 <= done <= |data| && fd.sent == old(fd.sent) + data[..done]
      invariant fd.incoming == old(fd.incoming) && |fd.schedule| <= |old(fd.schedule)|
      decreases |fd.schedule|, |data| - done
    {
      var rest := data[done..];
      var written, interrupted := fd.Write(rest);
      if written < 0 && interrupted {
        continue;
      }
      if written <= 0 {
        return false;
      }
      assert data[..done] + rest[..written] == data[..done + written];
      done := done + written;
    }
    assert data[..done] == data;
    return true;
  }

  /** Whatever the fragmentation: on success the next size bytes of the stream, in order; otherwise fewer are gone. */
  method ReadAll(fd: Socket, size: nat) returns (ok: bool, data: Bytes)
    modifies fd
    ensures fd.sent == old(fd.sent) && |fd.schedule| <= |old(fd.schedule)|
    ensures old(fd.incoming) == data + fd.incoming
    ensures if ok then |data| == size else |data| < size
    ensures Willing(old(fd.schedule)) ==> Willing(fd.schedule) && Turns(old(fd.schedule)) <= Turns(fd.schedule) + size
    ensures Willing(old(fd.schedule)) && size <= Turns(old(fd.schedule)) && size <= |old(fd.incoming)| ==> ok
    ensures Willing(old(fd.schedule)) && size <= Turns(old(fd.schedule)) && |old(fd.incoming)| < size ==> fd.incoming == []
    ensures size > 0 && old(fd.schedule) != [] && old(fd.schedule)[0].Fails? ==>
      !ok && data == [] && fd.schedule == old(fd.schedule)[1..]
  {
    data := [];
    while |data| < size
      invariant Willing(old(fd.schedule)) ==> Willing(fd.schedule) && Turns(old(fd.schedule)) <= Turns(fd.schedule) + |data|
      invariant data == [] && old(fd.schedule) != [] && old(fd.schedule)[0].Fails? ==> fd.schedule == old(fd.schedule)
      invariant old(fd.schedule) != [] && old(fd.schedule)[0].Fails? ==> data == []
      invariant |data| <= size && old(fd.incoming) == data + fd.incoming
      invariant fd.sent == old(fd.sent) && |fd.schedule| <= |old(fd.schedule)|
      decreases |fd.schedule|, size - |data|
    {
      ghost var here, so := fd.incoming, data;
      var received, chunk, interrupted := fd.Read(size - |data|);
      if received < 0 && interrupted {
        continue;
      }
      if received <= 0 {
        if received == 0 {
          assert fd.incoming == here;
        }
        return false, data;
      }
      assert data + (chunk + fd.incoming) == (data + chunk) + fd.incoming;
      data := data + chunk;
    }
    return true, data;
  }

  // ----- the engine -----------------------------------------------------------------------------------------------

  datatype FrameHeader = FrameHeader(id: u32, size: u32)

  function ErrorFrame(code: ErrorCode): (f: Bytes)
    ensures |f| == 16
  {
    Frame(ERROR_ID, ToLe32(CodeValue(code)))
  }

  datatype InvokeResult = NoMatch | Handled | InvokeFailed

  class Engine {
    const fd: Socket
    var lastError: ErrorCode

    constructor (fd: Socket)
      ensures this.fd == fd && lastError == ErrorCode.None
    {
      this.fd := fd;
      lastError := ErrorCode.None;
    }

    /** On success exactly one well-formed header is gone from the stream. */
    method ReceiveHeader() returns (ok: bool, header: FrameHeader)
      modifies this, fd
      ensures fd.sent == old(fd.sent)
      ensures ok ==> old(fd.incoming) == Header(header.id, header.size) + fd.incoming && header.size <= 64
      ensures ok ==> lastError == ErrorCode.None
      ensures !ok ==> lastError in {ErrorCode.None, BadMagic, OversizedPayload}
      ensures !ok && lastError != ErrorCode.None ==>
        |old(fd.incoming)| >= 12 && fd.incoming == old(fd.incoming)[12..] &&
        var h := old(fd.incoming)[..12];
        if MagicOf(h) != MAGIC then lastError == BadMagic else SizeOf(h) > 64 && lastError == OversizedPayload
      ensures !ok && lastError == ErrorCode.None ==>
        exists k :: 0 <= k < 12 && k <= |old(fd.incoming)| && fd.incoming == old(fd.incoming)[k..]
      ensures Willing(old(fd.schedule)) ==> Willing(fd.schedule) && Turns(old(fd.schedule)) <= Turns(fd.schedule) + 12
      ensures Willing(old(fd.schedule)) && 12 <= Turns(old(fd.schedule)) && 12 <= |old(fd.incoming)| ==>
        (ok <==> lastError == ErrorCode.None)
      ensures Willing(old(fd.schedule)) && 12 <= Turns(old(fd.schedule)) && |old(fd.incoming)| < 12 ==> fd.incoming == []
      ensures old(fd.schedule) != [] && old(fd.schedule)[0].Fails? ==>
        !ok && fd.incoming == old(fd.incoming) && fd.schedule == old(fd.schedule)[1..]
    {
      hide FromLe32, ToLe32;
      lastError := ErrorCode.None;
      header := FrameHeader(0, 0);
      var received, wire := ReadAll(fd, 12);
      if !received {
        assert fd.incoming == old(fd.incoming)[|wire|..];
        return false, header;
      }
      assert old(fd.incoming)[..12] == wire && old(fd.incoming)[12..] == fd.incoming;
      if MagicOf(wire) != MAGIC {
        lastError := BadMagic;
        return false, header;
      }
      header := FrameHeader(IdOf(wire), SizeOf(wire));
      if header.size > 64 {
        lastError := OversizedPayload;
        return false, header;
      }
      HeaderOfBytes(wire);
      return true, header;
    }

    /** Takes a payload only if the frame announces exactly the structure's size. */
    method ReceivePayload(header: FrameHeader, size: nat) returns (ok: bool, payload: Bytes)
      modifies this, fd
      ensures fd.sent == old(fd.sent)
      ensures ok ==> |payload| == size == header.size && old(fd.incoming) == payload + fd.incoming
      ensures header.size != size ==> !ok && lastError == PayloadMismatch && fd.incoming == old(fd.incoming)
      ensures header.size != size ==> payload == [] && fd.schedule == old(fd.schedule)
      ensures header.size == size ==> lastError == old(lastError) && old(fd.incoming) == payload + fd.incoming
      ensures header.size == size && !ok ==> |payload| < size
      ensures Willing(old(fd.schedule)) ==> Willing(fd.schedule) && Turns(old(fd.schedule)) <= Turns(fd.schedule) + size
      ensures header.size == size && Willing(old(fd.schedule)) && size <= Turns(old(fd.schedule)) && |old(fd.incoming)| < size ==>
        fd.incoming == []
      ensures header.size == size && Willing(old(fd.schedule)) && size <= Turns(old(fd.schedule)) && size <= |old(fd.incoming)| ==> ok
    {
      payload := [];
      if header.size != size {
        lastError := PayloadMismatch;
        return false, payload;
      }
      if size == 0 {
        return true, payload;
      }
      ok, payload := ReadAll(fd, size);
    }

    /** The header, then the payload unless it is empty. */
    method Send(id: u32, payload: Bytes) returns (ok: bool)
      requires |payload| <= 64
      modifies fd
      ensures fd.incoming == old(fd.incoming) && old(fd.sent) <= fd.sent
      ensures ok ==> fd.sent == old(fd.sent) + Frame(id, payload)
      ensures !ok ==> exists k :: 0 <= k < |Frame(id, payload)| && fd.sent == old(fd.sent) + Frame(id, payload)[..k]
      ensures Willing(old(fd.schedule)) && 12 + |payload| <= Turns(old(fd.schedule)) ==>
        ok && Willing(fd.schedule) && Turns(old(fd.schedule)) <= Turns(fd.schedule) + 12 + |payload|
      ensures TakesFrame(old(fd.schedule), |payload|) ==> ok && fd.schedule == old(fd.schedule)[FrameWrites(|payload|)..]
    {
      hide Header;
      var header := Header(id, |payload|);
      ghost var was, f := fd.sent, Frame(id, payload);
      ok := WriteAll(fd, header);
      if !ok {
        ghost var k :| 0 <= k < |header| && fd.sent == was + header[..k];
        assert f[..k] == header[..k];
        return false;
      }
      if payload == [] {
        assert was + header == was + f;
        return true;
      }
      ok := WriteAll(fd, payload);
      if !ok {
        ghost var k :| 0 <= k < |payload| && fd.sent == was + header + payload[..k];
        assert f[..12 + k] == header + payload[..k];
        assert was + header + payload[..k] == was + f[..12 + k];
        return false;
      }
      assert was + header + payload == was + f;
    }

    method SendError(code: ErrorCode) returns (ok: bool)
      modifies fd
      ensures fd.incoming == old(fd.incoming) && old(fd.sent) <= fd.sent
      ensures ok ==> fd.sent == old(fd.sent) + ErrorFrame(code)
      ensures !ok ==> exists k :: 0 <= k < |ErrorFrame(code)| && fd.sent == old(fd.sent) + ErrorFrame(code)[..k]
      ensures Willing(old(fd.schedule)) && 16 <= Turns(old(fd.schedule)) ==> ok
    {
      hide Frame, ToLe32;
      ghost var before := fd.sent;
      ok := Send(ERROR_ID, ToLe32(CodeValue(code)));
      if !ok {
        ghost var k :| 0 <= k < 16 && fd.sent == before + Frame(ERROR_ID, ToLe32(CodeValue(code)))[..k];
        assert fd.sent == before + ErrorFrame(code)[..k];
      }
    }

    /** Skips a payload in chunks of at most 32 bytes. */
    method DiscardPayload(size: u32) returns (ok: bool)
      modifies fd
      ensures fd.sent == old(fd.sent)
      ensures ok ==> |old(fd.incoming)| >= size && fd.incoming == old(fd.incoming)[size..]
      ensures Willing(old(fd.schedule)) ==> Willing(fd.schedule) && Turns(old(fd.schedule)) <= Turns(fd.schedule) + size
      ensures Willing(old(fd.schedule)) && size <= Turns(old(fd.schedule)) ==>
        (ok <==> size <= |old(fd.incoming)|) && (!ok ==> fd.incoming == [])
    {
      var rest: nat := size;
      while rest > 0
        invariant rest <= size && fd.sent == old(fd.sent)
        invariant Willing(old(fd.schedule)) ==> Willing(fd.schedule) && Turns(old(fd.schedule)) <= Turns(fd.schedule) + (size - rest)
        invariant size - rest <= |old(fd.incoming)| && fd.incoming == old(fd.incoming)[size - rest..]
      {
        var chunk := if rest < 32 then rest else 32;
        ghost var here := fd.incoming;
        var received, buffer := ReadAll(fd, chunk);
        if !received {
          return false;
        }
        assert fd.incoming == here[chunk..];
        rest := rest - chunk;
      }
      return true;
    }
  }

  lemma HeaderOfBytes(wire: Bytes)
    requires |wire| == 12 && MagicOf(wire) == MAGIC
    ensures wire == Header(IdOf(wire), SizeOf(wire))
  {
    hide ToLe32, FromLe32;
    WordOfBytes(wire[0..4]);
    WordOfBytes(wire[4..8]);
    WordOfBytes(wire[8..12]);
    assert wire == wire[0..4] + wire[4..8] + wire[8..12];
  }

  lemma WordOfBytes(b: Bytes)
    requires |b| == 4
    ensures ToLe32(FromLe32(b)) == b
  {
    var v: int := FromLe32(b);
    var b0: int, b1: int, b2: int, b3: int := b[0], b[1], b[2], b[3];
    FourBytes(v);
    assert v == b0 + 0x100 * (b1 + 0x100 * (b2 + 0x100 * b3));
    assert v % 256 == b0 && v / 0x100 == b1 + 0x100 * (b2 + 0x100 * b3);
    assert v / 0x100 % 256 == b1;
    assert v / 0x1_0000 == b2 + 0x100 * b3;
    assert v / 0x100_0000 == b3;
  }

  // ----- client: one call --------------------------------------------------------------------------------------------

  /** A request is written whole, and the read after it fails at once. */
  predicate SendsThenFails(schedule: seq<Outcome>, n: nat) {
    TakesFrame(schedule, n) && |schedule| > FrameWrites(n) && schedule[FrameWrites(n)].Fails?
  }

  /** The stream begins with a response frame of the call. */
  ghost predicate IsAnswered(id: u32, stream: Bytes)
    requires InCatalog(id)
  {
    exists r: Bytes :: |r| == ResponseSize(id) && Frame(id, r) <= stream
  }

  lemma AnsweredHeader(id: u32, stream: Bytes)
    requires InCatalog(id) && IsAnswered(id, stream)
    ensures 12 + ResponseSize(id) <= |stream| && stream[..12] == Header(id, ResponseSize(id))
    ensures MagicOf(stream[..12]) == MAGIC && IdOf(stream[..12]) == id && SizeOf(stream[..12]) == ResponseSize(id)
  {
    hide Header, MagicOf, IdOf, SizeOf;
    var r: Bytes :| |r| == ResponseSize(id) && Frame(id, r) <= stream;
    assert stream[..12] == Frame(id, r)[..12] == Header(id, ResponseSize(id));
    HeaderRoundTrip(id, ResponseSize(id));
  }

  /** What a call leaves of a stream that ends: the frame it takes is gone, or what it reads of a frame it refuses. */
  ghost function LeftBehind(id: u32, stream: Bytes): Bytes
    requires InCatalog(id)
  {
    if |stream| < 12 then []
    else
      var head, rest := stream[..12], stream[12..];
      var size := SizeOf(head);
      if MagicOf(head) != MAGIC || size > 64 then rest
      else if IdOf(head) == ERROR_ID then if size == 4 then Dropped(rest, 4) else rest
      else if IdOf(head) != id then Dropped(rest, size)
      else if size == ResponseSize(id) then Dropped(rest, size) else rest
  }

  function Dropped(stream: Bytes, n: nat): Bytes {
    if n <= |stream| then stream[n..] else []
  }

  lemma HeaderAnswers(id: u32, stream: Bytes)
    requires InCatalog(id)
    ensures IsAnswered(id, stream) <==>
            && 12 + ResponseSize(id) <= |stream| && MagicOf(stream[..12]) == MAGIC && IdOf(stream[..12]) == id
            && SizeOf(stream[..12]) == ResponseSize(id)
  {
    hide Header, MagicOf, IdOf, SizeOf;
    if IsAnswered(id, stream) {
      AnsweredHeader(id, stream);
    }
    if 12 + ResponseSize(id) <= |stream| && MagicOf(stream[..12]) == MAGIC && IdOf(stream[..12]) == id
       && SizeOf(stream[..12]) == ResponseSize(id) {
      HeaderOfBytes(stream[..12]);
      var n := ResponseSize(id);
      assert Frame(id, stream[12..12 + n]) == stream[..12 + n];
    }
  }

  /**
   * A call that returns true sent exactly its frame and consumed exactly one response frame with the same id. On a socket
   * that does not fail it returns true exactly when such a frame comes next, and otherwise takes what it refuses.
   */
  method CallApi(engine: Engine, id: u32, request: Bytes) returns (ok: bool, response: Bytes)
    requires InCatalog(id) && |request| == RequestSize(id)
    modifies engine, engine.fd
    ensures ok ==> engine.fd.sent == old(engine.fd.sent) + Frame(id, request)
    ensures ok ==> |response| == ResponseSize(id) && old(engine.fd.incoming) == Frame(id, response) + engine.fd.incoming
    ensures exists k :: 0 <= k <= |Frame(id, request)| && engine.fd.sent == old(engine.fd.sent) + Frame(id, request)[..k]
    ensures Willing(old(engine.fd.schedule)) && 152 <= Turns(old(engine.fd.schedule)) ==>
      && (ok <==> IsAnswered(id, old(engine.fd.incoming)))
      && engine.fd.sent == old(engine.fd.sent) + Frame(id, request)
      && engine.fd.incoming == LeftBehind(id, old(engine.fd.incoming))
    ensures SendsThenFails(old(engine.fd.schedule), |request|) ==>
      !ok && engine.fd.sent == old(engine.fd.sent) + Frame(id, request) && engine.fd.incoming == old(engine.fd.incoming) &&
      engine.fd.schedule == old(engine.fd.schedule)[FrameWrites(|request|) + 1..]
  {
    hide Header, Frame, MagicOf, IdOf, SizeOf, Willing;
    response := [];
    ghost var stream, before, f := engine.fd.incoming, engine.fd.sent, Frame(id, request);
    HeaderAnswers(id, stream);
    assert f[..|f|] == f;
    ok := engine.Send(id, request);
    if !ok {
      return false, [];
    }
    assert engine.fd.sent == before + f[..|f|];
    var received, header := engine.ReceiveHeader();
    if !received {
      return false, [];
    }
    HeaderHeld(stream, header.id, header.size, engine.fd.incoming);
    if header.id == ERROR_ID {
      var got, error := engine.ReceivePayload(header, 4);
      return false, [];
    }
    if header.id != id {
      var discarded := engine.DiscardPayload(header.size);
      return false, [];
    }
    ok, response := engine.ReceivePayload(header, ResponseSize(id));
    if ok {
      FrameOfHeader(id, response, stream, engine.fd.incoming);
    }
  }

  lemma FrameOfHeader(id: u32, payload: Bytes, stream: Bytes, rest: Bytes)
    requires |payload| <= 64 && stream == Header(id, |payload|) + (payload + rest)
    ensures stream == Frame(id, payload) + rest
  {
    hide Header;
  }

  // ----- server: one request and the loop --------------------------------------------------------------------------------

  /** The bytes of requests, and of the responses a handler gives them in turn. */
  function Requests(calls: seq<Call>): Bytes
    requires forall k :: 0 <= k < |calls| ==> IsCall(calls[k])
  {
    if calls == [] then [] else Requests(calls[..|calls| - 1]) + RequestFrame(calls[|calls| - 1])
  }

  ghost function Responses<S(!new)>(calls: seq<Call>, h: Handler<S>, start: S): Bytes
    requires Good(calls, h)
    decreases |calls|
  {
    if calls == [] then []
    else Responses(calls[..|calls| - 1], h, start) + ResponseFrame(calls, h, start, |calls| - 1)
  }

  /** Reading, handling and answering a request of these sizes never takes more steps than this on a willing socket. */
  predicate Ample(schedule: seq<Outcome>, size: u32) {
    Willing(schedule) && size + 48 <= Turns(schedule)
  }

  lemma ResponseFits(id: u32)
    requires InCatalog(id)
    ensures 12 + ResponseSize(id) <= 48
  {
  }

  /** A request of the right size that was not served: its payload did not come, or its answer could not be sent. */
  ghost predicate CutShort<S(!new)>(id: u32, h: Handler<S>, st: S, next: S, request: Bytes, before: Bytes, after: Bytes)
    requires InCatalog(id) && SoundHandler(h)
  {
    if |request| < RequestSize(id) then next == st && after == before
    else
      && |request| == RequestSize(id) && next == h(st, id, request).0
      && exists k :: 0 <= k < 12 + ResponseSize(id) && after == before + Frame(id, h(st, id, request).1)[..k]
  }

  /** invoke_one for the call with the given id. */
  method InvokeOne<S(!new)>(engine: Engine, header: FrameHeader, id: u32, h: Handler<S>, st: S)
    returns (result: InvokeResult, next: S, ghost request: Bytes)
    requires InCatalog(id) && SoundHandler(h) && engine.lastError == ErrorCode.None
    modifies engine, engine.fd
    ensures old(engine.fd.sent) <= engine.fd.sent && (header.id != id <==> result == NoMatch)
    ensures result == NoMatch ==> engine.fd.incoming == old(engine.fd.incoming) && engine.fd.sent == old(engine.fd.sent)
    ensures result == NoMatch ==> engine.lastError == ErrorCode.None && engine.fd.schedule == old(engine.fd.schedule) && next == st
    ensures result == Handled ==> |request| == RequestSize(id) == header.size
    ensures result == Handled ==>
      next == h(st, id, request).0 && |h(st, id, request).1| == ResponseSize(id) &&
      engine.fd.sent == old(engine.fd.sent) + Frame(id, h(st, id, request).1)
    ensures result != NoMatch ==> old(engine.fd.incoming) == request + engine.fd.incoming
    ensures header.id == id && header.size != RequestSize(id) ==>
      result == InvokeFailed && request == [] && next == st &&
      (exists k :: 0 <= k <= 16 && engine.fd.sent == old(engine.fd.sent) + ErrorFrame(PayloadMismatch)[..k]) &&
      (Ample(old(engine.fd.schedule), 0) ==> engine.fd.sent == old(engine.fd.sent) + ErrorFrame(PayloadMismatch))
    ensures header.size == RequestSize(id) && result == InvokeFailed ==>
      CutShort(id, h, st, next, request, old(engine.fd.sent), engine.fd.sent)
    ensures header.id == id && header.size == RequestSize(id) && Ample(old(engine.fd.schedule), header.size) ==>
      && (result == Handled <==> header.size <= |old(engine.fd.incoming)|) && (result == InvokeFailed ==> |request| < header.size)
      && (result == Handled ==> Willing(engine.fd.schedule) &&
                                Turns(old(engine.fd.schedule)) <= Turns(engine.fd.schedule) + header.size + 48)
  {
    hide Frame, Willing;
    next := st;
    request := [];
    if header.id != id {
      return NoMatch, st, [];
    }
    ResponseFits(id);
    ghost var before := engine.fd.sent;
    var ok, payload := engine.ReceivePayload(header, RequestSize(id));
    request := payload;
    if !ok {
      if engine.lastError != ErrorCode.None {
        var reported := engine.SendError(engine.lastError);
        if reported {
          assert engine.fd.sent == before + ErrorFrame(PayloadMismatch)[..16];
        }
      }
      return InvokeFailed, st, request;
    }
    var answer := h(st, id, payload);
    assert |answer.1| == ResponseSize(id);
    var sent := engine.Send(id, answer.1);
    return if sent then Handled else InvokeFailed, answer.0, payload;
  }

  /** Tries the catalog in order; an unknown id is skipped and reported. */
  method Dispatch<S(!new)>(engine: Engine, header: FrameHeader, h: Handler<S>, st: S)
    returns (ok: bool, next: S, ghost request: Bytes)
    requires SoundHandler(h) && engine.lastError == ErrorCode.None
    modifies engine, engine.fd
    ensures old(engine.fd.sent) <= engine.fd.sent
    ensures ok ==> InCatalog(header.id) && |request| == RequestSize(header.id) == header.size
    ensures InCatalog(header.id) ==> old(engine.fd.incoming) == request + engine.fd.incoming
    ensures ok ==>
      next == h(st, header.id, request).0 && |h(st, header.id, request).1| == ResponseSize(header.id) &&
      engine.fd.sent == old(engine.fd.sent) + Frame(header.id, h(st, header.id, request).1)
    ensures !InCatalog(header.id) ==> next == st && (Ample(old(engine.fd.schedule), header.size) ==>
      if header.size <= |old(engine.fd.incoming)|
      then engine.fd.sent == old(engine.fd.sent) + ErrorFrame(UnknownApi) &&
           engine.fd.incoming == old(engine.fd.incoming)[header.size..]
      else engine.fd.sent == old(engine.fd.sent))
    ensures InCatalog(header.id) && header.size != RequestSize(header.id) ==>
      && !ok && request == [] && next == st
      && (Ample(old(engine.fd.schedule), 0) ==> engine.fd.sent == old(engine.fd.sent) + ErrorFrame(PayloadMismatch))
    ensures InCatalog(header.id) && header.size == RequestSize(header.id) && !ok ==>
      CutShort(header.id, h, st, next, request, old(engine.fd.sent), engine.fd.sent)
    ensures InCatalog(header.id) && header.size == RequestSize(header.id) && Ample(old(engine.fd.schedule), header.size) ==>
      && (ok <==> header.size <= |old(engine.fd.incoming)|) && (!ok ==> |request| < header.size)
      && (ok ==> Willing(engine.fd.schedule) && Turns(old(engine.fd.schedule)) <= Turns(engine.fd.schedule) + header.size + 48)
  {
    hide Frame, SoundHandler, CutShort, Willing, ErrorFrame;
    var id: u32 := 1;
    while id <= 13
      invariant 1 <= id <= 14 && (header.id < 1 || header.id >= id)
      invariant engine.fd.incoming == old(engine.fd.incoming) && engine.fd.sent == old(engine.fd.sent)
      invariant engine.fd.schedule == old(engine.fd.schedule) && engine.lastError == ErrorCode.None
      decreases 14 - id
    {
      var result;
      result, next, request := InvokeOne(engine, header, id, h, st);
      if result != NoMatch {
        return result == Handled, next, request;
      }
      id := id + 1;
    }
    assert !InCatalog(header.id);
    ghost var schedule := engine.fd.schedule;
    var discarded := engine.DiscardPayload(header.size);
    if !discarded {
      return false, st, [];
    }
    var reported := engine.SendError(UnknownApi);
    return false, st, [];
  }

  /** What the loop has done: whole requests taken in order, each answered before the next is read. */
  ghost predicate Served<S(!new)>(calls: seq<Call>, h: Handler<S>, start: S, taken: Bytes, given: Bytes)
  {
    Good(calls, h) && taken == Requests(calls) && given == Responses(calls, h, start)
  }

  lemma OneMoreServed<S(!new)>(calls: seq<Call>, h: Handler<S>, start: S, c: Call, taken: Bytes, given: Bytes)
    requires Served(calls, h, start, taken, given) && IsCall(c)
    requires |h(StateAfter(calls, h, start, |calls|), c.id, c.request).1| == ResponseSize(c.id)
    ensures
      var more := calls + [c];
      var answer := h(StateAfter(calls, h, start, |calls|), c.id, c.request);
      && Served(more, h, start, taken + RequestFrame(c), given + Frame(c.id, answer.1))
      && StateAfter(more, h, start, |more|) == answer.0
  {
    hide Frame, SoundHandler;
    var more := calls + [c];
    assert more[..|more| - 1] == calls;
    StatesOfPrefix(calls, c, h, start, |calls|);
  }

  lemma {:induction false} StatesOfPrefix<S(!new)>(calls: seq<Call>, c: Call, h: Handler<S>, start: S, i: nat)
    requires i <= |calls|
    ensures StateAfter(calls + [c], h, start, i) == StateAfter(calls, h, start, i)
  {
    if i > 0 {
      StatesOfPrefix(calls, c, h, start, i - 1);
    }
  }

  // ----- which requests are served -----------------------------------------------------------------------------------

  predicate AreCalls(calls: seq<Call>) {
    forall k :: 0 <= k < |calls| ==> IsCall(calls[k])
  }

  /** The stream begins with a whole request of the catalog. */
  predicate HoldsRequest(stream: Bytes) {
    && 12 <= |stream| && MagicOf(stream[..12]) == MAGIC && InCatalog(IdOf(stream[..12]))
    && SizeOf(stream[..12]) == RequestSize(IdOf(stream[..12])) && 12 + SizeOf(stream[..12]) <= |stream|
  }

  /** The error frame for a stream that does not begin with a request; nothing for one that ends too early. */
  function Refusal(stream: Bytes): Bytes {
    if |stream| < 12 then []
    else
      var id, size := IdOf(stream[..12]), SizeOf(stream[..12]);
      if MagicOf(stream[..12]) != MAGIC then ErrorFrame(BadMagic)
      else if size > 64 then ErrorFrame(OversizedPayload)
      else if !InCatalog(id) then if |stream| < 12 + size then [] else ErrorFrame(UnknownApi)
      else if size != RequestSize(id) then ErrorFrame(PayloadMismatch)
      else []
  }

  lemma RequestHeld(c: Call, stream: Bytes)
    requires IsCall(c) && RequestFrame(c) <= stream
    ensures HoldsRequest(stream) && IdOf(stream[..12]) == c.id && stream[12..12 + RequestSize(c.id)] == c.request
  {
    hide Header, MagicOf, IdOf, SizeOf;
    HeaderRoundTrip(c.id, |c.request|);
    assert stream[..12] == RequestFrame(c)[..12] == Header(c.id, |c.request|);
    assert stream[..|RequestFrame(c)|][12..] == c.request;
  }

  lemma OneRequest(c: Call, d: Call, stream: Bytes)
    requires IsCall(c) && IsCall(d) && RequestFrame(c) <= stream && RequestFrame(d) <= stream
    ensures c == d
  {
    hide RequestFrame, HoldsRequest;
    RequestHeld(c, stream);
    RequestHeld(d, stream);
  }

  lemma {:induction false} RequestsPrefix(calls: seq<Call>, k: nat)
    requires AreCalls(calls) && k < |calls|
    ensures AreCalls(calls[..k]) && Requests(calls[..k]) + RequestFrame(calls[k]) <= Requests(calls)
    decreases |calls|
  {
    hide RequestFrame;
    var n := |calls| - 1;
    if k < n {
      assert calls[..n][..k] == calls[..k];
      RequestsPrefix(calls[..n], k);
    }
  }

  /** Two sequences of requests at the front of one stream agree as far as both go. */
  lemma {:induction false} RequestsAgree(cs: seq<Call>, ds: seq<Call>, stream: Bytes, k: nat)
    requires AreCalls(cs) && AreCalls(ds) && Requests(cs) <= stream && Requests(ds) <= stream && k <= |cs| && k <= |ds|
    ensures cs[..k] == ds[..k]
  {
    hide RequestFrame;
    if k > 0 {
      RequestsAgree(cs, ds, stream, k - 1);
      RequestsPrefix(cs, k - 1);
      RequestsPrefix(ds, k - 1);
      var front := Requests(cs[..k - 1]);
      Behind(front, RequestFrame(cs[k - 1]), stream);
      Behind(front, RequestFrame(ds[k - 1]), stream);
      OneRequest(cs[k - 1], ds[k - 1], stream[|front|..]);
      assert cs[..k] == cs[..k - 1] + [cs[k - 1]] && ds[..k] == ds[..k - 1] + [ds[k - 1]];
    }
  }

  lemma Behind(front: Bytes, next: Bytes, stream: Bytes)
    requires front + next <= stream
    ensures |front| <= |stream| && next <= stream[|front|..]
  {
    assert stream[..|front + next|] == front + next;
    assert stream[|front|..][..|next|] == stream[..|front + next|][|front|..] == next;
  }

  /** Calls after which no whole request follows include every sequence of requests that the stream begins with. */
  lemma AllServed(cs: seq<Call>, calls: seq<Call>, stream: Bytes)
    requires AreCalls(cs) && AreCalls(calls) && Requests(cs) <= stream && Requests(calls) <= stream
    requires |calls| < |cs| ==> !HoldsRequest(stream[|Requests(calls)|..])
    ensures cs <= calls
  {
    hide RequestFrame, HoldsRequest, Requests;
    var k := Common.Least(|cs|, |calls|);
    RequestsAgree(cs, calls, stream, k);
    if |calls| < |cs| {
      RequestsPrefix(cs, |calls|);
      assert calls == calls[..k];
      Behind(Requests(calls), RequestFrame(cs[k]), stream);
      RequestHeld(cs[k], stream[|Requests(calls)|..]);
    }
  }

  lemma HeaderHeld(stream: Bytes, id: u32, size: u32, rest: Bytes)
    requires stream == Header(id, size) + rest
    ensures 12 <= |stream| && rest == stream[12..]
    ensures MagicOf(stream[..12]) == MAGIC && IdOf(stream[..12]) == id && SizeOf(stream[..12]) == size
  {
    hide Header, MagicOf, IdOf, SizeOf;
    HeaderRoundTrip(id, size);
    assert stream[..12] == Header(id, size);
  }

  /** One turn of the loop: a header, then the request behind it. */
  method ServeOne<S(!new)>(engine: Engine, h: Handler<S>, st: S) returns (ok: bool, next: S, ghost c: Call)
    requires SoundHandler(h)
    modifies engine, engine.fd
    ensures old(engine.fd.sent) <= engine.fd.sent
    ensures ok ==> IsCall(c) && old(engine.fd.incoming) == RequestFrame(c) + engine.fd.incoming
    ensures ok ==>
      next == h(st, c.id, c.request).0 && |h(st, c.id, c.request).1| == ResponseSize(c.id) &&
      engine.fd.sent == old(engine.fd.sent) + Frame(c.id, h(st, c.id, c.request).1)
    ensures Ample(old(engine.fd.schedule), 76) ==>
      && (ok <==> HoldsRequest(old(engine.fd.incoming)))
      && (ok ==> Willing(engine.fd.schedule) && Turns(old(engine.fd.schedule)) <= Turns(engine.fd.schedule) + 5 * |RequestFrame(c)|)
      && (!ok ==> engine.fd.sent == old(engine.fd.sent) + Refusal(old(engine.fd.incoming)))
  {
    hide SoundHandler, Frame, Header, Willing, ErrorFrame, MagicOf, IdOf, SizeOf;
    ghost var stream := engine.fd.incoming;
    assert engine.fd.sent + [] == engine.fd.sent;
    c := Call(0, []);
    next := st;
    var received, header := engine.ReceiveHeader();
    if !received {
      if engine.lastError != ErrorCode.None {
        var reported := engine.SendError(engine.lastError);
      }
      return false, st, c;
    }
    HeaderHeld(stream, header.id, header.size, engine.fd.incoming);
    ghost var payload;
    ok, next, payload := Dispatch(engine, header, h, st);
    if ok {
      c := Call(header.id, payload);
      FrameOfParts(c, header.size);
      assert Header(header.id, header.size) + (payload + engine.fd.incoming) == RequestFrame(c) + engine.fd.incoming;
    }
  }

  /**
   * serve_client: from a frame boundary on, it takes whole catalog requests and answers each with the handler's
   * response, until the link is down, the stream ends or a frame is not acceptable. On a socket that does not fail
   * it stops for no other reason, and the last thing it sends is the error frame that applies.
   */
  method ServeClient<S(!new)>(fd: Socket, h: Handler<S>, start: S, connected: nat -> bool)
    returns (final: S, ghost calls: seq<Call>, ghost taken: Bytes, ghost given: Bytes)
    requires SoundHandler(h)
    modifies fd
    ensures Served(calls, h, start, taken, given) && taken <= old(fd.incoming) && old(fd.sent) + given <= fd.sent
    ensures forall r: nat :: r < |calls| ==> connected(r)
    ensures Enough(old(fd.schedule), |old(fd.incoming)|) ==>
      var rest := old(fd.incoming)[|taken|..];
      && (connected(|calls|) ==> !HoldsRequest(rest))
      && fd.sent == old(fd.sent) + given + (if connected(|calls|) then Refusal(rest) else [])
    ensures Enough(old(fd.schedule), |old(fd.incoming)|) ==>
      forall cs: seq<Call> ::
        AreCalls(cs) && Requests(cs) <= old(fd.incoming) && (forall r: nat :: r < |cs| ==> connected(r)) ==> cs <= calls
  {
    hide SoundHandler, Frame, Served, Willing, HoldsRequest, Refusal, IsCall, Requests, RequestFrame;
    var engine := new Engine(fd);
    final := start;
    calls, taken, given := [], [], [];
    NothingServed(h, start);
    var round: nat := 0;
    ghost var begin, all, schedule := fd.sent, fd.incoming, fd.schedule;
    while connected(round)
      invariant engine.fd == fd && fresh(engine) && Served(calls, h, start, taken, given)
      invariant final == StateAfter(calls, h, start, |calls|)
      invariant all == taken + fd.incoming && fd.sent == begin + given
      invariant round == |calls| && (forall r: nat :: r < round ==> connected(r))
      invariant Enough(schedule, |all|) ==> Willing(fd.schedule) && Turns(schedule) <= Turns(fd.schedule) + 5 * |taken|
      decreases |fd.incoming|
    {
      ghost var stream := fd.incoming;
      ghost var c;
      var ok;
      var before := final;
      ok, final, c := ServeOne(engine, h, final);
      if !ok {
        assert all[|taken|..] == stream;
        break;
      }
      FrameLength(c);
      OneMoreServed(calls, h, start, c, taken, given);
      assert taken + (RequestFrame(c) + fd.incoming) == (taken + RequestFrame(c)) + fd.incoming;
      calls := calls + [c];
      taken := taken + RequestFrame(c);
      given := given + Frame(c.id, h(before, c.id, c.request).1);
      round := round + 1;
    }
    forall cs: seq<Call> | Enough(schedule, |all|) && AreCalls(cs) && Requests(cs) <= all && forall r: nat :: r < |cs| ==> connected(r)
      ensures cs <= calls
    {
      ServedAreCalls(calls, h, start, taken, given);
      AllServed(cs, calls, all);
    }
  }

  /** On a willing socket, enough steps for whatever the stream asks for. */
  predicate Enough(schedule: seq<Outcome>, n: nat) {
    Willing(schedule) && 5 * n + 124 <= Turns(schedule)
  }

  lemma ServedAreCalls<S(!new)>(calls: seq<Call>, h: Handler<S>, start: S, taken: Bytes, given: Bytes)
    requires Served(calls, h, start, taken, given)
    ensures AreCalls(calls) && Requests(calls) == taken
  {
  }

  lemma FrameLength(c: Call)
    requires IsCall(c)
    ensures |RequestFrame(c)| >= 12
  {
  }

  lemma FrameOfParts(c: Call, size: u32)
    requires IsCall(c) && size == |c.request|
    ensures RequestFrame(c) == Header(c.id, size) + c.request && |RequestFrame(c)| >= 12
  {
  }

  lemma NothingServed<S(!new)>(h: Handler<S>, start: S)
    requires SoundHandler(h)
    ensures Served([], h, start, [], [])
  {
  }
}
