/** The remote Zigbee calls as the application sees them, and the sliced wait on the server. */
module RpcAdapters {
  import opened Integers
  import opened RpcProtocol
  import opened RpcTypes
  import opened RpcEngine

  /** What a client adapter returns when there is no connection or the call fails. */
  function FailureResult(c: Api): (r: Result)
    ensures HasType(ApiId(c), r)
  {
    match c
    case GetChannel => U8(0)
    case OpenNetwork(_) => I32(-1)
    case FindSensor(_) => AddrResult(Addr(-1, 0, 0))
    case ReadBasic(_, _) => BasicResult(Basic(-1, seq(16, _ => 0), seq(16, _ => 0)))
    case BindSensor(_, _) => I32(-1)
    case SubscribeSensor(_, _) => I32(-1)
    case ConfigReport(_, _) => I32(-1)
    case ReadTemp(_, _) => TempResult(Temp(-1, 0, 0, 0, 0))
    case GetLastTemp => I16(0)
    case GetSensorAddr => U16(0xFFFF)
    case _ => U16(0)
  }

  /** A whole exchange: one request frame out, one response frame with a result of the call's type in. */
  ghost predicate Exchanged(c: Api, r: Result, incoming: Bytes, incoming': Bytes, sent: Bytes, sent': Bytes) {
    && sent' == sent + Frame(ApiId(c), RequestBytes(c))
    && exists response: Bytes ::
         && |response| == ResponseSize(ApiId(c)) && incoming == Frame(ApiId(c), response) + incoming'
         && r == ResultOf(ApiId(c), response)
  }

  /** One zigbee_* call of the client. */
  method Remote(fd: Socket, attached: bool, c: Api) returns (ok: bool, r: Result)
    modifies fd
    ensures HasType(ApiId(c), r)
    ensures ok ==> attached && Exchanged(c, r, old(fd.incoming), fd.incoming, old(fd.sent), fd.sent)
    ensures !ok ==> r == FailureResult(c)
    ensures attached && Willing(old(fd.schedule)) && 152 <= Turns(old(fd.schedule)) ==>
      && (ok <==> IsAnswered(ApiId(c), old(fd.incoming)))
      && fd.sent == old(fd.sent) + Frame(ApiId(c), RequestBytes(c))
    ensures !attached ==> fd.incoming == old(fd.incoming) && fd.sent == old(fd.sent)
  {
    hide ApiId, RequestBytes, ResultOf, HasType, FailureResult, Willing, Frame;
    if !attached {
      return false, FailureResult(c);
    }
    var engine := new Engine(fd);
    var done, response := CallApi(engine, ApiId(c), RequestBytes(c));
    if !done {
      return false, FailureResult(c);
    }
    return true, ResultOf(ApiId(c), response);
  }

  // ----- waiting for an announcement ---------------------------------------------------------------------------

  /** The first slice in which a device announces itself, provided the client is still there up to that slice. */
  ghost predicate FirstAnnounced(alive: nat -> bool, heard: nat -> u16, k: nat) {
    heard(k) != 0 && alive(k) && forall j: nat :: j < k ==> alive(j) && heard(j) == 0
  }

  /** Waits 180 seconds in slices of 250 milliseconds; alive and heard tell what each slice finds. */
  method HandleWaitAnnce(alive: nat -> bool, heard: nat -> u16) returns (shortAddr: u16)
    ensures shortAddr != 0 ==> exists k: nat :: k < 720 && FirstAnnounced(alive, heard, k) && shortAddr == heard(k)
    ensures shortAddr == 0 ==> forall k: nat :: k < 720 ==> !FirstAnnounced(alive, heard, k)
  {
    var remaining: nat := 180000;
    var slices: nat := 0;
    while remaining > 0
      invariant remaining == 180000 - 250 * slices
      invariant forall j: nat :: j < slices ==> alive(j) && heard(j) == 0
    {
      if !alive(slices) {
        return 0;
      }
      var slice := if remaining < 250 then remaining else 250;
      var found := heard(slices);
      if found != 0 {
        assert FirstAnnounced(alive, heard, slices);
        return found;
      }
      remaining := remaining - slice;
      slices := slices + 1;
    }
    return 0;
  }
}
