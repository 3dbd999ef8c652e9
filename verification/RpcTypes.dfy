/** The typed calls: what the client adapters send, what the server adapters answer, field by field. */
module RpcTypes {
  import opened Integers
  import opened RpcProtocol
  import opened RpcRun

  datatype Addr = Addr(err: i32, shortAddr: u16, ep: byte)

  type Name = s: Bytes | |s| == 16 witness seq(16, _ => 0)

  datatype Basic = Basic(err: i32, manufacturer: Name, model: Name)

  datatype Temp = Temp(err: i32, measured: i16, minMeasured: i16, maxMeasured: i16, tolerance: i16)

  /** A call of the shared Zigbee interface. */
  datatype Api =
    | GetShortAddr | GetPanid | GetChannel | OpenNetwork(duration: byte) | WaitAnnce
    | FindSensor(shortAddr: u16) | ReadBasic(shortAddr: u16, ep: byte) | BindSensor(shortAddr: u16, ep: byte)
    | SubscribeSensor(shortAddr: u16, ep: byte) | ConfigReport(shortAddr: u16, ep: byte)
    | ReadTemp(shortAddr: u16, ep: byte) | GetLastTemp | GetSensorAddr

  /** What such a call returns. */
  datatype Result = U8(u8: byte) | U16(u16v: u16) | I16(i16v: i16) | I32(i32v: i32)
    | AddrResult(addr: Addr) | BasicResult(basic: Basic) | TempResult(temp: Temp)

  function ApiId(c: Api): (id: u32)
    ensures InCatalog(id)
  {
    match c
    case GetShortAddr => 1
    case GetPanid => 2
    case GetChannel => 3
    case OpenNetwork(_) => 4
    case WaitAnnce => 5
    case FindSensor(_) => 6
    case ReadBasic(_, _) => 7
    case BindSensor(_, _) => 8
    case SubscribeSensor(_, _) => 9
    case ConfigReport(_, _) => 10
    case ReadTemp(_, _) => 11
    case GetLastTemp => 12
    case GetSensorAddr => 13
  }

  /** The result type that a call is declared with. */
  predicate HasType(id: u32, r: Result)
    requires InCatalog(id)
  {
    match id
    case 3 => r.U8?
    case 4 => r.I32?
    case 6 => r.AddrResult?
    case 7 => r.BasicResult?
    case 8 => r.I32?
    case 9 => r.I32?
    case 10 => r.I32?
    case 11 => r.TempResult?
    case 12 => r.I16?
    case _ => r.U16?
  }

  // ----- the structures on the wire ------------------------------------------------------------------------------

  /** zb_addr_t. */
  function AddrBytes(a: Addr): (b: Bytes)
    ensures |b| == 7
  {
    ToLe32s(a.err) + ToLe16(a.shortAddr) + [a.ep]
  }

  function AddrOf(b: Bytes): Addr
    requires |b| == 7
  {
    Addr(FromLe32s(b[0..4]), FromLe16(b[4..6]), b[6])
  }

  /** zb_basic_t. */
  function BasicBytes(v: Basic): (b: Bytes)
    ensures |b| == 36
  {
    ToLe32s(v.err) + v.manufacturer + v.model
  }

  function BasicOf(b: Bytes): Basic
    requires |b| == 36
  {
    Basic(FromLe32s(b[0..4]), b[4..20], b[20..36])
  }

  /** zb_temp_t. */
  function TempBytes(t: Temp): (b: Bytes)
    ensures |b| == 12
  {
    ToLe32s(t.err) + ToLe16s(t.measured) + ToLe16s(t.minMeasured) + ToLe16s(t.maxMeasured) + ToLe16s(t.tolerance)
  }

  function TempOf(b: Bytes): Temp
    requires |b| == 12
  {
    Temp(FromLe32s(b[0..4]), FromLe16s(b[4..6]), FromLe16s(b[6..8]), FromLe16s(b[8..10]), FromLe16s(b[10..12]))
  }

  lemma StructuresRoundTrip(a: Addr, v: Basic, t: Temp)
    ensures AddrOf(AddrBytes(a)) == a && BasicOf(BasicBytes(v)) == v && TempOf(TempBytes(t)) == t
  {
    hide ToLe16, ToLe32s, ToLe16s, FromLe16, FromLe32s, FromLe16s;
    var b := AddrBytes(a);
    assert b[0..4] == ToLe32s(a.err) && b[4..6] == ToLe16(a.shortAddr);
    var c := BasicBytes(v);
    assert c[0..4] == ToLe32s(v.err) && c[4..20] == v.manufacturer && c[20..36] == v.model;
    var d := TempBytes(t);
    assert d[0..4] == ToLe32s(t.err) && d[4..6] == ToLe16s(t.measured) && d[6..8] == ToLe16s(t.minMeasured);
    assert d[8..10] == ToLe16s(t.maxMeasured) && d[10..12] == ToLe16s(t.tolerance);
  }

  // ----- client adapters ----------------------------------------------------------------------------------------------

  /** to_wire: only the address fields matter to the server. */
  function ToWire(shortAddr: u16, ep: byte): Bytes {
    AddrBytes(Addr(0, shortAddr, ep))
  }

  /** The request structure a client adapter sends. */
  function RequestBytes(c: Api): (b: Bytes)
    ensures |b| == RequestSize(ApiId(c))
  {
    match c
    case OpenNetwork(d) => [d]
    case FindSensor(s) => ToLe16(s)
    case ReadBasic(s, e) => ToWire(s, e)
    case BindSensor(s, e) => ToWire(s, e)
    case SubscribeSensor(s, e) => ToWire(s, e)
    case ConfigReport(s, e) => ToWire(s, e)
    case ReadTemp(s, e) => ToWire(s, e)
    case _ => []
  }

  /** What a client adapter makes of the response bytes. */
  function ResultOf(id: u32, b: Bytes): (r: Result)
    requires InCatalog(id) && |b| == ResponseSize(id)
    ensures HasType(id, r)
  {
    match id
    case 3 => U8(b[0])
    case 4 => I32(FromLe32s(b))
    case 6 => AddrResult(AddrOf(b))
    case 7 => BasicResult(BasicOf(b))
    case 8 => I32(FromLe32s(b))
    case 9 => I32(FromLe32s(b))
    case 10 => I32(FromLe32s(b))
    case 11 => TempResult(TempOf(b))
    case 12 => I16(FromLe16s(b))
    case _ => U16(FromLe16(b))
  }

  // ----- server adapters ------------------------------------------------------------------------------------------------

  /** The firmware call a handle_* adapter makes for a request. */
  function ApiOf(id: u32, b: Bytes): Api
    requires InCatalog(id) && |b| == RequestSize(id)
  {
    match id
    case 1 => GetShortAddr
    case 2 => GetPanid
    case 3 => GetChannel
    case 4 => OpenNetwork(b[0])
    case 5 => WaitAnnce
    case 6 => FindSensor(FromLe16(b))
    case 7 => ReadBasic(AddrOf(b).shortAddr, AddrOf(b).ep)
    case 8 => BindSensor(AddrOf(b).shortAddr, AddrOf(b).ep)
    case 9 => SubscribeSensor(AddrOf(b).shortAddr, AddrOf(b).ep)
    case 10 => ConfigReport(AddrOf(b).shortAddr, AddrOf(b).ep)
    case 11 => ReadTemp(AddrOf(b).shortAddr, AddrOf(b).ep)
    case 12 => GetLastTemp
    case _ => GetSensorAddr
  }

  function ResponseBytes(r: Result): Bytes {
    match r
    case U8(v) => [v]
    case U16(v) => ToLe16(v)
    case I16(v) => ToLe16s(v)
    case I32(v) => ToLe32s(v)
    case AddrResult(a) => AddrBytes(a)
    case BasicResult(v) => BasicBytes(v)
    case TempResult(t) => TempBytes(t)
  }

  /** The firmware: any function of its state and the call. */
  type Firmware<!S> = (S, Api) -> (S, Result)

  ghost predicate WellTyped<S(!new)>(fw: Firmware<S>) {
    forall s: S, c: Api {:trigger fw(s, c)} :: HasType(ApiId(c), fw(s, c).1)
  }

  /** The handler that dispatch reaches: decode, call, encode. */
  function Adapted<S>(fw: Firmware<S>): Handler<S> {
    (s: S, id: u32, b: Bytes) =>
      if InCatalog(id) && |b| == RequestSize(id)
      then var (next, r) := fw(s, ApiOf(id, b)); (next, ResponseBytes(r))
      else (s, [])
  }

  /** The server adapter calls the firmware with exactly what the client was called with. */
  lemma RequestsSurvive(c: Api)
    ensures ApiOf(ApiId(c), RequestBytes(c)) == c
  {
    hide AddrOf, AddrBytes, ToLe16, FromLe16;
    if c.ReadBasic? || c.BindSensor? || c.SubscribeSensor? || c.ConfigReport? || c.ReadTemp? {
      StructuresRoundTrip(Addr(0, c.shortAddr, c.ep), Basic(0, seq(16, _ => 0), seq(16, _ => 0)), Temp(0, 0, 0, 0, 0));
    }
  }

  /** The client adapter returns exactly what the firmware returned, signs intact. */
  lemma ResultsSurvive(id: u32, r: Result)
    requires InCatalog(id) && HasType(id, r)
    ensures |ResponseBytes(r)| == ResponseSize(id) && ResultOf(id, ResponseBytes(r)) == r
  {
    hide AddrOf, AddrBytes, BasicOf, BasicBytes, TempOf, TempBytes, ToLe16, FromLe16, ToLe16s, FromLe16s, ToLe32s, FromLe32s;
    var a := if r.AddrResult? then r.addr else Addr(0, 0, 0);
    var v := if r.BasicResult? then r.basic else Basic(0, seq(16, _ => 0), seq(16, _ => 0));
    var t := if r.TempResult? then r.temp else Temp(0, 0, 0, 0, 0);
    StructuresRoundTrip(a, v, t);
  }

  lemma AdaptedIsSound<S(!new)>(fw: Firmware<S>)
    requires WellTyped(fw)
    ensures SoundHandler(Adapted(fw))
  {
    hide ResponseBytes, ApiOf, HasType;
    var h := Adapted(fw);
    forall s: S, id: u32, b: Bytes | InCatalog(id) && |b| == RequestSize(id)
      ensures |h(s, id, b).1| == ResponseSize(id)
    {
      var c := ApiOf(id, b);
      ApiIdOf(id, b);
      ResultsSurvive(id, fw(s, c).1);
    }
  }

  lemma ApiIdOf(id: u32, b: Bytes)
    requires InCatalog(id) && |b| == RequestSize(id)
    ensures ApiId(ApiOf(id, b)) == id
  {
    hide AddrOf, FromLe16;
  }

  // ----- typed runs ---------------------------------------------------------------------------------------------------------

  function WireCalls(calls: seq<Api>): (w: seq<Call>)
    ensures |w| == |calls| && forall k :: 0 <= k < |w| ==> IsCall(w[k])
  {
    seq(|calls|, i requires 0 <= i < |calls| => Call(ApiId(calls[i]), RequestBytes(calls[i])))
  }

  /** The firmware state after the first i calls made directly, without any wire. */
  ghost function DirectState<S>(calls: seq<Api>, fw: Firmware<S>, start: S, i: nat): S
    requires i <= |calls|
  {
    if i == 0 then start else fw(DirectState(calls, fw, start, i - 1), calls[i - 1]).0
  }

  lemma {:induction false} SameStates<S(!new)>(calls: seq<Api>, fw: Firmware<S>, start: S, i: nat)
    requires WellTyped(fw) && i <= |calls|
    ensures StateAfter(WireCalls(calls), Adapted(fw), start, i) == DirectState(calls, fw, start, i)
  {
    hide ApiOf, RequestBytes, ApiId, ResponseBytes;
    if i > 0 {
      SameStates(calls, fw, start, i - 1);
      RequestsSurvive(calls[i - 1]);
    }
  }

  /**
   * Remote calls are direct calls: for every sequence of typed calls, every firmware and every fragmentation, each
   * result the client holds is the one the firmware returns when called directly, in order, with the same arguments.
   */
  lemma RemoteIsDirect<S(!new)>(calls: seq<Api>, fw: Firmware<S>, start: S, actions: seq<Action>, k: nat)
    requires WellTyped(fw) && IsRun(WireCalls(calls), Adapted(fw), Initial(WireCalls(calls), start), actions)
    requires k < |AfterRun(WireCalls(calls), Adapted(fw), Initial(WireCalls(calls), start), actions).results|
    ensures k < |calls|
    ensures
      var b := AfterRun(WireCalls(calls), Adapted(fw), Initial(WireCalls(calls), start), actions).results[k];
      && |b| == ResponseSize(ApiId(calls[k]))
      && ResultOf(ApiId(calls[k]), b) == fw(DirectState(calls, fw, start, k), calls[k]).1
  {
    hide ApiOf, RequestBytes, ApiId, ResponseBytes, ResultOf, StateAfter, DirectState, InStep, Initial, IsRun, AfterRun;
    hide HasType, SoundHandler;
    var w, h := WireCalls(calls), Adapted(fw);
    AdaptedIsSound(fw);
    InitiallyInStep(w, h, start);
    RunKeeps(w, h, start, Initial(w, start), actions);
    NeverFails(w, h, start, AfterRun(w, h, Initial(w, start), actions));
    SameStates(calls, fw, start, k);
    RequestsSurvive(calls[k]);
    ResultsSurvive(ApiId(calls[k]), fw(DirectState(calls, fw, start, k), calls[k]).1);
  }
}
