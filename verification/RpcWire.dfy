/** The frames byte by byte: what goes over the wire for every call, result and error. */
module RpcWire {
  import opened Integers
  import opened RpcProtocol
  import opened RpcTypes
  import opened RpcEngine
  import opened RpcAdapters

  /** "RPC2", then id and size, for the small numbers that occur. */
  function Head(id: byte, size: byte): (h: Bytes)
    ensures |h| == 12
  {
    [0x52, 0x50, 0x43, 0x32, id, 0, 0, 0, size, 0, 0, 0]
  }

  lemma HeaderBytes(id: byte, size: byte)
    ensures Header(id, size) == Head(id, size)
  {
  }

  /** Two bytes, the low one first. */
  function Half(v: u16): Bytes {
    [v % 256, v / 256]
  }

  /** Four bytes of a two's complement number, the low one first. */
  function Whole(v: i32): (b: Bytes)
    ensures |b| == 4
  {
    var w: nat := if v < 0 then v + 0x1_0000_0000 else v;
    [w % 256, w / 256 % 256, w / 65536 % 256, w / 16777216 % 256]
  }

  function SignedHalf(v: i16): (b: Bytes)
    ensures |b| == 2
  {
    Half(if v < 0 then v + 0x1_0000 else v)
  }

  /** An address structure with error 0, as requests carry it. */
  function Target(s: u16, ep: byte): (b: Bytes)
    ensures |b| == 7
  {
    [0, 0, 0, 0, s % 256, s / 256, ep]
  }

  /** The request frame of every call. */
  function RequestOnWire(c: Api): Bytes {
    match c
    case GetShortAddr => Head(1, 0)
    case GetPanid => Head(2, 0)
    case GetChannel => Head(3, 0)
    case OpenNetwork(duration) => Head(4, 1) + [duration]
    case WaitAnnce => Head(5, 0)
    case FindSensor(s) => Head(6, 2) + Half(s)
    case ReadBasic(s, ep) => Head(7, 7) + Target(s, ep)
    case BindSensor(s, ep) => Head(8, 7) + Target(s, ep)
    case SubscribeSensor(s, ep) => Head(9, 7) + Target(s, ep)
    case ConfigReport(s, ep) => Head(10, 7) + Target(s, ep)
    case ReadTemp(s, ep) => Head(11, 7) + Target(s, ep)
    case GetLastTemp => Head(12, 0)
    case GetSensorAddr => Head(13, 0)
  }

  lemma WholeIsLittleEndian(v: i32)
    ensures ToLe32s(v) == Whole(v)
  {
    FourBytes(if v < 0 then v + 0x1_0000_0000 else v);
  }

  lemma ZeroWhole()
    ensures Whole(0) == [0, 0, 0, 0]
  {
  }

  lemma RequestFrames(c: Api)
    ensures Frame(ApiId(c), RequestBytes(c)) == RequestOnWire(c)
  {
    hide Header, Head, Whole, ToLe32s;
    WholeIsLittleEndian(0);
    ZeroWhole();
    HeaderBytes(ApiId(c), RequestSize(ApiId(c)));
  }

  /** The bytes of every result a call may have. */
  function ValueOnWire(r: Result): Bytes {
    match r
    case U8(v) => [v]
    case U16(v) => Half(v)
    case I16(v) => SignedHalf(v)
    case I32(v) => Whole(v)
    case AddrResult(a) => Whole(a.err) + Half(a.shortAddr) + [a.ep]
    case BasicResult(v) => Whole(v.err) + v.manufacturer + v.model
    case TempResult(t) =>
      Whole(t.err) + SignedHalf(t.measured) + SignedHalf(t.minMeasured) + SignedHalf(t.maxMeasured) + SignedHalf(t.tolerance)
  }

  function ValueSize(r: Result): byte {
    match r
    case U8(_) => 1
    case U16(_) => 2
    case I16(_) => 2
    case I32(_) => 4
    case AddrResult(_) => 7
    case BasicResult(_) => 36
    case TempResult(_) => 12
  }

  lemma ValueBytes(r: Result)
    ensures ResponseBytes(r) == ValueOnWire(r)
  {
    hide Whole, ToLe32s;
    WholeIsLittleEndian(
      match r case I32(v) => v case AddrResult(a) => a.err case BasicResult(v) => v.err case TempResult(t) => t.err case _ => 0);
  }

  lemma ResponseFrames(id: u32, r: Result)
    requires InCatalog(id) && HasType(id, r)
    ensures |ResponseBytes(r)| <= 64 && Frame(id, ResponseBytes(r)) == Head(id, ValueSize(r)) + ValueOnWire(r)
  {
    hide Header, Head, ValueOnWire, ResponseBytes, ResultOf;
    HeaderBytes(id, ValueSize(r));
    ValueBytes(r);
    ResultsSurvive(id, r);
  }

  /** Error frames have id 0 and a four-byte code. */
  lemma ErrorFrames()
    ensures ErrorFrame(BadMagic) == Head(0, 4) + [1, 0, 0, 0]
    ensures ErrorFrame(OversizedPayload) == Head(0, 4) + [2, 0, 0, 0]
    ensures ErrorFrame(UnknownApi) == Head(0, 4) + [3, 0, 0, 0]
    ensures ErrorFrame(PayloadMismatch) == Head(0, 4) + [4, 0, 0, 0]
  {
    hide Header, Head;
    HeaderBytes(0, 4);
  }

  /**
   * When a call fails, error codes are -1 and everything beside them is zero; the sensor's address is 65535, and the
   * other numbers are zero.
   */
  lemma FailureValues(c: Api)
    ensures
      match FailureResult(c)
      case U8(v) => v == 0
      case U16(v) => v == if c == GetSensorAddr then 65535 else 0
      case I16(v) => v == 0
      case I32(v) => v == -1
      case AddrResult(a) => a.err == -1 && a.shortAddr == 0 && a.ep == 0
      case BasicResult(v) => v.err == -1 && forall k :: 0 <= k < 16 ==> v.manufacturer[k] == 0 && v.model[k] == 0
      case TempResult(t) => t.err == -1 && t.measured == 0 && t.minMeasured == 0 && t.maxMeasured == 0 && t.tolerance == 0
  {
  }
}
