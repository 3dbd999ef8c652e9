/** Wire format of the Zigbee RPC: little-endian fields, frames, and the catalog of calls. */
module RpcProtocol {
  import opened Integers

  // ----- numbers ------------------------------------------------------------------------------------------

  function ToLe16(v: u16): (b: Bytes)
    ensures |b| == 2 && FromLe16(b) == v
  {
    [v % 256, v / 256]
  }

  function FromLe16(b: Bytes): (v: u16)
    requires |b| == 2
    ensures b[0] == v % 256 && b[1] == v / 256
  {
    var b0: int, b1: int := b[0], b[1];
    b0 + 256 * b1
  }

  function ToLe32(v: u32): (b: Bytes)
    ensures |b| == 4 && FromLe32(b) == v
  {
    FourBytes(v);
    [v % 256, v / 0x100 % 256, v / 0x1_0000 % 256, v / 0x100_0000]
  }

  lemma FourBytes(v: u32)
    ensures v / 0x100_0000 < 256
    ensures v % 256 + 0x100 * (v / 0x100 % 256) + 0x1_0000 * (v / 0x1_0000 % 256) + 0x100_0000 * (v / 0x100_0000) == v
  {
    var w: int := v;
    var q1: int := w / 0x100;
    var q2: int := q1 / 0x100;
    var q3: int := q2 / 0x100;
    assert w == 0x1_0000 * q2 + (0x100 * (q1 % 0x100) + w % 0x100);
    assert w / 0x1_0000 == q2;
    assert w == 0x100_0000 * q3 + (0x1_0000 * (q2 % 0x100) + 0x100 * (q1 % 0x100) + w % 0x100);
    assert w / 0x100_0000 == q3;
  }

  function FromLe32(b: Bytes): (v: u32)
    requires |b| == 4
  {
    var b0: int, b1: int, b2: int, b3: int := b[0], b[1], b[2], b[3];
    b0 + 0x100 * b1 + 0x1_0000 * b2 + 0x100_0000 * b3
  }

  /** `static_cast<uint16_t>` and back: two's complement. */
  function ToLe16s(v: i16): (b: Bytes)
    ensures |b| == 2 && FromLe16s(b) == v
  {
    ToLe16(if v < 0 then v + 0x1_0000 else v)
  }

  function FromLe16s(b: Bytes): i16
    requires |b| == 2
  {
    var v: int := FromLe16(b);
    if v >= 0x8000 then v - 0x1_0000 else v
  }

  function ToLe32s(v: i32): (b: Bytes)
    ensures |b| == 4 && FromLe32s(b) == v
  {
    ToLe32(if v < 0 then v + 0x1_0000_0000 else v)
  }

  function FromLe32s(b: Bytes): i32
    requires |b| == 4
  {
    var v: int := FromLe32(b);
    if v >= 0x8000_0000 then v - 0x1_0000_0000 else v
  }

  // ----- frames ---------------------------------------------------------------------------------------------

  const MAGIC: u32 := 0x32435052

  function Header(id: u32, size: u32): (h: Bytes)
    ensures |h| == 12
  {
    ToLe32(MAGIC) + ToLe32(id) + ToLe32(size)
  }

  function MagicOf(h: Bytes): u32
    requires |h| == 12
  {
    FromLe32(h[0..4])
  }

  function IdOf(h: Bytes): u32
    requires |h| == 12
  {
    FromLe32(h[4..8])
  }

  function SizeOf(h: Bytes): u32
    requires |h| == 12
  {
    FromLe32(h[8..12])
  }

  lemma HeaderRoundTrip(id: u32, size: u32)
    ensures
      var h := Header(id, size);
      MagicOf(h) == MAGIC && IdOf(h) == id && SizeOf(h) == size
  {
    hide ToLe32, FromLe32;
    var h := Header(id, size);
    assert h[0..4] == ToLe32(MAGIC) && h[4..8] == ToLe32(id) && h[8..12] == ToLe32(size);
  }

  function Frame(id: u32, payload: Bytes): (f: Bytes)
    requires |payload| <= 64
    ensures |f| == 12 + |payload|
  {
    Header(id, |payload|) + payload
  }

  // ----- the catalog ------------------------------------------------------------------------------------------

  const ERROR_ID: u32 := 0

  datatype ErrorCode = None | BadMagic | OversizedPayload | UnknownApi | PayloadMismatch

  function CodeValue(e: ErrorCode): u32 {
    match e
    case None => 0
    case BadMagic => 1
    case OversizedPayload => 2
    case UnknownApi => 3
    case PayloadMismatch => 4
  }

  predicate InCatalog(id: u32) {
    1 <= id <= 13
  }

  /** Size of the request structure: 0 for the empty request. */
  function RequestSize(id: u32): (n: nat)
    requires InCatalog(id)
    ensures n <= 64
  {
    match id
    case 4 => 1
    case 6 => 2
    case 7 => 7
    case 8 => 7
    case 9 => 7
    case 10 => 7
    case 11 => 7
    case _ => 0
  }

  /** Size of the response structure. */
  function ResponseSize(id: u32): (n: nat)
    requires InCatalog(id)
    ensures 0 < n <= 64
  {
    match id
    case 3 => 1
    case 4 => 4
    case 6 => 7
    case 7 => 36
    case 8 => 4
    case 9 => 4
    case 10 => 4
    case 11 => 12
    case _ => 2
  }
}
