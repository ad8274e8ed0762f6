/**
 * The ICAN protocol definitions shared by every node: the 29-bit extended
 * identifier layout with its field extractors and comparisons, the
 * enumerations and their string tables, the packed relay payload, and the
 * frame shape a dispatcher receives.
 */
module Ican {

  // ---------------------------------------------------------------------
  // Identifier layout (ISO 11898-1 extended identifier, 29 bits)
  // ---------------------------------------------------------------------

  const ID_NG_MASK: bv32 := 0x1000_0000
  const ID_GROUP_MASK: bv32 := 0x0FC0_0000
  const ID_TYPE_MASK: bv32 := 0x003F_0000
  const ID_ID_MASK: bv32 := 0x0000_FF00
  const ID_MSG_MASK: bv32 := 0x0000_00FF

  /** The five field masks do not overlap and together cover exactly 29 bits. */
  lemma MasksPartitionIdentifier()
    ensures ID_NG_MASK & ID_GROUP_MASK == 0 && ID_NG_MASK & ID_TYPE_MASK == 0
    ensures ID_NG_MASK & ID_ID_MASK == 0 && ID_NG_MASK & ID_MSG_MASK == 0
    ensures ID_GROUP_MASK & ID_TYPE_MASK == 0 && ID_GROUP_MASK & ID_ID_MASK == 0
    ensures ID_GROUP_MASK & ID_MSG_MASK == 0 && ID_TYPE_MASK & ID_ID_MASK == 0
    ensures ID_TYPE_MASK & ID_MSG_MASK == 0 && ID_ID_MASK & ID_MSG_MASK == 0
    ensures ID_NG_MASK | ID_GROUP_MASK | ID_TYPE_MASK | ID_ID_MASK | ID_MSG_MASK == 0x1FFF_FFFF
  {
  }

  predicate IsNg(id: bv32) {
    id & ID_NG_MASK != 0
  }

  /** The 6-bit group field. */
  function GetGroup(id: bv32): (r: bv32)
    ensures r < 64
    ensures r << 22 == id & ID_GROUP_MASK
  {
    (id & ID_GROUP_MASK) >> 22
  }

  /** The 6-bit device-type field. */
  function GetType(id: bv32): (r: bv32)
    ensures r < 64
    ensures r << 16 == id & ID_TYPE_MASK
  {
    (id & ID_TYPE_MASK) >> 16
  }

  /** The 8-bit device-id field. */
  function GetId(id: bv32): (r: bv32)
    ensures r < 256
    ensures r << 8 == id & ID_ID_MASK
  {
    (id & ID_ID_MASK) >> 8
  }

  /** Everything but the message byte. */
  function GetNotMsg(id: bv32): (r: bv32)
    ensures r & ID_MSG_MASK == 0
    ensures r | (id & ID_MSG_MASK) == id
  {
    id & !ID_MSG_MASK
  }

  /** The 8-bit message id; with GetNotMsg it reassembles the identifier. */
  function GetMsg(id: bv32): (r: bv8)
    ensures GetNotMsg(id) | (r as bv32) == id
  {
    (id & ID_MSG_MASK) as bv8
  }

  lemma NotMsgHasNoMessage(id: bv32)
    ensures GetMsg(GetNotMsg(id)) == 0
    ensures GetNotMsg(GetNotMsg(id)) == GetNotMsg(id)
  {
  }

  /** An identifier is the union of its five fields, each put back in place. */
  lemma FieldsReassemble(id: bv32)
    ensures (id & ID_NG_MASK) | (GetGroup(id) << 22) | (GetType(id) << 16)
            | (GetId(id) << 8) | (GetMsg(id) as bv32) == id & 0x1FFF_FFFF
  {
  }

  /**
   * Places a device-type enumerator value in the type field. The enumerator
   * is first narrowed to 8 bits, then masked to the 6-bit field.
   */
  function TypeToId(t: bv32): (r: bv32)
    ensures r & !ID_TYPE_MASK == 0
    ensures GetType(r) == t & 0x3F
  {
    (((t & 0xFF) as bv8) as bv32 << 16) & ID_TYPE_MASK
  }

  /** Places a device id in the device-id field. */
  function DidToId(d: bv8): (r: bv32)
    ensures r & !ID_ID_MASK == 0
    ensures GetId(r) == d as bv32
  {
    ((d as bv32) << 8) & ID_ID_MASK
  }

  predicate TypeCompare(id: bv32, t: bv8)
    ensures TypeCompare(id, t) ==> IsNg(id)
    ensures t >= 64 ==> !TypeCompare(id, t)
  {
    IsNg(id) && GetType(id) == t as bv32
  }

  predicate IdCompare(id: bv32, d: bv8)
    ensures IdCompare(id, d) ==> IsNg(id)
  {
    IsNg(id) && GetId(id) == d as bv32
  }

  predicate MsgCompare(id: bv32, m: bv8)
    ensures MsgCompare(id, m) ==> IsNg(id)
  {
    IsNg(id) && GetMsg(id) == m
  }

  /** None of the three comparisons holds for a frame without the NG bit. */
  lemma CompareNeedsNg(id: bv32, t: bv8, d: bv8, m: bv8)
    requires !IsNg(id)
    ensures !TypeCompare(id, t) && !IdCompare(id, d) && !MsgCompare(id, m)
  {
  }

  // ---------------------------------------------------------------------
  // Message ids and other one-byte enumerations
  // ---------------------------------------------------------------------

  const AVAILABLE: bv8 := 0
  const DEVICE_ERROR: bv8 := 1
  const RESTART: bv8 := 2
  const DEVICE_UID0: bv8 := 3
  const DEVICE_UID1: bv8 := 4
  const DEVICE_ID_TYPE: bv8 := 5
  const DEVICE_GROUP: bv8 := 6
  const BAUDRATE: bv8 := 8
  const UPTIME: bv8 := 9
  const CUSTOM_STRING: bv8 := 10
  const REQUEST_PARAMETER: bv8 := 12
  const APPLICATION_VERSION_STRING: bv8 := 13
  const UPDATE_SILENCE: bv8 := 14
  const FLASH_WRITE: bv8 := 19
  const FLASH_VERIFY: bv8 := 20
  const BUTTON_EVENT: bv8 := 30
  const HW_REV: bv8 := 41
  const SENSOR_LEGACY_MODE: bv8 := 42
  const RELAIS: bv8 := 130

  // AVAILABLE_t
  const NOT_READY: bv8 := 0
  const APPLICATION: bv8 := 1
  const UPDATE_MODE: bv8 := 2

  // ERROR_t component tag of the bus transport
  const COMPONENT_CAN: bv8 := 5

  /** BUTTON_EVENT_t: the state byte of a button event. */
  datatype ButtonEvent = Released | Pressed | Hold | Single | Double | Tripple
  {
    function Code(): bv8 {
      match this
      case Released => 0
      case Pressed => 1
      case Hold => 2
      case Single => 3
      case Double => 4
      case Tripple => 5
    }
  }

  // ---------------------------------------------------------------------
  // Device types and their names
  // ---------------------------------------------------------------------

  datatype DeviceType =
    | Unknown | LegacyRelais | LegacyLamps | Button | Relais | Gateway | Rollershutter | SSR
  {
    /** The enumerator value of DEVICE_t. */
    function Code(): bv32 {
      match this
      case Unknown => 0x00
      case LegacyRelais => 0x02
      case LegacyLamps => 0x03
      case Button => 0x04
      case Relais => 0x05
      case Gateway => 0x06
      case Rollershutter => 0x07
      case SSR => 0x08
    }
  }

  const DEVICE_NAMES: set<string> :=
    {"LegacyRelais", "LegacyLamps", "Button", "Relais", "Gateway", "Rollershutter", "SSR"}

  function DeviceString(d: DeviceType): string {
    match d
    case LegacyRelais => "LegacyRelais"
    case LegacyLamps => "LegacyLamps"
    case Button => "Button"
    case Relais => "Relais"
    case Gateway => "Gateway"
    case Rollershutter => "Rollershutter"
    case SSR => "SSR"
    case Unknown => "Unknown"
  }

  /** Parses a device-type name; any string that is not one of the seven names is Unknown. */
  function DeviceTypeOf(s: string): (r: DeviceType)
    ensures r == Unknown <==> s !in DEVICE_NAMES
    ensures r != Unknown ==> DeviceString(r) == s
  {
    if s == "LegacyRelais" then LegacyRelais
    else if s == "LegacyLamps" then LegacyLamps
    else if s == "Button" then Button
    else if s == "Relais" then Relais
    else if s == "Gateway" then Gateway
    else if s == "Rollershutter" then Rollershutter
    else if s == "SSR" then SSR
    else Unknown
  }

  lemma DeviceTypeRoundTrip(d: DeviceType)
    ensures DeviceTypeOf(DeviceString(d)) == d
  {
  }

  /** Every named type lies in the 6-bit type field unchanged. */
  lemma DeviceTypeFitsField(d: DeviceType)
    ensures GetType(TypeToId(d.Code())) == d.Code()
  {
  }

  // ---------------------------------------------------------------------
  // Bus bitrates
  // ---------------------------------------------------------------------

  datatype Bitrate = Bitrate22_222 | Bitrate25 | Bitrate50 | Bitrate100
  {
    /** The enumerator value of BITRATE_t, as stored under "can_bitrate". */
    function Code(): bv8 {
      match this
      case Bitrate22_222 => 1
      case Bitrate25 => 2
      case Bitrate50 => 3
      case Bitrate100 => 4
    }

    /** The bit rate in bits per second that the preset selects. */
    function Rate(): nat {
      match this
      case Bitrate22_222 => 22222
      case Bitrate25 => 25000
      case Bitrate50 => 50000
      case Bitrate100 => 100000
    }
  }

  /** Selects the preset for a rate in bit/s; an unsupported rate falls back to 50 kbit/s. */
  function BitrateOfRate(i: nat): (r: Bitrate)
    ensures r.Rate() == i || (r == Bitrate50 && i !in {22222, 25000, 50000, 100000})
  {
    if i == 22222 then Bitrate22_222
    else if i == 25000 then Bitrate25
    else if i == 50000 then Bitrate50
    else if i == 100000 then Bitrate100
    else Bitrate50
  }

  lemma BitrateRateRoundTrip(b: Bitrate)
    ensures BitrateOfRate(b.Rate()) == b
  {
  }

  const BITRATE_NAMES: set<string> := {"b22_222", "b25", "b50", "b100"}

  function BitrateString(b: Bitrate): string {
    match b
    case Bitrate22_222 => "b22_222"
    case Bitrate25 => "b25"
    case Bitrate50 => "b50"
    case Bitrate100 => "b100"
  }

  /** Parses a preset name; an unknown name falls back to 50 kbit/s. */
  function BitrateOfName(s: string): (r: Bitrate)
    ensures s in BITRATE_NAMES ==> BitrateString(r) == s
    ensures s !in BITRATE_NAMES ==> r == Bitrate50
  {
    if s == "b22_222" then Bitrate22_222
    else if s == "b25" then Bitrate25
    else if s == "b50" then Bitrate50
    else if s == "b100" then Bitrate100
    else Bitrate50
  }

  lemma BitrateNameRoundTrip(b: Bitrate)
    ensures BitrateOfName(BitrateString(b)) == b
  {
  }

  // ---------------------------------------------------------------------
  // Byte helpers
  // ---------------------------------------------------------------------

  /**
   * A zero-initialised buffer of `size` bytes into which the first bytes
   * of `src` have been copied; positions past the end of `src` stay zero.
   */
  function ZeroFill(src: seq<bv8>, size: nat): (r: seq<bv8>)
    ensures |r| == size
    ensures forall i :: 0 <= i < size ==> r[i] == if i < |src| then src[i] else 0
  {
    seq(size, i requires 0 <= i < size => if i < |src| then src[i] else 0)
  }

  /** The four bytes of a 32-bit word, least significant first. */
  function Le32(x: bv32): (r: seq<bv8>)
    ensures |r| == 4
  {
    [(x & 0xFF) as bv8, ((x >> 8) & 0xFF) as bv8, ((x >> 16) & 0xFF) as bv8, (x >> 24) as bv8]
  }

  function FromLe32(b: seq<bv8>): bv32
    requires |b| == 4
  {
    (b[0] as bv32) | ((b[1] as bv32) << 8) | ((b[2] as bv32) << 16) | ((b[3] as bv32) << 24)
  }

  lemma Le32RoundTrip(x: bv32, b: seq<bv8>)
    ensures FromLe32(Le32(x)) == x
    ensures |b| == 4 ==> Le32(FromLe32(b)) == b
  {
  }

  // ---------------------------------------------------------------------
  // RELAIS_MSG_t: the packed 8-byte relay command
  // ---------------------------------------------------------------------

  /** number: byte 0; state: byte 1; time: bytes 2-4 (little-endian); bank: byte 5; reserved: bytes 6-7. */
  datatype RelaisMsg = RelaisMsg(number: bv8, state: bv8, time: bv24, bank: bv8, reserved: bv16)

  function EncodeRelais(m: RelaisMsg): (r: seq<bv8>)
    ensures |r| == 8
    ensures r[0] == m.number && r[1] == m.state && r[5] == m.bank
  {
    [m.number, m.state,
     (m.time & 0xFF) as bv8, ((m.time >> 8) & 0xFF) as bv8, (m.time >> 16) as bv8,
     m.bank,
     (m.reserved & 0xFF) as bv8, (m.reserved >> 8) as bv8]
  }

  function DecodeRelais(b: seq<bv8>): (m: RelaisMsg)
    requires |b| == 8
    ensures m.number == b[0] && m.state == b[1] && m.bank == b[5]
  {
    RelaisMsg(b[0], b[1],
      (b[2] as bv24) | ((b[3] as bv24) << 8) | ((b[4] as bv24) << 16),
      b[5],
      (b[6] as bv16) | ((b[7] as bv16) << 8))
  }

  /** The packed layout is a bijection between relay commands and 8-byte buffers. */
  lemma RelaisLayoutRoundTrip(m: RelaisMsg, b: seq<bv8>)
    ensures DecodeRelais(EncodeRelais(m)) == m
    ensures |b| == 8 ==> EncodeRelais(DecodeRelais(b)) == b
  {
  }

  // ---------------------------------------------------------------------
  // What a dispatcher sees and what it asks to send
  // ---------------------------------------------------------------------

  /**
   * A received frame as handed to ICANDispatcher::dispatch: the identifier,
   * the transceiver's 8-byte data buffer, the data length code and the
   * remote-request flag. Bytes of `data` past `len` are whatever the
   * buffer holds.
   */
  datatype Frame = Frame(id: bv32, data: seq<bv8>, len: nat, request: bool)
  {
    predicate Valid() {
      |data| == 8 && len <= 8
    }

    function Msg(): bv8 {
      GetMsg(id)
    }
  }

  /** A request to send message `msg` with payload `data` (never a remote request). */
  datatype Out = Out(msg: bv8, data: seq<bv8>)

  /** What a handler did with a frame: its new state, what it sent, and whether it claimed the frame. */
  datatype Reaction<S> = Reaction(state: S, out: seq<Out>, claimed: bool)
}
