/**
  The newer revision of the flight-controller link definitions
  (`src/types.rs`): size constants, the message-type registry with its
  payload sizes, the byte-to-enum conversions with their defaults, the
  identifier enums, and the compile-time CRC table.
 */
module Types {
  import opened Options
  import opened Crc8

  // ---------------------------------------------------------------------
  // Size constants (bytes)
  // ---------------------------------------------------------------------

  const F32_BYTES: nat := 4

  const QUATERNION_SIZE: nat := F32_BYTES * 4
  const PARAMS_SIZE: nat := QUATERNION_SIZE + F32_BYTES * 4 + 1
  const CONTROLS_SIZE: nat := 18
  const LINK_STATS_SIZE: nat := 5

  const MAX_WAYPOINTS: nat := 30
  const WAYPOINT_MAX_NAME_LEN: nat := 7
  const WAYPOINT_SIZE: nat := F32_BYTES * 3 + WAYPOINT_MAX_NAME_LEN + 1
  const WAYPOINTS_SIZE: nat := MAX_WAYPOINTS * WAYPOINT_SIZE
  const SET_SERVO_POSIT_SIZE: nat := 1 + F32_BYTES

  const PARAMS_PACKET_SIZE: nat := PARAMS_SIZE + 2
  const CONTROLS_PACKET_SIZE: nat := CONTROLS_SIZE + 2
  const LINK_STATS_PACKET_SIZE: nat := LINK_STATS_SIZE + 2
  const WAYPOINTS_PACKET_SIZE: nat := WAYPOINTS_SIZE + 2

  // ---------------------------------------------------------------------
  // Message types
  // ---------------------------------------------------------------------

  datatype MsgType =
    | Params
    | SetMotorDirs
    | ReqParams
    | Ack
    | Controls
    | ReqControls
    | LinkStats
    | ReqLinkStats
    | ArmMotors
    | DisarmMotors
    | StartMotor
    | StopMotor
    | ReqWaypoints
    | Updatewaypoints
    | Waypoints
    | SetServoPosit

  /** Every message type, in discriminant order. */
  const MSG_TYPES: seq<MsgType> := [
    Params, SetMotorDirs, ReqParams, Ack, Controls, ReqControls, LinkStats,
    ReqLinkStats, ArmMotors, DisarmMotors, StartMotor, StopMotor,
    ReqWaypoints, Updatewaypoints, Waypoints, SetServoPosit
  ]

  /** `m as u8`: the explicit discriminant. */
  function MsgTypeToByte(m: MsgType): (b: Byte)
    ensures b < 16
    ensures MSG_TYPES[b as int] == m
  {
    match m
    case Params => 0
    case SetMotorDirs => 1
    case ReqParams => 2
    case Ack => 3
    case Controls => 4
    case ReqControls => 5
    case LinkStats => 6
    case ReqLinkStats => 7
    case ArmMotors => 8
    case DisarmMotors => 9
    case StartMotor => 10
    case StopMotor => 11
    case ReqWaypoints => 12
    case Updatewaypoints => 13
    case Waypoints => 14
    case SetServoPosit => 15
  }

  /** `MsgType::try_from(b)`: the variant whose discriminant is `b`, and an
      error for every byte that is no discriminant. */
  function MsgTypeFromByte(b: Byte): (r: Option<MsgType>)
    ensures r.Some? <==> b < 16
    ensures r.Some? ==> MsgTypeToByte(r.value) == b
  {
    if b < 16 then
      var m := MSG_TYPES[b as int];
      MsgTypeDiscriminantAt(b);
      Some(m)
    else
      None
  }

  /** The list lists each variant at the position of its discriminant. */
  lemma MsgTypeDiscriminantAt(b: Byte)
    requires b < 16
    ensures MsgTypeToByte(MSG_TYPES[b as int]) == b
  {
  }

  /** Conversion inverts `as u8`. */
  lemma MsgTypeRoundTrip(m: MsgType)
    ensures MsgTypeFromByte(MsgTypeToByte(m)) == Some(m)
  {
  }

  /** Distinct message types have distinct discriminants. */
  lemma MsgTypeToByteInjective(m: MsgType, n: MsgType)
    ensures MsgTypeToByte(m) == MsgTypeToByte(n) <==> m == n
  {
    MsgTypeRoundTrip(m);
    MsgTypeRoundTrip(n);
  }

  /** `payload_size`: the number of payload bytes a message of this type
      carries.  */
  function PayloadSize(m: MsgType): (n: nat)
    ensures n <= WAYPOINTS_SIZE
  {
    match m
    case Params => PARAMS_SIZE
    case SetMotorDirs => 1
    case ReqParams => 0
    case Ack => 0
    case Controls => CONTROLS_SIZE
    case ReqControls => 0
    case LinkStats => LINK_STATS_SIZE
    case ReqLinkStats => 0
    case ArmMotors => 0
    case DisarmMotors => 0
    case StartMotor => 1
    case StopMotor => 1
    case ReqWaypoints => 0
    case Updatewaypoints => 10
    case Waypoints => WAYPOINTS_SIZE
    case SetServoPosit => SET_SERVO_POSIT_SIZE
  }

  /** The message types that carry no payload: the requests, the
      acknowledgement and the arm/disarm commands. */
  predicate Bare(m: MsgType) {
    m in {ReqParams, Ack, ReqControls, ReqLinkStats, ArmMotors, DisarmMotors, ReqWaypoints}
  }

  /** The message types with a one-byte payload. */
  predicate OneByte(m: MsgType) {
    m in {SetMotorDirs, StartMotor, StopMotor}
  }

  /** The payload sizes, by class. */
  lemma PayloadSizeClasses(m: MsgType)
    ensures PayloadSize(m) == 0 <==> Bare(m)
    ensures PayloadSize(m) == 1 <==> OneByte(m)
    ensures PayloadSize(m) == WAYPOINTS_SIZE <==> m == Waypoints
  {
  }

  /** The size constants have the values their derivations give, and the
      payload constants are the payload sizes of their message types
      (`QUATERNION_SIZE` and `WAYPOINT_SIZE` are building blocks, not
      payloads). */
  lemma SizeConstants()
    ensures QUATERNION_SIZE == 16
    ensures PayloadSize(Params) == PARAMS_SIZE == 33
    ensures PayloadSize(Controls) == CONTROLS_SIZE == 18
    ensures PayloadSize(LinkStats) == LINK_STATS_SIZE == 5
    ensures WAYPOINT_SIZE == 20
    ensures PayloadSize(Waypoints) == WAYPOINTS_SIZE == 600
    ensures PayloadSize(SetServoPosit) == SET_SERVO_POSIT_SIZE == 5
    ensures PayloadSize(Updatewaypoints) == 10
  {
  }

  /** Length of the whole packet of a message type: the payload plus the
      type byte and the CRC byte. The source states this rule only in a
      comment and writes `+ 2` in each constant; the name is the model's. */
  function PacketSize(m: MsgType): nat {
    PayloadSize(m) + 2
  }

  /** Each packet-size constant is its type's payload plus the type byte and
      the CRC byte. */
  lemma PacketSizeConstants()
    ensures PacketSize(Params) == PARAMS_PACKET_SIZE == 35
    ensures PacketSize(Controls) == CONTROLS_PACKET_SIZE == 20
    ensures PacketSize(LinkStats) == LINK_STATS_PACKET_SIZE == 7
    ensures PacketSize(Waypoints) == WAYPOINTS_PACKET_SIZE == 602
  {
  }

  /** The CRC covers the type byte and the payload. `calc_crc` counts bytes
      in a `u8`, so it can cover a message type exactly when that span is
      at most 255 bytes. */
  predicate CrcSpanFitsU8(m: MsgType) {
    1 + PayloadSize(m) < 256
  }

  /** Only a waypoints message is too long for `calc_crc`'s `u8` count:
      its type byte and payload are 601 bytes. */
  lemma CrcSpanFitsExceptWaypoints(m: MsgType)
    ensures CrcSpanFitsU8(m) <==> m != Waypoints
  {
    SizeConstants();
  }

  // ---------------------------------------------------------------------
  // Input mode and arm status (identical in both revisions)
  // ---------------------------------------------------------------------

  datatype InputModeSwitch = Acro | AttitudeCommand

  function InputModeToByte(s: InputModeSwitch): (b: Byte)
    ensures b <= 1
  {
    match s
    case Acro => 0
    case AttitudeCommand => 1
  }

  /** `InputModeSwitch::try_from(b)`. */
  function InputModeFromByte(b: Byte): (r: Option<InputModeSwitch>)
    ensures r.Some? <==> b <= 1
    ensures r.Some? ==> InputModeToByte(r.value) == b
  {
    if b == 0 then Some(Acro)
    else if b == 1 then Some(AttitudeCommand)
    else None
  }

  lemma InputModeRoundTrip(s: InputModeSwitch)
    ensures InputModeFromByte(InputModeToByte(s)) == Some(s)
  {
  }

  /** `InputModeSwitch::default()`: the mode a zero byte decodes to. */
  function DefaultInputMode(): (s: InputModeSwitch)
    ensures InputModeToByte(s) == 0
    ensures InputModeFromByte(0) == Some(s)
  {
    Acro
  }

  datatype ArmStatus = Disarmed | Armed

  function ArmStatusToByte(s: ArmStatus): (b: Byte)
    ensures b <= 1
  {
    match s
    case Disarmed => 0
    case Armed => 1
  }

  /** `ArmStatus::try_from(b)`. */
  function ArmStatusFromByte(b: Byte): (r: Option<ArmStatus>)
    ensures r.Some? <==> b <= 1
    ensures r.Some? ==> ArmStatusToByte(r.value) == b
  {
    if b == 0 then Some(Disarmed)
    else if b == 1 then Some(Armed)
    else None
  }

  lemma ArmStatusRoundTrip(s: ArmStatus)
    ensures ArmStatusFromByte(ArmStatusToByte(s)) == Some(s)
  {
  }

  /** `ArmStatus::default()`: the status a zero byte decodes to. */
  function DefaultArmStatus(): (s: ArmStatus)
    ensures ArmStatusToByte(s) == 0
    ensures ArmStatusFromByte(0) == Some(s)
  {
    Disarmed
  }

  // ---------------------------------------------------------------------
  // Identifier enums
  // ---------------------------------------------------------------------

  datatype Rotor = R1 | R2 | R3 | R4

  function RotorToByte(r: Rotor): (b: Byte)
    ensures b < 4
  {
    match r
    case R1 => 0
    case R2 => 1
    case R3 => 2
    case R4 => 3
  }

  lemma RotorToByteInjective(r: Rotor, s: Rotor)
    ensures RotorToByte(r) == RotorToByte(s) <==> r == s
  {
  }

  datatype RotorPosition = FrontLeft | FrontRight | AftLeft | AftRight

  function RotorPositionToByte(p: RotorPosition): (b: Byte)
    ensures b < 4
  {
    match p
    case FrontLeft => 0
    case FrontRight => 1
    case AftLeft => 2
    case AftRight => 3
  }

  lemma RotorPositionToByteInjective(p: RotorPosition, q: RotorPosition)
    ensures RotorPositionToByte(p) == RotorPositionToByte(q) <==> p == q
  {
  }

  datatype ServoWingPosition = Left | Right

  function ServoWingPositionToByte(p: ServoWingPosition): (b: Byte)
    ensures b < 2
  {
    match p
    case Left => 0
    case Right => 1
  }

  lemma ServoWingPositionToByteInjective(p: ServoWingPosition, q: ServoWingPosition)
    ensures ServoWingPositionToByte(p) == ServoWingPositionToByte(q) <==> p == q
  {
  }

  // ---------------------------------------------------------------------
  // CRC table
  // ---------------------------------------------------------------------

  const CRC_POLY: Byte := 0xab

  /** The table `crc_init(CRC_POLY)` evaluates to at compile time. */
  const CRC_LUT: seq<Byte> := Table(CRC_POLY)

  /** `crc_init(poly)`: a zeroed 256-entry array filled, index by index,
      with eight generator rounds of the index. */
  method CrcInit(poly: Byte) returns (lut: seq<Byte>)
    ensures lut == Table(poly)
  {
    var a := new Byte[256](_ => 0);
    var i := 0;
    while i < 256
      invariant 0 <= i <= 256
      invariant forall k | 0 <= k < i :: a[k] == Table(poly)[k]
    {
      var crc: Byte := i as Byte;
      var j := 0;
      while j < 8
        invariant 0 <= j <= 8
        invariant crc == Rounds(i as Byte, poly, j)
        modifies {}
      {
        RoundAsWritten(crc, poly);
        crc := (crc << 1) ^ (if crc & 0x80 > 0 then poly else 0);
        RoundsNext(i as Byte, poly, j);
        j := j + 1;
      }
      assert crc == Table(poly)[i] by {
        TableAtIndex(poly, i);
      }
      a[i] := crc;
      i := i + 1;
    }
    lut := a[..];
  }

  /** Concrete entries of `CRC_LUT`. */
  lemma CrcLutEntries()
    ensures Lookup(CRC_LUT, 0) == 0x00
    ensures Lookup(CRC_LUT, 1) == 0xab
    ensures Lookup(CRC_LUT, 2) == 0xfd
    ensures Lookup(CRC_LUT, 0x80) == 0x7f
    ensures Lookup(CRC_LUT, 0xff) == 0xaa
  {
    TableZeroAndOne(CRC_POLY);
    TableAt(CRC_POLY, 2);
    TableAt(CRC_POLY, 0x80);
    TableAt(CRC_POLY, 0xff);
  }

  /** The polynomial has its unit term, so everything proved in `Crc8`
      for such polynomials holds for `CRC_LUT`: it is a permutation of the
      byte values, and a packet checked against it detects every single-byte
      error. */
  lemma CrcPolyHasUnitTerm()
    ensures HasUnitTerm(CRC_POLY)
    ensures Injective(CRC_LUT)
  {
    TableIsInjective(CRC_POLY);
  }
}
