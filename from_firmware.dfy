/**
  The older revision of the flight-controller link definitions
  (`src/from_firmware.rs`). It differs from the newer one in three ways
  that change behaviour: `MsgType` stops at `Waypoints` (no `SetServoPosit`,
  no `SET_SERVO_POSIT_SIZE`), `ServoWingPosition` is absent, and the CRC
  table is a zero-initialised static filled in place by
  `crc_init(&mut lut, poly)`. It also differs in ways that do not change
  behaviour: `ServoWing` is absent, `Rotor` has neither explicit
  discriminants nor `repr(u8)` (Rust still numbers it 0 to 3), `crc_init`
  masks each entry with `& 0xff`, and `payload_size` lists `StopMotor`
  twice. `calc_crc`, `ArmStatus`, `InputModeSwitch`, `Rotor` and
  `RotorPosition` are therefore used from the newer revision.
 */
module FromFirmware {
  import opened Options
  import opened Crc8
  import Types

  // ---------------------------------------------------------------------
  // Size constants (bytes)
  // ---------------------------------------------------------------------

  const F32_BYTES: nat := 4

  const QUATERNION_SIZE: nat := F32_BYTES * 4
  const PARAMS_SIZE: nat := QUATERNION_SIZE + F32_BYTES * 4 + 1
  const CONTROLS_SIZE: nat := 18
  const LINK_STATS_SIZE: nat := 5

  const MAX_WAYPOINTS: nat := 30
  const WAYPOINT_MAX_NAME_LEN: nat := 7
  const WAYPOINT_SIZE: nat := F32_BYTES * 3 + WAYPOINT_MAX_NAME_LEN + 1
  const WAYPOINTS_SIZE: nat := MAX_WAYPOINTS * WAYPOINT_SIZE

  const PARAMS_PACKET_SIZE: nat := PARAMS_SIZE + 2
  const CONTROLS_PACKET_SIZE: nat := CONTROLS_SIZE + 2
  const LINK_STATS_PACKET_SIZE: nat := LINK_STATS_SIZE + 2
  const WAYPOINTS_PACKET_SIZE: nat := WAYPOINTS_SIZE + 2

  /** Every size constant has the same value as in the newer revision, and
      each packet size is the payload size of its message type plus the
      type byte and the CRC byte. */
  lemma SizeConstantsMatchNewer()
    ensures F32_BYTES == Types.F32_BYTES
    ensures QUATERNION_SIZE == Types.QUATERNION_SIZE
    ensures MAX_WAYPOINTS == Types.MAX_WAYPOINTS
    ensures WAYPOINT_MAX_NAME_LEN == Types.WAYPOINT_MAX_NAME_LEN
    ensures PARAMS_SIZE == Types.PARAMS_SIZE == 33
    ensures CONTROLS_SIZE == Types.CONTROLS_SIZE
    ensures LINK_STATS_SIZE == Types.LINK_STATS_SIZE
    ensures WAYPOINT_SIZE == Types.WAYPOINT_SIZE
    ensures WAYPOINTS_SIZE == Types.WAYPOINTS_SIZE == 600
    ensures PARAMS_PACKET_SIZE == Types.PARAMS_PACKET_SIZE
    ensures CONTROLS_PACKET_SIZE == Types.CONTROLS_PACKET_SIZE
    ensures LINK_STATS_PACKET_SIZE == Types.LINK_STATS_PACKET_SIZE
    ensures WAYPOINTS_PACKET_SIZE == Types.WAYPOINTS_PACKET_SIZE
    ensures PARAMS_PACKET_SIZE == PayloadSize(Params) + 2
    ensures CONTROLS_PACKET_SIZE == PayloadSize(Controls) + 2
    ensures LINK_STATS_PACKET_SIZE == PayloadSize(LinkStats) + 2
    ensures WAYPOINTS_PACKET_SIZE == PayloadSize(Waypoints) + 2
  {
  }

  // ---------------------------------------------------------------------
  // Message types
  // ---------------------------------------------------------------------

  datatype MsgType =
    | Params
    | SetMotorDirs
    | ReqParams
    | Ack
    | Controls
    | ReqControls
    | LinkStats
    | ReqLinkStats
    | ArmMotors
    | DisarmMotors
    | StartMotor
    | StopMotor
    | ReqWaypoints
    | Updatewaypoints
    | Waypoints

  /** Every message type, in discriminant order. */
  const MSG_TYPES: seq<MsgType> := [
    Params, SetMotorDirs, ReqParams, Ack, Controls, ReqControls, LinkStats,
    ReqLinkStats, ArmMotors, DisarmMotors, StartMotor, StopMotor,
    ReqWaypoints, Updatewaypoints, Waypoints
  ]

  /** `m as u8`: the explicit discriminant. */
  function MsgTypeToByte(m: MsgType): (b: Byte)
    ensures b < 15
    ensures MSG_TYPES[b as int] == m
  {
    match m
    case Params => 0
    case SetMotorDirs => 1
    case ReqParams => 2
    case Ack => 3
    case Controls => 4
    case ReqControls => 5
    case LinkStats => 6
    case ReqLinkStats => 7
    case ArmMotors => 8
    case DisarmMotors => 9
    case StartMotor => 10
    case StopMotor => 11
    case ReqWaypoints => 12
    case Updatewaypoints => 13
    case Waypoints => 14
  }

  /** `MsgType::try_from(b)`: here only bytes 0 to 14 name a message type. */
  function MsgTypeFromByte(b: Byte): (r: Option<MsgType>)
    ensures r.Some? <==> b < 15
    ensures r.Some? ==> MsgTypeToByte(r.value) == b
  {
    if b < 15 then
      var m := MSG_TYPES[b as int];
      MsgTypeDiscriminantAt(b);
      Some(m)
    else
      None
  }

  /** The list lists each variant at the position of its discriminant. */
  lemma MsgTypeDiscriminantAt(b: Byte)
    requires b < 15
    ensures MsgTypeToByte(MSG_TYPES[b as int]) == b
  {
  }

  /** Conversion inverts `as u8`. */
  lemma MsgTypeRoundTrip(m: MsgType)
    ensures MsgTypeFromByte(MsgTypeToByte(m)) == Some(m)
  {
  }

  /** `payload_size`. The source lists `StopMotor` twice, both times with
      size 1; the second arm can never be taken. */
  function PayloadSize(m: MsgType): (n: nat)
    ensures n <= WAYPOINTS_SIZE
  {
    match m
    case Params => PARAMS_SIZE
    case SetMotorDirs => 1
    case ReqParams => 0
    case Ack => 0
    case Controls => CONTROLS_SIZE
    case ReqControls => 0
    case LinkStats => LINK_STATS_SIZE
    case ReqLinkStats => 0
    case ArmMotors => 0
    case DisarmMotors => 0
    case StartMotor => 1
    case StopMotor => 1
    case ReqWaypoints => 0
    case Updatewaypoints => 10
    case Waypoints => WAYPOINTS_SIZE
  }

  // ---------------------------------------------------------------------
  // Agreement with the newer revision
  // ---------------------------------------------------------------------

  /** The newer revision's message type with the same discriminant. */
  function Newer(m: MsgType): (n: Types.MsgType)
    ensures Types.MsgTypeToByte(n) == MsgTypeToByte(m)
    ensures n != Types.SetServoPosit
  {
    Types.MsgTypeFromByte(MsgTypeToByte(m)).value
  }

  /** On the fifteen shared message types the two revisions agree on the
      payload size. */
  lemma PayloadSizeMatchesNewer(m: MsgType)
    ensures PayloadSize(m) == Types.PayloadSize(Newer(m))
  {
  }

  /** The two conversions agree on every byte except 15, which names
      `SetServoPosit` in the newer revision and nothing here. */
  lemma MsgTypeFromByteMatchesNewer(b: Byte)
    ensures MsgTypeFromByte(b).Some? <==> Types.MsgTypeFromByte(b).Some? && b != 15
    ensures MsgTypeFromByte(b).Some? ==> Types.MsgTypeFromByte(b) == Some(Newer(MsgTypeFromByte(b).value))
    ensures Types.MsgTypeFromByte(15) == Some(Types.SetServoPosit)
    ensures MsgTypeFromByte(15) == None
  {
    Types.MsgTypeRoundTrip(Types.SetServoPosit);
    if MsgTypeFromByte(b).Some? {
      var m := MsgTypeFromByte(b).value;
      Types.MsgTypeRoundTrip(Newer(m));
    }
  }

  // ---------------------------------------------------------------------
  // CRC table
  // ---------------------------------------------------------------------

  const CRC_POLY: Byte := 0xab

  /** The `& 0xff` the source applies before storing an entry. */
  lemma MaskIsIdentity(c: Byte)
    ensures c & 0xff == c
  {
  }

  /** `crc_init(lut, poly)`: overwrite every entry of the caller's table
      with eight generator rounds of its index. The result does not depend
      on what the table held before. */
  method CrcInit(lut: array<Byte>, poly: Byte)
    requires lut.Length == 256
    modifies lut
    ensures lut[..] == Table(poly)
  {
    for i := 0 to 256
      invariant forall k | 0 <= k < i :: lut[k] == Table(poly)[k]
    {
      var crc: Byte := i as Byte;
      for r := 0 to 8
        invariant crc == Rounds(i as Byte, poly, r)
        modifies {}
      {
        RoundAsWritten(crc, poly);
        crc := (crc << 1) ^ (if crc & 0x80 > 0 then poly else 0);
        RoundsNext(i as Byte, poly, r);
      }
      assert crc & 0xff == Table(poly)[i] by {
        MaskIsIdentity(crc);
        TableAtIndex(poly, i);
      }
      lut[i] := crc & 0xff;
    }
  }

  /** The static `CRC_LUT` starts as 256 zeros; after
      `crc_init(&mut CRC_LUT, CRC_POLY)` it is the table the newer revision
      computes at compile time. */
  method InitStaticLut() returns (lut: array<Byte>)
    ensures fresh(lut)
    ensures lut[..] == Types.CRC_LUT
  {
    lut := new Byte[256](_ => 0);
    CrcInit(lut, CRC_POLY);
  }
}
