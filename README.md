# Flight-controller link protocol definitions in Dafny

This project models the binary-protocol definitions that a ground station
shares with its flight controller over a serial link. The definitions exist
in two near-identical revisions: `src/types.rs`, the newer one, and
`src/from_firmware.rs`, the one the program imports. Both revisions contain
four pieces:

- **CRC-8 engine.**
  - `crc_init` builds a 256-entry lookup table from the polynomial `0xab`.
    Each entry is eight rounds of "shift left one bit; xor in the polynomial
    if the bit shifted out was set".
  - `calc_crc` folds `crc := lut[crc ^ data[i]]` over the first `size`
    bytes, starting from 0.
  - This is a plain MSB-first CRC-8: no reflection, no initial value, no
    final xor.
- **Message-type registry.**
  - `MsgType` has fixed `u8` discriminants.
  - `payload_size` gives each message type's payload length.
  - The size constants derive from it; a packet is its payload plus the type
    byte and the CRC byte.
- **Byte-to-enum conversions** (`TryFromPrimitive`) for `MsgType`,
  `ArmStatus` and `InputModeSwitch`, and the `Default` of the last two.
- **Identifier enums** `Rotor`, `RotorPosition` and `ServoWingPosition`,
  with their discriminants.

## Layout

| file | module | models |
|---|---|---|
| `options.dfy` | `Options` | the `Option` result of a fallible conversion |
| `crc8.dfy` | `Crc8` | the reference definition of the table and the checksum fold, their properties, and `calc_crc` |
| `types.dfy` | `Types` | `src/types.rs` |
| `from_firmware.dfy` | `FromFirmware` | `src/from_firmware.rs` |

`Crc8.Table(poly)` is the table as a function: entry `i` is `Rounds(i, poly, 8)`.
`Crc8.Crc(lut, data)` is the fold. Both revisions' `crc_init` are methods with
their loops, proved to produce `Table(poly)`:

- the newer revision's is a `const fn` returning a fresh array, so
  `Types.CrcInit` returns a sequence;
- the older revision's overwrites the caller's `&mut [u8; 256]`, so
  `FromFirmware.CrcInit` writes an `array` in place.

Some code is the same in both revisions and is modelled once, in `Types` or
`Crc8`:

- `calc_crc` is textually identical (`src/types.rs:215-225`,
  `src/from_firmware.rs:186-196`), so `Crc8.CalcCrc` models both.
- `ArmStatus` and `InputModeSwitch` with their `Default`s are the same
  (`src/types.rs:36-64`, `src/from_firmware.rs:35-63`).
- `RotorPosition` is the same. `Rotor` has no explicit discriminants in the
  older revision, but Rust numbers it 0 to 3 all the same.

Bytes are `bv8`. The `u8` shift `crc << 1` discards the top bit in both Rust
and Dafny, so no explicit wrap-around is needed. `calc_crc`'s `size: u8` is
the subset type `Crc8.U8` (0 to 255).

Beyond the properties of the source itself, the model proves what the
polynomial buys. Because `0xab` has its x^0 term:

- every generator round is injective, so the table is a permutation of the
  byte values;
- so the byte that makes a checksum 0 is unique: it is the checksum;
- a packet that passes the check fails it after any single-byte change,
  in particular after any single bit flip.

Two values follow from the code and are easy to get wrong by hand:

- A waypoint slot is `WAYPOINT_SIZE = F32_BYTES * 3 + WAYPOINT_MAX_NAME_LEN + 1
  = 12 + 7 + 1 = 20` bytes, so `WAYPOINTS_SIZE = 600`.
- Entry 0x80 of the `0xab` table is 0x7f, not the polynomial: the round rule
  shifts the set bit out in the first round and the remaining seven rounds
  act on `0xab`. `Types.CrcLutEntries` proves that value.

## Model

| member | source | states |
|---|---|---|
| `Crc8.Table` | src/types.rs:192-211 | the table has 256 entries (its definition is eight rounds per index) |
| `Crc8.TableAt` | src/types.rs:196-206 | the entry at byte index `i` is `Rounds(i, poly, 8)`: eight generator rounds started from `i` |
| `Crc8.TableAtIndex` | src/types.rs:196-206 | the same, for an integer index in 0..255 |
| `Crc8.RoundAsWritten` | src/types.rs:202 | the source's round `(crc << 1) ^ (if (crc & 0x80) > 0 { poly } else { 0 })` on `u8` equals `Round`, whose feedback tests the pre-shift top bit |
| `Crc8.RoundsNext` | src/types.rs:200-204 | one more inner-loop iteration is one more round |
| `Crc8.EntryZero` | src/types.rs:198-205 | eight rounds of 0 give 0, for every polynomial |
| `Crc8.EntryOne` | src/types.rs:198-205 | eight rounds of 1 give the polynomial, for every polynomial |
| `Crc8.TableZeroAndOne` | src/types.rs:198-205 | `lut[0] == 0` and `lut[1] == poly` |
| `Crc8.LowBitIsTopBit` | src/types.rs:202 | with a unit-term polynomial, bit 0 after a round is the top bit before it |
| `Crc8.ShiftAndTopBitDetermine` | src/types.rs:202 | a byte is determined by its top bit and its left shift |
| `Crc8.RoundInjective` | src/types.rs:202 | with a unit-term polynomial, two bytes give the same round result if and only if they are equal |
| `Crc8.RoundsInjective` | src/types.rs:200-204 | the same holds for any number of rounds |
| `Crc8.TableInjective` | src/types.rs:192-211 | with a unit-term polynomial, two table entries are equal if and only if their indices are |
| `Crc8.TableIsInjective` | src/types.rs:192-211 | the table of a unit-term polynomial satisfies `Injective` (no two indices share an entry) |
| `Crc8.TableZeroOnlyAtZero` | src/types.rs:192-211 | with a unit-term polynomial, an entry is 0 if and only if its index is 0 |
| `Crc8.FoldAppend` | src/types.rs:219-223 | folding `p + s` is folding `s` from the result of folding `p` |
| `Crc8.FoldSnoc` | src/types.rs:219-223 | folding one more byte `b` is one more table step `lut[acc ^ b]` |
| `Crc8.CrcStep` | src/types.rs:221 | the checksum of the first `n + 1` bytes is `lut[checksum of the first n ^ data[n]]` |
| `Crc8.CalcCrc` | src/types.rs:215-225 | `calc_crc(lut, data, size)` (identical at src/from_firmware.rs:186-196) returns the fold over exactly `data[0..size)` from 0: 0 when `size == 0`, and nothing beyond the prefix matters; `size <= data.len()` is required, as the source indexes `data[i]` for every `i < size` |
| `Crc8.CheckByteRoundTrip` | src/types.rs:215-225 | appending its checksum to any data and recomputing over the extended range gives `lut[0] == 0` |
| `Crc8.CheckByteUnique` | src/types.rs:215-225 | with a unit-term polynomial, the checksum of `data + [c]` is 0 if and only if `c` is the checksum of `data` |
| `Crc8.FoldSeparates` | src/types.rs:219-223 | over an injective table, folds from two different accumulators over the same bytes end different |
| `Crc8.CrcAround` | src/types.rs:219-223 | the checksum of `pre + [b] + post` is the fold of `post` from `lut[checksum(pre) ^ b]` |
| `Crc8.StepSeparates` | src/types.rs:221 | over an injective table, one step from the same checksum with two different bytes gives two different results |
| `Crc8.ReplacedByteDetected` | src/types.rs:215-225 | over an injective table, replacing the byte between a fixed prefix and suffix by a different byte changes the checksum |
| `Crc8.SingleByteErrorDetected` | src/types.rs:215-225 | over an injective table, two equally long byte strings differing in exactly one position have different checksums |
| `Crc8.BitFlipDetected` | src/types.rs:215-225 | with a unit-term polynomial, a packet whose checksum is 0 fails the check after flipping any one bit of any byte |
| `Types.SizeConstants` | src/types.rs:3-17 | the derived constants evaluate to `QUATERNION_SIZE == 16`, `PARAMS_SIZE == 33`, `CONTROLS_SIZE == 18`, `LINK_STATS_SIZE == 5`, `WAYPOINT_SIZE == 20`, `WAYPOINTS_SIZE == 600` and `SET_SERVO_POSIT_SIZE == 5`; the five payload constants `PARAMS_SIZE`, `CONTROLS_SIZE`, `LINK_STATS_SIZE`, `WAYPOINTS_SIZE` and `SET_SERVO_POSIT_SIZE` are the `PayloadSize` of Params, Controls, LinkStats, Waypoints and SetServoPosit, and Updatewaypoints' payload is 10 bytes (`QUATERNION_SIZE` and `WAYPOINT_SIZE` are building blocks, not payloads) |
| `Types.PacketSizeConstants` | src/types.rs:19-23 | each `*_PACKET_SIZE` is its message type's payload size plus 2: 35, 20, 7 and 602 |
| `Types.MsgTypeToByte` | src/types.rs:66-85 | the discriminant (`as u8`) of every message type is below 16 and locates that type in the discriminant-ordered list |
| `Types.MsgTypeFromByte` | src/types.rs:66-85 | conversion from a byte succeeds exactly for bytes 0 to 15, with a result whose discriminant is that byte; every other byte is an error |
| `Types.MsgTypeDiscriminantAt` | src/types.rs:66-85 | the type at position `b` of the discriminant-ordered list has discriminant `b` |
| `Types.MsgTypeRoundTrip` | src/types.rs:66-85 | conversion inverts `as u8` |
| `Types.MsgTypeToByteInjective` | src/types.rs:66-85 | two message types share a discriminant if and only if they are equal |
| `Types.PayloadSize` | src/types.rs:87-107 | every payload size is at most `WAYPOINTS_SIZE` |
| `Types.PayloadSizeClasses` | src/types.rs:87-107 | the payload is empty exactly for the four requests, Ack, ArmMotors and DisarmMotors; one byte exactly for SetMotorDirs, StartMotor and StopMotor; `WAYPOINTS_SIZE` exactly for Waypoints |
| `Types.CrcSpanFitsExceptWaypoints` | src/types.rs:215 | the type byte plus payload fits `calc_crc`'s `u8` count for every message type except Waypoints (601 bytes) |
| `Types.InputModeToByte` | src/types.rs:36-43 | the discriminant of an input mode is 0 or 1 |
| `Types.InputModeFromByte` | src/types.rs:36-43 | conversion succeeds exactly for bytes 0 and 1 (identical at src/from_firmware.rs:35-42), with a result whose discriminant is that byte |
| `Types.InputModeRoundTrip` | src/types.rs:36-43 | conversion inverts `as u8` |
| `Types.DefaultInputMode` | src/types.rs:45-49 | the default input mode (Acro) has discriminant 0 and is what byte 0 converts to |
| `Types.ArmStatusToByte` | src/types.rs:51-58 | the discriminant of an arm status is 0 or 1 |
| `Types.ArmStatusFromByte` | src/types.rs:51-58 | conversion succeeds exactly for bytes 0 and 1 (identical at src/from_firmware.rs:50-57), with a result whose discriminant is that byte |
| `Types.ArmStatusRoundTrip` | src/types.rs:51-58 | conversion inverts `as u8` |
| `Types.DefaultArmStatus` | src/types.rs:60-64 | the default arm status (Disarmed) has discriminant 0 and is what byte 0 converts to |
| `Types.RotorToByte` | src/types.rs:161-168 | rotor discriminants lie in 0..3 |
| `Types.RotorToByteInjective` | src/types.rs:161-168 | distinct rotors have distinct discriminants |
| `Types.RotorPositionToByte` | src/types.rs:170-177 | rotor-position discriminants lie in 0..3 |
| `Types.RotorPositionToByteInjective` | src/types.rs:170-177 | distinct rotor positions have distinct discriminants |
| `Types.ServoWingPositionToByte` | src/types.rs:185-190 | servo-wing-position discriminants are 0 or 1 |
| `Types.ServoWingPositionToByteInjective` | src/types.rs:185-190 | the two servo-wing positions have distinct discriminants |
| `Types.CrcInit` | src/types.rs:192-211 | the const fn's nested loops fill a zeroed array with exactly `Table(poly)` |
| `Types.CrcLutEntries` | src/types.rs:5-6 | `CRC_LUT` has entries 0x00, 0xab, 0xfd, 0x7f and 0xaa at indices 0, 1, 2, 0x80 and 0xff |
| `Types.CrcPolyHasUnitTerm` | src/types.rs:5-6 | `0xab` has its unit term, so `CRC_LUT` is injective and every error-detection lemma of `Crc8` applies to it |
| `FromFirmware.SizeConstantsMatchNewer` | src/from_firmware.rs:3-22 | every size and packet-size constant of this revision (`F32_BYTES`, `QUATERNION_SIZE`, `MAX_WAYPOINTS`, `WAYPOINT_MAX_NAME_LEN`, the payload and packet sizes) equals the newer revision's, with `PARAMS_SIZE == 33` and `WAYPOINTS_SIZE == 600`; and each of this revision's four packet sizes is its own message type's `PayloadSize` plus 2 |
| `FromFirmware.MsgTypeToByte` | src/from_firmware.rs:65-83 | the discriminant of every one of the 15 message types is below 15 and locates that type in the discriminant-ordered list |
| `FromFirmware.MsgTypeFromByte` | src/from_firmware.rs:65-83 | conversion succeeds exactly for bytes 0 to 14, with a result whose discriminant is that byte |
| `FromFirmware.MsgTypeDiscriminantAt` | src/from_firmware.rs:65-83 | the type at position `b` of the discriminant-ordered list has discriminant `b` |
| `FromFirmware.MsgTypeRoundTrip` | src/from_firmware.rs:65-83 | conversion inverts `as u8` |
| `FromFirmware.PayloadSize` | src/from_firmware.rs:85-105 | every payload size is at most `WAYPOINTS_SIZE` |
| `FromFirmware.Newer` | src/from_firmware.rs:65-83 | each message type here has a counterpart in the newer revision with the same discriminant, never SetServoPosit |
| `FromFirmware.PayloadSizeMatchesNewer` | src/from_firmware.rs:85-105 | on the 15 shared message types both revisions give the same payload size |
| `FromFirmware.MsgTypeFromByteMatchesNewer` | src/from_firmware.rs:65-83 | the two conversions accept the same bytes except 15, which the newer one reads as SetServoPosit and this one rejects; on accepted bytes they give counterpart types |
| `FromFirmware.MaskIsIdentity` | src/from_firmware.rs:182 | the `& 0xff` applied before storing an entry changes no `u8` |
| `FromFirmware.CrcInit` | src/from_firmware.rs:176-184 | the in-place loops overwrite all 256 entries of the caller's table with `Table(poly)`, whatever it held before |
| `FromFirmware.InitStaticLut` | src/from_firmware.rs:5-6 | filling the zero-initialised static table with `crc_init(lut, CRC_POLY)` yields the newer revision's `CRC_LUT` |

## Left out

- `src/main.rs` is left out: serial-port I/O, the HTTP routes, the global
  telemetry caches and the staleness timing. Its `read_all` sends a
  hard-coded CRC of 0 and copies payload bytes with no type or CRC check.
  Nothing in this model is a claim about framing as that code performs it.
- The `Params` byte decoder and `bytes_to_float` in `src/main.rs` are left
  out: floating-point reinterpretation.
- The data records `ChannelData`, `Quaternion` and `Location` (float
  fields) and `LinkStats` (integer fields), and `AircraftType`, are left
  out: no operation in the core computes with them.
- `DecodeError` is left out: it is an empty struct. The conversions'
  error case is `None`.
- `ServoWing` is left out: it has no explicit discriminants, no `repr(u8)`
  and no operation (its implicit discriminants are 0 and 1).
- The `Serialize` derives and the `num_enum` machinery are left out. Only
  the conversion semantics they produce are modelled.
- `REFRESH_INTERVAL` is left out: it is polling cadence, not protocol logic.
- `FromFirmware.PayloadSize`: the second `StopMotor` arm
  (`src/from_firmware.rs:100`) is not written. Dafny reports a repeated
  match case as redundant. That arm can never be taken, and the result for
  `StopMotor` is 1 either way.
- `Crc8.CalcCrc`: reading past the end of `data` is a panic in the source;
  the model states it as the precondition `size <= |data|` instead of
  modelling the panic.
- The `Rust` integer types of the constants (`usize`) are unbounded `nat`s;
  all values are small.
- `FromFirmware.CrcInit`: the model checks the in-place update at the
  granularity of the whole table. It does not model the `unsafe` aliasing
  of a `static mut` table.
