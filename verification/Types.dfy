/**
 Value types shared by every part of the field bus: machine integers, the status codes,
 device states and the stream configuration of the management API.
 */
module Types {

  type byte = n: int | 0 <= n < 0x100
  type u16 = n: int | 0 <= n < 0x1_0000
  type u32 = n: int | 0 <= n < 0x1_0000_0000
  type u64 = n: int | 0 <= n < 0x1_0000_0000_0000_0000

  const U32_MAX: u32 := 0xFFFF_FFFF
  const U64_MAX: u64 := 0xFFFF_FFFF_FFFF_FFFF

  type Bytes = seq<byte>
  type Mac = s: seq<byte> | |s| == 6 witness [0, 0, 0, 0, 0, 0]
  type Tag = s: seq<byte> | |s| == 8 witness [0, 0, 0, 0, 0, 0, 0, 0]
  type Ipv4 = s: seq<byte> | |s| == 4 witness [0, 0, 0, 0]

  const BROADCAST_MAC: Mac := [0xFF, 0xFF, 0xFF, 0xFF, 0xFF, 0xFF]

  datatype Option<+T> = None | Some(value: T)

  datatype Result<+T> = Ok(value: T) | Err(code: StatusCode)

  datatype StatusCode =
    | NoError | ErrPtpSyncLost | ErrCycleCounter | ErrDeadlineMissed | ErrStreamIdUnknown
    | ErrInvalidLen | ErrAppNotResponding | ErrPeripheralFault | ErrNotReady | ErrAccessDenied
    | ErrAuthFailed | ErrStateConflict | ErrParamInvalid | ErrNoMemory | ErrVersionMismatch
    | ErrNotSupported | ErrAlreadyRunning | ErrOsFailure | ErrIpConflict | ErrFrameParsing
    | ErrFrameWithErrorStatus | ErrSocketChannel | ErrHardwareAccess | ErrTimeout
    | ErrInvalidResponse | ErrInvalidEthertype
  {
    /** The numeric value of the code; 15 is unassigned. */
    function Code(): byte {
      match this
      case NoError => 0
      case ErrPtpSyncLost => 1
      case ErrCycleCounter => 2
      case ErrDeadlineMissed => 3
      case ErrStreamIdUnknown => 4
      case ErrInvalidLen => 5
      case ErrAppNotResponding => 6
      case ErrPeripheralFault => 7
      case ErrNotReady => 8
      case ErrAccessDenied => 9
      case ErrAuthFailed => 10
      case ErrStateConflict => 11
      case ErrParamInvalid => 12
      case ErrNoMemory => 13
      case ErrVersionMismatch => 14
      case ErrNotSupported => 16
      case ErrAlreadyRunning => 17
      case ErrOsFailure => 18
      case ErrIpConflict => 19
      case ErrFrameParsing => 20
      case ErrFrameWithErrorStatus => 21
      case ErrSocketChannel => 22
      case ErrHardwareAccess => 23
      case ErrTimeout => 24
      case ErrInvalidResponse => 25
      case ErrInvalidEthertype => 26
    }

    /** The inverse of `Code`, partial as in the generated `try_from`. */
    static function FromCode(n: byte): Option<StatusCode> {
      match n
      case 0 => Some(NoError)
      case 1 => Some(ErrPtpSyncLost)
      case 2 => Some(ErrCycleCounter)
      case 3 => Some(ErrDeadlineMissed)
      case 4 => Some(ErrStreamIdUnknown)
      case 5 => Some(ErrInvalidLen)
      case 6 => Some(ErrAppNotResponding)
      case 7 => Some(ErrPeripheralFault)
      case 8 => Some(ErrNotReady)
      case 9 => Some(ErrAccessDenied)
      case 10 => Some(ErrAuthFailed)
      case 11 => Some(ErrStateConflict)
      case 12 => Some(ErrParamInvalid)
      case 13 => Some(ErrNoMemory)
      case 14 => Some(ErrVersionMismatch)
      case 16 => Some(ErrNotSupported)
      case 17 => Some(ErrAlreadyRunning)
      case 18 => Some(ErrOsFailure)
      case 19 => Some(ErrIpConflict)
      case 20 => Some(ErrFrameParsing)
      case 21 => Some(ErrFrameWithErrorStatus)
      case 22 => Some(ErrSocketChannel)
      case 23 => Some(ErrHardwareAccess)
      case 24 => Some(ErrTimeout)
      case 25 => Some(ErrInvalidResponse)
      case 26 => Some(ErrInvalidEthertype)
      case _ => None
    }
  }

  datatype DeviceState = Init | DiscoverySync | PreOp | SafeOp | Op | Error | Shutdown

  /** Raw wire values of the `Direction` enumeration. */
  const DIRECTION_INPUT: int := 0
  const DIRECTION_OUTPUT: int := 1

  datatype Position = Position(byteOffset: u32, bitOffset: u32, bitLen: u32)

  /** A stream as configured over the management API. `direction` is the unchecked wire value. */
  datatype StreamConfig = StreamConfig(
    streamId: u32,
    destinationMac: Bytes,
    vlanIdPcp: u32,
    cycleTimeNano: u32,
    direction: int,
    content: Option<Position>)

  function Max(a: int, b: int): int {
    if a < b then b else a
  }

  function Min(a: int, b: int): int {
    if a < b then a else b
  }

  /** `div_ceil` for a positive divisor. */
  function DivCeil(a: nat, b: nat): nat
    requires b > 0
  {
    (a + b - 1) / b
  }

  function BitLenToByteLen(bitLen: u32): nat {
    DivCeil(bitLen, 8)
  }

  function SaturatingAdd64(a: u64, b: u64): u64 {
    if a + b > U64_MAX then U64_MAX else a + b
  }

  function SaturatingAdd32(a: u32, b: u32): u32 {
    if a + b > U32_MAX then U32_MAX else a + b
  }
}
