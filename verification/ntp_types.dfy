/** The values carried by an NTP packet: the enumerations of the header
    fields, the reference identifier record, and the request and response
    records. The C# classes have mutable setters and `NtpResponse` inherits
    from `NtpRequest`; here both are immutable records and a response holds
    its request-shaped header by composition. */
module NtpTypes {
  import opened ByteOrder

  datatype Option<T> = None | Some(value: T)

  /** A point in time as a count of 100-nanosecond ticks since the NTP epoch,
      1900-01-01T00:00:00 UTC (the `Base` constant of the request). */
  type Ticks = int

  const TicksPerMillisecond: int := 10_000
  const TicksPerSecond: int := 10_000_000

  /** Leap indicator: the top two bits of header byte 0. */
  datatype LeapIndicator =
    | NoLeapSecondAdjustment
    | LastMinuteHas61Seconds
    | LastMinuteHas59Seconds
    | ClockUnsynchronized

  /** The two-bit wire value of a leap indicator. */
  function LeapCode(li: LeapIndicator): (r: int)
    ensures 0 <= r < 4
  {
    match li
    case NoLeapSecondAdjustment => 0
    case LastMinuteHas61Seconds => 1
    case LastMinuteHas59Seconds => 2
    case ClockUnsynchronized => 3
  }

  /** Association mode: the low three bits of header byte 0. */
  datatype Mode =
    | Reserved
    | SymmetricActive
    | SymmetricPassive
    | Client
    | Server
    | Broadcast
    | NtpControlMessage
    | ReservedPrivateUse

  /** The ordinal of a mode in its declaration, which is also its wire code. */
  function ModeCode(m: Mode): (r: int)
    ensures 0 <= r < 8
  {
    match m
    case Reserved => 0
    case SymmetricActive => 1
    case SymmetricPassive => 2
    case Client => 3
    case Server => 4
    case Broadcast => 5
    case NtpControlMessage => 6
    case ReservedPrivateUse => 7
  }

  /** The mode whose ordinal is `c`. */
  function ModeOfCode(c: int): (m: Mode)
    requires 0 <= c < 8
    ensures ModeCode(m) == c
  {
    if c == 0 then Mode.Reserved
    else if c == 1 then SymmetricActive
    else if c == 2 then SymmetricPassive
    else if c == 3 then Client
    else if c == 4 then Server
    else if c == 5 then Broadcast
    else if c == 6 then NtpControlMessage
    else ReservedPrivateUse
  }

  /** Distance of the server from a reference clock, bucketed. */
  datatype Stratum =
    | UnspecifiedOrInvalid
    | PrimaryServer
    | SecondaryServer
    | Unsynchronized
    | Reserved

  /** The four-character codes a primary (stratum 1) server may name as its
      reference source. */
  datatype PrimaryReferenceIdentifier =
    | LOCL | CESM | RBDM | PPS | IRIG | ACTS | USNO | PTB | TDF
    | DCF | MSF | WWV | WWVB | WWVH | CHU | LORC | OMEG | GPS

  /** Interpretation of the 4-byte reference identifier field. A freshly
      created record has the first enumeration value, LOCL, as primary type
      and no secondary-server address or hash text. The address is kept as
      its four raw bytes. */
  datatype ReferenceIdentifier = ReferenceIdentifier(
    primaryServerType: PrimaryReferenceIdentifier,
    secondaryServerSourceIpAddress: Option<seq<Byte>>,
    secondaryServerMD5HashFirst32BitsOfIPv6: Option<string>)

  const DefaultReferenceIdentifier: ReferenceIdentifier := ReferenceIdentifier(LOCL, None, None)

  /** The fields of a request. `versionNumber` and `pollInterval` are plain
      integers: their declared ranges are annotations that nothing enforces. */
  datatype NtpRequest = NtpRequest(
    leapIndicator: LeapIndicator,
    versionNumber: int,
    mode: Mode,
    stratum: Stratum,
    pollInterval: int,
    originateTimestamp: Ticks)

  /** The fields of a response: the request-shaped header plus the
      server-side fields. */
  datatype NtpResponse = NtpResponse(
    header: NtpRequest,
    rootDelay: int,
    rootDispersion: int,
    referenceIdentifier: ReferenceIdentifier,
    precisionLog2Seconds: int,
    referenceTimestamp: Ticks,
    receiveTimestamp: Ticks,
    transmitTimestamp: Ticks)
}
