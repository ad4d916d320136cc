/** Encoding a 48-byte NTP request (Net.Ntp/NtpRequest.cs). */
module Request {
  import opened ByteOrder
  import opened NtpTypes
  import Response

  /** C#'s integer `/` for a positive divisor: the quotient is rounded toward
      zero, so the remainder takes the sign of the dividend. */
  function TruncatedDiv(a: int, d: int): (q: int)
    requires d > 0
    ensures a >= 0 ==> 0 <= a - d * q < d
    ensures a < 0 ==> -d < a - d * q <= 0
  {
    if a >= 0 then a / d else -((-a) / d)
  }

  /** C#'s integer `%` for a positive divisor: the remainder of the
      magnitudes, carrying the sign of the dividend. */
  function TruncatedRem(a: int, d: int): (r: int)
    requires d > 0
    ensures a >= 0 ==> r == a % d
    ensures a < 0 ==> r == -((-a) % d)
  {
    var q := TruncatedDiv(a, d);
    if a >= 0 then
      assert a == d * (a / d) + a % d;
      a - d * q
    else
      assert -a == d * ((-a) / d) + (-a) % d;
      a - d * q
  }

  /** The seconds word of a timestamp: whole seconds since the epoch, cast to
      32 bits, so it wraps at the 2036 era boundary. */
  function SecondsField(totalTicks: Ticks): (r: UInt32)
    ensures totalTicks >= 0 ==> r == totalTicks / TicksPerSecond % TwoTo32
  {
    TruncatedDiv(totalTicks, TicksPerSecond) % TwoTo32
  }

  /** The fraction word of a timestamp: the ticks past the whole second scaled
      by 100000/232 (100 ns in units of 232 ps), cast to 32 bits. The scaled
      value reaches 4310344396 and so wraps for the largest remainders. */
  function FractionField(totalTicks: Ticks): (r: UInt32)
    ensures totalTicks >= 0 ==> r == totalTicks % TicksPerSecond * 100000 / 232 % TwoTo32
  {
    TruncatedDiv(TruncatedRem(totalTicks, TicksPerSecond) * 100000, 232) % TwoTo32
  }

  /** The 8-byte originate timestamp: the seconds word then the fraction
      word, each in network order. */
  function GetOriginateTimestamp(originateTimestamp: Ticks): (r: seq<Byte>)
    ensures |r| == 8
    ensures BeValue(r[..4]) == SecondsField(originateTimestamp)
    ensures BeValue(r[4..]) == FractionField(originateTimestamp)
    ensures originateTimestamp >= 0 ==>
              && BeValue(r[..4]) == originateTimestamp / TicksPerSecond % TwoTo32
              && BeValue(r[4..]) == originateTimestamp % TicksPerSecond * 100000 / 232 % TwoTo32
    ensures originateTimestamp >= 0 && originateTimestamp % TicksPerSecond == 0 ==> r[4..] == [0, 0, 0, 0]
  {
    var totalTicks := originateTimestamp;
    var totalSeconds := SecondsField(totalTicks);
    var leftOverPicoseconds := FractionField(totalTicks);
    var swappedSeconds := Response.SwapEndianness(totalSeconds);
    var swappedFraction := Response.SwapEndianness(leftOverPicoseconds);
    assert LeBytes(swappedSeconds) == BeBytes(SecondsField(totalTicks));
    assert LeBytes(swappedFraction) == BeBytes(FractionField(totalTicks));
    LeBytes(swappedSeconds) + LeBytes(swappedFraction)
  }

  /** The poll interval byte: always 16, whatever the requested interval. */
  function GetPollInterval(pollInterval: int): (r: Byte)
    ensures r == 16
  {
    16
  }

  /** The stratum byte: the largest byte of the stratum's bucket, so that
      decoding it gives back the same stratum. */
  function GetStratum(stratum: Stratum): (r: Byte)
    ensures Response.GetStratum(r) == stratum
    ensures forall b: Byte :: Response.GetStratum(b) == stratum ==> b <= r
  {
    match stratum
    case PrimaryServer => 1
    case SecondaryServer => 15
    case Unsynchronized => 16
    case Reserved => 255
    case UnspecifiedOrInvalid => 0
  }

  /** Header byte 0: leap indicator in bits 7-6, version in bits 5-3 and mode
      in bits 2-0. A version outside 1..7 adds nothing, so one outside 0..7
      is sent as 0. The sum is at most 255, so the byte cast keeps it whole. */
  function GetLiVnModeByte(li: LeapIndicator, vn: int, mode: Mode): (r: Byte)
    ensures r == 64 * LeapCode(li) + 8 * (if 0 <= vn <= 7 then vn else 0) + ModeCode(mode)
    ensures Response.GetLeapIndicator(r) == li
    ensures Response.GetVersionNumber(r) == (if 0 <= vn <= 7 then vn else 0)
    ensures Response.GetMode(r) == mode
  {
    var intermediateResult := LeapBits(li) + VersionBits(vn) + ModeBits(mode);
    var v := if 0 <= vn <= 7 then vn else 0;
    LemmaHeaderByteDecodes(li, v, mode);
    assert intermediateResult % 0x100 == intermediateResult == 64 * LeapCode(li) + 8 * v + ModeCode(mode);
    intermediateResult % 0x100
  }

  /** The leap indicator's contribution to header byte 0. */
  function LeapBits(li: LeapIndicator): (r: int)
    ensures r == 64 * LeapCode(li)
  {
    match li
    case LastMinuteHas61Seconds => 64
    case LastMinuteHas59Seconds => 128
    case ClockUnsynchronized => 192
    case NoLeapSecondAdjustment => 0
  }

  /** The version's contribution to header byte 0: nothing outside 1..7. */
  function VersionBits(vn: int): (r: int)
    ensures r == 8 * (if 0 <= vn <= 7 then vn else 0)
  {
    if vn == 1 then 8
    else if vn == 2 then 16
    else if vn == 3 then 24
    else if vn == 4 then 32
    else if vn == 5 then 40
    else if vn == 6 then 48
    else if vn == 7 then 56
    else 0
  }

  /** The mode's contribution to header byte 0. */
  function ModeBits(mode: Mode): (r: int)
    ensures r == ModeCode(mode)
  {
    match mode
    case SymmetricActive => 1
    case SymmetricPassive => 2
    case Client => 3
    case Server => 4
    case Broadcast => 5
    case NtpControlMessage => 6
    case ReservedPrivateUse => 7
    case Reserved => 0
  }

  /** The response decoders read the three fields back from a header byte. */
  lemma LemmaHeaderByteDecodes(li: LeapIndicator, v: int, mode: Mode)
    requires 0 <= v < 8
    ensures var b := 64 * LeapCode(li) + 8 * v + ModeCode(mode);
            && 0 <= b < 0x100
            && Response.GetLeapIndicator(b) == li
            && Response.GetVersionNumber(b) == v
            && Response.GetMode(b) == mode
  {
    var b := 64 * LeapCode(li) + 8 * v + ModeCode(mode);
    LemmaHeaderByteFields(LeapCode(li), v, ModeCode(mode));
    LemmaLeapCodeInjective(li, Response.GetLeapIndicator(b));
    LemmaModeOfModeCode(mode);
  }

  /** The three fields of header byte 0 occupy disjoint bits. */
  lemma LemmaHeaderByteFields(l: int, v: int, m: int)
    requires 0 <= l < 4 && 0 <= v < 8 && 0 <= m < 8
    ensures 64 * l + 8 * v + m < 0x100
    ensures (64 * l + 8 * v + m) / 64 == l
    ensures (64 * l + 8 * v + m) / 8 % 8 == v
    ensures (64 * l + 8 * v + m) % 8 == m
  {
    var b := 64 * l + 8 * v + m;
    assert b == 8 * (8 * l + v) + m;
    assert b / 8 == 8 * l + v;
  }

  /** A leap indicator is determined by its wire code. */
  lemma LemmaLeapCodeInjective(li: LeapIndicator, li': LeapIndicator)
    ensures LeapCode(li) == LeapCode(li') ==> li == li'
  {
  }

  /** A mode is recovered from its wire code. */
  lemma LemmaModeOfModeCode(mode: Mode)
    ensures ModeOfCode(ModeCode(mode)) == mode
  {
  }

  /** The 48-byte request: header bytes 0-2 and the originate timestamp at
      bytes 24-31; every other byte is zero. */
  function GetBytes(request: NtpRequest): (r: seq<Byte>)
    ensures |r| == Response.PacketLength
    ensures r[0] == GetLiVnModeByte(request.leapIndicator, request.versionNumber, request.mode)
    ensures r[1] == GetStratum(request.stratum)
    ensures r[2] == 16
    ensures r[24..32] == GetOriginateTimestamp(request.originateTimestamp)
    ensures forall i :: 3 <= i < 24 || 32 <= i < |r| ==> r[i] == 0
  {
    var zeros: seq<Byte> := seq(48, _ => 0);
    var header := [ GetLiVnModeByte(request.leapIndicator, request.versionNumber, request.mode),
                    GetStratum(request.stratum),
                    GetPollInterval(request.pollInterval) ];
    var originateTimestamp := GetOriginateTimestamp(request.originateTimestamp);
    var result := header + zeros[3..24] + originateTimestamp + zeros[32..];
    assert result[24..32] == originateTimestamp;
    result
  }
}
