/** Decoding a 48-byte NTP response (Net.Ntp/NtpResponse.cs).

    Bit masks on a byte (`b & 0xC0`, `b & 0x38`, `b & 0x07`) are written as
    the equivalent `b / 64 * 64`, `b / 8 % 8 * 8` and `b % 8`. */
module Response {
  import opened ByteOrder
  import opened NtpTypes
  import Base64

  const PacketLength: int := 48

  const ReferenceTimestampOffset: int := 16
  const OriginateTimestampOffset: int := 24
  const ReceiveTimestampOffset: int := 32
  const TransmitTimestampOffset: int := 40

  /** Leap indicator from bits 7-6 of header byte 0. */
  function GetLeapIndicator(input: Byte): (r: LeapIndicator)
    ensures LeapCode(r) == input / 64
  {
    var filteredResult := input / 64 * 64;
    if filteredResult == 128 then LastMinuteHas59Seconds
    else if filteredResult == 64 then LastMinuteHas61Seconds
    else if filteredResult == 192 then ClockUnsynchronized
    else NoLeapSecondAdjustment
  }

  /** Version number from bits 5-3 of header byte 0. Every masked value is
      one of the eight listed, so the final fallback is dead. */
  function GetVersionNumber(input: Byte): (r: int)
    ensures r == input / 8 % 8
  {
    var filteredResult := input / 8 % 8 * 8;
    if filteredResult == 0 then 0
    else if filteredResult == 8 then 1
    else if filteredResult == 16 then 2
    else if filteredResult == 24 then 3
    else if filteredResult == 32 then 4
    else if filteredResult == 40 then 5
    else if filteredResult == 48 then 6
    else if filteredResult == 56 then 7
    else assert false; 0
  }

  /** Mode from bits 2-0 of header byte 0. */
  function GetMode(input: Byte): (r: Mode)
    ensures ModeCode(r) == input % 8
    ensures r == ModeOfCode(input % 8)
  {
    var filteredResult := input % 8;
    if filteredResult == 1 then SymmetricActive
    else if filteredResult == 2 then SymmetricPassive
    else if filteredResult == 3 then Client
    else if filteredResult == 4 then Server
    else if filteredResult == 5 then Broadcast
    else if filteredResult == 6 then NtpControlMessage
    else if filteredResult == 7 then ReservedPrivateUse
    else Mode.Reserved
  }

  /** Stratum bucket of the stratum byte. A byte is at most 255, so the
      final fallback is dead. */
  function GetStratum(stratum: Byte): (r: Stratum)
    ensures r == UnspecifiedOrInvalid <==> stratum == 0
    ensures r == PrimaryServer <==> stratum == 1
    ensures r == SecondaryServer <==> 2 <= stratum <= 15
    ensures r == Unsynchronized <==> stratum == 16
    ensures r == Stratum.Reserved <==> 17 <= stratum
  {
    var input := stratum;
    if input == 0 then UnspecifiedOrInvalid
    else if input == 1 then PrimaryServer
    else if input >= 2 && input <= 15 then SecondaryServer
    else if input == 16 then Unsynchronized
    else if input >= 17 && input <= 255 then Stratum.Reserved
    else assert false; UnspecifiedOrInvalid
  }

  /** ASCII text of bytes: a byte above 0x7F becomes '?'
      (`Encoding.ASCII.GetString`). */
  function AsciiString(input: seq<Byte>): (r: string)
    ensures |r| == |input|
    ensures forall i :: 0 <= i < |input| && input[i] < 0x80 ==> r[i] as int == input[i]
    ensures forall i :: 0 <= i < |input| && input[i] >= 0x80 ==> r[i] == '?'
  {
    seq(|input|, i requires 0 <= i < |input| => if input[i] < 0x80 then input[i] as char else '?')
  }

  /** Reference identifier of a packet with the given stratum. `parse` stands
      for the library's case-insensitive enumeration-name parser
      (`Enum.TryParse`) applied to the ASCII text of the four bytes. */
  function GetReferenceIdentifier(stratum: Stratum, input: seq<Byte>,
                                  parse: string -> Option<PrimaryReferenceIdentifier>): (r: ReferenceIdentifier)
    requires |input| == 4
    ensures (stratum == PrimaryServer && parse(AsciiString(input)).Some?) ==>
              r.primaryServerType == parse(AsciiString(input)).value
    ensures !(stratum == PrimaryServer && parse(AsciiString(input)).Some?) ==>
              r.primaryServerType == DefaultReferenceIdentifier.primaryServerType
    ensures r.secondaryServerSourceIpAddress.Some? <==> stratum == SecondaryServer
    ensures r.secondaryServerMD5HashFirst32BitsOfIPv6.Some? <==> stratum == SecondaryServer
    ensures stratum == SecondaryServer ==>
              && r.secondaryServerSourceIpAddress.value == input
              && Base64.Decode4(r.secondaryServerMD5HashFirst32BitsOfIPv6.value) == Some(input)
              && Base64.Canonical4(r.secondaryServerMD5HashFirst32BitsOfIPv6.value)
  {
    var primaryServerType :=
      if stratum == PrimaryServer && parse(AsciiString(input)).Some? then parse(AsciiString(input)).value
      else DefaultReferenceIdentifier.primaryServerType;
    if stratum == SecondaryServer then
      ReferenceIdentifier(primaryServerType, Some(input), Some(Base64.Encode4(input)))
    else
      ReferenceIdentifier(primaryServerType, None, None)
  }

  /** Reverses the four low bytes of `x`; higher bytes are masked away. */
  function SwapEndianness(x: UInt64): (r: UInt32)
    ensures LeBytes(r) == [ByteOf(x, 3), ByteOf(x, 2), ByteOf(x, 1), ByteOf(x, 0)]
  {
    var b0, b1, b2, b3 := ByteOf(x, 0), ByteOf(x, 1), ByteOf(x, 2), ByteOf(x, 3);
    var sum := b0 * 0x100_0000 + b1 * 0x1_0000 + b2 * 0x100 + b3;
    var swapped := [b3, b2, b1, b0];
    assert sum == LeValue(swapped);
    assert LeBytes(sum) == swapped by {
      LemmaLeBytesOfLeValue(swapped);
    }
    assert sum % TwoTo32 == sum;
    sum % TwoTo32
  }

  /** Swapping twice gives back any 32-bit value. */
  lemma LemmaSwapInvolution(x: UInt32)
    ensures SwapEndianness(SwapEndianness(x)) == x
  {
    var y := SwapEndianness(x);
    LemmaLeBytesOfLeValue(LeBytes(y));
    assert [ByteOf(y, 0), ByteOf(y, 1), ByteOf(y, 2), ByteOf(y, 3)] == LeBytes(y);
    var z := SwapEndianness(y);
    assert LeBytes(z) == [ByteOf(x, 0), ByteOf(x, 1), ByteOf(x, 2), ByteOf(x, 3)] == LeBytes(x);
    assert z == LeValue(LeBytes(z)) == LeValue(LeBytes(x)) == x;
  }

  /** NTP timestamp with seconds `seconds` and fraction `fraction` (units of
      2^-32 s), converted to ticks at millisecond resolution: the fraction is
      truncated to whole milliseconds. */
  function NtpTimeToTicks(seconds: UInt32, fraction: UInt32): (r: Ticks)
    ensures 0 <= r && r % TicksPerMillisecond == 0
    ensures r / TicksPerSecond == seconds
    ensures r % TicksPerSecond / TicksPerMillisecond == fraction * 1000 / TwoTo32 < 1000
  {
    var subMilliseconds := fraction * 1000 / TwoTo32;
    assert subMilliseconds < 1000;
    var r := (seconds * 1000 + subMilliseconds) * TicksPerMillisecond;
    assert r == seconds * TicksPerSecond + subMilliseconds * TicksPerMillisecond;
    r
  }

  /** The instant of the 8-byte timestamp at `index`: big-endian seconds since
      the epoch, then a big-endian fraction of a second. The whole seconds come
      through exactly; the fraction is truncated to whole milliseconds. */
  function GetDateTime(bytes: seq<Byte>, index: int): (r: Ticks)
    requires 0 <= index && index + 8 <= |bytes|
    ensures r == NtpTimeToTicks(BeValue(bytes[index..index + 4]), BeValue(bytes[index + 4..index + 8]))
  {
    var seconds := SwapEndianness(LeValue(bytes[index..index + 4]));
    var subSeconds := SwapEndianness(LeValue(bytes[index + 4..index + 8]));
    LemmaSwapReadsBigEndian(bytes[index..index + 4]);
    LemmaSwapReadsBigEndian(bytes[index + 4..index + 8]);
    var milliseconds := seconds * 1000 + subSeconds * 1000 / TwoTo32;
    milliseconds * TicksPerMillisecond
  }

  /** Swapping the little-endian value of four bytes gives their big-endian value. */
  lemma LemmaSwapReadsBigEndian(b: seq<Byte>)
    requires |b| == 4
    ensures SwapEndianness(LeValue(b)) == BeValue(b)
  {
    LemmaLeBytesOfLeValue(b);
    var x := LeValue(b);
    assert [ByteOf(x, 0), ByteOf(x, 1), ByteOf(x, 2), ByteOf(x, 3)] == b;
    LemmaLeBytesOfLeValue([b[3], b[2], b[1], b[0]]);
    assert LeBytes(SwapEndianness(x)) == [b[3], b[2], b[1], b[0]];
  }

  /** Parses a response. Anything but exactly 48 bytes gives None; otherwise
      every field is read from its place in the buffer. Precision is read from
      byte 2 (a read of byte 3 is overwritten), so byte 3 is ignored; root
      delay and dispersion are read least significant byte first; the poll
      interval is never read and stays 0. */
  function ParseBytes(bytes: seq<Byte>, parse: string -> Option<PrimaryReferenceIdentifier>): (r: Option<NtpResponse>)
    ensures r.None? <==> |bytes| != PacketLength
    ensures r.Some? ==>
              var h := r.value.header;
              && LeapCode(h.leapIndicator) == bytes[0] / 64
              && h.versionNumber == bytes[0] / 8 % 8
              && ModeCode(h.mode) == bytes[0] % 8
              && h.stratum == GetStratum(bytes[1])
              && h.pollInterval == 0
              && r.value.precisionLog2Seconds == bytes[2]
              && r.value.rootDelay == SignedLeValue(bytes[4..8])
              && r.value.rootDispersion == SignedLeValue(bytes[8..12])
              && r.value.referenceIdentifier == GetReferenceIdentifier(h.stratum, bytes[12..16], parse)
              && r.value.referenceTimestamp == NtpTimeToTicks(BeValue(bytes[16..20]), BeValue(bytes[20..24]))
              && h.originateTimestamp == NtpTimeToTicks(BeValue(bytes[24..28]), BeValue(bytes[28..32]))
              && r.value.receiveTimestamp == NtpTimeToTicks(BeValue(bytes[32..36]), BeValue(bytes[36..40]))
              && r.value.transmitTimestamp == NtpTimeToTicks(BeValue(bytes[40..44]), BeValue(bytes[44..48]))
  {
    if |bytes| != PacketLength then None
    else
      var stratum := GetStratum(bytes[1]);
      var header := NtpRequest(
        leapIndicator := GetLeapIndicator(bytes[0]),
        versionNumber := GetVersionNumber(bytes[0]),
        mode := GetMode(bytes[0]),
        stratum := stratum,
        pollInterval := 0,
        originateTimestamp := GetDateTime(bytes, OriginateTimestampOffset));
      var precision := bytes[2];
      Some(NtpResponse(
        header := header,
        rootDelay := SignedLeValue(bytes[4..8]),
        rootDispersion := SignedLeValue(bytes[8..12]),
        referenceIdentifier := GetReferenceIdentifier(stratum, bytes[12..16], parse),
        precisionLog2Seconds := precision,
        referenceTimestamp := GetDateTime(bytes, ReferenceTimestampOffset),
        receiveTimestamp := GetDateTime(bytes, ReceiveTimestampOffset),
        transmitTimestamp := GetDateTime(bytes, TransmitTimestampOffset)))
  }
}
