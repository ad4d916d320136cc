# Net.Ntp packet codec in Dafny

This project models the pure codec of the `Net.Ntp` library: the 48-byte NTP
packet whose header layout follows section 4 of RFC 2030 (carried forward in
section 4 of RFC 4330), with timestamps in the 64-bit format of section 6 of
RFC 5905 (32-bit seconds since 1900-01-01 UTC, then a 32-bit fraction of a
second, both in network byte order).

- `ByteOrder` (`byte_order.dfy`): bytes, 32-bit words, the little-endian
  `BitConverter` reads and writes, and network order.
- `NtpTypes` (`ntp_types.dfy`): the enumerations `LeapIndicator`, `Mode`,
  `Stratum` and `PrimaryReferenceIdentifier`, the `ReferenceIdentifier`
  record, and immutable `NtpRequest` / `NtpResponse` records. A response
  holds its request-shaped header by composition, not inheritance.
- `Response` (`ntp_response.dfy`): the decoders of `NtpResponse.cs`: the
  leap/version/mode bit fields, the stratum buckets, the reference
  identifier, `SwapEndianness`, `GetDateTime` and `ParseBytes`.
- `Request` (`ntp_request.dfy`): the encoders of `NtpRequest.cs`: the
  leap/version/mode byte, the stratum byte, the fixed poll byte, the
  originate timestamp and `GetBytes`.
- `Base64` (`base64.dfy`): the base64 text of the four reference-identifier
  bytes kept for a secondary server.
- `RoundTrip` (`round_trip.dfy`): what the encoder and the decoder do to
  each other.

Time is an integer count of 100 ns ticks since the 1900 epoch (`Ticks`). The
encoder models C#'s truncating `/` and `%`, so it is defined for instants
before the epoch too; both 32-bit casts are written as explicit `% 2^32`.
`BitConverter` is modelled for a little-endian host. The masks `b & 0xC0`,
`b & 0x38`, `b & 0x07` and the masks and shifts of `SwapEndianness` are
written with the equivalent division and remainder by powers of two.

Behaviour worth knowing, modelled as the code does it:

- The timestamp encoder scales the ticks past the whole second by
  100000/232, while the exact factor is 2^32/10^7; the decoder uses the exact
  2^32. Decoding an encoded instant is exact only for whole seconds. For
  instants from the epoch up to the 2036 era boundary, below a remainder of
  9,964,325 ticks the result is at most 1 ms early and under 3.6 ms late. From that remainder on, the fraction word wraps past 2^32 and
  the decoded instant loses almost a whole second. A general "within 1 ms"
  round trip does not hold; `RoundTrip.LemmaNoOneMillisecondRoundTrip` gives
  an instant about 2.6 ms off without any wrap.
  For instants from the epoch up to the 2036 era boundary and below the
  threshold, encoding and decoding keeps instants in order; the wrap breaks
  that order inside a second.
- Before the epoch the truncating remainder is negative, so the fraction word
  wraps from below: `RoundTrip.LemmaPreEpochExample` shows one tick before
  the epoch coming back almost a second after it.
- The seconds word wraps at 2^32 seconds, the 2036 era boundary.
- The response reads precision from byte 2, the poll byte; a read of byte 3
  is overwritten at once, so byte 3 never matters. Precision is the unsigned
  byte value 0..255, not a signed log2 value.
- Root delay and root dispersion are read least significant byte first with
  no byte swap, although the wire format is big-endian.
- The response's poll interval is never assigned and stays 0.
- The request always sends 16 as the poll byte, whatever its poll interval.
- A version outside 1..7 contributes nothing to header byte 0.

## Model

| member | source | states |
|---|---|---|
| `ByteOrder.LeBytes` | Net.Ntp/NtpRequest.cs:74-75 | the four bytes `BitConverter` writes for a word, least significant first; reading them back gives the word |
| `ByteOrder.LemmaLeBytesOfLeValue` | Net.Ntp/NtpResponse.cs:134-135 | reading four bytes as a word and writing the word back gives the same four bytes, so the read loses nothing |
| `ByteOrder.LeValue` | Net.Ntp/NtpResponse.cs:134-135 | `BitConverter.ToUInt32`: the first byte is the least significant, and the value is the network-order reading of the reversed bytes |
| `ByteOrder.SignedLeValue` | Net.Ntp/NtpResponse.cs:156-157 | the signed 32-bit read lies in [-2^31, 2^31), is congruent to the unsigned read mod 2^32, and is negative exactly when the top bit of the last byte is set |
| `NtpTypes.LeapCode` | Net.Ntp/NtpRequest.cs:100-107 | the two-bit wire code 0..3 of a leap indicator, the multiple of 64 the encoder adds |
| `NtpTypes.ModeCode` | Net.Ntp/Mode.cs:3-13 | the three-bit wire code 0..7 of a mode, its declaration ordinal |
| `NtpTypes.ModeOfCode` | Net.Ntp/Mode.cs:3-13 | the mode whose declaration ordinal is the given code 0..7 |
| `Response.GetLeapIndicator` | Net.Ntp/NtpResponse.cs:63-71 | the leap indicator whose two-bit code is bits 7-6 of the byte |
| `Response.GetVersionNumber` | Net.Ntp/NtpResponse.cs:73-86 | the version is bits 5-3 of the byte, always 0..7, so the fallback return is unreachable |
| `Response.GetMode` | Net.Ntp/NtpResponse.cs:88-100 | the mode is the constructor whose ordinal is bits 2-0 of the byte |
| `Response.GetStratum` | Net.Ntp/NtpResponse.cs:102-111 | byte 0, 1, 2-15, 16 and 17-255 give exactly the five strata in order; the fallback is unreachable for a byte |
| `Response.AsciiString` | Net.Ntp/NtpResponse.cs:118 | ASCII text of the bytes: same length, bytes below 0x80 become that character, others become '?' |
| `Response.GetReferenceIdentifier` | Net.Ntp/NtpResponse.cs:113-130 | the primary type is set only for a primary server whose four ASCII characters parse, otherwise it stays LOCL; address and base64 text are present exactly for a secondary server; the address is the four bytes and the text is their canonical base64, which decodes to them |
| `Base64.Encode4` | Net.Ntp/NtpResponse.cs:127 | four bytes give eight characters ending in "==" with zero padding bits, and decoding that text gives back the bytes |
| `Base64.LemmaCanonicalUnique` | Net.Ntp/NtpResponse.cs:127 | a text with zero padding bits that decodes to four bytes is exactly the encoding of those bytes, so the encoder's text is the only canonical one |
| `Response.SwapEndianness` | Net.Ntp/NtpResponse.cs:169-175 | the result's bytes are the four low bytes of the input in reverse order, so it fits in 32 bits |
| `Response.LemmaSwapInvolution` | Net.Ntp/NtpResponse.cs:169-175 | swapping twice gives back any 32-bit value |
| `Response.LemmaSwapReadsBigEndian` | Net.Ntp/NtpResponse.cs:134-139 | swapping the little-endian read of four bytes gives their big-endian value |
| `Response.NtpTimeToTicks` | Net.Ntp/NtpResponse.cs:140-143 | the decoded instant keeps the seconds exactly, lies on a whole millisecond, and its millisecond part is fraction·1000 div 2^32, always below 1000 |
| `Response.GetDateTime` | Net.Ntp/NtpResponse.cs:132-145 | the instant of the big-endian seconds word at the index and the big-endian fraction word after it |
| `Response.ParseBytes` | Net.Ntp/NtpResponse.cs:147-167 | no response exactly when the length is not 48; otherwise every field is read from its place: bit fields of byte 0, stratum of byte 1, precision byte 2, little-endian signed delay and dispersion, reference identifier of bytes 12-15, four big-endian timestamps, poll interval 0 |
| `Request.TruncatedDiv` | Net.Ntp/NtpRequest.cs:69 | C# integer division: the remainder lies in [0, d) for a non-negative dividend and in (-d, 0] for a negative one |
| `Request.TruncatedRem` | Net.Ntp/NtpRequest.cs:70 | C# integer remainder: the remainder of the magnitudes with the sign of the dividend, so the Euclidean remainder for a non-negative dividend |
| `Request.SecondsField` | Net.Ntp/NtpRequest.cs:68-69 | for an instant after the epoch, the whole seconds mod 2^32 |
| `Request.FractionField` | Net.Ntp/NtpRequest.cs:70 | for an instant after the epoch, the remainder ticks times 100000 div 232, mod 2^32 |
| `Request.GetOriginateTimestamp` | Net.Ntp/NtpRequest.cs:65-77 | eight bytes: the seconds word then the fraction word, each big-endian; for a whole-second instant the fraction bytes are zero |
| `Request.GetPollInterval` | Net.Ntp/NtpRequest.cs:79-82 | the poll byte is 16 whatever the requested interval |
| `Request.GetStratum` | Net.Ntp/NtpRequest.cs:84-95 | the byte decodes back to the same stratum and is the largest byte of that stratum's bucket (0, 1, 15, 16, 255) |
| `Request.GetLiVnModeByte` | Net.Ntp/NtpRequest.cs:97-133 | the byte is 64·leap code + 8·version + mode ordinal, with a version outside 0..7 counting as 0; the three response decoders give back the leap indicator, the version and the mode |
| `Request.LeapBits` | Net.Ntp/NtpRequest.cs:100-107 | the leap indicator adds 64 times its two-bit code |
| `Request.VersionBits` | Net.Ntp/NtpRequest.cs:108-118 | a version in 1..7 adds 8 times itself; any other adds nothing |
| `Request.ModeBits` | Net.Ntp/NtpRequest.cs:119-130 | the mode adds its three-bit ordinal |
| `Request.LemmaHeaderByteDecodes` | Net.Ntp/NtpResponse.cs:63-100 | a byte made of a leap code, a version 0..7 and a mode code fits in a byte, and the three response decoders give back the leap indicator, the version and the mode |
| `Request.GetBytes` | Net.Ntp/NtpRequest.cs:43-63 | 48 bytes: header byte, stratum byte, poll byte 16, the originate timestamp at 24-31, zero everywhere else |
| `RoundTrip.LemmaEncodeDecodeWords` | Net.Ntp/NtpRequest.cs:52 | decoding the encoded originate timestamp gives the seconds word in seconds plus the fraction word truncated to milliseconds |
| `RoundTrip.LemmaFractionFieldWrap` | Net.Ntp/NtpRequest.cs:70 | the scaled remainder is below 2^33 and reaches 2^32 exactly when the remainder is at least 9,964,325 ticks; the fraction word then loses 2^32 |
| `RoundTrip.LemmaSecondsInEra` | Net.Ntp/NtpRequest.cs:69 | before the 2036 era boundary the seconds word does not wrap |
| `RoundTrip.LemmaWholeSecondRoundTrip` | Net.Ntp/NtpRequest.cs:52 | a whole-second instant after the epoch decodes back to itself modulo one era of 2^32 seconds |
| `RoundTrip.LemmaWholeSecondRoundTripInEra` | Net.Ntp/NtpRequest.cs:52 | a whole-second instant before the era boundary decodes back to exactly itself |
| `RoundTrip.LemmaDriftBeforeFractionWraps` | Net.Ntp/NtpRequest.cs:70 | for instants from the epoch up to the 2036 era boundary, below the wrap threshold the decoded instant is at most 1 ms early and under 3.6 ms late |
| `RoundTrip.LemmaWrappedDecode` | Net.Ntp/NtpRequest.cs:70 | for instants from the epoch up to the 2036 era boundary, at or above the wrap threshold the decoded instant is the whole seconds plus the wrapped fraction word in milliseconds |
| `RoundTrip.LemmaFractionWrapLosesNearlyASecond` | Net.Ntp/NtpRequest.cs:70 | for instants from the epoch up to the 2036 era boundary, at or above the wrap threshold the decoded instant falls in the first 4 ms of the same second, more than 0.99 s early |
| `RoundTrip.LemmaNoOneMillisecondRoundTrip` | Net.Ntp/NtpResponse.cs:140 | the instant 9,964,324 ticks decodes to 9,990,000, more than 1 ms away, with no wrap |
| `RoundTrip.LemmaFractionWrapExample` | Net.Ntp/NtpRequest.cs:70 | the instant 9,999,999 ticks decodes to 30,000, losing almost the whole second |
| `RoundTrip.LemmaRequestParsesBack` | Net.Ntp/NtpResponse.cs:147-167 | parsing a request's bytes keeps leap indicator, mode, stratum and an in-range version; precision is 16, poll interval 0, delay, dispersion and the other timestamps zero |
| `RoundTrip.LemmaRequestHeaderParsesBack` | Net.Ntp/NtpResponse.cs:160-164 | parsing a request's bytes gives back its leap indicator, mode, stratum and in-range version, with poll interval 0 |
| `RoundTrip.LemmaRequestOriginateParsesBack` | Net.Ntp/NtpResponse.cs:154 | the parsed originate timestamp is the request's instant encoded and decoded |
| `RoundTrip.LemmaRequestZeroFieldsParseBack` | Net.Ntp/NtpResponse.cs:152-159 | precision reads the poll byte 16; delay, dispersion and the reference, receive and transmit timestamps of a request parse as zero |
| `RoundTrip.LemmaZeroFieldsParse` | Net.Ntp/NtpResponse.cs:152-159 | any 48-byte buffer zero outside bytes 0-2 and the originate timestamp parses with zero delay and dispersion, the other timestamps at the epoch and precision equal to byte 2 |
| `RoundTrip.LemmaParseIgnoresByte3` | Net.Ntp/NtpResponse.cs:158-159 | changing byte 3 changes no parsed field |
| `RoundTrip.LemmaGetBytesIgnoresPollInterval` | Net.Ntp/NtpRequest.cs:49 | the request bytes do not depend on the poll interval |
| `RoundTrip.LemmaZeroPacket` | Net.Ntp/NtpResponse.cs:147-167 | any 48 zero bytes decode to no leap adjustment, version 0, mode Reserved, stratum UnspecifiedOrInvalid, the default reference identifier and every timestamp at the epoch |
| `RoundTrip.LemmaZeroHeaderParse` | Net.Ntp/NtpResponse.cs:160-164 | zero header bytes and a zero originate timestamp decode to no leap adjustment, version 0, mode Reserved, stratum UnspecifiedOrInvalid, the epoch and the default reference identifier |
| `RoundTrip.LemmaHeaderByteReencodes` | Net.Ntp/NtpRequest.cs:97-133 | every header byte decodes to fields that encode back to the same byte |
| `RoundTrip.LemmaStratumByteReencodes` | Net.Ntp/NtpRequest.cs:84-95 | a stratum byte decodes and encodes back to itself exactly when it is 0, 1, 15, 16 or 255 |
| `RoundTrip.LemmaDecodedSecondsReencode` | Net.Ntp/NtpRequest.cs:68-69 | encoding a decoded timestamp gives back its seconds word |
| `RoundTrip.LemmaUnwrappedDecode` | Net.Ntp/NtpRequest.cs:70 | for instants from the epoch up to the 2036 era boundary, below the wrap threshold the decoded instant is the whole seconds plus fewer than 1000 scaled milliseconds |
| `RoundTrip.LemmaEncodeDecodeMonotone` | Net.Ntp/NtpRequest.cs:65-77 | for instants from the epoch up to the 2036 era boundary and below the wrap threshold, encoding and decoding keeps instants in order |
| `RoundTrip.LemmaPreEpochExample` | Net.Ntp/NtpRequest.cs:69-70 | one tick before the epoch gets seconds word 0 and fraction word 2^32 - 431, and decodes to 0.999 s, later than the epoch itself |

## Left out

- Sending, receiving, DNS lookup, the receive timeout and the stopwatch in
  `Test/Program.cs`: transport and I/O, outside the codec.
- `Enum.TryParse` (case-insensitive name matching, whitespace trimming,
  numeric strings) is library behaviour: the parser is a parameter
  `parse: string -> Option<PrimaryReferenceIdentifier>` of
  `GetReferenceIdentifier` and `ParseBytes`, so whether "GPS\0" or "GPS "
  names GPS is left to it.
- `new IPAddress(bytes)` is kept as the four raw address bytes.
- `DateTime` calendar arithmetic: instants are tick counts from the 1900
  epoch. `AddMilliseconds` takes a `double`, which holds every millisecond
  count here exactly, so it is modelled as adding whole milliseconds.
  `DateTime` range checks are not modelled; 2^32 seconds after 1900 is far
  inside the range.
- The `[Range]` annotations on version, poll interval and precision are not
  enforced by the code and are not modelled as checks.
- Mutable setters and the `NtpResponse : NtpRequest` inheritance: both
  packets are immutable records.
- C# enum variables can hold values outside the declared names; the
  `default:` branches of the switches that handle them are not modelled,
  since a datatype has only its constructors.
- The `LeapIndicator` and `Stratum` enum files are not part of this model;
  their constructor names come from their uses, and the leap codes 0..3 from
  the constants 0, 64, 128 and 192.
- A big-endian host for `BitConverter`.
- `GetDateTime` called with an index too close to the end of the buffer
  throws; the model requires eight bytes at the index instead. A null buffer
  passed to `ParseBytes` is not modelled.
