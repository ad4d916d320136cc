/** How the request encoder and the response decoder fit together.

    The encoder scales the ticks past the whole second by 100000/232, about
    431.03 fraction units per tick, while the exact factor is 2^32/10^7,
    about 429.50; the decoder divides by the exact 2^32. The two directions
    therefore agree exactly only on whole seconds. Below, the drift is bounded
    where the fraction word does not wrap, and the loss of almost a second is
    shown where it does. Tick counts are written as literals (10_000_000
    ticks per second, 10_000 per millisecond) to keep the arithmetic linear
    for the solver. */
module RoundTrip {
  import opened ByteOrder
  import opened NtpTypes
  import Request
  import Response

  /** Ticks in one NTP era: 2^32 seconds, after which the seconds word wraps. */
  const Era: int := 42_949_672_960_000_000

  /** The smallest remainder (ticks past the whole second) whose scaled
      fraction no longer fits in 32 bits. */
  const FractionWrapThreshold: int := 9_964_325

  /** Encode an instant as the originate timestamp, then decode those 8 bytes. */
  function EncodeDecode(t: Ticks): Ticks
  {
    Response.GetDateTime(Request.GetOriginateTimestamp(t), 0)
  }

  /** The decoded instant is the seconds word in whole seconds plus the
      fraction word truncated to whole milliseconds. */
  lemma LemmaEncodeDecodeWords(t: Ticks)
    ensures EncodeDecode(t) == Request.SecondsField(t) as int * 10_000_000
                               + Request.FractionField(t) as int * 1000 / 0x1_0000_0000 * 10_000
  {
    var ts := Request.GetOriginateTimestamp(t);
    assert ts[0..4] == ts[..4] && ts[4..8] == ts[4..];
    var s: int, f: int := Request.SecondsField(t), Request.FractionField(t);
    var r := Response.NtpTimeToTicks(s, f);
    assert r == r / 10_000_000 * 10_000_000 + r % 10_000_000;
    var q := r % 10_000_000;
    assert q == q / 10_000 * 10_000 + q % 10_000;
  }

  /** The fraction word is the scaled remainder, less 2^32 exactly when the
      remainder is at or above the threshold. */
  lemma LemmaFractionFieldWrap(t: Ticks)
    requires t >= 0
    ensures var scaled := t % 10_000_000 * 100000 / 232;
            && scaled < 2 * 0x1_0000_0000
            && (scaled >= 0x1_0000_0000 <==> t % 10_000_000 >= FractionWrapThreshold)
            && Request.FractionField(t) == if scaled >= 0x1_0000_0000 then scaled - 0x1_0000_0000 else scaled
  {
    var rem := t % 10_000_000;
    if rem >= FractionWrapThreshold {
      assert rem * 100000 >= 0x1_0000_0000 * 232;
    } else {
      assert rem * 100000 < 0x1_0000_0000 * 232;
    }
  }

  /** Whole-second instants survive encoding and decoding, modulo one era:
      the fraction word is zero and the seconds word wraps at 2^32. */
  lemma LemmaWholeSecondRoundTrip(t: Ticks)
    requires t >= 0 && t % 10_000_000 == 0
    ensures EncodeDecode(t) == t % Era
  {
    var k := t / 10_000_000;
    var s: int := Request.SecondsField(t);
    assert EncodeDecode(t) == s * 10_000_000 by {
      LemmaEncodeDecodeWords(t);
      assert Request.FractionField(t) == 0;
    }
    assert s == k % 0x1_0000_0000;
    assert t == k * 10_000_000;
    LemmaEraWrap(k);
  }

  /** Within the first era a whole-second instant comes back exactly. */
  lemma LemmaWholeSecondRoundTripInEra(t: Ticks)
    requires 0 <= t < Era && t % 10_000_000 == 0
    ensures EncodeDecode(t) == t
  {
    var k := t / 10_000_000;
    LemmaSecondsInEra(t);
    assert EncodeDecode(t) == k * 10_000_000 by {
      LemmaEncodeDecodeWords(t);
      assert Request.FractionField(t) == 0;
    }
  }

  /** Within the first era the seconds word does not wrap. */
  lemma LemmaSecondsInEra(t: Ticks)
    requires 0 <= t < Era
    ensures Request.SecondsField(t) == t / 10_000_000
  {
    LemmaSecondsBelowEra(t);
  }

  lemma LemmaSecondsBelowEra(t: int)
    requires 0 <= t < Era
    ensures t / 10_000_000 % 0x1_0000_0000 == t / 10_000_000
  {
    assert t / 10_000_000 < 0x1_0000_0000;
  }

  lemma LemmaEraWrap(k: nat)
    ensures k % 0x1_0000_0000 * 10_000_000 == k * 10_000_000 % Era
  {
    var q := k / 0x1_0000_0000;
    var s := k % 0x1_0000_0000;
    assert k == q * 0x1_0000_0000 + s;
    assert k * 10_000_000 == q * Era + s * 10_000_000;
  }

  /** Below the wrap threshold the decoded instant is never more than 1 ms
      early and always less than 3.6 ms late. */
  lemma LemmaDriftBeforeFractionWraps(t: Ticks)
    requires 0 <= t < Era && t % 10_000_000 < FractionWrapThreshold
    ensures t - 10_000 <= EncodeDecode(t) < t + 36_000
  {
    var k := t / 10_000_000;
    var rem := t % 10_000_000;
    var m := rem * 100000 / 232 * 1000 / 0x1_0000_0000;
    LemmaSecondsInEra(t);
    LemmaFractionFieldWrap(t);
    assert EncodeDecode(t) == k * 10_000_000 + m * 10_000 by {
      LemmaEncodeDecodeWords(t);
    }
    LemmaScaledMillisecondsBound(rem);
  }

  /** Millisecond arithmetic behind the drift bound. */
  lemma LemmaScaledMillisecondsBound(rem: int)
    requires 0 <= rem < FractionWrapThreshold
    ensures var m := rem * 100000 / 232 * 1000 / 0x1_0000_0000;
            rem - 10_000 <= m * 10_000 < rem + 36_000
  {
    var f := rem * 100000 / 232;
    var m := f * 1000 / 0x1_0000_0000;
    assert f * 232 <= rem * 100000 < f * 232 + 232;
    assert m * 0x1_0000_0000 <= f * 1000 < m * 0x1_0000_0000 + 0x1_0000_0000;
    assert m * 0x1_0000_0000 * 232 <= rem * 100_000_000;
    if rem > 0 {
      assert m * 0x1_0000_0000 * 232 > rem * 100_000_000 - 232_000 - 232 * 0x1_0000_0000;
    }
  }

  /** At or above the wrap threshold the decoded instant falls within the
      first 4 ms of the same second, so almost a whole second is lost. */
  lemma LemmaFractionWrapLosesNearlyASecond(t: Ticks)
    requires 0 <= t < Era && t % 10_000_000 >= FractionWrapThreshold
    ensures var second := t / 10_000_000 * 10_000_000;
            second <= EncodeDecode(t) < second + 40_000
    ensures t - EncodeDecode(t) > 9_900_000
  {
    LemmaWrappedDecode(t);
    LemmaWrapLossArithmetic(t, EncodeDecode(t));
  }

  /** The decoded instant once the fraction word has wrapped. */
  lemma LemmaWrappedDecode(t: Ticks)
    requires 0 <= t < Era && t % 10_000_000 >= FractionWrapThreshold
    ensures EncodeDecode(t) == t / 10_000_000 * 10_000_000
                               + (t % 10_000_000 * 100000 / 232 - 0x1_0000_0000) * 1000 / 0x1_0000_0000 * 10_000
  {
    LemmaSecondsInEra(t);
    LemmaFractionFieldWrap(t);
    LemmaEncodeDecodeWords(t);
  }

  /** Where the wrapped decoded instant lands relative to the instant. */
  lemma LemmaWrapLossArithmetic(t: int, e: int)
    requires t >= 0 && t % 10_000_000 >= FractionWrapThreshold
    requires e == t / 10_000_000 * 10_000_000
                  + (t % 10_000_000 * 100000 / 232 - 0x1_0000_0000) * 1000 / 0x1_0000_0000 * 10_000
    ensures t / 10_000_000 * 10_000_000 <= e < t / 10_000_000 * 10_000_000 + 40_000
    ensures t - e > 9_900_000
  {
    var rem := t % 10_000_000;
    LemmaWrappedMillisecondsBound(rem);
    assert t == t / 10_000_000 * 10_000_000 + rem;
  }

  /** Millisecond arithmetic behind the wrap loss. */
  lemma LemmaWrappedMillisecondsBound(rem: int)
    requires FractionWrapThreshold <= rem < 10_000_000
    ensures 0 <= (rem * 100000 / 232 - 0x1_0000_0000) * 1000 / 0x1_0000_0000 <= 3
  {
    assert 0x1_0000_0000 <= rem * 100000 / 232 <= 4_310_344_396;
  }

  /** A concrete instant that decodes more than 1 ms away from itself without
      any wrap: 0.9964324 s past the epoch comes back as 0.999 s. The instant
      is a parameter fixed by the precondition, so that the solver does not
      unfold the whole codec on a literal. */
  lemma LemmaNoOneMillisecondRoundTrip(t: Ticks)
    requires t == 9_964_324
    ensures EncodeDecode(t) == 9_990_000
    ensures EncodeDecode(t) - t > 10_000
  {
    LemmaSecondsInEra(t);
    LemmaFractionFieldWrap(t);
    assert t % 10_000_000 * 100000 / 232 == 4_294_967_241;
    assert Request.FractionField(t) == 4_294_967_241;
    assert 4_294_967_241 * 1000 / 0x1_0000_0000 == 999;
    LemmaEncodeDecodeWords(t);
  }

  /** A concrete instant just below a whole second that loses almost the
      whole second: 0.9999999 s past the epoch comes back as 0.003 s. */
  lemma LemmaFractionWrapExample(t: Ticks)
    requires t == 9_999_999
    ensures EncodeDecode(t) == 30_000
  {
    LemmaSecondsInEra(t);
    LemmaFractionFieldWrap(t);
    assert t % 10_000_000 * 100000 / 232 == 4_310_344_396;
    assert Request.FractionField(t) == 15_377_100;
    assert 15_377_100 * 1000 / 0x1_0000_0000 == 3;
    LemmaEncodeDecodeWords(t);
  }

  /** Before the epoch the truncating remainder is negative, so the fraction
      word wraps from below: one tick before the epoch has a seconds word of 0
      and a fraction word of 2^32 - 431, and comes back almost a second after
      the epoch, later than the epoch itself. */
  lemma LemmaPreEpochExample(t: Ticks)
    requires t == -1
    ensures Request.SecondsField(t) == 0
    ensures Request.FractionField(t) == 0x1_0000_0000 - 431
    ensures EncodeDecode(t) == 9_990_000
    ensures EncodeDecode(t) > EncodeDecode(0)
  {
    assert Request.SecondsField(t) == 0 by {
      assert Request.TruncatedDiv(t, 10_000_000) == 0;
    }
    assert Request.FractionField(t) == 4_294_966_865 by {
      assert Request.TruncatedRem(t, 10_000_000) == -1;
      assert Request.TruncatedDiv(-100_000, 232) == -431;
    }
    assert EncodeDecode(t) == 9_990_000 by {
      assert 4_294_966_865 * 1000 / 0x1_0000_0000 == 999;
      LemmaEncodeDecodeWords(t);
    }
    assert EncodeDecode(0) == 0 by {
      LemmaEncodeDecodeWords(0);
    }
  }

  /** A request parsed back as a response keeps its leap indicator, mode and
      stratum, and its version when that is in 0..7. Precision reads the poll
      byte 16, the poll interval is 0, and every field the request leaves zero
      decodes as zero or as the epoch. */
  lemma LemmaRequestParsesBack(request: NtpRequest, parse: string -> Option<PrimaryReferenceIdentifier>)
    ensures var parsed := Response.ParseBytes(Request.GetBytes(request), parse);
            && parsed.Some?
            && parsed.value.header.leapIndicator == request.leapIndicator
            && parsed.value.header.versionNumber == (if 0 <= request.versionNumber <= 7 then request.versionNumber else 0)
            && parsed.value.header.mode == request.mode
            && parsed.value.header.stratum == request.stratum
            && parsed.value.header.pollInterval == 0
            && parsed.value.header.originateTimestamp == EncodeDecode(request.originateTimestamp)
            && parsed.value.precisionLog2Seconds == 16
            && parsed.value.rootDelay == 0
            && parsed.value.rootDispersion == 0
            && parsed.value.referenceTimestamp == 0
            && parsed.value.receiveTimestamp == 0
            && parsed.value.transmitTimestamp == 0
  {
    LemmaRequestHeaderParsesBack(request, parse);
    LemmaRequestOriginateParsesBack(request, parse);
    LemmaRequestZeroFieldsParseBack(request, parse);
  }

  /** The header fields of a request survive parsing. */
  lemma LemmaRequestHeaderParsesBack(request: NtpRequest, parse: string -> Option<PrimaryReferenceIdentifier>)
    ensures var parsed := Response.ParseBytes(Request.GetBytes(request), parse);
            && parsed.Some?
            && parsed.value.header.leapIndicator == request.leapIndicator
            && parsed.value.header.versionNumber == (if 0 <= request.versionNumber <= 7 then request.versionNumber else 0)
            && parsed.value.header.mode == request.mode
            && parsed.value.header.stratum == request.stratum
            && parsed.value.header.pollInterval == 0
  {
  }

  /** The originate timestamp of a request parses back as its encoded and
      decoded instant. */
  lemma LemmaRequestOriginateParsesBack(request: NtpRequest, parse: string -> Option<PrimaryReferenceIdentifier>)
    ensures var parsed := Response.ParseBytes(Request.GetBytes(request), parse);
            && parsed.Some?
            && parsed.value.header.originateTimestamp == EncodeDecode(request.originateTimestamp)
  {
    var bytes := Request.GetBytes(request);
    var ts := Request.GetOriginateTimestamp(request.originateTimestamp);
    assert bytes[24..28] == ts[0..4] && bytes[28..32] == ts[4..8];
  }

  /** The fields a request leaves zero parse as zero or the epoch, and the
      precision reads the poll byte. */
  lemma LemmaRequestZeroFieldsParseBack(request: NtpRequest, parse: string -> Option<PrimaryReferenceIdentifier>)
    ensures var parsed := Response.ParseBytes(Request.GetBytes(request), parse);
            && parsed.Some?
            && parsed.value.precisionLog2Seconds == 16
            && parsed.value.rootDelay == 0
            && parsed.value.rootDispersion == 0
            && parsed.value.referenceTimestamp == 0
            && parsed.value.receiveTimestamp == 0
            && parsed.value.transmitTimestamp == 0
  {
    LemmaZeroFieldsParse(Request.GetBytes(request), parse);
  }

  /** A 48-byte buffer that is zero outside header bytes 0-2 and the
      originate timestamp parses with zero delay and dispersion and with the
      other three timestamps at the epoch; precision is byte 2. */
  lemma LemmaZeroFieldsParse(bytes: seq<Byte>, parse: string -> Option<PrimaryReferenceIdentifier>)
    requires |bytes| == Response.PacketLength
    requires forall i :: 3 <= i < 24 || 32 <= i < |bytes| ==> bytes[i] == 0
    ensures var parsed := Response.ParseBytes(bytes, parse);
            && parsed.Some?
            && parsed.value.precisionLog2Seconds == bytes[2]
            && parsed.value.rootDelay == 0
            && parsed.value.rootDispersion == 0
            && parsed.value.referenceTimestamp == 0
            && parsed.value.receiveTimestamp == 0
            && parsed.value.transmitTimestamp == 0
  {
    var zero: seq<Byte> := [0, 0, 0, 0];
    assert bytes[4..8] == zero && bytes[8..12] == zero;
    assert bytes[16..20] == zero && bytes[20..24] == zero;
    assert bytes[32..36] == zero && bytes[36..40] == zero;
    assert bytes[40..44] == zero && bytes[44..48] == zero;
    assert SignedLeValue(zero) == 0 && BeValue(zero) == 0;
    assert Response.NtpTimeToTicks(0, 0) == 0;
  }

  /** Byte 3 of a response never reaches any parsed field. */
  lemma LemmaParseIgnoresByte3(bytes: seq<Byte>, b: Byte, parse: string -> Option<PrimaryReferenceIdentifier>)
    requires |bytes| == Response.PacketLength
    ensures Response.ParseBytes(bytes[3 := b], parse) == Response.ParseBytes(bytes, parse)
  {
    var other := bytes[3 := b];
    assert other[4..8] == bytes[4..8] && other[8..12] == bytes[8..12] && other[12..16] == bytes[12..16];
    assert other[16..20] == bytes[16..20] && other[20..24] == bytes[20..24];
    assert other[24..28] == bytes[24..28] && other[28..32] == bytes[28..32];
    assert other[32..36] == bytes[32..36] && other[36..40] == bytes[36..40];
    assert other[40..44] == bytes[40..44] && other[44..48] == bytes[44..48];
  }

  /** The requested poll interval never reaches the wire. */
  lemma LemmaGetBytesIgnoresPollInterval(request: NtpRequest, pollInterval: int)
    ensures Request.GetBytes(request.(pollInterval := pollInterval)) == Request.GetBytes(request)
  {
  }

  /** An all-zero packet decodes to the zero value of every field: no leap
      adjustment, version 0, mode Reserved, stratum UnspecifiedOrInvalid, the
      default reference identifier, and every timestamp at the epoch. */
  lemma LemmaZeroPacket(bytes: seq<Byte>, parse: string -> Option<PrimaryReferenceIdentifier>)
    requires |bytes| == Response.PacketLength
    requires forall i :: 0 <= i < |bytes| ==> bytes[i] == 0
    ensures var parsed := Response.ParseBytes(bytes, parse);
            && parsed.Some?
            && parsed.value.header.leapIndicator == NoLeapSecondAdjustment
            && parsed.value.header.versionNumber == 0
            && parsed.value.header.mode == Mode.Reserved
            && parsed.value.header.stratum == UnspecifiedOrInvalid
            && parsed.value.header.originateTimestamp == 0
            && parsed.value.referenceTimestamp == 0
            && parsed.value.receiveTimestamp == 0
            && parsed.value.transmitTimestamp == 0
            && parsed.value.referenceIdentifier == DefaultReferenceIdentifier
  {
    LemmaZeroFieldsParse(bytes, parse);
    assert bytes[24..28] == [0, 0, 0, 0] && bytes[28..32] == [0, 0, 0, 0];
    LemmaZeroHeaderParse(bytes, parse);
  }

  /** Zero header bytes and a zero originate timestamp decode to the zero
      header and the default reference identifier. */
  lemma LemmaZeroHeaderParse(bytes: seq<Byte>, parse: string -> Option<PrimaryReferenceIdentifier>)
    requires |bytes| == Response.PacketLength && bytes[0] == 0 && bytes[1] == 0
    requires bytes[24..28] == [0, 0, 0, 0] && bytes[28..32] == [0, 0, 0, 0]
    ensures var parsed := Response.ParseBytes(bytes, parse);
            && parsed.Some?
            && parsed.value.header.leapIndicator == NoLeapSecondAdjustment
            && parsed.value.header.versionNumber == 0
            && parsed.value.header.mode == Mode.Reserved
            && parsed.value.header.stratum == UnspecifiedOrInvalid
            && parsed.value.header.originateTimestamp == 0
            && parsed.value.referenceIdentifier == DefaultReferenceIdentifier
  {
    assert BeValue([0, 0, 0, 0]) == 0;
    assert Response.NtpTimeToTicks(0, 0) == 0;
  }

  /** Decoding header byte 0 and encoding the three fields again gives back
      the same byte: every byte is a valid leap/version/mode combination. */
  lemma LemmaHeaderByteReencodes(x: Byte)
    ensures Request.GetLiVnModeByte(Response.GetLeapIndicator(x), Response.GetVersionNumber(x), Response.GetMode(x)) == x
  {
  }

  /** Decoding a stratum byte and encoding the stratum again gives back the
      byte exactly when it is the largest byte of its bucket. */
  lemma LemmaStratumByteReencodes(b: Byte)
    ensures Request.GetStratum(Response.GetStratum(b)) == b <==> b in {0, 1, 15, 16, 255}
  {
  }

  /** Encoding a decoded timestamp keeps its seconds word. */
  lemma LemmaDecodedSecondsReencode(bytes: seq<Byte>, index: int)
    requires 0 <= index && index + 8 <= |bytes|
    ensures Request.SecondsField(Response.GetDateTime(bytes, index)) == BeValue(bytes[index..index + 4])
  {
    var seconds := BeValue(bytes[index..index + 4]);
    var r := Response.NtpTimeToTicks(seconds, BeValue(bytes[index + 4..index + 8]));
    assert r >= 0 && r / TicksPerSecond == seconds;
    LemmaSecondsFieldOfDecoded(r, seconds);
  }

  lemma LemmaSecondsFieldOfDecoded(r: int, seconds: UInt32)
    requires r >= 0 && r / TicksPerSecond == seconds
    ensures Request.SecondsField(r) == seconds
  {
    assert Request.SecondsField(r) == seconds % TwoTo32;
  }

  /** The milliseconds the decoder reads from the fraction word of an
      unwrapped remainder. */
  function ScaledMilliseconds(rem: int): int
  {
    rem * 100000 / 232 * 1000 / 0x1_0000_0000
  }

  /** Below the wrap threshold the decoded instant is the whole seconds plus
      the scaled milliseconds, which stay below 1000. */
  lemma LemmaUnwrappedDecode(t: Ticks)
    requires 0 <= t < Era && t % 10_000_000 < FractionWrapThreshold
    ensures EncodeDecode(t) == t / 10_000_000 * 10_000_000 + ScaledMilliseconds(t % 10_000_000) * 10_000
    ensures 0 <= ScaledMilliseconds(t % 10_000_000) < 1000
  {
    LemmaSecondsInEra(t);
    LemmaFractionFieldWrap(t);
    LemmaEncodeDecodeWords(t);
  }

  /** The scaled milliseconds never decrease as the remainder grows. */
  lemma LemmaScaledMillisecondsMonotone(r1: int, r2: int)
    requires 0 <= r1 <= r2
    ensures ScaledMilliseconds(r1) <= ScaledMilliseconds(r2)
  {
    var f1, f2 := r1 * 100000 / 232, r2 * 100000 / 232;
    assert f1 <= f2;
    assert f1 * 1000 / 0x1_0000_0000 <= f2 * 1000 / 0x1_0000_0000;
  }

  /** Below the wrap threshold, encoding and decoding keeps instants in order. */
  lemma LemmaEncodeDecodeMonotone(t1: Ticks, t2: Ticks)
    requires 0 <= t1 <= t2 < Era
    requires t1 % 10_000_000 < FractionWrapThreshold && t2 % 10_000_000 < FractionWrapThreshold
    ensures EncodeDecode(t1) <= EncodeDecode(t2)
  {
    LemmaUnwrappedDecode(t1);
    LemmaUnwrappedDecode(t2);
    LemmaDecodedOrder(t1, t2, EncodeDecode(t1), EncodeDecode(t2));
  }

  /** Two decoded instants built from ordered instants are ordered: a later
      second always wins, and within a second the milliseconds grow. */
  lemma LemmaDecodedOrder(t1: int, t2: int, e1: int, e2: int)
    requires 0 <= t1 <= t2
    requires e1 == t1 / 10_000_000 * 10_000_000 + ScaledMilliseconds(t1 % 10_000_000) * 10_000
    requires e2 == t2 / 10_000_000 * 10_000_000 + ScaledMilliseconds(t2 % 10_000_000) * 10_000
    requires 0 <= ScaledMilliseconds(t1 % 10_000_000) < 1000 && 0 <= ScaledMilliseconds(t2 % 10_000_000) < 1000
    ensures e1 <= e2
  {
    if t1 / 10_000_000 == t2 / 10_000_000 {
      LemmaScaledMillisecondsMonotone(t1 % 10_000_000, t2 % 10_000_000);
    }
  }
}
