/** Base64 text of a four-byte reference identifier, in the standard
    alphabet with `=` padding (section 4 of RFC 4648), as
    `Convert.ToBase64String` produces it. Four bytes always give six
    alphabet characters followed by "==". */
module Base64 {
  import opened ByteOrder
  import opened NtpTypes

  type Sextet = x: int | 0 <= x < 64

  /** The alphabet character for a 6-bit value. */
  function Digit(v: Sextet): (c: char)
    ensures DigitValue(c) == Some(v)
  {
    if v < 26 then (('A' as int) + v) as char
    else if v < 52 then (('a' as int) + v - 26) as char
    else if v < 62 then (('0' as int) + v - 52) as char
    else if v == 62 then '+'
    else '/'
  }

  /** The 6-bit value of an alphabet character; None for any other character. */
  function DigitValue(c: char): Option<Sextet>
  {
    if 'A' <= c <= 'Z' then Some(c as int - 'A' as int)
    else if 'a' <= c <= 'z' then Some(c as int - 'a' as int + 26)
    else if '0' <= c <= '9' then Some(c as int - '0' as int + 52)
    else if c == '+' then Some(62)
    else if c == '/' then Some(63)
    else None
  }

  /** The base64 text of four bytes: three bytes make four characters, the
      last byte makes two characters and two padding characters. */
  function Encode4(b: seq<Byte>): (s: string)
    requires |b| == 4
    ensures |s| == 8 && s[6] == '=' && s[7] == '='
    ensures Decode4(s) == Some(b)
    ensures Canonical4(s)
  {
    var s := [ Digit(b[0] / 4),
               Digit(b[0] % 4 * 16 + b[1] / 16),
               Digit(b[1] % 16 * 4 + b[2] / 64),
               Digit(b[2] % 64),
               Digit(b[3] / 4),
               Digit(b[3] % 4 * 16),
               '=', '=' ];
    LemmaDecodeEncode(b, s);
    s
  }

  /** Reads back the four bytes of an eight-character text with two padding
      characters; None when the text has another shape. */
  function Decode4(s: string): Option<seq<Byte>>
  {
    if |s| != 8 || s[6] != '=' || s[7] != '=' then None
    else
      match (DigitValue(s[0]), DigitValue(s[1]), DigitValue(s[2]), DigitValue(s[3]), DigitValue(s[4]), DigitValue(s[5]))
      case (Some(c0), Some(c1), Some(c2), Some(c3), Some(c4), Some(c5)) =>
        Some([c0 * 4 + c1 / 16, c1 % 16 * 16 + c2 / 4, c2 % 4 * 64 + c3, c4 * 4 + c5 / 16])
      case _ => None
  }

  /** The padding bits of the last alphabet character are zero, as
      section 3.5 of RFC 4648 requires of a canonical encoding. */
  predicate Canonical4(s: string)
  {
    |s| == 8 && DigitValue(s[5]).Some? && DigitValue(s[5]).value % 16 == 0
  }

  /** A canonical text is the only one that decodes to its bytes: any
      canonical text that decodes to `b` is `Encode4(b)`. */
  lemma LemmaCanonicalUnique(s: string, b: seq<Byte>)
    requires Canonical4(s) && Decode4(s) == Some(b)
    ensures |b| == 4 && s == Encode4(b)
  {
    var c0: int, c1: int, c2: int := DigitValue(s[0]).value, DigitValue(s[1]).value, DigitValue(s[2]).value;
    var c3: int, c4: int, c5: int := DigitValue(s[3]).value, DigitValue(s[4]).value, DigitValue(s[5]).value;
    assert b == [c0 * 4 + c1 / 16, c1 % 16 * 16 + c2 / 4, c2 % 4 * 64 + c3, c4 * 4 + c5 / 16];
    assert b[0] / 4 == c0 && b[0] % 4 * 16 + b[1] / 16 == c1 && b[1] % 16 * 4 + b[2] / 64 == c2 by {
      LemmaSextetsOfBytes(c0, c1, c2, c3, c4, c5);
    }
    assert b[2] % 64 == c3 && b[3] / 4 == c4 && b[3] % 4 * 16 == c5 by {
      LemmaSextetsOfBytes(c0, c1, c2, c3, c4, c5);
    }
    var d := [ Digit(b[0] / 4),
               Digit(b[0] % 4 * 16 + b[1] / 16),
               Digit(b[1] % 16 * 4 + b[2] / 64),
               Digit(b[2] % 64),
               Digit(b[3] / 4),
               Digit(b[3] % 4 * 16),
               '=', '=' ];
    assert d[0] == s[0] by { LemmaDigitOfValue(s[0]); }
    assert d[1] == s[1] by { LemmaDigitOfValue(s[1]); }
    assert d[2] == s[2] by { LemmaDigitOfValue(s[2]); }
    assert d[3] == s[3] by { LemmaDigitOfValue(s[3]); }
    assert d[4] == s[4] by { LemmaDigitOfValue(s[4]); }
    assert d[5] == s[5] by { LemmaDigitOfValue(s[5]); }
    assert d == s;
  }

  /** Splitting the decoded bytes into sextets again gives back the six
      values, when the padding bits of the last one are zero. */
  lemma LemmaSextetsOfBytes(c0: int, c1: int, c2: int, c3: int, c4: int, c5: int)
    requires 0 <= c0 < 64 && 0 <= c1 < 64 && 0 <= c2 < 64
    requires 0 <= c3 < 64 && 0 <= c4 < 64 && 0 <= c5 < 64 && c5 % 16 == 0
    ensures var b0, b1, b2, b3 := c0 * 4 + c1 / 16, c1 % 16 * 16 + c2 / 4, c2 % 4 * 64 + c3, c4 * 4 + c5 / 16;
            && b0 / 4 == c0 && b0 % 4 * 16 + b1 / 16 == c1
            && b1 % 16 * 4 + b2 / 64 == c2 && b2 % 64 == c3
            && b3 / 4 == c4 && b3 % 4 * 16 == c5
  {
  }

  /** An alphabet character is the digit of its value. */
  lemma LemmaDigitOfValue(c: char)
    requires DigitValue(c).Some?
    ensures Digit(DigitValue(c).value) == c
  {
  }

  lemma LemmaDecodeEncode(b: seq<Byte>, s: string)
    requires |b| == 4
    requires s == [ Digit(b[0] / 4), Digit(b[0] % 4 * 16 + b[1] / 16), Digit(b[1] % 16 * 4 + b[2] / 64),
                    Digit(b[2] % 64), Digit(b[3] / 4), Digit(b[3] % 4 * 16), '=', '=' ]
    ensures Decode4(s) == Some(b)
  {
    var c1 := b[0] % 4 * 16 + b[1] / 16;
    var c2 := b[1] % 16 * 4 + b[2] / 64;
    assert c1 / 16 == b[0] % 4 && c1 % 16 == b[1] / 16;
    assert c2 / 4 == b[1] % 16 && c2 % 4 == b[2] / 64;
    assert (b[3] % 4 * 16) / 16 == b[3] % 4;
    assert DigitValue(s[0]) == Some(b[0] / 4) && DigitValue(s[1]) == Some(c1) && DigitValue(s[2]) == Some(c2);
    assert DigitValue(s[3]) == Some(b[2] % 64) && DigitValue(s[4]) == Some(b[3] / 4) && DigitValue(s[5]) == Some(b[3] % 4 * 16);
    var d := [b[0] / 4 * 4 + c1 / 16, c1 % 16 * 16 + c2 / 4, c2 % 4 * 64 + b[2] % 64, b[3] / 4 * 4 + (b[3] % 4 * 16) / 16];
    assert d == b;
  }
}
