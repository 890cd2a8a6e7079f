/**
 * Base64 encoding with the standard alphabet and '=' padding, as defined in
 * section 4 of RFC 4648. The signer encodes the 32-byte HMAC digest with it.
 * Decode is the partner that shows the encoding loses nothing.
 */
module Base64 {
  import opened Wrappers

  type byte = x: int | 0 <= x < 256

  /** A 6-bit value: one base64 digit. */
  type sextet = x: int | 0 <= x < 64

  const Padding: char := '='

  /** The digit for value d, following Table 1 of RFC 4648: A-Z, a-z, 0-9, '+', '/'. */
  function DigitChar(d: sextet): (c: char)
    ensures c != Padding
  {
    if d < 26 then (65 + d) as char
    else if d < 52 then (97 + d - 26) as char
    else if d < 62 then (48 + d - 52) as char
    else if d == 62 then '+'
    else '/'
  }

  /** The value of a base64 digit, or None for any other character. */
  function DigitValue(c: char): (r: Option<sextet>)
    ensures r.Some? ==> DigitChar(r.value) == c
  {
    if 'A' <= c <= 'Z' then Some(c as int - 65)
    else if 'a' <= c <= 'z' then Some(c as int - 97 + 26)
    else if '0' <= c <= '9' then Some(c as int - 48 + 52)
    else if c == '+' then Some(62)
    else if c == '/' then Some(63)
    else None
  }

  lemma DigitRoundTrip(d: sextet)
    ensures DigitValue(DigitChar(d)) == Some(d)
  {
  }

  /** Three bytes become four digits. */
  function EncodeGroup(a: byte, b: byte, c: byte): seq<char> {
    [DigitChar(a / 4), DigitChar((a % 4) * 16 + b / 16), DigitChar((b % 16) * 4 + c / 64), DigitChar(c % 64)]
  }

  /** A final group of two bytes: three digits and one pad. */
  function EncodeTwo(a: byte, b: byte): seq<char> {
    [DigitChar(a / 4), DigitChar((a % 4) * 16 + b / 16), DigitChar((b % 16) * 4), Padding]
  }

  /** A final group of one byte: two digits and two pads. */
  function EncodeOne(a: byte): seq<char> {
    [DigitChar(a / 4), DigitChar((a % 4) * 16), Padding, Padding]
  }

  /** A character of the encoded alphabet: a digit or the pad. */
  predicate IsEncodedChar(c: char) {
    c == Padding || DigitValue(c).Some?
  }

  /** The padded encoding: whole groups of four characters, each a digit or '='. */
  function Encode(b: seq<byte>): (s: seq<char>)
    ensures |s| % 4 == 0
    ensures forall i :: 0 <= i < |s| ==> IsEncodedChar(s[i])
    decreases |b|
  {
    if |b| == 0 then []
    else if |b| == 1 then EncodeOne(b[0])
    else if |b| == 2 then EncodeTwo(b[0], b[1])
    else EncodeGroup(b[0], b[1], b[2]) + Encode(b[3..])
  }

  /** Four digits without padding become three bytes. */
  function DecodeFull(w: sextet, x: sextet, y: sextet, z: sextet): seq<byte> {
    [w * 4 + x / 16, (x % 16) * 16 + y / 4, (y % 4) * 64 + z]
  }

  /** Decodes one group of four characters, which may end in one or two pads. */
  function DecodeQuad(q: seq<char>): Option<seq<byte>>
    requires |q| == 4
  {
    var w, x, y, z := DigitValue(q[0]), DigitValue(q[1]), DigitValue(q[2]), DigitValue(q[3]);
    if w.None? || x.None? then None
    else if y.Some? && z.Some? then Some(DecodeFull(w.value, x.value, y.value, z.value))
    else if y.Some? && q[3] == Padding then Some(DecodeFull(w.value, x.value, y.value, 0)[..2])
    else if y.None? && q[2] == Padding && q[3] == Padding then Some(DecodeFull(w.value, x.value, 0, 0)[..1])
    else None
  }

  /** Decodes a padded base64 text; padding is accepted only in the last group. */
  function Decode(s: seq<char>): Option<seq<byte>>
    decreases |s|
  {
    if |s| == 0 then Some([])
    else if |s| < 4 then None
    else if |s| == 4 then DecodeQuad(s)
    else
      match DecodeQuad(s[..4])
      case Some(g) =>
        if |g| == 3 then
          match Decode(s[4..])
          case Some(rest) => Some(g + rest)
          case None => None
        else None
      case None => None
  }

  /** Division facts for the digit boundaries inside a group. */
  lemma Join16(q: int, r: int)
    requires 0 <= q && 0 <= r < 16
    ensures (q * 16 + r) / 16 == q && (q * 16 + r) % 16 == r
  {
  }

  lemma Join4(q: int, r: int)
    requires 0 <= q && 0 <= r < 4
    ensures (q * 4 + r) / 4 == q && (q * 4 + r) % 4 == r
  {
  }

  /** The bit arithmetic of one group: the digits of three bytes give the bytes back. */
  lemma GroupArithmetic(a: byte, b: byte, c: byte)
    ensures DecodeFull(a / 4, (a % 4) * 16 + b / 16, (b % 16) * 4 + c / 64, c % 64) == [a, b, c]
  {
    Join16(a % 4, b / 16);
    Join4(b % 16, c / 64);
    assert (b / 16) * 16 + b % 16 == b;
    assert (c / 64) * 64 + c % 64 == c;
  }

  lemma EncodeGroupRoundTrip(a: byte, b: byte, c: byte)
    ensures DecodeQuad(EncodeGroup(a, b, c)) == Some([a, b, c])
  {
    DigitRoundTrip(a / 4);
    DigitRoundTrip((a % 4) * 16 + b / 16);
    DigitRoundTrip((b % 16) * 4 + c / 64);
    DigitRoundTrip(c % 64);
    GroupArithmetic(a, b, c);
  }

  lemma EncodeTwoRoundTrip(a: byte, b: byte)
    ensures DecodeQuad(EncodeTwo(a, b)) == Some([a, b])
  {
    var q := EncodeTwo(a, b);
    DigitRoundTrip(a / 4);
    DigitRoundTrip((a % 4) * 16 + b / 16);
    DigitRoundTrip((b % 16) * 4);
    GroupArithmetic(a, b, 0);
    assert DigitValue(q[3]) == None;
    assert DecodeFull(a / 4, (a % 4) * 16 + b / 16, (b % 16) * 4, 0)[..2] == [a, b];
  }

  lemma EncodeOneRoundTrip(a: byte)
    ensures DecodeQuad(EncodeOne(a)) == Some([a])
  {
    var q := EncodeOne(a);
    DigitRoundTrip(a / 4);
    DigitRoundTrip((a % 4) * 16);
    GroupArithmetic(a, 0, 0);
    assert DigitValue(q[2]) == None && DigitValue(q[3]) == None;
    assert DecodeFull(a / 4, (a % 4) * 16, 0, 0)[..1] == [a];
  }

  /** Every n bytes take 4 * ceil(n / 3) characters. */
  lemma {:induction false} EncodeLength(b: seq<byte>)
    ensures |Encode(b)| == 4 * ((|b| + 2) / 3)
    decreases |b|
  {
    if |b| > 2 {
      EncodeLength(b[3..]);
      EncodeStep(b);
      assert (|b| + 2) / 3 == (|b[3..]| + 2) / 3 + 1;
    }
  }

  /** Any non-empty input yields at least one group. */
  lemma EncodeNonEmpty(b: seq<byte>)
    requires |b| > 0
    ensures |Encode(b)| >= 4
  {
  }

  /** The 32-byte digest encodes to 44 characters: with its terminator it fits a 64-byte buffer. */
  lemma DigestLength(b: seq<byte>)
    requires |b| == 32
    ensures |Encode(b)| == 44
  {
    EncodeLength(b);
  }

  /** Decoding a full group followed by more text decodes the two parts one after the other. */
  lemma DecodeAppend(g: seq<char>, rest: seq<char>, x: seq<byte>, y: seq<byte>)
    requires |g| == 4 && DecodeQuad(g) == Some(x) && |x| == 3
    requires |rest| > 0 && Decode(rest) == Some(y)
    ensures Decode(g + rest) == Some(x + y)
  {
    var s := g + rest;
    assert s[..4] == g;
    assert s[4..] == rest;
  }

  /** A single quad decodes as that quad. */
  lemma DecodeSingle(q: seq<char>)
    requires |q| == 4
    ensures Decode(q) == DecodeQuad(q)
  {
  }

  lemma DecodeEncodeOne(a: byte)
    ensures Decode(Encode([a])) == Some([a])
  {
    assert Encode([a]) == EncodeOne(a);
    DecodeSingle(EncodeOne(a));
    EncodeOneRoundTrip(a);
  }

  lemma DecodeEncodeTwo(a: byte, b: byte)
    ensures Decode(Encode([a, b])) == Some([a, b])
  {
    assert Encode([a, b]) == EncodeTwo(a, b);
    DecodeSingle(EncodeTwo(a, b));
    EncodeTwoRoundTrip(a, b);
  }

  lemma DecodeEncodeThree(a: byte, b: byte, c: byte)
    ensures Decode(Encode([a, b, c])) == Some([a, b, c])
  {
    assert [a, b, c][3..] == [];
    assert Encode([a, b, c]) == EncodeGroup(a, b, c);
    DecodeSingle(EncodeGroup(a, b, c));
    EncodeGroupRoundTrip(a, b, c);
  }

  /** Encoding three or more bytes emits the first group and continues with the rest. */
  lemma EncodeStep(b: seq<byte>)
    requires |b| >= 3
    ensures Encode(b) == EncodeGroup(b[0], b[1], b[2]) + Encode(b[3..])
  {
  }

  lemma SplitFirstThree(b: seq<byte>)
    requires |b| >= 3
    ensures b == [b[0], b[1], b[2]] + b[3..]
  {
  }

  /** The inductive step: a first group in front of an encoding that round-trips. */
  lemma DecodeEncodeLong(b: seq<byte>)
    requires |b| > 3
    requires Decode(Encode(b[3..])) == Some(b[3..])
    ensures Decode(Encode(b)) == Some(b)
  {
    var tail := b[3..];
    EncodeStep(b);
    EncodeGroupRoundTrip(b[0], b[1], b[2]);
    EncodeNonEmpty(tail);
    DecodeAppend(EncodeGroup(b[0], b[1], b[2]), Encode(tail), [b[0], b[1], b[2]], tail);
    SplitFirstThree(b);
  }

  /** Decoding undoes encoding. */
  lemma {:induction false} DecodeEncode(b: seq<byte>)
    ensures Decode(Encode(b)) == Some(b)
    decreases |b|
  {
    if |b| == 1 {
      DecodeEncodeOne(b[0]);
      assert b == [b[0]];
    } else if |b| == 2 {
      DecodeEncodeTwo(b[0], b[1]);
      assert b == [b[0], b[1]];
    } else if |b| == 3 {
      DecodeEncodeThree(b[0], b[1], b[2]);
      assert b == [b[0], b[1], b[2]];
    } else if |b| > 3 {
      DecodeEncode(b[3..]);
      DecodeEncodeLong(b);
    }
  }

  /** Equal encodings come from equal byte strings. */
  lemma EncodeInjective(b1: seq<byte>, b2: seq<byte>)
    requires Encode(b1) == Encode(b2)
    ensures b1 == b2
  {
    DecodeEncode(b1);
    DecodeEncode(b2);
  }

  /** The test vectors of section 10 of RFC 4648, and one that uses the digits '/' and '9'. */
  lemma Vectors()
    ensures Encode([102]) == "Zg=="
    ensures Encode([102, 111]) == "Zm8="
    ensures Encode([102, 111, 111]) == "Zm9v"
    ensures Encode([102, 111, 111, 98]) == "Zm9vYg=="
    ensures Encode([102, 111, 111, 98, 97]) == "Zm9vYmE="
    ensures Encode([102, 111, 111, 98, 97, 114]) == "Zm9vYmFy"
    ensures Encode([255, 254, 253]) == "//79"
  {
    assert [102, 111, 111, 98][3..] == [98];
    assert [102, 111, 111, 98, 97][3..] == [98, 97];
    assert [102, 111, 111, 98, 97, 114][3..] == [98, 97, 114];
  }
}
