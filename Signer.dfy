/**
 * The vendor authentication headers of sb_set_headers: a millisecond
 * timestamp, the string token ++ timestamp ++ nonce, its HMAC-SHA256 under the
 * secret, and the base64 of that digest.
 */
module Signer {
  import opened Wrappers
  import Base64
  import Decimal

  /** Longest nonce the signer accepts. */
  const MaxNonceLength: nat := 40

  /** Sizes of the fixed buffers the C code formats into, terminator included. */
  const TimestampBufSize: nat := 20
  const PayloadBufSize: nat := 160
  const SignBufSize: nat := 64

  const AuthorizationHeader: string := "Authorization"
  const TimestampHeader: string := "t"
  const NonceHeader: string := "nonce"
  const SignHeader: string := "sign"

  /** An HMAC-SHA256 tag. */
  type Digest = s: seq<Base64.byte> | |s| == 32 witness seq(32, _ => 0)

  /**
   * HMAC-SHA256 keyed by its first argument over its second. The library that
   * computes it is not part of this model, so the signer takes it as a parameter.
   */
  type Hmac = (string, string) -> Digest

  /** A clock reading as gettimeofday gives it, with a millisecond count that fits an int64. */
  predicate ValidClock(sec: int, usec: int) {
    0 <= usec < 1_000_000 && Decimal.InInt64(sec * 1000) && Decimal.InInt64(sec * 1000 + usec / 1000)
  }

  /** Milliseconds since the epoch: whole seconds times 1000 plus the whole milliseconds of usec. */
  function TimeMillis(sec: int, usec: int): (ms: int)
    requires ValidClock(sec, usec)
    ensures Decimal.InInt64(ms)
    ensures ms / 1000 == sec && ms % 1000 == usec / 1000
  {
    sec * 1000 + usec / 1000
  }

  datatype SignedHeaders = SignedHeaders(authorization: string, timestamp: string, nonce: string, sign: string)

  datatype SignError = NonceTooLong

  /** The string the signature is computed over. */
  function StringToSign(token: string, timestamp: string, nonce: string): (r: string)
    ensures |r| == |token| + |timestamp| + |nonce|
    ensures r[..|token|] == token && r[|token|..|token| + |timestamp|] == timestamp
    ensures r[|token| + |timestamp|..] == nonce
  {
    token + timestamp + nonce
  }

  /**
   * The four header values for a request made at ms milliseconds, or an error
   * when the nonce is too long, in which case nothing is signed.
   */
  function Sign(hmac: Hmac, secret: string, token: string, nonce: string, ms: int): (r: Result<SignedHeaders, SignError>)
    ensures r.Failure? <==> |nonce| > MaxNonceLength
    ensures r.Success? ==>
      && r.value.authorization == token
      && r.value.nonce == nonce
      && r.value.timestamp == Decimal.FormatInt(ms)
      && Decimal.ParseInt(r.value.timestamp) == Some(ms)
      && r.value.sign == Base64.Encode(hmac(secret, StringToSign(token, r.value.timestamp, nonce)))
      && Base64.Decode(r.value.sign) == Some(hmac(secret, StringToSign(token, r.value.timestamp, nonce)))
      && |r.value.sign| + 1 <= SignBufSize
  {
    if |nonce| > MaxNonceLength then Failure(NonceTooLong)
    else
      var timestamp := Decimal.FormatInt(ms);
      var digest := hmac(secret, StringToSign(token, timestamp, nonce));
      Decimal.ParseFormatInt(ms);
      Base64.DecodeEncode(digest);
      Base64.DigestLength(digest);
      Success(SignedHeaders(token, timestamp, nonce, Base64.Encode(digest)))
  }

  /** The header map the four values are attached as. */
  function HeaderMap(h: SignedHeaders): (m: map<string, string>)
    ensures m.Keys == {AuthorizationHeader, TimestampHeader, NonceHeader, SignHeader}
    ensures m[AuthorizationHeader] == h.authorization && m[TimestampHeader] == h.timestamp
    ensures m[NonceHeader] == h.nonce && m[SignHeader] == h.sign
  {
    map[AuthorizationHeader := h.authorization, TimestampHeader := h.timestamp,
        NonceHeader := h.nonce, SignHeader := h.sign]
  }

  /** The signature is exactly 44 characters: the base64 of a 32-byte digest. */
  lemma SignatureLength(hmac: Hmac, secret: string, token: string, nonce: string, ms: int)
    requires |nonce| <= MaxNonceLength
    ensures |Sign(hmac, secret, token, nonce, ms).value.sign| == 44
  {
    var ts := Decimal.FormatInt(ms);
    Base64.DigestLength(hmac(secret, StringToSign(token, ts, nonce)));
  }

  /**
   * With a nonce of at most 40 characters, a token of at most 99 and a
   * timestamp that fits its own buffer, the string to sign fits the 160-byte
   * buffer with its terminator.
   */
  lemma PayloadFits(token: string, nonce: string, ms: int)
    requires |token| <= 99 && |nonce| <= MaxNonceLength
    requires -(Decimal.Pow10(18) as int) < ms <= Decimal.Int64Max
    ensures |Decimal.FormatInt(ms)| + 1 <= TimestampBufSize
    ensures |StringToSign(token, Decimal.FormatInt(ms), nonce)| + 1 <= PayloadBufSize
  {
    Decimal.TimestampFits(ms);
  }

  /**
   * Two signatures are equal only when the digests they encode are equal: a
   * change of digest always shows in the sign header.
   */
  lemma SignatureDeterminesDigest(hmac: Hmac, secret1: string, token1: string, nonce1: string, ms1: int,
                                  secret2: string, token2: string, nonce2: string, ms2: int)
    requires |nonce1| <= MaxNonceLength && |nonce2| <= MaxNonceLength
    requires Sign(hmac, secret1, token1, nonce1, ms1).value.sign == Sign(hmac, secret2, token2, nonce2, ms2).value.sign
    ensures hmac(secret1, StringToSign(token1, Decimal.FormatInt(ms1), nonce1))
         == hmac(secret2, StringToSign(token2, Decimal.FormatInt(ms2), nonce2))
  {
    Base64.EncodeInjective(hmac(secret1, StringToSign(token1, Decimal.FormatInt(ms1), nonce1)),
                           hmac(secret2, StringToSign(token2, Decimal.FormatInt(ms2), nonce2)));
  }
}
