/**
 * `verify_signature`: a freshness check on the claimed epoch timestamp, then
 * HMAC-SHA-512 over `timestamp ++ method ++ path ++ body`, base64-encoded and
 * compared with the claimed signature.
 */
module Signature {
  import opened Wrappers
  import opened Utf8
  import Base64

  /** What Python's `float()` can return for a header value. */
  datatype FloatValue = Finite(r: real) | PositiveInfinity | NegativeInfinity | NaN

  type Digest = s: Bytes | |s| == 64 witness seq(64, _ => 0 as Byte)

  /**
   * The primitives the verifier relies on but does not define:
   * `parseFloat` is Python's float conversion (`None` where it raises `ValueError`),
   * `hmacSha512` is the 64-byte HMAC-SHA-512 digest of a message under a key.
   */
  datatype Primitives = Primitives(
    parseFloat: string -> Option<FloatValue>,
    hmacSha512: (Bytes, Bytes) -> Digest)

  /** Largest accepted distance, in seconds, between the clock and the claimed timestamp. */
  const FreshnessWindow: real := 300.0

  /** More than the window between clock and timestamp, compared as IEEE floats: infinities always are, NaN never is. */
  predicate Expired(now: real, t: FloatValue) {
    match t
    case Finite(r) => now - r > FreshnessWindow || r - now > FreshnessWindow
    case PositiveInfinity => true
    case NegativeInfinity => true
    case NaN => false
  }

  /** The timestamp parses and is not expired. */
  predicate Fresh(prim: Primitives, now: real, timestamp: string) {
    prim.parseFloat(timestamp).Some? && !Expired(now, prim.parseFloat(timestamp).value)
  }

  /** The signed bytes: timestamp, method and path run together as UTF-8 text, then the raw body. */
  function CanonicalMessage(timestamp: string, httpMethod: string, path: string, body: Bytes): (m: Bytes)
    ensures m == Utf8.Encode(timestamp) + Utf8.Encode(httpMethod) + Utf8.Encode(path) + body
  {
    Utf8.EncodeAppend(timestamp + httpMethod, path);
    Utf8.EncodeAppend(timestamp, httpMethod);
    Utf8.Encode(timestamp + httpMethod + path) + body
  }

  /** The base64 text of the HMAC-SHA-512 digest of `message` under `secret`. */
  function ExpectedSignature(prim: Primitives, secret: Bytes, message: Bytes): (s: string)
    ensures |s| == 88 && IsAscii(s)
    ensures Base64.Decode(s) == Some(prim.hmacSha512(secret, message))
  {
    var digest := prim.hmacSha512(secret, message);
    Base64.EncodeDigestShape(digest);
    Base64.EncodeIsAscii(digest);
    Base64.DecodeEncode(digest);
    Base64.Encode(digest)
  }

  /** What a call returns, or the `TypeError` that escapes it. */
  datatype VerifyResult = Returns(verified: bool) | RaisesTypeError

  /** `hmac.compare_digest` on two `str`: non-ASCII text raises `TypeError`. */
  function CompareDigest(a: string, b: string): VerifyResult {
    if !IsAscii(a) || !IsAscii(b) then RaisesTypeError else Returns(a == b)
  }

  /** The verdict of the signature check on one request, at clock reading `now`. */
  function VerifySignature(prim: Primitives, now: real, httpMethod: string, path: string, body: Bytes,
                           timestamp: string, signature: string, secret: Bytes): (r: VerifyResult)
    // an unparseable timestamp is a plain rejection, not an exception
    ensures prim.parseFloat(timestamp).None? ==> r == Returns(false)
    ensures prim.parseFloat(timestamp).Some? && Expired(now, prim.parseFloat(timestamp).value) ==> r == Returns(false)
    // accepted exactly when fresh and the signature is the expected base64 MAC
    ensures r == Returns(true) <==>
      Fresh(prim, now, timestamp) &&
      signature == ExpectedSignature(prim, secret, CanonicalMessage(timestamp, httpMethod, path, body))
    // the comparison raises only for a fresh timestamp and a non-ASCII signature
    ensures r == RaisesTypeError <==> Fresh(prim, now, timestamp) && !IsAscii(signature)
  {
    match prim.parseFloat(timestamp)
    case None => Returns(false)
    case Some(t) =>
      if Expired(now, t) then Returns(false)
      else
        var expected := ExpectedSignature(prim, secret, CanonicalMessage(timestamp, httpMethod, path, body));
        CompareDigest(expected, signature)
  }

  /** A drift of exactly 300 seconds either way is accepted; 301 is not; NaN never expires, an infinity always does. */
  lemma FreshnessBoundary(now: real)
    ensures !Expired(now, Finite(now - 300.0)) && !Expired(now, Finite(now + 300.0))
    ensures Expired(now, Finite(now - 301.0)) && Expired(now, Finite(now + 301.0))
    ensures !Expired(now, NaN) && Expired(now, PositiveInfinity) && Expired(now, NegativeInfinity)
  {
  }

  /**
   * An accepted signature decodes to the MAC of the canonical message: it
   * authenticates exactly the concatenated bytes.
   */
  lemma AcceptedSignatureIsMac(prim: Primitives, now: real, httpMethod: string, path: string, body: Bytes,
                               timestamp: string, signature: string, secret: Bytes)
    requires VerifySignature(prim, now, httpMethod, path, body, timestamp, signature, secret) == Returns(true)
    ensures Base64.Decode(signature) ==
      Some(prim.hmacSha512(secret, Utf8.Encode(timestamp) + Utf8.Encode(httpMethod) + Utf8.Encode(path) + body))
  {
  }

  /**
   * No separator marks where the path ends and the body begins: moving text
   * from the end of the path to the front of the body, as UTF-8 bytes, leaves
   * the verdict unchanged.
   */
  lemma PathBodyBoundaryNotSigned(prim: Primitives, now: real, httpMethod: string, path: string, moved: string,
                                  body: Bytes, timestamp: string, signature: string, secret: Bytes)
    ensures VerifySignature(prim, now, httpMethod, path + moved, body, timestamp, signature, secret) ==
            VerifySignature(prim, now, httpMethod, path, Utf8.Encode(moved) + body, timestamp, signature, secret)
  {
    BoundaryShiftMessage(timestamp, httpMethod, path, moved, body);
  }

  lemma BoundaryShiftMessage(timestamp: string, httpMethod: string, path: string, moved: string, body: Bytes)
    ensures CanonicalMessage(timestamp, httpMethod, path + moved, body) ==
            CanonicalMessage(timestamp, httpMethod, path, Utf8.Encode(moved) + body)
  {
    var x, c, d := Utf8.Encode(timestamp) + Utf8.Encode(httpMethod), Utf8.Encode(path), Utf8.Encode(moved);
    Utf8.EncodeAppend(path, moved);
    AppendAssociative(x, c, d);
    AppendAssociative(x + c, d, body);
  }

  lemma AppendAssociative(p: Bytes, q: Bytes, r: Bytes)
    ensures p + (q + r) == (p + q) + r
  {
  }
}
