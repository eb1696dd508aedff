/**
 * The `hmac_auth` middleware: exempt paths pass, missing credentials are
 * refused, the body to sign is chosen by method, a missing secret is a
 * server error, and the signature check decides the rest.
 */
module Gate {
  import opened Wrappers
  import opened Utf8
  import opened Signature
  import Base64

  /**
   * The parts of an inbound request the gate looks at. `path` is the URL path
   * without the query string; the two header fields are the looked-up values
   * of `x-signature` and `x-timestamp`.
   */
  datatype Request = Request(
    httpMethod: string,
    path: string,
    query: string,
    signatureHeader: Option<string>,
    timestampHeader: Option<string>,
    body: Bytes)

  /** What the gate does with a request: hand it on, answer with an error, or let an exception escape. */
  datatype GateOutcome = Forward | Reject(status: nat, error: string) | Unhandled

  const ExemptPaths: seq<string> := ["/", "/docs", "/openapi.json"]
  const MissingCredentialsError := "Missing signature or timestamp"
  const MissingSecretError := "Server misconfiguration (missing HMAC secret)"
  const InvalidSignatureError := "Invalid or expired signature"

  /** Methods whose body is not read and is signed as empty. */
  const BodylessMethods: seq<string> := ["GET", "HEAD", "DELETE"]

  /** Upper-casing of ASCII letters; other characters are kept. */
  function UpperAscii(s: string): (r: string)
    ensures |r| == |s|
    ensures forall i :: 0 <= i < |s| ==>
      r[i] == if 'a' <= s[i] <= 'z' then (s[i] as int - 32) as char else s[i]
  {
    if s == [] then [] else
      var c := if 'a' <= s[0] <= 'z' then (s[0] as int - 32) as char else s[0];
      [c] + UpperAscii(s[1..])
  }

  /** Python's truth value of an optional string: present and non-empty. */
  predicate Present(h: Option<string>) {
    h.Some? && h.value != ""
  }

  /** The body that is signed for an (upper-cased) method. */
  function SignedBody(upperMethod: string, body: Bytes): Bytes {
    if upperMethod in BodylessMethods then [] else body
  }

  /** The gate's decision for `req`, with the configured secret and the clock reading `now`. */
  function HmacAuth(prim: Primitives, now: real, req: Request, secret: Option<Bytes>): (r: GateOutcome)
    ensures req.path in ExemptPaths ==> r == Forward
    ensures req.path !in ExemptPaths && !(Present(req.signatureHeader) && Present(req.timestampHeader)) ==>
      r == Reject(401, MissingCredentialsError)
    ensures r == Reject(500, MissingSecretError) <==>
      req.path !in ExemptPaths && Present(req.signatureHeader) && Present(req.timestampHeader) &&
      !(secret.Some? && secret.value != [])
  {
    if req.path in ExemptPaths then Forward
    else if !Present(req.signatureHeader) || !Present(req.timestampHeader) then
      Reject(401, MissingCredentialsError)
    else
      var m := UpperAscii(req.httpMethod);
      var body := SignedBody(m, req.body);
      if secret.None? || secret.value == [] then Reject(500, MissingSecretError)
      else match VerifySignature(prim, now, m, req.path, body, req.timestampHeader.value,
                                 req.signatureHeader.value, secret.value)
        case RaisesTypeError => Unhandled
        case Returns(ok) => if ok then Forward else Reject(401, InvalidSignatureError)
  }

  /**
   * A non-exempt request is handed on exactly when both credentials are
   * present, a secret is configured, the timestamp is fresh and the signature
   * is the base64 MAC over the upper-cased method, the path and the signed body.
   */
  lemma ForwardIff(prim: Primitives, now: real, req: Request, secret: Option<Bytes>)
    requires req.path !in ExemptPaths
    ensures HmacAuth(prim, now, req, secret) == Forward <==>
      Present(req.signatureHeader) && Present(req.timestampHeader) &&
      secret.Some? && secret.value != [] &&
      Fresh(prim, now, req.timestampHeader.value) &&
      req.signatureHeader.value == ExpectedSignature(prim, secret.value,
        CanonicalMessage(req.timestampHeader.value, UpperAscii(req.httpMethod), req.path,
                         SignedBody(UpperAscii(req.httpMethod), req.body)))
  {
  }

  /**
   * Once the credentials and the secret are there, an exception escapes
   * exactly when the timestamp is fresh and the signature is not ASCII;
   * every other failure is a 401.
   */
  lemma FailureClasses(prim: Primitives, now: real, req: Request, secret: Option<Bytes>)
    requires req.path !in ExemptPaths
    requires Present(req.signatureHeader) && Present(req.timestampHeader)
    requires secret.Some? && secret.value != []
    ensures HmacAuth(prim, now, req, secret) == Unhandled <==>
      Fresh(prim, now, req.timestampHeader.value) && !IsAscii(req.signatureHeader.value)
    ensures HmacAuth(prim, now, req, secret) in {Forward, Unhandled, Reject(401, InvalidSignatureError)}
    ensures !Fresh(prim, now, req.timestampHeader.value) ==>
      HmacAuth(prim, now, req, secret) == Reject(401, InvalidSignatureError)
  {
  }

  /** Missing credentials are refused before the body is read or the secret consulted. */
  lemma MissingCredentialsIgnoreBodyAndSecret(prim: Primitives, now: real, req: Request,
                                              body: Bytes, secret: Option<Bytes>, secret': Option<Bytes>)
    requires !(Present(req.signatureHeader) && Present(req.timestampHeader))
    ensures HmacAuth(prim, now, req, secret) == HmacAuth(prim, now, req.(body := body), secret')
  {
  }

  /** For GET, HEAD and DELETE (in any letter case) the body plays no part in the decision. */
  lemma BodyIgnoredForBodylessMethods(prim: Primitives, now: real, req: Request, body: Bytes, secret: Option<Bytes>)
    requires UpperAscii(req.httpMethod) in BodylessMethods
    ensures HmacAuth(prim, now, req, secret) == HmacAuth(prim, now, req.(body := body), secret)
  {
  }

  /**
   * For every other method the whole request body is signed: the verdict is
   * the signature check's on the request body, and a forwarded request
   * carries the MAC of a message that ends in that body.
   */
  lemma BodySignedForOtherMethods(prim: Primitives, now: real, req: Request, secret: Option<Bytes>)
    requires req.path !in ExemptPaths
    requires Present(req.signatureHeader) && Present(req.timestampHeader)
    requires secret.Some? && secret.value != []
    requires UpperAscii(req.httpMethod) !in BodylessMethods
    ensures HmacAuth(prim, now, req, secret) == Forward <==>
      VerifySignature(prim, now, UpperAscii(req.httpMethod), req.path, req.body,
                      req.timestampHeader.value, req.signatureHeader.value, secret.value) == Returns(true)
    ensures HmacAuth(prim, now, req, secret) == Unhandled <==>
      VerifySignature(prim, now, UpperAscii(req.httpMethod), req.path, req.body,
                      req.timestampHeader.value, req.signatureHeader.value, secret.value) == RaisesTypeError
    ensures HmacAuth(prim, now, req, secret) == Forward ==>
      Base64.Decode(req.signatureHeader.value) ==
        Some(prim.hmacSha512(secret.value, Utf8.Encode(req.timestampHeader.value) +
                                           Utf8.Encode(UpperAscii(req.httpMethod)) +
                                           Utf8.Encode(req.path) + req.body))
  {
  }

  /**
   * The query string is not covered by the signature: `path` is the URL path,
   * which does not include the query.
   */
  lemma QueryNotSigned(prim: Primitives, now: real, req: Request, query: string, secret: Option<Bytes>)
    ensures HmacAuth(prim, now, req, secret) == HmacAuth(prim, now, req.(query := query), secret)
  {
  }

  lemma {:induction false} UpperAsciiIdempotent(s: string)
    ensures UpperAscii(UpperAscii(s)) == UpperAscii(s)
  {
    if s != [] {
      UpperAsciiIdempotent(s[1..]);
    }
  }

  /** The letter case of the method does not change the decision. */
  lemma MethodCaseIrrelevant(prim: Primitives, now: real, req: Request, secret: Option<Bytes>)
    ensures HmacAuth(prim, now, req, secret) ==
            HmacAuth(prim, now, req.(httpMethod := UpperAscii(req.httpMethod)), secret)
  {
    UpperAsciiIdempotent(req.httpMethod);
  }
}
