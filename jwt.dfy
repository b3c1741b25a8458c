/**
 * The token service's contract (JwtService.java). Its implementation is not part of this model:
 * a token service is any four total functions, and the laws below are what the rest of the
 * backend relies on.
 */
module Jwt {
  import opened Text
  import opened Entities

  /** What extractUsername yields: the subject, null, or an exception (malformed, badly signed or expired token). */
  datatype Extraction = Subject(email: string) | NoSubject | Malformed

  datatype JwtService = JwtService(
    generateToken: (CustomerEntity, Time) -> string,
    extractUsername: (string, Time) -> Extraction,
    validateToken: (string, CustomerEntity, Time) -> bool,
    isTokenExpired: (string, Time) -> bool)

  /** One character of the base64url alphabet. */
  predicate IsUrlSafe(c: char) {
    'A' <= c <= 'Z' || 'a' <= c <= 'z' || '0' <= c <= '9' || c == '-' || c == '_'
  }

  predicate IsSegment(s: string) {
    |s| > 0 && forall i :: 0 <= i < |s| ==> IsUrlSafe(s[i])
  }

  /** Three non-empty URL-safe segments separated by dots: header, claims, signature. */
  ghost predicate IsCompactToken(t: string) {
    exists a: string, b: string, c: string {:trigger a + "." + b + "." + c} ::
      IsSegment(a) && IsSegment(b) && IsSegment(c) && t == a + "." + b + "." + c
  }

  /** The header segment of a JWT is base64url-encoded JSON, so it begins with "eyJ" ("{\""). */
  const JsonHeaderStart: string := "eyJ"

  /**
   * The laws of a token service: a fresh token validates for its customer; a token validates only
   * for the customer its subject names and only while it has not expired; and every issued token is
   * a compact JWT.
   */
  ghost predicate Sound(j: JwtService) {
    (forall c, now :: j.validateToken(j.generateToken(c, now), c, now)) &&
    (forall t, c, now :: j.validateToken(t, c, now) ==>
       j.extractUsername(t, now) == Subject(c.email) && !j.isTokenExpired(t, now)) &&
    (forall c, now :: IsCompactToken(j.generateToken(c, now)) && StartsWith(j.generateToken(c, now), JsonHeaderStart))
  }

  /** The subject of a freshly issued token is its customer's email. */
  lemma IssuedTokenNamesCustomer(j: JwtService, c: CustomerEntity, now: Time)
    requires Sound(j)
    ensures j.extractUsername(j.generateToken(c, now), now) == Subject(c.email)
    ensures !j.isTokenExpired(j.generateToken(c, now), now)
  {
    assert j.validateToken(j.generateToken(c, now), c, now);
  }

  /** A token validates for at most one email: the one it names. */
  lemma TokenValidatesForOneEmail(j: JwtService, t: string, a: CustomerEntity, b: CustomerEntity, now: Time)
    requires Sound(j)
    requires j.validateToken(t, a, now) && j.validateToken(t, b, now)
    ensures a.email == b.email
  {
  }
}
