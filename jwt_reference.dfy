/**
 * A reference token service. It is not the HMAC-signed implementation of the backend (that
 * implementation is not part of this model); it exists to show that the laws of `Jwt.Sound` can
 * all hold at once, so that the results proved under them are not vacuous.
 *
 * A token is header "." claims "." signature, where the claims segment lists the subject's
 * characters as decimal code points, each followed by '-', and ends with the expiry time.
 */
module JwtReference {
  import opened Wrappers
  import opened Text
  import opened Entities
  import opened Jwt

  const Header: string := "eyJhbGciOiJIUzI1NiJ9"     // base64url of {"alg":"HS256"}
  const Signature: string := "c2lnbmF0dXJl"
  const Lifetime: nat := 3600

  predicate IsClaimChar(c: char) {
    IsDigit(c) || c == '-'
  }

  predicate AllClaimChars(s: string) {
    forall i :: 0 <= i < |s| ==> IsClaimChar(s[i])
  }

  /** The Unicode scalar values, which are exactly the values of a `char`. */
  predicate IsScalar(n: nat) {
    n < 0xD800 || 0xE000 <= n < 0x11_0000
  }

  function EncodeText(s: string): (r: string)
    ensures AllClaimChars(r)
  {
    if s == [] then
      []
    else
      var d := NatToString(s[0] as int);
      var r := d + "-" + EncodeText(s[1..]);
      assert forall i :: 0 <= i < |r| ==> IsClaimChar(r[i]) by {
        forall i | 0 <= i < |r| ensures IsClaimChar(r[i]) {
          if i < |d| {
            assert r[i] == d[i];
          } else if i > |d| {
            assert r[i] == EncodeText(s[1..])[i - |d| - 1];
          }
        }
      }
      r
  }

  /** The position of the first '-', if there is one. */
  function FirstDash(s: string): (r: Option<nat>)
    ensures r.Some? ==> r.value < |s|
  {
    if s == [] then None
    else if s[0] == '-' then Some(0)
    else match FirstDash(s[1..])
      case None => None
      case Some(i) => Some(i + 1)
  }

  lemma {:induction false} FirstDashAfterDigits(d: string, rest: string)
    requires AllDigits(d)
    ensures FirstDash(d + "-" + rest) == Some(|d|)
  {
    if d != [] {
      assert (d + "-" + rest)[1..] == d[1..] + "-" + rest;
      FirstDashAfterDigits(d[1..], rest);
    }
  }

  lemma {:induction false} NoDashInDigits(d: string)
    requires AllDigits(d)
    ensures FirstDash(d) == None
  {
    if d != [] {
      NoDashInDigits(d[1..]);
    }
  }

  /** Reads a claims segment back into the subject and the expiry time. */
  function DecodeClaims(s: string): (r: Option<(string, nat)>)
    decreases |s|
  {
    match FirstDash(s)
    case Some(i) =>
      var chunk := s[..i];
      if |chunk| > 0 && AllDigits(chunk) && IsScalar(ParseNat(chunk)) then
        match DecodeClaims(s[i + 1..])
        case Some((rest, expiry)) => Some(([ParseNat(chunk) as char] + rest, expiry))
        case None => None
      else
        None
    case None =>
      if |s| > 0 && AllDigits(s) then Some(([], ParseNat(s))) else None
  }

  function Claims(subject: string, expiry: nat): string {
    EncodeText(subject) + NatToString(expiry)
  }

  lemma {:induction false} DecodeClaimsOfClaims(subject: string, expiry: nat)
    ensures DecodeClaims(Claims(subject, expiry)) == Some((subject, expiry))
    decreases |subject|
  {
    var n := NatToString(expiry);
    if subject == [] {
      assert Claims(subject, expiry) == n;
      NoDashInDigits(n);
      ParseNatToString(expiry);
    } else {
      var d := NatToString(subject[0] as int);
      var tail := Claims(subject[1..], expiry);
      assert Claims(subject, expiry) == d + "-" + tail;
      FirstDashAfterDigits(d, tail);
      assert (d + "-" + tail)[..|d|] == d;
      assert (d + "-" + tail)[|d| + 1..] == tail;
      ParseNatToString(subject[0] as int);
      DecodeClaimsOfClaims(subject[1..], expiry);
      assert [subject[0]] + subject[1..] == subject;
    }
  }

  function Generate(c: CustomerEntity, now: Time): string {
    Header + "." + Claims(c.email, now + Lifetime) + "." + Signature
  }

  /** The claims of a well-formed token, or None. */
  function ReadToken(t: string): Option<(string, nat)> {
    if |t| >= |Header| + |Signature| + 2 &&
       t[..|Header| + 1] == Header + "." && t[|t| - |Signature| - 1..] == "." + Signature
    then
      DecodeClaims(t[|Header| + 1..|t| - |Signature| - 1])
    else
      None
  }

  /** Reading a malformed or expired token fails, as parsing a JWT throws in both cases. */
  function Extract(t: string, now: Time): Extraction {
    match ReadToken(t)
    case None => Malformed
    case Some((subject, expiry)) => if now < expiry then Subject(subject) else Malformed
  }

  function Expired(t: string, now: Time): bool {
    match ReadToken(t)
    case None => true
    case Some((_, expiry)) => now >= expiry
  }

  function Validate(t: string, c: CustomerEntity, now: Time): bool {
    Extract(t, now) == Subject(c.email) && !Expired(t, now)
  }

  function Reference(): JwtService {
    JwtService(Generate, Extract, Validate, Expired)
  }

  lemma ReadGenerated(c: CustomerEntity, now: Time)
    ensures ReadToken(Generate(c, now)) == Some((c.email, now + Lifetime))
  {
    var claims := Claims(c.email, now + Lifetime);
    var front, back := Header + ".", "." + Signature;
    var t := Generate(c, now);
    assert t == front + claims + back;
    assert |front| == |Header| + 1 && |back| == |Signature| + 1;
    assert t[..|front|] == front;
    assert t[|t| - |back|..] == back;
    assert t[|front|..|t| - |back|] == claims;
    DecodeClaimsOfClaims(c.email, now + Lifetime);
  }

  lemma GeneratedIsCompact(c: CustomerEntity, now: Time)
    ensures IsCompactToken(Generate(c, now)) && StartsWith(Generate(c, now), JsonHeaderStart)
  {
    var claims := Claims(c.email, now + Lifetime);
    assert AllClaimChars(claims) by {
      var e := EncodeText(c.email);
      var n := NatToString(now + Lifetime);
      forall i | 0 <= i < |claims| ensures IsClaimChar(claims[i]) {
        if i < |e| {
          assert claims[i] == e[i];
        } else {
          assert claims[i] == n[i - |e|];
        }
      }
    }
    assert IsSegment(Header) && IsSegment(claims) && IsSegment(Signature);
    assert Generate(c, now) == Header + "." + claims + "." + Signature;
    assert Generate(c, now)[..|JsonHeaderStart|] == JsonHeaderStart;
  }

  /** The reference service obeys every law of a sound token service. */
  lemma ReferenceIsSound()
    ensures Sound(Reference())
  {
    var j := Reference();
    forall c, now ensures j.validateToken(j.generateToken(c, now), c, now) {
      ReadGenerated(c, now);
    }
    forall c, now ensures IsCompactToken(j.generateToken(c, now)) && StartsWith(j.generateToken(c, now), JsonHeaderStart) {
      GeneratedIsCompact(c, now);
    }
  }
}
