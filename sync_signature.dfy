/**
 * `verifySignature` of `app/api/sync-content/route.ts`: the check of the
 * `X-Hub-Signature-256` header against an HMAC-SHA256 (RFC 2104) of the raw
 * request body.
 *
 * The HMAC itself is a function the caller supplies (`Hmac`, returning the
 * lower-case hex digest). `crypto.timingSafeEqual` compares the UTF-8 bytes of
 * the two digests and throws when their lengths differ; since the call sits
 * outside any `try`, that throw is its own outcome, `ComparisonThrows`, and
 * not a plain mismatch.
 */
module SyncSignature {
  import opened Wrappers
  import opened Text

  /** `createHmac("sha256", secret).update(body).digest("hex")`, left uninterpreted. */
  type Hmac = (string, string) -> string

  datatype SignatureCheck = SignatureValid | SignatureInvalid | ComparisonThrows

  const SignaturePrefix: string := "sha256"

  predicate IsHexDigit(c: char) {
    '0' <= c <= '9' || 'a' <= c <= 'f'
  }

  /** What a hex-encoded SHA-256 digest looks like: 64 lower-case hex digits. */
  predicate IsHexDigest(d: string) {
    |d| == 64 && forall i :: 0 <= i < |d| ==> IsHexDigit(d[i])
  }

  /** The digest half of the header, `signature.split("=")[1]`; a missing half reads as empty (both are falsy). */
  function HeaderDigest(parts: seq<string>): string {
    if |parts| >= 2 then parts[1] else ""
  }

  function VerifySignature(secret: string, header: Option<string>, body: string, hmac: Hmac)
    : (r: SignatureCheck)
    // fails closed on a missing secret or header
    ensures secret == "" || header.None? ==> r == SignatureInvalid
    // accepted only when the header is "sha256=" followed by the expected digest (and possibly "=..." after it)
    ensures r == SignatureValid ==>
              header.Some? && secret != "" && StartsWith(header.value, SignaturePrefix + "=" + hmac(secret, body))
    // the comparison throws exactly when the two digests differ in UTF-8 length
    ensures r == ComparisonThrows ==>
              header.Some? && Utf8Length(HeaderDigest(Split(header.value, "="))) != Utf8Length(hmac(secret, body))
  {
    if secret == "" then SignatureInvalid
    else if header.None? || header.value == "" then SignatureInvalid
    else
      var parts := Split(header.value, "=");
      var digest := HeaderDigest(parts);
      if parts[0] != SignaturePrefix || digest == "" then SignatureInvalid
      else
        var expected := hmac(secret, body);
        if Utf8Length(digest) != Utf8Length(expected) then ComparisonThrows
        else if digest == expected then
          SplitStartsWithFirstTwo(header.value, "=");
          SignatureValid
        else SignatureInvalid
  }

  /** A string split into at least two parts begins with the first part, the separator and the second part. */
  lemma SplitStartsWithFirstTwo(s: string, sep: string)
    requires |sep| > 0 && |Split(s, sep)| >= 2
    ensures StartsWith(s, Split(s, sep)[0] + sep + Split(s, sep)[1])
  {
    var i := IndexOf(s, sep).value;
    var rest := s[i + |sep|..];
    Reassemble(s, i, sep);
    SplitFirstIsPrefix(rest, sep);
    assert Split(s, sep) == [s[..i]] + Split(rest, sep);
  }

  /** The first part of a split is a prefix of the string. */
  lemma SplitFirstIsPrefix(s: string, sep: string)
    requires |sep| > 0
    ensures Split(s, sep)[0] <= s
  {
  }

  /** Digits and lower-case hex letters never include `=`. */
  lemma HexHasNoEquals(d: string)
    requires IsHexDigest(d)
    ensures IndexOf(d, "=").None?
  {
    AbsentCharNotFound(d, '=');
  }

  lemma HexUtf8Length(d: string)
    requires forall i :: 0 <= i < |d| ==> IsHexDigit(d[i])
    ensures Utf8Length(d) == |d|
    decreases |d|
  {
    if |d| > 0 {
      HexUtf8Length(d[1..]);
    }
  }

  /** A body signed with the shared secret verifies: `verify(secret, body, sign(secret, body))`. */
  lemma SignedBodyVerifies(secret: string, body: string, hmac: Hmac)
    requires secret != ""
    requires IsHexDigest(hmac(secret, body))
    ensures VerifySignature(secret, Some(SignaturePrefix + "=" + hmac(secret, body)), body, hmac) == SignatureValid
  {
    var d := hmac(secret, body);
    HexHasNoEquals(d);
    AbsentCharNotFound(SignaturePrefix, '=');
    SplitAroundOne(SignaturePrefix, "=", d);
  }

  /**
   * A well-formed header whose digest has the right length but is not the
   * expected one (one character flipped, say) is rejected without a throw.
   */
  lemma WrongDigestRejected(secret: string, body: string, hmac: Hmac, digest: string)
    requires secret != ""
    requires IsHexDigest(hmac(secret, body)) && IsHexDigest(digest)
    requires digest != hmac(secret, body)
    ensures VerifySignature(secret, Some(SignaturePrefix + "=" + digest), body, hmac) == SignatureInvalid
  {
    HexHasNoEquals(digest);
    HexUtf8Length(digest);
    HexUtf8Length(hmac(secret, body));
    AbsentCharNotFound(SignaturePrefix, '=');
    SplitAroundOne(SignaturePrefix, "=", digest);
  }

  /** A digest of the wrong length makes the comparison throw instead of returning false. */
  lemma ShortDigestThrows(secret: string, body: string, hmac: Hmac, digest: string)
    requires secret != ""
    requires IsHexDigest(hmac(secret, body))
    requires digest != "" && |digest| < 64 && forall i :: 0 <= i < |digest| ==> IsHexDigit(digest[i])
    ensures VerifySignature(secret, Some(SignaturePrefix + "=" + digest), body, hmac) == ComparisonThrows
  {
    HexUtf8Length(digest);
    HexUtf8Length(hmac(secret, body));
    AbsentCharNotFound(digest, '=');
    AbsentCharNotFound(SignaturePrefix, '=');
    SplitAroundOne(SignaturePrefix, "=", digest);
  }
}
