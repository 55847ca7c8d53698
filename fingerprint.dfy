/**
 * The fingerprint check of index.js: the regular expression /[a-f0-9]{64}/
 * applied with RegExp.prototype.test, which is neither anchored nor
 * case-insensitive, and the shape of a real SHA-256 hex digest.
 */
module Fingerprint {
  const DigestLength := 64

  predicate IsLowerHex(c: char) {
    '0' <= c <= '9' || 'a' <= c <= 'f'
  }

  /** The pattern [a-f0-9]{64} matches s at position i. */
  predicate HexRunAt(s: string, i: nat) {
    i + DigestLength <= |s| && forall k | i <= k < i + DigestLength :: IsLowerHex(s[k])
  }

  /** The regex search from position i on: every start position is tried in turn. */
  function MatchFrom(s: string, i: nat): (r: bool)
    decreases |s| - i
    ensures r <==> exists j: nat :: i <= j && HexRunAt(s, j)
  {
    if i + DigestLength > |s| then false
    else HexRunAt(s, i) || MatchFrom(s, i + 1)
  }

  /** isSHA256: the pattern matches somewhere in s. */
  function IsSHA256(s: string): (r: bool)
    ensures r <==> exists j: nat :: HexRunAt(s, j)
  {
    MatchFrom(s, 0)
  }

  /** What crypto's hash.digest('hex') yields for SHA-256: exactly 64 lower-case hex digits. */
  predicate IsDigest(s: string) {
    |s| == DigestLength && forall k | 0 <= k < |s| :: IsLowerHex(s[k])
  }

  type Digest = s: string | IsDigest(s)
    witness seq(DigestLength, _ => '0')

  /** Every well-formed digest passes the check. */
  lemma DigestAccepted(d: string)
    requires IsDigest(d)
    ensures IsSHA256(d)
  {
    assert HexRunAt(d, 0);
  }

  /** A string shorter than 64 characters never passes. */
  lemma ShortRejected(s: string)
    requires |s| < DigestLength
    ensures !IsSHA256(s)
  {
  }

  /** The check is unanchored: a digest with anything around it passes. */
  lemma EmbeddedDigestAccepted(before: string, d: string, after: string)
    requires IsDigest(d)
    ensures IsSHA256(before + d + after)
  {
    var s := before + d + after;
    forall k | |before| <= k < |before| + DigestLength
      ensures IsLowerHex(s[k])
    {
      assert s[k] == d[k - |before|];
    }
    assert HexRunAt(s, |before|);
  }

  /** The check is case-sensitive: upper-case hex digits never match. */
  lemma UpperCaseRejected(s: string)
    requires forall k | 0 <= k < |s| :: 'A' <= s[k] <= 'F'
    ensures !IsSHA256(s)
  {
    forall j: nat | j + DigestLength <= |s|
      ensures !HexRunAt(s, j)
    {
      assert !IsLowerHex(s[j]);
    }
  }

  /** A string the check rejects can never equal a real digest. */
  lemma RejectedIsNoDigest(s: string)
    requires !IsSHA256(s)
    ensures !IsDigest(s)
  {
    if IsDigest(s) {
      DigestAccepted(s);
    }
  }
}
