/** Turning the text of a downloaded checksum file into a fingerprint (index.js:90-95). */
module Checksum {
  import opened Common
  import opened Fingerprint
  import opened JsString

  /** data.toString().trim(), then the isSHA256 check. */
  function ParseChecksum(text: string): (r: Result<string>)
    ensures r.Ok? <==> IsSHA256(Trim(text))
    ensures r.Ok? ==> r.value == Trim(text)
    ensures r.Err? ==> r.error == InvalidSha256
  {
    var t := Trim(text);
    if !IsSHA256(t) then Err(InvalidSha256) else Ok(t)
  }

  lemma HexIsNotWhitespace(c: char)
    requires IsLowerHex(c)
    ensures !IsWhitespace(c)
  {
  }

  /** A match in the trimmed text is a match in the original text. */
  lemma TrimmedMatchIsMatch(s: string)
    requires IsSHA256(Trim(s))
    ensures IsSHA256(s)
  {
    var r, a := Trim(s), TrimOffset(s);
    var j: nat :| HexRunAt(r, j);
    forall k | a + j <= k < a + j + DigestLength
      ensures IsLowerHex(s[k])
    {
      assert s[k] == r[k - a];
    }
    assert HexRunAt(s, a + j);
  }

  /** Every character Trim cuts off, at either end, is whitespace. */
  lemma TrimCutsWhitespace(s: string)
    ensures forall k | 0 <= k < TrimOffset(s) :: IsWhitespace(s[k])
    ensures forall k | TrimOffset(s) + |Trim(s)| <= k < |s| :: IsWhitespace(s[k])
  {
    var r, a := Trim(s), TrimOffset(s);
    forall k | 0 <= k < a ensures IsWhitespace(s[k]) { assert s[..a][k] == s[k]; }
    forall k | a + |r| <= k < |s| ensures IsWhitespace(s[k]) { assert s[a + |r|..][k - (a + |r|)] == s[k]; }
  }

  /** Cutting only whitespace off both ends of a text keeps every match. */
  lemma MatchInsideSlice(s: string, a: nat, b: nat)
    requires a <= b <= |s| && IsSHA256(s)
    requires forall k | 0 <= k < a :: IsWhitespace(s[k])
    requires forall k | b <= k < |s| :: IsWhitespace(s[k])
    ensures IsSHA256(s[a..b])
  {
    var i: nat :| HexRunAt(s, i);
    var last := i + DigestLength - 1;
    HexIsNotWhitespace(s[i]);
    HexIsNotWhitespace(s[last]);
    forall k | i - a <= k < i - a + DigestLength
      ensures IsLowerHex(s[a..b][k])
    {
      assert s[a..b][k] == s[k + a];
    }
    assert HexRunAt(s[a..b], i - a);
  }

  /** A match in the original text lies inside the trimmed text. */
  lemma MatchSurvivesTrim(s: string)
    requires IsSHA256(s)
    ensures IsSHA256(Trim(s))
  {
    TrimCutsWhitespace(s);
    MatchInsideSlice(s, TrimOffset(s), TrimOffset(s) + |Trim(s)|);
  }

  /**
   * Because the pattern is unanchored and no hex digit is whitespace,
   * trimming never changes whether the check passes.
   */
  lemma TrimKeepsVerdict(s: string)
    ensures IsSHA256(Trim(s)) <==> IsSHA256(s)
  {
    if IsSHA256(Trim(s)) { TrimmedMatchIsMatch(s); }
    if IsSHA256(s) { MatchSurvivesTrim(s); }
  }

  /** A checksum text passes exactly when the untrimmed text contains 64 hex digits in a row. */
  lemma ParseVerdict(text: string)
    ensures ParseChecksum(text).Ok? <==> IsSHA256(text)
  {
    TrimKeepsVerdict(text);
  }

  /** A digest padded with whitespace on either side parses to the digest itself. */
  lemma PaddedDigestParses(before: string, d: string, after: string)
    requires AllWhitespace(before) && AllWhitespace(after)
    requires IsDigest(d)
    ensures ParseChecksum(before + d + after) == Ok(d)
  {
    HexIsNotWhitespace(d[0]);
    HexIsNotWhitespace(d[|d| - 1]);
    TrimPadded(before, d, after);
    DigestAccepted(d);
  }

  /** The unanchored check lets through a text that is no digest: a digest with a trailing character. */
  lemma AcceptedNeedNotBeDigest(d: string)
    requires IsDigest(d)
    ensures ParseChecksum(d + "g") == Ok(d + "g")
    ensures !IsDigest(d + "g")
  {
    assert d + "g" == [] + d + "g";
    EmbeddedDigestAccepted([], d, "g");
    assert !IsWhitespace(d[0]);
    assert (d + "g")[|d| - 0] == 'g';
    assert [] + (d + "g") + [] == d + "g";
    TrimPadded([], d + "g", []);
  }
}
