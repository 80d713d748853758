/** Blank-text tests and the digest text form shared by the checks. */
module Text {
  /** Unicode White_Space: what Rust's `str::trim` removes. */
  predicate IsWhiteSpace(c: char) {
    || '\t' <= c <= '\r' || c == ' '
    || c == '\U{85}' || c == '\U{A0}' || c == '\U{1680}' || '\U{2000}' <= c <= '\U{200A}'
    || c == '\U{2028}' || c == '\U{2029}' || c == '\U{202F}' || c == '\U{205F}' || c == '\U{3000}'
  }

  /** `value.trim().is_empty()` */
  predicate Blank(s: string) {
    forall c :: c in s ==> IsWhiteSpace(c)
  }

  /** `not value.strip()`; Python also strips the four ASCII separators. */
  predicate PyBlank(s: string) {
    forall c :: c in s ==> IsWhiteSpace(c) || '\U{1C}' <= c <= '\U{1F}'
  }

  const DIGEST_PREFIX := "sha256:"

  /** `sha256:` followed by 64 lowercase hexadecimal digits. */
  predicate IsSha256Digest(s: string) {
    DIGEST_PREFIX <= s && |s| == |DIGEST_PREFIX| + 64
    && forall c :: c in s[|DIGEST_PREFIX|..] ==> IsLowerHex(c)
  }

  predicate IsLowerHex(c: char) {
    '0' <= c <= '9' || 'a' <= c <= 'f'
  }

  /** The 25 code points of the Unicode property, one by one. */
  lemma WhiteSpaceIsExact(c: char)
    ensures IsWhiteSpace(c) <==> c in {
      '\U{9}', '\U{A}', '\U{B}', '\U{C}', '\U{D}', '\U{20}', '\U{85}', '\U{A0}', '\U{1680}', '\U{2000}', '\U{2001}', '\U{2002}',
      '\U{2003}', '\U{2004}', '\U{2005}', '\U{2006}', '\U{2007}', '\U{2008}', '\U{2009}', '\U{200A}', '\U{2028}', '\U{2029}',
      '\U{202F}', '\U{205F}', '\U{3000}'}
  {}

  /** Text is blank iff trimming leaves nothing; Python's trimming also takes the separators 1C to 1F. */
  lemma BlankIsExact(s: string)
    ensures Blank(s) <==> !exists i :: 0 <= i < |s| && !IsWhiteSpace(s[i])
    ensures PyBlank(s) <==> !exists i :: 0 <= i < |s| && !IsWhiteSpace(s[i]) && s[i] !in "\U{1C}\U{1D}\U{1E}\U{1F}"
  {
    hide IsWhiteSpace;
    assert forall i :: 0 <= i < |s| ==> s[i] in s;
  }

  /** A digest is seven fixed characters and 64 of the sixteen hexadecimal digits. */
  lemma DigestFormIsExact(s: string)
    ensures IsSha256Digest(s) <==>
      |s| == 71 && s[..7] == "sha256:" && forall i :: 7 <= i < 71 ==> s[i] in "0123456789abcdef"
  {
    if |s| == 71 {
      var rest := s[7..];
      assert forall i :: 0 <= i < 64 ==> rest[i] == s[i + 7] && rest[i] in rest;
      forall c ensures IsLowerHex(c) <==> c in "0123456789abcdef" { HexDigits(c); }
      hide IsLowerHex;
      assert forall i :: 7 <= i < 71 ==> s[i] == rest[i - 7];
    }
  }

  lemma HexDigits(c: char)
    ensures IsLowerHex(c) <==> c in "0123456789abcdef"
  {}
}
