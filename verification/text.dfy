/** Characters and strings: the trimming every create payload applies, and the character classes its patterns use. */
module Text {

  /** Rust's `char::is_whitespace`: the Unicode White_Space property, which `str::trim` strips. */
  predicate IsWhitespace(c: char) {
    var n := c as int;
    || (0x09 <= n <= 0x0D) || n == 0x20 || n == 0x85 || n == 0xA0 || n == 0x1680
    || (0x2000 <= n <= 0x200A) || n == 0x2028 || n == 0x2029 || n == 0x202F
    || n == 0x205F || n == 0x3000
  }

  predicate AllWhitespace(s: string) {
    forall i | 0 <= i < |s| :: IsWhitespace(s[i])
  }

  /** `[0-9]` */
  predicate IsDigit(c: char) { '0' <= c <= '9' }

  /** `[a-z]` */
  predicate IsLowerAlpha(c: char) { 'a' <= c <= 'z' }

  /** `[A-Z]` */
  predicate IsUpperAlpha(c: char) { 'A' <= c <= 'Z' }

  /** `[a-z0-9]` */
  predicate IsLowerAlnum(c: char) { IsLowerAlpha(c) || IsDigit(c) }

  predicate AllDigits(s: string) {
    forall i | 0 <= i < |s| :: IsDigit(s[i])
  }

  /** The number of whitespace characters `s` starts with. */
  function LeadingWhitespace(s: string): (n: nat)
    ensures n <= |s|
    ensures AllWhitespace(s[..n])
    ensures n == |s| || !IsWhitespace(s[n])
  {
    if |s| > 0 && IsWhitespace(s[0]) then
      var n := LeadingWhitespace(s[1..]);
      n + 1
    else
      0
  }

  /** The number of whitespace characters `s` ends with. */
  function TrailingWhitespace(s: string): (n: nat)
    ensures n <= |s|
    ensures AllWhitespace(s[|s| - n..])
    ensures n == |s| || !IsWhitespace(s[|s| - n - 1])
  {
    if |s| > 0 && IsWhitespace(s[|s| - 1]) then
      var n := TrailingWhitespace(s[..|s| - 1]);
      n + 1
    else
      0
  }

  /** `r` is what is left of `s` after a whitespace-only prefix of length `i` and a whitespace-only suffix are cut. */
  ghost predicate StripsTo(s: string, r: string, i: int) {
    && 0 <= i <= |s| - |r|
    && r == s[i..i + |r|]
    && AllWhitespace(s[..i])
    && AllWhitespace(s[i + |r|..])
  }

  /** `str::trim`: `s` with leading and trailing whitespace removed; what is left starts and ends with non-whitespace. */
  function Trim(s: string): (r: string)
    ensures |r| <= |s|
    ensures r == [] || (!IsWhitespace(r[0]) && !IsWhitespace(r[|r| - 1]))
  {
    var a := s[LeadingWhitespace(s)..];
    a[..|a| - TrailingWhitespace(a)]
  }

  /** Trimming cuts only whitespace: the result is the middle of `s` between a whitespace prefix and a whitespace suffix. */
  lemma TrimStrips(s: string)
    ensures exists i | 0 <= i <= |s| :: StripsTo(s, Trim(s), i)
  {
    var i := LeadingWhitespace(s);
    var a := s[i..];
    var r := Trim(s);
    assert r == s[i..i + |r|];
    assert a[|r|..] == s[i + |r|..];
    assert StripsTo(s, r, i);
  }

  /** A string with no surrounding whitespace is left alone by trimming. */
  lemma TrimKeepsTrimmed(s: string)
    requires s == [] || (!IsWhitespace(s[0]) && !IsWhitespace(s[|s| - 1]))
    ensures Trim(s) == s
  {
  }

  /** Trimming twice is trimming once: the validated payload is a fixed point of the trim rule. */
  lemma TrimIdempotent(s: string)
    ensures Trim(Trim(s)) == Trim(s)
  {
    TrimKeepsTrimmed(Trim(s));
  }
}
