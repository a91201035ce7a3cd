/**
 * The three regular expressions the create payloads declare, written as predicates over characters.
 * Each pattern has a definition that follows the shape of its regular expression and a second,
 * flatter characterisation; a lemma shows the two agree.
 */
module Patterns {
  import opened Base
  import opened Text

  // ---------------------------------------------------------------------------
  // Card number: `^[0-9]*$`

  /** `[0-9]*` matched against the whole string, one repetition of the star at a time. */
  predicate DigitStar(s: string)
    decreases |s|
  {
    |s| == 0 || (IsDigit(s[0]) && DigitStar(s[1..]))
  }

  /** The card-number pattern `^[0-9]*$`. */
  predicate CardNumberMatches(s: string) {
    DigitStar(s)
  }

  /** The card-number pattern accepts exactly the strings made only of ASCII digits (the empty one included). */
  lemma {:induction false} CardNumberIffDigits(s: string)
    ensures CardNumberMatches(s) <==> AllDigits(s)
    decreases |s|
  {
    if |s| > 0 {
      CardNumberIffDigits(s[1..]);
      assert AllDigits(s) <==> IsDigit(s[0]) && AllDigits(s[1..]) by {
        if IsDigit(s[0]) && AllDigits(s[1..]) {
          forall i | 0 <= i < |s| ensures IsDigit(s[i]) {
            if i > 0 { assert s[i] == s[1..][i - 1]; }
          }
        }
      }
    }
  }

  // ---------------------------------------------------------------------------
  // Card expiration: `^(0[1-9]|1[0-2])\/?([0-9]{4}|[0-9]{2})$`

  /** `0[1-9]|1[0-2]` matched against the whole string. */
  predicate MonthAlternatives(m: string) {
    |m| == 2 && ((m[0] == '0' && '1' <= m[1] <= '9') || (m[0] == '1' && '0' <= m[1] <= '2'))
  }

  /** `[0-9]{4}|[0-9]{2}` matched against the whole string. */
  predicate YearAlternatives(y: string) {
    (|y| == 4 || |y| == 2) && AllDigits(y)
  }

  /** The expiration pattern: a month, an optional '/', then a two- or four-digit year, filling the string. */
  predicate ExpirationMatches(s: string) {
    && |s| >= 2
    && MonthAlternatives(s[..2])
    && (YearAlternatives(s[2..]) || (|s| > 2 && s[2] == '/' && YearAlternatives(s[3..])))
  }

  /** The numeric value of two digits. */
  function TwoDigitValue(a: char, b: char): (v: nat)
    requires IsDigit(a) && IsDigit(b)
    ensures v < 100
  {
    (a as int - '0' as int) * 10 + (b as int - '0' as int)
  }

  /**
   * The expiration pattern read numerically: the first two characters are digits naming a month 1..12,
   * and the string is 4, 5, 6 or 7 characters long, with a '/' third exactly when the length is odd
   * and digits everywhere else.
   */
  predicate IsExpiration(s: string) {
    && 4 <= |s| <= 7
    && IsDigit(s[0]) && IsDigit(s[1]) && 1 <= TwoDigitValue(s[0], s[1]) <= 12
    && (if |s| % 2 == 1 then s[2] == '/' && AllDigits(s[3..]) else AllDigits(s[2..]))
  }

  lemma ExpirationIffMonthAndYear(s: string)
    ensures ExpirationMatches(s) <==> IsExpiration(s)
  {
    if |s| >= 2 {
      assert MonthAlternatives(s[..2]) <==> IsDigit(s[0]) && IsDigit(s[1]) && 1 <= TwoDigitValue(s[0], s[1]) <= 12;
    }
    if |s| > 2 && s[2] == '/' {
      assert !AllDigits(s[2..]) by { assert s[2..][0] == '/'; }
    }
    if |s| >= 4 && |s| % 2 == 1 && s[2] != '/' {
      assert !YearAlternatives(s[2..]);
    }
  }

  /** The examples the expiration pattern is meant for, and near misses it rejects. */
  lemma ExpirationExamples()
    ensures ExpirationMatches("12/25") && ExpirationMatches("1225") && ExpirationMatches("01/2030")
    ensures !ExpirationMatches("13/25") && !ExpirationMatches("1/25") && !ExpirationMatches("12/225")
    ensures !ExpirationMatches("00/25") && !ExpirationMatches("12//25")
  {
    ExpirationIffMonthAndYear("12/25");
    ExpirationIffMonthAndYear("1225");
    ExpirationIffMonthAndYear("01/2030");
    ExpirationIffMonthAndYear("13/25");
    ExpirationIffMonthAndYear("1/25");
    ExpirationIffMonthAndYear("12/225");
    assert "12/225"[2..][0] == '/';
    ExpirationIffMonthAndYear("00/25");
    ExpirationIffMonthAndYear("12//25");
    assert "12//25"[2..][0] == '/';
  }

  // ---------------------------------------------------------------------------
  // User email: `^([a-z0-9_+]([a-z0-9_+.]*[a-z0-9_+])?)@([a-z0-9]+([\-\.]{1}[a-z0-9]+)*\.[a-z]{2,6})`

  /** `[a-z0-9_+]`: the first and last character of the local part. */
  predicate LocalEdge(c: char) {
    IsLowerAlnum(c) || c == '_' || c == '+'
  }

  /** `[a-z0-9_+.]`: the inner characters of the local part. */
  predicate LocalChar(c: char) {
    LocalEdge(c) || c == '.'
  }

  /** `[a-z0-9_+]([a-z0-9_+.]*[a-z0-9_+])?` matched against the whole string. */
  predicate LocalPart(l: string) {
    && |l| >= 1
    && LocalEdge(l[0])
    && LocalEdge(l[|l| - 1])
    && forall i | 0 <= i < |l| :: LocalChar(l[i])
  }

  /** `[\-\.]` */
  predicate HostSeparator(c: char) {
    c == '-' || c == '.'
  }

  /**
   * `[a-z0-9]+([\-\.]{1}[a-z0-9]+)*` matched against the whole string: labels of lower-case letters
   * and digits, joined by single '-' or '.' characters.
   */
  predicate HostPart(h: string) {
    && |h| >= 1
    && IsLowerAlnum(h[0])
    && IsLowerAlnum(h[|h| - 1])
    && (forall i | 0 <= i < |h| :: IsLowerAlnum(h[i]) || HostSeparator(h[i]))
    && (forall i | 0 <= i < |h| - 1 :: IsLowerAlnum(h[i]) || IsLowerAlnum(h[i + 1]))
  }

  /** `[a-z]{2,6}` matched against the whole string. */
  predicate TopLevelPart(d: string) {
    2 <= |d| <= 6 && forall i | 0 <= i < |d| :: IsLowerAlpha(d[i])
  }

  /** `d` splits at position `j` into a host, the '.' at `j`, and a top-level part. */
  predicate DomainSplit(d: string, j: int) {
    0 <= j < |d| && d[j] == '.' && HostPart(d[..j]) && TopLevelPart(d[j + 1..])
  }

  /** `[a-z0-9]+([\-\.]{1}[a-z0-9]+)*\.[a-z]{2,6}` matched against the whole string. */
  predicate DomainPart(d: string) {
    exists j | 0 <= j < |d| :: DomainSplit(d, j)
  }

  /** `s[..k]` is the local part `s[..a]`, the '@' at `a`, and the domain `s[a + 1..k]`. */
  predicate EmailSplit(s: string, a: int, k: int) {
    0 <= a < k <= |s| && s[a] == '@' && LocalPart(s[..a]) && DomainPart(s[a + 1..k])
  }

  /**
   * The email pattern. It is anchored with `^` but not with `$`, so it is satisfied as soon as some
   * prefix of the string is a local part, an '@' and a domain.
   */
  predicate EmailMatches(s: string) {
    exists a, k | 0 <= a < k <= |s| :: EmailSplit(s, a, k)
  }

  /** The position of the first '@' at or after `from`, if any. */
  function FirstAt(s: string, from: nat): (r: Option<nat>)
    requires from <= |s|
    ensures r.Some? ==> from <= r.value < |s| && s[r.value] == '@'
    ensures r.Some? ==> forall i | from <= i < r.value :: s[i] != '@'
    ensures r.None? ==> forall i | from <= i < |s| :: s[i] != '@'
    decreases |s| - from
  {
    if from == |s| then None
    else if s[from] == '@' then Some(from)
    else FirstAt(s, from + 1)
  }

  /** `r` has a host before position `j`, a '.' at `j`, and two lower-case letters after it. */
  predicate PrefixSplit(r: string, j: int) {
    0 <= j && j + 2 < |r| && r[j] == '.' && HostPart(r[..j]) && IsLowerAlpha(r[j + 1]) && IsLowerAlpha(r[j + 2])
  }

  /** After the '@': a host, a '.', and two lower-case letters; whatever follows them is not looked at. */
  predicate DomainPrefix(r: string) {
    exists j | 0 <= j < |r| :: PrefixSplit(r, j)
  }

  /** The email pattern read as a single left-to-right scan that splits at the first '@'. */
  predicate IsEmailPrefix(s: string) {
    match FirstAt(s, 0)
    case None => false
    case Some(a) => LocalPart(s[..a]) && DomainPrefix(s[a + 1..])
  }

  /** A local part contains no '@', so a match splits at the first '@' of the string. */
  lemma SplitIsAtFirstAt(s: string, a: int, k: int)
    requires EmailSplit(s, a, k)
    ensures FirstAt(s, 0) == Some(a)
  {
    forall i | 0 <= i < a ensures s[i] != '@' {
      assert s[..a][i] == s[i];
      assert LocalChar(s[..a][i]);
    }
  }

  /** A domain matched in full is, in particular, a domain prefix of any longer text. */
  lemma DomainGivesPrefix(d: string, r: string)
    requires DomainPart(d) && |d| <= |r| && d == r[..|d|]
    ensures DomainPrefix(r)
  {
    var j :| 0 <= j < |d| && DomainSplit(d, j);
    assert d[..j] == r[..j];
    assert d[j + 1..][0] == r[j + 1] && d[j + 1..][1] == r[j + 2];
    assert PrefixSplit(r, j);
  }

  /** A host, a '.' and two letters already make a full domain, with a two-letter top-level part. */
  lemma PrefixGivesDomain(r: string, j: int)
    requires PrefixSplit(r, j)
    ensures DomainPart(r[..j + 3])
  {
    var d := r[..j + 3];
    assert d[..j] == r[..j];
    assert d[j + 1..] == [r[j + 1], r[j + 2]];
    assert DomainSplit(d, j);
  }

  /**
   * The email pattern holds exactly when the text before the first '@' is a local part and the text after
   * it starts with a host, a '.' and two lower-case letters. The local part cannot contain '@', so the
   * match must split at the first one, and any top-level part of 2..6 letters begins with 2 of them.
   */
  lemma EmailIffFirstAtSplit(s: string)
    ensures EmailMatches(s) <==> IsEmailPrefix(s)
  {
    if EmailMatches(s) {
      var a, k :| 0 <= a < k <= |s| && EmailSplit(s, a, k);
      SplitIsAtFirstAt(s, a, k);
      assert s[a + 1..k] == s[a + 1..][..k - a - 1];
      DomainGivesPrefix(s[a + 1..k], s[a + 1..]);
    }
    if IsEmailPrefix(s) {
      var a := FirstAt(s, 0).value;
      var r := s[a + 1..];
      var j :| 0 <= j < |r| && PrefixSplit(r, j);
      PrefixGivesDomain(r, j);
      assert r[..j + 3] == s[a + 1..a + 1 + j + 3];
      assert EmailSplit(s, a, a + 1 + j + 3);
    }
  }

  /** Because the pattern has no `$`, anything may follow a matching email. */
  lemma EmailIgnoresSuffix(s: string, t: string)
    requires EmailMatches(s)
    ensures EmailMatches(s + t)
  {
    var a, k :| 0 <= a < k <= |s| && EmailSplit(s, a, k);
    var u := s + t;
    assert u[..a] == s[..a];
    assert u[a + 1..k] == s[a + 1..k];
    assert EmailSplit(u, a, k);
  }

  /** The leading class `[a-z0-9_+]` excludes upper-case letters and '.', so such a first character fails. */
  lemma EmailRejectsLeadingUpperOrDot(s: string)
    requires |s| > 0 && (IsUpperAlpha(s[0]) || s[0] == '.')
    ensures !EmailMatches(s)
  {
    forall a, k | 0 <= a < k <= |s| ensures !EmailSplit(s, a, k) {
      assert !LocalPart(s[..a]) by {
        if a > 0 { assert s[..a][0] == s[0]; }
      }
    }
  }

  /** `local + "@" + host + "." + top` is matched in full when its three parts match theirs. */
  lemma AssembledEmailMatches(local: string, host: string, top: string)
    requires LocalPart(local) && HostPart(host) && TopLevelPart(top)
    ensures EmailMatches(local + "@" + host + "." + top)
  {
    var d := host + "." + top;
    assert d[..|host|] == host && d[|host| + 1..] == top;
    assert DomainSplit(d, |host|);
    var e := local + "@" + d;
    assert e == local + "@" + host + "." + top;
    assert e[..|local|] == local && e[|local| + 1..|e|] == d;
    assert EmailSplit(e, |local|, |e|);
  }

  lemma EmailAcceptsPlainAddress()
    ensures EmailMatches("john.doe@example.com")
  {
    assert LocalPart("john.doe") && HostPart("example") && TopLevelPart("com");
    assert "john.doe" + "@" + "example" + "." + "com" == "john.doe@example.com";
    AssembledEmailMatches("john.doe", "example", "com");
  }

  lemma EmailAcceptsSymbolsAndHyphens()
    ensures EmailMatches("a_b+c@x-y.co.uk")
  {
    assert LocalPart("a_b+c") && HostPart("x-y.co") && TopLevelPart("uk");
    assert "a_b+c" + "@" + "x-y.co" + "." + "uk" == "a_b+c@x-y.co.uk";
    AssembledEmailMatches("a_b+c", "x-y.co", "uk");
  }

  /** Only a prefix has to match: trailing upper-case letters and punctuation are let through. */
  lemma EmailAcceptsTrailingRemainder()
    ensures EmailMatches("ab@cd.efGH!")
  {
    assert LocalPart("ab") && HostPart("cd") && TopLevelPart("ef");
    assert "ab" + "@" + "cd" + "." + "ef" + "GH!" == "ab@cd.efGH!";
    AssembledEmailMatches("ab", "cd", "ef");
    EmailIgnoresSuffix("ab" + "@" + "cd" + "." + "ef", "GH!");
  }

  lemma EmailRejectsBadLeadingCharacter()
    ensures !EmailMatches("John@example.com")
    ensures !EmailMatches(".ab@example.com")
  {
    EmailRejectsLeadingUpperOrDot("John@example.com");
    EmailRejectsLeadingUpperOrDot(".ab@example.com");
  }

  /** The local part may not end with '.', and the top-level part needs at least two letters. */
  lemma EmailRejectsBadLocalEndOrShortTopLevel()
    ensures !EmailMatches("ab.@x.com")
    ensures !EmailMatches("ab@x.c")
  {
    var e4 := "ab.@x.com";
    EmailIffFirstAtSplit(e4);
    assert FirstAt(e4, 0) == Some(3);
    assert e4[..3][2] == '.';
    var e5 := "ab@x.c";
    EmailIffFirstAtSplit(e5);
    assert FirstAt(e5, 0) == Some(2);
    var r := e5[3..];
    assert |r| == 3;
    forall j | 0 <= j < |r| ensures !PrefixSplit(r, j) {
    }
  }
}
