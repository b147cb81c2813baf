/**
 The Gmail-only address check of the registration handler. The pattern is
 anchored at both ends and has three parts: a negative lookahead refusing an
 address whose local part is nothing but ASCII digits, one ASCII letter or digit,
 then at most 63 characters from `[a-zA-Z0-9._%+-]`, then exactly `@gmail.com`
 (case-sensitive).

 `IsGmailAddress` is the decision procedure the rest of the model uses; it splits
 the address at its fixed-length domain. `EmailPatternTest` reads the pattern
 literally, with existential witnesses for its parts, and `EmailMatchesPattern`
 proves the two agree on every string.
 */
module Email {
  import opened Wrappers
  import opened Chars

  /** The only domain accepted, matched case-sensitively. */
  const Domain: string := "@gmail.com"

  /** One leading character plus at most 63 more. */
  const MaxLocalLength: nat := 64

  /** `[a-zA-Z0-9._%+-]`: the characters allowed after the first one of the local part. */
  predicate IsLocalChar(c: char) {
    IsAsciiAlnum(c) || c == '.' || c == '_' || c == '%' || c == '+' || c == '-'
  }

  predicate AllLocalChars(s: string) {
    forall i :: 0 <= i < |s| ==> IsLocalChar(s[i])
  }

  /** A local part the pattern admits, the lookahead included. */
  predicate IsValidLocalPart(local: string) {
    && 1 <= |local| <= MaxLocalLength
    && IsAsciiAlnum(local[0])
    && AllLocalChars(local[1..])
    && !AllDigits(local)
  }

  /** The local part of an accepted address, or `None` when the address is refused. */
  function LocalPart(s: string): (r: Option<string>)
    ensures r.Some? ==> r.value + Domain == s
  {
    if |s| >= |Domain| && s[|s| - |Domain|..] == Domain && IsValidLocalPart(s[..|s| - |Domain|])
    then Some(s[..|s| - |Domain|])
    else None
  }

  predicate IsGmailAddress(s: string)
    ensures IsGmailAddress(s) ==> |s| > |Domain| && s[|s| - |Domain|..] == Domain
  {
    LocalPart(s).Some?
  }

  // ---------------------------------------------------------------------------
  // The pattern, read literally

  function WithDomain(local: string): string {
    local + Domain
  }

  /** The negative lookahead's own pattern: one or more ASCII digits, then the domain, then the end. */
  ghost predicate IsDigitsOnlyAddress(s: string) {
    exists d :: 1 <= |d| && AllDigits(d) && WithDomain(d) == s
  }

  /** The pattern after the lookahead: a letter or digit, up to 63 local characters, the domain. */
  ghost predicate MatchesPatternBody(s: string) {
    exists c, mid :: IsAsciiAlnum(c) && |mid| <= MaxLocalLength - 1 && AllLocalChars(mid) && WithDomain([c] + mid) == s
  }

  ghost predicate EmailPatternTest(s: string) {
    !IsDigitsOnlyAddress(s) && MatchesPatternBody(s)
  }

  /** The split-at-the-domain decision agrees with the literal reading of the pattern, in both directions. */
  lemma EmailMatchesPattern(s: string)
    ensures IsGmailAddress(s) <==> EmailPatternTest(s)
  {
    if IsGmailAddress(s) {
      var local := LocalPart(s).value;
      assert [local[0]] + local[1..] == local;
      assert WithDomain([local[0]] + local[1..]) == s;
      forall d | WithDomain(d) == s
        ensures !AllDigits(d)
      {
        assert d == s[..|s| - |Domain|];
      }
    }
    if EmailPatternTest(s) {
      var c, mid :| IsAsciiAlnum(c) && |mid| <= MaxLocalLength - 1 && AllLocalChars(mid) && WithDomain([c] + mid) == s;
      var local := [c] + mid;
      assert s[..|s| - |Domain|] == local;
      assert s[|s| - |Domain|..] == Domain;
      assert local[1..] == mid;
      assert WithDomain(local) == s;
    }
  }

  /** Every accepted address is a local part of 1 to 64 characters followed by the literal domain. */
  lemma AcceptedEmailShape(s: string)
    requires IsGmailAddress(s)
    ensures |Domain| + 1 <= |s| <= |Domain| + MaxLocalLength
    ensures s[|s| - |Domain|..] == Domain
    ensures IsAsciiAlnum(s[0])
    ensures exists i :: 0 <= i < |s| - |Domain| && !IsAsciiDigit(s[i])
    ensures forall i :: 0 <= i < |s| - |Domain| ==> IsLocalChar(s[i]) && s[i] != '@'
  {
    var local := LocalPart(s).value;
    assert forall i :: 1 <= i < |local| ==> local[1..][i - 1] == local[i];
    var k :| 0 <= k < |local| && !IsAsciiDigit(local[k]);
    assert s[k] == local[k];
  }

  /** Building an address from a valid local part and parsing it back recovers the local part. */
  lemma LocalPartRoundTrip(local: string)
    requires IsValidLocalPart(local)
    ensures LocalPart(WithDomain(local)) == Some(local)
  {
    var s := WithDomain(local);
    assert s[..|s| - |Domain|] == local;
    assert s[|s| - |Domain|..] == Domain;
  }

  /** Dots are not policed: consecutive and trailing dots in the local part are accepted. */
  lemma DotsAreNotPoliced()
    ensures IsGmailAddress("a..b.@gmail.com")
  {
    var local := "a..b.";
    assert IsAsciiAlnum(local[0]);
    assert AllLocalChars(local[1..]);
    assert !IsAsciiDigit(local[0]);
    LocalPartRoundTrip(local);
    assert WithDomain(local) == "a..b.@gmail.com";
  }

  /** The domain is compared case-sensitively, and an all-digit local part is refused. */
  lemma RefusedAddresses()
    ensures !IsGmailAddress("alice@Gmail.com")
    ensures !IsGmailAddress("0771234567@gmail.com")
    ensures !IsGmailAddress("@gmail.com")
  {
    var s := "0771234567@gmail.com";
    var local := s[..|s| - |Domain|];
    assert local == "0771234567";
    assert AllDigits(local);
    var t := "alice@Gmail.com";
    assert t[|t| - |Domain|..][1] == 'G';
  }
}
