/**
 The Sri Lankan mobile number check of the registration handler. The pattern is
 anchored at both ends: an optional prefix `0` or `+94`, the mobile lead digit
 `7`, one operator character, then exactly seven ASCII digits.

 The operator character class is written as a comma-separated list, so as
 written it admits the comma itself besides 0, 1, 2, 4, 5, 6, 7 and 8; under
 `AsIntended` it admits the eight digits only.

 `ParseMobile` splits a number into its parts (the prefix is fixed by the length)
 and `Render` puts them back together; `MobilePatternTest` reads the pattern
 literally and `MobileMatchesPattern` proves it agrees with the parse.
 */
module Mobile {
  import opened Wrappers
  import opened Chars
  import opened Readings

  datatype Prefix = NoPrefix | TrunkZero | CountryCode

  function PrefixText(p: Prefix): string {
    match p
    case NoPrefix => ""
    case TrunkZero => "0"
    case CountryCode => "+94"
  }

  /** Every mobile number starts, after its prefix, with this digit. */
  const MobileLead: char := '7'

  const SubscriberLength: nat := 7

  /** The character after the lead digit; 3 and 9 are never operator digits. */
  predicate IsOperatorChar(c: char, reading: Reading) {
    || c == '0' || c == '1' || c == '2' || c == '4'
    || c == '5' || c == '6' || c == '7' || c == '8'
    || (reading == AsWritten && c == ',')
  }

  datatype MobileNumber = MobileNumber(prefix: Prefix, operator: char, subscriber: string)

  predicate WellFormed(m: MobileNumber, reading: Reading) {
    IsOperatorChar(m.operator, reading) && |m.subscriber| == SubscriberLength && AllDigits(m.subscriber)
  }

  function Render(m: MobileNumber): string {
    PrefixText(m.prefix) + [MobileLead, m.operator] + m.subscriber
  }

  /** The only prefix a string of this length and first characters can carry. */
  function PrefixOf(s: string): (r: Option<Prefix>)
    ensures r.Some? ==> |s| == |PrefixText(r.value)| + 2 + SubscriberLength
    ensures r.Some? ==> s[..|PrefixText(r.value)|] == PrefixText(r.value)
  {
    if |s| == 9 then Some(NoPrefix)
    else if |s| == 10 && s[0] == '0' then Some(TrunkZero)
    else if |s| == 12 && s[..3] == "+94" then Some(CountryCode)
    else None
  }

  function ParseMobile(s: string, reading: Reading): (r: Option<MobileNumber>)
    ensures r.Some? ==> WellFormed(r.value, reading) && |s| == |PrefixText(r.value.prefix)| + 2 + SubscriberLength
  {
    match PrefixOf(s)
    case None => None
    case Some(p) =>
      var rest := s[|PrefixText(p)|..];
      if rest[0] == MobileLead && IsOperatorChar(rest[1], reading) && AllDigits(rest[2..])
      then Some(MobileNumber(p, rest[1], rest[2..]))
      else None
  }

  predicate IsSriLankanMobile(s: string, reading: Reading)
    ensures IsSriLankanMobile(s, reading) ==> |s| == 9 || |s| == 10 || |s| == 12
  {
    ParseMobile(s, reading).Some?
  }

  /** The pattern, read literally: some prefix, lead digit, operator character and seven digits spell `s`. */
  ghost predicate MobilePatternTest(s: string, reading: Reading) {
    exists m :: WellFormed(m, reading) && Render(m) == s
  }

  /** Parsing a rendered well-formed number gives back its parts. */
  lemma ParseRender(m: MobileNumber, reading: Reading)
    requires WellFormed(m, reading)
    ensures ParseMobile(Render(m), reading) == Some(m)
  {
    var s := Render(m);
    var pre := PrefixText(m.prefix);
    assert s[..|pre|] == pre;
    assert PrefixOf(s) == Some(m.prefix);
    var rest := s[|pre|..];
    assert rest == [MobileLead, m.operator] + m.subscriber;
    assert rest[2..] == m.subscriber;
  }

  /** A successful parse yields well-formed parts that render back to the input. */
  lemma RenderParse(s: string, reading: Reading)
    requires IsSriLankanMobile(s, reading)
    ensures WellFormed(ParseMobile(s, reading).value, reading)
    ensures Render(ParseMobile(s, reading).value) == s
  {
    var m := ParseMobile(s, reading).value;
    var p := PrefixOf(s).value;
    var pre := PrefixText(p);
    var rest := s[|pre|..];
    assert m == MobileNumber(p, rest[1], rest[2..]);
    assert rest[0] == MobileLead;
    assert rest == [MobileLead, m.operator] + m.subscriber;
    assert s == s[..|pre|] + rest;
  }

  /** The parse agrees with the literal reading of the pattern, in both directions. */
  lemma MobileMatchesPattern(s: string, reading: Reading)
    ensures IsSriLankanMobile(s, reading) <==> MobilePatternTest(s, reading)
  {
    if IsSriLankanMobile(s, reading) {
      RenderParse(s, reading);
      var m := ParseMobile(s, reading).value;
      assert WellFormed(m, reading) && Render(m) == s;
    }
    if MobilePatternTest(s, reading) {
      var m :| WellFormed(m, reading) && Render(m) == s;
      ParseRender(m, reading);
    }
  }

  /** Every accepted number has 9, 10 or 12 characters, the lead digit 7 in place and no 3 or 9 after it. */
  lemma AcceptedMobileShape(s: string, reading: Reading)
    requires IsSriLankanMobile(s, reading)
    ensures |s| == 9 || |s| == 10 || |s| == 12
    ensures s[|s| - 9] == MobileLead
    ensures s[|s| - 8] != '3' && s[|s| - 8] != '9'
    ensures AllDigits(s[|s| - SubscriberLength..])
  {
    RenderParse(s, reading);
    var m := ParseMobile(s, reading).value;
    var pre := PrefixText(m.prefix);
    assert s == pre + [MobileLead, m.operator] + m.subscriber;
    assert s[|s| - SubscriberLength..] == m.subscriber;
  }

  /** The two readings disagree exactly on numbers whose operator character is a comma. */
  lemma ReadingsDifferOnlyOnComma(s: string)
    ensures IsSriLankanMobile(s, AsWritten) && s[|s| - 8] != ',' ==> IsSriLankanMobile(s, AsIntended)
    ensures IsSriLankanMobile(s, AsIntended) ==> IsSriLankanMobile(s, AsWritten) && s[|s| - 8] != ','
  {
    if IsSriLankanMobile(s, AsWritten) {
      AcceptedMobileShape(s, AsWritten);
    }
    if IsSriLankanMobile(s, AsIntended) {
      AcceptedMobileShape(s, AsIntended);
    }
  }

  /** As written, a comma in the operator position is accepted; as intended it is not. */
  lemma CommaOperatorAcceptedAsWritten()
    ensures IsSriLankanMobile("07,1234567", AsWritten)
    ensures !IsSriLankanMobile("07,1234567", AsIntended)
  {
    var m := MobileNumber(TrunkZero, ',', "1234567");
    assert Render(m) == "07,1234567";
    ParseRender(m, AsWritten);
  }

  /** Under the intended reading every character after the prefix is an ASCII digit. */
  lemma IntendedMobileIsDigits(s: string)
    requires IsSriLankanMobile(s, AsIntended)
    ensures AllDigits(s[|s| - 9..])
  {
    AcceptedMobileShape(s, AsIntended);
    var tail := s[|s| - 9..];
    assert tail[2..] == s[|s| - SubscriberLength..];
    assert forall i :: 2 <= i < 9 ==> tail[i] == tail[2..][i - 2];
  }

  /** A documented format is accepted under either reading once it is rendered from well-formed parts. */
  lemma FormatAccepted(m: MobileNumber, s: string, reading: Reading)
    requires WellFormed(m, reading) && Render(m) == s
    ensures IsSriLankanMobile(s, reading)
  {
    ParseRender(m, reading);
  }

  /** The three documented formats are accepted under either reading. */
  lemma DocumentedFormatsAccepted(reading: Reading)
    ensures IsSriLankanMobile("0712345678", reading)
    ensures IsSriLankanMobile("+94712345678", reading)
    ensures IsSriLankanMobile("712345678", reading)
  {
    FormatAccepted(MobileNumber(TrunkZero, '1', "2345678"), "0712345678", reading);
    FormatAccepted(MobileNumber(CountryCode, '1', "2345678"), "+94712345678", reading);
    FormatAccepted(MobileNumber(NoPrefix, '1', "2345678"), "712345678", reading);
  }
}
