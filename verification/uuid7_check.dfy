/** The test-side UUIDv7 checker `assert_uuid7_hex`: a stricter acceptance
    than the default validator (hex-only, lower-case, version 7). Each raised
    `AssertionError` is a distinct failure value. */
module Uuid7Check {
  import opened Wrappers
  import opened Text
  import opened HexInt
  import opened UuidText

  const UuidHexLength: nat := 32
  const UuidVersion: nat := 7

  /** The assertion that fails, in the order the checks run. */
  datatype Uuid7Failure =
    | NotThirtyTwoCharacters
    | NotLowercase
    | NotHexadecimal
    | NotParseable
    | NotVersion7
    | NotRfc4122Variant

  /** `_parse_uuid` and then `_validate_uuid7_properties`, on the parse
      result. */
  function PropertiesFailure(parsed: Option<string>): (r: Option<Uuid7Failure>)
    requires parsed.Some? ==> |parsed.value| == 32 && AllHex(parsed.value)
    ensures parsed.None? ==> r == Some(NotParseable)
    ensures r == None <==>
      parsed.Some? && HexValue(parsed.value[12]) == UuidVersion && 8 <= HexValue(parsed.value[16]) <= 11
    ensures r != Some(NotRfc4122Variant)
  {
    match parsed
    case None => Some(NotParseable)
    case Some(digits) =>
      if VersionOf(digits) != Some(UuidVersion) then Some(NotVersion7)
      else if VariantOf(HexValue(digits[16])) != Rfc4122 then Some(NotRfc4122Variant)
      else None
  }

  /** `assert_uuid7_hex` with the strict hex check it intends: None when
      every check passes, otherwise the first failing check
      (`_validate_format`, `_parse_uuid`, then `_validate_uuid7_properties`). */
  function CheckUuid7Hex(value: string): (r: Option<Uuid7Failure>)
    ensures |value| != UuidHexLength ==> r == Some(NotThirtyTwoCharacters)
    ensures |value| == UuidHexLength && value != Lower(value) ==> r == Some(NotLowercase)
  {
    if |value| != UuidHexLength then Some(NotThirtyTwoCharacters)
    else if value != Lower(value) then Some(NotLowercase)
    else if !AllHex(value) then Some(NotHexadecimal)
    else PropertiesFailure(ParseUuid(value))
  }

  /** `assert_uuid7_hex` as CPython runs it: the hexadecimal check is
      `int(value, 16)` and the parse is `uuid.UUID(hex=value)`. */
  function CheckUuid7HexAsWritten(value: string): (r: Option<Uuid7Failure>)
    ensures |value| != UuidHexLength ==> r == Some(NotThirtyTwoCharacters)
    ensures |value| == UuidHexLength && value != Lower(value) ==> r == Some(NotLowercase)
  {
    if |value| != UuidHexLength then Some(NotThirtyTwoCharacters)
    else if value != Lower(value) then Some(NotLowercase)
    else if ReadHexInt(value).None? then Some(NotHexadecimal)
    else PropertiesFailure(ParseUuidAsWritten(value))
  }

  /** Reference definition: 32 lower-case hex digits with version digit 7 and
      variant digit 8, 9, a or b. */
  ghost predicate IsUuid7Hex(s: string) {
    && |s| == 32
    && LowerHex(s)
    && s[12] == '7'
    && s[16] in {'8', '9', 'a', 'b'}
  }

  /** The checker passes exactly the reference strings. */
  lemma CheckMatchesReference(s: string)
    ensures CheckUuid7Hex(s) == None <==> IsUuid7Hex(s)
  {
    if |s| == 32 {
      if CheckUuid7Hex(s) == None {
        forall i | 0 <= i < 32 ensures ('0' <= s[i] <= '9') || ('a' <= s[i] <= 'f') {
          assert s[i] == Lower(s)[i];
        }
      }
      if IsUuid7Hex(s) {
        assert s == Lower(s);
        assert AllHex(s);
        assert ParseUuid(s) == Some(s);
      }
    }
  }

  /** Upper-case letters are rejected. */
  lemma RejectsUppercase(s: string, i: nat)
    requires |s| == UuidHexLength && i < |s| && 'A' <= s[i] <= 'Z'
    ensures CheckUuid7Hex(s) == Some(NotLowercase)
  {
    assert Lower(s)[i] != s[i];
  }

  /** A lower-case 32-character string with a non-hex character is rejected as
      not hexadecimal. */
  lemma RejectsNonHex(s: string, i: nat)
    requires |s| == UuidHexLength && s == Lower(s)
    requires i < |s| && !IsHexDigit(s[i])
    ensures CheckUuid7Hex(s) == Some(NotHexadecimal)
  {
  }

  /** A hex string whose version digit is not 7 is rejected. */
  lemma RejectsOtherVersions(s: string)
    requires |s| == UuidHexLength && s == Lower(s) && AllHex(s)
    requires HexValue(s[12]) != UuidVersion
    ensures CheckUuid7Hex(s) == Some(NotVersion7)
  {
    assert ParseUuid(s) == Some(s);
  }

  /** Accepted strings carry the RFC 4122 variant. */
  lemma AcceptedHasRfc4122Variant(s: string)
    requires CheckUuid7Hex(s) == None
    ensures AllHex(s) && VariantOf(HexValue(s[16])) == Rfc4122
  {
    assert ParseUuid(s) == Some(s);
  }

  /** `UUID.version` is None unless the variant is RFC 4122, so a wrong variant
      already fails the version check: the variant assertion never fires, and
      neither does the parse assertion once the format checks have passed. */
  lemma LaterChecksUnreachable(s: string)
    ensures CheckUuid7Hex(s) != Some(NotRfc4122Variant)
    ensures CheckUuid7Hex(s) != Some(NotParseable)
  {
    if |s| == 32 && s == Lower(s) && AllHex(s) {
      assert ParseUuid(s) == Some(s);
    }
  }

  /** Every string the UUIDv7 checker accepts, the default validator accepts. */
  lemma Uuid7AcceptedByValidator(s: string)
    requires CheckUuid7Hex(s) == None
    ensures DefaultUuidValidator(s)
  {
    assert ParseUuid(s) == Some(s);
    ValidatorMatchesLayout(s);
  }

  // ---------------------------------------------------------------------------
  // The checker as written

  /** On hex text the checker as written and the intended one agree. */
  lemma AsWrittenAgreesOnHex(s: string)
    requires AllHex(s)
    ensures CheckUuid7HexAsWritten(s) == CheckUuid7Hex(s)
  {
    if |s| == UuidHexLength && s == Lower(s) {
      ReadsPlainHex(s);
      assert StripHyphens(s) == s;
      ParsersAgreeOnHex(s);
    }
  }

  /** 32 hex digits whose version digit is 7 and variant digit 8..b. */
  ghost predicate Uuid7Fields(p: string) {
    |p| == 32 && AllHex(p) && HexValue(p[12]) == UuidVersion && 8 <= HexValue(p[16]) <= 11
  }

  /** Reference definition of what the checker as written passes: 32
      lower-case characters without '-' forming an `int()` literal whose
      zero-padded digits are a UUIDv7. */
  ghost predicate IsUuid7HexAsWritten(s: string) {
    && |s| == 32
    && s == Lower(s)
    && '-' !in s
    && exists p | UuidLiteral(s, p) :: Uuid7Fields(p)
  }

  /** The checker as written passes exactly the reference strings. */
  lemma CheckAsWrittenMatchesLiteral(s: string)
    ensures CheckUuid7HexAsWritten(s) == None <==> IsUuid7HexAsWritten(s)
  {
    if |s| == UuidHexLength && s == Lower(s) {
      PreprocessInertOnShape(s);
      if '-' in s {
        assert ReadUuidDigits(StripHyphens(s)).None?;
      } else {
        Uuid7LiteralFields(s);
      }
    }
  }

  /** The property checks pass on the digits read from `h` exactly when `h`
      is a reference literal for a UUIDv7. */
  lemma Uuid7LiteralFields(h: string)
    ensures (ReadHexInt(h).Some? && PropertiesFailure(ReadUuidDigits(h)) == None)
        <==> exists p | UuidLiteral(h, p) :: Uuid7Fields(p)
  {
    if ReadHexInt(h).Some? && PropertiesFailure(ReadUuidDigits(h)) == None {
      ReadUuidDigitsMatchesLiteral(h, ReadUuidDigits(h).value);
    }
    if exists p | UuidLiteral(h, p) :: Uuid7Fields(p) {
      var p :| UuidLiteral(h, p) && Uuid7Fields(p);
      ReadUuidDigitsMatchesLiteral(h, p);
    }
  }

  /** Text of lower-case hex digits, spaces and hyphens is its own lower-case
      form. */
  lemma LowerOfLowerText(s: string)
    requires forall i | 0 <= i < |s| :: s[i] == ' ' || s[i] == '-' || ('0' <= s[i] <= '9') || ('a' <= s[i] <= 'f')
    ensures Lower(s) == s
  {
  }

  /** Digits with version digit 7 and variant digit 8 pass the property checks. */
  lemma Uuid7DigitsPass(p: string)
    requires |p| == 32 && AllHex(p) && p[12] == '7' && p[16] == '8'
    ensures PropertiesFailure(Some(p)) == None
  {
    assert HexValue(p[16]) == 8 && HexValue(p[12]) == 7;
  }

  /** A leading space or '-' in front of 31 lower-case digits fails the
      intended checker's hexadecimal check. */
  lemma LeadFailsHexCheck(lead: string, d: string)
    requires lead == " " || lead == "-"
    requires |d| == 31 && LowerHex(d)
    ensures CheckUuid7Hex(lead + d) == Some(NotHexadecimal)
  {
    LowerPadded(d);
    assert !IsHexDigit((lead + d)[0]);
  }

  /** As written, a leading space in front of 31 lower-case digits that pad
      to a UUIDv7 passes the checker; the intended checker refuses it as not
      hexadecimal. */
  lemma AsWrittenAcceptsSpacedUuid7(d: string)
    requires |d| == 31 && LowerHex(d)
    requires ZeroPad(d, 32)[12] == '7' && ZeroPad(d, 32)[16] == '8'
    ensures CheckUuid7HexAsWritten(" " + d) == None
    ensures CheckUuid7Hex(" " + d) == Some(NotHexadecimal)
  {
    assert AllHex(d);
    LowerPadded(d);
    ReadsSpacedHex(d);
    ParsesPrefixedHex(" ", d);
    Uuid7DigitsPass(ZeroPad(d, 32));
    LeadFailsHexCheck(" ", d);
  }

  /** " 1932c9e1a3d70008000000000000000" passes the checker as written: it
      reads as the UUIDv7 01932c9e-1a3d-7000-8000-000000000000. */
  lemma AsWrittenAcceptsPaddedUuid7()
    ensures CheckUuid7HexAsWritten(" " + ("1932c9e1a3d7" + "0008000000000000000")) == None
    ensures CheckUuid7Hex(" " + ("1932c9e1a3d7" + "0008000000000000000")) == Some(NotHexadecimal)
  {
    var d := "1932c9e1a3d7" + "0008000000000000000";
    PaddedExampleDigits(d);
    AsWrittenAcceptsSpacedUuid7(d);
  }

  /** A space or a sign in front of lower-case text keeps it lower-case. */
  lemma LowerPadded(d: string)
    requires LowerHex(d)
    ensures Lower(" " + d) == " " + d
    ensures Lower("-" + d) == "-" + d
  {
    assert forall i | 1 <= i < |d| + 1 :: (" " + d)[i] == d[i - 1];
    assert forall i | 1 <= i < |d| + 1 :: ("-" + d)[i] == d[i - 1];
    LowerOfLowerText(" " + d);
    LowerOfLowerText("-" + d);
  }

  /** As written, the parse assertion is reachable: `int()` reads "-" and 31
      digits, and `uuid.UUID` then drops the '-' and finds 31 characters. */
  lemma AsWrittenParseFailureReachable(d: string)
    requires |d| == 31 && LowerHex(d)
    ensures CheckUuid7HexAsWritten("-" + d) == Some(NotParseable)
    ensures CheckUuid7Hex("-" + d) == Some(NotHexadecimal)
  {
    assert AllHex(d);
    LowerPadded(d);
    ReadsSignedHex("-", d);
    HyphenLeadParsesShort(d);
    LeadFailsHexCheck("-", d);
  }

  /** `uuid.UUID` drops a leading '-', leaving at most 31 characters: no
      UUID. */
  lemma HyphenLeadParsesShort(d: string)
    requires |d| == 31 && AllHex(d)
    ensures ParseUuidAsWritten("-" + d).None?
  {
    var s := "-" + d;
    assert s[0] == '-' && s[1..] == d;
    assert '-' !in d by {
      assert forall i | 0 <= i < 31 :: d[i] != '-';
    }
    assert StripHyphens(s) == StripHyphens(d) == d;
    PreprocessShrinks(s);
  }
}
