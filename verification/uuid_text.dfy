/** The default correlation-id validator: accepts the two textual layouts of a
    UUID from section 4 of RFC 9562 (32 hex digits, or the hyphenated
    8-4-4-4-12 form) whose variant field is the RFC 4122/9562 variant and whose
    version field (section 4.2 of RFC 9562) is 1 through 8. */
module UuidText {
  import opened Wrappers
  import opened Text
  import opened HexInt

  /** Length of the hyphenated 8-4-4-4-12 form. */
  const MaxUuidLength: nat := 36
  /** Length of the hex-only form. */
  const MinUuidLength: nat := 32
  /** Indices that hold a hyphen in the 8-4-4-4-12 form. */
  const HyphenPositions: set<nat> := {8, 13, 18, 23}
  /** Versions the validator accepts. */
  const ValidVersions: set<nat> := {1, 2, 3, 4, 5, 6, 7, 8}

  // ---------------------------------------------------------------------------
  // Hyphen placement

  /** Reference definition: a hyphen at exactly the four canonical indices
      and at no other index. */
  ghost predicate CanonicalHyphens(s: string) {
    forall i | 0 <= i < |s| :: (s[i] == '-') == (i in HyphenPositions)
  }

  /** The scan of `_has_valid_hyphen_placement` from index `i` on: a hyphen
      off the canonical indices, or a canonical index without one, stops it
      with false. */
  function HyphenScan(s: string, i: nat): (r: bool)
    requires i <= |s|
    ensures r <==> forall j | i <= j < |s| :: (s[j] == '-') == (j in HyphenPositions)
    decreases |s| - i
  {
    if i == |s| then true
    else if s[i] == '-' then
      if i !in HyphenPositions then false else HyphenScan(s, i + 1)
    else if i in HyphenPositions then false
    else HyphenScan(s, i + 1)
  }

  /** `_has_valid_hyphen_placement`. */
  function HasValidHyphenPlacement(s: string): (r: bool)
    ensures r <==> CanonicalHyphens(s)
  {
    HyphenScan(s, 0)
  }

  // ---------------------------------------------------------------------------
  // Parsing (the part of `uuid.UUID(value)` the validator reaches)

  /** `value.replace('-', '')`. */
  function StripHyphens(s: string): (r: string)
    ensures |r| <= |s|
    ensures |r| == |s| <==> '-' !in s
    ensures '-' !in s ==> r == s
  {
    if |s| == 0 then []
    else if s[0] == '-' then StripHyphens(s[1..])
    else [s[0]] + StripHyphens(s[1..])
  }

  /** The characters left are those of the input other than '-'. */
  lemma {:induction false} StripHyphensMembers(s: string)
    ensures forall c :: c in StripHyphens(s) <==> c in s && c != '-'
    decreases |s|
  {
    if |s| > 0 {
      StripHyphensMembers(s[1..]);
      assert s == [s[0]] + s[1..];
    }
  }

  /** `uuid.UUID(value)` as the validator means it: after removing hyphens
      there must be exactly 32 characters, all hex digits. The 32 digits, or
      None where the value is not UUID text. */
  function ParseUuid(s: string): (r: Option<string>)
    ensures r.Some? ==> |r.value| == 32 && AllHex(r.value)
  {
    var h := StripHyphens(s);
    if |h| == 32 && AllHex(h) then Some(h) else None
  }

  /** `pat` occurs in `s` at index `i`. */
  ghost predicate Occurs(s: string, pat: string, i: int) {
    0 <= i && i + |pat| <= |s| && s[i..i + |pat|] == pat
  }

  ghost predicate NoOccurrence(s: string, pat: string) {
    forall i :: !Occurs(s, pat, i)
  }

  /** `s.replace(pat, '')`: the occurrences of `pat` met scanning left to
      right are removed; text that a removal brings together is not scanned
      again. */
  function RemoveAll(s: string, pat: string): (r: string)
    requires |pat| > 0
    ensures |r| <= |s|
    ensures forall c | c in r :: c in s
    ensures NoOccurrence(s, pat) ==> r == s
    decreases |s|
  {
    if |s| < |pat| then s
    else if s[..|pat|] == pat then
      assert Occurs(s, pat, 0);
      RemoveAll(s[|pat|..], pat)
    else
      assert forall i | Occurs(s[1..], pat, i) :: Occurs(s, pat, i + 1) by {
        forall i | Occurs(s[1..], pat, i) ensures Occurs(s, pat, i + 1) {
          assert s[1..][i..i + |pat|] == s[i + 1..i + 1 + |pat|];
        }
      }
      assert s == [s[0]] + s[1..];
      [s[0]] + RemoveAll(s[1..], pat)
  }

  /** The first occurrence decides: the text before it is kept, the
      occurrence is dropped and the scan resumes after it. With the
      no-occurrence case of the contract this determines `RemoveAll`. */
  lemma RemoveAllLeftmost(s: string, pat: string, i: nat)
    requires |pat| > 0 && Occurs(s, pat, i)
    requires forall j | 0 <= j < i :: !Occurs(s, pat, j)
    ensures RemoveAll(s, pat) == s[..i] + RemoveAll(s[i + |pat|..], pat)
  {
    var pre, rest := s[..i], s[i..];
    assert s == pre + rest;
    RemoveAllKeepsPrefix(pre, rest, pat);
    assert rest[..|pat|] == pat;
    assert rest[|pat|..] == s[i + |pat|..];
  }

  /** A prefix in which no occurrence starts is kept as it is. */
  lemma {:induction false} RemoveAllKeepsPrefix(pre: string, rest: string, pat: string)
    requires |pat| > 0
    requires forall j | 0 <= j < |pre| :: !Occurs(pre + rest, pat, j)
    ensures RemoveAll(pre + rest, pat) == pre + RemoveAll(rest, pat)
    decreases |pre|
  {
    var s := pre + rest;
    if |pre| == 0 {
      assert s == rest;
    } else if |s| < |pat| {
      assert RemoveAll(rest, pat) == rest;
    } else {
      RemoveAllAtMiss(s, pat);
      assert s[1..] == pre[1..] + rest;
      forall j | 0 <= j < |pre| - 1 ensures !Occurs(pre[1..] + rest, pat, j) {
        OccursShift(s, pat, j);
      }
      RemoveAllKeepsPrefix(pre[1..], rest, pat);
      assert [s[0]] + pre[1..] == pre;
    }
  }

  lemma RemoveAllAtMiss(s: string, pat: string)
    requires |pat| > 0 && |s| >= |pat| && !Occurs(s, pat, 0)
    ensures RemoveAll(s, pat) == [s[0]] + RemoveAll(s[1..], pat)
  {
    assert s[..|pat|] == s[0..0 + |pat|];
  }

  /** An occurrence in the tail is one in the whole text, one index on. */
  lemma OccursShift(s: string, pat: string, j: nat)
    requires |s| > 0
    ensures Occurs(s[1..], pat, j) <==> Occurs(s, pat, j + 1)
  {
    if j + |pat| <= |s| - 1 {
      assert s[1..][j..j + |pat|] == s[j + 1..j + 1 + |pat|];
    }
  }

  /** A pattern whose last character is absent does not occur. */
  lemma AbsentLastNoOccurrence(s: string, pat: string)
    requires |pat| > 0 && pat[|pat| - 1] !in s
    ensures NoOccurrence(s, pat)
  {
  }

  predicate IsBrace(c: char) {
    c == '{' || c == '}'
  }

  /** The leading half of `strip('{}')`. */
  function StripBracesStart(s: string): (r: string)
    ensures |r| <= |s| && r == s[|s| - |r|..]
    ensures r == [] || !IsBrace(r[0])
    ensures forall j | 0 <= j < |s| - |r| :: IsBrace(s[j])
    decreases |s|
  {
    if |s| > 0 && IsBrace(s[0]) then
      var r := StripBracesStart(s[1..]);
      assert forall j | 1 <= j < |s| - |r| :: s[j] == s[1..][j - 1];
      r
    else s
  }

  /** The trailing half of `strip('{}')`. */
  function StripBracesEnd(s: string): (r: string)
    ensures |r| <= |s| && r == s[..|r|]
    ensures r == [] || !IsBrace(r[|r| - 1])
    ensures forall j | |r| <= j < |s| :: IsBrace(s[j])
    decreases |s|
  {
    if |s| > 0 && IsBrace(s[|s| - 1]) then
      var r := StripBracesEnd(s[..|s| - 1]);
      assert forall j | |r| <= j < |s| - 1 :: s[j] == s[..|s| - 1][j];
      r
    else s
  }

  /** What `uuid.UUID(hex)` does before removing hyphens:
      `hex.replace('urn:', '').replace('uuid:', '').strip('{}')`. */
  function Preprocess(s: string): (r: string)
    ensures |r| <= |s|
  {
    StripBracesEnd(StripBracesStart(RemoveAll(RemoveAll(s, "urn:"), "uuid:")))
  }

  /** Text without ':' and without a brace at either end is left alone. */
  lemma PreprocessIdentity(s: string)
    requires ':' !in s
    requires s == [] || (!IsBrace(s[0]) && !IsBrace(s[|s| - 1]))
    ensures Preprocess(s) == s
  {
    AbsentLastNoOccurrence(s, "urn:");
    AbsentLastNoOccurrence(s, "uuid:");
  }

  /** The last step of `uuid.UUID(hex)`: exactly 32 characters, read with
      `int(hex, 16)`; the digits zero-padded to 32, or None where it raises
      `ValueError`. */
  function ReadUuidDigits(h: string): (r: Option<string>)
    ensures r.Some? ==> |r.value| == 32 && AllHex(r.value)
    ensures r.Some? <==> |h| == 32 && ReadHexInt(h).Some?
    ensures r.Some? ==> r.value == ZeroPad(ReadHexInt(h).value, 32)
  {
    if |h| != 32 then None
    else
      match ReadHexInt(h)
      case None => None
      case Some(d) => Some(ZeroPad(d, 32))
  }

  /** `uuid.UUID(value)` as CPython runs it: "urn:" and "uuid:" are removed,
      then braces at either end, then hyphens, and the remaining text must be
      32 characters that `int(hex, 16)` reads. The value's 32 hex digits, or
      None where `uuid.UUID` raises `ValueError`. */
  function ParseUuidAsWritten(s: string): (r: Option<string>)
    ensures r.Some? ==> |r.value| == 32 && AllHex(r.value)
  {
    ReadUuidDigits(StripHyphens(Preprocess(s)))
  }

  /** Reference definition of the last step: 32 characters forming an
      `int()` literal (hex-digit grammar) whose digits, zero-padded to 32,
      are `p`. */
  ghost predicate UuidLiteral(h: string, p: string) {
    |h| == 32 && exists d | |d| <= 32 && HexLiteral(h, d) :: p == ZeroPad(d, 32)
  }

  /** The last step reads exactly the reference literals. */
  lemma ReadUuidDigitsMatchesLiteral(h: string, p: string)
    ensures ReadUuidDigits(h) == Some(p) <==> UuidLiteral(h, p)
  {
    if ReadUuidDigits(h) == Some(p) {
      var d := ReadHexInt(h).value;
      ReadHexIntMatchesLiteral(h, d);
      assert |d| <= 32 && HexLiteral(h, d);
    }
    if UuidLiteral(h, p) {
      var d :| |d| <= 32 && HexLiteral(h, d) && p == ZeroPad(d, 32);
      ReadHexIntMatchesLiteral(h, d);
    }
  }

  /** `uuid.UUID(s)` as written yields `p` exactly when the preprocessed,
      de-hyphenated text is a reference literal for `p`; it raises (None)
      exactly when no such `p` exists. */
  lemma ParseUuidAsWrittenMatchesLiteral(s: string, p: string)
    ensures ParseUuidAsWritten(s) == Some(p) <==> UuidLiteral(StripHyphens(Preprocess(s)), p)
    ensures ParseUuidAsWritten(s).None? <==> forall q :: !UuidLiteral(StripHyphens(Preprocess(s)), q)
  {
    var h := StripHyphens(Preprocess(s));
    ReadUuidDigitsMatchesLiteral(h, p);
    if ParseUuidAsWritten(s).Some? {
      ReadUuidDigitsMatchesLiteral(h, ParseUuidAsWritten(s).value);
    } else {
      forall q ensures !UuidLiteral(h, q) {
        ReadUuidDigitsMatchesLiteral(h, q);
      }
    }
  }

  /** Removing occurrences of a hyphen-free pattern removes non-hyphen
      characters: the de-hyphenated text shrinks whenever anything changes. */
  lemma {:induction false} RemoveAllShrinks(s: string, pat: string)
    requires |pat| > 0 && '-' !in pat
    ensures var r := RemoveAll(s, pat);
      |StripHyphens(r)| <= |StripHyphens(s)| && (r != s ==> |StripHyphens(r)| < |StripHyphens(s)|)
    decreases |s|
  {
    if |s| >= |pat| {
      if s[..|pat|] == pat {
        RemoveAllShrinks(s[|pat|..], pat);
        assert s == pat + s[|pat|..];
        StripHyphensConcat(pat, s[|pat|..]);
      } else {
        RemoveAllShrinks(s[1..], pat);
        assert s == [s[0]] + s[1..];
        StripHyphensConcat([s[0]], s[1..]);
        StripHyphensConcat([s[0]], RemoveAll(s[1..], pat));
      }
    }
  }

  /** Stripping leading braces shrinks the de-hyphenated text whenever it
      changes anything. */
  lemma {:induction false} BracesStartShrinks(s: string)
    ensures var r := StripBracesStart(s);
      |StripHyphens(r)| <= |StripHyphens(s)| && (r != s ==> |StripHyphens(r)| < |StripHyphens(s)|)
    decreases |s|
  {
    if |s| > 0 && IsBrace(s[0]) {
      var tail := s[1..];
      assert StripBracesStart(s) == StripBracesStart(tail);
      BracesStartShrinks(tail);
      assert StripHyphens(s) == [s[0]] + StripHyphens(tail);
    } else {
      assert StripBracesStart(s) == s;
    }
  }

  /** A last character other than '-' survives hyphen removal. */
  lemma StripHyphensSnoc(s: string)
    requires |s| > 0 && s[|s| - 1] != '-'
    ensures |StripHyphens(s)| == |StripHyphens(s[..|s| - 1])| + 1
  {
    var init, last := s[..|s| - 1], [s[|s| - 1]];
    assert s == init + last;
    StripHyphensConcat(init, last);
    assert StripHyphens(last) == last;
  }

  /** Stripping trailing braces shrinks the de-hyphenated text whenever it
      changes anything. */
  lemma {:induction false} BracesEndShrinks(s: string)
    ensures var r := StripBracesEnd(s);
      |StripHyphens(r)| <= |StripHyphens(s)| && (r != s ==> |StripHyphens(r)| < |StripHyphens(s)|)
    decreases |s|
  {
    if |s| > 0 && IsBrace(s[|s| - 1]) {
      var init := s[..|s| - 1];
      assert StripBracesEnd(s) == StripBracesEnd(init);
      BracesEndShrinks(init);
      StripHyphensSnoc(s);
    }
  }

  /** The preprocessing shrinks the de-hyphenated text whenever it changes
      anything. */
  lemma PreprocessShrinks(s: string)
    ensures var r := Preprocess(s);
      |StripHyphens(r)| <= |StripHyphens(s)| && (r != s ==> |StripHyphens(r)| < |StripHyphens(s)|)
  {
    var s1 := RemoveAll(s, "urn:");
    var s2 := RemoveAll(s1, "uuid:");
    RemoveAllShrinks(s, "urn:");
    RemoveAllShrinks(s1, "uuid:");
    BracesStartShrinks(s2);
    BracesEndShrinks(StripBracesStart(s2));
  }

  /** The shape check admits at most 32 characters besides hyphens. */
  lemma ShapeBoundsDigits(s: string)
    requires ShapeAccepted(s)
    ensures |StripHyphens(s)| <= 32
  {
    if |s| == MaxUuidLength {
      StripCanonical(s);
    }
  }

  /** Text the preprocessing changes holds a ':' or has a brace at an end. */
  lemma PreprocessChangeMarker(s: string)
    requires Preprocess(s) != s
    ensures ':' in s || (|s| > 0 && (IsBrace(s[0]) || IsBrace(s[|s| - 1])))
  {
    if ':' !in s && (s == [] || (!IsBrace(s[0]) && !IsBrace(s[|s| - 1]))) {
      PreprocessIdentity(s);
    }
  }

  /** A ':' or a brace is not something `int()` reads past. */
  lemma MarkerBlocksRead(s: string, c: char)
    requires c in s && (c == ':' || IsBrace(c))
    ensures ReadHexInt(StripHyphens(s)).None?
  {
    var h := StripHyphens(s);
    StripHyphensMembers(s);
    assert c in h;
    MarkerNotAccepted(c);
    ReadHexIntRejects(h, c);
  }

  lemma MarkerNotAccepted(c: char)
    requires c == ':' || IsBrace(c)
    ensures !IntAccepted(c)
  {
  }

  /** On the strings of 32 or 36 characters the validator passes to
      `uuid.UUID`, removing "urn:", "uuid:" and braces never matters: when it
      would change the text, the text cannot be parsed either way. */
  lemma PreprocessInertOnShape(s: string)
    requires ShapeAccepted(s)
    ensures ParseUuidAsWritten(s) == ReadUuidDigits(StripHyphens(s))
  {
    if Preprocess(s) != s {
      PreprocessShrinks(s);
      ShapeBoundsDigits(s);
      PreprocessChangeMarker(s);
      if ':' in s {
        MarkerBlocksRead(s, ':');
      } else if IsBrace(s[0]) {
        MarkerBlocksRead(s, s[0]);
      } else {
        MarkerBlocksRead(s, s[|s| - 1]);
      }
    }
  }

  /** Text made of hex digits and hyphens is left alone by the preprocessing. */
  lemma HexWithHyphensUntouched(s: string)
    requires AllHex(StripHyphens(s))
    ensures Preprocess(s) == s
  {
    var h := StripHyphens(s);
    StripHyphensMembers(s);
    forall i | 0 <= i < |s| ensures s[i] == '-' || IsHexDigit(s[i]) {
      if s[i] != '-' {
        assert s[i] in h;
        var j :| 0 <= j < |h| && h[j] == s[i];
      }
    }
    PreprocessIdentity(s);
  }

  /** Text whose de-hyphenated form is hex holds only hex digits and '-'. */
  lemma HexOrHyphen(s: string)
    requires AllHex(StripHyphens(s))
    ensures forall i | 0 <= i < |s| :: s[i] == '-' || IsHexDigit(s[i])
  {
    var h := StripHyphens(s);
    StripHyphensMembers(s);
    forall i | 0 <= i < |s| ensures s[i] == '-' || IsHexDigit(s[i]) {
      if s[i] != '-' {
        assert s[i] in h;
        var j :| 0 <= j < |h| && h[j] == s[i];
      }
    }
  }

  /** Text that preprocesses to hex-and-hyphen text `c` parses as `c` does. */
  lemma ParsesAsInner(s: string, c: string)
    requires Preprocess(s) == c && AllHex(StripHyphens(c))
    ensures ParseUuidAsWritten(s) == ParseUuid(c)
  {
    HexWithHyphensUntouched(c);
    ParsersAgreeOnHex(c);
  }

  /** Braces around hex-and-hyphen text are stripped: `uuid.UUID("{" + c + "}")`
      is `uuid.UUID(c)`. */
  lemma BracedParses(c: string)
    requires AllHex(StripHyphens(c))
    ensures ParseUuidAsWritten("{" + c + "}") == ParseUuid(c)
  {
    HexOrHyphenEnds(c);
    var s := "{" + c + "}";
    assert ':' !in s;
    PreprocessWithoutColon(s);
    BracesAround(c);
    ParsesAsInner(s, c);
  }

  /** Hex-and-hyphen text holds no ':' and neither starts nor ends with a
      brace. */
  lemma HexOrHyphenEnds(c: string)
    requires AllHex(StripHyphens(c))
    ensures ':' !in c
    ensures c == [] || (!IsBrace(c[0]) && !IsBrace(c[|c| - 1]))
  {
    HexOrHyphen(c);
    forall i | 0 <= i < |c| ensures c[i] != ':' && !IsBrace(c[i]) {
      HexNotMarker(c[i]);
    }
  }

  lemma HexNotMarker(x: char)
    requires x == '-' || IsHexDigit(x)
    ensures x != ':' && !IsBrace(x)
  {
  }

  /** Without a ':' only the braces are stripped. */
  lemma PreprocessWithoutColon(s: string)
    requires ':' !in s
    ensures Preprocess(s) == StripBracesEnd(StripBracesStart(s))
  {
    AbsentLastNoOccurrence(s, "urn:");
    AbsentLastNoOccurrence(s, "uuid:");
  }

  /** `strip('{}')` removes one brace from each end of text whose own ends
      are not braces. */
  lemma BracesAround(c: string)
    requires c == [] || (!IsBrace(c[0]) && !IsBrace(c[|c| - 1]))
    ensures StripBracesEnd(StripBracesStart("{" + c + "}")) == c
  {
    var inner := c + "}";
    assert "{" + c + "}" == "{" + inner;
    StripLeadingBrace('{', inner);
    if c == [] {
      StripLeadingBrace('}', []);
    } else {
      assert inner[0] == c[0];
      StripTrailingBrace(c, '}');
    }
  }

  lemma StripLeadingBrace(b: char, r: string)
    requires IsBrace(b)
    ensures StripBracesStart([b] + r) == StripBracesStart(r)
  {
    assert ([b] + r)[1..] == r;
  }

  lemma StripTrailingBrace(r: string, b: char)
    requires IsBrace(b)
    ensures StripBracesEnd(r + [b]) == StripBracesEnd(r)
  {
    assert (r + [b])[..|r|] == r;
  }

  /** Text whose ends are not braces is left alone by `strip('{}')`. */
  lemma BracesInert(c: string)
    requires c == [] || (!IsBrace(c[0]) && !IsBrace(c[|c| - 1]))
    ensures StripBracesEnd(StripBracesStart(c)) == c
  {
  }

  /** A leading occurrence is removed and the scan goes on behind it. */
  lemma RemoveAllLeading(pat: string, rest: string)
    requires |pat| > 0
    ensures RemoveAll(pat + rest, pat) == RemoveAll(rest, pat)
  {
    var s := pat + rest;
    assert s[..|pat|] == pat && s[|pat|..] == rest;
  }

  /** The "urn:uuid:" prefix is removed: `uuid.UUID("urn:uuid:" + c)` is
      `uuid.UUID(c)` for hex-and-hyphen text `c`. */
  lemma UrnParses(c: string)
    requires AllHex(StripHyphens(c))
    ensures ParseUuidAsWritten("urn:uuid:" + c) == ParseUuid(c)
  {
    HexOrHyphenEnds(c);
    UrnRemoved(c);
    BracesInert(c);
    ParsesAsInner("urn:uuid:" + c, c);
  }

  /** Removing "urn:" and then "uuid:" from "urn:uuid:" + c leaves c. */
  lemma UrnRemoved(c: string)
    requires ':' !in c
    ensures RemoveAll(RemoveAll("urn:uuid:" + c, "urn:"), "uuid:") == c
  {
    var t := "uuid:" + c;
    assert "urn:uuid:" + c == "urn:" + t;
    RemoveAllLeading("urn:", t);
    UrnNotInUuidPrefix(c);
    RemoveAllLeading("uuid:", c);
    AbsentLastNoOccurrence(c, "uuid:");
  }

  /** After "urn:" is removed, no "urn:" is left in "uuid:" + c. */
  lemma UrnNotInUuidPrefix(c: string)
    requires ':' !in c
    ensures NoOccurrence("uuid:" + c, "urn:")
  {
    var t := "uuid:" + c;
    forall i ensures !Occurs(t, "urn:", i) {
      if 0 <= i && i + 4 <= |t| {
        var w := t[i..i + 4];
        if i == 1 {
          assert w[1] != "urn:"[1];
        } else {
          if i >= 2 {
            assert t[i + 3] == c[i - 2];
          }
          assert w[3] != "urn:"[3];
        }
      }
    }
  }

  /** The variant field of section 4.1 of RFC 9562, read from the top bits of
      the octet whose high nibble is hex digit 16. */
  datatype Variant = ReservedNcs | Rfc4122 | ReservedMicrosoft | ReservedFuture

  function VariantOf(nibble: nat): (v: Variant)
    requires nibble < 16
    ensures v == Rfc4122 <==> 8 <= nibble <= 11
  {
    if nibble < 8 then ReservedNcs
    else if nibble < 12 then Rfc4122
    else if nibble < 14 then ReservedMicrosoft
    else ReservedFuture
  }

  /** `UUID.version`: hex digit 12, defined only for the RFC 4122 variant. */
  function VersionOf(digits: string): (r: Option<nat>)
    requires |digits| == 32 && AllHex(digits)
    ensures r.Some? <==> 8 <= HexValue(digits[16]) <= 11
    ensures r.Some? ==> r.value == HexValue(digits[12])
  {
    if VariantOf(HexValue(digits[16])) == Rfc4122 then Some(HexValue(digits[12])) else None
  }

  // ---------------------------------------------------------------------------
  // The validator

  /** The early exits of `default_uuid_validator`: the empty string, a length
      outside 32..36, a length strictly between them, and a 36-character
      string with misplaced hyphens are refused before any parsing. */
  function ShapeAccepted(value: string): (r: bool)
    ensures r <==> |value| == MinUuidLength || (|value| == MaxUuidLength && CanonicalHyphens(value))
  {
    var length := |value|;
    && length != 0
    && !(length > MaxUuidLength || length < MinUuidLength)
    && !(MinUuidLength < length < MaxUuidLength)
    && !(length == MaxUuidLength && !HasValidHyphenPlacement(value))
  }

  /** The valid versions are the range 1..8. */
  lemma VersionInRange(v: nat)
    ensures v in ValidVersions <==> 1 <= v <= 8
  {
  }

  /** 32 hex digits with a version digit 1..8 and variant digit 8..b pass
      the version check. */
  lemma DigitsWithValidFields(p: string)
    requires |p| == 32 && AllHex(p)
    requires 1 <= HexValue(p[12]) <= 8 && 8 <= HexValue(p[16]) <= 11
    ensures VersionAccepted(Some(p))
  {
    VersionInRange(HexValue(p[12]));
  }

  /** `parsed.version in _VALID_UUID_VERSIONS`, false where parsing failed. */
  function VersionAccepted(parsed: Option<string>): (r: bool)
    requires parsed.Some? ==> |parsed.value| == 32 && AllHex(parsed.value)
    ensures r <==> parsed.Some? && 8 <= HexValue(parsed.value[16]) <= 11
                   && 1 <= HexValue(parsed.value[12]) <= 8
  {
    match parsed
    case None => false
    case Some(digits) =>
      var version := VersionOf(digits);
      VersionInRange(HexValue(digits[12]));
      version.Some? && version.value in ValidVersions
  }

  /** `default_uuid_validator`, with the strict hex parse it intends. */
  function DefaultUuidValidator(value: string): (r: bool)
    ensures r ==> |value| == MinUuidLength || |value| == MaxUuidLength
    ensures r && |value| == MaxUuidLength ==> CanonicalHyphens(value)
    ensures r && |value| == MinUuidLength ==> AllHex(value)
  {
    ShapeAccepted(value) && VersionAccepted(ParseUuid(value))
  }

  /** `default_uuid_validator` as CPython runs it, parse included. */
  function DefaultUuidValidatorAsWritten(value: string): (r: bool)
    ensures r ==> |value| == MinUuidLength || |value| == MaxUuidLength
    ensures r && |value| == MaxUuidLength ==> CanonicalHyphens(value)
  {
    ShapeAccepted(value) && VersionAccepted(ParseUuidAsWritten(value))
  }

  /** 32 hex digits whose version digit is 1..8 and variant digit 8..b. */
  ghost predicate ValidFields(p: string) {
    |p| == 32 && AllHex(p) && 1 <= HexValue(p[12]) <= 8 && 8 <= HexValue(p[16]) <= 11
  }

  /** Reference definition of what the validator as written accepts: the
      intended shape, and de-hyphenated text that is an `int()` literal whose
      zero-padded digits have valid fields. */
  ghost predicate AsWrittenUuidText(s: string) {
    ShapeAccepted(s) && exists p | UuidLiteral(StripHyphens(s), p) :: ValidFields(p)
  }

  /** The validator as written accepts exactly the reference strings. */
  lemma ValidatorAsWrittenMatchesLiteral(s: string)
    ensures DefaultUuidValidatorAsWritten(s) <==> AsWrittenUuidText(s)
  {
    if ShapeAccepted(s) {
      PreprocessInertOnShape(s);
      LiteralFieldsAccepted(StripHyphens(s));
    }
  }

  /** The version check passes on the digits read from `h` exactly when `h`
      is a reference literal for digits with valid fields. */
  lemma LiteralFieldsAccepted(h: string)
    ensures VersionAccepted(ReadUuidDigits(h)) <==> exists p | UuidLiteral(h, p) :: ValidFields(p)
  {
    if VersionAccepted(ReadUuidDigits(h)) {
      ReadUuidDigitsMatchesLiteral(h, ReadUuidDigits(h).value);
    }
    if exists p | UuidLiteral(h, p) :: ValidFields(p) {
      var p :| UuidLiteral(h, p) && ValidFields(p);
      ReadUuidDigitsMatchesLiteral(h, p);
    }
  }

  /** Reference definition of the accepted strings, position by position: the
      hex-only form with version digit at index 12 and variant digit at index
      16, or the hyphenated form, where the same digits sit at indices 14 and 19. */
  ghost predicate IsUuidText(s: string) {
    || (&& |s| == 32
        && AllHex(s)
        && 1 <= HexValue(s[12]) <= 8
        && 8 <= HexValue(s[16]) <= 11)
    || (&& |s| == 36
        && CanonicalHyphens(s)
        && (forall i | 0 <= i < 36 && i !in HyphenPositions :: IsHexDigit(s[i]))
        && 1 <= HexValue(s[14]) <= 8
        && 8 <= HexValue(s[19]) <= 11)
  }

  lemma {:induction false} StripHyphensConcat(a: string, b: string)
    ensures StripHyphens(a + b) == StripHyphens(a) + StripHyphens(b)
    decreases |a|
  {
    if |a| == 0 {
      assert a + b == b;
    } else {
      assert (a + b)[0] == a[0];
      assert (a + b)[1..] == a[1..] + b;
      StripHyphensConcat(a[1..], b);
    }
  }

  /** Removing hyphens from a suffix splits at any index. */
  lemma StripSplit(s: string, i: nat, j: nat)
    requires i <= j <= |s|
    ensures StripHyphens(s[i..]) == StripHyphens(s[i..j]) + StripHyphens(s[j..])
  {
    assert s[i..] == s[i..j] + s[j..];
    StripHyphensConcat(s[i..j], s[j..]);
  }

  /** Splitting a suffix at a hyphen drops the hyphen. */
  lemma StripAtHyphen(s: string, k: nat)
    requires k < |s| && s[k] == '-'
    ensures StripHyphens(s[k..]) == StripHyphens(s[k + 1..])
  {
    assert s[k..][1..] == s[k + 1..];
  }

  /** Splitting a suffix at the end of a hyphen-free slice keeps the slice. */
  lemma StripAtPlain(s: string, i: nat, j: nat)
    requires i <= j <= |s|
    requires forall k | i <= k < j :: s[k] != '-'
    ensures StripHyphens(s[i..]) == s[i..j] + StripHyphens(s[j..])
  {
    StripSplit(s, i, j);
    assert '-' !in s[i..j];
  }

  /** Canonical hyphen placement, index range by index range. */
  lemma CanonicalRanges(s: string)
    requires |s| == 36 && CanonicalHyphens(s)
    ensures s[8] == '-' && s[13] == '-' && s[18] == '-' && s[23] == '-'
    ensures forall k | 0 <= k < 8 :: s[k] != '-'
    ensures forall k | 9 <= k < 13 :: s[k] != '-'
    ensures forall k | 14 <= k < 18 :: s[k] != '-'
    ensures forall k | 19 <= k < 23 :: s[k] != '-'
    ensures forall k | 24 <= k < 36 :: s[k] != '-'
  {
    assert 8 in HyphenPositions && 13 in HyphenPositions;
    assert 18 in HyphenPositions && 23 in HyphenPositions;
  }

  /** A hyphen followed by a hyphen-free run up to index `j`. */
  lemma StripGroup(s: string, k: nat, j: nat)
    requires k < j <= |s| && s[k] == '-'
    requires forall i | k < i < j :: s[i] != '-'
    ensures StripHyphens(s[k..]) == s[k + 1..j] + StripHyphens(s[j..])
  {
    StripAtHyphen(s, k);
    StripAtPlain(s, k + 1, j);
  }

  /** A canonically hyphenated string loses exactly its four hyphens. */
  lemma StripCanonical(s: string)
    requires |s| == 36 && CanonicalHyphens(s)
    ensures StripHyphens(s) == s[..8] + (s[9..13] + (s[14..18] + (s[19..23] + s[24..])))
  {
    CanonicalRanges(s);
    assert s[36..] == [] && s[24..36] == s[24..];
    StripGroup(s, 23, 36);
    var e := s[24..];
    assert StripHyphens(s[23..]) == e;
    StripGroup(s, 18, 23);
    var d := s[19..23] + e;
    assert StripHyphens(s[18..]) == d;
    StripGroup(s, 13, 18);
    var c := s[14..18] + d;
    assert StripHyphens(s[13..]) == c;
    StripGroup(s, 8, 13);
    var b := s[9..13] + c;
    assert StripHyphens(s[8..]) == b;
    StripAtPlain(s, 0, 8);
    assert s[0..] == s && s[0..8] == s[..8];
  }

  /** The validator accepts exactly the strings of the reference layout. */
  lemma ValidatorMatchesLayout(s: string)
    ensures DefaultUuidValidator(s) <==> IsUuidText(s)
  {
    if |s| == 32 {
      HexOnlyLayout(s);
    } else if |s| == 36 {
      HyphenatedLayout(s);
    }
  }

  lemma HexOnlyLayout(s: string)
    requires |s| == 32
    ensures DefaultUuidValidator(s) <==> IsUuidText(s)
  {
    if '-' in s {
      var k :| 0 <= k < |s| && s[k] == '-';
      assert !IsHexDigit(s[k]);
    }
  }

  lemma HyphenatedLayout(s: string)
    requires |s| == 36
    ensures DefaultUuidValidator(s) <==> IsUuidText(s)
  {
    if CanonicalHyphens(s) {
      StripCanonical(s);
      var h := StripHyphens(s);
      assert |h| == 32;
      assert h[12] == s[14] && h[16] == s[19];
      CanonicalHexDigits(s);
    }
  }

  /** The hyphen-free text of a canonically hyphenated string is all hex
      exactly when every non-hyphen index holds a hex digit. */
  lemma CanonicalHexDigits(s: string)
    requires |s| == 36 && CanonicalHyphens(s)
    ensures AllHex(StripHyphens(s))
        <==> forall i | 0 <= i < 36 && i !in HyphenPositions :: IsHexDigit(s[i])
  {
    var h := StripHyphens(s);
    StripHyphensMembers(s);
    if AllHex(h) {
      forall i | 0 <= i < 36 && i !in HyphenPositions ensures IsHexDigit(s[i]) {
        assert s[i] in h;
      }
    }
    if forall i | 0 <= i < 36 && i !in HyphenPositions :: IsHexDigit(s[i]) {
      forall j | 0 <= j < |h| ensures IsHexDigit(h[j]) {
        assert h[j] in s;
        var i :| 0 <= i < |s| && s[i] == h[j];
      }
    }
  }

  /** Acceptance does not depend on letter case. */
  lemma ValidatorIgnoresCase(s: string)
    ensures DefaultUuidValidator(Lower(s)) == DefaultUuidValidator(s)
    ensures DefaultUuidValidator(Upper(s)) == DefaultUuidValidator(s)
  {
    ValidatorMatchesLayout(s);
    ValidatorMatchesLayout(Lower(s));
    ValidatorMatchesLayout(Upper(s));
    LayoutIgnoresCase(s, Lower(s));
    LayoutIgnoresCase(s, Upper(s));
  }

  /** Two strings that agree up to letter case at every index are both, or
      neither, UUID text. */
  lemma LayoutIgnoresCase(s: string, t: string)
    requires |s| == |t|
    requires forall i | 0 <= i < |s| :: t[i] == LowerChar(s[i]) || t[i] == UpperChar(s[i])
    ensures IsUuidText(t) <==> IsUuidText(s)
  {
    forall i | 0 <= i < |s|
      ensures IsHexDigit(t[i]) <==> IsHexDigit(s[i])
      ensures (t[i] == '-') <==> (s[i] == '-')
      ensures IsHexDigit(s[i]) ==> HexValue(t[i]) == HexValue(s[i])
    {
    }
  }

  // ---------------------------------------------------------------------------
  // Consequences stated on the validator alone

  /** Every length other than 32 and 36 is rejected, the empty string included. */
  lemma RejectsOtherLengths(s: string)
    requires |s| != MinUuidLength && |s| != MaxUuidLength
    ensures !DefaultUuidValidator(s)
  {
  }

  /** A 36-character string with a hyphen missing, added or moved is rejected. */
  lemma RejectsMisplacedHyphen(s: string, i: nat)
    requires |s| == MaxUuidLength && i < |s|
    requires (s[i] == '-') != (i in HyphenPositions)
    ensures !DefaultUuidValidator(s)
  {
  }

  /** Accepted strings carry a version 1..8 and the RFC 4122 variant. */
  lemma AcceptedHasVersionAndVariant(s: string)
    requires DefaultUuidValidator(s)
    ensures var digits := StripHyphens(s);
      && |digits| == 32 && AllHex(digits)
      && 1 <= HexValue(digits[12]) <= 8
      && VariantOf(HexValue(digits[16])) == Rfc4122
  {
    var digits := StripHyphens(s);
    assert ParseUuid(s) == Some(digits);
    assert VersionOf(digits).Some?;
  }

  /** A 36-character string whose variant digit (index 19) is outside 8..b
      is rejected whatever its other characters. */
  lemma RejectsOtherVariants(s: string)
    requires |s| == MaxUuidLength
    requires IsHexDigit(s[19]) && !(8 <= HexValue(s[19]) <= 11)
    ensures !DefaultUuidValidator(s)
  {
    ValidatorMatchesLayout(s);
  }

  /** The nil UUID and the max UUID are rejected: neither has the RFC 4122 variant. */
  lemma RejectsNilAndMax()
    ensures !DefaultUuidValidator("00000000-0000-0000-0000-000000000000")
    ensures !DefaultUuidValidator("ffffffff-ffff-ffff-ffff-ffffffffffff")
  {
    var nil := "00000000-0000-0000-0000-000000000000";
    var max := "ffffffff-ffff-ffff-ffff-ffffffffffff";
    assert nil[19] == '0' && max[19] == 'f';
    RejectsOtherVariants(nil);
    RejectsOtherVariants(max);
  }

  // ---------------------------------------------------------------------------
  // The validator as written: `int()` tolerates more than hex digits

  /** The two parsers agree wherever the de-hyphenated text is hex. */
  lemma ParsersAgreeOnHex(s: string)
    requires AllHex(StripHyphens(s))
    ensures ParseUuidAsWritten(s) == ParseUuid(s)
  {
    var h := StripHyphens(s);
    HexWithHyphensUntouched(s);
    assert ParseUuidAsWritten(s) == ReadUuidDigits(h);
    if |h| == 32 {
      ReadsPlainHex(h);
      assert ZeroPad(h, 32) == h;
    }
  }

  /** The validator as written accepts everything the intended one does, and
      anything more it accepts holds a character `int()` tolerates besides
      hex digits. */
  lemma AsWrittenAcceptsMore(s: string)
    ensures DefaultUuidValidator(s) ==> DefaultUuidValidatorAsWritten(s)
    ensures DefaultUuidValidatorAsWritten(s) && !DefaultUuidValidator(s) ==>
      exists i | 0 <= i < |StripHyphens(s)| :: IntTolerated(StripHyphens(s)[i])
  {
    var h := StripHyphens(s);
    if AllHex(h) {
      ParsersAgreeOnHex(s);
    } else if DefaultUuidValidatorAsWritten(s) {
      PreprocessInertOnShape(s);
      ReadHexIntCharacters(h);
      var i :| 0 <= i < |h| && !IsHexDigit(h[i]);
      assert IntTolerated(h[i]);
    }
  }

  /** A space, a '+' or a "0x" in front of hex digits whose zero-padded form
      is valid UUID text passes the validator as written, but is not UUID
      text. */
  lemma AsWrittenAcceptsPrefixedHex(lead: string, d: string)
    requires lead == " " || lead == "+" || lead == "0x"
    requires |lead| + |d| == 32 && AllHex(d)
    requires var p := ZeroPad(d, 32); 1 <= HexValue(p[12]) <= 8 && 8 <= HexValue(p[16]) <= 11
    ensures DefaultUuidValidatorAsWritten(lead + d)
    ensures !DefaultUuidValidator(lead + d)
  {
    PrefixedHexSeparates(lead, d);
    AsWrittenAcceptsNonHex(lead + d, ZeroPad(d, 32), |lead| - 1);
  }

  /** A lead-in and hex digits make a separating input for the lemma below. */
  lemma PrefixedHexSeparates(lead: string, d: string)
    requires lead == " " || lead == "+" || lead == "0x"
    requires |lead| + |d| == 32 && AllHex(d)
    requires var p := ZeroPad(d, 32); 1 <= HexValue(p[12]) <= 8 && 8 <= HexValue(p[16]) <= 11
    ensures Separating(lead + d, ZeroPad(d, 32), |lead| - 1)
  {
    ParsesPrefixedHex(lead, d);
    LeadNotHex(lead, d);
  }

  /** The last character of each lead-in is not a hex digit. */
  lemma LeadNotHex(lead: string, d: string)
    requires lead == " " || lead == "+" || lead == "0x"
    requires |lead| + |d| == 32
    ensures |lead + d| == MinUuidLength && !IsHexDigit((lead + d)[|lead| - 1])
  {
    assert (lead + d)[|lead| - 1] == lead[|lead| - 1];
  }

  /** `s` has 32 characters, a non-hex one at `i`, and the parse as written
      reads it as the digits `p`, whose version and variant fields are valid. */
  ghost predicate Separating(s: string, p: string, i: nat) {
    |s| == MinUuidLength && i < |s| && !IsHexDigit(s[i]) &&
    |p| == 32 && AllHex(p) && ParseUuidAsWritten(s) == Some(p) &&
    1 <= HexValue(p[12]) <= 8 && 8 <= HexValue(p[16]) <= 11
  }

  /** Text of 32 characters with a non-hex character, which the parse as
      written reads as digits with valid fields, separates the two validators. */
  lemma AsWrittenAcceptsNonHex(s: string, p: string, i: nat)
    requires Separating(s, p, i)
    ensures DefaultUuidValidatorAsWritten(s)
    ensures !DefaultUuidValidator(s)
  {
    DigitsWithValidFields(p);
  }

  /** The parse as written reads past the lead-in, to the zero-padded digits. */
  lemma ParsesPrefixedHex(lead: string, d: string)
    requires lead == " " || lead == "+" || lead == "0x"
    requires |lead| + |d| == 32 && AllHex(d)
    ensures ParseUuidAsWritten(lead + d) == Some(ZeroPad(d, 32))
  {
    var s := lead + d;
    assert forall i | |lead| <= i < 32 :: s[i] == d[i - |lead|];
    assert StripHyphens(s) == s;
    assert ':' !in s && !IsBrace(s[0]) && !IsBrace(s[31]);
    PreprocessIdentity(s);
    assert ParseUuidAsWritten(s) == ReadUuidDigits(s);
    if lead == " " {
      ReadsSpacedHex(d);
    } else if lead == "+" {
      ReadsSignedHex("+", d);
    } else {
      ReadsHexPrefixed(d);
    }
  }

  /** The digits of the example below: lower-case hex, 31 of them. */
  lemma PaddedExampleDigits(d: string)
    requires d == "1932c9e1a3d7" + "0008000000000000000"
    ensures |d| == 31 && AllHex(d) && LowerHex(d)
    ensures ZeroPad(d, 32)[12] == '7' && ZeroPad(d, 32)[16] == '8'
  {
    var a, b := "1932c9e1a3d7", "0008000000000000000";
    assert LowerHex(a) && LowerHex(b);
    assert forall i | |a| <= i < |d| :: d[i] == b[i - |a|];
    var p := ZeroPad(d, 32);
    assert p[1..] == d;
    assert p[12] == a[11] && p[16] == b[3];
  }

  /** " 1932c9e1a3d70008000000000000000" is the UUIDv7
      01932c9e-1a3d-7000-8000-000000000000 to the validator as written, though
      it is neither of the two UUID layouts. */
  lemma AsWrittenAcceptsPaddedUuid()
    ensures DefaultUuidValidatorAsWritten(" " + ("1932c9e1a3d7" + "0008000000000000000"))
    ensures !DefaultUuidValidator(" " + ("1932c9e1a3d7" + "0008000000000000000"))
  {
    var d := "1932c9e1a3d7" + "0008000000000000000";
    PaddedExampleDigits(d);
    AsWrittenAcceptsPrefixedHex(" ", d);
  }
}
