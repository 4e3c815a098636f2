/** Hex digits, and Python's `int(text, 16)` on ASCII text: the reader that
    `uuid.UUID` and the UUIDv7 test checker hand their text to. */
module HexInt {
  import opened Wrappers

  predicate IsHexDigit(c: char) {
    ('0' <= c <= '9') || ('a' <= c <= 'f') || ('A' <= c <= 'F')
  }

  /** The value of one hex digit, either case. */
  function HexValue(c: char): (v: nat)
    requires IsHexDigit(c)
    ensures v < 16
  {
    if '0' <= c <= '9' then c as nat - '0' as nat
    else if 'a' <= c <= 'f' then c as nat - 'a' as nat + 10
    else c as nat - 'A' as nat + 10
  }

  predicate AllHex(s: string) {
    forall i | 0 <= i < |s| :: IsHexDigit(s[i])
  }

  /** Hex digits in lower case only, as `UUID.hex` writes them. */
  predicate LowerHex(s: string) {
    forall i | 0 <= i < |s| :: ('0' <= s[i] <= '9') || ('a' <= s[i] <= 'f')
  }

  /** The whitespace `int()` skips around the digits of ASCII text (CPython's
      `Py_ISSPACE`): space and '\t' through '\r'. */
  predicate IsIntSpace(c: char) {
    c == ' ' || ('\t' <= c <= '\r')
  }

  /** The characters other than hex digits that `int(text, 16)` can accept. */
  predicate IntTolerated(c: char) {
    IsIntSpace(c) || c == '+' || c == '-' || c == 'x' || c == 'X' || c == '_'
  }

  /** The characters `int(text, 16)` can accept at all. */
  predicate IntAccepted(c: char) {
    IsHexDigit(c) || IntTolerated(c)
  }

  /** Every character of `s` is whitespace `int()` skips. */
  ghost predicate AllIntSpace(s: string) {
    forall i | 0 <= i < |s| :: IsIntSpace(s[i])
  }

  /** The leading whitespace `int()` skips: all of it, and nothing else. */
  function SkipSpace(t: string): (r: string)
    ensures |r| <= |t| && r == t[|t| - |r|..]
    ensures forall j | 0 <= j < |t| - |r| :: IsIntSpace(t[j])
    ensures r == [] || !IsIntSpace(r[0])
    decreases |t|
  {
    if |t| > 0 && IsIntSpace(t[0]) then
      var r := SkipSpace(t[1..]);
      assert t[1..][|t| - 1 - |r|..] == t[|t| - |r|..];
      assert forall j | 1 <= j < |t| - |r| :: t[j] == t[1..][j - 1];
      r
    else t
  }

  /** The trailing whitespace `int()` skips: all of it, and nothing else. */
  function SkipSpaceEnd(t: string): (r: string)
    ensures |r| <= |t| && r == t[..|r|]
    ensures forall j | |r| <= j < |t| :: IsIntSpace(t[j])
    ensures r == [] || !IsIntSpace(r[|r| - 1])
    decreases |t|
  {
    if |t| > 0 && IsIntSpace(t[|t| - 1]) then
      var r := SkipSpaceEnd(t[..|t| - 1]);
      assert forall j | |r| <= j < |t| - 1 :: t[j] == t[..|t| - 1][j];
      r
    else t
  }

  /** `t` with its underscores removed. */
  function WithoutUnderscores(t: string): (r: string)
    ensures |r| <= |t|
  {
    if |t| == 0 then []
    else if t[0] == '_' then WithoutUnderscores(t[1..])
    else [t[0]] + WithoutUnderscores(t[1..])
  }

  /** Reference definition of the digit part `int()` reads: hex digits, with
      single underscores only between two digits. */
  ghost predicate UnderscoreRun(t: string) {
    && |t| > 0
    && IsHexDigit(t[0])
    && IsHexDigit(t[|t| - 1])
    && (forall i | 0 <= i < |t| :: IsHexDigit(t[i]) || t[i] == '_')
    && (forall i, j | 0 <= i < j < |t| && j == i + 1 :: t[i] == '_' ==> t[j] != '_')
  }

  /** What follows the leading digit of a digit run and at most one
      underscore behind it. */
  function RunRest(t: string): (r: string)
    requires |t| >= 2
    ensures |r| < |t| && r == t[|t| - |r|..]
  {
    if t[1] == '_' then t[2..] else t[1..]
  }

  /** The rest of a digit run is a digit run. */
  lemma RunRestIsRun(t: string)
    requires |t| >= 2 && UnderscoreRun(t)
    ensures UnderscoreRun(RunRest(t))
  {
    var rest := RunRest(t);
    var k := |t| - |rest|;
    assert k == 2 ==> t[1] == '_' && t[2] != '_';
    assert rest[0] == t[k];
    assert rest[|rest| - 1] == t[|t| - 1];
    forall i | 0 <= i < |rest| ensures IsHexDigit(rest[i]) || rest[i] == '_' {
      assert rest[i] == t[i + k];
    }
    forall i, j | 0 <= i < j < |rest| && j == i + 1 && rest[i] == '_' ensures rest[j] != '_' {
      assert rest[i] == t[i + k] && rest[j] == t[j + k];
    }
  }

  /** A digit in front of a digit run, with at most one underscore between,
      is a digit run. */
  lemma RunFromRest(t: string)
    requires |t| >= 2 && IsHexDigit(t[0]) && UnderscoreRun(RunRest(t))
    ensures UnderscoreRun(t)
  {
    var rest := RunRest(t);
    var k := |t| - |rest|;
    assert t[|t| - 1] == rest[|rest| - 1];
    forall i | 0 <= i < |t| ensures IsHexDigit(t[i]) || t[i] == '_' {
      if i >= k {
        assert t[i] == rest[i - k];
      }
    }
    forall i, j | 0 <= i < j < |t| && j == i + 1 && t[i] == '_' ensures t[j] != '_' {
      if i >= k {
        assert t[i] == rest[i - k] && t[j] == rest[j - k];
      } else {
        assert t[j] == rest[0];
      }
    }
  }

  /** One step of the digit run: a leading digit and at most one underscore. */
  lemma UnderscoreRunStep(t: string)
    requires |t| >= 2 && IsHexDigit(t[0])
    ensures UnderscoreRun(t) <==> UnderscoreRun(RunRest(t))
    ensures WithoutUnderscores(t) == [t[0]] + WithoutUnderscores(RunRest(t))
  {
    if UnderscoreRun(t) {
      RunRestIsRun(t);
    }
    if UnderscoreRun(RunRest(t)) {
      RunFromRest(t);
    }
    WithoutUnderscoresStep(t);
  }

  /** The digits of a run are its leading digit and the digits of its rest. */
  lemma WithoutUnderscoresStep(t: string)
    requires |t| >= 2 && IsHexDigit(t[0])
    ensures WithoutUnderscores(t) == [t[0]] + WithoutUnderscores(if t[1] == '_' then t[2..] else t[1..])
  {
    var tail := t[1..];
    if tail[0] == '_' {
      assert tail[1..] == t[2..];
    }
  }

  /** The digits of a run of hex digits with single underscores between them,
      or None when the text is not such a run (empty, a leading, trailing or
      doubled underscore, any other character). */
  function DigitRun(t: string): (r: Option<string>)
    ensures r.Some? <==> UnderscoreRun(t)
    ensures r.Some? ==> r.value == WithoutUnderscores(t)
    ensures r.Some? ==> 0 < |r.value| <= |t| && AllHex(r.value)
    ensures r.Some? ==> forall i | 0 <= i < |t| :: IsHexDigit(t[i]) || t[i] == '_'
    decreases |t|
  {
    if |t| == 0 || !IsHexDigit(t[0]) then None
    else if |t| == 1 then
      assert WithoutUnderscores(t) == [t[0]] + WithoutUnderscores(t[1..]);
      Some(t)
    else
      var rest := RunRest(t);
      UnderscoreRunStep(t);
      match DigitRun(rest)
      case None => None
      case Some(d) =>
        PrependHex(t[0], d);
        Some([t[0]] + d)
  }

  lemma PrependHex(c: char, d: string)
    requires IsHexDigit(c) && AllHex(d)
    ensures AllHex([c] + d)
  {
    assert forall i | 1 <= i < |d| + 1 :: ([c] + d)[i] == d[i - 1];
  }

  predicate IsSign(c: char) {
    c == '+' || c == '-'
  }

  /** The radix prefix `int(text, 16)` allows: nothing, or "0x" or "0X",
      optionally followed by one underscore. */
  ghost predicate RadixPrefix(p: string) {
    || p == []
    || (&& (|p| == 2 || (|p| == 3 && p[2] == '_'))
        && p[0] == '0' && (p[1] == 'x' || p[1] == 'X'))
  }

  /** What may precede the digits: at most one sign, then a radix prefix. */
  ghost predicate LeadIn(p: string) {
    RadixPrefix(p) || (|p| > 0 && IsSign(p[0]) && RadixPrefix(p[1..]))
  }

  /** What follows an optional `0x`/`0X` prefix, where the prefix may be
      followed by one underscore. */
  function SkipRadixPrefix(u: string): (r: string)
    ensures |r| <= |u| && r == u[|u| - |r|..]
    ensures RadixPrefix(u[..|u| - |r|])
  {
    if |u| >= 2 && u[0] == '0' && (u[1] == 'x' || u[1] == 'X') then
      if |u| > 2 && u[2] == '_' then u[3..] else u[2..]
    else u
  }

  /** What follows an optional sign and an optional radix prefix. */
  function SkipSignAndPrefix(t: string): (r: string)
    ensures |r| <= |t| && r == t[|t| - |r|..]
    ensures LeadIn(t[..|t| - |r|])
    ensures forall j | 0 <= j < |t| - |r| :: IntAccepted(t[j])
  {
    var u := if |t| > 0 && IsSign(t[0]) then t[1..] else t;
    var r := SkipRadixPrefix(u);
    assert forall j | |t| - |u| <= j < |t| - |r| :: t[j] == u[..|u| - |r|][j - (|t| - |u|)];
    assert |t| > |u| ==> t[..|t| - |r|][1..] == u[..|u| - |r|];
    r
  }

  /** In front of a digit run, exactly the radix prefix is skipped. */
  lemma RadixPrefixDetermined(q: string, u: string)
    requires RadixPrefix(q) && UnderscoreRun(u)
    ensures SkipRadixPrefix(q + u) == u
  {
    var t := q + u;
    assert t[|q|..] == u;
    assert IsHexDigit(u[0]);
    assert |q| == 0 && |u| >= 2 ==> IsHexDigit(u[1]) || u[1] == '_';
    assert |q| == 2 ==> t[2] == u[0];
  }

  /** The lead-in is determined: in front of a digit run, exactly the
      lead-in is skipped. */
  lemma LeadInDetermined(p: string, u: string)
    requires LeadIn(p) && UnderscoreRun(u)
    ensures SkipSignAndPrefix(p + u) == u
  {
    var t := p + u;
    if |p| > 0 && IsSign(p[0]) {
      assert t[1..] == p[1..] + u;
      RadixPrefixDetermined(p[1..], u);
    } else {
      assert |t| > 0 ==> !IsSign(t[0]) by {
        if |p| == 0 { assert t[0] == u[0] && IsHexDigit(u[0]); }
      }
      RadixPrefixDetermined(p, u);
    }
  }

  /** `int(text, 16)` on ASCII text: surrounding whitespace, then an optional
      sign, then an optional `0x`/`0X` prefix that may be followed by one
      underscore, then a digit run. The digits read, or None where `int`
      raises `ValueError`. The sign is dropped: the callers here only ask
      whether the text is read, or hand over text without a '-'. */
  function ReadHexInt(text: string): (r: Option<string>)
    ensures r.Some? ==> 0 < |r.value| <= |text| && AllHex(r.value)
  {
    DigitRun(SkipSignAndPrefix(SkipSpaceEnd(SkipSpace(text))))
  }

  /** `text` is whitespace, a lead-in, a digit run and whitespace. */
  ghost predicate LiteralParts(text: string, before: string, leadIn: string, digits: string, after: string) {
    && text == before + ((leadIn + digits) + after)
    && AllIntSpace(before)
    && LeadIn(leadIn)
    && UnderscoreRun(digits)
    && AllIntSpace(after)
  }

  /** Reference definition of the text `int(text, 16)` accepts, reading the
      hex digits `d`. */
  ghost predicate HexLiteral(text: string, d: string) {
    exists before, leadIn, digits, after ::
      LiteralParts(text, before, leadIn, digits, after) && WithoutUnderscores(digits) == d
  }

  /** Whitespace skipping removes exactly the leading whitespace. */
  lemma {:induction false} SkipSpaceOver(before: string, rest: string)
    requires AllIntSpace(before)
    requires rest == [] || !IsIntSpace(rest[0])
    ensures SkipSpace(before + rest) == rest
    decreases |before|
  {
    if |before| > 0 {
      assert IsIntSpace(before[0]);
      assert (before + rest)[1..] == before[1..] + rest;
      assert AllIntSpace(before[1..]) by {
        assert forall j | 0 <= j < |before| - 1 :: before[1..][j] == before[j + 1];
      }
      SkipSpaceOver(before[1..], rest);
    } else {
      assert before + rest == rest;
    }
  }

  /** Trailing whitespace skipping removes exactly the trailing whitespace. */
  lemma {:induction false} SkipSpaceEndOver(rest: string, after: string)
    requires AllIntSpace(after)
    requires rest == [] || !IsIntSpace(rest[|rest| - 1])
    ensures SkipSpaceEnd(rest + after) == rest
    decreases |after|
  {
    if |after| > 0 {
      var shorter := after[..|after| - 1];
      assert IsIntSpace(after[|after| - 1]);
      assert (rest + after)[..|rest + after| - 1] == rest + shorter;
      assert AllIntSpace(shorter) by {
        assert forall j | 0 <= j < |shorter| :: shorter[j] == after[j];
      }
      SkipSpaceEndOver(rest, shorter);
    } else {
      assert rest + after == rest;
    }
  }

  /** Leading characters that are all whitespace. */
  lemma SpacePrefix(t: string, k: int)
    requires 0 <= k <= |t| && forall j | 0 <= j < k :: IsIntSpace(t[j])
    ensures AllIntSpace(t[..k])
  {
    assert forall j | 0 <= j < k :: t[..k][j] == t[j];
  }

  /** Trailing characters that are all whitespace. */
  lemma SpaceSuffix(t: string, k: int)
    requires 0 <= k <= |t| && forall j | k <= j < |t| :: IsIntSpace(t[j])
    ensures AllIntSpace(t[k..])
  {
    assert forall j | 0 <= j < |t| - k :: t[k..][j] == t[k + j];
  }

  /** The text `ReadHexInt` reads is rebuilt from the pieces it skips. */
  lemma Rejoin(text: string, s1: string, s2: string, u: string)
    requires |s1| <= |text| && s1 == text[|text| - |s1|..]
    requires |s2| <= |s1| && s2 == s1[..|s2|]
    requires |u| <= |s2| && u == s2[|s2| - |u|..]
    ensures text == text[..|text| - |s1|] + ((s2[..|s2| - |u|] + u) + s1[|s2|..])
  {
    assert s2 == s2[..|s2| - |u|] + u;
    assert s1 == s2 + s1[|s2|..];
    assert text == text[..|text| - |s1|] + s1;
  }

  /** The pieces the skipping functions leave form a literal. */
  lemma SkippedPiecesLiteral(text: string, s1: string, s2: string, u: string)
    requires |s1| <= |text| && s1 == text[|text| - |s1|..]
    requires forall j | 0 <= j < |text| - |s1| :: IsIntSpace(text[j])
    requires |s2| <= |s1| && s2 == s1[..|s2|]
    requires forall j | |s2| <= j < |s1| :: IsIntSpace(s1[j])
    requires |u| <= |s2| && u == s2[|s2| - |u|..] && LeadIn(s2[..|s2| - |u|])
    requires UnderscoreRun(u)
    ensures HexLiteral(text, WithoutUnderscores(u))
  {
    SpacePrefix(text, |text| - |s1|);
    SpaceSuffix(s1, |s2|);
    Rejoin(text, s1, s2, u);
    PartsLiteral(text, text[..|text| - |s1|], s2[..|s2| - |u|], u, s1[|s2|..]);
  }

  /** What `ReadHexInt` reads is a literal of the reference grammar. */
  lemma ReadHexIntSound(text: string)
    requires ReadHexInt(text).Some?
    ensures HexLiteral(text, ReadHexInt(text).value)
  {
    var s1 := SkipSpace(text);
    var s2 := SkipSpaceEnd(s1);
    var u := SkipSignAndPrefix(s2);
    assert ReadHexInt(text) == DigitRun(u);
    SkippedPiecesLiteral(text, s1, s2, u);
  }

  /** Pieces of the grammar make a literal. */
  lemma PartsLiteral(text: string, before: string, leadIn: string, digits: string, after: string)
    requires LiteralParts(text, before, leadIn, digits, after)
    ensures HexLiteral(text, WithoutUnderscores(digits))
  {
  }

  /** A literal starts and ends with something other than whitespace. */
  lemma LiteralEdges(leadIn: string, digits: string, after: string)
    requires LeadIn(leadIn) && UnderscoreRun(digits)
    ensures !IsIntSpace(((leadIn + digits) + after)[0])
    ensures !IsIntSpace((leadIn + digits)[|leadIn + digits| - 1])
  {
    assert IsHexDigit(digits[0]) && IsHexDigit(digits[|digits| - 1]);
    if |leadIn| == 0 {
      assert ((leadIn + digits) + after)[0] == digits[0];
    }
  }

  /** A digit run is read whole. */
  lemma DigitRunOfRun(u: string)
    requires UnderscoreRun(u)
    ensures DigitRun(u) == Some(WithoutUnderscores(u))
  {
  }

  /** Every literal of the reference grammar is read by `ReadHexInt`. */
  lemma ReadHexIntComplete(text: string, before: string, leadIn: string, digits: string, after: string)
    requires LiteralParts(text, before, leadIn, digits, after)
    ensures ReadHexInt(text) == Some(WithoutUnderscores(digits))
  {
    LiteralEdges(leadIn, digits, after);
    SkipSpaceOver(before, (leadIn + digits) + after);
    SkipSpaceEndOver(leadIn + digits, after);
    LeadInDetermined(leadIn, digits);
    DigitRunOfRun(digits);
  }

  /** `ReadHexInt` reads exactly the literals of the reference grammar. */
  lemma ReadHexIntMatchesLiteral(text: string, d: string)
    ensures ReadHexInt(text) == Some(d) <==> HexLiteral(text, d)
  {
    if ReadHexInt(text) == Some(d) {
      ReadHexIntSound(text);
    }
    if HexLiteral(text, d) {
      var before, leadIn, digits, after :|
        LiteralParts(text, before, leadIn, digits, after) && WithoutUnderscores(digits) == d;
      ReadHexIntComplete(text, before, leadIn, digits, after);
    }
  }

  /** Text that `int()` reads holds only hex digits and the characters it
      tolerates around and between them. */
  lemma ReadHexIntCharacters(text: string)
    requires ReadHexInt(text).Some?
    ensures forall i | 0 <= i < |text| :: IntAccepted(text[i])
  {
    var a := SkipSpace(text);
    var t := SkipSpaceEnd(a);
    var u := SkipSignAndPrefix(t);
    AcceptedSuffix(t, u);
    AcceptedPrefix(a, t);
    AcceptedSuffix(text, a);
  }

  /** One character `int()` neither reads nor tolerates makes it refuse. */
  lemma ReadHexIntRejects(text: string, c: char)
    requires c in text && !IntAccepted(c)
    ensures ReadHexInt(text).None?
  {
    if ReadHexInt(text).Some? {
      ReadHexIntCharacters(text);
    }
  }

  /** A suffix of accepted characters behind an accepted lead-in. */
  lemma AcceptedSuffix(t: string, u: string)
    requires |u| <= |t| && u == t[|t| - |u|..]
    requires forall j | 0 <= j < |t| - |u| :: IntAccepted(t[j])
    requires forall j | 0 <= j < |u| :: IntAccepted(u[j])
    ensures forall j | 0 <= j < |t| :: IntAccepted(t[j])
  {
    forall j | |t| - |u| <= j < |t| ensures IntAccepted(t[j]) {
      assert t[j] == u[j - (|t| - |u|)];
    }
  }

  /** A prefix of accepted characters before accepted trailing characters. */
  lemma AcceptedPrefix(t: string, u: string)
    requires |u| <= |t| && u == t[..|u|]
    requires forall j | |u| <= j < |t| :: IsIntSpace(t[j])
    requires forall j | 0 <= j < |u| :: IntAccepted(u[j])
    ensures forall j | 0 <= j < |t| :: IntAccepted(t[j])
  {
    forall j | 0 <= j < |u| ensures IntAccepted(t[j]) {
      assert t[j] == u[j];
    }
  }

  /** `d` written with `n` digits: left-padded with '0', the same number. */
  function ZeroPad(d: string, n: nat): (r: string)
    requires |d| <= n
    ensures |r| == n && r[n - |d|..] == d
    ensures forall i | 0 <= i < n - |d| :: r[i] == '0'
    ensures AllHex(d) ==> AllHex(r)
  {
    var r := seq(n - |d|, _ => '0') + d;
    assert forall i | n - |d| <= i < n :: r[i] == d[i - (n - |d|)];
    r
  }

  /** A run of hex digits alone is read as itself. */
  lemma DigitRunOfHex(t: string)
    requires 0 < |t| && AllHex(t)
    ensures DigitRun(t) == Some(t)
  {
    assert UnderscoreRun(t);
    WithoutUnderscoresOfHex(t);
  }

  /** Hex digits have no underscores to remove. */
  lemma {:induction false} WithoutUnderscoresOfHex(t: string)
    requires AllHex(t)
    ensures WithoutUnderscores(t) == t
    decreases |t|
  {
    if |t| > 0 {
      assert t[0] != '_';
      WithoutUnderscoresOfHex(t[1..]);
      assert [t[0]] + t[1..] == t;
    }
  }

  /** Non-empty hex digits are a digit run with nothing to remove. */
  lemma HexIsRun(d: string)
    requires 0 < |d| && AllHex(d)
    ensures UnderscoreRun(d) && WithoutUnderscores(d) == d
  {
    WithoutUnderscoresOfHex(d);
  }

  lemma BareParts(d: string)
    ensures d == [] + (([] + d) + [])
  {
  }

  lemma SpacedParts(before: string, d: string)
    ensures before + d == before + (([] + d) + [])
  {
  }

  lemma LeadInParts(leadIn: string, d: string)
    ensures leadIn + d == [] + ((leadIn + d) + [])
  {
  }

  /** Plain hex text is read as exactly its own digits. */
  lemma ReadsPlainHex(t: string)
    requires 0 < |t| && AllHex(t)
    ensures ReadHexInt(t) == Some(t)
  {
    HexIsRun(t);
    BareParts(t);
    ReadHexIntComplete(t, [], [], t, []);
  }

  /** `int()` reads past one leading space. */
  lemma ReadsSpacedHex(d: string)
    requires 0 < |d| && AllHex(d)
    ensures ReadHexInt(" " + d) == Some(d)
  {
    HexIsRun(d);
    SpacedParts(" ", d);
    ReadHexIntComplete(" " + d, " ", [], d, []);
  }

  /** `int()` reads past a leading sign. */
  lemma ReadsSignedHex(sign: string, d: string)
    requires sign == "+" || sign == "-"
    requires 0 < |d| && AllHex(d)
    ensures ReadHexInt(sign + d) == Some(d)
  {
    assert LeadIn(sign) by {
      assert RadixPrefix(sign[1..]);
    }
    HexIsRun(d);
    LeadInParts(sign, d);
    ReadHexIntComplete(sign + d, [], sign, d, []);
  }

  /** `int()` reads past a leading "0x". */
  lemma ReadsHexPrefixed(d: string)
    requires 0 < |d| && AllHex(d)
    ensures ReadHexInt("0x" + d) == Some(d)
  {
    assert LeadIn("0x");
    HexIsRun(d);
    LeadInParts("0x", d);
    ReadHexIntComplete("0x" + d, [], "0x", d, []);
  }
}
