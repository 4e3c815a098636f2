# falcon-correlate, modelled in Dafny

A model of the request-entry core of `falcon-correlate`, a Falcon middleware
that gives every request a correlation id. It covers:

- the default UUID validator (`default_uuid_validator`, with
  `_has_valid_hyphen_placement`);
- the construction of `CorrelationIDConfig` (header and trusted-source
  validation, CIDR parsing, `from_kwargs`) and of `CorrelationIDMiddleware`
  (`config=` versus keyword arguments);
- the request decision of `process_request`, which is header extraction, the
  trusted-source check, the optional validator, and the choice between the
  incoming id and one generator call;
- the test-side UUIDv7 checker `assert_uuid7_hex`;
- the structlog processor `inject_correlation_context`.

Modules follow the program's structure:

| file | module | models |
|---|---|---|
| `wrappers.dfy` | `Wrappers` | `Option` and `Result` |
| `text.dfy` | `Text` | `str.strip()` whitespace, blankness, ASCII case mapping |
| `hex_int.dfy` | `HexInt` | `int(text, 16)` on ASCII text |
| `uuid_text.dfy` | `UuidText` | `default_uuid_validator` and the parse it relies on |
| `uuid7_check.dfy` | `Uuid7Check` | `assert_uuid7_hex` |
| `networks.dfy` | `Networks` | IP networks and CIDR matching |
| `config.dfy` | `Config` | `CorrelationIDConfig`, `from_kwargs`, `CorrelationIDMiddleware.__init__` |
| `middleware.dfy` | `Middleware` | `_get_incoming_header_value`, `_is_trusted_source`, `_is_valid_id`, `process_request` |
| `log_context.dfy` | `LogContext` | `inject_correlation_context` |

Exceptions are values:

- `ValueError` and `TypeError` from construction become `Config.ConfigError`.
- Each `AssertionError` of the UUIDv7 checker is a `Uuid7Check.Uuid7Failure`.
- A refused parse is `None`.

Parsing an IP address or CIDR string is a function parameter of the model
(`string -> SourceSyntax`, `string -> Option<Address>`). What the model does
with the parsed result is stated in full:

- networks are masked with the prefix;
- host bits set are rejected;
- containment compares the network part;
- an address never matches a network of the other family.

Networks follow the prefix notation of section 3.1 of RFC 4632 (IPv4) and
section 2.3 of RFC 4291 (IPv6): an address, a '/' and a prefix length. In the
model an address is an integer tagged with its family.

The value the generator would return is an input of `ProcessRequest`. The
outcome records how many times the generator and the validator were called,
and whether the debug message about a rejected id was logged.

Two behaviours of the code are worth stating, because the repository's own
tests or documentation expect otherwise. The model follows the code in both:

- `_is_valid_id` (src/falcon_correlate/middleware.py:486-488) returns the
  validator's answer and has no `try`/`except`, so an exception raised by the
  validator propagates out of `process_request`. The test at
  src/falcon_correlate/unittests/test_validation_integration.py:164-196
  expects a raising validator to be treated as a rejection, so that the
  generated id is used. Validators are modelled as total functions returning
  a boolean, so the raising case is not represented.
- `process_request` (src/falcon_correlate/middleware.py:514-526) stores the id only in
  `req.context.correlation_id`. `process_response` has no body beyond its
  docstring.

The unit tests at src/falcon_correlate/unittests/test_uuid_validator.py:47-53 expect the nil and max
UUIDs to be accepted. The code rejects both: their variant is not the RFC 4122
variant, so `parsed.version` is `None`. The model follows the code, and
`UuidText.RejectsNilAndMax` states the rejection.

The UUID layout follows section 4 of RFC 9562:

- the version is hex digit 12;
- the variant is hex digit 16, which must be 8, 9, a or b;
- in the hyphenated 8-4-4-4-12 form these two digits sit at indices 14 and 19.

## Model

| member | source | states |
|---|---|---|
| Text.TrimStart | src/falcon_correlate/middleware.py:434 | the left half of `strip()`: the result is a suffix of the input; every dropped character is whitespace; the result does not start with whitespace |
| Text.TrimEnd | src/falcon_correlate/middleware.py:434 | the right half of `strip()`: the result is a prefix of the input; every dropped character is whitespace; the result does not end with whitespace |
| Text.Strip | src/falcon_correlate/middleware.py:434 | a stripped value is empty or neither begins nor ends with whitespace |
| Text.StripIsInfix | src/falcon_correlate/middleware.py:434 | `strip()` removes surrounding whitespace only: its result is an infix `s[a..b]` with whitespace on both sides |
| Text.BlankIffAllSpace | src/falcon_correlate/middleware.py:173 | `not s or not s.strip()` holds exactly when every character of `s` is whitespace |
| Text.StripKeepsTrimmed | src/falcon_correlate/middleware.py:434 | text with no surrounding whitespace is unchanged by `strip()` |
| Text.Lower | src/falcon_correlate/unittests/uuid7_helpers.py:23 | `lower()` keeps the length and maps each character on its own |
| Text.LowerUnchangedIff | src/falcon_correlate/unittests/uuid7_helpers.py:23 | `value == value.lower()` exactly when the value has no upper-case ASCII letter |
| Text.StripIdempotent | src/falcon_correlate/middleware.py:434 | stripping twice is stripping once |
| HexInt.DigitRun | src/falcon_correlate/unittests/uuid7_helpers.py:26-27 | the digit part is read exactly when it is hex digits with single underscores between digits (no leading, trailing or doubled underscore); the value is those digits without the underscores, non-empty hex |
| HexInt.DigitRunOfHex | src/falcon_correlate/unittests/uuid7_helpers.py:26-27 | a non-empty run of hex digits reads as itself |
| HexInt.SkipSpace | src/falcon_correlate/unittests/uuid7_helpers.py:26-27 | `int()` skips all leading ASCII whitespace and nothing else: the rest is a suffix, every dropped character is whitespace, and the rest does not start with whitespace |
| HexInt.SkipSpaceEnd | src/falcon_correlate/unittests/uuid7_helpers.py:26-27 | `int()` skips all trailing ASCII whitespace and nothing else: the rest is a prefix, every dropped character is whitespace, and the rest does not end with whitespace |
| HexInt.SkipSignAndPrefix | src/falcon_correlate/unittests/uuid7_helpers.py:26-27 | what is skipped before the digits is a lead-in: an optional sign, then nothing or `0x`/`0X` with at most one underscore |
| HexInt.LeadInDetermined | src/falcon_correlate/unittests/uuid7_helpers.py:26-27 | after any lead-in the skipped part is exactly the lead-in: a digit run behind it is left whole |
| HexInt.ReadHexInt | src/falcon_correlate/unittests/uuid7_helpers.py:26-30 | when `int(text, 16)` succeeds it yields a non-empty hex digit string no longer than the text |
| HexInt.ReadHexIntMatchesLiteral | src/falcon_correlate/unittests/uuid7_helpers.py:26-30 | `int(text, 16)` reads the digits d exactly when the text is whitespace, a lead-in, a digit run whose digits are d, and whitespace |
| HexInt.ReadHexIntComplete | src/falcon_correlate/unittests/uuid7_helpers.py:26-30 | every text of that shape is read, as the run's digits without underscores |
| HexInt.ReadHexIntRejects | src/falcon_correlate/unittests/uuid7_helpers.py:26-30 | a character `int()` does not accept anywhere in the text makes it fail |
| HexInt.ReadHexIntCharacters | src/falcon_correlate/unittests/uuid7_helpers.py:26-30 | text that `int(text, 16)` reads holds only hex digits, ASCII whitespace, signs, `x`/`X` and underscores |
| HexInt.ZeroPad | src/falcon_correlate/middleware.py:114 | the 128-bit value written as 32 digits: length n, the original digits at the end, zeros in front, hex preserved |
| HexInt.ReadsPlainHex | src/falcon_correlate/unittests/uuid7_helpers.py:26-27 | plain hex text is read as exactly its own digits |
| HexInt.ReadsSpacedHex | src/falcon_correlate/unittests/uuid7_helpers.py:26-27 | a leading space is skipped and the digits read unchanged |
| HexInt.ReadsSignedHex | src/falcon_correlate/unittests/uuid7_helpers.py:26-27 | a leading `+` or `-` is skipped and the digits read unchanged |
| HexInt.ReadsHexPrefixed | src/falcon_correlate/unittests/uuid7_helpers.py:26-27 | a leading `0x` is skipped and the digits read unchanged |
| UuidText.HyphenScan | src/falcon_correlate/middleware.py:55-64 | the scan from index i returns true exactly when every later index holds a hyphen if and only if it is 8, 13, 18 or 23 |
| UuidText.HasValidHyphenPlacement | src/falcon_correlate/middleware.py:55-64 | true exactly when the hyphens are at indices 8, 13, 18, 23 and nowhere else |
| UuidText.StripHyphens | src/falcon_correlate/middleware.py:114 | removing hyphens never lengthens the text; the length is kept exactly when there is no hyphen, and then the text is unchanged |
| UuidText.StripHyphensMembers | src/falcon_correlate/middleware.py:114 | after removing hyphens the characters are those of the input other than '-' |
| UuidText.StripCanonical | src/falcon_correlate/middleware.py:109-114 | a canonically hyphenated string loses exactly its four hyphens, with the five groups kept in order |
| UuidText.RemoveAll | src/falcon_correlate/middleware.py:113 | `str.replace(pat, '')` never lengthens the text, adds no character, and leaves text without the pattern unchanged |
| UuidText.RemoveAllLeftmost | src/falcon_correlate/middleware.py:113 | at the first occurrence of the pattern, the text before it is kept, the occurrence is dropped and the scan resumes after it; with the no-occurrence clause above this determines the result |
| UuidText.BracedParses | src/falcon_correlate/middleware.py:113 | `uuid.UUID("{" + c + "}")` parses as `uuid.UUID(c)` for text c of hex digits and hyphens |
| UuidText.UrnParses | src/falcon_correlate/middleware.py:113 | `uuid.UUID("urn:uuid:" + c)` parses as `uuid.UUID(c)` for text c of hex digits and hyphens |
| UuidText.StripBracesStart | src/falcon_correlate/middleware.py:113 | the leading half of `strip('{}')`: all leading braces go and nothing else |
| UuidText.StripBracesEnd | src/falcon_correlate/middleware.py:113 | the trailing half of `strip('{}')`: all trailing braces go and nothing else |
| UuidText.PreprocessIdentity | src/falcon_correlate/middleware.py:113 | text with no ':' and no brace at either end passes the "urn:"/"uuid:"/brace removal unchanged |
| UuidText.PreprocessShrinks | src/falcon_correlate/middleware.py:113 | when the removal changes the text, fewer non-hyphen characters remain |
| UuidText.MarkerBlocksRead | src/falcon_correlate/middleware.py:113-116 | a ':' or a brace anywhere makes the hex read of the de-hyphenated text fail |
| UuidText.PreprocessInertOnShape | src/falcon_correlate/middleware.py:100-116 | on the 32- and 36-character strings the validator parses, the "urn:"/"uuid:"/brace removal never changes the parse outcome |
| UuidText.ReadUuidDigits | src/falcon_correlate/middleware.py:113-116 | the digits are read exactly when there are 32 characters and `int()` reads them; they are the digits `int()` read, zero-padded to 32 |
| UuidText.ReadUuidDigitsMatchesLiteral | src/falcon_correlate/middleware.py:113-116 | the last step yields p exactly when the text is 32 characters forming an `int()` hex literal whose digits, zero-padded to 32, are p |
| UuidText.ParseUuid | src/falcon_correlate/middleware.py:113-116 | an intended parse yields 32 hex digits |
| UuidText.ParseUuidAsWritten | src/falcon_correlate/middleware.py:113-116 | a successful parse as CPython runs it yields 32 hex digits |
| UuidText.ParseUuidAsWrittenMatchesLiteral | src/falcon_correlate/middleware.py:113-116 | the parse as written yields p exactly when the text left after removing "urn:", "uuid:", braces and hyphens is a literal for p; it yields nothing, where `uuid.UUID` raises `ValueError`, exactly when there is no such p |
| UuidText.VariantOf | src/falcon_correlate/middleware.py:119 | the variant is RFC 4122 exactly when the nibble is 8 through 11 |
| UuidText.VersionOf | src/falcon_correlate/middleware.py:119 | `UUID.version` exists exactly for the RFC 4122 variant and is then hex digit 12 |
| UuidText.ShapeAccepted | src/falcon_correlate/middleware.py:95-111 | the early exits let through exactly the 32-character strings and the 36-character strings with canonical hyphens |
| UuidText.VersionAccepted | src/falcon_correlate/middleware.py:113-119 | the version check passes exactly on parsed digits with variant digit 8..b and version digit 1..8; a failed parse never passes |
| UuidText.VersionInRange | src/falcon_correlate/middleware.py:52 | `_VALID_UUID_VERSIONS` is the range 1..8 |
| UuidText.DigitsWithValidFields | src/falcon_correlate/middleware.py:118-119 | digits with version 1..8 and variant 8..b pass the version check |
| UuidText.DefaultUuidValidator | src/falcon_correlate/middleware.py:95-119 | accepted strings have length 32 or 36; a 36-character one has canonical hyphens; a 32-character one is all hex |
| UuidText.DefaultUuidValidatorAsWritten | src/falcon_correlate/middleware.py:95-119 | as CPython runs it: accepted strings have length 32 or 36, and a 36-character one has canonical hyphens |
| UuidText.ValidatorAsWrittenMatchesLiteral | src/falcon_correlate/middleware.py:95-119 | the validator as written accepts exactly the strings of the intended shape whose hyphen-free text is an `int()` literal with zero-padded digits of version 1..8 and variant 8..b |
| UuidText.ValidatorMatchesLayout | src/falcon_correlate/middleware.py:67-119 | the validator accepts exactly the reference layouts: 32 hex digits, or canonical 8-4-4-4-12, either with version 1..8 and the RFC 4122 variant |
| UuidText.HexOnlyLayout | src/falcon_correlate/middleware.py:100-119 | for 32 characters, acceptance is exactly the hex-only reference layout |
| UuidText.HyphenatedLayout | src/falcon_correlate/middleware.py:109-119 | for 36 characters, acceptance is exactly the hyphenated reference layout |
| UuidText.CanonicalHexDigits | src/falcon_correlate/middleware.py:109-116 | with canonical hyphens the hyphen-free text is all hex exactly when every non-hyphen index holds a hex digit |
| UuidText.ValidatorIgnoresCase | src/falcon_correlate/middleware.py:71 | lower-casing or upper-casing the input does not change acceptance |
| UuidText.LayoutIgnoresCase | src/falcon_correlate/middleware.py:71 | strings equal up to letter case are both UUID text or both not |
| UuidText.RejectsOtherLengths | src/falcon_correlate/middleware.py:95-107 | every length other than 32 and 36 is rejected, the empty string included |
| UuidText.RejectsMisplacedHyphen | src/falcon_correlate/middleware.py:109-111 | a 36-character string with a hyphen missing, added or moved is rejected |
| UuidText.AcceptedHasVersionAndVariant | src/falcon_correlate/middleware.py:113-119 | an accepted string's digits are 32 hex with version 1..8 and the RFC 4122 variant |
| UuidText.RejectsOtherVariants | src/falcon_correlate/middleware.py:118-119 | a 36-character string whose variant digit is outside 8..b is rejected |
| UuidText.RejectsNilAndMax | src/falcon_correlate/middleware.py:118-119 | the nil and max UUIDs are rejected |
| UuidText.ParsersAgreeOnHex | src/falcon_correlate/middleware.py:113-116 | where the hyphen-free text is hex, the parse as written and the intended parse agree |
| UuidText.AsWrittenAcceptsMore | src/falcon_correlate/middleware.py:113-119 | the validator as written accepts all the intended one does; anything extra holds a non-hex character that `int()` tolerates |
| UuidText.ParsesPrefixedHex | src/falcon_correlate/middleware.py:113-116 | a space, `+` or `0x` in front of hex digits parses as the zero-padded digits |
| UuidText.AsWrittenAcceptsNonHex | src/falcon_correlate/middleware.py:113-119 | 32 characters with a non-hex one, parsed as written into valid fields, pass the validator as written and fail the intended one |
| UuidText.AsWrittenAcceptsPrefixedHex | src/falcon_correlate/middleware.py:113-119 | a space, `+` or `0x` before hex digits that pad to valid fields is accepted as written and is not UUID text |
| UuidText.AsWrittenAcceptsPaddedUuid | src/falcon_correlate/middleware.py:113-119 | `" 1932c9e1a3d70008000000000000000"` passes the validator as written and fails the intended one |
| Uuid7Check.PropertiesFailure | src/falcon_correlate/unittests/uuid7_helpers.py:33-49 | a failed parse is reported as such; no failure exactly when version digit is 7 and variant digit is 8..b; the variant assertion can never be the one that fires, since `version` is None off the RFC 4122 variant |
| Uuid7Check.CheckUuid7Hex | src/falcon_correlate/unittests/uuid7_helpers.py:18-57 | a length other than 32 fails first; then a value that is not lower case fails the case check |
| Uuid7Check.CheckUuid7HexAsWritten | src/falcon_correlate/unittests/uuid7_helpers.py:18-57 | the same first two failures, with `int()` and `uuid.UUID(hex=...)` as CPython runs them |
| Uuid7Check.CheckAsWrittenMatchesLiteral | src/falcon_correlate/unittests/uuid7_helpers.py:18-57 | the checker as written passes exactly the 32-character lower-case strings without '-' that form an `int()` literal whose zero-padded digits have version 7 and variant 8..b |
| Uuid7Check.CheckMatchesReference | src/falcon_correlate/unittests/uuid7_helpers.py:18-57 | the checker passes exactly 32 lower-case hex digits with version digit 7 and variant digit 8, 9, a or b |
| Uuid7Check.RejectsUppercase | src/falcon_correlate/unittests/uuid7_helpers.py:23-25 | an upper-case letter fails the lower-case check |
| Uuid7Check.RejectsNonHex | src/falcon_correlate/unittests/uuid7_helpers.py:26-30 | a lower-case 32-character value with a non-hex character fails the hex check |
| Uuid7Check.RejectsOtherVersions | src/falcon_correlate/unittests/uuid7_helpers.py:44-46 | hex digits whose version digit is not 7 fail the version check |
| Uuid7Check.AcceptedHasRfc4122Variant | src/falcon_correlate/unittests/uuid7_helpers.py:47-49 | an accepted value carries the RFC 4122 variant |
| Uuid7Check.LaterChecksUnreachable | src/falcon_correlate/unittests/uuid7_helpers.py:33-49 | with the intended hex check, the parse and the variant assertions can never fire |
| Uuid7Check.Uuid7AcceptedByValidator | src/falcon_correlate/unittests/uuid7_helpers.py:52-57 | every value the UUIDv7 checker passes, the default validator accepts |
| Uuid7Check.Uuid7DigitsPass | src/falcon_correlate/unittests/uuid7_helpers.py:42-49 | digits with version 7 and variant digit 8 pass both property checks |
| Uuid7Check.AsWrittenAgreesOnHex | src/falcon_correlate/unittests/uuid7_helpers.py:26-39 | on hex text the checker as written and the intended one agree |
| Uuid7Check.LowerOfLowerText | src/falcon_correlate/unittests/uuid7_helpers.py:23 | lower-case hex with spaces and hyphens is its own lower-case form |
| Uuid7Check.LowerPadded | src/falcon_correlate/unittests/uuid7_helpers.py:23 | a space or '-' before lower-case hex keeps it lower case |
| Uuid7Check.LeadFailsHexCheck | src/falcon_correlate/unittests/uuid7_helpers.py:18-30 | a space or '-' before 31 lower-case digits fails the intended hex check |
| Uuid7Check.HyphenLeadParsesShort | src/falcon_correlate/unittests/uuid7_helpers.py:35-39 | `uuid.UUID` drops a leading '-' and then finds 31 characters, so it raises |
| Uuid7Check.AsWrittenAcceptsSpacedUuid7 | src/falcon_correlate/unittests/uuid7_helpers.py:26-39 | a space before 31 lower-case digits that pad to a UUIDv7 passes as written and fails the intended hex check |
| Uuid7Check.AsWrittenAcceptsPaddedUuid7 | src/falcon_correlate/unittests/uuid7_helpers.py:26-39 | `" 1932c9e1a3d70008000000000000000"` passes the checker as written |
| Uuid7Check.AsWrittenParseFailureReachable | src/falcon_correlate/unittests/uuid7_helpers.py:26-39 | as written, '-' before 31 lower-case digits passes the hex check and fails the parse; the intended check refuses it as not hex |
| Networks.ClearLowBits | src/falcon_correlate/middleware.py:231 | masking lowers the value by less than 2^k, leaves the low k bits zero, and is the identity on values already masked |
| Networks.ClearLowBitsUnique | src/falcon_correlate/middleware.py:231 | those properties fix the result: a value with zero low bits at most 2^k - 1 below v is the masked v |
| Networks.ContainsIffInRange | src/falcon_correlate/middleware.py:466 | an address is in a well-formed network exactly when it is of the same family and lies in the network's 2^(width - prefix) addresses from the network address on |
| Networks.ParseNetwork | src/falcon_correlate/middleware.py:230-248 | a parsed network is well formed; malformed text or an oversized prefix is an invalid-notation error; a bare address is a full-width network |
| Networks.BareAddressIsSingleHost | src/falcon_correlate/middleware.py:231 | a bare address becomes a network that contains that address and no other |
| Networks.CidrAcceptance | src/falcon_correlate/middleware.py:230-248 | CIDR is accepted iff the prefix fits and no host bit is set; otherwise the error is host bits set; an accepted network starts at the written address and contains it |
| Networks.AnyContains | src/falcon_correlate/middleware.py:466 | true exactly when some network contains the address |
| Networks.OtherFamilyNeverMatches | src/falcon_correlate/middleware.py:466 | networks of the other family never match |
| Networks.AnyContainsOrderIndependent | src/falcon_correlate/middleware.py:466 | the order of the network list does not change the answer |
| Networks.Ipv4ParseExample | src/falcon_correlate/unittests/test_trusted_sources.py:44 | 10.0.0.0/24 parses to that network |
| Networks.Ipv4HostBitsExample | src/falcon_correlate/unittests/test_trusted_sources.py:161-163 | 10.0.0.5/24 is refused for host bits set |
| Networks.Ipv4ContainsExample | src/falcon_correlate/unittests/test_trusted_sources.py:42-45 | 10.0.0.0/24 contains 10.0.0.50 |
| Networks.Ipv4ExcludesExample | src/falcon_correlate/unittests/test_trusted_sources.py:47-50 | 10.0.0.0/24 does not contain 10.0.1.1 |
| Config.ParseTrustedSources | src/falcon_correlate/middleware.py:177-190 | success yields one network per source |
| Config.ParseTrustedSourcesSucceeds | src/falcon_correlate/middleware.py:184-187 | parsing succeeds exactly when every source is non-blank and parses |
| Config.ParseTrustedSourcesParsed | src/falcon_correlate/middleware.py:184-190 | on success network i is the well-formed parse of source i |
| Config.ParseSingleSource | src/falcon_correlate/middleware.py:184-190 | one usable source gives a one-network list |
| Config.NewConfig | src/falcon_correlate/middleware.py:164-190 | an all-whitespace header name fails; construction succeeds iff the header is non-blank and every source is usable; the result keeps the given fields and satisfies the configuration invariant |
| Config.Dedup | src/falcon_correlate/middleware.py:300 | `frozenset(...)` keeps exactly the same members with no repeats |
| Config.Keys | src/falcon_correlate/middleware.py:387 | each parameter name is a key exactly when that keyword was passed; any other name is a key exactly when it is an extra keyword; no keys exactly when nothing was passed |
| Config.FromKwargs | src/falcon_correlate/middleware.py:263-305 | an unexpected keyword is a `TypeError`; otherwise defaults apply, sources keep their members, and the result satisfies the configuration invariant; with no unexpected keyword, construction succeeds exactly when the header name is not blank and every given source parses |
| Config.NewMiddleware | src/falcon_correlate/middleware.py:374-391 | `config=` with keywords is a `ValueError`; `config=` alone is kept; unknown keywords are a `TypeError` naming them; the middleware's configuration always satisfies the invariant; without `config=` and with only known keywords, it succeeds exactly when `from_kwargs` does |
| Config.ParsedNetworksKeywordRejectedLate | src/falcon_correlate/middleware.py:309-311 | `_parsed_networks` passes the unknown-key check and is then refused by `from_kwargs` |
| Config.UnknownKeywordRejected | src/falcon_correlate/middleware.py:387-390 | a keyword naming no field fails and is named in the error |
| Config.KeywordAndConfigFormsAgree | src/falcon_correlate/middleware.py:381-391 | keywords that build a configuration give the same middleware as passing that configuration |
| Config.DefaultsConstruct | src/falcon_correlate/middleware.py:152-156 | with no keywords the defaults apply and construction succeeds with no networks |
| Middleware.IncomingHeaderValue | src/falcon_correlate/middleware.py:424-438 | a missing or all-whitespace header gives nothing; otherwise the stripped value, non-empty and trimmed |
| Middleware.IsTrustedSource | src/falcon_correlate/middleware.py:440-466 | trusted exactly when the address is present, non-empty, parses, and lies in some configured network |
| Middleware.IsValidId | src/falcon_correlate/middleware.py:468-488 | with no validator every id is valid; otherwise the validator's answer decides |
| Middleware.ProcessRequest | src/falcon_correlate/middleware.py:490-526 | at most one generator and one validator call; a generator call stores the generated id; without one the stored id is the incoming value |
| Middleware.ExactlyOneSource | src/falcon_correlate/middleware.py:514-526 | the incoming id is stored with no generator call exactly when it is present, trusted and valid; otherwise the generated id, from one call |
| Middleware.ValidatorCalledOnlyWhenReached | src/falcon_correlate/middleware.py:468-488 | the validator runs exactly when a trimmed header comes from a trusted source and a validator is configured |
| Middleware.DebugLoggedOnRejection | src/falcon_correlate/middleware.py:517-524 | the debug message is logged exactly when the validator rejects, and then the generated id is stored |
| Middleware.GeneratesWhenAbsentOrUntrusted | src/falcon_correlate/middleware.py:525-526 | a missing or blank header, or an untrusted source, always gives one generator call and no validator call |
| Middleware.IncomingIdIsTrimmed | src/falcon_correlate/middleware.py:434-438 | a stored incoming id is the stripped header: non-empty with no surrounding whitespace |
| Middleware.DefaultValidatorStoresUuids | src/falcon_correlate/middleware.py:514-526 | with the default validator and a UUIDv7 generator, every stored id passes the validator |
| Middleware.SingleTrustedSource | src/falcon_correlate/middleware.py:185-190 | trusting 127.0.0.1 yields the single network 127.0.0.1/32 |
| Middleware.TrustedHeaderKeptVerbatim | src/falcon_correlate/middleware.py:514-518 | with no validator, a trimmed header from a trusted source is stored as is and nothing is called |
| Middleware.LoopbackTrusted | src/falcon_correlate/middleware.py:460-466 | 127.0.0.1 is trusted when 127.0.0.1/32 is configured |
| Middleware.UntrustedOrBlankHeaderGenerates | src/falcon_correlate/middleware.py:516-526 | an untrusted source, or a whitespace-only header, gets the generated id |
| Middleware.RejectingValidatorFallsBack | src/falcon_correlate/middleware.py:517-524 | a validator that rejects everything makes a trusted request take the generated id and log |
| LogContext.ValueOrPlaceholder | src/falcon_correlate/unittests/test_structlog_integration.py:42-43 | `value or "-"`: never empty, a non-empty value is kept, and None or "" gives "-" |
| LogContext.SetDefault | src/falcon_correlate/unittests/test_structlog_integration.py:42-43 | `setdefault` adds the key only if absent and keeps every existing entry |
| LogContext.InjectCorrelationContext | src/falcon_correlate/unittests/test_structlog_integration.py:30-44 | the keys become those of the event dict plus `correlation_id` and `user_id`; existing entries are kept; a missing entry takes its own context value or "-" |
| LogContext.InjectPreservesEntries | src/falcon_correlate/unittests/test_structlog_integration.py:42-44 | the keys added are exactly `correlation_id` and `user_id`; existing entries are kept |
| LogContext.InjectFillsMissing | src/falcon_correlate/unittests/test_structlog_integration.py:42-44 | a missing entry takes its own context value, or "-" when that is None or empty |
| LogContext.InjectIdempotent | src/falcon_correlate/unittests/test_structlog_integration.py:42-44 | running the processor again changes nothing |
| LogContext.PlaceholdersWhenUnset | src/falcon_correlate/unittests/test_structlog_integration.py:42-44 | with nothing bound and no context values, both fields read "-" |

## Left out

- `default_uuid7_generator` (middleware.py:24-42) reads the clock and randomness. The value it returns is an input of `Middleware.ProcessRequest`.
- `ipaddress.ip_network` and `ipaddress.ip_address` text parsing is a function parameter. Only what the code does with the parsed value is modelled.
- HexInt.ReadHexInt: models `int(text, 16)` on ASCII text only. The non-ASCII whitespace and Unicode decimal digits that `int()` also accepts are not modelled. The sign is dropped, because no caller here reads the number's sign.
- UuidText.ParseUuidAsWritten: models the ASCII text `uuid.UUID` sees. The removal of "urn:", "uuid:" and braces is written out as `UuidText.Preprocess`. On the strings the validator passes to `uuid.UUID` it never changes the outcome (`UuidText.PreprocessInertOnShape`). On other strings it does change the outcome: `"{" + c + "}"` and `"urn:uuid:" + c` parse as c does (`UuidText.BracedParses`, `UuidText.UrnParses`).
- UuidText.DefaultUuidValidator: parses with a strict hex check, which is what the validator is meant to accept, not what CPython's `int()` accepts. The validator as CPython runs it is `UuidText.DefaultUuidValidatorAsWritten`, and the difference is the first finding below.
- Text.Lower: covers ASCII letters only. Python's `str.lower()` maps all Unicode letters.
- The callable checks `_validate_generator` and `_validate_validator` (middleware.py:250-260) cannot fail in the model, because the types enforce them.
- Python's dynamic keyword types are not modelled: a non-string header or a non-iterable `trusted_sources` cannot be expressed.
- The debug log call is recorded as a flag in the outcome. Its message text and the logger are not modelled.
- `process_response` (middleware.py:528-553) is left out, because its body is only its docstring.
- The context variables and the `ContextualLogFilter` are not part of this model, and neither is any source file that defines them.
- `inject_correlation_context` reads the context variables. Their values are parameters, and event-dict values are modelled as strings.
- Concurrency and Falcon's case-insensitive `get_header` lookup are left out. The header's value, as `get_header` returns it, is an input.
- Config.Dedup: lists the members of `frozenset(trusted_sources)` in first-occurrence order. CPython iterates a frozenset of strings in hash order, which varies between runs.
- Config.FromKwargs: validates the sources in `Config.Dedup`'s order. When several sources are invalid, CPython may report a different one than the model does. The members of the source set, and whether construction fails, do not depend on the order.
- Generator exceptions propagate in the code (middleware.py:507-511). The model's generator value is total, so such exceptions are not represented.

## Findings

| source | as written | input that shows it | evidently intended | confidence | as-written member | corrected member |
|---|---|---|---|---|---|---|
| src/falcon_correlate/middleware.py:113-119 | the hex check is `int(hex, 16)` inside `uuid.UUID`, which also accepts surrounding whitespace, a sign, a `0x` prefix and underscores | `" 1932c9e1a3d70008000000000000000"` (32 characters) is accepted as the UUIDv7 01932c9e-1a3d-7000-8000-000000000000 | accept only the two UUID layouts: 32 hex digits, or the canonical 8-4-4-4-12 form | high; not executed | UuidText.AsWrittenAcceptsPaddedUuid | UuidText.ValidatorMatchesLayout |
| src/falcon_correlate/unittests/uuid7_helpers.py:26-39 | the hex check is `int(value, 16)` and the parse is `uuid.UUID(hex=value)` | `" 1932c9e1a3d70008000000000000000"` passes as a UUIDv7 hex string; `"-"` followed by 31 lower-case hex digits fails with the parse message instead of the hexadecimal one | pass only 32 lower-case hex digits, and report any other character as not hexadecimal | high; not executed | Uuid7Check.AsWrittenAcceptsPaddedUuid7 | Uuid7Check.CheckMatchesReference |

Details of the two findings:

- The validator as written is `UuidText.DefaultUuidValidatorAsWritten`.
  `UuidText.AsWrittenAcceptsPrefixedHex` generalises the finding to a space,
  `+` or `0x` in front of the digits. `UuidText.AsWrittenAcceptsMore` shows
  that every extra string it accepts holds such a tolerated character.
  `UuidText.ValidatorAsWrittenMatchesLiteral` states exactly what it accepts. The rest
  of the model, including `Middleware.DefaultValidatorStoresUuids`, uses the
  corrected `UuidText.DefaultUuidValidator`.
- The checker as written is `Uuid7Check.CheckUuid7HexAsWritten`.
  `Uuid7Check.AsWrittenParseFailureReachable` shows the parse assertion firing.
  `Uuid7Check.CheckAsWrittenMatchesLiteral` states exactly what it passes.
  The corrected checker is `Uuid7Check.CheckUuid7Hex`.
  `Uuid7Check.LaterChecksUnreachable` proves that in the corrected checker
  neither the parse assertion nor the variant assertion can fire.
