/** `CorrelationIDConfig` (its validation in `__post_init__` and the factory
    `from_kwargs`) and the construction of `CorrelationIDMiddleware`. Python's
    `ValueError` and `TypeError` become `ConfigError` values. */
module Config {
  import opened Wrappers
  import opened Text
  import opened Networks

  const DefaultHeaderName: string := "X-Correlation-ID"

  /** The configured generator. Only its identity matters here: the value it
      produces for a request is an input of the request decision. */
  datatype Generator = DefaultUuid7Generator | CustomGenerator(name: string)

  /** The frozen dataclass. `trustedSources` is the frozenset in iteration
      order; `parsedNetworks` is the `init=False` field filled once at
      construction. */
  datatype CorrelationConfig = CorrelationConfig(
    headerName: string,
    trustedSources: seq<string>,
    generator: Generator,
    validator: Option<string -> bool>,
    echoHeaderInResponse: bool,
    parsedNetworks: seq<Network>)

  datatype ConfigError =
    | EmptyHeaderName                         // ValueError
    | EmptyTrustedSource                      // ValueError
    | InvalidSourceNotation(source: string)   // ValueError
    | SourceHostBitsSet(source: string)       // ValueError
    | ConfigAndKeywords                       // ValueError
    | UnknownKeywords(keys: set<string>)      // TypeError from the middleware
    | UnexpectedKeywords(keys: set<string>)   // TypeError from from_kwargs

  /** The invariant every constructed configuration satisfies. */
  ghost predicate ValidConfig(c: CorrelationConfig, parseSource: string -> SourceSyntax) {
    && !IsBlank(c.headerName)
    && |c.parsedNetworks| == |c.trustedSources|
    && forall i | 0 <= i < |c.trustedSources| ::
         !IsBlank(c.trustedSources[i]) && ParsedAs(c.trustedSources[i], c.parsedNetworks[i], parseSource)
  }

  /** The error `_parse_network` raises, with the offending source text. */
  function NetworkErrorFor(e: NetworkError, source: string): ConfigError {
    match e
    case InvalidNotation => InvalidSourceNotation(source)
    case HostBitsSet => SourceHostBitsSet(source)
  }

  /** One source is usable: not blank, and it parses. */
  ghost predicate SourceAccepted(source: string, parseSource: string -> SourceSyntax) {
    !IsBlank(source) && ParseNetwork(parseSource(source)).Success?
  }

  /** `source` parses to the well-formed network `net`. */
  ghost predicate ParsedAs(source: string, net: Network, parseSource: string -> SourceSyntax) {
    ParseNetwork(parseSource(source)) == Success(net) && ValidNetwork(net)
  }

  /** The loop of `_validate_trusted_sources`: each source is checked for
      blankness and then parsed, in order; the first failure is raised. */
  function ParseTrustedSources(sources: seq<string>, parseSource: string -> SourceSyntax)
    : (r: Result<seq<Network>, ConfigError>)
    ensures r.Success? ==> |r.value| == |sources|
  {
    if |sources| == 0 then Success([])
    else if IsBlank(sources[0]) then Failure(EmptyTrustedSource)
    else
      match ParseNetwork(parseSource(sources[0]))
      case Failure(e) => Failure(NetworkErrorFor(e, sources[0]))
      case Success(net) =>
        match ParseTrustedSources(sources[1..], parseSource)
        case Failure(e) => Failure(e)
        case Success(rest) => Success([net] + rest)
  }

  /** The first source is checked before the rest. */
  lemma ParseTrustedSourcesStep(sources: seq<string>, parseSource: string -> SourceSyntax)
    requires |sources| > 0
    ensures ParseTrustedSources(sources, parseSource).Success?
        <==> SourceAccepted(sources[0], parseSource) && ParseTrustedSources(sources[1..], parseSource).Success?
  {
  }

  /** Every source is usable. */
  ghost predicate AllAccepted(sources: seq<string>, parseSource: string -> SourceSyntax) {
    forall i | 0 <= i < |sources| :: SourceAccepted(sources[i], parseSource)
  }

  lemma AllAcceptedStep(sources: seq<string>, parseSource: string -> SourceSyntax)
    requires |sources| > 0
    ensures AllAccepted(sources, parseSource)
        <==> SourceAccepted(sources[0], parseSource) && AllAccepted(sources[1..], parseSource)
  {
    assert forall i | 1 <= i < |sources| :: sources[i] == sources[1..][i - 1];
  }

  /** Parsing succeeds exactly when every source is usable. */
  lemma {:induction false} ParseTrustedSourcesSucceeds(sources: seq<string>, parseSource: string -> SourceSyntax)
    ensures ParseTrustedSources(sources, parseSource).Success? <==> AllAccepted(sources, parseSource)
    decreases |sources|
  {
    if |sources| > 0 {
      ParseTrustedSourcesStep(sources, parseSource);
      AllAcceptedStep(sources, parseSource);
      ParseTrustedSourcesSucceeds(sources[1..], parseSource);
    }
  }

  /** On success there is one network per source, in order. */
  lemma {:induction false} ParseTrustedSourcesParsed(sources: seq<string>, parseSource: string -> SourceSyntax)
    requires ParseTrustedSources(sources, parseSource).Success?
    ensures forall i | 0 <= i < |sources| ::
      ParsedAs(sources[i], ParseTrustedSources(sources, parseSource).value[i], parseSource)
    decreases |sources|
  {
    if |sources| > 0 {
      ParseTrustedSourcesParsed(sources[1..], parseSource);
      var r := ParseTrustedSources(sources, parseSource).value;
      var rest := ParseTrustedSources(sources[1..], parseSource).value;
      assert r == r[..1] + rest;
      forall i | 1 <= i < |sources| ensures ParsedAs(sources[i], r[i], parseSource) {
        assert sources[i] == sources[1..][i - 1];
        assert r[i] == rest[i - 1];
      }
    }
  }

  /** A single usable source parses to a one-network list. */
  lemma ParseSingleSource(source: string, parseSource: string -> SourceSyntax)
    requires !IsBlank(source) && ParseNetwork(parseSource(source)).Success?
    ensures ParseTrustedSources([source], parseSource)
         == Success([ParseNetwork(parseSource(source)).value])
  {
    var sources := [source];
    var net := ParseNetwork(parseSource(source)).value;
    assert sources[0] == source && sources[1..] == [];
    assert ParseNetwork(parseSource(sources[0])) == Success(net);
    assert ParseTrustedSources(sources[1..], parseSource) == Success([]);
    assert [net] + [] == [net];
  }

  /** `CorrelationIDConfig(...)`: header validation, then the trusted sources.
      The callable checks on generator and validator are enforced by the types. */
  function NewConfig(
    headerName: string,
    trustedSources: seq<string>,
    generator: Generator,
    validator: Option<string -> bool>,
    echoHeaderInResponse: bool,
    parseSource: string -> SourceSyntax)
    : (r: Result<CorrelationConfig, ConfigError>)
    ensures AllSpace(headerName) ==> r == Failure(EmptyHeaderName)
    ensures r.Success? <==>
      !IsBlank(headerName)
      && forall i | 0 <= i < |trustedSources| :: SourceAccepted(trustedSources[i], parseSource)
    ensures r.Success? ==> ValidConfig(r.value, parseSource)
    ensures r.Success? ==>
      && r.value.headerName == headerName
      && r.value.trustedSources == trustedSources
      && r.value.generator == generator
      && r.value.validator == validator
      && r.value.echoHeaderInResponse == echoHeaderInResponse
  {
    BlankIffAllSpace(headerName);
    ParseTrustedSourcesSucceeds(trustedSources, parseSource);
    if IsBlank(headerName) then Failure(EmptyHeaderName)
    else
      match ParseTrustedSources(trustedSources, parseSource)
      case Failure(e) => Failure(e)
      case Success(nets) =>
        ParseTrustedSourcesParsed(trustedSources, parseSource);
        Success(CorrelationConfig(headerName, trustedSources, generator, validator,
                                  echoHeaderInResponse, nets))
  }

  // ---------------------------------------------------------------------------
  // Keyword construction

  /** `frozenset(xs)`, listed in first-occurrence order. */
  function Dedup(xs: seq<string>): (r: seq<string>)
    ensures forall x :: x in r <==> x in xs
    ensures forall i, j | 0 <= i < j < |r| :: r[i] != r[j]
  {
    if |xs| == 0 then []
    else
      var rest := Dedup(xs[..|xs| - 1]);
      if xs[|xs| - 1] in rest then rest else rest + [xs[|xs| - 1]]
  }

  /** Keyword arguments given to the middleware. A field is None when the
      keyword is not passed; an inner None is an explicit Python `None`.
      `extra` holds every other keyword, none of which `from_kwargs` takes. */
  datatype Kwargs = Kwargs(
    headerName: Option<string>,
    trustedSources: Option<Option<seq<string>>>,
    generator: Option<Option<Generator>>,
    validator: Option<Option<string -> bool>>,
    echoHeaderInResponse: Option<bool>,
    extra: set<string>)

  /** The parameter names of `from_kwargs`. */
  const FromKwargsParameters: set<string> :=
    {"header_name", "trusted_sources", "generator", "validator", "echo_header_in_response"}

  /** `_VALID_CONFIG_KWARGS`: every dataclass field name, which includes the
      `init=False` field `_parsed_networks`. */
  const ValidConfigKwargs: set<string> := FromKwargsParameters + {"_parsed_networks"}

  /** `extra` names no `from_kwargs` parameter. */
  ghost predicate WellFormedKwargs(kw: Kwargs) {
    kw.extra !! FromKwargsParameters
  }

  /** `kwargs.keys()`. */
  function Keys(kw: Kwargs): (r: set<string>)
    ensures "header_name" in r <==> kw.headerName.Some? || "header_name" in kw.extra
    ensures "trusted_sources" in r <==> kw.trustedSources.Some? || "trusted_sources" in kw.extra
    ensures "generator" in r <==> kw.generator.Some? || "generator" in kw.extra
    ensures "validator" in r <==> kw.validator.Some? || "validator" in kw.extra
    ensures "echo_header_in_response" in r <==>
      kw.echoHeaderInResponse.Some? || "echo_header_in_response" in kw.extra
    ensures forall k | k !in FromKwargsParameters :: k in r <==> k in kw.extra
    ensures r == {} <==> kw == NoKwargs()
  {
    (if kw.headerName.Some? then {"header_name"} else {})
    + (if kw.trustedSources.Some? then {"trusted_sources"} else {})
    + (if kw.generator.Some? then {"generator"} else {})
    + (if kw.validator.Some? then {"validator"} else {})
    + (if kw.echoHeaderInResponse.Some? then {"echo_header_in_response"} else {})
    + kw.extra
  }

  function NoKwargs(): Kwargs {
    Kwargs(None, None, None, None, None, {})
  }

  /** `CorrelationIDConfig.from_kwargs(**kwargs)`: a keyword it has no
      parameter for is a `TypeError`; otherwise defaults are applied and the
      sources are made a frozenset. */
  function FromKwargs(kw: Kwargs, parseSource: string -> SourceSyntax)
    : (r: Result<CorrelationConfig, ConfigError>)
    requires WellFormedKwargs(kw)
    ensures kw.extra != {} ==> r == Failure(UnexpectedKeywords(kw.extra))
    ensures r.Success? ==>
      && r.value.headerName == kw.headerName.GetOr(DefaultHeaderName)
      && r.value.generator == kw.generator.GetOr(None).GetOr(DefaultUuid7Generator)
      && r.value.validator == kw.validator.GetOr(None)
      && r.value.echoHeaderInResponse == kw.echoHeaderInResponse.GetOr(true)
      && (forall x :: x in r.value.trustedSources <==> x in kw.trustedSources.GetOr(None).GetOr([]))
      && ValidConfig(r.value, parseSource)
    ensures kw.extra == {} ==>
      (r.Success? <==>
        && !IsBlank(kw.headerName.GetOr(DefaultHeaderName))
        && forall x | x in kw.trustedSources.GetOr(None).GetOr([]) :: SourceAccepted(x, parseSource))
  {
    if kw.extra != {} then Failure(UnexpectedKeywords(kw.extra))
    else
      var sources := match kw.trustedSources.GetOr(None)
        case None => []
        case Some(xs) => if |xs| == 0 then [] else Dedup(xs);
      NewConfig(
        kw.headerName.GetOr(DefaultHeaderName),
        sources,
        kw.generator.GetOr(None).GetOr(DefaultUuid7Generator),
        kw.validator.GetOr(None),
        kw.echoHeaderInResponse.GetOr(true),
        parseSource)
  }

  /** The constructed middleware holds only its configuration. */
  datatype CorrelationMiddleware = CorrelationMiddleware(config: CorrelationConfig)

  /** `CorrelationIDMiddleware.__init__(config=..., **kwargs)`. */
  function NewMiddleware(config: Option<CorrelationConfig>, kw: Kwargs, parseSource: string -> SourceSyntax)
    : (r: Result<CorrelationMiddleware, ConfigError>)
    requires config.Some? ==> ValidConfig(config.value, parseSource)
    requires WellFormedKwargs(kw)
    ensures config.Some? && Keys(kw) != {} ==> r == Failure(ConfigAndKeywords)
    ensures config.Some? && Keys(kw) == {} ==> r == Success(CorrelationMiddleware(config.value))
    ensures config.None? && Keys(kw) - ValidConfigKwargs != {} ==>
      r == Failure(UnknownKeywords(Keys(kw) - ValidConfigKwargs))
    ensures r.Success? ==> ValidConfig(r.value.config, parseSource)
    ensures config.None? && Keys(kw) - ValidConfigKwargs == {} ==>
      (r.Success? <==> FromKwargs(kw, parseSource).Success?)
  {
    match config
    case Some(c) =>
      if Keys(kw) != {} then Failure(ConfigAndKeywords) else Success(CorrelationMiddleware(c))
    case None =>
      var unknown := Keys(kw) - ValidConfigKwargs;
      if unknown != {} then Failure(UnknownKeywords(unknown))
      else
        match FromKwargs(kw, parseSource)
        case Failure(e) => Failure(e)
        case Success(c) => Success(CorrelationMiddleware(c))
  }

  /** `_parsed_networks` passes the middleware's unknown-key check and is then
      rejected by `from_kwargs`, which has no such parameter. */
  lemma ParsedNetworksKeywordRejectedLate(kw: Kwargs, parseSource: string -> SourceSyntax)
    requires WellFormedKwargs(kw) && kw.extra == {"_parsed_networks"}
    ensures Keys(kw) - ValidConfigKwargs == {}
    ensures NewMiddleware(None, kw, parseSource) == Failure(UnexpectedKeywords({"_parsed_networks"}))
  {
  }

  /** A keyword that names no dataclass field is reported as unknown. */
  lemma UnknownKeywordRejected(kw: Kwargs, key: string, parseSource: string -> SourceSyntax)
    requires WellFormedKwargs(kw)
    requires key in kw.extra && key !in ValidConfigKwargs
    ensures NewMiddleware(None, kw, parseSource).Failure?
    ensures key in NewMiddleware(None, kw, parseSource).error.keys
  {
    assert key in Keys(kw) - ValidConfigKwargs;
  }

  /** Both construction forms agree: keywords that build a configuration give
      the same middleware as passing that configuration alone. */
  lemma KeywordAndConfigFormsAgree(kw: Kwargs, parseSource: string -> SourceSyntax)
    requires WellFormedKwargs(kw)
    ensures FromKwargs(kw, parseSource).Success? && Keys(kw) - ValidConfigKwargs == {} ==>
      NewMiddleware(None, kw, parseSource)
        == NewMiddleware(Some(FromKwargs(kw, parseSource).value), NoKwargs(), parseSource)
  {
  }

  /** With no keywords at all the defaults apply and construction succeeds. */
  lemma DefaultsConstruct(parseSource: string -> SourceSyntax)
    ensures NewMiddleware(None, NoKwargs(), parseSource).Success?
    ensures var c := NewMiddleware(None, NoKwargs(), parseSource).value.config;
      && c.headerName == DefaultHeaderName
      && c.trustedSources == []
      && c.parsedNetworks == []
      && c.generator == DefaultUuid7Generator
      && c.validator == None
      && c.echoHeaderInResponse
  {
    assert !IsSpace(DefaultHeaderName[0]);
    BlankIffAllSpace(DefaultHeaderName);
  }
}
