/** The request-entry decision of `CorrelationIDMiddleware`: header
    extraction, the trusted-source check, the optional validator, and the
    choice between the incoming id and one generator call. */
module Middleware {
  import opened Wrappers
  import opened Text
  import opened Networks
  import opened Config
  import opened UuidText
  import opened Uuid7Check

  /** What the middleware reads from a request: the value Falcon's
      `get_header` returns for the configured header name, and `remote_addr`. */
  datatype Request = Request(header: Option<string>, remoteAddr: Option<string>)

  /** The value stored in `req.context.correlation_id`, with what the
      decision observably did: generator calls, validator calls, and whether
      the debug message about a rejected id was logged. */
  datatype RequestOutcome = RequestOutcome(
    correlationId: string,
    generatorCalls: nat,
    validatorCalls: nat,
    debugLogged: bool)

  /** `_get_incoming_header_value`. */
  function IncomingHeaderValue(header: Option<string>): (r: Option<string>)
    ensures header.None? ==> r.None?
    ensures header.Some? && AllSpace(header.value) ==> r.None?
    ensures header.Some? && !AllSpace(header.value) ==> r == Some(Strip(header.value))
    ensures r.Some? ==> |r.value| > 0 && !IsSpace(r.value[0]) && !IsSpace(r.value[|r.value| - 1])
  {
    match header
    case None => None
    case Some(h) =>
      BlankIffAllSpace(h);
      var incoming := Strip(h);
      if |incoming| == 0 then None else Some(incoming)
  }

  /** `_is_trusted_source`, with Python's `ipaddress.ip_address` given as
      `parseAddress` (None where it raises `ValueError`). */
  function IsTrustedSource(config: CorrelationConfig, remoteAddr: Option<string>,
                           parseAddress: string -> Option<Address>): (r: bool)
    ensures remoteAddr.None? || remoteAddr == Some("") ==> !r
    ensures |config.parsedNetworks| == 0 ==> !r
    ensures remoteAddr.Some? && parseAddress(remoteAddr.value).None? ==> !r
    ensures r <==>
      && remoteAddr.Some?
      && remoteAddr.value != ""
      && parseAddress(remoteAddr.value).Some?
      && exists i | 0 <= i < |config.parsedNetworks| ::
           Contains(config.parsedNetworks[i], parseAddress(remoteAddr.value).value)
  {
    if remoteAddr.None? || remoteAddr.value == "" then false
    else if |config.parsedNetworks| == 0 then false
    else
      match parseAddress(remoteAddr.value)
      case None => false
      case Some(addr) => AnyContains(config.parsedNetworks, addr)
  }

  /** `_is_valid_id`: true without a validator, otherwise the validator's answer. */
  function IsValidId(validator: Option<string -> bool>, value: string): (r: bool)
    ensures validator.None? ==> r
    ensures validator.Some? ==> (r <==> validator.value(value))
  {
    match validator
    case None => true
    case Some(v) => v(value)
  }

  /** `process_request`; `generated` is what the configured generator returns
      if it is called. */
  function ProcessRequest(m: CorrelationMiddleware, req: Request,
                          parseAddress: string -> Option<Address>, generated: string)
    : (r: RequestOutcome)
    ensures r.generatorCalls <= 1 && r.validatorCalls <= 1
    ensures r.generatorCalls == 1 ==> r.correlationId == generated
    ensures r.generatorCalls == 0 ==> Some(r.correlationId) == IncomingHeaderValue(req.header)
  {
    var incoming := IncomingHeaderValue(req.header);
    if incoming.Some? && IsTrustedSource(m.config, req.remoteAddr, parseAddress) then
      var calls := if m.config.validator.Some? then 1 else 0;
      if IsValidId(m.config.validator, incoming.value) then
        RequestOutcome(incoming.value, 0, calls, false)
      else
        RequestOutcome(generated, 1, calls, true)
    else
      RequestOutcome(generated, 1, 0, false)
  }

  // ---------------------------------------------------------------------------
  // The decision table, stated against the request's properties

  /** The incoming id is usable: present after trimming, from a trusted
      source, and accepted by the validator if there is one. */
  ghost predicate AcceptsIncoming(m: CorrelationMiddleware, req: Request,
                                  parseAddress: string -> Option<Address>) {
    var incoming := IncomingHeaderValue(req.header);
    && incoming.Some?
    && IsTrustedSource(m.config, req.remoteAddr, parseAddress)
    && (m.config.validator.None? || m.config.validator.value(incoming.value))
  }

  /** Exactly one id is stored: the incoming one, with no generator call,
      precisely when it is acceptable; otherwise the generator's, from exactly
      one call. */
  lemma ExactlyOneSource(m: CorrelationMiddleware, req: Request,
                         parseAddress: string -> Option<Address>, generated: string)
    ensures var r := ProcessRequest(m, req, parseAddress, generated);
      && (AcceptsIncoming(m, req, parseAddress) <==> r.generatorCalls == 0)
      && (AcceptsIncoming(m, req, parseAddress) ==>
            r.correlationId == IncomingHeaderValue(req.header).value)
      && (!AcceptsIncoming(m, req, parseAddress) ==>
            r.generatorCalls == 1 && r.correlationId == generated)
  {
  }

  /** The validator runs, once, exactly when a trimmed header arrives from a
      trusted source and a validator is configured. */
  lemma ValidatorCalledOnlyWhenReached(m: CorrelationMiddleware, req: Request,
                                       parseAddress: string -> Option<Address>, generated: string)
    ensures var r := ProcessRequest(m, req, parseAddress, generated);
      r.validatorCalls == 1 <==>
        && IncomingHeaderValue(req.header).Some?
        && IsTrustedSource(m.config, req.remoteAddr, parseAddress)
        && m.config.validator.Some?
  {
  }

  /** The debug message is logged exactly when the validator rejects, and then
      the generator's value is stored. */
  lemma DebugLoggedOnRejection(m: CorrelationMiddleware, req: Request,
                               parseAddress: string -> Option<Address>, generated: string)
    ensures var r := ProcessRequest(m, req, parseAddress, generated);
      r.debugLogged <==>
        && IncomingHeaderValue(req.header).Some?
        && IsTrustedSource(m.config, req.remoteAddr, parseAddress)
        && m.config.validator.Some?
        && !m.config.validator.value(IncomingHeaderValue(req.header).value)
    ensures ProcessRequest(m, req, parseAddress, generated).debugLogged ==>
      ProcessRequest(m, req, parseAddress, generated).correlationId == generated
  {
  }

  /** A missing or blank header, or an untrusted source, always leads to one
      generator call and no validator call. */
  lemma GeneratesWhenAbsentOrUntrusted(m: CorrelationMiddleware, req: Request,
                                       parseAddress: string -> Option<Address>, generated: string)
    requires req.header.None? || AllSpace(req.header.value)
             || !IsTrustedSource(m.config, req.remoteAddr, parseAddress)
    ensures ProcessRequest(m, req, parseAddress, generated)
         == RequestOutcome(generated, 1, 0, false)
  {
  }

  /** A stored incoming id is the stripped header value: non-empty and without
      surrounding whitespace. */
  lemma IncomingIdIsTrimmed(m: CorrelationMiddleware, req: Request,
                            parseAddress: string -> Option<Address>, generated: string)
    ensures var r := ProcessRequest(m, req, parseAddress, generated);
      r.generatorCalls == 0 ==>
        && req.header.Some?
        && r.correlationId == Strip(req.header.value)
        && |r.correlationId| > 0
        && !IsSpace(r.correlationId[0]) && !IsSpace(r.correlationId[|r.correlationId| - 1])
  {
    if req.header.Some? {
      BlankIffAllSpace(req.header.value);
    }
  }

  /** With the default validator configured and a generator whose value is a
      UUIDv7 hex string, the stored id always passes the default validator. */
  lemma DefaultValidatorStoresUuids(m: CorrelationMiddleware, req: Request,
                                    parseAddress: string -> Option<Address>, generated: string)
    requires m.config.validator == Some(DefaultUuidValidator)
    requires CheckUuid7Hex(generated) == None
    ensures DefaultUuidValidator(ProcessRequest(m, req, parseAddress, generated).correlationId)
  {
    Uuid7AcceptedByValidator(generated);
  }

  // ---------------------------------------------------------------------------
  // Scenarios

  /** A configuration trusting the single address 127.0.0.1 holds one /32
      network for it. */
  lemma SingleTrustedSource(parseSource: string -> SourceSyntax)
    requires parseSource("127.0.0.1") == BareAddress(V4(0x7F00_0001))
    ensures NewConfig(DefaultHeaderName, ["127.0.0.1"], DefaultUuid7Generator, None, true, parseSource)
         == Success(CorrelationConfig(DefaultHeaderName, ["127.0.0.1"], DefaultUuid7Generator,
                                      None, true, [Network(IPv4, 0x7F00_0001, 32)]))
  {
    assert !IsSpace(DefaultHeaderName[0]) && !IsSpace("127.0.0.1"[0]);
    BlankIffAllSpace(DefaultHeaderName);
    BlankIffAllSpace("127.0.0.1");
    ParseSingleSource("127.0.0.1", parseSource);
  }

  /** Without a validator, a header with no surrounding whitespace from a
      trusted source is stored as it is, and nothing is called. */
  lemma TrustedHeaderKeptVerbatim(m: CorrelationMiddleware, h: string, src: string,
                                  parseAddress: string -> Option<Address>, generated: string)
    requires m.config.validator.None?
    requires |h| > 0 && !IsSpace(h[0]) && !IsSpace(h[|h| - 1])
    requires IsTrustedSource(m.config, Some(src), parseAddress)
    ensures ProcessRequest(m, Request(Some(h), Some(src)), parseAddress, generated)
         == RequestOutcome(h, 0, 0, false)
  {
    StripKeepsTrimmed(h);
    BlankIffAllSpace(h);
  }

  /** With 127.0.0.1 as the only trusted network, a request from 127.0.0.1 is
      from a trusted source. */
  lemma LoopbackTrusted(m: CorrelationMiddleware, parseAddress: string -> Option<Address>)
    requires m.config.parsedNetworks == [Network(IPv4, 0x7F00_0001, 32)]
    requires parseAddress("127.0.0.1") == Some(V4(0x7F00_0001))
    ensures IsTrustedSource(m.config, Some("127.0.0.1"), parseAddress)
  {
    assert Contains(m.config.parsedNetworks[0], V4(0x7F00_0001));
  }

  /** A request from a source outside the trusted list gets the generator's
      value, and a whitespace-only header counts as no header. */
  lemma UntrustedOrBlankHeaderGenerates(m: CorrelationMiddleware,
                                        parseAddress: string -> Option<Address>, generated: string)
    requires m.config.parsedNetworks == [Network(IPv4, 0x0A00_0001, 32)]
    requires parseAddress("127.0.0.1") == Some(V4(0x7F00_0001))
    ensures ProcessRequest(m, Request(Some("external-id"), Some("127.0.0.1")), parseAddress, generated)
         == RequestOutcome(generated, 1, 0, false)
    ensures ProcessRequest(m, Request(Some("   "), Some("10.0.0.1")), parseAddress, generated)
         == RequestOutcome(generated, 1, 0, false)
  {
    assert AllSpace("   ");
  }

  /** A validator that rejects everything makes a trusted request take the
      generator's value and log the rejection. */
  lemma RejectingValidatorFallsBack(m: CorrelationMiddleware, req: Request,
                                    parseAddress: string -> Option<Address>)
    requires m.config.validator.Some?
    requires forall x :: !m.config.validator.value(x)
    requires IncomingHeaderValue(req.header).Some?
    requires IsTrustedSource(m.config, req.remoteAddr, parseAddress)
    ensures ProcessRequest(m, req, parseAddress, "fallback-id")
         == RequestOutcome("fallback-id", 1, 1, true)
  {
  }
}
