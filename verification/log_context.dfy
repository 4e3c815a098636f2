/** The structlog processor `inject_correlation_context`: fills in
    `correlation_id` and `user_id` from the context variables with
    `setdefault`, using "-" when the context value is None or empty. The event
    dict is a map from keys to (string) values. */
module LogContext {
  import opened Wrappers

  const CorrelationIdKey: string := "correlation_id"
  const UserIdKey: string := "user_id"
  const Placeholder: string := "-"

  /** `value or "-"`: None and "" are both falsy. */
  function ValueOrPlaceholder(value: Option<string>): (r: string)
    ensures |r| > 0
    ensures value.Some? && value.value != "" ==> r == value.value
    ensures value.None? || value == Some("") ==> r == Placeholder
  {
    match value
    case Some(v) => if v == "" then Placeholder else v
    case None => Placeholder
  }

  /** `d.setdefault(key, value)` as a value: an existing entry wins. */
  function SetDefault(d: map<string, string>, key: string, value: string): (r: map<string, string>)
    ensures r.Keys == d.Keys + {key}
    ensures key in d ==> r[key] == d[key]
    ensures key !in d ==> r[key] == value
    ensures forall k | k in d :: r[k] == d[k]
  {
    if key in d then d else d[key := value]
  }

  /** `inject_correlation_context(logger, method_name, event_dict)`, with the
      two context variables' current values as inputs. */
  function InjectCorrelationContext(eventDict: map<string, string>,
                                    correlationId: Option<string>, userId: Option<string>)
    : (r: map<string, string>)
    ensures r.Keys == eventDict.Keys + {CorrelationIdKey, UserIdKey}
    ensures forall k | k in eventDict :: r[k] == eventDict[k]
    ensures CorrelationIdKey !in eventDict ==> r[CorrelationIdKey] == ValueOrPlaceholder(correlationId)
    ensures UserIdKey !in eventDict ==> r[UserIdKey] == ValueOrPlaceholder(userId)
  {
    assert CorrelationIdKey != UserIdKey;
    var withCid := SetDefault(eventDict, CorrelationIdKey, ValueOrPlaceholder(correlationId));
    SetDefault(withCid, UserIdKey, ValueOrPlaceholder(userId))
  }

  /** The keys added are exactly the two context keys; every existing entry,
      including an explicitly bound `correlation_id` or `user_id`, is kept. */
  lemma InjectPreservesEntries(d: map<string, string>, cid: Option<string>, uid: Option<string>)
    ensures InjectCorrelationContext(d, cid, uid).Keys == d.Keys + {CorrelationIdKey, UserIdKey}
    ensures forall k | k in d :: InjectCorrelationContext(d, cid, uid)[k] == d[k]
  {
  }

  /** A missing entry is set from its own context variable, or to "-" when
      that value is None or empty; the other variable plays no part. */
  lemma InjectFillsMissing(d: map<string, string>, cid: Option<string>, uid: Option<string>)
    ensures CorrelationIdKey !in d ==>
      InjectCorrelationContext(d, cid, uid)[CorrelationIdKey] == ValueOrPlaceholder(cid)
    ensures UserIdKey !in d ==>
      InjectCorrelationContext(d, cid, uid)[UserIdKey] == ValueOrPlaceholder(uid)
    ensures cid.None? || cid == Some("") ==>
      CorrelationIdKey !in d ==> InjectCorrelationContext(d, cid, uid)[CorrelationIdKey] == Placeholder
    ensures uid.None? || uid == Some("") ==>
      UserIdKey !in d ==> InjectCorrelationContext(d, cid, uid)[UserIdKey] == Placeholder
  {
    assert CorrelationIdKey != UserIdKey;
  }

  /** Running the processor again changes nothing, whatever the context
      values are the second time. */
  lemma InjectIdempotent(d: map<string, string>, cid: Option<string>, uid: Option<string>,
                         cid2: Option<string>, uid2: Option<string>)
    ensures var once := InjectCorrelationContext(d, cid, uid);
      InjectCorrelationContext(once, cid2, uid2) == once
  {
    var once := InjectCorrelationContext(d, cid, uid);
    assert CorrelationIdKey in once && UserIdKey in once;
  }

  /** With nothing bound and no context values, both fields read "-". */
  lemma PlaceholdersWhenUnset(d: map<string, string>)
    requires CorrelationIdKey !in d && UserIdKey !in d
    ensures InjectCorrelationContext(d, None, None)[CorrelationIdKey] == Placeholder
    ensures InjectCorrelationContext(d, None, None)[UserIdKey] == Placeholder
  {
    assert CorrelationIdKey != UserIdKey;
  }
}
