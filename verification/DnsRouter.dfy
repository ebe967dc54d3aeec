/**
 DNS routing (dns/router.go): the rule walk that picks a transport and collects query options, and the two
 loops that retry from the rule after the last match when a response is rejected.
 */
module DnsRouter {
  import opened Prelude
  import opened DnsMessage

  type Addr = nat

  /** The part of the request metadata that a retry can change: the addresses of the last checked response. */
  datatype Meta = Meta(addresses: seq<Addr>)

  datatype Legacy = Legacy(strategy: Strategy, clientSubnet: Option<Prefix>)

  datatype Transport = Transport(tag: string, fakeIP: bool, legacy: Option<Legacy>)

  datatype RouteOptions = RouteOptions(
    strategy: Strategy, disableCache: bool, rewriteTTL: Option<u32>, clientSubnet: Option<Prefix>)

  datatype RejectMethod = Default | Drop | ReplyMethod

  datatype Action =
    | Route(server: string, options: RouteOptions)
    | SetOptions(options: RouteOptions)
    | Reject(how: RejectMethod)
    | Predefined(success: bool, addresses: seq<Addr>)

  datatype Rule = Rule(
    addressLimit: bool,
    matches: Meta -> bool,
    limitOk: Meta -> bool,
    bypassIfFailed: bool,
    action: Action)

  /** What a walk depends on besides metadata and options. */
  datatype Setup = Setup(
    rules: seq<Rule>,
    transports: map<string, Transport>,
    fallback: Transport,
    defaultStrategy: Strategy,
    allowFakeIP: bool,
    isAddressQuery: bool,
    blocked: Addr -> bool)

  // ---- What a walk means ----

  function Overlay(o: Options, a: RouteOptions): Options {
    Options(
      if a.strategy != AsIS then a.strategy else o.strategy,
      o.disableCache || a.disableCache,
      if a.rewriteTTL.Some? then a.rewriteTTL else o.rewriteTTL,
      if a.clientSubnet.Some? then a.clientSubnet else o.clientSubnet)
  }

  /** A route rule also lets its transport's legacy settings fill what is still unset. */
  function OverlayRoute(o: Options, a: RouteOptions, t: Transport): Options {
    var o1 := Overlay(o, a).(disableCache := o.disableCache || a.disableCache || t.fakeIP);
    if t.legacy.None? then o1
    else o1.(strategy := if o1.strategy == AsIS then t.legacy.value.strategy else o1.strategy,
             clientSubnet := if o1.clientSubnet.None? then t.legacy.value.clientSubnet else o1.clientSubnet)
  }

  predicate Applies(s: Setup, rule: Rule, meta: Meta) {
    (!rule.addressLimit || s.isAddressQuery) && rule.matches(meta)
  }

  /** The rule ends the walk: it rejects, answers, or routes to a transport that exists and is allowed. */
  predicate Ends(s: Setup, rule: Rule) {
    match rule.action
    case Route(server, _) => server in s.transports && (!s.transports[server].fakeIP || s.allowFakeIP)
    case SetOptions(_) => false
    case _ => true
  }

  predicate Stops(s: Setup, i: nat, meta: Meta)
    requires i < |s.rules|
  {
    Applies(s, s.rules[i], meta) && Ends(s, s.rules[i])
  }

  /** The caller's options, overlaid by the applicable option rules in `[start, end)` and by nothing else. */
  function Collected(s: Setup, o: Options, start: nat, end: nat, meta: Meta): Options
    requires end <= |s.rules|
    decreases end
  {
    if end <= start then o
    else
      var before := Collected(s, o, start, end - 1, meta);
      var rule := s.rules[end - 1];
      if Applies(s, rule, meta) && rule.action.SetOptions? then Overlay(before, rule.action.options) else before
  }

  /** `index` is the first rule from `start` on that ends the walk, or -1. */
  ghost predicate FirstStop(s: Setup, start: nat, meta: Meta, index: int) {
    if index == -1 then forall i :: start <= i < |s.rules| ==> !Stops(s, i, meta)
    else start <= index < |s.rules| && Stops(s, index, meta) && forall i :: start <= i < index ==> !Stops(s, i, meta)
  }

  function MatchedTransport(s: Setup, index: int): Option<Transport>
    requires -1 <= index < |s.rules|
  {
    if index == -1 then Some(s.fallback)
    else
      match s.rules[index].action
      case Route(server, _) => if server in s.transports then Some(s.transports[server]) else None
      case _ => None
  }

  function MatchedOptions(s: Setup, o: Options, start: nat, meta: Meta, index: int): Options
    requires -1 <= index < |s.rules|
  {
    if index == -1 then Collected(s, o, start, |s.rules|, meta)
    else
      var before := Collected(s, o, start, index, meta);
      match s.rules[index].action
      case Route(server, a) => if server in s.transports then OverlayRoute(before, a, s.transports[server]) else before
      case _ => before
  }

  /** The four option fields a rule may set, one after the other. */
  method ApplyOptions(o: Options, action: RouteOptions, disableCache: bool) returns (options: Options)
    ensures options == Overlay(o, action.(disableCache := disableCache))
  {
    options := o;
    if action.strategy != AsIS {
      options := options.(strategy := action.strategy);
    }
    if disableCache {
      options := options.(disableCache := true);
    }
    if action.rewriteTTL.Some? {
      options := options.(rewriteTTL := action.rewriteTTL);
    }
    if action.clientSubnet.Some? {
      options := options.(clientSubnet := action.clientSubnet);
    }
  }

  method ApplyRoute(o: Options, action: RouteOptions, t: Transport) returns (options: Options)
    ensures options == OverlayRoute(o, action, t)
  {
    options := ApplyOptions(o, action, t.fakeIP || action.disableCache);
    if t.legacy.Some? {
      if options.strategy == AsIS {
        options := options.(strategy := t.legacy.value.strategy);
      }
      if options.clientSubnet.None? {
        options := options.(clientSubnet := t.legacy.value.clientSubnet);
      }
    }
  }

  /** matchDNS refines this meaning. `ruleIndex` is the previously matched rule, or -1. */
  method MatchDNS(s: Setup, ruleIndex: int, meta: Meta, caller: Options)
    returns (transport: Option<Transport>, index: int, options: Options)
    requires -1 <= ruleIndex < |s.rules|
    ensures -1 <= index < |s.rules| && FirstStop(s, ruleIndex + 1, meta, index)
    ensures transport == MatchedTransport(s, index)
    ensures options == MatchedOptions(s, caller, ruleIndex + 1, meta, index)
  {
    options := caller;
    var i: nat := 0;
    if ruleIndex != -1 {
      i := ruleIndex + 1;
    }
    while i < |s.rules|
      invariant ruleIndex + 1 <= i <= |s.rules|
      invariant forall j :: ruleIndex + 1 <= j < i ==> !Stops(s, j, meta)
      invariant options == Collected(s, caller, ruleIndex + 1, i, meta)
    {
      var rule := s.rules[i];
      if rule.addressLimit && !s.isAddressQuery {
        i := i + 1;
        continue;
      }
      if rule.matches(meta) {
        match rule.action {
          case Route(server, action) =>
            if server !in s.transports {
              i := i + 1;
              continue;
            }
            var t := s.transports[server];
            if t.fakeIP && !s.allowFakeIP {
              i := i + 1;
              continue;
            }
            options := ApplyRoute(options, action, t);
            return Some(t), i, options;
          case SetOptions(action) =>
            options := ApplyOptions(options, action, action.disableCache);
          case _ =>
            return None, i, options;
        }
      }
      i := i + 1;
    }
    return Some(s.fallback), -1, options;
  }

  /**
   What stops a walk, by the actions themselves: before it stops, every rule that applies only sets options or routes to
   a transport that is unknown or not allowed; the rule it stops at rejects, answers, or routes to one that is both.
   */
  lemma WalkMeaning(s: Setup, start: nat, meta: Meta, index: int, j: nat)
    requires FirstStop(s, start, meta, index) && -1 <= index && start <= j < |s.rules| && (index == -1 || j <= index)
    requires (s.rules[j].addressLimit ==> s.isAddressQuery) && s.rules[j].matches(meta)
    ensures var action := s.rules[j].action;
            if j == index then
              action.Reject? || action.Predefined?
              || (action.Route? && action.server in s.transports && (s.transports[action.server].fakeIP ==> s.allowFakeIP))
            else
              action.SetOptions?
              || (action.Route? && (action.server !in s.transports || (s.transports[action.server].fakeIP && !s.allowFakeIP)))
  {
    if j != index {
      assert !Stops(s, j, meta);
    }
  }

  /** The rule a walk stops at applies: it matches, and an address limit only counts for address queries. */
  lemma StopApplies(s: Setup, start: nat, meta: Meta, index: nat)
    requires FirstStop(s, start, meta, index)
    ensures start <= index < |s.rules| && s.rules[index].matches(meta) && (s.rules[index].addressLimit ==> s.isAddressQuery)
  {
  }

  /** Rule `j` applies and sets options. */
  predicate Sets(s: Setup, j: nat, meta: Meta)
    requires j < |s.rules|
  {
    (s.rules[j].addressLimit ==> s.isAddressQuery) && s.rules[j].matches(meta) && s.rules[j].action.SetOptions?
  }

  /** The last rule that sets an option decides it; the caller's own value stays where no rule does. */
  lemma {:induction false} LastSetterWins(s: Setup, o: Options, start: nat, end: nat, meta: Meta, j: nat)
    requires start <= j < end <= |s.rules| && Sets(s, j, meta)
    ensures var r, a := Collected(s, o, start, end, meta), s.rules[j].action.options;
            && (a.strategy != AsIS
                && (forall k :: j < k < end && Sets(s, k, meta) ==> s.rules[k].action.options.strategy == AsIS)
                ==> r.strategy == a.strategy)
            && (a.rewriteTTL.Some?
                && (forall k :: j < k < end && Sets(s, k, meta) ==> s.rules[k].action.options.rewriteTTL.None?)
                ==> r.rewriteTTL == a.rewriteTTL)
            && (a.clientSubnet.Some?
                && (forall k :: j < k < end && Sets(s, k, meta) ==> s.rules[k].action.options.clientSubnet.None?)
                ==> r.clientSubnet == a.clientSubnet)
            && (a.disableCache ==> r.disableCache)
  {
    if j < end - 1 {
      LastSetterWins(s, o, start, end - 1, meta, j);
      assert Sets(s, end - 1, meta) || Collected(s, o, start, end, meta) == Collected(s, o, start, end - 1, meta);
    }
  }

  lemma {:induction false} CallerDecidesRest(s: Setup, o: Options, start: nat, end: nat, meta: Meta)
    requires end <= |s.rules|
    ensures var r := Collected(s, o, start, end, meta);
            && ((forall k :: start <= k < end && Sets(s, k, meta) ==> s.rules[k].action.options.strategy == AsIS) ==> r.strategy == o.strategy)
            && ((forall k :: start <= k < end && Sets(s, k, meta) ==> s.rules[k].action.options.rewriteTTL.None?) ==> r.rewriteTTL == o.rewriteTTL)
            && ((forall k :: start <= k < end && Sets(s, k, meta) ==> s.rules[k].action.options.clientSubnet.None?) ==> r.clientSubnet == o.clientSubnet)
            && ((forall k :: start <= k < end && Sets(s, k, meta) ==> !s.rules[k].action.options.disableCache) ==> r.disableCache == o.disableCache)
    decreases end
  {
    if start < end {
      CallerDecidesRest(s, o, start, end - 1, meta);
      assert Sets(s, end - 1, meta) || Collected(s, o, start, end, meta) == Collected(s, o, start, end - 1, meta);
    }
  }

  /**
   The options of a query sent by a route rule, from those collected on the way: the rule's own come first, then the
   collected ones, then the legacy settings of its transport; a fakeip transport is never cached; the default strategy
   fills in where nothing is set.
   */
  lemma RouteOptionsMeaning(s: Setup, caller: Options, start: nat, meta: Meta, index: nat)
    requires FirstStop(s, start, meta, index) && s.rules[index].action.Route?
    ensures s.rules[index].action.server in s.transports
    ensures var sent := WithDefault(s, MatchedOptions(s, caller, start, meta, index));
            var own, way := s.rules[index].action.options, Collected(s, caller, start, index, meta);
            var t := s.transports[s.rules[index].action.server];
            && sent.strategy == (if own.strategy != AsIS then own.strategy
                                 else if way.strategy != AsIS then way.strategy
                                 else if t.legacy.Some? && t.legacy.value.strategy != AsIS then t.legacy.value.strategy
                                 else s.defaultStrategy)
            && sent.clientSubnet == (if own.clientSubnet.Some? then own.clientSubnet
                                     else if way.clientSubnet.Some? then way.clientSubnet
                                     else if t.legacy.Some? then t.legacy.value.clientSubnet else None)
            && sent.rewriteTTL == (if own.rewriteTTL.Some? then own.rewriteTTL else way.rewriteTTL)
            && (sent.disableCache <==> own.disableCache || way.disableCache || t.fakeIP)
            && MatchedTransport(s, index) == Some(t)
  {
  }

  /** A query that no rule routes goes to the default transport, with the options of all rules that apply. */
  lemma DefaultOptionsMeaning(s: Setup, caller: Options, start: nat, meta: Meta)
    ensures var sent, way := WithDefault(s, MatchedOptions(s, caller, start, meta, -1)), Collected(s, caller, start, |s.rules|, meta);
            && MatchedTransport(s, -1) == Some(s.fallback)
            && sent == way.(strategy := if way.strategy != AsIS then way.strategy else s.defaultStrategy)
  {
  }

  // ---- Retries ----

  /** One query sent to the client: the rule that chose it (-1 for none), and what it was sent with. */
  datatype Attempt = Attempt(index: int, transport: Transport, options: Options, meta: Meta)

  function WithDefault(s: Setup, o: Options): Options {
    if o.strategy == AsIS then o.(strategy := s.defaultStrategy) else o
  }

  /** The attempt is exactly what the caller's own options give over the rules after `previous`. */
  ghost predicate FreshAttempt(s: Setup, caller: Options, previous: int, a: Attempt) {
    && -1 <= previous < |s.rules| && -1 <= a.index < |s.rules|
    && FirstStop(s, previous + 1, a.meta, a.index)
    && MatchedTransport(s, a.index) == Some(a.transport)
    && a.options == WithDefault(s, MatchedOptions(s, caller, previous + 1, a.meta, a.index))
  }

  function LastIndex(trace: seq<Attempt>): int {
    if trace == [] then -1 else trace[|trace| - 1].index
  }

  /** The metadata the next walk sees. */
  function NextMeta(meta0: Meta, trace: seq<Attempt>, after: (Attempt, nat) -> Meta): Meta {
    if trace == [] then meta0 else after(trace[|trace| - 1], |trace| - 1)
  }

  /**
   A run of attempts: each is fresh and follows one that was tried again (`again`), which only a rule's attempt
   can be; each sees the metadata its predecessor left (`after`).
   */
  ghost predicate Chain(s: Setup, caller: Options, meta0: Meta, trace: seq<Attempt>,
                        again: (Attempt, nat) -> bool, after: (Attempt, nat) -> Meta)
  {
    trace == [] ||
    var n := |trace| - 1;
    var before := trace[..n];
    && Chain(s, caller, meta0, before, again, after)
    && (before != [] ==> before[n - 1].index != -1 && again(before[n - 1], n - 1))
    && FreshAttempt(s, caller, LastIndex(before), trace[n])
    && trace[n].meta == NextMeta(meta0, before, after)
  }

  /** The rules matched strictly advance, so there is at most one more attempt than there are rules. */
  lemma {:induction false} ChainAdvances(s: Setup, caller: Options, meta0: Meta, trace: seq<Attempt>,
                                         again: (Attempt, nat) -> bool, after: (Attempt, nat) -> Meta)
    requires Chain(s, caller, meta0, trace, again, after)
    ensures LastIndex(trace) == -1 || |trace| - 1 <= LastIndex(trace) < |s.rules|
    ensures |trace| <= |s.rules| + 1
    ensures forall k :: 0 < k < |trace| && trace[k].index != -1 ==> trace[k - 1].index < trace[k].index
  {
    if trace != [] {
      ChainAdvances(s, caller, meta0, trace[..|trace| - 1], again, after);
    }
  }

  /** No attempt carries anything over from the rules before it: only the caller's options and the later rules count. */
  lemma {:induction false} ChainIsFresh(s: Setup, caller: Options, meta0: Meta, trace: seq<Attempt>,
                                        again: (Attempt, nat) -> bool, after: (Attempt, nat) -> Meta, k: nat)
    requires Chain(s, caller, meta0, trace, again, after) && k < |trace|
    ensures FreshAttempt(s, caller, LastIndex(trace[..k]), trace[k])
    ensures k < |trace| - 1 ==> trace[k].index != -1 && again(trace[k], k)
    ensures trace[k].meta == NextMeta(meta0, trace[..k], after)
  {
    var n := |trace| - 1;
    if k < n {
      assert trace[..n][..k] == trace[..k];
      ChainIsFresh(s, caller, meta0, trace[..n], again, after, k);
    }
  }

  /** One walk from the rule after `ruleIndex`, with the default strategy filled in. */
  method ChooseQuery(s: Setup, caller: Options, ruleIndex: int, meta: Meta)
    returns (index: int, attempt: Option<Attempt>)
    requires -1 <= ruleIndex < |s.rules|
    ensures -1 <= index < |s.rules| && FirstStop(s, ruleIndex + 1, meta, index)
    ensures attempt.Some? ==> FreshAttempt(s, caller, ruleIndex, attempt.value) && attempt.value.index == index && attempt.value.meta == meta
    ensures attempt.None? <==> index != -1 && !s.rules[index].action.Route?
  {
    var transport, options;
    transport, index, options := MatchDNS(s, ruleIndex, meta, caller);
    if transport.None? {
      return index, None;
    }
    if options.strategy == AsIS {
      options := options.(strategy := s.defaultStrategy);
    }
    return index, Some(Attempt(index, transport.value, options, meta));
  }

  /**
   One walk from the rule after the last match, with the default strategy filled in; unless the matched rule
   answers by itself, the query it chose extends the chain.
   */
  method NextAttempt(s: Setup, caller: Options, ruleIndex: int, meta: Meta, trace0: seq<Attempt>,
                     ghost meta0: Meta, ghost again: (Attempt, nat) -> bool, ghost after: (Attempt, nat) -> Meta)
    returns (index: int, trace: seq<Attempt>)
    requires -1 <= ruleIndex < |s.rules| && ruleIndex == LastIndex(trace0)
    requires Chain(s, caller, meta0, trace0, again, after) && meta == NextMeta(meta0, trace0, after)
    requires trace0 != [] ==> ruleIndex != -1 && again(trace0[|trace0| - 1], |trace0| - 1)
    ensures -1 <= index < |s.rules| && FirstStop(s, ruleIndex + 1, meta, index)
    ensures Chain(s, caller, meta0, trace, again, after) && |trace| <= |s.rules| + 1
    ensures trace == trace0 <==> index != -1 && !s.rules[index].action.Route?
    ensures trace != trace0 ==> |trace| == |trace0| + 1 && trace0 == trace[..|trace0|]
                                && trace[|trace0|].index == index && trace[|trace0|].meta == meta
  {
    var next;
    index, next := ChooseQuery(s, caller, ruleIndex, meta);
    trace := trace0;
    if next.Some? {
      ChainExtends(s, caller, meta0, trace0, next.value, again, after);
      trace := trace0 + [next.value];
    }
    ChainAdvances(s, caller, meta0, trace, again, after);
  }

  lemma ChainExtends(s: Setup, caller: Options, meta0: Meta, trace: seq<Attempt>, a: Attempt,
                     again: (Attempt, nat) -> bool, after: (Attempt, nat) -> Meta)
    requires Chain(s, caller, meta0, trace, again, after)
    requires trace != [] ==> LastIndex(trace) != -1 && again(trace[|trace| - 1], |trace| - 1)
    requires FreshAttempt(s, caller, LastIndex(trace), a) && a.meta == NextMeta(meta0, trace, after)
    ensures Chain(s, caller, meta0, trace + [a], again, after)
  {
    assert (trace + [a])[..|trace|] == trace;
  }

  /** The walk after the last attempt stops at a rule that answers by itself. */
  ghost predicate AnsweredByRule(s: Setup, meta0: Meta, trace: seq<Attempt>, again: (Attempt, nat) -> bool,
                                 after: (Attempt, nat) -> Meta, index: int)
  {
    && (trace != [] ==> LastIndex(trace) != -1 && again(trace[|trace| - 1], |trace| - 1))
    && -1 <= LastIndex(trace) && 0 <= index < |s.rules| && FirstStop(s, LastIndex(trace) + 1, NextMeta(meta0, trace, after), index)
    && !s.rules[index].action.Route?
  }

  /** The last attempt is not tried again. */
  ghost predicate AnsweredByQuery(trace: seq<Attempt>, again: (Attempt, nat) -> bool) {
    trace != [] && (LastIndex(trace) == -1 || !again(trace[|trace| - 1], |trace| - 1))
  }

  lemma FirstStopIsUnique(s: Setup, start: nat, meta: Meta, i: int, j: int)
    requires FirstStop(s, start, meta, i) && FirstStop(s, start, meta, j) && -1 <= i && -1 <= j
    ensures i == j
  {
    if i != -1 && j != -1 {
      assert Stops(s, i, meta) && Stops(s, j, meta);
    }
  }

  lemma FreshIsUnique(s: Setup, caller: Options, previous: int, a: Attempt, b: Attempt)
    requires FreshAttempt(s, caller, previous, a) && FreshAttempt(s, caller, previous, b) && a.meta == b.meta
    ensures a == b
  {
    FirstStopIsUnique(s, previous + 1, a.meta, a.index, b.index);
  }

  lemma NextAgrees(s: Setup, caller: Options, meta0: Meta, t: seq<Attempt>, u: seq<Attempt>,
                   again: (Attempt, nat) -> bool, after: (Attempt, nat) -> Meta, k: nat)
    requires Chain(s, caller, meta0, t, again, after) && Chain(s, caller, meta0, u, again, after)
    requires k < |t| && k < |u| && t[..k] == u[..k]
    ensures t[k] == u[k]
  {
    ChainIsFresh(s, caller, meta0, t, again, after, k);
    ChainIsFresh(s, caller, meta0, u, again, after, k);
    FreshIsUnique(s, caller, LastIndex(t[..k]), t[k], u[k]);
  }

  /** Two chains under the same circumstances agree as far as both go. */
  lemma {:induction false} ChainsAgree(s: Setup, caller: Options, meta0: Meta, t: seq<Attempt>, u: seq<Attempt>,
                                       again: (Attempt, nat) -> bool, after: (Attempt, nat) -> Meta, k: nat)
    requires Chain(s, caller, meta0, t, again, after) && Chain(s, caller, meta0, u, again, after)
    requires k <= |t| && k <= |u|
    ensures t[..k] == u[..k]
  {
    if k > 0 {
      ChainsAgree(s, caller, meta0, t, u, again, after, k - 1);
      NextAgrees(s, caller, meta0, t, u, again, after, k - 1);
      assert t[..k] == t[..k - 1] + [t[k - 1]] && u[..k] == u[..k - 1] + [u[k - 1]];
    }
  }

  /** A chain that came to an end is as long as any other under the same circumstances. */
  lemma EndedChainIsLongest(s: Setup, caller: Options, meta0: Meta, t: seq<Attempt>, u: seq<Attempt>,
                            again: (Attempt, nat) -> bool, after: (Attempt, nat) -> Meta, index: int)
    requires Chain(s, caller, meta0, t, again, after) && Chain(s, caller, meta0, u, again, after)
    requires AnsweredByQuery(t, again) || AnsweredByRule(s, meta0, t, again, after, index)
    ensures |u| <= |t|
  {
    if |t| < |u| {
      ChainsAgree(s, caller, meta0, t, u, again, after, |t|);
      assert u[..|t|] == t;
      ChainIsFresh(s, caller, meta0, u, again, after, |t|);
      if t != [] {
        ChainIsFresh(s, caller, meta0, u, again, after, |t| - 1);
        assert u[|t| - 1] == t[|t| - 1];
      }
      assert AnsweredByRule(s, meta0, t, again, after, index);
      FirstStopIsUnique(s, LastIndex(t) + 1, NextMeta(meta0, t, after), index, u[|t|].index);
    }
  }

  // ---- Exchange ----

  /**
   What the client did with one query. A response from the cache, or one the client made up itself, is not `checked`;
   `usable` says that it was a successful, non-empty response.
   */
  datatype Outcome =
    | Response(checked: bool, usable: bool, addresses: seq<Addr>)
    | KnownRejected
    | Failure

  datatype Answer =
    | Refused
    | Dropped
    | Canned
    | NilTransport      // the client is handed a nil transport
    | Answered(attempt: nat, failed: bool)

  predicate Limited(s: Setup, a: Attempt) {
    0 <= a.index < |s.rules| && s.rules[a.index].addressLimit
  }

  predicate Rejected(s: Setup, a: Attempt, outcome: Outcome) {
    match outcome
    case Response(checked, usable, addresses) => Limited(s, a) && checked && (!usable || !s.rules[a.index].limitOk(Meta(addresses)))
    case KnownRejected => true
    case Failure => false
  }

  predicate Failed(s: Setup, a: Attempt, outcome: Outcome) {
    Rejected(s, a, outcome) || outcome.Failure?
  }

  /** The loop tries again: its rule's address limit rejected the response, or its rule bypasses the failure. */
  predicate Retried(s: Setup, a: Attempt, outcome: Outcome, cancelled: bool) {
    && 0 <= a.index < |s.rules|
    && ((s.rules[a.index].addressLimit && Rejected(s, a, outcome))
        || (Failed(s, a, outcome) && s.rules[a.index].bypassIfFailed && !cancelled))
  }

  /** A checked response leaves its addresses in the metadata, even when it is rejected. */
  function MetaAfter(s: Setup, a: Attempt, outcome: Outcome): Meta {
    if Limited(s, a) && outcome.Response? && outcome.checked && outcome.usable then Meta(outcome.addresses) else a.meta
  }

  function ExchangeAgain(s: Setup, client: nat -> Outcome, cancelled: nat -> bool): (Attempt, nat) -> bool {
    (a: Attempt, k: nat) => Retried(s, a, client(k), cancelled(k))
  }

  function ExchangeAfter(s: Setup, client: nat -> Outcome): (Attempt, nat) -> Meta {
    (a: Attempt, k: nat) => MetaAfter(s, a, client(k))
  }

  /** What the loop makes of one outcome: whether the query failed, whether to try again, and the metadata afterwards. */
  method Judge(s: Setup, index: int, meta0: Meta, outcome: Outcome, cancelled: bool, ghost attempt: Attempt)
    returns (failed: bool, retry: bool, meta: Meta)
    requires -1 <= index < |s.rules| && attempt.index == index && attempt.meta == meta0
    ensures failed == Failed(s, attempt, outcome)
    ensures retry == Retried(s, attempt, outcome, cancelled)
    ensures meta == MetaAfter(s, attempt, outcome)
  {
    meta := meta0;
    var hasCheck := index != -1 && s.rules[index].addressLimit;
    var rejected := false;
    failed := false;
    match outcome {
      case Response(checked, usable, addresses) =>
        if hasCheck && checked {
          if usable {
            meta := Meta(addresses);
            rejected := !s.rules[index].limitOk(meta);
          } else {
            rejected := true;
          }
          failed := rejected;
        }
      case KnownRejected =>
        failed, rejected := true, true;
      case Failure =>
        failed := true;
    }
    var bypass := failed && index != -1 && s.rules[index].bypassIfFailed && !cancelled;
    retry := (hasCheck && rejected) || bypass;
  }

  /** What Exchange makes of a rule that is not a route; a reject rule with method "reply" falls through to the query. */
  function OwnAnswer(action: Action): Answer
    requires !action.Route?
  {
    match action
    case Reject(Default) => Refused
    case Reject(Drop) => Dropped
    case Reject(ReplyMethod) => NilTransport
    case _ => Canned
  }

  /** `answer` after `trace` is what Exchange has to give. */
  ghost predicate ExchangeEnds(s: Setup, caller: Options, meta0: Meta, client: nat -> Outcome, cancelled: nat -> bool,
                               answer: Answer, trace: seq<Attempt>)
  {
    var again, after := ExchangeAgain(s, client, cancelled), ExchangeAfter(s, client);
    && Chain(s, caller, meta0, trace, again, after)
    && if answer.Answered? then
         && AnsweredByQuery(trace, again) && answer.attempt == |trace| - 1
         && answer.failed == Failed(s, trace[|trace| - 1], client(|trace| - 1))
       else
         exists index :: AnsweredByRule(s, meta0, trace, again, after, index) && answer == OwnAnswer(s.rules[index].action)
  }

  /**
   Router.Exchange. `client(n)` is the outcome of the n-th query and `cancelled(n)` whether the context ended
   by then. The loop terminates; its queries form a chain, so nothing of a rejected rule leaks into a later
   one; it answers with the first query that is not to be tried again, or as the first rule says that is no route.
   */
  method Exchange(s: Setup, caller: Options, meta0: Meta, client: nat -> Outcome, cancelled: nat -> bool)
    returns (answer: Answer, trace: seq<Attempt>)
    ensures ExchangeEnds(s, caller, meta0, client, cancelled, answer, trace)
    ensures |trace| <= |s.rules| + 1
  {
    trace := [];
    var ruleIndex := -1;
    var meta := meta0;
    ghost var again, after := ExchangeAgain(s, client, cancelled), ExchangeAfter(s, client);
    while true
      invariant -1 <= ruleIndex < |s.rules| && ruleIndex == LastIndex(trace)
      invariant Chain(s, caller, meta0, trace, again, after) && meta == NextMeta(meta0, trace, after)
      invariant trace != [] ==> ruleIndex != -1 && again(trace[|trace| - 1], |trace| - 1)
      invariant |trace| <= |s.rules| + 1
      decreases |s.rules| - ruleIndex
    {
      var n := |trace|;
      var index;
      index, trace := NextAttempt(s, caller, ruleIndex, meta, trace, meta0, again, after);
      if |trace| == n {
        assert AnsweredByRule(s, meta0, trace, again, after, index);
        match s.rules[index].action {
          case Reject(Default) => return Refused, trace;
          case Reject(Drop) => return Dropped, trace;
          case Predefined(_, _) => return Canned, trace;
          case _ => return NilTransport, trace;
        }
      }
      ghost var attempt := trace[n];
      ruleIndex := index;
      var failed, retry;
      failed, retry, meta := Judge(s, index, meta, client(n), cancelled(n), attempt);
      if retry {
        continue;
      }
      return Answered(n, failed), trace;
    }
  }

  /** Rules, caller and outcomes leave no choice: there is one answer and one sequence of queries. */
  lemma ExchangeIsDetermined(s: Setup, caller: Options, meta0: Meta, client: nat -> Outcome, cancelled: nat -> bool,
                             a: Answer, t: seq<Attempt>, b: Answer, u: seq<Attempt>)
    requires ExchangeEnds(s, caller, meta0, client, cancelled, a, t) && ExchangeEnds(s, caller, meta0, client, cancelled, b, u)
    ensures a == b && t == u
  {
    var again, after := ExchangeAgain(s, client, cancelled), ExchangeAfter(s, client);
    var i, j := -1, -1;
    if !a.Answered? {
      i :| AnsweredByRule(s, meta0, t, again, after, i) && a == OwnAnswer(s.rules[i].action);
    }
    if !b.Answered? {
      j :| AnsweredByRule(s, meta0, u, again, after, j) && b == OwnAnswer(s.rules[j].action);
    }
    EndedChainIsLongest(s, caller, meta0, t, u, again, after, i);
    EndedChainIsLongest(s, caller, meta0, u, t, again, after, j);
    ChainsAgree(s, caller, meta0, t, u, again, after, |t|);
    assert t == t[..|t|] == u[..|t|] == u;
    if !a.Answered? && !b.Answered? {
      FirstStopIsUnique(s, LastIndex(t) + 1, NextMeta(meta0, t, after), i, j);
    }
  }

  /** Exactly when the client is handed a nil transport: the walk comes to a reject rule with method "reply". */
  lemma NilTransportExactly(s: Setup, caller: Options, meta0: Meta, client: nat -> Outcome, cancelled: nat -> bool,
                            answer: Answer, trace: seq<Attempt>)
    requires ExchangeEnds(s, caller, meta0, client, cancelled, answer, trace)
    ensures answer.NilTransport? <==>
            exists index :: AnsweredByRule(s, meta0, trace, ExchangeAgain(s, client, cancelled), ExchangeAfter(s, client), index)
                            && s.rules[index].action == Reject(ReplyMethod)
  {
    var again, after := ExchangeAgain(s, client, cancelled), ExchangeAfter(s, client);
    if !answer.Answered? {
      var i :| AnsweredByRule(s, meta0, trace, again, after, i) && answer == OwnAnswer(s.rules[i].action);
      if j :| AnsweredByRule(s, meta0, trace, again, after, j) && s.rules[j].action == Reject(ReplyMethod) {
        FirstStopIsUnique(s, LastIndex(trace) + 1, NextMeta(meta0, trace, after), i, j);
      }
    }
  }

  /** Which answer a rule gives that is no route: refused, dropped, predefined, or the nil transport. */
  lemma RuleAnswersExactly(s: Setup, caller: Options, meta0: Meta, client: nat -> Outcome, cancelled: nat -> bool,
                           answer: Answer, trace: seq<Attempt>)
    requires ExchangeEnds(s, caller, meta0, client, cancelled, answer, trace) && !answer.Answered?
    ensures exists index ::
              && AnsweredByRule(s, meta0, trace, ExchangeAgain(s, client, cancelled), ExchangeAfter(s, client), index)
              && (answer == Refused <==> s.rules[index].action == Reject(Default))
              && (answer == Dropped <==> s.rules[index].action == Reject(Drop))
              && (answer == NilTransport <==> s.rules[index].action == Reject(ReplyMethod))
              && (answer == Canned <==> s.rules[index].action.Predefined?)
  {
    var i :| AnsweredByRule(s, meta0, trace, ExchangeAgain(s, client, cancelled), ExchangeAfter(s, client), i)
             && answer == OwnAnswer(s.rules[i].action);
    assert Stops(s, i, NextMeta(meta0, trace, ExchangeAfter(s, client)));
  }

  /** If the first rule to stop the walk is no route, nothing is sent, whatever the client would have said. */
  lemma FirstRuleAnswers(s: Setup, caller: Options, meta0: Meta, client: nat -> Outcome, cancelled: nat -> bool,
                         answer: Answer, trace: seq<Attempt>, index: nat)
    requires ExchangeEnds(s, caller, meta0, client, cancelled, answer, trace)
    requires index < |s.rules| && FirstStop(s, 0, meta0, index) && !s.rules[index].action.Route?
    ensures trace == [] && answer == OwnAnswer(s.rules[index].action)
  {
    var again, after := ExchangeAgain(s, client, cancelled), ExchangeAfter(s, client);
    assert AnsweredByRule(s, meta0, [], again, after, index);
    assert ExchangeEnds(s, caller, meta0, client, cancelled, OwnAnswer(s.rules[index].action), []);
    ExchangeIsDetermined(s, caller, meta0, client, cancelled, answer, trace, OwnAnswer(s.rules[index].action), []);
  }

  /** Attempt `k` was known to be rejected, or its checked response is outside the limit of its rule. */
  predicate OutsideLimit(s: Setup, a: Attempt, o: Outcome) {
    && 0 <= a.index < |s.rules| && s.rules[a.index].addressLimit
    && (o.KnownRejected? || (o.Response? && o.checked && !(o.usable && s.rules[a.index].limitOk(Meta(o.addresses)))))
  }

  /** Attempt `k` failed in any way, under a rule that bypasses failures, and nobody cancelled the call. */
  predicate Bypassed(s: Setup, a: Attempt, o: Outcome, cancelled: bool) {
    && 0 <= a.index < |s.rules| && s.rules[a.index].bypassIfFailed && !cancelled
    && (o.Failure? || o.KnownRejected? || OutsideLimit(s, a, o))
  }

  /**
   Exactly which attempts are tried again, and exactly what the answer is: an attempt outside its limit, or bypassed, is
   never the answer, and every attempt before the last is one of these.
   */
  lemma RetriesExactly(s: Setup, caller: Options, meta0: Meta, client: nat -> Outcome, cancelled: nat -> bool,
                       answer: Answer, trace: seq<Attempt>, k: nat)
    requires ExchangeEnds(s, caller, meta0, client, cancelled, answer, trace) && k < |trace|
    ensures (k < |trace| - 1 || !answer.Answered?) <==>
            OutsideLimit(s, trace[k], client(k)) || Bypassed(s, trace[k], client(k), cancelled(k))
    ensures answer.Answered? ==> answer.attempt == |trace| - 1
    ensures answer.Answered? && k == |trace| - 1 ==>
              (answer.failed <==> client(k).Failure? || client(k).KnownRejected?)
  {
    var again, after := ExchangeAgain(s, client, cancelled), ExchangeAfter(s, client);
    ChainIsFresh(s, caller, meta0, trace, again, after, k);
    assert again(trace[k], k) <==> OutsideLimit(s, trace[k], client(k)) || Bypassed(s, trace[k], client(k), cancelled(k));
  }

  /** What the walks see: the first one the caller's metadata, a later one the addresses of the last checked, usable response. */
  lemma RetryMetadata(s: Setup, caller: Options, meta0: Meta, client: nat -> Outcome, cancelled: nat -> bool,
                      answer: Answer, trace: seq<Attempt>, k: nat)
    requires ExchangeEnds(s, caller, meta0, client, cancelled, answer, trace) && k < |trace|
    ensures k == 0 ==> trace[k].meta == meta0
    ensures k > 0 ==>
              var o, a := client(k - 1), trace[k - 1];
              trace[k].meta == if 0 <= a.index < |s.rules| && s.rules[a.index].addressLimit && o.Response? && o.checked && o.usable
                               then Meta(o.addresses) else a.meta
  {
    ChainIsFresh(s, caller, meta0, trace, ExchangeAgain(s, client, cancelled), ExchangeAfter(s, client), k);
    assert k > 0 ==> trace[..k][k - 1] == trace[k - 1];
  }

  /** A response that ends the loop under an address limit meets the limit, if it was checked; it never ends it as rejected. */
  lemma LimitedAnswer(s: Setup, caller: Options, meta0: Meta, client: nat -> Outcome, cancelled: nat -> bool,
                      answer: Answer, trace: seq<Attempt>)
    requires ExchangeEnds(s, caller, meta0, client, cancelled, answer, trace) && answer.Answered?
    requires Limited(s, trace[|trace| - 1])
    ensures var outcome := client(answer.attempt);
            && outcome != KnownRejected && (answer.failed <==> outcome.Failure?)
            && (outcome.Response? && outcome.checked ==>
                  outcome.usable && s.rules[trace[|trace| - 1].index].limitOk(Meta(outcome.addresses)))
  {
    assert !Retried(s, trace[|trace| - 1], client(answer.attempt), cancelled(answer.attempt));
  }

  /** A cached response is the answer whenever it is given, inside the address limit of its rule or not. */
  lemma UncheckedAnswer(s: Setup, caller: Options, meta0: Meta, client: nat -> Outcome, cancelled: nat -> bool,
                        answer: Answer, trace: seq<Attempt>, k: nat)
    requires ExchangeEnds(s, caller, meta0, client, cancelled, answer, trace) && k < |trace|
    requires client(k).Response? && !client(k).checked
    ensures k == |trace| - 1 && answer == Answered(k, false)
  {
    var again, after := ExchangeAgain(s, client, cancelled), ExchangeAfter(s, client);
    ChainIsFresh(s, caller, meta0, trace, again, after, k);
    assert !again(trace[k], k);
  }

  // ---- Lookup ----

  /** What a lookup of both families gave; `seen` are the addresses last shown to the response check, if any. */
  datatype Looked = Looked(addresses: seq<Addr>, failed: bool, seen: Option<seq<Addr>>)

  /** `failed` says that an error is returned with the addresses. */
  datatype LookupAnswer =
    | LookupRejected
    | LookupCanned(addresses: seq<Addr>, failed: bool)
    | Found(attempt: nat, failed: bool)

  /** The loop looks again: an empty result its rule bypasses, or an error under an address limit. */
  predicate LookedAgain(s: Setup, a: Attempt, l: Looked) {
    && 0 <= a.index < |s.rules|
    && ((l.addresses == [] && s.rules[a.index].bypassIfFailed) || (s.rules[a.index].addressLimit && l.failed))
  }

  function MetaAfterLookup(s: Setup, a: Attempt, l: Looked): Meta {
    if Limited(s, a) && l.seen.Some? then Meta(l.seen.value) else a.meta
  }

  function LookupAgain(s: Setup, client: nat -> Looked): (Attempt, nat) -> bool {
    (a: Attempt, k: nat) => LookedAgain(s, a, client(k))
  }

  function LookupAfter(s: Setup, client: nat -> Looked): (Attempt, nat) -> Meta {
    (a: Attempt, k: nat) => MetaAfterLookup(s, a, client(k))
  }

  function Unblocked(s: Setup, addresses: seq<Addr>): seq<Addr> {
    if addresses == [] then []
    else
      var n := |addresses| - 1;
      Unblocked(s, addresses[..n]) + if s.blocked(addresses[n]) then [] else [addresses[n]]
  }

  lemma {:induction false} UnblockedContents(s: Setup, addresses: seq<Addr>, x: Addr)
    ensures x in Unblocked(s, addresses) <==> x in addresses && !s.blocked(x)
  {
    if addresses != [] {
      var n := |addresses| - 1;
      UnblockedContents(s, addresses[..n], x);
      assert addresses == addresses[..n] + [addresses[n]];
    }
  }

  method FilterBlocked(s: Setup, addresses: seq<Addr>) returns (kept: seq<Addr>)
    ensures kept == Unblocked(s, addresses)
    ensures forall x :: x in kept <==> x in addresses && !s.blocked(x)
  {
    kept := [];
    for i := 0 to |addresses|
      invariant kept == Unblocked(s, addresses[..i])
    {
      assert addresses[..i + 1][..i] == addresses[..i];
      if !s.blocked(addresses[i]) {
        kept := kept + [addresses[i]];
      }
    }
    assert addresses[..|addresses|] == addresses;
    forall x ensures x in kept <==> x in addresses && !s.blocked(x) {
      UnblockedContents(s, addresses, x);
    }
  }

  /** Result and error are variables of the whole call: what the last lookup left in them is still there. */
  function LeftOver(trace: seq<Attempt>, client: nat -> Looked): Looked {
    if trace == [] then Looked([], false, None) else client(|trace| - 1)
  }

  /** What a rule answers that is no route; a lookup rejects whatever the method of the rule. */
  function LookupByRule(s: Setup, action: Action, left: Looked): LookupAnswer
    requires !action.Route? && !action.SetOptions?
  {
    match action
    case Reject(_) => LookupRejected
    case Predefined(success, addresses) =>
      if !success then LookupCanned(left.addresses, true)
      else
        var all := Unblocked(s, left.addresses + addresses);
        LookupCanned(all, left.failed || all == [])
  }

  /** `answer` after `trace` is what Lookup has to give; an empty result is an error. */
  ghost predicate LookupEnds(s: Setup, caller: Options, meta0: Meta, client: nat -> Looked, answer: LookupAnswer, trace: seq<Attempt>) {
    var again, after := LookupAgain(s, client), LookupAfter(s, client);
    && Chain(s, caller, meta0, trace, again, after)
    && if answer.Found? then
         && AnsweredByQuery(trace, again) && answer.attempt == |trace| - 1
         && answer.failed == (client(|trace| - 1).failed || client(|trace| - 1).addresses == [])
       else
         exists index ::
           && AnsweredByRule(s, meta0, trace, again, after, index)
           && answer == LookupByRule(s, s.rules[index].action, LeftOver(trace, client))
  }

  /** Router.Lookup: the same guarantees, with its own rule for trying again; no rule sends it to a fakeip transport. */
  method Lookup(s: Setup, caller: Options, meta0: Meta, client: nat -> Looked)
    returns (answer: LookupAnswer, trace: seq<Attempt>)
    ensures LookupEnds(s, caller, meta0, client, answer, trace)
    ensures |trace| <= |s.rules| + 1
    ensures !s.allowFakeIP ==> forall k :: 0 <= k < |trace| && trace[k].index != -1 ==> !trace[k].transport.fakeIP
  {
    answer, trace := LookupLoop(s, caller, meta0, client);
    NoFakeIP(s, caller, meta0, trace, LookupAgain(s, client), LookupAfter(s, client));
  }

  method LookupLoop(s: Setup, caller: Options, meta0: Meta, client: nat -> Looked)
    returns (answer: LookupAnswer, trace: seq<Attempt>)
    ensures LookupEnds(s, caller, meta0, client, answer, trace)
    ensures |trace| <= |s.rules| + 1
  {
    trace := [];
    var ruleIndex := -1;
    var meta := meta0;
    var looked := Looked([], false, None);
    ghost var again, after := LookupAgain(s, client), LookupAfter(s, client);
    while true
      invariant -1 <= ruleIndex < |s.rules| && ruleIndex == LastIndex(trace)
      invariant Chain(s, caller, meta0, trace, again, after) && meta == NextMeta(meta0, trace, after)
      invariant trace != [] ==> ruleIndex != -1 && again(trace[|trace| - 1], |trace| - 1)
      invariant looked == LeftOver(trace, client) && |trace| <= |s.rules| + 1
      decreases |s.rules| - ruleIndex
    {
      var n := |trace|;
      var index;
      index, trace := NextAttempt(s, caller, ruleIndex, meta, trace, meta0, again, after);
      if |trace| == n {
        assert AnsweredByRule(s, meta0, trace, again, after, index);
        answer := AnswerLookup(s, s.rules[index].action, looked.addresses, looked.failed, looked);
        return;
      }
      ruleIndex := index;
      looked := client(n);
      var retry;
      retry, meta := JudgeLookup(s, index, meta, looked, trace[n]);
      if !retry {
        return Found(n, looked.failed || |looked.addresses| == 0), trace;
      }
    }
  }

  /** The switch over the matched rule: a predefined answer is appended to what the result variable still holds. */
  method AnswerLookup(s: Setup, action: Action, result: seq<Addr>, error: bool, ghost left: Looked) returns (answer: LookupAnswer)
    requires !action.Route? && !action.SetOptions? && left.addresses == result && left.failed == error
    ensures answer == LookupByRule(s, action, left)
  {
    match action {
      case Reject(_) =>
        return LookupRejected;
      case Predefined(success, addresses) =>
        if !success {
          return LookupCanned(result, true);
        }
        var kept := FilterBlocked(s, result + addresses);
        return LookupCanned(kept, error || |kept| == 0);
    }
  }

  /** What the loop makes of one lookup. */
  method JudgeLookup(s: Setup, index: int, meta0: Meta, looked: Looked, ghost attempt: Attempt) returns (retry: bool, meta: Meta)
    requires -1 <= index < |s.rules| && attempt.index == index && attempt.meta == meta0
    ensures retry == LookedAgain(s, attempt, looked) && meta == MetaAfterLookup(s, attempt, looked)
  {
    meta := meta0;
    var hasCheck := index != -1 && s.rules[index].addressLimit;
    if hasCheck && looked.seen.Some? {
      meta := Meta(looked.seen.value);
    }
    if index != -1 && |looked.addresses| == 0 && s.rules[index].bypassIfFailed {
      return true, meta;
    }
    return hasCheck && looked.failed, meta;
  }

  lemma NoFakeIP(s: Setup, caller: Options, meta0: Meta, trace: seq<Attempt>,
                 again: (Attempt, nat) -> bool, after: (Attempt, nat) -> Meta)
    requires Chain(s, caller, meta0, trace, again, after)
    ensures !s.allowFakeIP ==> forall k :: 0 <= k < |trace| && trace[k].index != -1 ==> !trace[k].transport.fakeIP
  {
    forall k: nat | k < |trace| && trace[k].index != -1 && !s.allowFakeIP ensures !trace[k].transport.fakeIP {
      ChainIsFresh(s, caller, meta0, trace, again, after, k);
    }
  }

  /** As for Exchange, there is one answer and one sequence of lookups. */
  lemma LookupIsDetermined(s: Setup, caller: Options, meta0: Meta, client: nat -> Looked,
                           a: LookupAnswer, t: seq<Attempt>, b: LookupAnswer, u: seq<Attempt>)
    requires LookupEnds(s, caller, meta0, client, a, t) && LookupEnds(s, caller, meta0, client, b, u)
    ensures a == b && t == u
  {
    var again, after := LookupAgain(s, client), LookupAfter(s, client);
    var i, j := -1, -1;
    if !a.Found? {
      i :| AnsweredByRule(s, meta0, t, again, after, i) && a == LookupByRule(s, s.rules[i].action, LeftOver(t, client));
    }
    if !b.Found? {
      j :| AnsweredByRule(s, meta0, u, again, after, j) && b == LookupByRule(s, s.rules[j].action, LeftOver(u, client));
    }
    EndedChainIsLongest(s, caller, meta0, t, u, again, after, i);
    EndedChainIsLongest(s, caller, meta0, u, t, again, after, j);
    ChainsAgree(s, caller, meta0, t, u, again, after, |t|);
    assert t == t[..|t|] == u[..|t|] == u;
    if !a.Found? && !b.Found? {
      FirstStopIsUnique(s, LastIndex(t) + 1, NextMeta(meta0, t, after), i, j);
    }
  }

  /**
   Exactly when a predefined answer comes with an error: its own code is not success, nothing is left after filtering,
   or the lookup tried before it failed, whose error nobody clears.
   */
  lemma CannedLookupFails(s: Setup, caller: Options, meta0: Meta, client: nat -> Looked, answer: LookupAnswer, trace: seq<Attempt>)
    requires LookupEnds(s, caller, meta0, client, answer, trace) && answer.LookupCanned?
    ensures exists index ::
              && AnsweredByRule(s, meta0, trace, LookupAgain(s, client), LookupAfter(s, client), index)
              && s.rules[index].action.Predefined?
              && (answer.failed <==> !s.rules[index].action.success || answer.addresses == []
                                     || (trace != [] && client(|trace| - 1).failed))
  {
    var again, after := LookupAgain(s, client), LookupAfter(s, client);
    var i :| AnsweredByRule(s, meta0, trace, again, after, i) && answer == LookupByRule(s, s.rules[i].action, LeftOver(trace, client));
    assert s.rules[i].action.Predefined?;
  }

  /**
   Exactly which lookups are tried again: an empty result under a rule that bypasses failures, or an error under an
   address limit; and what the next walk sees.
   */
  lemma LookupRetriesExactly(s: Setup, caller: Options, meta0: Meta, client: nat -> Looked, answer: LookupAnswer, trace: seq<Attempt>, k: nat)
    requires LookupEnds(s, caller, meta0, client, answer, trace) && k < |trace|
    ensures (k < |trace| - 1 || !answer.Found?) <==>
            && 0 <= trace[k].index < |s.rules|
            && ((s.rules[trace[k].index].bypassIfFailed && client(k).addresses == [])
                || (s.rules[trace[k].index].addressLimit && client(k).failed))
    ensures k == 0 ==> trace[k].meta == meta0
    ensures k > 0 ==>
              var l, a := client(k - 1), trace[k - 1];
              trace[k].meta == if 0 <= a.index < |s.rules| && s.rules[a.index].addressLimit && l.seen.Some? then Meta(l.seen.value) else a.meta
  {
    var again, after := LookupAgain(s, client), LookupAfter(s, client);
    ChainIsFresh(s, caller, meta0, trace, again, after, k);
    assert again(trace[k], k) <==> LookedAgain(s, trace[k], client(k));
    assert k > 0 ==> trace[..k][k - 1] == trace[k - 1];
  }

  const SERVER := Transport("server", false, None)
  const NO_OPTIONS := RouteOptions(AsIS, false, None, None)

  /** An address-limited route, then a predefined answer of one address. */
  function RouteThenCanned(): Setup {
    var always, never := (m: Meta) => true, (m: Meta) => false;
    Setup([Rule(true, always, never, false, Route("server", NO_OPTIONS)), Rule(false, always, never, false, Predefined(true, [7]))],
          map["server" := SERVER], SERVER, AsIS, false, true, (x: Addr) => false)
  }

  lemma RouteThenCannedStops(meta: Meta)
    ensures var s := RouteThenCanned(); FirstStop(s, 0, meta, 0) && FirstStop(s, 1, meta, 1)
  {
    var s := RouteThenCanned();
    assert Stops(s, 0, meta) && Stops(s, 1, meta);
  }

  lemma OneAddress()
    ensures Unblocked(RouteThenCanned(), [7]) == [7]
  {
    assert [7][..0] == [];
  }

  /** The first lookup fails; the predefined answer that follows is returned with the error of the first. */
  lemma CannedLookupLeaksError(caller: Options, meta0: Meta, client: nat -> Looked, answer: LookupAnswer, trace: seq<Attempt>)
    requires client(0) == Looked([], true, None)
    requires LookupEnds(RouteThenCanned(), caller, meta0, client, answer, trace)
    ensures answer == LookupCanned([7], true) && |trace| == 1
  {
    var s := RouteThenCanned();
    var first := Attempt(0, SERVER, WithDefault(s, MatchedOptions(s, caller, 0, meta0, 0)), meta0);
    CannedLookupEnds(caller, meta0, client, first);
    LookupIsDetermined(s, caller, meta0, client, answer, trace, LookupCanned([7], true), [first]);
  }

  lemma CannedLookupEnds(caller: Options, meta0: Meta, client: nat -> Looked, first: Attempt)
    requires client(0) == Looked([], true, None) && first.meta == meta0 && first.index == 0 && first.transport == SERVER
    requires first.options == WithDefault(RouteThenCanned(), MatchedOptions(RouteThenCanned(), caller, 0, meta0, 0))
    ensures LookupEnds(RouteThenCanned(), caller, meta0, client, LookupCanned([7], true), [first])
  {
    var s := RouteThenCanned();
    var again, after := LookupAgain(s, client), LookupAfter(s, client);
    RouteThenCannedStops(meta0);
    ChainExtends(s, caller, meta0, [], first, again, after);
    assert [] + [first] == [first];
    assert AnsweredByRule(s, meta0, [first], again, after, 1);
    OneAddress();
    assert LeftOver([first], client).addresses + [7] == [7];
    assert LookupByRule(s, s.rules[1].action, LeftOver([first], client)) == LookupCanned([7], true);
  }
}
