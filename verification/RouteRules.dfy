/**
 Connection routing (route/route.go): the rule walk that is used both as the fast pre-match of a packet and as
 the full match of a connection. Rule conditions, the resolver and every rule's sniffer are arbitrary functions.
 */
module RouteRules {
  import opened Prelude

  datatype IP = IP(v4: bool, value: nat)

  datatype Socksaddr = Socksaddr(addr: Option<IP>, fqdn: string, port: nat)

  const EMPTY_ADDR := Socksaddr(None, "", 0)

  datatype InboundOptions = InboundOptions(sniffEnabled: bool, sniffOverride: bool, strategy: nat, udpDisableDomainUnmapping: bool)

  const NO_INBOUND_OPTIONS := InboundOptions(false, false, 0, false)

  datatype Network = TCP | UDP | ICMP

  /** The settings a rule may ask the dialer for; in the metadata, the settings in force. */
  datatype DialSettings = DialSettings(
    tunnelDestination: string,
    networkStrategy: Option<nat>,
    networkType: seq<nat>,
    fallbackNetworkType: seq<nat>,
    fallbackDelay: int,
    udpDisableDomainUnmapping: bool,
    udpConnect: bool,
    udpTimeout: int,
    tlsFragment: bool,
    tlsFragmentFallbackDelay: int,
    tlsRecordFragment: bool)

  datatype Meta = Meta(
    network: Network,
    destination: Socksaddr,
    originDestination: Socksaddr,
    routeOriginalDestination: Socksaddr,
    destinationAddresses: seq<IP>,
    ipVersion: nat,
    processInfo: Option<nat>,
    fakeIP: bool,
    protocol: string,
    domain: string,
    client: string,
    sniffState: nat,
    inboundOptions: InboundOptions,
    dial: DialSettings)

  datatype RouteOptions = RouteOptions(overrideAddress: Socksaddr, overridePort: nat, dial: DialSettings)

  datatype ResolveOptions = ResolveOptions(
    server: string, strategy: nat, disableCache: bool, rewriteTTL: Option<nat>, clientSubnet: Option<nat>)

  datatype Action =
    | Route(outbound: string, options: RouteOptions)
    | SetOptions(options: RouteOptions)
    | Bypass(outbound: string)
    | Reject
    | HijackDNS
    | Sniff(overrideDestination: bool, run: Meta -> Sniffed)
    | Resolve(how: ResolveOptions)
    | Direct

  datatype Rule = Rule(matches: Meta -> bool, action: Action)

  /**
   What one sniff leaves in the metadata, recognised (`ok`) or not: a sniffer may write before it asks for more data.
   `fatal` says that the connection broke; `sniffState` stands for what later sniffs remember of this one.
   */
  datatype Sniffed = Sniffed(protocol: string, domain: string, client: string, sniffState: nat, ok: bool, fatal: bool)

  datatype FakeIPEntry = NotFakeIP | NoRecord | FakeDomain(domain: string)

  /** The outside world, as functions of what it is asked: the resolver gives the same answer to the same question. */
  datatype Env = Env(
    isDomainName: string -> bool,
    findProcess: Meta -> Option<nat>,
    fakeIP: IP -> FakeIPEntry,
    reverseMapping: Option<IP> -> Option<string>,
    resolve: (Meta, ResolveOptions) -> Option<seq<IP>>,
    inboundSniff: Meta -> Sniffed)

  predicate IsFqdn(env: Env, a: Socksaddr) {
    env.isDomainName(a.fqdn)
  }

  predicate IsValid(env: Env, a: Socksaddr) {
    a.addr.Some? || IsFqdn(env, a)
  }

  // ---- What the actions do to the metadata ----

  predicate Overrides(env: Env, o: RouteOptions) {
    IsValid(env, o.overrideAddress) || o.overridePort > 0
  }

  function Redirect(env: Env, m: Meta, o: RouteOptions): Meta {
    var m0 := if Overrides(env, o) && !IsValid(env, m.routeOriginalDestination)
              then m.(routeOriginalDestination := m.destination) else m;
    var m1 := if IsValid(env, o.overrideAddress)
              then m0.(destination := Socksaddr(o.overrideAddress.addr, o.overrideAddress.fqdn, m0.destination.port), destinationAddresses := [])
              else m0;
    if o.overridePort > 0 then m1.(destination := m1.destination.(port := o.overridePort)) else m1
  }

  /** A rule's settings replace those in force wherever the rule sets them. */
  function Overlay(d: DialSettings, o: DialSettings): DialSettings {
    DialSettings(
      if o.tunnelDestination != "" then o.tunnelDestination else d.tunnelDestination,
      if o.networkStrategy.Some? then o.networkStrategy else d.networkStrategy,
      if o.networkType != [] then o.networkType else d.networkType,
      if o.fallbackNetworkType != [] then o.fallbackNetworkType else d.fallbackNetworkType,
      if o.fallbackDelay != 0 then o.fallbackDelay else d.fallbackDelay,
      d.udpDisableDomainUnmapping || o.udpDisableDomainUnmapping,
      d.udpConnect || o.udpConnect,
      if o.udpTimeout > 0 then o.udpTimeout else d.udpTimeout,
      d.tlsFragment || o.tlsFragment,
      if o.tlsFragment then o.tlsFragmentFallbackDelay else d.tlsFragmentFallbackDelay,
      d.tlsRecordFragment || o.tlsRecordFragment)
  }

  function ApplyOptions(env: Env, m: Meta, o: RouteOptions): Meta {
    Redirect(env, m, o).(dial := Overlay(m.dial, o.dial))
  }

  function Noted(m: Meta, found: Sniffed): Meta {
    m.(protocol := found.protocol, domain := found.domain, client := found.client, sniffState := found.sniffState)
  }

  /** None when the connection broke while sniffing. A protocol found earlier is not sniffed again. */
  function ApplySniff(env: Env, m: Meta, overrideDestination: bool, run: Meta -> Sniffed): Option<Meta> {
    if m.protocol != "" then Some(m)
    else
      var found := run(m);
      if found.fatal then None
      else if found.ok && overrideDestination && env.isDomainName(found.domain)
      then Some(Noted(m, found).(destination := Socksaddr(None, found.domain, m.destination.port)))
      else Some(Noted(m, found))
  }

  /** None when the resolver fails, or does not know the server. It is asked about a copy of the metadata. */
  function ApplyResolve(env: Env, m: Meta, o: ResolveOptions): Option<Meta> {
    if !IsFqdn(env, m.destination) then Some(m)
    else
      var addresses := env.resolve(m, o);
      if addresses.None? then None else Some(m.(destinationAddresses := addresses.value))
  }

  /** The effect of a matched rule; pre-match does not sniff. */
  function Effect(env: Env, m: Meta, action: Action, preMatch: bool): Option<Meta> {
    match action
    case Route(_, o) => Some(ApplyOptions(env, m, o))
    case SetOptions(o) => Some(ApplyOptions(env, m, o))
    case Sniff(overrideDestination, run) => if preMatch then Some(m) else ApplySniff(env, m, overrideDestination, run)
    case Resolve(o) => ApplyResolve(env, m, o)
    case _ => Some(m)
  }

  /** The matched rule is selected and ends the walk. */
  predicate Terminal(m: Meta, action: Action, preMatch: bool, supportBypass: bool) {
    match action
    case Route(_, _) => true
    case Reject => true
    case HijackDNS => true
    case Bypass(outbound) => supportBypass || outbound != ""
    case Sniff(_, _) => preMatch && m.network != ICMP
    case _ => false
  }

  // ---- What a walk means ----

  /** The metadata before rule `i`: the effects, in order, of all earlier rules that matched. */
  function Before(env: Env, rules: seq<Rule>, m0: Meta, preMatch: bool, i: nat): Option<Meta>
    requires i <= |rules|
  {
    if i == 0 then Some(m0)
    else
      var m := Before(env, rules, m0, preMatch, i - 1);
      if m.None? then None
      else if rules[i - 1].matches(m.value) then Effect(env, m.value, rules[i - 1].action, preMatch)
      else m
  }

  predicate Stops(env: Env, rules: seq<Rule>, m0: Meta, preMatch: bool, supportBypass: bool, i: nat)
    requires i < |rules|
  {
    var m := Before(env, rules, m0, preMatch, i);
    m.Some? && rules[i].matches(m.value) && Terminal(m.value, rules[i].action, preMatch, supportBypass)
  }

  datatype Outcome = Selected(index: nat, meta: Meta) | NoneSelected(meta: Meta) | Fatal

  /** The first matching terminal rule is selected, with the metadata all matching rules up to it have made. */
  ghost predicate IsOutcome(env: Env, rules: seq<Rule>, m0: Meta, preMatch: bool, supportBypass: bool, r: Outcome) {
    match r
    case Selected(i, meta) =>
      && i < |rules| && Stops(env, rules, m0, preMatch, supportBypass, i)
      && (forall j :: 0 <= j < i ==> !Stops(env, rules, m0, preMatch, supportBypass, j))
      && Before(env, rules, m0, preMatch, i + 1) == Some(meta)
    case NoneSelected(meta) =>
      && (forall j :: 0 <= j < |rules| ==> !Stops(env, rules, m0, preMatch, supportBypass, j))
      && Before(env, rules, m0, preMatch, |rules|) == Some(meta)
    case Fatal =>
      exists i :: 0 <= i < |rules| && FailsAt(env, rules, m0, preMatch, supportBypass, i)
  }

  ghost predicate FailsAt(env: Env, rules: seq<Rule>, m0: Meta, preMatch: bool, supportBypass: bool, i: nat)
    requires i < |rules|
  {
    && Before(env, rules, m0, preMatch, i).Some? && Before(env, rules, m0, preMatch, i + 1).None?
    && forall j :: 0 <= j < i ==> !Stops(env, rules, m0, preMatch, supportBypass, j)
  }

  // ---- The walk itself ----

  /** The metadata object that the walk shares with its caller. */
  class Context {
    var meta: Meta

    constructor (meta: Meta)
      ensures this.meta == meta
    {
      this.meta := meta;
    }
  }

  method ApplyOverride(env: Env, ctx: Context, o: RouteOptions)
    modifies ctx
    ensures ctx.meta == Redirect(env, old(ctx.meta), o)
  {
    if (IsValid(env, o.overrideAddress) || o.overridePort > 0) && !IsValid(env, ctx.meta.routeOriginalDestination) {
      ctx.meta := ctx.meta.(routeOriginalDestination := ctx.meta.destination);
    }
    if IsValid(env, o.overrideAddress) {
      ctx.meta := ctx.meta.(destination := Socksaddr(o.overrideAddress.addr, o.overrideAddress.fqdn, ctx.meta.destination.port));
      ctx.meta := ctx.meta.(destinationAddresses := []);
    }
    if o.overridePort > 0 {
      ctx.meta := ctx.meta.(destination := ctx.meta.destination.(port := o.overridePort));
    }
  }

  method ApplyDialSettings(d: DialSettings, o: DialSettings) returns (r: DialSettings)
    ensures r == Overlay(d, o)
  {
    var tunnel, strategy, kind, fallbackKind, delay := d.tunnelDestination, d.networkStrategy, d.networkType, d.fallbackNetworkType, d.fallbackDelay;
    var unmapping, connect, timeout := d.udpDisableDomainUnmapping, d.udpConnect, d.udpTimeout;
    var fragment, fragmentDelay, recordFragment := d.tlsFragment, d.tlsFragmentFallbackDelay, d.tlsRecordFragment;
    if o.tunnelDestination != "" {
      tunnel := o.tunnelDestination;
    }
    if o.networkStrategy.Some? {
      strategy := o.networkStrategy;
    }
    if |o.networkType| > 0 {
      kind := o.networkType;
    }
    if |o.fallbackNetworkType| > 0 {
      fallbackKind := o.fallbackNetworkType;
    }
    if o.fallbackDelay != 0 {
      delay := o.fallbackDelay;
    }
    if o.udpDisableDomainUnmapping {
      unmapping := true;
    }
    if o.udpConnect {
      connect := true;
    }
    if o.udpTimeout > 0 {
      timeout := o.udpTimeout;
    }
    if o.tlsFragment {
      fragment := true;
      fragmentDelay := o.tlsFragmentFallbackDelay;
    }
    if o.tlsRecordFragment {
      recordFragment := true;
    }
    r := DialSettings(tunnel, strategy, kind, fallbackKind, delay, unmapping, connect, timeout, fragment, fragmentDelay, recordFragment);
  }

  method ApplyRouteOptions(env: Env, ctx: Context, o: RouteOptions)
    modifies ctx
    ensures ctx.meta == ApplyOptions(env, old(ctx.meta), o)
  {
    ApplyOverride(env, ctx, o);
    var dial := ApplyDialSettings(ctx.meta.dial, o.dial);
    ctx.meta := ctx.meta.(dial := dial);
  }

  method ActionSniff(env: Env, ctx: Context, overrideDestination: bool, run: Meta -> Sniffed) returns (fatal: bool)
    modifies ctx
    ensures fatal <==> ApplySniff(env, old(ctx.meta), overrideDestination, run).None?
    ensures !fatal ==> ApplySniff(env, old(ctx.meta), overrideDestination, run) == Some(ctx.meta)
  {
    if ctx.meta.protocol != "" {
      return false;
    }
    var found := run(ctx.meta);
    if found.fatal {
      return true;
    }
    ctx.meta := Noted(ctx.meta, found);
    if found.ok && overrideDestination && env.isDomainName(ctx.meta.domain) {
      ctx.meta := ctx.meta.(destination := Socksaddr(None, ctx.meta.domain, ctx.meta.destination.port));
    }
    return false;
  }

  method ActionResolve(env: Env, ctx: Context, o: ResolveOptions) returns (fatal: bool)
    modifies ctx
    ensures fatal <==> ApplyResolve(env, old(ctx.meta), o).None?
    ensures !fatal ==> ApplyResolve(env, old(ctx.meta), o) == Some(ctx.meta)
  {
    if IsFqdn(env, ctx.meta.destination) {
      var addresses := env.resolve(ctx.meta, o);
      if addresses.None? {
        return true;
      }
      ctx.meta := ctx.meta.(destinationAddresses := addresses.value);
    }
    return false;
  }

  /** What a matched rule does to the shared metadata before the walk decides whether to go on. */
  method Perform(env: Env, ctx: Context, action: Action, preMatch: bool) returns (fatal: bool)
    modifies ctx
    ensures fatal <==> Effect(env, old(ctx.meta), action, preMatch).None?
    ensures !fatal ==> Effect(env, old(ctx.meta), action, preMatch) == Some(ctx.meta)
  {
    fatal := false;
    match action {
      case Route(_, o) =>
        ApplyRouteOptions(env, ctx, o);
      case SetOptions(o) =>
        ApplyRouteOptions(env, ctx, o);
      case Sniff(overrideDestination, run) =>
        if !preMatch {
          fatal := ActionSniff(env, ctx, overrideDestination, run);
        }
      case Resolve(o) =>
        fatal := ActionResolve(env, ctx, o);
      case _ =>
    }
  }

  /** The rule loop of matchRule. */
  method WalkRules(env: Env, rules: seq<Rule>, ctx: Context, preMatch: bool, supportBypass: bool) returns (r: Outcome)
    modifies ctx
    ensures IsOutcome(env, rules, old(ctx.meta), preMatch, supportBypass, r)
    ensures r.Fatal? || r.meta == ctx.meta
  {
    ghost var m0 := ctx.meta;
    for i := 0 to |rules|
      invariant Before(env, rules, m0, preMatch, i) == Some(ctx.meta)
      invariant forall j :: 0 <= j < i ==> !Stops(env, rules, m0, preMatch, supportBypass, j)
    {
      var rule := rules[i];
      if !rule.matches(ctx.meta) {
        continue;
      }
      var stop := Terminal(ctx.meta, rule.action, preMatch, supportBypass);
      var fatal := Perform(env, ctx, rule.action, preMatch);
      if fatal {
        assert FailsAt(env, rules, m0, preMatch, supportBypass, i);
        return Fatal;
      }
      if stop {
        return Selected(i, ctx.meta);
      }
    }
    return NoneSelected(ctx.meta);
  }

  lemma OutcomeIsUnique(env: Env, rules: seq<Rule>, m0: Meta, preMatch: bool, supportBypass: bool, r: Outcome, q: Outcome)
    requires IsOutcome(env, rules, m0, preMatch, supportBypass, r)
    requires IsOutcome(env, rules, m0, preMatch, supportBypass, q)
    ensures r == q
  {
    if r.Fatal? != q.Fatal? {
      var good := if r.Fatal? then q else r;
      var i :| 0 <= i < |rules| && FailsAt(env, rules, m0, preMatch, supportBypass, i);
      var k := if good.Selected? then good.index + 1 else |rules|;
      if i < k {
        BeforeFails(env, rules, m0, preMatch, i + 1, k);
      }
    }
  }

  lemma {:induction false} BeforeFails(env: Env, rules: seq<Rule>, m0: Meta, preMatch: bool, i: nat, k: nat)
    requires i <= k <= |rules| && Before(env, rules, m0, preMatch, i).None?
    ensures Before(env, rules, m0, preMatch, k).None?
  {
    if i < k {
      BeforeFails(env, rules, m0, preMatch, i, k - 1);
    }
  }

  // ---- Which rules end a walk, and what the others do ----

  /**
   A matching rule that a walk passes is no route, reject or hijack rule, no bypass that names an outbound or is
   supported, and no sniff rule of a pre-match, ICMP excepted.
   */
  lemma PassedRules(env: Env, rules: seq<Rule>, m0: Meta, preMatch: bool, supportBypass: bool, r: Outcome, j: nat, m: Meta)
    requires IsOutcome(env, rules, m0, preMatch, supportBypass, r) && !r.Fatal?
    requires j < |rules| && (r.Selected? ==> j < r.index)
    requires Before(env, rules, m0, preMatch, j) == Some(m) && rules[j].matches(m)
    ensures var action := rules[j].action;
            && !action.Route? && !action.Reject? && !action.HijackDNS?
            && (action.Bypass? ==> !supportBypass && action.outbound == "")
            && (action.Sniff? ==> !preMatch || m.network == ICMP)
  {
    assert !Stops(env, rules, m0, preMatch, supportBypass, j);
  }

  /** The selected rule matches and is one of those. */
  lemma SelectedRule(env: Env, rules: seq<Rule>, m0: Meta, preMatch: bool, supportBypass: bool, i: nat, meta: Meta)
    requires IsOutcome(env, rules, m0, preMatch, supportBypass, Selected(i, meta))
    ensures i < |rules| && Before(env, rules, m0, preMatch, i).Some?
    ensures var m, action := Before(env, rules, m0, preMatch, i).value, rules[i].action;
            && rules[i].matches(m)
            && (action.Route? || action.Reject? || action.HijackDNS? || (action.Bypass? && (supportBypass || action.outbound != ""))
                || (action.Sniff? && preMatch && m.network != ICMP))
  {
  }

  /** A walk fails at a matching resolve rule whose resolver fails, or at a matching sniff rule that finds the connection broken. */
  lemma FailedRule(env: Env, rules: seq<Rule>, m0: Meta, preMatch: bool, supportBypass: bool)
    requires IsOutcome(env, rules, m0, preMatch, supportBypass, Fatal)
    ensures exists i: nat, m: Meta ::
              && i < |rules| && Before(env, rules, m0, preMatch, i) == Some(m) && rules[i].matches(m)
              && ((rules[i].action.Resolve? && IsFqdn(env, m.destination) && env.resolve(m, rules[i].action.how).None?)
                  || (rules[i].action.Sniff? && !preMatch && m.protocol == "" && rules[i].action.run(m).fatal))
  {
    var i :| 0 <= i < |rules| && FailsAt(env, rules, m0, preMatch, supportBypass, i);
    var m := Before(env, rules, m0, preMatch, i).value;
    assert Before(env, rules, m0, preMatch, i) == Some(m) && rules[i].matches(m);
  }

  /** A rule that does not match leaves the metadata to the next rule as they are. */
  lemma UnmatchedRule(env: Env, rules: seq<Rule>, m0: Meta, preMatch: bool, i: nat)
    requires i < |rules| && Before(env, rules, m0, preMatch, i).Some?
    ensures var m := Before(env, rules, m0, preMatch, i).value;
            if rules[i].matches(m) then Before(env, rules, m0, preMatch, i + 1) == Effect(env, m, rules[i].action, preMatch)
            else Before(env, rules, m0, preMatch, i + 1) == Some(m)
  {
  }

  /**
   What route and route-options rules do, field by field: an address overrides host and resolved addresses, a port
   overrides the port, the destination before the first override is recorded, dial settings follow, and nothing else changes.
   */
  lemma OverrideFields(env: Env, m: Meta, action: Action, preMatch: bool)
    requires action.Route? || action.SetOptions?
    ensures Effect(env, m, action, preMatch).Some?
    ensures var m', o := Effect(env, m, action, preMatch).value, action.options;
            var byAddress := o.overrideAddress.addr.Some? || env.isDomainName(o.overrideAddress.fqdn);
            && m'.destination.addr == (if byAddress then o.overrideAddress.addr else m.destination.addr)
            && m'.destination.fqdn == (if byAddress then o.overrideAddress.fqdn else m.destination.fqdn)
            && m'.destination.port == (if o.overridePort > 0 then o.overridePort else m.destination.port)
            && m'.destinationAddresses == (if byAddress then [] else m.destinationAddresses)
            && m'.routeOriginalDestination ==
               (if (byAddress || o.overridePort > 0) && m.routeOriginalDestination.addr.None?
                   && !env.isDomainName(m.routeOriginalDestination.fqdn)
                then m.destination else m.routeOriginalDestination)
            && m' == m.(destination := m'.destination, destinationAddresses := m'.destinationAddresses,
                        routeOriginalDestination := m'.routeOriginalDestination, dial := m'.dial)
  {
  }

  /** A dial setting is the rule's where the rule has one, and stays otherwise; switches only go on. */
  lemma DialFields(env: Env, m: Meta, action: Action, preMatch: bool)
    requires (action.Route? || action.SetOptions?) && Effect(env, m, action, preMatch).Some?
    ensures var d, d', o := m.dial, Effect(env, m, action, preMatch).value.dial, action.options.dial;
            && d'.tunnelDestination == (if |o.tunnelDestination| > 0 then o.tunnelDestination else d.tunnelDestination)
            && d'.networkStrategy == (if o.networkStrategy.Some? then o.networkStrategy else d.networkStrategy)
            && d'.networkType == (if |o.networkType| > 0 then o.networkType else d.networkType)
            && d'.fallbackNetworkType == (if |o.fallbackNetworkType| > 0 then o.fallbackNetworkType else d.fallbackNetworkType)
            && d'.fallbackDelay == (if o.fallbackDelay != 0 then o.fallbackDelay else d.fallbackDelay)
            && d'.udpTimeout == (if o.udpTimeout > 0 then o.udpTimeout else d.udpTimeout)
            && d'.tlsFragmentFallbackDelay == (if o.tlsFragment then o.tlsFragmentFallbackDelay else d.tlsFragmentFallbackDelay)
            && (d'.udpDisableDomainUnmapping <==> d.udpDisableDomainUnmapping || o.udpDisableDomainUnmapping)
            && (d'.udpConnect <==> d.udpConnect || o.udpConnect)
            && (d'.tlsFragment <==> d.tlsFragment || o.tlsFragment)
            && (d'.tlsRecordFragment <==> d.tlsRecordFragment || o.tlsRecordFragment)
  {
  }

  /** A resolve rule replaces the resolved addresses of a domain by the resolver's, and does nothing to an address. */
  lemma ResolveFields(env: Env, m: Meta, o: ResolveOptions, preMatch: bool)
    ensures var r := Effect(env, m, Resolve(o), preMatch);
            if !env.isDomainName(m.destination.fqdn) then r == Some(m)
            else if env.resolve(m, o).None? then r == None
            else r.Some? && r.value.destinationAddresses == env.resolve(m, o).value
                 && r.value == m.(destinationAddresses := r.value.destinationAddresses)
  {
  }

  /** A sniff rule of the full match runs once per connection; what it finds may replace the destination by the domain. */
  lemma SniffFields(env: Env, m: Meta, overrideDestination: bool, run: Meta -> Sniffed)
    ensures var r, found := Effect(env, m, Sniff(overrideDestination, run), false), run(m);
            if m.protocol != "" then r == Some(m)
            else if found.fatal then r == None
            else
              && r.Some? && r.value.protocol == found.protocol && r.value.domain == found.domain && r.value.client == found.client
              && r.value.destination == (if found.ok && overrideDestination && env.isDomainName(found.domain)
                                         then Socksaddr(None, found.domain, m.destination.port) else m.destination)
              && r.value == m.(protocol := found.protocol, domain := found.domain, client := found.client,
                               sniffState := found.sniffState, destination := r.value.destination)
    ensures Effect(env, m, Sniff(overrideDestination, run), true) == Some(m)
  {
  }

  /** Every other rule only decides. */
  lemma DecidingFields(env: Env, m: Meta, action: Action, preMatch: bool)
    requires action.Bypass? || action.Reject? || action.HijackDNS? || action.Direct?
    ensures Effect(env, m, action, preMatch) == Some(m)
  {
  }

  // ---- Fast path against slow path ----

  lemma EffectKeepsNetwork(env: Env, m: Meta, action: Action, preMatch: bool)
    ensures Effect(env, m, action, preMatch).Some? ==> Effect(env, m, action, preMatch).value.network == m.network
  {
  }

  /** As long as the pre-match has not stopped, both walks carry the same metadata and neither has stopped. */
  lemma {:induction false} WalksAgree(env: Env, rules: seq<Rule>, m0: Meta, supportBypass: bool, i: nat)
    requires m0.network != ICMP && i <= |rules|
    requires forall j :: 0 <= j < i ==> !Stops(env, rules, m0, true, supportBypass, j)
    ensures Before(env, rules, m0, false, i) == Before(env, rules, m0, true, i)
    ensures Before(env, rules, m0, true, i).Some? ==> Before(env, rules, m0, true, i).value.network == m0.network
    ensures forall j :: 0 <= j < i ==> !Stops(env, rules, m0, false, false, j)
  {
    if i > 0 {
      WalksAgree(env, rules, m0, supportBypass, i - 1);
      var m := Before(env, rules, m0, true, i - 1);
      assert !Stops(env, rules, m0, true, supportBypass, i - 1);
      if m.Some? && rules[i - 1].matches(m.value) {
        assert !rules[i - 1].action.Sniff?;
        EffectKeepsNetwork(env, m.value, rules[i - 1].action, true);
      }
    }
  }

  /** The pre-match stopped at a rule that only stops a pre-match: a sniff rule, or a bypass without an outbound. */
  predicate Deferred(rules: seq<Rule>, fast: Outcome) {
    && fast.Selected? && fast.index < |rules|
    && var action := rules[fast.index].action; action.Sniff? || (action.Bypass? && action.outbound == "")
  }

  /** A pre-match that was not deferred is an outcome of the full match. */
  lemma FastIsSlow(env: Env, rules: seq<Rule>, m0: Meta, supportBypass: bool, fast: Outcome)
    requires m0.network != ICMP && IsOutcome(env, rules, m0, true, supportBypass, fast) && !Deferred(rules, fast)
    ensures IsOutcome(env, rules, m0, false, false, fast)
  {
    match fast {
      case Selected(i, meta) =>
        WalksAgree(env, rules, m0, supportBypass, i);
        assert Stops(env, rules, m0, false, false, i);
      case NoneSelected(meta) =>
        WalksAgree(env, rules, m0, supportBypass, |rules|);
      case Fatal =>
        var i :| 0 <= i < |rules| && FailsAt(env, rules, m0, true, supportBypass, i);
        WalksAgree(env, rules, m0, supportBypass, i);
        assert FailsAt(env, rules, m0, false, false, i);
    }
  }

  /**
   For every rule list: the full match gives the verdict, the rule and the metadata of the pre-match exactly when
   the pre-match was not deferred.
   */
  lemma FastAgreesWithSlow(env: Env, rules: seq<Rule>, m0: Meta, supportBypass: bool, fast: Outcome, slow: Outcome)
    requires m0.network != ICMP
    requires IsOutcome(env, rules, m0, true, supportBypass, fast)
    requires IsOutcome(env, rules, m0, false, false, slow)
    ensures fast == slow <==> !Deferred(rules, fast)
  {
    if !Deferred(rules, fast) {
      FastIsSlow(env, rules, m0, supportBypass, fast);
      OutcomeIsUnique(env, rules, m0, false, false, fast, slow);
    } else if slow.Selected? {
      assert Stops(env, rules, m0, false, false, slow.index);
      assert slow.index != fast.index;
    }
  }

  // ---- The recorded original destination ----

  /** Rule `i` matched on the way and overrode the destination. */
  predicate OverridesAt(env: Env, rules: seq<Rule>, m0: Meta, preMatch: bool, i: nat)
    requires i < |rules|
  {
    var m := Before(env, rules, m0, preMatch, i);
    && m.Some? && rules[i].matches(m.value)
    && (rules[i].action.Route? || rules[i].action.SetOptions?) && Overrides(env, rules[i].action.options)
  }

  lemma EffectOnOriginal(env: Env, m: Meta, action: Action, preMatch: bool)
    requires Effect(env, m, action, preMatch).Some?
    ensures var m' := Effect(env, m, action, preMatch).value;
            && (IsValid(env, m.destination) ==> IsValid(env, m'.destination))
            && m'.routeOriginalDestination ==
               if (action.Route? || action.SetOptions?) && Overrides(env, action.options) && !IsValid(env, m.routeOriginalDestination)
               then m.destination else m.routeOriginalDestination
  {
  }

  /** Without an override the record is untouched; a valid destination stays valid throughout. */
  lemma {:induction false} NoOverrideYet(env: Env, rules: seq<Rule>, m0: Meta, preMatch: bool, i: nat)
    requires i <= |rules| && IsValid(env, m0.destination) && Before(env, rules, m0, preMatch, i).Some?
    requires forall j :: 0 <= j < i ==> !OverridesAt(env, rules, m0, preMatch, j)
    ensures Before(env, rules, m0, preMatch, i).value.routeOriginalDestination == m0.routeOriginalDestination
    ensures IsValid(env, Before(env, rules, m0, preMatch, i).value.destination)
  {
    if i > 0 {
      NoOverrideYet(env, rules, m0, preMatch, i - 1);
      var m := Before(env, rules, m0, preMatch, i - 1).value;
      assert !OverridesAt(env, rules, m0, preMatch, i - 1);
      if rules[i - 1].matches(m) {
        EffectOnOriginal(env, m, rules[i - 1].action, preMatch);
      }
    }
  }

  /**
   From a valid destination with nothing recorded, the recorded original destination is the one just before
   the first override `k`, and no later rule overwrites it.
   */
  lemma {:induction false} OriginalIsFirst(env: Env, rules: seq<Rule>, m0: Meta, preMatch: bool, k: nat, i: nat)
    requires k < i <= |rules| && IsValid(env, m0.destination) && !IsValid(env, m0.routeOriginalDestination)
    requires Before(env, rules, m0, preMatch, i).Some?
    requires OverridesAt(env, rules, m0, preMatch, k) && forall j :: 0 <= j < k ==> !OverridesAt(env, rules, m0, preMatch, j)
    ensures Before(env, rules, m0, preMatch, i).value.routeOriginalDestination == Before(env, rules, m0, preMatch, k).value.destination
    ensures IsValid(env, Before(env, rules, m0, preMatch, k).value.destination)
  {
    NoOverrideYet(env, rules, m0, preMatch, k);
    var m := Before(env, rules, m0, preMatch, i - 1).value;
    if i == k + 1 {
      EffectOnOriginal(env, m, rules[k].action, preMatch);
    } else {
      OriginalIsFirst(env, rules, m0, preMatch, k, i - 1);
      if rules[i - 1].matches(m) {
        EffectOnOriginal(env, m, rules[i - 1].action, preMatch);
      }
    }
  }

  // ---- Before the walk ----

  function FindProcess(env: Env, m: Meta): Meta {
    if m.processInfo.None? then m.(processInfo := env.findProcess(m)) else m
  }

  /** None when a fakeip address has no record. */
  function Unmask(env: Env, m: Meta): Option<Meta> {
    var entry := if m.destination.addr.Some? then env.fakeIP(m.destination.addr.value) else NotFakeIP;
    match entry
    case NoRecord => None
    case FakeDomain(domain) =>
      if domain == "" then Some(m)
      else Some(m.(originDestination := m.destination, destination := Socksaddr(None, domain, m.destination.port), fakeIP := true))
    case NotFakeIP =>
      if m.domain != "" then Some(m)
      else
        var mapped := env.reverseMapping(m.destination.addr);
        if mapped.Some? then Some(m.(domain := mapped.value)) else Some(m)
  }

  function SetIPVersion(m: Meta): Meta {
    if m.destination.addr.None? then m else m.(ipVersion := if m.destination.addr.value.v4 then 4 else 6)
  }

  function StrategyOnly(strategy: nat): ResolveOptions {
    ResolveOptions("", strategy, false, None, None)
  }

  /** The deprecated inbound options: sniff (only in the full match), resolve, and clear them. */
  function InboundStep(env: Env, m: Meta, preMatch: bool): Option<Meta> {
    if m.inboundOptions == NO_INBOUND_OPTIONS then Some(m)
    else
      var sniffed := if !preMatch && m.inboundOptions.sniffEnabled then ApplySniff(env, m, m.inboundOptions.sniffOverride, env.inboundSniff) else Some(m);
      if sniffed.None? then None
      else
        var resolved := if m.inboundOptions.strategy != 0 then ApplyResolve(env, sniffed.value, StrategyOnly(m.inboundOptions.strategy)) else sniffed;
        if resolved.None? then None
        else
          var r := resolved.value;
          var unmapping := r.dial.udpDisableDomainUnmapping || m.inboundOptions.udpDisableDomainUnmapping;
          Some(r.(dial := r.dial.(udpDisableDomainUnmapping := unmapping), inboundOptions := NO_INBOUND_OPTIONS))
  }

  function Prepare(env: Env, m: Meta, preMatch: bool): Option<Meta> {
    var unmasked := Unmask(env, FindProcess(env, m));
    if unmasked.None? then None else InboundStep(env, SetIPVersion(unmasked.value), preMatch)
  }

  ghost predicate IsMatch(env: Env, rules: seq<Rule>, m: Meta, preMatch: bool, supportBypass: bool, r: Outcome) {
    var prepared := Prepare(env, m, preMatch);
    if prepared.None? then r == Fatal
    else IsOutcome(env, rules, prepared.value, preMatch, supportBypass, r)
  }

  method UnmaskDestination(env: Env, ctx: Context) returns (missing: bool)
    modifies ctx
    ensures missing <==> Unmask(env, old(ctx.meta)).None?
    ensures !missing ==> Unmask(env, old(ctx.meta)) == Some(ctx.meta)
  {
    missing := false;
    var entry := NotFakeIP;
    if ctx.meta.destination.addr.Some? {
      entry := env.fakeIP(ctx.meta.destination.addr.value);
    }
    match entry {
      case NoRecord =>
        return true;
      case FakeDomain(domain) =>
        if domain != "" {
          ctx.meta := ctx.meta.(originDestination := ctx.meta.destination);
          ctx.meta := ctx.meta.(destination := Socksaddr(None, domain, ctx.meta.destination.port));
          ctx.meta := ctx.meta.(fakeIP := true);
        }
      case NotFakeIP =>
        if ctx.meta.domain == "" {
          var mapped := env.reverseMapping(ctx.meta.destination.addr);
          if mapped.Some? {
            ctx.meta := ctx.meta.(domain := mapped.value);
          }
        }
    }
  }

  /** matchRule: prepare the metadata, then walk the rules. */
  method MatchRule(env: Env, rules: seq<Rule>, ctx: Context, preMatch: bool, supportBypass: bool) returns (r: Outcome)
    modifies ctx
    ensures IsMatch(env, rules, old(ctx.meta), preMatch, supportBypass, r)
    ensures r.Fatal? || r.meta == ctx.meta
  {
    if ctx.meta.processInfo.None? {
      ctx.meta := ctx.meta.(processInfo := env.findProcess(ctx.meta));
    }
    var missing := UnmaskDestination(env, ctx);
    if missing {
      return Fatal;
    }
    if ctx.meta.destination.addr.Some? {
      ctx.meta := ctx.meta.(ipVersion := if ctx.meta.destination.addr.value.v4 then 4 else 6);
    }
    var fatal := ApplyInboundOptions(env, ctx, preMatch);
    if fatal {
      return Fatal;
    }
    r := WalkRules(env, rules, ctx, preMatch, supportBypass);
  }

  method ApplyInboundOptions(env: Env, ctx: Context, preMatch: bool) returns (fatal: bool)
    modifies ctx
    ensures fatal <==> InboundStep(env, old(ctx.meta), preMatch).None?
    ensures !fatal ==> InboundStep(env, old(ctx.meta), preMatch) == Some(ctx.meta)
  {
    var options := ctx.meta.inboundOptions;
    if options == NO_INBOUND_OPTIONS {
      return false;
    }
    if !preMatch && options.sniffEnabled {
      fatal := ActionSniff(env, ctx, options.sniffOverride, env.inboundSniff);
      if fatal {
        return true;
      }
    }
    if options.strategy != 0 {
      fatal := ActionResolve(env, ctx, StrategyOnly(options.strategy));
      if fatal {
        return true;
      }
    }
    if options.udpDisableDomainUnmapping {
      ctx.meta := ctx.meta.(dial := ctx.meta.dial.(udpDisableDomainUnmapping := true));
    }
    ctx.meta := ctx.meta.(inboundOptions := NO_INBOUND_OPTIONS);
    return false;
  }

  lemma UnmaskKeeps(env: Env, m: Meta)
    ensures Unmask(env, m).Some? ==> Unmask(env, m).value.network == m.network && Unmask(env, m).value.inboundOptions == m.inboundOptions
  {
  }

  lemma InboundStepAgrees(env: Env, m: Meta)
    requires !m.inboundOptions.sniffEnabled
    ensures InboundStep(env, m, true) == InboundStep(env, m, false)
    ensures InboundStep(env, m, true).Some? ==> InboundStep(env, m, true).value.network == m.network
  {
  }

  lemma PrepareAgrees(env: Env, m: Meta)
    requires !m.inboundOptions.sniffEnabled
    ensures Prepare(env, m, true) == Prepare(env, m, false)
    ensures Prepare(env, m, true).Some? ==> Prepare(env, m, true).value.network == m.network
  {
    var found := FindProcess(env, m);
    UnmaskKeeps(env, found);
    if Unmask(env, found).Some? {
      InboundStepAgrees(env, SetIPVersion(Unmask(env, found).value));
    }
  }

  /**
   Pre-match against full match, from the packet's metadata to the verdict: without deprecated inbound
   sniffing and for traffic other than ICMP, the pre-match is the full match, error cases included, exactly when
   it was not deferred.
   */
  lemma PreMatchAgrees(env: Env, rules: seq<Rule>, m: Meta, supportBypass: bool, fast: Outcome, slow: Outcome)
    requires m.network != ICMP && !m.inboundOptions.sniffEnabled
    requires IsMatch(env, rules, m, true, supportBypass, fast) && IsMatch(env, rules, m, false, false, slow)
    ensures fast == slow <==> !Deferred(rules, fast)
  {
    PrepareAgrees(env, m);
    if Prepare(env, m, true).Some? {
      FastAgreesWithSlow(env, rules, Prepare(env, m, true).value, supportBypass, fast, slow);
    }
  }

  /** A fakeip destination is replaced by its domain and remembered, any other stays; an unknown domain is looked up. */
  lemma UnmaskFields(env: Env, m: Meta)
    ensures var entry := if m.destination.addr.Some? then env.fakeIP(m.destination.addr.value) else NotFakeIP;
            var r := Unmask(env, m);
            && (r.None? <==> entry == NoRecord)
            && (entry.FakeDomain? && entry.domain != "" ==>
                  r == Some(m.(fakeIP := true, originDestination := m.destination,
                               destination := Socksaddr(None, entry.domain, m.destination.port))))
            && (entry == FakeDomain("") ==> r == Some(m))
            && (entry == NotFakeIP ==>
                  && r.Some? && r.value == m.(domain := r.value.domain)
                  && r.value.domain == (if m.domain == "" && env.reverseMapping(m.destination.addr).Some?
                                        then env.reverseMapping(m.destination.addr).value else m.domain))
  {
  }

  /** The deprecated inbound options resolve a domain and set one switch; a failing resolver ends the match. */
  lemma InboundFields(env: Env, m: Meta, preMatch: bool)
    requires preMatch || !m.inboundOptions.sniffEnabled
    ensures var o, r := m.inboundOptions, InboundStep(env, m, preMatch);
            var asked := ResolveOptions("", o.strategy, false, None, None);
            var resolves := o.strategy != 0 && env.isDomainName(m.destination.fqdn);
            && (r.None? <==> resolves && env.resolve(m, asked).None?)
            && (r.Some? ==>
                  && r.value.inboundOptions == InboundOptions(false, false, 0, false)
                  && r.value.destinationAddresses == (if resolves then env.resolve(m, asked).value else m.destinationAddresses)
                  && r.value.dial == m.dial.(udpDisableDomainUnmapping := m.dial.udpDisableDomainUnmapping || o.udpDisableDomainUnmapping)
                  && r.value == m.(destinationAddresses := r.value.destinationAddresses, dial := r.value.dial,
                                   inboundOptions := r.value.inboundOptions))
  {
  }

  /**
   What the whole preparation leaves where no inbound sniffing takes part: the process is searched once, the destination is
   the unmasked one and the IP version its own, and the inbound options are used up.
   */
  lemma PreparedFields(env: Env, m: Meta, preMatch: bool, u: Meta)
    requires preMatch || !m.inboundOptions.sniffEnabled
    requires Unmask(env, m.(processInfo := if m.processInfo.Some? then m.processInfo else env.findProcess(m))) == Some(u)
    requires Prepare(env, m, preMatch).Some?
    ensures var p := Prepare(env, m, preMatch).value;
            && p.processInfo == (if m.processInfo.Some? then m.processInfo else env.findProcess(m))
            && p.destination == u.destination && p.originDestination == u.originDestination && p.fakeIP == u.fakeIP && p.domain == u.domain
            && p.ipVersion == (if u.destination.addr.None? then u.ipVersion else if u.destination.addr.value.v4 then 4 else 6)
            && p.inboundOptions == InboundOptions(false, false, 0, false)
            && p.network == m.network && p.protocol == m.protocol && p.routeOriginalDestination == m.routeOriginalDestination
  {
    var found := FindProcess(env, m);
    assert found == m.(processInfo := if m.processInfo.Some? then m.processInfo else env.findProcess(m));
    UnmaskFields(env, found);
    InboundFields(env, SetIPVersion(u), preMatch);
  }
}
