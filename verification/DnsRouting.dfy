/**
 The DNS router on top of the DNS client: what the client's results are to the router's retry loop, and which
 responses get past the address limit of a rule (dns/router.go, dns/client.go).
 */
module DnsRouting {
  import opened Prelude
  import opened DnsMessage
  import opened DnsCache
  import Client = DnsClient
  import Router = DnsRouter

  /** MessageToAddresses: which addresses a response carries is left open. */
  type Reading = Msg -> seq<Router.Addr>

  predicate Usable(m: Msg) {
    m.rcode == RCODE_SUCCESS && m.answer != []
  }

  predicate WithinLimit(s: Router.Setup, a: Router.Attempt, m: Msg, read: Reading)
    requires Router.Limited(s, a)
  {
    Usable(m) && s.rules[a.index].limitOk(Router.Meta(read(m)))
  }

  /** `call` is the client call the router makes for attempt `a`: the rule's address limit is its response check. */
  predicate Asks(s: Router.Setup, a: Router.Attempt, call: Client.Call, read: Reading) {
    && call.tag == a.transport.tag && call.options == a.options
    && call.hasCheck == Router.Limited(s, a)
    && (call.hasCheck && !call.reply.Broken? ==>
          call.accepts == s.rules[a.index].limitOk(Router.Meta(read(Client.ReplyMsg(call.reply)))))
  }

  /** What a result of the client is to the router: a response or one of its errors. */
  function OutcomeOf(call: Client.Call, result: Client.Result, read: Reading): Router.Outcome {
    match result
    case FormatError => Router.Response(false, false, [])
    case StrategyRejected => Router.Response(false, false, [])
    case FromCache(m) => Router.Response(false, Usable(m), read(m))
    case RejectedCached => Router.KnownRejected
    case Rejected => AskedOutcome(call, read)
    case Answered(_) => AskedOutcome(call, read)
    case _ => Router.Failure
  }

  /** The transport's reply, as the response check saw it. */
  function AskedOutcome(call: Client.Call, read: Reading): Router.Outcome {
    if call.reply.Broken? then Router.Failure
    else Router.Response(call.hasCheck, Usable(Client.ReplyMsg(call.reply)), read(Client.ReplyMsg(call.reply)))
  }

  predicate IsError(result: Client.Result) {
    result.WaitFailed? || result.Loopback? || result.RejectedCached? || result.TransportFailed? || result.Rejected?
  }

  /** Client and router agree on what failed: the loop sees a failure exactly when the client returns an error. */
  lemma ErrorsAgree(s: Router.Setup, a: Router.Attempt, cfg: Client.Config, cache: Client.Cache, call: Client.Call, read: Reading)
    requires Asks(s, a, call, read)
    ensures var result := Client.Exchange(cfg, cache, call).1;
            Router.Failed(s, a, OutcomeOf(call, result, read)) <==> IsError(result)
  {
    var result := Client.Exchange(cfg, cache, call).1;
    ResultShape(cfg, cache, call);
    if result.Rejected? || result.Answered? {
      assert result.Rejected? <==> Client.RejectedBy(call, Client.ReplyMsg(call.reply));
    }
  }

  /** The response the client gives without asking its transport: a fixed one, or an unexpired entry under the call's key. */
  function LocalResponse(cfg: Client.Config, cache: Client.Cache, call: Client.Call): Option<Msg> {
    if call.request.questions == [] then Some(Msg(RCODE_FORMAT_ERROR, [], [], []))
    else if Client.Refused(call) then Some(Msg(RCODE_SUCCESS, [], [], []))
    else if Client.Reads(cfg, call) then Client.Load(cfg, cache, Client.CallKey(cfg, call), call.now).1
    else None
  }

  const RCODE_FORMAT_ERROR := 1

  lemma ResultShape(cfg: Client.Config, cache: Client.Cache, call: Client.Call)
    ensures var result := Client.Exchange(cfg, cache, call).1;
            && (result.FormatError? <==> call.request.questions == [])
            && (result.StrategyRejected? <==> call.request.questions != [] && Client.Refused(call))
            && (result.FromCache? <==> call.request.questions != [] && !Client.Refused(call) && LocalResponse(cfg, cache, call).Some?)
            && (result.FromCache? ==> LocalResponse(cfg, cache, call) == Some(result.msg))
            && (result.Rejected? || result.Answered? ==>
                  !call.reply.Broken? && (result.Rejected? <==> Client.RejectedBy(call, Client.ReplyMsg(call.reply))))
  {
  }

  /** An entry that a call does not miss is there to be served, and only such an entry. */
  lemma LocalMeansCached(cfg: Client.Config, cache: Client.Cache, call: Client.Call)
    requires call.request.questions != [] && !Client.Refused(call)
    ensures LocalResponse(cfg, cache, call).Some? <==> Client.Reads(cfg, call) && !Client.Misses(cfg, cache, call)
  {
  }

  /** The attempt ends the loop with a response that is outside the limit of its rule. */
  predicate Escapes(s: Router.Setup, a: Router.Attempt, outcome: Router.Outcome, cancelled: bool)
    requires Router.Limited(s, a)
  {
    && outcome.Response? && !Router.Retried(s, a, outcome, cancelled)
    && !(outcome.usable && s.rules[a.index].limitOk(Router.Meta(outcome.addresses)))
  }

  /**
   Exactly which responses get past an address limit: those the client gives without asking its transport, and that
   are outside the limit.
   */
  lemma EscapesExactly(s: Router.Setup, a: Router.Attempt, cfg: Client.Config, cache: Client.Cache, call: Client.Call,
                       read: Reading, cancelled: bool)
    requires Router.Limited(s, a) && Asks(s, a, call, read)
    ensures var outcome := OutcomeOf(call, Client.Exchange(cfg, cache, call).1, read);
            var response := LocalResponse(cfg, cache, call);
            Escapes(s, a, outcome, cancelled) <==> response.Some? && !WithinLimit(s, a, response.value, read)
  {
    ResultShape(cfg, cache, call);
  }

  /** Attempt k of the trace is call k of the client, on the cache as it is then. */
  ghost predicate Asked(s: Router.Setup, trace: seq<Router.Attempt>, client: nat -> Router.Outcome, cfg: Client.Config,
                        caches: nat -> Client.Cache, calls: nat -> Client.Call, read: Reading)
  {
    forall k: nat :: k < |trace| ==>
      && Asks(s, trace[k], calls(k), read)
      && client(k) == OutcomeOf(calls(k), Client.Exchange(cfg, caches(k), calls(k)).1, read)
  }

  /**
   For every exchange of the router whose last attempt is limited: it answers with a response outside the limit exactly
   when the client gave that response without asking its transport.
   */
  lemma AnswerEscapesExactly(s: Router.Setup, caller: Options, meta0: Router.Meta, client: nat -> Router.Outcome,
                             cancelled: nat -> bool, answer: Router.Answer, trace: seq<Router.Attempt>, cfg: Client.Config,
                             caches: nat -> Client.Cache, calls: nat -> Client.Call, read: Reading)
    requires Router.ExchangeEnds(s, caller, meta0, client, cancelled, answer, trace)
    requires Asked(s, trace, client, cfg, caches, calls, read)
    requires trace != [] && Router.Limited(s, trace[|trace| - 1])
    ensures var n := |trace| - 1;
            var response := LocalResponse(cfg, caches(n), calls(n));
            (answer == Router.Answered(n, false) && Escapes(s, trace[n], client(n), cancelled(n))) <==>
            (response.Some? && !WithinLimit(s, trace[n], response.value, read))
  {
    var n := |trace| - 1;
    EscapesExactly(s, trace[n], cfg, caches(n), calls(n), read, cancelled(n));
    if Escapes(s, trace[n], client(n), cancelled(n)) {
      ErrorsAgree(s, trace[n], cfg, caches(n), calls(n), read);
      EndsWithResponse(s, caller, meta0, client, cancelled, answer, trace);
    }
  }

  lemma EndsWithResponse(s: Router.Setup, caller: Options, meta0: Router.Meta, client: nat -> Router.Outcome,
                         cancelled: nat -> bool, answer: Router.Answer, trace: seq<Router.Attempt>)
    requires Router.ExchangeEnds(s, caller, meta0, client, cancelled, answer, trace) && trace != []
    requires Router.Limited(s, trace[|trace| - 1]) && client(|trace| - 1).Response?
    requires !Router.Retried(s, trace[|trace| - 1], client(|trace| - 1), cancelled(|trace| - 1))
    ensures answer == Router.Answered(|trace| - 1, false)
  {
  }

  // ---- A cached response outside the limit ----

  const QUESTION := Client.Question("example", TYPE_A, 1)
  const CONFIG := Client.Config(false, true, false, None)
  const CACHED := Msg(RCODE_SUCCESS, [Plain(TYPE_A, 60)], [], [])
  const CACHE: Client.Cache := map[Client.Shared(QUESTION) := Client.Stored(CACHED, None)]

  /** One rule that routes to the server and admits no address. */
  function ClosedLimit(): Router.Setup {
    var always, never := (m: Router.Meta) => true, (m: Router.Meta) => false;
    Router.Setup([Router.Rule(true, always, never, false, Router.Route("server", Router.NO_OPTIONS))],
                 map["server" := Router.SERVER], Router.SERVER, AsIS, true, true, (x: Router.Addr) => false)
  }

  /** A plain query for the cached question. */
  predicate PlainQuery(call: Client.Call) {
    && call.request == Client.Request([QUESTION], [], []) && call.options == Options(AsIS, false, None, None)
    && !call.waitFails
  }

  lemma CachedIsServed(call: Client.Call)
    requires PlainQuery(call)
    ensures LocalResponse(CONFIG, CACHE, call) == Some(CACHED)
  {
    assert Client.UsesCache(CONFIG, call);
  }

  lemma ClosedLimitIsAsked(caller: Options, meta0: Router.Meta, client: nat -> Router.Outcome, cancelled: nat -> bool,
                           answer: Router.Answer, trace: seq<Router.Attempt>)
    requires Router.ExchangeEnds(ClosedLimit(), caller, meta0, client, cancelled, answer, trace)
    ensures trace != [] && trace[0].index == 0
  {
    var s := ClosedLimit();
    var again, after := Router.ExchangeAgain(s, client, cancelled), Router.ExchangeAfter(s, client);
    assert Router.Stops(s, 0, meta0);
    if trace != [] {
      Router.ChainIsFresh(s, caller, meta0, trace, again, after, 0);
    }
  }

  /** The only rule admits nothing, yet the first query is answered from the cache and that is the answer. */
  lemma CachedAnswerEscapes(caller: Options, meta0: Router.Meta, client: nat -> Router.Outcome, cancelled: nat -> bool,
                            answer: Router.Answer, trace: seq<Router.Attempt>, caches: nat -> Client.Cache,
                            calls: nat -> Client.Call, read: Reading)
    requires Router.ExchangeEnds(ClosedLimit(), caller, meta0, client, cancelled, answer, trace)
    requires Asked(ClosedLimit(), trace, client, CONFIG, caches, calls, read)
    requires caches(0) == CACHE && PlainQuery(calls(0))
    ensures |trace| == 1 && answer == Router.Answered(0, false) && client(0) == Router.Response(false, true, read(CACHED))
    ensures Router.Limited(ClosedLimit(), trace[0]) && Escapes(ClosedLimit(), trace[0], client(0), cancelled(0))
  {
    ClosedLimitIsAsked(caller, meta0, client, cancelled, answer, trace);
    CachedIsServed(calls(0));
    ResultShape(CONFIG, CACHE, calls(0));
    Router.UncheckedAnswer(ClosedLimit(), caller, meta0, client, cancelled, answer, trace, 0);
  }
}
