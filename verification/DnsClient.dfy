/**
 One DNS exchange through the client's cache (dns/client.go), and the client object, which stores a response object
 in its cache and goes on editing it.
 */
module DnsClient {
  import opened Prelude
  import opened DnsMessage
  import opened EdnsSubnet
  import opened DnsCache

  datatype Question = Question(name: string, qtype: nat, qclass: nat)

  datatype Request = Request(questions: seq<Question>, ns: seq<RR>, extra: seq<RR>)

  datatype Config = Config(disableCache: bool, disableExpire: bool, independentCache: bool, clientSubnet: Option<Prefix>)

  /** Cache keys: the question alone, or the question with the transport in independent mode. */
  datatype Key = Shared(q: Question) | PerTransport(q: Question, tag: string)

  /** `expireAt` is absent for entries stored without a lifetime. */
  datatype Stored = Stored(msg: Msg, expireAt: Option<int>)

  type Cache = map<Key, Stored>

  /** What the transport answered. */
  datatype Reply = Replied(msg: Msg) | RcodeReply(rcode: nat) | Broken

  /**
   One call: what it is asked, and what the outside world does to it. `accepts` is the verdict of the caller's
   response check, if there is one.
   */
  datatype Call = Call(
    tag: string,
    request: Request,
    options: Options,
    hasCheck: bool,
    accepts: bool,
    waitFails: bool,
    loopback: bool,
    knownRejected: bool,
    reply: Reply,
    now: int,
    later: int)

  datatype Result =
    | FormatError
    | StrategyRejected
    | WaitFailed
    | FromCache(msg: Msg)
    | Loopback
    | RejectedCached
    | TransportFailed
    | Rejected
    | Answered(msg: Msg)

  function KeyFor(cfg: Config, q: Question, tag: string): Key {
    if cfg.independentCache then PerTransport(q, tag) else Shared(q)
  }

  function EffectiveSubnet(cfg: Config, options: Options): Option<Prefix> {
    if options.clientSubnet.Some? then options.clientSubnet else cfg.clientSubnet
  }

  /** The request as it is sent. */
  function Sent(cfg: Config, request: Request, options: Options): Request {
    var subnet := EffectiveSubnet(cfg, options);
    if subnet.None? then request
    else request.(extra := Write(request.extra, TargetOf(request.extra), subnet.value))
  }

  predicate IsSimple(request: Request, options: Options) {
    && |request.questions| == 1 && request.ns == []
    && (request.extra == []
        || (|request.extra| == 1 && request.extra[0].OPT? && request.extra[0].class_ > 0
            && request.extra[0].ttl == 0 && request.extra[0].options == []))
    && options.clientSubnet.None?
  }

  predicate UsesCache(cfg: Config, call: Call) {
    IsSimple(Sent(cfg, call.request, call.options), call.options) && !cfg.disableCache && !call.options.disableCache
  }

  /** loadResponse: drop an expired entry, otherwise age a copy. */
  function Load(cfg: Config, cache: Cache, key: Key, now: int): (Cache, Option<Msg>) {
    if key !in cache then (cache, None)
    else if cfg.disableExpire || cache[key].expireAt.None? then (cache, Some(cache[key].msg))
    else
      var expireAt := cache[key].expireAt.value;
      if now > expireAt then (cache - {key}, None)
      else (cache, Some(Aged(cache[key].msg, SecondsLeft(expireAt, now))))
  }

  function ReplyMsg(reply: Reply): Msg
    requires !reply.Broken?
  {
    if reply.Replied? then reply.msg else Msg(reply.rcode, [], [], [])
  }

  predicate RejectedBy(call: Call, m: Msg) {
    call.hasCheck && (m.rcode != RCODE_SUCCESS || m.answer == [] || !call.accepts)
  }

  predicate Storable(cfg: Config, call: Call, m: Msg) {
    && UsesCache(cfg, call) && (m.rcode == RCODE_SUCCESS || m.rcode == RCODE_NAME_ERROR)
    && ChooseTTL(m, call.options.rewriteTTL) != 0
  }

  function Lifetime(cfg: Config, t: u32, at: int): Option<int> {
    if cfg.disableExpire then None else Some(at + t * SECOND)
  }

  /** What remains to do with an accepted response. */
  function Finish(cfg: Config, cache: Cache, call: Call, m: Msg): (Cache, Result)
    requires call.request.questions != []
  {
    var t := ChooseTTL(m, call.options.rewriteTTL);
    var final := StoredMsg(Sent(cfg, call.request, call.options).extra, m, t);
    var key := KeyFor(cfg, call.request.questions[0], call.tag);
    (if Storable(cfg, call, m) then cache[key := Stored(final, Lifetime(cfg, t, call.later))] else cache, Answered(final))
  }

  function AskTransport(cfg: Config, cache: Cache, call: Call): (Cache, Result)
    requires call.request.questions != []
  {
    if call.loopback then (cache, Loopback)
    else if UsesCache(cfg, call) && call.hasCheck && call.knownRejected then (cache, RejectedCached)
    else if call.reply.Broken? then (cache, TransportFailed)
    else
      var m := ReplyMsg(call.reply);
      if RejectedBy(call, m) then (cache, Rejected) else Finish(cfg, cache, call, m)
  }

  predicate Refused(call: Call)
    requires call.request.questions != []
  {
    var q := call.request.questions[0];
    (q.qtype == TYPE_A && call.options.strategy == IPv6Only) || (q.qtype == TYPE_AAAA && call.options.strategy == IPv4Only)
  }

  function Exchange(cfg: Config, cache: Cache, call: Call): (Cache, Result) {
    if call.request.questions == [] then (cache, FormatError)
    else if Refused(call) then (cache, StrategyRejected)
    else if !UsesCache(cfg, call) then AskTransport(cfg, cache, call)
    else if call.waitFails then (cache, WaitFailed)
    else
      var (cache1, loaded) := Load(cfg, cache, KeyFor(cfg, call.request.questions[0], call.tag), call.now);
      if loaded.Some? then (cache1, FromCache(loaded.value)) else AskTransport(cfg, cache1, call)
  }

  // ---- What is served from the cache ----

  ghost predicate SameButTTL(rs: seq<RR>, qs: seq<RR>) {
    |rs| == |qs| && forall i :: 0 <= i < |rs| ==> rs[i] == qs[i].(ttl := rs[i].ttl)
  }

  /** The same response, apart from TTLs. */
  ghost predicate SameMessage(m: Msg, n: Msg) {
    m.rcode == n.rcode && SameButTTL(m.answer, n.answer) && SameButTTL(m.ns, n.ns) && SameButTTL(m.extra, n.extra)
  }

  /** All records of the response have one and the same TTL. */
  ghost predicate OneTTL(m: Msg) {
    forall r, q :: r in Records(m) && q in Records(m) ==> r.ttl == q.ttl
  }

  ghost predicate Shows(m: Msg, seconds: int) {
    forall r :: r in Records(m) ==> r.ttl == seconds
  }

  /** When something is served at all, and what becomes of the entry. */
  lemma LoadOutcome(cfg: Config, cache: Cache, key: Key, now: int)
    ensures var (cache', loaded) := Load(cfg, cache, key, now);
            var gone := key in cache && !cfg.disableExpire && cache[key].expireAt.Some? && now > cache[key].expireAt.value;
            && (loaded.Some? <==> key in cache && !gone)
            && cache' == (if gone then cache - {key} else cache)
            && (loaded.Some? && (cfg.disableExpire || cache[key].expireAt.None?) ==> loaded.value == cache[key].msg)
  {
  }

  lemma OneTTLMeaning(m: Msg)
    ensures OneTTL(m) <==> (ScanTTL(Records(m)) > 0 ==> AllTTL(Records(m), ScanTTL(Records(m))))
  {
    var rs, t := Records(m), ScanTTL(Records(m));
    UniformMember(rs, t);
    if t > 0 {
      var r :| r in rs && r.ttl == t;
    }
  }

  lemma AgedMeaning(m: Msg, left: u32)
    ensures SameMessage(Aged(m, left), m)
    ensures Shows(Aged(m, left), left) <==> OneTTL(m)
  {
    AgedRecords(m, left);
    AgedExact(Records(m), left);
    OneTTLMeaning(m);
    UniformMember(Records(Aged(m, left)), left);
  }

  lemma AgedMoves(m: Msg, left: u32, least: u32, i: nat)
    requires LeastPositive(Records(m), least) && least > 0 && i < |Records(m)|
    ensures |Records(Aged(m, left))| == |Records(m)|
    ensures var v := Records(m)[i].ttl + left - least;
            Records(Aged(m, left))[i].ttl == if v < 0 then v + TWO32 else if v < TWO32 then v else v - TWO32
  {
    AgedRecords(m, left);
    LeastPositiveIsUnique(Records(m), least, ScanTTL(Records(m)));
  }

  lemma WholeSeconds(expireAt: int, now: int)
    requires 0 <= expireAt - now < TWO32 * SECOND
    ensures SecondsLeft(expireAt, now) == (expireAt - now) / SECOND
  {
  }

  /**
   An unexpired entry with a lifetime: the response is served unchanged but for its TTLs, and every TTL is the whole
   number of seconds left exactly when the stored TTLs were all the same.
   */
  lemma LoadMeaning(cfg: Config, cache: Cache, key: Key, now: int, loaded: Msg)
    requires Load(cfg, cache, key, now).1 == Some(loaded) && !cfg.disableExpire && cache[key].expireAt.Some?
    requires cache[key].expireAt.value - now < TWO32 * SECOND
    ensures SameMessage(loaded, cache[key].msg)
    ensures Shows(loaded, (cache[key].expireAt.value - now) / SECOND) <==> OneTTL(cache[key].msg)
  {
    WholeSeconds(cache[key].expireAt.value, now);
    AgedMeaning(cache[key].msg, SecondsLeft(cache[key].expireAt.value, now));
  }

  /** Where the stored TTLs differ: each is moved by the time elapsed of the least positive one, with wrap-around. */
  lemma LoadMovesTTLs(cfg: Config, cache: Cache, key: Key, now: int, loaded: Msg, least: u32, i: nat)
    requires Load(cfg, cache, key, now).1 == Some(loaded) && !cfg.disableExpire && cache[key].expireAt.Some?
    requires cache[key].expireAt.value - now < TWO32 * SECOND
    requires LeastPositive(Records(cache[key].msg), least) && least > 0 && i < |Records(cache[key].msg)|
    ensures |Records(loaded)| == |Records(cache[key].msg)|
    ensures var v := Records(cache[key].msg)[i].ttl + (cache[key].expireAt.value - now) / SECOND - least;
            Records(loaded)[i].ttl == if v < 0 then v + TWO32 else if v < TWO32 then v else v - TWO32
  {
    WholeSeconds(cache[key].expireAt.value, now);
    AgedMoves(cache[key].msg, SecondsLeft(cache[key].expireAt.value, now), least, i);
  }

  // ---- A client subnet bypasses the cache ----

  /** Whatever EDNS records the query had, once a subnet is set it no longer counts as a simple request. */
  lemma SubnetIsNotSimple(cfg: Config, request: Request, options: Options)
    requires EffectiveSubnet(cfg, options).Some?
    ensures !IsSimple(Sent(cfg, request, options), options)
  {
    var t := TargetOf(request.extra);
    var p := EffectiveSubnet(cfg, options).value;
    WriteIsFound(request.extra, t, p);
    var after := Write(request.extra, t, p);
    if |after| == 1 {
      assert after[0].options != [];
    }
  }

  /** An exchange with a client subnet in force neither writes the cache nor depends on what is in it. */
  lemma SubnetBypassesCache(cfg: Config, cache: Cache, other: Cache, call: Call)
    requires EffectiveSubnet(cfg, call.options).Some?
    ensures Exchange(cfg, cache, call).0 == cache
    ensures Exchange(cfg, cache, call).1 == Exchange(cfg, other, call).1
  {
    SubnetIsNotSimple(cfg, call.request, call.options);
  }

  // ---- What an exchange does to the cache ----

  /** The transport answers, the answer is accepted, and it may be stored. */
  predicate AcceptedReply(cfg: Config, call: Call) {
    && !call.loopback && !(call.hasCheck && call.knownRejected) && !call.reply.Broken?
    && !RejectedBy(call, ReplyMsg(call.reply)) && Storable(cfg, call, ReplyMsg(call.reply))
  }

  /** The call comes as far as reading the cache. */
  predicate Reads(cfg: Config, call: Call) {
    call.request.questions != [] && !Refused(call) && UsesCache(cfg, call) && !call.waitFails
  }

  predicate Expired(cfg: Config, entry: Stored, now: int) {
    !cfg.disableExpire && entry.expireAt.Some? && now > entry.expireAt.value
  }

  function CallKey(cfg: Config, call: Call): Key
    requires call.request.questions != []
  {
    KeyFor(cfg, call.request.questions[0], call.tag)
  }

  /** The entry that an accepted call leaves. */
  function NewEntry(cfg: Config, call: Call): Stored
    requires !call.reply.Broken?
  {
    var m := ReplyMsg(call.reply);
    var t := ChooseTTL(m, call.options.rewriteTTL);
    Stored(StoredMsg(call.request.extra, m, t), Lifetime(cfg, t, call.later))
  }

  predicate Misses(cfg: Config, cache: Cache, call: Call)
    requires call.request.questions != []
  {
    CallKey(cfg, call) in cache ==> Expired(cfg, cache[CallKey(cfg, call)], call.now)
  }

  /** The cache changes only at the call's own key: an accepted response is entered, or else an expired entry goes. */
  function CacheAfter(cfg: Config, cache: Cache, call: Call): Cache {
    if !Reads(cfg, call) || !Misses(cfg, cache, call) then cache
    else if AcceptedReply(cfg, call) then cache[CallKey(cfg, call) := NewEntry(cfg, call)]
    else cache - {CallKey(cfg, call)}
  }

  lemma ExchangeEffect(cfg: Config, cache: Cache, call: Call)
    ensures Exchange(cfg, cache, call).0 == CacheAfter(cfg, cache, call)
  {
    if Reads(cfg, call) && Misses(cfg, cache, call) {
      if EffectiveSubnet(cfg, call.options).Some? {
        SubnetIsNotSimple(cfg, call.request, call.options);
      }
      var key := CallKey(cfg, call);
      assert key !in cache ==> cache - {key} == cache;
      if AcceptedReply(cfg, call) {
        assert (cache - {key})[key := NewEntry(cfg, call)] == cache[key := NewEntry(cfg, call)];
      }
    }
  }

  /**
   Which queries may use the cache: one question, no authority records, no client subnet from anywhere, no record beside
   at most one plain EDNS record, and nobody disabled it.
   */
  lemma CacheUseMeaning(cfg: Config, call: Call)
    ensures UsesCache(cfg, call) <==>
            && |call.request.questions| == 1 && |call.request.ns| == 0 && |call.request.extra| <= 1
            && (forall r :: r in call.request.extra ==> r.OPT? && r.class_ > 0 && r.ttl == 0 && |r.options| == 0)
            && call.options.clientSubnet.None? && cfg.clientSubnet.None? && !cfg.disableCache && !call.options.disableCache
  {
    if EffectiveSubnet(cfg, call.options).Some? {
      SubnetIsNotSimple(cfg, call.request, call.options);
    } else if |call.request.extra| == 1 {
      assert call.request.extra[0] in call.request.extra;
    }
  }

  /** The call comes as far as asking its transport: it is well formed, not refused, and misses the cache or does without it. */
  predicate ComesToAsk(cfg: Config, cache: Cache, call: Call) {
    && |call.request.questions| > 0 && !Refused(call)
    && (UsesCache(cfg, call) ==> !call.waitFails && Misses(cfg, cache, call))
  }

  /** Every result of an exchange, by the guards it passed; the first failing one decides. */
  lemma ResultMeaning(cfg: Config, cache: Cache, call: Call)
    ensures var r, asks, uses := Exchange(cfg, cache, call).1, ComesToAsk(cfg, cache, call), UsesCache(cfg, call);
            var known := uses && call.hasCheck && call.knownRejected;
            && (r == FormatError <==> |call.request.questions| == 0)
            && (r == StrategyRejected <==> |call.request.questions| > 0 && Refused(call))
            && (r == WaitFailed <==> |call.request.questions| > 0 && !Refused(call) && uses && call.waitFails)
            && (r == Loopback <==> asks && call.loopback)
            && (r == RejectedCached <==> asks && !call.loopback && known)
            && (r == TransportFailed <==> asks && !call.loopback && !known && call.reply.Broken?)
            && (r == Rejected <==> asks && !call.loopback && !known && !call.reply.Broken? && RejectedBy(call, ReplyMsg(call.reply)))
            && (r.Answered? <==> asks && !call.loopback && !known && !call.reply.Broken? && !RejectedBy(call, ReplyMsg(call.reply)))
  {
    if |call.request.questions| > 0 {
      LoadOutcome(cfg, cache, CallKey(cfg, call), call.now);
    }
  }

  /** A response check rejects an error, an empty answer, and what it does not accept. */
  lemma RejectionMeaning(call: Call, m: Msg)
    ensures RejectedBy(call, m) <==> call.hasCheck && !(m.rcode == 0 && |m.answer| > 0 && call.accepts)
    ensures call.reply == RcodeReply(m.rcode) ==> ReplyMsg(call.reply) == Msg(m.rcode, [], [], [])
  {
  }

  /** The subnet of the call comes before the client's own, and the query sent carries it where a server reads it. */
  lemma SentSubnet(cfg: Config, request: Request, options: Options)
    ensures options.clientSubnet.None? && cfg.clientSubnet.None? ==> Sent(cfg, request, options) == request
    ensures options.clientSubnet.Some? || cfg.clientSubnet.Some? ==>
              var sent, p := Sent(cfg, request, options), if options.clientSubnet.Some? then options.clientSubnet.value else cfg.clientSubnet.value;
              && sent.questions == request.questions && sent.ns == request.ns
              && exists i: nat, j: nat ::
                   && IsTarget(sent.extra, Existing(i, j)) && sent.extra[i].options[j].family == (if p.v4 then 1 else 2)
                   && sent.extra[i].options[j].netmask == p.bits && sent.extra[i].options[j].address == p.address
  {
    if options.clientSubnet.Some? || cfg.clientSubnet.Some? {
      var p := if options.clientSubnet.Some? then options.clientSubnet.value else cfg.clientSubnet.value;
      WriteIsFound(request.extra, TargetOf(request.extra), p);
    }
  }

  /** A query is refused without asking when the strategy rules out its address family. */
  lemma RefusedMeaning(call: Call)
    requires call.request.questions != []
    ensures Refused(call) <==>
            || (call.request.questions[0].qtype == 1 && call.options.strategy == IPv6Only)
            || (call.request.questions[0].qtype == 28 && call.options.strategy == IPv4Only)
  {
  }

  /** An answered exchange gives the edited response. */
  lemma AnsweredIsEdited(cfg: Config, cache: Cache, call: Call, m: Msg)
    requires Exchange(cfg, cache, call).1 == Answered(m)
    ensures !call.reply.Broken?
    ensures var given := ReplyMsg(call.reply);
            m == StoredMsg(Sent(cfg, call.request, call.options).extra, given, ChooseTTL(given, call.options.rewriteTTL))
  {
  }

  /** A stored response: code and records stay, with one TTL, apart from the EDNS edit. */
  lemma StoredFields(requestExtra: seq<RR>, m: Msg, t: u32)
    ensures var e := StoredMsg(requestExtra, m, t);
            && e.rcode == m.rcode && SameButTTL(e.answer, m.answer) && SameButTTL(e.ns, m.ns)
            && forall r :: r in e.answer || r in e.ns ==> r.ttl == t
  {
    EditMeaning(requestExtra, WithTTL(m, t));
  }

  /** The answer of the transport is passed on with one TTL: code and records stay, apart from the EDNS edit. */
  lemma AnsweredMeaning(cfg: Config, cache: Cache, call: Call, m: Msg)
    requires Exchange(cfg, cache, call).1 == Answered(m)
    ensures !call.reply.Broken?
    ensures var given := ReplyMsg(call.reply);
            var t := ChooseTTL(given, call.options.rewriteTTL);
            && m.rcode == given.rcode && SameButTTL(m.answer, given.answer) && SameButTTL(m.ns, given.ns)
            && forall r :: r in m.answer || r in m.ns ==> r.ttl == t
  {
    AnsweredIsEdited(cfg, cache, call, m);
    var given := ReplyMsg(call.reply);
    StoredFields(Sent(cfg, call.request, call.options).extra, given, ChooseTTL(given, call.options.rewriteTTL));
  }

  /** How long an entry lives: its TTL from the moment it was stored, or for ever when expiry is off. */
  lemma LifetimeMeaning(cfg: Config, call: Call)
    requires !call.reply.Broken?
    ensures var t := ChooseTTL(ReplyMsg(call.reply), call.options.rewriteTTL);
            NewEntry(cfg, call).expireAt == if cfg.disableExpire then None else Some(call.later + t * 1_000_000_000)
  {
  }

  /** A result from the cache is what is stored under the call's own key. */
  lemma ServedFromCache(cfg: Config, cache: Cache, call: Call, m: Msg)
    requires Exchange(cfg, cache, call).1 == FromCache(m)
    ensures call.request.questions != [] && CallKey(cfg, call) in cache
    ensures var entry := cache[CallKey(cfg, call)];
            if cfg.disableExpire || entry.expireAt.None? then m == entry.msg
            else
              && call.now <= entry.expireAt.value
              && (entry.expireAt.value - call.now < TWO32 * SECOND ==>
                    && SameMessage(m, entry.msg)
                    && (Shows(m, (entry.expireAt.value - call.now) / SECOND) <==> OneTTL(entry.msg)))
  {
    var key := CallKey(cfg, call);
    LoadOutcome(cfg, cache, key, call.now);
    if !cfg.disableExpire && cache[key].expireAt.Some? && cache[key].expireAt.value - call.now < TWO32 * SECOND {
      LoadMeaning(cfg, cache, key, call.now, m);
    }
  }

  /** Two calls share a cache entry exactly when they ask the same question, of the same transport in independent mode. */
  lemma KeysShared(cfg: Config, a: Call, b: Call)
    requires a.request.questions != [] && b.request.questions != []
    ensures CallKey(cfg, a) == CallKey(cfg, b) <==>
            a.request.questions[0] == b.request.questions[0] && (cfg.independentCache ==> a.tag == b.tag)
  {
  }

  // ---- The client object ----

  /** A response object; the cache holds references to such objects. */
  class Response {
    var msg: Msg

    constructor (msg: Msg)
      ensures this.msg == msg
    {
      this.msg := msg;
    }
  }

  datatype Entry = Entry(response: Response, expireAt: Option<int>)

  /** `t` is the scan's result after `before` and the first `i` records of `rs`. */
  ghost predicate ScannedTo(before: seq<RR>, rs: seq<RR>, i: nat, t: u32)
    requires i <= |rs|
  {
    t == ScanTTL(before + rs[..i])
  }

  lemma ScanOneMore(before: seq<RR>, rs: seq<RR>, i: nat)
    requires i < |rs|
    ensures forall t :: ScannedTo(before, rs, i, t) ==>
              ScannedTo(before, rs, i + 1, if t == 0 || (rs[i].ttl > 0 && rs[i].ttl < t) then rs[i].ttl else t)
  {
    var seen, more := before + rs[..i], before + rs[..i + 1];
    assert more[..|more| - 1] == seen && more[|more| - 1] == rs[i];
  }

  class Client {
    const cfg: Config
    var cache: map<Key, Entry>

    ghost function Responses(): set<Response>
      reads this
    {
      set k | k in cache :: cache[k].response
    }

    ghost function Contents(): Cache
      reads this, Responses()
    {
      map k | k in cache :: Stored(cache[k].response.msg, cache[k].expireAt)
    }

    constructor (cfg: Config)
      ensures this.cfg == cfg && Contents() == map[]
    {
      this.cfg := cfg;
      cache := map[];
    }

    /** The scan of one record list; `before` are the records scanned already. */
    method ScanList(start: u32, rs: seq<RR>, ghost before: seq<RR>) returns (t: u32)
      requires start == ScanTTL(before)
      ensures t == ScanTTL(before + rs)
    {
      t := start;
      for i := 0 to |rs|
        invariant ScannedTo(before, rs, i, t)
      {
        ScanOneMore(before, rs, i);
        if t == 0 || (rs[i].ttl > 0 && rs[i].ttl < t) {
          t := rs[i].ttl;
        }
      }
      assert rs[..|rs|] == rs;
    }

    /** The scan over the three record lists. */
    method LeastTTL(m: Msg) returns (t: u32)
      ensures t == ScanTTL(Records(m)) && LeastPositive(Records(m), t)
    {
      t := ScanList(0, m.answer, []);
      assert [] + m.answer == m.answer;
      t := ScanList(t, m.ns, m.answer);
      t := ScanList(t, m.extra, m.answer + m.ns);
    }

    method ExtractNegativeTTL(ns: seq<RR>) returns (t: Option<u32>)
      ensures t == NegativeTTL(ns)
    {
      for i := 0 to |ns|
        invariant NegativeTTL(ns) == NegativeTTL(ns[i..])
      {
        if ns[i].SOA? {
          return Some(if ns[i].ttl < ns[i].minimum then ns[i].ttl else ns[i].minimum);
        }
        assert ns[i..][1..] == ns[i + 1..];
      }
      return None;
    }

    method PickTTL(m: Msg, rewrite: Option<u32>) returns (t: u32)
      ensures t == ChooseTTL(m, rewrite)
    {
      t := 0;
      if |m.answer| == 0 {
        var negative := ExtractNegativeTTL(m.ns);
        if negative.Some? {
          t := negative.value;
        }
      }
      if t == 0 {
        t := LeastTTL(m);
      }
      if rewrite.Some? {
        t := rewrite.value;
      }
    }

    method OverwriteTTL(rs: seq<RR>, t: u32) returns (r: seq<RR>)
      ensures r == SetTTL(rs, t)
    {
      r := rs;
      for i := 0 to |rs|
        invariant |r| == |rs|
        invariant forall j :: 0 <= j < |rs| ==> r[j] == if j < i then rs[j].(ttl := t) else rs[j]
      {
        r := r[i := r[i].(ttl := t)];
      }
    }

    /** loadResponse: an expired entry is removed, otherwise a copy of the response is aged. */
    method LoadResponse(key: Key, now: int) returns (loaded: Option<Msg>)
      modifies this
      ensures (Contents(), loaded) == Load(cfg, old(Contents()), key, now)
      ensures Responses() <= old(Responses())
    {
      if key !in cache {
        return None;
      }
      var entry := cache[key];
      if cfg.disableExpire || entry.expireAt.None? {
        return Some(entry.response.msg);
      }
      if now > entry.expireAt.value {
        cache := cache - {key};
        assert Contents() == old(Contents()) - {key};
        return None;
      }
      loaded := AgedCopy(entry.response.msg, SecondsLeft(entry.expireAt.value, now));
      assert Contents() == old(Contents());
    }

    /** The copy's TTLs, each reduced by the time elapsed since the store. */
    method AgedCopy(m: Msg, left: u32) returns (copy: Option<Msg>)
      ensures copy == Some(Aged(m, left))
    {
      var origin := LeastTTL(m);
      var answer := Reduce(m.answer, origin, left);
      var ns := Reduce(m.ns, origin, left);
      var extra := Reduce(m.extra, origin, left);
      return Some(Msg(m.rcode, answer, ns, extra));
    }

    method Reduce(rs: seq<RR>, origin: u32, left: u32) returns (r: seq<RR>)
      ensures r == AgeRecords(rs, origin, left)
    {
      r := rs;
      for i := 0 to |rs|
        invariant |r| == |rs|
        invariant forall j :: 0 <= j < |rs| ==>
                    r[j] == if j < i then rs[j].(ttl := AgedTTL(rs[j].ttl, origin, left)) else rs[j]
      {
        if origin > 0 {
          var duration := Sub32(origin, left);
          r := r[i := r[i].(ttl := Sub32(r[i].ttl, duration))];
        } else {
          r := r[i := r[i].(ttl := left)];
        }
      }
    }

    /** Choose the TTL and overwrite it in every record of the response object. */
    method NormaliseTTL(response: Response, rewrite: Option<u32>) returns (t: u32)
      modifies response
      ensures t == ChooseTTL(old(response.msg), rewrite)
      ensures response.msg == WithTTL(old(response.msg), t)
    {
      t := PickTTL(response.msg, rewrite);
      var answer := OverwriteTTL(response.msg.answer, t);
      var ns := OverwriteTTL(response.msg.ns, t);
      var extra := OverwriteTTL(response.msg.extra, t);
      response.msg := Msg(response.msg.rcode, answer, ns, extra);
    }

    /** Editing the object just stored edits that entry of the cache, and no other. */
    method StoreThenEdit(key: Key, response: Response, expireAt: Option<int>, requestExtra: seq<RR>)
      requires response !in Responses()
      modifies this, response
      ensures response.msg == EdnsEdit(requestExtra, old(response.msg))
      ensures Contents() == old(Contents())[key := Stored(response.msg, expireAt)]
    {
      cache := cache[key := Entry(response, expireAt)];
      response.msg := EdnsEdit(requestExtra, response.msg);
      forall k | k in cache && k != key ensures Contents()[k] == old(Contents())[k] {
        assert cache[k].response in old(Responses());
      }
    }

    /**
     From an accepted response to the end of Exchange: TTLs are overwritten in the response object, the object
     is stored, and then its EDNS records are edited, in the cache too.
     */
    method FinishExchange(call: Call, response: Response) returns (r: Result)
      requires call.request.questions != [] && response !in Responses()
      modifies this, response
      ensures (Contents(), r) == Finish(cfg, old(Contents()), call, old(response.msg))
      ensures r == Answered(response.msg)
    {
      ghost var m := response.msg;
      var requestExtra := Sent(cfg, call.request, call.options).extra;
      var storable := UsesCache(cfg, call) && (response.msg.rcode == RCODE_SUCCESS || response.msg.rcode == RCODE_NAME_ERROR);
      var t := NormaliseTTL(response, call.options.rewriteTTL);
      assert storable && t != 0 <==> Storable(cfg, call, m);
      assert Contents() == old(Contents());
      if storable && t != 0 {
        StoreThenEdit(KeyFor(cfg, call.request.questions[0], call.tag), response, Lifetime(cfg, t, call.later), requestExtra);
      } else {
        response.msg := EdnsEdit(requestExtra, response.msg);
        assert Contents() == old(Contents());
      }
      assert response.msg == StoredMsg(requestExtra, m, t);
      r := Answered(response.msg);
    }

    /** Exchange; `response` is the object the transport returned, which nobody else holds. */
    method DoExchangeCall(call: Call, response: Response) returns (r: Result)
      requires response !in Responses()
      requires !call.reply.Broken? ==> response.msg == ReplyMsg(call.reply)
      modifies this, response
      ensures (Contents(), r) == Exchange(cfg, old(Contents()), call)
    {
      if call.request.questions == [] {
        return FormatError;
      }
      if Refused(call) {
        return StrategyRejected;
      }
      var useCache := UsesCache(cfg, call);
      if useCache {
        if call.waitFails {
          return WaitFailed;
        }
        var loaded := LoadResponse(KeyFor(cfg, call.request.questions[0], call.tag), call.now);
        if loaded.Some? {
          return FromCache(loaded.value);
        }
      }
      if call.loopback {
        return Loopback;
      }
      if useCache && call.hasCheck && call.knownRejected {
        return RejectedCached;
      }
      if call.reply.Broken? {
        return TransportFailed;
      }
      if RejectedBy(call, response.msg) {
        return Rejected;
      }
      r := FinishExchange(call, response);
    }
  }
}
