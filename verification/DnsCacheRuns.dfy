/**
 Concurrent exchanges over one DNS cache (dns/client.go). An exchange reads the cache, asks its transport, stores the
 response object and then edits that object, which the cache already shares with every reader; other exchanges and
 lookups may come in between any two of these steps. The lock of a question is ignored here, so the interleavings
 include those it rules out.
 */
module DnsCacheRuns {
  import opened Prelude
  import opened DnsMessage
  import opened DnsCache
  import opened DnsClient

  datatype Phase =
    | Loading(call: Call)
    | Asking(call: Call)
    | Unedited        // response stored, EDNS records not looked at yet
    | Stripped        // EDNS records taken out, the new one not yet put in

  /** A cache entry refers to a response object by the number of the call that stored it. */
  datatype Ref = Ref(writer: nat, expireAt: Option<int>)

  /** An exchange whose response was stored: the response, its TTL, and the stages its object goes through. */
  datatype Accepted = Accepted(call: Call, msg: Msg, ttl: u32, first: Msg, stripped: Msg, final: Msg)

  function Accept(call: Call): Accepted
    requires !call.reply.Broken?
  {
    var m := ReplyMsg(call.reply);
    var t := ChooseTTL(m, call.options.rewriteTTL);
    Accepted(call, m, t, WithTTL(m, t), Strip(WithTTL(m, t)), StoredMsg(call.request.extra, m, t))
  }

  function Strip(m: Msg): Msg {
    m.(extra := WithoutOpt(m.extra))
  }

  /**
   The edit of a stored object, and whether a new EDNS record is still to be appended: an EDNS record that the request
   does not ask for, or of a higher version, is taken out.
   */
  function EditObject(requestExtra: seq<RR>, m: Msg): (Msg, bool) {
    if LastOpt(m.extra).None? then (m, false)
    else if LastOpt(requestExtra).None? then (Strip(m), false)
    else if Downgraded(requestExtra, m) then (Strip(m), true)
    else (m, false)
  }

  datatype State = State(
    cache: map<Key, Ref>,
    objects: map<nat, Msg>,
    calls: map<nat, Phase>,
    accepted: map<nat, Accepted>,
    clock: int)

  datatype Event =
    | Begin(c: nat, call: Call)
    | ReadCache(c: nat)
    | Leave(c: nat)
    | Store(c: nat)
    | Edit(c: nat)
    | Append(c: nat)
    | Evict(keys: set<Key>)

  predicate Enabled(cfg: Config, s: State, e: Event) {
    match e
    case Begin(c, call) => c !in s.calls && c !in s.accepted && call.request.questions != [] && !Refused(call)
    case ReadCache(c) => c in s.calls && s.calls[c].Loading? && s.clock <= s.calls[c].call.now
    case Leave(c) => c in s.calls && (s.calls[c].Loading? || s.calls[c].Asking?)
    case Store(c) =>
      && c in s.calls && s.calls[c].Asking? && s.clock <= s.calls[c].call.later
      && s.calls[c].call.request.questions != [] && AcceptedReply(cfg, s.calls[c].call)
    case Edit(c) => c in s.calls && s.calls[c].Unedited? && c in s.accepted && c in s.objects
    case Append(c) => c in s.calls && s.calls[c].Stripped? && c in s.accepted
    case Evict(_) => true
  }

  /** The entry is there, its object too, and it has not expired. */
  predicate Hit(cfg: Config, s: State, key: Key, now: int) {
    && key in s.cache && s.cache[key].writer in s.objects
    && (cfg.disableExpire || s.cache[key].expireAt.None? || now <= s.cache[key].expireAt.value)
  }

  /** The removal of an expired entry is an Evict, which may come at any time. */
  function Step(cfg: Config, s: State, e: Event): State
    requires Enabled(cfg, s, e)
  {
    match e
    case Begin(c, call) => s.(calls := s.calls[c := if UsesCache(cfg, call) then Loading(call) else Asking(call)])
    case ReadCache(c) =>
      var call := s.calls[c].call;
      var found := call.request.questions != [] && Hit(cfg, s, CallKey(cfg, call), call.now);
      s.(calls := if found then s.calls - {c} else s.calls[c := Asking(call)], clock := call.now)
    case Leave(c) => s.(calls := s.calls - {c})
    case Store(c) =>
      var call := s.calls[c].call;
      var a := Accept(call);
      State(s.cache[CallKey(cfg, call) := Ref(c, Lifetime(cfg, a.ttl, call.later))],
            s.objects[c := a.first], s.calls[c := Unedited], s.accepted[c := a], call.later)
    case Edit(c) =>
      var (m, more) := EditObject(s.accepted[c].call.request.extra, s.objects[c]);
      s.(objects := s.objects[c := m], calls := if more then s.calls[c := Stripped] else s.calls - {c})
    case Append(c) => s.(objects := s.objects[c := s.accepted[c].final], calls := s.calls - {c})
    case Evict(keys) => s.(cache := s.cache - keys)
  }

  ghost predicate IsRun(cfg: Config, trace: seq<State>, events: seq<Event>) {
    && |trace| == |events| + 1
    && trace[0].cache == map[] && trace[0].objects == map[] && trace[0].calls == map[] && trace[0].accepted == map[]
    && forall i :: 0 <= i < |events| ==> Enabled(cfg, trace[i], events[i]) && trace[i + 1] == Step(cfg, trace[i], events[i])
  }

  // ---- Where every entry comes from ----

  /** The exchange was allowed to store its response: no client subnet, an acceptable code, a nonzero TTL. */
  ghost predicate MayStore(cfg: Config, a: Accepted) {
    && a.call.request.questions != [] && EffectiveSubnet(cfg, a.call.options).None?
    && !a.call.reply.Broken? && a == Accept(a.call) && !RejectedBy(a.call, a.msg)
    && (a.msg.rcode == RCODE_SUCCESS || a.msg.rcode == RCODE_NAME_ERROR) && a.ttl > 0
  }

  /** What the response object of an accepted exchange looks like, depending on where its call is. */
  function ObjectOf(a: Accepted, phase: Option<Phase>): Msg {
    match phase
    case Some(Unedited) => a.first
    case Some(Stripped) => a.stripped
    case _ => a.final
  }

  function PhaseOf(s: State, c: nat): Option<Phase> {
    if c in s.calls then Some(s.calls[c]) else None
  }

  predicate Writing(s: State, c: nat) {
    c in s.calls && (s.calls[c].Unedited? || s.calls[c].Stripped?)
  }

  /** Call `c` stored its response at a time that has passed, and its object is as far as the call is. */
  ghost predicate Consistent(s: State, c: nat)
    requires c in s.accepted
  {
    && s.accepted[c].call.later <= s.clock && (c in s.calls ==> Writing(s, c))
    && c in s.objects && s.objects[c] == ObjectOf(s.accepted[c], PhaseOf(s, c))
  }

  /** Entry `k` refers to the object that an exchange for this very key stored, with that exchange's lifetime. */
  ghost predicate Refers(cfg: Config, s: State, k: Key)
    requires k in s.cache
  {
    var c := s.cache[k].writer;
    && c in s.accepted && s.accepted[c].call.request.questions != []
    && k == CallKey(cfg, s.accepted[c].call)
    && s.cache[k].expireAt == Lifetime(cfg, s.accepted[c].ttl, s.accepted[c].call.later)
  }

  ghost predicate Linked(cfg: Config, s: State) {
    && (forall c :: c in s.accepted ==> Consistent(s, c))
    && (forall c :: Writing(s, c) ==> c in s.accepted)
    && (forall k :: k in s.cache ==> Refers(cfg, s, k))
  }

  ghost predicate Lawful(cfg: Config, s: State) {
    forall c :: c in s.accepted ==> MayStore(cfg, s.accepted[c])
  }

  ghost predicate Traced(cfg: Config, s: State) {
    Linked(cfg, s) && Lawful(cfg, s)
  }

  lemma AcceptedMayStore(cfg: Config, call: Call)
    requires call.request.questions != [] && AcceptedReply(cfg, call)
    ensures MayStore(cfg, Accept(call))
  {
    if EffectiveSubnet(cfg, call.options).Some? {
      SubnetIsNotSimple(cfg, call.request, call.options);
    }
  }

  /** A new object and its entry, stored under the key of its call. */
  lemma EntryKeepsLinked(cfg: Config, s: State, s': State, c: nat, a: Accepted, key: Key)
    requires Linked(cfg, s) && c !in s.accepted && s.clock <= s'.clock == a.call.later
    requires a.call.request.questions != [] && key == CallKey(cfg, a.call)
    requires s'.cache == s.cache[key := Ref(c, Lifetime(cfg, a.ttl, a.call.later))]
    requires s'.objects == s.objects[c := a.first] && s'.calls == s.calls[c := Unedited] && s'.accepted == s.accepted[c := a]
    ensures Linked(cfg, s')
  {
    forall d | d in s'.accepted && d != c ensures Consistent(s', d) {
      assert Consistent(s, d);
    }
    forall d | Writing(s', d) ensures d in s'.accepted {
      assert d != c ==> Writing(s, d);
    }
    forall k | k in s'.cache && k != key ensures Refers(cfg, s', k) {
      assert Refers(cfg, s, k);
    }
  }

  lemma StoreKeepsLinked(cfg: Config, s: State, e: Event)
    requires Linked(cfg, s) && Enabled(cfg, s, e) && e.Store?
    ensures Linked(cfg, Step(cfg, s, e))
  {
    var call := s.calls[e.c].call;
    EntryKeepsLinked(cfg, s, Step(cfg, s, e), e.c, Accept(call), CallKey(cfg, call));
  }

  /** The edit leads to the final object, directly or by way of the stripped one. */
  ghost predicate EditLeads(a: Accepted) {
    EditObject(a.call.request.extra, a.first) == (a.final, false) || EditObject(a.call.request.extra, a.first) == (a.stripped, true)
  }

  lemma LawfulEditLeads(cfg: Config, a: Accepted)
    requires MayStore(cfg, a)
    ensures EditLeads(a)
  {
  }

  /** A step of one call that touches neither the cache nor anybody else's object. */
  lemma OwnStepKeepsLinked(cfg: Config, s: State, s': State, c: nat)
    requires Linked(cfg, s) && s'.cache == s.cache && s'.accepted == s.accepted && s.clock <= s'.clock
    requires forall d :: d != c ==> PhaseOf(s', d) == PhaseOf(s, d)
    requires forall d :: d != c && d in s.objects ==> d in s'.objects && s'.objects[d] == s.objects[d]
    requires c in s.accepted ==> Consistent(s', c)
    requires Writing(s', c) ==> c in s.accepted
    ensures Linked(cfg, s')
  {
    forall d | d in s'.accepted && d != c ensures Consistent(s', d) {
      assert Consistent(s, d);
      assert PhaseOf(s', d) == PhaseOf(s, d);
      assert Writing(s', d) == Writing(s, d);
    }
    forall d | Writing(s', d) ensures d in s'.accepted {
      assert d != c ==> PhaseOf(s', d) == PhaseOf(s, d) && Writing(s, d);
    }
    forall k | k in s'.cache ensures Refers(cfg, s', k) {
      assert Refers(cfg, s, k);
    }
  }

  lemma ReaderKeepsLinked(cfg: Config, s: State, e: Event)
    requires Linked(cfg, s) && Enabled(cfg, s, e) && (e.Begin? || e.ReadCache? || e.Leave?)
    ensures Linked(cfg, Step(cfg, s, e))
  {
    assert e.c !in s.accepted;
    OwnStepKeepsLinked(cfg, s, Step(cfg, s, e), e.c);
  }

  lemma EditKeepsLinked(cfg: Config, s: State, e: Event)
    requires Linked(cfg, s) && Enabled(cfg, s, e) && (e.Edit? || e.Append?) && EditLeads(s.accepted[e.c])
    ensures Linked(cfg, Step(cfg, s, e))
  {
    assert Consistent(s, e.c);
    OwnStepKeepsLinked(cfg, s, Step(cfg, s, e), e.c);
  }

  lemma EvictKeepsLinked(cfg: Config, s: State, keys: set<Key>)
    requires Linked(cfg, s)
    ensures Linked(cfg, Step(cfg, s, Evict(keys)))
  {
    var s' := Step(cfg, s, Evict(keys));
    forall c | c in s'.accepted ensures Consistent(s', c) {
      assert Consistent(s, c);
    }
    forall c | Writing(s', c) ensures c in s'.accepted {
      assert Writing(s, c);
    }
    forall k | k in s'.cache ensures Refers(cfg, s', k) {
      assert Refers(cfg, s, k);
    }
  }

  lemma StepKeepsLawful(cfg: Config, s: State, e: Event)
    requires Lawful(cfg, s) && Enabled(cfg, s, e)
    ensures Lawful(cfg, Step(cfg, s, e))
  {
    if e.Store? {
      AcceptedMayStore(cfg, s.calls[e.c].call);
    }
  }

  lemma StepKeepsTraced(cfg: Config, s: State, e: Event)
    requires Traced(cfg, s) && Enabled(cfg, s, e)
    ensures Traced(cfg, Step(cfg, s, e))
  {
    StepKeepsLawful(cfg, s, e);
    match e {
      case Store(_) => StoreKeepsLinked(cfg, s, e);
      case Evict(keys) => EvictKeepsLinked(cfg, s, keys);
      case Edit(c) =>
        LawfulEditLeads(cfg, s.accepted[c]);
        EditKeepsLinked(cfg, s, e);
      case Append(c) =>
        LawfulEditLeads(cfg, s.accepted[c]);
        EditKeepsLinked(cfg, s, e);
      case _ => ReaderKeepsLinked(cfg, s, e);
    }
  }

  /**
   Under every interleaving each cache entry refers to the response of an accepted exchange for its own question (and
   transport, in independent mode), without a client subnet, with a successful or name-error code and a nonzero TTL.
   */
  lemma {:induction false} EveryEntryIsTraced(cfg: Config, trace: seq<State>, events: seq<Event>, k: nat)
    requires IsRun(cfg, trace, events) && k < |trace|
    ensures Traced(cfg, trace[k])
  {
    if k > 0 {
      EveryEntryIsTraced(cfg, trace, events, k - 1);
      StepKeepsTraced(cfg, trace[k - 1], events[k - 1]);
    }
  }

  // ---- What a reader is served ----

  lemma UniformShowsTimeLeft(m: Msg, t: u32, left: u32)
    requires AllTTL(Records(m), t)
    ensures ShowsTimeLeft(m, left)
  {
    AgedRecords(m, left);
    AgedExact(Records(m), left);
    UniformScan(Records(m), t);
  }

  lemma StripKeepsUniform(m: Msg, t: u32)
    requires AllTTL(Records(m), t)
    ensures AllTTL(Records(Strip(m)), t)
  {
    UniformMember(Records(m), t);
    UniformMember(Records(Strip(m)), t);
    assert forall r :: r in Records(Strip(m)) ==> r in Records(m);
  }

  lemma EditingShowsTimeLeft(cfg: Config, a: Accepted, left: u32)
    requires MayStore(cfg, a)
    ensures ShowsTimeLeft(a.first, left) && ShowsTimeLeft(a.stripped, left)
  {
    WithTTLUniform(a.msg, a.ttl);
    UniformShowsTimeLeft(a.first, a.ttl, left);
    StripKeepsUniform(a.first, a.ttl);
    UniformShowsTimeLeft(Strip(a.first), a.ttl, left);
  }

  /** The edit of `a` replaced the EDNS record and left other records beside it. */
  ghost predicate Mixed(a: Accepted) {
    DowngradedBy(a.call.request.extra, a.msg, a.ttl) && HasOthers(a.msg)
  }

  lemma EditedShowsTimeLeft(cfg: Config, a: Accepted, left: u32)
    requires MayStore(cfg, a)
    ensures ShowsTimeLeft(a.final, left) <==> !Mixed(a)
  {
    StoredShowsTimeLeft(a.call.request.extra, a.msg, a.ttl, left);
  }

  /**
   Under every interleaving, whoever reads an unexpired entry, exchange or lookup: the seconds left never exceed the
   TTL the response was stored with, and every record shows them, exactly while the storing call is still editing or
   when its edit did not leave a new EDNS record beside others.
   */
  lemma ServedTTL(cfg: Config, trace: seq<State>, events: seq<Event>, i: nat, k: Key, now: int)
    requires IsRun(cfg, trace, events) && i < |trace| && !cfg.disableExpire
    requires Hit(cfg, trace[i], k, now) && trace[i].clock <= now
    ensures var s := trace[i];
            var c := s.cache[k].writer;
            && c in s.accepted && MayStore(cfg, s.accepted[c]) && s.cache[k].expireAt.Some?
            && var a, left := s.accepted[c], SecondsLeft(s.cache[k].expireAt.value, now);
               && k == CallKey(cfg, a.call) && left <= a.ttl
               && (ShowsTimeLeft(s.objects[c], left) <==> c in s.calls || !Mixed(a))
  {
    EveryEntryIsTraced(cfg, trace, events, i);
    var s := trace[i];
    assert Refers(cfg, s, k);
    var c := s.cache[k].writer;
    assert Consistent(s, c);
    var a, expireAt := s.accepted[c], s.cache[k].expireAt.value;
    var left := SecondsLeft(expireAt, now);
    LeftBound(a.ttl, expireAt, now);
    EditingShowsTimeLeft(cfg, a, left);
    EditedShowsTimeLeft(cfg, a, left);
  }

  // ---- An exchange that nobody disturbs ----

  /** The entries with the messages they refer to. */
  ghost function Contents(s: State): Cache {
    map k | k in s.cache && s.cache[k].writer in s.objects :: Stored(s.objects[s.cache[k].writer], s.cache[k].expireAt)
  }

  /** The state after these events, if each is possible. */
  function After(cfg: Config, s: State, events: seq<Event>): Option<State> {
    if events == [] then Some(s)
    else
      var n := |events| - 1;
      match After(cfg, s, events[..n])
      case None => None
      case Some(mid) => if Enabled(cfg, mid, events[n]) then Some(Step(cfg, mid, events[n])) else None
  }

  lemma AfterMore(cfg: Config, s: State, events: seq<Event>, mid: State, e: Event)
    requires After(cfg, s, events) == Some(mid) && Enabled(cfg, mid, e)
    ensures After(cfg, s, events + [e]) == Some(Step(cfg, mid, e))
  {
    assert (events + [e])[..|events|] == events;
  }

  lemma FinishEdit(cfg: Config, s: State, before: seq<Event>, mid: State, c: nat) returns (events: seq<Event>, s': State)
    requires After(cfg, s, before) == Some(mid) && c in mid.calls && mid.calls[c].Unedited?
    requires c in mid.accepted && EditLeads(mid.accepted[c]) && c in mid.objects && mid.objects[c] == mid.accepted[c].first
    ensures After(cfg, s, events) == Some(s') && s'.cache == mid.cache && s'.objects == mid.objects[c := mid.accepted[c].final]
  {
    AfterMore(cfg, s, before, mid, Edit(c));
    events, s' := before + [Edit(c)], Step(cfg, mid, Edit(c));
    if c in s'.calls {
      AfterMore(cfg, s, events, s', Append(c));
      events, s' := events + [Append(c)], Step(cfg, s', Append(c));
    }
  }

  lemma ReachStore(cfg: Config, s: State, c: nat, call: Call) returns (events: seq<Event>, s': State)
    requires c !in s.calls && c !in s.accepted && s.clock <= call.now <= call.later
    requires Reads(cfg, call) && !Hit(cfg, s, CallKey(cfg, call), call.now) && AcceptedReply(cfg, call)
    ensures After(cfg, s, events) == Some(s') && c in s'.calls && s'.calls[c] == Unedited
    ensures s'.cache == s.cache[CallKey(cfg, call) := Ref(c, Lifetime(cfg, Accept(call).ttl, call.later))]
    ensures s'.accepted == s.accepted[c := Accept(call)] && s'.objects == s.objects[c := Accept(call).first]
  {
    events := [Begin(c, call)];
    var s1 := Step(cfg, s, Begin(c, call));
    assert events[..0] == [];
    assert After(cfg, s, events) == Some(s1);
    AfterMore(cfg, s, events, s1, ReadCache(c));
    var s2 := Step(cfg, s1, ReadCache(c));
    AfterMore(cfg, s, events + [ReadCache(c)], s2, Store(c));
    events, s' := events + [ReadCache(c)] + [Store(c)], Step(cfg, s2, Store(c));
  }

  lemma StoreContents(cfg: Config, s: State, s': State, c: nat, key: Key, expireAt: Option<int>, final: Msg)
    requires Linked(cfg, s) && c !in s.accepted
    requires s'.cache == s.cache[key := Ref(c, expireAt)] && c in s'.objects && s'.objects[c] == final
    requires forall d :: d != c ==> (d in s'.objects <==> d in s.objects) && (d in s.objects ==> s'.objects[d] == s.objects[d])
    ensures Contents(s') == Contents(s)[key := Stored(final, expireAt)]
  {
    forall k | k in s.cache ensures s.cache[k].writer != c && s.cache[k].writer in s.objects {
      assert Refers(cfg, s, k);
      assert Consistent(s, s.cache[k].writer);
    }
  }

  lemma WritersHaveObjects(cfg: Config, s: State)
    requires Linked(cfg, s)
    ensures forall k :: k in s.cache ==> s.cache[k].writer in s.objects
    ensures Contents(s).Keys == s.cache.Keys
  {
    forall k | k in s.cache ensures s.cache[k].writer in s.objects {
      assert Refers(cfg, s, k);
      assert Consistent(s, s.cache[k].writer);
    }
  }

  lemma EvictContents(cfg: Config, s: State, keys: set<Key>)
    requires Linked(cfg, s)
    ensures Contents(Step(cfg, s, Evict(keys))) == Contents(s) - keys
    ensures After(cfg, s, [Evict(keys)]) == Some(Step(cfg, s, Evict(keys)))
  {
    assert [Evict(keys)][..0] == [];
  }

  lemma UndisturbedStore(cfg: Config, s: State, c: nat, call: Call) returns (events: seq<Event>, s': State)
    requires Linked(cfg, s) && c !in s.calls && c !in s.accepted && s.clock <= call.now <= call.later
    requires Reads(cfg, call) && !Hit(cfg, s, CallKey(cfg, call), call.now) && AcceptedReply(cfg, call)
    ensures After(cfg, s, events) == Some(s') && Contents(s') == Contents(s)[CallKey(cfg, call) := NewEntry(cfg, call)]
  {
    var before, mid := ReachStore(cfg, s, c, call);
    AcceptedMayStore(cfg, call);
    LawfulEditLeads(cfg, Accept(call));
    events, s' := FinishEdit(cfg, s, before, mid, c);
    StoreContents(cfg, s, s', c, CallKey(cfg, call), Lifetime(cfg, Accept(call).ttl, call.later), Accept(call).final);
  }

  /**
   The steps of a call that nobody disturbs, one after the other, do to the cache what the exchange does: the runs
   above refine the object's own method.
   */
  lemma UndisturbedIsExchange(cfg: Config, s: State, c: nat, call: Call) returns (events: seq<Event>, s': State)
    requires Linked(cfg, s) && c !in s.calls && c !in s.accepted && s.clock <= call.now <= call.later
    ensures After(cfg, s, events) == Some(s') && Contents(s') == CacheAfter(cfg, Contents(s), call)
  {
    WritersHaveObjects(cfg, s);
    if Reads(cfg, call) && Misses(cfg, Contents(s), call) {
      if AcceptedReply(cfg, call) {
        assert !Hit(cfg, s, CallKey(cfg, call), call.now);
        events, s' := UndisturbedStore(cfg, s, c, call);
      } else {
        EvictContents(cfg, s, {CallKey(cfg, call)});
        events, s' := [Evict({CallKey(cfg, call)})], Step(cfg, s, Evict({CallKey(cfg, call)}));
      }
    } else {
      events, s' := [], s;
    }
  }

  /**
   Under every interleaving, what a reader of an unexpired entry gets: the response that an accepted exchange for this
   key stored, as far as it is edited, with no TTL longer than it was stored with where the TTLs show the time left;
   and they show it exactly while the storing call is still editing or when its edit left no new EDNS record beside others.
   */
  lemma ServedMessage(cfg: Config, trace: seq<State>, events: seq<Event>, i: nat, k: Key, now: int, loaded: Msg)
    requires IsRun(cfg, trace, events) && i < |trace| && !cfg.disableExpire
    requires Hit(cfg, trace[i], k, now) && trace[i].clock <= now
    requires Load(cfg, Contents(trace[i]), k, now).1 == Some(loaded)
    ensures var s := trace[i];
            var c := s.cache[k].writer;
            && c in s.accepted && MayStore(cfg, s.accepted[c])
            && k == CallKey(cfg, s.accepted[c].call) && s.cache[k].expireAt.Some?
            && var seconds := (s.cache[k].expireAt.value - now) / SECOND;
               && SameMessage(loaded, s.objects[c]) && 0 <= seconds <= s.accepted[c].ttl
               && (Shows(loaded, seconds) <==> c in s.calls || !Mixed(s.accepted[c]))
  {
    ServedTTL(cfg, trace, events, i, k, now);
    EveryEntryIsTraced(cfg, trace, events, i);
    var s := trace[i];
    var c, e := s.cache[k].writer, s.cache[k].expireAt.value;
    assert Refers(cfg, s, k);
    assert Consistent(s, c);
    LeftBound(s.accepted[c].ttl, e, now);
    ShortLifetime(s.accepted[c].ttl, e, now);
    LoadMeaning(cfg, Contents(s), k, now, loaded);
    OneTTLServed(s.objects[c], SecondsLeft(e, now));
  }

  lemma ShortLifetime(t: u32, e: int, now: int)
    requires 0 <= e - now <= t * SECOND
    ensures e - now < TWO32 * SECOND && (e - now) / SECOND <= t
  {
  }

  lemma OneTTLServed(m: Msg, left: u32)
    ensures ShowsTimeLeft(m, left) <==> OneTTL(m)
  {
    AgedRecords(m, left);
    AgedExact(Records(m), left);
    OneTTLMeaning(m);
  }
}
