/**
 The per-question locks of the DNS client (dns/client.go): concurrent exchanges of one question coalesce on a
 channel. The first caller stores a fresh channel and, when it returns, deletes the question's entry and then
 closes the channel; callers that find an entry wait on it, or give up.
 */
module CacheLock {
  type Question = string
  type Chan = nat

  datatype Phase =
    | Owner(q: Question, ch: Chan)      // its entry is in the lock map
    | Deleted(q: Question, ch: Chan)    // entry deleted, channel not yet closed
    | Waiter(q: Question, ch: Chan)

  /**
   `closed` counts the close operations on each channel; channels below `next` have been installed, and `asked` records
   for which question.
   */
  datatype State = State(locks: map<Question, Chan>, calls: map<nat, Phase>, next: Chan, closed: multiset<Chan>, asked: seq<Question>)

  const Initial := State(map[], map[], 0, multiset{}, [])

  datatype Event =
    | Acquire(caller: nat, q: Question)
    | Delete(caller: nat)
    | Close(caller: nat)
    | Wake(caller: nat)
    | GiveUp(caller: nat)

  predicate Enabled(s: State, e: Event) {
    match e
    case Acquire(c, _) => c !in s.calls
    case Delete(c) => c in s.calls && s.calls[c].Owner?
    case Close(c) => c in s.calls && s.calls[c].Deleted?
    case Wake(c) => c in s.calls && s.calls[c].Waiter? && s.calls[c].ch in s.closed
    case GiveUp(c) => c in s.calls && s.calls[c].Waiter?
  }

  function Step(s: State, e: Event): State
    requires Enabled(s, e)
  {
    match e
    case Acquire(c, q) =>
      if q in s.locks then s.(calls := s.calls[c := Waiter(q, s.locks[q])])
      else s.(locks := s.locks[q := s.next], calls := s.calls[c := Owner(q, s.next)], next := s.next + 1, asked := s.asked + [q])
    // The map's delete takes the question alone; it does not name the channel.
    case Delete(c) => s.(locks := s.locks - {s.calls[c].q}, calls := s.calls[c := Deleted(s.calls[c].q, s.calls[c].ch)])
    case Close(c) => s.(calls := s.calls - {c}, closed := s.closed + multiset{s.calls[c].ch})
    case Wake(c) => s.(calls := s.calls - {c})
    case GiveUp(c) => s.(calls := s.calls - {c})
  }

  ghost predicate IsRun(trace: seq<State>, events: seq<Event>) {
    && |trace| == |events| + 1 && trace[0] == Initial
    && forall i :: 0 <= i < |events| ==> Enabled(trace[i], events[i]) && trace[i + 1] == Step(trace[i], events[i])
  }

  /** Caller `c` installed `ch` and has not closed it yet. */
  predicate Holds(s: State, c: nat, ch: Chan) {
    c in s.calls && !s.calls[c].Waiter? && s.calls[c].ch == ch
  }

  predicate Owns(s: State, c: nat, q: Question, ch: Chan) {
    c in s.calls && s.calls[c] == Owner(q, ch)
  }

  ghost predicate Held(s: State, ch: Chan) {
    exists c :: Holds(s, c, ch)
  }

  ghost predicate Sound(s: State) {
    // every entry is the channel of a caller still in flight, and every such caller finds its own channel
    && (forall q :: q in s.locks ==> exists c :: Owns(s, c, q, s.locks[q]))
    && (forall c :: c in s.calls && s.calls[c].Owner? ==> s.calls[c].q in s.locks && s.locks[s.calls[c].q] == s.calls[c].ch)
    // one holder per channel; closed exactly once, namely when it is no longer held
    && (forall c, d, ch :: Holds(s, c, ch) && Holds(s, d, ch) ==> c == d)
    && (forall ch: Chan :: ch < s.next ==> s.closed[ch] == if Held(s, ch) then 0 else 1)
    && (forall ch: Chan :: ch >= s.next ==> s.closed[ch] == 0)
    && (forall c :: c in s.calls ==> s.calls[c].ch < s.next)
  }

  lemma AcquireKeepsSound(s: State, c: nat, q: Question)
    requires Sound(s) && Enabled(s, Acquire(c, q))
    ensures Sound(Step(s, Acquire(c, q)))
  {
    var s' := Step(s, Acquire(c, q));
    forall d, ch: Chan | ch < s.next ensures Holds(s', d, ch) <==> Holds(s, d, ch) {
    }
    forall k | k in s'.locks ensures exists d :: Owns(s', d, k, s'.locks[k]) {
      if k in s.locks {
        var d :| Owns(s, d, k, s.locks[k]);
        assert Owns(s', d, k, s'.locks[k]);
      } else {
        assert Owns(s', c, k, s'.locks[k]);
      }
    }
    if q !in s.locks {
      assert Holds(s', c, s.next);
      assert Held(s', s.next);
    }
    forall ch: Chan | ch < s.next ensures Held(s', ch) <==> Held(s, ch) {
      if Held(s, ch) {
        var d :| Holds(s, d, ch);
        assert Holds(s', d, ch);
      }
    }
  }

  lemma DeleteKeepsSound(s: State, c: nat)
    requires Sound(s) && Enabled(s, Delete(c))
    ensures Sound(Step(s, Delete(c)))
  {
    var s' := Step(s, Delete(c));
    forall d, ch: Chan ensures Holds(s', d, ch) <==> Holds(s, d, ch) {
    }
    forall ch: Chan ensures Held(s', ch) <==> Held(s, ch) {
      if Held(s, ch) {
        var d :| Holds(s, d, ch);
        assert Holds(s', d, ch);
      }
    }
    forall k | k in s'.locks ensures exists d :: Owns(s', d, k, s'.locks[k]) {
      var d :| Owns(s, d, k, s.locks[k]);
      assert Owns(s', d, k, s'.locks[k]);
    }
    forall d | d in s'.calls && s'.calls[d].Owner? ensures s'.calls[d].q in s'.locks {
      if s'.calls[d].q == s.calls[c].q {
        assert Holds(s, d, s.calls[c].ch) && Holds(s, c, s.calls[c].ch);
      }
    }
  }

  /** A caller that is not an owner leaves: only its own channel, if any, stops being held. */
  lemma LeaveKeepsSound(s: State, e: Event)
    requires Sound(s) && Enabled(s, e) && (e.Close? || e.Wake? || e.GiveUp?)
    ensures Sound(Step(s, e))
  {
    var s' := Step(s, e);
    var c := e.caller;
    forall d, ch: Chan ensures Holds(s', d, ch) <==> Holds(s, d, ch) && d != c {
    }
    forall k | k in s'.locks ensures exists d :: Owns(s', d, k, s'.locks[k]) {
      var d :| Owns(s, d, k, s.locks[k]);
      assert Owns(s', d, k, s'.locks[k]);
    }
    forall ch: Chan ensures Held(s', ch) <==> Held(s, ch) && !(e.Close? && ch == s.calls[c].ch) {
      if Held(s, ch) {
        var d :| Holds(s, d, ch);
        assert d != c ==> Holds(s', d, ch);
      }
      if e.Close? {
        assert Holds(s, c, s.calls[c].ch);
      }
    }
    forall ch: Chan | ch < s'.next ensures s'.closed[ch] == if Held(s', ch) then 0 else 1 {
      if e.Close? && ch == s.calls[c].ch {
        assert Holds(s, c, ch);
        assert s.closed[ch] == 0 && s'.closed[ch] == 1;
      } else {
        assert s'.closed[ch] == s.closed[ch];
      }
    }
  }

  lemma StepKeepsSound(s: State, e: Event)
    requires Sound(s) && Enabled(s, e)
    ensures Sound(Step(s, e))
  {
    match e {
      case Acquire(c, q) => AcquireKeepsSound(s, c, q);
      case Delete(c) => DeleteKeepsSound(s, c);
      case _ => LeaveKeepsSound(s, e);
    }
  }

  /** Under every interleaving the lock map and the channels are sound. */
  lemma {:induction false} RunIsSound(trace: seq<State>, events: seq<Event>, k: nat)
    requires IsRun(trace, events) && k < |trace|
    ensures Sound(trace[k])
  {
    if k > 0 {
      RunIsSound(trace, events, k - 1);
      StepKeepsSound(trace[k - 1], events[k - 1]);
    }
  }

  /** The deferred delete names only the question, yet it always removes the caller's own channel and nothing else. */
  lemma DeleteRemovesOwn(trace: seq<State>, events: seq<Event>, k: nat)
    requires IsRun(trace, events) && k < |events| && events[k].Delete?
    ensures var s, c := trace[k], events[k].caller;
            && s.calls[c].q in s.locks && s.locks[s.calls[c].q] == s.calls[c].ch
            && trace[k + 1].locks == s.locks - {s.calls[c].q}
  {
    RunIsSound(trace, events, k);
  }

  /** No waiter is stranded: its channel is closed already, or the caller that will close it is still in flight. */
  lemma WaiterIsNoOrphan(trace: seq<State>, events: seq<Event>, k: nat, c: nat)
    requires IsRun(trace, events) && k < |trace| && c in trace[k].calls && trace[k].calls[c].Waiter?
    ensures Enabled(trace[k], Wake(c)) <==> !Held(trace[k], trace[k].calls[c].ch)
  {
    RunIsSound(trace, events, k);
  }

  /** Every channel ever installed is closed once and only once when its owner returns; when all have returned, no entry is left. */
  lemma AllReturned(trace: seq<State>, events: seq<Event>, k: nat)
    requires IsRun(trace, events) && k < |trace|
    requires forall c :: c in trace[k].calls ==> trace[k].calls[c].Waiter?
    ensures trace[k].locks == map[]
    ensures forall ch: Chan :: trace[k].closed[ch] == if ch < trace[k].next then 1 else 0
  {
    RunIsSound(trace, events, k);
    var s := trace[k];
    forall ch: Chan ensures !Held(s, ch) {
    }
  }

  /** Every caller, waiting or not, holds a channel that was installed for its own question; so does every entry. */
  ghost predicate Matched(s: State) {
    && |s.asked| == s.next
    && (forall c :: c in s.calls ==> s.calls[c].ch < s.next && s.asked[s.calls[c].ch] == s.calls[c].q)
    && (forall q :: q in s.locks ==> s.locks[q] < s.next && s.asked[s.locks[q]] == q)
  }

  lemma {:induction false} RunIsMatched(trace: seq<State>, events: seq<Event>, k: nat)
    requires IsRun(trace, events) && k < |trace|
    ensures Matched(trace[k])
  {
    if k > 0 {
      RunIsMatched(trace, events, k - 1);
    }
  }

  /** The point of the lock: no two callers own one question at the same time. */
  lemma OneOwner(trace: seq<State>, events: seq<Event>, k: nat, c: nat, d: nat)
    requires IsRun(trace, events) && k < |trace| && c in trace[k].calls && d in trace[k].calls
    requires trace[k].calls[c].Owner? && trace[k].calls[d].Owner? && trace[k].calls[c].q == trace[k].calls[d].q
    ensures c == d
  {
    RunIsSound(trace, events, k);
    var s := trace[k];
    assert Holds(s, c, s.calls[c].ch) && Holds(s, d, s.calls[c].ch);
  }

  /** A caller that comes while a question is owned waits, on the channel of that owner. */
  lemma AcquireWaits(trace: seq<State>, events: seq<Event>, k: nat, d: nat)
    requires IsRun(trace, events) && k < |events| && events[k].Acquire? && d in trace[k].calls
    requires trace[k].calls[d].Owner? && trace[k].calls[d].q == events[k].q
    ensures trace[k + 1].calls == trace[k].calls[events[k].caller := Waiter(events[k].q, trace[k].calls[d].ch)]
  {
    RunIsSound(trace, events, k);
  }

  /** A caller that finds the question free owns it, with a channel nobody had before. */
  lemma AcquireOwns(trace: seq<State>, events: seq<Event>, k: nat)
    requires IsRun(trace, events) && k < |events| && events[k].Acquire? && events[k].q !in trace[k].locks
    ensures var s', c := trace[k + 1], events[k].caller;
            && c in s'.calls && s'.calls[c].Owner? && s'.calls[c].q == events[k].q
            && (forall d :: d in s'.calls && d != c ==> s'.calls[d].ch != s'.calls[c].ch)
  {
    RunIsSound(trace, events, k);
  }

  /** A caller that closes its channel, wakes up or gives up is through; nothing else changes but the channel it closed. */
  lemma LeaveIsThrough(s: State, e: Event)
    requires Enabled(s, e) && (e.Close? || e.Wake? || e.GiveUp?)
    ensures var s' := Step(s, e);
            && s'.calls == s.calls - {e.caller} && s'.locks == s.locks && s'.next == s.next
            && s'.closed == (if e.Close? then s.closed + multiset{s.calls[e.caller].ch} else s.closed)
  {
  }
}
