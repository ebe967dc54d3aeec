/**
 The lifecycle of the started service (daemon/started_service.go). Start/reload gives up the service mutex
 twice in the middle of the operation, so each critical section is one step of a state machine and any number
 of callers may be between sections at once.
 */
module ServiceLifecycle {
  import opened Prelude

  datatype Status = Idle | Stopping | Starting | Started | Fatal

  /** Where a start/reload call is while it does not hold the mutex. */
  datatype Phase =
    | ClosingOld(previous: nat)               // closing the instance it replaces
    | OldClosed                          // about to retake the mutex and install a new instance
    | StartingNew(instance: nat)         // inside instance.Start
    | StartReturned(instance: nat, ok: bool)

  /** `closed` and `startOk` record the instances Close was called on and whose Start returned without error. */
  datatype State = State(
    status: Status,
    instance: Option<nat>,
    next: nat,
    calls: map<nat, Phase>,
    closed: set<nat>,
    startOk: set<nat>)

  datatype Event =
    | Enter(caller: nat, newOk: bool)
    | CloseOld(caller: nat)
    | Install(caller: nat, newOk: bool)
    | StartReturns(caller: nat, ok: bool)
    | Finish(caller: nat)
    | CloseService(closeOk: bool)
    | SetError

  const Initial := State(Idle, None, 0, map[], {}, {})

  predicate Enabled(s: State, e: Event) {
    match e
    case Enter(c, _) => c !in s.calls
    case CloseOld(c) => c in s.calls && s.calls[c].ClosingOld?
    case Install(c, _) => c in s.calls && s.calls[c].OldClosed?
    case StartReturns(c, _) => c in s.calls && s.calls[c].StartingNew?
    case Finish(c) => c in s.calls && s.calls[c].StartReturned?
    case CloseService(_) => true
    case SetError => true
  }

  /** The section that creates and publishes a new instance; it does not look at the status it overwrites. */
  function InstallNew(s: State, c: nat, newOk: bool): State {
    if newOk then s.(status := Starting, instance := Some(s.next), next := s.next + 1, calls := s.calls[c := StartingNew(s.next)])
    else s.(status := Fatal, calls := s.calls - {c})
  }

  function Step(s: State, e: Event): State
    requires Enabled(s, e)
  {
    match e
    case Enter(c, newOk) =>
      if s.status.Stopping? || s.status.Fatal? then s
      else if s.instance.Some? then s.(status := Stopping, calls := s.calls[c := ClosingOld(s.instance.value)])
      else InstallNew(s, c, newOk)
    case CloseOld(c) => s.(calls := s.calls[c := OldClosed], closed := s.closed + {s.calls[c].previous})
    case Install(c, newOk) => InstallNew(s, c, newOk)
    case StartReturns(c, ok) =>
      var i := s.calls[c].instance;
      s.(calls := s.calls[c := StartReturned(i, ok)], startOk := if ok then s.startOk + {i} else s.startOk)
    case Finish(c) =>
      var s1 := s.(calls := s.calls - {c});
      if !s.status.Starting? then s1
      else s1.(status := if s.calls[c].ok then Started else Fatal)
    case CloseService(closeOk) =>
      if !s.status.Starting? && !s.status.Started? then s
      else
        var s1 := if s.instance.Some? then s.(closed := s.closed + {s.instance.value}) else s;
        if s.instance.Some? && !closeOk then s1.(status := Fatal)
        else s1.(status := Idle, instance := None)
    case SetError => s.(status := Fatal)
  }

  /** `trace` is a run of the service from a fresh state under the given interleaving. */
  ghost predicate IsRun(trace: seq<State>, events: seq<Event>) {
    && |trace| == |events| + 1 && trace[0] == Initial
    && forall i :: 0 <= i < |events| ==> Enabled(trace[i], events[i]) && trace[i + 1] == Step(trace[i], events[i])
  }

  predicate Closer(s: State, c: nat) {
    c in s.calls && (s.calls[c].ClosingOld? || s.calls[c].OldClosed?)
  }

  /** Caller `c` is between installing the current instance and deciding its fate. */
  predicate StartsCurrent(s: State, c: nat) {
    && c in s.calls && (s.calls[c].StartingNew? || s.calls[c].StartReturned?)
    && s.instance == Some(s.calls[c].instance)
  }

  /** What holds whenever the mutex is free, for any number of concurrent callers. */
  ghost predicate Safe(s: State) {
    && (s.status.Starting? || s.status.Started? ==> s.instance.Some? && s.instance.value !in s.closed)
    && (s.status.Idle? ==> s.instance.None?)
    && (forall c, d :: Closer(s, c) && Closer(s, d) ==> c == d)
    && ((exists c :: Closer(s, c)) ==> s.status.Stopping? || s.status.Fatal?)
    && (s.status.Stopping? ==> exists c :: Closer(s, c))
    && (s.status.Starting? ==> exists c :: StartsCurrent(s, c))
  }

  /** Bookkeeping the proof needs: instance numbers are fresh. */
  ghost predicate Numbered(s: State) {
    && (s.instance.Some? ==> s.instance.value < s.next)
    && (forall i :: i in s.closed ==> i < s.next)
    && (forall c :: c in s.calls && s.calls[c].ClosingOld? ==> s.calls[c].previous < s.next)
  }

  lemma InstallKeepsSafe(s: State, c: nat, newOk: bool)
    requires Safe(s) && Numbered(s)
    requires forall d :: Closer(s, d) ==> d == c
    requires c in s.calls ==> s.calls[c].OldClosed?
    requires c !in s.calls ==> !s.status.Stopping?
    ensures Safe(InstallNew(s, c, newOk)) && Numbered(InstallNew(s, c, newOk))
  {
    var s' := InstallNew(s, c, newOk);
    assert forall d :: !Closer(s', d) by {
      forall d ensures !Closer(s', d) {
        assert d != c ==> Closer(s, d) == Closer(s', d);
      }
    }
    if newOk {
      assert StartsCurrent(s', c);
    }
  }

  lemma FinishKeepsSafe(s: State, c: nat)
    requires Safe(s) && Numbered(s) && Enabled(s, Finish(c))
    ensures Safe(Step(s, Finish(c)))
  {
    var s' := Step(s, Finish(c));
    forall d ensures Closer(s', d) <==> Closer(s, d) {
    }
    if s.status.Stopping? {
      var d :| Closer(s, d);
      assert Closer(s', d);
    }
  }

  lemma StepKeepsSafe(s: State, e: Event)
    requires Safe(s) && Numbered(s) && Enabled(s, e)
    ensures Safe(Step(s, e)) && Numbered(Step(s, e))
  {
    var s' := Step(s, e);
    match e {
      case Enter(c, newOk) =>
        if s.status.Idle? || s.status.Starting? || s.status.Started? {
          if s.instance.Some? {
            assert Closer(s', c);
            assert forall d :: Closer(s', d) ==> d == c || Closer(s, d);
          } else {
            InstallKeepsSafe(s, c, newOk);
          }
        }
      case CloseOld(c) =>
        assert forall d :: Closer(s', d) <==> Closer(s, d);
        assert Closer(s, c);
      case Install(c, newOk) =>
        assert Closer(s, c);
        InstallKeepsSafe(s, c, newOk);
      case StartReturns(c, ok) =>
        assert forall d :: Closer(s', d) <==> Closer(s, d);
        assert forall d :: StartsCurrent(s', d) <==> StartsCurrent(s, d);
      case Finish(c) =>
        FinishKeepsSafe(s, c);
      case CloseService(closeOk) =>
        assert forall d :: Closer(s', d) <==> Closer(s, d);
      case SetError =>
        assert forall d :: Closer(s', d) <==> Closer(s, d);
    }
  }

  /**
   Under every interleaving: STARTING and STARTED have an instance that was never closed, IDLE has none,
   STOPPING means exactly one caller is closing an old instance, and STARTING has a caller starting it.
   */
  lemma {:induction false} RunIsSafe(trace: seq<State>, events: seq<Event>, k: nat)
    requires IsRun(trace, events) && k < |trace|
    ensures Safe(trace[k]) && Numbered(trace[k])
  {
    if k > 0 {
      RunIsSafe(trace, events, k - 1);
      StepKeepsSafe(trace[k - 1], events[k - 1]);
    }
  }

  /** With no caller closing an old instance, FATAL stays. */
  lemma {:induction false} FatalStays(trace: seq<State>, events: seq<Event>, k: nat, m: nat)
    requires IsRun(trace, events) && k <= m < |trace|
    requires trace[k].status.Fatal? && forall c :: !Closer(trace[k], c)
    ensures trace[m].status.Fatal? && forall c :: !Closer(trace[m], c)
  {
    if k < m {
      FatalStays(trace, events, k, m - 1);
      var s, e := trace[m - 1], events[m - 1];
      if e.Install? || e.CloseOld? {
        assert Closer(s, e.caller);
      }
      assert forall c :: Closer(Step(s, e), c) ==> Closer(s, c);
    }
  }

  lemma RunExtends(trace: seq<State>, events: seq<Event>, e: Event)
    requires IsRun(trace, events) && Enabled(trace[|events|], e)
    ensures IsRun(trace + [Step(trace[|events|], e)], events + [e])
  {
  }

  /** Whatever the status, a caller closing an old instance can go on to STARTING. */
  lemma CloserReachesStarting(trace: seq<State>, events: seq<Event>, c: nat) returns (trace': seq<State>, events': seq<Event>)
    requires IsRun(trace, events) && Closer(trace[|events|], c)
    ensures IsRun(trace', events') && trace <= trace' && events <= events' && trace'[|events'|].status.Starting?
  {
    trace', events' := trace, events;
    if trace[|events|].calls[c].ClosingOld? {
      RunExtends(trace, events, CloseOld(c));
      trace', events' := trace + [Step(trace[|events|], CloseOld(c))], events + [CloseOld(c)];
    }
    RunExtends(trace', events', Install(c, true));
    trace', events' := trace' + [Step(trace'[|events'|], Install(c, true))], events' + [Install(c, true)];
  }

  /** For every run that ends in FATAL: it is FATAL for ever, however the run goes on, exactly when no caller is closing an old instance. */
  lemma FatalIsPermanent(trace: seq<State>, events: seq<Event>)
    requires IsRun(trace, events) && trace[|events|].status.Fatal?
    ensures (forall c :: !Closer(trace[|events|], c)) <==>
            (forall trace': seq<State>, events': seq<Event> ::
               IsRun(trace', events') && trace <= trace' && events <= events' ==> trace'[|events'|].status.Fatal?)
  {
    if forall c :: !Closer(trace[|events|], c) {
      forall trace': seq<State>, events': seq<Event> | IsRun(trace', events') && trace <= trace' && events <= events'
        ensures trace'[|events'|].status.Fatal?
      {
        FatalStays(trace', events', |events|, |events'|);
      }
    } else {
      var c :| Closer(trace[|events|], c);
      var trace', events' := CloserReachesStarting(trace, events, c);
      assert !trace'[|events'|].status.Fatal?;
    }
  }

  /** Such a state is reachable: the caller closing an old instance overwrites a FATAL set in the meantime. */
  lemma FatalCanBeOverwritten()
    ensures exists trace: seq<State>, events ::
              IsRun(trace, events) && |trace| == 6 && trace[4].status.Fatal? && trace[5].status.Starting?
  {
    var events := [Enter(0, true), Enter(1, true), CloseOld(1), SetError, Install(1, true)];
    var s1 := Step(Initial, events[0]);
    var s2 := Step(s1, events[1]);
    var s3 := Step(s2, events[2]);
    var s4 := Step(s3, events[3]);
    var s5 := Step(s4, events[4]);
    var trace := [Initial, s1, s2, s3, s4, s5];
    assert IsRun(trace, events);
  }

  /** STARTED means that the current instance's own Start returned without error. */
  predicate StartedHonest(s: State) {
    s.status.Started? && s.instance.Some? ==> s.instance.value in s.startOk
  }

  /** A Finish of a successful call while another call is starting the current instance and has not succeeded yet. */
  ghost predicate Premature(s: State, e: Event)
    requires Enabled(s, e)
  {
    && e.Finish? && s.status.Starting? && s.calls[e.caller].ok
    && exists other :: other != e.caller && StartsCurrent(s, other) && !(s.calls[other].StartReturned? && s.calls[other].ok)
  }

  predicate Starter(s: State, c: nat) {
    c in s.calls && (s.calls[c].StartingNew? || s.calls[c].StartReturned?)
  }

  /** Each instance has one caller that starts it, and `startOk` is what those callers have seen. */
  ghost predicate Attributed(s: State) {
    && (forall c, d :: Starter(s, c) && Starter(s, d) && s.calls[c].instance == s.calls[d].instance ==> c == d)
    && (forall c :: Starter(s, c) ==> s.calls[c].instance < s.next)
    && (forall i :: i in s.startOk ==> i < s.next)
    && (forall c :: Starter(s, c) ==> (s.calls[c].instance in s.startOk <==> s.calls[c].StartReturned? && s.calls[c].ok))
  }

  lemma FewerStarters(s: State, s': State)
    requires Attributed(s) && s'.next == s.next && s'.startOk == s.startOk
    requires forall c :: Starter(s', c) ==> Starter(s, c) && s'.calls[c] == s.calls[c]
    ensures Attributed(s')
  {
  }

  lemma InstallKeepsAttributed(s: State, c: nat, newOk: bool)
    requires Attributed(s)
    ensures Attributed(InstallNew(s, c, newOk))
  {
    var s' := InstallNew(s, c, newOk);
    if newOk {
      assert forall d :: Starter(s', d) <==> d == c || Starter(s, d);
    } else {
      FewerStarters(s, s');
    }
  }

  lemma ReturnKeepsAttributed(s: State, e: Event)
    requires Attributed(s) && Enabled(s, e) && e.StartReturns?
    ensures Attributed(Step(s, e))
  {
    var s' := Step(s, e);
    assert Starter(s, e.caller);
    assert forall d :: Starter(s', d) <==> Starter(s, d);
    assert forall d :: Starter(s', d) ==> s'.calls[d].instance == s.calls[d].instance;
  }

  lemma StepKeepsAttributed(s: State, e: Event)
    requires Attributed(s) && Enabled(s, e)
    ensures Attributed(Step(s, e))
  {
    match e {
      case Enter(c, newOk) =>
        if s.instance.Some? || s.status.Stopping? || s.status.Fatal? {
          FewerStarters(s, Step(s, e));
        } else {
          InstallKeepsAttributed(s, c, newOk);
        }
      case Install(c, newOk) => InstallKeepsAttributed(s, c, newOk);
      case StartReturns(_, _) => ReturnKeepsAttributed(s, e);
      case _ => FewerStarters(s, Step(s, e));
    }
  }

  lemma {:induction false} RunIsAttributed(trace: seq<State>, events: seq<Event>, k: nat)
    requires IsRun(trace, events) && k < |trace|
    ensures Attributed(trace[k])
  {
    if k > 0 {
      RunIsAttributed(trace, events, k - 1);
      StepKeepsAttributed(trace[k - 1], events[k - 1]);
    }
  }

  /** One step keeps STARTED honest exactly when it is not such a Finish. */
  lemma HonestStep(s: State, e: Event)
    requires Safe(s) && Attributed(s) && StartedHonest(s) && Enabled(s, e)
    ensures StartedHonest(Step(s, e)) <==> !Premature(s, e)
  {
    if e.Finish? && s.status.Starting? && s.calls[e.caller].ok {
      var current :| StartsCurrent(s, current);
      assert Starter(s, current) && Starter(s, e.caller);
      if Premature(s, e) {
        var other :| other != e.caller && StartsCurrent(s, other) && !(s.calls[other].StartReturned? && s.calls[other].ok);
        assert Starter(s, other);
      }
    }
  }

  ghost predicate OneInFlight(s: State) {
    forall c, d :: c in s.calls && d in s.calls ==> c == d
  }

  /** With at most one start/reload in flight at a time, and any closes and errors, STARTED is always honest. */
  lemma {:induction false} SingleReloadIsHonest(trace: seq<State>, events: seq<Event>, k: nat)
    requires IsRun(trace, events) && k < |trace|
    requires forall i :: 0 <= i < |trace| ==> OneInFlight(trace[i])
    ensures StartedHonest(trace[k])
    ensures trace[k].status.Started? ==> trace[k].instance.Some? && trace[k].instance.value !in trace[k].closed
  {
    RunIsSafe(trace, events, k);
    if k > 0 {
      SingleReloadIsHonest(trace, events, k - 1);
      RunIsSafe(trace, events, k - 1);
      var s, e := trace[k - 1], events[k - 1];
      assert OneInFlight(s);
      RunIsAttributed(trace, events, k - 1);
      HonestStep(s, e);
    }
  }

  /** For every interleaving: STARTED is honest throughout exactly when no Finish was premature. */
  lemma RunIsHonest(trace: seq<State>, events: seq<Event>)
    requires IsRun(trace, events)
    ensures (forall i: nat :: i <= |events| ==> StartedHonest(trace[i])) <==>
            (forall i: nat :: i < |events| ==> !Premature(trace[i], events[i]))
  {
    var p := (i: nat) => i <= |events| && StartedHonest(trace[i]);
    var q := (i: nat) => i < |events| && Premature(trace[i], events[i]);
    forall i: nat | i < |events| && p(i) ensures p(i + 1) <==> !q(i) {
      RunIsSafe(trace, events, i);
      RunIsAttributed(trace, events, i);
      HonestStep(trace[i], events[i]);
    }
    ExactlyKept(p, q, |events|);
    assert forall i: nat :: i <= |events| ==> (p(i) <==> StartedHonest(trace[i]));
    assert forall i: nat :: i < |events| ==> (q(i) <==> Premature(trace[i], events[i]));
  }

  /** Two overlapping reloads: the first announces STARTED for the second's instance, still inside Start. */
  lemma TwoReloadsAreDishonest()
    ensures exists trace, events :: IsRun(trace, events) && !StartedHonest(trace[|trace| - 1])
  {
    var events := [Enter(0, true), Enter(1, true), CloseOld(1), Install(1, true), StartReturns(0, true), Finish(0)];
    var s1 := Step(Initial, events[0]);
    var s2 := Step(s1, events[1]);
    var s3 := Step(s2, events[2]);
    var s4 := Step(s3, events[3]);
    var s5 := Step(s4, events[4]);
    var s6 := Step(s5, events[5]);
    var trace := [Initial, s1, s2, s3, s4, s5, s6];
    assert IsRun(trace, events);
    assert s6.status == Started && s6.instance == Some(1) && s6.startOk == {0};
  }

  /** A Finish with an error while another call is starting the current instance: the FATAL is not about that instance. */
  ghost predicate Misattributed(s: State, e: Event)
    requires Enabled(s, e)
  {
    && e.Finish? && s.status.Starting? && !s.calls[e.caller].ok
    && exists other :: other != e.caller && StartsCurrent(s, other)
  }

  /** Exactly when the FATAL that a failed Finish announces is about the current instance: its own call started it. */
  lemma FatalIsAboutCurrent(s: State, e: Event)
    requires Safe(s) && Attributed(s) && Enabled(s, e) && e.Finish? && s.status.Starting? && !s.calls[e.caller].ok
    ensures Step(s, e).status.Fatal?
    ensures s.instance == Some(s.calls[e.caller].instance) <==> !Misattributed(s, e)
  {
    var current :| StartsCurrent(s, current);
    assert Starter(s, current) && Starter(s, e.caller);
    if Misattributed(s, e) {
      var other :| other != e.caller && StartsCurrent(s, other);
      assert Starter(s, other);
    }
  }

  /** Two overlapping reloads: the failure of the first makes the service FATAL while the second is starting well. */
  lemma OldFailureIsFatal()
    ensures exists trace: seq<State>, events ::
              && IsRun(trace, events) && |trace| == 7 && trace[6].status.Fatal? && trace[6].instance == Some(1)
              && 1 in trace[6].calls && trace[6].calls[1] == StartingNew(1)
  {
    var events := [Enter(0, true), Enter(1, true), CloseOld(1), Install(1, true), StartReturns(0, false), Finish(0)];
    var s1 := Step(Initial, events[0]);
    var s2 := Step(s1, events[1]);
    var s3 := Step(s2, events[2]);
    var s4 := Step(s3, events[3]);
    var s5 := Step(s4, events[4]);
    var s6 := Step(s5, events[5]);
    var trace := [Initial, s1, s2, s3, s4, s5, s6];
    assert IsRun(trace, events);
  }

  // ---- What the sections leave behind ----

  /** A close that is accepted: success leaves IDLE without an instance, failure FATAL with the instance it could not close. */
  lemma CloseLeaves(s: State, closeOk: bool)
    ensures var s' := Step(s, CloseService(closeOk));
            if s.status.Starting? || s.status.Started? then
              && (s.instance.Some? ==> s'.closed == s.closed + {s.instance.value})
              && (if s.instance.Some? && !closeOk then s'.status == Fatal && s'.instance == s.instance
                  else s'.status == Idle && s'.instance == None)
              && s'.calls == s.calls && s'.next == s.next && s'.startOk == s.startOk
            else s' == s
  {
  }

  /** A reload that enters: refused while STOPPING or FATAL; it takes over an old instance, or installs a fresh one. */
  lemma EnterLeaves(s: State, c: nat, newOk: bool)
    requires c !in s.calls
    ensures var s' := Step(s, Enter(c, newOk));
            if s.status.Stopping? || s.status.Fatal? then s' == s
            else if s.instance.Some? then
              s'.status == Stopping && s'.instance == s.instance && c in s'.calls && s'.calls[c] == ClosingOld(s.instance.value)
            else if newOk then
              && s'.status == Starting && s'.instance == Some(s.next) && s'.next == s.next + 1
              && c in s'.calls && s'.calls[c] == StartingNew(s.next)
            else s'.status == Fatal && s'.instance == None && c !in s'.calls
  {
  }

  /** After the old instance: it counts as closed, and then a fresh instance replaces it or the service fails. */
  lemma ReplaceLeaves(s: State, c: nat, newOk: bool)
    ensures Enabled(s, CloseOld(c)) ==>
              var s' := Step(s, CloseOld(c));
              s'.closed == s.closed + {s.calls[c].previous} && s' == s.(closed := s'.closed, calls := s.calls[c := OldClosed])
    ensures Enabled(s, Install(c, newOk)) ==>
              var s' := Step(s, Install(c, newOk));
              if newOk then
                s'.status == Starting && s'.instance == Some(s.next) && s'.next == s.next + 1 && s'.calls == s.calls[c := StartingNew(s.next)]
              else s'.status == Fatal && s'.instance == s.instance && s'.next == s.next && s'.calls == s.calls - {c}
  {
  }

  /** The last section: only a service that is still STARTING learns how its call's start went. */
  lemma FinishLeaves(s: State, c: nat)
    requires Enabled(s, Finish(c))
    ensures var s' := Step(s, Finish(c));
            && s'.instance == s.instance && s'.calls == s.calls - {c} && s'.closed == s.closed
            && s'.status == (if s.status != Starting then s.status else if s.calls[c].ok then Started else Fatal)
  {
  }

  /** For every run that is quiet, with no call in flight, and has an instance: after a successful close a reload is accepted. */
  lemma ReloadAfterClose(trace: seq<State>, events: seq<Event>, c: nat)
    requires IsRun(trace, events) && trace[|events|].calls == map[]
    requires trace[|events|].status.Starting? || trace[|events|].status.Started?
    ensures var s := trace[|events|];
            var closed := Step(s, CloseService(true));
            var again := Step(closed, Enter(c, true));
            && closed.status == Idle && closed.instance == None
            && s.instance.Some? && s.instance.value in closed.closed
            && again.status == Starting && again.instance == Some(s.next) && s.next !in again.closed
            && IsRun(trace + [closed] + [again], events + [CloseService(true)] + [Enter(c, true)])
  {
    RunIsSafe(trace, events, |events|);
    CloseLeaves(trace[|events|], true);
    RunExtends(trace, events, CloseService(true));
    RunExtends(trace + [Step(trace[|events|], CloseService(true))], events + [CloseService(true)], Enter(c, true));
  }

  // ---- No instance is forgotten ----

  /**
   Every instance made so far was closed or is the current one; a caller closing an old instance closes the current
   one, and one that has closed it leaves it closed.
   */
  ghost predicate Tidy(s: State) {
    && (forall i: nat :: i < s.next ==> i in s.closed || s.instance == Some(i))
    && (forall c :: c in s.calls && s.calls[c].ClosingOld? ==> s.instance == Some(s.calls[c].previous))
    && (forall c :: c in s.calls && s.calls[c].OldClosed? ==> s.instance.Some? && s.instance.value in s.closed)
  }

  lemma EnterKeepsTidy(s: State, e: Event)
    requires Safe(s) && Tidy(s) && Enabled(s, e) && e.Enter?
    ensures Tidy(Step(s, e))
  {
    var s' := Step(s, e);
    assert forall c :: c in s'.calls && c != e.caller ==> c in s.calls && s'.calls[c] == s.calls[c];
    assert forall c :: c in s.calls && (s.calls[c].ClosingOld? || s.calls[c].OldClosed?) ==> Closer(s, c);
  }

  lemma InstallKeepsTidy(s: State, e: Event)
    requires Safe(s) && Tidy(s) && Enabled(s, e) && e.Install?
    ensures Tidy(Step(s, e))
  {
    assert Closer(s, e.caller);
    assert forall c :: c in s.calls && (s.calls[c].ClosingOld? || s.calls[c].OldClosed?) ==> Closer(s, c);
  }

  lemma CloseServiceKeepsTidy(s: State, e: Event)
    requires Safe(s) && Tidy(s) && e.CloseService?
    ensures Tidy(Step(s, e))
  {
    assert forall c :: c in s.calls && (s.calls[c].ClosingOld? || s.calls[c].OldClosed?) ==> Closer(s, c);
  }

  lemma StepKeepsTidy(s: State, e: Event)
    requires Safe(s) && Tidy(s) && Enabled(s, e)
    ensures Tidy(Step(s, e))
  {
    match e {
      case Enter(_, _) => EnterKeepsTidy(s, e);
      case Install(_, _) => InstallKeepsTidy(s, e);
      case CloseService(_) => CloseServiceKeepsTidy(s, e);
      case _ =>
    }
  }

  /** Under every interleaving, every instance ever made was closed, except perhaps the current one. */
  lemma {:induction false} NoInstanceIsForgotten(trace: seq<State>, events: seq<Event>, k: nat)
    requires IsRun(trace, events) && k < |trace|
    ensures Tidy(trace[k])
  {
    if k > 0 {
      NoInstanceIsForgotten(trace, events, k - 1);
      RunIsSafe(trace, events, k - 1);
      StepKeepsTidy(trace[k - 1], events[k - 1]);
    }
  }

  /**
   The service object. Its critical sections are methods that hold the mutex from start to end; the ghost
   fields follow the calls that are between sections and what happened to each instance.
   */
  class StartedService {
    var status: Status
    var instance: Option<nat>
    var next: nat
    ghost var calls: map<nat, Phase>
    ghost var closed: set<nat>
    ghost var startOk: set<nat>

    ghost function Abs(): State
      reads this
    {
      State(status, instance, next, calls, closed, startOk)
    }

    constructor ()
      ensures Abs() == Initial
    {
      status, instance, next := Idle, None, 0;
      calls, closed, startOk := map[], {}, {};
    }

    /** The new instance is made and published, or the service fails. */
    method InstallInstance(ghost c: nat, newOk: bool) returns (made: Option<nat>)
      modifies this
      ensures Abs() == InstallNew(old(Abs()), c, newOk)
      ensures made == if newOk then instance else None
    {
      status := Starting;
      if !newOk {
        status := Fatal;
        calls := calls - {c};
        return None;
      }
      instance := Some(next);
      calls := calls[c := StartingNew(next)];
      next := next + 1;
      return instance;
    }

    /** First section: `refused` is the invalid-state error, otherwise either an old instance or the new one is returned. */
    method EnterReload(ghost c: nat, newOk: bool) returns (refused: bool, previous: Option<nat>, made: Option<nat>)
      requires Enabled(Abs(), Enter(c, newOk))
      modifies this
      ensures Abs() == Step(old(Abs()), Enter(c, newOk))
      ensures refused <==> old(status).Stopping? || old(status).Fatal?
      ensures previous == if refused then None else old(instance)
    {
      previous, made := None, None;
      match status {
        case Idle | Started | Starting =>
        case _ => return true, None, None;
      }
      previous := instance;
      if previous.Some? {
        status := Stopping;
        calls := calls[c := ClosingOld(previous.value)];
        return false, previous, None;
      }
      made := InstallInstance(c, newOk);
      return false, None, made;
    }

    /** Last section: `err` is what instance.Start returned. */
    method FinishReload(ghost c: nat, err: bool)
      requires Enabled(Abs(), Finish(c)) && calls[c].ok == !err
      modifies this
      ensures Abs() == Step(old(Abs()), Finish(c))
    {
      calls := calls - {c};
      if status != Starting {
        return;
      }
      if err {
        status := Fatal;
        return;
      }
      status := Started;
    }

    /** CloseService closes the instance while holding the mutex. */
    method CloseServiceNow(closeOk: bool) returns (refused: bool)
      modifies this
      ensures Abs() == Step(old(Abs()), CloseService(closeOk))
      ensures refused <==> !old(status).Starting? && !old(status).Started?
      ensures refused ==> status == old(status) && instance == old(instance) && closed == old(closed)
      ensures !refused && (old(instance).None? || closeOk) ==> status == Idle && instance == None
      ensures !refused && old(instance).Some? && !closeOk ==> status == Fatal && instance == old(instance)
      ensures !refused && old(instance).Some? ==> closed == old(closed) + {old(instance).value}
    {
      match status {
        case Starting | Started =>
        case _ => return true;
      }
      status := Stopping;
      if instance.Some? {
        closed := closed + {instance.value};
        if !closeOk {
          status := Fatal;
          return false;
        }
      }
      instance := None;
      status := Idle;
      return false;
    }

    method SetErrorNow()
      modifies this
      ensures Abs() == Step(old(Abs()), SetError)
    {
      status := Fatal;
    }

    /** A start/reload that nobody interrupts, from the first section to the last. */
    method StartOrReload(ghost c: nat, newOk: bool, startErr: bool) returns (refused: bool)
      requires Safe(Abs()) && Numbered(Abs()) && calls == map[]
      modifies this
      ensures Safe(Abs()) && Numbered(Abs()) && calls == map[]
      ensures refused ==> Abs() == old(Abs())
      ensures !refused ==> status == if newOk && !startErr then Started else Fatal
      ensures !refused && newOk ==> instance == Some(old(next)) && old(next) !in closed
      ensures !refused && old(instance).Some? ==> old(instance).value in closed
      ensures !refused && newOk && !startErr ==> instance.value in startOk
    {
      ghost var s0 := Abs();
      StepKeepsSafe(s0, Enter(c, newOk));
      var previous, made;
      refused, previous, made := EnterReload(c, newOk);
      if refused {
        return;
      }
      if previous.Some? {
        StepKeepsSafe(Abs(), CloseOld(c));
        calls := calls[c := OldClosed];
        closed := closed + {previous.value};
        StepKeepsSafe(Abs(), Install(c, newOk));
        made := InstallInstance(c, newOk);
      }
      if !newOk {
        return;
      }
      StepKeepsSafe(Abs(), StartReturns(c, !startErr));
      ghost var i := calls[c].instance;
      calls := calls[c := StartReturned(i, !startErr)];
      startOk := if startErr then startOk else startOk + {i};
      StepKeepsSafe(Abs(), Finish(c));
      FinishReload(c, startErr);
    }
  }
}
