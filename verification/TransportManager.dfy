/**
 The DNS transport manager (dns/transport_manager.go): the object whose fields Create, Remove, Start and Close
 update in place, the scheduler that starts transports in dependency order, and the diagnosis it gives when
 no further transport can start.
 */
module DnsTransportManager {
  import opened Prelude
  import opened DependencyGraph
  import opened ManagerSpec

  datatype StartResult =
    | Started
    | TransportFailed(transport: Transport)
    | Circular(path: seq<string>, again: string)
    | Missing(dependency: string, server: string)
    | NilTransport   // a method call on the nil result of a failed search

  /** A log of starts drawn from the list: no tag twice, nothing before its dependencies. */
  ghost predicate Orderly(ts: seq<Transport>, log: seq<Transport>) {
    DistinctTags(log) && StartOrder(log) && forall t :: t in log ==> t in ts
  }

  /** Some order starts every tag of the list after its dependencies. */
  ghost predicate CanStartAll(ts: seq<Transport>) {
    exists order :: Orderly(ts, order) && Tags(ts) <= Tags(order)
  }

  /** A log after which nothing more can start has every tag that any order can start. */
  lemma {:induction false} StuckHasAll(ts: seq<Transport>, log: seq<Transport>, order: seq<Transport>, k: nat)
    requires Stuck(ts, Tags(log)) && Orderly(ts, order) && k <= |order|
    ensures Tags(order[..k]) <= Tags(log)
  {
    if k > 0 {
      StuckHasAll(ts, log, order, k - 1);
      assert order[..k] == order[..k - 1] + [order[k - 1]];
      TagsAppend(order[..k - 1], order[k - 1]);
      assert order[k - 1] in ts;
    }
  }

  /** Whether everything was started does not depend on the order the scheduler took. */
  lemma StuckStartedAll(ts: seq<Transport>, log: seq<Transport>)
    requires Orderly(ts, log) && Stuck(ts, Tags(log))
    ensures Tags(ts) <= Tags(log) <==> CanStartAll(ts)
  {
    if CanStartAll(ts) {
      var order :| Orderly(ts, order) && Tags(ts) <= Tags(order);
      StuckHasAll(ts, log, order, |order|);
      assert order[..|order|] == order;
    }
  }

  /** What a diagnosis claims about the dependency graph. */
  ghost predicate TrueWitness(ts: seq<Transport>, r: StartResult) {
    match r
    case Circular(path, again) => again in path && Walk(ts, path + [again])
    case Missing(dependency, server) => Edge(ts, server, dependency) && dependency !in Tags(ts)
    case _ => false
  }

  /** What the scheduler promises of its verdict and of the order of starts. */
  ghost predicate Scheduled(ts: seq<Transport>, byTag: map<string, Transport>, fails: Transport -> bool, r: StartResult,
                            log: seq<Transport>)
  {
    && Orderly(ts, log)
    && (forall i :: 0 <= i < |log| && fails(log[i]) ==> i == |log| - 1 && r == TransportFailed(log[i]))
    && (r.TransportFailed? ==> log != [] && log[|log| - 1] == r.transport && fails(r.transport))
    && (r.Started? ==> forall t :: t in ts ==> t in log)
    && (!r.TransportFailed? ==> (r.Started? <==> DistinctTags(ts) && Resolved(ts) && !Cyclic(ts)))
    && (!r.TransportFailed? ==> (r.NilTransport? <==> !DistinctTags(ts) && CanStartAll(ts)))
    && (Indexed(ts, byTag) ==> r.Started? || r.TransportFailed? || TrueWitness(ts, r))
  }

  class TransportManager {
    const defaultTag: string
    var started: bool
    var stage: nat
    var transports: seq<Transport>
    var transportByTag: map<string, Transport>
    var dependByTag: map<string, seq<string>>
    var defaultTransport: Option<Transport>
    var fakeIPTransport: Option<Transport>

    function Abs(): State
      reads this
    {
      State(defaultTag, started, stage, transports, transportByTag, dependByTag, defaultTransport, fakeIPTransport)
    }

    constructor (defaultTag: string)
      ensures Abs() == Initial(defaultTag)
    {
      this.defaultTag := defaultTag;
      started, stage := false, 0;
      transports, transportByTag, dependByTag := [], map[], map[];
      defaultTransport, fakeIPTransport := None, None;
    }

    /** The first unstarted dependency, or the empty string when there is none. */
    method FindUnstarted(dependencies: seq<string>, startedTags: set<string>) returns (tag: string)
      ensures (exists d :: d in dependencies && d !in startedTags) ==> tag in dependencies && tag !in startedTags
      ensures (forall d :: d in dependencies ==> d in startedTags) ==> tag == ""
    {
      for i := 0 to |dependencies|
        invariant forall j :: 0 <= j < i ==> dependencies[j] in startedTags
      {
        if dependencies[i] !in startedTags {
          return dependencies[i];
        }
      }
      return "";
    }

    /** `path` is a walk of the listed graph that ends at an unstarted transport of a stuck list. */
    ghost predicate Diagnosing(ts: seq<Transport>, startedTags: set<string>, path: seq<string>, current: Transport)
      reads this
    {
      && Indexed(ts, transportByTag) && Stuck(ts, startedTags)
      && path != [] && Walk(ts, path)
      && current in ts && current.tag == path[|path| - 1] && current.tag !in startedTags
    }

    /**
     Follow unstarted dependencies from `current` until one repeats or is unknown. It terminates because the
     path only grows by distinct tags of the index; on an agreeing index its answer is a true witness.
     */
    method LintTransport(startedTags: set<string>, path: seq<string>, current: Transport, ghost ts: seq<Transport>)
      returns (r: StartResult)
      requires path != [] && Distinct(path)
      requires forall x :: x in path[1..] ==> x in transportByTag
      ensures r.Circular? || r.Missing?
      ensures r.Circular? ==> path <= r.path && r.again in r.path
      ensures r.Missing? ==> r.dependency !in transportByTag
      ensures Diagnosing(ts, startedTags, path, current) ==> TrueWitness(ts, r)
      decreases |transportByTag| + 1 - |path|
    {
      var problem := FindUnstarted(current.dependencies, startedTags);
      var longer := path + [problem];
      if Diagnosing(ts, startedTags, path, current) {
        assert Edge(ts, current.tag, problem);
        forall i | 0 <= i < |longer| - 1 ensures Edge(ts, longer[i], longer[i + 1]) {
          assert i < |path| - 1 ==> Edge(ts, path[i], path[i + 1]);
        }
        IndexedTags(ts, transportByTag);
      }
      if problem in path {
        return Circular(path, problem);
      }
      if problem !in transportByTag {
        return Missing(problem, current.tag);
      }
      assert longer[1..] == path[1..] + [problem];
      DistinctBound(longer[1..], transportByTag.Keys);
      r := LintTransport(startedTags, longer, transportByTag[problem], ts);
    }

    method Ready(dependencies: seq<string>, startedTags: set<string>) returns (ready: bool)
      ensures ready <==> forall d :: d in dependencies ==> d in startedTags
    {
      for j := 0 to |dependencies|
        invariant forall i :: 0 <= i < j ==> dependencies[i] in startedTags
      {
        if dependencies[j] !in startedTags {
          return false;
        }
      }
      return true;
    }

    /** One pass over the list: start whatever is ready, stopping at the first that refuses. */
    method Sweep(ts: seq<Transport>, fails: Transport -> bool, log0: seq<Transport>)
      returns (log: seq<Transport>, canContinue: bool, failed: bool)
      requires Orderly(ts, log0) && forall t :: t in log0 ==> !fails(t)
      ensures Orderly(ts, log) && log0 <= log
      ensures canContinue <==> log != log0
      ensures !canContinue ==> Stuck(ts, Tags(log))
      ensures failed ==> canContinue && fails(log[|log| - 1]) && forall i :: 0 <= i < |log| - 1 ==> !fails(log[i])
      ensures !failed ==> forall t :: t in log ==> !fails(t)
    {
      log, canContinue := log0, false;
      var startedTags := Tags(log0);
      for k := 0 to |ts|
        invariant Orderly(ts, log) && log0 <= log
        invariant forall t :: t in log ==> !fails(t)
        invariant startedTags == Tags(log)
        invariant canContinue <==> log != log0
        invariant !canContinue ==> Stuck(ts[..k], Tags(log))
      {
        var t := ts[k];
        StuckExtends(ts, k, startedTags);
        if t.tag in startedTags {
          continue;
        }
        var ready := Ready(t.dependencies, startedTags);
        if !ready {
          continue;
        }
        AppendToOrder(ts, log, t);
        log := log + [t];
        startedTags := startedTags + {t.tag};
        canContinue := true;
        if fails(t) {
          return log, true, true;
        }
      }
      assert ts[..|ts|] == ts;
      return log, canContinue, false;
    }

    /** The diagnosis of a stuck list starts at its first unstarted transport. */
    method Diagnose(ts: seq<Transport>, startedTags: set<string>) returns (r: StartResult)
      ensures r.Circular? || r.Missing? || r.NilTransport?
      ensures r.NilTransport? <==> Tags(ts) <= startedTags
      ensures Indexed(ts, transportByTag) && Stuck(ts, startedTags) && !r.NilTransport? ==> TrueWitness(ts, r)
    {
      for k := 0 to |ts|
        invariant forall i :: 0 <= i < k ==> ts[i].tag in startedTags
      {
        if ts[k].tag !in startedTags {
          assert ts[k].tag in Tags(ts);
          r := LintTransport(startedTags, [ts[k].tag], ts[k], ts);
          return;
        }
      }
      return NilTransport;
    }

    /**
     Start every transport of `ts` in dependency order; `fails` says which of them refuse to start, and `log`
     is the order in which they were told to. No tag is started twice, and none before its dependencies.
     For every list, unless a transport refuses: it succeeds exactly when tags are distinct, every dependency is
     listed and none is circular. The index matters only for what the diagnosis names.
     */
    method StartTransports(ts: seq<Transport>, fails: Transport -> bool)
      returns (r: StartResult, log: seq<Transport>)
      ensures Scheduled(ts, transportByTag, fails, r, log)
    {
      log := [];
      while true
        invariant Orderly(ts, log) && forall t :: t in log ==> !fails(t)
        decreases |Tags(ts)| - |log|
      {
        LogBound(ts, log);
        var canContinue, failed;
        log, canContinue, failed := Sweep(ts, fails, log);
        LogBound(ts, log);
        if failed {
          return TransportFailed(log[|log| - 1]), log;
        }
        if |Tags(log)| == |ts| {
          AllStarted(ts, log);
          OrderCertifies(ts, log);
          return Started, log;
        }
        if !canContinue {
          r := Diagnose(ts, Tags(log));
          NotAllStarted(ts, log);
          StuckStartedAll(ts, log);
          if Indexed(ts, transportByTag) {
            IndexedTags(ts, transportByTag);
          }
          return;
        }
      }
    }

    method RecordDependencies(tag: string, dependencies: seq<string>)
      modifies this`dependByTag
      ensures dependByTag == AddDependents(old(dependByTag), tag, dependencies)
    {
      for i := 0 to |dependencies|
        invariant dependByTag == AddDependents(old(dependByTag), tag, dependencies[..i])
      {
        assert dependencies[..i + 1][..i] == dependencies[..i];
        var dependency := dependencies[i];
        dependByTag := dependByTag[dependency := Dependents(dependByTag, dependency) + [tag]];
      }
      assert dependencies[..|dependencies|] == dependencies;
    }

    method ForgetDependencies(tag: string, dependencies: seq<string>)
      modifies this`dependByTag
      ensures dependByTag == DropDependents(old(dependByTag), tag, dependencies)
    {
      for i := 0 to |dependencies|
        invariant dependByTag == DropDependents(old(dependByTag), tag, dependencies[..i])
      {
        assert dependencies[..i + 1][..i] == dependencies[..i];
        var dependency := dependencies[i];
        if |Dependents(dependByTag, dependency)| == 1 {
          dependByTag := dependByTag - {dependency};
        } else {
          dependByTag := dependByTag[dependency := Without(Dependents(dependByTag, dependency), tag)];
        }
      }
      assert dependencies[..|dependencies|] == dependencies;
    }

    method Create(tag: string, made: Option<Transport>, startOk: bool, closeOk: bool) returns (r: Outcome)
      modifies this
      ensures (Abs(), r) == ManagerSpec.Create(old(Abs()), tag, made, startOk, closeOk)
    {
      if tag == "" {
        return Invalid;
      }
      if made.None? {
        return RegistryFailed;
      }
      var transport := made.value;
      if started && !startOk {
        return StartFailed;
      }
      if tag in transportByTag {
        var exists_ := transportByTag[tag];
        if started && !closeOk {
          return CloseFailed;
        }
        if exists_ !in transports {
          return InvalidIndex;
        }
        var index := IndexOf(transports, exists_);
        transports := transports[..index] + transports[index + 1..];
      }
      transports := transports + [transport];
      transportByTag := transportByTag[tag := transport];
      RecordDependencies(tag, transport.dependencies);
      if tag == defaultTag || (defaultTag == "" && defaultTransport.None?) {
        if transport.kind == FAKEIP {
          return FakeIPDefault;
        }
        defaultTransport := Some(transport);
      }
      if transport.kind == FAKEIP {
        if fakeIPTransport.Some? {
          return MultipleFakeIP;
        }
        fakeIPTransport := Some(transport);
      }
      return Ok;
    }

    method Remove(tag: string) returns (r: Outcome)
      modifies this
      ensures (Abs(), r) == ManagerSpec.Remove(old(Abs()), tag)
    {
      if tag !in transportByTag {
        return Invalid;
      }
      var transport := transportByTag[tag];
      transportByTag := transportByTag - {tag};
      if transport !in transports {
        return InvalidIndex;
      }
      var index := IndexOf(transports, transport);
      transports := transports[..index] + transports[index + 1..];
      if defaultTransport == Some(transport) {
        if |transports| > 0 {
          var next := transports[0];
          if next.kind != FAKEIP {
            return FakeIPDefault;
          }
          defaultTransport := Some(next);
        } else {
          defaultTransport := None;
        }
      }
      var dependBy := Dependents(dependByTag, tag);
      if |dependBy| > 0 {
        return DependedBy(dependBy);
      }
      ForgetDependencies(tag, transport.dependencies);
      return Ok;
    }

    /** Start: `scheduled` is the scheduler's verdict when the start stage was reached. */
    method Start(newStage: nat, fallback: Option<Transport>, fails: Transport -> bool)
      returns (r: Outcome, scheduled: Option<StartResult>, log: seq<Transport>)
      modifies this
      ensures (Abs(), r) == Prepare(old(Abs()), newStage, fallback)
      ensures scheduled.Some? <==> r == Ok && newStage == STAGE_START
      ensures scheduled.Some? ==> Scheduled(transports, transportByTag, fails, scheduled.value, log)
      ensures newStage == STAGE_START && scheduled.None? ==> log == []
      ensures newStage != STAGE_START && r == Ok ==>
                && log <= transports
                && (log == transports || (log != [] && fails(log[|log| - 1])))
                && forall i :: 0 <= i < |log| - 1 ==> !fails(log[i])
    {
      scheduled, log := None, [];
      if started && stage >= newStage {
        return AlreadyStarted, None, [];
      }
      started := true;
      stage := newStage;
      if newStage == STAGE_START {
        if defaultTag != "" && defaultTransport.None? {
          return NoDefault, None, [];
        }
        if defaultTransport.None? {
          if fallback.None? {
            return FallbackFailed, None, [];
          }
          var transport := fallback.value;
          transports := transports + [transport];
          transportByTag := transportByTag[transport.tag := transport];
          defaultTransport := Some(transport);
        }
        var verdict;
        verdict, log := StartTransports(transports, fails);
        return Ok, Some(verdict), log;
      }
      for i := 0 to |transports|
        invariant log == transports[..i]
        invariant forall j :: 0 <= j < |log| ==> !fails(log[j])
      {
        log := log + [transports[i]];
        if fails(transports[i]) {
          return Ok, None, log;
        }
      }
      return Ok, None, log;
    }

    method Close()
      modifies this
      ensures Abs() == ManagerSpec.Close(old(Abs()))
    {
      if !started {
        return;
      }
      started := false;
      transports := [];
    }
  }

  lemma AppendToOrder(ts: seq<Transport>, log: seq<Transport>, t: Transport)
    requires Orderly(ts, log) && t in ts && t.tag !in Tags(log)
    requires forall d :: d in t.dependencies ==> d in Tags(log)
    ensures Orderly(ts, log + [t]) && Tags(log + [t]) == Tags(log) + {t.tag}
  {
    var longer := log + [t];
    assert longer[..|log|] == log;
    TagsAppend(log, t);
    DistinctTagsAppend(log, t);
    forall i, d | 0 <= i < |longer| && d in longer[i].dependencies ensures d in Tags(longer[..i]) {
      assert i < |log| ==> longer[..i] == log[..i];
    }
  }

  lemma LogBound(ts: seq<Transport>, log: seq<Transport>)
    requires Orderly(ts, log)
    ensures |Tags(log)| == |log| <= |Tags(ts)|
  {
    TagsSize(log);
    assert Tags(log) <= Tags(ts);
    SubsetSize(Tags(log), Tags(ts));
  }

  /** As many tags started as transports listed means that tags are distinct and everything is in the log. */
  lemma AllStarted(ts: seq<Transport>, log: seq<Transport>)
    requires Orderly(ts, log) && |log| == |ts|
    ensures DistinctTags(ts) && forall t :: t in ts <==> t in log
  {
    TagsSize(ts);
    LogBound(ts, log);
    assert Tags(log) <= Tags(ts);
    SubsetOfSameSize(Tags(log), Tags(ts));
    forall t | t in ts ensures t in log {
      assert t.tag in Tags(log);
    }
  }

  /**
   Fewer started tags than transports, and nothing more can start: a tag is listed twice, or a dependency is
   missing or circular; and a list with distinct tags leaves a transport to start the diagnosis from.
   */
  lemma NotAllStarted(ts: seq<Transport>, log: seq<Transport>)
    requires Orderly(ts, log) && |log| != |ts| && Stuck(ts, Tags(log))
    ensures !(DistinctTags(ts) && Resolved(ts) && !Cyclic(ts))
    ensures Tags(ts) <= Tags(log) ==> !DistinctTags(ts)
  {
    TagsSize(ts);
    LogBound(ts, log);
    if Tags(ts) <= Tags(log) {
      SubsetSize(Tags(ts), Tags(log));
    } else {
      StuckRefutes(ts, Tags(log));
    }
  }

  /** A diagnosis refutes: no list with a true witness could have been started. */
  lemma WitnessRefutes(ts: seq<Transport>, r: StartResult)
    requires TrueWitness(ts, r)
    ensures !(Resolved(ts) && !Cyclic(ts))
  {
    match r
    case Circular(path, again) => ClosedPathIsCyclic(ts, path, again);
    case Missing(dependency, server) =>
  }

  const STRANDED := Transport(0, "local", FAKEIP, [])
  const FALLBACK := Transport(1, "local", "local", [])

  /** The list that a refused fakeip default and the fallback leave: its start ends in the nil transport. */
  lemma DuplicateEndsInNil(byTag: map<string, Transport>, fails: Transport -> bool, r: StartResult, log: seq<Transport>)
    requires Scheduled([STRANDED, FALLBACK], byTag, fails, r, log) && !fails(STRANDED) && !fails(FALLBACK)
    ensures r == NilTransport
  {
    var ts := [STRANDED, FALLBACK];
    assert ts[0].tag == ts[1].tag;
    forall i | 0 <= i < |log| ensures !fails(log[i]) {
      assert log[i] in log;
      assert log[i] in ts;
    }
    assert CanStartAll(ts) by {
      assert STRANDED in ts && FALLBACK in ts;
      assert STRANDED in [STRANDED];
      assert Orderly(ts, [STRANDED]) && Tags(ts) <= Tags([STRANDED]);
    }
  }
}
