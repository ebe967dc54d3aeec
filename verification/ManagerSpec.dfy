/**
 What one call does to the state of the DNS transport manager (dns/transport_manager.go), and what every run
 of calls keeps: the list of transports against its tag index, and the reverse dependency table.
 */
module ManagerSpec {
  import opened Prelude
  import opened DependencyGraph

  const FAKEIP := "fakeip"
  /** adapter.StartStateStart. */
  const STAGE_START := 1

  datatype State = State(
    defaultTag: string,
    started: bool,
    stage: nat,
    transports: seq<Transport>,
    byTag: map<string, Transport>,
    dependBy: map<string, seq<string>>,
    default: Option<Transport>,
    fakeIP: Option<Transport>)

  datatype Outcome =
    | Ok
    | Invalid
    | RegistryFailed
    | StartFailed
    | CloseFailed
    | FakeIPDefault
    | MultipleFakeIP
    | DependedBy(tags: seq<string>)
    | NoDefault
    | FallbackFailed
    | AlreadyStarted
    | InvalidIndex   // the panic "invalid inbound index"

  function Initial(defaultTag: string): State {
    State(defaultTag, false, 0, [], map[], map[], None, None)
  }

  function IndexOf<T(==)>(s: seq<T>, x: T): (i: nat)
    requires x in s
    ensures i < |s| && s[i] == x && x !in s[..i]
  {
    if s[0] == x then 0 else 1 + IndexOf(s[1..], x)
  }

  function Dependents(dependBy: map<string, seq<string>>, tag: string): seq<string> {
    if tag in dependBy then dependBy[tag] else []
  }

  function Without(s: seq<string>, tag: string): (r: seq<string>)
    ensures forall u :: u in r <==> u in s && u != tag
  {
    if s == [] then [] else (if s[0] == tag then [] else [s[0]]) + Without(s[1..], tag)
  }

  function AddDependent(dependBy: map<string, seq<string>>, tag: string, dependency: string): map<string, seq<string>> {
    dependBy[dependency := Dependents(dependBy, dependency) + [tag]]
  }

  function AddDependents(dependBy: map<string, seq<string>>, tag: string, dependencies: seq<string>): map<string, seq<string>> {
    if dependencies == [] then dependBy
    else
      var n := |dependencies| - 1;
      AddDependent(AddDependents(dependBy, tag, dependencies[..n]), tag, dependencies[n])
  }

  function DropDependent(dependBy: map<string, seq<string>>, tag: string, dependency: string): map<string, seq<string>> {
    if |Dependents(dependBy, dependency)| == 1 then dependBy - {dependency}
    else dependBy[dependency := Without(Dependents(dependBy, dependency), tag)]
  }

  function DropDependents(dependBy: map<string, seq<string>>, tag: string, dependencies: seq<string>): map<string, seq<string>> {
    if dependencies == [] then dependBy
    else
      var n := |dependencies| - 1;
      DropDependent(DropDependents(dependBy, tag, dependencies[..n]), tag, dependencies[n])
  }

  /** Insert a created transport, replacing the one that had its tag. */
  function Insert(s: State, tag: string, t: Transport): State
    requires tag in s.byTag ==> s.byTag[tag] in s.transports
  {
    var kept := if tag in s.byTag then RemoveAt(s.transports, IndexOf(s.transports, s.byTag[tag])) else s.transports;
    s.(transports := kept + [t], byTag := s.byTag[tag := t],
       dependBy := AddDependents(s.dependBy, tag, t.dependencies))
  }

  /**
   Create: `made` is what the registry returned, `startOk` and `closeOk` say whether starting the new
   transport and closing the one it replaces succeed (both only happen in a started manager).
   */
  function Create(s: State, tag: string, made: Option<Transport>, startOk: bool, closeOk: bool): (State, Outcome) {
    if tag == "" then (s, Invalid)
    else if made.None? then (s, RegistryFailed)
    else if s.started && !startOk then (s, StartFailed)
    else if tag in s.byTag && s.started && !closeOk then (s, CloseFailed)
    else if tag in s.byTag && s.byTag[tag] !in s.transports then (s, InvalidIndex)
    else
      var t := made.value;
      var s1 := Insert(s, tag, t);
      var isDefault := tag == s.defaultTag || (s.defaultTag == "" && s.default.None?);
      if isDefault && t.kind == FAKEIP then (s1, FakeIPDefault)
      else
        var s2 := if isDefault then s1.(default := Some(t)) else s1;
        if t.kind != FAKEIP then (s2, Ok)
        else if s2.fakeIP.Some? then (s2, MultipleFakeIP)
        else (s2.(fakeIP := Some(t)), Ok)
  }

  function Remove(s: State, tag: string): (State, Outcome) {
    if tag !in s.byTag then (s, Invalid)
    else
      var t := s.byTag[tag];
      var s0 := s.(byTag := s.byTag - {tag});
      if t !in s.transports then (s0, InvalidIndex)
      else
        var s1 := s0.(transports := RemoveAt(s.transports, IndexOf(s.transports, t)));
        var isDefault := s.default == Some(t);
        // The source tests for "not fakeip" here, the opposite of what its message says.
        if isDefault && s1.transports != [] && s1.transports[0].kind != FAKEIP then (s1, FakeIPDefault)
        else
          var s2 := if isDefault
                    then s1.(default := if s1.transports == [] then None else Some(s1.transports[0]))
                    else s1;
          var dependents := Dependents(s.dependBy, tag);
          if dependents != [] then (s2, DependedBy(dependents))
          else (s2.(dependBy := DropDependents(s.dependBy, tag, t.dependencies)), Ok)
  }

  /** The part of Start that changes the manager; `fallback` is what the default-transport factory returned. */
  function Prepare(s: State, stage: nat, fallback: Option<Transport>): (State, Outcome) {
    if s.started && s.stage >= stage then (s, AlreadyStarted)
    else
      var s1 := s.(started := true, stage := stage);
      if stage != STAGE_START || s.default.Some? then (s1, Ok)
      else if s.defaultTag != "" then (s1, NoDefault)
      else if fallback.None? then (s1, FallbackFailed)
      else
        var t := fallback.value;
        (s1.(transports := s.transports + [t], byTag := s.byTag[t.tag := t], default := Some(t)), Ok)
  }

  function Close(s: State): State {
    if s.started then s.(started := false, transports := []) else s
  }

  /** The list has no duplicates and holds exactly the values of the tag index, each under its own tag. */
  ghost predicate Indexed(ts: seq<Transport>, byTag: map<string, Transport>) {
    && Distinct(ts)
    && (forall t :: t in ts ==> t.tag in byTag && byTag[t.tag] == t)
    && (forall k :: k in byTag ==> byTag[k].tag == k && byTag[k] in ts)
  }

  /** Without a configured default, only an empty manager lacks a default transport. */
  ghost predicate FallbackSafe(s: State) {
    s.defaultTag == "" && s.default.None? ==> s.transports == []
  }

  lemma IndexedTags(ts: seq<Transport>, byTag: map<string, Transport>)
    requires Indexed(ts, byTag)
    ensures DistinctTags(ts) && Tags(ts) == byTag.Keys
  {
    forall i, j | 0 <= i < j < |ts| ensures ts[i].tag != ts[j].tag {
      assert ts[i] in ts && ts[j] in ts;
    }
  }

  lemma ReplaceKeepsIndex(ts: seq<Transport>, byTag: map<string, Transport>, t: Transport, kept: seq<Transport>)
    requires Indexed(ts, byTag) && Distinct(kept) && forall u :: u in kept <==> u in ts && u.tag != t.tag
    ensures Indexed(kept + [t], byTag[t.tag := t])
  {
    assert t !in kept;
  }

  lemma InsertKeepsIndex(s: State, tag: string, t: Transport)
    requires Indexed(s.transports, s.byTag) && t.tag == tag
    ensures var s' := Insert(s, tag, t);
            Indexed(s'.transports, s'.byTag)
  {
    if tag in s.byTag {
      var index := IndexOf(s.transports, s.byTag[tag]);
      RemoveAtElements(s.transports, index);
      ReplaceKeepsIndex(s.transports, s.byTag, t, RemoveAt(s.transports, index));
    } else {
      ReplaceKeepsIndex(s.transports, s.byTag, t, s.transports);
    }
  }

  lemma CreateKeepsIndex(s: State, tag: string, made: Option<Transport>, startOk: bool, closeOk: bool)
    requires Indexed(s.transports, s.byTag)
    requires made.Some? ==> made.value.tag == tag
    ensures var (s', r) := Create(s, tag, made, startOk, closeOk);
            Indexed(s'.transports, s'.byTag) && r != InvalidIndex
  {
    if made.Some? {
      InsertKeepsIndex(s, tag, made.value);
    }
  }

  lemma DropKeepsIndex(ts: seq<Transport>, byTag: map<string, Transport>, tag: string)
    requires Indexed(ts, byTag) && tag in byTag
    ensures Indexed(RemoveAt(ts, IndexOf(ts, byTag[tag])), byTag - {tag})
  {
    RemoveAtElements(ts, IndexOf(ts, byTag[tag]));
  }

  lemma RemoveKeepsIndex(s: State, tag: string)
    requires Indexed(s.transports, s.byTag)
    ensures var (s', r) := Remove(s, tag);
            Indexed(s'.transports, s'.byTag) && r != InvalidIndex
  {
    if tag in s.byTag {
      DropKeepsIndex(s.transports, s.byTag, tag);
    }
  }

  // ---- The guards of the calls ----

  /** Create gets as far as listing the new transport. */
  predicate Inserts(s: State, tag: string, made: Option<Transport>, startOk: bool, closeOk: bool) {
    tag != "" && made.Some? && (s.started ==> startOk && (tag in s.byTag ==> closeOk))
  }

  /** Create lists a fakeip transport that would have become the default of a manager without configured default. */
  predicate StrandsFakeIP(s: State, tag: string, made: Option<Transport>, startOk: bool, closeOk: bool) {
    Inserts(s, tag, made, startOk, closeOk) && s.defaultTag == "" && s.default.None? && made.value.kind == FAKEIP
  }

  /** Start is about to install the fallback. */
  predicate InstallsFallback(s: State, stage: nat, fallback: Option<Transport>) {
    !(s.started && s.stage >= stage) && stage == STAGE_START && s.default.None? && s.defaultTag == "" && fallback.Some?
  }

  /** The first listed transport that does not have this tag. */
  function FirstOther(ts: seq<Transport>, tag: string): Option<Transport> {
    if ts == [] then None
    else if ts[0].tag != tag then Some(ts[0])
    else FirstOther(ts[1..], tag)
  }

  /** The transport to remove is the default, and its successor is not fakeip. */
  predicate RefusesSuccessor(s: State, tag: string) {
    && tag in s.byTag && s.default == Some(s.byTag[tag])
    && FirstOther(s.transports, tag).Some? && FirstOther(s.transports, tag).value.kind != FAKEIP
  }

  lemma {:induction false} FirstOtherAfterRemoval(ts: seq<Transport>, t: Transport)
    requires t in ts && DistinctTags(ts)
    ensures var rest := RemoveAt(ts, IndexOf(ts, t));
            FirstOther(ts, t.tag) == if rest == [] then None else Some(rest[0])
  {
    if ts[0] == t {
      assert RemoveAt(ts, IndexOf(ts, t)) == ts[1..];
      if |ts| > 1 {
        assert ts[0].tag != ts[1].tag;
      }
    } else {
      assert IndexOf(ts, t) > 0;
      var i :| 0 <= i < |ts| && ts[i] == t;
      assert ts[0].tag != ts[i].tag;
    }
  }

  /**
   Exactly when Remove changes the default: the default itself is removed and either nothing is left or the first
   transport left is fakeip. A first transport that is not fakeip is refused, with the message that it is.
   */
  lemma RemoveReplacesDefault(s: State, tag: string)
    requires Indexed(s.transports, s.byTag) && tag in s.byTag
    ensures var (s', r) := Remove(s, tag);
            var next := FirstOther(s.transports, tag);
            && (r == FakeIPDefault <==> RefusesSuccessor(s, tag))
            && (s'.default != s.default <==>
                s.default == Some(s.byTag[tag]) && (next.Some? ==> next.value.kind == FAKEIP))
            && (s'.default != s.default ==> s'.default == next)
  {
    IndexedTags(s.transports, s.byTag);
    FirstOtherAfterRemoval(s.transports, s.byTag[tag]);
    RemoveAtElements(s.transports, IndexOf(s.transports, s.byTag[tag]));
  }

  const FIRST := Transport(0, "first", "udp", [])
  const SECOND := Transport(1, "second", "udp", [])

  /** Two plain transports: removing the default is refused as if the other were fakeip, yet it is no longer listed. */
  lemma RemoveRefusesPlainDefault()
    ensures var s := State("", false, 0, [FIRST, SECOND], map["first" := FIRST, "second" := SECOND], map[], Some(FIRST), None);
            var (s', r) := Remove(s, "first");
            && Indexed(s.transports, s.byTag)
            && r == FakeIPDefault && s'.transports == [SECOND] && s'.default == Some(FIRST)
  {
    var s := State("", false, 0, [FIRST, SECOND], map["first" := FIRST, "second" := SECOND], map[], Some(FIRST), None);
    assert RemoveAt(s.transports, 0) == [SECOND];
  }

  // ---- Which calls keep the index ----

  lemma CreateKeepsFallbackSafe(s: State, tag: string, made: Option<Transport>, startOk: bool, closeOk: bool)
    requires Sound(s)
    ensures FallbackSafe(Create(s, tag, made, startOk, closeOk).0) <==> !StrandsFakeIP(s, tag, made, startOk, closeOk)
  {
  }

  lemma RemoveKeepsFallbackSafe(s: State, tag: string)
    requires Sound(s)
    ensures FallbackSafe(Remove(s, tag).0)
  {
  }

  /** Start keeps the index exactly when it does not install a fallback whose tag is taken. */
  lemma PrepareKeepsIndex(s: State, stage: nat, fallback: Option<Transport>)
    requires Indexed(s.transports, s.byTag)
    ensures var s' := Prepare(s, stage, fallback).0;
            Indexed(s'.transports, s'.byTag) <==> !(InstallsFallback(s, stage, fallback) && fallback.value.tag in s.byTag)
  {
    var s' := Prepare(s, stage, fallback).0;
    if InstallsFallback(s, stage, fallback) {
      var t := fallback.value;
      assert s'.transports == s.transports + [t];
      if t.tag in s.byTag {
        assert s.byTag[t.tag] in s.transports;
        var i :| 0 <= i < |s.transports| && s.transports[i] == s.byTag[t.tag];
        assert s'.transports[i].tag == s'.transports[|s.transports|].tag;
        if Indexed(s'.transports, s'.byTag) {
          IndexedTags(s'.transports, s'.byTag);
        }
      }
    }
  }

  datatype Op =
    | OpCreate(tag: string, made: Option<Transport>, startOk: bool, closeOk: bool)
    | OpRemove(tag: string)
    | OpStart(stage: nat, fallback: Option<Transport>)
    | OpClose

  function Step(s: State, op: Op): (State, Outcome) {
    match op
    case OpCreate(tag, made, startOk, closeOk) => Create(s, tag, made, startOk, closeOk)
    case OpRemove(tag) => Remove(s, tag)
    case OpStart(stage, fallback) => Prepare(s, stage, fallback)
    case OpClose => (Close(s), Ok)
  }

  /** A run of calls, in any order and with any failures; the registry makes transports with the tag asked for. */
  ghost predicate IsRun(defaultTag: string, trace: seq<State>, ops: seq<Op>) {
    && |trace| == |ops| + 1 && trace[0] == Initial(defaultTag)
    && forall i :: 0 <= i < |ops| ==> Tagged(ops[i]) && trace[i + 1] == Step(trace[i], ops[i]).0
  }

  predicate Tagged(op: Op) {
    op.OpCreate? && op.made.Some? ==> op.made.value.tag == op.tag
  }

  ghost predicate Agrees(s: State) {
    Indexed(s.transports, s.byTag)
  }

  ghost predicate Sound(s: State) {
    Agrees(s) && FallbackSafe(s)
  }

  /** Start installs a fallback whose tag is taken, or Close clears a list that is not empty. */
  predicate Collides(s: State, op: Op) {
    || (op.OpStart? && InstallsFallback(s, op.stage, op.fallback) && op.fallback.value.tag in s.byTag)
    || (op.OpClose? && s.started && s.transports != [])
  }

  /** A call keeps list and index in agreement exactly when it does not collide, and in agreement it cannot panic. */
  lemma StepKeepsIndex(s: State, op: Op)
    requires Agrees(s) && Tagged(op)
    ensures Agrees(Step(s, op).0) <==> !Collides(s, op)
    ensures Step(s, op).1 != InvalidIndex
  {
    match op {
      case OpCreate(tag, made, startOk, closeOk) => CreateKeepsIndex(s, tag, made, startOk, closeOk);
      case OpRemove(tag) => RemoveKeepsIndex(s, tag);
      case OpStart(stage, fallback) => PrepareKeepsIndex(s, stage, fallback);
      case OpClose => CloseBreaksIndex(s);
    }
  }

  /**
   For every run of Create, Remove, Start and Close: list and index agree throughout exactly when no call collides;
   and then neither "invalid inbound index" panic is reached.
   */
  lemma RunKeepsIndex(defaultTag: string, trace: seq<State>, ops: seq<Op>)
    requires IsRun(defaultTag, trace, ops)
    ensures (forall i: nat :: i <= |ops| ==> Agrees(trace[i])) <==> (forall i: nat :: i < |ops| ==> !Collides(trace[i], ops[i]))
    ensures (forall i: nat :: i < |ops| ==> !Collides(trace[i], ops[i])) ==>
              forall i: nat :: i < |ops| ==> Step(trace[i], ops[i]).1 != InvalidIndex
  {
    var p := (i: nat) => i <= |ops| && Agrees(trace[i]);
    var q := (i: nat) => i < |ops| && Collides(trace[i], ops[i]);
    forall i: nat | i < |ops| && p(i) ensures (p(i + 1) <==> !q(i)) && Step(trace[i], ops[i]).1 != InvalidIndex {
      StepKeepsIndex(trace[i], ops[i]);
    }
    ExactlyKept(p, q, |ops|);
    assert forall i: nat :: i <= |ops| ==> (p(i) <==> Agrees(trace[i]));
    assert forall i: nat :: i < |ops| ==> (q(i) <==> Collides(trace[i], ops[i]));
  }

  /** Without Close and without stranding a fakeip transport, no Start ever finds the tag of its fallback taken. */
  lemma {:induction false} CleanRunIsSound(defaultTag: string, trace: seq<State>, ops: seq<Op>, k: nat)
    requires IsRun(defaultTag, trace, ops) && k <= |ops|
    requires forall i :: 0 <= i < k ==> !ops[i].OpClose?
    requires forall i :: 0 <= i < k && ops[i].OpCreate? ==>
               !StrandsFakeIP(trace[i], ops[i].tag, ops[i].made, ops[i].startOk, ops[i].closeOk)
    ensures Sound(trace[k])
  {
    if k > 0 {
      CleanRunIsSound(defaultTag, trace, ops, k - 1);
      var s, op := trace[k - 1], ops[k - 1];
      StepKeepsIndex(s, op);
      match op {
        case OpCreate(tag, made, startOk, closeOk) => CreateKeepsFallbackSafe(s, tag, made, startOk, closeOk);
        case OpRemove(tag) => RemoveKeepsFallbackSafe(s, tag);
        case OpStart(_, _) => EmptyIndex(s);
      }
    }
  }

  lemma EmptyIndex(s: State)
    requires Agrees(s)
    ensures s.transports == [] <==> s.byTag == map[]
  {
    if s.transports == [] {
      assert forall k :: k !in s.byTag;
    } else {
      assert s.transports[0] in s.transports;
    }
  }

  /** Close clears the list but not the index: they still agree exactly when there was nothing to clear. */
  lemma CloseBreaksIndex(s: State)
    requires Indexed(s.transports, s.byTag)
    ensures Indexed(Close(s).transports, Close(s).byTag) <==> !s.started || s.transports == []
    ensures s.started ==> forall tag :: tag in s.byTag ==> Remove(Close(s), tag).1 == InvalidIndex
  {
    EmptyIndex(s);
  }

  /** A collision: after a refused fakeip default, Start lists two transports under one tag. */
  lemma RefusedFakeIPDuplicatesTag()
    ensures
      var made := Transport(0, "local", FAKEIP, []);
      var fallback := Transport(1, "local", "local", []);
      var (s1, r1) := Create(Initial(""), "local", Some(made), true, true);
      var (s2, r2) := Prepare(s1, STAGE_START, Some(fallback));
      r1 == FakeIPDefault && r2 == Ok && s2.transports == [made, fallback] && !DistinctTags(s2.transports)
  {
    var made := Transport(0, "local", FAKEIP, []);
    var fallback := Transport(1, "local", "local", []);
    var s1 := Create(Initial(""), "local", Some(made), true, true).0;
    assert s1.transports == [made];
    var s2 := Prepare(s1, STAGE_START, Some(fallback)).0;
    assert s2.transports == [made, fallback];
    assert s2.transports[0].tag == s2.transports[1].tag;
  }

  // ---- The reverse dependency table ----

  /** `u` is recorded as depending on `d` exactly when a listed transport `u` does depend on `d`. */
  ghost predicate DependentsExact(s: State) {
    forall d, u :: u in Dependents(s.dependBy, d) <==> Edge(s.transports, u, d)
  }

  lemma {:induction false} AddDependentsContents(m: map<string, seq<string>>, tag: string, deps: seq<string>)
    ensures forall d, u :: u in Dependents(AddDependents(m, tag, deps), d) <==>
                           u in Dependents(m, d) || (u == tag && d in deps)
  {
    if deps != [] {
      var n := |deps| - 1;
      AddDependentsContents(m, tag, deps[..n]);
      assert deps == deps[..n] + [deps[n]];
    }
  }

  predicate Repeated(deps: seq<string>, d: string) {
    exists i, j :: 0 <= i < j < |deps| && deps[i] == d && deps[j] == d
  }

  lemma {:induction false} WithoutAbsent(s: seq<string>, tag: string)
    requires tag !in s
    ensures Without(s, tag) == s
  {
    if s != [] {
      WithoutAbsent(s[1..], tag);
    }
  }

  lemma DropDependentAt(m: map<string, seq<string>>, tag: string, d0: string, d: string)
    ensures Dependents(DropDependent(m, tag, d0), d) ==
            if d != d0 then Dependents(m, d)
            else if |Dependents(m, d)| == 1 then [] else Without(Dependents(m, d), tag)
  {
  }

  lemma RepeatedAppend(deps: seq<string>, d0: string, d: string)
    ensures Repeated(deps + [d0], d) <==> Repeated(deps, d) || (d0 == d && d in deps)
  {
    var all := deps + [d0];
    if Repeated(deps, d) {
      var i, j :| 0 <= i < j < |deps| && deps[i] == d && deps[j] == d;
      assert all[i] == d && all[j] == d;
    } else if d0 == d && d in deps {
      var i :| 0 <= i < |deps| && deps[i] == d;
      assert all[i] == d && all[|deps|] == d;
    }
  }

  /** What removing `tag` leaves under one dependency: the others, or nothing at all in the buggy case. */
  lemma {:induction false} DropDependentsAt(m: map<string, seq<string>>, tag: string, deps: seq<string>, d: string)
    requires d in deps ==> tag in Dependents(m, d)
    ensures Dependents(DropDependents(m, tag, deps), d) ==
            if d !in deps then Dependents(m, d)
            else
              var others := Without(Dependents(m, d), tag);
              if Repeated(deps, d) && |others| == 1 then [] else others
  {
    if deps != [] {
      var n := |deps| - 1;
      var before, d0 := deps[..n], deps[n];
      assert deps == before + [d0];
      DropDependentsAt(m, tag, before, d);
      DropDependentAt(DropDependents(m, tag, before), tag, d0, d);
      RepeatedAppend(before, d0, d);
      if d0 == d {
        WithoutAbsent(Without(Dependents(m, d), tag), tag);
        WithoutAbsent([], tag);
        if |Dependents(m, d)| == 1 {
          assert Dependents(m, d) == [tag];
        }
      }
    }
  }

  /** The case in which the "only one left" shortcut deletes somebody else's entry. */
  ghost predicate LosesDependent(m: map<string, seq<string>>, tag: string, deps: seq<string>) {
    exists d :: Repeated(deps, d) && |Without(Dependents(m, d), tag)| == 1
  }

  lemma RemoveDependencies(s: State, tag: string)
    requires Indexed(s.transports, s.byTag) && DependentsExact(s) && tag in s.byTag
    ensures forall u, d :: Edge(Remove(s, tag).0.transports, u, d) <==> Edge(s.transports, u, d) && u != tag
  {
    RemoveAtElements(s.transports, IndexOf(s.transports, s.byTag[tag]));
    var ts := RemoveAt(s.transports, IndexOf(s.transports, s.byTag[tag]));
    assert Remove(s, tag).0.transports == ts;
    forall u, d ensures Edge(ts, u, d) <==> Edge(s.transports, u, d) && u != tag {
      if Edge(s.transports, u, d) && u != tag {
        var t :| t in s.transports && t.tag == u && d in t.dependencies;
        assert t in ts;
      }
    }
  }

  /** What Remove answers, by its guards. */
  lemma RemoveOutcome(s: State, tag: string)
    requires Indexed(s.transports, s.byTag) && tag in s.byTag
    ensures var r := Remove(s, tag).1;
            r == if RefusesSuccessor(s, tag) then FakeIPDefault
                 else if Dependents(s.dependBy, tag) != [] then DependedBy(Dependents(s.dependBy, tag)) else Ok
  {
    RemoveReplacesDefault(s, tag);
  }

  /**
   Exactly when removing a listed transport keeps the reverse table exact: it had no dependencies to clean up, or the
   clean-up is reached (nothing depends on it and its successor as default is not refused) and the shortcut loses nobody.
   */
  lemma RemoveKeepsDependents(s: State, tag: string)
    requires Indexed(s.transports, s.byTag) && DependentsExact(s) && tag in s.byTag
    ensures DependentsExact(Remove(s, tag).0) <==> !RemoveSpoils(s, tag)
  {
    var (s', r) := Remove(s, tag);
    var t := s.byTag[tag];
    RemoveOutcome(s, tag);
    RemoveDependencies(s, tag);
    if r != Ok {
      assert s'.dependBy == s.dependBy;
      if t.dependencies != [] {
        var d := t.dependencies[0];
        assert Edge(s.transports, tag, d);
        assert tag in Dependents(s'.dependBy, d) && !Edge(s'.transports, tag, d);
      } else {
        forall d, u ensures u in Dependents(s'.dependBy, d) <==> Edge(s'.transports, u, d) {
          NoEdgeFrom(s, tag, d);
        }
      }
    } else {
      RemoveDropsExactly(s, tag);
    }
  }

  ghost predicate RemoveSpoils(s: State, tag: string)
    requires tag in s.byTag
  {
    var deps := s.byTag[tag].dependencies;
    && deps != []
    && (Dependents(s.dependBy, tag) != [] || RefusesSuccessor(s, tag) || LosesDependent(s.dependBy, tag, deps))
  }

  lemma NoEdgeFrom(s: State, tag: string, d: string)
    requires Indexed(s.transports, s.byTag) && tag in s.byTag && d !in s.byTag[tag].dependencies
    ensures !Edge(s.transports, tag, d)
  {
  }

  lemma RemoveDropsExactly(s: State, tag: string)
    requires Indexed(s.transports, s.byTag) && DependentsExact(s) && tag in s.byTag && Remove(s, tag).1 == Ok
    ensures DependentsExact(Remove(s, tag).0) <==> !LosesDependent(s.dependBy, tag, s.byTag[tag].dependencies)
  {
    var s' := Remove(s, tag).0;
    var deps := s.byTag[tag].dependencies;
    RemoveDependencies(s, tag);
    forall d ensures d in deps ==> tag in Dependents(s.dependBy, d) {
      assert d in deps ==> Edge(s.transports, tag, d);
    }
    if LosesDependent(s.dependBy, tag, deps) {
      var d :| Repeated(deps, d) && |Without(Dependents(s.dependBy, d), tag)| == 1;
      DropDependentsAt(s.dependBy, tag, deps, d);
      var u := Without(Dependents(s.dependBy, d), tag)[0];
      assert u in Without(Dependents(s.dependBy, d), tag);
      assert Edge(s'.transports, u, d) && u !in Dependents(s'.dependBy, d);
    } else {
      forall d, u ensures u in Dependents(s'.dependBy, d) <==> Edge(s'.transports, u, d) {
        DropDependentsAt(s.dependBy, tag, deps, d);
        if d !in deps {
          NoEdgeFrom(s, tag, d);
        }
      }
    }
  }

  /**
   While the table is exact, Remove reports dependents exactly when some listed transport needs the tag, unless it
   refuses the next default first.
   */
  lemma RemoveReportsDependents(s: State, tag: string)
    requires Indexed(s.transports, s.byTag) && DependentsExact(s) && tag in s.byTag
    ensures Remove(s, tag).1.DependedBy? <==> !RefusesSuccessor(s, tag) && exists u :: Edge(s.transports, u, tag)
  {
    RemoveOutcome(s, tag);
    var dependents := Dependents(s.dependBy, tag);
    if dependents != [] {
      assert dependents[0] in dependents;
      assert Edge(s.transports, dependents[0], tag);
    }
  }

  lemma InsertKeepsDependents(s: State, tag: string, t: Transport)
    requires Indexed(s.transports, s.byTag) && DependentsExact(s) && t.tag == tag
    ensures DependentsExact(Insert(s, tag, t)) <==>
            (tag in s.byTag ==> forall d :: d in s.byTag[tag].dependencies ==> d in t.dependencies)
  {
    var s' := Insert(s, tag, t);
    AddDependentsContents(s.dependBy, tag, t.dependencies);
    InsertEdges(s, tag, t);
    if tag in s.byTag {
      forall d ensures tag in Dependents(s.dependBy, d) <==> d in s.byTag[tag].dependencies {
        if d in s.byTag[tag].dependencies {
          assert Edge(s.transports, tag, d);
        } else {
          NoEdgeFrom(s, tag, d);
        }
      }
      if d :| d in s.byTag[tag].dependencies && d !in t.dependencies {
        assert tag in Dependents(s'.dependBy, d) && !Edge(s'.transports, tag, d);
      }
    } else {
      forall d ensures !Edge(s.transports, tag, d) {
      }
    }
  }

  /** The replaced transport needed something that the new one does not. */
  predicate CreateSpoils(s: State, tag: string, made: Option<Transport>, startOk: bool, closeOk: bool) {
    && Inserts(s, tag, made, startOk, closeOk)
    && tag in s.byTag && exists d :: d in s.byTag[tag].dependencies && d !in made.value.dependencies
  }

  /** Exactly when a Create, refused or not, keeps the reverse table exact. */
  lemma CreateKeepsDependents(s: State, tag: string, made: Option<Transport>, startOk: bool, closeOk: bool)
    requires Indexed(s.transports, s.byTag) && DependentsExact(s) && (made.Some? ==> made.value.tag == tag)
    ensures DependentsExact(Create(s, tag, made, startOk, closeOk).0) <==> !CreateSpoils(s, tag, made, startOk, closeOk)
  {
    var s' := Create(s, tag, made, startOk, closeOk).0;
    if Inserts(s, tag, made, startOk, closeOk) {
      InsertKeepsDependents(s, tag, made.value);
      var s1 := Insert(s, tag, made.value);
      assert s'.transports == s1.transports && s'.dependBy == s1.dependBy;
    }
  }

  /** Start never records what its fallback depends on. */
  lemma PrepareKeepsDependents(s: State, stage: nat, fallback: Option<Transport>)
    requires Agrees(s) && DependentsExact(s) && !Collides(s, OpStart(stage, fallback))
    ensures DependentsExact(Prepare(s, stage, fallback).0) <==>
            !(InstallsFallback(s, stage, fallback) && fallback.value.dependencies != [])
  {
    if InstallsFallback(s, stage, fallback) {
      var s', t := Prepare(s, stage, fallback).0, fallback.value;
      assert t in s'.transports;
      forall u, d ensures Edge(s'.transports, u, d) <==> Edge(s.transports, u, d) || (u == t.tag && d in t.dependencies) {
        if Edge(s.transports, u, d) {
          var v :| v in s.transports && v.tag == u && d in v.dependencies;
          assert v in s'.transports;
        }
      }
      if t.dependencies != [] {
        var d := t.dependencies[0];
        assert Edge(s'.transports, t.tag, d) && !Edge(s.transports, t.tag, d);
      }
    }
  }

  /** The call leaves the reverse table wrong. */
  ghost predicate Spoils(s: State, op: Op) {
    match op
    case OpCreate(tag, made, startOk, closeOk) => CreateSpoils(s, tag, made, startOk, closeOk)
    case OpRemove(tag) => tag in s.byTag && RemoveSpoils(s, tag)
    case OpStart(stage, fallback) => InstallsFallback(s, stage, fallback) && fallback.value.dependencies != []
    case OpClose => false
  }

  lemma StepKeepsDependents(s: State, op: Op)
    requires Agrees(s) && DependentsExact(s) && Tagged(op) && !Collides(s, op)
    ensures DependentsExact(Step(s, op).0) <==> !Spoils(s, op)
  {
    match op {
      case OpCreate(tag, made, startOk, closeOk) => CreateKeepsDependents(s, tag, made, startOk, closeOk);
      case OpRemove(tag) =>
        if tag in s.byTag {
          RemoveKeepsDependents(s, tag);
        }
      case OpStart(stage, fallback) => PrepareKeepsDependents(s, stage, fallback);
      case OpClose =>
    }
  }

  /**
   For every run in which list and index agree: the reverse table is exact throughout, and so is every "depended by"
   error, exactly when no call spoils it.
   */
  lemma RunKeepsDependents(defaultTag: string, trace: seq<State>, ops: seq<Op>)
    requires IsRun(defaultTag, trace, ops) && forall i: nat :: i < |ops| ==> !Collides(trace[i], ops[i])
    ensures (forall i: nat :: i <= |ops| ==> DependentsExact(trace[i])) <==> (forall i: nat :: i < |ops| ==> !Spoils(trace[i], ops[i]))
  {
    RunKeepsIndex(defaultTag, trace, ops);
    var p := (i: nat) => i <= |ops| && DependentsExact(trace[i]);
    var q := (i: nat) => i < |ops| && Spoils(trace[i], ops[i]);
    forall i: nat | i < |ops| && p(i) ensures p(i + 1) <==> !q(i) {
      StepKeepsDependents(trace[i], ops[i]);
    }
    ExactlyKept(p, q, |ops|);
    assert forall i: nat :: i <= |ops| ==> (p(i) <==> DependentsExact(trace[i]));
    assert forall i: nat :: i < |ops| ==> (q(i) <==> Spoils(trace[i], ops[i]));
  }

  lemma InsertEdges(s: State, tag: string, t: Transport)
    requires Indexed(s.transports, s.byTag) && t.tag == tag
    ensures forall u, d :: Edge(Insert(s, tag, t).transports, u, d) <==>
                           if u == tag then d in t.dependencies else Edge(s.transports, u, d)
  {
    InsertKeepsIndex(s, tag, t);
    if tag in s.byTag {
      RemoveAtElements(s.transports, IndexOf(s.transports, s.byTag[tag]));
    }
    var s' := Insert(s, tag, t);
    forall u, d ensures Edge(s'.transports, u, d) <==>
                        if u == tag then d in t.dependencies else Edge(s.transports, u, d) {
      assert t in s'.transports && s'.byTag[tag] == t;
      if u != tag && Edge(s.transports, u, d) {
        var v :| v in s.transports && v.tag == u && d in v.dependencies;
        assert v in s'.transports;
      }
    }
  }

  // ---- The default transport ----

  ghost predicate DefaultListed(s: State) {
    s.default.Some? ==> s.default.value in s.transports
  }

  /** The call takes the default off the list and leaves it the default. */
  ghost predicate Orphans(s: State, op: Op) {
    match op
    case OpCreate(tag, made, startOk, closeOk) =>
      && Inserts(s, tag, made, startOk, closeOk) && tag in s.byTag && s.default == Some(s.byTag[tag])
      && made.value != s.byTag[tag] && !(tag == s.defaultTag && made.value.kind != FAKEIP)
    case OpRemove(tag) => RefusesSuccessor(s, tag)
    case OpStart(_, _) => false
    case OpClose => s.started && s.default.Some?
  }

  lemma InsertElements(s: State, tag: string, t: Transport)
    requires Agrees(s) && t.tag == tag
    ensures forall u :: u in Insert(s, tag, t).transports <==> u == t || (u in s.transports && u.tag != tag)
  {
    if tag in s.byTag {
      RemoveAtElements(s.transports, IndexOf(s.transports, s.byTag[tag]));
    }
  }

  /** What a Create that lists its transport does to list and default. */
  lemma CreateShape(s: State, tag: string, made: Option<Transport>, startOk: bool, closeOk: bool)
    requires Agrees(s) && Inserts(s, tag, made, startOk, closeOk)
    ensures var s', t := Create(s, tag, made, startOk, closeOk).0, made.value;
            && s'.transports == Insert(s, tag, t).transports
            && s'.default == if (tag == s.defaultTag || (s.defaultTag == "" && s.default.None?)) && t.kind != FAKEIP
                             then Some(t) else s.default
  {
  }

  /** What Create answers, decided by its guards before the call. */
  lemma CreateOutcome(s: State, tag: string, made: Option<Transport>, startOk: bool, closeOk: bool)
    requires Agrees(s)
    ensures var (s', r) := Create(s, tag, made, startOk, closeOk);
            var becomesDefault := tag == s.defaultTag || (s.defaultTag == "" && s.default.None?);
            && (r == Invalid <==> tag == "")
            && (r == RegistryFailed <==> tag != "" && made.None?)
            && (r == StartFailed <==> tag != "" && made.Some? && s.started && !startOk)
            && (r == CloseFailed <==> tag != "" && made.Some? && s.started && startOk && tag in s.byTag && !closeOk)
            && (!Inserts(s, tag, made, startOk, closeOk) ==> s' == s)
            && (Inserts(s, tag, made, startOk, closeOk) ==>
                  r == if made.value.kind != FAKEIP then Ok
                       else if becomesDefault then FakeIPDefault
                       else if s.fakeIP.Some? then MultipleFakeIP else Ok)
  {
  }

  /** The other fields: the new transport comes last in the list; the index, and the single fakeip transport. */
  lemma CreateFields(s: State, tag: string, made: Option<Transport>, startOk: bool, closeOk: bool)
    requires Agrees(s) && Inserts(s, tag, made, startOk, closeOk)
    ensures var (s', r), t := Create(s, tag, made, startOk, closeOk), made.value;
            && s'.byTag == s.byTag[tag := t]
            && s'.fakeIP == (if r == Ok && t.kind == FAKEIP then Some(t) else s.fakeIP)
            && s'.started == s.started && s'.stage == s.stage && s'.defaultTag == s.defaultTag
            && (tag !in s.byTag ==> s'.transports == s.transports + [t])
            && (tag in s.byTag ==> exists i: nat ::
                  && i < |s.transports| && s.transports[i] == s.byTag[tag]
                  && s'.transports == s.transports[..i] + s.transports[i + 1..] + [t])
  {
    if tag in s.byTag {
      var i := IndexOf(s.transports, s.byTag[tag]);
      assert s.transports[i] == s.byTag[tag];
    }
  }

  /** Start answers by its guards: a stage reached before is refused; only the start stage looks for a default. */
  lemma PrepareOutcome(s: State, stage: nat, fallback: Option<Transport>)
    ensures var (s', r) := Prepare(s, stage, fallback);
            && (r == AlreadyStarted <==> s.started && stage <= s.stage)
            && (r == NoDefault <==> !(s.started && stage <= s.stage) && stage == STAGE_START && s.default.None? && s.defaultTag != "")
            && (r == FallbackFailed <==>
                !(s.started && stage <= s.stage) && stage == STAGE_START && s.default.None? && s.defaultTag == "" && fallback.None?)
            && (r == AlreadyStarted || r == NoDefault || r == FallbackFailed || r == Ok)
            && (if r == AlreadyStarted then s' == s else s'.started && s'.stage == stage)
            && (if InstallsFallback(s, stage, fallback) then
                  && s'.transports == s.transports + [fallback.value] && s'.default == fallback
                  && s'.byTag == s.byTag[fallback.value.tag := fallback.value]
                else s'.transports == s.transports && s'.default == s.default && s'.byTag == s.byTag)
            && s'.dependBy == s.dependBy && s'.fakeIP == s.fakeIP
  {
  }

  /** Close stops a started manager and forgets its list, and nothing else. */
  lemma CloseFields(s: State)
    ensures var s' := Close(s);
            && !s'.started && s'.transports == (if s.started then [] else s.transports)
            && s'.byTag == s.byTag && s'.dependBy == s.dependBy && s'.default == s.default && s'.fakeIP == s.fakeIP && s'.stage == s.stage
  {
  }

  /** Remove takes the tag out of the index and its transport out of the list, and leaves flags and fakeip transport alone. */
  lemma RemoveFields(s: State, tag: string)
    requires Agrees(s)
    ensures var s' := Remove(s, tag).0;
            && (Remove(s, tag).1 == Invalid <==> tag !in s.byTag)
            && s'.byTag == s.byTag - {tag}
            && (tag !in s.byTag ==> s' == s)
            && s'.started == s.started && s'.stage == s.stage && s'.fakeIP == s.fakeIP && s'.defaultTag == s.defaultTag
  {
    if tag !in s.byTag {
      assert s.byTag - {tag} == s.byTag;
    }
  }

  lemma RemoveKeepsOrder(s: State, tag: string)
    requires Agrees(s) && tag in s.byTag
    ensures exists i: nat ::
              && i < |s.transports| && s.transports[i] == s.byTag[tag]
              && Remove(s, tag).0.transports == s.transports[..i] + s.transports[i + 1..]
  {
    var i := IndexOf(s.transports, s.byTag[tag]);
    assert s.transports[i] == s.byTag[tag];
  }

  /** For every run: there is at most one fakeip transport in force, and it is never given up. */
  lemma FakeIPStays(s: State, op: Op)
    requires Agrees(s) && Tagged(op) && s.fakeIP.Some?
    ensures Step(s, op).0.fakeIP == s.fakeIP
  {
    match op {
      case OpCreate(tag, made, startOk, closeOk) =>
        CreateOutcome(s, tag, made, startOk, closeOk);
      case OpRemove(tag) => RemoveFields(s, tag);
      case OpStart(stage, fallback) => PrepareOutcome(s, stage, fallback);
      case OpClose => CloseFields(s);
    }
  }

  lemma CreateKeepsDefault(s: State, op: Op)
    requires Agrees(s) && DefaultListed(s) && Tagged(op) && op.OpCreate?
    ensures DefaultListed(Step(s, op).0) <==> !Orphans(s, op)
  {
    if Inserts(s, op.tag, op.made, op.startOk, op.closeOk) {
      CreateShape(s, op.tag, op.made, op.startOk, op.closeOk);
      InsertedDefault(s, op.tag, op.made.value, Step(s, op).0.default);
    }
  }

  /** The new default is a listed transport, unless it is the replaced one. */
  lemma InsertedDefault(s: State, tag: string, t: Transport, default: Option<Transport>)
    requires Agrees(s) && DefaultListed(s) && t.tag == tag && (default == s.default || default == Some(t))
    ensures (default.Some? ==> default.value in Insert(s, tag, t).transports) <==>
            !(tag in s.byTag && default == Some(s.byTag[tag]) && default != Some(t))
  {
    InsertElements(s, tag, t);
  }

  lemma RemoveKeepsDefault(s: State, tag: string)
    requires Agrees(s) && DefaultListed(s)
    ensures DefaultListed(Remove(s, tag).0) <==> !RefusesSuccessor(s, tag)
  {
    if tag in s.byTag {
      RemoveReplacesDefault(s, tag);
      IndexedTags(s.transports, s.byTag);
      RemoveAtElements(s.transports, IndexOf(s.transports, s.byTag[tag]));
      FirstOtherAfterRemoval(s.transports, s.byTag[tag]);
    }
  }

  /** For every run in which list and index agree: the default is a listed transport throughout exactly when no call orphans it. */
  lemma RunKeepsDefault(defaultTag: string, trace: seq<State>, ops: seq<Op>)
    requires IsRun(defaultTag, trace, ops) && forall i: nat :: i < |ops| ==> !Collides(trace[i], ops[i])
    ensures (forall i: nat :: i <= |ops| ==> DefaultListed(trace[i])) <==> (forall i: nat :: i < |ops| ==> !Orphans(trace[i], ops[i]))
  {
    RunKeepsIndex(defaultTag, trace, ops);
    var p := (i: nat) => i <= |ops| && DefaultListed(trace[i]);
    var q := (i: nat) => i < |ops| && Orphans(trace[i], ops[i]);
    forall i: nat | i < |ops| && p(i) ensures p(i + 1) <==> !q(i) {
      match ops[i] {
        case OpCreate(_, _, _, _) => CreateKeepsDefault(trace[i], ops[i]);
        case OpRemove(tag) => RemoveKeepsDefault(trace[i], tag);
        case _ =>
      }
    }
    ExactlyKept(p, q, |ops|);
    assert forall i: nat :: i <= |ops| ==> (p(i) <==> DefaultListed(trace[i]));
    assert forall i: nat :: i < |ops| ==> (q(i) <==> Orphans(trace[i], ops[i]));
  }

  /** Creating the default's tag again, without a configured default, leaves the replaced transport as default. */
  lemma ReplacedDefaultStays()
    ensures var (s1, r1) := Create(Initial(""), "first", Some(FIRST), true, true);
            var (s2, r2) := Create(s1, "first", Some(FIRST.(id := 7)), true, true);
            r1 == Ok && r2 == Ok && s2.transports == [FIRST.(id := 7)] && s2.default == Some(FIRST)
  {
    var s1 := Create(Initial(""), "first", Some(FIRST), true, true).0;
    assert s1.transports == [FIRST] && s1.byTag == map["first" := FIRST];
    assert RemoveAt([FIRST], 0) == [];
  }

  const BASE := Transport(0, "base", "udp", [])
  const TWICE := Transport(1, "twice", "tls", ["base", "base"])
  const OTHER := Transport(2, "other", "tls", ["base"])

  /** The manager after creating a base transport, one that names it twice and one that names it once. */
  function SharedDependency(): State {
    State("base", false, 0, [BASE, TWICE, OTHER], map["base" := BASE, "twice" := TWICE, "other" := OTHER],
          map["base" := ["twice", "twice", "other"]], Some(BASE), None)
  }

  /** A transport naming one dependency twice: removing it makes the table forget another dependent. */
  lemma RemoveForgetsDependent()
    ensures var s := SharedDependency();
            && Indexed(s.transports, s.byTag) && DependentsExact(s)
            && Remove(s, "twice").1 == Ok && !DependentsExact(Remove(s, "twice").0)
  {
    var s := SharedDependency();
    assert BASE in s.transports && TWICE in s.transports && OTHER in s.transports;
    forall d, u ensures u in Dependents(s.dependBy, d) <==> Edge(s.transports, u, d) {
      if u in Dependents(s.dependBy, d) {
        assert d == "base" && (u == TWICE.tag || u == OTHER.tag);
        assert "base" in TWICE.dependencies && "base" in OTHER.dependencies;
      }
    }
    assert DependentsExact(s);
    assert LosesDependent(s.dependBy, "twice", TWICE.dependencies) by {
      assert Without(["twice", "twice", "other"], "twice") == ["other"] by {
        assert ["twice", "twice", "other"][1..] == ["twice", "other"] && ["twice", "other"][1..] == ["other"];
        WithoutAbsent(["other"], "twice");
        assert Without(["twice", "other"], "twice") == ["other"];
      }
      assert TWICE.dependencies[0] == "base" && TWICE.dependencies[1] == "base";
      assert Repeated(TWICE.dependencies, "base");
    }
    RemoveKeepsDependents(s, "twice");
  }
}
