/**
 The close protocol of routed connections (route/conn.go). Two goroutines copy a connection's two directions
 and share one atomic flag; swapping the flag decides who runs the close handler, which also takes the
 connection off the manager's list. A TCP connection may swap it earlier, when an early handshake fails.
 Each swap and each run of the handler is one step, and the steps of all connections interleave freely.
 */
module ConnectionClose {
  import opened Prelude

  datatype Kind = Tcp | Udp

  /** One place that may swap the flag: not there yet, swapped and about to run the handler, or through. */
  datatype Slot = Waiting | Due | Through

  /** Slots 0 and 1 are the early handshakes (upload, download), slots 2 and 3 the copies. */
  datatype Conn = Conn(kind: Kind, slots: seq<Slot>, done: bool, failed: nat, runs: nat)

  datatype State = State(conns: map<nat, Conn>, list: seq<nat>)

  const Initial := State(map[], [])

  datatype Event =
    | Register(id: nat, kind: Kind)
    | HandshakeOk(id: nat, slot: nat)
    | HandshakeFails(id: nat, slot: nat)
    | CopyEnds(id: nat, slot: nat)
    | RunHandler(id: nat, slot: nat)

  predicate Shaped(c: Conn) {
    |c.slots| == 4
  }

  /** The handshakes run one after the other, before the copies start. */
  predicate Reached(c: Conn, slot: nat)
    requires Shaped(c) && slot < 4
  {
    && c.slots[slot].Waiting?
    && (slot >= 1 ==> c.slots[0].Through?)
    && (slot >= 2 ==> c.slots[1].Through?)
  }

  predicate Enabled(s: State, e: Event) {
    match e
    case Register(id, _) => id !in s.conns
    case HandshakeOk(id, slot) => slot < 2 && id in s.conns && Shaped(s.conns[id]) && Reached(s.conns[id], slot)
    case HandshakeFails(id, slot) => slot < 2 && id in s.conns && Shaped(s.conns[id]) && Reached(s.conns[id], slot)
    case CopyEnds(id, slot) => 2 <= slot < 4 && id in s.conns && Shaped(s.conns[id]) && Reached(s.conns[id], slot)
    case RunHandler(id, slot) => slot < 4 && id in s.conns && Shaped(s.conns[id]) && s.conns[id].slots[slot].Due?
  }

  /** The atomic swap: a TCP place owes the handler when the flag was set already, a UDP place when it was not. */
  function Swap(c: Conn, slot: nat): Conn
    requires Shaped(c) && slot < 4
  {
    var owes := if c.kind.Tcp? then c.done else !c.done;
    c.(slots := c.slots[slot := if owes then Due else Through], done := true)
  }

  function Without(s: seq<nat>, x: nat): (r: seq<nat>)
    ensures forall y :: y in r <==> y in s && y != x
  {
    if s == [] then []
    else
      assert s == s[..|s| - 1] + [s[|s| - 1]];
      if s[|s| - 1] == x then Without(s[..|s| - 1], x) else Without(s[..|s| - 1], x) + [s[|s| - 1]]
  }

  lemma {:induction false} WithoutIsDistinct(s: seq<nat>, x: nat)
    requires Distinct(s)
    ensures Distinct(Without(s, x))
  {
    if s != [] {
      WithoutIsDistinct(s[..|s| - 1], x);
      assert s[|s| - 1] !in s[..|s| - 1];
    }
  }

  function Step(s: State, e: Event): State
    requires Enabled(s, e)
  {
    match e
    case Register(id, kind) =>
      var first := if kind.Tcp? then Waiting else Through;
      State(s.conns[id := Conn(kind, [first, first, Waiting, Waiting], false, 0, 0)], s.list + [id])
    case HandshakeOk(id, slot) =>
      var c := s.conns[id];
      s.(conns := s.conns[id := c.(slots := c.slots[slot := Through])])
    case HandshakeFails(id, slot) =>
      var c := s.conns[id];
      s.(conns := s.conns[id := Swap(c, slot).(failed := c.failed + 1)])
    case CopyEnds(id, slot) => s.(conns := s.conns[id := Swap(s.conns[id], slot)])
    case RunHandler(id, slot) =>
      var c := s.conns[id];
      State(s.conns[id := c.(slots := c.slots[slot := Through], runs := c.runs + 1)], Without(s.list, id))
  }

  /** A registered connection comes last in the list; a handler takes out its own and keeps the others in order. */
  lemma ListSteps(s: State, e: Event)
    requires Enabled(s, e)
    ensures var list := Step(s, e).list;
            && (e.Register? ==> list == s.list + [e.id])
            && (e.RunHandler? && Distinct(s.list) && e.id in s.list ==>
                  exists i: nat :: i < |s.list| && s.list[i] == e.id && list == s.list[..i] + s.list[i + 1..])
            && (!e.Register? && !e.RunHandler? ==> list == s.list)
  {
    if e.RunHandler? && Distinct(s.list) && e.id in s.list {
      var i :| 0 <= i < |s.list| && s.list[i] == e.id;
      WithoutAt(s.list, i);
    }
  }

  lemma {:induction false} WithoutAt(s: seq<nat>, i: nat)
    requires Distinct(s) && i < |s|
    ensures Without(s, s[i]) == s[..i] + s[i + 1..]
  {
    var n := |s| - 1;
    if i == n {
      WithoutAbsent(s[..n], s[i]);
      assert s[i] !in s[..n];
    } else {
      WithoutAt(s[..n], i);
      assert s[..i] + s[i + 1..] == s[..n][..i] + s[..n][i + 1..] + [s[n]];
    }
  }

  lemma {:induction false} WithoutAbsent(s: seq<nat>, x: nat)
    ensures x !in s ==> Without(s, x) == s
  {
    if s != [] {
      WithoutAbsent(s[..|s| - 1], x);
    }
  }

  // ---- Counting ----

  function One(b: bool): nat {
    if b then 1 else 0
  }

  function CountDue(c: Conn): nat
    requires Shaped(c)
  {
    One(c.slots[0].Due?) + One(c.slots[1].Due?) + One(c.slots[2].Due?) + One(c.slots[3].Due?)
  }

  /** How many of the two directions have finished copying. */
  function Finished(c: Conn): nat
    requires Shaped(c)
  {
    One(!c.slots[2].Waiting?) + One(!c.slots[3].Waiting?)
  }

  /** Every swap but the first owes a TCP handler run; only the first swap owes a UDP one. */
  ghost predicate Accounted(c: Conn) {
    && Shaped(c)
    && (c.done <==> c.failed + Finished(c) > 0)
    && c.runs + CountDue(c) == (if !c.done then 0 else if c.kind.Tcp? then c.failed + Finished(c) - 1 else 1)
    && (c.kind.Udp? ==> c.failed == 0 && c.slots[0].Through? && c.slots[1].Through?)
    && (Finished(c) > 0 ==> c.slots[0].Through? && c.slots[1].Through?)
    && (!c.slots[1].Waiting? ==> c.slots[0].Through?)
    && c.failed <= One(!c.slots[0].Waiting?) + One(!c.slots[1].Waiting?)
  }

  ghost predicate Sound(s: State) {
    && (forall id :: id in s.conns ==> Accounted(s.conns[id]))
    && Distinct(s.list) && (forall id :: id in s.list <==> id in s.conns && s.conns[id].runs == 0)
  }

  lemma SwapKeepsAccounts(c: Conn, slot: nat)
    requires Accounted(c) && slot < 4 && Reached(c, slot)
    ensures slot < 2 ==> Accounted(Swap(c, slot).(failed := c.failed + 1))
    ensures slot >= 2 ==> Accounted(Swap(c, slot))
  {
  }

  lemma ThroughKeepsAccounts(c: Conn, slot: nat)
    requires Accounted(c) && slot < 4
    ensures slot < 2 && Reached(c, slot) ==> Accounted(c.(slots := c.slots[slot := Through]))
    ensures c.slots[slot].Due? ==> Accounted(c.(slots := c.slots[slot := Through], runs := c.runs + 1))
  {
  }

  /** A step of one connection that runs no handler. */
  lemma UpdateKeepsSound(s: State, id: nat, c: Conn)
    requires Sound(s) && id in s.conns && Accounted(c) && c.runs == s.conns[id].runs
    ensures Sound(s.(conns := s.conns[id := c]))
  {
  }

  lemma RegisterKeepsSound(s: State, e: Event)
    requires Sound(s) && Enabled(s, e) && e.Register?
    ensures Sound(Step(s, e))
  {
    assert Accounted(Step(s, e).conns[e.id]);
  }

  lemma HandlerKeepsSound(s: State, e: Event)
    requires Sound(s) && Enabled(s, e) && e.RunHandler?
    ensures Sound(Step(s, e))
  {
    ThroughKeepsAccounts(s.conns[e.id], e.slot);
    WithoutIsDistinct(s.list, e.id);
  }

  lemma StepKeepsSound(s: State, e: Event)
    requires Sound(s) && Enabled(s, e)
    ensures Sound(Step(s, e))
  {
    match e {
      case Register(_, _) => RegisterKeepsSound(s, e);
      case HandshakeOk(id, slot) =>
        ThroughKeepsAccounts(s.conns[id], slot);
        UpdateKeepsSound(s, id, Step(s, e).conns[id]);
      case HandshakeFails(id, slot) =>
        SwapKeepsAccounts(s.conns[id], slot);
        UpdateKeepsSound(s, id, Step(s, e).conns[id]);
      case CopyEnds(id, slot) =>
        SwapKeepsAccounts(s.conns[id], slot);
        UpdateKeepsSound(s, id, Step(s, e).conns[id]);
      case RunHandler(_, _) => HandlerKeepsSound(s, e);
    }
  }

  ghost predicate IsRun(trace: seq<State>, events: seq<Event>) {
    && |trace| == |events| + 1 && trace[0] == Initial
    && forall i :: 0 <= i < |events| ==> Enabled(trace[i], events[i]) && trace[i + 1] == Step(trace[i], events[i])
  }

  /** Under every interleaving, the list holds exactly the registered connections whose handler has not run. */
  lemma {:induction false} RunIsSound(trace: seq<State>, events: seq<Event>, k: nat)
    requires IsRun(trace, events) && k < |trace|
    ensures Sound(trace[k])
  {
    if k > 0 {
      RunIsSound(trace, events, k - 1);
      StepKeepsSound(trace[k - 1], events[k - 1]);
    }
  }

  /** The connection has nothing left to do. */
  predicate Settled(c: Conn) {
    Shaped(c) && forall i :: 0 <= i < 4 ==> c.slots[i].Through?
  }

  /**
   Exactly how often the handler of a settled connection ran: once for a packet connection; for a stream once
   plus once for every failed early handshake.
   */
  lemma HandlerRuns(trace: seq<State>, events: seq<Event>, k: nat, id: nat)
    requires IsRun(trace, events) && k < |trace| && id in trace[k].conns && Settled(trace[k].conns[id])
    ensures trace[k].conns[id].runs == if trace[k].conns[id].kind.Tcp? then 1 + trace[k].conns[id].failed else 1
  {
    RunIsSound(trace, events, k);
  }

  /**
   The handler of a stream runs once only exactly when no handshake failed. While a direction is still being copied, a
   run is done or due exactly when failed handshakes and finished directions are at least two together; so without a
   failure it waits for both directions, and it does not wait exactly when enough handshakes failed.
   */
  lemma HandlerRunsLast(trace: seq<State>, events: seq<Event>, k: nat, id: nat)
    requires IsRun(trace, events) && k < |trace| && id in trace[k].conns && trace[k].conns[id].kind.Tcp?
    ensures var c := trace[k].conns[id];
            && Shaped(c)
            && (Finished(c) < 2 ==> (c.runs + CountDue(c) > 0 <==> c.failed + Finished(c) >= 2))
            && (c.failed == 0 ==> c.runs <= 1 && (c.runs == 1 ==> Finished(c) == 2))
            && (Settled(c) ==> (c.runs == 1 <==> c.failed == 0))
  {
    RunIsSound(trace, events, k);
  }

  /** The handler of a packet connection is owed to the first direction that finishes, and never again. */
  lemma PacketHandlerRunsFirst(trace: seq<State>, events: seq<Event>, k: nat, id: nat)
    requires IsRun(trace, events) && k < |trace| && id in trace[k].conns && trace[k].conns[id].kind.Udp?
    ensures var c := trace[k].conns[id];
            Shaped(c) && c.runs <= 1 && (c.runs + CountDue(c) == 1 <==> Finished(c) > 0)
  {
    RunIsSound(trace, events, k);
  }

  /** A failed handshake followed by a second swap: the handler runs while both copies are still going. */
  lemma HandlerRunsEarly()
    ensures exists trace: seq<State>, events ::
              IsRun(trace, events) && |trace| == 5 && 7 in trace[4].conns && Shaped(trace[4].conns[7])
              && trace[4].conns[7].runs == 1 && Finished(trace[4].conns[7]) == 0
  {
    var events := [Register(7, Tcp), HandshakeFails(7, 0), HandshakeFails(7, 1), RunHandler(7, 1)];
    var s1 := Step(Initial, events[0]);
    var s2 := Step(s1, events[1]);
    var s3 := Step(s2, events[2]);
    var s4 := Step(s3, events[3]);
    var trace := [Initial, s1, s2, s3, s4];
    assert IsRun(trace, events);
  }
}
