/**
 Whole runs of a connection subscription (daemon/started_service.go): connections come, go and carry traffic
 while the subscriber handles events and ticks in any order. Also the subscription object itself, whose
 handlers update its snapshot table in place.
 */
module ConnectionStream {
  import opened Prelude
  import opened ConnectionEvents

  // ---- The history of one connection ----

  function LastFor(h: seq<Event>, id: Id): Option<Event> {
    if h == [] then None
    else if h[|h| - 1].id == id then Some(h[|h| - 1])
    else LastFor(h[..|h| - 1], id)
  }

  predicate Nonzero(e: Option<Event>) {
    e.Some? && e.value.Update? && e.value.delta != Totals(0, 0)
  }

  /** An UPDATE with both deltas zero only ever directly follows a nonzero UPDATE of the same connection. */
  ghost predicate Spaced(h: seq<Event>) {
    forall k :: 0 <= k < |h| && h[k].Update? && h[k].delta == Totals(0, 0) ==> Nonzero(LastFor(h[..k], h[k].id))
  }

  /** `hadTraffic` is set exactly when the connection's last event was a nonzero UPDATE. */
  ghost predicate Marked(h: seq<Event>, s: Snapshots) {
    forall id :: id in s ==> (s[id].hadTraffic <==> Nonzero(LastFor(h, id)))
  }

  lemma LastForAppend(h: seq<Event>, e: Event, id: Id)
    ensures LastFor(h + [e], id) == if e.id == id then Some(e) else LastFor(h, id)
  {
    assert (h + [e])[..|h|] == h;
  }

  lemma SpacedAppend(h: seq<Event>, e: Event)
    requires Spaced(h)
    requires e.Update? && e.delta == Totals(0, 0) ==> Nonzero(LastFor(h, e.id))
    ensures Spaced(h + [e])
  {
    var h' := h + [e];
    forall k | 0 <= k < |h'| && h'[k].Update? && h'[k].delta == Totals(0, 0) ensures Nonzero(LastFor(h'[..k], h'[k].id)) {
      assert h'[..k] == h[..k];
      assert k == |h| ==> h[..k] == h;
    }
  }

  lemma TrackKeepsHistory(h: seq<Event>, s: Snapshots, c: Conn)
    requires Marked(h, s) && Spaced(h)
    ensures var r := Track(s, c); Marked(h + r.events, r.snapshots) && Spaced(h + r.events)
  {
    var r := Track(s, c);
    if r.events == [] {
      assert h + r.events == h;
    } else {
      var e := r.events[0];
      assert r.events == [e] && e.id == c.id;
      SpacedAppend(h, e);
      forall id | id in r.snapshots ensures r.snapshots[id].hadTraffic <==> Nonzero(LastFor(h + [e], id)) {
        LastForAppend(h, e, id);
      }
    }
  }

  lemma {:induction false} TrackAllKeepsHistory(h: seq<Event>, s: Snapshots, active: seq<Conn>)
    requires Marked(h, s) && Spaced(h)
    ensures var r := TrackAll(s, active); Marked(h + r.events, r.snapshots) && Spaced(h + r.events)
  {
    if active == [] {
      assert h + [] == h;
    } else {
      var n := |active| - 1;
      TrackAllKeepsHistory(h, s, active[..n]);
      var r0 := TrackAll(s, active[..n]);
      var r1 := Track(r0.snapshots, active[n]);
      TrackKeepsHistory(h + r0.events, r0.snapshots, active[n]);
      assert h + (r0.events + r1.events) == (h + r0.events) + r1.events;
    }
  }

  /** Dropping a connection needs no mark; nobody else's last event changes. */
  lemma CloseKeepsHistory(h: seq<Event>, s: Snapshots, e: Event)
    requires Marked(h, s) && Spaced(h) && !e.Update?
    ensures Marked(h + [e], s - {e.id}) && Spaced(h + [e])
  {
    SpacedAppend(h, e);
    forall id | id in s - {e.id} ensures s[id].hadTraffic <==> Nonzero(LastFor(h + [e], id)) {
      LastForAppend(h, e, id);
    }
  }

  lemma {:induction false} CloseAllKeepsHistory(h: seq<Event>, s: Snapshots, gone: seq<Id>, closed: map<Id, Totals>)
    requires Marked(h, s) && Spaced(h)
    ensures var r := CloseAll(s, gone, closed); Marked(h + r.events, r.snapshots) && Spaced(h + r.events)
  {
    if gone == [] {
      assert h + [] == h;
    } else {
      var n := |gone| - 1;
      CloseAllKeepsHistory(h, s, gone[..n], closed);
      var r0 := CloseAll(s, gone[..n], closed);
      var e := Closed(gone[n], Finals(closed, gone[n]));
      CloseKeepsHistory(h + r0.events, r0.snapshots, e);
      assert h + (r0.events + [e]) == (h + r0.events) + [e];
    }
  }

  lemma TickKeepsHistory(h: seq<Event>, s: Snapshots, active: seq<Conn>, gone: seq<Id>, closed: map<Id, Totals>)
    requires Marked(h, s) && Spaced(h)
    ensures var r := Tick(s, active, gone, closed); Marked(h + r.events, r.snapshots) && Spaced(h + r.events)
  {
    TrackAllKeepsHistory(h, s, active);
    var r0 := TrackAll(s, active);
    CloseAllKeepsHistory(h + r0.events, r0.snapshots, gone, closed);
    var r1 := CloseAll(r0.snapshots, gone, closed);
    assert h + (r0.events + r1.events) == (h + r0.events) + r1.events;
  }

  lemma NewKeepsHistory(h: seq<Event>, s: Snapshots, c: Conn)
    requires Marked(h, s) && Spaced(h)
    ensures var r := DeliverNew(s, c); Marked(h + r.events, r.snapshots) && Spaced(h + r.events)
  {
    var r := DeliverNew(s, c);
    if c.id in s {
      assert h + r.events == h;
    } else {
      var e := New(c.id, c.totals, false);
      SpacedAppend(h, e);
      forall id | id in r.snapshots ensures r.snapshots[id].hadTraffic <==> Nonzero(LastFor(h + [e], id)) {
        LastForAppend(h, e, id);
      }
    }
  }

  // ---- Runs ----

  /** `counters` holds the counters of every connection that ever existed; `history` all events sent so far. */
  datatype World = World(
    counters: map<Id, Totals>,
    active: set<Id>,
    snapshots: Snapshots,
    view: View,
    history: seq<Event>)

  datatype Action =
    | Join(id: Id)
    | Traffic(id: Id, more: Totals)
    | Leave(id: Id)
    | HandleNew(id: Id)
    | HandleClosed(id: Id, final: Option<Totals>)
    | HandleTick(conns: seq<Conn>, gone: seq<Id>, closed: map<Id, Totals>)
    | Evict(ids: set<Id>)

  /** `conns` lists the active connections, in some order, with their counters. */
  ghost predicate Lists(w: World, conns: seq<Conn>) {
    && DistinctIds(conns) && Ids(conns) == w.active
    && forall c :: c in conns ==> c.id in w.counters && w.counters[c.id] == c.totals
  }

  ghost predicate Enabled(w: World, a: Action) {
    match a
    case Join(id) => id !in w.counters
    case Traffic(id, more) => id in w.counters && more.up >= 0 && more.down >= 0
    case Leave(id) => id in w.active
    case HandleNew(id) => id in w.counters
    case HandleClosed(id, _) => true
    case HandleTick(conns, gone, _) => Lists(w, conns) && Gone(w.snapshots, conns, gone)
    case Evict(ids) => forall id :: id in ids ==> id in w.view && w.view[id].closed
  }

  function Send(w: World, r: Emitted): World {
    w.(snapshots := r.snapshots, view := ApplyEvents(w.view, r.events), history := w.history + r.events)
  }

  function Act(w: World, a: Action): World
    requires Enabled(w, a)
  {
    match a
    case Join(id) => w.(counters := w.counters[id := Totals(0, 0)], active := w.active + {id})
    case Traffic(id, more) =>
      var t := w.counters[id];
      w.(counters := w.counters[id := Totals(t.up + more.up, t.down + more.down)])
    case Leave(id) => w.(active := w.active - {id})
    case HandleNew(id) => Send(w, DeliverNew(w.snapshots, Conn(id, w.counters[id])))
    case HandleClosed(id, final) => Send(w, DeliverClosed(w.snapshots, id, final))
    case HandleTick(conns, gone, closed) => Send(w, Tick(w.snapshots, conns, gone, closed))
    case Evict(ids) => w.(view := w.view - ids)
  }

  /** The world right after the reset message, for connection lists read at one instant. */
  ghost predicate Subscribed(w: World, conns: seq<Conn>, closed: seq<Conn>) {
    && Lists(w, conns) && DistinctIds(closed) && Ids(conns) !! Ids(closed)
    && w.snapshots == FreshSnapshots(conns)
    && w.history == NewEvents(conns, false) + NewEvents(closed, true)
    && w.view == ApplyEvents(map[], w.history)
  }

  ghost predicate Good(w: World) {
    && InSync(w.view, w.snapshots)
    && Marked(w.history, w.snapshots) && Spaced(w.history)
    && (forall id :: id in w.snapshots ==>
          id in w.counters && w.snapshots[id].totals.up <= w.counters[id].up && w.snapshots[id].totals.down <= w.counters[id].down)
  }

  lemma {:induction false} NewEventsPlain(h: seq<Event>, conns: seq<Conn>, closed: bool)
    requires forall e :: e in h ==> !e.Update?
    ensures forall e :: e in h + NewEvents(conns, closed) ==> !e.Update?
  {
    if conns != [] {
      NewEventsPlain(h, conns[..|conns| - 1], closed);
    }
  }

  lemma {:induction false} LastForMember(h: seq<Event>, id: Id)
    ensures LastFor(h, id).Some? ==> LastFor(h, id).value in h
  {
    if h != [] {
      LastForMember(h[..|h| - 1], id);
    }
  }

  lemma SubscribedIsGood(w: World, conns: seq<Conn>, closed: seq<Conn>)
    requires Subscribed(w, conns, closed)
    ensures Good(w)
  {
    InitialReplays(conns, closed);
    FreshSnapshotsContents(conns);
    NewEventsPlain([], conns, false);
    assert [] + NewEvents(conns, false) == NewEvents(conns, false);
    NewEventsPlain(NewEvents(conns, false), closed, true);
    forall id | id in w.snapshots ensures id in w.counters && w.snapshots[id] == Snapshot(w.counters[id], false) {
      var c :| c in conns && c.id == id;
    }
    forall id ensures !Nonzero(LastFor(w.history, id)) {
      LastForMember(w.history, id);
    }
  }

  lemma TickKeepsGood(w: World, conns: seq<Conn>, gone: seq<Id>, closed: map<Id, Totals>)
    requires Good(w) && Enabled(w, HandleTick(conns, gone, closed))
    ensures var w' := Act(w, HandleTick(conns, gone, closed));
            && Good(w') && w'.snapshots.Keys == w.active
            && forall id :: id in w.active ==> id in w.counters && w'.snapshots[id].totals == w.counters[id]
  {
    TickReplays(w.view, w.snapshots, conns, gone, closed);
    TickKeepsHistory(w.history, w.snapshots, conns, gone, closed);
    var w' := Act(w, HandleTick(conns, gone, closed));
    forall id | id in w'.snapshots ensures id in w.counters && w'.snapshots[id].totals == w.counters[id] {
      var c :| c in conns && c.id == id;
    }
  }

  lemma ActKeepsGood(w: World, a: Action)
    requires Good(w) && Enabled(w, a)
    ensures Good(Act(w, a))
  {
    match a {
      case HandleNew(id) =>
        DeliverReplays(w.view, w.snapshots, Conn(id, w.counters[id]), None);
        NewKeepsHistory(w.history, w.snapshots, Conn(id, w.counters[id]));
      case HandleClosed(id, final) =>
        DeliverReplays(w.view, w.snapshots, Conn(id, Totals(0, 0)), final);
        CloseKeepsHistory(w.history, w.snapshots, Closed(id, final));
      case HandleTick(conns, gone, closed) =>
        TickKeepsGood(w, conns, gone, closed);
      case _ =>
    }
  }

  ghost predicate IsRun(trace: seq<World>, actions: seq<Action>) {
    && |trace| == |actions| + 1
    && (exists conns, closed :: Subscribed(trace[0], conns, closed))
    && forall i :: 0 <= i < |actions| ==> Enabled(trace[i], actions[i]) && trace[i + 1] == Act(trace[i], actions[i])
  }

  /**
   At every point of every run, replaying the events gives the client exactly the subscriber's snapshots, and
   zero UPDATEs and `hadTraffic` follow the rule above.
   */
  lemma {:induction false} RunInSync(trace: seq<World>, actions: seq<Action>, k: nat)
    requires IsRun(trace, actions) && k < |trace|
    ensures InSync(trace[k].view, trace[k].snapshots)
    ensures Marked(trace[k].history, trace[k].snapshots) && Spaced(trace[k].history)
    ensures Good(trace[k])
  {
    if k == 0 {
      var conns, closed :| Subscribed(trace[0], conns, closed);
      SubscribedIsGood(trace[0], conns, closed);
    } else {
      RunInSync(trace, actions, k - 1);
      ActKeepsGood(trace[k - 1], actions[k - 1]);
    }
  }

  /** Right after every tick the client's open connections are the active ones, with their real counters. */
  lemma TickShowsReality(trace: seq<World>, actions: seq<Action>, k: nat)
    requires IsRun(trace, actions) && k < |actions| && actions[k].HandleTick?
    ensures var w := trace[k + 1];
            forall id :: (ShowsOpen(w.view, id) <==> id in w.active)
                         && (id in w.active ==> id in w.counters && Shows(w.view, id, w.counters[id]))
  {
    RunInSync(trace, actions, k);
    RunInSync(trace, actions, k + 1);
    var a := actions[k];
    TickKeepsGood(trace[k], a.conns, a.gone, a.closed);
  }

  // ---- The subscription object ----

  datatype Handled = HNew(conn: Conn) | HClosed(gone: Id, final: Option<Totals>) | HOther

  class Subscription {
    var snapshots: Snapshots

    constructor ()
      ensures snapshots == map[]
    {
      snapshots := map[];
    }

    method BuildInitialConnectionState(active: seq<Conn>, closed: seq<Conn>) returns (events: seq<Event>)
      requires snapshots == map[]
      modifies this
      ensures snapshots == FreshSnapshots(active)
      ensures events == NewEvents(active, false) + NewEvents(closed, true)
    {
      events := [];
      for i := 0 to |active|
        invariant snapshots == FreshSnapshots(active[..i]) && events == NewEvents(active[..i], false)
      {
        assert active[..i + 1][..i] == active[..i];
        events := events + [New(active[i].id, active[i].totals, false)];
        snapshots := snapshots[active[i].id := Snapshot(active[i].totals, false)];
      }
      assert active[..|active|] == active;
      for i := 0 to |closed|
        invariant snapshots == FreshSnapshots(active)
        invariant events == NewEvents(active, false) + NewEvents(closed[..i], true)
      {
        assert closed[..i + 1][..i] == closed[..i];
        events := events + [New(closed[i].id, closed[i].totals, true)];
      }
      assert closed[..|closed|] == closed;
    }

    method ApplyConnectionEvent(event: Handled) returns (sent: seq<Event>)
      modifies this
      ensures Emitted(snapshots, sent) ==
              match event
              case HNew(conn) => DeliverNew(old(snapshots), conn)
              case HClosed(gone, final) => DeliverClosed(old(snapshots), gone, final)
              case HOther => Emitted(old(snapshots), [])
    {
      match event {
        case HNew(conn) =>
          if conn.id in snapshots {
            return [];
          }
          snapshots := snapshots[conn.id := Snapshot(conn.totals, false)];
          return [New(conn.id, conn.totals, false)];
        case HClosed(gone, final) =>
          snapshots := snapshots - {gone};
          return [Closed(gone, final)];
        case HOther =>
          return [];
      }
    }

    /** One tick; `gone` is the order in which vanished connections were dropped. */
    method BuildTrafficUpdates(active: seq<Conn>, closed: map<Id, Totals>)
      returns (events: seq<Event>, ghost gone: seq<Id>)
      modifies this
      ensures Gone(old(snapshots), active, gone)
      ensures Emitted(snapshots, events) == Tick(old(snapshots), active, gone, closed)
    {
      events, gone := [], [];
      for i := 0 to |active|
        invariant Emitted(snapshots, events) == TrackAll(old(snapshots), active[..i])
      {
        assert active[..i + 1][..i] == active[..i];
        var c := active[i];
        if c.id !in snapshots {
          snapshots := snapshots[c.id := Snapshot(c.totals, false)];
          events := events + [New(c.id, c.totals, false)];
          continue;
        }
        var snapshot := snapshots[c.id];
        var uplinkDelta := c.totals.up - snapshot.totals.up;
        var downlinkDelta := c.totals.down - snapshot.totals.down;
        if uplinkDelta < 0 || downlinkDelta < 0 {
          if snapshot.hadTraffic {
            events := events + [Update(c.id, Totals(0, 0))];
          }
          snapshots := snapshots[c.id := Snapshot(c.totals, false)];
          continue;
        }
        if uplinkDelta > 0 || downlinkDelta > 0 {
          snapshots := snapshots[c.id := Snapshot(c.totals, true)];
          events := events + [Update(c.id, Totals(uplinkDelta, downlinkDelta))];
          continue;
        }
        if snapshot.hadTraffic {
          snapshots := snapshots[c.id := Snapshot(c.totals, false)];
          events := events + [Update(c.id, Totals(0, 0))];
        }
      }
      assert active[..|active|] == active;
      var activeIndex := Ids(active);
      var pending := snapshots.Keys - activeIndex;
      ghost var tracked := Emitted(snapshots, events);
      while pending != {}
        invariant tracked == TrackAll(old(snapshots), active)
        invariant Distinct(gone) && pending == tracked.snapshots.Keys - activeIndex - (set id | id in gone)
        invariant forall id :: id in gone ==> id in tracked.snapshots && id !in activeIndex
        invariant snapshots == CloseAll(tracked.snapshots, gone, closed).snapshots
        invariant events == tracked.events + CloseAll(tracked.snapshots, gone, closed).events
        decreases pending
      {
        var id :| id in pending;
        assert (gone + [id])[..|gone|] == gone;
        events := events + [Closed(id, Finals(closed, id))];
        snapshots := snapshots - {id};
        pending := pending - {id};
        gone := gone + [id];
      }
      forall id | id in tracked.snapshots && id !in activeIndex ensures id in gone {
        assert id !in pending;
      }
    }
  }
}
