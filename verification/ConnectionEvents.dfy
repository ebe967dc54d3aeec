/**
 The connection event stream (daemon/started_service.go): a subscriber turns connection counters into NEW,
 UPDATE and CLOSED events, and the client (experimental/libbox/command_types.go) rebuilds the table of
 connections from them.
 */
module ConnectionEvents {
  import opened Prelude

  type Id = nat

  datatype Totals = Totals(up: int, down: int)

  /** A tracked connection with the counters read for it. */
  datatype Conn = Conn(id: Id, totals: Totals)

  datatype Snapshot = Snapshot(totals: Totals, hadTraffic: bool)

  type Snapshots = map<Id, Snapshot>

  /** `closed` says that the connection of a NEW event carries a closing time. */
  datatype Event =
    | New(id: Id, totals: Totals, closed: bool)
    | Update(id: Id, delta: Totals)
    | Closed(id: Id, final: Option<Totals>)

  datatype Emitted = Emitted(snapshots: Snapshots, events: seq<Event>)

  // ---- The service side ----

  /** What one active connection contributes to a traffic update. */
  function Track(s: Snapshots, c: Conn): Emitted {
    if c.id !in s then Emitted(s[c.id := Snapshot(c.totals, false)], [New(c.id, c.totals, false)])
    else
      var snapshot := s[c.id];
      var delta := Totals(c.totals.up - snapshot.totals.up, c.totals.down - snapshot.totals.down);
      var quiet := if snapshot.hadTraffic then [Update(c.id, Totals(0, 0))] else [];
      if delta.up < 0 || delta.down < 0 then Emitted(s[c.id := Snapshot(c.totals, false)], quiet)
      else if delta.up > 0 || delta.down > 0 then Emitted(s[c.id := Snapshot(c.totals, true)], [Update(c.id, delta)])
      else if snapshot.hadTraffic then Emitted(s[c.id := Snapshot(c.totals, false)], quiet)
      else Emitted(s, [])
  }

  function TrackAll(s: Snapshots, active: seq<Conn>): Emitted {
    if active == [] then Emitted(s, [])
    else
      var before := TrackAll(s, active[..|active| - 1]);
      var last := Track(before.snapshots, active[|active| - 1]);
      Emitted(last.snapshots, before.events + last.events)
  }

  function Finals(closed: map<Id, Totals>, id: Id): Option<Totals> {
    if id in closed then Some(closed[id]) else None
  }

  /** Forget the connections of `gone`, in that order. */
  function CloseAll(s: Snapshots, gone: seq<Id>, closed: map<Id, Totals>): Emitted {
    if gone == [] then Emitted(s, [])
    else
      var before := CloseAll(s, gone[..|gone| - 1], closed);
      var id := gone[|gone| - 1];
      Emitted(before.snapshots - {id}, before.events + [Closed(id, Finals(closed, id))])
  }

  function Ids(active: seq<Conn>): set<Id> {
    set c | c in active :: c.id
  }

  predicate DistinctIds(active: seq<Conn>) {
    forall i, j :: 0 <= i < j < |active| ==> active[i].id != active[j].id
  }

  /** `gone` lists, in some order, the tracked connections that are no longer active. */
  ghost predicate Gone(s: Snapshots, active: seq<Conn>, gone: seq<Id>) {
    Distinct(gone) && forall id :: id in gone <==> id in TrackAll(s, active).snapshots && id !in Ids(active)
  }

  function Tick(s: Snapshots, active: seq<Conn>, gone: seq<Id>, closed: map<Id, Totals>): Emitted {
    var tracked := TrackAll(s, active);
    var last := CloseAll(tracked.snapshots, gone, closed);
    Emitted(last.snapshots, tracked.events + last.events)
  }

  function DeliverNew(s: Snapshots, c: Conn): Emitted {
    if c.id in s then Emitted(s, [])
    else Emitted(s[c.id := Snapshot(c.totals, false)], [New(c.id, c.totals, false)])
  }

  function DeliverClosed(s: Snapshots, id: Id, final: Option<Totals>): Emitted {
    Emitted(s - {id}, [Closed(id, final)])
  }

  function NewEvents(conns: seq<Conn>, closed: bool): seq<Event> {
    if conns == [] then []
    else NewEvents(conns[..|conns| - 1], closed) + [New(conns[|conns| - 1].id, conns[|conns| - 1].totals, closed)]
  }

  function FreshSnapshots(active: seq<Conn>): Snapshots {
    if active == [] then map[]
    else FreshSnapshots(active[..|active| - 1])[active[|active| - 1].id := Snapshot(active[|active| - 1].totals, false)]
  }

  // ---- The client side ----

  datatype ClientConn = ClientConn(totals: Totals, closed: bool)

  type View = map<Id, ClientConn>

  function ApplyEvent(v: View, e: Event): View {
    match e
    case New(id, totals, closed) => v[id := ClientConn(totals, closed)]
    case Update(id, delta) =>
      if id in v then v[id := v[id].(totals := Totals(v[id].totals.up + delta.up, v[id].totals.down + delta.down))] else v
    case Closed(id, final) =>
      if final.Some? then v[id := ClientConn(final.value, true)]
      else if id in v then v[id := v[id].(closed := true)]
      else v
  }

  function ApplyEvents(v: View, events: seq<Event>): View {
    if events == [] then v else ApplyEvent(ApplyEvents(v, events[..|events| - 1]), events[|events| - 1])
  }

  lemma {:induction false} ApplyConcat(v: View, a: seq<Event>, b: seq<Event>)
    ensures ApplyEvents(v, a + b) == ApplyEvents(ApplyEvents(v, a), b)
  {
    if b == [] {
      assert a + b == a;
    } else {
      assert (a + b)[..|a + b| - 1] == a + b[..|b| - 1];
      ApplyConcat(v, a, b[..|b| - 1]);
    }
  }

  /** The client shows `id` as an open connection with these totals. */
  predicate Shows(v: View, id: Id, totals: Totals) {
    id in v && v[id] == ClientConn(totals, false)
  }

  predicate ShowsOpen(v: View, id: Id) {
    id in v && !v[id].closed
  }

  /** The client's open connections and their totals are exactly the subscriber's snapshots. */
  ghost predicate InSync(v: View, s: Snapshots) {
    forall id :: (ShowsOpen(v, id) <==> id in s) && (id in s ==> Shows(v, id, s[id].totals))
  }

  // ---- Replaying a traffic update ----

  /** A counter went backwards between two readings. */
  predicate Regressed(s: Snapshots, c: Conn) {
    c.id in s && (c.totals.up < s[c.id].totals.up || c.totals.down < s[c.id].totals.down)
  }

  lemma ApplyOne(v: View, e: Event)
    ensures ApplyEvents(v, [e]) == ApplyEvent(v, e)
  {
    assert [e][..0] == [];
  }

  predicate SameAt<V(==)>(a: map<Id, V>, b: map<Id, V>, id: Id) {
    (id in a <==> id in b) && (id in a ==> a[id] == b[id])
  }

  /**
   Which events tracking one connection emits: NEW for an unknown one, UPDATE with the bytes moved, and after traffic one
   UPDATE of zero as soon as it is quiet or a counter went backwards; nothing else.
   */
  lemma TrackEvents(s: Snapshots, c: Conn)
    ensures var r := Track(s, c);
            if c.id !in s then r.events == [New(c.id, c.totals, false)] && r.snapshots == s[c.id := Snapshot(c.totals, false)]
            else
              var up, down := c.totals.up - s[c.id].totals.up, c.totals.down - s[c.id].totals.down;
              var moved := up >= 0 && down >= 0 && (up > 0 || down > 0);
              && (moved ==> r.events == [Update(c.id, Totals(up, down))])
              && (!moved ==> r.events == if s[c.id].hadTraffic then [Update(c.id, Totals(0, 0))] else [])
              && r.snapshots == s[c.id := Snapshot(c.totals, moved)]
  {
    if c.id in s && c.totals == s[c.id].totals && !s[c.id].hadTraffic {
      assert s[c.id := Snapshot(c.totals, false)] == s;
    }
  }

  lemma TrackHits(v: View, s: Snapshots, c: Conn)
    requires c.id in s ==> Shows(v, c.id, s[c.id].totals)
    ensures var r := Track(s, c);
            && c.id in r.snapshots && r.snapshots[c.id].totals == c.totals
            && Shows(ApplyEvents(v, r.events), c.id, if Regressed(s, c) then s[c.id].totals else c.totals)
  {
    var r := Track(s, c);
    if r.events != [] {
      assert r.events == [r.events[0]];
      ApplyOne(v, r.events[0]);
    }
  }

  lemma TrackSkips(v: View, s: Snapshots, c: Conn, id: Id)
    requires c.id != id
    ensures SameAt(Track(s, c).snapshots, s, id) && SameAt(ApplyEvents(v, Track(s, c).events), v, id)
  {
    var r := Track(s, c);
    if r.events != [] {
      assert r.events == [r.events[0]];
      ApplyOne(v, r.events[0]);
    }
  }

  lemma {:induction false} TrackAllSkips(v: View, s: Snapshots, active: seq<Conn>, id: Id)
    requires id !in Ids(active)
    ensures var r := TrackAll(s, active);
            SameAt(r.snapshots, s, id) && SameAt(ApplyEvents(v, r.events), v, id)
  {
    if active != [] {
      var n := |active| - 1;
      var before, c := active[..n], active[n];
      assert c in active && forall d :: d in before ==> d in active;
      TrackAllSkips(v, s, before, id);
      var r0 := TrackAll(s, before);
      TrackSkips(ApplyEvents(v, r0.events), r0.snapshots, c, id);
      ApplyConcat(v, r0.events, Track(r0.snapshots, c).events);
    }
  }

  /** After tracking, an active connection is snapshotted at its real totals; the client lags only on a regression. */
  lemma {:induction false} TrackAllHits(v: View, s: Snapshots, active: seq<Conn>, k: nat)
    requires k < |active| && DistinctIds(active)
    requires active[k].id in s ==> Shows(v, active[k].id, s[active[k].id].totals)
    ensures var r := TrackAll(s, active);
            var c := active[k];
            && c.id in r.snapshots && r.snapshots[c.id].totals == c.totals
            && Shows(ApplyEvents(v, r.events), c.id, if Regressed(s, c) then s[c.id].totals else c.totals)
  {
    var n := |active| - 1;
    var before, last := active[..n], active[n];
    var r0 := TrackAll(s, before);
    var v0 := ApplyEvents(v, r0.events);
    ApplyConcat(v, r0.events, Track(r0.snapshots, last).events);
    if k == n {
      assert last.id !in Ids(before);
      TrackAllSkips(v, s, before, last.id);
      TrackHits(v0, r0.snapshots, last);
    } else {
      TrackAllHits(v, s, before, k);
      TrackSkips(v0, r0.snapshots, last, active[k].id);
    }
  }

  lemma CloseReplays(v: View, gone: Id, final: Option<Totals>, id: Id)
    ensures var v' := ApplyEvents(v, [Closed(gone, final)]);
            if id == gone then !ShowsOpen(v', id) else SameAt(v', v, id)
  {
    ApplyOne(v, Closed(gone, final));
  }

  lemma {:induction false} CloseAllReplays(v: View, s: Snapshots, gone: seq<Id>, closed: map<Id, Totals>, id: Id)
    requires Distinct(gone)
    ensures var r := CloseAll(s, gone, closed);
            var v' := ApplyEvents(v, r.events);
            if id in gone then id !in r.snapshots && !ShowsOpen(v', id)
            else SameAt(r.snapshots, s, id) && SameAt(v', v, id)
  {
    if gone != [] {
      var n := |gone| - 1;
      var before, last := gone[..n], gone[n];
      assert id in gone <==> id in before || id == last by {
        assert gone == before + [last];
      }
      var r0 := CloseAll(s, before, closed);
      var final := Finals(closed, last);
      var v0 := ApplyEvents(v, r0.events);
      assert CloseAll(s, gone, closed) == Emitted(r0.snapshots - {last}, r0.events + [Closed(last, final)]);
      ApplyConcat(v, r0.events, [Closed(last, final)]);
      CloseReplays(v0, last, final, id);
      CloseAllReplays(v, s, before, closed, id);
    }
  }

  lemma TickHits(v: View, s: Snapshots, active: seq<Conn>, gone: seq<Id>, closed: map<Id, Totals>, c: Conn)
    requires InSync(v, s) && DistinctIds(active) && Gone(s, active, gone) && c in active
    ensures var r := Tick(s, active, gone, closed);
            && c.id in r.snapshots && r.snapshots[c.id].totals == c.totals
            && Shows(ApplyEvents(v, r.events), c.id, if Regressed(s, c) then s[c.id].totals else c.totals)
  {
    var k :| 0 <= k < |active| && active[k] == c;
    TrackAllHits(v, s, active, k);
    var tracked := TrackAll(s, active);
    assert c.id in Ids(active) && c.id !in gone;
    CloseAllReplays(ApplyEvents(v, tracked.events), tracked.snapshots, gone, closed, c.id);
    ApplyConcat(v, tracked.events, CloseAll(tracked.snapshots, gone, closed).events);
  }

  lemma TickDrops(v: View, s: Snapshots, active: seq<Conn>, gone: seq<Id>, closed: map<Id, Totals>, id: Id)
    requires InSync(v, s) && DistinctIds(active) && Gone(s, active, gone) && id !in Ids(active)
    ensures var r := Tick(s, active, gone, closed);
            id !in r.snapshots && !ShowsOpen(ApplyEvents(v, r.events), id)
  {
    TrackAllSkips(v, s, active, id);
    var tracked := TrackAll(s, active);
    CloseAllReplays(ApplyEvents(v, tracked.events), tracked.snapshots, gone, closed, id);
    ApplyConcat(v, tracked.events, CloseAll(tracked.snapshots, gone, closed).events);
  }

  /**
   After a tick the snapshots are exactly the active connections at their real totals; and the client agrees
   exactly when no counter of a tracked connection went backwards.
   */
  lemma TickReplays(v: View, s: Snapshots, active: seq<Conn>, gone: seq<Id>, closed: map<Id, Totals>)
    requires InSync(v, s) && DistinctIds(active) && Gone(s, active, gone)
    ensures var r := Tick(s, active, gone, closed);
            && r.snapshots.Keys == Ids(active)
            && (forall c :: c in active ==> r.snapshots[c.id].totals == c.totals)
            && (InSync(ApplyEvents(v, r.events), r.snapshots) <==> forall c :: c in active ==> !Regressed(s, c))
  {
    var r := Tick(s, active, gone, closed);
    var v' := ApplyEvents(v, r.events);
    forall c | c in active
      ensures c.id in r.snapshots && r.snapshots[c.id].totals == c.totals
      ensures Shows(v', c.id, if Regressed(s, c) then s[c.id].totals else c.totals)
    {
      TickHits(v, s, active, gone, closed, c);
    }
    forall id | id !in Ids(active) ensures id !in r.snapshots && !ShowsOpen(v', id) {
      TickDrops(v, s, active, gone, closed, id);
    }
    if InSync(v', r.snapshots) {
      forall c | c in active ensures !Regressed(s, c) {
        assert Shows(v', c.id, r.snapshots[c.id].totals);
      }
    }
  }

  lemma DeliverReplays(v: View, s: Snapshots, c: Conn, final: Option<Totals>)
    requires InSync(v, s)
    ensures var r := DeliverNew(s, c); InSync(ApplyEvents(v, r.events), r.snapshots)
    ensures var r := DeliverClosed(s, c.id, final); InSync(ApplyEvents(v, r.events), r.snapshots)
  {
    ApplyOne(v, New(c.id, c.totals, false));
    ApplyOne(v, Closed(c.id, final));
  }

  /** What the client shows of one closed connection: its final totals, or else the last it knew. */
  lemma ClosedShowsTotals(v: View, id: Id, final: Option<Totals>)
    requires final.Some? || id in v
    ensures var v' := ApplyEvents(v, [Closed(id, final)]);
            id in v' && v'[id] == ClientConn(if final.Some? then final.value else v[id].totals, true)
  {
    ApplyOne(v, Closed(id, final));
  }

  lemma {:induction false} CloseAllShowsTotals(v: View, s: Snapshots, gone: seq<Id>, closed: map<Id, Totals>, id: Id)
    requires Distinct(gone) && id in gone && (id in closed || id in v)
    ensures var v' := ApplyEvents(v, CloseAll(s, gone, closed).events);
            id in v' && v'[id] == ClientConn(if id in closed then closed[id] else v[id].totals, true)
  {
    var n := |gone| - 1;
    var front, last := gone[..n], gone[n];
    var before := CloseAll(s, front, closed).events;
    assert gone == front + [last];
    ApplyConcat(v, before, [Closed(last, Finals(closed, last))]);
    var mid := ApplyEvents(v, before);
    if id == last {
      assert id !in front;
      CloseAllReplays(v, s, front, closed, id);
      ClosedShowsTotals(mid, id, Finals(closed, id));
    } else {
      CloseAllShowsTotals(v, s, front, closed, id);
      CloseReplays(mid, last, Finals(closed, last), id);
    }
  }

  /** After a tick a vanished connection is closed at the client, with its final totals where they are known. */
  lemma TickShowsFinals(v: View, s: Snapshots, active: seq<Conn>, gone: seq<Id>, closed: map<Id, Totals>, id: Id)
    requires InSync(v, s) && DistinctIds(active) && Gone(s, active, gone) && id in s && id !in Ids(active)
    ensures var v' := ApplyEvents(v, Tick(s, active, gone, closed).events);
            id in v' && v'[id] == ClientConn(if id in closed then closed[id] else s[id].totals, true)
  {
    var tracked := TrackAll(s, active);
    TrackAllSkips(v, s, active, id);
    ApplyConcat(v, tracked.events, CloseAll(tracked.snapshots, gone, closed).events);
    CloseAllShowsTotals(ApplyEvents(v, tracked.events), tracked.snapshots, gone, closed, id);
  }

  /** A delivered NEW shows the connection, at the totals it was first seen with; a delivered CLOSED closes it. */
  lemma DeliverShows(v: View, s: Snapshots, c: Conn, final: Option<Totals>)
    requires InSync(v, s)
    ensures Shows(ApplyEvents(v, DeliverNew(s, c).events), c.id, if c.id in s then s[c.id].totals else c.totals)
    ensures c.id in DeliverNew(s, c).snapshots && c.id !in DeliverClosed(s, c.id, final).snapshots
    ensures final.Some? || c.id in v ==>
              var v' := ApplyEvents(v, DeliverClosed(s, c.id, final).events);
              c.id in v' && v'[c.id] == ClientConn(if final.Some? then final.value else v[c.id].totals, true)
  {
    ApplyOne(v, New(c.id, c.totals, false));
    if final.Some? || c.id in v {
      ClosedShowsTotals(v, c.id, final);
    }
  }

  lemma {:induction false} NewEventsReplay(v: View, conns: seq<Conn>, closed: bool)
    requires DistinctIds(conns)
    ensures var v' := ApplyEvents(v, NewEvents(conns, closed));
            && (forall c :: c in conns ==> c.id in v' && v'[c.id] == ClientConn(c.totals, closed))
            && (forall id :: id !in Ids(conns) ==> (id in v' <==> id in v) && (id in v ==> v'[id] == v[id]))
  {
    if conns != [] {
      var n := |conns| - 1;
      var before, c := conns[..n], conns[n];
      assert conns == before + [c];
      NewEventsReplay(v, before, closed);
      assert c.id !in Ids(before);
      ApplyConcat(v, NewEvents(before, closed), [New(c.id, c.totals, closed)]);
      ApplyOne(ApplyEvents(v, NewEvents(before, closed)), New(c.id, c.totals, closed));
    }
  }

  lemma {:induction false} FreshSnapshotsContents(active: seq<Conn>)
    requires DistinctIds(active)
    ensures FreshSnapshots(active).Keys == Ids(active)
    ensures forall c :: c in active ==> FreshSnapshots(active)[c.id] == Snapshot(c.totals, false)
  {
    if active != [] {
      var n := |active| - 1;
      assert active == active[..n] + [active[n]];
      FreshSnapshotsContents(active[..n]);
      assert active[n].id !in Ids(active[..n]);
    }
  }

  /** The reset message leaves client and subscriber in agreement exactly when no connection is in both lists. */
  lemma InitialReplays(active: seq<Conn>, closed: seq<Conn>)
    requires DistinctIds(active) && DistinctIds(closed)
    ensures InSync(ApplyEvents(map[], NewEvents(active, false) + NewEvents(closed, true)), FreshSnapshots(active)) <==>
            Ids(active) !! Ids(closed)
  {
    var v1 := ApplyEvents(map[], NewEvents(active, false));
    var v2 := ApplyEvents(v1, NewEvents(closed, true));
    ApplyConcat(map[], NewEvents(active, false), NewEvents(closed, true));
    NewEventsReplay(map[], active, false);
    NewEventsReplay(v1, closed, true);
    FreshSnapshotsContents(active);
    var s := FreshSnapshots(active);
    if id :| id in Ids(active) && id in Ids(closed) {
      var c :| c in closed && c.id == id;
      assert !ShowsOpen(v2, id) && id in s;
    } else {
      forall id ensures (ShowsOpen(v2, id) <==> id in s) && (id in s ==> Shows(v2, id, s[id].totals)) {
        if id in Ids(active) {
          var c :| c in active && c.id == id;
        } else if id in Ids(closed) {
          var c :| c in closed && c.id == id;
        }
      }
    }
  }
}
