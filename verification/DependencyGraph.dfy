/** The dependency graph of a list of DNS transports, stated without reference to any scheduling algorithm. */
module DependencyGraph {
  import opened Prelude

  /** A DNS transport: `id` stands for the object's identity, the rest for what its accessors return. */
  datatype Transport = Transport(id: nat, tag: string, kind: string, dependencies: seq<string>)

  function Tags(ts: seq<Transport>): set<string> {
    set t | t in ts :: t.tag
  }

  predicate DistinctTags(ts: seq<Transport>) {
    forall i, j :: 0 <= i < j < |ts| ==> ts[i].tag != ts[j].tag
  }

  /** `from` is listed and names `to` as a dependency. */
  ghost predicate Edge(ts: seq<Transport>, from: string, to: string) {
    exists t :: t in ts && t.tag == from && to in t.dependencies
  }

  ghost predicate Walk(ts: seq<Transport>, path: seq<string>) {
    forall i :: 0 <= i < |path| - 1 ==> Edge(ts, path[i], path[i + 1])
  }

  ghost predicate IsCycle(ts: seq<Transport>, path: seq<string>) {
    |path| >= 2 && path[0] == path[|path| - 1] && Walk(ts, path)
  }

  ghost predicate Cyclic(ts: seq<Transport>) {
    exists path :: IsCycle(ts, path)
  }

  /** Every dependency names a listed transport. */
  ghost predicate Resolved(ts: seq<Transport>) {
    forall t, d :: t in ts && d in t.dependencies ==> d in Tags(ts)
  }

  /** Every transport of the log comes after all its dependencies. */
  ghost predicate StartOrder(log: seq<Transport>) {
    forall i, d :: 0 <= i < |log| && d in log[i].dependencies ==> d in Tags(log[..i])
  }

  lemma TagsAppend(ts: seq<Transport>, t: Transport)
    ensures Tags(ts + [t]) == Tags(ts) + {t.tag}
  {
  }

  /** There are as many tags as transports exactly when no tag occurs twice. */
  lemma {:induction false} TagsSize(ts: seq<Transport>)
    ensures |Tags(ts)| <= |ts| && (|Tags(ts)| == |ts| <==> DistinctTags(ts))
  {
    if ts != [] {
      var init, last := ts[..|ts| - 1], ts[|ts| - 1];
      assert ts == init + [last];
      TagsSize(init);
      TagsAppend(init, last);
      if last.tag in Tags(init) {
        var t :| t in init && t.tag == last.tag;
        var i :| 0 <= i < |init| && init[i] == t;
        assert ts[i].tag == ts[|ts| - 1].tag;
        assert Tags(ts) == Tags(init);
      } else {
        DistinctTagsAppend(init, last);
      }
    }
  }

  lemma DistinctTagsAppend(ts: seq<Transport>, t: Transport)
    requires t.tag !in Tags(ts)
    ensures DistinctTags(ts + [t]) <==> DistinctTags(ts)
  {
    var all := ts + [t];
    assert forall i :: 0 <= i < |ts| ==> all[i] == ts[i] && ts[i].tag in Tags(ts);
  }

  /** Along a walk, positions in a start order strictly decrease. */
  lemma {:induction false} WalkDescends(log: seq<Transport>, path: seq<string>, i: nat, from: nat) returns (to: nat)
    requires DistinctTags(log) && StartOrder(log) && Walk(log, path)
    requires i < |path| && from < |log| && log[from].tag == path[0]
    ensures to < |log| && log[to].tag == path[i]
    ensures to <= from && (i > 0 ==> to < from)
  {
    if i == 0 {
      to := from;
    } else {
      var mid := WalkDescends(log, path, i - 1, from);
      assert Edge(log, path[i - 1], path[i - 1 + 1]);
      var t :| t in log && t.tag == path[i - 1] && path[i] in t.dependencies;
      assert t == log[mid];
      assert path[i] in Tags(log[..mid]);
      var u :| u in log[..mid] && u.tag == path[i];
      to :| 0 <= to < mid && log[to] == u;
    }
  }

  /** A complete start order is a certificate: everything is resolved and nothing is circular. */
  lemma OrderCertifies(ts: seq<Transport>, log: seq<Transport>)
    requires DistinctTags(log) && StartOrder(log)
    requires forall t :: t in ts <==> t in log
    ensures Resolved(ts) && !Cyclic(ts)
  {
    forall t, d | t in ts && d in t.dependencies ensures d in Tags(ts) {
      var i :| 0 <= i < |log| && log[i] == t;
      assert d in Tags(log[..i]);
    }
    forall path ensures !IsCycle(ts, path) {
      if IsCycle(ts, path) {
        assert Walk(log, path) by {
          forall i | 0 <= i < |path| - 1 ensures Edge(log, path[i], path[i + 1]) {
            assert Edge(ts, path[i], path[i + 1]);
          }
        }
        assert Edge(log, path[0], path[0 + 1]);
        var t :| t in log && t.tag == path[0];
        var from :| 0 <= from < |log| && log[from] == t;
        var to := WalkDescends(log, path, |path| - 1, from);
        assert false;
      }
    }
  }

  /** The path a diagnosis reports, closed by a tag it already contains, holds a genuine cycle. */
  lemma ClosedPathIsCyclic(ts: seq<Transport>, path: seq<string>, again: string)
    requires again in path && Walk(ts, path + [again])
    ensures Cyclic(ts)
  {
    var k :| 0 <= k < |path| && path[k] == again;
    var cycle := path[k..] + [again];
    forall i | 0 <= i < |cycle| - 1 ensures Edge(ts, cycle[i], cycle[i + 1]) {
      assert Edge(ts, (path + [again])[k + i], (path + [again])[k + i + 1]);
    }
    assert IsCycle(ts, cycle);
  }

  /** Nothing can start: each transport not yet started waits for a dependency not yet started. */
  ghost predicate Stuck(ts: seq<Transport>, started: set<string>) {
    forall t :: t in ts && t.tag !in started ==> exists d :: d in t.dependencies && d !in started
  }

  lemma StuckExtends(ts: seq<Transport>, k: nat, started: set<string>)
    requires k < |ts|
    ensures Stuck(ts[..k + 1], started) <==>
            Stuck(ts[..k], started) && (ts[k].tag in started || exists d :: d in ts[k].dependencies && d !in started)
  {
    assert ts[..k + 1] == ts[..k] + [ts[k]];
  }

  lemma WalkAppend(ts: seq<Transport>, path: seq<string>, next: string)
    requires path != [] && Walk(ts, path) && Edge(ts, path[|path| - 1], next)
    ensures Walk(ts, path + [next])
  {
    var longer := path + [next];
    forall i | 0 <= i < |longer| - 1 ensures Edge(ts, longer[i], longer[i + 1]) {
      assert i < |path| - 1 ==> Edge(ts, path[i], path[i + 1]);
    }
  }

  /** In a stuck list without missing dependencies, following unstarted ones comes back to where it was. */
  lemma {:induction false} FollowUnstarted(ts: seq<Transport>, started: set<string>, path: seq<string>)
    requires Stuck(ts, started) && Resolved(ts)
    requires path != [] && Distinct(path) && Walk(ts, path) && (forall x :: x in path ==> x in Tags(ts))
    requires path[|path| - 1] !in started
    ensures Cyclic(ts)
    decreases |Tags(ts)| + 1 - |path|
  {
    var last := path[|path| - 1];
    assert last in path;
    var t :| t in ts && t.tag == last;
    var d :| d in t.dependencies && d !in started;
    assert Edge(ts, last, d);
    WalkAppend(ts, path, d);
    if d in path {
      ClosedPathIsCyclic(ts, path, d);
    } else {
      DistinctBound(path + [d], Tags(ts));
      FollowUnstarted(ts, started, path + [d]);
    }
  }

  /** A stuck list with something left to start has a missing or a circular dependency. */
  lemma StuckRefutes(ts: seq<Transport>, started: set<string>)
    requires Stuck(ts, started) && !(Tags(ts) <= started)
    ensures !(Resolved(ts) && !Cyclic(ts))
  {
    if Resolved(ts) {
      var x :| x in Tags(ts) && x !in started;
      FollowUnstarted(ts, started, [x]);
    }
  }
}
