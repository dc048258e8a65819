/**
 * The first Kosaraju pass as the engine runs it. `dfs_incoming` hands every
 * search to the explicit-stack search when the engine's flag is set and to the
 * recursive search otherwise; the recursive search, `dfs_in`, calls back into
 * `dfs_incoming` for each successor. The recursive search never marks a vertex
 * finished, the explicit-stack one does. Either way the explored set and the
 * finishing order come out as those of the reference search `Visit`.
 */
module InPass {
  import opened Ordered
  import opened Search
  import opened StackSearch

  /**
   * The record after the reference walk `w` from `s`: what it explored, and its
   * finishing order appended; with the explicit stack, what it explored is
   * finished as well.
   */
  function Pass(iter: bool, s: Progress, w: Walk): Progress
  {
    if iter then Finish(s, w) else Progress(w.explored, s.finished, s.order + w.post)
  }

  /** `dfs_incoming`: the search from `v`, by explicit stack when `iter` is set and recursively otherwise. */
  function InSearch(adj: Adj, iter: bool, s: Progress, v: int): (r: Progress)
    requires Closed(adj) && v in adj
    ensures s.explored <= r.explored
    decreases adj.Keys - s.explored, if v in s.explored then 4 else 1, 0
  {
    if iter then Run(adj, s, [v]) else InFrom(adj, iter, s, v)
  }

  /**
   * `dfs_in`: explore `v`, search from each of its successors still unexplored
   * when its turn comes, then append `v` to the finishing order. An already
   * explored `v` is entered again.
   */
  function InFrom(adj: Adj, iter: bool, s: Progress, v: int): (r: Progress)
    requires Closed(adj) && v in adj
    ensures s.explored + {v} <= r.explored
    decreases adj.Keys - s.explored, if v in s.explored then 3 else 0, 0
  {
    var p := InScan(adj, iter, Progress(s.explored + {v}, s.finished, s.order), v, |adj[v]|);
    Progress(p.explored, p.finished, p.order + [v])
  }

  /** The first `i` successors of `v` scanned by `dfs_in`, from `s`. */
  function InScan(adj: Adj, iter: bool, s: Progress, v: int, i: int): (r: Progress)
    requires Closed(adj) && v in adj && 0 <= i <= |adj[v]|
    ensures s.explored <= r.explored
    decreases adj.Keys - s.explored, 2, i
  {
    if i == 0 then s
    else
      var p := InScan(adj, iter, s, v, i - 1);
      var u := adj[v][i - 1];
      if u in p.explored then p else InSearch(adj, iter, p, u)
  }

  /** The loop of `dfs_loop_incoming`: a search from each vertex of `vs` still unexplored when its turn comes. */
  function InEach(adj: Adj, iter: bool, s: Progress, vs: seq<int>): (r: Progress)
    requires Closed(adj) && forall u :: u in vs ==> u in adj
    ensures s.explored <= r.explored
  {
    if vs == [] then s
    else
      var t := InEach(adj, iter, s, vs[..|vs| - 1]);
      var v := vs[|vs| - 1];
      if v in t.explored then t else InSearch(adj, iter, t, v)
  }

  /** Two reference walks in turn leave the record their concatenation leaves. */
  lemma PassThen(iter: bool, s: Progress, first: Walk, second: Walk)
    requires s.explored <= first.explored <= second.explored
    ensures Pass(iter, Pass(iter, s, first), second) == Pass(iter, s, Then(first, second))
  {
    if iter {
      FinishThen(s, first, second);
    } else {
      assert s.order + first.post + second.post == s.order + (first.post + second.post);
    }
  }

  /**
   * The engine's search from an unexplored `v` leaves the explored set and
   * finishing order of the reference search, by either route, provided that
   * with the explicit stack every finished vertex is explored.
   */
  lemma {:induction false} InSearchVisit(adj: Adj, iter: bool, s: Progress, v: int)
    requires Closed(adj) && v in adj && v !in s.explored && (iter ==> s.finished <= s.explored)
    ensures InSearch(adj, iter, s, v) == Pass(iter, s, Visit(adj, s.explored, v))
    decreases adj.Keys - s.explored, 1, 0, 0
  {
    if iter {
      RunVisit(adj, s, v);
    } else {
      InFromVisit(adj, iter, s, v);
    }
  }

  /**
   * `dfs_in` from `v` explores what the reference search explores and appends
   * its finishing order; with the explicit stack below it, everything explored
   * on the way except `v` itself is finished too.
   */
  lemma {:induction false} InFromVisit(adj: Adj, iter: bool, s: Progress, v: int)
    requires Closed(adj) && v in adj && (iter ==> s.finished <= s.explored)
    ensures var w := Visit(adj, s.explored, v);
      var r := InFrom(adj, iter, s, v);
      && r.explored == w.explored
      && r.order == s.order + w.post
      && r.finished == if iter then s.finished + (w.explored - (s.explored + {v})) else s.finished
    decreases adj.Keys - s.explored, if v in s.explored then 3 else 0, 0, 0
  {
    var s1 := Progress(s.explored + {v}, s.finished, s.order);
    InScanVisit(adj, iter, s1, v, |adj[v]|);
    assert adj[v][..|adj[v]|] == adj[v];
    var c := VisitEach(adj, s1.explored, adj[v]);
    assert s.order + c.post + [v] == s.order + (c.post + [v]);
  }

  /** After `i` successors of `v`, `dfs_in`'s scan leaves the record of the reference searches over them. */
  lemma {:induction false} InScanVisit(adj: Adj, iter: bool, s: Progress, v: int, i: int)
    requires Closed(adj) && v in adj && 0 <= i <= |adj[v]| && (iter ==> s.finished <= s.explored)
    ensures InScan(adj, iter, s, v, i) == Pass(iter, s, VisitEach(adj, s.explored, adj[v][..i]))
    decreases adj.Keys - s.explored, 2, i, 1
  {
    if i == 0 {
      assert adj[v][..0] == [];
      assert s.order + [] == s.order && s.finished + {} == s.finished;
    } else {
      InScanVisit(adj, iter, s, v, i - 1);
      InScanNext(adj, iter, s, v, i - 1);
    }
  }

  /** The inductive step of `InScanVisit`, from `i` successors scanned to `i + 1`. */
  lemma {:induction false} InScanNext(adj: Adj, iter: bool, s: Progress, v: int, i: int)
    requires Closed(adj) && v in adj && 0 <= i < |adj[v]| && (iter ==> s.finished <= s.explored)
    requires InScan(adj, iter, s, v, i) == Pass(iter, s, VisitEach(adj, s.explored, adj[v][..i]))
    ensures InScan(adj, iter, s, v, i + 1) == Pass(iter, s, VisitEach(adj, s.explored, adj[v][..i + 1]))
    decreases adj.Keys - s.explored, 2, i + 1, 0
  {
    var w := VisitEach(adj, s.explored, adj[v][..i]);
    var p := Pass(iter, s, w);
    var u := adj[v][i];
    VisitEachStep(adj, s.explored, adj[v], i);
    if u !in w.explored {
      InSearchVisit(adj, iter, p, u);
      PassThen(iter, s, w, Visit(adj, w.explored, u));
    }
  }

  /**
   * The recursive and the explicit-stack first pass agree on the explored set
   * and the finishing order: from a record whose finished vertices are
   * explored, both leave those of the reference searches from `vs`.
   */
  lemma {:induction false} InEachVisitEach(adj: Adj, iter: bool, s: Progress, vs: seq<int>)
    requires Closed(adj) && (forall u :: u in vs ==> u in adj) && (iter ==> s.finished <= s.explored)
    ensures InEach(adj, iter, s, vs) == Pass(iter, s, VisitEach(adj, s.explored, vs))
  {
    if vs == [] {
      assert s.order + [] == s.order && s.finished + {} == s.finished;
    } else {
      var init := vs[..|vs| - 1];
      var v := vs[|vs| - 1];
      assert forall u :: u in init ==> u in vs;
      InEachVisitEach(adj, iter, s, init);
      var w := VisitEach(adj, s.explored, init);
      var t := InEach(adj, iter, s, init);
      if v !in t.explored {
        InSearchVisit(adj, iter, t, v);
        PassThen(iter, s, w, Visit(adj, w.explored, v));
      }
    }
  }
}
