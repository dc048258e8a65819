/**
 * The explicit-stack form of the first Kosaraju pass: the vertex on top of the
 * stack is finished and popped once explored, and explored otherwise, with its
 * unexplored successors pushed so that the first of them ends on top. Run from
 * a vertex that is not yet explored, with every finished vertex explored, it
 * leaves the same explored set and finishing order as the recursive `Visit`.
 */
module StackSearch {
  import opened Ordered
  import opened Search

  /** The first pass's record: the explored and finished sets and the finishing order. */
  datatype Progress = Progress(explored: set<int>, finished: set<int>, order: seq<int>)

  /**
   * What exploring a vertex with successor list `vs` pushes: the successors not
   * in `explored`, scanned from the end of the list, so the first ends on top.
   */
  function Pushes(vs: seq<int>, explored: set<int>): (r: seq<int>)
    ensures forall u :: u in r ==> u in vs && u !in explored
  {
    if vs == [] then []
    else Pushes(vs[1..], explored) + (if vs[0] in explored then [] else [vs[0]])
  }

  /** Scanning one more successor, from the end: `vs[j]` is pushed after the later ones if it is unexplored. */
  lemma PushesFront(vs: seq<int>, explored: set<int>, j: int)
    requires 0 <= j < |vs|
    ensures Pushes(vs[j..], explored) == Pushes(vs[j + 1..], explored) + (if vs[j] in explored then [] else [vs[j]])
  {
    assert vs[j..][1..] == vs[j + 1..];
  }

  /** The search loop run on `stack` (top last) until the stack is empty. */
  function Run(adj: Adj, s: Progress, stack: seq<int>): (r: Progress)
    requires Closed(adj) && forall u :: u in stack ==> u in adj || u in s.explored
    ensures s.explored <= r.explored
    decreases |adj.Keys - s.explored|, |stack|
  {
    if stack == [] then s
    else
      var v := stack[|stack| - 1];
      var rest := stack[..|stack| - 1];
      assert forall u :: u in rest ==> u in stack;
      if v in s.explored then
        if v in s.finished then Run(adj, s, rest)
        else Run(adj, Progress(s.explored, s.finished + {v}, s.order + [v]), rest)
      else
        RemainderShrinks(adj.Keys, s.explored, v);
        var e := s.explored + {v};
        Run(adj, Progress(e, s.finished, s.order), stack + Pushes(adj[v], e))
  }

  /** The record after the recursive walk `w` from `s`: what it explored is now finished too. */
  function Finish(s: Progress, w: Walk): Progress
  {
    Progress(w.explored, s.finished + (w.explored - s.explored), s.order + w.post)
  }

  lemma FinishThen(s: Progress, first: Walk, second: Walk)
    requires s.explored <= first.explored <= second.explored
    ensures Finish(Finish(s, first), second) == Finish(s, Then(first, second))
  {
  }

  /** What lies below the top part of the stack waits until the top part is done. */
  lemma {:induction false} RunConcat(adj: Adj, s: Progress, below: seq<int>, top: seq<int>)
    requires Closed(adj)
    requires forall u :: u in below ==> u in adj || u in s.explored
    requires forall u :: u in top ==> u in adj || u in s.explored
    ensures Run(adj, s, below + top) == Run(adj, Run(adj, s, top), below)
    decreases |adj.Keys - s.explored|, |top|
  {
    var stack := below + top;
    if top != [] {
      var v := top[|top| - 1];
      var rest := top[..|top| - 1];
      assert stack[|stack| - 1] == v && stack[..|stack| - 1] == below + rest;
      assert forall u :: u in rest ==> u in top;
      if v in s.explored {
        if v in s.finished {
          RunConcat(adj, s, below, rest);
        } else {
          RunConcat(adj, Progress(s.explored, s.finished + {v}, s.order + [v]), below, rest);
        }
      } else {
        RemainderShrinks(adj.Keys, s.explored, v);
        var e := s.explored + {v};
        var pushed := Pushes(adj[v], e);
        assert stack + pushed == below + (top + pushed);
        RunConcat(adj, Progress(e, s.finished, s.order), below, top + pushed);
      }
    } else {
      assert stack == below;
    }
  }

  /**
   * From a record whose finished vertices are explored, the stack search from
   * an unexplored `v` explores what the recursive search explores, finishes
   * those vertices, and appends them in the same finishing order.
   */
  lemma {:induction false} RunVisit(adj: Adj, s: Progress, v: int)
    requires Closed(adj) && v in adj && v !in s.explored && s.finished <= s.explored
    ensures Run(adj, s, [v]) == Finish(s, Visit(adj, s.explored, v))
    decreases |adj.Keys - s.explored|, 0, 0, 0
  {
    RemainderShrinks(adj.Keys, s.explored, v);
    var e := s.explored + {v};
    var s' := Progress(e, s.finished, s.order);
    var pushed := Pushes(adj[v], e);
    assert [v][..0] == [];
    assert Run(adj, s, [v]) == Run(adj, s', [v] + pushed);
    RunConcat(adj, s', [v], pushed);
    RunPushes(adj, s', adj[v], e);
    var c := VisitEach(adj, e, adj[v]);
    var s2 := Finish(s', c);
    assert Run(adj, s', pushed) == s2;
    assert Run(adj, s2, [v]) == Progress(c.explored, s2.finished + {v}, s2.order + [v]);
    FinishEnter(s, v, c);
  }

  /** Finishing `v` after the walk over its successors finishes the whole search from `v`. */
  lemma FinishEnter(s: Progress, v: int, c: Walk)
    requires v !in s.explored && s.finished <= s.explored && s.explored + {v} <= c.explored
    ensures var s2 := Finish(Progress(s.explored + {v}, s.finished, s.order), c);
      Progress(c.explored, s2.finished + {v}, s2.order + [v])
      == Finish(s, Walk(c.explored, [v] + c.pre, c.post + [v]))
  {
    var s2 := Finish(Progress(s.explored + {v}, s.finished, s.order), c);
    assert s2.finished + {v} == s.finished + (c.explored - s.explored);
    assert s2.order + [v] == s.order + (c.post + [v]);
  }

  /**
   * Running the stack segment pushed for the list `vs` when `explored0` was the
   * explored set does what the recursive searches from `vs` in turn do, as long
   * as every vertex explored since then is already finished.
   */
  lemma {:induction false} RunPushes(adj: Adj, s: Progress, vs: seq<int>, explored0: set<int>)
    requires Closed(adj) && forall u :: u in vs ==> u in adj
    requires explored0 <= s.explored && s.finished <= s.explored && s.explored - explored0 <= s.finished
    ensures Run(adj, s, Pushes(vs, explored0)) == Finish(s, VisitEach(adj, s.explored, vs))
    decreases |adj.Keys - s.explored|, 1, |vs|, 1
  {
    if vs == [] {
      assert s.order + [] == s.order && s.finished + {} == s.finished;
    } else if vs[0] in s.explored {
      PushesSkip(adj, s, vs, explored0);
    } else {
      PushesVisit(adj, s, vs, explored0);
    }
  }

  /** The step of `RunPushes` whose first vertex is already explored, and so finished. */
  lemma {:induction false} PushesSkip(adj: Adj, s: Progress, vs: seq<int>, explored0: set<int>)
    requires Closed(adj) && forall u :: u in vs ==> u in adj
    requires explored0 <= s.explored && s.finished <= s.explored && s.explored - explored0 <= s.finished
    requires vs != [] && vs[0] in s.explored
    ensures Run(adj, s, Pushes(vs, explored0)) == Finish(s, VisitEach(adj, s.explored, vs))
    decreases |adj.Keys - s.explored|, 1, |vs|, 0
  {
    var x, rest := vs[0], vs[1..];
    assert vs == [x] + rest;
    assert forall u :: u in rest ==> u in vs;
    VisitEachCons(adj, s.explored, x, rest);
    var below := Pushes(rest, explored0);
    if x !in explored0 {
      RunConcat(adj, s, below, [x]);
      assert [x][..0] == [];
      assert Run(adj, s, [x]) == s;
    } else {
      assert Pushes(vs, explored0) == below;
    }
    RunPushes(adj, s, rest, explored0);
    var w := VisitEach(adj, s.explored, rest);
    assert Then(Walk(s.explored, [], []), w) == w;
  }

  /** The step of `RunPushes` whose first vertex is unexplored, and so searched. */
  lemma {:induction false} PushesVisit(adj: Adj, s: Progress, vs: seq<int>, explored0: set<int>)
    requires Closed(adj) && forall u :: u in vs ==> u in adj
    requires explored0 <= s.explored && s.finished <= s.explored && s.explored - explored0 <= s.finished
    requires vs != [] && vs[0] !in s.explored
    ensures Run(adj, s, Pushes(vs, explored0)) == Finish(s, VisitEach(adj, s.explored, vs))
    decreases |adj.Keys - s.explored|, 1, |vs|, 0
  {
    var x, rest := vs[0], vs[1..];
    assert vs == [x] + rest;
    assert forall u :: u in rest ==> u in vs;
    VisitEachCons(adj, s.explored, x, rest);
    var t := Visit(adj, s.explored, x);
    var below := Pushes(rest, explored0);
    RunConcat(adj, s, below, [x]);
    RunVisit(adj, s, x);
    RemainderMonotone(adj.Keys, s.explored, t.explored);
    RunPushes(adj, Finish(s, t), rest, explored0);
    FinishThen(s, t, VisitEach(adj, t.explored, rest));
  }
}
