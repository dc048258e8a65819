/**
 * Depth-first search over a graph given as the successor list of each vertex,
 * scanned in list order, as Kosaraju's two passes run it: a vertex is explored
 * on entry, each successor not yet explored is searched in turn, and the vertex
 * is finished when its list is done.
 */
module Search {
  import opened Ordered

  /** Each vertex's successors, in the order the search scans them. */
  type Adj = map<int, seq<int>>

  /** Every successor is itself a vertex. */
  ghost predicate Closed(adj: Adj)
  {
    forall v, u :: v in adj && u in adj[v] ==> u in adj
  }

  /**
   * What a search leaves: the explored set, and the vertices it entered in
   * entry order (`pre`) and in finishing order (`post`).
   */
  datatype Walk = Walk(explored: set<int>, pre: seq<int>, post: seq<int>)

  /** `second` run after `first`: where `second` ends, and both lists in turn. */
  function Then(first: Walk, second: Walk): Walk
  {
    Walk(second.explored, first.pre + second.pre, first.post + second.post)
  }

  /**
   * The search from `v`: `v` is explored, each successor still unexplored when
   * its turn comes is searched, and `v` is finished last. An already explored
   * `v` is entered again, but only its unexplored successors are searched.
   */
  function Visit(adj: Adj, explored: set<int>, v: int): (r: Walk)
    requires Closed(adj) && v in adj
    ensures explored + {v} <= r.explored
    decreases |adj.Keys - explored|, if v in explored then 2 else 0, 0
  {
    RemainderShrinks(adj.Keys, explored, v);
    var w := VisitEach(adj, explored + {v}, adj[v]);
    Walk(w.explored, [v] + w.pre, w.post + [v])
  }

  /** The searches from each vertex of `vs` in turn that is still unexplored when its turn comes. */
  function VisitEach(adj: Adj, explored: set<int>, vs: seq<int>): (r: Walk)
    requires Closed(adj) && forall u :: u in vs ==> u in adj
    ensures explored <= r.explored
    decreases |adj.Keys - explored|, 1, |vs|
  {
    if vs == [] then Walk(explored, [], [])
    else
      var w := VisitEach(adj, explored, vs[..|vs| - 1]);
      var v := vs[|vs| - 1];
      if v in w.explored then w
      else
        RemainderMonotone(adj.Keys, explored, w.explored);
        Then(w, Visit(adj, w.explored, v))
  }

  /** One turn of `VisitEach`: the search from `v` if it is unexplored, nothing otherwise. */
  function Turn(adj: Adj, explored: set<int>, v: int): (r: Walk)
    requires Closed(adj) && v in adj
    ensures explored <= r.explored
  {
    if v in explored then Walk(explored, [], []) else Visit(adj, explored, v)
  }

  /** `VisitEach` read from the front: the first turn, then the rest from where it ends. */
  lemma {:induction false} VisitEachCons(adj: Adj, explored: set<int>, v: int, vs: seq<int>)
    requires Closed(adj) && v in adj && forall u :: u in vs ==> u in adj
    ensures VisitEach(adj, explored, [v] + vs)
         == Then(Turn(adj, explored, v), VisitEach(adj, Turn(adj, explored, v).explored, vs))
    decreases |vs|
  {
    var t := Turn(adj, explored, v);
    if vs == [] {
      assert ([v] + vs)[..0] == [];
      assert t.pre + [] == t.pre && t.post + [] == t.post;
    } else {
      var init := vs[..|vs| - 1];
      assert ([v] + vs)[..|[v] + vs| - 1] == [v] + init;
      VisitEachCons(adj, explored, v, init);
    }
  }

  /**
   * `w` explored, from `explored`, exactly the vertices it lists, each once in
   * each order, all of them vertices and none explored before.
   */
  ghost predicate Lists(adj: Adj, explored: set<int>, w: Walk)
  {
    && w.explored == explored + Elems(w.pre)
    && Elems(w.post) == Elems(w.pre)
    && NoDup(w.pre) && NoDup(w.post)
    && explored !! Elems(w.pre)
    && Elems(w.pre) <= adj.Keys
  }

  /** Entering `v` before a walk that lists its vertices from `explored + {v}`, and finishing `v` after it. */
  lemma ListsEnter(adj: Adj, explored: set<int>, v: int, w: Walk)
    requires v in adj && v !in explored && Lists(adj, explored + {v}, w)
    ensures Lists(adj, explored, Walk(w.explored, [v] + w.pre, w.post + [v]))
  {
    ElemsConcat([v], w.pre);
    ElemsConcat(w.post, [v]);
    assert Elems([v]) == {v};
    NoDupConcat([v], w.pre);
    NoDupConcat(w.post, [v]);
  }

  /** Two walks that each list their vertices list them together when run one after the other. */
  lemma ListsThen(adj: Adj, explored: set<int>, first: Walk, second: Walk)
    requires Lists(adj, explored, first) && Lists(adj, first.explored, second)
    ensures Lists(adj, explored, Then(first, second))
  {
    ElemsConcat(first.pre, second.pre);
    ElemsConcat(first.post, second.post);
    NoDupConcat(first.pre, second.pre);
    NoDupConcat(first.post, second.post);
  }

  /** A search from an unexplored `v` lists the vertices it explores, entering `v` first and finishing it last. */
  lemma {:induction false} VisitLists(adj: Adj, explored: set<int>, v: int)
    requires Closed(adj) && v in adj && v !in explored
    ensures Lists(adj, explored, Visit(adj, explored, v))
    ensures Visit(adj, explored, v).pre[0] == v
    ensures Visit(adj, explored, v).post[|Visit(adj, explored, v).post| - 1] == v
    decreases |adj.Keys - explored|, 0, 0, 0
  {
    RemainderShrinks(adj.Keys, explored, v);
    VisitEachLists(adj, explored + {v}, adj[v]);
    ListsEnter(adj, explored, v, VisitEach(adj, explored + {v}, adj[v]));
  }

  /** Searching from each vertex of a list in turn lists the vertices explored along the way. */
  lemma {:induction false} VisitEachLists(adj: Adj, explored: set<int>, vs: seq<int>)
    requires Closed(adj) && forall u :: u in vs ==> u in adj
    ensures Lists(adj, explored, VisitEach(adj, explored, vs))
    decreases |adj.Keys - explored|, 1, |vs|, 1
  {
    if vs == [] {
      assert Elems([]) == {};
    } else {
      var init := vs[..|vs| - 1];
      assert forall u :: u in init ==> u in vs;
      VisitEachLists(adj, explored, init);
      VisitEachListsLast(adj, explored, vs);
    }
  }

  /** The last turn of `VisitEachLists`. */
  lemma {:induction false} VisitEachListsLast(adj: Adj, explored: set<int>, vs: seq<int>)
    requires Closed(adj) && (forall u :: u in vs ==> u in adj) && vs != []
    requires Lists(adj, explored, VisitEach(adj, explored, vs[..|vs| - 1]))
    ensures Lists(adj, explored, VisitEach(adj, explored, vs))
    decreases |adj.Keys - explored|, 1, |vs|, 0
  {
    var w := VisitEach(adj, explored, vs[..|vs| - 1]);
    var v := vs[|vs| - 1];
    if v !in w.explored {
      RemainderMonotone(adj.Keys, explored, w.explored);
      var t := Visit(adj, w.explored, v);
      VisitLists(adj, w.explored, v);
      ListsThen(adj, explored, w, t);
      assert VisitEach(adj, explored, vs) == Then(w, t);
    }
  }

  /** Every successor of a vertex of `d` lies in `s`. */
  ghost predicate Shut(adj: Adj, d: set<int>, s: set<int>)
  {
    forall x, y :: x in d && x in adj && y in adj[x] ==> y in s
  }

  /** When a search from an unexplored `v` ends, every successor of a vertex it explored is explored. */
  lemma {:induction false} VisitShut(adj: Adj, explored: set<int>, v: int)
    requires Closed(adj) && v in adj && v !in explored
    ensures Shut(adj, Visit(adj, explored, v).explored - explored, Visit(adj, explored, v).explored)
    decreases |adj.Keys - explored|, 0, 0
  {
    RemainderShrinks(adj.Keys, explored, v);
    VisitEachShut(adj, explored + {v}, adj[v]);
  }

  /** When searches from each vertex of `vs` end, each of them is explored, and so is every successor of a vertex they explored. */
  lemma {:induction false} VisitEachShut(adj: Adj, explored: set<int>, vs: seq<int>)
    requires Closed(adj) && forall u :: u in vs ==> u in adj
    ensures forall u :: u in vs ==> u in VisitEach(adj, explored, vs).explored
    ensures Shut(adj, VisitEach(adj, explored, vs).explored - explored, VisitEach(adj, explored, vs).explored)
    decreases |adj.Keys - explored|, 1, |vs|
  {
    if vs != [] {
      var w := VisitEach(adj, explored, vs[..|vs| - 1]);
      VisitEachShut(adj, explored, vs[..|vs| - 1]);
      var v := vs[|vs| - 1];
      assert forall u :: u in vs ==> u in vs[..|vs| - 1] || u == v;
      if v !in w.explored {
        RemainderMonotone(adj.Keys, explored, w.explored);
        VisitShut(adj, w.explored, v);
      }
    }
  }

  /**
   * The search finishes in postorder: every successor of `v` that was
   * unexplored when `v` was entered is finished before `v`, which is last.
   */
  lemma VisitPostorder(adj: Adj, explored: set<int>, v: int)
    requires Closed(adj) && v in adj && v !in explored
    ensures var post := Visit(adj, explored, v).post;
      && post != [] && post[|post| - 1] == v
      && forall u :: u in adj[v] && u !in explored && u != v ==> u in post[..|post| - 1]
  {
    var c := VisitEach(adj, explored + {v}, adj[v]);
    var post := Visit(adj, explored, v).post;
    VisitEachShut(adj, explored + {v}, adj[v]);
    VisitEachLists(adj, explored + {v}, adj[v]);
    assert post[..|post| - 1] == c.post;
    forall u | u in adj[v] && u !in explored && u != v ensures u in c.post {
      assert u in Elems(c.pre);
    }
  }

  /** `b` is a successor of `a`. */
  predicate Arc(adj: Adj, a: int, b: int)
  {
    a in adj && b in adj[a]
  }

  /** `p` is a non-empty sequence of vertices, each but the last followed by one of its successors. */
  ghost predicate IsPath(adj: Adj, p: seq<int>)
  {
    && |p| >= 1
    && (forall i :: 0 <= i < |p| ==> p[i] in adj)
    && (forall i :: 0 <= i < |p| - 1 ==> Arc(adj, p[i], p[i + 1]))
  }

  /** Some path leads from `u` to `v`. */
  ghost predicate Reach(adj: Adj, u: int, v: int)
  {
    exists p :: IsPath(adj, p) && p[0] == u && p[|p| - 1] == v
  }

  /** `u` and `v` reach each other: they lie in one strongly connected component. */
  ghost predicate Mutual(adj: Adj, u: int, v: int)
  {
    Reach(adj, u, v) && Reach(adj, v, u)
  }

  /** No vertex of `p` lies in `s`. */
  ghost predicate Avoids(p: seq<int>, s: set<int>)
  {
    forall i :: 0 <= i < |p| ==> p[i] !in s
  }

  lemma ReachRefl(adj: Adj, u: int)
    requires u in adj
    ensures Reach(adj, u, u)
  {
    assert IsPath(adj, [u]);
  }

  /** A path followed by one more arc is a path. */
  lemma ReachExtend(adj: Adj, u: int, v: int, w: int)
    requires Closed(adj) && Reach(adj, u, v) && Arc(adj, v, w)
    ensures Reach(adj, u, w)
  {
    var p :| IsPath(adj, p) && p[0] == u && p[|p| - 1] == v;
    var q := p + [w];
    forall i | 0 <= i < |q| - 1 ensures Arc(adj, q[i], q[i + 1]) {
      if i < |p| - 1 {
        assert q[i] == p[i] && q[i + 1] == p[i + 1];
      }
    }
    assert IsPath(adj, q);
  }

  lemma ReachTrans(adj: Adj, u: int, v: int, w: int)
    requires Reach(adj, u, v) && Reach(adj, v, w)
    ensures Reach(adj, u, w)
  {
    var p :| IsPath(adj, p) && p[0] == u && p[|p| - 1] == v;
    var q :| IsPath(adj, q) && q[0] == v && q[|q| - 1] == w;
    var r := p + q[1..];
    forall i | 0 <= i < |r| ensures r[i] in adj {
      if i < |p| {
        assert r[i] == p[i];
      } else {
        assert r[i] == q[i - |p| + 1];
      }
    }
    forall i | 0 <= i < |r| - 1 ensures Arc(adj, r[i], r[i + 1]) {
      if i < |p| - 1 {
        assert r[i] == p[i] && r[i + 1] == p[i + 1];
      } else {
        assert r[i] == q[i - |p| + 1] && r[i + 1] == q[i - |p| + 2];
      }
    }
    assert IsPath(adj, r);
  }

  lemma MutualTrans(adj: Adj, u: int, v: int, w: int)
    requires Mutual(adj, u, v) && Mutual(adj, v, w)
    ensures Mutual(adj, u, w)
  {
    ReachTrans(adj, u, v, w);
    ReachTrans(adj, w, v, u);
  }

  /** The part of a path up to its `i`-th vertex leads there from its start. */
  lemma PathPrefix(adj: Adj, p: seq<int>, i: int)
    requires IsPath(adj, p) && 0 <= i < |p|
    ensures IsPath(adj, p[..i + 1]) && Reach(adj, p[0], p[i])
  {
    var q := p[..i + 1];
    forall k | 0 <= k < |q| - 1 ensures Arc(adj, q[k], q[k + 1]) {
      assert q[k] == p[k] && q[k + 1] == p[k + 1];
    }
    assert IsPath(adj, q);
  }

  /** The part of a path from its `i`-th vertex on is a path. */
  lemma PathSuffix(adj: Adj, p: seq<int>, i: int)
    requires IsPath(adj, p) && 0 <= i < |p|
    ensures IsPath(adj, p[i..])
  {
    var q := p[i..];
    forall k | 0 <= k < |q| - 1 ensures Arc(adj, q[k], q[k + 1]) {
      assert q[k] == p[i + k] && q[k + 1] == p[i + k + 1];
    }
  }

  /**
   * A path that starts in `d` and avoids `e` stays in `d` when every successor
   * of a vertex of `d` lies in `e` or `d`.
   */
  lemma {:induction false} PathStays(adj: Adj, d: set<int>, e: set<int>, p: seq<int>)
    requires Shut(adj, d, e + d) && IsPath(adj, p) && Avoids(p, e) && p[0] in d
    ensures forall i :: 0 <= i < |p| ==> p[i] in d
    ensures p[|p| - 1] in d
    decreases |p|
  {
    if |p| > 1 {
      var q := p[..|p| - 1];
      PathPrefix(adj, p, |p| - 2);
      assert forall i :: 0 <= i < |q| ==> q[i] == p[i];
      PathStays(adj, d, e, q);
      forall i | 0 <= i < |p| ensures p[i] in d {
        if i < |p| - 1 {
          assert p[i] == q[i];
        } else {
          assert p[i - 1] == q[i - 1] && Arc(adj, p[i - 1], p[i]);
          assert p[i] in e + d && p[i] !in e;
        }
      }
    }
  }

  /** Every vertex a search from `v` newly explores is reachable from whatever reaches `v`. */
  lemma {:induction false} VisitReach(adj: Adj, explored: set<int>, v: int, root: int)
    requires Closed(adj) && v in adj && v !in explored && Reach(adj, root, v)
    ensures forall t :: t in Visit(adj, explored, v).explored && t !in explored ==> Reach(adj, root, t)
    decreases |adj.Keys - explored|, 0, 0
  {
    RemainderShrinks(adj.Keys, explored, v);
    forall u | u in adj[v] ensures Reach(adj, root, u) {
      ReachExtend(adj, root, v, u);
    }
    VisitEachReach(adj, explored + {v}, adj[v], root);
  }

  /** Every vertex the searches from `vs` newly explore is reachable from whatever reaches all of `vs`. */
  lemma {:induction false} VisitEachReach(adj: Adj, explored: set<int>, vs: seq<int>, root: int)
    requires Closed(adj) && forall u :: u in vs ==> u in adj && Reach(adj, root, u)
    ensures forall t :: t in VisitEach(adj, explored, vs).explored && t !in explored ==> Reach(adj, root, t)
    decreases |adj.Keys - explored|, 1, |vs|
  {
    if vs != [] {
      var w := VisitEach(adj, explored, vs[..|vs| - 1]);
      VisitEachReach(adj, explored, vs[..|vs| - 1], root);
      var v := vs[|vs| - 1];
      if v !in w.explored {
        RemainderMonotone(adj.Keys, explored, w.explored);
        VisitReach(adj, w.explored, v, root);
      }
    }
  }

  /** Some vertex mutually reachable with `u` is finished, in `post`, no earlier than `v`. */
  ghost predicate Outlasts(adj: Adj, post: seq<int>, u: int, v: int)
  {
    exists j :: 0 <= j < |post| && Mutual(adj, u, post[j]) && v in post[..j + 1]
  }


  lemma OutlastsAtEnd(adj: Adj, post: seq<int>, u: int, v: int)
    requires post != [] && v in post && Mutual(adj, u, post[|post| - 1])
    ensures Outlasts(adj, post, u, v)
  {
    assert post[..|post|] == post;
  }

  lemma OutlastsAppend(adj: Adj, a: seq<int>, b: seq<int>, u: int, v: int)
    requires Outlasts(adj, a, u, v)
    ensures Outlasts(adj, a + b, u, v)
  {
    var j :| 0 <= j < |a| && Mutual(adj, u, a[j]) && v in a[..j + 1];
    assert (a + b)[j] == a[j] && (a + b)[..j + 1] == a[..j + 1];
  }

  lemma OutlastsPrepend(adj: Adj, a: seq<int>, b: seq<int>, u: int, v: int)
    requires Outlasts(adj, b, u, v)
    ensures Outlasts(adj, a + b, u, v)
  {
    var j :| 0 <= j < |b| && Mutual(adj, u, b[j]) && v in b[..j + 1];
    assert (a + b)[|a| + j] == b[j] && (a + b)[..|a| + j + 1] == a + b[..j + 1];
  }

  /** `u` itself is finished no earlier than `v` when `v` is finished in an earlier part. */
  lemma OutlastsSelf(adj: Adj, a: seq<int>, b: seq<int>, u: int, v: int)
    requires v in a && u in b && u in adj
    ensures Outlasts(adj, a + b, u, v)
  {
    var j' :| 0 <= j' < |b| && b[j'] == u;
    ReachRefl(adj, u);
    assert (a + b)[|a| + j'] == u && (a + b)[..|a| + j' + 1] == a + b[..j' + 1];
  }

  /**
   * The finishing-order property of depth-first search: when a search from
   * `x` explores the start of a path that avoids what was explored before it,
   * some vertex in the strongly connected component of the path's start is
   * finished no earlier than the path's end.
   */
  lemma {:induction false} VisitOutlasts(adj: Adj, explored: set<int>, x: int, p: seq<int>)
    requires Closed(adj) && x in adj && x !in explored
    requires IsPath(adj, p) && Avoids(p, explored) && p[0] in Visit(adj, explored, x).explored
    ensures Outlasts(adj, Visit(adj, explored, x).post, p[0], p[|p| - 1])
    decreases |adj.Keys - explored|, 0, 0, 0
  {
    RemainderShrinks(adj.Keys, explored, x);
    var c := VisitEach(adj, explored + {x}, adj[x]);
    if i :| 0 <= i < |p| && p[i] == x {
      OutlastsRoot(adj, explored, x, p, i);
    } else {
      assert Avoids(p, explored + {x});
      VisitEachOutlasts(adj, explored + {x}, adj[x], p);
      OutlastsAppend(adj, c.post, [x], p[0], p[|p| - 1]);
    }
  }

  /** The case of `VisitOutlasts` where the path passes through `x`, which is finished last. */
  lemma OutlastsRoot(adj: Adj, explored: set<int>, x: int, p: seq<int>, i: int)
    requires Closed(adj) && x in adj && x !in explored
    requires IsPath(adj, p) && Avoids(p, explored) && p[0] in Visit(adj, explored, x).explored
    requires 0 <= i < |p| && p[i] == x
    ensures Outlasts(adj, Visit(adj, explored, x).post, p[0], p[|p| - 1])
  {
    var r := Visit(adj, explored, x);
    VisitLists(adj, explored, x);
    VisitShut(adj, explored, x);
    assert explored + (r.explored - explored) == r.explored;
    PathStays(adj, r.explored - explored, explored, p);
    assert p[|p| - 1] in Elems(r.post);
    PathPrefix(adj, p, i);
    ReachRefl(adj, x);
    VisitReach(adj, explored, x, x);
    OutlastsAtEnd(adj, r.post, p[0], p[|p| - 1]);
  }

  /** The finishing-order property for the searches from each vertex of `vs` in turn. */
  lemma {:induction false} VisitEachOutlasts(adj: Adj, explored: set<int>, vs: seq<int>, p: seq<int>)
    requires Closed(adj) && forall u :: u in vs ==> u in adj
    requires IsPath(adj, p) && Avoids(p, explored) && p[0] in VisitEach(adj, explored, vs).explored
    ensures Outlasts(adj, VisitEach(adj, explored, vs).post, p[0], p[|p| - 1])
    decreases |adj.Keys - explored|, 1, |vs|, 0
  {
    if vs == [] {
      assert false;
    } else {
      var init := vs[..|vs| - 1];
      var w := VisitEach(adj, explored, init);
      var x := vs[|vs| - 1];
      if x in w.explored {
        VisitEachOutlasts(adj, explored, init, p);
      } else {
        RemainderMonotone(adj.Keys, explored, w.explored);
        OutlastsThen(adj, explored, init, x, p);
      }
    }
  }

  /** The step of `VisitEachOutlasts` where the last vertex of the list is searched. */
  lemma {:induction false} OutlastsThen(adj: Adj, explored: set<int>, init: seq<int>, x: int, p: seq<int>)
    requires Closed(adj) && x in adj && forall u :: u in init ==> u in adj
    requires x !in VisitEach(adj, explored, init).explored
    requires IsPath(adj, p) && Avoids(p, explored)
    requires p[0] in Visit(adj, VisitEach(adj, explored, init).explored, x).explored
    ensures Outlasts(adj, VisitEach(adj, explored, init).post + Visit(adj, VisitEach(adj, explored, init).explored, x).post, p[0], p[|p| - 1])
    decreases |adj.Keys - explored|, 1, |init|, 1
  {
    var w := VisitEach(adj, explored, init);
    var w' := Visit(adj, w.explored, x);
    var u, v := p[0], p[|p| - 1];
    RemainderMonotone(adj.Keys, explored, w.explored);
    if u in w.explored {
      VisitEachOutlasts(adj, explored, init, p);
      OutlastsAppend(adj, w.post, w'.post, u, v);
    } else if v in w.explored {
      VisitEachLists(adj, explored, init);
      VisitLists(adj, w.explored, x);
      assert u in Elems(w'.post) && v in Elems(w.post);
      OutlastsSelf(adj, w.post, w'.post, u, v);
    } else {
      EscapesEarlier(adj, explored, init, p);
      VisitOutlasts(adj, w.explored, x, p);
      OutlastsPrepend(adj, w.post, w'.post, u, v);
    }
  }

  /** A path that avoids `explored` and ends outside what the searches from `vs` explored never enters it. */
  lemma EscapesEarlier(adj: Adj, explored: set<int>, vs: seq<int>, p: seq<int>)
    requires Closed(adj) && forall u :: u in vs ==> u in adj
    requires IsPath(adj, p) && Avoids(p, explored) && p[|p| - 1] !in VisitEach(adj, explored, vs).explored
    ensures Avoids(p, VisitEach(adj, explored, vs).explored)
  {
    var w := VisitEach(adj, explored, vs);
    VisitEachShut(adj, explored, vs);
    assert explored + (w.explored - explored) == w.explored;
    forall i | 0 <= i < |p| ensures p[i] !in w.explored {
      if p[i] in w.explored {
        PathSuffix(adj, p, i);
        PathStays(adj, w.explored - explored, explored, p[i..]);
        assert false;
      }
    }
  }

  /** `VisitEach` over one more vertex of `vs`: the prefix's walk, then the next turn. */
  lemma VisitEachStep(adj: Adj, explored: set<int>, vs: seq<int>, i: int)
    requires Closed(adj) && (forall u :: u in vs ==> u in adj) && 0 <= i < |vs|
    ensures var w := VisitEach(adj, explored, vs[..i]);
      vs[i] in w.explored ==> VisitEach(adj, explored, vs[..i + 1]) == w
    ensures var w := VisitEach(adj, explored, vs[..i]);
      vs[i] !in w.explored ==> VisitEach(adj, explored, vs[..i + 1]) == Then(w, Visit(adj, w.explored, vs[i]))
  {
    PrefixDrop(vs, i + 1);
  }
}
