/**
 * Kosaraju's second pass and the correctness of the two passes together: the
 * second pass searches the graph by outgoing edges, taking start vertices in
 * the reverse of the first pass's finishing order, and the first pass searched
 * the transposed graph. Every search labels the vertices it enters with its
 * start vertex, and two vertices end up with the same label exactly when they
 * reach each other.
 */
module Scc {
  import opened Ordered
  import opened Search

  /**
   * The second pass's record: the explored set, each group's member list in
   * entry order, each group's size, and each vertex's group.
   */
  datatype Labels = Labels(explored: set<int>, members: map<int, seq<int>>, counts: map<int, int>, group: map<int, int>)

  /** `m` with every key of `keys` mapped to `g`. */
  function Assign(m: map<int, int>, keys: set<int>, g: int): (r: map<int, int>)
    ensures r.Keys == m.Keys + keys
    ensures forall x :: x in r ==> r[x] == if x in keys then g else m[x]
  {
    map x | x in m.Keys + keys :: if x in keys then g else m[x]
  }

  /**
   * The search from `v` on behalf of group `start`: every vertex it enters is
   * appended to `start`'s member list and assigned to `start`, and `start`'s
   * size becomes the length of its list.
   */
  function Label(adj: Adj, s: Labels, v: int, start: int): Labels
    requires Closed(adj) && v in adj
  {
    var w := Visit(adj, s.explored, v);
    Mark(s, w.explored, w.pre, start)
  }

  /**
   * The record once the vertices `entered` have been entered on behalf of
   * group `start`, leaving `explored` explored: they are appended to
   * `start`'s member list and assigned to `start`, and `start`'s size is the
   * length of its list.
   */
  function Mark(s: Labels, explored: set<int>, entered: seq<int>, start: int): (r: Labels)
    ensures r.explored == explored && start in r.members && start in r.counts
    ensures r.members == s.members[start := r.members[start]] && r.counts == s.counts[start := |r.members[start]|]
    ensures r.members[start] == (if start in s.members then s.members[start] else []) + entered
    ensures forall x :: x in r.group <==> x in s.group || x in entered
    ensures forall x :: x in r.group ==> r.group[x] == if x in entered then start else s.group[x]
  {
    var list := (if start in s.members then s.members[start] else []) + entered;
    Labels(explored, s.members[start := list], s.counts[start := |list|], Assign(s.group, Elems(entered), start))
  }

  /** Entering two runs of vertices on behalf of one group in turn is entering them together. */
  lemma MarkTwice(s: Labels, e1: set<int>, p1: seq<int>, e2: set<int>, p2: seq<int>, start: int)
    ensures Mark(Mark(s, e1, p1, start), e2, p2, start) == Mark(s, e2, p1 + p2, start)
  {
    var a := Mark(Mark(s, e1, p1, start), e2, p2, start);
    var b := Mark(s, e2, p1 + p2, start);
    assert a.members[start] == b.members[start];
    ElemsConcat(p1, p2);
    AssignTwice(s.group, Elems(p1), Elems(p2), start);
  }

  lemma AssignTwice(m: map<int, int>, k1: set<int>, k2: set<int>, g: int)
    ensures Assign(Assign(m, k1, g), k2, g) == Assign(m, k1 + k2, g)
  {
  }

  /** The second pass over `vs`: a search on its own behalf from each vertex still unexplored when its turn comes. */
  function LabelEach(adj: Adj, s: Labels, vs: seq<int>): Labels
    requires Closed(adj) && forall u :: u in vs ==> u in adj
  {
    if vs == [] then s
    else
      var t := LabelEach(adj, s, vs[..|vs| - 1]);
      var v := vs[|vs| - 1];
      if v in t.explored then t else Label(adj, t, v, v)
  }

  /** Every arc of `g` is an arc of `h` turned around, and the other way round. */
  ghost predicate Transposed(g: Adj, h: Adj)
  {
    g.Keys == h.Keys && forall a, b :: Arc(g, a, b) <==> Arc(h, b, a)
  }

  lemma TransposedSym(g: Adj, h: Adj)
    requires Transposed(g, h)
    ensures Transposed(h, g)
  {
  }

  /** A path of `g` read backwards is a path of its transpose. */
  lemma ReachTranspose(g: Adj, h: Adj, u: int, v: int)
    requires Transposed(g, h) && Reach(g, u, v)
    ensures Reach(h, v, u)
  {
    var p :| IsPath(g, p) && p[0] == u && p[|p| - 1] == v;
    var q := Reverse(p);
    forall i | 0 <= i < |q| - 1 ensures Arc(h, q[i], q[i + 1]) {
      assert q[i] == p[|p| - 1 - i] && q[i + 1] == p[|p| - 2 - i];
      assert Arc(g, p[|p| - 2 - i], p[|p| - 1 - i]);
    }
    assert IsPath(h, q);
  }

  lemma MutualTranspose(g: Adj, h: Adj, u: int, v: int)
    requires Transposed(g, h) && Mutual(h, u, v)
    ensures Mutual(g, u, v)
  {
    TransposedSym(g, h);
    ReachTranspose(h, g, u, v);
    ReachTranspose(h, g, v, u);
  }

  /**
   * The finishing-order property of `order` over graph `h`: when `u` reaches
   * `v`, some vertex of `u`'s component is finished no earlier than `v`.
   */
  ghost predicate FinishOrder(h: Adj, order: seq<int>)
  {
    forall u, v {:trigger Outlasts(h, order, u, v)} :: Reach(h, u, v) ==> Outlasts(h, order, u, v)
  }

  /**
   * The first pass: searches from every vertex of `vs`, which lists all the
   * vertices, give a finishing order listing each vertex once, with the
   * finishing-order property.
   */
  lemma FirstPass(h: Adj, vs: seq<int>)
    requires Closed(h) && Elems(vs) == h.Keys
    ensures var order := VisitEach(h, {}, vs).post;
      NoDup(order) && Elems(order) == h.Keys && FinishOrder(h, order)
  {
    var w := VisitEach(h, {}, vs);
    VisitEachLists(h, {}, vs);
    VisitEachShut(h, {}, vs);
    forall u | u in h.Keys ensures u in w.explored {
      assert u in Elems(vs);
    }
    forall u, v | Reach(h, u, v) ensures Outlasts(h, w.post, u, v) {
      var p :| IsPath(h, p) && p[0] == u && p[|p| - 1] == v;
      VisitEachOutlasts(h, {}, vs, p);
    }
  }

  /** `x` and `y` are both explored and in one group. */
  ghost predicate SameGroup(s: Labels, x: int, y: int)
  {
    x in s.explored && y in s.explored && x in s.group && y in s.group && s.group[x] == s.group[y]
  }

  /** Each explored vertex is in the group of an explored vertex of its component. */
  ghost predicate GroupsWithin(adj: Adj, s: Labels)
  {
    forall x {:trigger Rooted(adj, s, x)} :: x in s.explored ==> Rooted(adj, s, x)
  }

  /** `x` is in the group of an explored vertex of its component. */
  ghost predicate Rooted(adj: Adj, s: Labels, x: int)
  {
    x in s.group && s.group[x] in s.explored && Mutual(adj, x, s.group[x])
  }

  /** The component of an explored vertex is explored, and in its group. */
  ghost predicate GroupsWhole(adj: Adj, s: Labels)
  {
    forall x, y :: x in s.explored && Mutual(adj, x, y) ==> SameGroup(s, x, y)
  }

  /** What the second pass keeps after the first `k` start vertices of `starts`. */
  ghost predicate Labelled(adj: Adj, starts: seq<int>, k: int, s: Labels)
  {
    && 0 <= k <= |starts|
    && s.explored <= adj.Keys && Shut(adj, s.explored, s.explored)
    && (forall i :: 0 <= i < k ==> starts[i] in s.explored)
    && GroupsWithin(adj, s)
    && GroupsWhole(adj, s)
  }

  /**
   * The heart of the second pass: a vertex `t` reached from the start
   * `r = order[m]` outside the explored set reaches `r` back, because every
   * vertex finished after `r` in the first pass is explored already.
   */
  lemma ReachesBack(g: Adj, h: Adj, order: seq<int>, m: int, s: Labels, t: int)
    requires Transposed(g, h) && FinishOrder(h, order) && NoDup(order)
    requires 0 <= m < |order| && GroupsWhole(g, s)
    requires forall i :: m < i < |order| ==> order[i] in s.explored
    requires order[m] !in s.explored && t !in s.explored
    requires Reach(g, order[m], t)
    ensures Reach(g, t, order[m])
  {
    var r := order[m];
    ReachTranspose(g, h, r, t);
    assert Outlasts(h, order, t, r);
    var j :| 0 <= j < |order| && Mutual(h, t, order[j]) && r in order[..j + 1];
    MutualTranspose(g, h, t, order[j]);
    OutsidePeer(g, s, t, order[j]);
    FinishedNoEarlier(order, m, j);
  }

  /** In a list without repeats, `order[m]` is among the first `j + 1` entries only when `m <= j`. */
  lemma FinishedNoEarlier(order: seq<int>, m: int, j: int)
    requires NoDup(order) && 0 <= m < |order| && 0 <= j < |order| && order[m] in order[..j + 1]
    ensures m <= j
  {
    var i :| 0 <= i <= j && order[..j + 1][i] == order[m];
    if i < m {
      NoDupAt(order, i, m);
    } else if m < i {
      NoDupAt(order, m, i);
    }
  }

  /** Under `GroupsWhole`, the component of an unexplored vertex is unexplored. */
  lemma OutsidePeer(g: Adj, s: Labels, x: int, y: int)
    requires GroupsWhole(g, s) && x !in s.explored && Mutual(g, x, y)
    ensures y !in s.explored
  {
    assert Mutual(g, y, x);
  }

  /** The component of the new start `r` lies within what the search from `r` explores. */
  lemma ComponentInside(g: Adj, x: set<int>, r: int, y: int)
    requires Closed(g) && r in g && r !in x && Shut(g, x, x)
    requires Reach(g, r, y) && y !in x
    ensures y in Visit(g, x, r).explored
  {
    var w := Visit(g, x, r);
    var t := w.explored - x;
    VisitShut(g, x, r);
    var p :| IsPath(g, p) && p[0] == r && p[|p| - 1] == y;
    forall i | 0 <= i < |p| ensures p[i] !in x {
      if p[i] in x {
        PathSuffix(g, p, i);
        assert Shut(g, x, {} + x);
        PathStays(g, x, {}, p[i..]);
        assert false;
      }
    }
    assert x + t == w.explored;
    PathStays(g, t, x, p);
  }

  /** One step of the second pass from an unexplored start keeps `Labelled`. */
  lemma LabelStep(g: Adj, h: Adj, order: seq<int>, k: int, s: Labels)
    requires Closed(g) && Transposed(g, h) && FinishOrder(h, order) && NoDup(order) && Elems(order) == g.Keys
    requires Labelled(g, Reverse(order), k, s) && k < |order|
    requires Reverse(order)[k] !in s.explored
    ensures Labelled(g, Reverse(order), k + 1, Label(g, s, Reverse(order)[k], Reverse(order)[k]))
  {
    StartComponent(g, h, order, k, s);
    LabelKeeps(g, Reverse(order), k, s);
  }

  /** The search from the `k`-th start of the second pass enters only the start's component. */
  lemma StartComponent(g: Adj, h: Adj, order: seq<int>, k: int, s: Labels)
    requires Closed(g) && Transposed(g, h) && FinishOrder(h, order) && NoDup(order) && Elems(order) == g.Keys
    requires 0 <= k < |order| && GroupsWhole(g, s)
    requires forall i :: 0 <= i < k ==> Reverse(order)[i] in s.explored
    requires Reverse(order)[k] !in s.explored
    ensures Reverse(order)[k] in g
    ensures forall t :: t in Visit(g, s.explored, Reverse(order)[k]).explored && t !in s.explored ==> Mutual(g, t, Reverse(order)[k])
  {
    var m := |order| - 1 - k;
    StartsLater(order, k, s);
    NewComponent(g, h, order, m, s, Reverse(order)[k]);
  }

  /**
   * The `k`-th start of the second pass is the vertex `m` places from the end
   * of the first pass's finishing order, and every vertex finished after it is
   * a start already taken.
   */
  lemma StartsLater(order: seq<int>, k: int, s: Labels)
    requires 0 <= k < |order| && forall i :: 0 <= i < k ==> Reverse(order)[i] in s.explored
    ensures Reverse(order)[k] == order[|order| - 1 - k] && order[|order| - 1 - k] in Elems(order)
    ensures forall i :: |order| - 1 - k < i < |order| ==> order[i] in s.explored
  {
    var m := |order| - 1 - k;
    ReverseAt(order, m);
    forall i | m < i < |order| ensures order[i] in s.explored {
      ReverseAt(order, i);
    }
  }

  /** A search from the start `starts[k]` that enters only its component keeps `Labelled`. */
  lemma LabelKeeps(g: Adj, starts: seq<int>, k: int, s: Labels)
    requires Closed(g) && Labelled(g, starts, k, s) && k < |starts| && starts[k] in g && starts[k] !in s.explored
    requires forall t :: t in Visit(g, s.explored, starts[k]).explored && t !in s.explored ==> Mutual(g, t, starts[k])
    ensures Labelled(g, starts, k + 1, Label(g, s, starts[k], starts[k]))
  {
    var r := starts[k];
    var x := s.explored;
    var w := Visit(g, x, r);
    var s' := Label(g, s, r, r);
    LabelFields(g, s, r);
    VisitLists(g, x, r);
    VisitShut(g, x, r);
    assert Elems(w.pre) == w.explored - x;
    GroupsWithinStep(g, s, r, w, Elems(w.pre), s');
    GroupsWholeStep(g, s, r, w, Elems(w.pre), s');
  }

  lemma LabelFields(g: Adj, s: Labels, r: int)
    requires Closed(g) && r in g
    ensures var w := Visit(g, s.explored, r);
      Label(g, s, r, r).explored == w.explored && Label(g, s, r, r).group == Assign(s.group, Elems(w.pre), r)
  {
  }

  /** What the search from the new start `order[m]` enters is its component. */
  lemma NewComponent(g: Adj, h: Adj, order: seq<int>, m: int, s: Labels, r: int)
    requires Closed(g) && Transposed(g, h) && FinishOrder(h, order) && NoDup(order)
    requires 0 <= m < |order| && r == order[m] && r in g && GroupsWhole(g, s)
    requires forall i :: m < i < |order| ==> order[i] in s.explored
    requires r !in s.explored
    ensures forall t :: t in Visit(g, s.explored, r).explored && t !in s.explored ==> Mutual(g, t, r)
  {
    ReachRefl(g, r);
    VisitReach(g, s.explored, r, r);
    forall t | t in Visit(g, s.explored, r).explored && t !in s.explored ensures Mutual(g, t, r) {
      ReachesBack(g, h, order, m, s, t);
    }
  }

  /** `GroupsWithin` after assigning the search's new vertices to `r`. */
  lemma GroupsWithinStep(g: Adj, s: Labels, r: int, w: Walk, d: set<int>, s': Labels)
    requires GroupsWithin(g, s) && s.explored <= w.explored && r in w.explored
    requires forall t :: t in w.explored && t !in s.explored ==> Mutual(g, t, r)
    requires d == w.explored - s.explored && s'.explored == w.explored && s'.group == Assign(s.group, d, r)
    ensures GroupsWithin(g, s')
  {
    forall x | x in s'.explored ensures Rooted(g, s', x) {
      if x in s.explored {
        assert Rooted(g, s, x);
      }
    }
  }

  /** `GroupsWhole` after assigning the search's new vertices to `r`. */
  lemma GroupsWholeStep(g: Adj, s: Labels, r: int, w: Walk, d: set<int>, s': Labels)
    requires Closed(g) && r in g && r !in s.explored && Shut(g, s.explored, s.explored)
    requires GroupsWhole(g, s) && w == Visit(g, s.explored, r)
    requires forall t :: t in w.explored && t !in s.explored ==> Mutual(g, t, r)
    requires d == w.explored - s.explored && s'.explored == w.explored && s'.group == Assign(s.group, d, r)
    ensures GroupsWhole(g, s')
  {
    forall x, y | x in s'.explored && Mutual(g, x, y) ensures SameGroup(s', x, y) {
      if x in s.explored {
        assert SameGroup(s, x, y);
      } else {
        OutsidePeer(g, s, x, y);
        MutualTrans(g, r, x, y);
        ComponentInside(g, s.explored, r, y);
      }
    }
  }

  /** The second pass's bookkeeping before any start: nothing is explored. */
  function Fresh(group: map<int, int>): (r: Labels)
    ensures r.explored == {} && r.members == map[] && r.counts == map[]
  {
    Labels({}, map[], map[], group)
  }

  /**
   * The second pass over the first `k` vertices of the reversed finishing
   * order keeps `Labelled`, whatever groups were recorded before it.
   */
  lemma {:induction false} SecondPass(g: Adj, h: Adj, order: seq<int>, k: int, group0: map<int, int>)
    requires Closed(g) && Transposed(g, h) && FinishOrder(h, order) && NoDup(order) && Elems(order) == g.Keys
    requires 0 <= k <= |order|
    ensures Labelled(g, Reverse(order), k, LabelEach(g, Fresh(group0), Reverse(order)[..k]))
  {
    var starts := Reverse(order);
    if k == 0 {
      assert starts[..0] == [];
    } else {
      SecondPass(g, h, order, k - 1, group0);
      var vs := starts[..k];
      PrefixDrop(starts, k);
      var t := LabelEach(g, Fresh(group0), starts[..k - 1]);
      var r := starts[k - 1];
      assert LabelEach(g, Fresh(group0), vs) == if r in t.explored then t else Label(g, t, r, r);
      if r in t.explored {
        LabelledSkip(g, starts, k - 1, t);
      } else {
        LabelStep(g, h, order, k - 1, t);
      }
    }
  }

  /** A start explored before its turn adds nothing. */
  lemma LabelledSkip(g: Adj, starts: seq<int>, k: int, s: Labels)
    requires Labelled(g, starts, k, s) && k < |starts| && starts[k] in s.explored
    ensures Labelled(g, starts, k + 1, s)
  {
  }

  /** The first pass's finishing order over the searches of the transpose `h` from each of `vs`. */
  function FinishingOrder(h: Adj, vs: seq<int>): (r: seq<int>)
    requires Closed(h) && Elems(vs) == h.Keys
    ensures NoDup(r) && Elems(r) == h.Keys
  {
    FirstPass(h, vs);
    VisitEach(h, {}, vs).post
  }

  /** Both passes: the second searches `g` from the reversed finishing order of the first. */
  function Components(g: Adj, h: Adj, vs: seq<int>, group0: map<int, int>): Labels
    requires Closed(g) && Closed(h) && g.Keys == h.Keys && Elems(vs) == h.Keys
  {
    LabelEach(g, Fresh(group0), Reverse(FinishingOrder(h, vs)))
  }

  /**
   * Kosaraju's theorem for the model: after the first pass over all vertices
   * `vs` of the transpose `h` and the second pass over `g` in reverse
   * finishing order, every vertex is explored and has a group, and two
   * vertices share a group exactly when each reaches the other in `g`.
   */
  lemma KosarajuTheorem(g: Adj, h: Adj, vs: seq<int>, group0: map<int, int>)
    requires Closed(g) && Closed(h) && Transposed(g, h) && Elems(vs) == h.Keys
    ensures var s := Components(g, h, vs, group0);
      && s.explored == g.Keys
      && (forall u :: u in g ==> u in s.group)
      && (forall u, v :: u in g && v in g ==> (s.group[u] == s.group[v] <==> Mutual(g, u, v)))
  {
    var order := FinishingOrder(h, vs);
    FirstPass(h, vs);
    SecondPass(g, h, order, |order|, group0);
    assert Reverse(order)[..|order|] == Reverse(order);
    var s := Components(g, h, vs, group0);
    AllLabelled(g, order, s);
    GroupsExact(g, s);
  }

  /** Once every start has had its turn, every vertex is explored. */
  lemma AllLabelled(g: Adj, order: seq<int>, s: Labels)
    requires Elems(order) == g.Keys && Labelled(g, Reverse(order), |order|, s)
    ensures s.explored == g.Keys
  {
    var starts := Reverse(order);
    forall u | u in g ensures u in s.explored {
      var i :| 0 <= i < |order| && order[i] == u;
      ReverseAt(order, i);
    }
  }

  /** With every vertex explored, groups are exactly the strongly connected components. */
  lemma GroupsExact(g: Adj, s: Labels)
    requires s.explored == g.Keys && GroupsWithin(g, s) && GroupsWhole(g, s)
    ensures forall u :: u in g ==> u in s.group
    ensures forall u, v :: u in g && v in g ==> (s.group[u] == s.group[v] <==> Mutual(g, u, v))
  {
    forall u | u in g ensures u in s.group {
      assert Rooted(g, s, u);
    }
    forall u, v | u in g && v in g && s.group[u] == s.group[v] ensures Mutual(g, u, v) {
      assert Rooted(g, s, u) && Rooted(g, s, v);
      Back(g, v, s.group[v]);
      MutualTrans(g, u, s.group[u], v);
    }
    forall u, v | u in g && v in g && Mutual(g, u, v) ensures s.group[u] == s.group[v] {
      assert SameGroup(s, u, v);
    }
  }

  lemma Back(g: Adj, u: int, v: int)
    requires Mutual(g, u, v)
    ensures Mutual(g, v, u)
  {
  }

  /**
   * The second pass's bookkeeping: the member lists and the sizes have the
   * same groups, all explored; each group's list names, once each, exactly
   * the explored vertices in that group, its size is the list's length, and
   * its start is in it; every explored vertex is in a listed group.
   */
  ghost predicate Books(s: Labels)
  {
    && s.members.Keys == s.counts.Keys
    && s.members.Keys <= s.explored
    && (forall c :: c in s.members ==> Listed(s, c))
    && (forall x :: x in s.explored ==> x in s.group && s.group[x] in s.members)
  }

  /** Group `c`'s list, size and start agree with the vertex-to-group map. */
  ghost predicate Listed(s: Labels, c: int)
  {
    && c in s.members && c in s.counts && c in s.group && s.group[c] == c
    && s.counts[c] == |s.members[c]| && NoDup(s.members[c])
    && forall x :: x in s.members[c] <==> x in s.explored && x in s.group && s.group[x] == c
  }

  /** A search on its own behalf from an unexplored vertex keeps the books. */
  lemma LabelBooks(adj: Adj, s: Labels, v: int)
    requires Closed(adj) && v in adj && v !in s.explored && Books(s)
    ensures Books(Label(adj, s, v, v))
  {
    var w := Visit(adj, s.explored, v);
    VisitLists(adj, s.explored, v);
    assert w.pre[0] == v;
    MarkBooks(s, w, v);
  }

  /** Entering, on behalf of a new group `v`, the vertices a walk lists keeps the books. */
  lemma MarkBooks(s: Labels, w: Walk, v: int)
    requires Books(s) && v !in s.explored && w.pre != [] && w.pre[0] == v && NoDup(w.pre)
    requires w.explored == s.explored + Elems(w.pre) && s.explored !! Elems(w.pre)
    ensures Books(Mark(s, w.explored, w.pre, v))
  {
    var s' := Mark(s, w.explored, w.pre, v);
    assert v in Elems(w.pre);
    assert v !in s.members && [] + w.pre == w.pre;
    assert s'.members == s.members[v := w.pre];
    assert s'.counts == s.counts[v := |w.pre|];
    forall c | c in s'.members ensures Listed(s', c) {
      if c == v {
        NewListed(s, w, v, s');
      } else {
        OldListed(s, w, v, c, s');
      }
    }
  }

  /** The new group's list is what the search entered. */
  lemma NewListed(s: Labels, w: Walk, v: int, s': Labels)
    requires Books(s) && v !in s.explored && v in Elems(w.pre) && NoDup(w.pre)
    requires w.explored == s.explored + Elems(w.pre) && s.explored !! Elems(w.pre)
    requires s'.explored == w.explored && s'.group == Assign(s.group, Elems(w.pre), v)
    requires v in s'.members && s'.members[v] == w.pre && v in s'.counts && s'.counts[v] == |w.pre|
    ensures Listed(s', v)
  {
  }

  /** An earlier group's list is untouched and still exact. */
  lemma OldListed(s: Labels, w: Walk, v: int, c: int, s': Labels)
    requires Books(s) && v !in s.explored && c in s.members && c != v
    requires w.explored == s.explored + Elems(w.pre) && s.explored !! Elems(w.pre)
    requires s'.explored == w.explored && s'.group == Assign(s.group, Elems(w.pre), v)
    requires c in s'.members && s'.members[c] == s.members[c] && c in s'.counts && s'.counts[c] == s.counts[c]
    ensures Listed(s', c)
  {
    assert Listed(s, c);
  }

  /** The whole second pass keeps the books. */
  lemma {:induction false} LabelEachBooks(adj: Adj, s: Labels, vs: seq<int>)
    requires Closed(adj) && (forall u :: u in vs ==> u in adj) && Books(s)
    ensures Books(LabelEach(adj, s, vs))
  {
    if vs != [] {
      var init := vs[..|vs| - 1];
      assert forall u :: u in init ==> u in vs;
      LabelEachBooks(adj, s, init);
      var t := LabelEach(adj, s, init);
      var v := vs[|vs| - 1];
      if v !in t.explored {
        LabelBooks(adj, t, v);
      }
    }
  }

  /** The sizes recorded for the groups `keys`, in that order. */
  function SizesAt(counts: map<int, int>, keys: seq<int>): (r: seq<int>)
    requires forall i :: 0 <= i < |keys| ==> keys[i] in counts
    ensures |r| == |keys| && forall i :: 0 <= i < |keys| ==> r[i] == counts[keys[i]]
  {
    if keys == [] then [] else [counts[keys[0]]] + SizesAt(counts, keys[1..])
  }

  /** Every group's size, by ascending start vertex. */
  function Sizes(counts: map<int, int>): (r: seq<int>)
    ensures |r| == |counts|
  {
    AscendingCard(counts.Keys);
    SizesAt(counts, Ascending(counts.Keys))
  }

  /** Every group's size is among the sizes. */
  lemma SizesCover(counts: map<int, int>)
    ensures forall c :: c in counts ==> counts[c] in Sizes(counts)
  {
    forall c | c in counts ensures counts[c] in Sizes(counts) {
      var ks := Ascending(counts.Keys);
      assert c in Elems(ks);
      var i :| 0 <= i < |ks| && ks[i] == c;
      assert Sizes(counts)[i] == counts[c];
    }
  }

  /** `r` lists the size of each group of `ks`, in that order, and `ks` names every group once. */
  predicate SizesBy(counts: map<int, int>, ks: seq<int>, r: seq<int>)
  {
    && |ks| == |r| && NoDup(ks) && Elems(ks) == counts.Keys
    && forall i :: 0 <= i < |ks| ==> ks[i] in counts && r[i] == counts[ks[i]]
  }

  /** The sizes are exactly the groups' sizes, one entry per group, in some order of the groups. */
  lemma SizesExact(counts: map<int, int>)
    ensures exists ks :: SizesBy(counts, ks, Sizes(counts))
  {
    var ks := Ascending(counts.Keys);
    AscendingIncreasing(counts.Keys);
    IncreasingNoDup(ks);
    assert forall i :: 0 <= i < |ks| ==> ks[i] in Elems(ks);
    assert SizesBy(counts, ks, Sizes(counts));
  }

  /** Under the books, the sizes add up to the number of explored vertices. */
  lemma SizesSum(s: Labels)
    ensures Books(s) ==> Sum(Sizes(s.counts)) == |s.explored|
  {
    if Books(s) {
      SizesTotal(s);
    }
  }

  function Sum(xs: seq<int>): int
  {
    if xs == [] then 0 else xs[0] + Sum(xs[1..])
  }

  /** The explored vertices whose group is one of `k`. */
  ghost function Part(s: Labels, k: set<int>): set<int>
  {
    set x | x in s.explored && x in s.group && s.group[x] in k
  }

  /** Under the books, the group sizes add up to the number of explored vertices. */
  lemma SizesTotal(s: Labels)
    requires Books(s)
    ensures Sum(Sizes(s.counts)) == |s.explored|
  {
    PartTotal(s, s.counts.Keys);
    PartAll(s);
  }

  lemma PartAll(s: Labels)
    requires Books(s)
    ensures Part(s, s.counts.Keys) == s.explored
  {
    forall x | x in s.explored ensures x in Part(s, s.counts.Keys) {
      assert s.group[x] in s.members;
    }
  }

  lemma {:induction false} PartTotal(s: Labels, k: set<int>)
    requires Books(s) && k <= s.counts.Keys
    ensures Sum(SizesAt(s.counts, Ascending(k))) == |Part(s, k)|
    decreases k
  {
    if k == {} {
      assert Part(s, k) == {};
    } else {
      var m := SetMin(k);
      var rest := Ascending(k - {m});
      assert Ascending(k) == [m] + rest;
      assert ([m] + rest)[1..] == rest;
      PartTotal(s, k - {m});
      PartSplit(s, k, m);
      NoDupCard(s.members[m]);
    }
  }

  /** The explored vertices of the groups `k` are those of `k - {m}` and, apart from them, `m`'s list. */
  lemma PartSplit(s: Labels, k: set<int>, m: int)
    requires Books(s) && m in k && m in s.members
    ensures Part(s, k) == Part(s, k - {m}) + Elems(s.members[m]) && Part(s, k - {m}) !! Elems(s.members[m])
    ensures NoDup(s.members[m]) && s.counts[m] == |s.members[m]|
  {
    assert Listed(s, m);
    var l := s.members[m];
    forall x ensures x in Part(s, k) <==> x in Part(s, k - {m}) || x in Elems(l) {
      assert x in Elems(l) <==> x in l;
    }
    forall x | x in Elems(l) ensures x !in Part(s, k - {m}) {
      assert x in l;
    }
  }

  /**
   * The bookkeeping of both passes: each group's list holds exactly the
   * component of its start, and the group sizes add up to the number of
   * vertices.
   */
  lemma KosarajuBooks(g: Adj, h: Adj, vs: seq<int>, group0: map<int, int>)
    requires Closed(g) && Closed(h) && Transposed(g, h) && Elems(vs) == h.Keys
    ensures var s := Components(g, h, vs, group0);
      && Books(s)
      && Sum(Sizes(s.counts)) == |g.Keys|
      && (forall c, x :: c in s.members ==> (x in s.members[c] <==> x in g && Mutual(g, x, c)))
  {
    var order := FinishingOrder(h, vs);
    var s := Components(g, h, vs, group0);
    LabelEachBooks(g, Fresh(group0), Reverse(order));
    KosarajuTheorem(g, h, vs, group0);
    SizesTotal(s);
    MembersExact(g, s);
  }

  /**
   * What both passes leave over `g`: every vertex explored and in a group,
   * groups exactly the strongly connected components, each group's list its
   * start's component, and the sizes adding up to the number of vertices.
   */
  ghost predicate Found(g: Adj, s: Labels)
  {
    && s.explored == g.Keys
    && (forall u :: u in g ==> u in s.group)
    && (forall u, v :: u in g && v in g ==> (s.group[u] == s.group[v] <==> Mutual(g, u, v)))
    && Books(s) && Sum(Sizes(s.counts)) == |g.Keys|
    && (forall c, x :: c in s.members ==> (x in s.members[c] <==> x in g && Mutual(g, x, c)))
  }

  /** Kosaraju's two passes find the strongly connected components. */
  lemma ComponentsFound(g: Adj, h: Adj, vs: seq<int>, group0: map<int, int>)
    requires Closed(g) && Closed(h) && Transposed(g, h) && Elems(vs) == h.Keys
    ensures Found(g, Components(g, h, vs, group0))
  {
    KosarajuTheorem(g, h, vs, group0);
    KosarajuBooks(g, h, vs, group0);
  }

  /** With groups exactly the components, each list is its start's component. */
  lemma MembersExact(g: Adj, s: Labels)
    requires Books(s) && s.explored == g.Keys
    requires forall u :: u in g ==> u in s.group
    requires forall u, v :: u in g && v in g ==> (s.group[u] == s.group[v] <==> Mutual(g, u, v))
    ensures forall c, x :: c in s.members ==> (x in s.members[c] <==> x in g && Mutual(g, x, c))
  {
    forall c, x | c in s.members ensures x in s.members[c] <==> x in g && Mutual(g, x, c) {
      assert Listed(s, c);
    }
  }

  /** Entering one vertex on behalf of `start`. */
  lemma MarkEnter(s: Labels, v: int, start: int)
    ensures var list := (if start in s.members then s.members[start] else []) + [v];
      Mark(s, s.explored + {v}, [v], start)
      == Labels(s.explored + {v}, s.members[start := list], s.counts[start := |list|], s.group[v := start])
  {
    assert Elems([v]) == {v};
  }

  /** The search from `v` for group `start` enters `v`, then searches from its successors. */
  lemma LabelEnter(adj: Adj, s: Labels, v: int, start: int)
    requires Closed(adj) && v in adj
    ensures var w := VisitEach(adj, s.explored + {v}, adj[v]);
      Label(adj, s, v, start) == Mark(s, w.explored, [v] + w.pre, start)
  {
  }

  /** Entering the walk `t` for group `start` after `p` and the walk `w`. */
  lemma MarkTurn(s: Labels, w: Walk, t: Walk, p: seq<int>, start: int)
    ensures Mark(Mark(s, w.explored, p + w.pre, start), t.explored, t.pre, start)
         == Mark(s, Then(w, t).explored, p + Then(w, t).pre, start)
  {
    MarkTwice(s, w.explored, p + w.pre, t.explored, t.pre, start);
    assert p + w.pre + t.pre == p + (w.pre + t.pre);
  }

  /** One more successor `vs[i]`, still unexplored, searched for group `start` after `p` and the earlier successors. */
  lemma LabelTurn(adj: Adj, s: Labels, explored: set<int>, vs: seq<int>, i: int, p: seq<int>, start: int)
    requires Closed(adj) && (forall u :: u in vs ==> u in adj) && 0 <= i < |vs|
    requires vs[i] !in VisitEach(adj, explored, vs[..i]).explored
    ensures var w := VisitEach(adj, explored, vs[..i]);
      var w' := VisitEach(adj, explored, vs[..i + 1]);
      Label(adj, Mark(s, w.explored, p + w.pre, start), vs[i], start) == Mark(s, w'.explored, p + w'.pre, start)
  {
    var w := VisitEach(adj, explored, vs[..i]);
    VisitEachStep(adj, explored, vs, i);
    MarkTurn(s, w, Visit(adj, w.explored, vs[i]), p, start);
  }

  /**
   * Entering `v` for group `start` from `s`, before any successor is
   * searched: `v` is explored, appended to `start`'s list and assigned to it.
   */
  lemma LabelOpen(adj: Adj, s: Labels, v: int, start: int)
    requires Closed(adj) && v in adj
    ensures var list := (if start in s.members then s.members[start] else []) + [v];
      var w := VisitEach(adj, s.explored + {v}, adj[v][..0]);
      Labels(s.explored + {v}, s.members[start := list], s.counts[start := |list|], s.group[v := start])
      == Mark(s, w.explored, [v] + w.pre, start)
  {
    MarkEnter(s, v, start);
    assert adj[v][..0] == [] && [v] + [] == [v];
  }

  /** Once every successor of `v` has had its turn, the search from `v` for group `start` is done. */
  lemma LabelClose(adj: Adj, s: Labels, v: int, start: int)
    requires Closed(adj) && v in adj
    ensures var w := VisitEach(adj, s.explored + {v}, adj[v][..|adj[v]|]);
      Mark(s, w.explored, [v] + w.pre, start) == Label(adj, s, v, start)
  {
    PrefixAll(adj[v]);
    LabelEnter(adj, s, v, start);
  }

  /** Entering `v` for group `start`: it is explored, appended to `start`'s list, assigned to `start`, and `start`'s size is the list's length. */
  function Enter(s: Labels, v: int, start: int): (r: Labels)
    ensures r.explored == s.explored + {v}
  {
    var list := (if start in s.members then s.members[start] else []) + [v];
    Labels(s.explored + {v}, s.members[start := list], s.counts[start := |list|], s.group[v := start])
  }

  /**
   * The second pass's search from `v` for group `start` as the engine runs
   * it: enter `v`, then scan its successors in order, searching from each one
   * still unexplored when its turn comes.
   */
  function Outgoing(adj: Adj, s: Labels, v: int, start: int): (r: Labels)
    requires Closed(adj) && v in adj
    ensures s.explored + {v} <= r.explored
    decreases adj.Keys - s.explored, if v in s.explored then 2 else 0, 0
  {
    Scan(adj, Enter(s, v, start), v, start, |adj[v]|)
  }

  /** The first `i` successors of `v` scanned, from `s`, for group `start`. */
  function Scan(adj: Adj, s: Labels, v: int, start: int, i: int): (r: Labels)
    requires Closed(adj) && v in adj && 0 <= i <= |adj[v]|
    ensures s.explored <= r.explored
    decreases adj.Keys - s.explored, 1, i
  {
    if i == 0 then s
    else
      var p := Scan(adj, s, v, start, i - 1);
      var u := adj[v][i - 1];
      if u in p.explored then p else Outgoing(adj, p, u, start)
  }

  /** The engine's search labels exactly as the reference search `Label` does. */
  lemma {:induction false} OutgoingLabel(adj: Adj, s: Labels, v: int, start: int)
    requires Closed(adj) && v in adj
    ensures Outgoing(adj, s, v, start) == Label(adj, s, v, start)
    decreases adj.Keys - s.explored, if v in s.explored then 2 else 0, 0, 0
  {
    ScanLabel(adj, s, v, start, |adj[v]|);
    LabelClose(adj, s, v, start);
  }

  /** After `i` successors of `v`, the engine's scan has labelled what the reference search over them labels. */
  lemma {:induction false} ScanLabel(adj: Adj, s: Labels, v: int, start: int, i: int)
    requires Closed(adj) && v in adj && 0 <= i <= |adj[v]|
    ensures var w := VisitEach(adj, s.explored + {v}, adj[v][..i]);
      Scan(adj, Enter(s, v, start), v, start, i) == Mark(s, w.explored, [v] + w.pre, start)
    decreases adj.Keys - (s.explored + {v}), 1, i, 2
  {
    if i == 0 {
      LabelOpen(adj, s, v, start);
    } else {
      ScanNext(adj, s, v, start, i - 1);
    }
  }

  /** The inductive step of `ScanLabel`, from `i` successors scanned to `i + 1`. */
  lemma {:induction false} ScanNext(adj: Adj, s: Labels, v: int, start: int, i: int)
    requires Closed(adj) && v in adj && 0 <= i < |adj[v]|
    ensures var w := VisitEach(adj, s.explored + {v}, adj[v][..i + 1]);
      Scan(adj, Enter(s, v, start), v, start, i + 1) == Mark(s, w.explored, [v] + w.pre, start)
    decreases adj.Keys - (s.explored + {v}), 1, i + 1, 1
  {
    ScanLabel(adj, s, v, start, i);
    if adj[v][i] in Scan(adj, Enter(s, v, start), v, start, i).explored {
      ScanSkip(adj, s, v, start, i);
    } else {
      ScanSearch(adj, s, v, start, i);
    }
  }

  /** The step of `ScanLabel` past a successor that is explored already. */
  lemma ScanSkip(adj: Adj, s: Labels, v: int, start: int, i: int)
    requires Closed(adj) && v in adj && 0 <= i < |adj[v]|
    requires var w := VisitEach(adj, s.explored + {v}, adj[v][..i]);
      Scan(adj, Enter(s, v, start), v, start, i) == Mark(s, w.explored, [v] + w.pre, start)
    requires adj[v][i] in Scan(adj, Enter(s, v, start), v, start, i).explored
    ensures var w := VisitEach(adj, s.explored + {v}, adj[v][..i + 1]);
      Scan(adj, Enter(s, v, start), v, start, i + 1) == Mark(s, w.explored, [v] + w.pre, start)
  {
    ScanStep(adj, Enter(s, v, start), v, start, i);
    VisitEachStep(adj, s.explored + {v}, adj[v], i);
  }

  /** The step of `ScanLabel` that searches from a successor still unexplored. */
  lemma ScanSearch(adj: Adj, s: Labels, v: int, start: int, i: int)
    requires Closed(adj) && v in adj && 0 <= i < |adj[v]|
    requires var w := VisitEach(adj, s.explored + {v}, adj[v][..i]);
      Scan(adj, Enter(s, v, start), v, start, i) == Mark(s, w.explored, [v] + w.pre, start)
    requires adj[v][i] !in Scan(adj, Enter(s, v, start), v, start, i).explored
    ensures var w := VisitEach(adj, s.explored + {v}, adj[v][..i + 1]);
      Scan(adj, Enter(s, v, start), v, start, i + 1) == Mark(s, w.explored, [v] + w.pre, start)
    decreases adj.Keys - (s.explored + {v}), 1, i + 1, 0
  {
    OutgoingLabel(adj, Scan(adj, Enter(s, v, start), v, start, i), adj[v][i], start);
    ScanStep(adj, Enter(s, v, start), v, start, i);
    LabelTurn(adj, s, s.explored + {v}, adj[v], i, [v], start);
  }

  /** One more successor scanned: searched from if still unexplored, skipped otherwise. */
  lemma ScanStep(adj: Adj, s: Labels, v: int, start: int, i: int)
    requires Closed(adj) && v in adj && 0 <= i < |adj[v]|
    ensures var p := Scan(adj, s, v, start, i);
      Scan(adj, s, v, start, i + 1) == if adj[v][i] in p.explored then p else Outgoing(adj, p, adj[v][i], start)
  {
  }
}
