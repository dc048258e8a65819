/**
 * Kosaraju's strongly-connected-component engine over a signed-literal
 * graph. It borrows the graph and only reads it; its state is the explored
 * and finished sets, the first pass's finishing order, each group's member
 * list and size, and each vertex's group. The first pass searches by
 * incoming edges, recursively or with an explicit stack; the second searches
 * by outgoing edges from the vertices in reverse finishing order and labels
 * every vertex with the vertex its search started from.
 */
module Kosaraju {
  import opened Wrappers
  import opened Ordered
  import opened DirGraph
  import opened Search
  import opened StackSearch
  import opened Scc
  import opened InPass

  /** The successors of `v` searched by outgoing edges: its edges' dests, by ascending edge id. */
  ghost function OutSucc(vm: map<int, Vertex>, em: map<int, Edge>, v: int): seq<int>
    requires ListsStored(vm, em) && v in vm
  {
    Dests(OutEdges(vm, em, v))
  }

  /** The successors of `v` searched by incoming edges: its edges' sources, by ascending edge id. */
  ghost function InSucc(vm: map<int, Vertex>, em: map<int, Edge>, v: int): seq<int>
    requires ListsStored(vm, em) && v in vm
  {
    Sources(InEdges(vm, em, v))
  }

  /** The graph searched by outgoing edges: each vertex with the dests of its outgoing edges. */
  ghost function OutGraph(vm: map<int, Vertex>, em: map<int, Edge>): (r: Adj)
    requires ListsStored(vm, em)
  {
    map v | v in vm :: OutSucc(vm, em, v)
  }

  /** `adj` is the graph searched by outgoing edges. */
  ghost predicate OutView(vm: map<int, Vertex>, em: map<int, Edge>, adj: Adj)
    requires ListsStored(vm, em)
  {
    adj.Keys == vm.Keys && forall v {:trigger OutSucc(vm, em, v)} :: v in vm ==> adj[v] == OutSucc(vm, em, v)
  }

  /** `adj` is the graph searched by incoming edges. */
  ghost predicate InView(vm: map<int, Vertex>, em: map<int, Edge>, adj: Adj)
    requires ListsStored(vm, em)
  {
    adj.Keys == vm.Keys && forall v {:trigger InSucc(vm, em, v)} :: v in vm ==> adj[v] == InSucc(vm, em, v)
  }

  /** Both searched views of a graph whose vertices list only stored edges; they name only vertices. */
  ghost predicate Views(vm: map<int, Vertex>, em: map<int, Edge>, out: Adj, inn: Adj)
  {
    ListsStored(vm, em) && OutView(vm, em, out) && InView(vm, em, inn) && Closed(out) && Closed(inn)
  }

  /** The two views exist, and name only vertices. */
  lemma ViewsOf(vm: map<int, Vertex>, em: map<int, Edge>) returns (out: Adj, inn: Adj)
    requires ListsStored(vm, em)
    ensures Views(vm, em, out, inn)
  {
    out := OutGraph(vm, em);
    inn := map v | v in vm :: InSucc(vm, em, v);
    assert OutView(vm, em, out) by {
      forall v | v in vm ensures out[v] == OutSucc(vm, em, v) { }
    }
    assert InView(vm, em, inn) by {
      forall v | v in vm ensures inn[v] == InSucc(vm, em, v) { }
    }
    forall v, u | v in out && u in out[v] ensures u in out {
      var edges := OutEdges(vm, em, v);
      var ids := vm[v].GetOutgoingEdgeIds();
      assert out[v] == OutSucc(vm, em, v);
      var i :| 0 <= i < |edges| && Dests(edges)[i] == u;
      assert ids[i] in Elems(ids);
      assert StoredFrom(vm, em, v, ids[i]);
    }
    forall v, u | v in inn && u in inn[v] ensures u in inn {
      var edges := InEdges(vm, em, v);
      var ids := vm[v].GetIncomingEdgeIds();
      assert inn[v] == InSucc(vm, em, v);
      var i :| 0 <= i < |edges| && Sources(edges)[i] == u;
      assert ids[i] in Elems(ids);
      assert StoredTo(vm, em, v, ids[i]);
    }
  }

  /** The outgoing view is the graph searched by outgoing edges. */
  lemma OutViewIs(vm: map<int, Vertex>, em: map<int, Edge>, adj: Adj)
    requires ListsStored(vm, em) && OutView(vm, em, adj)
    ensures adj == OutGraph(vm, em)
  {
    forall v | v in vm ensures adj[v] == OutGraph(vm, em)[v] {
      assert adj[v] == OutSucc(vm, em, v);
    }
  }

  /** The outgoing edges of `v` end, in turn, at `v`'s successors in the outgoing view, which are vertices. */
  lemma OutDests(vm: map<int, Vertex>, em: map<int, Edge>, out: Adj, inn: Adj, v: int)
    requires Views(vm, em, out, inn) && v in vm
    ensures |OutEdges(vm, em, v)| == |out[v]|
    ensures forall i :: 0 <= i < |out[v]| ==> OutEdges(vm, em, v)[i].dest == out[v][i] && out[v][i] in vm
  {
    assert out[v] == OutSucc(vm, em, v);
    forall i | 0 <= i < |out[v]| ensures out[v][i] in vm {
      assert out[v][i] in out[v];
    }
  }

  /** The incoming edges of `v` start, in turn, at `v`'s successors in the incoming view, which are vertices. */
  lemma InSources(vm: map<int, Vertex>, em: map<int, Edge>, out: Adj, inn: Adj, v: int)
    requires Views(vm, em, out, inn) && v in vm
    ensures |InEdges(vm, em, v)| == |inn[v]|
    ensures forall i :: 0 <= i < |inn[v]| ==> InEdges(vm, em, v)[i].source == inn[v][i] && inn[v][i] in vm
  {
    assert inn[v] == InSucc(vm, em, v);
    forall i | 0 <= i < |inn[v]| ensures inn[v][i] in vm {
      assert inn[v][i] in inn[v];
    }
  }

  /** The incoming view is the outgoing view with every edge turned around. */
  lemma ViewsTransposed(vm: map<int, Vertex>, em: map<int, Edge>, next: int, g: Adj, h: Adj)
    requires Consistent(vm, em, next) && Views(vm, em, g, h)
    ensures Transposed(g, h)
  {
    forall a, b ensures Arc(g, a, b) <==> Arc(h, b, a) {
      if a in vm {
        assert g[a] == OutSucc(vm, em, a);
        OutEdgesSpec(vm, em, next, a);
        DestsSpec(em, a, OutEdges(vm, em, a));
      }
      if b in vm {
        assert h[b] == InSucc(vm, em, b);
        InEdgesSpec(vm, em, next, b);
        SourcesSpec(em, b, InEdges(vm, em, b));
      }
      if Arc(g, a, b) {
        var e :| Runs(em, e, a, b);
        assert b in vm;
      }
      if Arc(h, b, a) {
        var e :| Runs(em, e, a, b);
        assert a in vm;
      }
    }
  }

  /**
   * The first pass over every vertex `vs` of `h`, from nothing explored and,
   * with the explicit stack, nothing finished: every vertex ends explored,
   * with the explicit stack finished too, and the finishing order is that of
   * the reference searches.
   */
  lemma FirstPassResult(h: Adj, iter: bool, f0: set<int>, vs: seq<int>)
    requires Closed(h) && Elems(vs) == h.Keys && (iter ==> f0 == {})
    ensures InEach(h, iter, Progress({}, f0, []), vs) == Progress(h.Keys, if iter then h.Keys else f0, FinishingOrder(h, vs))
  {
    var w := VisitEach(h, {}, vs);
    InEachVisitEach(h, iter, Progress({}, f0, []), vs);
    VisitEachLists(h, {}, vs);
    FirstPass(h, vs);
    assert [] + w.post == w.post;
  }

  /** The engine's state over one borrowed graph. */
  class Kosaraju {
    const graph: DirectedGraph
    var explored: set<int>
    var finished: set<int>
    var finishedOrder: seq<int>
    /** Each group's members, in the order its search entered them. */
    var startSearch: map<int, seq<int>>
    var vertexSccMap: map<int, int>
    /** Each group's size. */
    var topSearchCnts: map<int, int>
    /** Whether the first pass uses the explicit-stack search. */
    const useIter: bool
    /** The borrowed graph as searched by outgoing and by incoming edges. */
    ghost const out: Adj
    ghost const inn: Adj
    /** The borrowed graph's vertices and edges, which stay as they are while it is borrowed. */
    ghost const vm: map<int, Vertex>
    ghost const em: map<int, Edge>

    /** `new`: nothing explored, finished or grouped yet. */
    constructor (graph: DirectedGraph, useIter: bool)
      requires Consistent(graph.vertexMap, graph.edgeMap, graph.nextEdgeId)
      ensures vm == graph.vertexMap && em == graph.edgeMap && Views(vm, em, out, inn) && Transposed(out, inn)
      ensures this.graph == graph && this.useIter == useIter
      ensures explored == {} && finished == {} && finishedOrder == []
      ensures startSearch == map[] && vertexSccMap == map[] && topSearchCnts == map[]
    {
      this.graph := graph;
      this.useIter := useIter;
      explored := {};
      finished := {};
      finishedOrder := [];
      startSearch := map[];
      vertexSccMap := map[];
      topSearchCnts := map[];
      ghost var o, i := ViewsOf(graph.vertexMap, graph.edgeMap);
      ViewsTransposed(graph.vertexMap, graph.edgeMap, graph.nextEdgeId, o, i);
      out, inn := o, i;
      vm, em := graph.vertexMap, graph.edgeMap;
    }

    function IsExplored(v: int): (b: bool)
      reads this
      ensures b <==> v in explored
    {
      v in explored
    }

    method MarkExplored(v: int)
      modifies this`explored
      ensures explored == old(explored) + {v}
    {
      explored := explored + {v};
    }

    function IsFinished(v: int): (b: bool)
      reads this
      ensures b <==> v in finished
    {
      v in finished
    }

    method MarkFinished(v: int)
      modifies this`finished
      ensures finished == old(finished) + {v}
    {
      finished := finished + {v};
    }

    method SetGroup(v: int, group: int)
      modifies this`vertexSccMap
      ensures vertexSccMap == old(vertexSccMap)[v := group]
    {
      vertexSccMap := vertexSccMap[v := group];
    }

    /** `get_group`: the group of `v`, if it has one. */
    function GetGroup(v: int): (r: Option<int>)
      reads this
      ensures r.Some? <==> v in vertexSccMap
      ensures r.Some? ==> r.value == vertexSccMap[v]
    {
      Get(vertexSccMap, v)
    }

    /** `add_search_entry`: records the size of a group. */
    method AddSearchEntry(vertex: int, count: int)
      modifies this`topSearchCnts
      ensures topSearchCnts == old(topSearchCnts)[vertex := count]
    {
      topSearchCnts := topSearchCnts[vertex := count];
    }

    /** Marks `v` explored and appends it to the group of the search started at `start`. */
    method JoinSearch(v: int, start: int)
      modifies this`explored, this`startSearch, this`topSearchCnts, this`vertexSccMap
      ensures Labels(explored, startSearch, topSearchCnts, vertexSccMap) == Enter(old(Labels(explored, startSearch, topSearchCnts, vertexSccMap)), v, start)
    {
      explored := explored + {v};
      var list := (if start in startSearch then startSearch[start] else []) + [v];
      startSearch := startSearch[start := list];
      AddSearchEntry(start, |list|);
      SetGroup(v, start);
    }

    /**
     * `dfs_outgoing`: the second pass's search from `v` on behalf of group
     * `start`, entering `v` even when it is already explored. It labels
     * exactly as the reference search `Label` does.
     */
    method DfsOutgoing(v: int, start: int)
      requires graph.vertexMap == vm && graph.edgeMap == em
      requires Views(vm, em, out, inn) && v in vm
      modifies this`explored, this`startSearch, this`topSearchCnts, this`vertexSccMap
      ensures Labels(explored, startSearch, topSearchCnts, vertexSccMap) == Outgoing(out, old(Labels(explored, startSearch, topSearchCnts, vertexSccMap)), v, start)
      ensures Labels(explored, startSearch, topSearchCnts, vertexSccMap) == Label(out, old(Labels(explored, startSearch, topSearchCnts, vertexSccMap)), v, start)
      decreases |vm.Keys - explored|, if v in explored then 3 else 1
    {
      var edges := graph.GetOutgoingEdges(v);
      OutDests(vm, em, out, inn, v);
      RemainderShrinks(vm.Keys, explored, v);
      JoinSearch(v, start);
      ScanEdges(v, start, edges);
      OutgoingLabel(out, old(Labels(explored, startSearch, topSearchCnts, vertexSccMap)), v, start);
    }

    /**
     * The loop of `dfs_outgoing` over the outgoing edges of `v`: a search
     * from each edge's dest that is still unexplored when its turn comes.
     */
    method ScanEdges(v: int, start: int, edges: seq<Edge>)
      requires graph.vertexMap == vm && graph.edgeMap == em
      requires Views(vm, em, out, inn) && v in vm
      requires |edges| == |out[v]| && forall i :: 0 <= i < |out[v]| ==> edges[i].dest == out[v][i] && out[v][i] in vm
      modifies this`explored, this`startSearch, this`topSearchCnts, this`vertexSccMap
      ensures Labels(explored, startSearch, topSearchCnts, vertexSccMap) == Scan(out, old(Labels(explored, startSearch, topSearchCnts, vertexSccMap)), v, start, |edges|)
      decreases |vm.Keys - explored|, 2
    {
      ghost var l0 := Labels(explored, startSearch, topSearchCnts, vertexSccMap);
      for i := 0 to |edges|
        invariant Labels(explored, startSearch, topSearchCnts, vertexSccMap) == Scan(out, l0, v, start, i)
      {
        var u := edges[i].dest;
        ScanStep(out, l0, v, start, i);
        if !IsExplored(u) {
          RemainderMonotone(vm.Keys, old(explored), explored);
          DfsOutgoing(u, start);
        }
      }
    }

    /**
     * `dfs_incoming`: the first pass's search from `v`, handed to the
     * explicit-stack search or to the recursive one by the engine's flag.
     */
    method DfsIncoming(v: int)
      requires graph.vertexMap == vm && graph.edgeMap == em
      requires Views(vm, em, out, inn) && v in vm
      modifies this`explored, this`finished, this`finishedOrder
      ensures Progress(explored, finished, finishedOrder) == InSearch(inn, useIter, old(Progress(explored, finished, finishedOrder)), v)
      decreases |vm.Keys - explored|, if v in explored then 4 else 1
    {
      if useIter {
        DfsInIter(v);
      } else {
        DfsIn(v);
      }
    }

    /**
     * `dfs_in`: explores `v`, searches from each source of its incoming edges
     * still unexplored when its turn comes, and then appends `v` to the
     * finishing order, without marking it finished.
     */
    method DfsIn(v: int)
      requires graph.vertexMap == vm && graph.edgeMap == em
      requires Views(vm, em, out, inn) && v in vm
      modifies this`explored, this`finished, this`finishedOrder
      ensures Progress(explored, finished, finishedOrder) == InFrom(inn, useIter, old(Progress(explored, finished, finishedOrder)), v)
      decreases |vm.Keys - explored|, if v in explored then 3 else 0
    {
      RemainderShrinks(vm.Keys, explored, v);
      explored := explored + {v};
      var edges := graph.GetIncomingEdges(v);
      InSources(vm, em, out, inn, v);
      ScanSources(v, edges);
      finishedOrder := finishedOrder + [v];
    }

    /** The loop of `dfs_in` over the incoming edges of `v`. */
    method ScanSources(v: int, edges: seq<Edge>)
      requires graph.vertexMap == vm && graph.edgeMap == em
      requires Views(vm, em, out, inn) && v in vm
      requires |edges| == |inn[v]| && forall i :: 0 <= i < |inn[v]| ==> edges[i].source == inn[v][i] && inn[v][i] in vm
      modifies this`explored, this`finished, this`finishedOrder
      ensures Progress(explored, finished, finishedOrder) == InScan(inn, useIter, old(Progress(explored, finished, finishedOrder)), v, |edges|)
      decreases |vm.Keys - explored|, 2
    {
      ghost var p0 := Progress(explored, finished, finishedOrder);
      for i := 0 to |edges|
        invariant Progress(explored, finished, finishedOrder) == InScan(inn, useIter, p0, v, i)
      {
        var u := edges[i].source;
        if !IsExplored(u) {
          RemainderMonotone(vm.Keys, old(explored), explored);
          DfsIncoming(u);
        }
      }
    }

    /**
     * `dfs_in_iter`: the first pass's search from `v` with an explicit stack,
     * run until the stack is empty. It does what the stack search `Run`
     * does, and so, from an unexplored `v` with every finished vertex
     * explored, what the recursive search does.
     */
    method DfsInIter(v: int)
      requires graph.vertexMap == vm && graph.edgeMap == em
      requires Views(vm, em, out, inn) && v in vm
      modifies this`explored, this`finished, this`finishedOrder
      ensures Progress(explored, finished, finishedOrder) == Run(inn, old(Progress(explored, finished, finishedOrder)), [v])
    {
      var stack := [v];
      while stack != []
        invariant forall u :: u in stack ==> u in vm
        invariant Run(inn, Progress(explored, finished, finishedOrder), stack) == Run(inn, old(Progress(explored, finished, finishedOrder)), [v])
        decreases |vm.Keys - explored|, |stack|
      {
        var cur := stack[|stack| - 1];
        if IsExplored(cur) {
          stack := stack[..|stack| - 1];
          if !IsFinished(cur) {
            finishedOrder := finishedOrder + [cur];
            MarkFinished(cur);
          }
        } else {
          RemainderShrinks(vm.Keys, explored, cur);
          explored := explored + {cur};
          var edges := graph.GetIncomingEdges(cur);
          InSources(vm, em, out, inn, cur);
          var pushed := PushSources(cur, edges);
          stack := stack + pushed;
        }
      }
    }

    /**
     * The inner loop of `dfs_in_iter`: the sources of the incoming edges of
     * `v` not yet explored, scanned from the last edge to the first, so that
     * the first ends on top of the stack.
     */
    method PushSources(v: int, edges: seq<Edge>) returns (pushed: seq<int>)
      requires Views(vm, em, out, inn) && v in vm
      requires |edges| == |inn[v]| && forall i :: 0 <= i < |inn[v]| ==> edges[i].source == inn[v][i] && inn[v][i] in vm
      ensures pushed == Pushes(inn[v], explored)
      ensures forall u :: u in pushed ==> u in vm
    {
      pushed := [];
      var j := |edges|;
      while j > 0
        invariant 0 <= j <= |edges|
        invariant pushed == Pushes(inn[v][j..], explored)
      {
        j := j - 1;
        var u := edges[j].source;
        PushesFront(inn[v], explored, j);
        if !IsExplored(u) {
          pushed := pushed + [u];
        }
      }
      assert inn[v][0..] == inn[v];
      forall u | u in pushed ensures u in vm {
        var k :| 0 <= k < |inn[v]| && inn[v][k] == u;
      }
    }

    /**
     * `dfs_loop_incoming`: forgets the finishing order, the explored set and
     * the groups' lists and sizes, but not the finished set, then runs the
     * first pass's search from each vertex of `list` still unexplored when its
     * turn comes.
     */
    method DfsLoopIncoming(list: seq<int>)
      requires graph.vertexMap == vm && graph.edgeMap == em
      requires Views(vm, em, out, inn) && forall u :: u in list ==> u in vm
      modifies this`explored, this`finished, this`finishedOrder, this`startSearch, this`topSearchCnts
      ensures startSearch == map[] && topSearchCnts == map[]
      ensures Progress(explored, finished, finishedOrder) == InEach(inn, useIter, Progress({}, old(finished), []), list)
    {
      finishedOrder := [];
      startSearch := map[];
      explored := {};
      topSearchCnts := map[];
      ghost var p0 := Progress(explored, finished, finishedOrder);
      for i := 0 to |list|
        invariant startSearch == map[] && topSearchCnts == map[]
        invariant Progress(explored, finished, finishedOrder) == InEach(inn, useIter, p0, list[..i])
      {
        var v := list[i];
        assert list[..i + 1][..i] == list[..i];
        if !IsExplored(v) {
          DfsIncoming(v);
        }
      }
      assert list[..|list|] == list;
    }

    /**
     * `dfs_loop_outgoing`: forgets the explored set and the groups' lists and
     * sizes, but not the vertices' groups, then runs the second pass's search
     * on its own behalf from each vertex of `list` still unexplored when its
     * turn comes.
     */
    method DfsLoopOutgoing(list: seq<int>)
      requires graph.vertexMap == vm && graph.edgeMap == em
      requires Views(vm, em, out, inn) && forall u :: u in list ==> u in vm
      modifies this`explored, this`startSearch, this`topSearchCnts, this`vertexSccMap
      ensures Labels(explored, startSearch, topSearchCnts, vertexSccMap) == LabelEach(out, Fresh(old(vertexSccMap)), list)
    {
      startSearch := map[];
      explored := {};
      topSearchCnts := map[];
      ghost var l0 := Labels(explored, startSearch, topSearchCnts, vertexSccMap);
      for i := 0 to |list|
        invariant Labels(explored, startSearch, topSearchCnts, vertexSccMap) == LabelEach(out, l0, list[..i])
      {
        var v := list[i];
        assert list[..i + 1][..i] == list[..i];
        if !IsExplored(v) {
          DfsOutgoing(v, v);
        }
      }
      assert list[..|list|] == list;
    }

    /**
     * `find_scc`: the first pass over every vertex by ascending id, then the
     * second pass in reverse finishing order. The result is the reference
     * two-pass search `Components`, whose groups are the strongly connected
     * components (`ComponentsFound`).
     */
    method FindScc()
      requires graph.vertexMap == vm && graph.edgeMap == em
      requires Views(vm, em, out, inn) && (useIter ==> finished == {})
      modifies this`explored, this`finished, this`finishedOrder, this`startSearch, this`topSearchCnts, this`vertexSccMap
      ensures finishedOrder == FinishingOrder(inn, Ascending(vm.Keys))
      ensures finished == if useIter then vm.Keys else old(finished)
      ensures Labels(explored, startSearch, topSearchCnts, vertexSccMap) == Components(out, inn, Ascending(vm.Keys), old(vertexSccMap))
    {
      FirstPassAll();
      var finishOrder := Reverse(finishedOrder);
      DfsLoopOutgoing(finishOrder);
    }

    /** The first half of `find_scc`: the first pass over every vertex by ascending id. */
    method FirstPassAll()
      requires graph.vertexMap == vm && graph.edgeMap == em
      requires Views(vm, em, out, inn) && (useIter ==> finished == {})
      modifies this`explored, this`finished, this`finishedOrder, this`startSearch, this`topSearchCnts
      ensures finishedOrder == FinishingOrder(inn, Ascending(vm.Keys))
      ensures finished == if useIter then vm.Keys else old(finished)
    {
      var list := graph.GetVertexIds();
      DfsLoopIncoming(list);
      FirstPassResult(inn, useIter, old(finished), list);
    }

    /** `get_scc_sizes`: one size per group, by ascending group id; under the books they add up to the number of explored vertices. */
    function GetSccSizes(): (r: seq<int>)
      reads this
      ensures |r| == |topSearchCnts| && forall c :: c in topSearchCnts ==> topSearchCnts[c] in r
      ensures exists ks :: SizesBy(topSearchCnts, ks, r)
      ensures Books(Labels(explored, startSearch, topSearchCnts, vertexSccMap)) ==> Sum(r) == |explored|
    {
      SizesCover(topSearchCnts);
      SizesExact(topSearchCnts);
      SizesSum(Labels(explored, startSearch, topSearchCnts, vertexSccMap));
      Sizes(topSearchCnts)
    }

    /** `get_finish_order`: a copy of the finishing order. */
    function GetFinishOrder(): (r: seq<int>)
      reads this
      ensures r == finishedOrder
    {
      finishedOrder
    }

    /**
     * `get_scc_group`: the member list of `group`, which must have one. Under
     * the books it lists, each once, exactly the explored vertices of that
     * group, and its length is the group's size.
     */
    function GetSccGroup(group: int): (r: seq<int>)
      reads this
      requires group in startSearch
      ensures r == startSearch[group]
      ensures Books(Labels(explored, startSearch, topSearchCnts, vertexSccMap)) ==>
        && group in topSearchCnts && |r| == topSearchCnts[group] && NoDup(r)
        && forall x :: x in r <==> x in explored && x in vertexSccMap && vertexSccMap[x] == group
    {
      startSearch[group]
    }

    /** `get_top_scc_groups`: every group with a size, mapped to its member list. */
    method GetTopSccGroups() returns (r: map<int, seq<int>>)
      requires topSearchCnts.Keys <= startSearch.Keys
      ensures r.Keys == topSearchCnts.Keys
      ensures forall c :: c in r ==> r[c] == startSearch[c]
    {
      var groups := Ascending(topSearchCnts.Keys);
      r := map[];
      for i := 0 to |groups|
        invariant forall c :: c in r <==> c in groups[..i]
        invariant forall c :: c in r ==> c in startSearch && r[c] == startSearch[c]
      {
        assert groups[i] in Elems(groups);
        r := r[groups[i] := GetSccGroup(groups[i])];
        assert groups[..i + 1] == groups[..i] + [groups[i]];
      }
      assert groups[..|groups|] == groups;
      assert forall c :: c in r.Keys <==> c in Elems(groups);
    }
  }
}
