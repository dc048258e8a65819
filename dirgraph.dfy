/**
 * The signed-literal directed graph: an ordered map from vertex id to vertex,
 * an ordered map from edge id to edge, and the counter that hands out edge ids.
 * Every vertex records the ids of its incoming and outgoing edges, so the two
 * maps must agree; `Consistent` states that agreement and every operation that
 * changes the graph keeps it.
 */
module DirGraph {
  import opened Wrappers
  import opened Ordered

  /** One directed edge, identified by the id it was stored under. */
  datatype Edge = Edge(id: int, source: int, dest: int, weight: int)

  /** One vertex with the id sets of its incoming and outgoing edges. */
  datatype Vertex = Vertex(id: int, incoming: set<int>, outgoing: set<int>, adjustment: int)
  {
    function AddOutgoingEdgeId(e: int): (v: Vertex)
      ensures v.outgoing == outgoing + {e}
      ensures v.incoming == incoming && v.id == id && v.adjustment == adjustment
    {
      this.(outgoing := outgoing + {e})
    }

    function DeleteOutgoingEdgeId(e: int): (v: Vertex)
      ensures v.outgoing == outgoing - {e}
      ensures v.incoming == incoming && v.id == id && v.adjustment == adjustment
    {
      this.(outgoing := outgoing - {e})
    }

    function AddIncomingEdgeId(e: int): (v: Vertex)
      ensures v.incoming == incoming + {e}
      ensures v.outgoing == outgoing && v.id == id && v.adjustment == adjustment
    {
      this.(incoming := incoming + {e})
    }

    function DeleteIncomingEdgeId(e: int): (v: Vertex)
      ensures v.incoming == incoming - {e}
      ensures v.outgoing == outgoing && v.id == id && v.adjustment == adjustment
    {
      this.(incoming := incoming - {e})
    }

    /** The outgoing edge ids in the set's own order: each once, ascending. */
    function GetOutgoingEdgeIds(): (r: seq<int>)
      ensures StrictlyIncreasing(r) && Elems(r) == outgoing
    {
      AscendingIncreasing(outgoing);
      Ascending(outgoing)
    }

    /** The incoming edge ids in the set's own order: each once, ascending. */
    function GetIncomingEdgeIds(): (r: seq<int>)
      ensures StrictlyIncreasing(r) && Elems(r) == incoming
    {
      AscendingIncreasing(incoming);
      Ascending(incoming)
    }
  }

  /** `Vertex::new`: no edges and a zero adjustment. */
  function NewVertex(id: int): (v: Vertex)
    ensures v.id == id && v.incoming == {} && v.outgoing == {} && v.adjustment == 0
  {
    Vertex(id, {}, {}, 0)
  }

  /** Adding an edge id the vertex did not have and deleting it again restores the vertex. */
  lemma AddDeleteOutgoing(v: Vertex, e: int)
    requires e !in v.outgoing
    ensures v.AddOutgoingEdgeId(e).DeleteOutgoingEdgeId(e) == v
  {
    assert v.outgoing + {e} - {e} == v.outgoing;
  }

  lemma AddDeleteIncoming(v: Vertex, e: int)
    requires e !in v.incoming
    ensures v.AddIncomingEdgeId(e).DeleteIncomingEdgeId(e) == v
  {
    assert v.incoming + {e} - {e} == v.incoming;
  }

  /** The vertex `u` after `define_vertex(u)`: the existing one, or a fresh one. */
  function Declared(vm: map<int, Vertex>, u: int): (v: Vertex)
    ensures u in vm ==> v == vm[u]
    ensures u !in vm ==> v == NewVertex(u)
  {
    if u in vm then vm[u] else NewVertex(u)
  }

  /**
   * The agreement between the vertex map and the edge map: every stored edge is
   * listed by its two endpoints, which exist, and every listed id names a
   * stored edge with that endpoint; edge ids lie below the next id to be issued.
   */
  ghost predicate Consistent(vm: map<int, Vertex>, em: map<int, Edge>, next: int)
  {
    && next >= 1
    && (forall v :: v in vm ==> vm[v].id == v)
    && (forall e :: e in em ==>
          && 1 <= e < next && em[e].id == e
          && em[e].source in vm && e in vm[em[e].source].outgoing
          && em[e].dest in vm && e in vm[em[e].dest].incoming)
    && ListsStored(vm, em)
  }

  /**
   * The half of `Consistent` that the queries rely on: every id a vertex lists
   * names a stored edge that has that vertex as the matching endpoint and whose
   * other endpoint is a vertex too.
   */
  ghost predicate ListsStored(vm: map<int, Vertex>, em: map<int, Edge>)
  {
    && (forall v, e :: v in vm && e in vm[v].outgoing ==> StoredFrom(vm, em, v, e))
    && (forall v, e :: v in vm && e in vm[v].incoming ==> StoredTo(vm, em, v, e))
  }

  /** `e` is a stored edge that leaves `v` for a vertex. */
  ghost predicate StoredFrom(vm: map<int, Vertex>, em: map<int, Edge>, v: int, e: int)
  {
    e in em && em[e].id == e && em[e].source == v && em[e].dest in vm
  }

  /** `e` is a stored edge that enters `v` from a vertex. */
  ghost predicate StoredTo(vm: map<int, Vertex>, em: map<int, Edge>, v: int, e: int)
  {
    e in em && em[e].id == e && em[e].dest == v && em[e].source in vm
  }

  /** The edges stored under `ids`, in that order. */
  function Lookup(em: map<int, Edge>, ids: seq<int>): (r: seq<Edge>)
    requires forall i :: 0 <= i < |ids| ==> ids[i] in em
    ensures |r| == |ids|
    ensures forall i :: 0 <= i < |ids| ==> r[i] == em[ids[i]]
  {
    seq(|ids|, i requires 0 <= i < |ids| => em[ids[i]])
  }

  function Dests(edges: seq<Edge>): (r: seq<int>)
    ensures |r| == |edges|
    ensures forall i :: 0 <= i < |edges| ==> r[i] == edges[i].dest
  {
    if edges == [] then [] else [edges[0].dest] + Dests(edges[1..])
  }

  function Sources(edges: seq<Edge>): (r: seq<int>)
    ensures |r| == |edges|
    ensures forall i :: 0 <= i < |edges| ==> r[i] == edges[i].source
  {
    if edges == [] then [] else [edges[0].source] + Sources(edges[1..])
  }

  /** The weight of the first edge in `edges` that ends at `dest` (Rust's `find`). */
  function FirstWeightTo(edges: seq<Edge>, dest: int): (r: Option<int>)
  {
    if edges == [] then None
    else if edges[0].dest == dest then Some(edges[0].weight)
    else FirstWeightTo(edges[1..], dest)
  }

  /** The weight found is that of the first edge with the wanted dest, and there is none only when no edge has it. */
  lemma {:induction false} FirstWeightToFinds(edges: seq<Edge>, dest: int)
    ensures FirstWeightTo(edges, dest).None? <==> forall i :: 0 <= i < |edges| ==> edges[i].dest != dest
    ensures FirstWeightTo(edges, dest).Some? ==>
              exists i :: && 0 <= i < |edges| && edges[i].dest == dest && edges[i].weight == FirstWeightTo(edges, dest).value
                          && forall j :: 0 <= j < i ==> edges[j].dest != dest
  {
    if edges != [] && edges[0].dest != dest {
      FirstWeightToFinds(edges[1..], dest);
      var r := FirstWeightTo(edges, dest);
      assert forall i :: 0 < i < |edges| ==> edges[i] == edges[1..][i - 1];
      if r.Some? {
        var i :| 0 <= i < |edges| - 1 && edges[1..][i].dest == dest && edges[1..][i].weight == r.value
                  && forall j :: 0 <= j < i ==> edges[1..][j].dest != dest;
        assert forall j :: 0 <= j < i + 1 ==> edges[j].dest != dest by {
          forall j | 0 <= j < i + 1 ensures edges[j].dest != dest {
            if j > 0 { assert edges[j] == edges[1..][j - 1]; }
          }
        }
        assert edges[i + 1].dest == dest && edges[i + 1].weight == r.value;
      }
    }
  }

  /** The weight of the first edge in `edges` that starts at `source`. */
  function FirstWeightFrom(edges: seq<Edge>, source: int): (r: Option<int>)
  {
    if edges == [] then None
    else if edges[0].source == source then Some(edges[0].weight)
    else FirstWeightFrom(edges[1..], source)
  }

  /** The weight found is that of the first edge with the wanted source, and there is none only when no edge has it. */
  lemma {:induction false} FirstWeightFromFinds(edges: seq<Edge>, source: int)
    ensures FirstWeightFrom(edges, source).None? <==> forall i :: 0 <= i < |edges| ==> edges[i].source != source
    ensures FirstWeightFrom(edges, source).Some? ==>
              exists i :: && 0 <= i < |edges| && edges[i].source == source && edges[i].weight == FirstWeightFrom(edges, source).value
                          && forall j :: 0 <= j < i ==> edges[j].source != source
  {
    if edges != [] && edges[0].source != source {
      FirstWeightFromFinds(edges[1..], source);
      var r := FirstWeightFrom(edges, source);
      assert forall i :: 0 < i < |edges| ==> edges[i] == edges[1..][i - 1];
      if r.Some? {
        var i :| 0 <= i < |edges| - 1 && edges[1..][i].source == source && edges[1..][i].weight == r.value
                  && forall j :: 0 <= j < i ==> edges[1..][j].source != source;
        assert forall j :: 0 <= j < i + 1 ==> edges[j].source != source by {
          forall j | 0 <= j < i + 1 ensures edges[j].source != source {
            if j > 0 { assert edges[j] == edges[1..][j - 1]; }
          }
        }
        assert edges[i + 1].source == source && edges[i + 1].weight == r.value;
      }
    }
  }

  /** An edge's weight after re-weighting by its endpoints' adjustments. */
  function Adjusted(vm: map<int, Vertex>, e: Edge): (r: Edge)
    requires e.source in vm && e.dest in vm
    ensures r.id == e.id && r.source == e.source && r.dest == e.dest
    ensures r.weight - e.weight == vm[e.source].adjustment - vm[e.dest].adjustment
  {
    e.(weight := e.weight + vm[e.source].adjustment - vm[e.dest].adjustment)
  }

  /** The vertex map after declaring `u`: unchanged when `u` exists, otherwise gains a bare vertex. */
  function Declare(vm: map<int, Vertex>, u: int): (r: map<int, Vertex>)
    ensures u in vm ==> r == vm
    ensures u in r && r[u] == Declared(vm, u)
  {
    vm[u := Declared(vm, u)]
  }

  /** Declaring a vertex, new or existing, keeps the maps in agreement. */
  lemma DeclareConsistent(vm: map<int, Vertex>, em: map<int, Edge>, next: int, u: int)
    requires Consistent(vm, em, next)
    ensures Consistent(Declare(vm, u), em, next)
  {
  }

  /** The vertex map after listing edge `id` as outgoing at `v1` and incoming at `v2`. */
  function Link(vm: map<int, Vertex>, v1: int, v2: int, id: int): (r: map<int, Vertex>)
    requires v1 in vm && v2 in vm
  {
    var a := vm[v1 := vm[v1].AddOutgoingEdgeId(id)];
    a[v2 := a[v2].AddIncomingEdgeId(id)]
  }

  /** Storing a fresh edge between existing vertices and linking it keeps the maps in agreement. */
  lemma LinkConsistent(vm: map<int, Vertex>, em: map<int, Edge>, next: int, v1: int, v2: int, w: int)
    requires Consistent(vm, em, next) && v1 in vm && v2 in vm
    ensures next !in em
    ensures Consistent(Link(vm, v1, v2, next), em[next := Edge(next, v1, v2, w)], next + 1)
  {
    var vm' := Link(vm, v1, v2, next);
    var em' := em[next := Edge(next, v1, v2, w)];
    forall e | e in em'
      ensures && 1 <= e < next + 1 && em'[e].id == e
              && em'[e].source in vm' && e in vm'[em'[e].source].outgoing
              && em'[e].dest in vm' && e in vm'[em'[e].dest].incoming
    {
      if e != next {
        assert em'[e] == em[e];
      }
    }
    forall v, e | v in vm' && e in vm'[v].outgoing ensures e in em' && em'[e].source == v {
      if e != next {
        assert e in vm[v].outgoing;
      }
    }
    forall v, e | v in vm' && e in vm'[v].incoming ensures e in em' && em'[e].dest == v {
      if e != next {
        assert e in vm[v].incoming;
      }
    }
  }

  /** The vertex map after unlisting edge `id` as outgoing at `src` and incoming at `dst`. */
  function Unlink(vm: map<int, Vertex>, src: int, dst: int, id: int): (r: map<int, Vertex>)
    requires src in vm && dst in vm
  {
    var a := vm[src := vm[src].DeleteOutgoingEdgeId(id)];
    a[dst := a[dst].DeleteIncomingEdgeId(id)]
  }

  /**
   * Removing a stored edge and unlisting it at its endpoints keeps the maps in
   * agreement, and since only the endpoints listed it, the id is then gone from
   * every vertex.
   */
  lemma UnlinkConsistent(vm: map<int, Vertex>, em: map<int, Edge>, next: int, id: int)
    requires Consistent(vm, em, next) && id in em
    ensures em[id].source in vm && em[id].dest in vm
    ensures var r := Unlink(vm, em[id].source, em[id].dest, id);
            && Consistent(r, em - {id}, next)
            && forall u :: u in r ==>
                 r[u].outgoing == vm[u].outgoing - {id} && r[u].incoming == vm[u].incoming - {id}
  {
    var r := Unlink(vm, em[id].source, em[id].dest, id);
    forall u | u in r
      ensures r[u].outgoing == vm[u].outgoing - {id} && r[u].incoming == vm[u].incoming - {id}
    {
      if u != em[id].source {
        assert id !in vm[u].outgoing;
      }
      if u != em[id].dest {
        assert id !in vm[u].incoming;
      }
    }
  }

  /** The whole of `add_edge` on values: declaring both endpoints, then storing and linking a fresh edge. */
  lemma AddEdgeConsistent(vm: map<int, Vertex>, em: map<int, Edge>, next: int, v1: int, v2: int, w: int)
    requires Consistent(vm, em, next)
    ensures next !in em
    ensures Consistent(Link(Declare(Declare(vm, v1), v2), v1, v2, next), em[next := Edge(next, v1, v2, w)], next + 1)
  {
    DeclareConsistent(vm, em, next, v1);
    DeclareConsistent(Declare(vm, v1), em, next, v2);
    LinkConsistent(Declare(Declare(vm, v1), v2), em, next, v1, v2, w);
  }

  /** Edge `e` is stored and runs from `s` to `d`. */
  predicate Runs(em: map<int, Edge>, e: int, s: int, d: int)
  {
    e in em && em[e].source == s && em[e].dest == d
  }

  /** `edges` lists the stored edges that leave `v`, each once, by strictly ascending id. */
  ghost predicate ListsLeaving(em: map<int, Edge>, v: int, edges: seq<Edge>)
  {
    && (forall i :: 0 <= i < |edges| ==> edges[i].id in em && em[edges[i].id] == edges[i] && edges[i].source == v)
    && (forall i, j :: 0 <= i < j < |edges| ==> edges[i].id < edges[j].id)
    && (forall e :: e in em && em[e].source == v ==> exists i :: 0 <= i < |edges| && edges[i].id == e)
  }

  /** `edges` lists the stored edges that enter `v`, each once, by strictly ascending id. */
  ghost predicate ListsEntering(em: map<int, Edge>, v: int, edges: seq<Edge>)
  {
    && (forall i :: 0 <= i < |edges| ==> edges[i].id in em && em[edges[i].id] == edges[i] && edges[i].dest == v)
    && (forall i, j :: 0 <= i < j < |edges| ==> edges[i].id < edges[j].id)
    && (forall e :: e in em && em[e].dest == v ==> exists i :: 0 <= i < |edges| && edges[i].id == e)
  }

  /** The dests of the edges leaving `v` are exactly the vertices some stored edge runs to from `v`. */
  lemma DestsSpec(em: map<int, Edge>, v: int, edges: seq<Edge>)
    requires ListsLeaving(em, v, edges)
    ensures forall u :: u in Dests(edges) <==> exists e :: Runs(em, e, v, u)
  {
    var r := Dests(edges);
    forall u ensures u in r <==> exists e :: Runs(em, e, v, u) {
      if u in r {
        var i :| 0 <= i < |r| && r[i] == u;
        assert Runs(em, edges[i].id, v, u);
      }
      if exists e :: Runs(em, e, v, u) {
        var e :| Runs(em, e, v, u);
        var i :| 0 <= i < |edges| && edges[i].id == e;
        assert r[i] == u;
      }
    }
  }

  /** The sources of the edges entering `v` are exactly the vertices some stored edge runs from to `v`. */
  lemma SourcesSpec(em: map<int, Edge>, v: int, edges: seq<Edge>)
    requires ListsEntering(em, v, edges)
    ensures forall u :: u in Sources(edges) <==> exists e :: Runs(em, e, u, v)
  {
    var r := Sources(edges);
    forall u ensures u in r <==> exists e :: Runs(em, e, u, v) {
      if u in r {
        var i :| 0 <= i < |r| && r[i] == u;
        assert Runs(em, edges[i].id, u, v);
      }
      if exists e :: Runs(em, e, u, v) {
        var e :| Runs(em, e, u, v);
        var i :| 0 <= i < |edges| && edges[i].id == e;
        assert r[i] == u;
      }
    }
  }

  /** The first edge in the list that ends at `d` has the lowest id of all stored edges from `v` to `d`. */
  lemma LowestRunning(em: map<int, Edge>, v: int, d: int, edges: seq<Edge>, i: int)
    requires ListsLeaving(em, v, edges)
    requires 0 <= i < |edges| && edges[i].dest == d
    requires forall j :: 0 <= j < i ==> edges[j].dest != d
    ensures Runs(em, edges[i].id, v, d)
    ensures forall e' :: Runs(em, e', v, d) ==> edges[i].id <= e'
  {
    forall e' | Runs(em, e', v, d) ensures edges[i].id <= e' {
      var k :| 0 <= k < |edges| && edges[k].id == e';
      assert edges[k].dest == d;
    }
  }

  /** The first edge in the list that starts at `s` has the lowest id of all stored edges from `s` to `v`. */
  lemma LowestEntering(em: map<int, Edge>, s: int, v: int, edges: seq<Edge>, i: int)
    requires ListsEntering(em, v, edges)
    requires 0 <= i < |edges| && edges[i].source == s
    requires forall j :: 0 <= j < i ==> edges[j].source != s
    ensures Runs(em, edges[i].id, s, v)
    ensures forall e' :: Runs(em, e', s, v) ==> edges[i].id <= e'
  {
    forall e' | Runs(em, e', s, v) ensures edges[i].id <= e' {
      var k :| 0 <= k < |edges| && edges[k].id == e';
      assert edges[k].source == s;
    }
  }

  /**
   * Over the edges leaving `v` by ascending id, the first one ending at `d` is
   * the lowest-id stored edge from `v` to `d`; there is none iff no such edge exists.
   */
  lemma FirstWeightToSpec(em: map<int, Edge>, v: int, d: int, edges: seq<Edge>)
    requires ListsLeaving(em, v, edges)
    ensures FirstWeightTo(edges, d).None? <==> !exists e :: Runs(em, e, v, d)
    ensures FirstWeightTo(edges, d).Some? ==>
              exists e :: && Runs(em, e, v, d) && em[e].weight == FirstWeightTo(edges, d).value
                          && forall e' :: Runs(em, e', v, d) ==> e <= e'
  {
    var r := FirstWeightTo(edges, d);
    FirstWeightToFinds(edges, d);
    assert (exists e :: Runs(em, e, v, d)) ==> r.Some? by {
      if exists e :: Runs(em, e, v, d) {
        var e :| Runs(em, e, v, d);
        var i :| 0 <= i < |edges| && edges[i].id == e;
        assert edges[i].dest == d;
      }
    }
    if r.Some? {
      var i :| 0 <= i < |edges| && edges[i].dest == d && edges[i].weight == r.value
               && forall j :: 0 <= j < i ==> edges[j].dest != d;
      LowestRunning(em, v, d, edges, i);
    }
  }

  /** The mirror of `FirstWeightToSpec` over the edges entering `v`. */
  lemma FirstWeightFromSpec(em: map<int, Edge>, s: int, v: int, edges: seq<Edge>)
    requires ListsEntering(em, v, edges)
    ensures FirstWeightFrom(edges, s).None? <==> !exists e :: Runs(em, e, s, v)
    ensures FirstWeightFrom(edges, s).Some? ==>
              exists e :: && Runs(em, e, s, v) && em[e].weight == FirstWeightFrom(edges, s).value
                          && forall e' :: Runs(em, e', s, v) ==> e <= e'
  {
    var r := FirstWeightFrom(edges, s);
    FirstWeightFromFinds(edges, s);
    assert (exists e :: Runs(em, e, s, v)) ==> r.Some? by {
      if exists e :: Runs(em, e, s, v) {
        var e :| Runs(em, e, s, v);
        var i :| 0 <= i < |edges| && edges[i].id == e;
        assert edges[i].source == s;
      }
    }
    if r.Some? {
      var i :| 0 <= i < |edges| && edges[i].source == s && edges[i].weight == r.value
               && forall j :: 0 <= j < i ==> edges[j].source != s;
      LowestEntering(em, s, v, edges, i);
    }
  }

  /** The stored edges listed as outgoing at `v`, by ascending id. */
  function OutEdges(vm: map<int, Vertex>, em: map<int, Edge>, v: int): (r: seq<Edge>)
    requires ListsStored(vm, em) && v in vm
    ensures |r| == |vm[v].GetOutgoingEdgeIds()|
    ensures forall i :: 0 <= i < |r| ==> vm[v].GetOutgoingEdgeIds()[i] in em && r[i] == em[vm[v].GetOutgoingEdgeIds()[i]]
  {
    var ids := vm[v].GetOutgoingEdgeIds();
    assert forall i :: 0 <= i < |ids| ==> ids[i] in Elems(ids);
    Lookup(em, ids)
  }

  /** The stored edges listed as incoming at `v`, by ascending id. */
  function InEdges(vm: map<int, Vertex>, em: map<int, Edge>, v: int): (r: seq<Edge>)
    requires ListsStored(vm, em) && v in vm
    ensures |r| == |vm[v].GetIncomingEdgeIds()|
    ensures forall i :: 0 <= i < |r| ==> vm[v].GetIncomingEdgeIds()[i] in em && r[i] == em[vm[v].GetIncomingEdgeIds()[i]]
  {
    var ids := vm[v].GetIncomingEdgeIds();
    assert forall i :: 0 <= i < |ids| ==> ids[i] in Elems(ids);
    Lookup(em, ids)
  }

  /**
   * The outgoing edges of `v` are exactly the stored edges whose source is
   * `v`, each once, by strictly ascending id.
   */
  lemma OutEdgesSpec(vm: map<int, Vertex>, em: map<int, Edge>, next: int, v: int)
    requires Consistent(vm, em, next) && v in vm
    ensures ListsLeaving(em, v, OutEdges(vm, em, v))
  {
    var ids := vm[v].GetOutgoingEdgeIds();
    AscendingIncreasing(vm[v].outgoing);
    var r := OutEdges(vm, em, v);
    forall i | 0 <= i < |r|
      ensures r[i].id == ids[i] && r[i].id in em && em[r[i].id] == r[i] && r[i].source == v
    {
      assert ids[i] in Elems(ids);
    }
    forall e | e in em && em[e].source == v
      ensures exists i :: 0 <= i < |r| && r[i].id == e
    {
      assert e in Elems(ids);
      var i :| 0 <= i < |ids| && ids[i] == e;
      assert r[i].id == e;
    }
  }

  /** The incoming edges of `v` are exactly the stored edges whose dest is `v`, each once, by ascending id. */
  lemma InEdgesSpec(vm: map<int, Vertex>, em: map<int, Edge>, next: int, v: int)
    requires Consistent(vm, em, next) && v in vm
    ensures ListsEntering(em, v, InEdges(vm, em, v))
  {
    var ids := vm[v].GetIncomingEdgeIds();
    AscendingIncreasing(vm[v].incoming);
    var r := InEdges(vm, em, v);
    forall i | 0 <= i < |r|
      ensures r[i].id == ids[i] && r[i].id in em && em[r[i].id] == r[i] && r[i].dest == v
    {
      assert ids[i] in Elems(ids);
    }
    forall e | e in em && em[e].dest == v
      ensures exists i :: 0 <= i < |r| && r[i].id == e
    {
      assert e in Elems(ids);
      var i :| 0 <= i < |ids| && ids[i] == e;
      assert r[i].id == e;
    }
  }

  /** The weight of the first outgoing edge of `v` that ends at `d`. */
  function OutWeight(vm: map<int, Vertex>, em: map<int, Edge>, v: int, d: int): Option<int>
    requires ListsStored(vm, em) && v in vm
  {
    FirstWeightTo(OutEdges(vm, em, v), d)
  }

  /** The weight of the first incoming edge of `v` that starts at `s`. */
  function InWeight(vm: map<int, Vertex>, em: map<int, Edge>, s: int, v: int): Option<int>
    requires ListsStored(vm, em) && v in vm
  {
    FirstWeightFrom(InEdges(vm, em, v), s)
  }

  /** Changing only edge weights keeps the maps in agreement. */
  lemma ReweightConsistent(vm: map<int, Vertex>, em: map<int, Edge>, em': map<int, Edge>, next: int)
    requires Consistent(vm, em, next)
    requires em'.Keys == em.Keys
    requires forall e :: e in em ==> em'[e].id == em[e].id && em'[e].source == em[e].source && em'[e].dest == em[e].dest
    ensures Consistent(vm, em', next)
  {
  }

  /**
   * The total of a sequence of hop weights, summed from the front; a single
   * missing hop makes the whole walk missing.
   */
  function WalkSum(ws: seq<Option<int>>): (r: Option<int>)
  {
    if ws == [] then Some(0)
    else
      var rest := WalkSum(ws[..|ws| - 1]);
      if rest.Some? && ws[|ws| - 1].Some? then Some(rest.value + ws[|ws| - 1].value) else None
  }

  /** A walk has no total iff one of its hops is missing. */
  lemma {:induction false} WalkSumNone(ws: seq<Option<int>>)
    ensures WalkSum(ws).None? <==> exists i :: 0 <= i < |ws| && ws[i].None?
  {
    if ws != [] {
      var front := ws[..|ws| - 1];
      WalkSumNone(front);
      assert forall i :: 0 <= i < |front| ==> front[i] == ws[i];
      if exists i :: 0 <= i < |ws| && ws[i].None? {
        var i :| 0 <= i < |ws| && ws[i].None?;
        if i < |front| { assert front[i].None?; }
      }
    }
  }

  /**
   * A walk that totals `t` over its first `i` hops totals `t + w` over the
   * first `i + 1` when hop `i` weighs `w`, and has no total when hop `i` is
   * missing.
   */
  lemma WalkSumStep(ws: seq<Option<int>>, i: int, t: int, w: Option<int>)
    requires 0 <= i < |ws| && WalkSum(ws[..i]) == Some(t) && ws[i] == w
    ensures w.Some? ==> WalkSum(ws[..i + 1]) == Some(t + w.value)
    ensures w.None? ==> WalkSum(ws) == None
  {
    assert ws[..i + 1][..i] == ws[..i];
    WalkSumNone(ws);
  }

  /** Walking one list of hops and then another totals the sum of the two. */
  lemma {:induction false} WalkSumConcat(a: seq<Option<int>>, b: seq<Option<int>>)
    ensures WalkSum(a + b) == (if WalkSum(a).Some? && WalkSum(b).Some? then Some(WalkSum(a).value + WalkSum(b).value) else None)
    decreases |b|
  {
    if b == [] {
      assert a + b == a;
    } else {
      var b' := b[..|b| - 1];
      assert (a + b)[..|a + b| - 1] == a + b';
      WalkSumConcat(a, b');
    }
  }

  /**
   * The weight of the hop from `v` to `d`: None when `v` is not a vertex or
   * has no edge to `d` (and, for maps that do not agree, None throughout).
   */
  ghost function HopWeight(vm: map<int, Vertex>, em: map<int, Edge>, v: int, d: int): Option<int>
  {
    if ListsStored(vm, em) && v in vm then OutWeight(vm, em, v, d) else None
  }

  /** The hop weight of each consecutive pair of `path`, in order. */
  ghost function HopWeights(vm: map<int, Vertex>, em: map<int, Edge>, path: seq<int>): (r: seq<Option<int>>)
    ensures |path| >= 1 ==> |r| == |path| - 1
  {
    if |path| < 2 then [] else seq(|path| - 1, i requires 0 <= i < |path| - 1 => HopWeight(vm, em, path[i], path[i + 1]))
  }

  /** The result `verify_path` must give: the total of the path's hop weights. */
  ghost function PathWeight(vm: map<int, Vertex>, em: map<int, Edge>, path: seq<int>): Option<int>
  {
    WalkSum(HopWeights(vm, em, path))
  }

  /** A hop that has a weight ends at a vertex of the graph. */
  lemma HopTarget(vm: map<int, Vertex>, em: map<int, Edge>, v: int, d: int)
    requires ListsStored(vm, em) && v in vm && OutWeight(vm, em, v, d).Some?
    ensures d in vm
  {
    var ids := vm[v].GetOutgoingEdgeIds();
    var edges := OutEdges(vm, em, v);
    FirstWeightToFinds(edges, d);
    var i :| 0 <= i < |edges| && edges[i].dest == d && edges[i].weight == OutWeight(vm, em, v, d).value
             && forall j :: 0 <= j < i ==> edges[j].dest != d;
    assert ids[i] in Elems(ids);
  }

  /** Some stored edge runs from `s` to `d`. */
  ghost predicate Hop(em: map<int, Edge>, s: int, d: int)
  {
    exists e :: Runs(em, e, s, d)
  }

  /** A hop has no weight iff no stored edge joins its two vertices. */
  lemma HopWeightNone(vm: map<int, Vertex>, em: map<int, Edge>, next: int, v: int, d: int)
    requires Consistent(vm, em, next)
    ensures HopWeight(vm, em, v, d).None? <==> !Hop(em, v, d)
  {
    if v in vm {
      OutEdgesSpec(vm, em, next, v);
      FirstWeightToSpec(em, v, d, OutEdges(vm, em, v));
    } else {
      forall e | e in em ensures !Runs(em, e, v, d) {
        assert em[e].source in vm;
      }
    }
  }

  /** A path has no weight iff one of its consecutive pairs is joined by no stored edge. */
  lemma PathWeightNone(vm: map<int, Vertex>, em: map<int, Edge>, next: int, path: seq<int>)
    requires Consistent(vm, em, next)
    ensures PathWeight(vm, em, path).None? <==> exists i :: 0 <= i < |path| - 1 && !Hop(em, path[i], path[i + 1])
  {
    var ws := HopWeights(vm, em, path);
    WalkSumNone(ws);
    forall i | 0 <= i < |path| - 1 ensures ws[i].None? <==> !Hop(em, path[i], path[i + 1]) {
      HopWeightNone(vm, em, next, path[i], path[i + 1]);
    }
    if exists i :: 0 <= i < |ws| && ws[i].None? {
      var i :| 0 <= i < |ws| && ws[i].None?;
      assert !Hop(em, path[i], path[i + 1]);
    }
  }

  /** A one-vertex path weighs nothing. */
  lemma PathWeightSingle(vm: map<int, Vertex>, em: map<int, Edge>, v: int)
    ensures PathWeight(vm, em, [v]) == Some(0)
  {
  }

  /** The hops of two joined walks are the hops of the first followed by those of the second. */
  lemma HopWeightsConcat(vm: map<int, Vertex>, em: map<int, Edge>, p: seq<int>, q: seq<int>)
    requires |p| >= 1 && |q| >= 1 && p[|p| - 1] == q[0]
    ensures HopWeights(vm, em, p[..|p| - 1] + q) == HopWeights(vm, em, p) + HopWeights(vm, em, q)
  {
    var pq := p[..|p| - 1] + q;
    var a, b := HopWeights(vm, em, p), HopWeights(vm, em, q);
    var c := HopWeights(vm, em, pq);
    forall i | 0 <= i < |pq| - 1 ensures c[i] == (a + b)[i] {
      if i < |p| - 1 {
        assert pq[i] == p[i] && pq[i + 1] == p[i + 1];
      } else {
        assert pq[i] == q[i - (|p| - 1)] && pq[i + 1] == q[i - (|p| - 1) + 1];
      }
    }
  }

  /**
   * Walking `p` and then on from its last vertex along `q` weighs the sum of
   * the two walks, and has no weight when either has none.
   */
  lemma PathWeightConcat(vm: map<int, Vertex>, em: map<int, Edge>, p: seq<int>, q: seq<int>)
    requires |p| >= 1 && |q| >= 1 && p[|p| - 1] == q[0]
    ensures PathWeight(vm, em, p[..|p| - 1] + q) ==
              (if PathWeight(vm, em, p).Some? && PathWeight(vm, em, q).Some?
               then Some(PathWeight(vm, em, p).value + PathWeight(vm, em, q).value) else None)
  {
    HopWeightsConcat(vm, em, p, q);
    var a, b := HopWeights(vm, em, p), HopWeights(vm, em, q);
    WalkSumConcat(a, b);
  }

  class DirectedGraph {
    var vertexMap: map<int, Vertex>
    var edgeMap: map<int, Edge>
    var nextEdgeId: int

    ghost predicate Valid()
      reads this
    {
      Consistent(vertexMap, edgeMap, nextEdgeId)
    }

    /** `new`: an empty graph whose first edge will get id 1. */
    constructor ()
      ensures Valid()
      ensures vertexMap == map[] && edgeMap == map[] && nextEdgeId == 1
    {
      vertexMap := map[];
      edgeMap := map[];
      nextEdgeId := 1;
    }

    /**
     * `define_vertex`: adds a vertex with no edges and returns the new vertex
     * count, or returns None and changes nothing when the id is already taken.
     */
    method DefineVertex(id: int) returns (r: Option<int>)
      modifies this
      ensures vertexMap == Declare(old(vertexMap), id)
      ensures id in old(vertexMap) ==> r == None
      ensures id !in old(vertexMap) ==> r == Some(|old(vertexMap)| + 1) && r == Some(|vertexMap|)
      ensures edgeMap == old(edgeMap) && nextEdgeId == old(nextEdgeId)
    {
      if id in vertexMap {
        r := None;
      } else {
        vertexMap := vertexMap[id := NewVertex(id)];
        r := Some(|vertexMap|);
      }
    }

    /**
     * `define_edge`: stores an edge under the next id and advances the counter.
     * It does not register the edge with its endpoints, so on its own it does
     * not keep the graph consistent; `AddEdge` does.
     */
    method DefineEdge(source: int, dest: int, weight: int) returns (r: Option<int>)
      modifies this
      ensures r == Some(old(nextEdgeId))
      ensures nextEdgeId == old(nextEdgeId) + 1
      ensures edgeMap == old(edgeMap)[old(nextEdgeId) := Edge(old(nextEdgeId), source, dest, weight)]
      ensures vertexMap == old(vertexMap)
    {
      var edgeId := nextEdgeId;
      nextEdgeId := nextEdgeId + 1;
      edgeMap := edgeMap[edgeId := Edge(edgeId, source, dest, weight)];
      r := Some(edgeId);
    }

    /**
     * `GraphBuilder::add_edge`: declares both endpoints, stores the edge under
     * a fresh id, lists it as outgoing at `v1` and incoming at `v2`, and
     * returns its id.
     */
    method AddEdge(v1: int, v2: int, weight: int) returns (r: Option<int>)
      requires Valid()
      modifies this
      ensures Valid()
      ensures r == Some(old(nextEdgeId)) && nextEdgeId == old(nextEdgeId) + 1
      ensures old(nextEdgeId) !in old(edgeMap)
      ensures edgeMap == old(edgeMap)[old(nextEdgeId) := Edge(old(nextEdgeId), v1, v2, weight)]
      ensures vertexMap == Link(Declare(Declare(old(vertexMap), v1), v2), v1, v2, r.value)
    {
      ghost var vm0, em0, n0 := vertexMap, edgeMap, nextEdgeId;
      AddEdgeConsistent(vm0, em0, n0, v1, v2, weight);
      var _ := DefineVertex(v1);
      var _ := DefineVertex(v2);
      ghost var vm1 := vertexMap;
      assert vm1 == Declare(Declare(vm0, v1), v2);
      var created := DefineEdge(v1, v2, weight);
      var edgeId := created.value;
      vertexMap := Link(vertexMap, v1, v2, edgeId);
      r := Some(edgeId);
      assert vertexMap == Link(vm1, v1, v2, n0);
      assert edgeMap == em0[n0 := Edge(n0, v1, v2, weight)] && nextEdgeId == n0 + 1;
    }

    /** `GraphBuilder::add_vertex`: `define_vertex` with its result dropped. */
    method AddVertex(id: int)
      requires Valid()
      modifies this
      ensures Valid()
      ensures vertexMap == Declare(old(vertexMap), id)
      ensures edgeMap == old(edgeMap) && nextEdgeId == old(nextEdgeId)
    {
      DeclareConsistent(vertexMap, edgeMap, nextEdgeId, id);
      var _ := DefineVertex(id);
    }

    /**
     * `delete_edge`: unlists a stored edge at both endpoints and forgets it;
     * an unknown id is an error and changes nothing. Ids are never reissued,
     * since the counter is untouched.
     */
    method DeleteEdge(edgeId: int) returns (r: Result<(), string>)
      requires Valid()
      modifies this
      ensures Valid()
      ensures nextEdgeId == old(nextEdgeId)
      ensures edgeId !in old(edgeMap) ==>
                r == Err("Delete Edge: No such edge") && edgeMap == old(edgeMap) && vertexMap == old(vertexMap)
      ensures edgeId in old(edgeMap) ==>
                && r == Ok(())
                && edgeMap == old(edgeMap) - {edgeId}
                && old(edgeMap)[edgeId].source in old(vertexMap) && old(edgeMap)[edgeId].dest in old(vertexMap)
                && vertexMap == Unlink(old(vertexMap), old(edgeMap)[edgeId].source, old(edgeMap)[edgeId].dest, edgeId)
                && forall u :: u in vertexMap ==>
                     && vertexMap[u].outgoing == old(vertexMap)[u].outgoing - {edgeId}
                     && vertexMap[u].incoming == old(vertexMap)[u].incoming - {edgeId}
    {
      if edgeId in edgeMap {
        var edge := edgeMap[edgeId];
        UnlinkConsistent(vertexMap, edgeMap, nextEdgeId, edgeId);
        vertexMap := Unlink(vertexMap, edge.source, edge.dest, edgeId);
        edgeMap := edgeMap - {edgeId};
        r := Ok(());
      } else {
        r := Err("Delete Edge: No such edge");
      }
    }

    function VertexCount(): (n: int)
      reads this
      ensures n == |GetVertexIds()|
    {
      AscendingCard(vertexMap.Keys);
      |vertexMap|
    }

    function EdgeCount(): (n: int)
      reads this
      ensures n == |GetEdgeIds()|
    {
      AscendingCard(edgeMap.Keys);
      |edgeMap|
    }

    /** `get_vertex_ids`: every vertex id, ascending. */
    function GetVertexIds(): (r: seq<int>)
      reads this
      ensures StrictlyIncreasing(r) && Elems(r) == vertexMap.Keys
    {
      AscendingIncreasing(vertexMap.Keys);
      Ascending(vertexMap.Keys)
    }

    /** `get_edge_ids`: every edge id, ascending. */
    function GetEdgeIds(): (r: seq<int>)
      reads this
      ensures StrictlyIncreasing(r) && Elems(r) == edgeMap.Keys
    {
      AscendingIncreasing(edgeMap.Keys);
      Ascending(edgeMap.Keys)
    }

    function GetOutgoingEdgeIds(v: int): (r: seq<int>)
      reads this
      requires v in vertexMap
      ensures StrictlyIncreasing(r)
      ensures Elems(r) == vertexMap[v].outgoing
    {
      AscendingIncreasing(vertexMap[v].outgoing);
      vertexMap[v].GetOutgoingEdgeIds()
    }

    function GetIncomingEdgeIds(v: int): (r: seq<int>)
      reads this
      requires v in vertexMap
      ensures StrictlyIncreasing(r)
      ensures Elems(r) == vertexMap[v].incoming
    {
      AscendingIncreasing(vertexMap[v].incoming);
      vertexMap[v].GetIncomingEdgeIds()
    }

    /** `get_outgoing_edges`: the stored edges listed as outgoing at `v`, by ascending id. */
    function GetOutgoingEdges(v: int): (r: seq<Edge>)
      reads this
      requires ListsStored(vertexMap, edgeMap) && v in vertexMap
      ensures |r| == |GetOutgoingEdgeIds(v)|
      ensures forall i :: 0 <= i < |r| ==> GetOutgoingEdgeIds(v)[i] in edgeMap && r[i] == edgeMap[GetOutgoingEdgeIds(v)[i]]
    {
      OutEdges(vertexMap, edgeMap, v)
    }

    /** `get_incoming_edges`: the stored edges listed as incoming at `v`, by ascending id. */
    function GetIncomingEdges(v: int): (r: seq<Edge>)
      reads this
      requires ListsStored(vertexMap, edgeMap) && v in vertexMap
      ensures |r| == |GetIncomingEdgeIds(v)|
      ensures forall i :: 0 <= i < |r| ==> GetIncomingEdgeIds(v)[i] in edgeMap && r[i] == edgeMap[GetIncomingEdgeIds(v)[i]]
    {
      InEdges(vertexMap, edgeMap, v)
    }

    /** `get_outgoing_vertex_ids`: the destination of each outgoing edge of `v`, in the same order. */
    function GetOutgoingVertexIds(v: int): (r: seq<int>)
      reads this
      requires ListsStored(vertexMap, edgeMap) && v in vertexMap
      ensures |r| == |GetOutgoingEdges(v)|
      ensures forall i :: 0 <= i < |r| ==> r[i] == GetOutgoingEdges(v)[i].dest
    {
      Dests(GetOutgoingEdges(v))
    }

    /** `get_incoming_vertex_ids`: the source of each incoming edge of `v`, in the same order. */
    function GetIncomingVertexIds(v: int): (r: seq<int>)
      reads this
      requires ListsStored(vertexMap, edgeMap) && v in vertexMap
      ensures |r| == |GetIncomingEdges(v)|
      ensures forall i :: 0 <= i < |r| ==> r[i] == GetIncomingEdges(v)[i].source
    {
      Sources(GetIncomingEdges(v))
    }

    /** `get_outgoing_connection_weight`: the weight of the first outgoing edge of `v` that ends at `dest`. */
    function GetOutgoingConnectionWeight(v: int, dest: int): (r: Option<int>)
      reads this
      requires ListsStored(vertexMap, edgeMap) && v in vertexMap
    {
      OutWeight(vertexMap, edgeMap, v, dest)
    }

    /** `get_incoming_connection_weight`: the weight of the first incoming edge of `v` that starts at `source`. */
    function GetIncomingConnectionWeight(source: int, v: int): (r: Option<int>)
      reads this
      requires ListsStored(vertexMap, edgeMap) && v in vertexMap
    {
      InWeight(vertexMap, edgeMap, source, v)
    }

    /**
     * The outgoing edges of `v` are exactly the stored edges whose source is
     * `v`, each once, by strictly ascending id.
     */
    lemma OutgoingEdgesSpec(v: int)
      requires Valid() && v in vertexMap
      ensures ListsLeaving(edgeMap, v, GetOutgoingEdges(v))
    {
      OutEdgesSpec(vertexMap, edgeMap, nextEdgeId, v);
    }

    /** The incoming edges of `v` are exactly the stored edges whose dest is `v`, each once, by ascending id. */
    lemma IncomingEdgesSpec(v: int)
      requires Valid() && v in vertexMap
      ensures ListsEntering(edgeMap, v, GetIncomingEdges(v))
    {
      InEdgesSpec(vertexMap, edgeMap, nextEdgeId, v);
    }

    /**
     * `get_outgoing_vertex_ids` yields one entry per outgoing edge, so parallel
     * edges repeat their dest, and `u` occurs in it iff some stored edge runs
     * from `v` to `u`.
     */
    lemma OutgoingVertexIdsSpec(v: int)
      requires Valid() && v in vertexMap
      ensures |GetOutgoingVertexIds(v)| == |vertexMap[v].outgoing|
      ensures forall u :: u in GetOutgoingVertexIds(v) <==> exists e :: Runs(edgeMap, e, v, u)
    {
      AscendingCard(vertexMap[v].outgoing);
      OutgoingEdgesSpec(v);
      DestsSpec(edgeMap, v, GetOutgoingEdges(v));
    }

    /** The mirror of `OutgoingVertexIdsSpec` on incoming edges and their sources. */
    lemma IncomingVertexIdsSpec(v: int)
      requires Valid() && v in vertexMap
      ensures |GetIncomingVertexIds(v)| == |vertexMap[v].incoming|
      ensures forall u :: u in GetIncomingVertexIds(v) <==> exists e :: Runs(edgeMap, e, u, v)
    {
      AscendingCard(vertexMap[v].incoming);
      IncomingEdgesSpec(v);
      SourcesSpec(edgeMap, v, GetIncomingEdges(v));
    }

    /**
     * `get_outgoing_connection_weight(v, d)` is None iff no stored edge runs
     * from `v` to `d`, and otherwise the weight of the lowest-id such edge.
     */
    lemma OutgoingConnectionWeightSpec(v: int, d: int)
      requires Valid() && v in vertexMap
      ensures GetOutgoingConnectionWeight(v, d).None? <==> !exists e :: Runs(edgeMap, e, v, d)
      ensures GetOutgoingConnectionWeight(v, d).Some? ==>
                exists e :: && Runs(edgeMap, e, v, d) && edgeMap[e].weight == GetOutgoingConnectionWeight(v, d).value
                            && forall e' :: Runs(edgeMap, e', v, d) ==> e <= e'
    {
      OutgoingEdgesSpec(v);
      FirstWeightToSpec(edgeMap, v, d, GetOutgoingEdges(v));
    }

    /**
     * `get_incoming_connection_weight(s, v)` is None iff no stored edge runs
     * from `s` to `v`, and otherwise the weight of the lowest-id such edge.
     */
    lemma IncomingConnectionWeightSpec(s: int, v: int)
      requires Valid() && v in vertexMap
      ensures GetIncomingConnectionWeight(s, v).None? <==> !exists e :: Runs(edgeMap, e, s, v)
      ensures GetIncomingConnectionWeight(s, v).Some? ==>
                exists e :: && Runs(edgeMap, e, s, v) && edgeMap[e].weight == GetIncomingConnectionWeight(s, v).value
                            && forall e' :: Runs(edgeMap, e', s, v) ==> e <= e'
    {
      IncomingEdgesSpec(v);
      FirstWeightFromSpec(edgeMap, s, v, GetIncomingEdges(v));
    }

    /**
     * `adjust_edges`: sets each edge's weight to its weight plus the source's
     * adjustment minus the dest's. Vertices, ids and endpoints stay as they were.
     */
    method AdjustEdges()
      requires Valid()
      modifies this
      ensures Valid()
      ensures vertexMap == old(vertexMap) && nextEdgeId == old(nextEdgeId)
      ensures edgeMap.Keys == old(edgeMap).Keys
      ensures forall e :: e in edgeMap ==> edgeMap[e] == Adjusted(vertexMap, old(edgeMap)[e])
    {
      ghost var em0 := edgeMap;
      var ids := GetEdgeIds();
      ReweightEdges(ids);
      ReweightConsistent(vertexMap, em0, edgeMap, nextEdgeId);
    }

    /** The loop of `adjust_edges`: re-weights the edges under `ids`, in that order. */
    method ReweightEdges(ids: seq<int>)
      requires StrictlyIncreasing(ids) && Elems(ids) == edgeMap.Keys
      requires forall e :: e in edgeMap ==> edgeMap[e].source in vertexMap && edgeMap[e].dest in vertexMap
      modifies this
      ensures vertexMap == old(vertexMap) && nextEdgeId == old(nextEdgeId)
      ensures edgeMap.Keys == old(edgeMap).Keys
      ensures forall e :: e in edgeMap ==> edgeMap[e] == Adjusted(vertexMap, old(edgeMap)[e])
    {
      ghost var em0 := edgeMap;
      ghost var done: set<int> := {};
      for k := 0 to |ids|
        invariant vertexMap == old(vertexMap) && nextEdgeId == old(nextEdgeId)
        invariant edgeMap.Keys == em0.Keys
        invariant forall j :: 0 <= j < k ==> ids[j] in done
        invariant forall j :: k <= j < |ids| ==> ids[j] !in done
        invariant forall e :: e in edgeMap ==>
                    edgeMap[e] == if e in done then Adjusted(vertexMap, em0[e]) else em0[e]
      {
        var id := ids[k];
        assert id in Elems(ids);
        var edge := edgeMap[id];
        var sourceAdjustment := vertexMap[edge.source].adjustment;
        var destAdjustment := vertexMap[edge.dest].adjustment;
        edgeMap := edgeMap[id := edge.(weight := edge.weight + sourceAdjustment - destAdjustment)];
        forall j | k < j < |ids| ensures ids[j] != id { assert ids[k] < ids[j]; }
        done := done + {id};
      }
      forall e | e in edgeMap ensures e in done {
        assert e in Elems(ids);
      }
    }

    /**
     * `verify_path`: walks the consecutive pairs of `path` from the front,
     * adding each pair's outgoing connection weight, and returns None at the
     * first pair without an edge. The path must be non-empty, and when it has
     * a pair its first vertex must exist; every later vertex it reaches is the
     * dest of a stored edge and so exists too.
     */
    method VerifyPath(path: seq<int>) returns (r: Option<int>)
      requires ListsStored(vertexMap, edgeMap) && |path| >= 1 && (|path| >= 2 ==> path[0] in vertexMap)
      ensures r == PathWeight(vertexMap, edgeMap, path)
    {
      var vm, em := vertexMap, edgeMap;
      ghost var ws := HopWeights(vm, em, path);
      var total := 0;
      for i := 0 to |path| - 1
        invariant |path| >= 2 ==> path[i] in vm
        invariant WalkSum(ws[..i]) == Some(total)
      {
        var weight := OutWeight(vm, em, path[i], path[i + 1]);
        assert ws[i] == weight;
        WalkSumStep(ws, i, total, weight);
        if weight.Some? {
          HopTarget(vm, em, path[i], path[i + 1]);
          total := total + weight.value;
        } else {
          return None;
        }
      }
      assert ws[..|path| - 1] == ws;
      r := Some(total);
    }
  }
}
