/**
 * The 2-SAT decision: the implication graph over the literals `i` and `-i`
 * of the variables `1..n` is searched for its strongly connected components,
 * and the formula is reported satisfiable exactly when no variable has both
 * of its literals in one component.
 */
module TwoSat {
  import opened Wrappers
  import opened Ordered
  import opened DirGraph
  import opened Search
  import opened Scc
  import opened Kosaraju

  /** The two literals of variable `i` are in different groups, or in none and a group; as options, they differ. */
  predicate Separate(group: map<int, int>, i: int)
  {
    Get(group, i) != Get(group, -i)
  }

  /** Neither literal of variable `i` has a group. */
  predicate Ungrouped(group: map<int, int>, i: int)
  {
    i !in group && -i !in group
  }

  /** Both literals of variable `i` are vertices. */
  predicate BothLiterals<V>(m: map<int, V>, i: int)
  {
    i in m && -i in m
  }

  /** The two literals of variable `i` do not reach each other. */
  ghost predicate Apart(g: Adj, i: int)
  {
    !Mutual(g, i, -i)
  }

  /**
   * The check at the end of `main`: for each variable `1..n` in turn, the
   * groups of its two literals are compared as options, and the first match
   * stops the loop with the constraints unmet. A variable neither of whose
   * literals has a group is such a match. The engine is only read.
   */
  method ConstraintsMet(k: Kosaraju, numVariables: nat) returns (met: bool)
    ensures met <==> forall i :: 1 <= i <= numVariables ==> Separate(k.vertexSccMap, i)
    ensures (exists i :: 1 <= i <= numVariables && Ungrouped(k.vertexSccMap, i)) ==> !met
  {
    met := true;
    var i := 0;
    while i < numVariables
      invariant 0 <= i <= numVariables
      invariant forall j :: 1 <= j <= i ==> Separate(k.vertexSccMap, j)
    {
      var vertexId := i + 1;
      var notVertexId := 0 - vertexId;
      if k.GetGroup(vertexId) == k.GetGroup(notVertexId) {
        met := false;
        assert !Separate(k.vertexSccMap, vertexId);
        break;
      }
      i := i + 1;
    }
    if exists j :: 1 <= j <= numVariables && Ungrouped(k.vertexSccMap, j) {
      var j :| 1 <= j <= numVariables && Ungrouped(k.vertexSccMap, j);
      assert !Separate(k.vertexSccMap, j);
    }
  }

  /**
   * When every literal of `1..n` is a vertex of `g` and groups are exactly
   * the components of `g`, the check passes exactly when no variable's two
   * literals reach each other.
   */
  lemma DecisionMeansApart(g: Adj, group: map<int, int>, n: nat)
    requires forall u :: u in g ==> u in group
    requires forall u, v :: u in g && v in g ==> (group[u] == group[v] <==> Mutual(g, u, v))
    requires forall i :: 1 <= i <= n ==> BothLiterals(g, i)
    ensures (forall i :: 1 <= i <= n ==> Separate(group, i)) <==> (forall i :: 1 <= i <= n ==> Apart(g, i))
  {
    forall i | 1 <= i <= n ensures Separate(group, i) <==> Apart(g, i) {
      assert BothLiterals(g, i);
    }
  }

  /**
   * The decision `main` prints, over a graph declaring every literal of the
   * `numVariables` variables: a fresh engine with the explicit-stack first
   * pass finds the components, and the answer is 1 exactly when no
   * variable's two literals reach each other along outgoing edges.
   */
  method Decide(graph: DirectedGraph, numVariables: nat) returns (met: bool)
    requires Consistent(graph.vertexMap, graph.edgeMap, graph.nextEdgeId)
    requires forall i :: 1 <= i <= numVariables ==> BothLiterals(graph.vertexMap, i)
    ensures met <==> forall i :: 1 <= i <= numVariables ==> Apart(OutGraph(graph.vertexMap, graph.edgeMap), i)
  {
    var k := new Kosaraju(graph, true);
    k.FindScc();
    ComponentsFound(k.out, k.inn, Ascending(k.vm.Keys), map[]);
    OutViewIs(k.vm, k.em, k.out);
    met := ConstraintsMet(k, numVariables);
    forall i | 1 <= i <= numVariables ensures BothLiterals(k.out, i) {
      assert BothLiterals(graph.vertexMap, i);
    }
    DecisionMeansApart(k.out, k.vertexSccMap, numVariables);
  }
}
