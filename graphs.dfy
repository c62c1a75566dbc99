/**
 * A directed graph in the manner of a networkx DiGraph: a map from node keys
 * to attribute dictionaries and a set of edges, plus the chain-shaped graphs
 * the plan builders produce and the facts about chains they rely on.
 */
module Graphs {
  import opened Plans

  /**
   * Node keys. The two sentinels are the literal keys "start" and "end"; an
   * action node is keyed by its name and parameters, rendered differently by
   * the sequential and the time-triggered builder. Rendering always appends
   * the parameter tuple, so no action key is ever a sentinel key.
   */
  datatype Key =
    | Start
    | End
    | SeqAct(name: string, params: seq<Obj>)
    | TTAct(name: string, params: seq<Obj>)
  {
    predicate IsSentinel() { this == Start || this == End }
  }

  datatype AttrName = ActionAttr | ParametersAttr
  datatype AttrValue = NameValue(name: string) | ParamsValue(params: seq<Obj>)

  /** A node's attribute dictionary. */
  type Attrs = map<AttrName, AttrValue>

  type Edge = (Key, Key)

  /** The value of a graph: its nodes with their attributes, and its edges. */
  datatype Graph = Graph(nodes: map<Key, Attrs>, edges: set<Edge>)
  {
    /** Every edge joins two nodes of the graph. */
    predicate Valid()
    {
      forall e :: e in edges ==> e.0 in nodes && e.1 in nodes
    }
  }

  /** The node map after `k` is added with `attrs`, merged into any attributes it already has. */
  function Updated(nodes: map<Key, Attrs>, k: Key, attrs: Attrs): map<Key, Attrs>
  {
    nodes[k := if k in nodes then nodes[k] + attrs else attrs]
  }

  /** The node map after `k` is made a node, with no attributes if it was absent. */
  function WithNode(nodes: map<Key, Attrs>, k: Key): map<Key, Attrs>
  {
    if k in nodes then nodes else nodes[k := map[]]
  }

  /** A mutable directed graph, updated in place by `AddNode` and `AddEdge`. */
  class DiGraph {
    var nodes: map<Key, Attrs>
    var edges: set<Edge>

    function Value(): Graph
      reads this
    {
      Graph(nodes, edges)
    }

    predicate Valid()
      reads this
    {
      Value().Valid()
    }

    /** An empty graph. */
    constructor ()
      ensures Valid()
      ensures nodes == map[] && edges == {}
    {
      nodes := map[];
      edges := {};
    }

    /**
     * Adds `k` as a node. A new node gets `attrs`; an existing one keeps its
     * attributes, overwritten by those in `attrs`.
     */
    method AddNode(k: Key, attrs: Attrs)
      requires Valid()
      modifies this
      ensures Valid()
      ensures nodes == Updated(old(nodes), k, attrs)
      ensures edges == old(edges)
    {
      nodes := Updated(nodes, k, attrs);
    }

    /**
     * Adds the edge `u -> v`, adding either endpoint as a node without
     * attributes when it is not one yet. Adding an existing edge changes nothing.
     */
    method AddEdge(u: Key, v: Key)
      requires Valid()
      modifies this
      ensures Valid()
      ensures nodes == WithNode(WithNode(old(nodes), u), v)
      ensures edges == old(edges) + {(u, v)}
    {
      nodes := WithNode(WithNode(nodes, u), v);
      edges := edges + {(u, v)};
    }
  }

  /** The set of keys occurring in `c`. */
  function Elements(c: seq<Key>): set<Key>
  {
    set k | k in c
  }

  predicate Distinct(c: seq<Key>)
  {
    forall i, j :: 0 <= i < j < |c| ==> c[i] != c[j]
  }

  /** The edges `c[0] -> c[1] -> ... -> c[|c| - 1]`. */
  function ChainEdges(c: seq<Key>): set<Edge>
  {
    set i {:trigger c[i]} | 0 <= i < |c| - 1 :: (c[i], c[i + 1])
  }

  /** `start`, then the action keys, none of them a sentinel, then `end`. */
  predicate SentinelChain(c: seq<Key>)
  {
    && 2 <= |c|
    && c[0] == Start
    && c[|c| - 1] == End
    && forall i :: 0 < i < |c| - 1 ==> !c[i].IsSentinel()
  }

  /** `p` follows edges of `edges` from its first key to its last. */
  ghost predicate IsPath(edges: set<Edge>, p: seq<Key>)
  {
    forall i :: 0 <= i < |p| - 1 ==> (p[i], p[i + 1]) in edges
  }

  /** No path of one edge or more returns to where it started. */
  ghost predicate Acyclic(edges: set<Edge>)
  {
    forall p :: 2 <= |p| && IsPath(edges, p) ==> p[0] != p[|p| - 1]
  }

  // ---------------------------------------------------------------------
  // Facts about chains
  // ---------------------------------------------------------------------

  lemma ChainEdgesSnoc(c: seq<Key>, k: Key)
    requires 1 <= |c|
    ensures ChainEdges(c + [k]) == ChainEdges(c) + {(c[|c| - 1], k)}
  {
    var d := c + [k];
    forall e | e in ChainEdges(d) ensures e in ChainEdges(c) + {(c[|c| - 1], k)} {
      var i :| 0 <= i < |d| - 1 && e == (d[i], d[i + 1]);
      if i < |c| - 1 {
        assert e == (c[i], c[i + 1]);
      }
    }
    forall e | e in ChainEdges(c) + {(c[|c| - 1], k)} ensures e in ChainEdges(d) {
      if e in ChainEdges(c) {
        var i :| 0 <= i < |c| - 1 && e == (c[i], c[i + 1]);
        assert e == (d[i], d[i + 1]);
      } else {
        assert e == (d[|c| - 1], d[|c|]);
      }
    }
  }

  /** A chain has at most as many distinct keys as entries, exactly as many when its keys are distinct. */
  lemma {:induction false} ElementsCard(c: seq<Key>)
    ensures |Elements(c)| <= |c|
    ensures |Elements(c)| == |c| <==> Distinct(c)
  {
    if c == [] {
      assert Elements(c) == {};
    } else {
      var init, k := c[..|c| - 1], c[|c| - 1];
      assert c == init + [k];
      ElementsCard(init);
      assert Elements(c) == Elements(init) + {k};
      if k in init {
        assert Elements(c) == Elements(init);
        var j :| 0 <= j < |init| && init[j] == k;
        assert c[j] == c[|c| - 1];
      } else {
        assert |Elements(c)| == |Elements(init)| + 1;
        if Distinct(init) {
          forall i, j | 0 <= i < j < |c| ensures c[i] != c[j] {
            if j < |c| - 1 { assert c[i] == init[i] && c[j] == init[j]; }
            else { assert c[i] in init; }
          }
        } else {
          var i, j :| 0 <= i < j < |init| && init[i] == init[j];
          assert c[i] == c[j];
        }
      }
    }
  }

  /** A chain over distinct keys has one edge fewer than it has keys. */
  lemma {:induction false} ChainEdgesCard(c: seq<Key>)
    requires 1 <= |c| && Distinct(c)
    ensures |ChainEdges(c)| == |c| - 1
  {
    if |c| == 1 {
      assert ChainEdges(c) == {};
    } else {
      var init, k := c[..|c| - 1], c[|c| - 1];
      assert c == init + [k];
      ChainEdgesCard(init);
      ChainEdgesSnoc(init, k);
    }
  }

  /** The chain itself is a path through its own edges. */
  lemma ChainIsPath(c: seq<Key>)
    ensures IsPath(ChainEdges(c), c)
  {
    forall i | 0 <= i < |c| - 1 ensures (c[i], c[i + 1]) in ChainEdges(c) {
    }
  }

  /** Along a path in a chain of distinct keys, the j-th key sits j places after the first. */
  lemma {:induction false} PathAdvances(c: seq<Key>, p: seq<Key>, i0: nat, j: nat)
    requires Distinct(c) && IsPath(ChainEdges(c), p)
    requires j < |p|
    requires i0 < |c| && p[0] == c[i0]
    ensures i0 + j < |c| && p[j] == c[i0 + j]
  {
    if j > 0 {
      PathAdvances(c, p, i0, j - 1);
      assert (p[j - 1], p[j]) in ChainEdges(c);
      var i :| 0 <= i < |c| - 1 && (p[j - 1], p[j]) == (c[i], c[i + 1]);
      assert i == i0 + j - 1;
    }
  }

  /** A chain has no cycle exactly when its keys are distinct. */
  lemma ChainAcyclic(c: seq<Key>)
    ensures Acyclic(ChainEdges(c)) <==> Distinct(c)
  {
    if Distinct(c) {
      forall p | 2 <= |p| && IsPath(ChainEdges(c), p) ensures p[0] != p[|p| - 1] {
        assert (p[0], p[1]) in ChainEdges(c);
        var i0 :| 0 <= i0 < |c| - 1 && (p[0], p[1]) == (c[i0], c[i0 + 1]);
        PathAdvances(c, p, i0, |p| - 1);
      }
    } else {
      var i, j :| 0 <= i < j < |c| && c[i] == c[j];
      var p := c[i..j + 1];
      forall k | 0 <= k < |p| - 1 ensures (p[k], p[k + 1]) in ChainEdges(c) {
        assert (p[k], p[k + 1]) == (c[i + k], c[i + k + 1]);
      }
      assert IsPath(ChainEdges(c), p) && 2 <= |p| && p[0] == p[|p| - 1];
    }
  }

  /** A graph whose nodes are the keys of a chain and whose edges are the chain's is valid. */
  lemma ChainGraphValid(nodes: map<Key, Attrs>, c: seq<Key>)
    requires nodes.Keys == Elements(c)
    ensures Graph(nodes, ChainEdges(c)).Valid()
  {
    forall e | e in ChainEdges(c) ensures e.0 in c && e.1 in c {
      var i :| 0 <= i < |c| - 1 && e == (c[i], c[i + 1]);
    }
  }

  /**
   * In a chain from `start` to `end`: `start` has no incoming edge and one
   * outgoing edge, `end` has no outgoing edge and one incoming edge.
   */
  lemma SentinelChainEnds(c: seq<Key>)
    requires SentinelChain(c)
    ensures (Start, c[1]) in ChainEdges(c) && (c[|c| - 2], End) in ChainEdges(c)
    ensures forall e :: e in ChainEdges(c) ==> e.1 != Start && e.0 != End
    ensures forall e :: e in ChainEdges(c) && e.0 == Start ==> e.1 == c[1]
    ensures forall e :: e in ChainEdges(c) && e.1 == End ==> e.0 == c[|c| - 2]
  {
    assert (Start, c[1]) == (c[0], c[0 + 1]);
    assert (c[|c| - 2], End) == (c[|c| - 2], c[|c| - 2 + 1]);
    forall e | e in ChainEdges(c)
      ensures e.1 != Start && e.0 != End
      ensures e.0 == Start ==> e.1 == c[1]
      ensures e.1 == End ==> e.0 == c[|c| - 2]
    {
      var i :| 0 <= i < |c| - 1 && e == (c[i], c[i + 1]);
      if 0 < i { assert !c[i].IsSentinel(); }
      if i + 1 < |c| - 1 { assert !c[i + 1].IsSentinel(); }
    }
  }

  /** Renaming keys along a chain renames its edges. */
  lemma ChainEdgesRename(c: seq<Key>, d: seq<Key>, h: Key -> Key)
    requires |d| == |c| && forall i :: 0 <= i < |c| ==> d[i] == h(c[i])
    ensures ChainEdges(d) == set e | e in ChainEdges(c) :: (h(e.0), h(e.1))
  {
    forall e | e in ChainEdges(d) ensures e in set e | e in ChainEdges(c) :: (h(e.0), h(e.1)) {
      var i :| 0 <= i < |d| - 1 && e == (d[i], d[i + 1]);
      assert (c[i], c[i + 1]) in ChainEdges(c);
    }
    forall e | e in ChainEdges(c) ensures (h(e.0), h(e.1)) in ChainEdges(d) {
      var i :| 0 <= i < |c| - 1 && e == (c[i], c[i + 1]);
      assert (h(e.0), h(e.1)) == (d[i], d[i + 1]);
    }
  }
}
