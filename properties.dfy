/**
 * What the builders guarantee about the graphs they produce: the sentinels,
 * the chain shape, the stored attributes, when the graph is acyclic, and how
 * the time-triggered graph relates to the sequential one.
 */
module DependencyGraphProperties {
  import opened Plans
  import opened Graphs
  import opened DependencyGraph

  /** The action list a supported plan is built from. */
  function PlanActions(plan: Plan): seq<ActionInstance>
    requires !plan.Other?
  {
    if plan.Sequential? then plan.actions else ActionsOf(plan.timedActions)
  }

  /** The key chain a supported plan's graph is built along. */
  function PlanChain(plan: Plan): seq<Key>
    requires !plan.Other?
  {
    Chain(if plan.Sequential? then SequentialKeys(plan.actions) else TimeTriggeredKeys(plan.timedActions))
  }

  // ---------------------------------------------------------------------
  // Keys
  // ---------------------------------------------------------------------

  /** Wrapping action keys in the sentinels keeps them distinct exactly when they were. */
  lemma ChainOfActionKeys(keys: seq<Key>)
    requires forall i :: 0 <= i < |keys| ==> !keys[i].IsSentinel()
    ensures SentinelChain(Chain(keys)) && |Chain(keys)| == |keys| + 2
    ensures Distinct(Chain(keys)) <==> Distinct(keys)
  {
    var c := Chain(keys);
    assert forall i :: 0 < i < |c| - 1 ==> c[i] == keys[i - 1];
    if Distinct(keys) {
      forall i, j | 0 <= i < j < |c| ensures c[i] != c[j] {
        if 0 < i && j < |c| - 1 {
          assert c[i] == keys[i - 1] && c[j] == keys[j - 1];
        } else if 0 < j < |c| - 1 {
          assert !c[j].IsSentinel();
        } else if 0 < i < |c| - 1 {
          assert !c[i].IsSentinel();
        }
      }
    }
    if Distinct(c) {
      forall i, j | 0 <= i < j < |keys| ensures keys[i] != keys[j] {
        assert keys[i] == c[i + 1] && keys[j] == c[j + 1];
      }
    }
  }

  /** Two actions share a sequential node key exactly when they are the same name and parameters. */
  lemma SequentialKeysDistinct(actions: seq<ActionInstance>)
    ensures forall i :: 0 <= i < |actions| ==> !SequentialKeys(actions)[i].IsSentinel()
    ensures forall i, j :: 0 <= i < |actions| && 0 <= j < |actions| ==>
              (SequentialKeys(actions)[i] == SequentialKeys(actions)[j] <==> actions[i] == actions[j])
    ensures Distinct(SequentialKeys(actions)) <==> DistinctActions(actions)
  {
    var keys := SequentialKeys(actions);
    if !DistinctActions(actions) {
      var i, j :| 0 <= i < j < |actions| && actions[i] == actions[j];
      assert keys[i] == keys[j];
    }
  }

  /** Two timed actions share a node key exactly when their actions are the same name and parameters. */
  lemma TimeTriggeredKeysDistinct(timed: seq<TimedAction>)
    ensures forall i :: 0 <= i < |timed| ==> !TimeTriggeredKeys(timed)[i].IsSentinel()
    ensures forall i, j :: 0 <= i < |timed| && 0 <= j < |timed| ==>
              (TimeTriggeredKeys(timed)[i] == TimeTriggeredKeys(timed)[j] <==> timed[i].action == timed[j].action)
    ensures Distinct(TimeTriggeredKeys(timed)) <==> DistinctActions(ActionsOf(timed))
  {
    var keys, actions := TimeTriggeredKeys(timed), ActionsOf(timed);
    if !DistinctActions(actions) {
      var i, j :| 0 <= i < j < |actions| && actions[i] == actions[j];
      assert keys[i] == keys[j];
    }
    if !Distinct(keys) {
      var i, j :| 0 <= i < j < |keys| && keys[i] == keys[j];
      assert actions[i] == actions[j];
    }
  }

  /** A supported plan's graph is the chain graph over its keys. */
  lemma PlanChainFacts(plan: Plan)
    requires !plan.Other?
    ensures PlanGraph(plan).Ok?
    ensures PlanGraph(plan).value.nodes.Keys == Elements(PlanChain(plan))
    ensures PlanGraph(plan).value.edges == ChainEdges(PlanChain(plan))
    ensures SentinelChain(PlanChain(plan)) && |PlanChain(plan)| == |PlanActions(plan)| + 2
    ensures Distinct(PlanChain(plan)) <==> DistinctActions(PlanActions(plan))
  {
    if plan.Sequential? {
      SequentialKeysDistinct(plan.actions);
      ChainOfActionKeys(SequentialKeys(plan.actions));
    } else {
      TimeTriggeredKeysDistinct(plan.timedActions);
      ChainOfActionKeys(TimeTriggeredKeys(plan.timedActions));
    }
  }

  // ---------------------------------------------------------------------
  // Both builders
  // ---------------------------------------------------------------------

  /**
   * `start` has a successor and no predecessor, `end` a predecessor and no
   * successor, and each has exactly one neighbour.
   */
  lemma SentinelEdges(plan: Plan)
    requires !plan.Other?
    ensures PlanGraph(plan).Ok?
    ensures Start in PlanGraph(plan).value.nodes && End in PlanGraph(plan).value.nodes
    ensures forall e :: e in PlanGraph(plan).value.edges ==> e.1 != Start && e.0 != End
    ensures exists v :: (Start, v) in PlanGraph(plan).value.edges
    ensures exists u :: (u, End) in PlanGraph(plan).value.edges
    ensures forall e, f :: (e in PlanGraph(plan).value.edges && f in PlanGraph(plan).value.edges &&
              e.0 == Start && f.0 == Start) ==> e == f
    ensures forall e, f :: (e in PlanGraph(plan).value.edges && f in PlanGraph(plan).value.edges &&
              e.1 == End && f.1 == End) ==> e == f
  {
    PlanChainFacts(plan);
    var c := PlanChain(plan);
    SentinelChainEnds(c);
    assert c[0] in c && c[|c| - 1] in c;
  }

  /** Every node lies on one path that leads from `start` to `end`. */
  lemma EveryNodeOnStartEndPath(plan: Plan)
    requires !plan.Other?
    ensures PlanGraph(plan).Ok?
    ensures exists p :: IsPath(PlanGraph(plan).value.edges, p) && 2 <= |p| && p[0] == Start
              && p[|p| - 1] == End && forall k :: k in PlanGraph(plan).value.nodes ==> k in p
  {
    PlanChainFacts(plan);
    var c := PlanChain(plan);
    ChainIsPath(c);
    assert IsPath(PlanGraph(plan).value.edges, c);
  }

  /**
   * A plan of N actions gives at most N + 2 nodes, exactly N + 2 precisely
   * when no two actions have the same name and parameters, and then exactly
   * N + 1 edges.
   */
  lemma ChainShape(plan: Plan)
    requires !plan.Other?
    ensures PlanGraph(plan).Ok?
    ensures |PlanGraph(plan).value.nodes| <= |PlanActions(plan)| + 2
    ensures |PlanGraph(plan).value.nodes| == |PlanActions(plan)| + 2 <==> DistinctActions(PlanActions(plan))
    ensures DistinctActions(PlanActions(plan)) ==> |PlanGraph(plan).value.edges| == |PlanActions(plan)| + 1
  {
    PlanChainFacts(plan);
    var c := PlanChain(plan);
    ElementsCard(c);
    assert |PlanGraph(plan).value.nodes| == |Elements(c)|;
    if DistinctActions(PlanActions(plan)) {
      ChainEdgesCard(c);
    }
  }

  /** The graph has no cycle exactly when no two actions have the same name and parameters. */
  lemma AcyclicIffDistinct(plan: Plan)
    requires !plan.Other?
    ensures PlanGraph(plan).Ok?
    ensures Acyclic(PlanGraph(plan).value.edges) <==> DistinctActions(PlanActions(plan))
  {
    PlanChainFacts(plan);
    ChainAcyclic(PlanChain(plan));
  }

  /** An empty plan gives just `start -> end`. */
  lemma EmptyPlan()
    ensures SequentialGraph([]) == Graph(map[Start := SentinelAttrs("start"), End := SentinelAttrs("end")], {(Start, End)})
    ensures TimeTriggeredGraph([]) == Graph(map[Start := map[], End := map[]], {(Start, End)})
  {
    var c := Chain([]);
    assert c == [Start, End];
    assert ChainEdges(c) == {(Start, End)} by {
      assert (Start, End) == (c[0], c[0 + 1]);
    }
  }

  // ---------------------------------------------------------------------
  // The sequential builder
  // ---------------------------------------------------------------------

  /** The sentinels carry their own name as action and no parameters. */
  lemma SequentialSentinels(actions: seq<ActionInstance>)
    ensures Start in SequentialGraph(actions).nodes && End in SequentialGraph(actions).nodes
    ensures SequentialGraph(actions).nodes[Start][ActionAttr] == NameValue("start")
    ensures SequentialGraph(actions).nodes[Start][ParametersAttr] == ParamsValue([])
    ensures SequentialGraph(actions).nodes[End][ActionAttr] == NameValue("end")
    ensures SequentialGraph(actions).nodes[End][ParametersAttr] == ParamsValue([])
  {
    var c := Chain(SequentialKeys(actions));
    assert c[0] in c && c[|c| - 1] in c;
  }

  /**
   * Each action has a node storing its name and its parameters in order,
   * and every node other than the sentinels is such an action node.
   */
  lemma SequentialNodeAttributes(actions: seq<ActionInstance>)
    ensures forall i :: 0 <= i < |actions| ==>
              && SequentialKey(actions[i]) in SequentialGraph(actions).nodes
              && SequentialGraph(actions).nodes[SequentialKey(actions[i])][ActionAttr] == NameValue(actions[i].name)
              && SequentialGraph(actions).nodes[SequentialKey(actions[i])][ParametersAttr] == ParamsValue(actions[i].params)
    ensures forall k :: k in SequentialGraph(actions).nodes && !k.IsSentinel() ==>
              exists i :: 0 <= i < |actions| && k == SequentialKey(actions[i])
  {
    var keys := SequentialKeys(actions);
    var c := Chain(keys);
    forall i | 0 <= i < |actions| ensures SequentialKey(actions[i]) in c {
      assert c[i + 1] == SequentialKey(actions[i]);
    }
    forall k | k in c && !k.IsSentinel() ensures exists i :: 0 <= i < |actions| && k == SequentialKey(actions[i]) {
      var j :| 0 <= j < |c| && c[j] == k;
      assert keys[j - 1] == k;
    }
  }

  /** Two consecutive identical actions collapse into one node with an edge to itself. */
  lemma RepeatedActionSelfLoop(actions: seq<ActionInstance>, i: nat)
    requires i + 1 < |actions| && actions[i] == actions[i + 1]
    ensures (SequentialKey(actions[i]), SequentialKey(actions[i])) in SequentialGraph(actions).edges
    ensures !Acyclic(SequentialGraph(actions).edges)
  {
    var c := Chain(SequentialKeys(actions));
    assert (c[i + 1], c[i + 2]) in ChainEdges(c);
    assert IsPath(ChainEdges(c), [c[i + 1], c[i + 2]]);
  }

  // ---------------------------------------------------------------------
  // The time-triggered builder
  // ---------------------------------------------------------------------

  /** The time-triggered key of an action node with the same name and parameters. */
  function Retag(k: Key): Key
  {
    if k.SeqAct? then TTAct(k.name, k.params) else k
  }

  /** The time-triggered chain is the sequential chain of the listed actions, retagged. */
  lemma RetaggedChain(timed: seq<TimedAction>)
    ensures |Chain(TimeTriggeredKeys(timed))| == |Chain(SequentialKeys(ActionsOf(timed)))|
    ensures forall i :: 0 <= i < |Chain(TimeTriggeredKeys(timed))| ==>
              Chain(TimeTriggeredKeys(timed))[i] == Retag(Chain(SequentialKeys(ActionsOf(timed)))[i])
  {
    var sc := Chain(SequentialKeys(ActionsOf(timed)));
    var tc := Chain(TimeTriggeredKeys(timed));
    assert |sc| == |tc|;
    forall i | 0 <= i < |sc| ensures tc[i] == Retag(sc[i]) {
      if 0 < i < |sc| - 1 {
        assert sc[i] == SequentialKey(timed[i - 1].action);
        assert tc[i] == TimeTriggeredKey(timed[i - 1].action);
      }
    }
  }

  /**
   * The time-triggered graph has the nodes of the sequential graph of the
   * listed actions, with action keys rendered the time-triggered way, and
   * stores no attributes on any of them.
   */
  lemma TimeTriggeredNodes(timed: seq<TimedAction>)
    ensures forall k :: k in TimeTriggeredGraph(timed).nodes ==> TimeTriggeredGraph(timed).nodes[k] == map[]
    ensures TimeTriggeredGraph(timed).nodes.Keys
         == set k | k in SequentialGraph(ActionsOf(timed)).nodes :: Retag(k)
  {
    var sc := Chain(SequentialKeys(ActionsOf(timed)));
    var tc := Chain(TimeTriggeredKeys(timed));
    RetaggedChain(timed);
    assert TimeTriggeredGraph(timed).nodes.Keys == Elements(tc);
    assert SequentialGraph(ActionsOf(timed)).nodes.Keys == Elements(sc);
    forall k | k in tc ensures k in set k | k in sc :: Retag(k) {
      var i :| 0 <= i < |tc| && tc[i] == k;
      assert k == Retag(sc[i]);
    }
    forall k | k in sc ensures Retag(k) in tc {
      var i :| 0 <= i < |sc| && sc[i] == k;
      assert Retag(k) == tc[i];
    }
  }

  /**
   * The time-triggered graph has the edges of the sequential graph of the
   * listed actions, with action keys rendered the time-triggered way.
   */
  lemma TimeTriggeredEdges(timed: seq<TimedAction>)
    ensures TimeTriggeredGraph(timed).edges
         == set e | e in SequentialGraph(ActionsOf(timed)).edges :: (Retag(e.0), Retag(e.1))
  {
    var sc := Chain(SequentialKeys(ActionsOf(timed)));
    RetaggedChain(timed);
    ChainEdgesRename(sc, Chain(TimeTriggeredKeys(timed)), Retag);
  }

  /** Start times and durations do not affect the time-triggered graph. */
  lemma TimeTriggeredIgnoresTiming(timed: seq<TimedAction>, timed': seq<TimedAction>)
    requires ActionsOf(timed) == ActionsOf(timed')
    ensures TimeTriggeredGraph(timed) == TimeTriggeredGraph(timed')
  {
    assert |timed| == |ActionsOf(timed)|;
    assert TimeTriggeredKeys(timed) == TimeTriggeredKeys(timed') by {
      forall i | 0 <= i < |timed| ensures timed[i].action == timed'[i].action {
        assert ActionsOf(timed)[i] == ActionsOf(timed')[i];
      }
    }
  }
}
