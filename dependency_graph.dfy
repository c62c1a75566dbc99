/**
 * Conversion of a plan into a dependency graph: `start`, one node per
 * distinct action key, `end`, chained in the order the plan lists them.
 * The functions below describe the graph each builder produces; the
 * methods build it step by step on a mutable `DiGraph`.
 */
module DependencyGraph {
  import opened Plans
  import opened Graphs

  /** Raised for a plan that is neither sequential nor time-triggered. */
  datatype BuildError = NotImplemented(message: string)

  const UnsupportedPlanMessage := "Plan type not supported"

  datatype Result<T> = Ok(value: T) | Err(error: BuildError)

  /** The attributes of a sentinel node in the sequential graph. */
  function SentinelAttrs(name: string): Attrs
  {
    map[ActionAttr := NameValue(name), ParametersAttr := ParamsValue([])]
  }

  /** The attributes of an action node in the sequential graph. */
  function ActionAttrs(a: ActionInstance): Attrs
  {
    map[ActionAttr := NameValue(a.name), ParametersAttr := ParamsValue(a.params)]
  }

  function SequentialKey(a: ActionInstance): Key
  {
    SeqAct(a.name, a.params)
  }

  function TimeTriggeredKey(a: ActionInstance): Key
  {
    TTAct(a.name, a.params)
  }

  /** What the sequential builder stores on each node it creates. */
  function SequentialAttrs(k: Key): Attrs
  {
    match k
    case Start => SentinelAttrs("start")
    case End => SentinelAttrs("end")
    case SeqAct(name, params) => ActionAttrs(ActionInstance(name, params))
    // the sequential builder never creates a time-triggered key; this case only makes the match total
    case TTAct(_, _) => map[]
  }

  /**
   * The time-triggered builder stores no attributes at all. The key is
   * ignored; it is a parameter only so that both builders' steps read alike.
   */
  function NoAttrs(k: Key): Attrs
  {
    map[]
  }

  function SequentialKeys(actions: seq<ActionInstance>): seq<Key>
  {
    seq(|actions|, i requires 0 <= i < |actions| => SequentialKey(actions[i]))
  }

  function TimeTriggeredKeys(timed: seq<TimedAction>): seq<Key>
  {
    seq(|timed|, i requires 0 <= i < |timed| => TimeTriggeredKey(timed[i].action))
  }

  /** `start`, the action keys in plan order, `end`. */
  function Chain(keys: seq<Key>): seq<Key>
  {
    [Start] + keys + [End]
  }

  /** The nodes of chain `c` with the attributes the sequential builder stores. */
  function SequentialNodes(c: seq<Key>): map<Key, Attrs>
  {
    map k | k in c :: SequentialAttrs(k)
  }

  /** The nodes of chain `c`, without attributes. */
  function BareNodes(c: seq<Key>): map<Key, Attrs>
  {
    map k | k in c :: NoAttrs(k)
  }

  /** The graph the sequential builder produces. */
  function SequentialGraph(actions: seq<ActionInstance>): Graph
  {
    var c := Chain(SequentialKeys(actions));
    Graph(SequentialNodes(c), ChainEdges(c))
  }

  /** The graph the time-triggered builder produces; start times and durations play no part. */
  function TimeTriggeredGraph(timed: seq<TimedAction>): Graph
  {
    var c := Chain(TimeTriggeredKeys(timed));
    Graph(BareNodes(c), ChainEdges(c))
  }

  /**
   * Adding chain key `k` to the sequential node map, merging its attributes
   * into any it already has, gives the node map of the extended chain.
   */
  lemma AddSequentialNode(c: seq<Key>, k: Key, nodes: map<Key, Attrs>)
    requires nodes == SequentialNodes(c)
    ensures nodes[k := if k in nodes then nodes[k] + SequentialAttrs(k) else SequentialAttrs(k)]
         == SequentialNodes(c + [k])
  {
    var lhs := SequentialNodes(c + [k]);
    if k in nodes {
      assert nodes[k] + SequentialAttrs(k) == SequentialAttrs(k);
    }
    forall j | j in lhs && j != k ensures j in nodes { assert j in c; }
    forall j | j in nodes ensures j in lhs { assert j in c + [k]; }
  }

  /** One iteration of the sequential builder extends the graph of chain `c` to that of `c + [k]`. */
  lemma SequentialStep(c: seq<Key>, k: Key, nodes: map<Key, Attrs>, edges: set<Edge>)
    requires 1 <= |c| && nodes == SequentialNodes(c) && edges == ChainEdges(c)
    ensures WithNode(WithNode(Updated(nodes, k, SequentialAttrs(k)), c[|c| - 1]), k) == SequentialNodes(c + [k])
    ensures edges + {(c[|c| - 1], k)} == ChainEdges(c + [k])
  {
    AddSequentialNode(c, k, nodes);
    ChainEdgesSnoc(c, k);
  }

  /** One iteration of the time-triggered builder extends the graph of chain `c` to that of `c + [k]`. */
  lemma TimeTriggeredStep(c: seq<Key>, k: Key, nodes: map<Key, Attrs>, edges: set<Edge>)
    requires 1 <= |c| && nodes == BareNodes(c) && edges == ChainEdges(c)
    ensures WithNode(WithNode(Updated(nodes, k, NoAttrs(k)), c[|c| - 1]), k) == BareNodes(c + [k])
    ensures edges + {(c[|c| - 1], k)} == ChainEdges(c + [k])
  {
    AddBareNode(c, k, nodes);
    ChainEdgesSnoc(c, k);
  }

  /** Adding chain key `k` without attributes to the bare node map gives that of the extended chain. */
  lemma AddBareNode(c: seq<Key>, k: Key, nodes: map<Key, Attrs>)
    requires nodes == BareNodes(c)
    ensures nodes[k := if k in nodes then nodes[k] + NoAttrs(k) else NoAttrs(k)] == BareNodes(c + [k])
  {
    var lhs := BareNodes(c + [k]);
    if k in nodes {
      assert nodes[k] + NoAttrs(k) == NoAttrs(k);
    }
    forall j | j in lhs && j != k ensures j in nodes { assert j in c; }
    forall j | j in nodes ensures j in lhs { assert j in c + [k]; }
  }

  /** The outcome of converting `plan`: a graph for the two supported kinds, an error otherwise. */
  function PlanGraph(plan: Plan): (r: Result<Graph>)
    ensures r.Err? <==> plan.Other?
    ensures r.Err? ==> r.error == NotImplemented(UnsupportedPlanMessage)
    ensures plan.Sequential? ==> r == Ok(SequentialGraph(plan.actions))
    ensures plan.TimeTriggered? ==> r == Ok(TimeTriggeredGraph(plan.timedActions))
    ensures r.Ok? ==> r.value.Valid() && Start in r.value.nodes && End in r.value.nodes
  {
    match plan
    case Sequential(actions) =>
      ChainGraphValid(SequentialNodes(Chain(SequentialKeys(actions))), Chain(SequentialKeys(actions)));
      Ok(SequentialGraph(actions))
    case TimeTriggered(timed) =>
      ChainGraphValid(BareNodes(Chain(TimeTriggeredKeys(timed))), Chain(TimeTriggeredKeys(timed)));
      Ok(TimeTriggeredGraph(timed))
    case Other(_) => Err(NotImplemented(UnsupportedPlanMessage))
  }

  /** Converts a plan to its dependency graph, dispatching on the kind of plan. */
  method PlanToDependencyGraph(plan: Plan) returns (r: Result<DiGraph>)
    ensures r.Err? <==> plan.Other?
    ensures r.Err? ==> r.error == NotImplemented(UnsupportedPlanMessage)
    ensures r.Ok? ==> fresh(r.value) && r.value.Valid() && PlanGraph(plan) == Ok(r.value.Value())
  {
    match plan {
      case Sequential(actions) =>
        var g := SequentialPlanToDependencyGraph(actions);
        return Ok(g);
      case TimeTriggered(timed) =>
        var g := TimeTriggeredPlanToDependencyGraph(timed);
        return Ok(g);
      case Other(_) =>
        return Err(NotImplemented(UnsupportedPlanMessage));
    }
  }

  /**
   * Builds the graph of a sequential plan: `start`, then for each action a
   * node with its name and parameters and an edge from the previous node,
   * then `end` after the last one.
   */
  method SequentialPlanToDependencyGraph(actions: seq<ActionInstance>) returns (g: DiGraph)
    ensures fresh(g) && g.Valid()
    ensures g.Value() == SequentialGraph(actions)
  {
    g := new DiGraph();
    var edge := Start;
    g.AddNode(edge, SentinelAttrs("start"));
    ghost var keys := SequentialKeys(actions);
    ghost var done := [Start];
    assert g.nodes == SequentialNodes(done);
    for i := 0 to |actions|
      invariant done == [Start] + keys[..i]
      invariant g.Valid()
      invariant g.nodes == SequentialNodes(done)
      invariant g.edges == ChainEdges(done)
      invariant edge == done[|done| - 1]
    {
      var action := actions[i];
      var child := SequentialKey(action);
      assert [Start] + keys[..i + 1] == done + [child];
      SequentialStep(done, child, g.nodes, g.edges);
      g.AddNode(child, ActionAttrs(action));
      g.AddEdge(edge, child);
      edge := child;
      done := done + [child];
    }
    assert keys[..|actions|] == keys;
    assert Chain(keys) == done + [End];
    SequentialStep(done, End, g.nodes, g.edges);
    g.AddNode(End, SentinelAttrs("end"));
    g.AddEdge(edge, End);
  }

  /**
   * Builds the graph of a time-triggered plan: the same chain as the
   * sequential builder over the listed actions, with no node attributes.
   * Start times and durations are read and discarded.
   */
  method TimeTriggeredPlanToDependencyGraph(timed: seq<TimedAction>) returns (g: DiGraph)
    ensures fresh(g) && g.Valid()
    ensures g.Value() == TimeTriggeredGraph(timed)
  {
    g := new DiGraph();
    g.AddNode(Start, NoAttrs(Start));
    var edge := Start;
    ghost var keys := TimeTriggeredKeys(timed);
    ghost var done := [Start];
    assert g.nodes == BareNodes(done);
    for i := 0 to |timed|
      invariant done == [Start] + keys[..i]
      invariant g.Valid()
      invariant g.nodes == BareNodes(done)
      invariant g.edges == ChainEdges(done)
      invariant edge == done[|done| - 1]
    {
      var action := timed[i].action;
      var child := TimeTriggeredKey(action);
      assert [Start] + keys[..i + 1] == done + [child];
      TimeTriggeredStep(done, child, g.nodes, g.edges);
      g.AddNode(child, NoAttrs(child));
      g.AddEdge(edge, child);
      edge := child;
      done := done + [child];
    }
    assert keys[..|timed|] == keys;
    assert Chain(keys) == done + [End];
    TimeTriggeredStep(done, End, g.nodes, g.edges);
    g.AddNode(End, NoAttrs(End));
    g.AddEdge(edge, End);
  }
}
