# Plan-to-dependency-graph builder

A Dafny model of the graph builder of the embedded-systems bridge
(`up_bridge/components/graph.py`). The builder takes a plan from a planner
and turns it into a directed dependency graph, which a graph executor then runs.

- `plan_to_dependency_graph` dispatches on the kind of plan. A sequential plan
  goes to the sequential builder and a time-triggered plan to the
  time-triggered builder. Any other plan raises `NotImplementedError("Plan type not supported")`.
- Both builders add a `start` node. They walk the plan's actions in listed order,
  adding a node for each action and an edge from the previous node to it.
  They finish by adding `end` with an edge from the last node.
- The sequential builder stores `action` (the name) and `parameters` on every node.
- The time-triggered builder stores no attributes. It reads each
  `(start, action, duration)` triple and discards the start time and the duration.

Layout:

- `plans.dfy` (module `Plans`): action instances, timed actions and plans as datatypes.
- `graphs.dfy` (module `Graphs`): node keys, attribute dictionaries, the graph
  value `Graph`, and the mutable `DiGraph` class. `DiGraph` has the networkx
  semantics the builders rely on:
  - `add_node` merges the given attributes into an existing node's attributes.
  - `add_edge` adds a missing endpoint as a node without attributes.
  - Edges form a set.
  The module also holds the facts about chains of keys that the proofs use.
- `dependency_graph.dfy` (module `DependencyGraph`):
  - `SequentialGraph`, `TimeTriggeredGraph` and `PlanGraph` state which graph each builder produces.
  - The two builders are methods with a loop over a `DiGraph`, proved to produce exactly that graph.
  - The dispatch is a method returning a `Result`.
- `properties.dfy` (module `DependencyGraphProperties`): what those graphs satisfy.

Node keys are the datatype `Key = Start | End | SeqAct(name, params) | TTAct(name, params)`.
It is an injective stand-in for the strings the source builds:
- `"start"` and `"end"` for the sentinels;
- `f"{name}{params}"` for a sequential action;
- `f"{name}_{params}"` for a time-triggered action.

A rendered action key always ends in the parameter tuple, so it never equals
a sentinel key. A node's identity is its name and parameters, not its position
in the plan. So repeated identical actions collapse into one node, and the
graph is acyclic exactly when no two actions coincide.

The time-triggered builder ignores start times and durations (see the TODO at
`up_bridge/components/graph.py:41`). It builds the same plain chain as the
sequential builder, with no node attributes and no edge weights.

An unsupported plan kind raises `NotImplementedError("Plan type not supported")`,
modelled as `Err(NotImplemented("Plan type not supported"))`.

## Model

| member | source | states |
|---|---|---|
| `DependencyGraph.PlanGraph` | up_bridge/components/graph.py:9-15 | A sequential plan yields the sequential graph and a time-triggered plan the time-triggered graph. Every other plan, and only those, yields the `NotImplemented("Plan type not supported")` error. A graph that is produced is well formed and contains `start` and `end`. |
| `DependencyGraph.PlanToDependencyGraph` | up_bridge/components/graph.py:9-15 | Returns an error exactly for unsupported plans. Otherwise it returns a fresh, well-formed graph equal to `PlanGraph(plan)`. |
| `DependencyGraph.SequentialPlanToDependencyGraph` | up_bridge/components/graph.py:18-32 | The loop of `add_node`/`add_edge` calls yields exactly `SequentialGraph(actions)`. Its nodes are `start`, the action keys and `end`, with attributes. Its edges join consecutive entries of `[start] + keys + [end]`. |
| `DependencyGraph.TimeTriggeredPlanToDependencyGraph` | up_bridge/components/graph.py:35-52 | The loop yields exactly `TimeTriggeredGraph(timed)`: the chain over the listed actions, without attributes. |
| `DependencyGraph.SequentialStep` | up_bridge/components/graph.py:24-28 | One loop iteration extends the node map and edge set of the chain built so far to those of the chain with the new key appended. A repeated key keeps its node. |
| `DependencyGraph.TimeTriggeredStep` | up_bridge/components/graph.py:43-48 | The same step for the time-triggered loop, where nodes carry no attributes. |
| `Graphs.DiGraph.constructor` | up_bridge/components/graph.py:20 | A new graph has no nodes and no edges. |
| `Graphs.DiGraph.AddNode` | up_bridge/components/graph.py:26 | Adds the key as a node. A new node gets the given attributes; an existing node has the given attributes merged over its own. Edges are unchanged, and every edge still joins two nodes. |
| `Graphs.DiGraph.AddEdge` | up_bridge/components/graph.py:27 | Adds the edge. Either endpoint that is missing becomes a node without attributes. Every edge still joins two nodes. |
| `DependencyGraphProperties.SequentialKeysDistinct` | up_bridge/components/graph.py:25 | Action keys are never sentinels. Any two positions of the plan share a key exactly when their actions have the same name and parameters; hence all keys are distinct exactly when all actions are. |
| `DependencyGraphProperties.SentinelEdges` | up_bridge/components/graph.py:21-31 | In either kind of graph, `start` and `end` are nodes. No edge enters `start` and no edge leaves `end`. `start` has exactly one successor and `end` exactly one predecessor. |
| `DependencyGraphProperties.EveryNodeOnStartEndPath` | up_bridge/components/graph.py:21-31 | A single path from `start` to `end` passes through every node. |
| `DependencyGraphProperties.ChainShape` | up_bridge/components/graph.py:21-31 | A plan of N actions gives at most N+2 nodes. It gives exactly N+2 if and only if the actions are pairwise distinct, and then exactly N+1 edges. |
| `DependencyGraphProperties.AcyclicIffDistinct` | up_bridge/components/graph.py:23-28 | The graph has no cycle if and only if no two actions have the same name and parameters. |
| `DependencyGraphProperties.EmptyPlan` | up_bridge/components/graph.py:18-52 | With no actions, either builder gives exactly the nodes `start` and `end` and the single edge `start -> end`. Sequential sentinels carry their own name and no parameters; time-triggered ones carry nothing. |
| `DependencyGraphProperties.SequentialSentinels` | up_bridge/components/graph.py:22-30 | `start` and `end` are nodes whose `action` is their own name and whose `parameters` are empty. |
| `DependencyGraphProperties.SequentialNodeAttributes` | up_bridge/components/graph.py:24-26 | Every action has a node whose `action` is its name and whose `parameters` are its parameters in order. Every non-sentinel node is the node of some action. |
| `DependencyGraphProperties.RepeatedActionSelfLoop` | up_bridge/components/graph.py:25-28 | Two consecutive identical actions share one node, which gets an edge to itself, so the graph is not acyclic. |
| `DependencyGraphProperties.TimeTriggeredNodes` | up_bridge/components/graph.py:42-44 | The time-triggered nodes are the sequential graph's nodes with action keys retagged, and none has attributes. |
| `DependencyGraphProperties.TimeTriggeredEdges` | up_bridge/components/graph.py:39-51 | The time-triggered edges are the sequential graph's edges with action keys retagged. The two builders produce the same chain. |
| `DependencyGraphProperties.TimeTriggeredIgnoresTiming` | up_bridge/components/graph.py:41-42 | Plans that list the same actions give the same time-triggered graph, whatever their start times and durations. |

## Left out

- The graph executor that runs the graph (`up_bridge.executor`, imported by `examples/parallel.py`) is not part of this model. Its source is not available, and its subject is concurrent dispatch.
- `examples/parallel.py` is not modelled. It is a demo: it defines a planning domain through library calls, calls an external solver, runs actions that print, sleep and mutate global state, and draws the graph.
- The exact text of node keys (`f"{name}{params}"`, `f"{name}_{params}"`) is not modelled. Keys are an injective datatype. Rendering a parameter tuple of planner objects depends on the planning library.
- networkx's insertion order of nodes is not modelled. Nodes form a map and edges a set. Edge attribute dictionaries are left out because neither builder sets one.
- The planning library's plan and action-instance classes are reduced to plain datatypes: a name and a sequence of object identifiers.
- Start times and durations are `real` and `Option<real>` placeholders. The builders discard them, so no arithmetic on them is modelled.
- Python's exception for an unsupported plan kind is modelled as an `Err` result. No partial graph exists on that path.
