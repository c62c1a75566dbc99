/**
 * Plans as the planner hands them to the graph builder: an ordered list of
 * action instances, a list of (start time, action instance, duration)
 * triples, or some other kind of plan that the builder does not support.
 */
module Plans {
  /** An object identifier bound to an action parameter. */
  type Obj = string

  datatype Option<T> = None | Some(value: T)

  /**
   * One occurrence of an action: the action's name and its actual
   * parameters, in the order the action expects them.
   */
  datatype ActionInstance = ActionInstance(name: string, params: seq<Obj>)

  /**
   * One entry of a time-triggered plan. Start times and durations are
   * plan-relative rationals; a duration is absent for an instantaneous action.
   */
  datatype TimedAction = TimedAction(start: real, action: ActionInstance, duration: Option<real>)

  datatype Plan =
    | Sequential(actions: seq<ActionInstance>)
    | TimeTriggered(timedActions: seq<TimedAction>)
    | Other(kind: string)

  /** The action instances of a time-triggered plan, in listed order. */
  function ActionsOf(timed: seq<TimedAction>): seq<ActionInstance>
  {
    seq(|timed|, i requires 0 <= i < |timed| => timed[i].action)
  }

  /** No two occurrences share both name and parameters. */
  predicate DistinctActions(actions: seq<ActionInstance>)
  {
    forall i, j :: 0 <= i < j < |actions| ==> actions[i] != actions[j]
  }
}
