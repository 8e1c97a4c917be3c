/**
 * BehaviourParallel: a behaviour-tree node that runs every child each time
 * it is executed and is Ongoing while any child is, and a Success otherwise.
 *
 * A child's own Execute is the parameter run: the state that child returns.
 */
module Behaviours {

  datatype BehaviourState = Initialise | Failure | Success | Ongoing

  /** A child node, by handle. */
  type ChildId = nat

  /**
   * The state of a parallel node over its children's states: Ongoing as soon
   * as one child is, and Success otherwise, failures included.
   */
  function Parallel(states: seq<BehaviourState>): (r: BehaviourState)
    ensures r == Ongoing <==> Ongoing in states
    ensures r != Ongoing ==> r == Success
  {
    if states == [] then Success
    else
      var r := Parallel(states[..|states| - 1]);
      assert states == states[..|states| - 1] + [states[|states| - 1]];
      if states[|states| - 1] == Ongoing then Ongoing else r
  }

  /** A node whose children all fail still succeeds, and so does one without children. */
  lemma FailuresSucceed(states: seq<BehaviourState>)
    requires forall i :: 0 <= i < |states| ==> states[i] == Failure
    ensures Parallel(states) == Success
  {
    assert Ongoing !in states;
  }

  /** The children's states, each child run once, in order. */
  function Results(children: seq<ChildId>, run: ChildId -> BehaviourState): (r: seq<BehaviourState>)
    ensures |r| == |children| && forall i :: 0 <= i < |children| ==> r[i] == run(children[i])
  {
    seq(|children|, i requires 0 <= i < |children| => run(children[i]))
  }

  class BehaviourParallel {
    const name: string
    var childNodes: seq<ChildId>
    var currentState: BehaviourState

    /** A new node: no children yet, and not run (Initialise). */
    constructor (nodeName: string)
      ensures name == nodeName && childNodes == [] && currentState == Initialise
    {
      name := nodeName;
      childNodes := [];
      currentState := Initialise;
    }

    method AddChild(n: ChildId)
      modifies this`childNodes
      ensures childNodes == old(childNodes) + [n]
    {
      childNodes := childNodes + [n];
    }

    /**
     * Runs every child once, in order and without stopping early; the
     * children run is the trace. The node's state, and the result, is
     * Ongoing if some child was and Success otherwise.
     */
    method Execute(dt: real, run: ChildId -> BehaviourState) returns (state: BehaviourState, trace: seq<ChildId>)
      modifies this`currentState
      ensures trace == childNodes
      ensures state == Parallel(Results(childNodes, run)) && currentState == state
    {
      currentState := Success;
      trace := [];
      for i := 0 to |childNodes|
        invariant trace == childNodes[..i]
        invariant currentState == Parallel(Results(childNodes[..i], run))
      {
        var nodeState := run(childNodes[i]);
        trace := trace + [childNodes[i]];
        assert Results(childNodes[..i + 1], run) == Results(childNodes[..i], run) + [nodeState];
        if nodeState == Ongoing {
          currentState := nodeState;
        }
      }
      assert childNodes[..|childNodes|] == childNodes;
      state := currentState;
    }
  }
}
