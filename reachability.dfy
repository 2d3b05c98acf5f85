/** The forward breadth-first search that checks every state can be reached
    from the initial state (`_verify_all_states_reachable`). */
module Reachability {
  import opened ExpTypes
  import opened StateGraph

  /** The names of the states that cannot be reached from the initial state. */
  ghost function UnreachableNames(states: seq<State>): set<string>
    requires |states| > 0
  {
    set n | n in NameSet(states) && !Reachable(states, states[0].name, n)
  }

  /** The index of the first state called `name`, searching from `from` on. */
  function IndexOfName(states: seq<State>, name: string, from: nat): (i: nat)
    requires exists j :: from <= j < |states| && states[j].name == name
    ensures from <= i < |states| && states[i].name == name
    ensures forall j :: from <= j < i ==> states[j].name != name
    decreases |states| - from
  {
    if states[from].name == name then from else IndexOfName(states, name, from + 1)
  }

  lemma ValidDestInNames(states: seq<State>, i: nat, x: string)
    requires DestsValid(states) && i < |states| && HasRuleTo(states[i], To(x))
    ensures x in NameSet(states)
  {
  }

  /** Appends to `queue`, in rule order, every destination of `s` other than the
      sentinel that is neither queued nor processed yet. */
  method EnqueueSuccessors(s: State, queue: seq<string>, processed: seq<string>) returns (q: seq<string>)
    ensures |q| >= |queue| && q[..|queue|] == queue
    ensures forall j :: |queue| <= j < |q| ==> q[j] !in processed && HasRuleTo(s, To(q[j]))
    ensures forall b :: HasRuleTo(s, To(b)) ==> b in q || b in processed
  {
    q := queue;
    var h := 0;
    while h < |s.handlers|
      invariant 0 <= h <= |s.handlers|
      invariant |q| >= |queue| && q[..|queue|] == queue
      invariant forall j :: |queue| <= j < |q| ==> q[j] !in processed && HasRuleTo(s, To(q[j]))
      invariant forall g, k :: 0 <= g < h && 0 <= k < |s.handlers[g].ruleSpecs| && s.handlers[g].ruleSpecs[k].dest.To? ==>
        s.handlers[g].ruleSpecs[k].dest.key in q || s.handlers[g].ruleSpecs[k].dest.key in processed
    {
      var rules := s.handlers[h].ruleSpecs;
      var k := 0;
      while k < |rules|
        invariant 0 <= k <= |rules|
        invariant |q| >= |queue| && q[..|queue|] == queue
        invariant forall j :: |queue| <= j < |q| ==> q[j] !in processed && HasRuleTo(s, To(q[j]))
        invariant forall g, k' :: 0 <= g < h && 0 <= k' < |s.handlers[g].ruleSpecs| && s.handlers[g].ruleSpecs[k'].dest.To? ==>
          s.handlers[g].ruleSpecs[k'].dest.key in q || s.handlers[g].ruleSpecs[k'].dest.key in processed
        invariant forall k' :: 0 <= k' < k && rules[k'].dest.To? ==> rules[k'].dest.key in q || rules[k'].dest.key in processed
      {
        var dest := rules[k].dest;
        if dest.To? && dest.key !in q && dest.key !in processed {
          q := q + [dest.key];
        }
        k := k + 1;
      }
      h := h + 1;
    }
  }

  /** Passes exactly when every state is reachable from the first one along
      rule destinations; otherwise reports the unreachable state names.
      The caller has checked that names are unique and every destination is
      the sentinel or a state name. */
  method VerifyAllStatesReachable(states: seq<State>) returns (r: Outcome)
    requires |states| > 0
    requires UniqueNames(states) && DestsValid(states)
    ensures r.Pass? <==> forall i :: 0 <= i < |states| ==> Reachable(states, states[0].name, states[i].name)
    ensures r.Fail? ==> r == Fail(Unreachable(UnreachableNames(states)))
  {
    var root := states[0].name;
    var processed: seq<string> := [];
    var queue: seq<string> := [root];
    ReachableRefl(states, root);
    while queue != []
      invariant Distinct(processed) && |processed| <= |states|
      invariant forall x :: x in processed ==> x in NameSet(states) && Reachable(states, root, x)
      invariant forall x :: x in queue ==> x in NameSet(states) && Reachable(states, root, x)
      invariant root in processed || root in queue
      invariant forall a, b :: a in processed && Edge(states, a, b) ==> b in processed || b in queue
      decreases |states| - |processed|, |queue|
    {
      var curr := queue[0];
      assert curr in NameSet(states) && Reachable(states, root, curr);
      queue := queue[1..];
      if curr in processed {
        continue;
      }
      processed := processed + [curr];
      CoverByCount(states, processed);
      ghost var i0 :| 0 <= i0 < |states| && states[i0].name == curr;
      var ci := IndexOfName(states, curr, 0);
      var old_queue := queue;
      queue := EnqueueSuccessors(states[ci], queue, processed);
      forall x | x in queue
        ensures x in NameSet(states) && Reachable(states, root, x)
      {
        if x !in old_queue {
          var j :| 0 <= j < |queue| && queue[j] == x;
          ValidDestInNames(states, ci, x);
          ReachableStep(states, root, curr, x);
        } else {
          var j :| 0 <= j < |old_queue| && old_queue[j] == x;
          assert queue[..|old_queue|][j] == x;
        }
      }
      forall b | Edge(states, curr, b)
        ensures b in processed || b in queue
      {
        EdgeOfIndex(states, ci, b);
      }
    }
    CoverByCount(states, processed);
    var seen := set x | x in processed;
    forall n | Reachable(states, root, n)
      ensures n in seen
    {
      ForwardClosedHoldsReachable(states, root, seen, n);
    }
    if |states| != |processed| {
      r := Fail(Unreachable(NameSet(states) - seen));
      assert NameSet(states) - seen == UnreachableNames(states);
    } else {
      r := Pass;
    }
  }
}
