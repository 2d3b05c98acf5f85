/** The exploration graph seen through a list of state dicts whose rule
    destinations are state names: edges, paths, reachability from the initial
    state and reachability of the terminal sentinel. */
module StateGraph {
  import opened ExpTypes

  function NameSet(states: seq<State>): set<string> {
    set i | 0 <= i < |states| :: states[i].name
  }

  predicate UniqueNames(states: seq<State>) {
    forall i, j :: 0 <= i < j < |states| ==> states[i].name != states[j].name
  }

  /** Some rule of some handler of `s` has destination `d`. */
  predicate HasRuleTo(s: State, d: Dest) {
    exists h, k :: 0 <= h < |s.handlers| && 0 <= k < |s.handlers[h].ruleSpecs| && s.handlers[h].ruleSpecs[k].dest == d
  }

  /** Every destination of every state is the sentinel or the name of a state. */
  predicate DestsValid(states: seq<State>) {
    forall i, h, k :: 0 <= i < |states| && 0 <= h < |states[i].handlers| && 0 <= k < |states[i].handlers[h].ruleSpecs| ==>
      states[i].handlers[h].ruleSpecs[k].dest.To? ==> states[i].handlers[h].ruleSpecs[k].dest.key in NameSet(states)
  }

  /** The state named `a` has a rule leading to the state named `b`. */
  ghost predicate Edge(states: seq<State>, a: string, b: string) {
    exists i :: 0 <= i < |states| && states[i].name == a && HasRuleTo(states[i], To(b))
  }

  /** The state named `a` has a rule leading to the terminal sentinel. */
  ghost predicate EndEdge(states: seq<State>, a: string) {
    exists i :: 0 <= i < |states| && states[i].name == a && HasRuleTo(states[i], End)
  }

  ghost predicate IsPath(states: seq<State>, p: seq<string>) {
    forall k :: 0 <= k < |p| - 1 ==> Edge(states, p[k], p[k + 1])
  }

  ghost predicate IsWalk(states: seq<State>, p: seq<string>, from: string, to: string) {
    |p| > 0 && p[0] == from && p[|p| - 1] == to && IsPath(states, p)
  }

  /** There is a path of rule destinations (other than the sentinel) from `from` to `to`. */
  ghost predicate Reachable(states: seq<State>, from: string, to: string) {
    exists p :: IsWalk(states, p, from, to)
  }

  /** Following rule destinations from `n` leads to the terminal sentinel. */
  ghost predicate ReachesEnd(states: seq<State>, n: string) {
    exists p :: |p| > 0 && p[0] == n && IsPath(states, p) && EndEdge(states, p[|p| - 1])
  }

  lemma EdgeOfIndex(states: seq<State>, i: nat, b: string)
    requires UniqueNames(states) && i < |states|
    ensures Edge(states, states[i].name, b) <==> HasRuleTo(states[i], To(b))
  {
  }

  lemma ReachableRefl(states: seq<State>, a: string)
    ensures Reachable(states, a, a)
  {
    assert IsWalk(states, [a], a, a);
  }

  lemma ReachableStep(states: seq<State>, root: string, a: string, b: string)
    requires Reachable(states, root, a) && Edge(states, a, b)
    ensures Reachable(states, root, b)
  {
    var p :| IsWalk(states, p, root, a);
    var q := p + [b];
    assert forall k :: 0 <= k < |q| - 1 ==> q[k] == p[k];
    assert IsWalk(states, q, root, b);
  }

  lemma ReachesEndBase(states: seq<State>, a: string)
    requires EndEdge(states, a)
    ensures ReachesEnd(states, a)
  {
    assert IsPath(states, [a]);
  }

  lemma ReachesEndStep(states: seq<State>, a: string, b: string)
    requires Edge(states, a, b) && ReachesEnd(states, b)
    ensures ReachesEnd(states, a)
  {
    var p :| |p| > 0 && p[0] == b && IsPath(states, p) && EndEdge(states, p[|p| - 1]);
    var q := [a] + p;
    assert forall k :: 1 <= k < |q| ==> q[k] == p[k - 1];
    assert IsPath(states, q);
    assert q[|q| - 1] == p[|p| - 1];
  }

  /** A set of names that holds `root` and is closed under successors holds
      every name reachable from `root`. */
  lemma {:induction false} ForwardClosedHoldsReachable(states: seq<State>, root: string, s: set<string>, n: string)
    requires root in s
    requires forall a, b :: a in s && Edge(states, a, b) ==> b in s
    requires Reachable(states, root, n)
    ensures n in s
  {
    var p :| IsWalk(states, p, root, n);
    WalkInForwardClosed(states, p, s);
  }

  lemma {:induction false} WalkInForwardClosed(states: seq<State>, p: seq<string>, s: set<string>)
    requires |p| > 0 && p[0] in s && IsPath(states, p)
    requires forall a, b :: a in s && Edge(states, a, b) ==> b in s
    ensures p[|p| - 1] in s
  {
    if |p| > 1 {
      var q := p[..|p| - 1];
      assert IsPath(states, q) by {
        forall k | 0 <= k < |q| - 1 ensures Edge(states, q[k], q[k + 1]) {
          assert Edge(states, p[k], p[k + 1]);
        }
      }
      WalkInForwardClosed(states, q, s);
      assert Edge(states, p[|p| - 2], p[|p| - 1]);
    }
  }

  /** A set of names that holds every state with a rule to the sentinel and is
      closed under predecessors holds every name from which the sentinel is
      reachable. */
  lemma {:induction false} BackwardClosedHoldsReachesEnd(states: seq<State>, s: set<string>, n: string)
    requires forall a :: EndEdge(states, a) ==> a in s
    requires forall a, b :: b in s && Edge(states, a, b) ==> a in s
    requires ReachesEnd(states, n)
    ensures n in s
  {
    var p :| |p| > 0 && p[0] == n && IsPath(states, p) && EndEdge(states, p[|p| - 1]);
    PathInBackwardClosed(states, p, s);
  }

  lemma {:induction false} PathInBackwardClosed(states: seq<State>, p: seq<string>, s: set<string>)
    requires |p| > 0 && p[|p| - 1] in s && IsPath(states, p)
    requires forall a, b :: b in s && Edge(states, a, b) ==> a in s
    ensures p[0] in s
  {
    if |p| > 1 {
      var q := p[1..];
      assert IsPath(states, q) by {
        forall k | 0 <= k < |q| - 1 ensures Edge(states, q[k], q[k + 1]) {
          assert Edge(states, p[k + 1], p[k + 2]);
        }
      }
      PathInBackwardClosed(states, q, s);
      assert Edge(states, p[0], p[1]);
    }
  }

  /** A duplicate-free list of state names, each of them a name of `states`,
      is as long as `states` exactly when it holds every name. */
  lemma CoverByCount(states: seq<State>, visited: seq<string>)
    requires UniqueNames(states) && Distinct(visited)
    requires forall x :: x in visited ==> x in NameSet(states)
    ensures |visited| <= |states|
    ensures |visited| == |states| <==> forall i :: 0 <= i < |states| ==> states[i].name in visited
  {
    var names := seq(|states|, i requires 0 <= i < |states| => states[i].name);
    assert Distinct(names);
    DistinctCard(names);
    DistinctCard(visited);
    assert (set x | x in names) == NameSet(states) by {
      forall x | x in NameSet(states) ensures x in names {
        var i :| 0 <= i < |states| && states[i].name == x;
        assert names[i] == x;
      }
    }
    SubsetCard((set x | x in visited), NameSet(states));
    if forall i :: 0 <= i < |states| ==> states[i].name in visited {
      assert NameSet(states) <= (set x | x in visited) by {
        forall x | x in NameSet(states) ensures x in visited {
          var i :| 0 <= i < |states| && states[i].name == x;
        }
      }
      assert (set x | x in visited) == NameSet(states);
    } else {
      var i :| 0 <= i < |states| && states[i].name !in visited;
      assert states[i].name in NameSet(states);
    }
  }
}
