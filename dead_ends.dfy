/** The reverse breadth-first search that checks the terminal sentinel can be
    reached from every state (`_verify_no_dead_ends`). */
module DeadEnds {
  import opened ExpTypes
  import opened StateGraph

  /** The names of the states from which the terminal sentinel cannot be reached. */
  ghost function DeadEndNames(states: seq<State>): set<string> {
    set n | n in NameSet(states) && !ReachesEnd(states, n)
  }

  /** Every state with a rule leading to `d` is processed or queued. */
  ghost predicate Covered(states: seq<State>, d: Dest, processed: seq<string>, queue: seq<Dest>) {
    forall i :: 0 <= i < |states| && HasRuleTo(states[i], d) ==>
      states[i].name in processed || To(states[i].name) in queue
  }

  lemma CoveredKept(states: seq<State>, d: Dest, processed: seq<string>, queue: seq<Dest>, processed': seq<string>, queue': seq<Dest>)
    requires Covered(states, d, processed, queue)
    requires forall n :: n in processed ==> n in processed'
    requires forall e :: e in queue && e.To? ==> e in queue' || e.key in processed'
    ensures Covered(states, d, processed', queue')
  {
  }

  /** `q` extends `queue` with names of states that are neither queued nor
      processed and have a rule leading to `curr`, and every state with such a rule is now
      processed or queued. */
  ghost predicate Appended(states: seq<State>, curr: Dest, queue: seq<Dest>, processed: seq<string>, q: seq<Dest>) {
    && |q| >= |queue| && q[..|queue|] == queue
    && (forall j :: |queue| <= j < |q| ==>
          q[j].To? && q[j] !in queue && q[j].key !in processed && q[j].key in NameSet(states) &&
          (curr == End ==> EndEdge(states, q[j].key)) &&
          (curr.To? ==> Edge(states, q[j].key, curr.key)))
    && Covered(states, curr, processed, q)
  }

  /** The rescan done after each pop: every state that is neither queued nor
      processed and has a rule leading to `curr` is appended. The scan leaves
      only the rule loop once it finds such a rule, so a state with rules to
      `curr` in two handlers is appended once per handler. */
  method EnqueuePredecessors(states: seq<State>, curr: Dest, queue: seq<Dest>, processed: seq<string>) returns (q: seq<Dest>)
    ensures Appended(states, curr, queue, processed, q)
  {
    q := queue;
    var i := 0;
    while i < |states|
      invariant 0 <= i <= |states|
      invariant |q| >= |queue| && q[..|queue|] == queue
      invariant forall j :: |queue| <= j < |q| ==>
        q[j].To? && q[j] !in queue && q[j].key !in processed && q[j].key in NameSet(states) &&
        (curr == End ==> EndEdge(states, q[j].key)) &&
        (curr.To? ==> Edge(states, q[j].key, curr.key))
      invariant forall i' :: 0 <= i' < i && HasRuleTo(states[i'], curr) ==>
        To(states[i'].name) in q || states[i'].name in processed
    {
      var name := states[i].name;
      if To(name) !in q && name !in processed {
        var hs := states[i].handlers;
        var h := 0;
        while h < |hs|
          invariant 0 <= h <= |hs|
          invariant To(name) !in queue
          invariant |q| >= |queue| && q[..|queue|] == queue
          invariant forall j :: |queue| <= j < |q| ==>
            q[j].To? && q[j] !in queue && q[j].key !in processed && q[j].key in NameSet(states) &&
            (curr == End ==> EndEdge(states, q[j].key)) &&
            (curr.To? ==> Edge(states, q[j].key, curr.key))
          invariant forall i' :: 0 <= i' < i && HasRuleTo(states[i'], curr) ==>
            To(states[i'].name) in q || states[i'].name in processed
          invariant forall g, k :: 0 <= g < h && 0 <= k < |hs[g].ruleSpecs| && hs[g].ruleSpecs[k].dest == curr ==>
            To(name) in q
        {
          var rules := hs[h].ruleSpecs;
          var k := 0;
          while k < |rules|
            invariant 0 <= k <= |rules|
            invariant To(name) !in queue
            invariant |q| >= |queue| && q[..|queue|] == queue
            invariant forall j :: |queue| <= j < |q| ==>
              q[j].To? && q[j] !in queue && q[j].key !in processed && q[j].key in NameSet(states) &&
              (curr == End ==> EndEdge(states, q[j].key)) &&
              (curr.To? ==> Edge(states, q[j].key, curr.key))
            invariant forall i' :: 0 <= i' < i && HasRuleTo(states[i'], curr) ==>
              To(states[i'].name) in q || states[i'].name in processed
            invariant forall g, k' :: 0 <= g < h && 0 <= k' < |hs[g].ruleSpecs| && hs[g].ruleSpecs[k'].dest == curr ==>
              To(name) in q
            invariant forall k' :: 0 <= k' < k ==> rules[k'].dest != curr
          {
            if rules[k].dest == curr {
              q := q + [To(name)];
              break;
            }
            k := k + 1;
          }
          h := h + 1;
        }
      }
      i := i + 1;
    }
  }

  /** The invariant of the reverse search: every processed or queued name
      reaches the sentinel, no name is processed twice, the sentinel is popped
      first and never queued again, and the predecessors of every processed
      node are processed or queued. */
  ghost predicate SearchInv(states: seq<State>, processed: seq<string>, queue: seq<Dest>, endDone: bool) {
    && Distinct(processed) && |processed| <= |states|
    && (forall x :: x in processed ==> x in NameSet(states) && ReachesEnd(states, x))
    && (forall d :: d in queue && d.To? ==> d.key in NameSet(states) && ReachesEnd(states, d.key))
    && (!endDone ==> queue == [End] && processed == [])
    && (endDone ==> End !in queue)
    && (endDone ==> Covered(states, End, processed, queue))
    && (forall x :: x in processed ==> Covered(states, To(x), processed, queue))
  }

  /** One pop of the reverse search: `curr` is taken off the queue, recorded
      as processed unless it is the sentinel, and its unprocessed
      predecessors are appended. */
  ghost predicate PopStep(states: seq<State>, processed0: seq<string>, queue0: seq<Dest>, endDone0: bool,
                          processed: seq<string>, queue: seq<Dest>) {
    && UniqueNames(states) && DestsValid(states)
    && SearchInv(states, processed0, queue0, endDone0) && queue0 != []
    && (queue0[0].To? ==> queue0[0].key !in processed0)
    && processed == (if queue0[0].To? then processed0 + [queue0[0].key] else processed0)
    && Appended(states, queue0[0], queue0[1..], processed, queue)
  }

  /** After a pop, every queued name reaches the sentinel: it was queued
      before, or it has a rule to the popped destination. */
  lemma PopQueueReachesEnd(states: seq<State>, processed0: seq<string>, queue0: seq<Dest>, endDone0: bool,
                           processed: seq<string>, queue: seq<Dest>)
    requires PopStep(states, processed0, queue0, endDone0, processed, queue)
    ensures forall d :: d in queue && d.To? ==> d.key in NameSet(states) && ReachesEnd(states, d.key)
  {
    var curr, old_queue := queue0[0], queue0[1..];
    assert curr in queue0;
    forall d | d in queue && d.To?
      ensures d.key in NameSet(states) && ReachesEnd(states, d.key)
    {
      var j :| 0 <= j < |queue| && queue[j] == d;
      if j < |old_queue| {
        assert old_queue[j] == d;
        assert d in queue0;
      } else if curr == End {
        ReachesEndBase(states, d.key);
      } else {
        ReachesEndStep(states, d.key, curr.key);
      }
    }
  }

  /** After a pop, the sentinel is no longer queued. */
  lemma PopQueueNoEnd(states: seq<State>, processed0: seq<string>, queue0: seq<Dest>, endDone0: bool,
                      processed: seq<string>, queue: seq<Dest>)
    requires PopStep(states, processed0, queue0, endDone0, processed, queue)
    ensures End !in queue
  {
    var old_queue := queue0[1..];
    assert End !in old_queue;
    forall j | 0 <= j < |queue|
      ensures queue[j] != End
    {
      if j < |old_queue| {
        assert queue[j] == old_queue[j];
      }
    }
  }

  /** After a pop, the predecessors of every processed destination, and of
      the sentinel once popped, are still processed or queued. */
  lemma PopKeepsCovered(states: seq<State>, processed0: seq<string>, queue0: seq<Dest>, endDone0: bool,
                        processed: seq<string>, queue: seq<Dest>)
    requires PopStep(states, processed0, queue0, endDone0, processed, queue)
    ensures forall x :: x in processed ==> Covered(states, To(x), processed, queue)
    ensures endDone0 || queue0[0] == End ==> Covered(states, End, processed, queue)
  {
    var old_queue := queue0[1..];
    forall e | e in queue0
      ensures e.To? ==> e in queue || e.key in processed
    {
      var j :| 0 <= j < |queue0| && queue0[j] == e;
      if j > 0 {
        assert old_queue[j - 1] == e;
        assert queue[j - 1] == e;
      }
    }
    forall x | x in processed
      ensures Covered(states, To(x), processed, queue)
    {
      if x in processed0 {
        CoveredKept(states, To(x), processed0, queue0, processed, queue);
      }
    }
    if endDone0 {
      CoveredKept(states, End, processed0, queue0, processed, queue);
    }
  }

  lemma PopKeepsSearchInv(states: seq<State>, processed0: seq<string>, queue0: seq<Dest>, endDone0: bool,
                          processed: seq<string>, queue: seq<Dest>)
    requires UniqueNames(states) && DestsValid(states)
    requires SearchInv(states, processed0, queue0, endDone0) && queue0 != []
    requires queue0[0].To? ==> queue0[0].key !in processed0
    requires processed == if queue0[0].To? then processed0 + [queue0[0].key] else processed0
    requires Appended(states, queue0[0], queue0[1..], processed, queue)
    ensures SearchInv(states, processed, queue, endDone0 || queue0[0] == End)
  {
    var curr := queue0[0];
    assert curr in queue0;
    if curr.To? {
      CoverByCount(states, processed);
    }
    PopQueueReachesEnd(states, processed0, queue0, endDone0, processed, queue);
    PopQueueNoEnd(states, processed0, queue0, endDone0, processed, queue);
    PopKeepsCovered(states, processed0, queue0, endDone0, processed, queue);
  }

  lemma SkipKeepsSearchInv(states: seq<State>, processed: seq<string>, queue0: seq<Dest>, endDone: bool)
    requires SearchInv(states, processed, queue0, endDone) && queue0 != []
    requires queue0[0].To? && queue0[0].key in processed
    ensures SearchInv(states, processed, queue0[1..], endDone)
  {
    assert endDone;
    forall e | e in queue0 && e.To?
      ensures e in queue0[1..] || e.key in processed
    {
      var j :| 0 <= j < |queue0| && queue0[j] == e;
      if j > 0 {
        assert queue0[1..][j - 1] == e;
      }
    }
    forall x | x in processed
      ensures Covered(states, To(x), processed, queue0[1..])
    {
      CoveredKept(states, To(x), processed, queue0, processed, queue0[1..]);
    }
    CoveredKept(states, End, processed, queue0, processed, queue0[1..]);
  }

  /** When the queue is empty, the processed names are exactly the names from
      which the sentinel is reachable, so comparing counts decides the check. */
  lemma SearchInvAtExit(states: seq<State>, processed: seq<string>, endDone: bool)
    requires UniqueNames(states) && SearchInv(states, processed, [], endDone)
    ensures |states| == |processed| <==> forall i :: 0 <= i < |states| ==> ReachesEnd(states, states[i].name)
    ensures NameSet(states) - (set x | x in processed) == DeadEndNames(states)
  {
    var reached := set x | x in processed;
    forall a, b | b in reached && Edge(states, a, b)
      ensures a in reached
    {
      assert Covered(states, To(b), processed, []);
    }
    assert Covered(states, End, processed, []);
    forall n | ReachesEnd(states, n)
      ensures n in processed
    {
      BackwardClosedHoldsReachesEnd(states, reached, n);
    }
    CoverByCount(states, processed);
  }

  /** Passes exactly when the terminal sentinel can be reached from every
      state; otherwise reports the states from which it cannot. The caller has
      checked that names are unique and every destination is the sentinel or
      a state name. */
  method VerifyNoDeadEnds(states: seq<State>) returns (r: Outcome)
    requires UniqueNames(states) && DestsValid(states)
    ensures r.Pass? <==> forall i :: 0 <= i < |states| ==> ReachesEnd(states, states[i].name)
    ensures r.Fail? ==> r == Fail(DeadEnds(DeadEndNames(states)))
  {
    var processed: seq<string> := [];
    var queue: seq<Dest> := [End];
    ghost var endDone := false;
    while queue != []
      invariant SearchInv(states, processed, queue, endDone)
      decreases |states| - |processed|, if endDone then 0 else 1, |queue|
    {
      ghost var queue0, processed0, endDone0 := queue, processed, endDone;
      var curr := queue[0];
      queue := queue[1..];
      if curr.To? && curr.key in processed {
        SkipKeepsSearchInv(states, processed, queue0, endDone);
        continue;
      }
      if curr.To? {
        processed := processed + [curr.key];
      }
      endDone := endDone || curr == End;
      queue := EnqueuePredecessors(states, curr, queue, processed);
      PopKeepsSearchInv(states, processed0, queue0, endDone0, processed, queue);
    }
    SearchInvAtExit(states, processed, endDone);
    if |states| != |processed| {
      r := Fail(DeadEnds(NameSet(states) - set x | x in processed));
    } else {
      r := Pass;
    }
  }
}
