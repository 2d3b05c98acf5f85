/** The recursive check of a rule definition tree (`_verify_rule_definition`
    inside `verify_state_dict`). */
module RuleDefinition {
  import opened ExpTypes

  /** A node whose rule type is one of the composite types and whose children
      are therefore checked too. */
  predicate IsComposite(d: RuleDef) {
    d.ruleType.Some? && d.ruleType.value in CompositeRuleTypes
  }

  /** What a node must satisfy on its own, regardless of its children: it has
      a rule type; that type is default, atomic or composite; and an atomic
      node refers to a declared parameter or to the answer. */
  ghost predicate NodeOk(n: RuleDef, specs: map<string, string>) {
    && n.ruleType.Some?
    && (n.ruleType.value == DefaultRuleType
        || (n.ruleType.value == AtomicRuleType && (n.subject in specs || n.subject == AnswerSubject))
        || n.ruleType.value in CompositeRuleTypes)
  }

  /** The error the check raises for a node that fails on its own. */
  function NodeCheck(n: RuleDef, specs: map<string, string>): (r: Outcome)
    ensures r.Pass? <==> NodeOk(n, specs)
  {
    match n.ruleType
    case None => Fail(NoRuleType)
    case Some(t) =>
      if t == DefaultRuleType then Pass
      else if t == AtomicRuleType then
        if n.subject !in specs && n.subject != AnswerSubject then Fail(UnrecognizedSubject(n.subject)) else Pass
      else if t !in CompositeRuleTypes then Fail(UnsupportedRuleType(t))
      else Pass
  }

  /** The nodes of `d` the check visits, in the order it visits them: the node
      itself, then the nodes of each child in turn when the node is composite.
      Children of default and atomic nodes are never looked at. */
  ghost function Visited(d: RuleDef): seq<RuleDef>
    decreases d, 1
  {
    [d] + if IsComposite(d) then VisitedChildren(d, 0) else []
  }

  ghost function VisitedChildren(d: RuleDef, i: nat): seq<RuleDef>
    decreases d, 0, |d.children| - i
  {
    if i >= |d.children| then [] else Visited(d.children[i]) + VisitedChildren(d, i + 1)
  }

  ghost function Checks(nodes: seq<RuleDef>, specs: map<string, string>): (cs: seq<Outcome>)
    ensures |cs| == |nodes|
    ensures forall k :: 0 <= k < |nodes| ==> cs[k] == NodeCheck(nodes[k], specs)
  {
    if nodes == [] then [] else [NodeCheck(nodes[0], specs)] + Checks(nodes[1..], specs)
  }

  lemma ChecksConcat(a: seq<RuleDef>, b: seq<RuleDef>, specs: map<string, string>)
    ensures Checks(a + b, specs) == Checks(a, specs) + Checks(b, specs)
  {
  }

  /** Checks a rule definition tree. The errors it can raise are exactly the
      ones a single node can cause. */
  function VerifyRuleDefinition(d: RuleDef, specs: map<string, string>): (r: Outcome)
    ensures r.Fail? ==> r.err.NoRuleType? || r.err.UnrecognizedSubject? || r.err.UnsupportedRuleType?
    ensures r.Fail? && r.err.UnrecognizedSubject? ==> r.err.subject !in specs && r.err.subject != AnswerSubject
    decreases d, 1
  {
    match d.ruleType
    case None => Fail(NoRuleType)
    case Some(t) =>
      if t == DefaultRuleType then Pass
      else if t == AtomicRuleType then
        if d.subject !in specs && d.subject != AnswerSubject then Fail(UnrecognizedSubject(d.subject)) else Pass
      else if t !in CompositeRuleTypes then Fail(UnsupportedRuleType(t))
      else VerifyChildren(d, 0, specs)
  }

  /** Checks the children of `d` from index `i` on, stopping at the first
      child that fails. */
  function VerifyChildren(d: RuleDef, i: nat, specs: map<string, string>): (r: Outcome)
    ensures r.Fail? ==> r.err.NoRuleType? || r.err.UnrecognizedSubject? || r.err.UnsupportedRuleType?
    ensures r.Fail? && r.err.UnrecognizedSubject? ==> r.err.subject !in specs && r.err.subject != AnswerSubject
    decreases d, 0, |d.children| - i
  {
    if i >= |d.children| then Pass
    else
      var c := VerifyRuleDefinition(d.children[i], specs);
      if c.Fail? then c else VerifyChildren(d, i + 1, specs)
  }

  /** The check reports the failure of the first visited node that fails on
      its own, and passes when every visited node passes. */
  lemma {:induction false} VerifyRuleDefinitionFirstFailure(d: RuleDef, specs: map<string, string>)
    ensures IsFirstFailure(Checks(Visited(d), specs), VerifyRuleDefinition(d, specs))
    decreases d, 1
  {
    var head := NodeCheck(d, specs);
    assert [head][0] == head;
    assert IsFirstFailure([head], head);
    if IsComposite(d) {
      VerifyChildrenFirstFailure(d, 0, specs);
      ChecksConcat([d], VisitedChildren(d, 0), specs);
      FirstFailureConcat([head], Checks(VisitedChildren(d, 0), specs), head, VerifyRuleDefinition(d, specs));
    } else {
      assert Visited(d) == [d];
    }
  }

  lemma {:induction false} VerifyChildrenFirstFailure(d: RuleDef, i: nat, specs: map<string, string>)
    ensures IsFirstFailure(Checks(VisitedChildren(d, i), specs), VerifyChildren(d, i, specs))
    decreases d, 0, |d.children| - i
  {
    if i < |d.children| {
      var c := d.children[i];
      VerifyRuleDefinitionFirstFailure(c, specs);
      VerifyChildrenFirstFailure(d, i + 1, specs);
      ChecksConcat(Visited(c), VisitedChildren(d, i + 1), specs);
      FirstFailureConcat(Checks(Visited(c), specs), Checks(VisitedChildren(d, i + 1), specs),
                         VerifyRuleDefinition(c, specs), VerifyChildren(d, i, specs));
    }
  }

  /** Every node the check visits is acceptable on its own. */
  ghost predicate RuleDefOk(d: RuleDef, specs: map<string, string>) {
    forall n :: n in Visited(d) ==> NodeOk(n, specs)
  }

  /** A tree passes exactly when every node the check visits passes on its
      own: every visited node has a known rule type, and every visited atomic
      node's subject is a declared parameter or the answer. */
  lemma VerifyRuleDefinitionOk(d: RuleDef, specs: map<string, string>)
    ensures VerifyRuleDefinition(d, specs).Pass? <==> RuleDefOk(d, specs)
  {
    VerifyRuleDefinitionFirstFailure(d, specs);
    var nodes := Visited(d);
    var cs := Checks(nodes, specs);
    if VerifyRuleDefinition(d, specs).Pass? {
      forall n | n in nodes ensures NodeOk(n, specs) {
        var k :| 0 <= k < |nodes| && nodes[k] == n;
        assert cs[k].Pass?;
      }
    } else {
      var k :| 0 <= k < |cs| && cs[k] == VerifyRuleDefinition(d, specs) && forall j :: 0 <= j < k ==> cs[j].Pass?;
      assert !NodeOk(nodes[k], specs);
    }
  }

  /** A composite node passes only when every one of its children passes. */
  lemma CompositePassesChildren(d: RuleDef, specs: map<string, string>, i: nat)
    requires IsComposite(d) && i < |d.children|
    requires VerifyRuleDefinition(d, specs).Pass?
    ensures VerifyRuleDefinition(d.children[i], specs).Pass?
  {
    ChildrenPassFrom(d, 0, i, specs);
  }

  lemma {:induction false} ChildrenPassFrom(d: RuleDef, j: nat, i: nat, specs: map<string, string>)
    requires j <= i < |d.children|
    requires VerifyChildren(d, j, specs).Pass?
    ensures VerifyRuleDefinition(d.children[i], specs).Pass?
    decreases i - j
  {
    if j < i {
      ChildrenPassFrom(d, j + 1, i, specs);
    }
  }
}
