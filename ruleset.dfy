/** The checks `update_state` makes on a submitted ruleset for the `submit`
    handler, before it replaces the state's handlers. */
module Ruleset {
  import opened ExpTypes
  import Classify

  /** A rule as the editor submits it. The rule described as `Default` is the
      default rule. Destinations are state ids or the sentinel. */
  datatype RuleSubmission = RuleSubmission(
    description: string,
    definition: RuleDef,
    dest: Dest,
    feedback: seq<string>,
    paramChanges: seq<ParamChange>)

  predicate IsDefaultRule(rule: RuleSubmission) {
    rule.description == DefaultRuleName
  }

  /** The checks on the rule at index `i`, in source order: its destination,
      then the position and rule type of a default or a non-default rule. */
  function RuleCheck(ruleset: seq<RuleSubmission>, i: nat, stateIds: seq<string>): (r: Outcome)
    requires i < |ruleset|
  {
    var rule := ruleset[i];
    if rule.dest.To? && rule.dest.key !in stateIds then Fail(InvalidDest(rule.dest))
    else if IsDefaultRule(rule) then
      if i != |ruleset| - 1 then Fail(DefaultRuleNotLast)
      else match rule.definition.ruleType
        case None => Fail(NoRuleType)
        case Some(t) => if t != DefaultRuleType then Fail(DefaultRuleWrongType(t)) else Pass
    else
      if i == |ruleset| - 1 then Fail(LastRuleNotDefault)
      else match rule.definition.ruleType
        case None => Fail(NoRuleType)
        case Some(t) => if t == DefaultRuleType then Fail(NonDefaultRuleHasDefaultType) else Pass
  }

  ghost function RuleChecks(ruleset: seq<RuleSubmission>, stateIds: seq<string>, from: nat): (cs: seq<Outcome>)
    requires from <= |ruleset|
    ensures |cs| == |ruleset| - from
    ensures forall k :: 0 <= k < |cs| ==> cs[k] == RuleCheck(ruleset, from + k, stateIds)
    decreases |ruleset| - from
  {
    if from == |ruleset| then [] else [RuleCheck(ruleset, from, stateIds)] + RuleChecks(ruleset, stateIds, from + 1)
  }

  /** The rule loop of `update_state`, from index `from` on: it stops at the
      first rule that fails a check. */
  function CheckRulesFrom(ruleset: seq<RuleSubmission>, stateIds: seq<string>, from: nat): (r: Outcome)
    requires from <= |ruleset|
    ensures IsFirstFailure(RuleChecks(ruleset, stateIds, from), r)
    decreases |ruleset| - from
  {
    if from == |ruleset| then Pass
    else
      var c := RuleCheck(ruleset, from, stateIds);
      var rest := CheckRulesFrom(ruleset, stateIds, from + 1);
      assert [c][0] == c;
      FirstFailureConcat([c], RuleChecks(ruleset, stateIds, from + 1), c, if c.Fail? then c else rest);
      if c.Fail? then c else rest
  }

  function CheckRuleset(ruleset: seq<RuleSubmission>, stateIds: seq<string>): (r: Outcome)
    ensures IsFirstFailure(RuleChecks(ruleset, stateIds, 0), r)
  {
    CheckRulesFrom(ruleset, stateIds, 0)
  }

  /** What `update_state` demands of a ruleset, independently of the order of
      its checks: every destination is the sentinel or a state id; the rule at
      the last index, and only that rule, is the default rule; the default
      rule has the default rule type and no other rule has it. */
  ghost predicate RulesetWellFormed(ruleset: seq<RuleSubmission>, stateIds: seq<string>) {
    && (forall i :: 0 <= i < |ruleset| && ruleset[i].dest.To? ==> ruleset[i].dest.key in stateIds)
    && (forall i :: 0 <= i < |ruleset| ==> (IsDefaultRule(ruleset[i]) <==> i == |ruleset| - 1))
    && (forall i :: 0 <= i < |ruleset| && IsDefaultRule(ruleset[i]) ==> ruleset[i].definition.ruleType == Some(DefaultRuleType))
    && (forall i :: 0 <= i < |ruleset| && !IsDefaultRule(ruleset[i]) ==>
          ruleset[i].definition.ruleType.Some? && ruleset[i].definition.ruleType != Some(DefaultRuleType))
  }

  /** The demands of `RulesetWellFormed` on the rule at index `i`. */
  ghost predicate RuleWellPlaced(ruleset: seq<RuleSubmission>, i: nat, stateIds: seq<string>)
    requires i < |ruleset|
  {
    && (ruleset[i].dest.To? ==> ruleset[i].dest.key in stateIds)
    && (IsDefaultRule(ruleset[i]) <==> i == |ruleset| - 1)
    && (IsDefaultRule(ruleset[i]) ==> ruleset[i].definition.ruleType == Some(DefaultRuleType))
    && (!IsDefaultRule(ruleset[i]) ==>
          ruleset[i].definition.ruleType.Some? && ruleset[i].definition.ruleType != Some(DefaultRuleType))
  }

  lemma RuleCheckPass(ruleset: seq<RuleSubmission>, i: nat, stateIds: seq<string>)
    requires i < |ruleset|
    ensures RuleCheck(ruleset, i, stateIds).Pass? <==> RuleWellPlaced(ruleset, i, stateIds)
  {
  }

  lemma WellPlacedEverywhere(ruleset: seq<RuleSubmission>, stateIds: seq<string>)
    requires forall i :: 0 <= i < |ruleset| ==> RuleWellPlaced(ruleset, i, stateIds)
    ensures RulesetWellFormed(ruleset, stateIds)
  {
    forall i | 0 <= i < |ruleset|
      ensures ruleset[i].dest.To? ==> ruleset[i].dest.key in stateIds
      ensures IsDefaultRule(ruleset[i]) <==> i == |ruleset| - 1
      ensures IsDefaultRule(ruleset[i]) ==> ruleset[i].definition.ruleType == Some(DefaultRuleType)
      ensures !IsDefaultRule(ruleset[i]) ==> ruleset[i].definition.ruleType.Some? && ruleset[i].definition.ruleType != Some(DefaultRuleType)
    {
      assert RuleWellPlaced(ruleset, i, stateIds);
    }
  }

  /** The ruleset is accepted exactly when it is well formed. */
  lemma CheckRulesetOk(ruleset: seq<RuleSubmission>, stateIds: seq<string>)
    ensures CheckRuleset(ruleset, stateIds).Pass? <==> RulesetWellFormed(ruleset, stateIds)
  {
    var cs := RuleChecks(ruleset, stateIds, 0);
    var r := CheckRuleset(ruleset, stateIds);
    if r.Pass? {
      forall i | 0 <= i < |ruleset| ensures RuleWellPlaced(ruleset, i, stateIds) {
        assert cs[i].Pass?;
        RuleCheckPass(ruleset, i, stateIds);
      }
      WellPlacedEverywhere(ruleset, stateIds);
    } else {
      var k :| 0 <= k < |cs| && cs[k] == r && forall j :: 0 <= j < k ==> cs[j].Pass?;
      RuleCheckPass(ruleset, k, stateIds);
      assert !RuleWellPlaced(ruleset, k, stateIds);
    }
  }

  /** The empty ruleset is accepted: the loop has nothing to check. */
  lemma EmptyRulesetAccepted(stateIds: seq<string>)
    ensures CheckRuleset([], stateIds) == Pass
  {
  }

  /** The stored rule built from a submission, with feedback passed through
      the HTML cleaner `clean`. */
  function ToRule(sub: RuleSubmission, clean: string -> string): (r: Rule)
    ensures r.definition == sub.definition && r.dest == sub.dest && r.paramChanges == sub.paramChanges
    ensures |r.feedback| == |sub.feedback| && forall k :: 0 <= k < |sub.feedback| ==> r.feedback[k] == clean(sub.feedback[k])
  {
    Rule(sub.definition, sub.dest, seq(|sub.feedback|, k requires 0 <= k < |sub.feedback| => clean(sub.feedback[k])), sub.paramChanges)
  }

  /** The stored rules of a submitted ruleset, one per submission, in order. */
  function ToRules(ruleset: seq<RuleSubmission>, clean: string -> string): (rules: seq<Rule>)
    ensures |rules| == |ruleset|
    ensures forall i :: 0 <= i < |ruleset| ==> && rules[i].definition == ruleset[i].definition
                                               && rules[i].dest == ruleset[i].dest
                                               && rules[i].paramChanges == ruleset[i].paramChanges
                                               && |rules[i].feedback| == |ruleset[i].feedback|
    ensures forall i, k :: 0 <= i < |ruleset| && 0 <= k < |ruleset[i].feedback| ==>
                             rules[i].feedback[k] == clean(ruleset[i].feedback[k])
  {
    seq(|ruleset|, i requires 0 <= i < |ruleset| => ToRule(ruleset[i], clean))
  }

  /** An accepted non-empty ruleset, stored as the state's only handler,
      classifies every answer whenever default-type definitions match every
      answer: its last rule is the default rule. */
  lemma AcceptedRulesetAlwaysClassifies(s: State, ruleset: seq<RuleSubmission>, stateIds: seq<string>,
                                        clean: string -> string, inputType: Option<string>, matches: RuleDef -> bool)
    requires ruleset != []
    requires CheckRuleset(ruleset, stateIds).Pass?
    requires forall d: RuleDef :: d.ruleType == Some(DefaultRuleType) ==> matches(d)
    ensures Classify.Classify(s.(handlers := [Handler(SubmitHandlerName, ToRules(ruleset, clean))]),
                              SubmitHandlerName, inputType, matches).Ok?
  {
    CheckRulesetOk(ruleset, stateIds);
    var last := |ruleset| - 1;
    assert IsDefaultRule(ruleset[last]);
    var t := s.(handlers := [Handler(SubmitHandlerName, ToRules(ruleset, clean))]);
    Classify.DefaultRuleAlwaysClassifies(t, SubmitHandlerName, inputType, matches, 0);
  }
}
