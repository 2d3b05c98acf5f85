/** The checks `verify_state_dict` makes on one state of an exploration dict:
    its content, its parameter changes, and every rule of every handler. */
module StateValidation {
  import opened ExpTypes
  import opened RuleDefinition

  /** A rule destination is valid when it is the sentinel or one of the
      exploration's state names. */
  predicate ValidDest(d: Dest, names: seq<string>) {
    d.End? || d.key in names
  }

  /** A rule of `s` that leads back to `s` and gives the reader no feedback. */
  predicate SilentSelfLoop(s: State, rule: Rule) {
    rule.dest == To(s.name) && rule.feedback == []
  }

  predicate ParamChangeOk(pc: ParamChange, specs: map<string, string>, generators: set<string>) {
    pc.name in specs && pc.generatorId in generators
  }

  /** `e` names a real defect of the parameter change `pc`. */
  predicate ParamChangeExhibits(pc: ParamChange, specs: map<string, string>, generators: set<string>, e: Error) {
    || (e == UndeclaredParam(pc.name) && pc.name !in specs)
    || (e == UnknownGenerator(pc.generatorId) && pc.generatorId !in generators)
  }

  /** Every node of the rule definition the check visits is acceptable, the
      destination is valid, the rule is not a silent self-loop of a non-sticky
      widget, and its parameter changes are declared and use known
      generators. */
  ghost predicate RuleOk(s: State, names: seq<string>, specs: map<string, string>, generators: set<string>, rule: Rule) {
    && RuleDefOk(rule.definition, specs)
    && ValidDest(rule.dest, names)
    && !(SilentSelfLoop(s, rule) && !s.sticky)
    && forall pc :: pc in rule.paramChanges ==> ParamChangeOk(pc, specs, generators)
  }

  /** `e` names a real defect of the rule `rule` of state `s`. */
  ghost predicate RuleExhibits(s: State, names: seq<string>, specs: map<string, string>, generators: set<string>, rule: Rule, e: Error) {
    || (exists n :: n in Visited(rule.definition) && NodeCheck(n, specs) == Fail(e))
    || (e == InvalidDest(rule.dest) && !ValidDest(rule.dest, names))
    || (e == FeedbacklessSelfLoop(s.name) && SilentSelfLoop(s, rule) && !s.sticky)
    || (exists pc :: pc in rule.paramChanges && ParamChangeExhibits(pc, specs, generators, e))
  }

  /** Everything `verify_state_dict` demands of a state, stated without
      reference to the order in which it is checked. */
  ghost predicate StateOk(s: State, names: seq<string>, specs: map<string, string>, generators: set<string>) {
    && |s.content| == 1
    && s.content[0].kind in AllowedContentTypes
    && (forall pc :: pc in s.paramChanges ==> ParamChangeOk(pc, specs, generators))
    && (forall h :: h in s.handlers ==> h.ruleSpecs != [])
    && (forall h, rule :: h in s.handlers && rule in h.ruleSpecs ==> RuleOk(s, names, specs, generators, rule))
  }

  /** `e` names a real defect of the state `s`. */
  ghost predicate Exhibits(s: State, names: seq<string>, specs: map<string, string>, generators: set<string>, e: Error) {
    || (e == ContentLength(|s.content|) && |s.content| != 1)
    || (|s.content| == 1 && e == UnsupportedContentType(s.content[0].kind) && s.content[0].kind !in AllowedContentTypes)
    || (exists pc :: pc in s.paramChanges && ParamChangeExhibits(pc, specs, generators, e))
    || (e == NoRules && exists h :: h in s.handlers && h.ruleSpecs == [])
    || (exists h, rule :: h in s.handlers && rule in h.ruleSpecs && RuleExhibits(s, names, specs, generators, rule, e))
  }

  /** `_verify_content`: exactly one content item, of an allowed type. */
  function VerifyContent(content: seq<Content>): (r: Outcome)
    ensures r.Pass? <==> |content| == 1 && content[0].kind in AllowedContentTypes
    ensures r.Fail? ==> r.err == ContentLength(|content|) || (|content| == 1 && r.err == UnsupportedContentType(content[0].kind))
  {
    if |content| != 1 then Fail(ContentLength(|content|))
    else if content[0].kind !in AllowedContentTypes then Fail(UnsupportedContentType(content[0].kind))
    else Pass
  }

  function ParamChangeCheck(pc: ParamChange, specs: map<string, string>, generators: set<string>): (r: Outcome)
    ensures r.Pass? <==> ParamChangeOk(pc, specs, generators)
    ensures r.Fail? ==> ParamChangeExhibits(pc, specs, generators, r.err)
  {
    if pc.name !in specs then Fail(UndeclaredParam(pc.name))
    else if pc.generatorId !in generators then Fail(UnknownGenerator(pc.generatorId))
    else Pass
  }

  /** `_verify_param_changes`: every change names a declared parameter and a
      known value generator; otherwise the first offending change is reported. */
  function VerifyParamChanges(pcs: seq<ParamChange>, specs: map<string, string>, generators: set<string>): (r: Outcome)
    ensures r.Pass? <==> forall pc :: pc in pcs ==> ParamChangeOk(pc, specs, generators)
    ensures r.Fail? ==> exists pc :: pc in pcs && ParamChangeExhibits(pc, specs, generators, r.err)
  {
    if pcs == [] then Pass
    else
      var c := ParamChangeCheck(pcs[0], specs, generators);
      if c.Fail? then c else VerifyParamChanges(pcs[1..], specs, generators)
  }

  /** The checks on one rule, in source order: its definition, its
      destination, the self-loop rule, then its parameter changes. */
  function VerifyRule(s: State, names: seq<string>, specs: map<string, string>, generators: set<string>, rule: Rule): (r: Outcome)
    ensures r.Pass? <==> RuleOk(s, names, specs, generators, rule)
    ensures r.Fail? ==> RuleExhibits(s, names, specs, generators, rule, r.err)
  {
    VerifyRuleDefinitionOk(rule.definition, specs);
    VerifyRuleDefinitionFirstFailure(rule.definition, specs);
    var d := VerifyRuleDefinition(rule.definition, specs);
    if d.Fail? then
      assert exists k :: 0 <= k < |Visited(rule.definition)| && NodeCheck(Visited(rule.definition)[k], specs) == d;
      d
    else if !ValidDest(rule.dest, names) then Fail(InvalidDest(rule.dest))
    else if SilentSelfLoop(s, rule) && !s.sticky then Fail(FeedbacklessSelfLoop(s.name))
    else VerifyParamChanges(rule.paramChanges, specs, generators)
  }

  function VerifyRules(s: State, rules: seq<Rule>, names: seq<string>, specs: map<string, string>, generators: set<string>): (r: Outcome)
    ensures r.Pass? <==> forall rule :: rule in rules ==> RuleOk(s, names, specs, generators, rule)
    ensures r.Fail? ==> exists rule :: rule in rules && RuleExhibits(s, names, specs, generators, rule, r.err)
  {
    if rules == [] then Pass
    else
      var c := VerifyRule(s, names, specs, generators, rules[0]);
      if c.Fail? then c else VerifyRules(s, rules[1..], names, specs, generators)
  }

  /** The handler loop: a handler without rules is rejected, and the rules of
      each handler are checked in order. */
  function VerifyHandlers(s: State, hs: seq<Handler>, names: seq<string>, specs: map<string, string>, generators: set<string>): (r: Outcome)
    ensures r.Pass? <==> (forall h :: h in hs ==> h.ruleSpecs != []) &&
                         (forall h, rule :: h in hs && rule in h.ruleSpecs ==> RuleOk(s, names, specs, generators, rule))
    ensures r.Fail? ==> (r.err == NoRules && exists h :: h in hs && h.ruleSpecs == []) ||
                        (exists h, rule :: h in hs && rule in h.ruleSpecs && RuleExhibits(s, names, specs, generators, rule, r.err))
  {
    if hs == [] then Pass
    else if hs[0].ruleSpecs == [] then Fail(NoRules)
    else
      var c := VerifyRules(s, hs[0].ruleSpecs, names, specs, generators);
      if c.Fail? then c else VerifyHandlers(s, hs[1..], names, specs, generators)
  }

  /** `verify_state_dict`: `names` is the list of all state names of the
      exploration, `specs` its declared parameters and `generators` the ids
      the value generator registry knows. */
  function VerifyStateDict(s: State, names: seq<string>, specs: map<string, string>, generators: set<string>): (r: Outcome)
    ensures r.Fail? ==> Exhibits(s, names, specs, generators, r.err)
  {
    var c := VerifyContent(s.content);
    if c.Fail? then c
    else
      var p := VerifyParamChanges(s.paramChanges, specs, generators);
      if p.Fail? then p
      else VerifyHandlers(s, s.handlers, names, specs, generators)
  }

  /** A state passes exactly when it meets every demand of the check. */
  lemma VerifyStateDictOk(s: State, names: seq<string>, specs: map<string, string>, generators: set<string>)
    ensures VerifyStateDict(s, names, specs, generators).Pass? <==> StateOk(s, names, specs, generators)
  {
  }

  /** A rule acceptable under a sticky widget shows no defect other than a
      silent self-loop once the widget is not sticky. */
  lemma RuleExhibitsOnlySelfLoop(s: State, names: seq<string>, specs: map<string, string>, generators: set<string>, rule: Rule, e: Error)
    requires RuleOk(s.(sticky := true), names, specs, generators, rule)
    requires RuleExhibits(s.(sticky := false), names, specs, generators, rule, e)
    ensures e == FeedbacklessSelfLoop(s.name)
  {
    forall n | n in Visited(rule.definition) ensures NodeCheck(n, specs) != Fail(e) {
      assert NodeOk(n, specs);
    }
  }

  lemma ExhibitsOnlySelfLoop(s: State, names: seq<string>, specs: map<string, string>, generators: set<string>, e: Error)
    requires StateOk(s.(sticky := true), names, specs, generators)
    requires Exhibits(s.(sticky := false), names, specs, generators, e)
    ensures e == FeedbacklessSelfLoop(s.name)
  {
    var t, f := s.(sticky := true), s.(sticky := false);
    if exists h, rule :: h in f.handlers && rule in h.ruleSpecs && RuleExhibits(f, names, specs, generators, rule, e) {
      var h, rule :| h in f.handlers && rule in h.ruleSpecs && RuleExhibits(f, names, specs, generators, rule, e);
      RuleExhibitsOnlySelfLoop(s, names, specs, generators, rule, e);
    }
  }

  /** A silent self-loop of a state is rejected unless its widget is sticky,
      and stickiness excuses nothing else: if a state passes with a sticky
      widget, the same state with a non-sticky widget fails with the
      self-loop error exactly when it has a silent self-loop. */
  lemma StickyExcusesOnlySelfLoops(s: State, names: seq<string>, specs: map<string, string>, generators: set<string>)
    requires VerifyStateDict(s.(sticky := true), names, specs, generators).Pass?
    ensures VerifyStateDict(s.(sticky := false), names, specs, generators) ==
      if exists h, rule :: h in s.handlers && rule in h.ruleSpecs && SilentSelfLoop(s, rule)
      then Fail(FeedbacklessSelfLoop(s.name)) else Pass
  {
    var t, f := s.(sticky := true), s.(sticky := false);
    VerifyStateDictOk(t, names, specs, generators);
    VerifyStateDictOk(f, names, specs, generators);
    var r := VerifyStateDict(f, names, specs, generators);
    if exists h, rule :: h in s.handlers && rule in h.ruleSpecs && SilentSelfLoop(s, rule) {
      var h, rule :| h in s.handlers && rule in h.ruleSpecs && SilentSelfLoop(s, rule);
      assert !RuleOk(f, names, specs, generators, rule);
      ExhibitsOnlySelfLoop(s, names, specs, generators, r.err);
    } else {
      forall h, rule | h in f.handlers && rule in h.ruleSpecs ensures RuleOk(f, names, specs, generators, rule) {
        assert RuleOk(t, names, specs, generators, rule);
        assert !SilentSelfLoop(s, rule);
      }
    }
  }
}
