/** `classify`: the rule of a handler that a reader's answer selects. Rule
    evaluation is an abstract predicate `matches` on rule definitions, which
    stands for evaluating the definition against the answer, the
    exploration's parameters and the reader's parameters. */
module Classify {
  import opened ExpTypes

  /** The first handler of `hs` called `name`, if any. */
  function FindHandler(hs: seq<Handler>, name: string): (r: Option<nat>)
    ensures r.Some? ==> r.value < |hs| && hs[r.value].name == name && forall j :: 0 <= j < r.value ==> hs[j].name != name
    ensures r.None? ==> forall j :: 0 <= j < |hs| ==> hs[j].name != name
  {
    if hs == [] then None
    else if hs[0].name == name then Some(0)
    else match FindHandler(hs[1..], name)
      case None => None
      case Some(k) => Some(k + 1)
  }

  /** The index of the first rule whose definition matches, scanning from `i`. */
  function FirstMatch(rules: seq<Rule>, matches: RuleDef -> bool, i: nat): (r: Option<nat>)
    requires i <= |rules|
    ensures r.Some? ==> i <= r.value < |rules| && matches(rules[r.value].definition) &&
                        forall j :: i <= j < r.value ==> !matches(rules[j].definition)
    ensures r.None? ==> forall j :: i <= j < |rules| ==> !matches(rules[j].definition)
    decreases |rules| - i
  {
    if i == |rules| then None
    else if matches(rules[i].definition) then Some(i)
    else FirstMatch(rules, matches, i + 1)
  }

  /** Classifies an answer for handler `handlerName` of state `s`.
      `inputType` is the input type of that handler in the widget registry;
      when it is None the first rule is returned without evaluation. */
  function Classify(s: State, handlerName: string, inputType: Option<string>, matches: RuleDef -> bool): (r: Result<Rule>)
    ensures r.Err? && r.err == NoSuchHandler(handlerName) <==> forall j :: 0 <= j < |s.handlers| ==> s.handlers[j].name != handlerName
    ensures r.Ok? ==> exists j :: 0 <= j < |s.handlers| && s.handlers[j].name == handlerName && r.value in s.handlers[j].ruleSpecs
    ensures r.Ok? && inputType.None? ==> exists j :: 0 <= j < |s.handlers| && s.handlers[j].name == handlerName &&
                                                      s.handlers[j].ruleSpecs != [] && r.value == s.handlers[j].ruleSpecs[0]
    ensures r.Ok? && inputType.Some? ==> matches(r.value.definition)
  {
    match FindHandler(s.handlers, handlerName)
    case None => Err(NoSuchHandler(handlerName))
    case Some(h) =>
      var rules := s.handlers[h].ruleSpecs;
      if inputType.None? then
        if rules == [] then Err(NoRules) else Ok(rules[0])
      else
        match FirstMatch(rules, matches, 0)
        case None => Err(NoMatchingRule(handlerName))
        case Some(k) => Ok(rules[k])
  }

  /** With an input type, the result is the first rule of the first handler
      with the given name whose definition matches: every earlier rule of that
      handler fails to match. When no rule matches, the error names the
      handler. */
  lemma ClassifyIsFirstMatch(s: State, handlerName: string, inputType: Option<string>, matches: RuleDef -> bool, h: nat)
    requires inputType.Some?
    requires h < |s.handlers| && s.handlers[h].name == handlerName
    requires forall j :: 0 <= j < h ==> s.handlers[j].name != handlerName
    ensures var rules := s.handlers[h].ruleSpecs;
            var r := Classify(s, handlerName, inputType, matches);
            && (r.Ok? <==> exists k :: 0 <= k < |rules| && matches(rules[k].definition))
            && (r.Ok? ==> exists k :: 0 <= k < |rules| && r.value == rules[k] && matches(rules[k].definition) &&
                                      forall j :: 0 <= j < k ==> !matches(rules[j].definition))
            && (r.Err? ==> r.err == NoMatchingRule(handlerName))
  {
    assert FindHandler(s.handlers, handlerName) == Some(h);
  }

  /** Without an input type, the result is the first rule of the first
      handler with the given name, without evaluation; a handler with no
      rules gives `NoRules`. */
  lemma ClassifyWithoutInputType(s: State, handlerName: string, matches: RuleDef -> bool, h: nat)
    requires h < |s.handlers| && s.handlers[h].name == handlerName
    requires forall j :: 0 <= j < h ==> s.handlers[j].name != handlerName
    ensures var rules := s.handlers[h].ruleSpecs;
            Classify(s, handlerName, None, matches) == if rules == [] then Err(NoRules) else Ok(rules[0])
  {
    assert FindHandler(s.handlers, handlerName) == Some(h);
  }

  /** Rules appended after the first matching rule never change which rule
      is selected. */
  lemma {:induction false} FirstMatchStable(rules: seq<Rule>, more: seq<Rule>, matches: RuleDef -> bool, i: nat)
    requires i <= |rules|
    requires FirstMatch(rules, matches, i).Some?
    ensures FirstMatch(rules + more, matches, i) == FirstMatch(rules, matches, i)
    decreases |rules| - i
  {
    assert (rules + more)[i] == rules[i];
    if !matches(rules[i].definition) {
      FirstMatchStable(rules, more, matches, i + 1);
    }
  }

  /** A handler whose last rule has the default rule type always classifies,
      provided every default-type definition matches every answer. */
  lemma DefaultRuleAlwaysClassifies(s: State, handlerName: string, inputType: Option<string>, matches: RuleDef -> bool, h: nat)
    requires h < |s.handlers| && s.handlers[h].name == handlerName
    requires forall j :: 0 <= j < h ==> s.handlers[j].name != handlerName
    requires s.handlers[h].ruleSpecs != []
    requires Last(s.handlers[h].ruleSpecs).definition.ruleType == Some(DefaultRuleType)
    requires forall d: RuleDef :: d.ruleType == Some(DefaultRuleType) ==> matches(d)
    ensures Classify(s, handlerName, inputType, matches).Ok?
  {
    var rules := s.handlers[h].ruleSpecs;
    if inputType.Some? {
      ClassifyIsFirstMatch(s, handlerName, inputType, matches, h);
      assert matches(rules[|rules| - 1].definition);
    } else {
      assert FindHandler(s.handlers, handlerName) == Some(h);
    }
  }

  function Last<T>(s: seq<T>): T
    requires s != []
  {
    s[|s| - 1]
  }
}
