/** Value types of the exploration model: states, handlers, rules, rule
    definitions, parameter changes, and the outcomes of the checks that
    validate them. */
module ExpTypes {

  datatype Option<+T> = None | Some(value: T)

  /** Where a rule sends the reader: the terminal sentinel, or a state key.
      Stored states key their destinations by state id; exported and imported
      state dicts key them by state display name. The sentinel is never a state. */
  datatype Dest = End | To(key: string)

  /** A rule definition tree. `ruleType` is None when the definition has no
      rule type at all. Atomic nodes use `subject`; composite nodes (and, or,
      not) use `children`; default nodes use neither. */
  datatype RuleDef = RuleDef(ruleType: Option<string>, subject: string, children: seq<RuleDef>)

  /** A parameter change: the parameter it sets, the value generator that
      produces the value, and the generator's customization arguments. */
  datatype ParamChange = ParamChange(name: string, generatorId: string, customizationArgs: map<string, string>)

  datatype Rule = Rule(definition: RuleDef, dest: Dest, feedback: seq<string>, paramChanges: seq<ParamChange>)

  datatype Handler = Handler(name: string, ruleSpecs: seq<Rule>)

  datatype Content = Content(kind: string, value: string)

  /** A state together with its single interactive widget (widget id, sticky
      flag and answer handlers). */
  datatype State = State(
    name: string,
    content: seq<Content>,
    paramChanges: seq<ParamChange>,
    widgetId: string,
    sticky: bool,
    handlers: seq<Handler>)

  // Rule types of the rule registry. Only their distinctness matters here.
  const DefaultRuleType := "default"
  const AtomicRuleType := "atomic"
  const AndRuleType := "and"
  const OrRuleType := "or"
  const NotRuleType := "not"
  const CompositeRuleTypes := [AndRuleType, OrRuleType, NotRuleType]

  /** The subject an atomic rule may always refer to, besides declared parameters. */
  const AnswerSubject := "answer"

  /** The description that marks a submitted rule as the default rule. */
  const DefaultRuleName := "Default"

  const SubmitHandlerName := "submit"
  const AllowedContentTypes := ["text"]

  datatype Error =
    // verify_exploration_dict
    | UnknownObjectType
    | NoStates
    | DuplicateStateName(name: string)
    // verify_state_dict
    | ContentLength(length: nat)
    | UnsupportedContentType(kind: string)
    | UndeclaredParam(param: string)
    | UnknownGenerator(generatorId: string)
    | NoRules
    | NoRuleType
    | UnrecognizedSubject(subject: string)
    | UnsupportedRuleType(ruleType: string)
    | InvalidDest(dest: Dest)
    | FeedbacklessSelfLoop(stateName: string)
    // graph checks
    | Unreachable(names: set<string>)
    | DeadEnds(names: set<string>)
    // update_state ruleset checks
    | DefaultRuleNotLast
    | LastRuleNotDefault
    | DefaultRuleWrongType(ruleType: string)
    | NonDefaultRuleHasDefaultType
    // classify
    | NoSuchHandler(handlerName: string)
    | NoMatchingRule(handlerName: string)
    // store operations
    | StateNotFound(stateId: string)
    | InvalidStateId(stateId: string)
    | CannotDeleteInitialState
    | InvalidExploration
    | StaleVersion(storedVersion: nat, givenVersion: nat)

  /** The result of a check: it passes, or raises the given error. */
  datatype Outcome = Pass | Fail(err: Error)

  datatype Result<+T> = Ok(value: T) | Err(err: Error)

  /** The outcome `r` is what a check that runs `checks` in order and stops at
      the first failure produces. */
  ghost predicate IsFirstFailure(checks: seq<Outcome>, r: Outcome) {
    if r.Pass? then forall k :: 0 <= k < |checks| ==> checks[k].Pass?
    else exists k :: 0 <= k < |checks| && checks[k] == r && forall j :: 0 <= j < k ==> checks[j].Pass?
  }

  lemma FirstFailureConcat(a: seq<Outcome>, b: seq<Outcome>, ra: Outcome, r: Outcome)
    requires IsFirstFailure(a, ra)
    requires ra.Fail? ==> r == ra
    requires ra.Pass? ==> IsFirstFailure(b, r)
    ensures IsFirstFailure(a + b, r)
  {
    if ra.Fail? {
      var k :| 0 <= k < |a| && a[k] == ra && forall j :: 0 <= j < k ==> a[j].Pass?;
      assert (a + b)[k] == ra;
    } else if r.Fail? {
      var k :| 0 <= k < |b| && b[k] == r && forall j :: 0 <= j < k ==> b[j].Pass?;
      assert (a + b)[|a| + k] == r;
      assert forall j :: 0 <= j < |a| + k ==> (a + b)[j].Pass? by {
        forall j | 0 <= j < |a| + k ensures (a + b)[j].Pass? {
          if j >= |a| { assert (a + b)[j] == b[j - |a|]; }
        }
      }
    }
  }

  predicate Distinct<T(==)>(s: seq<T>) {
    forall i, j :: 0 <= i < j < |s| ==> s[i] != s[j]
  }

  lemma DistinctCard<T>(s: seq<T>)
    requires Distinct(s)
    ensures |set x | x in s| == |s|
  {
    if s != [] {
      DistinctCard(s[1..]);
      assert (set x | x in s) == {s[0]} + (set x | x in s[1..]);
    }
  }

  lemma SubsetCard<T>(a: set<T>, b: set<T>)
    requires a <= b
    ensures |a| <= |b|
    ensures |a| == |b| ==> a == b
  {
    assert b == a + (b - a);
  }
}
