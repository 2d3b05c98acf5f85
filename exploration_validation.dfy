/** `verify_exploration_dict`: the whole-exploration check run on an
    imported exploration dict. */
module ExplorationValidation {
  import opened ExpTypes
  import opened StateGraph
  import opened StateValidation
  import opened Reachability
  import opened DeadEnds

  /** The parts of an exploration dict the check looks at: the declared
      parameters (name to object type) and the states, initial state first,
      with destinations given by state name. */
  datatype ExplorationDict = ExplorationDict(paramSpecs: map<string, string>, states: seq<State>)

  function Names(states: seq<State>): (names: seq<string>)
    ensures |names| == |states|
    ensures forall i :: 0 <= i < |states| ==> names[i] == states[i].name
  {
    seq(|states|, i requires 0 <= i < |states| => states[i].name)
  }

  /** Every declared parameter has an object type the object registry knows. */
  predicate ObjTypesKnown(e: ExplorationDict, objTypes: set<string>) {
    forall p :: p in e.paramSpecs ==> e.paramSpecs[p] in objTypes
  }

  ghost predicate AllReachable(states: seq<State>)
    requires |states| > 0
  {
    forall i :: 0 <= i < |states| ==> Reachable(states, states[0].name, states[i].name)
  }

  ghost predicate AllReachEnd(states: seq<State>) {
    forall i :: 0 <= i < |states| ==> ReachesEnd(states, states[i].name)
  }

  ghost predicate AllStatesOk(e: ExplorationDict, generators: set<string>) {
    forall i :: 0 <= i < |e.states| ==> StateOk(e.states[i], Names(e.states), e.paramSpecs, generators)
  }

  /** Everything the check demands of an exploration dict. */
  ghost predicate ExplorationOk(e: ExplorationDict, objTypes: set<string>, generators: set<string>) {
    && ObjTypesKnown(e, objTypes)
    && |e.states| > 0
    && UniqueNames(e.states)
    && AllStatesOk(e, generators)
    && AllReachable(e.states)
    && AllReachEnd(e.states)
  }

  /** The loop that builds the list of state names: it stops at the first
      state whose name is already in the list. */
  method CollectNames(states: seq<State>) returns (r: Result<seq<string>>)
    ensures r.Ok? <==> UniqueNames(states)
    ensures r.Ok? ==> r.value == Names(states)
    ensures r.Err? ==> exists j :: 0 < j < |states| && r.err == DuplicateStateName(states[j].name) &&
                                   UniqueNames(states[..j]) && states[j].name in Names(states[..j])
  {
    var names: seq<string> := [];
    var i := 0;
    while i < |states|
      invariant 0 <= i <= |states|
      invariant names == Names(states[..i])
      invariant UniqueNames(states[..i])
    {
      if states[i].name in names {
        assert i > 0;
        return Err(DuplicateStateName(states[i].name));
      }
      names := names + [states[i].name];
      i := i + 1;
      assert states[..i] == states[..i - 1] + [states[i - 1]];
    }
    assert states[..i] == states;
    r := Ok(names);
  }

  /** A state list whose states all pass has only valid destinations. */
  lemma StatesOkDestsValid(states: seq<State>, specs: map<string, string>, generators: set<string>)
    requires forall i :: 0 <= i < |states| ==> StateOk(states[i], Names(states), specs, generators)
    ensures DestsValid(states)
  {
    var names := Names(states);
    forall i, h, k | 0 <= i < |states| && 0 <= h < |states[i].handlers| && 0 <= k < |states[i].handlers[h].ruleSpecs|
      ensures states[i].handlers[h].ruleSpecs[k].dest.To? ==> states[i].handlers[h].ruleSpecs[k].dest.key in NameSet(states)
    {
      var hd := states[i].handlers[h];
      var rule := hd.ruleSpecs[k];
      assert hd in states[i].handlers && rule in hd.ruleSpecs;
      assert RuleOk(states[i], names, specs, generators, rule);
      if rule.dest.To? {
        var j :| 0 <= j < |names| && names[j] == rule.dest.key;
        assert states[j].name == rule.dest.key;
      }
    }
  }

  /** The loop of `verify_exploration_dict` over the states: it stops at the
      first state that fails `verify_state_dict`. */
  method VerifyEachState(e: ExplorationDict, generators: set<string>) returns (r: Outcome)
    ensures r.Pass? <==> AllStatesOk(e, generators)
    ensures r.Fail? ==>
      exists i :: 0 <= i < |e.states| && r == VerifyStateDict(e.states[i], Names(e.states), e.paramSpecs, generators) &&
                  forall j :: 0 <= j < i ==> StateOk(e.states[j], Names(e.states), e.paramSpecs, generators)
  {
    var names := Names(e.states);
    var i := 0;
    while i < |e.states|
      invariant 0 <= i <= |e.states|
      invariant forall j :: 0 <= j < i ==> StateOk(e.states[j], names, e.paramSpecs, generators)
    {
      var c := VerifyStateDict(e.states[i], names, e.paramSpecs, generators);
      VerifyStateDictOk(e.states[i], names, e.paramSpecs, generators);
      if c.Fail? {
        return c;
      }
      i := i + 1;
    }
    r := Pass;
  }

  /** The two searches, run after every state has passed. */
  method VerifyGraph(states: seq<State>) returns (r: Outcome)
    requires |states| > 0 && UniqueNames(states) && DestsValid(states)
    ensures r.Pass? <==> AllReachable(states) && AllReachEnd(states)
    ensures !AllReachable(states) ==> r == Fail(Unreachable(UnreachableNames(states)))
    ensures AllReachable(states) && !AllReachEnd(states) ==> r == Fail(DeadEnds(DeadEndNames(states)))
  {
    r := VerifyAllStatesReachable(states);
    if r.Fail? {
      return;
    }
    r := VerifyNoDeadEnds(states);
  }

  /** Runs the checks in the order of `verify_exploration_dict`: parameter
      object types, at least one state, unique names, each state in turn,
      reachability from the initial state, and reachability of the sentinel.
      `objTypes` and `generators` stand for the object and value generator
      registries. */
  method VerifyExplorationDict(e: ExplorationDict, objTypes: set<string>, generators: set<string>) returns (r: Outcome)
    ensures r.Pass? <==> ExplorationOk(e, objTypes, generators)
    ensures !ObjTypesKnown(e, objTypes) ==> r == Fail(UnknownObjectType)
    ensures ObjTypesKnown(e, objTypes) && |e.states| == 0 ==> r == Fail(NoStates)
    ensures ObjTypesKnown(e, objTypes) && !UniqueNames(e.states) ==>
      exists j :: 0 < j < |e.states| && r == Fail(DuplicateStateName(e.states[j].name)) &&
                  UniqueNames(e.states[..j]) && e.states[j].name in Names(e.states[..j])
    ensures ObjTypesKnown(e, objTypes) && UniqueNames(e.states) &&
            (exists i :: 0 <= i < |e.states| && !StateOk(e.states[i], Names(e.states), e.paramSpecs, generators)) ==>
      exists i :: 0 <= i < |e.states| && r.Fail? && r == VerifyStateDict(e.states[i], Names(e.states), e.paramSpecs, generators) &&
                  forall j :: 0 <= j < i ==> StateOk(e.states[j], Names(e.states), e.paramSpecs, generators)
    ensures ObjTypesKnown(e, objTypes) && |e.states| > 0 && UniqueNames(e.states) && AllStatesOk(e, generators) ==>
      && (!AllReachable(e.states) ==> r == Fail(Unreachable(UnreachableNames(e.states))))
      && (AllReachable(e.states) && !AllReachEnd(e.states) ==> r == Fail(DeadEnds(DeadEndNames(e.states))))
  {
    if !ObjTypesKnown(e, objTypes) {
      return Fail(UnknownObjectType);
    }
    if e.states == [] {
      return Fail(NoStates);
    }
    var collected := CollectNames(e.states);
    if collected.Err? {
      return Fail(collected.err);
    }
    var each := VerifyEachState(e, generators);
    if each.Fail? {
      return each;
    }
    StatesOkDestsValid(e.states, e.paramSpecs, generators);
    r := VerifyGraph(e.states);
  }
}
