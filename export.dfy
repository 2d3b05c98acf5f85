/** Renaming rule destinations, and `export_state_internals_to_dict` with
    human-readable destinations: stored states name their destinations by
    state id, exported ones by state name. */
module Export {
  import opened ExpTypes

  /** The destination `d` with its key replaced through `m`; the sentinel and
      keys outside `m` are left alone. */
  function RenameDest(d: Dest, m: map<string, string>): Dest {
    if d.To? && d.key in m then To(m[d.key]) else d
  }

  function RenameRules(rules: seq<Rule>, m: map<string, string>): (r: seq<Rule>)
    ensures |r| == |rules|
    ensures forall k :: 0 <= k < |rules| ==> r[k] == rules[k].(dest := RenameDest(rules[k].dest, m))
  {
    seq(|rules|, k requires 0 <= k < |rules| => rules[k].(dest := RenameDest(rules[k].dest, m)))
  }

  /** The state `s` with every rule destination renamed through `m`, and
      nothing else changed. */
  function RenameDests(s: State, m: map<string, string>): (t: State)
    ensures |t.handlers| == |s.handlers|
    ensures forall h :: 0 <= h < |s.handlers| ==>
      t.handlers[h] == s.handlers[h].(ruleSpecs := RenameRules(s.handlers[h].ruleSpecs, m))
    ensures t == s.(handlers := t.handlers)
  {
    s.(handlers := seq(|s.handlers|, h requires 0 <= h < |s.handlers| =>
                         s.handlers[h].(ruleSpecs := RenameRules(s.handlers[h].ruleSpecs, m))))
  }

  /** Every state-key destination of `s` has its key in `keys`. */
  ghost predicate DestKeysIn(s: State, keys: set<string>) {
    forall h, k :: 0 <= h < |s.handlers| && 0 <= k < |s.handlers[h].ruleSpecs| && s.handlers[h].ruleSpecs[k].dest.To? ==>
      s.handlers[h].ruleSpecs[k].dest.key in keys
  }

  /** The map from state id to state name. */
  function NameOfId(states: map<string, State>): map<string, string> {
    map id | id in states :: states[id].name
  }

  function ExportRules(rules: seq<Rule>, states: map<string, State>): (r: Result<seq<Rule>>)
    ensures r.Ok? <==> forall k :: 0 <= k < |rules| && rules[k].dest.To? ==> rules[k].dest.key in states
    ensures r.Ok? ==> r.value == RenameRules(rules, NameOfId(states))
    ensures r.Err? ==> exists k :: 0 <= k < |rules| && rules[k].dest.To? && rules[k].dest.key !in states &&
                                   r.err == StateNotFound(rules[k].dest.key)
  {
    if rules == [] then Ok([])
    else
      var d := rules[0].dest;
      if d.To? && d.key !in states then Err(StateNotFound(d.key))
      else match ExportRules(rules[1..], states)
        case Err(e) => Err(e)
        case Ok(rest) =>
          var rs := [rules[0].(dest := RenameDest(d, NameOfId(states)))] + rest;
          assert rs == RenameRules(rules, NameOfId(states)) by {
            forall k | 0 < k < |rules| ensures rs[k] == RenameRules(rules, NameOfId(states))[k] {
              assert rules[1..][k - 1] == rules[k];
            }
          }
          Ok(rs)
  }

  function ExportHandlers(hs: seq<Handler>, states: map<string, State>): (r: Result<seq<Handler>>)
    ensures r.Ok? <==> forall h, k :: 0 <= h < |hs| && 0 <= k < |hs[h].ruleSpecs| && hs[h].ruleSpecs[k].dest.To? ==>
                                      hs[h].ruleSpecs[k].dest.key in states
    ensures r.Ok? ==> |r.value| == |hs| &&
                      forall h :: 0 <= h < |hs| ==> r.value[h] == hs[h].(ruleSpecs := RenameRules(hs[h].ruleSpecs, NameOfId(states)))
    ensures r.Err? ==> exists h, k :: 0 <= h < |hs| && 0 <= k < |hs[h].ruleSpecs| && hs[h].ruleSpecs[k].dest.To? &&
                                      hs[h].ruleSpecs[k].dest.key !in states &&
                                      r.err == StateNotFound(hs[h].ruleSpecs[k].dest.key)
  {
    if hs == [] then Ok([])
    else match ExportRules(hs[0].ruleSpecs, states)
      case Err(e) => Err(e)
      case Ok(rules) =>
        match ExportHandlers(hs[1..], states)
        case Err(e) =>
          assert forall h :: 0 < h < |hs| ==> hs[1..][h - 1] == hs[h];
          Err(e)
        case Ok(rest) =>
          assert forall h :: 0 < h < |hs| ==> hs[1..][h - 1] == hs[h];
          Ok([hs[0].(ruleSpecs := rules)] + rest)
  }

  /** The state with every destination other than the sentinel replaced by the
      name of the state with that id; a destination id with no stored state
      raises. Exporting changes nothing but the destinations, and leaves the
      sentinel as it is. */
  function ExportState(s: State, states: map<string, State>): (r: Result<State>)
    ensures r.Ok? <==> DestKeysIn(s, states.Keys)
    ensures r.Ok? ==> r.value == RenameDests(s, NameOfId(states))
    ensures r.Err? ==> exists h, k :: 0 <= h < |s.handlers| && 0 <= k < |s.handlers[h].ruleSpecs| &&
                                      s.handlers[h].ruleSpecs[k].dest.To? &&
                                      s.handlers[h].ruleSpecs[k].dest.key !in states &&
                                      r.err == StateNotFound(s.handlers[h].ruleSpecs[k].dest.key)
  {
    match ExportHandlers(s.handlers, states)
    case Err(e) => Err(e)
    case Ok(hs) => Ok(s.(handlers := hs))
  }

  /** Renaming through `m1` and then through `m2` restores the state when `m2`
      undoes `m1` on every destination key the state uses. */
  lemma RenameDestsInverse(s: State, m1: map<string, string>, m2: map<string, string>)
    requires forall h, k :: 0 <= h < |s.handlers| && 0 <= k < |s.handlers[h].ruleSpecs| && s.handlers[h].ruleSpecs[k].dest.To? ==>
      var key := s.handlers[h].ruleSpecs[k].dest.key;
      key in m1 && m1[key] in m2 && m2[m1[key]] == key
    ensures RenameDests(RenameDests(s, m1), m2) == s
  {
    var t := RenameDests(RenameDests(s, m1), m2);
    forall h | 0 <= h < |s.handlers| ensures t.handlers[h] == s.handlers[h] {
      var rules := s.handlers[h].ruleSpecs;
      var back := RenameRules(RenameRules(rules, m1), m2);
      forall k | 0 <= k < |rules| ensures back[k] == rules[k] {
        assert rules[k].dest.To? ==> (var key := rules[k].dest.key; key in m1 && m1[key] in m2 && m2[m1[key]] == key);
      }
      assert back == rules;
    }
    assert t.handlers == s.handlers;
  }

  /** Exporting and then mapping names back to ids through `ids` gives back
      the stored state, provided `ids` sends the name of every destination
      state back to its id (as it does when names are unique). */
  lemma ExportRoundTrip(s: State, states: map<string, State>, ids: map<string, string>)
    requires ExportState(s, states).Ok?
    requires forall id :: id in states ==> states[id].name in ids && ids[states[id].name] == id
    ensures RenameDests(ExportState(s, states).value, ids) == s
  {
    RenameDestsInverse(s, NameOfId(states), ids);
  }
}
