/** The value-level pieces of the graph edits (`add_states`, `update_state`,
    `delete_state`): new states, the edit of one state, the redirection of
    destinations, and the removal of an id from the id list. */
module StateEdits {
  import opened ExpTypes
  import opened Export
  import opened Ruleset

  /** A freshly added state: one empty text content item, no parameter
      changes, and a widget with no handlers. */
  function NewState(name: string): State {
    State(name, [Content("text", "")], [], "", false, [])
  }

  /** Some state of the exploration (listed in `stateIds` and stored) is called `name`. */
  predicate HasStateNamed(stateIds: seq<string>, states: map<string, State>, name: string) {
    exists id :: id in stateIds && id in states && states[id].name == name
  }

  function IdSet(ids: seq<string>): set<string> {
    set x | x in ids
  }

  /** The graph invariant of a stored exploration: ids are listed once, every
      listed id has a stored state, and every destination of a listed state
      is the sentinel or a listed id. */
  ghost predicate Linked(stateIds: seq<string>, states: map<string, State>) {
    && Distinct(stateIds)
    && (forall id :: id in stateIds ==> id in states)
    && (forall id :: id in stateIds ==> DestKeysIn(states[id], IdSet(stateIds)))
  }

  /** The parameter-change loop of `update_state`: every change must name a
      declared parameter; the first that does not is reported. */
  function DeclaredCheck(pcs: seq<ParamChange>, specs: map<string, string>): (r: Outcome)
    ensures r.Pass? <==> forall k :: 0 <= k < |pcs| ==> pcs[k].name in specs
    ensures r.Fail? ==> exists k :: 0 <= k < |pcs| && pcs[k].name !in specs && r == Fail(UndeclaredParam(pcs[k].name)) &&
                                    forall j :: 0 <= j < k ==> pcs[j].name in specs
  {
    if pcs == [] then Pass
    else if pcs[0].name !in specs then Fail(UndeclaredParam(pcs[0].name))
    else
      var rest := DeclaredCheck(pcs[1..], specs);
      assert forall k :: 0 < k < |pcs| ==> pcs[1..][k - 1] == pcs[k];
      rest
  }

  /** Renaming `s` to `newName` clashes: the name is given, differs from the
      state's own, and another state already has it. */
  predicate NameClashes(s: State, stateIds: seq<string>, states: map<string, State>, newName: string) {
    newName != "" && newName != s.name && HasStateNamed(stateIds, states, newName)
  }

  /** The optional arguments of `update_state`. An empty name, list or widget
      id, or None, leaves its field alone, as Python's truthiness test does;
      `ruleset` is the `submit` entry of a non-empty handlers dict. */
  datatype StateEdit = StateEdit(
    newName: string,
    paramChanges: seq<ParamChange>,
    widgetId: string,
    sticky: Option<bool>,
    ruleset: Option<seq<RuleSubmission>>,
    content: seq<Content>)

  /** The checks and assignments `update_state` makes on the state `s`, in
      source order. `clean` stands for the HTML cleaner applied to feedback
      and content. The errors it can raise are a clashing new name, an
      undeclared parameter, a ruleset failure, and content of the wrong
      length. */
  function EditState(s: State, stateIds: seq<string>, states: map<string, State>, specs: map<string, string>,
                     edit: StateEdit, clean: string -> string): (r: Result<State>)
    ensures r.Ok? <==> && !NameClashes(s, stateIds, states, edit.newName)
                       && (forall k :: 0 <= k < |edit.paramChanges| ==> edit.paramChanges[k].name in specs)
                       && (edit.ruleset.Some? ==> CheckRuleset(edit.ruleset.value, stateIds).Pass?)
                       && |edit.content| <= 1
    ensures NameClashes(s, stateIds, states, edit.newName) ==> r == Err(DuplicateStateName(edit.newName))
    ensures r.Err? ==> || (NameClashes(s, stateIds, states, edit.newName) && r.err == DuplicateStateName(edit.newName))
                       || (exists k :: 0 <= k < |edit.paramChanges| && edit.paramChanges[k].name !in specs &&
                                       r.err == UndeclaredParam(edit.paramChanges[k].name))
                       || (edit.ruleset.Some? && CheckRuleset(edit.ruleset.value, stateIds) == Fail(r.err))
                       || (|edit.content| > 1 && r.err == ContentLength(|edit.content|))
  {
    if NameClashes(s, stateIds, states, edit.newName) then
      Err(DuplicateStateName(edit.newName))
    else
      var s1 := if edit.newName != "" then s.(name := edit.newName) else s;
      var pcheck := if edit.paramChanges != [] then DeclaredCheck(edit.paramChanges, specs) else Pass;
      if pcheck.Fail? then Err(pcheck.err)
      else
        var s2 := if edit.paramChanges != [] then s1.(paramChanges := edit.paramChanges) else s1;
        var s3 := if edit.widgetId != "" then s2.(widgetId := edit.widgetId) else s2;
        var s4 := if edit.sticky.Some? then s3.(sticky := edit.sticky.value) else s3;
        var rcheck := if edit.ruleset.Some? then CheckRuleset(edit.ruleset.value, stateIds) else Pass;
        if rcheck.Fail? then Err(rcheck.err)
        else
          var s5 := if edit.ruleset.Some? then s4.(handlers := [Handler(SubmitHandlerName, ToRules(edit.ruleset.value, clean))]) else s4;
          if edit.content != [] && |edit.content| != 1 then Err(ContentLength(|edit.content|))
          else Ok(if edit.content != [] then s5.(content := [Content(edit.content[0].kind, clean(edit.content[0].value))]) else s5)
  }

  /** A successful edit renames the state only to a name no other state has,
      sets only declared parameters, and leaves every field whose argument is
      empty as it was. */
  lemma EditStateFields(s: State, stateIds: seq<string>, states: map<string, State>, specs: map<string, string>,
                        edit: StateEdit, clean: string -> string)
    requires EditState(s, stateIds, states, specs, edit, clean).Ok?
    ensures var t := EditState(s, stateIds, states, specs, edit, clean).value;
      && (if edit.newName == "" then t.name == s.name
          else t.name == edit.newName && (edit.newName == s.name || !HasStateNamed(stateIds, states, edit.newName)))
      && (if edit.paramChanges == [] then t.paramChanges == s.paramChanges
          else t.paramChanges == edit.paramChanges && forall k :: 0 <= k < |edit.paramChanges| ==> edit.paramChanges[k].name in specs)
      && t.widgetId == (if edit.widgetId == "" then s.widgetId else edit.widgetId)
      && t.sticky == (if edit.sticky.None? then s.sticky else edit.sticky.value)
      && (if edit.content == [] then t.content == s.content
          else |edit.content| == 1 && t.content == [Content(edit.content[0].kind, clean(edit.content[0].value))])
  {
  }

  /** A successful edit keeps the handlers unless a ruleset is given, and
      then the ruleset is well formed and becomes the only handler. */
  lemma EditStateHandlers(s: State, stateIds: seq<string>, states: map<string, State>, specs: map<string, string>,
                          edit: StateEdit, clean: string -> string)
    requires EditState(s, stateIds, states, specs, edit, clean).Ok?
    ensures var t := EditState(s, stateIds, states, specs, edit, clean).value;
      match edit.ruleset
      case None => t.handlers == s.handlers
      case Some(rs) => RulesetWellFormed(rs, stateIds) && t.handlers == [Handler(SubmitHandlerName, ToRules(rs, clean))]
  {
    if edit.ruleset.Some? {
      CheckRulesetOk(edit.ruleset.value, stateIds);
    }
  }

  /** An edit with every argument empty changes nothing. */
  lemma EditStateNothingToDo(s: State, stateIds: seq<string>, states: map<string, State>, specs: map<string, string>,
                             clean: string -> string)
    ensures EditState(s, stateIds, states, specs, StateEdit("", [], "", None, None, []), clean) == Ok(s)
  {
  }

  /** An edit keeps every destination of the state the sentinel or a listed
      id: a new ruleset is only accepted when its destinations are. */
  lemma EditStateKeepsDests(s: State, stateIds: seq<string>, states: map<string, State>, specs: map<string, string>,
                            edit: StateEdit, clean: string -> string)
    requires DestKeysIn(s, IdSet(stateIds))
    requires EditState(s, stateIds, states, specs, edit, clean).Ok?
    ensures DestKeysIn(EditState(s, stateIds, states, specs, edit, clean).value, IdSet(stateIds))
  {
    var t := EditState(s, stateIds, states, specs, edit, clean).value;
    EditStateHandlers(s, stateIds, states, specs, edit, clean);
    if edit.ruleset.Some? {
      var rules := ToRules(edit.ruleset.value, clean);
      forall h, k | 0 <= h < |t.handlers| && 0 <= k < |t.handlers[h].ruleSpecs| && t.handlers[h].ruleSpecs[k].dest.To?
        ensures t.handlers[h].ruleSpecs[k].dest.key in IdSet(stateIds)
      {
        assert t.handlers[h].ruleSpecs[k] == rules[k];
        assert rules[k].dest == edit.ruleset.value[k].dest;
      }
    }
  }

  /** The index of the first occurrence of `x` in `s`. */
  function FirstIndex(s: seq<string>, x: string): (i: nat)
    requires x in s
    ensures i < |s| && s[i] == x && x !in s[..i]
  {
    if s[0] == x then 0
    else
      var j := FirstIndex(s[1..], x);
      assert s[..j + 1] == [s[0]] + s[1..][..j];
      j + 1
  }

  /** `list.remove`: the list without the first occurrence of `x`. */
  function Remove(s: seq<string>, x: string): seq<string> {
    if x in s then s[..FirstIndex(s, x)] + s[FirstIndex(s, x) + 1..] else s
  }

  /** Removing a listed id shifts every later entry down by one. */
  lemma RemoveShifts(s: seq<string>, x: string)
    requires x in s
    ensures |Remove(s, x)| == |s| - 1
    ensures forall j :: 0 <= j < |Remove(s, x)| ==> Remove(s, x)[j] == s[if j < FirstIndex(s, x) then j else j + 1]
  {
  }

  /** Removing a listed id from a list without repetitions leaves exactly the
      other ids, in their order, each still listed once. */
  lemma RemoveDistinct(s: seq<string>, x: string)
    requires Distinct(s) && x in s
    ensures |Remove(s, x)| == |s| - 1
    ensures forall j :: 0 <= j < |Remove(s, x)| ==> Remove(s, x)[j] == s[if j < FirstIndex(s, x) then j else j + 1]
    ensures Distinct(Remove(s, x))
    ensures forall y :: y in Remove(s, x) <==> y in s && y != x
  {
    var i := FirstIndex(s, x);
    var r := Remove(s, x);
    RemoveShifts(s, x);
    forall j, k | 0 <= j < k < |r| ensures r[j] != r[k] {
      var j', k' := if j < i then j else j + 1, if k < i then k else k + 1;
      assert r[j] == s[j'] && r[k] == s[k'] && j' < k';
    }
    forall y | y in r ensures y in s && y != x {
      var j :| 0 <= j < |r| && r[j] == y;
      assert s[if j < i then j else j + 1] == y;
    }
    forall y | y in s && y != x ensures y in r {
      var j :| 0 <= j < |s| && s[j] == y;
      if j < i { assert r[j] == y; } else { assert r[j - 1] == y; }
    }
  }

  /** The redirection `delete_state` applies to the state with id `id`: every
      destination equal to the deleted id now loops back to `id`. */
  function Redirect(s: State, deleted: string, id: string): (t: State)
    ensures t == s.(handlers := t.handlers)
    ensures |t.handlers| == |s.handlers|
    ensures forall h :: 0 <= h < |s.handlers| ==> |t.handlers[h].ruleSpecs| == |s.handlers[h].ruleSpecs|
    ensures forall h, k :: 0 <= h < |s.handlers| && 0 <= k < |s.handlers[h].ruleSpecs| ==>
      t.handlers[h].ruleSpecs[k].dest == if s.handlers[h].ruleSpecs[k].dest == To(deleted) then To(id)
                                          else s.handlers[h].ruleSpecs[k].dest
  {
    RenameDests(s, map[deleted := id])
  }

  /** Redirecting twice is redirecting once. */
  lemma RedirectIdempotent(s: State, deleted: string, id: string)
    ensures Redirect(Redirect(s, deleted, id), deleted, id) == Redirect(s, deleted, id)
  {
    var t := Redirect(s, deleted, id);
    var u := Redirect(t, deleted, id);
    forall h | 0 <= h < |s.handlers| ensures u.handlers[h] == t.handlers[h] {
      assert u.handlers[h].ruleSpecs == t.handlers[h].ruleSpecs;
    }
    assert u.handlers == t.handlers;
  }

  /** After redirection, no destination of a state other than the deleted one
      names the deleted id, and every destination that was listed, or was the
      deleted id, is listed in the list without the deleted id. */
  lemma RedirectKeepsDests(s: State, stateIds: seq<string>, deleted: string, id: string)
    requires Distinct(stateIds) && deleted in stateIds && id in stateIds && id != deleted
    requires DestKeysIn(s, IdSet(stateIds))
    ensures DestKeysIn(Redirect(s, deleted, id), IdSet(Remove(stateIds, deleted)))
  {
    RemoveDistinct(stateIds, deleted);
  }
}
