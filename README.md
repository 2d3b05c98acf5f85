# Exploration services, modelled in Dafny

An exploration is a directed graph of named states. Each state shows
content and carries an interactive widget. The widget's handlers hold
ordered rules, and each rule leads to another state or to the terminal
destination `END`. This project models the part of
`core/domain/exp_services.py` that decides whether such a graph is well
formed, and the operations that edit it:

- the validators of an exploration dict: content, parameter changes,
  rule-definition trees, destinations and feedback-less self-loops of each
  state (`verify_state_dict`), the forward search that checks every state is
  reachable from the initial one, the reverse search that checks `END` is
  reachable from every state, and `verify_exploration_dict`, which runs them
  in order;
- answer classification (`classify`): the first rule of the handler whose
  definition matches, or the first rule when the widget takes no input;
- the ruleset checks of `update_state`, the edit of a state, `add_states`,
  `delete_state` with its redirection of destinations, and the
  export of a state with state names instead of ids as destinations;
- the stored exploration as an object with a version: `save_exploration`
  refuses a caller whose copy is not at the stored version, and every commit
  appends one snapshot;
- parameter resolution (`get_init_params`, `update_with_state_params`) as
  a fold over an ordered list of changes;
- the version numbers `get_exploration_snapshots_metadata` lists.

`END` is the constructor `Dest.End`, distinct from every state key
(`Dest.To(key)`). In the source it is a string, which a state may also be
named; "## Findings" shows what that does to the dead-end check.

Registries and external services become parameters:

- the known object types and value generators are sets of ids;
- rule evaluation is a predicate `matches` on definitions;
- a value generator followed by normalisation is a function `gen` of the
  change, the parameter's object type and the parameters built so far;
- the HTML cleaner is a function `clean` on strings;
- the domain object's own `validate()` is a predicate `validate` held by
  the store;
- the ids the datastore generates for new states are an argument.

Files: `exp_types.dfy` (records, errors, outcomes), `state_graph.dfy`
(paths, reachability and their closure lemmas), `reachability.dfy`,
`dead_ends.dfy`, `rule_definition.dfy`, `state_validation.dfy`,
`exploration_validation.dfy`, `classify.dfy`, `ruleset.dfy`, `params.dfy`,
`export.dfy`, `snapshots.dfy`, `state_edits.dfy`, `store.dfy`,
`findings.dfy`.

## Model

`Ruleset.RuleCheck` (one rule's checks, lines 670-701) and `StateEdits.Remove` (`list.remove`, line 791) carry no contract of their own; `Ruleset.RuleCheckPass`, `StateEdits.RemoveDistinct` and the rows that use them state their properties.

| member | source | states |
|---|---|---|
| StateGraph.ForwardClosedHoldsReachable | core/domain/exp_services.py:1192-1223 | every state reachable from the root lies in any set that contains the root and is closed under rule edges; this is what the forward search's processed list becomes |
| StateGraph.BackwardClosedHoldsReachesEnd | core/domain/exp_services.py:1225-1258 | every state that reaches `END` lies in any set that holds the states with a rule to `END` and is closed under predecessors |
| StateGraph.CoverByCount | core/domain/exp_services.py:1219 | with unique names, a repetition-free list of state names has as many entries as there are states exactly when it holds every state name (the length test the searches end with) |
| Reachability.IndexOfName | core/domain/exp_services.py:1208-1209 | the first position of a state with the popped name, as the `next(...)` over the enumerated states finds it |
| Reachability.EnqueueSuccessors | core/domain/exp_services.py:1211-1217 | the rule scan appends only unprocessed destinations of the popped state, and afterwards every state-key destination of that state is queued or processed |
| Reachability.VerifyAllStatesReachable | core/domain/exp_services.py:1192-1223 | passes exactly when every state is reachable from the first one along rule destinations other than `END`; otherwise reports exactly the unreachable names; the loop terminates on cyclic graphs |
| DeadEnds.EnqueuePredecessors | core/domain/exp_services.py:1242-1251 | the rescan appends only states with a rule to the popped destination that were neither queued nor processed, and afterwards every state with such a rule is queued or processed |
| DeadEnds.PopKeepsSearchInv | core/domain/exp_services.py:1232-1252 | one iteration keeps the search invariant: processed names reach `END`, are listed once, and every predecessor of a processed destination is queued or processed; `END` itself is never recorded |
| DeadEnds.SearchInvAtExit | core/domain/exp_services.py:1254-1258 | when the queue is empty, the processed list covers all states exactly when every state reaches `END`, and the missing names are exactly the dead ends |
| DeadEnds.VerifyNoDeadEnds | core/domain/exp_services.py:1225-1258 | passes exactly when `END` is reachable from every state; otherwise reports the state names minus the processed names, which are exactly the dead ends; terminates |
| RuleDefinition.NodeCheck | core/domain/exp_services.py:1091-1111 | one node passes exactly when it has a rule type that is default, atomic with a declared or `answer` subject, or AND/OR/NOT |
| RuleDefinition.VerifyRuleDefinition | core/domain/exp_services.py:1088-1115 | a failure is a missing rule type, an unrecognised subject (neither declared nor `answer`), or an unsupported rule type |
| RuleDefinition.VerifyRuleDefinitionFirstFailure | core/domain/exp_services.py:1088-1115 | the recursive check reports the first failing node of the tree in preorder, and passes when every node passes |
| RuleDefinition.VerifyRuleDefinitionOk | core/domain/exp_services.py:1088-1115 | a tree is accepted exactly when every node in it, at any depth, is acceptable |
| RuleDefinition.CompositePassesChildren | core/domain/exp_services.py:1114-1115 | an accepted composite node has every child accepted: the check recurses through all children |
| StateValidation.VerifyContent | core/domain/exp_services.py:1035-1048 | passes exactly when there is one content item of an allowed type; otherwise reports the length or the type |
| StateValidation.ParamChangeCheck | core/domain/exp_services.py:1060-1066 | one change passes exactly when its parameter is declared and its generator exists; a failure names the offending parameter or generator |
| StateValidation.VerifyParamChanges | core/domain/exp_services.py:1051-1071 | all changes pass exactly when each does; a failure is exhibited by some change in the list |
| StateValidation.VerifyRule | core/domain/exp_services.py:1144-1159 | a rule passes exactly when its definition tree is acceptable, its destination is `END` or a state name, it is not a feedback-less self-loop of a non-sticky widget, and its parameter changes pass |
| StateValidation.VerifyRules | core/domain/exp_services.py:1144-1159 | all rules of a handler pass exactly when each does; a failure is exhibited by one of them |
| StateValidation.VerifyHandlers | core/domain/exp_services.py:1138-1159 | handlers pass exactly when none has an empty rule list and all rules pass |
| StateValidation.VerifyStateDict | core/domain/exp_services.py:1032-1159 | any reported error is a real defect of the state (content, a parameter change, an empty handler or a bad rule) |
| StateValidation.VerifyStateDictOk | core/domain/exp_services.py:1032-1159 | a state passes exactly when its content, parameter changes, handlers and every rule are acceptable |
| StateValidation.StickyExcusesOnlySelfLoops | core/domain/exp_services.py:1155-1159 | if a state passes with a sticky widget, the same state with a non-sticky widget passes unless it has a feedback-less self-loop, and then the error is that self-loop |
| ExplorationValidation.CollectNames | core/domain/exp_services.py:1282-1286 | succeeds exactly when names are unique, giving the names in order; otherwise reports the first name already seen |
| ExplorationValidation.StatesOkDestsValid | core/domain/exp_services.py:1146-1147 | once every state passes, every state-key destination names a state, as the searches need |
| ExplorationValidation.VerifyEachState | core/domain/exp_services.py:1288-1290 | passes exactly when every state passes; otherwise the error is that of the first failing state, all earlier ones passing |
| ExplorationValidation.VerifyGraph | core/domain/exp_services.py:1292-1293 | passes exactly when every state is reachable from the first and reaches `END`; otherwise the unreachable names, or else the dead ends |
| ExplorationValidation.VerifyExplorationDict | core/domain/exp_services.py:1260-1294 | passes exactly when object types are known, there is a state, names are unique, every state passes, every state is reachable and every state reaches `END`; each check's error is reported in that order |
| Classify.FindHandler | core/domain/exp_services.py:809 | the index of the first handler with the given name, or none |
| Classify.FirstMatch | core/domain/exp_services.py:816-820 | the first index from `i` whose definition matches, with no earlier match; none when no rule matches |
| Classify.Classify | core/domain/exp_services.py:798-823 | a missing handler is reported; with no input type the result is a rule of the handler (its first); otherwise the result matches |
| Classify.ClassifyWithoutInputType | core/domain/exp_services.py:809-814 | with no input type, the result is the first rule of the first handler with the given name, unevaluated, and `NoRules` when that handler has none |
| Classify.ClassifyIsFirstMatch | core/domain/exp_services.py:813-823 | with an input type, the result is the first matching rule with every earlier rule not matching, and the error is "no matching rule" exactly when none matches |
| Classify.FirstMatchStable | core/domain/exp_services.py:816-820 | appending rules does not change an existing first match |
| Classify.DefaultRuleAlwaysClassifies | core/domain/exp_services.py:813-823 | a handler whose last rule has the default rule type classifies every answer when default definitions always match |
| Ruleset.CheckRuleset | core/domain/exp_services.py:655-701 | the rule loop reports the first rule that fails its destination or default-rule checks, and passes when all do |
| Ruleset.RuleCheckPass | core/domain/exp_services.py:670-701 | one rule passes exactly when its destination is `END` or a listed id, it is the default rule exactly when it is last, and its rule type agrees |
| Ruleset.CheckRulesetOk | core/domain/exp_services.py:670-701 | a ruleset is accepted exactly when every destination is valid, the last rule and only it is the default rule, and rule types agree |
| Ruleset.EmptyRulesetAccepted | core/domain/exp_services.py:655 | an empty ruleset passes the loop |
| Ruleset.ToRules | core/domain/exp_services.py:675-679 | one stored rule per submission, in order, with the same definition, destination and parameter changes, and each feedback string passed through the cleaner |
| Ruleset.AcceptedRulesetAlwaysClassifies | core/domain/exp_services.py:681-701 | a non-empty accepted ruleset, stored as the submit handler, classifies every answer when default definitions always match |
| Params.ApplyParamChanges | core/domain/exp_services.py:463-489 | the resolution loop computes the in-order fold of the changes from the starting parameters |
| Params.ResolveConcat | core/domain/exp_services.py:466-471 | resolving two lists in turn is resolving their concatenation: later changes see earlier results |
| Params.ResolveLast | core/domain/exp_services.py:470-471 | the last change sets its parameter from the map all earlier changes produced |
| Params.ResolveOutcome | core/domain/exp_services.py:463-489 | resolution fails exactly when a change names an undeclared parameter, and reports the first; on success the keys are the starting keys plus every changed name |
| Params.ResolveKeepsUnchanged | core/domain/exp_services.py:477-489 | a reader parameter no change names keeps its value |
| Export.RenameDests | core/domain/exp_services.py:150-157 | every rule destination renamed through the map, and nothing else changed |
| Export.ExportRules | core/domain/exp_services.py:152-156 | the rules of one handler export exactly when every state-key destination is stored; then each destination is renamed to its state's name and `END` is kept; otherwise a missing id is reported |
| Export.ExportState | core/domain/exp_services.py:144-158 | succeeds exactly when every state-key destination has a stored state; then destinations become names and `END` stays; otherwise reports a missing id |
| Export.RenameDestsInverse | core/domain/exp_services.py:150-157 | renaming through a map and then its inverse restores the state |
| Export.ExportRoundTrip | core/domain/exp_services.py:144-158 | mapping an exported state's names back to ids gives the stored state when names identify ids |
| Snapshots.DescendingRange | core/domain/exp_services.py:510 | Python's descending `range`: its length and its entries |
| Snapshots.SnapshotVersions | core/domain/exp_services.py:493-515 | consecutive descending versions from the current one, `min(limit, version)` of them (none for a negative limit), all existing versions |
| StateEdits.DeclaredCheck | core/domain/exp_services.py:600-611 | passes exactly when every change names a declared parameter; otherwise reports the first that does not |
| StateEdits.EditState | core/domain/exp_services.py:585-748 | an edit is accepted exactly when the new name clashes with no other state, every parameter change is declared, a given ruleset passes its checks and at most one content item is given; a clashing name is reported first, and every refusal names a defect that is really there |
| StateEdits.EditStateFields | core/domain/exp_services.py:588-633 | a successful edit renames only to an unused name, sets only declared parameters, and leaves every field with an empty argument as it was |
| StateEdits.EditStateHandlers | core/domain/exp_services.py:635-701 | a given ruleset is well formed and becomes the only (submit) handler; otherwise handlers are kept |
| StateEdits.EditStateNothingToDo | core/domain/exp_services.py:588-748 | an edit with every argument empty changes nothing |
| StateEdits.EditStateKeepsDests | core/domain/exp_services.py:670-673 | an edit keeps every destination of the state `END` or a listed id |
| StateEdits.FirstIndex | core/domain/exp_services.py:791 | the first position of a listed id |
| StateEdits.RemoveDistinct | core/domain/exp_services.py:791 | removing a listed id from a repetition-free list drops exactly that id and keeps the others in order |
| StateEdits.Redirect | core/domain/exp_services.py:777-781 | destinations equal to the deleted id now lead to the containing state; all others are kept |
| StateEdits.RedirectIdempotent | core/domain/exp_services.py:774-783 | redirecting twice is redirecting once |
| StateEdits.RedirectKeepsDests | core/domain/exp_services.py:774-791 | after redirection every destination is `END` or an id of the shortened list |
| Store.ExportStates | core/domain/exp_services.py:297-300 | exports every listed state, succeeding exactly when each is stored with stored destinations; a failure names a missing id |
| Store.CommitContent | core/domain/exp_services.py:274-334 | a commit is accepted exactly when the exploration validates, the caller's version is the stored one, and a public exploration's states export; a stale version is reported with both versions; the snapshot has content exactly when public, and then holds the parameter changes, the parameter specs and the listed states exported in list order |
| Store.SnapshotRestoresStates | core/domain/exp_services.py:286-300 | the snapshot of a public commit holds the exploration's parameter changes and specs, one state per listed id, and each maps back to the stored state when names identify ids |
| Store.LinkedAfterDelete | core/domain/exp_services.py:758-795 | deleting a listed state keeps the graph linked, and no remaining destination names the deleted id |
| Store.LinkedAfterAdd | core/domain/exp_services.py:518-548 | appending fresh ids of rule-less new states keeps the graph linked |
| Store.LinkedAfterUpdate | core/domain/exp_services.py:750-755 | replacing a state by one with listed destinations keeps the graph linked |
| Store.ExplorationStore.constructor | core/domain/exp_services.py:375-393 | one state with the initial name and no rules, at version 1 with one snapshot |
| Store.ExplorationStore.Commit | core/domain/exp_services.py:274-334 | a refused commit writes nothing; an accepted one stores the exploration and states, bumps the version and appends one snapshot |
| Store.ExplorationStore.SaveExploration | core/domain/exp_services.py:268-334 | a caller whose version differs from the stored one is refused with both versions, and nothing is written; a valid copy at the stored version is written with the stored states as the next version, and one snapshot, holding the exported states exactly when public, is appended |
| Store.ExplorationStore.AddStates | core/domain/exp_services.py:518-548 | the first name already used is refused before anything is written; otherwise the commit decides: on success one empty state per name under its fresh id, ids appended in order, other states and the parameters and visibility untouched, one snapshot appended, and the graph stays linked |
| Store.ExplorationStore.FirstTakenName | core/domain/exp_services.py:524-526 | the position of the first name some state already has, every earlier name being free |
| Store.BuildNewStates | core/domain/exp_services.py:529-533 | the loop stores `NewState(names[k])` under `ids[k]` for every `k`, and nothing else |
| Store.NewStates | core/domain/exp_services.py:529-533 | the new states are keyed by exactly the fresh ids, each holding the empty state of its name |
| Store.ExplorationStore.UpdateState | core/domain/exp_services.py:551-755 | a missing state or a refused edit writes nothing; an accepted edit is committed with the unchanged exploration: on success only that state is replaced, ids, parameters and visibility are kept, one snapshot is appended, and the graph stays linked |
| Store.ExplorationStore.DeleteState | core/domain/exp_services.py:758-795 | an unlisted id or the initial state is refused, and the first listed id with no stored state raises; otherwise the commit decides: on success the id list loses exactly that id, listed states are redirected, the state is dropped, parameters and visibility are kept, one snapshot is appended, and the graph stays linked |
| Store.RedirectListed | core/domain/exp_services.py:771-791 | when every listed id is stored, the listed states are redirected and the deleted one dropped, exactly `RedirectedStates`; otherwise the first listed id, in list order, with no stored state is reported |
| Store.ExplorationStore.SnapshotsMetadata | core/domain/exp_services.py:493-515 | the history entries of the newest `min(limit, version)` versions, newest first |
| NoDeadEndsAsWritten.AppendPerHandler | core/domain/exp_services.py:1247-1251 | the state is appended once per handler that has a rule to the popped destination |
| NoDeadEndsAsWritten.EndNamedStateIsFixedPoint | core/domain/exp_services.py:1230-1252 | on a state named like `END` with a rule to `END`, one iteration gives back the starting loop state |
| NoDeadEndsAsWritten.EndNamedStateNeverTerminates | core/domain/exp_services.py:1232-1252 | on that exploration the queue is non-empty after any number of iterations |

## Left out

- Memcache, the datastore models and transactions are left out. The store is one object, and a commit that raises writes nothing, as a rolled-back transaction would. Concurrent commits are not modelled; the version check is modelled for a caller holding a stale copy.
- YAML, ZIP and HTML export, `create_from_yaml`, `fork_exploration` and demo loading are left out. They are serialisation and file-system plumbing.
- `exp_domain` is not part of this model: the `Exploration` and `State` classes, their `validate()` and `has_state_named`. `validate()` is the abstract predicate `validate`. `State.validate()` in `save_states` is not modelled. `has_state_named` is taken to look at the states listed in `state_ids`.
- The widget customization-arg loop of `verify_state_dict` is left out, because it depends on the widget registry. Its test at line 1177 reads `wp`, which in Python 2 is the variable the comprehension at line 1176 leaks, so it compares the widget's last parameter name with the list of all of them and never fails; only a widget with no parameters leaves `wp` unbound on the first argument.
- Rule-input normalisation and `{{...}}` template detection in `update_state` are left out. They depend on object-type normalisers that are not visible here.
- `update_state`'s widget customization args are left out. They are stored as given and checked only for being a dict.
- Dict schema checks (`verify_dict_keys_and_types`) and the `isinstance` checks are left out, because the records are typed.
- The `param_specs` entries are reduced to their object type. The check that each spec dict has exactly one `obj_type` key is a schema check.
- Exception types and message texts are left out; errors are constructors of `Error`. The message for a default rule with the wrong type applies `%` twice to a two-placeholder string, so Python raises a `TypeError` instead of that `ValueError`. The model reports `DefaultRuleWrongType`.
- `Reachability.VerifyAllStatesReachable` and `DeadEnds.VerifyNoDeadEnds` require unique names and valid destinations. `verify_exploration_dict`, their only caller, establishes both first. In the source, a destination that names no state makes the `next(...)` lookup of the forward search (line 1208) raise `StopIteration`. With duplicate names that lookup takes the first state so named. The reverse search has no such lookup.
- `Classify.Classify`: with no input type and an empty rule list, the source raises `IndexError`; the model reports `NoRules`. The answer, file system and parameters reach the source only through `evaluate_rule`, which is the predicate `matches`.
- `Store.ExplorationStore.AddStates` does not check the new names against each other, because the source does not. `["B", "B"]` adds two states named `B`, unless `validate()` catches it.
- `Store.ExplorationStore.UpdateState` does not require the state id to be listed in `state_ids`, because the source does not; `get_state_by_id` only needs a stored state.
- `delete_state_model` is modelled as removal. The soft-delete flag and `force_deletion` are left out.
- Title, category, editors and default skin of an exploration are not modelled. They are stored without checks.
- The snapshot written by `create_new` is modelled as empty, because `ExplorationModel.put` is not part of this model.
- `StateEdits.NewState` and `Store.ExplorationStore.constructor`: a new state built as `exp_domain.State(..., None)` (lines 385 and 533-534) is taken to have a widget with no handlers, hence no rules. `exp_domain` is not part of this model. `Store.LinkedAfterAdd` and the `Linked` clause of `AddStates` rest on this.
- `Ruleset.CheckRuleset` and `Store.ExplorationStore.UpdateState` do not raise for an unknown widget id, which `get_widget_by_id` rejects (lines 650-651), nor for an unknown rule name, which `get_rule_by_name` rejects (lines 704-705). They also do not raise the `KeyError` of a non-default definition without a `name`. The widget registry is not part of this model, and the model accepts every widget and rule name.
- `Classify.Classify` does not raise for an unknown widget or handler, which `get_widget_by_id(...).get_handler_by_name(...)` rejects (lines 805-807); the handler's input type is a parameter.
- `Params.ApplyParamChanges` reports only an undeclared parameter. `pc.get_normalized_value` (lines 473 and 488) can raise for a value its object type rejects; here it is the total function `gen`, because the generators and normalisers are not part of this model.
- `feconf.END_DEST` and the `rule_domain` constants are stand-ins. Only their distinctness matters: `"default"`, `"atomic"`, `"and"`, `"or"`, `"not"`, `"Default"`, `"submit"`.

## Findings

| source | as written | input that shows it | evidently intended | confidence | as-written member | corrected member |
|---|---|---|---|---|---|---|
| core/domain/exp_services.py:1225-1258 | `END_DEST` is a string that is compared by value with state names. It is never added to `processed_queue`, and every state with a rule to it is queued again. | One state named `END_DEST` with one rule, with feedback, leading to `END_DEST`. It passes `verify_state_dict` and the reachability check. After one iteration the dead-end loop is back at `curr_queue == [END_DEST]`, `processed_queue == []`. | The check terminates and accepts the state, since the state leads to the end. | not executed | NoDeadEndsAsWritten.EndNamedStateNeverTerminates | DeadEnds.VerifyNoDeadEnds |
