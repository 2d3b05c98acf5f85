/** The stored exploration and the operations that commit to it: creation,
    `save_exploration` with its optimistic version check, `add_states`,
    `update_state`, `delete_state`, and the snapshot listing of
    `get_exploration_snapshots_metadata`. The datastore, the cache and the
    transactions around each commit become one object whose fields are the
    stored exploration and its states; a commit that raises leaves every
    field as it was, as the rolled-back transaction does. */
module Store {
  import opened ExpTypes
  import opened Export
  import opened StateEdits
  import Snapshots

  /** The exploration as a caller holds it: the stored properties the model
      keeps (title, category, editors and skin are left out) and the version
      the caller last read. */
  datatype Exploration = Exploration(
    stateIds: seq<string>,
    paramSpecs: map<string, string>,
    paramChanges: seq<ParamChange>,
    isPublic: bool,
    version: nat)

  /** The versioned part of a public exploration: its parameters and its
      states in id-list order, each exported with state names as
      destinations. */
  datatype Versioned = Versioned(paramChanges: seq<ParamChange>, paramSpecs: map<string, string>, states: seq<State>)

  /** One entry of the version history. A private exploration's commit
      records no content (the null snapshot). */
  datatype Snapshot = Snapshot(committerId: string, versionNumber: nat, content: Option<Versioned>)

  /** The states listed in `ids`, each exported with human-readable
      destinations; the first missing state, listed or named as a
      destination, raises. */
  function ExportStates(ids: seq<string>, states: map<string, State>): (r: Result<seq<State>>)
    ensures r.Ok? <==> forall i :: 0 <= i < |ids| ==> ids[i] in states && DestKeysIn(states[ids[i]], states.Keys)
    ensures r.Ok? ==> |r.value| == |ids| &&
                      forall i :: 0 <= i < |ids| ==> r.value[i] == RenameDests(states[ids[i]], NameOfId(states))
    ensures r.Err? ==> r.err.StateNotFound? && r.err.stateId !in states
  {
    if ids == [] then Ok([])
    else if ids[0] !in states then Err(StateNotFound(ids[0]))
    else
      match ExportState(states[ids[0]], states)
      case Err(e) => Err(e)
      case Ok(s) =>
        match ExportStates(ids[1..], states)
        case Err(e) =>
          assert forall i :: 0 < i < |ids| ==> ids[1..][i - 1] == ids[i];
          Err(e)
        case Ok(rest) =>
          assert forall i :: 0 < i < |ids| ==> ids[1..][i - 1] == ids[i];
          Ok([s] + rest)
  }

  /** The decision `save_exploration` makes when committing `e` over a stored
      exploration at version `stored`, with `states` the stored states at
      that moment: the exploration must validate, the caller's version must
      be the stored one, and a public exploration's states must export. On
      success the result is the snapshot content to record. */
  function CommitContent(stored: nat, e: Exploration, states: map<string, State>, validate: Exploration -> bool)
    : (r: Result<Option<Versioned>>)
    ensures r.Ok? <==> validate(e) && e.version == stored && (e.isPublic ==> ExportStates(e.stateIds, states).Ok?)
    ensures validate(e) && e.version != stored ==> r == Err(StaleVersion(stored, e.version))
    ensures !validate(e) ==> r == Err(InvalidExploration)
    ensures r.Ok? ==> (r.value.Some? <==> e.isPublic)
    ensures r.Ok? && e.isPublic ==>
              r.value == Some(Versioned(e.paramChanges, e.paramSpecs, ExportStates(e.stateIds, states).value))
  {
    if !validate(e) then Err(InvalidExploration)
    else if e.version != stored then Err(StaleVersion(stored, e.version))
    else if !e.isPublic then Ok(None)
    else match ExportStates(e.stateIds, states)
      case Err(err) => Err(err)
      case Ok(exported) => Ok(Some(Versioned(e.paramChanges, e.paramSpecs, exported)))
  }

  /** The snapshot a public commit records holds the exploration's
      parameters, and its states, in id-list order, map back to the stored
      states through the inverse of the id-to-name map, when that inverse
      exists. */
  lemma SnapshotRestoresStates(stored: nat, e: Exploration, states: map<string, State>, validate: Exploration -> bool,
                               idOfName: map<string, string>)
    requires CommitContent(stored, e, states, validate).Ok? && e.isPublic
    requires forall id :: id in states ==> states[id].name in idOfName && idOfName[states[id].name] == id
    ensures var v := CommitContent(stored, e, states, validate).value;
            && v.Some? && v.value.paramChanges == e.paramChanges && v.value.paramSpecs == e.paramSpecs
            && |v.value.states| == |e.stateIds|
            && forall i :: 0 <= i < |e.stateIds| ==> RenameDests(v.value.states[i], idOfName) == states[e.stateIds[i]]
  {
    var v := CommitContent(stored, e, states, validate).value;
    forall i | 0 <= i < |e.stateIds| ensures RenameDests(v.value.states[i], idOfName) == states[e.stateIds[i]] {
      ExportRoundTrip(states[e.stateIds[i]], states, idOfName);
    }
  }

  /** The states after `delete_state` removes `deleted`: every state listed in
      `stateIds` has its destinations to `deleted` redirected to itself, and
      the deleted state is gone. */
  ghost function RedirectedStates(stateIds: seq<string>, states: map<string, State>, deleted: string): map<string, State> {
    map id | id in states && id != deleted :: if id in stateIds then Redirect(states[id], deleted, id) else states[id]
  }

  /** Deleting a listed state other than the initial one keeps the graph
      linked: the id list loses exactly the deleted id, and no remaining
      destination names it. */
  lemma LinkedAfterDelete(stateIds: seq<string>, states: map<string, State>, deleted: string)
    requires Linked(stateIds, states) && deleted in stateIds
    ensures Linked(Remove(stateIds, deleted), RedirectedStates(stateIds, states, deleted))
    ensures forall id, h, k :: id in RedirectedStates(stateIds, states, deleted) && id in stateIds &&
                               0 <= h < |RedirectedStates(stateIds, states, deleted)[id].handlers| &&
                               0 <= k < |RedirectedStates(stateIds, states, deleted)[id].handlers[h].ruleSpecs| ==>
                               RedirectedStates(stateIds, states, deleted)[id].handlers[h].ruleSpecs[k].dest != To(deleted)
  {
    var rest := Remove(stateIds, deleted);
    var after := RedirectedStates(stateIds, states, deleted);
    RemoveDistinct(stateIds, deleted);
    forall id | id in rest ensures id in after && DestKeysIn(after[id], IdSet(rest)) {
      RedirectKeepsDests(states[id], stateIds, deleted, id);
    }
    forall id, h, k | id in after && id in stateIds && 0 <= h < |after[id].handlers| && 0 <= k < |after[id].handlers[h].ruleSpecs|
      ensures after[id].handlers[h].ruleSpecs[k].dest != To(deleted)
    {
      var s := states[id];
      assert after[id] == Redirect(s, deleted, id);
      assert 0 <= h < |s.handlers| && 0 <= k < |s.handlers[h].ruleSpecs|;
    }
  }

  /** The new states `add_states` stores: the state for `names[k]` under the
      id `ids[k]`. */
  function NewStates(names: seq<string>, ids: seq<string>): (m: map<string, State>)
    requires |names| == |ids| && Distinct(ids)
    ensures m.Keys == IdSet(ids)
    ensures forall k :: 0 <= k < |ids| ==> m[ids[k]] == NewState(names[k])
  {
    map k | 0 <= k < |ids| :: ids[k] := NewState(names[k])
  }

  /** The loop of `add_states` that builds one new state per name. */
  method BuildNewStates(names: seq<string>, ids: seq<string>) returns (added: map<string, State>)
    requires |names| == |ids| && Distinct(ids)
    ensures added == NewStates(names, ids)
  {
    added := map[];
    for i := 0 to |names|
      invariant added.Keys == IdSet(ids[..i])
      invariant forall j :: 0 <= j < i ==> added[ids[j]] == NewState(names[j])
    {
      assert forall j :: 0 <= j < i ==> ids[j] != ids[i];
      added := added[ids[i] := NewState(names[i])];
      assert ids[..i + 1] == ids[..i] + [ids[i]];
    }
    assert ids[..|names|] == ids;
  }

  /** The loop of `delete_state` over the listed states: each, in list order,
      is fetched (a missing one raises) and has its destinations to `deleted`
      redirected to itself; then the deleted state is dropped. */
  method RedirectListed(ids: seq<string>, stored: map<string, State>, deleted: string)
    returns (res: Result<map<string, State>>)
    ensures (forall id :: id in ids ==> id in stored) ==> res == Ok(RedirectedStates(ids, stored, deleted))
    ensures (exists id :: id in ids && id !in stored) ==>
              res.Err? && res.err.StateNotFound? && res.err.stateId in ids && res.err.stateId !in stored
    ensures forall k :: 0 <= k < |ids| && ids[k] !in stored && (forall j :: 0 <= j < k ==> ids[j] in stored) ==>
              res == Err(StateNotFound(ids[k]))
  {
    var newStates := stored;
    for i := 0 to |ids|
      invariant newStates.Keys == stored.Keys
      invariant forall j :: 0 <= j < i ==> ids[j] in stored
      invariant forall id :: id in stored ==>
                  newStates[id] == if id in ids[..i] then Redirect(stored[id], deleted, id) else stored[id]
    {
      var otherId := ids[i];
      if otherId !in newStates {
        return Err(StateNotFound(otherId));
      }
      if otherId in ids[..i] {
        RedirectIdempotent(stored[otherId], deleted, otherId);
      }
      newStates := newStates[otherId := Redirect(newStates[otherId], deleted, otherId)];
      assert ids[..i + 1] == ids[..i] + [otherId];
    }
    assert ids[..|ids|] == ids;
    newStates := newStates - {deleted};
    assert newStates == RedirectedStates(ids, stored, deleted);
    res := Ok(newStates);
  }

  /** Appending fresh ids for new states, which have no rules, keeps the
      graph linked. */
  lemma LinkedAfterAdd(stateIds: seq<string>, states: map<string, State>, freshIds: seq<string>, added: map<string, State>)
    requires Linked(stateIds, states) && Distinct(freshIds)
    requires forall id :: id in freshIds ==> id !in stateIds
    requires forall id :: id in freshIds ==> id in added && added[id].handlers == []
    requires forall id :: id in added ==> id in freshIds
    ensures Linked(stateIds + freshIds, states + added)
  {
    var ids := stateIds + freshIds;
    var all := states + added;
    forall i, j | 0 <= i < j < |ids| ensures ids[i] != ids[j] {
      if j >= |stateIds| && i < |stateIds| {
        assert ids[j] in freshIds && ids[i] in stateIds;
      } else if i >= |stateIds| {
        assert ids[i] == freshIds[i - |stateIds|] && ids[j] == freshIds[j - |stateIds|];
      }
    }
    forall id | id in ids ensures id in all && DestKeysIn(all[id], IdSet(ids)) {
      if id in added {
        assert all[id].handlers == [];
      } else {
        assert id in stateIds;
        assert all[id] == states[id];
      }
    }
  }

  /** Replacing a stored state keeps the graph linked when, for a listed
      state, every destination of the replacement is listed. */
  lemma LinkedAfterUpdate(stateIds: seq<string>, states: map<string, State>, stateId: string, edited: State)
    requires Linked(stateIds, states)
    requires stateId in stateIds ==> DestKeysIn(edited, IdSet(stateIds))
    ensures Linked(stateIds, states[stateId := edited])
  {
  }

  /** The stored exploration of one exploration id, with its states keyed by
      state id and its version history. */
  class ExplorationStore {
    var stateIds: seq<string>
    var states: map<string, State>
    var paramSpecs: map<string, string>
    var paramChanges: seq<ParamChange>
    var isPublic: bool
    var version: nat
    var history: seq<Snapshot>
    /** The domain object's own validation, which this model does not see. */
    const validate: Exploration -> bool

    /** Every committed version has exactly one snapshot, numbered from 1. */
    ghost predicate Valid()
      reads this
    {
      |history| == version && forall i :: 0 <= i < |history| ==> history[i].versionNumber == i + 1
    }

    /** The exploration as a caller reads it now. */
    function Current(): (e: Exploration)
      reads this
      ensures e.stateIds == stateIds && e.version == version
    {
      Exploration(stateIds, paramSpecs, paramChanges, isPublic, version)
    }

    /** `create_new`: one state with the initial name and no rules, stored
        as version 1 of a private exploration. */
    constructor (committerId: string, initStateId: string, initStateName: string, validate: Exploration -> bool)
      ensures Valid() && version == 1
      ensures stateIds == [initStateId] && states == map[initStateId := NewState(initStateName)]
      ensures paramSpecs == map[] && paramChanges == [] && !isPublic
      ensures history == [Snapshot(committerId, 1, None)]
      ensures this.validate == validate
      ensures Linked(stateIds, states)
    {
      stateIds := [initStateId];
      states := map[initStateId := NewState(initStateName)];
      paramSpecs := map[];
      paramChanges := [];
      isPublic := false;
      version := 1;
      history := [Snapshot(committerId, 1, None)];
      this.validate := validate;
    }

    /** The commit every operation ends with: `e` is stored together with the
        states `newStates` the same transaction saved, and a snapshot is
        appended, or nothing changes at all. */
    method Commit(committerId: string, e: Exploration, newStates: map<string, State>) returns (r: Outcome)
      requires Valid()
      modifies this
      ensures Valid()
      ensures var c := CommitContent(old(version), e, newStates, validate);
        if c.Err? then r == Fail(c.err) && unchanged(this)
        else && r == Pass
             && stateIds == e.stateIds && states == newStates
             && paramSpecs == e.paramSpecs && paramChanges == e.paramChanges && isPublic == e.isPublic
             && version == old(version) + 1
             && history == old(history) + [Snapshot(committerId, version, c.value)]
    {
      var c := CommitContent(version, e, newStates, validate);
      if c.Err? {
        return Fail(c.err);
      }
      stateIds, states := e.stateIds, newStates;
      paramSpecs, paramChanges, isPublic := e.paramSpecs, e.paramChanges, e.isPublic;
      version := version + 1;
      history := history + [Snapshot(committerId, version, c.value)];
      r := Pass;
    }

    /** `save_exploration`: a caller whose copy is older (or newer) than the
        stored version is refused, and nothing is written; a valid copy at the
        stored version is written, with the stored states, as the next
        version. */
    method SaveExploration(committerId: string, e: Exploration) returns (r: Outcome)
      requires Valid()
      modifies this
      ensures Valid()
      ensures validate(e) && e.version != old(version) ==> r == Fail(StaleVersion(old(version), e.version))
      ensures r.Fail? ==> unchanged(this)
      ensures var c := CommitContent(old(version), e, old(states), validate);
        if c.Err? then r == Fail(c.err)
        else && r == Pass
             && Current() == e.(version := old(version) + 1) && states == old(states)
             && history == old(history) + [Snapshot(committerId, version, c.value)]
    {
      r := Commit(committerId, e, states);
    }

    /** `add_states`: every name is checked against the existing states
        before anything is written; then one new state per name is stored
        under the corresponding fresh id, and the ids are appended to the id
        list. `freshIds` stands for the ids the datastore generates. */
    method AddStates(committerId: string, names: seq<string>, freshIds: seq<string>) returns (r: Result<seq<string>>)
      requires Valid()
      requires |freshIds| == |names| && Distinct(freshIds)
      requires forall id :: id in freshIds ==> id !in states && id !in stateIds
      modifies this
      ensures Valid()
      ensures r.Err? ==> unchanged(this)
      ensures forall k :: 0 <= k < |names| && HasStateNamed(old(stateIds), old(states), names[k]) &&
                          (forall j :: 0 <= j < k ==> !HasStateNamed(old(stateIds), old(states), names[j])) ==>
                          r == Err(DuplicateStateName(names[k]))
      ensures (forall k :: 0 <= k < |names| ==> !HasStateNamed(old(stateIds), old(states), names[k])) ==>
        var c := CommitContent(old(version), old(Current()).(stateIds := old(stateIds) + freshIds),
                               old(states) + NewStates(names, freshIds), validate);
        if c.Err? then r == Err(c.err)
        else && r == Ok(freshIds)
             && stateIds == old(stateIds) + freshIds && states == old(states) + NewStates(names, freshIds)
             && paramSpecs == old(paramSpecs) && paramChanges == old(paramChanges) && isPublic == old(isPublic)
             && version == old(version) + 1
             && history == old(history) + [Snapshot(committerId, version, c.value)]
      ensures r.Ok? && old(Linked(stateIds, states)) ==> Linked(stateIds, states)
    {
      var k := FirstTakenName(names);
      if k < |names| {
        return Err(DuplicateStateName(names[k]));
      }
      var added := BuildNewStates(names, freshIds);
      if Linked(stateIds, states) {
        forall id | id in freshIds ensures id in added && added[id].handlers == [] {
          var j :| 0 <= j < |freshIds| && freshIds[j] == id;
        }
        LinkedAfterAdd(stateIds, states, freshIds, added);
      }
      var outcome := Commit(committerId, Current().(stateIds := stateIds + freshIds), states + added);
      if outcome.Fail? {
        return Err(outcome.err);
      }
      r := Ok(freshIds);
    }

    /** The duplicate-name loop of `add_states`: the position of the first
        name some state already has, or `|names|` when none is taken. */
    method FirstTakenName(names: seq<string>) returns (k: nat)
      ensures k <= |names|
      ensures forall j :: 0 <= j < k ==> !HasStateNamed(stateIds, states, names[j])
      ensures k < |names| ==> HasStateNamed(stateIds, states, names[k])
    {
      k := 0;
      while k < |names|
        invariant k <= |names|
        invariant forall j :: 0 <= j < k ==> !HasStateNamed(stateIds, states, names[j])
      {
        if HasStateNamed(stateIds, states, names[k]) {
          return;
        }
        k := k + 1;
      }
    }

    /** `update_state`: the stored state is fetched (a missing one raises),
        edited as `EditState` decides, and committed with the unchanged
        exploration. */
    method UpdateState(committerId: string, stateId: string, edit: StateEdit, clean: string -> string) returns (r: Outcome)
      requires Valid()
      modifies this
      ensures Valid()
      ensures r.Fail? ==> unchanged(this)
      ensures stateId !in old(states) ==> r == Fail(StateNotFound(stateId))
      ensures stateId in old(states) && EditState(old(states)[stateId], old(stateIds), old(states), old(paramSpecs), edit, clean).Err? ==>
                r == Fail(EditState(old(states)[stateId], old(stateIds), old(states), old(paramSpecs), edit, clean).err)
      ensures stateId in old(states) && EditState(old(states)[stateId], old(stateIds), old(states), old(paramSpecs), edit, clean).Ok? ==>
        var t := EditState(old(states)[stateId], old(stateIds), old(states), old(paramSpecs), edit, clean).value;
        var c := CommitContent(old(version), old(Current()), old(states)[stateId := t], validate);
        if c.Err? then r == Fail(c.err)
        else && r == Pass
             && stateIds == old(stateIds) && states == old(states)[stateId := t]
             && paramSpecs == old(paramSpecs) && paramChanges == old(paramChanges) && isPublic == old(isPublic)
             && version == old(version) + 1
             && history == old(history) + [Snapshot(committerId, version, c.value)]
      ensures r.Pass? && old(Linked(stateIds, states)) ==> Linked(stateIds, states)
    {
      if stateId !in states {
        return Fail(StateNotFound(stateId));
      }
      var t := EditState(states[stateId], stateIds, states, paramSpecs, edit, clean);
      if t.Err? {
        return Fail(t.err);
      }
      if Linked(stateIds, states) && stateId in stateIds {
        EditStateKeepsDests(states[stateId], stateIds, states, paramSpecs, edit, clean);
      }
      if Linked(stateIds, states) {
        LinkedAfterUpdate(stateIds, states, stateId, t.value);
      }
      r := Commit(committerId, Current(), states[stateId := t.value]);
    }

    /** `delete_state`: an unlisted id and the initial state are refused.
        Otherwise every listed state, in list order, has its destinations to
        the deleted id redirected to itself (a listed id with no stored state
        raises), the deleted state is dropped, and the id list loses the id. */
    method DeleteState(committerId: string, stateId: string) returns (r: Outcome)
      requires Valid()
      modifies this
      ensures Valid()
      ensures r.Fail? ==> unchanged(this)
      ensures stateId !in old(stateIds) ==> r == Fail(InvalidStateId(stateId))
      ensures stateId in old(stateIds) && old(stateIds)[0] == stateId ==> r == Fail(CannotDeleteInitialState)
      ensures stateId in old(stateIds) && old(stateIds)[0] != stateId &&
              (exists id :: id in old(stateIds) && id !in old(states)) ==>
                r.Fail? && r.err.StateNotFound? && r.err.stateId in old(stateIds) && r.err.stateId !in old(states)
      ensures stateId in old(stateIds) && old(stateIds)[0] != stateId ==>
              forall k :: 0 <= k < |old(stateIds)| && old(stateIds)[k] !in old(states) &&
                          (forall j :: 0 <= j < k ==> old(stateIds)[j] in old(states)) ==>
                          r == Fail(StateNotFound(old(stateIds)[k]))
      ensures stateId in old(stateIds) && old(stateIds)[0] != stateId &&
              (forall id :: id in old(stateIds) ==> id in old(states)) ==>
        var c := CommitContent(old(version), old(Current()).(stateIds := Remove(old(stateIds), stateId)),
                               RedirectedStates(old(stateIds), old(states), stateId), validate);
        if c.Err? then r == Fail(c.err)
        else && r == Pass
             && stateIds == Remove(old(stateIds), stateId)
             && states == RedirectedStates(old(stateIds), old(states), stateId)
             && paramSpecs == old(paramSpecs) && paramChanges == old(paramChanges) && isPublic == old(isPublic)
             && version == old(version) + 1
             && history == old(history) + [Snapshot(committerId, version, c.value)]
      ensures r.Pass? && old(Linked(stateIds, states)) ==> Linked(stateIds, states)
    {
      if stateId !in stateIds {
        return Fail(InvalidStateId(stateId));
      }
      if stateIds[0] == stateId {
        return Fail(CannotDeleteInitialState);
      }
      var redirected := RedirectListed(stateIds, states, stateId);
      if redirected.Err? {
        return Fail(redirected.err);
      }
      var newStates := redirected.value;
      if Linked(stateIds, states) {
        LinkedAfterDelete(stateIds, states, stateId);
      }
      r := Commit(committerId, Current().(stateIds := Remove(stateIds, stateId)), newStates);
    }

    /** `get_exploration_snapshots_metadata`: the history entries of the
        versions `SnapshotVersions` lists, newest first. */
    function SnapshotsMetadata(limit: int): (r: seq<Snapshot>)
      reads this
      requires Valid()
      ensures |r| == Snapshots.Min(Snapshots.Max(limit, 0), version)
      ensures forall i :: 0 <= i < |r| ==> r[i] in history && r[i].versionNumber == version - i
    {
      var vs := Snapshots.SnapshotVersions(version, limit);
      var h := history;
      seq(|vs|, i requires 0 <= i < |vs| => h[vs[i] - 1])
    }
  }
}
