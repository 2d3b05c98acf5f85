/** Parameter resolution (`get_init_params`, `update_with_state_params`): an
    ordered list of parameter changes folded into a map from parameter names
    to values. The value a change produces is an abstract function `gen` of
    the change, the parameter's object type, and the map built so far; it
    stands for the change's value generator followed by normalisation to the
    object type. */
module Params {
  import opened ExpTypes

  /** The fold the resolution loop performs: each change, in order, sets its
      parameter to the value `gen` computes from the map built so far. A
      change to a parameter the exploration does not declare has no object
      type, and resolution stops with an error. */
  function Resolve<V>(changes: seq<ParamChange>, specs: map<string, string>, params: map<string, V>,
                      gen: (ParamChange, string, map<string, V>) -> V): Result<map<string, V>>
  {
    if changes == [] then Ok(params)
    else
      var c := changes[0];
      if c.name !in specs then Err(UndeclaredParam(c.name))
      else Resolve(changes[1..], specs, params[c.name := gen(c, specs[c.name], params)], gen)
  }

  /** The names of the parameters a list of changes sets. */
  function ChangedNames(changes: seq<ParamChange>): set<string> {
    if changes == [] then {} else {changes[0].name} + ChangedNames(changes[1..])
  }

  /** The resolution loop: starting from `params` (empty for the initial
      parameters, a copy of the reader's parameters when entering a state),
      apply every change in list order. */
  method ApplyParamChanges<V>(changes: seq<ParamChange>, specs: map<string, string>, params: map<string, V>,
                              gen: (ParamChange, string, map<string, V>) -> V) returns (r: Result<map<string, V>>)
    ensures r == Resolve(changes, specs, params, gen)
  {
    var newParams := params;
    var i := 0;
    while i < |changes|
      invariant 0 <= i <= |changes|
      invariant Resolve(changes, specs, params, gen) == Resolve(changes[i..], specs, newParams, gen)
    {
      var pc := changes[i];
      if pc.name !in specs {
        return Err(UndeclaredParam(pc.name));
      }
      assert changes[i..][1..] == changes[i + 1..];
      newParams := newParams[pc.name := gen(pc, specs[pc.name], newParams)];
      i := i + 1;
    }
    r := Ok(newParams);
  }

  /** Resolving two lists one after the other is resolving their
      concatenation: a later list sees every value set by an earlier one. */
  lemma {:induction false} ResolveConcat<V>(a: seq<ParamChange>, b: seq<ParamChange>, specs: map<string, string>,
                                            params: map<string, V>, gen: (ParamChange, string, map<string, V>) -> V)
    ensures Resolve(a + b, specs, params, gen) ==
      match Resolve(a, specs, params, gen)
      case Err(e) => Err(e)
      case Ok(m) => Resolve(b, specs, m, gen)
    decreases |a|
  {
    if a != [] {
      assert (a + b)[0] == a[0];
      assert (a + b)[1..] == a[1..] + b;
      var c := a[0];
      if c.name in specs {
        ResolveConcat(a[1..], b, specs, params[c.name := gen(c, specs[c.name], params)], gen);
      }
    } else {
      assert a + b == b;
    }
  }

  /** The last change of a list sets its parameter to the value computed from
      the map that all earlier changes produced. */
  lemma ResolveLast<V>(a: seq<ParamChange>, c: ParamChange, specs: map<string, string>,
                       params: map<string, V>, gen: (ParamChange, string, map<string, V>) -> V)
    requires Resolve(a, specs, params, gen).Ok?
    requires c.name in specs
    ensures var before := Resolve(a, specs, params, gen).value;
            Resolve(a + [c], specs, params, gen) == Ok(before[c.name := gen(c, specs[c.name], before)])
  {
    ResolveConcat(a, [c], specs, params, gen);
  }

  /** Resolution fails exactly when some change names an undeclared
      parameter, and then it reports the first such change. On success the
      result holds the starting parameters and every changed parameter. */
  lemma {:induction false} ResolveOutcome<V>(changes: seq<ParamChange>, specs: map<string, string>,
                                             params: map<string, V>, gen: (ParamChange, string, map<string, V>) -> V)
    ensures var r := Resolve(changes, specs, params, gen);
            && (r.Ok? <==> forall k :: 0 <= k < |changes| ==> changes[k].name in specs)
            && (r.Err? ==> exists k :: 0 <= k < |changes| && r.err == UndeclaredParam(changes[k].name) &&
                                       changes[k].name !in specs &&
                                       forall j :: 0 <= j < k ==> changes[j].name in specs)
            && (r.Ok? ==> r.value.Keys == params.Keys + ChangedNames(changes))
    decreases |changes|
  {
    if changes != [] {
      var c := changes[0];
      if c.name in specs {
        var next := params[c.name := gen(c, specs[c.name], params)];
        ResolveOutcome(changes[1..], specs, next, gen);
        var r := Resolve(changes, specs, params, gen);
        if r.Err? {
          var k :| 0 <= k < |changes[1..]| && r.err == UndeclaredParam(changes[1..][k].name) &&
                   changes[1..][k].name !in specs && forall j :: 0 <= j < k ==> changes[1..][j].name in specs;
          assert changes[k + 1] == changes[1..][k];
          forall j | 0 <= j < k + 1 ensures changes[j].name in specs {
            if j > 0 { assert changes[j] == changes[1..][j - 1]; }
          }
        } else {
          forall k | 0 <= k < |changes| ensures changes[k].name in specs {
            if k > 0 { assert changes[k] == changes[1..][k - 1]; }
          }
        }
      } else {
        assert changes[0] == c;
      }
    }
  }

  /** A parameter no change names keeps the value it had at the start: entering
      a state leaves the reader's other parameters as they were. */
  lemma {:induction false} ResolveKeepsUnchanged<V>(changes: seq<ParamChange>, specs: map<string, string>,
                                                    params: map<string, V>, gen: (ParamChange, string, map<string, V>) -> V, p: string)
    requires Resolve(changes, specs, params, gen).Ok?
    requires p in params && p !in ChangedNames(changes)
    ensures p in Resolve(changes, specs, params, gen).value
    ensures Resolve(changes, specs, params, gen).value[p] == params[p]
    decreases |changes|
  {
    if changes != [] {
      var c := changes[0];
      ResolveKeepsUnchanged(changes[1..], specs, params[c.name := gen(c, specs[c.name], params)], gen, p);
    }
  }
}
