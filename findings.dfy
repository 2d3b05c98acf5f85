/** The reverse search of `_verify_no_dead_ends` as written, on plain strings:
    the terminal destination is the string `endDest`, which a state may also
    be called. A state so named, with a rule to the terminal destination,
    makes the search loop forever. The rest of the model keeps the sentinel
    apart from every state key (`Dest.End`), and `DeadEnds.VerifyNoDeadEnds`
    terminates on every input. */
module NoDeadEndsAsWritten {

  /** A state as the dict-based check sees it: its name, and for each
      handler the destinations of its rules, in order. */
  datatype RawState = RawState(name: string, handlers: seq<seq<string>>)

  /** The loop variables `curr_queue` and `processed_queue`. */
  datatype Search = Search(queue: seq<string>, processed: seq<string>)

  /** The handler loop for one state: the inner loop breaks at the first rule
      to `curr`, so the name is appended once per handler with such a rule. */
  function AppendPerHandler(hs: seq<seq<string>>, curr: string, name: string, q: seq<string>): (r: seq<string>)
    ensures |r| >= |q| && r[..|q|] == q
    ensures forall j :: |q| <= j < |r| ==> r[j] == name
    ensures (exists h :: 0 <= h < |hs| && curr in hs[h]) <==> |r| > |q|
  {
    if hs == [] then q
    else
      var next := AppendPerHandler(hs[1..], curr, name, if curr in hs[0] then q + [name] else q);
      assert forall h :: 0 < h < |hs| ==> hs[1..][h - 1] == hs[h];
      next
  }

  /** The rescan after a pop: every state neither queued nor processed, in
      list order, is appended for its rules to `curr`. */
  function Scan(states: seq<RawState>, curr: string, q: seq<string>, processed: seq<string>): seq<string> {
    if states == [] then q
    else
      var s := states[0];
      var q' := if s.name !in q && s.name !in processed then AppendPerHandler(s.handlers, curr, s.name, q) else q;
      Scan(states[1..], curr, q', processed)
  }

  /** One iteration of the `while curr_queue` loop. The terminal destination
      is never recorded as processed. */
  function Step(states: seq<RawState>, endDest: string, st: Search): Search
    requires st.queue != []
  {
    var curr := st.queue[0];
    var q := st.queue[1..];
    if curr in st.processed then Search(q, st.processed)
    else
      var p := if curr != endDest then st.processed + [curr] else st.processed;
      Search(Scan(states, curr, q, p), p)
  }

  /** The loop state after at most `n` iterations, starting from the queue
      holding only the terminal destination; it stops once the queue is
      empty. */
  function Run(states: seq<RawState>, endDest: string, st: Search, n: nat): Search
    decreases n
  {
    if n == 0 || st.queue == [] then st else Run(states, endDest, Step(states, endDest, st), n - 1)
  }

  /** The one-state exploration whose state carries the terminal
      destination's name and has one rule back to it. */
  function EndNamedState(endDest: string): seq<RawState> {
    [RawState(endDest, [[endDest]])]
  }

  /** On that exploration one iteration of the loop gives back the state it
      started from: the popped terminal destination is not recorded, and the
      state named like it is queued again. */
  lemma EndNamedStateIsFixedPoint(endDest: string)
    ensures Step(EndNamedState(endDest), endDest, Search([endDest], [])) == Search([endDest], [])
  {
    var states := EndNamedState(endDest);
    var hs := states[0].handlers;
    assert AppendPerHandler(hs[1..], endDest, endDest, [endDest]) == [endDest];
    assert AppendPerHandler(hs, endDest, endDest, []) == [endDest];
    assert Scan(states[1..], endDest, [endDest], []) == [endDest];
    assert Scan(states, endDest, [], []) == [endDest];
  }

  /** Hence the queue is never empty, however many iterations run: the
      check never returns on an exploration that `verify_state_dict`
      accepts (its one rule is a self-loop to the terminal destination, and
      given feedback it is not a silent self-loop). */
  lemma {:induction false} EndNamedStateNeverTerminates(endDest: string, n: nat)
    ensures Run(EndNamedState(endDest), endDest, Search([endDest], []), n).queue != []
  {
    if n > 0 {
      EndNamedStateIsFixedPoint(endDest);
      EndNamedStateNeverTerminates(endDest, n - 1);
    }
  }
}
