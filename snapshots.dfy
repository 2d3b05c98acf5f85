/** The version numbers `get_exploration_snapshots_metadata` asks for. */
module Snapshots {

  function Max(a: int, b: int): int { if a >= b then a else b }
  function Min(a: int, b: int): int { if a <= b then a else b }

  /** Python's `range(start, stop, -1)`: from `start` down to, but not
      including, `stop`. */
  function DescendingRange(start: int, stop: int): (r: seq<int>)
    ensures |r| == Max(start - stop, 0)
    ensures forall i :: 0 <= i < |r| ==> r[i] == start - i
    decreases start - stop
  {
    if start <= stop then [] else [start] + DescendingRange(start - 1, stop)
  }

  /** The versions whose snapshots are listed for an exploration at version
      `version`, newest first: consecutive and descending from the current
      version, with `min(limit, version)` entries (none for a negative limit),
      every one of them a version that exists. */
  function SnapshotVersions(version: nat, limit: int): (r: seq<int>)
    ensures |r| == Min(Max(limit, 0), version)
    ensures forall i :: 0 <= i < |r| ==> r[i] == version - i
    ensures forall i :: 0 <= i < |r| ==> 1 <= r[i] <= version
  {
    var oldest := Max(version - limit, 0) + 1;
    DescendingRange(version, oldest - 1)
  }
}
