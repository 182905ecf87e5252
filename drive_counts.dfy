/**
 * Before/after drive-state accounting of one heal result
 * (HealResultItem.GetMissingCounts, GetOfflineCounts, GetCorruptedCounts
 * and GetOnlineCounts in heal-commands.go). A nil receiver is `None`.
 */
module DriveCounts {
  import opened Wrappers
  import opened HealTypes

  /** Number of drives in `drives` whose state is exactly `state`. */
  function CountState(drives: seq<HealDriveInfo>, state: string): (n: nat)
    ensures n <= |drives|
  {
    if drives == [] then 0
    else CountState(drives[..|drives| - 1], state) + (if drives[|drives| - 1].state == state then 1 else 0)
  }

  /** The positions of the drives in `state`: an independent reading of the count. */
  ghost function PositionsInState(drives: seq<HealDriveInfo>, state: string): set<int>
  {
    set i | 0 <= i < |drives| && drives[i].state == state
  }

  lemma {:induction false} CountStateIsNumberOfPositions(drives: seq<HealDriveInfo>, state: string)
    ensures CountState(drives, state) == |PositionsInState(drives, state)|
  {
    if drives != [] {
      var last := |drives| - 1;
      var init := drives[..last];
      CountStateIsNumberOfPositions(init, state);
      var before := PositionsInState(init, state);
      assert last !in before;
      if drives[last].state == state {
        assert PositionsInState(drives, state) == before + {last};
      } else {
        assert PositionsInState(drives, state) == before;
      }
    }
  }

  /** Counting distributes over concatenation of drive lists. */
  lemma {:induction false} CountStateAppend(s: seq<HealDriveInfo>, t: seq<HealDriveInfo>, state: string)
    ensures CountState(s + t, state) == CountState(s, state) + CountState(t, state)
  {
    if t != [] {
      var last := |t| - 1;
      assert (s + t)[..|s + t| - 1] == s + t[..last];
      CountStateAppend(s, t[..last], state);
    } else {
      assert s + t == s;
    }
  }

  /** Every drive is in `state` exactly when the count is the list length. */
  lemma {:induction false} CountStateAll(drives: seq<HealDriveInfo>, state: string)
    ensures CountState(drives, state) == |drives| <==> forall i :: 0 <= i < |drives| ==> drives[i].state == state
  {
    if drives != [] {
      var last := |drives| - 1;
      CountStateAll(drives[..last], state);
      assert forall i :: 0 <= i < last ==> drives[..last][i] == drives[i];
    }
  }

  /** Four pairwise distinct states together count at most every drive once. */
  lemma {:induction false} DistinctStateCountsBounded(drives: seq<HealDriveInfo>, s1: string, s2: string, s3: string, s4: string)
    requires s1 != s2 && s1 != s3 && s1 != s4 && s2 != s3 && s2 != s4 && s3 != s4
    ensures CountState(drives, s1) + CountState(drives, s2) + CountState(drives, s3) + CountState(drives, s4) <= |drives|
  {
    if drives != [] {
      DistinctStateCountsBounded(drives[..|drives| - 1], s1, s2, s3, s4);
    }
  }

  /** The missing, offline, corrupt and ok counts of one result never exceed
      the number of drives, before and after the heal. */
  lemma HealCountsBounded(item: HealResultItem)
    ensures CountState(item.before, DriveStateMissing) + CountState(item.before, DriveStateOffline)
          + CountState(item.before, DriveStateCorrupt) + CountState(item.before, DriveStateOk) <= |item.before|
    ensures CountState(item.after, DriveStateMissing) + CountState(item.after, DriveStateOffline)
          + CountState(item.after, DriveStateCorrupt) + CountState(item.after, DriveStateOk) <= |item.after|
  {
    DistinctStateCountsBounded(item.before, DriveStateMissing, DriveStateOffline, DriveStateCorrupt, DriveStateOk);
    DistinctStateCountsBounded(item.after, DriveStateMissing, DriveStateOffline, DriveStateCorrupt, DriveStateOk);
  }

  /** The counting loop shared by the four accessors. */
  method CountDrivesInState(drives: seq<HealDriveInfo>, state: string) returns (n: int)
    ensures n == CountState(drives, state)
  {
    n := 0;
    for i := 0 to |drives|
      invariant n == CountState(drives[..i], state)
    {
      assert drives[..i + 1][..i] == drives[..i];
      if drives[i].state == state {
        n := n + 1;
      }
    }
    assert drives[..|drives|] == drives;
  }

  method GetMissingCounts(hri: Option<HealResultItem>) returns (b: int, a: int)
    ensures hri.None? ==> b == 0 && a == 0
    ensures hri.Some? ==> b == CountState(hri.value.before, DriveStateMissing)
    ensures hri.Some? ==> a == CountState(hri.value.after, DriveStateMissing)
  {
    if hri.None? {
      return 0, 0;
    }
    b := CountDrivesInState(hri.value.before, DriveStateMissing);
    a := CountDrivesInState(hri.value.after, DriveStateMissing);
  }

  method GetOfflineCounts(hri: Option<HealResultItem>) returns (b: int, a: int)
    ensures hri.None? ==> b == 0 && a == 0
    ensures hri.Some? ==> b == CountState(hri.value.before, DriveStateOffline)
    ensures hri.Some? ==> a == CountState(hri.value.after, DriveStateOffline)
  {
    if hri.None? {
      return 0, 0;
    }
    b := CountDrivesInState(hri.value.before, DriveStateOffline);
    a := CountDrivesInState(hri.value.after, DriveStateOffline);
  }

  method GetCorruptedCounts(hri: Option<HealResultItem>) returns (b: int, a: int)
    ensures hri.None? ==> b == 0 && a == 0
    ensures hri.Some? ==> b == CountState(hri.value.before, DriveStateCorrupt)
    ensures hri.Some? ==> a == CountState(hri.value.after, DriveStateCorrupt)
  {
    if hri.None? {
      return 0, 0;
    }
    b := CountDrivesInState(hri.value.before, DriveStateCorrupt);
    a := CountDrivesInState(hri.value.after, DriveStateCorrupt);
  }

  method GetOnlineCounts(hri: Option<HealResultItem>) returns (b: int, a: int)
    ensures hri.None? ==> b == 0 && a == 0
    ensures hri.Some? ==> b == CountState(hri.value.before, DriveStateOk)
    ensures hri.Some? ==> a == CountState(hri.value.after, DriveStateOk)
  {
    if hri.None? {
      return 0, 0;
    }
    b := CountDrivesInState(hri.value.before, DriveStateOk);
    a := CountDrivesInState(hri.value.after, DriveStateOk);
  }
}
