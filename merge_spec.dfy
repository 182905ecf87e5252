/**
 * What BgHealState.Merge (heal-commands.go) computes, as functions of the
 * old aggregate and the contributor snapshots, and the properties of those
 * functions. Contributors are folded in input order, so each fold is
 * defined on its last element.
 */
module MergeSpec {
  import opened Wrappers
  import opened HealTypes

  /** Ranging over a nil map visits nothing. */
  function MapOrEmpty<V>(m: Option<map<string, V>>): map<string, V>
  {
    if m.Some? then m.value else map[]
  }

  // ----- MRF: last writer wins per endpoint -----

  function MergedMRF(m: map<string, MRFStatus>, others: seq<BgHealState>): map<string, MRFStatus>
  {
    if others == [] then m
    else MergedMRF(m, others[..|others| - 1]) + MapOrEmpty(others[|others| - 1].mrf)
  }

  predicate ReportsMRF(other: BgHealState, endpoint: string)
  {
    endpoint in MapOrEmpty(other.mrf)
  }

  /** An endpoint takes the value of the last contributor reporting it. */
  lemma {:induction false} MergedMRFLastWriterWins(m: map<string, MRFStatus>, others: seq<BgHealState>, endpoint: string, j: nat)
    requires j < |others| && ReportsMRF(others[j], endpoint)
    requires forall l :: j < l < |others| ==> !ReportsMRF(others[l], endpoint)
    ensures endpoint in MergedMRF(m, others)
    ensures MergedMRF(m, others)[endpoint] == MapOrEmpty(others[j].mrf)[endpoint]
  {
    var last := |others| - 1;
    if j < last {
      assert !ReportsMRF(others[last], endpoint);
      var init := others[..last];
      assert init[j] == others[j];
      assert forall l :: j < l < |init| ==> init[l] == others[l];
      MergedMRFLastWriterWins(m, init, endpoint, j);
    }
  }

  /** An endpoint no contributor reports keeps its old entry, or stays absent. */
  lemma {:induction false} MergedMRFKeepsUnreported(m: map<string, MRFStatus>, others: seq<BgHealState>, endpoint: string)
    requires forall l :: 0 <= l < |others| ==> !ReportsMRF(others[l], endpoint)
    ensures endpoint in MergedMRF(m, others) <==> endpoint in m
    ensures endpoint in m ==> MergedMRF(m, others)[endpoint] == m[endpoint]
  {
    if others != [] {
      var last := |others| - 1;
      assert !ReportsMRF(others[last], endpoint);
      var init := others[..last];
      assert forall l :: 0 <= l < |init| ==> init[l] == others[l];
      MergedMRFKeepsUnreported(m, init, endpoint);
    }
  }

  // ----- offline endpoints: appended in input order -----

  function AllOffline(others: seq<BgHealState>): seq<string>
  {
    if others == [] then []
    else AllOffline(others[..|others| - 1]) + others[|others| - 1].offlineEndpoints
  }

  /** The appended endpoints are exactly those some contributor reports. */
  lemma {:induction false} AllOfflineMembership(others: seq<BgHealState>, endpoint: string)
    ensures endpoint in AllOffline(others) <==>
              exists j :: 0 <= j < |others| && endpoint in others[j].offlineEndpoints
  {
    if others != [] {
      var last := |others| - 1;
      var init := others[..last];
      AllOfflineMembership(init, endpoint);
      assert forall j :: 0 <= j < last ==> init[j] == others[j];
    }
  }

  // ----- scanned items: summed -----

  function SumScanned(others: seq<BgHealState>): int
  {
    if others == [] then 0
    else SumScanned(others[..|others| - 1]) + others[|others| - 1].scannedItemsCount
  }

  /** The chain of int64 `+=` over the contributors, wrapping at each step. */
  function FoldScanned(count: int64, others: seq<BgHealState>): int64
  {
    if others == [] then count
    else WrapInt64(FoldScanned(count, others[..|others| - 1]) + others[|others| - 1].scannedItemsCount)
  }

  /** The wrapped chain equals the wrapped mathematical total. */
  lemma {:induction false} FoldScannedIsWrappedSum(count: int64, others: seq<BgHealState>)
    ensures FoldScanned(count, others) == WrapInt64(count + SumScanned(others))
  {
    if others == [] {
      WrapInt64Identity(count);
    } else {
      var init := others[..|others| - 1];
      FoldScannedIsWrappedSum(count, init);
      WrapInt64AddWrapped(count + SumScanned(init), others[|others| - 1].scannedItemsCount);
    }
  }

  // ----- sets: merged by ID -----

  predicate HasId(sets: seq<SetStatus>, id: string)
  {
    exists i :: 0 <= i < |sets| && sets[i].id == id
  }

  predicate UniqueIds(sets: seq<SetStatus>)
  {
    forall i, j :: 0 <= i < j < |sets| ==> sets[i].id != sets[j].id
  }

  /** The first set with the given ID, as the range loop over b.Sets finds it. */
  function FirstWithId(sets: seq<SetStatus>, id: string): (r: Option<nat>)
    ensures r.Some? ==> r.value < |sets| && sets[r.value].id == id
    ensures r.Some? ==> forall j :: 0 <= j < r.value ==> sets[j].id != id
    ensures r.None? ==> forall j :: 0 <= j < |sets| ==> sets[j].id != id
  {
    if sets == [] then None
    else if sets[0].id == id then Some(0)
    else match FirstWithId(sets[1..], id)
      case None => None
      case Some(e) => Some(e + 1)
  }

  /** A non-nil incoming HealInfo replaces the existing disk's HealInfo. */
  function OverlayDisk(existing: Disk, incoming: Disk): Disk
  {
    if incoming.healInfo.Some? then existing.(healInfo := incoming.healInfo) else existing
  }

  /** Position-wise HealInfo overlay of a list at least as long as the incoming one. */
  function OverlayHealInfo(existing: seq<Disk>, incoming: seq<Disk>): (r: seq<Disk>)
    requires |incoming| <= |existing|
    ensures |r| == |existing|
    ensures forall i :: 0 <= i < |r| ==> r[i] == existing[i].(healInfo := r[i].healInfo)
    ensures forall i :: 0 <= i < |r| ==>
              r[i].healInfo == if i < |incoming| && incoming[i].healInfo.Some? then incoming[i].healInfo
                               else existing[i].healInfo
  {
    seq(|existing|, i requires 0 <= i < |existing| =>
      if i < |incoming| then OverlayDisk(existing[i], incoming[i]) else existing[i])
  }

  /** Merging an incoming set into the existing set with its ID: only the disk
      list changes; a longer incoming list replaces it, otherwise HealInfo is
      overlaid by position. */
  function MergeInto(existing: SetStatus, incoming: SetStatus): (r: SetStatus)
    ensures r == existing.(disks := r.disks)
    ensures |existing.disks| < |incoming.disks| ==> r.disks == incoming.disks
    ensures |existing.disks| >= |incoming.disks| ==> r.disks == OverlayHealInfo(existing.disks, incoming.disks)
  {
    if |existing.disks| < |incoming.disks| then existing.(disks := incoming.disks)
    else existing.(disks := OverlayHealInfo(existing.disks, incoming.disks))
  }

  /** The addSet closure: merge into the first set with the same ID, or append. */
  function AddSetTo(sets: seq<SetStatus>, next: SetStatus): (r: seq<SetStatus>)
    ensures FirstWithId(sets, next.id).None? ==> r == sets + [next]
    ensures FirstWithId(sets, next.id).Some? ==>
              var e := FirstWithId(sets, next.id).value;
              |r| == |sets| && r[e] == MergeInto(sets[e], next) &&
              forall j :: 0 <= j < |sets| && j != e ==> r[j] == sets[j]
  {
    match FirstWithId(sets, next.id)
    case None => sets + [next]
    case Some(e) => sets[e := MergeInto(sets[e], next)]
  }

  function AddSets(sets: seq<SetStatus>, incoming: seq<SetStatus>): seq<SetStatus>
  {
    if incoming == [] then sets
    else AddSetTo(AddSets(sets, incoming[..|incoming| - 1]), incoming[|incoming| - 1])
  }

  /** One contributor's effect on the sets: it seeds an empty list, otherwise
      its sets are added one by one. */
  function MergeStepSets(sets: seq<SetStatus>, other: BgHealState): seq<SetStatus>
  {
    if |sets| == 0 then other.sets else AddSets(sets, other.sets)
  }

  /** The sets after all contributors, before the final sort. */
  function MergedSets(sets: seq<SetStatus>, others: seq<BgHealState>): seq<SetStatus>
  {
    if others == [] then sets
    else MergeStepSets(MergedSets(sets, others[..|others| - 1]), others[|others| - 1])
  }

  lemma AddSetToIds(sets: seq<SetStatus>, next: SetStatus, id: string)
    ensures HasId(AddSetTo(sets, next), id) <==> HasId(sets, id) || id == next.id
  {
    var r := AddSetTo(sets, next);
    match FirstWithId(sets, next.id)
    case None =>
      if id == next.id {
        assert r[|sets|].id == id;
      }
      if HasId(sets, id) {
        var i :| 0 <= i < |sets| && sets[i].id == id;
        assert r[i].id == id;
      }
    case Some(e) =>
      assert forall i :: 0 <= i < |sets| ==> r[i].id == sets[i].id;
  }

  lemma HasIdSnoc(sets: seq<SetStatus>, next: SetStatus, id: string)
    ensures HasId(sets + [next], id) <==> HasId(sets, id) || next.id == id
  {
    var longer := sets + [next];
    if next.id == id {
      assert longer[|sets|].id == id;
    }
    if HasId(sets, id) {
      var i :| 0 <= i < |sets| && sets[i].id == id;
      assert longer[i].id == id;
    }
  }

  /** No set ID is lost and every incoming ID is represented. */
  lemma {:induction false} AddSetsIds(sets: seq<SetStatus>, incoming: seq<SetStatus>, id: string)
    ensures HasId(AddSets(sets, incoming), id) <==> HasId(sets, id) || HasId(incoming, id)
  {
    if incoming != [] {
      var last := |incoming| - 1;
      var init := incoming[..last];
      AddSetsIds(sets, init, id);
      AddSetToIds(AddSets(sets, init), incoming[last], id);
      assert incoming == init + [incoming[last]];
      HasIdSnoc(init, incoming[last], id);
    }
  }

  /** The merged sets carry exactly the IDs of the old sets and of every
      contributor's sets. */
  lemma {:induction false} MergedSetsIds(sets: seq<SetStatus>, others: seq<BgHealState>, id: string)
    ensures HasId(MergedSets(sets, others), id) <==>
              HasId(sets, id) || exists j :: 0 <= j < |others| && HasId(others[j].sets, id)
  {
    if others != [] {
      var last := |others| - 1;
      var init := others[..last];
      MergedSetsIds(sets, init, id);
      assert forall j :: 0 <= j < last ==> init[j] == others[j];
      var prev := MergedSets(sets, init);
      if |prev| != 0 {
        AddSetsIds(prev, others[last].sets, id);
      } else {
        assert !HasId(prev, id);
      }
    }
  }

  lemma AddSetToKeepsUniqueIds(sets: seq<SetStatus>, next: SetStatus)
    requires UniqueIds(sets)
    ensures UniqueIds(AddSetTo(sets, next))
  {
    var r := AddSetTo(sets, next);
    assert forall i :: 0 <= i < |sets| ==> r[i].id == sets[i].id;
  }

  lemma {:induction false} AddSetsKeepsUniqueIds(sets: seq<SetStatus>, incoming: seq<SetStatus>)
    requires UniqueIds(sets)
    ensures UniqueIds(AddSets(sets, incoming))
  {
    if incoming != [] {
      AddSetsKeepsUniqueIds(sets, incoming[..|incoming| - 1]);
      AddSetToKeepsUniqueIds(AddSets(sets, incoming[..|incoming| - 1]), incoming[|incoming| - 1]);
    }
  }

  /** Merging keeps set IDs distinct, given distinct IDs in the aggregate and
      in every contributor (a seeding contributor is copied verbatim). */
  lemma {:induction false} MergedSetsKeepUniqueIds(sets: seq<SetStatus>, others: seq<BgHealState>)
    requires UniqueIds(sets)
    requires forall j :: 0 <= j < |others| ==> UniqueIds(others[j].sets)
    ensures UniqueIds(MergedSets(sets, others))
  {
    if others != [] {
      var last := |others| - 1;
      var init := others[..last];
      assert forall j :: 0 <= j < last ==> init[j] == others[j];
      MergedSetsKeepUniqueIds(sets, init);
      var prev := MergedSets(sets, init);
      if |prev| != 0 {
        AddSetsKeepsUniqueIds(prev, others[last].sets);
      }
    }
  }

  /** A set merged with itself is unchanged. */
  lemma MergeIntoSelf(s: SetStatus)
    ensures MergeInto(s, s) == s
  {
    var r := MergeInto(s, s);
    assert r.disks == s.disks;
  }

  /** Adding sets that are already present, with the aggregate's IDs
      distinct, changes nothing. */
  lemma {:induction false} AddSetsAbsorbed(sets: seq<SetStatus>, incoming: seq<SetStatus>)
    requires UniqueIds(sets)
    requires forall k :: 0 <= k < |incoming| ==> incoming[k] in sets
    ensures AddSets(sets, incoming) == sets
  {
    if incoming != [] {
      var last := |incoming| - 1;
      AddSetsAbsorbed(sets, incoming[..last]);
      var next := incoming[last];
      var i :| 0 <= i < |sets| && sets[i] == next;
      var e := FirstWithId(sets, next.id).value;
      assert e == i;
      MergeIntoSelf(next);
      assert sets[e := next] == sets;
    }
  }

  /** Merging a snapshot whose sets are all already in the aggregate leaves
      the sets as they are; in particular a second merge of the same
      snapshot changes no set. */
  lemma MergeSameSetsAgain(sets: seq<SetStatus>, other: BgHealState)
    requires UniqueIds(sets)
    requires forall k :: 0 <= k < |other.sets| ==> other.sets[k] in sets
    ensures MergedSets(sets, [other]) == sets
  {
    assert [other][..0] == [];
    assert other.sets != [] ==> other.sets[0] in sets;
    if |sets| != 0 {
      AddSetsAbsorbed(sets, other.sets);
    }
  }

  /** Contributors without sets leave an empty list empty. */
  lemma {:induction false} MergedSetsStayEmpty(others: seq<BgHealState>)
    requires forall l :: 0 <= l < |others| ==> others[l].sets == []
    ensures MergedSets([], others) == []
  {
    if others != [] {
      var last := |others| - 1;
      var init := others[..last];
      assert forall l :: 0 <= l < |init| ==> init[l] == others[l];
      MergedSetsStayEmpty(init);
      assert AddSets([], others[last].sets) == [];
    }
  }

  /** The first contributor with any sets seeds an empty aggregate, whatever
      its position in the input. */
  lemma SeededByFirstNonEmpty(others: seq<BgHealState>, j: nat)
    requires j < |others|
    requires forall l :: 0 <= l < j ==> others[l].sets == []
    ensures MergedSets([], others[..j + 1]) == others[j].sets
  {
    var upto := others[..j + 1];
    assert upto[..j] == others[..j];
    MergedSetsStayEmpty(others[..j]);
  }

  // ----- the whole contributor loop -----

  /** One pass of the contributor loop over every field it touches. */
  function MergeStep(b: BgHealState, other: BgHealState): BgHealState
  {
    b.(offlineEndpoints := b.offlineEndpoints + other.offlineEndpoints,
       mrf := Some(MapOrEmpty(b.mrf) + MapOrEmpty(other.mrf)),
       scannedItemsCount := WrapInt64(b.scannedItemsCount + other.scannedItemsCount),
       sets := MergeStepSets(b.sets, other))
  }

  /** The aggregate after the contributor loop, before the final sort. */
  function MergedState(b: BgHealState, others: seq<BgHealState>): BgHealState
  {
    if others == [] then b
    else MergeStep(MergedState(b, others[..|others| - 1]), others[|others| - 1])
  }

  lemma MergedStatePrefix(b: BgHealState, others: seq<BgHealState>, i: nat)
    requires i < |others|
    ensures MergedState(b, others[..i + 1]) == MergeStep(MergedState(b, others[..i]), others[i])
  {
    assert others[..i + 1][..i] == others[..i];
  }

  /** Field by field, the loop appends the endpoints, lets the last MRF
      writer win, sums the scanned counts, merges the sets by ID, and leaves
      HealDisks and SCParity alone. */
  lemma {:induction false} MergedStateFields(b: BgHealState, others: seq<BgHealState>)
    requires b.mrf.Some?
    ensures MergedState(b, others).offlineEndpoints == b.offlineEndpoints + AllOffline(others)
    ensures MergedState(b, others).mrf == Some(MergedMRF(b.mrf.value, others))
    ensures MergedState(b, others).scannedItemsCount == FoldScanned(b.scannedItemsCount, others)
    ensures MergedState(b, others).sets == MergedSets(b.sets, others)
    ensures MergedState(b, others).healDisks == b.healDisks
    ensures MergedState(b, others).scParity == b.scParity
  {
    if others != [] {
      MergedStateFields(b, others[..|others| - 1]);
    }
  }

  // ----- the final ordering -----

  /** The comparison given to sort.Slice: PoolIndex, then SetIndex. */
  predicate KeyLess(x: SetStatus, y: SetStatus)
  {
    if x.poolIndex != y.poolIndex then x.poolIndex < y.poolIndex else x.setIndex < y.setIndex
  }

  predicate SortedByKey(sets: seq<SetStatus>)
  {
    forall i, j :: 0 <= i < j < |sets| ==> !KeyLess(sets[j], sets[i])
  }
}
