/**
 * Worked cases of the heal-status merge and of option identity, stated
 * against the model.
 */
module Scenarios {
  import opened Wrappers
  import opened HealOptions
  import opened HealTypes
  import opened MergeSpec
  import opened BgHeal

  /** The zero value BgHealState{}: every list empty, both maps nil. */
  const ZeroBgHealState: BgHealState := BgHealState([], 0, [], [], None, None)

  /** Only the operational flags differ in the first pair; the scan mode in the second. */
  lemma OptionsEqualityExample()
    ensures Equal(HealOpts(true, false, false, false, HealDeepScan, false),
                  HealOpts(true, false, false, false, HealDeepScan, true))
    ensures !Equal(HealOpts(true, false, false, false, HealDeepScan, false),
                   HealOpts(true, false, false, false, HealNormalScan, false))
  {
  }

  function ExampleDisk(name: string, healInfo: Option<HealingDisk>): Disk
  {
    Disk(name, "/data", DriveStateOk, name, healInfo)
  }

  function Node(sets: seq<SetStatus>, mrf: Option<map<string, MRFStatus>>): BgHealState
  {
    ZeroBgHealState.(sets := sets, mrf := mrf)
  }

  /** Node A reports set "s1" with four disks, node B the same set with two,
      the first of them healing: A's four disks stay, and B's non-nil
      HealInfo lands on the first of them. */
  lemma SparserReportOverlaysHealInfo(h: HealingDisk)
    ensures
      var a := SetStatus("s1", 0, 0, "", "", 0,
                         [ExampleDisk("d1", None), ExampleDisk("d2", None), ExampleDisk("d3", None), ExampleDisk("d4", None)]);
      var b := SetStatus("s1", 0, 0, "", "", 0, [ExampleDisk("e1", Some(h)), ExampleDisk("e2", None)]);
      MergedSets([], [Node([a], None), Node([b], None)]) ==
        [a.(disks := [ExampleDisk("d1", Some(h)), ExampleDisk("d2", None), ExampleDisk("d3", None), ExampleDisk("d4", None)])]
  {
    var a := SetStatus("s1", 0, 0, "", "", 0,
                       [ExampleDisk("d1", None), ExampleDisk("d2", None), ExampleDisk("d3", None), ExampleDisk("d4", None)]);
    var b := SetStatus("s1", 0, 0, "", "", 0, [ExampleDisk("e1", Some(h)), ExampleDisk("e2", None)]);
    var others := [Node([a], None), Node([b], None)];
    assert others[..1] == [Node([a], None)];
    assert [b][..0] == [];
    assert MergedSets([], others[..1]) == [a];
    assert FirstWithId([a], "s1") == Some(0);
    var overlaid := OverlayHealInfo(a.disks, b.disks);
    assert overlaid == [ExampleDisk("d1", Some(h)), ExampleDisk("d2", None), ExampleDisk("d3", None), ExampleDisk("d4", None)];
    assert AddSets([a], [b]) == AddSetTo([a], b) == [a.(disks := overlaid)];
    assert MergedSets([], others) == MergeStepSets([a], others[1]);
  }

  /** Two nodes report the same endpoint: the second report is kept. */
  lemma LaterMRFReportWins(first: MRFStatus, second: MRFStatus)
    ensures MergedMRF(map[], [Node([], Some(map["node1:9000" := first])), Node([], Some(map["node1:9000" := second]))])["node1:9000"] == second
  {
    var others := [Node([], Some(map["node1:9000" := first])), Node([], Some(map["node1:9000" := second]))];
    MergedMRFLastWriterWins(map[], others, "node1:9000", 1);
  }

  /** Merging one snapshot into a fresh aggregate, and then the same snapshot
      again, leaves the same sets (up to the order of equal keys). */
  method MergeSameSnapshotTwice(s: BgHealState) returns (once: seq<SetStatus>, twice: seq<SetStatus>)
    requires UniqueIds(s.sets)
    ensures multiset(once) == multiset(s.sets)
    ensures multiset(twice) == multiset(once)
    ensures SortedByKey(once) && SortedByKey(twice)
  {
    var b := new LocalBgHealState(ZeroBgHealState);
    b.Merge([s]);
    assert [s][..0] == [];
    once := b.sets;
    assert forall k :: 0 <= k < |s.sets| ==> s.sets[k] in multiset(once);
    MergeSameSetsAgain(once, s);
    b.Merge([s]);
    twice := b.sets;
  }

  /** Re-merging a snapshot adds its scanned count again. */
  lemma RepeatedMergeCountsScannedAgain()
    ensures var s := ZeroBgHealState.(scannedItemsCount := 1);
            var once := MergedState(ZeroBgHealState, [s]);
            once.scannedItemsCount == 1 && MergedState(once, [s]).scannedItemsCount == 2
  {
    var s := ZeroBgHealState.(scannedItemsCount := 1);
    var once := MergedState(ZeroBgHealState, [s]);
    assert [s][..0] == [];
    assert MergedState(ZeroBgHealState, []) == ZeroBgHealState;
    assert MergedState(once, []) == once;
    WrapInt64Identity(1);
    WrapInt64Identity(2);
    assert once.scannedItemsCount == WrapInt64(0 + 1);
    assert MergedState(once, [s]).scannedItemsCount == WrapInt64(1 + 1);
  }

  /** With two contributors, re-merging the same pair is not idempotent on the
      sets: the first merge keeps the richer two-disk report, and the second
      overlays the one-disk report's HealInfo onto it. */
  lemma RepeatedMergeOfTwoOverlaysEarlierReport(h: HealingDisk)
    ensures
      var x := SetStatus("s1", 0, 0, "", "", 0, [ExampleDisk("d1", Some(h))]);
      var y := SetStatus("s1", 0, 0, "", "", 0, [ExampleDisk("d1", None), ExampleDisk("d2", None)]);
      var others := [Node([x], None), Node([y], None)];
      var once := MergedSets([], others);
      once == [y] &&
      MergedSets(once, others) == [y.(disks := [ExampleDisk("d1", Some(h)), ExampleDisk("d2", None)])] &&
      MergedSets(once, others) != once
  {
    var x := SetStatus("s1", 0, 0, "", "", 0, [ExampleDisk("d1", Some(h))]);
    var y := SetStatus("s1", 0, 0, "", "", 0, [ExampleDisk("d1", None), ExampleDisk("d2", None)]);
    var others := [Node([x], None), Node([y], None)];
    assert others[..1] == [Node([x], None)];
    assert others[..1][..0] == [];
    assert [x][..0] == [] && [y][..0] == [];
    assert FirstWithId([x], "s1") == Some(0);
    assert FirstWithId([y], "s1") == Some(0);
    // First merge: x seeds, then y's longer list replaces x's.
    assert MergedSets([], others[..1]) == [x];
    assert AddSets([x], [y]) == AddSetTo([x], y) == [y];
    assert MergedSets([], others) == [y];
    // Second merge: x's HealInfo is overlaid onto disk 0, then y changes nothing.
    var overlaid := y.(disks := [ExampleDisk("d1", Some(h)), ExampleDisk("d2", None)]);
    assert OverlayHealInfo(y.disks, x.disks) == overlaid.disks;
    assert MergedSets([y], others[..1]) == AddSets([y], [x]) == AddSetTo([y], x) == [overlaid];
    assert FirstWithId([overlaid], "s1") == Some(0);
    assert OverlayHealInfo(overlaid.disks, y.disks) == overlaid.disks;
    assert AddSets([overlaid], [y]) == AddSetTo([overlaid], y) == [overlaid];
    assert MergedSets([y], others) == [overlaid];
    assert overlaid.disks[0] != y.disks[0];
  }

  /** A snapshot that repeats a set ID is not idempotent either: on the second
      merge the later duplicate's HealInfo is overlaid onto the earlier one. */
  lemma RepeatedMergeWithDuplicateIds(h: HealingDisk)
    ensures
      var a := SetStatus("s1", 0, 0, "", "", 0, [ExampleDisk("d1", None)]);
      var b := SetStatus("s1", 0, 0, "", "", 0, [ExampleDisk("d1", Some(h))]);
      var once := MergedSets([], [Node([a, b], None)]);
      once == [a, b] &&
      MergedSets(once, [Node([a, b], None)]) == [b, b] &&
      MergedSets(once, [Node([a, b], None)]) != once
  {
    var a := SetStatus("s1", 0, 0, "", "", 0, [ExampleDisk("d1", None)]);
    var b := SetStatus("s1", 0, 0, "", "", 0, [ExampleDisk("d1", Some(h))]);
    var s := Node([a, b], None);
    assert [s][..0] == [];
    assert MergedSets([], [s]) == [a, b];
    assert [a, b][..1] == [a] && [a, b][..1][..0] == [];
    assert FirstWithId([a, b], "s1") == Some(0);
    assert OverlayHealInfo(a.disks, a.disks) == a.disks;
    assert AddSets([a, b], [a]) == AddSetTo([a, b], a) == [a, b];
    assert OverlayHealInfo(a.disks, b.disks) == b.disks;
    assert AddSets([a, b], [a, b]) == AddSetTo([a, b], b) == [b, b];
    assert MergedSets([a, b], [s]) == [b, b];
    assert a.disks[0] != b.disks[0];
  }
}
