/**
 * The local aggregate that BgHealState.Merge (heal-commands.go) updates in
 * place: the receiver `b` becomes an object whose fields the merge
 * reassigns, while the contributors stay values.
 */
module BgHeal {
  import opened Wrappers
  import opened HealTypes
  import opened MergeSpec

  /** The `for k, v := range src { dst[k] = v }` loop: entries of `src`
      overwrite those of `dst`. */
  method CopyEntries<V>(dst: map<string, V>, src: map<string, V>) returns (r: map<string, V>)
    ensures r.Keys == dst.Keys + src.Keys
    ensures forall k :: k in src ==> r[k] == src[k]
    ensures forall k :: k in dst && k !in src ==> r[k] == dst[k]
    ensures r == dst + src
  {
    r := dst;
    var rest := src.Keys;
    while rest != {}
      invariant rest <= src.Keys
      invariant r.Keys == dst.Keys + (src.Keys - rest)
      invariant forall k :: k in src.Keys - rest ==> r[k] == src[k]
      invariant forall k :: k in dst && k !in src.Keys - rest ==> r[k] == dst[k]
      decreases rest
    {
      var k :| k in rest;
      r := r[k := src[k]];
      rest := rest - {k};
    }
    assert forall k :: k in r ==> r[k] == (dst + src)[k];
  }

  /** Swapping two neighbours permutes the list and keeps distinct IDs distinct. */
  lemma SwapNeighbours(s: seq<SetStatus>, j: nat)
    requires 0 < j < |s|
    ensures multiset(s[j - 1 := s[j]][j := s[j - 1]]) == multiset(s)
    ensures UniqueIds(s) ==> UniqueIds(s[j - 1 := s[j]][j := s[j - 1]])
  {
    var t := s[j - 1 := s[j]][j := s[j - 1]];
    assert s == s[..j - 1] + [s[j - 1], s[j]] + s[j + 1..];
    assert t == s[..j - 1] + [s[j], s[j - 1]] + s[j + 1..];
  }

  /** One insertion step: with s[..i] ordered by key, moves s[i] left past
      every set with a greater key, so that s[..i + 1] is ordered. */
  method InsertInOrder(s: seq<SetStatus>, i: nat) returns (t: seq<SetStatus>)
    requires i < |s|
    requires forall a, b :: 0 <= a < b < i ==> !KeyLess(s[b], s[a])
    ensures |t| == |s| && multiset(t) == multiset(s)
    ensures UniqueIds(s) ==> UniqueIds(t)
    ensures forall a, b :: 0 <= a < b <= i ==> !KeyLess(t[b], t[a])
  {
    t := s;
    var j := i;
    while j > 0 && KeyLess(t[j], t[j - 1])
      invariant 0 <= j <= i
      invariant |t| == |s| && multiset(t) == multiset(s)
      invariant UniqueIds(s) ==> UniqueIds(t)
      invariant OrderedExcept(t, i, j)
    {
      SwapNeighbours(t, j);
      SwapKeepsOrderedExcept(t, i, j);
      t := t[j - 1 := t[j]][j := t[j - 1]];
      j := j - 1;
    }
    OrderedExceptSettled(t, i, j);
  }

  /** The insertion invariant: t[..i + 1] is ordered by key apart from the
      moving set at j, which is not above anything to its right. */
  predicate OrderedExcept(t: seq<SetStatus>, i: nat, j: nat)
    requires j <= i < |t|
  {
    && (forall a, b :: 0 <= a < b <= i && a != j && b != j ==> !KeyLess(t[b], t[a]))
    && (forall b :: j < b <= i ==> !KeyLess(t[b], t[j]))
  }

  /** Moving the set at j one place left keeps the insertion invariant. */
  lemma SwapKeepsOrderedExcept(t: seq<SetStatus>, i: nat, j: nat)
    requires 0 < j <= i < |t|
    requires KeyLess(t[j], t[j - 1])
    requires OrderedExcept(t, i, j)
    ensures OrderedExcept(t[j - 1 := t[j]][j := t[j - 1]], i, j - 1)
  {
  }

  /** Once the moving set is not below its left neighbour, t[..i + 1] is ordered. */
  lemma OrderedExceptSettled(t: seq<SetStatus>, i: nat, j: nat)
    requires j <= i < |t|
    requires j == 0 || !KeyLess(t[j], t[j - 1])
    requires OrderedExcept(t, i, j)
    ensures forall a, b :: 0 <= a < b <= i ==> !KeyLess(t[b], t[a])
  {
  }

  class LocalBgHealState {
    var offlineEndpoints: seq<string>
    var scannedItemsCount: int64
    var healDisks: seq<string>
    var sets: seq<SetStatus>
    var mrf: Option<map<string, MRFStatus>>
    var scParity: Option<map<string, int>>

    /** The aggregate as a value. */
    function Value(): BgHealState
      reads this
    {
      BgHealState(offlineEndpoints, scannedItemsCount, healDisks, sets, mrf, scParity)
    }

    predicate UniqueSetIds()
      reads this
    {
      UniqueIds(sets)
    }

    constructor (s: BgHealState)
      ensures Value() == s
    {
      offlineEndpoints := s.offlineEndpoints;
      scannedItemsCount := s.scannedItemsCount;
      healDisks := s.healDisks;
      sets := s.sets;
      mrf := s.mrf;
      scParity := s.scParity;
    }

    /** The addSet closure: the first set with the same ID takes the longer
        disk list, or else the incoming non-nil HealInfo by position; a set
        with an unknown ID is appended. */
    method AddSet(incoming: SetStatus)
      modifies this`sets
      ensures sets == AddSetTo(old(sets), incoming)
    {
      for e := 0 to |sets|
        invariant sets == old(sets)
        invariant forall j :: 0 <= j < e ==> sets[j].id != incoming.id
      {
        var existing := sets[e];
        if existing.id == incoming.id {
          if |existing.disks| < |incoming.disks| {
            sets := sets[e := existing.(disks := incoming.disks)];
            return;
          }
          // existing.Disks aliases b.Sets[e].Disks: the overlay writes through.
          var disks := existing.disks;
          for i := 0 to |incoming.disks|
            invariant |disks| == |existing.disks|
            invariant forall d :: 0 <= d < |disks| ==>
                        disks[d] == if d < i then OverlayDisk(existing.disks[d], incoming.disks[d]) else existing.disks[d]
          {
            if incoming.disks[i].healInfo.Some? {
              disks := disks[i := disks[i].(healInfo := incoming.disks[i].healInfo)];
            }
          }
          assert disks == OverlayHealInfo(existing.disks, incoming.disks);
          sets := sets[e := existing.(disks := disks)];
          return;
        }
      }
      sets := sets + [incoming];
    }

    /** sort.Slice of b.Sets by (PoolIndex, SetIndex); the order of sets
        with equal keys is left open. */
    method SortSets()
      modifies this`sets
      ensures SortedByKey(sets)
      ensures multiset(sets) == multiset(old(sets))
      ensures UniqueIds(old(sets)) ==> UniqueIds(sets)
    {
      var s := sets;
      for i := 0 to |s|
        invariant |s| == |old(sets)|
        invariant multiset(s) == multiset(old(sets))
        invariant UniqueIds(old(sets)) ==> UniqueIds(s)
        invariant forall a, b :: 0 <= a < b < i ==> !KeyLess(s[b], s[a])
      {
        s := InsertInOrder(s, i);
      }
      sets := s;
    }

    /** The body of the contributor loop: one snapshot's endpoints, MRF
        entries, scanned count and sets. */
    method MergeContributor(other: BgHealState)
      requires mrf.Some?
      modifies this
      ensures Value() == MergeStep(old(Value()), other)
    {
      var endpoints := offlineEndpoints;
      for j := 0 to |other.offlineEndpoints|
        invariant endpoints == offlineEndpoints + other.offlineEndpoints[..j]
      {
        assert other.offlineEndpoints[..j + 1] == other.offlineEndpoints[..j] + [other.offlineEndpoints[j]];
        endpoints := endpoints + [other.offlineEndpoints[j]];
      }
      assert other.offlineEndpoints[..|other.offlineEndpoints|] == other.offlineEndpoints;
      offlineEndpoints := endpoints;
      var merged := CopyEntries(mrf.value, MapOrEmpty(other.mrf));
      mrf := Some(merged);
      scannedItemsCount := WrapInt64(scannedItemsCount + other.scannedItemsCount);
      if |sets| == 0 {
        sets := other.sets;
      } else {
        AddAllSets(other.sets);
      }
    }

    /** `for _, disk := range other.Sets { addSet(disk) }` */
    method AddAllSets(incoming: seq<SetStatus>)
      modifies this`sets
      ensures sets == AddSets(old(sets), incoming)
    {
      for k := 0 to |incoming|
        invariant sets == AddSets(old(sets), incoming[..k])
      {
        assert incoming[..k + 1][..k] == incoming[..k];
        AddSet(incoming[k]);
      }
      assert incoming[..|incoming|] == incoming;
    }

    /** The loop over the contributors. */
    method MergeContributors(others: seq<BgHealState>)
      requires mrf.Some?
      modifies this
      ensures Value() == MergedState(old(Value()), others)
    {
      assert others[..0] == [];
      for i := 0 to |others|
        invariant mrf.Some?
        invariant Value() == MergedState(old(Value()), others[..i])
      {
        MergedStatePrefix(old(Value()), others, i);
        MergeContributor(others[i]);
      }
      assert others[..|others|] == others;
    }

    /** Folds the contributors into this aggregate, in input order, and sorts
        the sets. */
    method Merge(others: seq<BgHealState>)
      modifies this
      ensures scParity == if old(scParity).None? && |others| > 0 then Some(MapOrEmpty(others[0].scParity))
                          else old(scParity)
      ensures mrf == Some(MergedMRF(MapOrEmpty(old(mrf)), others))
      ensures offlineEndpoints == old(offlineEndpoints) + AllOffline(others)
      ensures scannedItemsCount == WrapInt64(old(scannedItemsCount) + SumScanned(others))
      ensures healDisks == old(healDisks)
      ensures multiset(sets) == multiset(MergedSets(old(sets), others))
      ensures SortedByKey(sets)
      ensures old(UniqueSetIds()) && (forall j :: 0 <= j < |others| ==> UniqueIds(others[j].sets)) ==> UniqueSetIds()
    {
      if scParity.None? && |others| > 0 {
        var parity := CopyEntries(map[], MapOrEmpty(others[0].scParity));
        assert parity == MapOrEmpty(others[0].scParity);
        scParity := Some(parity);
      }
      if mrf.None? {
        mrf := Some(map[]);
      }
      ghost var start := Value();
      assert start.mrf == Some(MapOrEmpty(old(mrf)));
      MergeContributors(others);
      MergedStateFields(start, others);
      FoldScannedIsWrappedSum(old(scannedItemsCount), others);
      assert mrf == Some(MergedMRF(MapOrEmpty(old(mrf)), others));
      assert scannedItemsCount == WrapInt64(old(scannedItemsCount) + SumScanned(others));
      assert sets == MergedSets(old(sets), others);
      SortSets();
      if old(UniqueSetIds()) && (forall j :: 0 <= j < |others| ==> UniqueIds(others[j].sets)) {
        MergedSetsKeepUniqueIds(old(sets), others);
      }
    }
  }
}
