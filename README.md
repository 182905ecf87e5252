# Heal commands of the MinIO admin client, modelled in Dafny

This project models the logic in `heal-commands.go` of the MinIO admin
client library (package `madmin`). Four parts are modelled:

- **Heal-option identity.** `HealOpts.Equal` decides when two option sets
  name the same heal sequence.
- **Drive-state accounting.** The four `HealResultItem.Get*Counts`
  accessors count the drives in one state before and after a heal.
- **The heal call.** `AdminClient.Heal` checks its arguments, builds the
  request path, query values and body, and routes the reply to a
  start-success, a task-status or an error result.
- **The background-heal merge.** `BgHealState.Merge` folds per-node
  snapshots into a local aggregate and sorts its sets.

Modules, one per part:

- `Wrappers`: `Option`, standing for Go's nil pointers and nil maps.
- `HealOptions`: `HealOpts` and `Equal`.
- `HealTypes`: the exchanged records, the drive-state and item-type
  constants, and Go's `int64` with its two's-complement wrap-around.
- `DriveCounts`: `CountState`, the pure count, and the four accessors as
  loop methods proved against it. A nil receiver is `None`.
- `HealApi`: `Heal` as a function. The JSON encoder and decoders are the
  fields of `Codecs`, the HTTP exchange is the `send` parameter, and the
  result is the tagged `HealResult`. The request that was sent, if any, is
  part of the answer.
- `MergeSpec`: what the merge computes, as functions of the old aggregate
  and the contributor list, and the lemmas about them.
- `BgHeal`: the receiver of `Merge` as the class `LocalBgHealState`. Its
  fields are reassigned by `Merge`, by `MergeContributors` (the loop over
  the contributors) and `MergeContributor` (one pass of it), by
  `AddAllSets` and `AddSet` (the `addSet` closure and the loop that calls
  it) and by `SortSets` (the final `sort.Slice`).
- `Scenarios`: worked cases.

Behaviours the model takes from the code, where a reader might expect
something else:

- Any contributor processed while the aggregate has no sets seeds the sets
  with a copy of its own. This is not limited to the first contributor
  (`SeededByFirstNonEmpty`).
- The HealInfo overlay runs whenever the existing set has at least as many
  disks as the incoming one, not only when the counts are equal. So a
  sparser report is not ignored: its non-nil HealInfo still lands on the
  richer list (`SparserReportOverlaysHealInfo`).
- When both the expected decode and the `ErrorResponse` decode fail, `Heal`
  returns the error of the second decode. The first error is overwritten at
  heal-commands.go:289 (`DecodeBody`).
- Merging the same input again is not idempotent in general. The offline
  endpoints are appended again, and the scanned count is added again
  (`RepeatedMergeCountsScannedAgain`). The sets come out the same only for
  a single contributor whose set IDs are distinct (`MergeSameSetsAgain`,
  `MergeSameSnapshotTwice`). With two contributors that report one set
  with different disk counts, the second merge overlays the sparser
  report's HealInfo onto the list the first merge kept
  (`RepeatedMergeOfTwoOverlaysEarlierReport`). With a repeated set ID in
  one snapshot, the second merge overlays one duplicate onto the other
  (`RepeatedMergeWithDuplicateIds`).
- The comment on `Heal` (heal-commands.go:220-222) says `forceStart` is
  honoured when both force flags are set, but the code (heal-commands.go:227-229)
  rejects that call with an invalid-argument error and sends nothing. The
  model follows the code (`Heal`).
- `SCParity` is initialised only when the receiver's map is nil. An empty
  non-nil map counts as already set.

## Model

| member | source | states |
|---|---|---|
| HealOptions.Equal | heal-commands.go:55-66 | two options are equal exactly when they coincide once `recreate` and `noLock` are ignored |
| HealOptions.EqualIsEquivalence | heal-commands.go:55-66 | `Equal` is reflexive, symmetric and transitive |
| HealOptions.EqualIgnoresOperationalFlags | heal-commands.go:45-66 | changing `recreate` or `noLock` on either side never changes `Equal` |
| Scenarios.OptionsEqualityExample | heal-commands.go:55-66 | options differing only in `noLock` are equal; options differing in scan mode are not |
| HealTypes.WrapInt64 | heal-commands.go:394 | the wrapped value is the int64 congruent to the mathematical value modulo 2^64 |
| HealTypes.WrapInt64Identity | heal-commands.go:394 | an int64 value is left unchanged by wrapping |
| HealTypes.WrapInt64AddWrapped | heal-commands.go:394 | wrapping an intermediate sum does not change the wrapped total |
| HealTypes.DriveStatesDistinct | heal-commands.go:104-111 | the eight drive-state constants are pairwise distinct |
| DriveCounts.CountState | heal-commands.go:149-158 | the count of drives in a state never exceeds the number of drives |
| DriveCounts.CountStateIsNumberOfPositions | heal-commands.go:149-158 | the count equals the number of positions whose drive is in that state |
| DriveCounts.CountStateAppend | heal-commands.go:149-158 | the count over two concatenated lists is the sum of the counts |
| DriveCounts.CountStateAll | heal-commands.go:149-158 | the count equals the list length exactly when every drive is in that state |
| DriveCounts.DistinctStateCountsBounded | heal-commands.go:104-111 | the counts of four pairwise distinct states sum to at most the number of drives |
| DriveCounts.HealCountsBounded | heal-commands.go:145-217 | missing, offline, corrupt and ok counts sum to at most the Before (and the After) drive count |
| DriveCounts.CountDrivesInState | heal-commands.go:149-153 | the counting loop returns exactly `CountState` |
| DriveCounts.GetMissingCounts | heal-commands.go:145-160 | a nil item gives (0, 0); otherwise the missing-drive counts of Before and After |
| DriveCounts.GetOfflineCounts | heal-commands.go:164-179 | a nil item gives (0, 0); otherwise the offline-drive counts of Before and After |
| DriveCounts.GetCorruptedCounts | heal-commands.go:183-198 | a nil item gives (0, 0); otherwise the corrupt-drive counts of Before and After |
| DriveCounts.GetOnlineCounts | heal-commands.go:202-217 | a nil item gives (0, 0); otherwise the ok-drive counts of Before and After |
| HealApi.HealPath | heal-commands.go:236-239 | the path starts with the heal root and the bucket; it continues with `/` and the prefix exactly when both are non-empty, and otherwise ends there |
| HealApi.HealQuery | heal-commands.go:242-253 | `clientToken` is set exactly when the token is non-empty; `forceStart` exactly when requested; `forceStop` only when requested without `forceStart`; no other key; flags read `true` |
| HealApi.DecodeBody | heal-commands.go:275-296 | an empty token yields a start success exactly when that decode succeeds, a non-empty token a task status likewise; otherwise the decoded `ErrorResponse` is the error, or failing that the `ErrorResponse` decode error |
| HealApi.RouteReply | heal-commands.go:255-284 | a transport error, a non-200 status or a body read error is returned as such; only a 200 reply whose body was read reaches the decoding |
| HealApi.Heal | heal-commands.go:223-297 | both force flags give an invalid-argument error and no request; an encoding failure gives that error and no request; otherwise exactly one POST is sent with the heal path, the query values and the options body (empty when a token is given), and its reply is routed; a start success needs an empty token and a task status a non-empty one |
| MergeSpec.MapOrEmpty | heal-commands.go:380 | defines ranging over a possibly nil map: a nil map contributes no entries |
| MergeSpec.MergedMRF | heal-commands.go:391-393 | defines the MRF map after the loop: each contributor's entries laid over the map in input order (properties in `MergedMRFLastWriterWins` and `MergedMRFKeepsUnreported`) |
| MergeSpec.AllOffline | heal-commands.go:388-390 | defines the concatenation of every contributor's offline endpoints in input order, without deduplication (membership in `AllOfflineMembership`) |
| MergeSpec.SumScanned | heal-commands.go:394 | defines the mathematical sum of the contributors' scanned counts |
| MergeSpec.FoldScanned | heal-commands.go:394 | defines the chain of wrapping int64 `+=` over the contributors (related to `SumScanned` by `FoldScannedIsWrappedSum`) |
| MergeSpec.OverlayDisk | heal-commands.go:416-418 | defines one disk of the overlay: a non-nil incoming HealInfo replaces the existing one |
| MergeSpec.AddSets | heal-commands.go:424-426 | defines the loop that hands each incoming set, in order, to the addSet closure (`AddSetTo`) |
| MergeSpec.MergeStepSets | heal-commands.go:395-426 | defines one contributor's effect on the sets: it seeds an empty list with its own sets, otherwise its sets are added one by one |
| MergeSpec.MergedSets | heal-commands.go:387-427 | defines the sets after the whole contributor loop, before the sort, as the left fold of `MergeStepSets` |
| MergeSpec.MergeStep | heal-commands.go:387-427 | defines one pass of the contributor loop on the whole aggregate: endpoints appended, MRF entries laid over a non-nil map, scanned count wrap-added, sets by `MergeStepSets` |
| MergeSpec.MergedState | heal-commands.go:387-427 | defines the aggregate after the contributor loop as the left fold of `MergeStep` (fields in `MergedStateFields`) |
| MergeSpec.KeyLess | heal-commands.go:428-433 | defines the `sort.Slice` comparator: PoolIndex first, then SetIndex |
| MergeSpec.SortedByKey | heal-commands.go:428-433 | defines a list ordered by that comparator: no later set is less than an earlier one |
| MergeSpec.MergedMRFLastWriterWins | heal-commands.go:384-393 | an endpoint maps to the value of the last contributor that reports it |
| MergeSpec.MergedMRFKeepsUnreported | heal-commands.go:384-393 | an endpoint no contributor reports keeps its old entry or stays absent |
| MergeSpec.AllOfflineMembership | heal-commands.go:388-390 | the appended endpoints are exactly those some contributor reports |
| MergeSpec.FoldScannedIsWrappedSum | heal-commands.go:394 | the chain of int64 `+=` equals the wrapped sum of all counts |
| MergeSpec.FirstWithId | heal-commands.go:404-407 | the index found holds the ID and no earlier set does; none is found only when no set holds the ID |
| MergeSpec.OverlayHealInfo | heal-commands.go:414-419 | the overlay keeps the length and every field but HealInfo; a disk's HealInfo becomes the incoming one when that is non-nil |
| MergeSpec.MergeInto | heal-commands.go:408-420 | only the disk list of the existing set changes: a longer incoming list replaces it, otherwise HealInfo is overlaid |
| MergeSpec.AddSetTo | heal-commands.go:403-423 | an unknown ID is appended; otherwise the first set with that ID is merged and every other set is unchanged |
| MergeSpec.AddSetToIds | heal-commands.go:403-423 | after adding a set, the IDs present are the old ones plus its ID |
| MergeSpec.AddSetsIds | heal-commands.go:424-426 | after adding sets, the IDs present are the old ones plus the incoming ones |
| MergeSpec.MergedSetsIds | heal-commands.go:395-427 | the merged sets carry exactly the IDs of the old sets and of all contributors' sets |
| MergeSpec.AddSetToKeepsUniqueIds | heal-commands.go:403-423 | adding a set keeps set IDs distinct |
| MergeSpec.AddSetsKeepsUniqueIds | heal-commands.go:424-426 | adding any sets to sets with distinct IDs keeps them distinct |
| MergeSpec.MergedSetsKeepUniqueIds | heal-commands.go:395-427 | with distinct IDs in the aggregate and in every contributor, the merged sets have distinct IDs |
| MergeSpec.MergeIntoSelf | heal-commands.go:408-420 | merging a set with itself changes nothing |
| MergeSpec.AddSetsAbsorbed | heal-commands.go:403-426 | adding sets that are already present, with distinct IDs, changes nothing |
| MergeSpec.MergeSameSetsAgain | heal-commands.go:395-427 | merging a snapshot whose sets are already all present leaves the sets unchanged |
| MergeSpec.MergedSetsStayEmpty | heal-commands.go:395-399 | contributors without sets leave an empty list empty |
| MergeSpec.SeededByFirstNonEmpty | heal-commands.go:395-399 | the first contributor with sets, at any position, seeds an empty aggregate with exactly its sets |
| MergeSpec.MergedStateFields | heal-commands.go:387-427 | the contributor loop appends endpoints, merges MRF entries, folds the scanned counts and merges sets; HealDisks and SCParity are untouched |
| BgHeal.CopyEntries | heal-commands.go:379-393 | copying entries gives the union of the keys; source entries win and the other destination entries keep their values |
| BgHeal.InsertInOrder | heal-commands.go:428-433 | one insertion step orders one more prefix element by (PoolIndex, SetIndex) and permutes the list, keeping IDs distinct |
| BgHeal.LocalBgHealState.AddSet | heal-commands.go:403-423 | the sets become `AddSetTo` of the old sets |
| BgHeal.LocalBgHealState.SortSets | heal-commands.go:428-433 | the sets end up ordered by (PoolIndex, SetIndex), as a permutation of the old sets, with distinct IDs kept distinct |
| BgHeal.LocalBgHealState.MergeContributor | heal-commands.go:387-426 | one pass of the contributor loop is `MergeStep` of the old value |
| BgHeal.LocalBgHealState.AddAllSets | heal-commands.go:424-426 | the sets become `AddSets` of the old sets: every incoming set is given to the addSet closure in order |
| BgHeal.LocalBgHealState.MergeContributors | heal-commands.go:387-427 | the whole contributor loop leaves the aggregate equal to `MergedState` of its old value, the left fold of `MergeStep` |
| BgHeal.LocalBgHealState.Merge | heal-commands.go:375-434 | see the list right after this table |
| Scenarios.SparserReportOverlaysHealInfo | heal-commands.go:403-423 | a four-disk set merged with a two-disk report keeps four disks and takes the report's non-nil HealInfo |
| Scenarios.LaterMRFReportWins | heal-commands.go:391-393 | of two reports for one endpoint, the second is kept |
| Scenarios.MergeSameSnapshotTwice | heal-commands.go:375-434 | merging one snapshot with distinct set IDs into a fresh aggregate, then again, keeps the same sets, sorted |
| Scenarios.RepeatedMergeCountsScannedAgain | heal-commands.go:394 | merging the same snapshot a second time adds its scanned count a second time (1, then 2) |
| Scenarios.RepeatedMergeOfTwoOverlaysEarlierReport | heal-commands.go:395-426 | with two contributors for one set, one with a one-disk list carrying HealInfo and one with a two-disk list without it, the first merge keeps the two-disk list and merging the same pair again overlays the HealInfo onto it, so the sets change |
| Scenarios.RepeatedMergeWithDuplicateIds | heal-commands.go:395-426 | a snapshot that lists one set ID twice is copied as is by the first merge, and merging it again overlays the second copy's HealInfo onto the first, so the sets change |

What `Merge` states, field by field:

- `SCParity` becomes a copy of the first contributor's map (empty when that
  map is nil), but only when it was nil and there are contributors.
  Otherwise it is unchanged.
- `MRF` becomes non-nil, with the contributors' entries laid over the old
  ones in input order.
- `OfflineEndpoints` is the old list followed by every contributor's list.
- `ScannedItemsCount` is the wrapped int64 sum of the old count and all
  contributors' counts.
- `HealDisks` is unchanged.
- The sets are a permutation of the merged sets, sorted by
  (PoolIndex, SetIndex).
- Distinct set IDs stay distinct, provided every contributor's IDs are
  distinct.

## Left out

- `AdminClient.BackgroundHealStatus` (heal-commands.go:438-464): it only
  passes HTTP and JSON through, with no decision beyond turning a non-200
  status or a decode error into an error.
- `examples/service-trace.go`: an example program that prints a trace stream.
- `executeMethod`, `httpRespToErrorResponse`, `closeResponse`,
  `ioutil.ReadAll`, `json.Marshal` and `json.Unmarshal` are foreign. They
  appear only as outcomes (`send`, `HttpReply`, `Codecs`). The request
  context and its cancellation are not modelled.
- HealApi.Heal: returns a tagged result. It does not model the
  zero-valued or partly decoded `HealStartSuccess` and `HealTaskStatus`
  that Go returns beside an error.
- `adminAPIPrefix`, `ErrInvalidArgument` and `ErrorResponse` are defined in
  files that are not part of this model. The prefix is taken as `/v3`. The
  invalid-argument error is `HealError.InvalidArgument` with the message of
  heal-commands.go:228. `ErrorResponse` has the usual seven string fields.
- `Disk` is defined in a file that is not part of this model. It is
  modelled by its HealInfo pointer and four descriptive fields that stand
  for the rest.
- `url.Values` holds lists of values. It is a map to one value here,
  because `Set` always stores exactly one.
- `time.Time` values are opaque.
- The counters of `HealingDisk` and `MRFStatus` are plain values. Nothing
  in this code keeps them monotonic, so nothing about that is stated.
- Go randomises map iteration order. `CopyEntries` picks keys in an
  unspecified order, and its result does not depend on that order.
- Slice aliasing: sets are values. The model does not capture that the
  seeded copy and appended sets share `Disks` backing arrays with the
  contributors, nor that the in-place HealInfo overlay writes through into
  them. Only the effect on the receiver is modelled.
- BgHeal.LocalBgHealState.SortSets: sorts by insertion, and states
  nothing about the relative order of sets with equal keys, which
  `sort.Slice` leaves unspecified.
- Go's `int` fields (pool and set indices, counts returned by the
  accessors) are unbounded integers. The model does no arithmetic on them
  that could overflow: counts are bounded by slice lengths.
