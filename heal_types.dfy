/**
 * The records exchanged by the heal API and the background-heal status
 * (heal-commands.go), with Go's fixed-width integers written out.
 */
module HealTypes {
  import opened Wrappers
  import opened HealOptions

  type byte = x: int | 0 <= x < 0x100
  type uint64 = x: int | 0 <= x < 0x1_0000_0000_0000_0000
  type int64 = x: int | -0x8000_0000_0000_0000 <= x < 0x8000_0000_0000_0000

  const Int64Modulus: int := 0x1_0000_0000_0000_0000
  const Int64Offset: int := 0x8000_0000_0000_0000

  /** Two's-complement wrap-around of Go's int64 arithmetic: the int64 value
      congruent to `x` modulo 2^64. */
  function WrapInt64(x: int): (r: int64)
    ensures (x - r) % Int64Modulus == 0
  {
    (x + Int64Offset) % Int64Modulus - Int64Offset
  }

  /** A value that already fits is left alone. */
  lemma WrapInt64Identity(x: int64)
    ensures WrapInt64(x) == x
  {
  }

  /** Wrapping an intermediate sum does not change the wrapped total, so a
      chain of int64 `+=` is the wrapped mathematical sum. */
  lemma WrapInt64AddWrapped(x: int, y: int)
    ensures WrapInt64(WrapInt64(x) + y) == WrapInt64(x + y)
  {
    var q := (x + Int64Offset) / Int64Modulus;
    assert WrapInt64(x) == x - q * Int64Modulus;
    assert WrapInt64(x) + y + Int64Offset == (x + y + Int64Offset) - q * Int64Modulus;
  }

  /** A point in time; its representation is irrelevant to every decision here. */
  datatype Time = Time(unixNanos: int)

  datatype HealStartSuccess = HealStartSuccess(
    clientToken: string,
    clientAddress: string,
    startTime: Time)

  /** The force-stop reply has the same shape as the start reply. */
  type HealStopSuccess = HealStartSuccess

  type HealItemType = string

  const HealItemMetadata: HealItemType := "metadata"
  const HealItemBucket: HealItemType := "bucket"
  const HealItemBucketMetadata: HealItemType := "bucket-metadata"
  const HealItemObject: HealItemType := "object"

  const DriveStateOk: string := "ok"
  const DriveStateOffline: string := "offline"
  const DriveStateCorrupt: string := "corrupt"
  const DriveStateMissing: string := "missing"
  const DriveStatePermission: string := "permission-denied"
  const DriveStateFaulty: string := "faulty"
  const DriveStateUnknown: string := "unknown"
  const DriveStateUnformatted: string := "unformatted"  // only reported by a disk itself

  /** The eight drive states are pairwise distinct strings. */
  lemma DriveStatesDistinct()
    ensures |{DriveStateOk, DriveStateOffline, DriveStateCorrupt, DriveStateMissing,
              DriveStatePermission, DriveStateFaulty, DriveStateUnknown, DriveStateUnformatted}| == 8
  {
  }

  datatype HealDriveInfo = HealDriveInfo(uuid: string, endpoint: string, state: string)

  /** One heal outcome; `before` and `after` are the Before.Drives and
      After.Drives lists. */
  datatype HealResultItem = HealResultItem(
    resultIndex: int64,
    itemType: HealItemType,
    bucket: string,
    object: string,
    versionId: string,
    detail: string,
    parityBlocks: int,
    dataBlocks: int,
    diskCount: int,
    setCount: int,
    before: seq<HealDriveInfo>,
    after: seq<HealDriveInfo>,
    objectSize: int64)

  datatype HealTaskStatus = HealTaskStatus(
    summary: string,
    failureDetail: string,
    startTime: Time,
    healSettings: HealOpts,
    items: seq<HealResultItem>)

  datatype MRFStatus = MRFStatus(
    bytesHealed: uint64,
    itemsHealed: uint64,
    totalItems: uint64,
    totalBytes: uint64,
    started: Time)

  datatype HealingDisk = HealingDisk(
    id: string,
    poolIndex: int,
    setIndex: int,
    diskIndex: int,
    endpoint: string,
    path: string,
    started: Time,
    lastUpdate: Time,
    objectsTotalCount: uint64,
    objectsTotalSize: uint64,
    itemsHealed: uint64,
    itemsFailed: uint64,
    bytesDone: uint64,
    bytesFailed: uint64,
    objectsHealed: uint64,
    objectsFailed: uint64,
    bucket: string,
    object: string,
    queuedBuckets: seq<string>,
    healedBuckets: seq<string>)

  /** A member disk of a set: its own healing record, if any, and a few of
      its descriptive fields standing for the rest. */
  datatype Disk = Disk(
    endpoint: string,
    drivePath: string,
    state: string,
    uuid: string,
    healInfo: Option<HealingDisk>)

  datatype SetStatus = SetStatus(
    id: string,
    poolIndex: int,
    setIndex: int,
    healStatus: string,
    healPriority: string,
    totalObjects: int,
    disks: seq<Disk>)

  /** One node's (or the cluster's) background-heal snapshot; `None` is a nil map. */
  datatype BgHealState = BgHealState(
    offlineEndpoints: seq<string>,
    scannedItemsCount: int64,
    healDisks: seq<string>,
    sets: seq<SetStatus>,
    mrf: Option<map<string, MRFStatus>>,
    scParity: Option<map<string, int>>)
}
