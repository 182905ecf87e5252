/**
 * Options of a heal sequence and the identity relation between them
 * (HealOpts and HealOpts.Equal in heal-commands.go).
 */
module HealOptions {

  /** The kind of scan a heal sequence performs. It is a plain integer, so
      values other than the three named ones can arrive. */
  type HealScanMode = int

  const HealUnknownScan: HealScanMode := 0
  const HealNormalScan: HealScanMode := 1
  const HealDeepScan: HealScanMode := 2

  datatype HealOpts = HealOpts(
    recursive: bool,
    dryRun: bool,
    remove: bool,
    recreate: bool,   // only used when a bucket needs to be healed
    scanMode: HealScanMode,
    noLock: bool)

  /** Two option sets name the same heal sequence exactly when they differ at
      most in the operational flags `recreate` and `noLock`. */
  function Equal(o: HealOpts, no: HealOpts): (r: bool)
    ensures r <==> o.(recreate := no.recreate, noLock := no.noLock) == no
  {
    if o.recursive != no.recursive then false
    else if o.dryRun != no.dryRun then false
    else if o.remove != no.remove then false
    else o.scanMode == no.scanMode
  }

  /** Equal is an equivalence relation. */
  lemma EqualIsEquivalence()
    ensures forall o: HealOpts :: Equal(o, o)
    ensures forall o: HealOpts, no: HealOpts :: Equal(o, no) == Equal(no, o)
    ensures forall o: HealOpts, p: HealOpts, q: HealOpts :: Equal(o, p) && Equal(p, q) ==> Equal(o, q)
  {
  }

  /** Changing `recreate` or `noLock` on either side never changes the verdict. */
  lemma EqualIgnoresOperationalFlags(o: HealOpts, no: HealOpts, recreate: bool, noLock: bool)
    ensures Equal(o.(recreate := recreate, noLock := noLock), no) == Equal(o, no)
    ensures Equal(o, no.(recreate := recreate, noLock := noLock)) == Equal(o, no)
  {
  }
}
