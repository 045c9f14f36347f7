/** `should_sync_file` and `reason_to_string`: the three-tier decision whether a source file must
    be copied over its destination. File modification times are reals; SHA-256 hashing is
    modelled by comparing the contents themselves. */
module ChangeDetector {
  import opened Options

  datatype SyncReason = NewFile | MtimeNewer | ContentChanged

  /** Modification times closer than this are treated as equal and the contents are compared */
  const MtimeTolerance: real := 1.0

  function Abs(x: real): real {
    if x < 0.0 then -x else x
  }

  /** `(should_sync, reason)`: a missing destination is new; a source newer by more than the
      tolerance is modified; within the tolerance differing contents are changed; anything else
      (equal contents, or a destination newer by more than the tolerance) is left alone */
  function ShouldSync(destExists: bool, srcMtime: real, dstMtime: real, sameContent: bool): (r: (bool, Option<SyncReason>))
    ensures r.0 <==> r.1.Some?
    ensures r.1 == Some(NewFile) <==> !destExists
    ensures r.1 == Some(ContentChanged) ==> sameContent == false
  {
    if !destExists then (true, Some(NewFile))
    else if srcMtime > dstMtime + MtimeTolerance then (true, Some(MtimeNewer))
    else if Abs(srcMtime - dstMtime) <= MtimeTolerance && !sameContent then (true, Some(ContentChanged))
    else (false, None)
  }

  /** A missing destination is always new, whatever the times and contents */
  lemma MissingIsNew(srcMtime: real, dstMtime: real, sameContent: bool)
    ensures ShouldSync(false, srcMtime, dstMtime, sameContent) == (true, Some(NewFile))
  {
  }

  /** A source newer by more than the tolerance is modified, and the contents are not consulted */
  lemma NewerSkipsHash(srcMtime: real, dstMtime: real, same1: bool, same2: bool)
    requires srcMtime > dstMtime + MtimeTolerance
    ensures ShouldSync(true, srcMtime, dstMtime, same1) == (true, Some(MtimeNewer))
    ensures ShouldSync(true, srcMtime, dstMtime, same1) == ShouldSync(true, srcMtime, dstMtime, same2)
  {
  }

  /** Within the tolerance, the contents alone decide */
  lemma WithinToleranceComparesContent(srcMtime: real, dstMtime: real, sameContent: bool)
    requires dstMtime - MtimeTolerance <= srcMtime <= dstMtime + MtimeTolerance
    ensures ShouldSync(true, srcMtime, dstMtime, sameContent)
         == if sameContent then (false, None) else (true, Some(ContentChanged))
  {
  }

  /** A destination newer by more than the tolerance is never overwritten, even with other contents */
  lemma NewerDestinationKept(srcMtime: real, dstMtime: real, sameContent: bool)
    requires srcMtime < dstMtime - MtimeTolerance
    ensures ShouldSync(true, srcMtime, dstMtime, sameContent) == (false, None)
  {
  }

  /** Each reason stated by the times alone, without the order of the checks */
  lemma ReasonCharacterised(destExists: bool, srcMtime: real, dstMtime: real, sameContent: bool)
    ensures var r := ShouldSync(destExists, srcMtime, dstMtime, sameContent);
      && (r.1 == Some(NewFile) <==> !destExists)
      && (r.1 == Some(MtimeNewer) <==> destExists && srcMtime - dstMtime > 1.0)
      && (r.1 == Some(ContentChanged) <==> destExists && -1.0 <= srcMtime - dstMtime <= 1.0 && !sameContent)
      && (r.1 == None <==> destExists && (srcMtime - dstMtime < -1.0 || (-1.0 <= srcMtime - dstMtime <= 1.0 && sameContent)))
  {
  }

  /** A destination with the source's time and contents needs no copy */
  lemma IdenticalNeedsNoSync(mtime: real)
    ensures ShouldSync(true, mtime, mtime, true) == (false, None)
  {
  }

  /** `reason_to_string` */
  function ReasonToString(reason: SyncReason): string {
    match reason
    case NewFile => "new"
    case MtimeNewer => "modified"
    case ContentChanged => "content changed"
  }

  /** Every reason has its own label, and none is the fallback "unknown" */
  lemma ReasonLabelsDistinct(a: SyncReason, b: SyncReason)
    ensures ReasonToString(a) == ReasonToString(b) <==> a == b
    ensures ReasonToString(a) != "unknown"
  {
  }
}
