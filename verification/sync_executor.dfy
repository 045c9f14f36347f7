/** `execute_sync`: copy every planned candidate over its destination, in order, collecting the
    candidates copied and the failures. The file system is the abstract map of the plan; what
    `mkdir` and `shutil.copy2` may raise is given by an outcome oracle. */
module SyncExecutor {
  import opened Options
  import opened ChangeDetector
  import opened SyncPlan

  datatype SyncResult = SyncResult(syncedFiles: seq<SyncCandidate>, skippedFiles: seq<Path>, errors: seq<(Path, string)>)

  /** The message of the error raised when the source file is gone */
  const MissingSource: string := "No such file or directory"

  /** `shutil.copy2`: the destination gets the source's contents and modification time */
  function Copy(fs: FileSystem, c: SyncCandidate): (r: FileSystem)
    requires c.sourcePath in fs
    ensures r.Keys == fs.Keys + {c.destPath}
    ensures r[c.destPath] == fs[c.sourcePath]
    ensures forall p | p in fs && p != c.destPath :: r[p] == fs[p]
  {
    fs[c.destPath := fs[c.sourcePath]]
  }

  /** `synced` and `errs` split `cs` in order: each candidate is either synced, or reported under
      its source path */
  predicate Partition(cs: seq<SyncCandidate>, synced: seq<SyncCandidate>, errs: seq<(Path, string)>)
    decreases |cs|
  {
    if cs == [] then synced == [] && errs == []
    else
      var c := cs[|cs| - 1];
      || (synced != [] && synced[|synced| - 1] == c && Partition(cs[..|cs| - 1], synced[..|synced| - 1], errs))
      || (errs != [] && errs[|errs| - 1].0 == c.sourcePath && Partition(cs[..|cs| - 1], synced, errs[..|errs| - 1]))
  }

  /** The same split with each candidate's outcome decided by `fails`: synced when it reports
      nothing, reported with its message otherwise */
  predicate Outcomes(cs: seq<SyncCandidate>, synced: seq<SyncCandidate>, errs: seq<(Path, string)>,
                     fails: SyncCandidate -> Option<string>)
    decreases |cs|
  {
    if cs == [] then synced == [] && errs == []
    else
      var c := cs[|cs| - 1];
      match fails(c)
      case None =>
        synced != [] && synced[|synced| - 1] == c && Outcomes(cs[..|cs| - 1], synced[..|synced| - 1], errs, fails)
      case Some(m) =>
        errs != [] && errs[|errs| - 1] == (c.sourcePath, m) && Outcomes(cs[..|cs| - 1], synced, errs[..|errs| - 1], fails)
  }

  function Sources(cs: seq<SyncCandidate>): (r: seq<Path>)
    ensures |r| == |cs| && forall j | 0 <= j < |cs| :: r[j] == cs[j].sourcePath
  {
    seq(|cs|, j requires 0 <= j < |cs| => cs[j].sourcePath)
  }

  function ErrorPaths(errs: seq<(Path, string)>): (r: seq<Path>)
    ensures |r| == |errs| && forall j | 0 <= j < |errs| :: r[j] == errs[j].0
  {
    seq(|errs|, j requires 0 <= j < |errs| => errs[j].0)
  }

  /** Some synced candidate was written to `p` */
  predicate Written(synced: seq<SyncCandidate>, p: Path) {
    exists j | 0 <= j < |synced| :: synced[j].destPath == p
  }

  /** No two candidates share a destination, and no candidate writes over another's source */
  predicate NonInterfering(cs: seq<SyncCandidate>) {
    && (forall a, b | 0 <= a < b < |cs| :: cs[a].destPath != cs[b].destPath)
    && (forall a, b | 0 <= a < |cs| && 0 <= b < |cs| :: cs[a].destPath != cs[b].sourcePath)
  }

  predicate SourcesPresent(fs: FileSystem, cs: seq<SyncCandidate>) {
    forall j | 0 <= j < |cs| :: cs[j].sourcePath in fs
  }

  // ---------------------------------------------------------------------------------------
  // The split

  /** Outcomes given by an oracle are in particular a split */
  lemma {:induction false} OutcomesPartition(cs: seq<SyncCandidate>, synced: seq<SyncCandidate>, errs: seq<(Path, string)>,
                                             fails: SyncCandidate -> Option<string>)
    requires Outcomes(cs, synced, errs, fails)
    ensures Partition(cs, synced, errs)
    decreases |cs|
  {
    if cs != [] {
      var c := cs[|cs| - 1];
      match fails(c)
      case None => OutcomesPartition(cs[..|cs| - 1], synced[..|synced| - 1], errs, fails);
      case Some(m) => OutcomesPartition(cs[..|cs| - 1], synced, errs[..|errs| - 1], fails);
    }
  }

  /** Every candidate is accounted for once, the synced ones and the reported source paths each
      in candidate order */
  lemma {:induction false} PartitionCounts(cs: seq<SyncCandidate>, synced: seq<SyncCandidate>, errs: seq<(Path, string)>)
    requires Partition(cs, synced, errs)
    ensures |synced| + |errs| == |cs|
    ensures IsSubseq(synced, cs)
    ensures IsSubseq(ErrorPaths(errs), Sources(cs))
    decreases |cs|
  {
    if cs != [] {
      var c := cs[|cs| - 1];
      var init := cs[..|cs| - 1];
      assert Sources(cs)[..|cs| - 1] == Sources(init);
      if synced != [] && synced[|synced| - 1] == c && Partition(init, synced[..|synced| - 1], errs) {
        PartitionCounts(init, synced[..|synced| - 1], errs);
      } else {
        var n := |errs| - 1;
        PartitionCounts(init, synced, errs[..n]);
        assert ErrorPaths(errs)[..n] == ErrorPaths(errs[..n]);
      }
    }
  }

  /** With no failures, every candidate is synced and nothing is reported */
  lemma {:induction false} NoFailuresSyncAll(cs: seq<SyncCandidate>, synced: seq<SyncCandidate>, errs: seq<(Path, string)>,
                                             fails: SyncCandidate -> Option<string>)
    requires forall j | 0 <= j < |cs| :: fails(cs[j]).None?
    requires Outcomes(cs, synced, errs, fails)
    ensures synced == cs && errs == []
    decreases |cs|
  {
    if cs != [] {
      var init := cs[..|cs| - 1];
      NoFailuresSyncAll(init, synced[..|synced| - 1], errs, fails);
    }
  }

  // ---------------------------------------------------------------------------------------
  // The loop

  /** What the executor states after the candidates `done` */
  predicate ExecOf(fs: FileSystem, done: seq<SyncCandidate>, dryRun: bool, copyError: SyncCandidate -> Option<string>,
                   synced: seq<SyncCandidate>, errs: seq<(Path, string)>, fs2: FileSystem) {
    && Partition(done, synced, errs)
    && (forall j | 0 <= j < |synced| :: synced[j] in done)
    && (dryRun ==> synced == done && errs == [] && fs2 == fs)
    && (!dryRun && SourcesPresent(fs, done) ==> Outcomes(done, synced, errs, copyError))
    && fs.Keys <= fs2.Keys
    && (forall p | p in fs2 :: p in fs || Written(synced, p))
    && (forall p | p in fs && !Written(synced, p) :: fs2[p] == fs[p])
    && (!dryRun ==> forall j | 0 <= j < |synced| :: synced[j].destPath in fs2)
  }

  /** Under non-interference every synced destination holds its source as it was */
  predicate CopiedFaithfully(fs: FileSystem, synced: seq<SyncCandidate>, fs2: FileSystem) {
    forall j | 0 <= j < |synced| ::
      synced[j].sourcePath in fs && synced[j].destPath in fs2 && fs2[synced[j].destPath] == fs[synced[j].sourcePath]
  }

  lemma SourcesPresentInit(fs: FileSystem, cs: seq<SyncCandidate>, c: SyncCandidate)
    requires SourcesPresent(fs, cs + [c])
    ensures SourcesPresent(fs, cs) && c.sourcePath in fs
  {
    assert (cs + [c])[|cs|] == c;
    forall j | 0 <= j < |cs|
      ensures cs[j].sourcePath in fs
    {
      assert (cs + [c])[j] == cs[j];
    }
  }

  lemma WrittenSnoc(synced: seq<SyncCandidate>, c: SyncCandidate, p: Path)
    ensures Written(synced + [c], p) <==> Written(synced, p) || c.destPath == p
  {
    var s := synced + [c];
    if Written(synced, p) {
      var j :| 0 <= j < |synced| && synced[j].destPath == p;
      assert s[j] == synced[j];
    }
    if c.destPath == p {
      assert s[|synced|] == c;
    }
    if Written(s, p) {
      var j :| 0 <= j < |s| && s[j].destPath == p;
      if j < |synced| {
        assert s[j] == synced[j];
      }
    }
  }

  lemma MemberSnoc(synced: seq<SyncCandidate>, done: seq<SyncCandidate>, c: SyncCandidate)
    requires forall j | 0 <= j < |synced| :: synced[j] in done
    ensures forall j | 0 <= j < |synced + [c]| :: (synced + [c])[j] in done + [c]
  {
    forall j | 0 <= j < |synced + [c]|
      ensures (synced + [c])[j] in done + [c]
    {
      if j < |synced| {
        assert (synced + [c])[j] == synced[j];
      }
    }
  }

  /** A dry run records the candidate and touches nothing */
  lemma DryStep(fs: FileSystem, done: seq<SyncCandidate>, dryRun: bool, copyError: SyncCandidate -> Option<string>,
                synced: seq<SyncCandidate>, errs: seq<(Path, string)>, fs2: FileSystem, c: SyncCandidate,
                done': seq<SyncCandidate>)
    requires dryRun && done' == done + [c]
    requires ExecOf(fs, done, dryRun, copyError, synced, errs, fs2)
    ensures ExecOf(fs, done', dryRun, copyError, synced + [c], errs, fs2)
  {
    assert (done + [c])[..|done|] == done;
    assert (synced + [c])[..|synced|] == synced;
    MemberSnoc(synced, done, c);
  }

  /** A successful copy writes the destination and records the candidate */
  lemma CopyStep(fs: FileSystem, done: seq<SyncCandidate>, dryRun: bool, copyError: SyncCandidate -> Option<string>,
                 synced: seq<SyncCandidate>, errs: seq<(Path, string)>, fs2: FileSystem, c: SyncCandidate,
                 done': seq<SyncCandidate>)
    requires !dryRun && done' == done + [c]
    requires ExecOf(fs, done, dryRun, copyError, synced, errs, fs2)
    requires c.sourcePath in fs2 && copyError(c).None?
    ensures ExecOf(fs, done', dryRun, copyError, synced + [c], errs, Copy(fs2, c))
  {
    var synced' := synced + [c];
    var fs3 := Copy(fs2, c);
    assert done'[..|done|] == done;
    assert synced'[..|synced|] == synced;
    MemberSnoc(synced, done, c);
    if SourcesPresent(fs, done') {
      SourcesPresentInit(fs, done, c);
    }
    forall p | p in fs3
      ensures p in fs || Written(synced', p)
    {
      WrittenSnoc(synced, c, p);
    }
    forall p | p in fs && !Written(synced', p)
      ensures fs3[p] == fs[p]
    {
      WrittenSnoc(synced, c, p);
    }
    forall j | 0 <= j < |synced'|
      ensures synced'[j].destPath in fs3
    {
      if j < |synced| {
        assert synced'[j] == synced[j];
      }
    }
  }

  /** A failed copy reports the source path and changes nothing */
  lemma FailStep(fs: FileSystem, done: seq<SyncCandidate>, dryRun: bool, copyError: SyncCandidate -> Option<string>,
                 synced: seq<SyncCandidate>, errs: seq<(Path, string)>, fs2: FileSystem, c: SyncCandidate, msg: string,
                 done': seq<SyncCandidate>)
    requires !dryRun && done' == done + [c]
    requires ExecOf(fs, done, dryRun, copyError, synced, errs, fs2)
    requires if c.sourcePath in fs2 then copyError(c) == Some(msg) else msg == MissingSource
    ensures ExecOf(fs, done', dryRun, copyError, synced, errs + [(c.sourcePath, msg)], fs2)
  {
    var errs' := errs + [(c.sourcePath, msg)];
    assert done'[..|done|] == done;
    assert errs'[..|errs|] == errs;
    forall j | 0 <= j < |synced|
      ensures synced[j] in done'
    {
    }
    if SourcesPresent(fs, done') {
      SourcesPresentInit(fs, done, c);
    }
  }

  /** The candidates processed so far come before `c` in `cs` */
  predicate DoneBefore(cs: seq<SyncCandidate>, i: nat, synced: seq<SyncCandidate>)
    requires i <= |cs|
  {
    forall j | 0 <= j < |synced| :: synced[j] in cs[..i]
  }

  /** Under non-interference a copy keeps every earlier destination and reads an untouched source */
  lemma FaithfulStep(fs: FileSystem, cs: seq<SyncCandidate>, i: nat,
                     synced: seq<SyncCandidate>, fs2: FileSystem)
    requires i < |cs| && NonInterfering(cs)
    requires DoneBefore(cs, i, synced) && CopiedFaithfully(fs, synced, fs2)
    requires cs[i].sourcePath in fs2 && fs.Keys <= fs2.Keys
    requires forall p | p in fs && !Written(synced, p) :: fs2[p] == fs[p]
    requires forall p | p in fs2 :: p in fs || Written(synced, p)
    ensures cs[i].sourcePath in fs && fs2[cs[i].sourcePath] == fs[cs[i].sourcePath]
    ensures CopiedFaithfully(fs, synced + [cs[i]], Copy(fs2, cs[i]))
    ensures DoneBefore(cs, i + 1, synced + [cs[i]])
  {
    var c := cs[i];
    var s := synced + [c];
    var fs3 := Copy(fs2, c);
    assert !Written(synced, c.sourcePath) by {
      forall j | 0 <= j < |synced|
        ensures synced[j].destPath != c.sourcePath
      {
        var a :| 0 <= a < i && cs[..i][a] == synced[j];
        assert cs[a].destPath != c.sourcePath;
      }
    }
    forall j | 0 <= j < |s|
      ensures s[j].sourcePath in fs && s[j].destPath in fs3 && fs3[s[j].destPath] == fs[s[j].sourcePath]
    {
      if j < |synced| {
        assert s[j] == synced[j];
        var a :| 0 <= a < i && cs[..i][a] == synced[j];
        assert cs[a].destPath != c.destPath;
      }
    }
    forall j | 0 <= j < |s|
      ensures s[j] in cs[..i + 1]
    {
      assert cs[..i + 1] == cs[..i] + [c];
      if j < |synced| {
        assert s[j] == synced[j];
      }
    }
  }

  lemma DoneBeforeKeep(cs: seq<SyncCandidate>, i: nat, synced: seq<SyncCandidate>)
    requires i < |cs| && DoneBefore(cs, i, synced)
    ensures DoneBefore(cs, i + 1, synced)
  {
    assert cs[..i + 1] == cs[..i] + [cs[i]];
  }

  lemma ExecStart(fs: FileSystem, cs: seq<SyncCandidate>, dryRun: bool, copyError: SyncCandidate -> Option<string>)
    ensures ExecOf(fs, cs[..0], dryRun, copyError, [], [], fs)
  {
    assert cs[..0] == [];
  }

  /** `execute_sync(candidates, dry_run)` on the file system `fs`; `copyError(c)` is what creating
      `c`'s destination directory and copying it raise, if anything */
  method ExecuteSync(candidates: seq<SyncCandidate>, dryRun: bool, fs: FileSystem,
                     copyError: SyncCandidate -> Option<string>)
    returns (result: SyncResult, fs2: FileSystem)
    ensures Partition(candidates, result.syncedFiles, result.errors)
    ensures forall j | 0 <= j < |result.syncedFiles| :: result.syncedFiles[j] in candidates
    ensures result.skippedFiles == []
    ensures dryRun ==> result.syncedFiles == candidates && result.errors == [] && fs2 == fs
    ensures !dryRun && SourcesPresent(fs, candidates) ==> Outcomes(candidates, result.syncedFiles, result.errors, copyError)
    ensures fs.Keys <= fs2.Keys
    ensures forall p | p in fs2 :: p in fs || Written(result.syncedFiles, p)
    ensures forall p | p in fs && !Written(result.syncedFiles, p) :: fs2[p] == fs[p]
    ensures !dryRun ==> forall j | 0 <= j < |result.syncedFiles| :: result.syncedFiles[j].destPath in fs2
    ensures !dryRun && NonInterfering(candidates) ==> CopiedFaithfully(fs, result.syncedFiles, fs2)
  {
    var synced: seq<SyncCandidate> := [];
    var errors: seq<(Path, string)> := [];
    fs2 := fs;
    var i := 0;
    ExecStart(fs, candidates, dryRun, copyError);
    while i < |candidates|
      invariant 0 <= i <= |candidates|
      invariant ExecOf(fs, candidates[..i], dryRun, copyError, synced, errors, fs2)
      invariant !dryRun && NonInterfering(candidates) ==>
        DoneBefore(candidates, i, synced) && CopiedFaithfully(fs, synced, fs2)
    {
      var c := candidates[i];
      assert candidates[..i + 1] == candidates[..i] + [c];
      if dryRun {
        DryStep(fs, candidates[..i], dryRun, copyError, synced, errors, fs2, c, candidates[..i + 1]);
        synced := synced + [c];
      } else {
        var failure := if c.sourcePath in fs2 then copyError(c) else Some(MissingSource);
        if failure.None? {
          CopyStep(fs, candidates[..i], dryRun, copyError, synced, errors, fs2, c, candidates[..i + 1]);
          if NonInterfering(candidates) {
            FaithfulStep(fs, candidates, i, synced, fs2);
          }
          fs2 := Copy(fs2, c);
          synced := synced + [c];
        } else {
          FailStep(fs, candidates[..i], dryRun, copyError, synced, errors, fs2, c, failure.value, candidates[..i + 1]);
          if NonInterfering(candidates) {
            DoneBeforeKeep(candidates, i, synced);
          }
          errors := errors + [(c.sourcePath, failure.value)];
        }
      }
      i := i + 1;
    }
    assert candidates[..i] == candidates;
    result := SyncResult(synced, [], errors);
  }

  // ---------------------------------------------------------------------------------------
  // Running the plan again

  /** `a` is a leading part of `b` */
  predicate PrefixOf(a: Path, b: Path) {
    |a| <= |b| && b[..|a|] == a
  }

  /** Neither directory lies inside the other */
  predicate Separate(sourceDir: Path, destDir: Path) {
    !PrefixOf(sourceDir, destDir) && !PrefixOf(destDir, sourceDir)
  }

  predicate DistinctRels(cs: seq<SyncCandidate>) {
    forall a, b | 0 <= a < b < |cs| :: cs[a].relativePath != cs[b].relativePath
  }

  /** A path under one of two separate directories is never a path under the other */
  lemma SeparateTrees(sourceDir: Path, destDir: Path, r1: Path, r2: Path)
    requires Separate(sourceDir, destDir)
    ensures destDir + r1 != sourceDir + r2
  {
    var x := destDir + r1;
    var y := sourceDir + r2;
    if |destDir| <= |sourceDir| {
      assert x[..|destDir|] == destDir;
      assert y[..|destDir|] == sourceDir[..|destDir|];
    } else {
      assert x[..|sourceDir|] == destDir[..|sourceDir|];
      assert y[..|sourceDir|] == sourceDir;
    }
  }

  /** The plan's candidates for separate directories and distinct files never interfere */
  lemma PlanNonInterfering(fs: FileSystem, sourceDir: Path, destDir: Path, symlinks: set<Path>, cs: seq<SyncCandidate>)
    requires Separate(sourceDir, destDir)
    requires forall j | 0 <= j < |cs| :: IsCandidateFor(fs, sourceDir, destDir, symlinks, cs[j])
    requires DistinctRels(cs)
    ensures NonInterfering(cs)
  {
    forall a, b | 0 <= a < b < |cs|
      ensures cs[a].destPath != cs[b].destPath
    {
      assert destDir + cs[a].relativePath != destDir + cs[b].relativePath by {
        var x := destDir + cs[a].relativePath;
        var y := destDir + cs[b].relativePath;
        assert x[|destDir|..] == cs[a].relativePath;
        assert y[|destDir|..] == cs[b].relativePath;
      }
    }
    forall a, b | 0 <= a < |cs| && 0 <= b < |cs|
      ensures cs[a].destPath != cs[b].sourcePath
    {
      SeparateTrees(sourceDir, destDir, cs[a].relativePath, cs[b].relativePath);
    }
  }

  /** The relative paths picked out of a listing without repeats have no repeats */
  lemma {:induction false} SubseqDistinct(xs: seq<Path>, ys: seq<Path>)
    requires IsSubseq(xs, ys)
    requires forall a, b | 0 <= a < b < |ys| :: ys[a] != ys[b]
    ensures forall a, b | 0 <= a < b < |xs| :: xs[a] != xs[b]
    ensures forall a | 0 <= a < |xs| :: xs[a] in ys
    decreases |ys|
  {
    if xs != [] {
      var ys' := ys[..|ys| - 1];
      if xs[|xs| - 1] == ys[|ys| - 1] && IsSubseq(xs[..|xs| - 1], ys') {
        var xs' := xs[..|xs| - 1];
        SubseqDistinct(xs', ys');
        forall a | 0 <= a < |xs|
          ensures xs[a] in ys
        {
          if a < |xs'| {
            assert xs[a] == xs'[a];
            assert xs'[a] in ys';
          }
        }
        forall a, b | 0 <= a < b < |xs|
          ensures xs[a] != xs[b]
        {
          assert xs[a] == xs'[a];
          if b < |xs'| {
            assert xs[b] == xs'[b];
          } else {
            var k :| 0 <= k < |ys'| && ys'[k] == xs'[a];
            assert ys[k] != ys[|ys| - 1];
          }
        }
      } else {
        SubseqDistinct(xs, ys');
        forall a | 0 <= a < |xs|
          ensures xs[a] in ys
        {
          assert xs[a] in ys';
        }
      }
    }
  }

  /** Once a candidate has been copied faithfully and its source left alone, planning again skips it */
  lemma ReplanSkipsSynced(fs: FileSystem, sourceDir: Path, destDir: Path, symlinks: set<Path>,
                          candidates: seq<SyncCandidate>, synced: seq<SyncCandidate>, fs2: FileSystem, c: SyncCandidate)
    requires NonInterfering(candidates)
    requires CopiedFaithfully(fs, synced, fs2)
    requires forall j | 0 <= j < |synced| :: synced[j] in candidates
    requires fs.Keys <= fs2.Keys
    requires forall p | p in fs && !Written(synced, p) :: fs2[p] == fs[p]
    requires c in synced && IsCandidateFor(fs, sourceDir, destDir, symlinks, c)
    ensures IsSkipped(fs2, sourceDir, destDir, symlinks, c.relativePath)
  {
    var k :| 0 <= k < |synced| && synced[k] == c;
    assert !Written(synced, c.sourcePath) by {
      forall j | 0 <= j < |synced|
        ensures synced[j].destPath != c.sourcePath
      {
        var a :| 0 <= a < |candidates| && candidates[a] == synced[j];
        var b :| 0 <= b < |candidates| && candidates[b] == c;
      }
    }
    IdenticalNeedsNoSync(fs[c.sourcePath].mtime);
  }
}
