/** `build_sync_plan` over an abstract file system: every scanned source file that is not a
    symbolic link is either a sync candidate or skipped, in scan order. */
module SyncPlan {
  import opened Options
  import opened ChangeDetector

  /** A path as its sequence of components; `a / b` is `a + b` */
  type Path = seq<string>

  datatype FileEntry = FileEntry(content: seq<bv8>, mtime: real)

  /** The files present, with their contents and modification times */
  type FileSystem = map<Path, FileEntry>

  datatype SyncCandidate = SyncCandidate(sourcePath: Path, destPath: Path, relativePath: Path, reason: SyncReason)

  /** `should_sync_file(source, dest)` can answer: a missing destination is decided without
      looking at the source; otherwise the source is read (`stat`, hashing) and must be a file */
  predicate Decidable(fs: FileSystem, source: Path, dest: Path) {
    dest !in fs || source in fs
  }

  /** `should_sync_file(source, dest)` on the file system; equal contents stand for equal hashes */
  function Decide(fs: FileSystem, source: Path, dest: Path): (bool, Option<SyncReason>)
    requires Decidable(fs, source, dest)
  {
    if dest !in fs then ShouldSync(false, 0.0, 0.0, false)
    else ShouldSync(true, fs[source].mtime, fs[dest].mtime, fs[source].content == fs[dest].content)
  }

  /** `xs` is `ys` with some elements left out, the rest in the same order */
  predicate IsSubseq<T(==)>(xs: seq<T>, ys: seq<T>)
    decreases |ys|
  {
    xs == [] ||
    (ys != [] &&
      ((xs[|xs| - 1] == ys[|ys| - 1] && IsSubseq(xs[..|xs| - 1], ys[..|ys| - 1]))
       || IsSubseq(xs, ys[..|ys| - 1])))
  }

  function Rels(cs: seq<SyncCandidate>): (r: seq<Path>)
    ensures |r| == |cs| && forall j | 0 <= j < |cs| :: r[j] == cs[j].relativePath
  {
    seq(|cs|, j requires 0 <= j < |cs| => cs[j].relativePath)
  }

  /** How many scanned files are not symbolic links */
  function CountFiles(listing: seq<Path>, symlinks: set<Path>): nat {
    if listing == [] then 0
    else CountFiles(listing[..|listing| - 1], symlinks) + (if listing[|listing| - 1] in symlinks then 0 else 1)
  }

  /** The candidate for scanned file `rel` */
  predicate IsCandidateFor(fs: FileSystem, sourceDir: Path, destDir: Path, symlinks: set<Path>, c: SyncCandidate) {
    && c.relativePath !in symlinks
    && c.sourcePath == sourceDir + c.relativePath
    && c.destPath == destDir + c.relativePath
    && Decidable(fs, c.sourcePath, c.destPath)
    && Decide(fs, c.sourcePath, c.destPath) == (true, Some(c.reason))
  }

  predicate IsSkipped(fs: FileSystem, sourceDir: Path, destDir: Path, symlinks: set<Path>, rel: Path) {
    && rel !in symlinks
    && sourceDir + rel in fs && destDir + rel in fs
    && Decide(fs, sourceDir + rel, destDir + rel) == (false, None)
  }

  lemma SubseqExtend<T>(xs: seq<T>, ys: seq<T>, y: T)
    requires IsSubseq(xs, ys)
    ensures IsSubseq(xs, ys + [y]) && IsSubseq(xs + [y], ys + [y])
  {
    assert (ys + [y])[..|ys|] == ys;
    assert (xs + [y])[..|xs|] == xs;
  }

  /** Every non-link file of `prefix` is a candidate or skipped */
  predicate Covers(prefix: seq<Path>, symlinks: set<Path>, rels: seq<Path>, skipped: seq<Path>) {
    forall k | 0 <= k < |prefix| && prefix[k] !in symlinks :: prefix[k] in rels || prefix[k] in skipped
  }

  /** What the plan states about the scanned files `prefix` */
  predicate PlanOf(fs: FileSystem, sourceDir: Path, destDir: Path, symlinks: set<Path>, prefix: seq<Path>,
                   candidates: seq<SyncCandidate>, skipped: seq<Path>) {
    && (forall j | 0 <= j < |candidates| :: IsCandidateFor(fs, sourceDir, destDir, symlinks, candidates[j]))
    && (forall j | 0 <= j < |skipped| :: IsSkipped(fs, sourceDir, destDir, symlinks, skipped[j]))
    && Covers(prefix, symlinks, Rels(candidates), skipped)
    && IsSubseq(Rels(candidates), prefix) && IsSubseq(skipped, prefix)
    && |candidates| + |skipped| == CountFiles(prefix, symlinks)
  }

  lemma CoversStep(prefix: seq<Path>, symlinks: set<Path>, rels: seq<Path>, skipped: seq<Path>,
                   rels2: seq<Path>, skipped2: seq<Path>, rel: Path)
    requires Covers(prefix, symlinks, rels, skipped)
    requires forall x | x in rels :: x in rels2
    requires forall x | x in skipped :: x in skipped2
    requires rel in symlinks || rel in rels2 || rel in skipped2
    ensures Covers(prefix + [rel], symlinks, rels2, skipped2)
  {
    var p := prefix + [rel];
    forall k | 0 <= k < |p| && p[k] !in symlinks
      ensures p[k] in rels2 || p[k] in skipped2
    {
      if k < |prefix| {
        assert p[k] == prefix[k];
      }
    }
  }

  lemma CountStep(prefix: seq<Path>, symlinks: set<Path>, rel: Path)
    ensures CountFiles(prefix + [rel], symlinks) == CountFiles(prefix, symlinks) + (if rel in symlinks then 0 else 1)
  {
    assert (prefix + [rel])[..|prefix|] == prefix;
  }

  lemma CandidateStep(fs: FileSystem, sourceDir: Path, destDir: Path, symlinks: set<Path>, prefix: seq<Path>,
                      candidates: seq<SyncCandidate>, skipped: seq<Path>, c: SyncCandidate)
    requires PlanOf(fs, sourceDir, destDir, symlinks, prefix, candidates, skipped)
    requires IsCandidateFor(fs, sourceDir, destDir, symlinks, c)
    ensures PlanOf(fs, sourceDir, destDir, symlinks, prefix + [c.relativePath], candidates + [c], skipped)
  {
    var rel := c.relativePath;
    var cs := candidates + [c];
    forall j | 0 <= j < |cs|
      ensures IsCandidateFor(fs, sourceDir, destDir, symlinks, cs[j])
    {
      if j < |candidates| {
        assert cs[j] == candidates[j];
      }
    }
    assert Rels(cs) == Rels(candidates) + [rel];
    SubseqExtend(Rels(candidates), prefix, rel);
    SubseqExtend(skipped, prefix, rel);
    CoversStep(prefix, symlinks, Rels(candidates), skipped, Rels(candidates) + [rel], skipped, rel);
    CountStep(prefix, symlinks, rel);
  }

  lemma SkipStep(fs: FileSystem, sourceDir: Path, destDir: Path, symlinks: set<Path>, prefix: seq<Path>,
                 candidates: seq<SyncCandidate>, skipped: seq<Path>, rel: Path)
    requires PlanOf(fs, sourceDir, destDir, symlinks, prefix, candidates, skipped)
    requires IsSkipped(fs, sourceDir, destDir, symlinks, rel)
    ensures PlanOf(fs, sourceDir, destDir, symlinks, prefix + [rel], candidates, skipped + [rel])
  {
    SubseqExtend(Rels(candidates), prefix, rel);
    SubseqExtend(skipped, prefix, rel);
    CoversStep(prefix, symlinks, Rels(candidates), skipped, Rels(candidates), skipped + [rel], rel);
    CountStep(prefix, symlinks, rel);
  }

  lemma LinkStep(fs: FileSystem, sourceDir: Path, destDir: Path, symlinks: set<Path>, prefix: seq<Path>,
                 candidates: seq<SyncCandidate>, skipped: seq<Path>, rel: Path)
    requires PlanOf(fs, sourceDir, destDir, symlinks, prefix, candidates, skipped)
    requires rel in symlinks
    ensures PlanOf(fs, sourceDir, destDir, symlinks, prefix + [rel], candidates, skipped)
  {
    SubseqExtend(Rels(candidates), prefix, rel);
    SubseqExtend(skipped, prefix, rel);
    CoversStep(prefix, symlinks, Rels(candidates), skipped, Rels(candidates), skipped, rel);
    CountStep(prefix, symlinks, rel);
  }

  datatype Plan = Plan(candidates: seq<SyncCandidate>, skipped: seq<Path>)

  /** `should_sync_file` answers for every scanned file that is not a symbolic link */
  predicate Readable(fs: FileSystem, sourceDir: Path, destDir: Path, listing: seq<Path>, symlinks: set<Path>) {
    forall k | 0 <= k < |listing| && listing[k] !in symlinks ::
      Decidable(fs, sourceDir + listing[k], destDir + listing[k])
  }

  /** One pass of the loop of `build_sync_plan`: skip a link, otherwise decide and file `rel` */
  method PlanFile(fs: FileSystem, sourceDir: Path, destDir: Path, symlinks: set<Path>, prefix: seq<Path>,
                  candidates: seq<SyncCandidate>, skipped: seq<Path>, rel: Path)
    returns (candidates': seq<SyncCandidate>, skipped': seq<Path>)
    requires PlanOf(fs, sourceDir, destDir, symlinks, prefix, candidates, skipped)
    requires rel in symlinks || Decidable(fs, sourceDir + rel, destDir + rel)
    ensures PlanOf(fs, sourceDir, destDir, symlinks, prefix + [rel], candidates', skipped')
  {
    candidates', skipped' := candidates, skipped;
    if rel !in symlinks {
      var source := sourceDir + rel;
      var dest := destDir + rel;
      var decision := Decide(fs, source, dest);
      if decision.0 && decision.1.Some? {
        var c := SyncCandidate(source, dest, rel, decision.1.value);
        CandidateStep(fs, sourceDir, destDir, symlinks, prefix, candidates, skipped, c);
        candidates' := candidates + [c];
      } else {
        SkipStep(fs, sourceDir, destDir, symlinks, prefix, candidates, skipped, rel);
        skipped' := skipped + [rel];
      }
    } else {
      LinkStep(fs, sourceDir, destDir, symlinks, prefix, candidates, skipped, rel);
    }
  }

  /** The loop of `build_sync_plan` over scanned files that `should_sync_file` can all decide */
  method CollectPlan(fs: FileSystem, sourceDir: Path, destDir: Path, listing: seq<Path>, symlinks: set<Path>)
    returns (candidates: seq<SyncCandidate>, skipped: seq<Path>)
    requires Readable(fs, sourceDir, destDir, listing, symlinks)
    ensures PlanOf(fs, sourceDir, destDir, symlinks, listing, candidates, skipped)
  {
    candidates := [];
    skipped := [];
    var i := 0;
    while i < |listing|
      invariant 0 <= i <= |listing|
      invariant PlanOf(fs, sourceDir, destDir, symlinks, listing[..i], candidates, skipped)
    {
      var rel := listing[i];
      assert listing[..i + 1] == listing[..i] + [rel];
      candidates, skipped := PlanFile(fs, sourceDir, destDir, symlinks, listing[..i], candidates, skipped, rel);
      i := i + 1;
    }
    assert listing[..i] == listing;
  }

  /** `build_sync_plan`: the scanned files are the relative paths `listing` (sorted by the scan)
      and `symlinks` are those that are symbolic links. A scanned file whose destination exists
      but which is itself no longer a file of `fs` makes `stat` raise, which aborts the whole
      plan: the result is then `None`. No partial plan survives the exception, so checking every
      file before the loop gives the same outcome as failing at the first unreadable one. */
  method BuildSyncPlan(fs: FileSystem, sourceDir: Path, destDir: Path, listing: seq<Path>, symlinks: set<Path>)
    returns (r: Option<Plan>)
    ensures r.Some? <==> Readable(fs, sourceDir, destDir, listing, symlinks)
    ensures r.Some? ==> forall j | 0 <= j < |r.value.candidates| ::
      IsCandidateFor(fs, sourceDir, destDir, symlinks, r.value.candidates[j])
    ensures r.Some? ==> forall j | 0 <= j < |r.value.skipped| ::
      IsSkipped(fs, sourceDir, destDir, symlinks, r.value.skipped[j])
    ensures r.Some? ==> forall k | 0 <= k < |listing| && listing[k] !in symlinks ::
      listing[k] in Rels(r.value.candidates) || listing[k] in r.value.skipped
    ensures r.Some? ==> IsSubseq(Rels(r.value.candidates), listing) && IsSubseq(r.value.skipped, listing)
    ensures r.Some? ==> |r.value.candidates| + |r.value.skipped| == CountFiles(listing, symlinks)
  {
    if !Readable(fs, sourceDir, destDir, listing, symlinks) {
      return None;
    }
    var candidates, skipped := CollectPlan(fs, sourceDir, destDir, listing, symlinks);
    r := Some(Plan(candidates, skipped));
  }

  /** No scanned file is both a candidate and skipped */
  lemma PlanExclusive(fs: FileSystem, sourceDir: Path, destDir: Path, symlinks: set<Path>,
                      c: SyncCandidate, rel: Path)
    requires IsCandidateFor(fs, sourceDir, destDir, symlinks, c)
    requires IsSkipped(fs, sourceDir, destDir, symlinks, rel)
    ensures c.relativePath != rel
  {
  }
}
