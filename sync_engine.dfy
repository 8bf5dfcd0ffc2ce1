/** sync_directories, the pass all three programs run: a top-down walk over
    the source that creates missing target directories and copies missing or
    changed files, then a bottom-up walk over the target that removes entries
    with no source counterpart. os.walk's order is left open: phase 1 visits
    any entry whose ancestors are done, phase 2 any entry whose descendants
    are done. The three copies differ only in their Policy. */
module SyncEngine {
  import opened Paths
  import opened FileSystem
  import opened Mirror
  import opened WalkSteps
  import opened Visits

  datatype Error = OsError | UnboundLocalError

  datatype Outcome = Ok | Raised(error: Error)

  datatype Option<T> = None | Some(value: T)

  /** How one copy of the pass behaves: its file_checksum algorithm, whether
      it creates missing target directories, whether count_operations raises,
      and whether a removed directory is audited by checksumming it. */
  datatype Policy = Policy(alg: HashAlg, createDirs: bool, countRaises: bool, auditsDirs: bool)

  /** Phase 1 at one source entry `r` (os.walk's `root` for a directory, an
      element of `files` for a file). `ok` is false when an os call raises;
      the disk is then unchanged. */
  method VisitSource(disk: Disk, S: Path, T: Path, policy: Policy, src: Tree, r: Path,
                     ghost e0: Entries, ghost done: set<Path>)
    returns (ok: bool, change: seq<Change>)
    requires disk.Valid() && src == Walked(e0, S)
    requires Visiting(e0, disk.entries, S, T, policy.createDirs, done, r)
    modifies disk
    ensures ok ==> Advanced1(e0, disk.entries, S, T, policy.createDirs, done, r, change)
    ensures !ok ==> Conflict1At(src, View(e0, T), policy.createDirs, FileAbove(e0, T), r)
    ensures !ok ==> change == [] && disk.entries == old(disk.entries)
  {
    ghost var e, cd := disk.entries, policy.createDirs;
    SourceFacts(e0, e, S, T, cd, done, r);
    var node := src[r];
    change := [];
    if node.Dir? {
      // the root's backup directory is `T/.`, which is not found when T is a file
      var found := T + r in disk.entries && (r != [] || disk.entries[T + r].Dir?);
      if !found && policy.createDirs && T + r in disk.entries {
        RootIsFile(e0, e, S, T, cd, done, r);
        ok := disk.MakeDirs(T + r);
      } else if !found && policy.createDirs {
        DirStep(e0, e, S, T, cd, done, r);
        ok := disk.MakeDirs(T + r);
        if ok {
          DirMade(e0, e, S, T, cd, done, r);
          change := [MakeDir(r)];
        }
      } else {
        DirKept(e0, e, S, T, cd, done, r);
        ok := true;
      }
    } else if T + r in disk.entries && disk.entries[T + r].Dir? {
      // file_checksum opens the target directory
      FileBlocked(e0, e, S, T, cd, done, r);
      ok := false;
    } else if T + r !in disk.entries
       || FileChecksum(policy.alg, node.content) != FileChecksum(policy.alg, disk.entries[T + r].content) {
      ok := disk.Copy2(S + r, T + r);
      if ok {
        FileCopied(e0, e, S, T, cd, done, r);
        change := [CopyFile(r, node.content)];
      } else {
        FileBlocked(e0, e, S, T, cd, done, r);
      }
    } else {
      ChecksumsDifferIffContentsDiffer(policy.alg, node.content, disk.entries[T + r].content);
      FileSame(e0, e, S, T, cd, done, r);
      ok := true;
    }
  }

  /** Phase 1 visits `r`, a pending entry whose ancestors are all done. */
  method TopDownVisit(disk: Disk, S: Path, T: Path, policy: Policy, src: Tree, r: Path,
                    ghost e0: Entries, ghost done: set<Path>, ghost applied: seq<Change>)
    returns (ok: bool, change: seq<Change>)
    requires disk.Valid() && src == Walked(e0, S)
    requires Walking1(e0, disk.entries, S, T, policy.createDirs, done, applied)
    requires r in src && r !in done && forall q :: q < r ==> q in done
    modifies disk
    ensures ok ==> |change| <= 1 && Walking1(e0, disk.entries, S, T, policy.createDirs, done + {r}, applied + change)
    ensures !ok ==> Conflict1At(src, View(e0, T), policy.createDirs, FileAbove(e0, T), r) && change == []
    ensures !ok ==> Walking1Prefix(e0, disk.entries, S, T, policy.createDirs, applied)
  {
    ghost var cd, e := policy.createDirs, disk.entries;
    Walking1Visit(e0, e, S, T, cd, done, applied, r);
    ok, change := VisitSource(disk, S, T, policy, src, r, e0, done);
    if !ok {
      Walking1Within(e0, e, S, T, cd, done, applied);
    } else {
      Walking1Next(e0, e, disk.entries, S, T, cd, done, applied, r, change);
    }
  }

  /** One iteration of the top-down walk: visit a shortest pending entry, so
      that its ancestors are done. `raised` is the exception the visit or the
      operation counter throws. */
  method TopDownStep(disk: Disk, S: Path, T: Path, policy: Policy, src: Tree, pending: set<Path>,
                     applied: seq<Change>, ghost e0: Entries, ghost done: set<Path>)
    returns (raised: Option<Error>, pending': set<Path>, applied': seq<Change>, ghost done': set<Path>)
    requires disk.Valid() && src == Walked(e0, S) && pending == src.Keys - done && pending != {}
    requires Walking1(e0, disk.entries, S, T, policy.createDirs, done, applied)
    requires policy.countRaises ==> applied == []
    modifies disk
    ensures pending' == src.Keys - done' && |pending'| < |pending|
    ensures raised.None? ==> Walking1(e0, disk.entries, S, T, policy.createDirs, done', applied')
    ensures raised.None? && policy.countRaises ==> applied' == []
    ensures raised.Some? ==> Phase1Result(e0, disk.entries, S, T, policy.createDirs, policy.countRaises,
                                          false, raised == Some(UnboundLocalError), applied')
  {
    ghost var cd := policy.createDirs;
    ghost var shortest := ShortestExists(pending);
    var r :| r in pending && forall q :: q in pending ==> |r| <= |q|;
    Walking1Ancestors(e0, S, done, pending, r);
    PendingStep(src.Keys, done, pending, r);
    ghost var e := disk.entries;
    var ok, change := TopDownVisit(disk, S, T, policy, src, r, e0, done, applied);
    pending', applied', done' := pending - {r}, applied + change, done + {r};
    if !ok {
      Walking1Stopped(e0, disk.entries, S, T, cd, policy.countRaises, false, r, applied);
      return Some(OsError), pending', applied, done';
    }
    if policy.countRaises && change != [] {
      Walking1Within(e0, disk.entries, S, T, cd, done', applied');
      Walking1Stopped(e0, disk.entries, S, T, cd, policy.countRaises, true, r, applied');
      raised := Some(UnboundLocalError);
    } else {
      raised := None;
    }
  }

  /** The top-down walk over the source. */
  method TopDown(disk: Disk, S: Path, T: Path, policy: Policy) returns (outcome: Outcome, applied: seq<Change>)
    requires disk.Valid() && Disjoint(S, T)
    modifies disk
    ensures disk.Valid()
    ensures Phase1Result(old(disk.entries), disk.entries, S, T, policy.createDirs, policy.countRaises,
                         outcome.Ok?, outcome == Raised(UnboundLocalError), applied)
  {
    ghost var e0, cd := disk.entries, policy.createDirs;
    var src := Walked(disk.entries, S);
    Walking1Start(e0, S, T, cd);
    var pending := src.Keys;
    ghost var done: set<Path> := {};
    applied := [];
    while pending != {}
      invariant disk.Valid() && pending == src.Keys - done
      invariant Walking1(e0, disk.entries, S, T, cd, done, applied)
      invariant policy.countRaises ==> applied == []
      decreases |pending|
    {
      var raised;
      raised, pending, applied, done := TopDownStep(disk, S, T, policy, src, pending, applied, e0, done);
      if raised.Some? {
        return Raised(raised.value), applied;
      }
    }
    Walking1Done(e0, disk.entries, S, T, cd, policy.countRaises, done, applied);
    outcome := Ok;
  }

  /** Phase 2 at one target entry `r` (an element of `files` or `dirs` of the
      directory os.walk yields). `ok` is false when an os call raises. */
  method VisitTarget(disk: Disk, S: Path, T: Path, policy: Policy, r: Path,
                     ghost e0: Entries, ghost e1: Entries, ghost walk: set<Path>, ghost done: set<Path>)
    returns (ok: bool, change: seq<Change>)
    requires disk.Valid() && Pruning(e0, e1, disk.entries, S, T, walk, done, r)
    modifies disk
    ensures ok ==> Advanced2(e0, e1, disk.entries, S, T, policy.auditsDirs, done, r, change)
    ensures !ok ==> Conflict2At(Walked(e0, S), View(e1, T), policy.auditsDirs, r)
    ensures !ok ==> change == [] && disk.entries == old(disk.entries)
  {
    ghost var e := disk.entries;
    TargetFacts(e0, e1, e, S, T, walk, done, r);
    change := [];
    if S + r in disk.entries {
      TargetKept(e0, e1, e, S, T, policy.auditsDirs, walk, done, r);
      ok := true;
    } else {
      // the source has no counterpart: remove the target entry
      var node := disk.entries[T + r];
      if node.File? {
        FileRemoved(e0, e1, e, S, T, policy.auditsDirs, walk, done, r);
        disk.Remove(T + r);
        change := [RemoveFile(r, node.content)];
        ok := true;
      } else if policy.auditsDirs {
        // the audit checksums the directory before rmtree and raises
        DirAudited(e0, e1, e, S, T, walk, done, r);
        ok := false;
      } else {
        DirRemoved(e0, e1, e, S, T, policy.auditsDirs, walk, done, r);
        disk.RmTree(T + r);
        change := [RemoveDir(r)];
        ok := true;
      }
    }
  }

  /** Phase 2 visits `r`, a pending target entry whose descendants are all done. */
  method BottomUpVisit(disk: Disk, S: Path, T: Path, policy: Policy, r: Path, ghost e0: Entries, ghost e1: Entries,
                       ghost done: set<Path>, ghost pending: set<Path>, ghost applied: seq<Change>)
    returns (ok: bool, change: seq<Change>)
    requires disk.Valid() && Walking2(e0, e1, disk.entries, S, T, policy.auditsDirs, done, applied)
    requires pending == (View(e1, T).Keys - {[]}) - done
    requires r in pending && forall q :: q in pending ==> |q| <= |r|
    modifies disk
    ensures ok ==> |change| <= 1 && Walking2(e0, e1, disk.entries, S, T, policy.auditsDirs, done + {r}, applied + change)
    ensures !ok ==> Conflict2At(Walked(e0, S), View(e1, T), policy.auditsDirs, r) && change == []
    ensures !ok ==> Walking2Prefix(e0, e1, disk.entries, S, T, policy.auditsDirs, applied)
  {
    ghost var e := disk.entries;
    Walking2Visit(e0, e1, e, S, T, policy.auditsDirs, done, pending, applied, r);
    ok, change := VisitTarget(disk, S, T, policy, r, e0, e1, View(e1, T).Keys - {[]}, done);
    if !ok {
      Walking2Within(e0, e1, disk.entries, S, T, policy.auditsDirs, done, applied);
    } else {
      Walking2Next(e0, e1, e, disk.entries, S, T, policy.auditsDirs, done, applied, r, change);
    }
  }

  /** One iteration of the bottom-up walk: visit a longest pending entry, so
      that its descendants are done. */
  method BottomUpStep(disk: Disk, S: Path, T: Path, policy: Policy, pending: set<Path>, applied: seq<Change>,
                      ghost e0: Entries, ghost e1: Entries, ghost done: set<Path>)
    returns (raised: Option<Error>, pending': set<Path>, applied': seq<Change>, ghost done': set<Path>)
    requires disk.Valid() && pending == (View(e1, T).Keys - {[]}) - done && pending != {}
    requires Walking2(e0, e1, disk.entries, S, T, policy.auditsDirs, done, applied)
    requires policy.countRaises ==> applied == []
    modifies disk
    ensures pending' == (View(e1, T).Keys - {[]}) - done' && |pending'| < |pending|
    ensures raised.None? ==> Walking2(e0, e1, disk.entries, S, T, policy.auditsDirs, done', applied')
    ensures raised.None? && policy.countRaises ==> applied' == []
    ensures raised.Some? ==> Phase2Result(e0, e1, disk.entries, S, T, policy.auditsDirs, policy.countRaises,
                                          false, raised == Some(UnboundLocalError), applied')
  {
    ghost var audits := policy.auditsDirs;
    ghost var longest := LongestExists(pending);
    var r :| r in pending && forall q :: q in pending ==> |q| <= |r|;
    PendingStep(View(e1, T).Keys - {[]}, done, pending, r);
    var ok, change := BottomUpVisit(disk, S, T, policy, r, e0, e1, done, pending, applied);
    pending', applied', done' := pending - {r}, applied + change, done + {r};
    if !ok {
      Walking2Stopped(e0, e1, disk.entries, S, T, audits, policy.countRaises, false, r, applied);
      return Some(OsError), pending', applied, done';
    }
    if policy.countRaises && change != [] {
      Walking2Within(e0, e1, disk.entries, S, T, audits, done', applied');
      Walking2Stopped(e0, e1, disk.entries, S, T, audits, policy.countRaises, true, r, applied');
      raised := Some(UnboundLocalError);
    } else {
      raised := None;
    }
  }

  /** The bottom-up walk over the target, from the disk phase 1 left (`e0` is
      the disk before phase 1, which fixes the source tree). */
  method BottomUp(disk: Disk, S: Path, T: Path, policy: Policy, ghost e0: Entries)
    returns (outcome: Outcome, applied: seq<Change>)
    requires disk.Valid() && Wf(e0) && Disjoint(S, T) && Outside(e0, disk.entries, T)
    modifies disk
    ensures disk.Valid()
    ensures Phase2Result(e0, old(disk.entries), disk.entries, S, T, policy.auditsDirs, policy.countRaises,
                         outcome.Ok?, outcome == Raised(UnboundLocalError), applied)
  {
    ghost var e1 := disk.entries;
    Walking2Start(e0, e1, S, T, policy.auditsDirs);
    var pending := Walked(disk.entries, T).Keys - {[]};
    ghost var done: set<Path> := {};
    applied := [];
    while pending != {}
      invariant disk.Valid() && pending == (View(e1, T).Keys - {[]}) - done
      invariant Walking2(e0, e1, disk.entries, S, T, policy.auditsDirs, done, applied)
      invariant policy.countRaises ==> applied == []
      decreases |pending|
    {
      var raised;
      raised, pending, applied, done := BottomUpStep(disk, S, T, policy, pending, applied, e0, e1, done);
      if raised.Some? {
        return Raised(raised.value), applied;
      }
    }
    Walking2Done(e0, e1, disk.entries, S, T, policy.auditsDirs, policy.countRaises, done, applied);
    outcome := Ok;
  }

  /** What one pass of sync_directories from `S` into `T` guarantees, `e0`
      being the disk before it and `e` the disk after it. It finishes exactly
      when nothing conflicts and (for the copy whose counter raises) nothing
      needs changing; it then leaves the mirrored target and has applied each
      change of the pass once. Every change applied is one of the pass, and
      whether it finished or raised, the target is the old target with the
      applied changes performed in order. An os error is raised only where
      the pass conflicts with the disk. The
      source is left alone, and outside the target only missing ancestors of
      `T` may appear. */
  ghost predicate Synced(e0: Entries, e: Entries, S: Path, T: Path, policy: Policy, outcome: Outcome, applied: seq<Change>) {
    var src, dst := Walked(e0, S), View(e0, T);
    && Outside(e0, e, T)
    && View(e, S) == View(e0, S)
    && Ending(src, dst, FileAbove(e0, T), policy, outcome)
    && Applied(src, dst, policy, outcome, applied)
    && View(e, T) == ApplyAll(dst, applied)
    && (outcome.Ok? ==> View(e, T) == Mirrored(src, dst, policy.createDirs))
  }

  /** How a pass over `src` and `dst` ends: it finishes exactly when nothing
      conflicts and (when the counter raises) nothing needs changing, and it
      raises an os error only where something conflicts. */
  ghost predicate Ending(src: Tree, dst: Tree, blocked: bool, policy: Policy, outcome: Outcome) {
    var cd := policy.createDirs;
    && (outcome.Ok? <==>
          && !Conflict(src, dst, cd, blocked, policy.auditsDirs)
          && (!policy.countRaises || Changes(src, dst, cd) == {}))
    && (outcome == Raised(OsError) ==> Conflict(src, dst, cd, blocked, policy.auditsDirs))
  }

  /** The changes a pass applied: changes of the pass; each of them once
      when it finished; exactly one when the counter raised, and never more
      than one when the counter raises; never a directory removal when
      removed directories are audited. */
  ghost predicate Applied(src: Tree, dst: Tree, policy: Policy, outcome: Outcome, applied: seq<Change>) {
    var all := Changes(src, dst, policy.createDirs);
    && (forall c :: c in applied ==> c in all)
    && (outcome.Ok? ==> |applied| == |all| && forall c :: c in all ==> c in applied)
    && (outcome == Raised(UnboundLocalError) ==> policy.countRaises && |applied| == 1)
    && (policy.countRaises ==> |applied| <= 1)
    && (policy.auditsDirs ==> forall c :: c in applied ==> !c.RemoveDir?)
  }

  /** One pass of sync_directories from source root `S` into target root `T`
      (both absolute, neither inside the other). */
  method SyncDirectories(disk: Disk, S: Path, T: Path, policy: Policy) returns (outcome: Outcome, applied: seq<Change>)
    requires disk.Valid() && Disjoint(S, T)
    modifies disk
    ensures disk.Valid()
    ensures Synced(old(disk.entries), disk.entries, S, T, policy, outcome, applied)
  {
    ghost var e0 := disk.entries;
    var applied1, applied2;
    outcome, applied1 := TopDown(disk, S, T, policy);
    if !outcome.Ok? {
      applied := applied1;
      StoppedInPhase1(e0, disk.entries, S, T, policy, outcome, applied);
      return;
    }
    ghost var e1 := disk.entries;
    outcome, applied2 := BottomUp(disk, S, T, policy, e0);
    applied := applied1 + applied2;
    BothPhases(e0, e1, disk.entries, S, T, policy, outcome, applied1, applied2);
  }

  /** A pass that raised in its top-down walk. */
  lemma StoppedInPhase1(e0: Entries, e: Entries, S: Path, T: Path, policy: Policy, outcome: Outcome, applied: seq<Change>)
    requires Wf(e0) && Disjoint(S, T) && !outcome.Ok?
    requires Phase1Result(e0, e, S, T, policy.createDirs, policy.countRaises,
                          false, outcome == Raised(UnboundLocalError), applied)
    ensures Synced(e0, e, S, T, policy, outcome, applied)
  {
    SourceIntact(e0, e, S, T);
    ChangesSplit(Walked(e0, S), View(e0, T), policy.createDirs);
    TopDownRemovesNothing(Walked(e0, S), View(e0, T), policy.createDirs, applied);
  }

  /** The top-down walk only creates directories and copies files. */
  lemma TopDownRemovesNothing(src: Tree, dst: Tree, cd: bool, applied: seq<Change>)
    requires forall c :: c in applied ==> c in Changes1(src, dst, cd, src.Keys)
    ensures forall c :: c in applied ==> !c.RemoveDir?
  {
  }

  /** A pass whose top-down walk finished, then its bottom-up walk returned. */
  lemma BothPhases(e0: Entries, e1: Entries, e: Entries, S: Path, T: Path, policy: Policy, outcome: Outcome,
                   applied1: seq<Change>, applied2: seq<Change>)
    requires Wf(e0) && Disjoint(S, T)
    requires Phase1Result(e0, e1, S, T, policy.createDirs, policy.countRaises, true, false, applied1)
    requires Phase2Result(e0, e1, e, S, T, policy.auditsDirs, policy.countRaises,
                          outcome.Ok?, outcome == Raised(UnboundLocalError), applied2)
    ensures Synced(e0, e, S, T, policy, outcome, applied1 + applied2)
  {
    var src, dst, cd := Walked(e0, S), View(e0, T), policy.createDirs;
    Phase2Total(src, dst, cd, policy.auditsDirs);
    ApplyAllAppend(dst, applied1, applied2);
    OutsideTrans(e0, e1, e, T);
    SourceIntact(e0, e, S, T);
    if outcome.Ok? {
      Phase2Finished(e0, e, S, T, policy, applied1, applied2);
    } else {
      StoppedInPhase2(e0, e1, e, S, T, policy, outcome, applied1, applied2);
    }
  }

  /** A pass both of whose walks finished, from what each walk promised. */
  lemma Phase2Finished(e0: Entries, e: Entries, S: Path, T: Path, policy: Policy,
                       applied1: seq<Change>, applied2: seq<Change>)
    requires Outside(e0, e, T) && View(e, S) == View(e0, S)
    requires View(e, T) == ApplyAll(View(e0, T), applied1 + applied2)
    requires var src, dst, cd := Walked(e0, S), View(e0, T), policy.createDirs;
      && NoConflict1(e0, S, T, cd)
      && (forall r :: !Conflict2At(src, dst, policy.auditsDirs, r))
      && (policy.countRaises ==> Changes1(src, dst, cd, src.Keys) == {} && Changes2(src, dst, dst.Keys) == {})
      && View(e, T) == Mirrored(src, dst, cd)
      && |applied1| == |Changes1(src, dst, cd, src.Keys)|
      && |applied2| == |Changes2(src, dst, dst.Keys)|
      && (forall c :: c in applied1 <==> c in Changes1(src, dst, cd, src.Keys))
      && (forall c :: c in applied2 <==> c in Changes2(src, dst, dst.Keys))
    requires policy.auditsDirs ==> forall c :: c in applied2 ==> !c.RemoveDir?
    ensures Synced(e0, e, S, T, policy, Ok, applied1 + applied2)
  {
    var src, dst, cd := Walked(e0, S), View(e0, T), policy.createDirs;
    assert Ending(src, dst, FileAbove(e0, T), policy, Ok);
    ChangesSplit(src, dst, cd);
    PhasesCounted(src, dst, cd, applied1, applied2);
    TopDownRemovesNothing(src, dst, cd, applied1);
  }

  lemma StoppedInPhase2(e0: Entries, e1: Entries, e: Entries, S: Path, T: Path, policy: Policy, outcome: Outcome,
                        applied1: seq<Change>, applied2: seq<Change>)
    requires !outcome.Ok?
    requires Outside(e0, e, T) && View(e, S) == View(e0, S)
    requires View(e, T) == ApplyAll(View(e0, T), applied1 + applied2)
    requires Phase1Result(e0, e1, S, T, policy.createDirs, policy.countRaises, true, false, applied1)
    requires Phase2Result(e0, e1, e, S, T, policy.auditsDirs, policy.countRaises,
                          false, outcome == Raised(UnboundLocalError), applied2)
    requires var src, dst, cd := Walked(e0, S), View(e0, T), policy.createDirs;
      var mid := Phase1(src, dst, cd);
      && Changes2(src, mid, mid.Keys - {[]}) == Changes2(src, dst, dst.Keys)
      && (forall r :: Conflict2At(src, mid, policy.auditsDirs, r) <==> Conflict2At(src, dst, policy.auditsDirs, r))
    ensures Synced(e0, e, S, T, policy, outcome, applied1 + applied2)
  {
    assert forall c :: c in applied1 + applied2 ==> c in applied1 || c in applied2;
    TopDownRemovesNothing(Walked(e0, S), View(e0, T), policy.createDirs, applied1);
  }

  /** The changes applied by the two walks, each counted once, are the pass's. */
  lemma PhasesCounted(src: Tree, dst: Tree, cd: bool, applied1: seq<Change>, applied2: seq<Change>)
    requires |applied1| == |Changes1(src, dst, cd, src.Keys)|
    requires |applied2| == |Changes2(src, dst, dst.Keys)|
    requires |Changes(src, dst, cd)| == |Changes1(src, dst, cd, src.Keys)| + |Changes2(src, dst, dst.Keys)|
    requires forall c :: c in Changes1(src, dst, cd, src.Keys) ==> c in applied1
    requires forall c :: c in Changes2(src, dst, dst.Keys) ==> c in applied2
    ensures |applied1 + applied2| == |Changes(src, dst, cd)|
    ensures forall c :: c in Changes(src, dst, cd) ==> c in applied1 + applied2
  {
  }

  /** A second pass over an unchanged source, right after a pass that
      finished, finishes too, applies no change and leaves the target as the
      first pass made it. */
  lemma SecondPassChangesNothing(e0: Entries, e1: Entries, e2: Entries, S: Path, T: Path, policy: Policy,
                                 outcome2: Outcome, applied1: seq<Change>, applied2: seq<Change>)
    requires Synced(e0, e1, S, T, policy, Ok, applied1)
    requires Synced(e1, e2, S, T, policy, outcome2, applied2)
    ensures outcome2 == Ok && applied2 == [] && View(e2, T) == View(e1, T)
  {
    var src, dst, cd := Walked(e0, S), View(e0, T), policy.createDirs;
    var t := View(e1, T);
    assert t == Mirrored(src, dst, cd);
    WalkedUnchanged(e0, e1, S);
    RootOntoFileConflicts(src, dst, cd, FileAbove(e0, T), policy.auditsDirs);
    SecondPassIsNoOp(src, dst, cd, FileAbove(e1, T), policy.auditsDirs);
    assert Changes(src, t, cd) == {} && !Conflict(src, t, cd, FileAbove(e1, T), policy.auditsDirs);
  }

  /** A target root that is a regular file, facing a source root directory
      with nothing in it: makedirs of `T/.` raises at once, so the pass ends
      in an os error with nothing applied and the target as it was. */
  lemma EmptySourceOntoFileRaises(e0: Entries, e: Entries, S: Path, T: Path, policy: Policy,
                                  outcome: Outcome, applied: seq<Change>)
    requires Wf(e0) && Synced(e0, e, S, T, policy, outcome, applied)
    requires Walked(e0, S) == map[[] := Dir] && T in e0 && e0[T].File? && policy.createDirs
    ensures outcome == Raised(OsError) && applied == [] && View(e, T) == View(e0, T)
  {
    var src, dst := Walked(e0, S), View(e0, T);
    assert T + [] == T;
    ViewWf(e0, T);
    RootOntoFileConflicts(src, dst, true, FileAbove(e0, T), policy.auditsDirs);
    EmptyOntoFileChangesNothing(src, dst);
    ConflictWithNothingToDo(src, dst, FileAbove(e0, T), policy, outcome, applied);
    assert ApplyAll(dst, []) == dst;
  }

  /** A pass that conflicts and has no change to make raises an os error
      having applied nothing. */
  lemma ConflictWithNothingToDo(src: Tree, dst: Tree, blocked: bool, policy: Policy, outcome: Outcome,
                                applied: seq<Change>)
    requires Ending(src, dst, blocked, policy, outcome) && Applied(src, dst, policy, outcome, applied)
    requires Conflict(src, dst, policy.createDirs, blocked, policy.auditsDirs)
    requires Changes(src, dst, policy.createDirs) == {}
    ensures outcome == Raised(OsError) && applied == []
  {
    SomeChangeApplied(applied, Changes(src, dst, policy.createDirs));
    assert !outcome.Ok?;
    assert outcome.error != UnboundLocalError;
  }

  lemma SomeChangeApplied(applied: seq<Change>, all: set<Change>)
    requires forall c :: c in applied ==> c in all
    ensures applied != [] ==> all != {}
  {
    if applied != [] {
      assert applied[0] in all;
    }
  }

  lemma EmptyOntoFileChangesNothing(src: Tree, dst: Tree)
    requires src == map[[] := Dir] && TreeWf(dst) && [] in dst && dst[[]].File?
    ensures Changes(src, dst, true) == {}
  {
    forall r | r in dst ensures r == [] {
      if r != [] {
        TreeAncestors(dst, r, []);
      }
    }
    assert Changes1(src, dst, true, src.Keys) == {};
    assert Changes2(src, dst, dst.Keys) == {};
  }

  /** A source whose view is unchanged is walked the same. */
  lemma WalkedUnchanged(e0: Entries, e1: Entries, S: Path)
    requires View(e1, S) == View(e0, S)
    ensures Walked(e1, S) == Walked(e0, S)
  {
    assert S + [] == S;
    var v := View(e0, S);
    assert S in e0 <==> [] in v;
    assert S in e1 <==> [] in v;
    if [] in v {
      assert e0[S] == v[[]] == e1[S];
    }
  }
}
