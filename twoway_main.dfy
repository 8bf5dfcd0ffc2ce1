/** TwoWay/main.py up to the run loop: check both paths, build the
    FolderSynchronizer, refuse a backup inside the source, then one
    sync_by_source. */
module TwoWayMain {
  import opened Paths
  import opened FileSystem
  import opened Mirror
  import opened WalkSteps
  import opened SyncEngine
  import opened Startup
  import opened TwoWay

  /** main: sys.exit(1) before the synchronizer exists when a path is not a
      directory; sys.exit(1) after building it, with no pass, when the backup
      is the source or lies beneath it; otherwise exactly one pass by source
      on a fresh synchronizer. */
  method Start(disk: Disk, cwd: Path, source: string, backup: string, timer: int)
    returns (verdict: Verdict, sync: FolderSynchronizer?, outcome: Option<Outcome>, applied: seq<Change>)
    requires disk.Valid() && Normal(cwd)
    requires Validate(disk.entries, cwd, source, backup) == Proceed ==>
      Disjoint(AbsPath(cwd, source), MirrorTarget(cwd, source, backup))
    modifies disk
    ensures disk.Valid()
    ensures verdict == Validate(old(disk.entries), cwd, source, backup)
    ensures verdict.Exit? <==> outcome.None?
    ensures sync == null <==> !DoesPathExist(old(disk.entries), cwd, source) || !DoesPathExist(old(disk.entries), cwd, backup)
    ensures sync != null ==> fresh(sync) && sync.source == source && sync.backup == backup && sync.timer == timer
    ensures verdict.Exit? ==> disk.entries == old(disk.entries) && applied == []
    ensures verdict.Exit? && sync != null ==> sync.counter == 0 && sync.audit == []
    ensures verdict == Proceed ==> sync != null && sync.counter == |applied|
    ensures verdict == Proceed ==>
      sync != null && sync.audit == AuditsOf(AbsPath(cwd, source), MirrorTarget(cwd, source, backup), applied)
    ensures verdict == Proceed ==>
      Synced(old(disk.entries), disk.entries, AbsPath(cwd, source), MirrorTarget(cwd, source, backup),
             PolicyOf(SourceSide, true), outcome.value, applied)
  {
    verdict := Validate(disk.entries, cwd, source, backup);
    if !DoesPathExist(disk.entries, cwd, source) || !DoesPathExist(disk.entries, cwd, backup) {
      return verdict, null, None, [];
    }
    sync := new FolderSynchronizer(source, backup, timer);
    assert verdict == Proceed <==> !IsSubdirectoryOfSource(cwd, sync.source, sync.backup);
    outcome, applied := Launch(disk, cwd, sync);
  }

  /** main once the synchronizer is built: refuse a contained backup, or
      run the first pass by source. */
  method Launch(disk: Disk, cwd: Path, sync: FolderSynchronizer) returns (outcome: Option<Outcome>, applied: seq<Change>)
    requires disk.Valid() && Normal(cwd)
    requires !IsSubdirectoryOfSource(cwd, sync.source, sync.backup) ==>
      Disjoint(AbsPath(cwd, sync.source), MirrorTarget(cwd, sync.source, sync.backup))
    modifies disk, sync`counter, sync`audit
    ensures disk.Valid()
    ensures outcome.None? <==> IsSubdirectoryOfSource(cwd, sync.source, sync.backup)
    ensures outcome.None? ==> disk.entries == old(disk.entries) && applied == [] && unchanged(sync)
    ensures outcome.Some? ==> sync.counter == old(sync.counter) + |applied|
    ensures outcome.Some? ==>
      sync.audit == old(sync.audit) + AuditsOf(AbsPath(cwd, sync.source), MirrorTarget(cwd, sync.source, sync.backup), applied)
    ensures outcome.Some? ==>
      Synced(old(disk.entries), disk.entries, AbsPath(cwd, sync.source), MirrorTarget(cwd, sync.source, sync.backup),
             PolicyOf(SourceSide, true), outcome.value, applied)
  {
    if IsSubdirectoryOfSource(cwd, sync.source, sync.backup) {
      return None, [];
    }
    var passOutcome;
    passOutcome, applied := sync.SyncBySource(disk, cwd);
    outcome := Some(passOutcome);
  }
}
