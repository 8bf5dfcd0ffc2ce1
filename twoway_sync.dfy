/** TwoWay/synchronizer.py: a FolderSynchronizer that mirrors the source into
    `<backup>/<basename(source)>_backup` (origin SOURCE) or mirrors
    `<source>_backup` back onto the source (origin BACKUP), counting every
    change and writing an audit record for every copy and removal. */
module TwoWay {
  import opened Paths
  import opened FileSystem
  import opened Mirror
  import opened WalkSteps
  import opened SyncEngine

  /** ORIGIN: which side is authoritative for a pass. */
  datatype Origin = SourceSide | BackupSide

  /** The pass for an origin: MD5 checksums, directories created only from
      the source side, a counter that counts; `auditsDirs` is whether a
      removed directory is audited by checksumming it, as written. */
  function PolicyOf(origin: Origin, auditsDirs: bool): Policy {
    Policy(Md5, origin == SourceSide, false, auditsDirs)
  }

  /** The target of sync_directories(source, backup, origin): the mirror
      directory from the source side, the absolute backup argument itself
      from the backup side. */
  function TargetOf(cwd: Path, source: string, backup: string, origin: Origin): (t: Path)
    requires Normal(cwd)
    ensures origin == SourceSide ==> Parent(t) == AbsPath(cwd, backup)
    ensures origin == BackupSide ==> t == AbsPath(cwd, backup)
  {
    if origin == SourceSide then MirrorTarget(cwd, source, backup) else AbsPath(cwd, backup)
  }

  // ---------------------------------------------------------------- audit trail

  /** log_metadata's change_type. */
  datatype ChangeKind = Update | Delete

  /** One entry of the audit trail: the path logged, its kind, and the MD5
      checksum of the file (none for a directory). */
  datatype AuditRecord = AuditRecord(path: Path, kind: ChangeKind, checksum: Option<FileDigest>)

  /** The records a change writes in a pass from `S` into `T`: none for a
      created directory; "UPDATE" with the source file for a copy; "DELETE"
      with the target file, before it goes, for a file removal; "UPDATE"
      without a checksum for a directory removal. */
  function RecordOf(S: Path, T: Path, c: Change): (recs: seq<AuditRecord>)
    ensures |recs| == if c.MakeDir? then 0 else 1
    ensures |recs| == 1 ==> recs[0].path == (if c.CopyFile? then S else T) + c.rel
    ensures |recs| == 1 ==> (recs[0].kind == Delete <==> c.RemoveFile?)
    ensures |recs| == 1 ==> (recs[0].checksum.None? <==> c.RemoveDir?)
  {
    match c
    case MakeDir(_) => []
    case CopyFile(r, content) => [AuditRecord(S + r, Update, Some(FileChecksum(Md5, content)))]
    case RemoveFile(r, content) => [AuditRecord(T + r, Delete, Some(FileChecksum(Md5, content)))]
    case RemoveDir(r) => [AuditRecord(T + r, Update, None)]
  }

  /** The number of directory creations among `applied`. */
  function MadeDirs(applied: seq<Change>): (n: nat)
    ensures n <= |applied|
  {
    if applied == [] then 0
    else MadeDirs(applied[..|applied| - 1]) + (if applied[|applied| - 1].MakeDir? then 1 else 0)
  }

  /** The records a pass appends, in the order it applied its changes. Every
      change but a directory creation writes exactly one, so the counter grows
      by the records written plus the directories created. */
  function AuditsOf(S: Path, T: Path, applied: seq<Change>): (records: seq<AuditRecord>)
    ensures |records| + MadeDirs(applied) == |applied|
  {
    if applied == [] then []
    else AuditsOf(S, T, applied[..|applied| - 1]) + RecordOf(S, T, applied[|applied| - 1])
  }

  lemma {:induction false} AuditsOfAppend(S: Path, T: Path, a: seq<Change>, b: seq<Change>)
    ensures AuditsOf(S, T, a + b) == AuditsOf(S, T, a) + AuditsOf(S, T, b)
    decreases |b|
  {
    if b == [] {
      assert a + b == a;
    } else {
      var n := |b| - 1;
      assert (a + b)[..|a + b| - 1] == a + b[..n];
      assert (a + b)[|a + b| - 1] == b[n];
      AuditsOfAppend(S, T, a, b[..n]);
      assert AuditsOf(S, T, a + b) == AuditsOf(S, T, a + b[..n]) + RecordOf(S, T, b[n]);
      assert AuditsOf(S, T, b) == AuditsOf(S, T, b[..n]) + RecordOf(S, T, b[n]);
    }
  }

  /** Every record of a pass was written for one of its applied changes. */
  lemma {:induction false} RecordFromChange(S: Path, T: Path, applied: seq<Change>, rec: AuditRecord)
    requires rec in AuditsOf(S, T, applied)
    ensures exists c :: c in applied && RecordOf(S, T, c) == [rec]
  {
    var n := |applied| - 1;
    var init, last := applied[..n], applied[n];
    assert applied == init + [last];
    if rec in AuditsOf(S, T, init) {
      RecordFromChange(S, T, init, rec);
      var c :| c in init && RecordOf(S, T, c) == [rec];
      assert c in applied;
    } else {
      assert rec in RecordOf(S, T, last);
    }
  }

  /** Every applied change's record is in the trail. */
  lemma {:induction false} ChangeHasRecord(S: Path, T: Path, applied: seq<Change>, c: Change)
    requires c in applied
    ensures forall rec :: rec in RecordOf(S, T, c) ==> rec in AuditsOf(S, T, applied)
  {
    var n := |applied| - 1;
    var init := applied[..n];
    assert applied == init + [applied[n]];
    if c != applied[n] {
      ChangeHasRecord(S, T, init, c);
    }
  }

  /** What a record says about a pass over `src` and `dst`: an "UPDATE" with a
      checksum is a copied source file and its checksum; a "DELETE" is a
      removed target file and the checksum of the content it had; an "UPDATE"
      without one is a removed target directory. */
  ghost predicate Describes(S: Path, T: Path, src: Tree, dst: Tree, rec: AuditRecord) {
    match (rec.kind, rec.checksum)
    case (Update, Some(d)) =>
      S <= rec.path && var r := rec.path[|S|..];
      Copies(src, dst, r) && d == FileChecksum(Md5, src[r].content)
    case (Delete, Some(d)) =>
      T <= rec.path && var r := rec.path[|T|..];
      Removes(src, dst, r) && dst[r].File? && d == FileChecksum(Md5, dst[r].content)
    case (Update, None) =>
      T <= rec.path && var r := rec.path[|T|..];
      Removes(src, dst, r) && dst[r].Dir?
    case (Delete, None) => false
  }

  /** The record a change of the pass writes describes it. */
  lemma RecordDescribes(S: Path, T: Path, src: Tree, dst: Tree, cd: bool, c: Change)
    requires c in Changes(src, dst, cd)
    ensures forall rec :: rec in RecordOf(S, T, c) ==> Describes(S, T, src, dst, rec)
  {
    assert (S + c.rel)[|S|..] == c.rel && (T + c.rel)[|T|..] == c.rel;
  }

  /** The records of a pass are exactly those of its copies and removals:
      each record describes a change of the pass, and when the pass finished
      each copy and each removal has its record. */
  lemma RecordsDescribeThePass(S: Path, T: Path, src: Tree, dst: Tree, policy: Policy, outcome: Outcome,
                               applied: seq<Change>)
    requires Applied(src, dst, policy, outcome, applied)
    ensures forall rec :: rec in AuditsOf(S, T, applied) ==> Describes(S, T, src, dst, rec)
    ensures outcome.Ok? ==> forall r :: Copies(src, dst, r) ==>
      AuditRecord(S + r, Update, Some(FileChecksum(Md5, src[r].content))) in AuditsOf(S, T, applied)
    ensures outcome.Ok? ==> forall r :: Removes(src, dst, r) && dst[r].File? ==>
      AuditRecord(T + r, Delete, Some(FileChecksum(Md5, dst[r].content))) in AuditsOf(S, T, applied)
    ensures outcome.Ok? ==> forall r :: Removes(src, dst, r) && dst[r].Dir? ==>
      AuditRecord(T + r, Update, None) in AuditsOf(S, T, applied)
  {
    RecordsDescribeChanges(S, T, src, dst, policy.createDirs, applied);
    if outcome.Ok? {
      ChangesHaveRecords(S, T, src, dst, policy.createDirs, applied);
    }
  }

  lemma RecordsDescribeChanges(S: Path, T: Path, src: Tree, dst: Tree, cd: bool, applied: seq<Change>)
    requires forall c :: c in applied ==> c in Changes(src, dst, cd)
    ensures forall rec :: rec in AuditsOf(S, T, applied) ==> Describes(S, T, src, dst, rec)
  {
    forall rec | rec in AuditsOf(S, T, applied) ensures Describes(S, T, src, dst, rec) {
      RecordFromChange(S, T, applied, rec);
      var c :| c in applied && RecordOf(S, T, c) == [rec];
      RecordDescribes(S, T, src, dst, cd, c);
    }
  }

  lemma ChangesHaveRecords(S: Path, T: Path, src: Tree, dst: Tree, cd: bool, applied: seq<Change>)
    requires forall c :: c in Changes(src, dst, cd) ==> c in applied
    ensures forall r :: Copies(src, dst, r) ==>
      AuditRecord(S + r, Update, Some(FileChecksum(Md5, src[r].content))) in AuditsOf(S, T, applied)
    ensures forall r :: Removes(src, dst, r) && dst[r].File? ==>
      AuditRecord(T + r, Delete, Some(FileChecksum(Md5, dst[r].content))) in AuditsOf(S, T, applied)
    ensures forall r :: Removes(src, dst, r) && dst[r].Dir? ==>
      AuditRecord(T + r, Update, None) in AuditsOf(S, T, applied)
  {
    forall r | Copies(src, dst, r)
      ensures AuditRecord(S + r, Update, Some(FileChecksum(Md5, src[r].content))) in AuditsOf(S, T, applied)
    {
      assert CopyFile(r, src[r].content) in Changes1(src, dst, cd, src.Keys);
      ChangeHasRecord(S, T, applied, CopyFile(r, src[r].content));
    }
    forall r | Removes(src, dst, r) && dst[r].File?
      ensures AuditRecord(T + r, Delete, Some(FileChecksum(Md5, dst[r].content))) in AuditsOf(S, T, applied)
    {
      assert RemoveFile(r, dst[r].content) in Changes2(src, dst, dst.Keys);
      ChangeHasRecord(S, T, applied, RemoveFile(r, dst[r].content));
    }
    forall r | Removes(src, dst, r) && dst[r].Dir?
      ensures AuditRecord(T + r, Update, None) in AuditsOf(S, T, applied)
    {
      assert RemoveDir(r) in Changes2(src, dst, dst.Keys);
      ChangeHasRecord(S, T, applied, RemoveDir(r));
    }
  }

  /** As written, no record ever lacks a checksum: a directory removal is
      never applied. */
  lemma AuditedRecordsHaveChecksums(S: Path, T: Path, src: Tree, dst: Tree, origin: Origin, outcome: Outcome,
                                    applied: seq<Change>)
    requires Applied(src, dst, PolicyOf(origin, true), outcome, applied)
    ensures forall rec :: rec in AuditsOf(S, T, applied) ==> rec.checksum.Some?
  {
    forall rec | rec in AuditsOf(S, T, applied) ensures rec.checksum.Some? {
      RecordFromChange(S, T, applied, rec);
    }
  }

  // ---------------------------------------------------------------- passes

  /** From the backup side no directory is ever created. */
  lemma BackupSideCreatesNoDirectory(S: Path, T: Path, src: Tree, dst: Tree, auditsDirs: bool, outcome: Outcome,
                                     applied: seq<Change>)
    requires Applied(src, dst, PolicyOf(BackupSide, auditsDirs), outcome, applied)
    ensures forall c :: c in applied ==> !c.MakeDir?
    ensures MadeDirs(applied) == 0
    ensures |AuditsOf(S, T, applied)| == |applied|
  {
    NothingMade(src, dst, applied);
    NoMadeDirs(applied);
    NoDirRecordsMissing(S, T, applied);
  }

  /** Without directory creations, every change writes one record. */
  lemma NoDirRecordsMissing(S: Path, T: Path, applied: seq<Change>)
    requires MadeDirs(applied) == 0
    ensures |AuditsOf(S, T, applied)| == |applied|
  {
  }

  lemma NothingMade(src: Tree, dst: Tree, applied: seq<Change>)
    requires forall c :: c in applied ==> c in Changes(src, dst, false)
    ensures forall c :: c in applied ==> !c.MakeDir?
  {
    forall c | c in applied ensures !c.MakeDir? {
      assert c in Changes1(src, dst, false, src.Keys) || c in Changes2(src, dst, dst.Keys);
    }
  }

  lemma {:induction false} NoMadeDirs(applied: seq<Change>)
    requires forall c :: c in applied ==> !c.MakeDir?
    ensures MadeDirs(applied) == 0
  {
    if applied != [] {
      NoMadeDirs(applied[..|applied| - 1]);
    }
  }

  /** A second pass in the same direction over unchanged trees writes no
      record and counts nothing. */
  lemma SecondPassWritesNoRecord(e0: Entries, e1: Entries, e2: Entries, S: Path, T: Path, policy: Policy,
                                 outcome2: Outcome, applied1: seq<Change>, applied2: seq<Change>)
    requires Synced(e0, e1, S, T, policy, Ok, applied1)
    requires Synced(e1, e2, S, T, policy, outcome2, applied2)
    ensures outcome2 == Ok && |applied2| == 0 && AuditsOf(S, T, applied2) == []
    ensures View(e2, T) == View(e1, T)
  {
    SecondPassChangesNothing(e0, e1, e2, S, T, policy, outcome2, applied1, applied2);
  }

  /** `<source>_backup` is the sibling of the source, so the backup-side pass
      reads and writes disjoint trees, when the raw source ends in a name. */
  lemma SiblingIsDisjoint(cwd: Path, source: string)
    requires Normal(cwd) && PlainLast(source)
    ensures Disjoint(AbsPath(cwd, source + "_backup"), AbsPath(cwd, source))
  {
    SiblingBackup(cwd, source);
    var S := AbsPath(cwd, source);
    var B := AbsPath(cwd, source + "_backup");
    assert S == Parent(S) + [Basename(S)];
    assert |B| == |S| && B[|S| - 1] != S[|S| - 1];
  }

  /** A source given with a trailing slash names `<source>/_backup`, a child
      of the source: the backup-side pass would then mirror part of the
      target into the target itself. */
  lemma TrailingSlashSiblingIsNested(cwd: Path, source: string)
    requires Normal(cwd) && |source| > 0 && source[|source| - 1] == '/'
    ensures !Disjoint(AbsPath(cwd, source + "_backup"), AbsPath(cwd, source))
  {
    TrailingSlashBackupIsChild(cwd, source);
  }

  /** The direction run chooses: the source when it was modified strictly
      later than `<source>_backup`, the backup otherwise (ties included). */
  function Direction(sourceMtime: int, backupMtime: int): (o: Origin)
    ensures o == SourceSide <==> sourceMtime > backupMtime
  {
    if sourceMtime > backupMtime then SourceSide else BackupSide
  }

  /** Exactly one side wins: with distinct times, swapping them swaps the
      winner, and a tie goes to the backup side. */
  lemma DirectionIsAntisymmetric(a: int, b: int)
    ensures Direction(a, b) == SourceSide ==> Direction(b, a) == BackupSide
    ensures Direction(a, a) == BackupSide
    ensures a != b ==> (Direction(a, b) == SourceSide <==> Direction(b, a) == BackupSide)
  {
  }

  // ---------------------------------------------------------------- as written

  /** As written, a pass that needs to remove a directory never finishes:
      the audit checksums the directory and raises before rmtree, so the
      directory is still in the target when the pass stops. */
  lemma DirectoryRemovalAlwaysRaises(e0: Entries, e: Entries, S: Path, T: Path, origin: Origin, outcome: Outcome,
                                     applied: seq<Change>, r: Path)
    requires Synced(e0, e, S, T, PolicyOf(origin, true), outcome, applied)
    requires Removes(Walked(e0, S), View(e0, T), r) && View(e0, T)[r].Dir?
    ensures outcome == Raised(OsError)
    ensures forall c :: c in applied ==> !c.RemoveDir?
    ensures r in View(e, T) && View(e, T)[r] == Dir
  {
    var src, dst, p := Walked(e0, S), View(e0, T), PolicyOf(origin, true);
    assert Ending(src, dst, FileAbove(e0, T), p, outcome) && Applied(src, dst, p, outcome, applied);
    assert View(e, T) == ApplyAll(dst, applied);
    AuditRaises(src, dst, FileAbove(e0, T), p, outcome, applied, r);
    DirectoryKept(dst, applied, r);
  }

  lemma AuditRaises(src: Tree, dst: Tree, blocked: bool, p: Policy, outcome: Outcome, applied: seq<Change>, r: Path)
    requires p.auditsDirs && !p.countRaises
    requires Ending(src, dst, blocked, p, outcome) && Applied(src, dst, p, outcome, applied)
    requires Removes(src, dst, r) && dst[r].Dir?
    ensures outcome == Raised(OsError)
    ensures forall c :: c in applied ==> c.rel != r && !c.RemoveDir?
  {
    assert Conflict2At(src, dst, true, r);
    assert outcome.Raised? && !outcome.error.UnboundLocalError?;
    forall c | c in applied ensures c.rel != r && !c.RemoveDir? {
      assert c in Changes(src, dst, p.createDirs);
    }
  }

  /** Changes elsewhere, none of them an rmtree, leave the directory `r` in place. */
  lemma {:induction false} DirectoryKept(t: Tree, cs: seq<Change>, r: Path)
    requires r in t && t[r] == Dir
    requires forall c :: c in cs ==> c.rel != r && !c.RemoveDir?
    ensures r in ApplyAll(t, cs) && ApplyAll(t, cs)[r] == Dir
    decreases |cs|
  {
    if cs != [] {
      var n := |cs| - 1;
      assert forall c :: c in cs[..n] ==> c in cs;
      DirectoryKept(t, cs[..n], r);
      assert cs[n] in cs;
    }
  }

  /** A source holding only its root; the target has one extra directory `d`. */
  function EmptySource(): Tree {
    map[[] := Dir]
  }

  function TargetWithDir(): Tree {
    map[[] := Dir, ["d"] := Dir]
  }

  lemma TargetWithDirChanges()
    ensures !Conflict(EmptySource(), TargetWithDir(), true, false, false)
    ensures Conflict(EmptySource(), TargetWithDir(), true, false, true)
    ensures Changes(EmptySource(), TargetWithDir(), true) == {RemoveDir(["d"])}
  {
    var src, dst := EmptySource(), TargetWithDir();
    assert Conflict2At(src, dst, true, ["d"]);
    assert RemoveDir(["d"]) in Changes2(src, dst, dst.Keys);
    forall c | c in Changes(src, dst, true) ensures c == RemoveDir(["d"]) {
      assert c.rel in dst && c.rel != [];
    }
  }

  /** On that input the pass as written raises and leaves the target as it
      was, `d` included; the corrected pass removes `d`, audits it once and
      finishes with the target mirroring the empty source. */
  lemma TargetWithDirAsWrittenRaises(e0: Entries, S: Path, T: Path, e: Entries, outcome: Outcome, applied: seq<Change>,
                                     e': Entries, outcome': Outcome, applied': seq<Change>)
    requires Walked(e0, S) == EmptySource() && View(e0, T) == TargetWithDir() && !FileAbove(e0, T)
    requires Synced(e0, e, S, T, PolicyOf(SourceSide, true), outcome, applied)
    requires Synced(e0, e', S, T, PolicyOf(SourceSide, false), outcome', applied')
    ensures outcome == Raised(OsError) && applied == [] && View(e, T) == TargetWithDir()
    ensures outcome' == Ok && applied' == [RemoveDir(["d"])] && View(e', T) == EmptySource()
    ensures AuditsOf(S, T, applied') == [AuditRecord(T + ["d"], Update, None)]
  {
    TargetWithDirChanges();
    TargetWithDirStops(e0, S, T, e, outcome, applied);
    var src, dst, p := EmptySource(), TargetWithDir(), PolicyOf(SourceSide, false);
    assert Ending(src, dst, false, p, outcome') && Applied(src, dst, p, outcome', applied');
    assert outcome'.Ok? ==> View(e', T) == Mirrored(src, dst, true);
    TargetWithDirFinishes(View(e', T), outcome', applied');
    OneRemovalAudited(S, T);
  }

  lemma TargetWithDirStops(e0: Entries, S: Path, T: Path, e: Entries, outcome: Outcome, applied: seq<Change>)
    requires Walked(e0, S) == EmptySource() && View(e0, T) == TargetWithDir()
    requires Changes(EmptySource(), TargetWithDir(), true) == {RemoveDir(["d"])}
    requires Synced(e0, e, S, T, PolicyOf(SourceSide, true), outcome, applied)
    ensures outcome == Raised(OsError) && applied == [] && View(e, T) == TargetWithDir()
  {
    var src, dst := EmptySource(), TargetWithDir();
    DirectoryRemovalAlwaysRaises(e0, e, S, T, SourceSide, outcome, applied, ["d"]);
    assert Applied(src, dst, PolicyOf(SourceSide, true), outcome, applied);
    SomeChangeApplied(applied, Changes(src, dst, true) - {RemoveDir(["d"])});
    assert ApplyAll(dst, []) == dst;
  }

  lemma TargetWithDirFinishes(t: Tree, outcome': Outcome, applied': seq<Change>)
    requires !Conflict(EmptySource(), TargetWithDir(), true, false, false)
    requires Changes(EmptySource(), TargetWithDir(), true) == {RemoveDir(["d"])}
    requires var src, dst, p := EmptySource(), TargetWithDir(), PolicyOf(SourceSide, false);
      && Ending(src, dst, false, p, outcome') && Applied(src, dst, p, outcome', applied')
      && (outcome'.Ok? ==> t == Mirrored(src, dst, true))
    ensures outcome' == Ok && applied' == [RemoveDir(["d"])] && t == EmptySource()
  {
    var src, dst := EmptySource(), TargetWithDir();
    assert outcome' == Ok;
    assert |{RemoveDir(["d"])}| == 1;
    assert applied'[0] in Changes(src, dst, true);
    assert applied' == [applied'[0]];
    EmptySourceMirrored();
  }

  lemma EmptySourceMirrored()
    ensures Mirrored(EmptySource(), TargetWithDir(), true) == EmptySource()
  {
    var m := Mirrored(EmptySource(), TargetWithDir(), true);
    assert Phase1(EmptySource(), TargetWithDir(), true) == TargetWithDir();
    assert m.Keys == EmptySource().Keys;
  }

  lemma OneRemovalAudited(S: Path, T: Path)
    ensures AuditsOf(S, T, [RemoveDir(["d"])]) == [AuditRecord(T + ["d"], Update, None)]
  {
    assert [RemoveDir(["d"])][..0] == [];
  }

  // ---------------------------------------------------------------- the synchronizer

  class FolderSynchronizer {
    var source: string
    var backup: string
    var timer: int
    var counter: nat
    /** updates.json: the records log_metadata appended. */
    var audit: seq<AuditRecord>

    constructor (source: string, backup: string, timer: int)
      ensures this.source == source && this.backup == backup && this.timer == timer
      ensures counter == 0 && audit == []
    {
      this.source := source;
      this.backup := backup;
      this.timer := timer;
      counter := 0;
      audit := [];
    }

    /** sync_directories(source, backup, origin) as written: a directory
        removal is audited by checksumming the directory, which raises. */
    method SyncDirectoriesAsWritten(disk: Disk, cwd: Path, source: string, backup: string, origin: Origin)
      returns (outcome: Outcome, target: Path, applied: seq<Change>)
      requires disk.Valid() && Normal(cwd)
      requires Disjoint(AbsPath(cwd, source), TargetOf(cwd, source, backup, origin))
      modifies this`counter, this`audit, disk
      ensures disk.Valid() && target == TargetOf(cwd, source, backup, origin)
      ensures counter == old(counter) + |applied|
      ensures audit == old(audit) + AuditsOf(AbsPath(cwd, source), target, applied)
      ensures Synced(old(disk.entries), disk.entries, AbsPath(cwd, source), target, PolicyOf(origin, true), outcome, applied)
    {
      var S := AbsPath(cwd, source);
      target := TargetOf(cwd, source, backup, origin);
      outcome, applied := SyncEngine.SyncDirectories(disk, S, target, PolicyOf(origin, true));
      counter := counter + |applied|;
      audit := audit + AuditsOf(S, target, applied);
    }

    /** sync_directories(source, backup, origin) with a removed directory
        audited as "UPDATE" without a checksum, then removed. */
    method SyncDirectories(disk: Disk, cwd: Path, source: string, backup: string, origin: Origin)
      returns (outcome: Outcome, target: Path, applied: seq<Change>)
      requires disk.Valid() && Normal(cwd)
      requires Disjoint(AbsPath(cwd, source), TargetOf(cwd, source, backup, origin))
      modifies this`counter, this`audit, disk
      ensures disk.Valid() && target == TargetOf(cwd, source, backup, origin)
      ensures counter == old(counter) + |applied|
      ensures audit == old(audit) + AuditsOf(AbsPath(cwd, source), target, applied)
      ensures Synced(old(disk.entries), disk.entries, AbsPath(cwd, source), target, PolicyOf(origin, false), outcome, applied)
    {
      var S := AbsPath(cwd, source);
      target := TargetOf(cwd, source, backup, origin);
      outcome, applied := SyncEngine.SyncDirectories(disk, S, target, PolicyOf(origin, false));
      counter := counter + |applied|;
      audit := audit + AuditsOf(S, target, applied);
    }

    /** sync_by_source: the source into `<backup>/<basename(source)>_backup`. */
    method SyncBySource(disk: Disk, cwd: Path) returns (outcome: Outcome, applied: seq<Change>)
      requires disk.Valid() && Normal(cwd)
      requires Disjoint(AbsPath(cwd, source), MirrorTarget(cwd, source, backup))
      modifies this`counter, this`audit, disk
      ensures disk.Valid()
      ensures counter == old(counter) + |applied|
      ensures audit == old(audit) + AuditsOf(AbsPath(cwd, source), MirrorTarget(cwd, source, backup), applied)
      ensures Synced(old(disk.entries), disk.entries, AbsPath(cwd, source), MirrorTarget(cwd, source, backup),
                     PolicyOf(SourceSide, true), outcome, applied)
    {
      var target;
      outcome, target, applied := SyncDirectoriesAsWritten(disk, cwd, source, backup, SourceSide);
    }

    /** sync_by_backup: `<source>_backup` onto the source itself. */
    method SyncByBackup(disk: Disk, cwd: Path) returns (outcome: Outcome, applied: seq<Change>)
      requires disk.Valid() && Normal(cwd)
      requires Disjoint(AbsPath(cwd, source + "_backup"), AbsPath(cwd, source))
      modifies this`counter, this`audit, disk
      ensures disk.Valid()
      ensures counter == old(counter) + |applied|
      ensures audit == old(audit) + AuditsOf(AbsPath(cwd, source + "_backup"), AbsPath(cwd, source), applied)
      ensures Synced(old(disk.entries), disk.entries, AbsPath(cwd, source + "_backup"), AbsPath(cwd, source),
                     PolicyOf(BackupSide, true), outcome, applied)
    {
      var target;
      outcome, target, applied := SyncDirectoriesAsWritten(disk, cwd, source + "_backup", source, BackupSide);
    }

    /** One iteration of run: getmtime on the source and on
        `<source>_backup` (raising when either is not found, looked up
        component by component as os.stat does), then exactly one
        pass, from the side modified strictly later, ties to the backup. */
    method RunStep(disk: Disk, cwd: Path, sourceMtime: int, backupMtime: int)
      returns (origin: Option<Origin>, outcome: Outcome, applied: seq<Change>)
      requires disk.Valid() && Normal(cwd)
      requires Disjoint(AbsPath(cwd, source), MirrorTarget(cwd, source, backup))
      requires Disjoint(AbsPath(cwd, source + "_backup"), AbsPath(cwd, source))
      modifies this`counter, this`audit, disk
      ensures disk.Valid()
      ensures counter == old(counter) + |applied|
      ensures origin.None? <==>
        !PathExists(old(disk.entries), cwd, source) || !PathExists(old(disk.entries), cwd, source + "_backup")
      ensures origin.None? ==> outcome == Raised(OsError) && applied == [] && disk.entries == old(disk.entries)
      ensures origin.None? ==> audit == old(audit)
      ensures origin.Some? ==> origin.value == Direction(sourceMtime, backupMtime)
      ensures origin == Some(SourceSide) ==>
        audit == old(audit) + AuditsOf(AbsPath(cwd, source), MirrorTarget(cwd, source, backup), applied)
      ensures origin == Some(BackupSide) ==>
        audit == old(audit) + AuditsOf(AbsPath(cwd, source + "_backup"), AbsPath(cwd, source), applied)
      ensures origin == Some(SourceSide) ==>
        Synced(old(disk.entries), disk.entries, AbsPath(cwd, source), MirrorTarget(cwd, source, backup),
               PolicyOf(SourceSide, true), outcome, applied)
      ensures origin == Some(BackupSide) ==>
        Synced(old(disk.entries), disk.entries, AbsPath(cwd, source + "_backup"), AbsPath(cwd, source),
               PolicyOf(BackupSide, true), outcome, applied)
    {
      if !PathExists(disk.entries, cwd, source) || !PathExists(disk.entries, cwd, source + "_backup") {
        return None, Raised(OsError), [];
      }
      origin := Some(Direction(sourceMtime, backupMtime));
      if origin == Some(SourceSide) {
        outcome, applied := SyncBySource(disk, cwd);
      } else {
        outcome, applied := SyncByBackup(disk, cwd);
      }
    }
  }
}
