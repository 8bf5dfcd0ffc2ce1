/** OneWay/main.py: the one-way mirror with an optional two-generation
    versioned backup. The versions directory holds at most two slots, `_0`
    (the previous generation) and `_1` (the current one). */
module OneWay {
  import opened Paths
  import opened FileSystem
  import opened Mirror
  import opened WalkSteps
  import opened SyncEngine
  import opened Startup

  /** OneWay's pass: SHA-256 checksums, missing directories are created, the
      global counter counts, nothing is audited. */
  const Pass := Policy(Sha256, true, false, false)

  // ---------------------------------------------------------------- directory_checksum

  /** A directory digest: the (relative path, file digest) pairs fed to the
      hasher. Like FileDigest it keeps its input, so it is collision-free. */
  datatype DirDigest = DirDigest(files: map<Path, FileDigest>)

  /** directory_checksum of the tree os.walk enumerates: every file, keyed by
      its path relative to the directory; directories contribute nothing. */
  function DirectoryChecksum(t: Tree): (d: DirDigest)
    ensures forall r :: r in d.files <==> r in t && t[r].File?
  {
    DirDigest(map r | r in t && t[r].File? :: FileChecksum(Sha256, t[r].content))
  }

  /** The files of a tree with their contents. */
  ghost function FilesOf(t: Tree): map<Path, Bytes> {
    map r | r in t && t[r].File? :: t[r].content
  }

  /** Two trees have the same directory checksum exactly when they hold the
      same files, at the same paths, with the same contents. */
  lemma ChecksumsEqualIffSameFiles(t: Tree, u: Tree)
    ensures DirectoryChecksum(t) == DirectoryChecksum(u) <==> FilesOf(t) == FilesOf(u)
  {
    var a, b := DirectoryChecksum(t).files, DirectoryChecksum(u).files;
    if FilesOf(t) == FilesOf(u) {
      assert forall r :: r in a <==> r in FilesOf(t);
      assert forall r :: r in b <==> r in FilesOf(u);
      assert forall r :: r in a ==> a[r] == FileDigest(Sha256, FilesOf(t)[r]);
      assert forall r :: r in b ==> b[r] == FileDigest(Sha256, FilesOf(u)[r]);
      assert a == b;
    }
  }

  /** An empty directory added anywhere leaves the checksum as it was. */
  lemma EmptyDirectoryIsInvisible(t: Tree, r: Path)
    requires r !in t
    ensures DirectoryChecksum(t[r := Dir]) == DirectoryChecksum(t)
  {
    ChecksumsEqualIffSameFiles(t[r := Dir], t);
    assert FilesOf(t[r := Dir]) == FilesOf(t);
  }

  /** A file whose content changes changes the checksum. */
  lemma ChangedFileIsSeen(t: Tree, r: Path, c: Bytes)
    requires r in t && t[r].File? && t[r].content != c
    ensures DirectoryChecksum(t[r := File(c)]) != DirectoryChecksum(t)
  {
    ChecksumsEqualIffSameFiles(t[r := File(c)], t);
    assert FilesOf(t[r := File(c)])[r] == c;
  }

  /** directory_checksum(p) if os.path.exists(p) else None. */
  function SlotChecksum(e: Entries, p: Path): (s: Option<DirDigest>)
    ensures s.None? <==> p !in e
    ensures p in e && e[p].File? ==> s == Some(DirDigest(map[]))
  {
    if p in e then Some(DirectoryChecksum(Walked(e, p))) else None
  }

  // ---------------------------------------------------------------- manage_versioned_backups

  function Previous(D: Path): Path { D + ["_0"] }

  function Current(D: Path): Path { D + ["_1"] }

  /** Nothing changes outside the two slots of the versions directory `D`. */
  ghost predicate SlotsOnly(e: Entries, e': Entries, D: Path) {
    forall q :: !(Previous(D) <= q) && !(Current(D) <= q) ==> (q in e' <==> q in e) && (q in e ==> e'[q] == e[q])
  }

  /** The rotation, once `_0` exists and `_1` differs from the incoming tree:
      it raises (rmtree on a regular file) when `_1` exists and `_0` is not a
      directory; otherwise `_0` now holds what `_1` held (or stays as it was
      when there was no `_1`), `_1` is an empty directory, and nothing else
      changes. */
  ghost predicate Rotated(e: Entries, e': Entries, D: Path, raised: bool) {
    var O, C := Previous(D), Current(D);
    && O in e
    && (raised <==> C in e && e[O].File?)
    && (raised ==> e' == e)
    && (!raised ==>
          && SlotsOnly(e, e', D)
          && View(e', C) == map[[] := Dir]
          && View(e', O) == (if C in e then View(e, C) else View(e, O)))
  }

  /** What manage_versioned_backups does to the disk and which slot it returns.
      Bootstrap: without `_0`, it makes `_0` (and any missing ancestor) and
      returns it. Skip: when `_1` and the incoming tree have the same checksum
      (or both are missing), it returns `_1` and changes nothing. Otherwise it
      rotates and returns `_1`. */
  ghost predicate Versioned(e: Entries, e': Entries, D: Path, incoming: Path, raised: bool, slot: Path) {
    if Previous(D) !in e then
      && slot == Previous(D)
      && (raised <==> FileAbove(e, Previous(D)))
      && e' == if raised then e else WithDirs(e, Previous(D))
    else if SlotChecksum(e, Current(D)) == SlotChecksum(e, incoming) then
      slot == Current(D) && !raised && e' == e
    else
      slot == Current(D) && Rotated(e, e', D, raised)
  }

  /** Two disks that agree at and below `p` show the same tree there. */
  lemma ViewAgree(e: Entries, e': Entries, p: Path)
    requires forall q :: p <= q ==> (q in e <==> q in e') && (q in e ==> e[q] == e'[q])
    ensures View(e, p) == View(e', p)
  {
    assert forall r :: p <= p + r;
  }

  /** An entry with nothing below it shows as a one-entry tree. */
  lemma ViewOfLeaf(e: Entries, p: Path)
    requires p in e
    requires forall q :: q in e && p <= q ==> q == p
    ensures View(e, p) == map[[] := e[p]]
  {
    var v := View(e, p);
    assert p + [] == p;
    forall r | r in v ensures r == [] {
      assert p <= p + r;
    }
  }

  /** A tree placed where nothing was shows as itself. */
  lemma ViewPlaced(base: Entries, t: Tree, dst: Path)
    requires forall q :: q in base ==> !(dst <= q)
    ensures View(base + Placed(t, dst), dst) == t
  {
    var v := View(base + Placed(t, dst), dst);
    forall r ensures r in v <==> r in t {
      assert (dst + r)[|dst|..] == r;
      assert dst <= dst + r;
    }
    forall r | r in t ensures v[r] == t[r] {
      assert dst <= dst + r;
    }
  }

  lemma SlotFacts(e: Entries, D: Path)
    requires Wf(e) && Previous(D) in e
    ensures D in e && e[D].Dir?
    ensures Parent(Current(D)) == D && Current(D) != []
    ensures !(Previous(D) <= Current(D)) && !(Current(D) <= Previous(D))
  {
    assert Previous(D)[|D|] == "_0" && Current(D)[|D|] == "_1";
    AncestorsExist(e, Previous(D), D);
    assert Current(D)[..|D|] == D;
  }

  /** shutil.move of `_1` onto the missing `_0`, then os.makedirs of `_1`:
      `_0` shows what `_1` showed and `_1` is a fresh empty directory. */
  lemma MoveAndRecreate(e: Entries, e1: Entries, e2: Entries, D: Path)
    requires Wf(e1) && D in e1 && e1[D].Dir? && Previous(D) !in e1 && Current(D) in e1
    requires Current(D) != [] && Parent(Current(D)) == D
    requires !(Previous(D) <= Current(D)) && !(Current(D) <= Previous(D))
    requires SlotsOnly(e, e1, D) && View(e1, Current(D)) == View(e, Current(D))
    requires Wf(e2) && Current(D) !in e2 && SlotsOnly(e1, e2, D)
    requires View(e2, Previous(D)) == View(e1, Current(D))
    ensures !FileAbove(e2, Current(D))
    ensures SlotsOnly(e, WithDirs(e2, Current(D)), D)
    ensures View(WithDirs(e2, Current(D)), Current(D)) == map[[] := Dir]
    ensures View(WithDirs(e2, Current(D)), Previous(D)) == View(e, Current(D))
  {
    var O, C := Previous(D), Current(D);
    assert D in e2 && e2[D].Dir? by {
      assert !(O <= D) && !(C <= D);
    }
    WithDirsUnderDir(e2, C);
    var e3 := WithDirs(e2, C);
    NothingBelow(e2, C);
    ViewOfLeaf(e3, C);
    ViewAgree(e2, e3, O);
  }

  /** manage_versioned_backups(directory, incoming), `D` being the absolute
      versions directory and `incoming` the absolute source. It returns the
      slot the pass writes into. */
  method ManageVersionedBackups(disk: Disk, D: Path, incoming: Path) returns (raised: bool, slot: Path)
    requires disk.Valid()
    modifies disk
    ensures disk.Valid()
    ensures Versioned(old(disk.entries), disk.entries, D, incoming, raised, slot)
  {
    var O, C := Previous(D), Current(D);
    if O !in disk.entries {
      var ok := disk.MakeDirs(O);
      return !ok, O;
    }
    var currentChecksum := SlotChecksum(disk.entries, C);
    var incomingChecksum := SlotChecksum(disk.entries, incoming);
    if currentChecksum == incomingChecksum {
      return false, C;
    }
    raised := Rotate(disk, D);
    slot := C;
  }

  /** The rotation: discard `_0`, move `_1` to `_0`, recreate `_1`. */
  method Rotate(disk: Disk, D: Path) returns (raised: bool)
    requires disk.Valid() && Previous(D) in disk.entries
    modifies disk
    ensures disk.Valid()
    ensures Rotated(old(disk.entries), disk.entries, D, raised)
  {
    var O, C := Previous(D), Current(D);
    ghost var e := disk.entries;
    SlotFacts(e, D);
    if C in disk.entries {
      if disk.entries[O].File? {
        // shutil.rmtree(original) on a regular file
        return true;
      }
      MoveCurrent(disk, D);
    } else {
      NothingBelow(e, C);
      WithDirsUnderDir(e, C);
      ViewOfLeaf(WithDirs(e, C), C);
      ViewAgree(e, WithDirs(e, C), O);
      var ok := disk.MakeDirs(C);
    }
    raised := false;
  }

  /** shutil.rmtree(original); shutil.move(current, original); os.makedirs(current). */
  method MoveCurrent(disk: Disk, D: Path)
    requires disk.Valid() && Previous(D) in disk.entries && disk.entries[Previous(D)].Dir?
    requires Current(D) in disk.entries
    modifies disk
    ensures disk.Valid()
    ensures SlotsOnly(old(disk.entries), disk.entries, D)
    ensures View(disk.entries, Current(D)) == map[[] := Dir]
    ensures View(disk.entries, Previous(D)) == View(old(disk.entries), Current(D))
  {
    var O, C := Previous(D), Current(D);
    ghost var e := disk.entries;
    SlotFacts(e, D);
    disk.RmTree(O);
    ghost var e1 := disk.entries;
    ViewAgree(e, e1, C);
    MoveSlot(disk, D);
    MoveAndRecreate(e, e1, disk.entries, D);
    var ok := disk.MakeDirs(C);
  }

  /** shutil.move(current, original) once `_0` is gone: a directory is moved
      with its contents, a regular file is renamed. */
  method MoveSlot(disk: Disk, D: Path)
    requires disk.Valid() && Previous(D) !in disk.entries && Current(D) in disk.entries
    requires Current(D) != [] && Parent(Current(D)) == D && D in disk.entries && disk.entries[D].Dir?
    requires !(Previous(D) <= Current(D)) && !(Current(D) <= Previous(D))
    modifies disk
    ensures disk.Valid() && Current(D) !in disk.entries
    ensures SlotsOnly(old(disk.entries), disk.entries, D)
    ensures View(disk.entries, Previous(D)) == View(old(disk.entries), Current(D))
  {
    var O, C := Previous(D), Current(D);
    ghost var e1 := disk.entries;
    assert Parent(O) == D;
    if disk.entries[C].Dir? {
      disk.Move(C, O);
      NothingBelow(e1, O);
      ViewPlaced(Without(e1, C), View(e1, C), O);
    } else {
      var copied := disk.Copy2(C, O);
      disk.Remove(C);
      NothingBelow(e1, C);
      NothingBelow(e1, O);
      ViewOfLeaf(e1, C);
      ViewOfLeaf(disk.entries, O);
    }
  }

  /** Whatever manage_versioned_backups does, every entry it creates below the
      versions directory lies at or below one of the two slots. */
  lemma OnlySlotsCreated(e: Entries, e': Entries, D: Path, incoming: Path, raised: bool, slot: Path)
    requires Versioned(e, e', D, incoming, raised, slot)
    ensures slot == Previous(D) || slot == Current(D)
    ensures forall q :: q in e' && q !in e && D < q ==> Previous(D) <= q || Current(D) <= q
  {
    if Previous(D) !in e && !raised {
      forall q | q in e' && q !in e && D < q ensures Previous(D) <= q {
        assert q <= Previous(D);
        assert |q| == |D| + 1;
        assert q == Previous(D);
      }
    }
  }

  /** A pass into `_1` that finished leaves `_1` with the checksum of the
      source, so the next manage_versioned_backups skips the rotation. (Unless
      a source directory faced a target file, which the pass leaves.) */
  lemma SyncedSlotMatchesSource(e1: Entries, e2: Entries, S: Path, T: Path)
    requires Wf(e2) && S in e1 && e1[S].Dir?
    requires View(e2, S) == View(e1, S) && View(e2, T) == Mirrored(Walked(e1, S), View(e1, T), true)
    requires var src, dst := Walked(e1, S), View(e1, T);
      forall r :: r in src && src[r].Dir? && r in dst ==> dst[r].Dir?
    ensures SlotChecksum(e2, T) == SlotChecksum(e2, S)
  {
    var src, dst := Walked(e1, S), View(e1, T);
    var t := Mirrored(src, dst, true);
    WalkedUnchanged(e1, e2, S);
    assert S + [] == S && T + [] == T;
    assert [] in src;
    MirroredFiles(src, dst);
    assert Walked(e2, T) == t;
    ChecksumsEqualIffSameFiles(t, src);
  }

  /** The mirrored target of a source directory is a directory holding the
      source's files exactly. */
  lemma MirroredFiles(src: Tree, dst: Tree)
    requires [] in src && src[[]].Dir?
    requires forall r :: r in src && src[r].Dir? && r in dst ==> dst[r].Dir?
    ensures var t := Mirrored(src, dst, true);
      [] in t && t[[]].Dir? && FilesOf(t) == FilesOf(src)
  {
    var t := Mirrored(src, dst, true);
    MirroredEntries(src, dst, true);
    forall r | r in t && t[r].File? ensures r in src && src[r].File? {
      if r == [] {
        assert false;
      }
    }
  }

  /** The program's state: the global operation counter. */
  class Program {
    var counter: nat

    constructor ()
      ensures counter == 0
    {
      counter := 0;
    }

    /** sync_directories(source, backup, versioned). The target is the mirror
        directory `<backup>/<basename(source)>_backup`, or the slot
        manage_versioned_backups returns; `rotated` is the disk once it has.
        count_operations adds one per applied change. */
    method SyncDirectories(disk: Disk, cwd: Path, source: string, backup: string, versioned: bool)
      returns (outcome: Outcome, target: Path, applied: seq<Change>, ghost rotated: Entries, ghost raised: bool)
      requires disk.Valid() && Normal(cwd)
      requires versioned ==> var S, D := AbsPath(cwd, source), AbsPath(cwd, backup);
        Disjoint(S, Previous(D)) && Disjoint(S, Current(D))
      requires !versioned ==> Disjoint(AbsPath(cwd, source), MirrorTarget(cwd, source, backup))
      modifies this, disk
      ensures disk.Valid()
      ensures counter == old(counter) + |applied|
      ensures !versioned ==> target == MirrorTarget(cwd, source, backup) && rotated == old(disk.entries) && !raised
      ensures versioned ==> Versioned(old(disk.entries), rotated, AbsPath(cwd, backup), AbsPath(cwd, source), raised, target)
      ensures raised ==> outcome == Raised(OsError) && applied == [] && disk.entries == rotated
      ensures !raised ==> Synced(rotated, disk.entries, AbsPath(cwd, source), target, Pass, outcome, applied)
    {
      var S := AbsPath(cwd, source);
      if versioned {
        var failed;
        failed, target := ManageVersionedBackups(disk, AbsPath(cwd, backup), S);
        rotated, raised := disk.entries, failed;
        if failed {
          return Raised(OsError), target, [], rotated, raised;
        }
        OnlySlotsCreated(old(disk.entries), rotated, AbsPath(cwd, backup), S, raised, target);
      } else {
        target := MirrorTarget(cwd, source, backup);
        rotated, raised := disk.entries, false;
      }
      outcome, applied := SyncEngine.SyncDirectories(disk, S, target, Pass);
      counter := counter + |applied|;
    }

    /** main up to its first pass: both paths must be directories and the
        backup must not lie in the source, else sys.exit(1) before any pass;
        then one sync_directories. The endless loop of later passes is a
        repetition of the same call. */
    method Start(disk: Disk, cwd: Path, source: string, backup: string, versioned: bool)
      returns (verdict: Verdict, outcome: Option<Outcome>, applied: seq<Change>,
               ghost target: Path, ghost rotated: Entries, ghost raised: bool)
      requires disk.Valid() && Normal(cwd)
      requires Validate(disk.entries, cwd, source, backup) == Proceed ==>
        var S, D := AbsPath(cwd, source), AbsPath(cwd, backup);
        if versioned then Disjoint(S, Previous(D)) && Disjoint(S, Current(D))
        else Disjoint(S, MirrorTarget(cwd, source, backup))
      modifies this, disk
      ensures disk.Valid()
      ensures verdict == Validate(old(disk.entries), cwd, source, backup)
      ensures verdict.Exit? <==> outcome.None?
      ensures verdict.Exit? ==> disk.entries == old(disk.entries) && counter == old(counter)
      ensures verdict == Proceed ==> counter == old(counter) + |applied|
      ensures verdict == Proceed && !versioned ==>
        Synced(old(disk.entries), disk.entries, AbsPath(cwd, source), MirrorTarget(cwd, source, backup),
               Pass, outcome.value, applied)
      ensures verdict == Proceed && versioned ==>
        && Versioned(old(disk.entries), rotated, AbsPath(cwd, backup), AbsPath(cwd, source), raised, target)
        && (raised ==> outcome == Some(Raised(OsError)) && applied == [] && disk.entries == rotated)
        && (!raised ==> Synced(rotated, disk.entries, AbsPath(cwd, source), target, Pass, outcome.value, applied))
    {
      verdict := Validate(disk.entries, cwd, source, backup);
      if verdict.Exit? {
        return verdict, None, [], [], disk.entries, false;
      }
      var passOutcome, slot;
      passOutcome, slot, applied, rotated, raised := SyncDirectories(disk, cwd, source, backup, versioned);
      outcome, target := Some(passOutcome), slot;
    }
  }
}
