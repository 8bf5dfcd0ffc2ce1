/** One pass of sync_directories stated on trees. `src` is the source tree as
    os.walk enumerates it (empty unless the source root is a directory), `dst`
    the target tree before the pass, `createDirs` whether missing target
    directories are created. The pass is: a top-down walk over `src` that
    creates directories and copies missing or changed files, then a bottom-up
    walk over the target that removes what has no counterpart in `src`. */
module Mirror {
  import opened Paths
  import opened FileSystem

  /** One mutation of the target, at a path relative to the target root. */
  datatype Change =
    | MakeDir(rel: Path)
    | CopyFile(rel: Path, content: Bytes)
    | RemoveFile(rel: Path, content: Bytes)
    | RemoveDir(rel: Path)

  /** What os.walk enumerates: nothing, or a well-formed tree rooted at a directory. */
  ghost predicate SourceShape(src: Tree) {
    TreeWf(src) && (src != map[] ==> [] in src && src[[]].Dir?)
  }

  /** The view of a path on a well-formed disk: nothing, or a tree with a root. */
  ghost predicate TargetShape(dst: Tree) {
    TreeWf(dst) && (dst != map[] ==> [] in dst)
  }

  // ---------------------------------------------------------------- phase 1

  /** Phase 1 adds `r` to the target: a missing file, or a missing directory
      when directories are created. */
  ghost predicate Creates(src: Tree, dst: Tree, createDirs: bool, r: Path) {
    r in src && r !in dst && (src[r].File? || createDirs)
  }

  /** The target once phase 1 has visited the source entries in `done`: a
      visited source file is copied over, a visited source directory is kept
      if anything is there and created otherwise (when directories are). */
  ghost function Mid(src: Tree, dst: Tree, createDirs: bool, done: set<Path>): (t: Tree)
    ensures forall r :: r in t <==> r in dst || (r in done && Creates(src, dst, createDirs, r))
  {
    map r | r in dst.Keys + (set q | q in done && Creates(src, dst, createDirs, q)) ::
      if r in done && r in src && src[r].File? then src[r]
      else if r in dst then dst[r]
      else Dir
  }

  /** The target after the whole top-down walk. */
  ghost function Phase1(src: Tree, dst: Tree, createDirs: bool): Tree {
    Mid(src, dst, createDirs, src.Keys)
  }

  // ---------------------------------------------------------------- phase 2

  /** The target once the bottom-up walk has visited the entries in `done`:
      a visited entry without a counterpart in `src` is gone. */
  ghost function Pruned(m: Tree, src: Tree, done: set<Path>): (t: Tree)
    ensures forall r :: r in t <==> r in m && !(r in done && r !in src)
  {
    map r | r in m && !(r in done && r !in src) :: m[r]
  }

  /** The target after a whole pass that raises nothing. */
  ghost function Mirrored(src: Tree, dst: Tree, createDirs: bool): (t: Tree)
    ensures forall r :: r in t <==> r in Phase1(src, dst, createDirs) && (r == [] || r in src)
  {
    var m := Phase1(src, dst, createDirs);
    map r | r in m && (r == [] || r in src) :: m[r]
  }

  // ---------------------------------------------------------------- effects

  /** What one change does to the target: makedirs adds a directory, copy2
      puts the file, os.remove drops the file, rmtree drops the directory and
      everything below it. */
  ghost function Apply(t: Tree, c: Change): Tree {
    match c
    case MakeDir(r) => t[r := Dir]
    case CopyFile(r, content) => t[r := File(content)]
    case RemoveFile(r, _) => t - {r}
    case RemoveDir(r) => map q | q in t && !(r <= q) :: t[q]
  }

  /** The target after the changes `cs`, applied in order. */
  ghost function ApplyAll(t: Tree, cs: seq<Change>): Tree
    decreases |cs|
  {
    if cs == [] then t else Apply(ApplyAll(t, cs[..|cs| - 1]), cs[|cs| - 1])
  }

  lemma {:induction false} ApplyAllAppend(t: Tree, a: seq<Change>, b: seq<Change>)
    ensures ApplyAll(t, a + b) == ApplyAll(ApplyAll(t, a), b)
    decreases |b|
  {
    if b == [] {
      assert a + b == a;
    } else {
      var n := |b| - 1;
      assert (a + b)[..|a + b| - 1] == a + b[..n];
      assert (a + b)[|a + b| - 1] == b[n];
      ApplyAllAppend(t, a, b[..n]);
    }
  }

  lemma ApplyOne(t: Tree, c: Change)
    ensures ApplyAll(t, [c]) == Apply(t, c)
  {
    assert [c][..0] == [];
  }

  // ---------------------------------------------------------------- changes

  ghost predicate MakesDir(src: Tree, dst: Tree, createDirs: bool, r: Path) {
    r in src && src[r].Dir? && r !in dst && createDirs
  }

  /** A source file is copied when the target has no entry there or a file
      whose checksum (so, content) differs. */
  ghost predicate Copies(src: Tree, dst: Tree, r: Path) {
    r in src && src[r].File? &&
    (r !in dst || (dst[r].File? && dst[r].content != src[r].content))
  }

  /** A target entry below the root with no counterpart in the source. */
  ghost predicate Removes(src: Tree, dst: Tree, r: Path) {
    r != [] && r in dst && r !in src
  }

  /** The changes phase 1 applies at the source entries in `done`. */
  ghost function Changes1(src: Tree, dst: Tree, createDirs: bool, done: set<Path>): set<Change> {
    (set r | r in done && MakesDir(src, dst, createDirs, r) :: MakeDir(r)) +
    (set r | r in done && Copies(src, dst, r) :: CopyFile(r, src[r].content))
  }

  /** The changes phase 2 applies at the target entries in `done`. */
  ghost function Changes2(src: Tree, dst: Tree, done: set<Path>): set<Change> {
    (set r | r in done && Removes(src, dst, r) && dst[r].File? :: RemoveFile(r, dst[r].content)) +
    (set r | r in done && Removes(src, dst, r) && dst[r].Dir? :: RemoveDir(r))
  }

  /** Every change a whole pass applies; the operation counter grows by its size. */
  ghost function Changes(src: Tree, dst: Tree, createDirs: bool): set<Change> {
    Changes1(src, dst, createDirs, src.Keys) + Changes2(src, dst, dst.Keys)
  }

  // ---------------------------------------------------------------- conflicts

  /** The source root is a directory and the target root a file: the root's
      backup directory is written `T/.`, which os.path.exists does not find
      when `T` is a file, so makedirs is asked for it and raises. */
  ghost predicate RootOntoFile(src: Tree, dst: Tree, createDirs: bool) {
    createDirs && [] in src && src[[]].Dir? && [] in dst && dst[[]].File?
  }

  /** The top-down walk raises at source entry `r`:
      makedirs under a file (`blocked`: a file above the target root itself),
      makedirs of `T/.` over a target root that is a file,
      checksumming a target directory that faces a source file,
      or copy2 into a parent that is a file or was never created. */
  ghost predicate Conflict1At(src: Tree, dst: Tree, createDirs: bool, blocked: bool, r: Path) {
    r in src &&
    (|| (src[r].Dir? && r !in dst && createDirs && (blocked || TreeFileAbove(dst, r)))
     || (r == [] && RootOntoFile(src, dst, createDirs))
     || (src[r].File? && r in dst && dst[r].Dir?)
     || (src[r].File? && r !in dst && r != [] && Parent(r) in dst && dst[Parent(r)].File?)
     || (src[r].File? && r !in dst && r != [] && Parent(r) !in dst && !createDirs))
  }

  /** The bottom-up walk raises at target entry `r` when removed directories
      are audited by checksumming them. */
  ghost predicate Conflict2At(src: Tree, dst: Tree, auditsDirs: bool, r: Path) {
    auditsDirs && Removes(src, dst, r) && dst[r].Dir?
  }

  ghost predicate Conflict(src: Tree, dst: Tree, createDirs: bool, blocked: bool, auditsDirs: bool) {
    || (exists r :: Conflict1At(src, dst, createDirs, blocked, r))
    || (exists r :: Conflict2At(src, dst, auditsDirs, r))
  }

  /** A target root that is a file facing a source directory stops the pass. */
  lemma RootOntoFileConflicts(src: Tree, dst: Tree, createDirs: bool, blocked: bool, auditsDirs: bool)
    ensures RootOntoFile(src, dst, createDirs) ==> Conflict(src, dst, createDirs, blocked, auditsDirs)
  {
    if RootOntoFile(src, dst, createDirs) {
      assert Conflict1At(src, dst, createDirs, blocked, []);
    }
  }

  // ---------------------------------------------------------------- properties

  /** After a pass: every source file is in the target with the source's
      content (so its checksum), every target entry below the root has a
      source counterpart, and a source directory is there when it was or
      when directories are created. */
  lemma MirroredEntries(src: Tree, dst: Tree, createDirs: bool)
    ensures var t := Mirrored(src, dst, createDirs);
      && (forall r :: r in src && src[r].File? ==> r in t && t[r] == src[r])
      && (forall r :: r in t ==> r == [] || r in src)
      && (forall r :: r in src && src[r].Dir? ==> (r in t <==> r in dst || createDirs))
      && (forall r :: r in src && src[r].Dir? && r in dst ==> t[r] == dst[r])
      && (forall r :: r in src && src[r].Dir? && r !in dst && createDirs ==> t[r] == Dir)
  {
    var m := Phase1(src, dst, createDirs);
    assert forall r :: r in src && src[r].File? ==> r in m && m[r] == src[r];
  }

  /** When directories are created and no source directory faces a target
      file, the target ends up equal to the source tree. */
  lemma {:induction false} MirrorIsExact(src: Tree, dst: Tree)
    requires src != map[] && SourceShape(src)
    requires forall r :: r in src && src[r].Dir? && r in dst ==> dst[r].Dir?
    ensures Mirrored(src, dst, true) == src
  {
    var t := Mirrored(src, dst, true);
    MirroredEntries(src, dst, true);
    assert forall r :: r in t <==> r in src;
    forall r | r in src ensures t[r] == src[r] {
      if src[r].Dir? {
        assert t[r].Dir?;
      }
    }
  }

  /** A second pass over an unchanged source finds nothing to change, raises
      nothing, and leaves the target as it is. (A target root that is a file
      facing a source directory stays a file, and stops every pass.) */
  lemma SecondPassIsNoOp(src: Tree, dst: Tree, createDirs: bool, blocked: bool, auditsDirs: bool)
    requires !RootOntoFile(src, dst, createDirs)
    ensures var t := Mirrored(src, dst, createDirs);
      && Changes(src, t, createDirs) == {}
      && !Conflict(src, t, createDirs, blocked, auditsDirs)
      && Mirrored(src, t, createDirs) == t
  {
    var t := Mirrored(src, dst, createDirs);
    MirroredEntries(src, dst, createDirs);
    NothingToDo(src, t, createDirs);
    NoChangesMeansMirrored(src, t, createDirs);
    assert !Conflict(src, t, createDirs, blocked, auditsDirs) by {
      forall r ensures !Conflict1At(src, t, createDirs, blocked, r) && !Conflict2At(src, t, auditsDirs, r) {
      }
    }
  }

  /** A target already holding every source file, holding a source directory
      wherever directories are created, and nothing else below its root, needs
      no change. */
  lemma NothingToDo(src: Tree, t: Tree, createDirs: bool)
    requires forall r :: r in src && src[r].File? ==> r in t && t[r] == src[r]
    requires forall r :: r in t ==> r == [] || r in src
    requires forall r :: r in src && src[r].Dir? && createDirs ==> r in t
    ensures Changes(src, t, createDirs) == {}
  {
    assert Changes1(src, t, createDirs, src.Keys) == {};
    assert Changes2(src, t, t.Keys) == {};
  }

  /** Unless a source file faces a target directory, a pass applies no change
      exactly when the target already is what the pass would make of it. */
  lemma NoChangesIffMirrored(src: Tree, dst: Tree, createDirs: bool)
    requires forall r :: r in src && src[r].File? && r in dst ==> dst[r].File?
    ensures Changes(src, dst, createDirs) == {} <==> Mirrored(src, dst, createDirs) == dst
  {
    if Changes(src, dst, createDirs) == {} {
      NoChangesMeansMirrored(src, dst, createDirs);
    } else if Mirrored(src, dst, createDirs) == dst {
      MirroredEntries(src, dst, createDirs);
      NothingToDo(src, dst, createDirs);
    }
  }

  lemma NoChangesMeansMirrored(src: Tree, dst: Tree, createDirs: bool)
    requires forall r :: r in src && src[r].File? && r in dst ==> dst[r].File?
    requires Changes(src, dst, createDirs) == {}
    ensures Mirrored(src, dst, createDirs) == dst
  {
    NoChanges(src, dst, createDirs);
    var m := Phase1(src, dst, createDirs);
    assert forall r :: r in m <==> r in dst;
    assert forall r :: r in m ==> m[r] == dst[r];
    var t := Mirrored(src, dst, createDirs);
    assert forall r :: r in t <==> r in dst by {
      forall r ensures r in t <==> r in dst {
        assert r in dst && r != [] ==> r in src by {
          assert !Removes(src, dst, r);
        }
      }
    }
  }

  /** No change at all: nothing to create, copy or remove anywhere. */
  lemma NoChanges(src: Tree, dst: Tree, createDirs: bool)
    requires Changes(src, dst, createDirs) == {}
    ensures forall r :: !MakesDir(src, dst, createDirs, r) && !Copies(src, dst, r) && !Removes(src, dst, r)
  {
    forall r ensures !MakesDir(src, dst, createDirs, r) && !Copies(src, dst, r) && !Removes(src, dst, r) {
      ChangeAt(src, dst, createDirs, r);
    }
  }

  /** Each entry that needs work contributes its change to the pass. */
  lemma ChangeAt(src: Tree, dst: Tree, createDirs: bool, r: Path)
    ensures MakesDir(src, dst, createDirs, r) ==> MakeDir(r) in Changes(src, dst, createDirs)
    ensures Copies(src, dst, r) ==> CopyFile(r, src[r].content) in Changes(src, dst, createDirs)
    ensures Removes(src, dst, r) && dst[r].File? ==> RemoveFile(r, dst[r].content) in Changes(src, dst, createDirs)
    ensures Removes(src, dst, r) && dst[r].Dir? ==> RemoveDir(r) in Changes(src, dst, createDirs)
  {
    assert MakesDir(src, dst, createDirs, r) ==> MakeDir(r) in Changes1(src, dst, createDirs, src.Keys);
    assert Copies(src, dst, r) ==> CopyFile(r, src[r].content) in Changes1(src, dst, createDirs, src.Keys);
    assert Removes(src, dst, r) && dst[r].File? ==> RemoveFile(r, dst[r].content) in Changes2(src, dst, dst.Keys);
    assert Removes(src, dst, r) && dst[r].Dir? ==> RemoveDir(r) in Changes2(src, dst, dst.Keys);
  }
}
