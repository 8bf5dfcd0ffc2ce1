/** The checks the three programs make before their first pass:
    does_path_exist on both command-line paths, then is_subdirectory_of_source. */
module Startup {
  import opened Paths
  import opened FileSystem

  /** does_path_exist: os.path.exists and then os.path.isdir on the raw
      string. Both look the path up component by component (PathExists), so
      the empty string and "missing/.." are not found. */
  function DoesPathExist(e: Entries, cwd: Path, raw: string): (ok: bool)
    requires Normal(cwd)
    ensures ok ==> raw != "" && AbsPath(cwd, raw) in e && e[AbsPath(cwd, raw)].Dir?
  {
    if !PathExists(e, cwd, raw) then false
    else if !e[AbsPath(cwd, raw)].Dir? then false
    else true
  }

  /** Where the raw path has no ".." component, does_path_exist holds exactly
      for a non-empty path that normalises to an existing directory. */
  lemma DoesPathExistWithoutParentSteps(e: Entries, cwd: Path, raw: string)
    requires Wf(e) && Normal(cwd) && cwd in e && e[cwd].Dir?
    requires ".." !in Split(raw)
    ensures DoesPathExist(e, cwd, raw) <==> raw != "" && AbsPath(cwd, raw) in e && e[AbsPath(cwd, raw)].Dir?
  {
    if raw != "" && AbsPath(cwd, raw) in e && e[AbsPath(cwd, raw)].Dir? {
      PathExistsWithoutParentSteps(e, cwd, raw);
    }
  }

  /** "x/.." normalises to the directory it starts from, yet it is not found
      when x is missing: the lookup has to pass through x. */
  lemma ParentStepThroughMissingIsNotFound()
    ensures AbsPath([], "x/..") == []
    ensures !DoesPathExist(map[[] := Dir], [], "x/..")
  {
    SplitName("x");
    SplitSlashName("x", "..");
    assert "x" + "/" + ".." == "x/..";
    assert Split("x/..") == ["x", ".."];
    assert !Traversable(map[[] := Dir], ["x"], [".."]);
  }

  datatype Verdict = Proceed | Exit(code: int)

  /** main's checks in order: both paths must be directories, and the backup
      must not be the source or lie beneath it; any failure is sys.exit(1). */
  function Validate(e: Entries, cwd: Path, source: string, backup: string): (v: Verdict)
    requires Normal(cwd)
    ensures v == Proceed || v == Exit(1)
    ensures v == Proceed ==> var s, b := AbsPath(cwd, source), AbsPath(cwd, backup);
      s in e && e[s].Dir? && b in e && e[b].Dir?
  {
    if !DoesPathExist(e, cwd, source) || !DoesPathExist(e, cwd, backup) then Exit(1)
    else if IsSubdirectoryOfSource(cwd, source, backup) then Exit(1)
    else Proceed
  }

  /** The programs go on exactly when both paths are found as directories
      and the absolute backup path does not start with the absolute source
      path's components, or the source is written with a doubled leading
      slash; otherwise they exit with status 1. */
  lemma ValidateProceeds(e: Entries, cwd: Path, source: string, backup: string)
    requires Normal(cwd)
    ensures var s, b := AbsPath(cwd, source), AbsPath(cwd, backup);
      && (Validate(e, cwd, source, backup) == Proceed <==>
            && PathExists(e, cwd, source) && e[s].Dir?
            && PathExists(e, cwd, backup) && e[b].Dir?
            && (DoubleSlashRoot(source) || !(s <= b)))
      && (Validate(e, cwd, source, backup) != Proceed ==> Validate(e, cwd, source, backup) == Exit(1))
  {
  }

  /** The check as evidently intended: it refuses a backup at or beneath the
      source however the source is spelled, and whatever it lets through
      keeps the mirror directory outside the source. */
  function ValidateIntended(e: Entries, cwd: Path, source: string, backup: string): (v: Verdict)
    requires Normal(cwd)
    ensures v == Proceed ==> !(AbsPath(cwd, source) <= MirrorTarget(cwd, source, backup))
    ensures v != Proceed ==> v == Exit(1)
  {
    if !DoesPathExist(e, cwd, source) || !DoesPathExist(e, cwd, backup) then Exit(1)
    else if IsInsideSource(cwd, source, backup) then Exit(1)
    else Proceed
  }

  /** A source written with two leading slashes passes the check although the
      backup is the source itself, so the mirror directory would be created
      inside the source; the intended check refuses it. */
  lemma DoubleSlashSourcePassesTheGuard()
    ensures var e := map[[] := Dir, ["a"] := Dir];
      && Validate(e, [], "//a", "//a") == Proceed
      && AbsPath([], "//a") <= MirrorTarget([], "//a", "//a")
      && ValidateIntended(e, [], "//a", "//a") == Exit(1)
  {
    var e := map[[] := Dir, ["a"] := Dir];
    DoubleSlashFound(e);
    assert DoesPathExist(e, [], "//a");
    assert IsInsideSource([], "//a", "//a");
  }

  lemma DoubleSlashFound(e: Entries)
    requires e == map[[] := Dir, ["a"] := Dir]
    ensures AbsPath([], "//a") == ["a"] && DoubleSlashRoot("//a")
    ensures PathExists(e, [], "//a")
  {
    SplitOfDoubleSlash();
    assert Traversable(e, ["a"], []);
    assert Traversable(e, [], ["a"]);
    assert Traversable(e, [], ["", "a"]);
  }
}
