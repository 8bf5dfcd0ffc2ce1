/** main.py: the original one-way mirror, MD5 checksums, no versioning. Its
    count_operations assigns the global counter without declaring it global,
    so the first call raises UnboundLocalError: as written, a pass stops right
    after its first change. Both that pass and the intended one (with the
    declaration, as OneWay/main.py has it) are modelled. */
module Legacy {
  import opened Paths
  import opened FileSystem
  import opened Mirror
  import opened WalkSteps
  import opened SyncEngine
  import opened Startup

  /** The pass as written: the counter raises. */
  const AsWritten := Policy(Md5, true, true, false)

  /** The pass as intended: the counter counts. */
  const Intended := Policy(Md5, true, false, false)

  /** A pass as written that needs any change stops after the first one it
      applies (or earlier, on an os error): it never finishes, and the target
      is the old one with at most that one change performed. */
  lemma FirstChangeStopsThePass(e0: Entries, e: Entries, S: Path, T: Path, outcome: Outcome, applied: seq<Change>)
    requires Synced(e0, e, S, T, AsWritten, outcome, applied)
    requires Changes(Walked(e0, S), View(e0, T), true) != {}
    ensures outcome != Ok && |applied| <= 1
    ensures View(e, T) == if applied == [] then View(e0, T) else Apply(View(e0, T), applied[0])
    ensures !Conflict(Walked(e0, S), View(e0, T), true, FileAbove(e0, T), false) ==>
              outcome == Raised(UnboundLocalError) && |applied| == 1
  {
    var src, dst := Walked(e0, S), View(e0, T);
    assert Ending(src, dst, FileAbove(e0, T), AsWritten, outcome);
    assert Applied(src, dst, AsWritten, outcome, applied);
    assert View(e, T) == ApplyAll(dst, applied);
    CounterStops(src, dst, FileAbove(e0, T), outcome, applied);
    AtMostOneApplied(dst, applied);
  }

  lemma CounterStops(src: Tree, dst: Tree, blocked: bool, outcome: Outcome, applied: seq<Change>)
    requires Ending(src, dst, blocked, AsWritten, outcome) && Applied(src, dst, AsWritten, outcome, applied)
    requires Changes(src, dst, true) != {}
    ensures outcome != Ok && |applied| <= 1
    ensures !Conflict(src, dst, true, blocked, false) ==> outcome == Raised(UnboundLocalError) && |applied| == 1
  {
    if outcome.Raised? && outcome.error != UnboundLocalError {
      assert outcome == Raised(OsError);
    }
  }

  lemma AtMostOneApplied(t: Tree, applied: seq<Change>)
    requires |applied| <= 1
    ensures ApplyAll(t, applied) == if applied == [] then t else Apply(t, applied[0])
  {
    if applied != [] {
      assert applied == [applied[0]];
      ApplyOne(t, applied[0]);
    }
  }

  /** A source holding one file `f`, mirrored into a missing target. */
  function OneFile(): Tree {
    map[[] := Dir, ["f"] := File([1])]
  }

  lemma OneFileChanges()
    ensures !Conflict(OneFile(), map[], true, false, false)
    ensures Changes(OneFile(), map[], true) == {MakeDir([]), CopyFile(["f"], [1])}
    ensures |Changes(OneFile(), map[], true)| == 2
  {
    var src: Tree := OneFile();
    var dst: Tree := map[];
    forall r ensures !Conflict1At(src, dst, true, false, r) {
      if r in src && r != [] {
        assert r == ["f"] && Parent(r) == [];
      }
    }
    var c := Changes(src, dst, true);
    assert MakeDir([]) in Changes1(src, dst, true, src.Keys);
    assert ["f"] in src && src[["f"]] == File([1]) && Copies(src, dst, ["f"]);
    assert CopyFile(["f"], [1]) in Changes1(src, dst, true, src.Keys);
    forall x | x in c ensures x == MakeDir([]) || x == CopyFile(["f"], [1]) {
      assert x.rel in src;
    }
    assert |{MakeDir([]), CopyFile(["f"], [1])}| == 2;
  }

  /** On that input, with the target missing, the pass as written creates the
      empty target directory and raises before copying the file; the intended
      pass makes both changes and finishes with the file in place. */
  lemma OneFileAsWrittenStops(e0: Entries, S: Path, T: Path, e: Entries, outcome: Outcome, applied: seq<Change>,
                              e': Entries, outcome': Outcome, applied': seq<Change>)
    requires Walked(e0, S) == OneFile() && View(e0, T) == map[] && !FileAbove(e0, T)
    requires Wf(e) && Synced(e0, e, S, T, AsWritten, outcome, applied)
    requires Synced(e0, e', S, T, Intended, outcome', applied')
    ensures outcome == Raised(UnboundLocalError) && applied == [MakeDir([])] && View(e, T) == map[[] := Dir]
    ensures outcome' == Ok && |applied'| == 2 && View(e', T) == OneFile()
  {
    OneFileChanges();
    OneFileFirstChange(e0, S, T, e, outcome, applied);
    OneFileIntended(e0, S, T, e', outcome', applied');
  }

  lemma OneFileFirstChange(e0: Entries, S: Path, T: Path, e: Entries, outcome: Outcome, applied: seq<Change>)
    requires Walked(e0, S) == OneFile() && View(e0, T) == map[] && !FileAbove(e0, T)
    requires Changes(OneFile(), map[], true) == {MakeDir([]), CopyFile(["f"], [1])}
    requires !Conflict(OneFile(), map[], true, false, false)
    requires Wf(e) && Synced(e0, e, S, T, AsWritten, outcome, applied)
    ensures outcome == Raised(UnboundLocalError) && applied == [MakeDir([])] && View(e, T) == map[[] := Dir]
  {
    FirstChangeStopsThePass(e0, e, S, T, outcome, applied);
    ViewWf(e, T);
    FirstChangeIsTheRoot(View(e, T), applied);
  }

  lemma OneFileIntended(e0: Entries, S: Path, T: Path, e': Entries, outcome': Outcome, applied': seq<Change>)
    requires Walked(e0, S) == OneFile() && View(e0, T) == map[] && !FileAbove(e0, T)
    requires |Changes(OneFile(), map[], true)| == 2
    requires !Conflict(OneFile(), map[], true, false, false)
    requires Synced(e0, e', S, T, Intended, outcome', applied')
    ensures outcome' == Ok && |applied'| == 2 && View(e', T) == OneFile()
  {
    assert Ending(OneFile(), map[], false, Intended, outcome');
    assert outcome' == Ok;
    assert Applied(OneFile(), map[], Intended, outcome', applied');
    OneFileMirrored();
  }

  /** Copying `f` first would leave it without its parent directory. */
  lemma FirstChangeIsTheRoot(t: Tree, applied: seq<Change>)
    requires TreeWf(t) && |applied| == 1 && t == Apply(map[], applied[0])
    requires forall c :: c in applied ==> c in Changes(OneFile(), map[], true)
    requires Changes(OneFile(), map[], true) == {MakeDir([]), CopyFile(["f"], [1])}
    ensures applied == [MakeDir([])] && t == map[[] := Dir]
  {
    var c := applied[0];
    assert c in applied;
    assert Parent(["f"]) == [];
    assert c.CopyFile? ==> ["f"] in t && [] !in t;
    assert applied == [c];
  }

  lemma OneFileMirrored()
    ensures Mirrored(OneFile(), map[], true) == OneFile()
  {
    var m := Mirrored(OneFile(), map[], true);
    assert Phase1(OneFile(), map[], true) == OneFile();
    assert m.Keys == OneFile().Keys;
  }

  /** The program's state: the global operation counter. */
  class Program {
    var counter: nat

    constructor ()
      ensures counter == 0
    {
      counter := 0;
    }

    /** sync_directories(source, backup) as written: into
        `<backup>/<basename(source)>_backup`; the counter never moves, since
        count_operations raises before it assigns. */
    method SyncDirectoriesAsWritten(disk: Disk, cwd: Path, source: string, backup: string)
      returns (outcome: Outcome, applied: seq<Change>)
      requires disk.Valid() && Normal(cwd)
      requires Disjoint(AbsPath(cwd, source), MirrorTarget(cwd, source, backup))
      modifies disk
      ensures disk.Valid()
      ensures Synced(old(disk.entries), disk.entries, AbsPath(cwd, source), MirrorTarget(cwd, source, backup),
                     AsWritten, outcome, applied)
    {
      outcome, applied := SyncEngine.SyncDirectories(disk, AbsPath(cwd, source), MirrorTarget(cwd, source, backup), AsWritten);
    }

    /** sync_directories(source, backup) with `global counter` in
        count_operations: one count per applied change. */
    method SyncDirectories(disk: Disk, cwd: Path, source: string, backup: string)
      returns (outcome: Outcome, applied: seq<Change>)
      requires disk.Valid() && Normal(cwd)
      requires Disjoint(AbsPath(cwd, source), MirrorTarget(cwd, source, backup))
      modifies this, disk
      ensures disk.Valid()
      ensures counter == old(counter) + |applied|
      ensures Synced(old(disk.entries), disk.entries, AbsPath(cwd, source), MirrorTarget(cwd, source, backup),
                     Intended, outcome, applied)
    {
      outcome, applied := SyncEngine.SyncDirectories(disk, AbsPath(cwd, source), MirrorTarget(cwd, source, backup), Intended);
      counter := counter + |applied|;
    }

    /** main up to its first pass: both paths must be directories and the
        backup must not lie in the source, else sys.exit(1) before any pass;
        then one sync_directories as written, whose counter never moves. */
    method Start(disk: Disk, cwd: Path, source: string, backup: string)
      returns (verdict: Verdict, outcome: Option<Outcome>, applied: seq<Change>)
      requires disk.Valid() && Normal(cwd)
      requires Validate(disk.entries, cwd, source, backup) == Proceed ==>
        Disjoint(AbsPath(cwd, source), MirrorTarget(cwd, source, backup))
      modifies disk
      ensures disk.Valid()
      ensures verdict == Validate(old(disk.entries), cwd, source, backup)
      ensures verdict.Exit? <==> outcome.None?
      ensures verdict.Exit? ==> disk.entries == old(disk.entries) && applied == []
      ensures counter == old(counter)
      ensures verdict == Proceed ==>
        Synced(old(disk.entries), disk.entries, AbsPath(cwd, source), MirrorTarget(cwd, source, backup),
               AsWritten, outcome.value, applied)
    {
      verdict := Validate(disk.entries, cwd, source, backup);
      if verdict.Exit? {
        return verdict, None, [];
      }
      var passOutcome;
      passOutcome, applied := SyncDirectoriesAsWritten(disk, cwd, source, backup);
      outcome := Some(passOutcome);
    }
  }
}
