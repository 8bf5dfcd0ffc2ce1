/** TwoWay/recovery.py: a RestoreSystem for one origin directory. It keeps
    the versioned copies under `./__versions__/<origin>` and
    `./__versions__/<origin>_backup` (each with OneWay's `_1` latest and `_0`
    previous slots), records absolute paths in `.info.json`, reads its script
    and flags from `config.json`, and restores a directory by replacing it
    with a copy of a slot. */
module Recovery {
  import opened Paths
  import opened FileSystem
  import opened WalkSteps
  import opened SyncEngine
  import opened OneWay

  /** How a call ends: with a value, or with sys.exit(code). */
  datatype Flow<T> = Return(value: T) | SysExit(code: int)

  // ---------------------------------------------------------------- slot paths

  const Compiler := "python3"
  const DefaultScript := "../OneWay/main.py"
  const DefaultFlags := ["--interval", "5", "--versioned-backup"]

  /** `./__versions__/<origin>`: the versions of the origin itself. */
  function VersionsSource(origin: string): string {
    "./__versions__/" + origin
  }

  /** `./__versions__/<origin>_backup`: the versions of its backup. */
  function VersionsBackup(origin: string): string {
    "./__versions__/" + origin + "_backup"
  }

  /** The `_1` (latest) and `_0` (previous) slots of a versions directory. */
  function LatestSlot(dir: string): string {
    dir + "/_1"
  }

  function PreviousSlot(dir: string): string {
    dir + "/_0"
  }

  /** A child component written after a '/' resolves to that child. */
  lemma ChildPath(cwd: Path, dir: string, name: string)
    requires Normal(cwd) && dir != "" && PlainName(name)
    ensures AbsPath(cwd, dir + "/" + name) == AbsPath(cwd, dir) + [name]
  {
    var s := dir + "/";
    assert s[..|s| - 1] == dir;
    assert Split(s) == Split(dir) + [""];
    SplitAppend(s, name);
    var p := Split(s);
    assert p[..|p| - 1] == Split(dir) && p[|p| - 1] + name == name;
    assert s + name == dir + "/" + name;
    assert Split(dir + "/" + name) == Split(dir) + [name];
    assert (dir + "/" + name)[0] == dir[0];
    var start := if dir[0] == '/' then [] else cwd;
    ResolveSnoc(start, Split(dir), name);
  }

  /** The slot strings name OneWay's `_1` and `_0` slots of the versions
      directory. */
  lemma SlotsAreOneWaySlots(cwd: Path, dir: string)
    requires Normal(cwd) && dir != ""
    ensures AbsPath(cwd, LatestSlot(dir)) == Current(AbsPath(cwd, dir))
    ensures AbsPath(cwd, PreviousSlot(dir)) == Previous(AbsPath(cwd, dir))
  {
    ChildPath(cwd, dir, "_1");
    ChildPath(cwd, dir, "_0");
    assert LatestSlot(dir) == dir + "/" + "_1" && PreviousSlot(dir) == dir + "/" + "_0";
  }

  /** get_backup_path(version, type). */
  function GetBackupPath(origin: string, version: string, kind: string): (f: Flow<string>)
    ensures f.Return? <==> kind == "source" || kind == "backup"
    ensures !f.Return? ==> f == SysExit(1)
  {
    if kind == "source" then
      Return(if version == "latest" then LatestSlot(VersionsSource(origin)) else PreviousSlot(VersionsSource(origin)))
    else if kind == "backup" then
      Return(if version == "latest" then LatestSlot(VersionsBackup(origin)) else PreviousSlot(VersionsBackup(origin)))
    else SysExit(1)
  }

  /** get_backup_path answers for the types 'source' and 'backup' only, any
      other exits with 1; "latest" is the `_1` slot of that side's versions
      directory, any other version its `_0` slot. */
  lemma BackupPathIsASlot(cwd: Path, origin: string, version: string, kind: string)
    requires Normal(cwd)
    ensures GetBackupPath(origin, version, kind).Return? ==>
      var dir := if kind == "source" then VersionsSource(origin) else VersionsBackup(origin);
      var D := AbsPath(cwd, dir);
      AbsPath(cwd, GetBackupPath(origin, version, kind).value) == if version == "latest" then Current(D) else Previous(D)
  {
    SlotsAreOneWaySlots(cwd, VersionsSource(origin));
    SlotsAreOneWaySlots(cwd, VersionsBackup(origin));
  }

  /** restore_version's choice of slot: the origin's slots for the origin,
      the backup's slots for `<origin>_backup`, sys.exit(1) for any other
      target. */
  function RestoreSlot(origin: string, target: string, version: string): (f: Flow<string>)
    ensures f.Return? <==> target == origin || target == origin + "_backup"
    ensures !f.Return? ==> f == SysExit(1)
  {
    assert |origin + "_backup"| > |origin|;
    if target == origin then GetBackupPath(origin, version, "source")
    else if target == origin + "_backup" then GetBackupPath(origin, version, "backup")
    else SysExit(1)
  }

  /** The slot restore_version picks is the `_1` or `_0` slot of the
      versions directory of the side the target names. */
  lemma RestoreSlotChoosesSide(cwd: Path, origin: string, target: string, version: string)
    requires Normal(cwd)
    ensures RestoreSlot(origin, target, version).Return? ==>
      var dir := if target == origin then VersionsSource(origin) else VersionsBackup(origin);
      var D := AbsPath(cwd, dir);
      AbsPath(cwd, RestoreSlot(origin, target, version).value) == if version == "latest" then Current(D) else Previous(D)
  {
    assert |origin + "_backup"| > |origin|;
    BackupPathIsASlot(cwd, origin, version, "source");
    BackupPathIsASlot(cwd, origin, version, "backup");
  }

  // ---------------------------------------------------------------- commands

  /** The command run_versioned_backups starts for one side: OneWay's
      program in versioned mode, with the versions directory as its backup
      argument and a log file inside it. */
  function VersionCommand(script: string, flags: seq<string>, origin: string, dir: string): (cmd: seq<string>)
    ensures |cmd| == |flags| + 6
    ensures cmd[..4] == [Compiler, script, origin, dir] && cmd[4..4 + |flags|] == flags
    ensures cmd[|flags| + 4..] == ["--log", dir + "/versionlogs.log"]
  {
    [Compiler, script, origin, dir] + flags + ["--log", dir + "/versionlogs.log"]
  }

  /** The versioned run for a side mirrors the origin into the `_1` slot of
      the very directory the restore reads that side's slots from. */
  lemma VersionRunFeedsRestore(cwd: Path, script: string, flags: seq<string>, origin: string, version: string)
    requires Normal(cwd)
    ensures var cmd := VersionCommand(script, flags, origin, VersionsSource(origin));
      && cmd[2] == origin && cmd[4..4 + |flags|] == flags
      && AbsPath(cwd, GetBackupPath(origin, "latest", "source").value) == Current(AbsPath(cwd, cmd[3]))
    ensures var cmd := VersionCommand(script, flags, origin, VersionsBackup(origin));
      && cmd[2] == origin && cmd[4..4 + |flags|] == flags
      && AbsPath(cwd, GetBackupPath(origin, "latest", "backup").value) == Current(AbsPath(cwd, cmd[3]))
  {
    SlotsAreOneWaySlots(cwd, VersionsSource(origin));
    SlotsAreOneWaySlots(cwd, VersionsBackup(origin));
  }

  // ---------------------------------------------------------------- registry

  /** .info.json: a JSON object, as its key/value pairs in insertion order. */
  type Registry = seq<(string, string)>

  predicate UniqueKeys(reg: Registry) {
    forall i, j :: 0 <= i < j < |reg| ==> reg[i].0 != reg[j].0
  }

  /** data.get(key). */
  function Lookup(reg: Registry, key: string): (v: Option<string>)
    ensures v.None? <==> forall i :: 0 <= i < |reg| ==> reg[i].0 != key
    ensures v.Some? ==> exists i :: 0 <= i < |reg| && reg[i] == (key, v.value)
  {
    if reg == [] then None
    else if reg[0].0 == key then Some(reg[0].1)
    else
      var v := Lookup(reg[1..], key);
      assert forall i :: 1 <= i < |reg| ==> reg[i] == reg[1..][i - 1];
      v
  }

  /** data[key] = value: an existing key keeps its place, a new one goes last. */
  function Put(reg: Registry, key: string, value: string): (reg': Registry)
    requires UniqueKeys(reg)
    ensures UniqueKeys(reg')
    ensures Lookup(reg', key) == Some(value)
    ensures forall k :: k != key ==> Lookup(reg', k) == Lookup(reg, k)
    ensures |reg'| == |reg| + (if Lookup(reg, key).None? then 1 else 0)
    ensures forall i :: 0 <= i < |reg| ==> reg'[i].0 == reg[i].0
  {
    if reg == [] then [(key, value)]
    else if reg[0].0 == key then
      PutHere(reg, key, value);
      [(key, value)] + reg[1..]
    else
      var rest := Put(reg[1..], key, value);
      PutBehind(reg, key, value, rest);
      [reg[0]] + rest
  }

  /** Putting a key behind a first pair with another key: the first pair
      stays, and what holds of the rest holds of the whole. */
  lemma PutBehind(reg: Registry, key: string, value: string, rest: Registry)
    requires UniqueKeys(reg) && reg != [] && reg[0].0 != key
    requires UniqueKeys(rest) && Lookup(rest, key) == Some(value)
    requires forall k :: k != key ==> Lookup(rest, k) == Lookup(reg[1..], k)
    requires |rest| == |reg[1..]| + (if Lookup(reg[1..], key).None? then 1 else 0)
    requires forall i :: 0 <= i < |reg[1..]| ==> rest[i].0 == reg[1..][i].0
    ensures UniqueKeys([reg[0]] + rest)
    ensures Lookup([reg[0]] + rest, key) == Some(value)
    ensures forall k :: k != key ==> Lookup([reg[0]] + rest, k) == Lookup(reg, k)
    ensures |[reg[0]] + rest| == |reg| + (if Lookup(reg, key).None? then 1 else 0)
    ensures forall i :: 0 <= i < |reg| ==> ([reg[0]] + rest)[i].0 == reg[i].0
  {
    var p := reg[0];
    assert [p] + reg[1..] == reg;
    FirstKeyAbsent(reg);
    assert Lookup(rest, p.0) == None by {
      assert Lookup(rest, p.0) == Lookup(reg[1..], p.0);
    }
    ConsUnique(p, rest);
    LookupConsAt(p, rest, key);
    LookupConsAt(p, reg[1..], key);
    forall k | k != key ensures Lookup([p] + rest, k) == Lookup(reg, k) {
      LookupConsAt(p, rest, k);
      LookupConsAt(p, reg[1..], k);
    }
    ConsKeys(reg, rest);
  }

  /** With unique keys, the first key does not come again. */
  lemma FirstKeyAbsent(reg: Registry)
    requires UniqueKeys(reg) && reg != []
    ensures Lookup(reg[1..], reg[0].0) == None
  {
    assert forall i :: 0 <= i < |reg[1..]| ==> reg[1..][i].0 != reg[0].0 by {
      forall i | 0 <= i < |reg[1..]| ensures reg[1..][i].0 != reg[0].0 {
        assert reg[1..][i] == reg[i + 1];
      }
    }
  }

  /** A pair put in front of a registry without its key keeps keys unique. */
  lemma ConsUnique(p: (string, string), rest: Registry)
    requires UniqueKeys(rest) && Lookup(rest, p.0) == None
    ensures UniqueKeys([p] + rest)
  {
    var r := [p] + rest;
    forall i, j | 0 <= i < j < |r| ensures r[i].0 != r[j].0 {
      assert r[j] == rest[j - 1];
      if i > 0 {
        assert r[i] == rest[i - 1];
      }
    }
  }

  /** The first pair stays in front, and the rest keeps its keys in order. */
  lemma ConsKeys(reg: Registry, rest: Registry)
    requires reg != [] && |rest| >= |reg| - 1
    requires forall i :: 0 <= i < |reg[1..]| ==> rest[i].0 == reg[1..][i].0
    ensures forall i :: 0 <= i < |reg| ==> ([reg[0]] + rest)[i].0 == reg[i].0
  {
    forall i | 0 <= i < |reg| ensures ([reg[0]] + rest)[i].0 == reg[i].0 {
      if i > 0 {
        assert ([reg[0]] + rest)[i] == rest[i - 1];
        assert reg[i] == reg[1..][i - 1];
      }
    }
  }

  /** Replacing the value of the first pair. */
  lemma PutHere(reg: Registry, key: string, value: string)
    requires UniqueKeys(reg) && reg != [] && reg[0].0 == key
    ensures UniqueKeys([(key, value)] + reg[1..])
    ensures forall k :: Lookup([(key, value)] + reg[1..], k) == if k == key then Some(value) else Lookup(reg, k)
  {
    LookupCons((key, value), reg[1..]);
    LookupCons(reg[0], reg[1..]);
    assert [reg[0]] + reg[1..] == reg;
  }

  /** Looking up in a registry that starts with `p`. */
  lemma LookupConsAt(p: (string, string), rest: Registry, k: string)
    ensures Lookup([p] + rest, k) == if k == p.0 then Some(p.1) else Lookup(rest, k)
  {
    assert ([p] + rest)[1..] == rest;
  }

  lemma LookupCons(p: (string, string), rest: Registry)
    ensures forall k :: Lookup([p] + rest, k) == if k == p.0 then Some(p.1) else Lookup(rest, k)
  {
    assert ([p] + rest)[1..] == rest;
  }

  /** get_recorded_path over a loaded registry: the first key whose value is
      exactly `path`. */
  function FirstKeyWith(reg: Registry, path: string): (k: Option<string>)
    ensures k.None? <==> forall i :: 0 <= i < |reg| ==> reg[i].1 != path
    ensures k.Some? ==> exists i :: 0 <= i < |reg| && reg[i] == (k.value, path) &&
                                     forall j :: 0 <= j < i ==> reg[j].1 != path
  {
    if reg == [] then None
    else if reg[0].1 == path then Some(reg[0].0)
    else
      var k := FirstKeyWith(reg[1..], path);
      assert forall i :: 1 <= i < |reg| ==> reg[i] == reg[1..][i - 1];
      FirstKeyShift(reg, path, k);
      k
  }

  lemma FirstKeyShift(reg: Registry, path: string, k: Option<string>)
    requires reg != [] && reg[0].1 != path
    requires k.Some? ==> exists i :: 0 <= i < |reg[1..]| && reg[1..][i] == (k.value, path) &&
                                     forall j :: 0 <= j < i ==> reg[1..][j].1 != path
    ensures k.Some? ==> exists i :: 0 <= i < |reg| && reg[i] == (k.value, path) &&
                                    forall j :: 0 <= j < i ==> reg[j].1 != path
  {
    if k.Some? {
      var i :| 0 <= i < |reg[1..]| && reg[1..][i] == (k.value, path) &&
               forall j :: 0 <= j < i ==> reg[1..][j].1 != path;
      assert reg[i + 1] == (k.value, path);
      assert forall j :: 1 <= j < i + 1 ==> reg[j] == reg[1..][j - 1];
    }
  }

  /** In a registry with unique keys, the key get_recorded_path finds maps to
      the path looked up. */
  lemma FoundKeyMapsToPath(reg: Registry, key: string, path: string)
    requires UniqueKeys(reg) && Lookup(reg, key) == Some(path)
    ensures FirstKeyWith(reg, path).Some?
    ensures Lookup(reg, FirstKeyWith(reg, path).value) == Some(path)
  {
    var k := FirstKeyWith(reg, path).value;
    var i :| 0 <= i < |reg| && reg[i] == (k, path) && forall j :: 0 <= j < i ==> reg[j].1 != path;
    UniqueLookup(reg, i);
  }

  lemma {:induction false} UniqueLookup(reg: Registry, i: nat)
    requires UniqueKeys(reg) && i < |reg|
    ensures Lookup(reg, reg[i].0) == Some(reg[i].1)
  {
    if i > 0 {
      assert reg[1..][i - 1] == reg[i];
      UniqueLookup(reg[1..], i - 1);
    }
  }

  /** config.json: which of its two keys are present. */
  datatype Config = Config(script: Option<string>, flags: Option<seq<string>>)

  function DefaultConfig(): Config {
    Config(Some(DefaultScript), Some(DefaultFlags))
  }

  /** config.get(key, default). */
  function GetOr<T>(v: Option<T>, default: T): T {
    if v.Some? then v.value else default
  }

  // ---------------------------------------------------------------- restoration

  /** A copy placed where nothing was, after os.makedirs of its root: the
      copy shows as itself. */
  lemma ViewCopied(base: Entries, t: Tree, T: Path)
    requires forall q :: q in base ==> !(T <= q)
    requires [] in t
    ensures View(WithDirs(base, T) + Placed(t, T), T) == t
  {
    assert T + [] == T;
    ViewAgree(WithDirs(base, T) + Placed(t, T), base + Placed(t, T), T);
    ViewPlaced(base, t, T);
  }

  /** rmtree of the target leaves the slot and everything above the target. */
  lemma RemovedTarget(e: Entries, T: Path, Sl: Path)
    requires Wf(e) && Disjoint(T, Sl) && T in e && e[T].Dir?
    ensures View(Without(e, T), Sl) == View(e, Sl)
    ensures T !in Without(e, T) && !FileAbove(Without(e, T), T)
    ensures Sl in e ==> Sl in Without(e, T) && Without(e, T)[Sl] == e[Sl]
  {
    ViewAgree(Without(e, T), e, Sl);
    if FileAbove(Without(e, T), T) {
      var i :| 0 <= i < |T| && T[..i] in Without(e, T) && Without(e, T)[T[..i]].File?;
      AncestorsExist(e, T, T[..i]);
    }
  }

  /** A restoration that copied the slot over: the target shows the slot,
      which is untouched, and outside the target only its missing ancestors
      appear. */
  lemma Restored(e: Entries, e1: Entries, T: Path, Sl: Path)
    requires Wf(e) && Disjoint(T, Sl) && Sl in e && e[Sl].Dir?
    requires forall p :: p in e1 <==> p in e && !(T <= p)
    requires forall p :: p in e1 ==> e1[p] == e[p]
    requires View(e1, Sl) == View(e, Sl)
    ensures var e2 := WithDirs(e1, T) + Placed(View(e1, Sl), T);
      View(e2, T) == View(e, Sl) && View(e2, Sl) == View(e, Sl) && Outside(e, e2, T)
  {
    var e2 := WithDirs(e1, T) + Placed(View(e1, Sl), T);
    assert Sl + [] == Sl && !(T <= Sl);
    assert [] in View(e1, Sl);
    ViewCopied(e1, View(e1, Sl), T);
    SlotUntouched(e1, View(e1, Sl), T, Sl);
    CopiedOutside(e, e1, View(e1, Sl), T);
  }

  /** Outside the target, the copy only adds the target's missing ancestors. */
  lemma CopiedOutside(e: Entries, e1: Entries, t: Tree, T: Path)
    requires forall p :: p in e1 <==> p in e && !(T <= p)
    requires forall p :: p in e1 ==> e1[p] == e[p]
    ensures Outside(e, WithDirs(e1, T) + Placed(t, T), T)
  {
  }

  /** Nothing at or below the slot changes when the copy is placed at the target. */
  lemma SlotUntouched(e1: Entries, t: Tree, T: Path, Sl: Path)
    requires Disjoint(T, Sl)
    ensures View(WithDirs(e1, T) + Placed(t, T), Sl) == View(e1, Sl)
  {
    var e2 := WithDirs(e1, T) + Placed(t, T);
    forall q | Sl <= q ensures (q in e2 <==> q in e1) && (q in e1 ==> e2[q] == e1[q]) {
      assert !(T <= q) && !(q <= T);
    }
    ViewAgree(e2, e1, Sl);
  }

  /** How perform_restoration(target, slot) leaves the disk `e` as `e'`:
      sys.exit(1), with nothing changed, exactly when the slot is not found;
      success exactly when the slot is a directory, the target is not empty
      nor a file and has no file above it; on success the target shows the
      slot and only its missing ancestors appear outside it; an os error
      leaves the disk as it was or with the target removed; the slot itself
      never changes. */
  ghost predicate RestorationEnds(e: Entries, e': Entries, cwd: Path, target: string, slot: string, f: Flow<Outcome>)
    requires Normal(cwd)
  {
    var T, Sl := AbsPath(cwd, target), AbsPath(cwd, slot);
    && (f == SysExit(1) <==> !PathExists(e, cwd, slot))
    && (f.SysExit? ==> f == SysExit(1) && e' == e)
    && (f == Return(Ok) <==>
          PathExists(e, cwd, slot) && e[Sl].Dir? && target != "" && (T in e ==> e[T].Dir?) && !FileAbove(e, T))
    && (f == Return(Ok) ==> View(e', T) == View(e, Sl) && Outside(e, e', T))
    && (f.Return? && f.value != Ok ==> e' == e || e' == Without(e, T))
    && View(e', Sl) == View(e, Sl)
  }

  // ---------------------------------------------------------------- versions directories

  /** `if not os.path.exists(p): os.makedirs(p)` can go on: `p` is there
      already, or no file stands above it. */
  ghost predicate Creatable(e: Entries, p: Path) {
    p in e || !FileAbove(e, p)
  }

  /** `if not os.path.exists(p): os.makedirs(p)`. */
  method EnsureDir(disk: Disk, p: Path) returns (ok: bool)
    requires disk.Valid()
    modifies disk
    ensures disk.Valid()
    ensures ok <==> Creatable(old(disk.entries), p)
    ensures disk.entries == if ok then WithDirs(old(disk.entries), p) else old(disk.entries)
  {
    if p in disk.entries {
      WithDirsPresent(disk.entries, p);
      return true;
    }
    ok := disk.MakeDirs(p);
  }

  /** makedirs of a path that is there changes nothing. */
  lemma WithDirsPresent(e: Entries, p: Path)
    requires Wf(e) && p in e
    ensures WithDirs(e, p) == e
  {
    forall q | q <= p ensures q in e {
      AncestorsExist(e, p, q);
    }
  }

  /** Making one versions directory does not change whether a later one can
      be made: it adds directories only, and any it adds above the later
      one could only be added because no file stands above them. */
  lemma CreatableKept(e: Entries, q: Path, p: Path)
    requires Wf(e) && Creatable(e, q)
    ensures Creatable(WithDirs(e, q), p) <==> Creatable(e, p)
  {
    var e' := WithDirs(e, q);
    if FileAbove(e', p) {
      var i :| 0 <= i < |p| && p[..i] in e' && e'[p[..i]].File?;
      assert p[..i] in e;
    }
    if p in e' && p !in e && FileAbove(e, p) {
      var i :| 0 <= i < |p| && p[..i] in e && e[p[..i]].File?;
      assert p <= q;
      assert q[..i] == p[..i];
      FileAboveMeansMissing(e, q);
    }
  }

  /** The versions directories `p0`, `p1`, `p2` are made in turn: the run goes
      on exactly when each is there or can be made, the disk is the original
      with the makedirs of those made before the first failure, and on
      success all three exist. */
  ghost predicate VersionDirsMade(e: Entries, e': Entries, p0: Path, p1: Path, p2: Path, ok: bool) {
    && (ok <==> Creatable(e, p0) && Creatable(e, p1) && Creatable(e, p2))
    && e' == (if !Creatable(e, p0) then e
              else if !Creatable(e, p1) then WithDirs(e, p0)
              else if !Creatable(e, p2) then WithDirs(WithDirs(e, p0), p1)
              else WithDirs(WithDirs(WithDirs(e, p0), p1), p2))
    && (ok ==> p0 in e' && p1 in e' && p2 in e')
  }

  /** Directories made earlier are still there after later makedirs. */
  lemma DirsMadeExist(e: Entries, e1: Entries, e2: Entries, e3: Entries, p0: Path, p1: Path, p2: Path)
    requires e1 == WithDirs(e, p0) && e2 == WithDirs(e1, p1) && e3 == WithDirs(e2, p2)
    ensures p0 in e3 && p1 in e3 && p2 in e3
  {
    assert p0 <= p0 && p1 <= p1 && p2 <= p2;
  }

  /** record_paths' second entry: `b` is mapped to its absolute path when
      os.path.exists finds it, and keeps its earlier value otherwise. */
  ghost predicate BackupRecorded(e: Entries, cwd: Path, b: string, before: Registry, after: Registry)
    requires Normal(cwd)
  {
    Lookup(after, b) == if PathExists(e, cwd, b) then Some(AbsPathString(cwd, b)) else Lookup(before, b)
  }

  /** The registry is there, its keys are unique, and the origin maps to its
      absolute path. */
  ghost predicate OriginRecorded(registry: Option<Registry>, cwd: Path, origin: string)
    requires Normal(cwd)
  {
    registry.Some? && UniqueKeys(registry.value) && Lookup(registry.value, origin) == Some(AbsPathString(cwd, origin))
  }

  /** Every key other than `a` and `b` looks up as it did before. */
  ghost predicate OthersKept(before: Registry, after: Registry, a: string, b: string) {
    forall k :: k != a && k != b ==> Lookup(after, k) == Lookup(before, k)
  }

  /** The origin's entry is put, then the backup's when `found`. */
  lemma TwoPuts(before: Registry, first: Registry, after: Registry, a: string, va: string,
                b: string, vb: string, found: bool)
    requires UniqueKeys(before) && a != b && first == Put(before, a, va)
    requires after == if found then Put(first, b, vb) else first
    ensures UniqueKeys(after)
    ensures Lookup(after, a) == Some(va)
    ensures Lookup(after, b) == if found then Some(vb) else Lookup(before, b)
    ensures OthersKept(before, after, a, b)
  {
    forall k | k != a && k != b ensures Lookup(after, k) == Lookup(before, k) {
      assert Lookup(first, k) == Lookup(before, k);
    }
  }

  class RestoreSystem {
    var origin: string
    var script: string
    var flags: seq<string>
    /** The contents of config.json, absent or present. */
    var config: Option<Config>
    /** The contents of .info.json, absent or present. */
    var registry: Option<Registry>

    /** __init__: the defaults, then load_config and record_paths. */
    constructor (disk: Disk, cwd: Path, origin: string, config: Option<Config>, registry: Option<Registry>)
      requires Normal(cwd)
      requires registry.Some? ==> UniqueKeys(registry.value)
      ensures this.origin == origin
      ensures this.config == Some(if config.None? then DefaultConfig() else config.value)
      ensures script == GetOr(this.config.value.script, DefaultScript)
      ensures flags == GetOr(this.config.value.flags, DefaultFlags)
      ensures OriginRecorded(this.registry, cwd, origin)
      ensures BackupRecorded(disk.entries, cwd, origin + "_backup", GetOr(registry, []), this.registry.value)
      ensures OthersKept(GetOr(registry, []), this.registry.value, origin, origin + "_backup")
    {
      this.origin := origin;
      this.config := config;
      this.registry := registry;
      script := DefaultScript;
      flags := DefaultFlags;
      new;
      LoadConfig();
      ghost var c, s, f := this.config, script, flags;
      RecordPaths(disk, cwd);
      assert OriginRecorded(this.registry, cwd, this.origin);
      assert this.config == c && script == s && flags == f;
    }

    /** load_config: write the defaults when config.json is absent, then
        take `script` and `flags` from it, each falling back to its own
        default when its key is missing. */
    method LoadConfig()
      modifies this`config, this`script, this`flags
      ensures config == Some(if old(config).None? then DefaultConfig() else old(config).value)
      ensures script == GetOr(config.value.script, DefaultScript)
      ensures flags == GetOr(config.value.flags, DefaultFlags)
    {
      if config.None? {
        config := Some(DefaultConfig());
      }
      script := GetOr(config.value.script, DefaultScript);
      flags := GetOr(config.value.flags, DefaultFlags);
    }

    /** record_paths: load .info.json (or start empty), map the origin to its
        absolute path, and `<origin>_backup` to its own when it exists; every
        other entry stays, and the file is written back. */
    method RecordPaths(disk: Disk, cwd: Path)
      requires Normal(cwd)
      requires registry.Some? ==> UniqueKeys(registry.value)
      modifies this`registry
      ensures OriginRecorded(registry, cwd, origin)
      ensures BackupRecorded(disk.entries, cwd, origin + "_backup", GetOr(old(registry), []), registry.value)
      ensures OthersKept(GetOr(old(registry), []), registry.value, origin, origin + "_backup")
    {
      var before := GetOr(registry, []);
      var data := Put(before, origin, AbsPathString(cwd, origin));
      ghost var first := data;
      var b := origin + "_backup";
      assert b != origin by { assert |b| > |origin|; }
      var found := PathExists(disk.entries, cwd, b);
      if found {
        data := Put(data, b, AbsPathString(cwd, b));
      }
      TwoPuts(before, first, data, origin, AbsPathString(cwd, origin), b, AbsPathString(cwd, b), found);
      registry := Some(data);
    }

    /** get_recorded_path: the first key recorded for exactly `path`; none
        without a registry. */
    function GetRecordedPath(path: string): (k: Option<string>)
      reads this
      ensures k.None? <==> registry.None? || forall i :: 0 <= i < |registry.value| ==> registry.value[i].1 != path
      ensures k.Some? ==> exists i :: 0 <= i < |registry.value| && registry.value[i] == (k.value, path)
    {
      if registry.None? then None else FirstKeyWith(registry.value, path)
    }

    /** After record_paths, the origin's absolute path is found again, under
        a key that maps to it. */
    lemma RecordedOriginIsFound(cwd: Path)
      requires Normal(cwd) && registry.Some? && UniqueKeys(registry.value)
      requires Lookup(registry.value, origin) == Some(AbsPathString(cwd, origin))
      ensures GetRecordedPath(AbsPathString(cwd, origin)).Some?
      ensures Lookup(registry.value, GetRecordedPath(AbsPathString(cwd, origin)).value)
           == Some(AbsPathString(cwd, origin))
    {
      FoundKeyMapsToPath(registry.value, origin, AbsPathString(cwd, origin));
    }

    /** run_versioned_backups up to the subprocesses: each of the three
        versions directories, in turn, is made with os.makedirs unless it
        exists (which raises under a file and ends the call), then the two
        commands, for the origin's versions and the backup's. */
    method RunVersionedBackups(disk: Disk, cwd: Path) returns (ok: bool, commands: seq<seq<string>>)
      requires disk.Valid() && Normal(cwd)
      modifies disk
      ensures disk.Valid()
      ensures VersionDirsMade(old(disk.entries), disk.entries, AbsPath(cwd, "./__versions__"),
                              AbsPath(cwd, VersionsSource(origin)), AbsPath(cwd, VersionsBackup(origin)), ok)
      ensures ok ==> commands == [VersionCommand(script, flags, origin, VersionsSource(origin)),
                                  VersionCommand(script, flags, origin, VersionsBackup(origin))]
      ensures !ok ==> commands == []
    {
      commands := [];
      var P0, P1, P2 := AbsPath(cwd, "./__versions__"), AbsPath(cwd, VersionsSource(origin)), AbsPath(cwd, VersionsBackup(origin));
      ghost var e := disk.entries;
      ok := EnsureDir(disk, P0);
      if !ok {
        return;
      }
      CreatableKept(e, P0, P1);
      CreatableKept(e, P0, P2);
      ghost var e1 := disk.entries;
      ok := EnsureDir(disk, P1);
      if !ok {
        return;
      }
      CreatableKept(e1, P1, P2);
      ghost var e2 := disk.entries;
      ok := EnsureDir(disk, P2);
      if !ok {
        return;
      }
      DirsMadeExist(e, e1, e2, disk.entries, P0, P1, P2);
      commands := [VersionCommand(script, flags, origin, VersionsSource(origin)),
                   VersionCommand(script, flags, origin, VersionsBackup(origin))];
    }

    /** perform_restoration(target, backup_path): sys.exit(1) if the slot is
        not found; otherwise rmtree the target if it exists, then copytree
        the slot onto it. An os error (a target that is a file, a slot that
        is not a directory, a target under a file) propagates. */
    method PerformRestoration(disk: Disk, cwd: Path, target: string, slot: string) returns (f: Flow<Outcome>)
      requires disk.Valid() && Normal(cwd)
      requires Disjoint(AbsPath(cwd, target), AbsPath(cwd, slot))
      modifies disk
      ensures disk.Valid()
      ensures RestorationEnds(old(disk.entries), disk.entries, cwd, target, slot, f)
    {
      ghost var e := disk.entries;
      var T, Sl := AbsPath(cwd, target), AbsPath(cwd, slot);
      if !PathExists(disk.entries, cwd, slot) {
        return SysExit(1);
      }
      if target == "" {
        // copytree's os.makedirs('') raises
        return Return(Raised(OsError));
      }
      if T in disk.entries {
        if disk.entries[T].File? {
          // rmtree of a file raises
          return Return(Raised(OsError));
        }
        RemovedTarget(disk.entries, T, Sl);
        disk.RmTree(T);
      } else {
        ViewAgree(disk.entries, e, Sl);
        forall q | q in disk.entries ensures !(T <= q) {
          if T <= q { AncestorsExist(disk.entries, q, T); }
        }
      }
      ghost var e1 := disk.entries;
      var ok := disk.CopyTree(Sl, T);
      if !ok {
        return Return(Raised(OsError));
      }
      Restored(e, e1, T, Sl);
      f := Return(Ok);
    }

    /** restore_version(target, version): an unknown target exits with 1 and
        changes nothing; otherwise the restoration from the chosen slot. */
    method RestoreVersion(disk: Disk, cwd: Path, target: string, version: string) returns (f: Flow<Outcome>)
      requires disk.Valid() && Normal(cwd)
      requires RestoreSlot(origin, target, version).Return? ==>
        Disjoint(AbsPath(cwd, target), AbsPath(cwd, RestoreSlot(origin, target, version).value))
      modifies disk
      ensures disk.Valid()
      ensures target != origin && target != origin + "_backup" ==> f == SysExit(1) && disk.entries == old(disk.entries)
      ensures RestoreSlot(origin, target, version).Return? ==>
        RestorationEnds(old(disk.entries), disk.entries, cwd, target, RestoreSlot(origin, target, version).value, f)
    {
      var slot := RestoreSlot(origin, target, version);
      if slot.SysExit? {
        return SysExit(1);
      }
      f := PerformRestoration(disk, cwd, target, slot.value);
    }
  }
}
