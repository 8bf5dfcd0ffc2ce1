# Folder-Synchronizer in Dafny

A model of the Folder-Synchronizer repository. It has three programs that
mirror a source directory into a backup directory, plus a restore tool.

- `main.py` is the original one-way mirror. Each pass walks the source top
  down. It creates missing target directories and copies files that are
  missing or whose MD5 checksum differs. It then walks the target bottom up
  and removes whatever has no counterpart in the source. The target is
  `<backup>/<basename(source)>_backup`.
- `OneWay/main.py` is the same pass with SHA-256 checksums and a working
  operation counter. It also has an optional two-generation versioned backup
  (`manage_versioned_backups`, with slots `_0` and `_1` compared by
  `directory_checksum`).
- `TwoWay/synchronizer.py` is a `FolderSynchronizer` object. It runs the pass
  from the source side (`sync_by_source`) or from `<source>_backup` back onto
  the source (`sync_by_backup`). The side is chosen by the root modification
  times in `run`. It counts every change and appends an audit record to
  `updates.json` for every copy and removal. `TwoWay/main.py` validates the
  arguments and starts it.
- `TwoWay/recovery.py` is a `RestoreSystem`. It records absolute paths in
  `.info.json` and reads `config.json`. It starts two versioned runs of OneWay
  on the origin, into the origin's and the backup's versions directories, and restores a directory by replacing it with a
  copy of a slot.

The disk is a `FileSystem.Disk` object. Its field `entries` maps absolute
paths (sequences of components) to files and directories. The os and shutil
calls (`makedirs`, `copy2`, `remove`, `rmtree`, `move`, `copytree`) are
methods that update it, each stating its failure condition and its new state.
Raw command-line strings are resolved as `os.path.abspath` does (module
`Paths`), and looked up as `os.path.exists` does, one component at a time
(`FileSystem.PathExists`).

One pass of `sync_directories` is implemented once, in module `SyncEngine`,
as two loops over the pending entries of each walk. The top-down loop takes a
shortest pending entry and the bottom-up loop a longest one, so every entry
comes after its ancestors (top down) or its descendants (bottom up). `Synced`
does not depend on that order: it allows any subset of the pass's changes,
applied in the order they were made. The three copies of the pass differ only in a `Policy`:
- the checksum algorithm;
- whether missing directories are created (not from the backup side in
  TwoWay);
- whether `count_operations` raises (`main.py`);
- whether a directory removal is audited by checksumming the directory
  (TwoWay as written).

The pass is specified on trees in module `Mirror`. `Changes` is the set of
changes a pass needs, `Conflict` is where an os call raises, and `Mirrored`
is the target a finished pass leaves. `SyncEngine.Synced` relates the disk
after a pass to them:
- it finishes exactly when nothing conflicts;
- it then leaves the mirrored target, having applied every change once;
- it raises an os error only on a conflict;
- whether it finishes or raises, the target is the old target with the
  changes it applied performed in order (`Mirror.ApplyAll`);
- it leaves the source alone, and outside the target only the target's
  missing ancestors may appear.

The programs' entry points run the passes as the code has them. The
corrected passes appear only as the corrected halves of the Findings.

The modules are `Paths`, `FileSystem`, `Mirror`, `WalkSteps` (facts about a
single step of a walk), `Visits` (the loop invariants of the two walks),
`SyncEngine`, `Startup`, `OneWay`, `Legacy` (`main.py`), `TwoWay`,
`TwoWayMain` and `Recovery`.

Two facts about the code shape the model:
- Nothing in a pass catches an os error, so the first one ends the pass
  (`Outcome.Raised(OsError)`).
- `load_config` only creates a missing `config.json`. A file that is present
  is read, and each key falls back to its own default.

## Model

| member | source | states |
|---|---|---|
| Paths.AbsPath | OneWay/main.py:82 | os.path.abspath: the result is normalised, and an absolute argument ignores the working directory |
| Paths.AbsPathString | OneWay/main.py:42 | the string os.path.abspath returns is the normalised path printed with one leading slash, unless the raw path starts with exactly two |
| Paths.CommonPath | OneWay/main.py:45 | os.path.commonpath is a common prefix of both paths and cannot be extended |
| Paths.CommonPathIsFirst | OneWay/main.py:45-46 | the common path equals the first path exactly when the first is a component prefix of the second |
| Paths.IsSubdirectoryOfSource | OneWay/main.py:41-46 | the commonpath string equals the abspath string of the source exactly when the absolute backup starts with the absolute source's components and the source does not start with exactly two slashes, which abspath keeps and commonpath drops |
| Paths.PathStringInjective | OneWay/main.py:45-46 | two normalised paths print the same exactly when they are the same, so comparing the strings compares the paths |
| Paths.SingleSlashIsNotDouble | OneWay/main.py:45-46 | a printed path (what commonpath returns) never equals a string starting with two slashes |
| Paths.IsInsideSource | OneWay/main.py:41-46 | the intended guard holds exactly when the absolute backup starts with the absolute source's components; when it fails, the mirror directory is outside the source |
| Paths.SiblingWithCommonPrefixIsNotInside | main.py:41-46 | for any plain source name `b` and any non-empty extension `c` without '/', the backup `bc` is not beneath `b` although the strings share a prefix (the guard compares paths, not strings) |
| Paths.ChildIsInside | main.py:41-46 | for plain names `b` and `c`, the backup `b/c` is beneath the source `b`, so the guard refuses it |
| Paths.MirrorTarget | OneWay/main.py:86 | the mirror directory is a child of the absolute backup named `<basename(source)>_backup` |
| Paths.MirrorOutsideSource | OneWay/main.py:86 | the mirror directory lies at or below the source only when the backup does, since its name is longer than the source's |
| Paths.SiblingBackup | TwoWay/synchronizer.py:44 | `source + "_backup"` names the source's sibling `<basename>_backup` when the raw source ends in a name |
| Paths.TrailingSlashBackupIsChild | TwoWay/synchronizer.py:44 | with a trailing '/', `source + "_backup"` names the child `_backup` inside the source |
| FileSystem.FileChecksum | OneWay/main.py:147-152 | file_checksum yields a digest under the program's algorithm |
| FileSystem.ChecksumsDifferIffContentsDiffer | main.py:71 | two files' checksums differ exactly when their contents differ |
| FileSystem.PathExists | OneWay/main.py:28 | os.path.exists looks the raw path up one component at a time, each through an existing directory; when found, the path is not empty and its normalised path is an entry |
| FileSystem.PathExistsWithoutParentSteps | OneWay/main.py:28 | without a ".." component, a path that normalises to an existing directory is found |
| FileSystem.Disk.MakeDirs | OneWay/main.py:94-95 | os.makedirs fails when the path exists or a file lies above it; otherwise the path and its missing ancestors become directories |
| FileSystem.Disk.Copy2 | OneWay/main.py:104-105 | shutil.copy2 fails unless the parent is a directory; otherwise the target file takes the source's content |
| FileSystem.Disk.Remove | OneWay/main.py:119-120 | os.remove deletes exactly that file |
| FileSystem.Disk.RmTree | OneWay/main.py:129-130 | shutil.rmtree deletes the directory and everything below it |
| FileSystem.Disk.Move | OneWay/main.py:69 | shutil.move puts the directory's subtree at the new path and removes the old one |
| FileSystem.Disk.CopyTree | TwoWay/recovery.py:135 | shutil.copytree fails unless the source is a directory and the target can be created; otherwise the target holds a copy of the subtree |
| Mirror.MirroredEntries | OneWay/main.py:89-132 | after a finished pass every source file is in the target with its content, nothing below the root lacks a source counterpart, and a source directory is present when it was or when directories are created |
| Mirror.MirrorIsExact | OneWay/main.py:89-132 | when directories are created and no source directory faces a target file, the target equals the source tree |
| Mirror.SecondPassIsNoOp | OneWay/main.py:192-195 | a second pass over an unchanged source needs no change, raises nothing and leaves the target as it is |
| Mirror.NoChangesIffMirrored | OneWay/main.py:89-132 | unless a source file faces a target directory, a pass needs no change exactly when the target already is its mirror |
| Mirror.ChangeAt | OneWay/main.py:94-132 | each missing directory, missing or changed file, and orphan file or directory contributes its change to the pass |
| SyncEngine.VisitSource | OneWay/main.py:91-107 | one step of the top-down walk creates the directory or copies the file as needed, and raises only where the entry conflicts, leaving the disk unchanged; at the root, a target that is a file is not found as `T/.` and makedirs raises |
| SyncEngine.TopDown | OneWay/main.py:89-107 | the top-down walk applies only phase-1 changes, each once when it finishes, and raises only at a conflict; finished or not, the target is the old one with the applied changes performed in order |
| SyncEngine.BottomUp | OneWay/main.py:110-132 | the bottom-up walk removes exactly the entries with no source counterpart, each once when it finishes, and raises only at a conflict; finished or not, the target is the one phase 1 left with the applied removals performed in order |
| SyncEngine.SyncDirectories | OneWay/main.py:80-132 | one whole pass satisfies Synced: it finishes exactly when nothing conflicts, then leaves the mirrored target having applied each change once; finished or not, the target is the old one with the applied changes performed in order; the source is untouched |
| SyncEngine.SecondPassChangesNothing | OneWay/main.py:192-196 | a pass right after a finished pass over an unchanged source finishes, applies nothing and leaves the target unchanged |
| SyncEngine.EmptySourceOntoFileRaises | OneWay/main.py:89-96 | an empty source root facing a target root that is a regular file: `T/.` is not found, makedirs raises, and the pass ends in an os error with nothing applied and the target as it was |
| Startup.DoesPathExist | OneWay/main.py:27-35 | does_path_exist holds only for a non-empty path that os.path.exists finds and whose normalised path is a directory |
| Startup.DoesPathExistWithoutParentSteps | OneWay/main.py:27-35 | without a ".." component, does_path_exist holds exactly for a non-empty path that normalises to an existing directory |
| Startup.ParentStepThroughMissingIsNotFound | OneWay/main.py:28 | "x/.." normalises to an existing directory yet is not found when x is missing |
| Startup.Validate | OneWay/main.py:179-192 | main's checks end in proceeding or in exit status 1, and proceed only with both paths existing directories |
| Startup.ValidateProceeds | OneWay/main.py:179-192 | main proceeds exactly when both paths are found as directories and the backup is not the source or beneath it, or the source starts with exactly two slashes; otherwise it exits with 1 |
| Startup.ValidateIntended | OneWay/main.py:179-192 | the intended checks exit with 1 or proceed, and proceed only when the mirror directory is outside the source |
| Startup.DoubleSlashSourcePassesTheGuard | OneWay/main.py:41-46 | source and backup both `//a`: the checks as written proceed with the mirror directory inside the source, the intended ones exit with 1 |
| OneWay.DirectoryChecksum | OneWay/main.py:134-142 | directory_checksum covers exactly the files of the tree, each file's digest kept under its relative path |
| OneWay.ChecksumsEqualIffSameFiles | OneWay/main.py:134-142 | two modelled directory checksums (maps from relative path to file digest) are equal exactly when the trees hold the same files at the same relative paths with the same contents |
| OneWay.EmptyDirectoryIsInvisible | OneWay/main.py:136-141 | an added empty directory does not change directory_checksum |
| OneWay.ChangedFileIsSeen | OneWay/main.py:136-141 | changing one file's content changes directory_checksum |
| OneWay.SlotChecksum | OneWay/main.py:59-60 | the checksum is absent exactly when the path does not exist, and a regular file gives the checksum of nothing |
| OneWay.ManageVersionedBackups | OneWay/main.py:49-78 | bootstrap creates and returns `_0`; when `_1` matches the incoming checksum it returns `_1` and changes nothing; otherwise `_1` moves to `_0`, `_1` is recreated empty and returned, and nothing outside the two slots changes |
| OneWay.Rotate | OneWay/main.py:65-74 | the rotation raises (rmtree on a file) exactly when `_1` exists and `_0` is a file; otherwise `_0` holds the old `_1` and `_1` is an empty directory |
| OneWay.MoveCurrent | OneWay/main.py:67-74 | with both slots present, `_0` ends holding the old `_1`, `_1` is an empty directory, and nothing outside the two slots changes |
| OneWay.MoveSlot | OneWay/main.py:69 | shutil.move of `_1` onto a missing `_0` leaves `_1` gone and `_0` holding what `_1` held, directory or file, and nothing outside the slots changes |
| OneWay.OnlySlotsCreated | OneWay/main.py:49-78 | the returned slot is `_0` or `_1`, and nothing new appears under the versions directory outside them |
| OneWay.SyncedSlotMatchesSource | OneWay/main.py:59-62 | after a finished pass into a slot, the slot's directory checksum equals the source's, so the next rotation is skipped |
| OneWay.MirroredFiles | OneWay/main.py:89-132 | a finished pass leaves a target whose files are exactly the source's |
| OneWay.Program.constructor | OneWay/main.py:12 | the global counter starts at 0 |
| OneWay.Program.SyncDirectories | OneWay/main.py:80-132 | the target is the mirror directory or the slot manage_versioned_backups returns; a rotation that raises ends the call; otherwise the pass is Synced (on a raise too, the target holds exactly the applied changes) and the counter grows by the changes applied |
| OneWay.Program.Start | OneWay/main.py:179-192 | main exits with 1 and changes nothing when the checks fail; otherwise it runs one counted pass: the plain pass into the mirror directory is Synced, and the versioned one rotates the slots as manage_versioned_backups does, then either raises with nothing applied or is Synced into the returned slot; a Synced pass that raises leaves the target with exactly its applied changes |
| Legacy.FirstChangeStopsThePass | main.py:111-112 | as written, a pass that needs any change never finishes; without another conflict it raises UnboundLocalError right after its first change; the target is the old one with at most that first change performed |
| Legacy.OneFileAsWrittenStops | main.py:111-112 | for a source holding one file and a missing target, the pass as written applies only the creation of the target directory, leaving it empty, and raises UnboundLocalError; the intended pass applies both changes, finishes, and leaves the target equal to the source |
| Legacy.Program.SyncDirectoriesAsWritten | main.py:50-99 | the pass as written satisfies Synced with a counter that raises, so the target holds exactly the changes applied before the raise |
| Legacy.Program.SyncDirectories | main.py:50-99 | the intended pass is Synced with MD5 checksums (the target holds exactly the applied changes, finished or not) and counts each change once |
| Legacy.Program.Start | main.py:133-146 | main exits with 1 and changes nothing when the checks fail; otherwise it runs one pass as written, Synced with the raising counter (the target holds exactly the changes applied before the raise), and the counter never moves |
| TwoWay.TargetOf | TwoWay/synchronizer.py:66-72 | from the source side the target is a child of the absolute backup; from the backup side it is the absolute backup itself |
| TwoWay.AuditsOf | TwoWay/synchronizer.py:94-119 | every applied change except a directory creation writes exactly one record |
| TwoWay.RecordOf | TwoWay/synchronizer.py:94-119 | a created directory writes no record; a copy writes one UPDATE for the source file, a file removal one DELETE for the target file, both with a checksum; a directory removal one UPDATE without a checksum |
| TwoWay.RecordsDescribeThePass | TwoWay/synchronizer.py:87-122 | every record describes a copy (with the source checksum) or a removal (a file's last checksum, or a directory); after a finished pass every copy and removal has its record |
| TwoWay.AuditedRecordsHaveChecksums | TwoWay/synchronizer.py:119 | as written, every record carries a checksum, because no directory removal is ever applied |
| TwoWay.BackupSideCreatesNoDirectory | TwoWay/synchronizer.py:81 | from the backup side no directory is created, so every change writes a record |
| TwoWay.SecondPassWritesNoRecord | TwoWay/synchronizer.py:124-137 | a second pass in the same direction over unchanged trees writes no record and counts nothing |
| TwoWay.SiblingIsDisjoint | TwoWay/synchronizer.py:43-45 | `<source>_backup` and the source are disjoint when the raw source ends in a name |
| TwoWay.TrailingSlashSiblingIsNested | TwoWay/synchronizer.py:43-45 | with a trailing '/' the backup-side pass reads from inside its own target |
| TwoWay.DirectionIsAntisymmetric | TwoWay/synchronizer.py:133-136 | exactly one side wins: with distinct mtimes, swapping them swaps the winner, and a tie goes to the backup |
| TwoWay.Direction | TwoWay/synchronizer.py:133-136 | run syncs from the source side exactly when the source's mtime is strictly later |
| TwoWay.DirectoryRemovalAlwaysRaises | TwoWay/synchronizer.py:118-120 | as written, a pass that has to remove a directory raises an os error, never removes one, and leaves that directory in the target |
| TwoWay.TargetWithDirAsWrittenRaises | TwoWay/synchronizer.py:118-121 | for an empty source and a target holding `d/`, the pass as written raises with no change and the target still holding `d`; the corrected pass removes `d`, writes one record, finishes, and leaves the target mirroring the empty source |
| TwoWay.FolderSynchronizer.constructor | TwoWay/synchronizer.py:13-19 | the fields are set and the counter starts at 0 with an empty audit trail |
| TwoWay.FolderSynchronizer.SyncDirectoriesAsWritten | TwoWay/synchronizer.py:63-122 | the pass as written is Synced with the directory audit raising, so on a raise the target holds exactly the changes applied before it; counter and audit grow by what it applied |
| TwoWay.FolderSynchronizer.SyncDirectories | TwoWay/synchronizer.py:63-122 | the pass with a directory removal audited without a checksum is Synced (the target holds exactly the applied changes, finished or not); counter and audit grow by what it applied |
| TwoWay.FolderSynchronizer.SyncBySource | TwoWay/synchronizer.py:39-41 | the pass as written from the source into the mirror directory, directories created and a directory removal raising, is Synced (the target holds exactly the applied changes, finished or not); counter and audit grow by what it applied |
| TwoWay.FolderSynchronizer.SyncByBackup | TwoWay/synchronizer.py:43-45 | the pass as written from `<source>_backup` onto the source, no directory created and a directory removal raising, is Synced (the source holds exactly the applied changes, finished or not); counter and audit grow by what it applied |
| TwoWay.FolderSynchronizer.RunStep | TwoWay/synchronizer.py:124-136 | getmtime raises, changing nothing, exactly when os.stat does not find one of the two sides, looked up component by component; otherwise exactly one pass as written runs from the side chosen by Direction, Synced, with counter and audit grown by its records |
| TwoWayMain.Start | TwoWay/main.py:66-82 | exit 1 before the synchronizer exists when a path is not a directory; exit 1 with a fresh, untouched synchronizer on a contained backup; otherwise one pass by source as written on a fresh synchronizer, Synced, so on a raise the target holds exactly the changes applied before it |
| TwoWayMain.Launch | TwoWay/main.py:76-82 | no pass when is_subdirectory_of_source holds; otherwise one counted and audited pass by source as written, Synced, so on a raise the target holds exactly the changes applied before it |
| Recovery.SlotsAreOneWaySlots | TwoWay/recovery.py:22-27 | the `_1` and `_0` slot strings name OneWay's current and previous slots of the versions directory |
| Recovery.GetBackupPath | TwoWay/recovery.py:101-113 | get_backup_path answers for the types 'source' and 'backup' only; any other type exits with 1 |
| Recovery.BackupPathIsASlot | TwoWay/recovery.py:101-113 | the path get_backup_path returns names the `_1` slot of that side's versions directory for "latest" and its `_0` slot otherwise |
| Recovery.RestoreSlot | TwoWay/recovery.py:115-122 | restore_version finds a slot exactly for the origin and `<origin>_backup`; any other target exits with 1 |
| Recovery.RestoreSlotChoosesSide | TwoWay/recovery.py:115-122 | the slot restore_version chooses is the `_1` ("latest") or `_0` slot of the origin's versions for the origin, and of the backup's for `<origin>_backup` |
| Recovery.VersionCommand | TwoWay/recovery.py:92-99 | the command is the compiler, the script, the origin and the versions directory, then the flags, then `--log` with the log file inside that directory |
| Recovery.VersionRunFeedsRestore | TwoWay/recovery.py:92-99 | each versioned command passes the origin and the flags, and its backup directory is the one whose `_1` slot restore reads |
| Recovery.Lookup | TwoWay/recovery.py:66-71 | a key is absent exactly when no pair has it, and a found value is paired with it |
| Recovery.Put | TwoWay/recovery.py:68-71 | assignment keeps keys unique, sets the key, leaves every other key, and grows the object only for a new key, keeping key order |
| Recovery.FirstKeyWith | TwoWay/recovery.py:76-83 | the first key, in file order, whose value is exactly the path; none when no value matches |
| Recovery.FoundKeyMapsToPath | TwoWay/recovery.py:76-83 | with unique keys, a recorded path is found under a key that maps back to it |
| Recovery.EnsureDir | TwoWay/recovery.py:86-87 | `if not exists: makedirs` goes on exactly when the path is there or no file stands above it, and then the disk is as makedirs leaves it |
| Recovery.WithDirsPresent | TwoWay/recovery.py:86-87 | makedirs of a path that is there would change nothing |
| Recovery.CreatableKept | TwoWay/recovery.py:86-91 | making one versions directory does not change whether a later one can be made |
| Recovery.RestoreSystem.constructor | TwoWay/recovery.py:15-38 | after the defaults, load_config and record_paths, the script and flags come from the configuration; the origin is recorded, `<origin>_backup` is recorded exactly when it exists, and every other registry entry is kept |
| Recovery.RestoreSystem.LoadConfig | TwoWay/recovery.py:50-59 | a missing configuration is written with the defaults; each key falls back to its own default |
| Recovery.RestoreSystem.RecordPaths | TwoWay/recovery.py:61-74 | the origin maps to its absolute path, `<origin>_backup` to its own when it exists, and every other entry stays |
| Recovery.RestoreSystem.RecordedOriginIsFound | TwoWay/recovery.py:76-83 | after record_paths, get_recorded_path finds a key for the origin's absolute path |
| Recovery.RestoreSystem.GetRecordedPath | TwoWay/recovery.py:76-83 | get_recorded_path finds nothing exactly when there is no registry or no value equals the path; a key found is paired with the path |
| Recovery.RestoreSystem.RunVersionedBackups | TwoWay/recovery.py:85-99 | it goes on exactly when each of the three versions directories is there or can be made; the disk is the original with the makedirs of those made before the first failure; on success the three exist and the two commands are those for the origin's and the backup's versions, on failure no command |
| Recovery.RestoreSystem.PerformRestoration | TwoWay/recovery.py:126-135 | exit 1, changing nothing, exactly when os.path.exists does not find the slot; success exactly when the slot is a directory and the target is not empty, not a file and has no file above it; then the target shows the slot's tree and nothing else changes but the target's missing ancestors; an os error leaves the disk as it was or without the target; the slot never changes |
| Recovery.RestoreSystem.RestoreVersion | TwoWay/recovery.py:115-124 | an unknown target exits with 1 and changes nothing; otherwise it ends exactly as perform_restoration from the chosen slot |

## Left out

- Logging, `print`, terminal clearing and the SIGINT handler: these produce output only.
- The endless `while True` loops and `time.sleep`. A pass is modelled once. Repeating it over an unchanged source is covered by `SyncEngine.SecondPassChangesNothing`.
- The interval timer is only stored.
- Modification times are inputs to `TwoWay.FolderSynchronizer.RunStep`, not read from the disk.
- Hash functions are not modelled. A digest keeps its input, so the model's checksums cannot collide. A real MD5 or SHA-256 collision would make a changed file look unchanged.
- `os.walk`'s depth-first order (`a`, `a/x`, then `b`) is not modelled: the walks take entries by length. Which changes a pass that raises has applied before the error therefore follows that breadth-first order, though `Synced` itself does not refer to the order.
- `directory_checksum` is modelled as the map from relative path to file digest. The order in which `os.walk` feeds the hasher is not modelled, so the model takes equal file sets to give equal checksums.
- OneWay.DirectoryChecksum and OneWay.ChecksumsEqualIffSameFiles: the model keeps each (relative path, digest) pair apart, but OneWay/main.py:140-141 feeds the path and the hex digest into one hasher with no separator. Two different trees can therefore give the same input stream, for example a tree with files `a` and `b` and a tree with one file whose name is `a`, then `a`'s hex digest, then `b`, holding `b`'s content. The "only if" half of ChecksumsEqualIffSameFiles holds for the model only, not for the code.
- Symbolic links, permissions, and files changing while a pass runs are not modelled. The only os errors modelled are those that follow from the disk's shape.
- SyncEngine.SyncDirectories: requires the source and target to be disjoint. A target inside the source, or a source inside the target, would make the walks see their own effects. main refuses the first case unless the source starts with exactly two slashes (see Findings); neither case is modelled.
- TwoWay.FolderSynchronizer.SyncByBackup: requires `<source>_backup` and the source to be disjoint. A source given with a trailing '/' breaks this (see `TwoWay.TrailingSlashSiblingIsNested`) and is not modelled.
- Recovery.RestoreSystem.PerformRestoration: requires the target and the slot to be disjoint. Restoring a directory from a slot inside it is not modelled.
- OneWay.Program.Start, Legacy.Program.Start and TwoWayMain.Start: require the mirror directory (or the slots) to be disjoint from the source whenever the checks pass. Two inputs that main accepts are therefore not modelled: the doubled-slash case of the Findings, and a source inside the mirror directory (source `/x/a_backup/a` with backup `/x`, where the guard at OneWay/main.py:41-46 does not apply and the bottom-up walk would remove the source's own files).
- `os.path.join(backup, "_0")` on the raw backup argument is modelled on its absolute path.
- Recovery.RestoreSystem.RunVersionedBackups and Recovery.RestoreSystem.PerformRestoration: whether a versions directory or the target exists is decided on its normalised path. An origin or target spelled with ".." through a missing directory, where os.path.exists and os.makedirs look the components up one by one, is not modelled. The slot itself is looked up as os.path.exists does (`FileSystem.PathExists`).
- Audit record paths are stored absolute. `os.path.relpath(file_path, root)` rendering is not modelled.
- The record's timestamp (`getmtime`) is not modelled.
- A record is modelled as written before the change it logs, so the checksum of a removed file is its content before removal.
- JSON files (`config.json`, `.info.json`, `updates.json`) are modelled as values held in fields: a configuration, an ordered key/value registry, and the audit sequence. Their encoding, and the errors `json.load` raises on a malformed file, are not modelled.
- `subprocess.Popen` is modelled by the command it would run (`Recovery.RestoreSystem.RunVersionedBackups` returns the two commands). The child processes are not modelled.
- `get_recorded_path` reads `.info.json` from disk. The model reads the registry the object holds.
- `restore_version`'s process handles and the getters of both classes: these do nothing beyond returning a field.
- TwoWayMain.Start and Legacy.Program.Start: `os.path.exists('')` is modelled as false and `os.path.isdir` as the entry being a directory. Path strings that are not valid for the operating system are not modelled.
- As the code has it, both versioned commands back up the origin itself. The backup's versions directory therefore receives copies of the origin, not of `<origin>_backup` (`Recovery.VersionCommand`).

## Findings

| source | as written | input that shows it | evidently intended | confidence | as-written member | corrected member |
|---|---|---|---|---|---|---|
| main.py:111-112 | `count_operations` assigns `counter` without `global`, so every call raises UnboundLocalError and a pass stops right after its first change | a source holding one file `f` and no target yet: the target directory is created, then the pass raises before copying `f` | `global counter`, as OneWay/main.py:155 has it: count and continue | high (not executed) | Legacy.FirstChangeStopsThePass, Legacy.OneFileAsWrittenStops | Legacy.Program.SyncDirectories |
| TwoWay/synchronizer.py:119 | a removed directory is audited with log_metadata, which checksums the path (TwoWay/logger.py:61); opening a directory raises before `shutil.rmtree` | a source holding only its root, and a target holding one extra directory `d/` | audit the directory removal without a file checksum, then remove it | high (not executed) | TwoWay.DirectoryRemovalAlwaysRaises, TwoWay.TargetWithDirAsWrittenRaises | TwoWay.FolderSynchronizer.SyncDirectories |
| OneWay/main.py:41-46 | is_subdirectory_of_source compares the string of os.path.commonpath, which has one leading slash, with that of os.path.abspath, which keeps exactly two; for a source written with two leading slashes the check never holds | source `//a` and backup `//a`: both are found, the check passes, and the mirror directory `/a/a_backup` lies inside the source | refuse a backup at or beneath the source however the source is spelled, by comparing normalised paths | high (not executed) | Startup.DoubleSlashSourcePassesTheGuard | Paths.IsInsideSource, Startup.ValidateIntended |
