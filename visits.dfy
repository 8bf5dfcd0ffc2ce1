/** One visit of each walk, branch by branch: the disk before and after the
    os/shutil call that the branch makes, stated against the tree-level
    account of the pass. */
module Visits {
  import opened Paths
  import opened FileSystem
  import opened Mirror
  import opened WalkSteps

  // ---------------------------------------------------------------- phase 1

  /** Phase 1 has visited `r` without raising: the target stands as the
      visits in `done + {r}` leave it, and `change` is the visit's own change. */
  ghost predicate Advanced1(e0: Entries, e: Entries, S: Path, T: Path, cd: bool, done: set<Path>, r: Path,
                            change: seq<Change>) {
    var src, dst := Walked(e0, S), View(e0, T);
    && Wf(e) && Outside(e0, e, T)
    && View(e, T) == Mid(src, dst, cd, done + {r})
    && Mid(src, dst, cd, done + {r}) == ApplyAll(Mid(src, dst, cd, done), change)
    && |change| <= 1
    && Changes1(src, dst, cd, done + {r}) == Changes1(src, dst, cd, done) + (set c | c in change)
    && (forall c :: c in change ==> c !in Changes1(src, dst, cd, done))
    && !Conflict1At(src, dst, cd, FileAbove(e0, T), r)
  }

  /** The source side of a visited entry. */
  lemma SourceFacts(e0: Entries, e: Entries, S: Path, T: Path, cd: bool, done: set<Path>, r: Path)
    requires Visiting(e0, e, S, T, cd, done, r)
    ensures TreeWf(Walked(e0, S))
    ensures Walked(e0, S)[r].File? ==> r != [] && S + r in e && e[S + r] == Walked(e0, S)[r]
  {
    ViewWf(e0, S);
    var src := Walked(e0, S);
    if src[r].File? {
      assert r != [] by {
        assert S + [] == S;
      }
      SourceLookup(e0, e, S, T, r);
    }
  }

  /** Phase 1 has put the source entry `r` into the target, which needed it. */
  lemma SourceAdded(e0: Entries, e: Entries, e': Entries, S: Path, T: Path, cd: bool, done: set<Path>, r: Path)
    requires r in Walked(e0, S) && r !in done
    requires Wf(e') && Outside(e0, e', T)
    requires View(e, T) == Mid(Walked(e0, S), View(e0, T), cd, done)
    requires View(e', T) == View(e, T)[r := Walked(e0, S)[r]]
    requires MakesDir(Walked(e0, S), View(e0, T), cd, r) || Copies(Walked(e0, S), View(e0, T), r)
    requires !Conflict1At(Walked(e0, S), View(e0, T), cd, FileAbove(e0, T), r)
    ensures Advanced1(e0, e', S, T, cd, done, r, [Change1Of(Walked(e0, S), r)])
  {
    MidAdd(Walked(e0, S), View(e0, T), cd, done, r);
    MidApplies(Walked(e0, S), View(e0, T), cd, done, r);
    ChangeSet(Change1Of(Walked(e0, S), r));
  }

  /** The entry the top-down walk adds is what its change puts there. */
  lemma MidApplies(src: Tree, dst: Tree, cd: bool, done: set<Path>, r: Path)
    requires r in src
    requires Mid(src, dst, cd, done + {r}) == Mid(src, dst, cd, done)[r := src[r]]
    ensures Mid(src, dst, cd, done + {r}) == ApplyAll(Mid(src, dst, cd, done), [Change1Of(src, r)])
  {
    ApplyOne(Mid(src, dst, cd, done), Change1Of(src, r));
  }

  /** Phase 1 has left the target as it was at the source entry `r`. */
  lemma SourceKept(e0: Entries, e: Entries, S: Path, T: Path, cd: bool, done: set<Path>, r: Path)
    requires r in Walked(e0, S) && r !in done
    requires Wf(e) && Outside(e0, e, T)
    requires View(e, T) == Mid(Walked(e0, S), View(e0, T), cd, done)
    requires || (Walked(e0, S)[r].Dir? && (r in View(e0, T) || !cd))
             || (Walked(e0, S)[r].File? && r in View(e0, T) && View(e0, T)[r] == Walked(e0, S)[r])
    requires !Conflict1At(Walked(e0, S), View(e0, T), cd, FileAbove(e0, T), r)
    ensures Advanced1(e0, e, S, T, cd, done, r, [])
  {
    MidSame(Walked(e0, S), View(e0, T), cd, done, r);
    assert (set c: Change | c in []) == {};
  }

  /** makedirs of a missing source directory succeeded. */
  lemma DirMade(e0: Entries, e: Entries, S: Path, T: Path, cd: bool, done: set<Path>, r: Path)
    requires Visiting(e0, e, S, T, cd, done, r)
    requires Walked(e0, S)[r].Dir? && T + r !in e && cd && !FileAbove(e, T + r)
    ensures Advanced1(e0, WithDirs(e, T + r), S, T, cd, done, r, [MakeDir(r)])
  {
    DirStep(e0, e, S, T, cd, done, r);
    WfWithDirs(e, T + r);
    ViewWithDirs(e, T, r);
    OutsideTrans(e0, e, WithDirs(e, T + r), T);
    SourceAdded(e0, e, WithDirs(e, T + r), S, T, cd, done, r);
  }

  /** A source directory already in the target, or not created. */
  lemma DirKept(e0: Entries, e: Entries, S: Path, T: Path, cd: bool, done: set<Path>, r: Path)
    requires Visiting(e0, e, S, T, cd, done, r)
    requires Walked(e0, S)[r].Dir? && ((T + r in e && (r != [] || e[T + r].Dir?)) || !cd)
    ensures Advanced1(e0, e, S, T, cd, done, r, [])
  {
    DirSkip(e0, e, S, T, cd, done, r);
    SourceKept(e0, e, S, T, cd, done, r);
  }

  /** copy2 of a missing or changed source file succeeded. */
  lemma FileCopied(e0: Entries, e: Entries, S: Path, T: Path, cd: bool, done: set<Path>, r: Path)
    requires Visiting(e0, e, S, T, cd, done, r)
    requires Walked(e0, S)[r].File?
    requires T + r !in e || (e[T + r].File? && e[T + r].content != Walked(e0, S)[r].content)
    requires Parent(T + r) in e && e[Parent(T + r)].Dir?
    ensures Advanced1(e0, e[T + r := Walked(e0, S)[r]], S, T, cd, done, r, [CopyFile(r, Walked(e0, S)[r].content)])
  {
    var src, dst := Walked(e0, S), View(e0, T);
    SourceFacts(e0, e, S, T, cd, done, r);
    FileStep(e, T, src, dst, cd, FileAbove(e0, T), done, r);
    WfPutFile(e, T + r, src[r]);
    ViewPut(e, T, r, src[r]);
    OutsidePut(e0, e, T, r, src[r]);
    SourceAdded(e0, e, e[T + r := src[r]], S, T, cd, done, r);
  }

  /** A source file whose target file has the same checksum. */
  lemma FileSame(e0: Entries, e: Entries, S: Path, T: Path, cd: bool, done: set<Path>, r: Path)
    requires Visiting(e0, e, S, T, cd, done, r)
    requires Walked(e0, S)[r].File?
    requires T + r in e && e[T + r].File? && e[T + r].content == Walked(e0, S)[r].content
    ensures Advanced1(e0, e, S, T, cd, done, r, [])
  {
    var src, dst := Walked(e0, S), View(e0, T);
    SourceFacts(e0, e, S, T, cd, done, r);
    FileStep(e, T, src, dst, cd, FileAbove(e0, T), done, r);
    SourceKept(e0, e, S, T, cd, done, r);
  }

  /** A source file facing a target directory, or whose target parent is not
      a directory: the visit raises exactly at a conflict. */
  lemma FileBlocked(e0: Entries, e: Entries, S: Path, T: Path, cd: bool, done: set<Path>, r: Path)
    requires Visiting(e0, e, S, T, cd, done, r)
    requires Walked(e0, S)[r].File?
    requires (T + r in e && e[T + r].Dir?) || !(Parent(T + r) in e && e[Parent(T + r)].Dir?)
    ensures Conflict1At(Walked(e0, S), View(e0, T), cd, FileAbove(e0, T), r)
  {
    SourceFacts(e0, e, S, T, cd, done, r);
    FileStep(e, T, Walked(e0, S), View(e0, T), cd, FileAbove(e0, T), done, r);
  }

  // ---------------------------------------------------------------- phase 2

  /** The state of phase 2 when it is about to visit target entry `r`: `e0`
      is the disk before the pass, `e1` the disk phase 1 left, `walk` the
      entries below the target root that the bottom-up walk enumerates. */
  ghost predicate Pruning(e0: Entries, e1: Entries, e: Entries, S: Path, T: Path,
                          walk: set<Path>, done: set<Path>, r: Path) {
    && Wf(e0) && Wf(e) && Disjoint(S, T)
    && Outside(e0, e1, T) && Outside(e1, e, T)
    && walk == View(e1, T).Keys - {[]} && done <= walk && r in walk && r !in done
    && View(e, T) == Pruned(View(e1, T), Walked(e0, S), done)
    && (forall q :: q in walk && |q| > |r| ==> q in done)
  }

  /** Phase 2 has visited `r` without raising. */
  ghost predicate Advanced2(e0: Entries, e1: Entries, e: Entries, S: Path, T: Path, auditsDirs: bool,
                            done: set<Path>, r: Path, change: seq<Change>) {
    var src, mid := Walked(e0, S), View(e1, T);
    && Wf(e) && Outside(e1, e, T)
    && View(e, T) == Pruned(mid, src, done + {r})
    && Pruned(mid, src, done + {r}) == ApplyAll(Pruned(mid, src, done), change)
    && |change| <= 1
    && Changes2(src, mid, done + {r}) == Changes2(src, mid, done) + (set c | c in change)
    && (forall c :: c in change ==> c !in Changes2(src, mid, done))
    && !Conflict2At(src, mid, auditsDirs, r)
  }

  /** Whether the source has a counterpart, and what the target holds when not. */
  lemma TargetFacts(e0: Entries, e1: Entries, e: Entries, S: Path, T: Path, walk: set<Path>, done: set<Path>, r: Path)
    requires Pruning(e0, e1, e, S, T, walk, done, r)
    ensures S + r in e <==> r in Walked(e0, S)
    ensures S + r !in e ==> T + r in e && e[T + r] == View(e1, T)[r]
  {
    OutsideTrans(e0, e1, e, T);
    SourceLookup(e0, e, S, T, r);
  }

  /** A target entry with a counterpart stays. */
  lemma TargetKept(e0: Entries, e1: Entries, e: Entries, S: Path, T: Path, auditsDirs: bool,
                   walk: set<Path>, done: set<Path>, r: Path)
    requires Pruning(e0, e1, e, S, T, walk, done, r)
    requires S + r in e
    ensures Advanced2(e0, e1, e, S, T, auditsDirs, done, r, [])
  {
    TargetFacts(e0, e1, e, S, T, walk, done, r);
    TargetStays(e0, e1, e, S, T, auditsDirs, done, r);
  }

  lemma TargetStays(e0: Entries, e1: Entries, e: Entries, S: Path, T: Path, auditsDirs: bool,
                    done: set<Path>, r: Path)
    requires Wf(e) && Outside(e1, e, T) && View(e, T) == Pruned(View(e1, T), Walked(e0, S), done)
    requires r in Walked(e0, S)
    ensures Advanced2(e0, e1, e, S, T, auditsDirs, done, r, [])
  {
    PruneKeep(View(e1, T), Walked(e0, S), done, auditsDirs, r);
    assert (set c: Change | c in []) == {};
  }

  /** The target entry of an orphan `r` (no counterpart in the source) is
      gone and the disk is still well-formed: phase 2 has visited `r`. */
  lemma OrphanRemoved(e0: Entries, e1: Entries, e: Entries, S: Path, T: Path, auditsDirs: bool,
                      done: set<Path>, r: Path)
    requires Wf(e - {T + r}) && Outside(e1, e, T) && View(e, T) == Pruned(View(e1, T), Walked(e0, S), done)
    requires r in View(e1, T) && r != [] && r !in Walked(e0, S) && r !in done
    requires auditsDirs ==> View(e1, T)[r].File?
    requires View(e1, T)[r].Dir? ==> forall q :: q in View(e, T) && q != r ==> !(r <= q)
    ensures Advanced2(e0, e1, e - {T + r}, S, T, auditsDirs, done, r, [Change2Of(View(e1, T), r)])
  {
    PruneRemove(View(e1, T), Walked(e0, S), done, r);
    RemovalApplies(View(e, T), Change2Of(View(e1, T), r));
    ApplyOne(View(e, T), Change2Of(View(e1, T), r));
    ViewRemove(e, T, r);
    OutsideRemove(e1, e, T, r);
    ChangeSet(Change2Of(View(e1, T), r));
  }

  /** What the target holds at an orphan `r`. */
  lemma OrphanFacts(e0: Entries, e1: Entries, e: Entries, S: Path, T: Path, walk: set<Path>, done: set<Path>, r: Path)
    requires Pruning(e0, e1, e, S, T, walk, done, r)
    requires S + r !in e
    ensures r in View(e1, T) && r != [] && r !in Walked(e0, S) && r !in done
    ensures T + r in e && e[T + r] == View(e1, T)[r]
  {
    TargetFacts(e0, e1, e, S, T, walk, done, r);
  }

  /** os.remove of a target file without a counterpart. */
  lemma FileRemoved(e0: Entries, e1: Entries, e: Entries, S: Path, T: Path, auditsDirs: bool,
                    walk: set<Path>, done: set<Path>, r: Path)
    requires Pruning(e0, e1, e, S, T, walk, done, r)
    requires S + r !in e && T + r in e && e[T + r].File?
    ensures Advanced2(e0, e1, e - {T + r}, S, T, auditsDirs, done, r, [RemoveFile(r, e[T + r].content)])
  {
    OrphanFacts(e0, e1, e, S, T, walk, done, r);
    WfRemoveFile(e, T + r);
    OrphanRemoved(e0, e1, e, S, T, auditsDirs, done, r);
  }

  /** rmtree of a target directory without a counterpart, when removals are
      not audited: everything below it is already gone. */
  lemma DirRemoved(e0: Entries, e1: Entries, e: Entries, S: Path, T: Path, auditsDirs: bool,
                   walk: set<Path>, done: set<Path>, r: Path)
    requires Pruning(e0, e1, e, S, T, walk, done, r) && !auditsDirs
    requires S + r !in e && T + r in e && e[T + r].Dir?
    ensures Without(e, T + r) == e - {T + r}
    ensures Advanced2(e0, e1, e - {T + r}, S, T, auditsDirs, done, r, [RemoveDir(r)])
  {
    OrphanFacts(e0, e1, e, S, T, walk, done, r);
    OrphanAlone(e0, e1, e, S, T, walk, done, r);
    AloneHasNothingBelow(e, T, r);
    OrphanRemoved(e0, e1, e, S, T, auditsDirs, done, r);
  }

  lemma OrphanAlone(e0: Entries, e1: Entries, e: Entries, S: Path, T: Path,
                    walk: set<Path>, done: set<Path>, r: Path)
    requires Pruning(e0, e1, e, S, T, walk, done, r)
    requires S + r !in e
    ensures Without(e, T + r) == e - {T + r}
    ensures Wf(e - {T + r})
  {
    var src, mid := Walked(e0, S), View(e1, T);
    TargetFacts(e0, e1, e, S, T, walk, done, r);
    ViewWf(e0, S);
    forall q | q in mid && r < q ensures q in done {
    }
    OrphanIsEmpty(e, T, mid, src, done, r);
    WfWithout(e, T + r);
  }

  /** A target directory without a counterpart, when removals are audited:
      the audit checksums the directory and raises. */
  lemma DirAudited(e0: Entries, e1: Entries, e: Entries, S: Path, T: Path,
                   walk: set<Path>, done: set<Path>, r: Path)
    requires Pruning(e0, e1, e, S, T, walk, done, r)
    requires S + r !in e && T + r in e && e[T + r].Dir?
    ensures Conflict2At(Walked(e0, S), View(e1, T), true, r)
  {
    TargetFacts(e0, e1, e, S, T, walk, done, r);
  }

  // ---------------------------------------------------------------- walks

  /** Adding one visit's change (at most one, and new) to what was applied. */
  lemma CountGrows(applied: seq<Change>, a: set<Change>, change: seq<Change>)
    requires |applied| == |a| && (forall c :: c in applied <==> c in a)
    requires |change| <= 1 && (forall c :: c in change ==> c !in a)
    ensures |applied + change| == |a + (set c | c in change)|
    ensures forall c :: c in applied + change <==> c in a + (set c | c in change)
  {
    if change != [] {
      ChangeSet(change[0]);
      assert change == [change[0]];
    } else {
      assert (set c: Change | c in change) == {};
      assert applied + change == applied;
    }
  }

  /** The top-down walk after visiting `done`: the target as those visits
      leave it, no conflict among them, and `applied` lists their changes,
      each once. */
  ghost predicate Walking1(e0: Entries, e: Entries, S: Path, T: Path, cd: bool, done: set<Path>,
                           applied: seq<Change>) {
    var src, dst := Walked(e0, S), View(e0, T);
    && Wf(e0) && Wf(e) && Disjoint(S, T) && Outside(e0, e, T) && done <= src.Keys
    && View(e, T) == Mid(src, dst, cd, done)
    && View(e, T) == ApplyAll(dst, applied)
    && (forall r :: r in done ==> !Conflict1At(src, dst, cd, FileAbove(e0, T), r))
    && |applied| == |Changes1(src, dst, cd, done)|
    && (forall c :: c in applied <==> c in Changes1(src, dst, cd, done))
  }

  lemma Walking1Start(e0: Entries, S: Path, T: Path, cd: bool)
    requires Wf(e0) && Disjoint(S, T)
    ensures Walking1(e0, e0, S, T, cd, {}, [])
  {
    OutsideRefl(e0, T);
    MidEmpty(Walked(e0, S), View(e0, T), cd);
    assert Changes1(Walked(e0, S), View(e0, T), cd, {}) == {};
  }

  lemma Walking1Visit(e0: Entries, e: Entries, S: Path, T: Path, cd: bool, done: set<Path>,
                      applied: seq<Change>, r: Path)
    requires Walking1(e0, e, S, T, cd, done, applied)
    requires r in Walked(e0, S) && r !in done && forall q :: q < r ==> q in done
    ensures Visiting(e0, e, S, T, cd, done, r)
  {
  }

  /** Moving a pending entry to the done ones. */
  lemma PendingStep(all: set<Path>, done: set<Path>, pending: set<Path>, r: Path)
    requires pending == all - done && r in pending
    ensures pending - {r} == all - (done + {r}) && |pending - {r}| < |pending|
  {
  }

  /** A shortest pending source entry has all its ancestors done. */
  lemma Walking1Ancestors(e0: Entries, S: Path, done: set<Path>, pending: set<Path>, r: Path)
    requires Wf(e0) && pending == Walked(e0, S).Keys - done
    requires r in pending && forall q :: q in pending ==> |r| <= |q|
    ensures r in Walked(e0, S) && r !in done && forall q :: q < r ==> q in done
  {
    ViewWf(e0, S);
    forall q | q < r ensures q in done {
      TreeAncestors(Walked(e0, S), r, q);
    }
  }

  lemma Walking1Next(e0: Entries, e: Entries, e': Entries, S: Path, T: Path, cd: bool, done: set<Path>,
                     applied: seq<Change>, r: Path, change: seq<Change>)
    requires Walking1(e0, e, S, T, cd, done, applied)
    requires r in Walked(e0, S)
    requires Advanced1(e0, e', S, T, cd, done, r, change)
    ensures Walking1(e0, e', S, T, cd, done + {r}, applied + change)
  {
    Walking1NextState(e0, e, e', S, T, cd, done, applied, r, change);
    Walking1NextClean(e0, e, e', S, T, cd, done, applied, r, change);
    Walking1NextCount(e0, e, e', S, T, cd, done, applied, r, change);
  }

  lemma Walking1NextState(e0: Entries, e: Entries, e': Entries, S: Path, T: Path, cd: bool, done: set<Path>,
                          applied: seq<Change>, r: Path, change: seq<Change>)
    requires Walking1(e0, e, S, T, cd, done, applied)
    requires r in Walked(e0, S)
    requires Advanced1(e0, e', S, T, cd, done, r, change)
    ensures Wf(e') && Outside(e0, e', T) && done + {r} <= Walked(e0, S).Keys
    ensures View(e', T) == Mid(Walked(e0, S), View(e0, T), cd, done + {r})
    ensures View(e', T) == ApplyAll(View(e0, T), applied + change)
  {
    ApplyAllAppend(View(e0, T), applied, change);
  }

  lemma Walking1NextClean(e0: Entries, e: Entries, e': Entries, S: Path, T: Path, cd: bool, done: set<Path>,
                          applied: seq<Change>, r: Path, change: seq<Change>)
    requires Walking1(e0, e, S, T, cd, done, applied)
    requires Advanced1(e0, e', S, T, cd, done, r, change)
    ensures forall q :: q in done + {r} ==> !Conflict1At(Walked(e0, S), View(e0, T), cd, FileAbove(e0, T), q)
  {
  }

  lemma Walking1NextCount(e0: Entries, e: Entries, e': Entries, S: Path, T: Path, cd: bool, done: set<Path>,
                          applied: seq<Change>, r: Path, change: seq<Change>)
    requires Walking1(e0, e, S, T, cd, done, applied)
    requires Advanced1(e0, e', S, T, cd, done, r, change)
    ensures |applied + change| == |Changes1(Walked(e0, S), View(e0, T), cd, done + {r})|
    ensures forall c :: c in applied + change <==> c in Changes1(Walked(e0, S), View(e0, T), cd, done + {r})
  {
    CountGrows(applied, Changes1(Walked(e0, S), View(e0, T), cd, done), change);
  }

  /** No source entry conflicts with the target. */
  ghost predicate NoConflict1(e0: Entries, S: Path, T: Path, cd: bool) {
    forall r :: !Conflict1At(Walked(e0, S), View(e0, T), cd, FileAbove(e0, T), r)
  }

  /** Part of the walk is done: what it applied are changes of the whole walk. */
  ghost predicate Walking1Prefix(e0: Entries, e: Entries, S: Path, T: Path, cd: bool, applied: seq<Change>) {
    && Wf(e) && Outside(e0, e, T)
    && View(e, T) == ApplyAll(View(e0, T), applied)
    && (forall c :: c in applied ==> c in Changes1(Walked(e0, S), View(e0, T), cd, Walked(e0, S).Keys))
    && (applied != [] ==> Changes1(Walked(e0, S), View(e0, T), cd, Walked(e0, S).Keys) != {})
  }

  lemma Walking1Within(e0: Entries, e: Entries, S: Path, T: Path, cd: bool, done: set<Path>,
                       applied: seq<Change>)
    requires Walking1(e0, e, S, T, cd, done, applied)
    ensures Walking1Prefix(e0, e, S, T, cd, applied)
  {
    Changes1Grow(Walked(e0, S), View(e0, T), cd, done, Walked(e0, S).Keys);
    if applied != [] {
      assert applied[0] in Changes1(Walked(e0, S), View(e0, T), cd, Walked(e0, S).Keys);
    }
  }

  /** What the top-down walk promises when it returns: `ok` when it
      finished, `unbound` when the operation counter raised. */
  ghost predicate Phase1Result(e0: Entries, e: Entries, S: Path, T: Path, cd: bool, countRaises: bool,
                               ok: bool, unbound: bool, applied: seq<Change>) {
    var src, dst := Walked(e0, S), View(e0, T);
    && Wf(e) && Outside(e0, e, T)
    && View(e, T) == ApplyAll(dst, applied)
    && (ok <==> NoConflict1(e0, S, T, cd) && (!countRaises || Changes1(src, dst, cd, src.Keys) == {}))
    && (ok ==> View(e, T) == Phase1(src, dst, cd))
    && (ok ==> |applied| == |Changes1(src, dst, cd, src.Keys)|)
    && (forall c :: c in applied ==> c in Changes1(src, dst, cd, src.Keys))
    && (ok ==> forall c :: c in Changes1(src, dst, cd, src.Keys) ==> c in applied)
    && (ok && countRaises ==> applied == [])
    && (unbound ==> countRaises && |applied| == 1)
    && (!ok && !unbound ==> !NoConflict1(e0, S, T, cd))
    && (countRaises ==> |applied| <= 1)
  }

  /** The walk stopped early, on an os error (a conflict) or on the counter. */
  lemma Walking1Stopped(e0: Entries, e: Entries, S: Path, T: Path, cd: bool, countRaises: bool,
                        unbound: bool, culprit: Path, applied: seq<Change>)
    requires Walking1Prefix(e0, e, S, T, cd, applied)
    requires !unbound ==> Conflict1At(Walked(e0, S), View(e0, T), cd, FileAbove(e0, T), culprit)
    requires unbound ==> countRaises && |applied| == 1
    requires countRaises && !unbound ==> applied == []
    ensures Phase1Result(e0, e, S, T, cd, countRaises, false, unbound, applied)
  {
  }

  /** The whole top-down walk done. */
  lemma Walking1Done(e0: Entries, e: Entries, S: Path, T: Path, cd: bool, countRaises: bool,
                     done: set<Path>, applied: seq<Change>)
    requires Walking1(e0, e, S, T, cd, done, applied) && Walked(e0, S).Keys - done == {}
    requires countRaises ==> applied == []
    ensures Phase1Result(e0, e, S, T, cd, countRaises, true, false, applied)
  {
    assert done == Walked(e0, S).Keys;
    if countRaises {
      assert Changes1(Walked(e0, S), View(e0, T), cd, done) == {};
    }
  }

  /** The bottom-up walk after visiting `done`, from the disk `e1` phase 1 left. */
  ghost predicate Walking2(e0: Entries, e1: Entries, e: Entries, S: Path, T: Path, auditsDirs: bool,
                           done: set<Path>, applied: seq<Change>) {
    var src, mid := Walked(e0, S), View(e1, T);
    && Wf(e0) && Wf(e) && Disjoint(S, T) && Outside(e0, e1, T) && Outside(e1, e, T)
    && done <= mid.Keys - {[]}
    && View(e, T) == Pruned(mid, src, done)
    && View(e, T) == ApplyAll(mid, applied)
    && (forall r :: r in done ==> !Conflict2At(src, mid, auditsDirs, r))
    && |applied| == |Changes2(src, mid, done)|
    && (forall c :: c in applied <==> c in Changes2(src, mid, done))
  }

  lemma Walking2Start(e0: Entries, e1: Entries, S: Path, T: Path, auditsDirs: bool)
    requires Wf(e0) && Wf(e1) && Disjoint(S, T) && Outside(e0, e1, T)
    ensures Walking2(e0, e1, e1, S, T, auditsDirs, {}, [])
    ensures Walked(e1, T).Keys - {[]} == View(e1, T).Keys - {[]}
  {
    OutsideRefl(e1, T);
    PrunedNone(View(e1, T), Walked(e0, S));
    WalkedNonRoot(e1, T);
    assert Changes2(Walked(e0, S), View(e1, T), {}) == {};
  }

  /** A longest pending target entry has all its descendants done. */
  lemma Walking2Visit(e0: Entries, e1: Entries, e: Entries, S: Path, T: Path, auditsDirs: bool,
                      done: set<Path>, pending: set<Path>, applied: seq<Change>, r: Path)
    requires Walking2(e0, e1, e, S, T, auditsDirs, done, applied)
    requires pending == (View(e1, T).Keys - {[]}) - done
    requires r in pending && forall q :: q in pending ==> |q| <= |r|
    ensures Pruning(e0, e1, e, S, T, View(e1, T).Keys - {[]}, done, r)
  {
  }

  lemma Walking2Next(e0: Entries, e1: Entries, e: Entries, e': Entries, S: Path, T: Path, auditsDirs: bool,
                     done: set<Path>, applied: seq<Change>, r: Path, change: seq<Change>)
    requires Walking2(e0, e1, e, S, T, auditsDirs, done, applied)
    requires r in View(e1, T).Keys - {[]}
    requires Advanced2(e0, e1, e', S, T, auditsDirs, done, r, change)
    ensures Walking2(e0, e1, e', S, T, auditsDirs, done + {r}, applied + change)
  {
    ApplyAllAppend(View(e1, T), applied, change);
    Walking2NextClean(e0, e1, e, e', S, T, auditsDirs, done, applied, r, change);
    Walking2NextCount(e0, e1, e, e', S, T, auditsDirs, done, applied, r, change);
  }

  lemma Walking2NextClean(e0: Entries, e1: Entries, e: Entries, e': Entries, S: Path, T: Path, auditsDirs: bool,
                          done: set<Path>, applied: seq<Change>, r: Path, change: seq<Change>)
    requires Walking2(e0, e1, e, S, T, auditsDirs, done, applied)
    requires Advanced2(e0, e1, e', S, T, auditsDirs, done, r, change)
    ensures forall q :: q in done + {r} ==> !Conflict2At(Walked(e0, S), View(e1, T), auditsDirs, q)
  {
  }

  lemma Walking2NextCount(e0: Entries, e1: Entries, e: Entries, e': Entries, S: Path, T: Path, auditsDirs: bool,
                          done: set<Path>, applied: seq<Change>, r: Path, change: seq<Change>)
    requires Walking2(e0, e1, e, S, T, auditsDirs, done, applied)
    requires Advanced2(e0, e1, e', S, T, auditsDirs, done, r, change)
    ensures |applied + change| == |Changes2(Walked(e0, S), View(e1, T), done + {r})|
    ensures forall c :: c in applied + change <==> c in Changes2(Walked(e0, S), View(e1, T), done + {r})
  {
    CountGrows(applied, Changes2(Walked(e0, S), View(e1, T), done), change);
  }

  /** No target entry conflicts with the source. */
  ghost predicate NoConflict2(e0: Entries, e1: Entries, S: Path, T: Path, auditsDirs: bool) {
    forall r :: !Conflict2At(Walked(e0, S), View(e1, T), auditsDirs, r)
  }

  /** Part of the walk is done: what it applied are changes of the whole walk. */
  ghost predicate Walking2Prefix(e0: Entries, e1: Entries, e: Entries, S: Path, T: Path, auditsDirs: bool,
                                applied: seq<Change>) {
    var src, mid := Walked(e0, S), View(e1, T);
    && Wf(e) && Outside(e1, e, T)
    && View(e, T) == ApplyAll(mid, applied)
    && (forall c :: c in applied ==> c in Changes2(src, mid, mid.Keys - {[]}))
    && (applied != [] ==> Changes2(src, mid, mid.Keys - {[]}) != {})
    && (auditsDirs ==> forall c :: c in applied ==> !c.RemoveDir?)
  }

  lemma Walking2Within(e0: Entries, e1: Entries, e: Entries, S: Path, T: Path, auditsDirs: bool,
                       done: set<Path>, applied: seq<Change>)
    requires Walking2(e0, e1, e, S, T, auditsDirs, done, applied)
    ensures Walking2Prefix(e0, e1, e, S, T, auditsDirs, applied)
  {
    Changes2Grow(Walked(e0, S), View(e1, T), done, View(e1, T).Keys - {[]});
    if applied != [] {
      assert applied[0] in Changes2(Walked(e0, S), View(e1, T), View(e1, T).Keys - {[]});
    }
    AuditedNotRemoved(e0, e1, e, S, T, auditsDirs, done, applied);
  }

  /** When removed directories are audited, no directory removal is applied:
      each would have been a conflict. */
  lemma AuditedNotRemoved(e0: Entries, e1: Entries, e: Entries, S: Path, T: Path, auditsDirs: bool,
                          done: set<Path>, applied: seq<Change>)
    requires Walking2(e0, e1, e, S, T, auditsDirs, done, applied)
    ensures auditsDirs ==> forall c :: c in applied ==> !c.RemoveDir?
  {
    var src, mid := Walked(e0, S), View(e1, T);
    forall c | c in applied && auditsDirs ensures !c.RemoveDir? {
      assert c in Changes2(src, mid, done);
      if c.RemoveDir? {
        assert c.rel in done && Conflict2At(src, mid, auditsDirs, c.rel);
      }
    }
  }

  /** What the bottom-up walk promises when it returns: `ok` when it
      finished, `unbound` when the operation counter raised. */
  ghost predicate Phase2Result(e0: Entries, e1: Entries, e: Entries, S: Path, T: Path, auditsDirs: bool,
                               countRaises: bool, ok: bool, unbound: bool, applied: seq<Change>) {
    var src, mid := Walked(e0, S), View(e1, T);
    var all := mid.Keys - {[]};
    && Wf(e) && Outside(e1, e, T)
    && View(e, T) == ApplyAll(mid, applied)
    && (ok <==> NoConflict2(e0, e1, S, T, auditsDirs) && (!countRaises || Changes2(src, mid, all) == {}))
    && (ok ==> View(e, T) == Pruned(mid, src, all))
    && (ok ==> |applied| == |Changes2(src, mid, all)|)
    && (forall c :: c in applied ==> c in Changes2(src, mid, all))
    && (ok ==> forall c :: c in Changes2(src, mid, all) ==> c in applied)
    && (ok && countRaises ==> applied == [])
    && (unbound ==> countRaises && |applied| == 1)
    && (!ok && !unbound ==> !NoConflict2(e0, e1, S, T, auditsDirs))
    && (countRaises ==> |applied| <= 1)
    && (auditsDirs ==> forall c :: c in applied ==> !c.RemoveDir?)
  }

  /** The walk stopped early, on an os error (a conflict at `culprit`) or on the counter. */
  lemma Walking2Stopped(e0: Entries, e1: Entries, e: Entries, S: Path, T: Path, auditsDirs: bool,
                        countRaises: bool, unbound: bool, culprit: Path, applied: seq<Change>)
    requires Walking2Prefix(e0, e1, e, S, T, auditsDirs, applied)
    requires !unbound ==> Conflict2At(Walked(e0, S), View(e1, T), auditsDirs, culprit)
    requires unbound ==> countRaises && |applied| == 1
    requires countRaises && !unbound ==> applied == []
    ensures Phase2Result(e0, e1, e, S, T, auditsDirs, countRaises, false, unbound, applied)
  {
  }

  /** The whole bottom-up walk done. */
  lemma Walking2Done(e0: Entries, e1: Entries, e: Entries, S: Path, T: Path, auditsDirs: bool,
                     countRaises: bool, done: set<Path>, applied: seq<Change>)
    requires Walking2(e0, e1, e, S, T, auditsDirs, done, applied)
    requires (View(e1, T).Keys - {[]}) - done == {}
    requires countRaises ==> applied == []
    ensures Phase2Result(e0, e1, e, S, T, auditsDirs, countRaises, true, false, applied)
  {
    var src, mid := Walked(e0, S), View(e1, T);
    assert done == mid.Keys - {[]};
    forall r ensures !Conflict2At(src, mid, auditsDirs, r) {
      assert Conflict2At(src, mid, auditsDirs, r) ==> r in mid.Keys - {[]};
    }
    if countRaises {
      assert Changes2(src, mid, done) == {};
    }
    AuditedNotRemoved(e0, e1, e, S, T, auditsDirs, done, applied);
  }
}
