/** The link between the disk the walks mutate and the tree-level account of a
    pass: what each os/shutil call does to the target's view, and when a step
    of a walk raises. */
module WalkSteps {
  import opened Paths
  import opened FileSystem
  import opened Mirror

  /** Outside the target subtree nothing changes, except that missing
      ancestors of the target root may have been created as directories. */
  ghost predicate Outside(e0: Entries, e: Entries, T: Path) {
    && (forall p :: p in e0 && !(T <= p) ==> p in e && e[p] == e0[p])
    && (forall p :: p in e && p !in e0 && !(T <= p) ==> p < T && e[p] == Dir)
  }

  /** Neither path lies at or below the other. */
  predicate Disjoint(S: Path, T: Path) {
    !(S <= T) && !(T <= S)
  }

  /** The change phase 1 makes at a source entry that needs one. */
  function Change1Of(src: Tree, r: Path): Change
    requires r in src
  {
    if src[r].Dir? then MakeDir(r) else CopyFile(r, src[r].content)
  }

  /** The change phase 2 makes at a target entry without a counterpart. */
  function Change2Of(t: Tree, r: Path): Change
    requires r in t
  {
    if t[r].File? then RemoveFile(r, t[r].content) else RemoveDir(r)
  }

  // ---------------------------------------------------------------- paths

  lemma JoinInjective(T: Path, q: Path, r: Path)
    ensures T + q == T + r <==> q == r
  {
    if T + q == T + r {
      assert q == (T + q)[|T|..];
      assert r == (T + r)[|T|..];
    }
  }

  /** A prefix of a path below T that is not itself below T is a proper prefix of T. */
  lemma PrefixOfJoin(p: Path, T: Path, r: Path)
    requires p <= T + r && !(T <= p)
    ensures p < T
  {
    assert p == (T + r)[..|p|];
  }

  /** The proper ancestors of an entry of a well-formed tree are directories of it. */
  lemma {:induction false} TreeAncestors(t: Tree, r: Path, q: Path)
    requires TreeWf(t) && r in t && q < r
    ensures q in t && t[q].Dir?
    decreases |r|
  {
    assert r != [];
    if q != Parent(r) {
      assert q < Parent(r);
      TreeAncestors(t, Parent(r), q);
    }
  }

  lemma OutsideRefl(e: Entries, T: Path)
    ensures Outside(e, e, T)
  {
  }

  lemma OutsideTrans(e0: Entries, e1: Entries, e2: Entries, T: Path)
    requires Outside(e0, e1, T) && Outside(e1, e2, T)
    ensures Outside(e0, e2, T)
  {
  }

  /** The source subtree is untouched by changes confined to the target side. */
  lemma SourceLookup(e0: Entries, e: Entries, S: Path, T: Path, r: Path)
    requires Wf(e0) && Outside(e0, e, T) && Disjoint(S, T) && r != []
    ensures S + r in e <==> r in Walked(e0, S)
    ensures r in Walked(e0, S) ==> e[S + r] == Walked(e0, S)[r]
  {
    if !(S in e0 && e0[S].Dir?) {
      NothingBelow(e0, S);
    }
  }

  /** Both walks see the same non-root entries below the target. */
  lemma WalkedNonRoot(e: Entries, T: Path)
    requires Wf(e)
    ensures Walked(e, T).Keys - {[]} == View(e, T).Keys - {[]}
  {
    if !(T in e && e[T].Dir?) {
      NothingBelow(e, T);
      forall r | r in View(e, T) ensures r == [] {
        assert T <= T + r;
      }
    }
  }

  // ---------------------------------------------------------------- views

  lemma ViewPut(e: Entries, T: Path, r: Path, n: Node)
    ensures View(e[T + r := n], T) == View(e, T)[r := n]
  {
    var a, b := View(e[T + r := n], T), View(e, T)[r := n];
    forall q ensures q in a <==> q in b {
      JoinInjective(T, q, r);
    }
    forall q | q in a ensures a[q] == b[q] {
      JoinInjective(T, q, r);
    }
  }

  lemma ViewRemove(e: Entries, T: Path, r: Path)
    ensures View(e - {T + r}, T) == View(e, T) - {r}
  {
    var a, b := View(e - {T + r}, T), View(e, T) - {r};
    forall q ensures q in a <==> q in b {
      JoinInjective(T, q, r);
    }
  }

  /** os.makedirs below the target root, when every proper ancestor inside
      the target exists: one new directory in the view, and outside the target
      only missing ancestors of the target root appear. */
  lemma ViewWithDirs(e: Entries, T: Path, r: Path)
    requires T + r !in e
    requires forall q :: q < r ==> T + q in e
    ensures View(WithDirs(e, T + r), T) == View(e, T)[r := Dir]
    ensures Outside(e, WithDirs(e, T + r), T)
  {
    ViewWithDirsInside(e, T, r);
    WithDirsOutside(e, T, r);
  }

  lemma ViewWithDirsInside(e: Entries, T: Path, r: Path)
    requires T + r !in e
    requires forall q :: q < r ==> T + q in e
    ensures View(WithDirs(e, T + r), T) == View(e, T)[r := Dir]
  {
    var e' := WithDirs(e, T + r);
    var a, b := View(e', T), View(e, T)[r := Dir];
    forall q ensures q in a <==> q in b {
      WithDirsBelow(e, T, r, q);
    }
    forall q | q in a ensures a[q] == b[q] {
      JoinInjective(T, q, r);
    }
    assert a == b;
  }

  lemma WithDirsOutside(e: Entries, T: Path, r: Path)
    ensures Outside(e, WithDirs(e, T + r), T)
  {
    var e' := WithDirs(e, T + r);
    forall p | p in e' && p !in e && !(T <= p) ensures p < T && e'[p] == Dir {
      PrefixOfJoin(p, T, r);
    }
  }

  lemma WithDirsBelow(e: Entries, T: Path, r: Path, q: Path)
    requires forall q :: q < r ==> T + q in e
    ensures T + q in WithDirs(e, T + r) <==> T + q in e || q == r
  {
    JoinInjective(T, q, r);
    JoinPrefix(T, q, r);
  }

  lemma JoinPrefix(T: Path, q: Path, r: Path)
    ensures T + q <= T + r <==> q <= r
  {
    if T + q <= T + r {
      assert q == (T + q)[|T|..];
      assert q == (T + r)[|T|..|T| + |q|];
    }
  }

  // ---------------------------------------------------------------- phase 1

  /** A source entry visited without effect. */
  lemma MidSame(src: Tree, dst: Tree, cd: bool, done: set<Path>, r: Path)
    requires r in src && r !in done
    requires || (src[r].Dir? && (r in dst || !cd))
             || (src[r].File? && r in dst && dst[r] == src[r])
    ensures Mid(src, dst, cd, done + {r}) == Mid(src, dst, cd, done)
    ensures Changes1(src, dst, cd, done + {r}) == Changes1(src, dst, cd, done)
  {
    var a, b := Mid(src, dst, cd, done + {r}), Mid(src, dst, cd, done);
    assert forall q :: q in a <==> q in b;
    assert forall q :: q in a ==> a[q] == b[q];
    assert !MakesDir(src, dst, cd, r) && !Copies(src, dst, r);
    var c, d := Changes1(src, dst, cd, done + {r}), Changes1(src, dst, cd, done);
    forall x | x in c ensures x in d {
      assert x.rel != r;
    }
  }

  /** A source entry visited with effect: the entry takes the source node and
      the change is new. */
  lemma MidAdd(src: Tree, dst: Tree, cd: bool, done: set<Path>, r: Path)
    requires r in src && r !in done
    requires MakesDir(src, dst, cd, r) || Copies(src, dst, r)
    ensures Mid(src, dst, cd, done + {r}) == Mid(src, dst, cd, done)[r := src[r]]
    ensures Changes1(src, dst, cd, done + {r}) == Changes1(src, dst, cd, done) + {Change1Of(src, r)}
    ensures Change1Of(src, r) !in Changes1(src, dst, cd, done)
  {
    MidPut(src, dst, cd, done, r);
    Changes1Add(src, dst, cd, done, r);
  }

  lemma Changes1Add(src: Tree, dst: Tree, cd: bool, done: set<Path>, r: Path)
    requires r in src && r !in done
    requires MakesDir(src, dst, cd, r) || Copies(src, dst, r)
    ensures Changes1(src, dst, cd, done + {r}) == Changes1(src, dst, cd, done) + {Change1Of(src, r)}
    ensures Change1Of(src, r) !in Changes1(src, dst, cd, done)
  {
    var c, d := Changes1(src, dst, cd, done + {r}), Changes1(src, dst, cd, done);
    forall x | x in c ensures x in d + {Change1Of(src, r)} {
      if x.rel != r {
        assert x in d;
      }
    }
    forall x | x in d ensures x.rel in done {
    }
  }

  lemma MidPut(src: Tree, dst: Tree, cd: bool, done: set<Path>, r: Path)
    requires r in src && r !in done
    requires MakesDir(src, dst, cd, r) || Copies(src, dst, r)
    ensures Mid(src, dst, cd, done + {r}) == Mid(src, dst, cd, done)[r := src[r]]
  {
    var a, b := Mid(src, dst, cd, done + {r}), Mid(src, dst, cd, done)[r := src[r]];
    assert forall q :: q in a <==> q in b;
    assert forall q :: q in a ==> a[q] == b[q];
  }

  /** The state of phase 1 when it is about to visit source entry `r`. */
  ghost predicate Visiting(e0: Entries, e: Entries, S: Path, T: Path, cd: bool, done: set<Path>, r: Path) {
    && Wf(e0) && Wf(e) && Disjoint(S, T)
    && Outside(e0, e, T)
    && done <= Walked(e0, S).Keys
    && View(e, T) == Mid(Walked(e0, S), View(e0, T), cd, done)
    && r in Walked(e0, S) && r !in done
    && (forall q :: q < r ==> q in done)
  }

  /** Every proper ancestor of the visited entry was visited, so it stands
      in the target as phase 1 left it: as it was, or a created directory. */
  lemma AncestorsInTarget(e: Entries, T: Path, src: Tree, dst: Tree, cd: bool, done: set<Path>, r: Path)
    requires View(e, T) == Mid(src, dst, cd, done)
    requires TreeWf(src) && r in src
    requires forall q :: q < r ==> q in done
    ensures forall q :: q < r ==> (T + q in e <==> q in dst || cd)
    ensures forall q :: q < r && T + q in e ==> e[T + q] == if q in dst then dst[q] else Dir
  {
    forall q | q < r ensures (T + q in e <==> q in dst || cd) && (T + q in e ==> e[T + q] == if q in dst then dst[q] else Dir) {
      TreeAncestors(src, r, q);
    }
  }

  /** A file above the directory makedirs is asked for: above the target root
      from the start, or a target file where the source has a directory. */
  lemma FileAboveTarget(e0: Entries, e: Entries, T: Path, dst: Tree, r: Path)
    requires Outside(e0, e, T)
    requires forall q :: q < r && T + q in e ==> e[T + q] == if q in dst then dst[q] else Dir
    ensures FileAbove(e, T + r) ==> FileAbove(e0, T) || TreeFileAbove(dst, r)
  {
    if FileAbove(e, T + r) {
      var j :| 0 <= j < |T + r| && (T + r)[..j] in e && e[(T + r)[..j]].File?;
      if j < |T| {
        assert (T + r)[..j] == T[..j];
      } else {
        var q := r[..j - |T|];
        assert (T + r)[..j] == T + q;
        assert q < r;
      }
    }
  }

  lemma TargetFileAbove(e0: Entries, e: Entries, T: Path, dst: Tree, cd: bool, r: Path)
    requires Outside(e0, e, T)
    requires forall q :: q < r ==> (T + q in e <==> q in dst || cd)
    requires forall q :: q < r && T + q in e ==> e[T + q] == if q in dst then dst[q] else Dir
    ensures FileAbove(e0, T) || TreeFileAbove(dst, r) ==> FileAbove(e, T + r)
  {
    if FileAbove(e0, T) {
      var i :| 0 <= i < |T| && T[..i] in e0 && e0[T[..i]].File?;
      assert (T + r)[..i] == T[..i];
    } else if TreeFileAbove(dst, r) {
      var i :| 0 <= i < |r| && r[..i] in dst && dst[r[..i]].File?;
      assert r[..i] < r;
      assert (T + r)[..|T| + i] == T + r[..i];
    }
  }

  /** A missing source directory to create: makedirs fails exactly at a conflict. */
  lemma DirStep(e0: Entries, e: Entries, S: Path, T: Path, cd: bool, done: set<Path>, r: Path)
    requires Visiting(e0, e, S, T, cd, done, r)
    requires Walked(e0, S)[r].Dir? && T + r !in e && cd
    ensures FileAbove(e, T + r) <==> Conflict1At(Walked(e0, S), View(e0, T), cd, FileAbove(e0, T), r)
    ensures forall q :: q < r ==> T + q in e
    ensures r !in View(e0, T)
  {
    var src, dst := Walked(e0, S), View(e0, T);
    ViewWf(e0, S);
    AncestorsInTarget(e, T, src, dst, cd, done, r);
    FileAboveTarget(e0, e, T, dst, r);
    TargetFileAbove(e0, e, T, dst, cd, r);
  }

  /** A source directory that exists in the target, or is not created. */
  lemma DirSkip(e0: Entries, e: Entries, S: Path, T: Path, cd: bool, done: set<Path>, r: Path)
    requires Visiting(e0, e, S, T, cd, done, r)
    requires Walked(e0, S)[r].Dir? && ((T + r in e && (r != [] || e[T + r].Dir?)) || !cd)
    ensures !Conflict1At(Walked(e0, S), View(e0, T), cd, FileAbove(e0, T), r)
    ensures r in View(e0, T) || !cd
  {
    if T + r in e {
      assert View(e, T)[r] == e[T + r];
    }
  }

  /** The target root is a file facing the source root. */
  lemma RootIsFile(e0: Entries, e: Entries, S: Path, T: Path, cd: bool, done: set<Path>, r: Path)
    requires Visiting(e0, e, S, T, cd, done, r)
    requires Walked(e0, S)[r].Dir? && r == [] && T + r in e && e[T + r].File? && cd
    ensures Conflict1At(Walked(e0, S), View(e0, T), cd, FileAbove(e0, T), r)
  {
    assert View(e, T)[r] == e[T + r];
  }

  /** A source file: where the target has a directory the checksum raises;
      otherwise copy2 succeeds exactly when there is no conflict. */
  lemma FileStep(e: Entries, T: Path, src: Tree, dst: Tree, cd: bool, blocked: bool, done: set<Path>, r: Path)
    requires Wf(e) && View(e, T) == Mid(src, dst, cd, done)
    requires TreeWf(src) && r in src && src[r].File? && r != [] && r !in done
    requires forall q :: q < r ==> q in done
    ensures T + r in e <==> r in dst
    ensures T + r in e ==> e[T + r] == dst[r]
    ensures T + r in e && e[T + r].Dir? ==> Conflict1At(src, dst, cd, blocked, r)
    ensures T + r in e && e[T + r].File? ==> !Conflict1At(src, dst, cd, blocked, r)
    ensures T + r in e && e[T + r].File? ==> Parent(T + r) in e && e[Parent(T + r)].Dir?
    ensures T + r !in e ==>
      ((Parent(T + r) in e && e[Parent(T + r)].Dir?) <==> !Conflict1At(src, dst, cd, blocked, r))
  {
    ParentInTarget(e, T, src, dst, cd, done, r);
  }

  lemma ParentInTarget(e: Entries, T: Path, src: Tree, dst: Tree, cd: bool, done: set<Path>, r: Path)
    requires View(e, T) == Mid(src, dst, cd, done)
    requires TreeWf(src) && r in src && r != []
    requires forall q :: q < r ==> q in done
    ensures Parent(T + r) == T + Parent(r)
    ensures T + Parent(r) in e <==> Parent(r) in dst || cd
    ensures T + Parent(r) in e ==> e[T + Parent(r)] == if Parent(r) in dst then dst[Parent(r)] else Dir
  {
    ParentOfJoin(T, r);
    assert Parent(r) < r;
    TreeAncestors(src, r, Parent(r));
  }

  // ---------------------------------------------------------------- phase 2

  /** A target entry with a counterpart in the source is kept. */
  lemma PruneKeep(mid: Tree, src: Tree, done: set<Path>, auditsDirs: bool, r: Path)
    requires r in src
    ensures Pruned(mid, src, done + {r}) == Pruned(mid, src, done)
    ensures Changes2(src, mid, done + {r}) == Changes2(src, mid, done)
    ensures !Conflict2At(src, mid, auditsDirs, r)
  {
    var c, d := Changes2(src, mid, done + {r}), Changes2(src, mid, done);
    forall x | x in c ensures x in d {
      assert x.rel != r;
    }
  }

  /** A target entry without a counterpart is removed, and its change is new. */
  lemma PruneRemove(mid: Tree, src: Tree, done: set<Path>, r: Path)
    requires r in mid && r != [] && r !in src && r !in done
    ensures Pruned(mid, src, done + {r}) == Pruned(mid, src, done) - {r}
    ensures Changes2(src, mid, done + {r}) == Changes2(src, mid, done) + {Change2Of(mid, r)}
    ensures Change2Of(mid, r) !in Changes2(src, mid, done)
  {
    var c, d := Changes2(src, mid, done + {r}), Changes2(src, mid, done);
    assert Removes(src, mid, r);
    forall x | x in c ensures x in d + {Change2Of(mid, r)} {
      if x.rel != r {
        assert x in d;
      }
    }
    forall x | x in d ensures x.rel in done {
    }
  }

  /** When the bottom-up walk reaches a directory without a counterpart,
      everything below it is already gone, so rmtree removes it alone. */
  lemma OrphanIsEmpty(e: Entries, T: Path, mid: Tree, src: Tree, done: set<Path>, r: Path)
    requires View(e, T) == Pruned(mid, src, done)
    requires TreeWf(src) && r !in src
    requires forall q :: q in mid && r < q ==> q in done
    ensures Without(e, T + r) == e - {T + r}
  {
    forall p | p in e && T + r <= p ensures p == T + r {
      var q := p[|T|..];
      assert p == T + q;
      assert r <= q by {
        assert r == (T + r)[|T|..];
      }
      if r != q {
        assert q in mid && q in done;
        if q in src {
          TreeAncestors(src, q, r);
        }
      }
    }
  }

  /** Once rmtree of `T/r` removes it alone, nothing else below `r` is in the view. */
  lemma AloneHasNothingBelow(e: Entries, T: Path, r: Path)
    requires Without(e, T + r) == e - {T + r}
    ensures forall q :: q in View(e, T) && q != r ==> !(r <= q)
  {
    forall q | q in View(e, T) && q != r ensures !(r <= q) {
      JoinInjective(T, q, r);
      JoinPrefix(T, r, q);
      assert T + q in Without(e, T + r);
    }
  }

  /** A removal with nothing below the removed entry drops that entry alone. */
  lemma RemovalApplies(t: Tree, c: Change)
    requires c.RemoveFile? || c.RemoveDir?
    requires c.RemoveDir? ==> forall q :: q in t && q != c.rel ==> !(c.rel <= q)
    ensures Apply(t, c) == t - {c.rel}
  {
    if c.RemoveDir? {
      var a := Apply(t, c);
      assert forall q :: q in a <==> q in t - {c.rel};
    }
  }

  // ---------------------------------------------------------------- whole pass

  /** Phase 1 only touches source paths: elsewhere the target is as it was. */
  lemma Phase1Elsewhere(src: Tree, dst: Tree, cd: bool, r: Path)
    requires r !in src
    ensures r in Phase1(src, dst, cd) <==> r in dst
    ensures r in dst ==> Phase1(src, dst, cd)[r] == dst[r]
  {
  }

  /** The bottom-up walk over what phase 1 left removes what the pass removes,
      raises where the pass raises, and leaves the mirrored target. */
  lemma Phase2Total(src: Tree, dst: Tree, cd: bool, auditsDirs: bool)
    ensures var mid := Phase1(src, dst, cd);
      && Pruned(mid, src, mid.Keys - {[]}) == Mirrored(src, dst, cd)
      && Changes2(src, mid, mid.Keys - {[]}) == Changes2(src, dst, dst.Keys)
      && (forall r :: Conflict2At(src, mid, auditsDirs, r) <==> Conflict2At(src, dst, auditsDirs, r))
  {
    var mid := Phase1(src, dst, cd);
    var a, b := Pruned(mid, src, mid.Keys - {[]}), Mirrored(src, dst, cd);
    assert forall r :: r in a <==> r in b;
    var c, d := Changes2(src, mid, mid.Keys - {[]}), Changes2(src, dst, dst.Keys);
    forall x | x in c ensures x in d {
      Phase1Elsewhere(src, dst, cd, x.rel);
    }
    forall x | x in d ensures x in c {
      Phase1Elsewhere(src, dst, cd, x.rel);
    }
    forall r ensures Conflict2At(src, mid, auditsDirs, r) <==> Conflict2At(src, dst, auditsDirs, r) {
      if r !in src {
        Phase1Elsewhere(src, dst, cd, r);
      }
    }
  }

  /** The first phase's changes and the second's are disjoint, so the counts add. */
  lemma ChangesSplit(src: Tree, dst: Tree, cd: bool)
    ensures |Changes(src, dst, cd)| == |Changes1(src, dst, cd, src.Keys)| + |Changes2(src, dst, dst.Keys)|
  {
    var c1, c2 := Changes1(src, dst, cd, src.Keys), Changes2(src, dst, dst.Keys);
    assert c1 * c2 == {} by {
      forall x | x in c1 ensures x !in c2 {
      }
    }
  }

  /** Any non-empty set of paths has a shortest member and a longest member. */
  lemma {:induction false} ShortestExists(s: set<Path>) returns (r: Path)
    requires s != {}
    ensures r in s && forall q :: q in s ==> |r| <= |q|
    decreases |s|
  {
    var x :| x in s;
    var rest := s - {x};
    if rest == {} {
      r := x;
      forall q | q in s ensures |r| <= |q| {
        assert q !in rest;
      }
    } else {
      var y := ShortestExists(rest);
      r := if |x| < |y| then x else y;
      forall q | q in s ensures |r| <= |q| {
        if q != x { assert q in rest; }
      }
    }
  }

  lemma {:induction false} LongestExists(s: set<Path>) returns (r: Path)
    requires s != {}
    ensures r in s && forall q :: q in s ==> |q| <= |r|
    decreases |s|
  {
    var x :| x in s;
    var rest := s - {x};
    if rest == {} {
      r := x;
      forall q | q in s ensures |q| <= |r| {
        assert q !in rest;
      }
    } else {
      var y := LongestExists(rest);
      r := if |x| > |y| then x else y;
      forall q | q in s ensures |q| <= |r| {
        if q != x { assert q in rest; }
      }
    }
  }

  // ---------------------------------------------------------------- walks

  /** Before the top-down walk visits anything the target is as it was. */
  lemma MidEmpty(src: Tree, dst: Tree, cd: bool)
    ensures Mid(src, dst, cd, {}) == dst
  {
  }

  /** Before the bottom-up walk visits anything the target is as it was. */
  lemma PrunedNone(m: Tree, src: Tree)
    ensures Pruned(m, src, {}) == m
  {
  }

  lemma Changes1Grow(src: Tree, dst: Tree, cd: bool, a: set<Path>, b: set<Path>)
    requires a <= b
    ensures Changes1(src, dst, cd, a) <= Changes1(src, dst, cd, b)
  {
  }

  lemma Changes2Grow(src: Tree, dst: Tree, a: set<Path>, b: set<Path>)
    requires a <= b
    ensures Changes2(src, dst, a) <= Changes2(src, dst, b)
  {
  }

  /** Removing an entry below the target keeps everything outside it. */
  lemma OutsideRemove(e0: Entries, e: Entries, T: Path, r: Path)
    requires Outside(e0, e, T)
    ensures Outside(e0, e - {T + r}, T)
  {
  }

  /** Writing an entry below the target keeps everything outside it. */
  lemma OutsidePut(e0: Entries, e: Entries, T: Path, r: Path, n: Node)
    requires Outside(e0, e, T)
    ensures Outside(e0, e[T + r := n], T)
  {
    assert T <= T + r;
  }

  /** The changes a visit adds, as a set. */
  lemma ChangeSet(c: Change)
    ensures (set x | x in [c]) == {c}
  {
  }

  /** Changes confined to the target side leave the source subtree as it was. */
  lemma SourceIntact(e0: Entries, e: Entries, S: Path, T: Path)
    requires Wf(e0) && Outside(e0, e, T) && Disjoint(S, T)
    ensures View(e, S) == View(e0, S)
  {
    var a, b := View(e, S), View(e0, S);
    forall r ensures r in a <==> r in b {
      assert S <= S + r;
    }
    forall r | r in a ensures a[r] == b[r] {
      assert S <= S + r;
    }
  }
}
