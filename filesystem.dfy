/** The file system the programs act on: a map from absolute path to node,
    the relative view of a subtree that os.walk enumerates, the checksum of a
    file's content, and the os/shutil primitives the programs call. */
module FileSystem {
  import opened Paths

  type Bytes = seq<bv8>

  datatype Node = File(content: Bytes) | Dir

  /** The whole disk, keyed by absolute path. */
  type Entries = map<Path, Node>

  /** A subtree keyed by path relative to its root; [] is the root itself. */
  type Tree = map<Path, Node>

  /** The root exists as a directory and every other entry sits in a directory. */
  ghost predicate Wf(e: Entries) {
    && [] in e && e[[]].Dir?
    && forall p :: p in e && p != [] ==> Parent(p) in e && e[Parent(p)].Dir?
  }

  /** Every non-root entry of a subtree sits in a directory of the subtree. */
  ghost predicate TreeWf(t: Tree) {
    forall r :: r in t && r != [] ==> Parent(r) in t && t[Parent(r)].Dir?
  }

  // ---------------------------------------------------------------- checksums

  datatype HashAlg = Md5 | Sha256

  /** A hex digest. The hash functions are not modelled; the digest keeps its
      input, which makes the model's checksum collision-free by construction. */
  datatype FileDigest = FileDigest(alg: HashAlg, data: Bytes)

  /** file_checksum: the digest of a file's content under one algorithm. */
  function FileChecksum(alg: HashAlg, content: Bytes): (d: FileDigest)
    ensures d.alg == alg
  {
    FileDigest(alg, content)
  }

  lemma ChecksumsDifferIffContentsDiffer(alg: HashAlg, a: Bytes, b: Bytes)
    ensures FileChecksum(alg, a) != FileChecksum(alg, b) <==> a != b
  {
  }

  // ---------------------------------------------------------------- views

  /** The relative paths of the entries at or below `root`. */
  function RelKeys(e: Entries, root: Path): (ks: set<Path>)
    ensures forall r :: r in ks <==> root + r in e
  {
    var ks := set p | p in e && root <= p :: p[|root|..];
    assert forall r :: root + r in e ==> r in ks by {
      forall r | root + r in e ensures r in ks {
        var p := root + r;
        assert p[|root|..] == r;
      }
    }
    assert forall r :: r in ks ==> root + r in e by {
      forall r | r in ks ensures root + r in e {
        var p :| p in e && root <= p && r == p[|root|..];
        assert root + r == p;
      }
    }
    ks
  }

  /** The subtree at `root` with paths relative to it (the root itself under []). */
  function View(e: Entries, root: Path): (t: Tree)
    ensures forall r :: r in t <==> root + r in e
    ensures forall r :: r in t ==> t[r] == e[root + r]
  {
    map r | r in RelKeys(e, root) :: e[root + r]
  }

  /** What os.walk sees below `root`: nothing unless `root` is a directory. */
  function Walked(e: Entries, root: Path): (t: Tree)
    ensures t == map[] || (root in e && e[root].Dir? && t == View(e, root))
  {
    if root in e && e[root].Dir? then View(e, root) else map[]
  }

  /** Some proper ancestor of `p` is a file, so nothing can be created at `p`. */
  ghost predicate FileAbove(e: Entries, p: Path) {
    exists i :: 0 <= i < |p| && p[..i] in e && e[p[..i]].File?
  }

  /** Some proper ancestor of relative path `r` is a file in the subtree. */
  ghost predicate TreeFileAbove(t: Tree, r: Path) {
    exists i :: 0 <= i < |r| && r[..i] in t && t[r[..i]].File?
  }

  // ---------------------------------------------------------------- lookup

  /** Where the lookup of a raw path starts: the root for an absolute path,
      the working directory otherwise. */
  function StartOf(cwd: Path, raw: string): Path {
    if |raw| > 0 && raw[0] == '/' then [] else cwd
  }

  /** The kernel resolves `comps` one at a time from `cur`: each component,
      "..", "." and the empty one of a doubled or trailing '/' included, is
      looked up in the path reached so far, which must be an existing
      directory. */
  predicate Traversable(e: Entries, cur: Path, comps: seq<string>)
    decreases |comps|
  {
    comps == [] || (cur in e && e[cur].Dir? && Traversable(e, Step(cur, comps[0]), comps[1..]))
  }

  /** os.path.exists: the lookup gets through every component and ends on an
      entry. Unlike os.path.abspath it does not cancel "x/.." as text: the
      lookup passes through x. */
  function PathExists(e: Entries, cwd: Path, raw: string): (b: bool)
    requires Normal(cwd)
    ensures b ==> raw != "" && AbsPath(cwd, raw) in e
  {
    raw != "" && Traversable(e, StartOf(cwd, raw), Split(raw)) && AbsPath(cwd, raw) in e
  }

  /** Without ".." components, a raw path that normalises to an existing
      directory is found: there the lookup and the normalisation agree. */
  lemma PathExistsWithoutParentSteps(e: Entries, cwd: Path, raw: string)
    requires Wf(e) && Normal(cwd) && cwd in e && e[cwd].Dir?
    requires ".." !in Split(raw)
    requires raw != "" && AbsPath(cwd, raw) in e && e[AbsPath(cwd, raw)].Dir?
    ensures PathExists(e, cwd, raw)
  {
    TraversableToDirectory(e, StartOf(cwd, raw), Split(raw));
  }

  lemma {:induction false} TraversableToDirectory(e: Entries, cur: Path, comps: seq<string>)
    requires Wf(e) && ".." !in comps
    requires Resolve(cur, comps) in e && e[Resolve(cur, comps)].Dir?
    ensures Traversable(e, cur, comps)
    decreases |comps|
  {
    if comps != [] {
      assert ".." !in comps[1..] by {
        assert forall c :: c in comps[1..] ==> c in comps;
      }
      ResolveExtends(Step(cur, comps[0]), comps[1..]);
      assert cur <= Step(cur, comps[0]);
      AncestorsExist(e, Resolve(cur, comps), cur);
      TraversableToDirectory(e, Step(cur, comps[0]), comps[1..]);
    }
  }

  /** Without "..", normalisation only ever extends the path. */
  lemma {:induction false} ResolveExtends(cur: Path, comps: seq<string>)
    requires ".." !in comps
    ensures cur <= Resolve(cur, comps)
    decreases |comps|
  {
    if comps != [] {
      assert ".." !in comps[1..] by {
        assert forall c :: c in comps[1..] ==> c in comps;
      }
      ResolveExtends(Step(cur, comps[0]), comps[1..]);
      assert cur <= Step(cur, comps[0]);
    }
  }

  // ---------------------------------------------------------------- effects

  /** All prefixes of a path, itself included. */
  function Prefixes(p: Path): (s: set<Path>)
    ensures forall q :: q in s <==> q <= p
  {
    var s := set i | 0 <= i <= |p| :: p[..i];
    assert forall q :: q <= p ==> q in s by {
      forall q | q <= p ensures q in s {
        assert q == p[..|q|];
      }
    }
    s
  }

  /** os.makedirs: `p` and every missing ancestor become directories. */
  function WithDirs(e: Entries, p: Path): (e': Entries)
    ensures forall q :: q in e' <==> q in e || q <= p
    ensures forall q :: q in e ==> e'[q] == e[q]
    ensures forall q :: q !in e && q <= p ==> e'[q] == Dir
  {
    e + map q | q in Prefixes(p) && q !in e :: Dir
  }

  /** shutil.rmtree / os.remove: `p` and everything below it disappear. */
  function Without(e: Entries, p: Path): (e': Entries)
    ensures forall q :: q in e' <==> q in e && !(p <= q)
    ensures forall q :: q in e' ==> e'[q] == e[q]
  {
    map q | q in e && !(p <= q) :: e[q]
  }

  /** A subtree placed at absolute path `dst`. */
  function Placed(t: Tree, dst: Path): (e: Entries)
    ensures forall p :: p in e <==> dst <= p && p[|dst|..] in t
    ensures forall r :: r in t ==> dst + r in e && e[dst + r] == t[r]
  {
    var keys := set r | r in t :: dst + r;
    var e := map p | p in keys :: t[p[|dst|..]];
    assert forall r :: r in t ==> (dst + r)[|dst|..] == r;
    assert forall p :: dst <= p && p[|dst|..] in t ==> p in e by {
      forall p | dst <= p && p[|dst|..] in t ensures p in e {
        assert dst + p[|dst|..] == p;
      }
    }
    assert forall p :: p in e ==> dst <= p && p[|dst|..] in t by {
      forall p | p in e ensures dst <= p && p[|dst|..] in t {
        var r :| r in t && p == dst + r;
        assert p[|dst|..] == r;
      }
    }
    e
  }

  // ---------------------------------------------------------------- lemmas

  lemma PrefixOfParent(p: Path, q: Path)
    requires q != []
    ensures p <= Parent(q) ==> p <= q && p != q
  {
  }

  lemma ParentOfJoin(root: Path, r: Path)
    requires r != []
    ensures Parent(root + r) == root + Parent(r)
  {
    assert (root + r)[..|root + r| - 1] == root + r[..|r| - 1];
  }

  /** Every ancestor of an entry exists, and the proper ones are directories. */
  lemma {:induction false} AncestorsExist(e: Entries, p: Path, q: Path)
    requires Wf(e) && p in e && q <= p
    ensures q in e && (q != p ==> e[q].Dir?)
    decreases |p|
  {
    if q != p {
      assert p != [];
      assert q <= Parent(p);
      AncestorsExist(e, Parent(p), q);
    }
  }

  /** A missing path, or a file, has nothing below it. */
  lemma NothingBelow(e: Entries, q: Path)
    requires Wf(e)
    requires q !in e || e[q].File?
    ensures forall p :: p in e && q <= p ==> p == q
  {
    forall p | p in e && q <= p ensures p == q {
      AncestorsExist(e, p, q);
    }
  }

  lemma ViewWf(e: Entries, root: Path)
    requires Wf(e)
    ensures TreeWf(View(e, root))
  {
    var t := View(e, root);
    forall r | r in t && r != [] ensures Parent(r) in t && t[Parent(r)].Dir? {
      ParentOfJoin(root, r);
    }
  }

  lemma FileAboveMeansMissing(e: Entries, p: Path)
    requires Wf(e) && FileAbove(e, p)
    ensures p !in e
  {
    var i :| 0 <= i < |p| && p[..i] in e && e[p[..i]].File?;
    if p in e {
      AncestorsExist(e, p, p[..i]);
    }
  }

  lemma WfWithDirs(e: Entries, p: Path)
    requires Wf(e) && !FileAbove(e, p)
    ensures Wf(WithDirs(e, p))
  {
    var e' := WithDirs(e, p);
    forall q | q in e' && q != [] ensures Parent(q) in e' && e'[Parent(q)].Dir? {
      if q !in e {
        assert q <= p;
        var par := Parent(q);
        assert par == p[..|par|];
        if par in e {
          assert e[par].Dir?;
        }
      }
    }
  }

  /** When the parent exists, makedirs creates the one directory. */
  lemma WithDirsUnderDir(e: Entries, p: Path)
    requires Wf(e) && p != [] && p !in e
    requires Parent(p) in e && e[Parent(p)].Dir?
    ensures !FileAbove(e, p)
    ensures WithDirs(e, p) == e[p := Dir]
  {
    forall q | q <= p && q != p ensures q in e && e[q].Dir? {
      assert q <= Parent(p);
      AncestorsExist(e, Parent(p), q);
    }
    forall i | 0 <= i < |p| ensures p[..i] in e && e[p[..i]].Dir? {
      assert p[..i] <= p && p[..i] != p;
    }
  }

  lemma WfWithout(e: Entries, p: Path)
    requires Wf(e) && p != []
    ensures Wf(Without(e, p))
  {
    var e' := Without(e, p);
    forall q | q in e' && q != [] ensures Parent(q) in e' && e'[Parent(q)].Dir? {
      PrefixOfParent(p, q);
    }
  }

  lemma WfRemoveFile(e: Entries, p: Path)
    requires Wf(e) && p in e && e[p].File?
    ensures Wf(e - {p})
  {
    var e' := e - {p};
    forall q | q in e' && q != [] ensures Parent(q) in e' && e'[Parent(q)].Dir? {
    }
  }

  lemma WfPutFile(e: Entries, p: Path, n: Node)
    requires Wf(e) && p != [] && Parent(p) in e && e[Parent(p)].Dir?
    requires n.File? && (p !in e || e[p].File?)
    ensures Wf(e[p := n])
  {
    NothingBelow(e, p);
    var e' := e[p := n];
    forall q | q in e' && q != [] ensures Parent(q) in e' && e'[Parent(q)].Dir? {
    }
  }

  /** A subtree grafted where nothing was, under an existing directory. */
  lemma WfGraft(base: Entries, t: Tree, dst: Path)
    requires Wf(base) && dst != []
    requires forall q :: q in base && dst <= q ==> q == dst
    requires Parent(dst) in base && base[Parent(dst)].Dir?
    requires TreeWf(t) && [] in t && t[[]].Dir?
    ensures Wf(base + Placed(t, dst))
  {
    var pl := Placed(t, dst);
    var e' := base + pl;
    forall q | q in e' && q != [] ensures Parent(q) in e' && e'[Parent(q)].Dir? {
      if q in pl {
        GraftParentInside(base, t, dst, q);
      } else {
        GraftParentOutside(base, t, dst, q);
      }
    }
  }

  lemma GraftParentInside(base: Entries, t: Tree, dst: Path, q: Path)
    requires dst != [] && Parent(dst) in base && base[Parent(dst)].Dir?
    requires forall q :: q in base && dst <= q ==> q == dst
    requires TreeWf(t) && q in Placed(t, dst)
    ensures Parent(q) in base + Placed(t, dst) && (base + Placed(t, dst))[Parent(q)].Dir?
  {
    var r := q[|dst|..];
    assert q == dst + r;
    if r != [] {
      ParentOfJoin(dst, r);
      assert Parent(q) in Placed(t, dst);
    } else {
      assert Parent(q) == Parent(dst);
      assert !(dst <= Parent(dst));
    }
  }

  lemma GraftParentOutside(base: Entries, t: Tree, dst: Path, q: Path)
    requires Wf(base) && q in base && q != []
    requires forall q :: q in base && dst <= q ==> q == dst
    requires [] in t && t[[]].Dir?
    ensures Parent(q) in base + Placed(t, dst) && (base + Placed(t, dst))[Parent(q)].Dir?
  {
    PrefixOfParent(dst, q);
  }

  // ---------------------------------------------------------------- the disk

  /** The machine's file system, changed in place by the os/shutil calls. */
  class Disk {
    var entries: Entries

    ghost predicate Valid()
      reads this
    {
      Wf(entries)
    }

    constructor (e: Entries)
      requires Wf(e)
      ensures Valid() && entries == e
    {
      entries := e;
    }

    /** os.makedirs(p): fails if `p` exists or an ancestor is a file. */
    method MakeDirs(p: Path) returns (ok: bool)
      requires Valid()
      modifies this
      ensures Valid()
      ensures ok <==> p !in old(entries) && !FileAbove(old(entries), p)
      ensures entries == if ok then WithDirs(old(entries), p) else old(entries)
    {
      if p in entries {
        return false;
      }
      ok := forall i | 0 <= i < |p| :: !(p[..i] in entries && entries[p[..i]].File?);
      if ok {
        WfWithDirs(entries, p);
        entries := WithDirs(entries, p);
      }
    }

    /** shutil.copy2(src, dst) onto a missing or regular file: fails unless the
        parent of `dst` is a directory. */
    method Copy2(src: Path, dst: Path) returns (ok: bool)
      requires Valid()
      requires src in entries && entries[src].File?
      requires dst !in entries || entries[dst].File?
      modifies this
      ensures Valid()
      ensures ok <==> dst != [] && Parent(dst) in old(entries) && old(entries)[Parent(dst)].Dir?
      ensures entries == if ok then old(entries)[dst := old(entries)[src]] else old(entries)
    {
      ok := dst != [] && Parent(dst) in entries && entries[Parent(dst)].Dir?;
      if ok {
        WfPutFile(entries, dst, entries[src]);
        entries := entries[dst := entries[src]];
      }
    }

    /** os.remove(p) on a regular file. */
    method Remove(p: Path)
      requires Valid() && p in entries && entries[p].File?
      modifies this
      ensures Valid()
      ensures entries == old(entries) - {p}
    {
      NothingBelow(entries, p);
      WfWithout(entries, p);
      assert Without(entries, p) == entries - {p};
      entries := entries - {p};
    }

    /** shutil.rmtree(p) on a directory. */
    method RmTree(p: Path)
      requires Valid() && p in entries && entries[p].Dir? && p != []
      modifies this
      ensures Valid()
      ensures entries == Without(old(entries), p)
    {
      WfWithout(entries, p);
      entries := Without(entries, p);
    }

    /** shutil.move(src, dst) of a directory to a missing path whose parent is a directory. */
    method Move(src: Path, dst: Path)
      requires Valid() && src in entries && entries[src].Dir? && src != []
      requires dst != [] && dst !in entries && Parent(dst) in entries && entries[Parent(dst)].Dir?
      requires !(src <= dst)
      modifies this
      ensures Valid()
      ensures entries == Without(old(entries), src) + Placed(View(old(entries), src), dst)
    {
      var t := View(entries, src);
      ViewWf(entries, src);
      assert src + [] == src;
      var base := Without(entries, src);
      WfWithout(entries, src);
      assert Parent(dst) in base;
      NothingBelow(entries, dst);
      WfGraft(base, t, dst);
      entries := base + Placed(t, dst);
    }

    /** shutil.copytree(src, dst): fails unless `src` is a directory and
        os.makedirs(dst) succeeds. */
    method CopyTree(src: Path, dst: Path) returns (ok: bool)
      requires Valid() && !(src <= dst)
      modifies this
      ensures Valid()
      ensures ok <==> src in old(entries) && old(entries)[src].Dir? && dst !in old(entries) && !FileAbove(old(entries), dst)
      ensures entries == if ok then WithDirs(old(entries), dst) + Placed(View(old(entries), src), dst) else old(entries)
    {
      if !(src in entries && entries[src].Dir?) {
        return false;
      }
      var t := View(entries, src);
      ViewWf(entries, src);
      assert src + [] == src;
      ghost var pre := entries;
      ok := MakeDirs(dst);
      if ok {
        NothingBelow(pre, dst);
        var made := entries;
        assert dst != [] && Parent(dst) <= dst;
        WfGraft(made, t, dst);
        entries := made + Placed(t, dst);
      }
    }
  }
}
