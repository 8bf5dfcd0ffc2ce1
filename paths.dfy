/** Path handling shared by the three programs: raw command-line strings,
    posix-style normalisation against a working directory (os.path.abspath),
    os.path.commonpath, basename and the "<name>_backup" naming scheme. */
module Paths {

  /** An absolute path as its components; [] is the root "/". */
  type Path = seq<string>

  /** A component that normalisation keeps: not empty, not "." or "..", no separator. */
  predicate PlainName(c: string) {
    c != "" && c != "." && c != ".." && '/' !in c
  }

  /** A normalised absolute path: every component is a plain name. */
  predicate Normal(p: Path) {
    forall i :: 0 <= i < |p| ==> PlainName(p[i])
  }

  /** The components of a raw path string, as str.split('/') gives them. */
  function Split(s: string): (parts: seq<string>)
    ensures |parts| >= 1
    ensures forall i :: 0 <= i < |parts| ==> '/' !in parts[i]
  {
    if |s| == 0 then [""]
    else if s[|s| - 1] == '/' then Split(s[..|s| - 1]) + [""]
    else
      var parts := Split(s[..|s| - 1]);
      parts[..|parts| - 1] + [parts[|parts| - 1] + [s[|s| - 1]]]
  }

  /** The inverse of Split: the components joined with '/'. */
  function JoinSlash(parts: seq<string>): string
    requires |parts| >= 1
  {
    if |parts| == 1 then parts[0] else JoinSlash(parts[..|parts| - 1]) + "/" + parts[|parts| - 1]
  }

  lemma {:induction false} SplitJoin(s: string)
    ensures JoinSlash(Split(s)) == s
    decreases |s|
  {
    if |s| > 0 {
      var init := s[..|s| - 1];
      var c := s[|s| - 1];
      SplitJoin(init);
      assert s == init + [c];
      if c == '/' {
        SplitJoinSeparator(init);
      } else {
        SplitJoinChar(init, c);
      }
    }
  }

  /** Split of a string ending in a non-separator character: the last component grows. */
  lemma {:induction false} SplitSnocChar(init: string, c: char)
    requires c != '/'
    ensures var p := Split(init);
      Split(init + [c]) == p[..|p| - 1] + [p[|p| - 1] + [c]]
  {
    var s := init + [c];
    assert s[..|s| - 1] == init;
  }

  lemma {:induction false} SplitJoinSeparator(init: string)
    requires JoinSlash(Split(init)) == init
    ensures JoinSlash(Split(init + "/")) == init + "/"
  {
    var parts := Split(init);
    var s := init + "/";
    assert s[..|s| - 1] == init;
    assert Split(s) == parts + [""];
    JoinSlashReplaceLast(parts + [""], "");
    assert (parts + [""])[..|parts|] == parts;
  }

  lemma {:induction false} SplitJoinChar(init: string, c: char)
    requires c != '/'
    requires JoinSlash(Split(init)) == init
    ensures JoinSlash(Split(init + [c])) == init + [c]
  {
    SplitSnocChar(init, c);
    JoinExtendLast(Split(init), c);
  }

  /** Growing the last component by one character grows the joined string by it. */
  lemma {:induction false} JoinExtendLast(parts: seq<string>, c: char)
    requires |parts| >= 1
    ensures var n := |parts|;
      JoinSlash(parts[..n - 1] + [parts[n - 1] + [c]]) == JoinSlash(parts) + [c]
  {
    var n := |parts|;
    var last := parts[n - 1];
    JoinSlashReplaceLast(parts, last + [c]);
    JoinSlashReplaceLast(parts, last);
    assert parts[..n - 1] + [last] == parts;
    if n > 1 {
      var pre := JoinSlash(parts[..n - 1]);
      assert pre + "/" + (last + [c]) == (pre + "/" + last) + [c];
    }
  }

  lemma {:induction false} JoinSlashReplaceLast(parts: seq<string>, x: string)
    requires |parts| >= 1
    ensures var n := |parts|;
      JoinSlash(parts[..n - 1] + [x]) == if n == 1 then x else JoinSlash(parts[..n - 1]) + "/" + x
  {
    var n := |parts|;
    var r := parts[..n - 1] + [x];
    assert r[..n - 1] == parts[..n - 1];
  }

  /** Appending text without a separator extends the last component only. */
  lemma {:induction false} SplitAppend(s: string, t: string)
    requires '/' !in t
    ensures var p := Split(s);
      Split(s + t) == p[..|p| - 1] + [p[|p| - 1] + t]
    decreases |t|
  {
    if |t| == 0 {
      var p := Split(s);
      assert s + t == s;
      assert p[|p| - 1] + t == p[|p| - 1];
      assert p == p[..|p| - 1] + [p[|p| - 1]];
    } else {
      var t', c := t[..|t| - 1], t[|t| - 1];
      assert t == t' + [c];
      assert s + t == (s + t') + [c];
      assert c != '/' && '/' !in t' by { assert c in t; }
      SplitAppend(s, t');
      SplitSnocChar(s + t', c);
      ExtendLast(Split(s), Split(s + t'), t', c);
    }
  }

  lemma {:induction false} ExtendLast(p: seq<string>, q: seq<string>, t': string, c: char)
    requires |p| >= 1 && q == p[..|p| - 1] + [p[|p| - 1] + t']
    ensures q[..|q| - 1] + [q[|q| - 1] + [c]] == p[..|p| - 1] + [p[|p| - 1] + (t' + [c])]
  {
    assert q[..|q| - 1] == p[..|p| - 1];
    assert (p[|p| - 1] + t') + [c] == p[|p| - 1] + (t' + [c]);
  }

  /** One step of normalisation: "" and "." are dropped, ".." pops (never above the root). */
  function Step(base: Path, c: string): Path {
    if c == "" || c == "." then base
    else if c == ".." then (if base == [] then [] else base[..|base| - 1])
    else base + [c]
  }

  /** Normalisation of a component list, left to right from a base path. */
  function Resolve(base: Path, comps: seq<string>): Path
    decreases |comps|
  {
    if comps == [] then base else Resolve(Step(base, comps[0]), comps[1..])
  }

  lemma {:induction false} ResolveSnoc(base: Path, comps: seq<string>, c: string)
    ensures Resolve(base, comps + [c]) == Step(Resolve(base, comps), c)
    decreases |comps|
  {
    if comps == [] {
      assert Resolve(Step(base, c), []) == Step(base, c);
    } else {
      assert (comps + [c])[1..] == comps[1..] + [c];
      ResolveSnoc(Step(base, comps[0]), comps[1..], c);
    }
  }

  lemma {:induction false} ResolveNormal(base: Path, comps: seq<string>)
    requires Normal(base)
    requires forall i :: 0 <= i < |comps| ==> '/' !in comps[i]
    ensures Normal(Resolve(base, comps))
    decreases |comps|
  {
    if comps != [] {
      ResolveNormal(Step(base, comps[0]), comps[1..]);
    }
  }

  /** os.path.abspath: a raw string resolved against the working directory `cwd`. */
  function AbsPath(cwd: Path, raw: string): (p: Path)
    requires Normal(cwd)
    ensures Normal(p)
    ensures |raw| > 0 && raw[0] == '/' ==> p == Resolve([], Split(raw))
  {
    var start := if |raw| > 0 && raw[0] == '/' then [] else cwd;
    ResolveNormal(start, Split(raw));
    Resolve(start, Split(raw))
  }

  /** The path as os.path.abspath prints it. */
  function PathString(p: Path): string {
    if p == [] then "/" else "/" + JoinSlash(p)
  }

  /** os.path.basename of an absolute path ("" for the root). */
  function Basename(p: Path): string {
    if p == [] then "" else p[|p| - 1]
  }

  /** The containing directory (the root is its own parent). */
  function Parent(p: Path): Path {
    if p == [] then [] else p[..|p| - 1]
  }

  /** os.path.commonpath of two absolute paths: their longest common component prefix. */
  function CommonPath(a: Path, b: Path): (c: Path)
    ensures c <= a && c <= b
    ensures |c| < |a| && |c| < |b| ==> a[|c|] != b[|c|]
  {
    if a == [] || b == [] || a[0] != b[0] then []
    else [a[0]] + CommonPath(a[1..], b[1..])
  }

  lemma {:induction false} CommonPathIsFirst(a: Path, b: Path)
    ensures CommonPath(a, b) == a <==> a <= b
  {
    if a == [] || b == [] || a[0] != b[0] {
    } else {
      CommonPathIsFirst(a[1..], b[1..]);
      assert a == [a[0]] + a[1..];
      assert a <= b <==> a[1..] <= b[1..];
    }
  }

  /** posixpath keeps exactly two leading slashes (three or more become one):
      os.path.abspath("//a") is "//a". */
  predicate DoubleSlashRoot(raw: string) {
    |raw| >= 2 && raw[0] == '/' && raw[1] == '/' && (|raw| == 2 || raw[2] != '/')
  }

  /** The string os.path.abspath returns (a working directory never starts
      with a doubled slash). */
  function AbsPathString(cwd: Path, raw: string): (s: string)
    requires Normal(cwd)
    ensures !DoubleSlashRoot(raw) ==> s == PathString(AbsPath(cwd, raw))
  {
    (if DoubleSlashRoot(raw) then "/" else "") + PathString(AbsPath(cwd, raw))
  }

  /** is_subdirectory_of_source: os.path.commonpath of the two absolute
      paths, as a string with one leading slash, equals the absolute source
      string. That is the backup lying at or beneath the source, unless the
      source keeps a doubled leading slash, which commonpath never returns. */
  function IsSubdirectoryOfSource(cwd: Path, source: string, backup: string): (r: bool)
    requires Normal(cwd)
    ensures r <==> !DoubleSlashRoot(source) && AbsPath(cwd, source) <= AbsPath(cwd, backup)
  {
    var s := AbsPath(cwd, source);
    var b := AbsPath(cwd, backup);
    CommonPathIsFirst(s, b);
    PathStringInjective(CommonPath(s, b), s);
    SingleSlashIsNotDouble(CommonPath(s, b), s);
    PathString(CommonPath(s, b)) == AbsPathString(cwd, source)
  }

  /** The guard main evidently means: the backup is the source or lies
      beneath it, whatever the spelling of the source's root. When it does
      not hold, the mirror directory is not inside the source either. */
  function IsInsideSource(cwd: Path, source: string, backup: string): (r: bool)
    requires Normal(cwd)
    ensures r <==> AbsPath(cwd, source) <= AbsPath(cwd, backup)
    ensures !r ==> !(AbsPath(cwd, source) <= MirrorTarget(cwd, source, backup))
  {
    var s, b := AbsPath(cwd, source), AbsPath(cwd, backup);
    MirrorOutsideSource(s, b, MirrorTarget(cwd, source, backup));
    CommonPathIsFirst(s, b);
    CommonPath(s, b) == s
  }

  /** A child of `b` named after `s` with "_backup" appended lies inside `s`
      only when `b` does: it cannot be `s` itself, its name being longer. */
  lemma MirrorOutsideSource(s: Path, b: Path, t: Path)
    requires |t| == |b| + 1 && Parent(t) == b && Basename(t) == Basename(s) + "_backup"
    ensures s <= t ==> s <= b
  {
    assert |Basename(t)| != |Basename(s)|;
    if s <= t {
      assert s != t;
      assert s <= Parent(t);
    }
  }

  /** Two normalised paths print the same only when they are the same. */
  lemma PathStringInjective(p: Path, q: Path)
    requires Normal(p) && Normal(q)
    ensures PathString(p) == PathString(q) <==> p == q
  {
    PathStringShape(p);
    PathStringShape(q);
    if p != [] && q != [] && PathString(p) == PathString(q) {
      SplitOfJoin(p);
      SplitOfJoin(q);
      assert JoinSlash(p) == PathString(p)[1..] == JoinSlash(q);
    }
  }

  /** A printed path never starts with two slashes. */
  lemma SingleSlashIsNotDouble(p: Path, q: Path)
    requires Normal(p)
    ensures PathString(p) != "/" + PathString(q)
  {
    PathStringShape(p);
    assert ("/" + PathString(q))[0] == '/';
    assert |"/" + PathString(q)| >= 2 && ("/" + PathString(q))[1] == '/';
  }

  /** The root prints as "/" alone; any other path as "/" and its first name. */
  lemma PathStringShape(p: Path)
    requires Normal(p)
    ensures PathString(p)[0] == '/'
    ensures p == [] <==> |PathString(p)| == 1
    ensures p != [] ==> PathString(p)[1] == p[0][0] != '/'
  {
    if p != [] {
      JoinSlashStarts(p);
    }
  }

  /** The joined string starts with the first component. */
  lemma {:induction false} JoinSlashStarts(p: seq<string>)
    requires |p| >= 1
    ensures p[0] <= JoinSlash(p)
    decreases |p|
  {
    if |p| > 1 {
      JoinSlashStarts(p[..|p| - 1]);
    }
  }

  /** Splitting the joined components gives them back. */
  lemma {:induction false} SplitOfJoin(p: seq<string>)
    requires |p| >= 1 && forall i :: 0 <= i < |p| ==> '/' !in p[i]
    ensures Split(JoinSlash(p)) == p
    decreases |p|
  {
    var n := |p|;
    if n == 1 {
      SplitAppend("", p[0]);
      assert "" + p[0] == p[0];
    } else {
      SplitOfJoin(p[..n - 1]);
      SplitSlashName(JoinSlash(p[..n - 1]), p[n - 1]);
      assert p[..n - 1] + [p[n - 1]] == p;
    }
  }

  /** A separator and a name add one component to the split. */
  lemma SplitSlashName(x: string, name: string)
    requires '/' !in name
    ensures Split(x + "/" + name) == Split(x) + [name]
  {
    var s := x + "/";
    assert s[..|s| - 1] == x;
    assert Split(s) == Split(x) + [""];
    SplitAppend(s, name);
    assert "" + name == name;
  }

  /** A relative plain name resolves to itself under the working directory. */
  lemma AbsOfName(cwd: Path, name: string)
    requires Normal(cwd) && PlainName(name)
    ensures AbsPath(cwd, name) == cwd + [name]
    ensures !DoubleSlashRoot(name)
  {
    SplitName(name);
    assert Resolve(cwd, [name]) == Resolve(Step(cwd, name), []);
  }

  /** A relative name followed by one plain child resolves beneath the name. */
  lemma AbsOfChild(cwd: Path, name: string, child: string)
    requires Normal(cwd) && PlainName(name) && PlainName(child)
    ensures AbsPath(cwd, name + "/" + child) == cwd + [name, child]
  {
    SplitName(name);
    SplitSlashName(name, child);
    var raw := name + "/" + child;
    assert raw[0] == name[0];
    assert Split(raw) == [name, child];
    ResolveSnoc(cwd, [name], child);
    assert Resolve(cwd, [name]) == Resolve(Step(cwd, name), []);
    assert [name] + [child] == [name, child];
  }

  /** A backup named by extending the source's name (`b` and `bc`) is not
      beneath the source, although the strings share a prefix. */
  lemma SiblingWithCommonPrefixIsNotInside(cwd: Path, name: string, more: string)
    requires Normal(cwd) && PlainName(name) && more != "" && '/' !in more
    ensures !IsSubdirectoryOfSource(cwd, name, name + more)
  {
    assert '/' !in name + more by {
      assert forall c :: c in name + more ==> c in name || c in more;
    }
    assert name + more != name by { assert |name + more| > |name|; }
    assert (name + more)[0] == name[0];
    if |name| == 1 {
      assert name == [name[0]];
      assert name[0] != '.';
    } else {
      assert |name + more| > 2;
    }
    AbsOfName(cwd, name);
    AbsOfName(cwd, name + more);
    var s := cwd + [name];
    var b := cwd + [name + more];
    assert |s| == |b|;
    assert s <= b ==> s == b;
  }

  /** A child written after a '/' (`b/c`) is beneath the source `b`. */
  lemma ChildIsInside(cwd: Path, name: string, child: string)
    requires Normal(cwd) && PlainName(name) && PlainName(child)
    ensures IsSubdirectoryOfSource(cwd, name, name + "/" + child)
  {
    AbsOfName(cwd, name);
    AbsOfChild(cwd, name, child);
    assert cwd + [name] <= cwd + [name, child];
  }

  lemma SplitOfDoubleSlash()
    ensures Split("//a") == ["", "", "a"]
    ensures AbsPath([], "//a") == ["a"]
  {
    SplitSlashName("", "");
    assert "" + "/" + "" == "/";
    SplitSlashName("/", "a");
    assert "/" + "/" + "a" == "//a";
  }

  /** A raw string without a separator is one component. */
  lemma SplitName(name: string)
    requires '/' !in name
    ensures Split(name) == [name]
  {
    SplitAppend("", name);
    assert "" + name == name;
  }

  /** The mirror directory os.path.join(abspath(backup), basename(abspath(source)) + "_backup"). */
  function MirrorTarget(cwd: Path, source: string, backup: string): (t: Path)
    requires Normal(cwd)
    ensures Normal(t)
    ensures |t| == |AbsPath(cwd, backup)| + 1 && Parent(t) == AbsPath(cwd, backup)
    ensures Basename(t) == Basename(AbsPath(cwd, source)) + "_backup"
  {
    var b := AbsPath(cwd, backup);
    assert PlainName(Basename(AbsPath(cwd, source)) + "_backup") by {
      var n := Basename(AbsPath(cwd, source)) + "_backup";
      assert n[|n| - 1] == 'p';
      assert '/' !in Basename(AbsPath(cwd, source));
      assert '/' !in "_backup";
    }
    assert (b + [Basename(AbsPath(cwd, source)) + "_backup"])[..|b|] == b;
    b + [Basename(AbsPath(cwd, source)) + "_backup"]
  }

  /** The last raw component is a plain name (no trailing '/', not "." or ".."). */
  predicate PlainLast(raw: string) {
    var parts := Split(raw);
    PlainName(parts[|parts| - 1])
  }

  /** source + "_backup" names the sibling "<basename>_backup" of the source
      when the raw source ends in a plain name. */
  lemma SiblingBackup(cwd: Path, raw: string)
    requires Normal(cwd)
    requires PlainLast(raw)
    ensures AbsPath(cwd, raw) != []
    ensures AbsPath(cwd, raw + "_backup")
         == Parent(AbsPath(cwd, raw)) + [Basename(AbsPath(cwd, raw)) + "_backup"]
  {
    var parts := Split(raw);
    var n := |parts|;
    var last := parts[n - 1];
    SplitAppend(raw, "_backup");
    assert raw + "_backup" != [] && (raw + "_backup")[0] == (if |raw| > 0 then raw[0] else '_');
    if |raw| == 0 {
      assert false;
    }
    var start := if raw[0] == '/' then [] else cwd;
    assert parts == parts[..n - 1] + [last];
    ResolveSnoc(start, parts[..n - 1], last);
    ResolveSnoc(start, parts[..n - 1], last + "_backup");
    var base := Resolve(start, parts[..n - 1]);
    assert AbsPath(cwd, raw) == base + [last];
    assert (last + "_backup")[|last + "_backup"| - 1] == 'p';
    assert AbsPath(cwd, raw + "_backup") == base + [last + "_backup"];
    assert (base + [last])[..|base|] == base;
  }

  /** With a trailing separator, source + "_backup" names a child "_backup"
      inside the source instead of a sibling. */
  lemma TrailingSlashBackupIsChild(cwd: Path, raw: string)
    requires Normal(cwd)
    requires |raw| > 0 && raw[|raw| - 1] == '/'
    ensures AbsPath(cwd, raw + "_backup") == AbsPath(cwd, raw) + ["_backup"]
  {
    var parts := Split(raw);
    var n := |parts|;
    assert parts[n - 1] == "";
    SplitAppend(raw, "_backup");
    assert (raw + "_backup")[0] == raw[0];
    var start := if raw[0] == '/' then [] else cwd;
    assert parts == parts[..n - 1] + [""];
    ResolveSnoc(start, parts[..n - 1], "");
    ResolveSnoc(start, parts[..n - 1], "" + "_backup");
    assert "" + "_backup" == "_backup";
  }
}
