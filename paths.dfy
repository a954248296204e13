/** Go's path/filepath functions on slash-separated paths: Base, Dir, Ext
    and Join. The lexical clean-up that Dir and Join apply (filepath.Clean:
    collapsing "//", "." and ".." elements) is not modelled. */
module Paths {

  /** `p` without its trailing '/' characters. */
  function TrimTrailingSlashes(p: string): (r: string)
    ensures |r| <= |p|
    ensures r == [] || r[|r| - 1] != '/'
  {
    if p != [] && p[|p| - 1] == '/' then TrimTrailingSlashes(p[..|p| - 1]) else p
  }

  /** The index of the last '/' in `p`, or -1 when there is none. */
  function LastSlash(p: string): (k: int)
    ensures -1 <= k < |p|
    ensures k >= 0 ==> p[k] == '/'
    ensures forall j :: k < j < |p| ==> p[j] != '/'
  {
    if p == [] then -1
    else if p[|p| - 1] == '/' then |p| - 1
    else LastSlash(p[..|p| - 1])
  }

  /** The part of `p` after its last '/' (all of `p` if it has none). */
  function LastSegment(p: string): (r: string)
    ensures |r| <= |p|
    ensures forall k :: 0 <= k < |r| ==> r[k] != '/'
  {
    p[LastSlash(p) + 1..]
  }

  /** filepath.Base: the last element of `path` once trailing slashes are
      removed; "." for the empty path and "/" for a path of slashes only. */
  function Base(path: string): (b: string)
    ensures b != []
    ensures b == "/" || forall k :: 0 <= k < |b| ==> b[k] != '/'
  {
    if path == [] then "."
    else
      var p := TrimTrailingSlashes(path);
      if p == [] then "/" else LastSegment(p)
  }

  /** filepath.Dir: everything before the last element, without trailing
      slashes; "." when there is no slash and "/" for the root. */
  function Dir(path: string): string
  {
    var head := path[..|path| - |LastSegment(path)|];
    if head == [] then "."
    else
      var t := TrimTrailingSlashes(head);
      if t == [] then "/" else t
  }

  /** The index of the last '.' or '/' in `p`, or -1 when there is none. */
  function LastDotOrSlash(p: string): (k: int)
    ensures -1 <= k < |p|
    ensures k >= 0 ==> p[k] == '.' || p[k] == '/'
    ensures forall j :: k < j < |p| ==> p[j] != '.' && p[j] != '/'
  {
    if p == [] then -1
    else if p[|p| - 1] == '.' || p[|p| - 1] == '/' then |p| - 1
    else LastDotOrSlash(p[..|p| - 1])
  }

  /** filepath.Ext: the suffix of the last element that starts at its last
      '.', or "" when that element has no '.'. */
  function Ext(path: string): (e: string)
    ensures |e| <= |path|
    ensures e != [] ==> e[0] == '.'
    ensures forall j :: 0 <= j < |e| ==> e[j] != '/' && (j > 0 ==> e[j] != '.')
  {
    var k := LastDotOrSlash(path);
    if k >= 0 && path[k] == '.' then path[k..] else []
  }

  /** filepath.Join of two elements, an empty element being dropped. */
  function Join(dir: string, name: string): (p: string)
    ensures p == [] <==> dir == [] && name == []
  {
    if dir == [] then name else if name == [] then dir else dir + "/" + name
  }

  /** A path separator-free name: what a directory entry is called. */
  predicate IsName(name: string)
  {
    name != [] && '/' !in name
  }

  /** The last '/' is the one the contract of LastSlash describes. */
  lemma LastSlashIs(p: string, k: int)
    requires -1 <= k < |p| && (k >= 0 ==> p[k] == '/')
    requires forall j :: k < j < |p| ==> p[j] != '/'
    ensures LastSlash(p) == k
  {
  }

  /** The last segment of a path ending in "/" + name is that name. */
  lemma LastSegmentAfterSlash(head: string, name: string)
    requires '/' !in name
    ensures LastSegment(head + "/" + name) == name
  {
    var p := head + "/" + name;
    forall j | |head| < j < |p| ensures p[j] != '/' {
      assert p[j] == name[j - |head| - 1];
    }
    LastSlashIs(p, |head|);
    assert p[|head| + 1..] == name;
  }

  lemma LastSegmentOfName(name: string)
    requires '/' !in name
    ensures LastSegment(name) == name
  {
    LastSlashIs(name, -1);
  }

  /** Joining a name onto a directory and taking Base gives the name back. */
  lemma BaseOfJoin(dir: string, name: string)
    requires IsName(name)
    ensures Base(Join(dir, name)) == name
  {
    if dir == [] {
      LastSegmentOfName(name);
    } else {
      LastSegmentAfterSlash(dir, name);
    }
  }

  /** For a path built by Join from a directory, a name and a further name,
      Dir removes the last name again: Base(Dir(...)) is the middle name. */
  lemma BaseOfDirOfJoin(dir: string, name: string, child: string)
    requires IsName(name) && IsName(child)
    ensures Base(Dir(Join(Join(dir, name), child))) == name
  {
    var parent := Join(dir, name);
    var path := parent + "/" + child;
    LastSegmentAfterSlash(parent, child);
    assert path[..|path| - |child|] == parent + "/";
    assert TrimTrailingSlashes(parent + "/") == parent by {
      assert (parent + "/")[..|parent|] == parent;
    }
    BaseOfJoin(dir, name);
  }

  /** A suffix that starts with '.' and holds no further '.' or '/' is the
      extension of any path it ends. */
  lemma ExtOfSuffix(p: string, e: string)
    requires e != [] && e[0] == '.'
    requires forall j :: 0 <= j < |e| ==> e[j] != '/' && (j > 0 ==> e[j] != '.')
    ensures Ext(p + e) == e
  {
    var s := p + e;
    forall j | |p| < j < |s| ensures s[j] != '.' && s[j] != '/' {
      assert s[j] == e[j - |p|];
    }
    LastDotOrSlashIs(s, |p|);
    assert s[|p|..] == e;
  }

  /** The last '.' or '/' is the one the contract of LastDotOrSlash
      describes. */
  lemma LastDotOrSlashIs(p: string, k: int)
    requires -1 <= k < |p| && (k >= 0 ==> p[k] == '.' || p[k] == '/')
    requires forall j :: k < j < |p| ==> p[j] != '.' && p[j] != '/'
    ensures LastDotOrSlash(p) == k
  {
  }

  /** The extension is a suffix of the path. */
  lemma ExtIsSuffix(path: string)
    ensures Ext(path) == path[|path| - |Ext(path)|..]
  {
  }

  /** A path has no extension exactly when its last element holds no '.'. */
  lemma NoExtension(path: string)
    ensures Ext(path) == [] <==> forall j :: LastSlash(path) < j < |path| ==> path[j] != '.'
  {
    var k := LastDotOrSlash(path);
    if k >= 0 && path[k] == '/' {
      LastSlashIs(path, k);
    } else if k < 0 {
      LastSlashIs(path, -1);
    } else {
      assert LastSlash(path) < k;
    }
  }

  /** Joining onto a directory keeps a name's extension when it has one. */
  lemma ExtOfJoin(dir: string, name: string)
    requires Ext(name) != []
    ensures Ext(Join(dir, name)) == Ext(name)
  {
    var e := Ext(name);
    var head := name[..|name| - |e|];
    ExtIsSuffix(name);
    assert name == head + e;
    if dir != [] {
      assert Join(dir, name) == (dir + "/" + head) + e;
      ExtOfSuffix(dir + "/" + head, e);
    } else {
      ExtOfSuffix(head, e);
    }
  }

  /** Join onto the same directory is injective on non-empty names. */
  lemma JoinInjective(dir: string, a: string, b: string)
    requires a != [] && b != [] && Join(dir, a) == Join(dir, b)
    ensures a == b
  {
    if dir != [] {
      assert Join(dir, a)[|dir| + 1..] == a;
      assert Join(dir, b)[|dir| + 1..] == b;
    }
  }

  /** A separator-free name is its own base name. */
  lemma BaseOfName(name: string)
    requires IsName(name)
    ensures Base(name) == name
  {
    BaseOfJoin("", name);
  }
}
