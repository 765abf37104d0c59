/**
 The checklist of frontend directories: a loop over a stack of path strings prints the
 lines that a recursive preorder walk of the directory tree would print.
 */
module Tasklist {
  import opened Sequences
  import opened Wrappers

  /** What a directory listing shows; `File` is everything that is not a directory. */
  datatype Entry = File(name: string) | Directory(name: string, entries: seq<Entry>)

  const INITIAL_DIRECTORIES: seq<string> := ["spec", "src", "packages"]

  // ---------------------------------------------------------------------------
  // Paths

  /** `split("/")`. */
  function Split(s: string): (parts: seq<string>)
    ensures parts != []
  {
    if s == "" then [""]
    else if s[0] == '/' then [""] + Split(s[1..])
    else
      var parts := Split(s[1..]);
      [[s[0]] + parts[0]] + parts[1..]
  }

  predicate IsName(s: string) { s != "" && '/' !in s }

  lemma {:induction false} SplitName(s: string)
    requires '/' !in s
    ensures Split(s) == [s]
  {
    if s != "" {
      SplitName(s[1..]);
      assert [s[0]] + s[1..] == s;
    }
  }

  lemma {:induction false} SplitChild(s: string, name: string)
    requires '/' !in name
    ensures Split(s + "/" + name) == Split(s) + [name]
  {
    var t := s + "/" + name;
    if s == "" {
      SplitName(name);
      assert t[1..] == name;
    } else {
      SplitChild(s[1..], name);
      assert t[1..] == s[1..] + "/" + name;
    }
  }

  // ---------------------------------------------------------------------------
  // The file system

  /** Names are distinct in every directory and have no slash. */
  ghost predicate WellFormed(es: seq<Entry>) {
    && (forall i, j :: 0 <= i < j < |es| ==> es[i].name != es[j].name)
    && (forall i :: 0 <= i < |es| ==> IsName(es[i].name))
    && (forall i :: 0 <= i < |es| && es[i].Directory? ==> WellFormed(es[i].entries))
  }

  function Find(es: seq<Entry>, name: string): Option<seq<Entry>> {
    if es == [] then None
    else if es[0].Directory? && es[0].name == name then Some(es[0].entries)
    else Find(es[1..], name)
  }

  function Lookup(es: seq<Entry>, parts: seq<string>): Option<seq<Entry>> {
    if parts == [] then Some(es)
    else
      match Lookup(es, parts[..|parts| - 1])
      case None => None
      case Some(inner) => Find(inner, parts[|parts| - 1])
  }

  /** The listing of the directory at a path; None where `chdir` throws. */
  function Resolve(root: seq<Entry>, path: string): Option<seq<Entry>> {
    Lookup(root, Split(path))
  }

  lemma {:induction false} FindListed(es: seq<Entry>, i: nat)
    requires WellFormed(es) && i < |es| && es[i].Directory?
    ensures Find(es, es[i].name) == Some(es[i].entries)
  {
    if i > 0 {
      assert WellFormed(es[1..]);
      FindListed(es[1..], i - 1);
    }
  }

  lemma ResolveChild(root: seq<Entry>, path: string, es: seq<Entry>, i: nat)
    requires Resolve(root, path) == Some(es) && WellFormed(es)
    requires i < |es| && es[i].Directory?
    ensures Resolve(root, path + "/" + es[i].name) == Some(es[i].entries)
  {
    SplitChild(path, es[i].name);
    FindListed(es, i);
    var parts := Split(path) + [es[i].name];
    assert parts[..|parts| - 1] == Split(path);
  }

  lemma {:induction false} ResolvedIsWellFormed(root: seq<Entry>, parts: seq<string>)
    requires WellFormed(root) && Lookup(root, parts).Some?
    ensures WellFormed(Lookup(root, parts).value)
  {
    if parts != [] {
      ResolvedIsWellFormed(root, parts[..|parts| - 1]);
      FoundIsWellFormed(Lookup(root, parts[..|parts| - 1]).value, parts[|parts| - 1]);
    }
  }

  lemma {:induction false} FoundIsWellFormed(es: seq<Entry>, name: string)
    requires WellFormed(es) && Find(es, name).Some?
    ensures WellFormed(Find(es, name).value)
  {
    if !(es[0].Directory? && es[0].name == name) {
      assert WellFormed(es[1..]);
      FoundIsWellFormed(es[1..], name);
    }
  }

  // ---------------------------------------------------------------------------
  // One directory

  predicate EndsWith(s: string, suffix: string) {
    |suffix| <= |s| && s[|s| - |suffix|..] == suffix
  }

  /** `getFilesByExtensions(...).length > 0`; it looks at the names of directories as well. */
  predicate HasExtension(es: seq<Entry>, extensions: seq<string>) {
    exists i :: 0 <= i < |es| && EndsWithAny(es[i].name, extensions)
  }

  predicate EndsWithAny(s: string, suffixes: seq<string>) {
    suffixes != [] && (EndsWith(s, suffixes[0]) || EndsWithAny(s, suffixes[1..]))
  }

  function Repeat(s: string, n: nat): string {
    if n == 0 then "" else s + Repeat(s, n - 1)
  }

  /** The line printed for a directory, if any. */
  function Line(path: string, es: seq<Entry>): seq<string> {
    var indent := Repeat("  ", |Split(path)| - 1);
    if HasExtension(es, [".js", ".jsx"]) then [indent + "- [ ] `" + path + "`"]
    else if HasExtension(es, [".ts", ".tsx"]) then [indent + "- [x] `" + path + "`"]
    else []
  }

  predicate Kept(e: Entry) { e.Directory? && e.name != "node_modules" }

  /** The paths pushed for a directory, in the order of the listing. */
  function Children(path: string, es: seq<Entry>): seq<string> {
    if es == [] then []
    else (if Kept(es[0]) then [path + "/" + es[0].name] else []) + Children(path, es[1..])
  }

  // ---------------------------------------------------------------------------
  // The recursive walk

  function Tree(path: string, es: seq<Entry>): seq<string>
    decreases es, 1
  {
    Line(path, es) + Forest(path, es)
  }

  function Forest(path: string, es: seq<Entry>): seq<string>
    decreases es, 0
  {
    if es == [] then []
    else
      (if Kept(es[0]) then Tree(path + "/" + es[0].name, es[0].entries) else []) + Forest(path, es[1..])
  }

  /** The directories the walk enters, in order. */
  function TreePaths(path: string, es: seq<Entry>): seq<string>
    decreases es, 1
  {
    [path] + ForestPaths(path, es)
  }

  function ForestPaths(path: string, es: seq<Entry>): seq<string>
    decreases es, 0
  {
    if es == [] then []
    else
      (if Kept(es[0]) then TreePaths(path + "/" + es[0].name, es[0].entries) else []) + ForestPaths(path, es[1..])
  }

  /** A walk from each of `dirs`, the last first; it ends at one that does not exist. */
  function Walk(root: seq<Entry>, dirs: seq<string>): (seq<string>, seq<string>, bool) {
    if dirs == [] then ([], [], true)
    else
      var n := |dirs| - 1;
      match Resolve(root, dirs[n])
      case None => ([], [], false)
      case Some(es) =>
        var (lines, paths, ok) := Walk(root, dirs[..n]);
        (Tree(dirs[n], es) + lines, TreePaths(dirs[n], es) + paths, ok)
  }

  /** The number of directories a walk enters. */
  function Weight(root: seq<Entry>, dirs: seq<string>): nat {
    |Walk(root, dirs).1|
  }

  /** Pushing a directory's children in reverse makes the loop walk them in the listing's order. */
  lemma {:induction false} WalkChildren(root: seq<Entry>, dirs: seq<string>, path: string, all: seq<Entry>, k: nat)
    requires Resolve(root, path) == Some(all) && WellFormed(all) && k <= |all|
    ensures var es := all[k..];
      var (lines, paths, ok) := Walk(root, dirs);
      Walk(root, dirs + Reverse(Children(path, es))) == (Forest(path, es) + lines, ForestPaths(path, es) + paths, ok)
    decreases |all| - k
  {
    var es := all[k..];
    var (lines, paths, ok) := Walk(root, dirs);
    if k == |all| {
      assert es == [] && dirs + [] == dirs;
      assert [] + lines == lines && [] + paths == paths;
    } else {
      WalkChildren(root, dirs, path, all, k + 1);
      var more := es[1..];
      assert more == all[k + 1..] && es[0] == all[k];
      if Kept(es[0]) {
        ResolveChild(root, path, all, k);
        PushChild(root, dirs, path, es);
      } else {
        assert [] + Children(path, more) == Children(path, more);
        assert [] + Forest(path, more) == Forest(path, more);
        assert [] + ForestPaths(path, more) == ForestPaths(path, more);
      }
    }
  }

  lemma FirstChildLast(path: string, es: seq<Entry>)
    requires es != [] && Kept(es[0])
    ensures Reverse(Children(path, es)) == Reverse(Children(path, es[1..])) + [path + "/" + es[0].name]
  {
    assert Children(path, es)[1..] == Children(path, es[1..]);
  }

  /** The child pushed last is walked first. */
  lemma PushChild(root: seq<Entry>, dirs: seq<string>, path: string, es: seq<Entry>)
    requires es != [] && Kept(es[0])
    requires Resolve(root, path + "/" + es[0].name) == Some(es[0].entries)
    requires var (lines, paths, ok) := Walk(root, dirs);
      Walk(root, dirs + Reverse(Children(path, es[1..]))) ==
        (Forest(path, es[1..]) + lines, ForestPaths(path, es[1..]) + paths, ok)
    ensures var (lines, paths, ok) := Walk(root, dirs);
      Walk(root, dirs + Reverse(Children(path, es))) == (Forest(path, es) + lines, ForestPaths(path, es) + paths, ok)
  {
    var child, more := path + "/" + es[0].name, es[1..];
    var rest := dirs + Reverse(Children(path, more));
    FirstChildLast(path, es);
    Assoc(dirs, Reverse(Children(path, more)), [child]);
    WalkLast(root, rest, child);
    var (lines, paths, ok) := Walk(root, dirs);
    Assoc(Tree(child, es[0].entries), Forest(path, more), lines);
    Assoc(TreePaths(child, es[0].entries), ForestPaths(path, more), paths);
  }

  lemma WalkLast(root: seq<Entry>, dirs: seq<string>, path: string)
    requires Resolve(root, path).Some?
    ensures var (lines, paths, ok) := Walk(root, dirs);
      var es := Resolve(root, path).value;
      Walk(root, dirs + [path]) == (Tree(path, es) + lines, TreePaths(path, es) + paths, ok)
  {
  }

  /** One turn of the loop: the walk still to do, before and after. */
  lemma WalkPop(root: seq<Entry>, dirs: seq<string>, es: seq<Entry>)
    requires WellFormed(root) && dirs != []
    requires Resolve(root, dirs[|dirs| - 1]) == Some(es)
    ensures var path := dirs[|dirs| - 1];
      var (lines, paths, ok) := Walk(root, dirs[..|dirs| - 1] + Reverse(Children(path, es)));
      Walk(root, dirs) == (Line(path, es) + lines, [path] + paths, ok)
  {
    var n := |dirs| - 1;
    var path, rest := dirs[n], dirs[..n];
    ResolvedIsWellFormed(root, Split(path));
    WalkChildren(root, rest, path, es, 0);
    assert es[0..] == es;
    var (lines, paths, ok) := Walk(root, rest);
    Assoc(Line(path, es), Forest(path, es), lines);
    Assoc([path], ForestPaths(path, es), paths);
  }

  // ---------------------------------------------------------------------------
  // The loop

  /** Where `chdir` throws the script ends with what it has printed so far. */
  method PrintTasklist(root: seq<Entry>, initial: seq<string>)
      returns (printed: seq<string>, ok: bool, ghost visited: seq<string>)
    requires WellFormed(root)
    ensures printed == Walk(root, initial).0 && ok == Walk(root, initial).2
    ensures visited == Walk(root, initial).1
    ensures printed == Lines(root, visited)
  {
    PrintedInOrder(root, initial);
    var directories := initial;
    printed, visited := [], [];
    assert printed + Walk(root, initial).0 == Walk(root, initial).0;
    assert visited + Walk(root, initial).1 == Walk(root, initial).1;
    while directories != []
      invariant Walk(root, initial) ==
        (printed + Walk(root, directories).0, visited + Walk(root, directories).1, Walk(root, directories).2)
      decreases Weight(root, directories)
    {
      var curDirectory, rest := directories[|directories| - 1], directories[..|directories| - 1];
      var here := Resolve(root, curDirectory);
      if here.None? {
        assert printed + [] == printed && visited + [] == visited;
        return printed, false, visited;
      }
      var es := here.value;
      WalkPop(root, directories, es);
      directories := rest + Reverse(Children(curDirectory, es));
      ghost var after := Walk(root, directories);
      Assoc(printed, Line(curDirectory, es), after.0);
      Assoc(visited, [curDirectory], after.1);
      printed := printed + Line(curDirectory, es);
      visited := visited + [curDirectory];
    }
    assert printed + [] == printed && visited + [] == visited;
    return printed, true, visited;
  }

  // ---------------------------------------------------------------------------
  // Each directory is visited once

  /** `q` is the directory `p` or lies below it. */
  predicate Under(q: string, p: string) {
    p + "/" <= q + "/"
  }

  lemma ChildUnder(path: string, name: string)
    ensures Under(path + "/" + name, path)
  {
  }

  lemma {:induction false} FirstSlash(r: string, n1: string, n2: string)
    requires '/' !in n1 && '/' !in n2 && n1 + "/" <= r && n2 + "/" <= r
    ensures n1 == n2
  {
    if n1 == "" || n2 == "" {
      assert (n1 + "/")[0] == r[0] == (n2 + "/")[0];
    } else {
      assert n1[0] == r[0] == n2[0];
      assert (n1 + "/")[1..] == n1[1..] + "/" && (n2 + "/")[1..] == n2[1..] + "/";
      FirstSlash(r[1..], n1[1..], n2[1..]);
    }
  }

  /** Nothing lies below two different children of a directory. */
  lemma ChildrenAreApart(q: string, path: string, n1: string, n2: string)
    requires '/' !in n1 && '/' !in n2 && Under(q, path + "/" + n1) && Under(q, path + "/" + n2)
    ensures n1 == n2
  {
    var k, r := |path| + 1, q + "/";
    var p1, p2 := path + "/" + n1 + "/", path + "/" + n2 + "/";
    assert p1[k..] == n1 + "/" && p2[k..] == n2 + "/";
    assert p1[k..] <= r[k..] && p2[k..] <= r[k..];
    FirstSlash(r[k..], n1, n2);
  }

  /** A kept child of `es` that `q` is or lies below. */
  ghost predicate BelowSome(path: string, es: seq<Entry>, q: string) {
    exists i :: 0 <= i < |es| && Under(q, path + "/" + es[i].name)
  }

  lemma {:induction false} TreePathsUnder(path: string, es: seq<Entry>)
    ensures forall q :: q in TreePaths(path, es) ==> Under(q, path)
    decreases es, 1
  {
    ForestPathsUnder(path, es);
    forall q | q in TreePaths(path, es)
      ensures Under(q, path)
    {
      if q != path {
        assert q in ForestPaths(path, es);
        var i :| 0 <= i < |es| && Under(q, path + "/" + es[i].name);
        ChildUnder(path, es[i].name);
      }
    }
  }

  lemma {:induction false} ForestPathsUnder(path: string, es: seq<Entry>)
    ensures forall q :: q in ForestPaths(path, es) ==> BelowSome(path, es, q)
    decreases es, 0
  {
    if es != [] {
      ForestPathsUnder(path, es[1..]);
      if Kept(es[0]) {
        TreePathsUnder(path + "/" + es[0].name, es[0].entries);
      }
      forall q | q in ForestPaths(path, es)
        ensures BelowSome(path, es, q)
      {
        if q in ForestPaths(path, es[1..]) {
          var i :| 0 <= i < |es[1..]| && Under(q, path + "/" + es[1..][i].name);
          assert es[i + 1] == es[1..][i];
        } else {
          assert Under(q, path + "/" + es[0].name);
        }
      }
    }
  }

  lemma AppendDistinct(a: seq<string>, b: seq<string>)
    requires NoDuplicates(a) && NoDuplicates(b) && forall x :: x in a ==> x !in b
    ensures NoDuplicates(a + b)
  {
    forall i, j | 0 <= i < j < |a + b|
      ensures (a + b)[i] != (a + b)[j]
    {
      if i < |a| <= j {
        assert (a + b)[i] == a[i] && a[i] in a && (a + b)[j] == b[j - |a|] && b[j - |a|] in b;
      }
    }
  }

  lemma {:induction false} TreePathsDistinct(path: string, es: seq<Entry>)
    requires WellFormed(es)
    ensures NoDuplicates(TreePaths(path, es))
    decreases es, 1
  {
    ForestPathsDistinct(path, es);
    ForestPathsUnder(path, es);
    forall q | q in ForestPaths(path, es)
      ensures q != path
    {
      var i :| 0 <= i < |es| && Under(q, path + "/" + es[i].name);
      assert |q| >= |path| + 1 + |es[i].name|;
    }
    AppendDistinct([path], ForestPaths(path, es));
  }

  lemma {:induction false} ForestPathsDistinct(path: string, es: seq<Entry>)
    requires WellFormed(es)
    ensures NoDuplicates(ForestPaths(path, es))
    decreases es, 0
  {
    if es != [] {
      assert WellFormed(es[1..]);
      ForestPathsDistinct(path, es[1..]);
      if Kept(es[0]) {
        var child := path + "/" + es[0].name;
        TreePathsDistinct(child, es[0].entries);
        TreePathsUnder(child, es[0].entries);
        ForestPathsUnder(path, es[1..]);
        forall q | q in TreePaths(child, es[0].entries)
          ensures q !in ForestPaths(path, es[1..])
        {
          if q in ForestPaths(path, es[1..]) {
            var i :| 0 <= i < |es[1..]| && Under(q, path + "/" + es[1..][i].name);
            ChildrenAreApart(q, path, es[0].name, es[i + 1].name);
          }
        }
        AppendDistinct(TreePaths(child, es[0].entries), ForestPaths(path, es[1..]));
      }
    }
  }

  /** The loop visits no directory twice, from starting directories with different names. */
  lemma {:induction false} VisitedOnce(root: seq<Entry>, dirs: seq<string>)
    requires WellFormed(root) && NoDuplicates(dirs) && forall d :: d in dirs ==> IsName(d)
    ensures NoDuplicates(Walk(root, dirs).1)
    ensures forall q :: q in Walk(root, dirs).1 ==> exists d :: d in dirs && Under(q, d)
  {
    if dirs != [] {
      var n := |dirs| - 1;
      var here := Resolve(root, dirs[n]);
      if here.Some? {
        VisitedOnce(root, dirs[..n]);
        ResolvedIsWellFormed(root, Split(dirs[n]));
        TreePathsDistinct(dirs[n], here.value);
        TreePathsUnder(dirs[n], here.value);
        var paths := Walk(root, dirs[..n]).1;
        forall q | q in TreePaths(dirs[n], here.value)
          ensures q !in paths
        {
          if q in paths {
            var d :| d in dirs[..n] && Under(q, d);
            assert IsName(d) && IsName(dirs[n]);
            FirstSlash(q + "/", d, dirs[n]);
          }
        }
        AppendDistinct(TreePaths(dirs[n], here.value), paths);
      }
    }
  }

  /** So the script itself visits no directory twice. */
  lemma ScriptVisitsOnce(root: seq<Entry>)
    requires WellFormed(root)
    ensures NoDuplicates(Walk(root, INITIAL_DIRECTORIES).1)
  {
    VisitedOnce(root, INITIAL_DIRECTORIES);
  }

  // ---------------------------------------------------------------------------
  // Every kept directory is visited

  /** The path of the directory reached from `path` by the names `ns`. */
  function Join(path: string, ns: seq<string>): string {
    if ns == [] then path else Join(path, ns[..|ns| - 1]) + "/" + ns[|ns| - 1]
  }

  lemma {:induction false} JoinFront(path: string, ns: seq<string>)
    requires ns != []
    ensures Join(path, ns) == Join(path + "/" + ns[0], ns[1..])
  {
    var n := |ns| - 1;
    if n > 0 {
      JoinFront(path, ns[..n]);
      assert ns[..n][1..] == ns[1..][..n - 1];
    }
  }

  lemma {:induction false} LookupFront(es: seq<Entry>, ns: seq<string>)
    requires ns != []
    ensures Lookup(es, ns) == match Find(es, ns[0]) case None => None case Some(inner) => Lookup(inner, ns[1..])
  {
    var n := |ns| - 1;
    if n > 0 {
      LookupFront(es, ns[..n]);
      assert ns[..n][1..] == ns[1..][..n - 1];
    } else {
      assert Lookup(es, ns[..0]) == Some(es);
    }
  }

  lemma {:induction false} FoundIsListed(es: seq<Entry>, name: string) returns (i: nat)
    requires Find(es, name).Some?
    ensures i < |es| && es[i].Directory? && es[i].name == name && Find(es, name) == Some(es[i].entries)
  {
    if es[0].Directory? && es[0].name == name {
      i := 0;
    } else {
      i := FoundIsListed(es[1..], name);
      i := i + 1;
    }
  }

  lemma {:induction false} ForestContains(path: string, es: seq<Entry>, i: nat)
    requires i < |es| && Kept(es[i])
    ensures forall q :: q in TreePaths(path + "/" + es[i].name, es[i].entries) ==> q in ForestPaths(path, es)
  {
    if i > 0 {
      ForestContains(path, es[1..], i - 1);
    }
  }

  predicate Pruned(ns: seq<string>) { "node_modules" in ns }

  lemma {:induction false} KeptIsVisited(path: string, es: seq<Entry>, ns: seq<string>)
    requires Lookup(es, ns).Some? && !Pruned(ns)
    ensures Join(path, ns) in TreePaths(path, es)
    decreases |ns|
  {
    if ns != [] {
      LookupFront(es, ns);
      var i := FoundIsListed(es, ns[0]);
      JoinFront(path, ns);
      KeptIsVisited(path + "/" + ns[0], es[i].entries, ns[1..]);
      ForestContains(path, es, i);
    }
  }

  lemma {:induction false} VisitedIsKept(path: string, es: seq<Entry>, q: string) returns (ns: seq<string>)
    requires WellFormed(es) && q in TreePaths(path, es)
    ensures Lookup(es, ns).Some? && !Pruned(ns) && q == Join(path, ns)
    decreases es, 1
  {
    if q == path {
      ns := [];
    } else {
      ns := VisitedInForest(path, es, es, 0, q);
    }
  }

  lemma {:induction false} VisitedInForest(path: string, all: seq<Entry>, es: seq<Entry>, k: nat, q: string)
    returns (ns: seq<string>)
    requires WellFormed(all) && k <= |all| && es == all[k..] && q in ForestPaths(path, es)
    ensures Lookup(all, ns).Some? && !Pruned(ns) && q == Join(path, ns)
    decreases es, 0
  {
    var e := es[0];
    if Kept(e) && q in TreePaths(path + "/" + e.name, e.entries) {
      var rest := VisitedIsKept(path + "/" + e.name, e.entries, q);
      ns := [e.name] + rest;
      assert ns[1..] == rest;
      FindListed(all, k);
      LookupFront(all, ns);
      JoinFront(path, ns);
    } else {
      ns := VisitedInForest(path, all, es[1..], k + 1, q);
    }
  }

  /** `q` is the path of an existing directory, `d` itself or below it, with no `node_modules` on the
      way. */
  ghost predicate KeptBelow(root: seq<Entry>, d: string, q: string) {
    && Resolve(root, d).Some?
    && exists ns :: Lookup(Resolve(root, d).value, ns).Some? && !Pruned(ns) && q == Join(d, ns)
  }

  lemma TreePathsExactly(root: seq<Entry>, d: string, q: string)
    requires WellFormed(root) && Resolve(root, d).Some?
    ensures q in TreePaths(d, Resolve(root, d).value) <==> KeptBelow(root, d, q)
  {
    var es := Resolve(root, d).value;
    ResolvedIsWellFormed(root, Split(d));
    if q in TreePaths(d, es) {
      var ns := VisitedIsKept(d, es, q);
    }
    forall ns | Lookup(es, ns).Some? && !Pruned(ns) && q == Join(d, ns)
      ensures q in TreePaths(d, es)
    {
      KeptIsVisited(d, es, ns);
    }
  }

  /** The loop gets as far as `dirs[i]`: it exists, and so do those on top of it. */
  ghost predicate Reached(root: seq<Entry>, dirs: seq<string>, i: int) {
    0 <= i < |dirs| && forall j :: i <= j < |dirs| ==> Resolve(root, dirs[j]).Some?
  }

  /** The loop ends without an exception exactly if it gets to every starting directory. */
  lemma {:induction false} WalkEnds(root: seq<Entry>, dirs: seq<string>)
    ensures Walk(root, dirs).2 <==> forall j :: 0 <= j < |dirs| ==> Resolve(root, dirs[j]).Some?
  {
    if dirs != [] {
      var n := |dirs| - 1;
      WalkEnds(root, dirs[..n]);
      assert forall j :: 0 <= j < n ==> dirs[..n][j] == dirs[j];
    }
  }

  ghost predicate Visits(root: seq<Entry>, dirs: seq<string>, q: string, i: int) {
    Reached(root, dirs, i) && KeptBelow(root, dirs[i], q)
  }

  lemma VisitsBelow(root: seq<Entry>, rest: seq<string>, d: string, q: string, i: int)
    requires Resolve(root, d).Some?
    ensures Visits(root, rest + [d], q, i) <==> Visits(root, rest, q, i) || (i == |rest| && KeptBelow(root, d, q))
  {
    var dirs := rest + [d];
    assert forall j :: 0 <= j < |rest| ==> rest[j] == dirs[j];
    if Reached(root, dirs, i) && i < |rest| {
      forall j | i <= j < |rest|
        ensures Resolve(root, rest[j]).Some?
      {
        assert Resolve(root, dirs[j]).Some?;
      }
    }
    if Reached(root, rest, i) {
      forall j | i <= j < |dirs|
        ensures Resolve(root, dirs[j]).Some?
      {
        assert j < |rest| ==> Resolve(root, rest[j]).Some?;
      }
    }
  }

  lemma VisitsSome(root: seq<Entry>, rest: seq<string>, d: string, q: string)
    requires Resolve(root, d).Some?
    ensures (exists i :: Visits(root, rest + [d], q, i)) <==>
      (exists i :: Visits(root, rest, q, i)) || KeptBelow(root, d, q)
  {
    if i :| Visits(root, rest + [d], q, i) {
      VisitsBelow(root, rest, d, q, i);
    }
    if i :| Visits(root, rest, q, i) {
      VisitsBelow(root, rest, d, q, i);
    }
    VisitsBelow(root, rest, d, q, |rest|);
  }

  lemma NothingVisited(root: seq<Entry>, dirs: seq<string>, q: string)
    requires dirs != [] && Resolve(root, dirs[|dirs| - 1]).None?
    ensures !exists i :: Visits(root, dirs, q, i)
  {
  }

  lemma WalkMembers(root: seq<Entry>, rest: seq<string>, d: string, q: string)
    ensures q in Walk(root, rest + [d]).1 <==>
      Resolve(root, d).Some? && (q in TreePaths(d, Resolve(root, d).value) || q in Walk(root, rest).1)
  {
    assert (rest + [d])[..|rest|] == rest;
  }

  /** From any stack the loop visits exactly the kept directories below the starting directories it
      gets to. */
  lemma {:induction false} VisitedExactly(root: seq<Entry>, dirs: seq<string>, q: string)
    requires WellFormed(root)
    ensures q in Walk(root, dirs).1 <==> exists i :: Visits(root, dirs, q, i)
  {
    if dirs != [] {
      var rest, d := dirs[..|dirs| - 1], dirs[|dirs| - 1];
      assert dirs == rest + [d];
      VisitedExactly(root, rest, q);
      VisitedFromTop(root, rest, d, q);
    }
  }

  lemma VisitedFromTop(root: seq<Entry>, rest: seq<string>, d: string, q: string)
    requires WellFormed(root)
    requires q in Walk(root, rest).1 <==> exists i :: Visits(root, rest, q, i)
    ensures q in Walk(root, rest + [d]).1 <==> exists i :: Visits(root, rest + [d], q, i)
  {
    WalkMembers(root, rest, d, q);
    if Resolve(root, d).Some? {
      TreePathsExactly(root, d, q);
      VisitsSome(root, rest, d, q);
    } else {
      NothingVisited(root, rest + [d], q);
    }
  }

  /** Where all starting directories exist, the loop gets to each of them. */
  lemma VisitsFromAll(root: seq<Entry>, dirs: seq<string>, q: string)
    requires forall j :: 0 <= j < |dirs| ==> Resolve(root, dirs[j]).Some?
    ensures (exists i :: Visits(root, dirs, q, i)) <==> exists d :: d in dirs && KeptBelow(root, d, q)
  {
    if i :| Visits(root, dirs, q, i) {
      assert dirs[i] in dirs;
    }
    if d :| d in dirs && KeptBelow(root, d, q) {
      var i :| 0 <= i < |dirs| && dirs[i] == d;
      assert Visits(root, dirs, q, i);
    }
  }

  lemma ScriptEnds(root: seq<Entry>)
    requires forall d :: d in INITIAL_DIRECTORIES ==> Resolve(root, d).Some?
    ensures forall j :: 0 <= j < |INITIAL_DIRECTORIES| ==> Resolve(root, INITIAL_DIRECTORIES[j]).Some?
    ensures Walk(root, INITIAL_DIRECTORIES).2
  {
    var dirs := INITIAL_DIRECTORIES;
    forall j | 0 <= j < |dirs|
      ensures Resolve(root, dirs[j]).Some?
    {
      assert dirs[j] in dirs;
    }
    WalkEnds(root, dirs);
  }

  /** The script: where its starting directories exist, it visits exactly what is kept below them. */
  lemma ScriptVisitsExactly(root: seq<Entry>, q: string)
    requires WellFormed(root) && forall d :: d in INITIAL_DIRECTORIES ==> Resolve(root, d).Some?
    ensures Walk(root, INITIAL_DIRECTORIES).2
    ensures q in Walk(root, INITIAL_DIRECTORIES).1 <==>
      exists d :: d in INITIAL_DIRECTORIES && KeptBelow(root, d, q)
  {
    ScriptEnds(root);
    VisitedExactly(root, INITIAL_DIRECTORIES, q);
    VisitsFromAll(root, INITIAL_DIRECTORIES, q);
  }

  lemma {:induction false} SplitJoin(start: string, ns: seq<string>)
    requires '/' !in start && forall i :: 0 <= i < |ns| ==> '/' !in ns[i]
    ensures |Split(Join(start, ns))| - 1 == |ns|
  {
    if ns == [] {
      SplitName(start);
    } else {
      var n := |ns| - 1;
      SplitJoin(start, ns[..n]);
      SplitChild(Join(start, ns[..n]), ns[n]);
    }
  }

  /** Some name in the listing ends in `x`. */
  ghost predicate NameEndsIn(es: seq<Entry>, x: string) {
    exists i, front :: 0 <= i < |es| && es[i].name == front + x
  }

  lemma EndsWithIsSuffix(s: string, x: string)
    ensures EndsWith(s, x) <==> exists front :: s == front + x
  {
    if EndsWith(s, x) {
      assert s == s[..|s| - |x|] + x;
    }
    if front :| s == front + x {
      assert s[|s| - |x|..] == x;
    }
  }

  /** The listing is searched for names that end in one of the two extensions. */
  lemma HasExtensionIff(es: seq<Entry>, x: string, y: string)
    ensures HasExtension(es, [x, y]) <==> NameEndsIn(es, x) || NameEndsIn(es, y)
  {
    assert [x, y][1..] == [y] && [y][1..] == [];
    forall s
      ensures EndsWithAny(s, [x, y]) <==> EndsWith(s, x) || EndsWith(s, y)
    {
      assert EndsWithAny(s, [y]) == (EndsWith(s, y) || EndsWithAny(s, [y][1..]));
    }
    forall i | 0 <= i < |es|
      ensures EndsWithAny(es[i].name, [x, y]) <==>
        (exists front :: es[i].name == front + x) || (exists front :: es[i].name == front + y)
    {
      EndsWithIsSuffix(es[i].name, x);
      EndsWithIsSuffix(es[i].name, y);
    }
  }

  lemma {:induction false} Indented(n: nat)
    ensures |Repeat("  ", n)| == 2 * n && forall k :: 0 <= k < 2 * n ==> Repeat("  ", n)[k] == ' '
  {
    if n > 0 {
      Indented(n - 1);
    }
  }

  /** A directory gets a line exactly if a name in it ends in one of the four extensions: two blanks for
      each level below the starting directory, then the box, open exactly if there is JavaScript, then
      the path in backquotes. */
  lemma LineShowsDepthAndMark(start: string, ns: seq<string>, es: seq<Entry>)
    requires '/' !in start && forall i :: 0 <= i < |ns| ==> '/' !in ns[i]
    ensures var path, n := Join(start, ns), 2 * |ns|;
      var js, ts := NameEndsIn(es, ".js") || NameEndsIn(es, ".jsx"), NameEndsIn(es, ".ts") || NameEndsIn(es, ".tsx");
      && |Line(path, es)| == (if js || ts then 1 else 0)
      && (js || ts ==>
            var line := Line(path, es)[0];
            && n <= |line| && (forall k :: 0 <= k < n ==> line[k] == ' ')
            && line[n..] == (if js then "- [ ] `" else "- [x] `") + path + "`")
  {
    var path, n := Join(start, ns), 2 * |ns|;
    SplitJoin(start, ns);
    Indented(|ns|);
    HasExtensionIff(es, ".js", ".jsx");
    HasExtensionIff(es, ".ts", ".tsx");
    var indent := Repeat("  ", |ns|);
    AfterIndent(indent, "- [ ] `", path);
    AfterIndent(indent, "- [x] `", path);
  }

  lemma AfterIndent(indent: string, box: string, path: string)
    ensures var line := indent + box + path + "`";
      line[|indent|..] == box + path + "`" && forall k :: 0 <= k < |indent| ==> line[k] == indent[k]
  {
  }

  // ---------------------------------------------------------------------------
  // The order of the visits

  /** The lines of directories visited in this order. */
  function Lines(root: seq<Entry>, paths: seq<string>): seq<string> {
    if paths == [] then [] else LineOf(root, paths[0]) + Lines(root, paths[1..])
  }

  function LineOf(root: seq<Entry>, path: string): seq<string> {
    match Resolve(root, path)
    case None => []
    case Some(es) => Line(path, es)
  }

  lemma {:induction false} LinesAppend(root: seq<Entry>, ps: seq<string>, qs: seq<string>)
    ensures Lines(root, ps + qs) == Lines(root, ps) + Lines(root, qs)
  {
    if ps == [] {
      assert ps + qs == qs;
    } else {
      LinesAppend(root, ps[1..], qs);
      assert (ps + qs)[1..] == ps[1..] + qs;
      Assoc(LineOf(root, ps[0]), Lines(root, ps[1..]), Lines(root, qs));
    }
  }

  lemma {:induction false} TreeLines(root: seq<Entry>, path: string, es: seq<Entry>)
    requires Resolve(root, path) == Some(es) && WellFormed(es)
    ensures Tree(path, es) == Lines(root, TreePaths(path, es))
    decreases es, 1
  {
    ForestLines(root, path, es, es, 0);
    assert TreePaths(path, es)[1..] == ForestPaths(path, es);
  }

  lemma {:induction false} ForestLines(root: seq<Entry>, path: string, all: seq<Entry>, es: seq<Entry>, k: nat)
    requires Resolve(root, path) == Some(all) && WellFormed(all) && k <= |all| && es == all[k..]
    ensures Forest(path, es) == Lines(root, ForestPaths(path, es))
    decreases es, 0
  {
    if es != [] {
      ForestLines(root, path, all, es[1..], k + 1);
      if Kept(es[0]) {
        var child := path + "/" + es[0].name;
        ResolveChild(root, path, all, k);
        TreeLines(root, child, es[0].entries);
        LinesAppend(root, TreePaths(child, es[0].entries), ForestPaths(path, es[1..]));
      } else {
        assert [] + Forest(path, es[1..]) == Forest(path, es[1..]);
        assert [] + ForestPaths(path, es[1..]) == ForestPaths(path, es[1..]);
      }
    }
  }

  /** The output is the lines of the visited directories, in the order of the visits. */
  lemma {:induction false} PrintedInOrder(root: seq<Entry>, dirs: seq<string>)
    requires WellFormed(root)
    ensures Walk(root, dirs).0 == Lines(root, Walk(root, dirs).1)
  {
    if dirs != [] {
      var n := |dirs| - 1;
      if Resolve(root, dirs[n]).Some? {
        var es := Resolve(root, dirs[n]).value;
        PrintedInOrder(root, dirs[..n]);
        ResolvedIsWellFormed(root, Split(dirs[n]));
        TreeLines(root, dirs[n], es);
        LinesAppend(root, TreePaths(dirs[n], es), Walk(root, dirs[..n]).1);
      }
    }
  }

  lemma UnderTransitive(q: string, p: string, d: string)
    requires Under(q, p) && Under(p, d)
    ensures Under(q, d)
  {
  }

  lemma {:induction false} JoinUnder(path: string, ns: seq<string>)
    ensures Under(Join(path, ns), path)
  {
    if ns != [] {
      var n := |ns| - 1;
      JoinUnder(path, ns[..n]);
      ChildUnder(Join(path, ns[..n]), ns[n]);
      UnderTransitive(Join(path, ns), Join(path, ns[..n]), path);
    }
  }

  /** No directory comes after one that lies below it. */
  lemma {:induction false} TreeParentFirst(path: string, es: seq<Entry>, a: nat, b: nat)
    requires WellFormed(es) && a < b < |TreePaths(path, es)|
    ensures !Under(TreePaths(path, es)[a], TreePaths(path, es)[b])
    decreases es, 1
  {
    var r := TreePaths(path, es)[b];
    if a == 0 {
      ForestPathsUnder(path, es);
      assert r in ForestPaths(path, es);
    } else {
      ForestParentFirst(path, es, a - 1, b - 1);
    }
  }

  lemma {:induction false} ForestParentFirst(path: string, es: seq<Entry>, a: nat, b: nat)
    requires WellFormed(es) && a < b < |ForestPaths(path, es)|
    ensures !Under(ForestPaths(path, es)[a], ForestPaths(path, es)[b])
    decreases es, 0
  {
    var q, r := ForestPaths(path, es)[a], ForestPaths(path, es)[b];
    var child := path + "/" + es[0].name;
    var head := if Kept(es[0]) then TreePaths(child, es[0].entries) else [];
    assert WellFormed(es[1..]);
    if b < |head| {
      TreeParentFirst(child, es[0].entries, a, b);
    } else if |head| <= a {
      ForestParentFirst(path, es[1..], a - |head|, b - |head|);
    } else {
      HeadAndTail(path, es, a, b);
      if Under(q, r) {
        var m :| 1 <= m < |es| && Under(r, path + "/" + es[m].name);
        UnderTransitive(q, r, path + "/" + es[m].name);
        ChildrenAreApart(q, path, es[0].name, es[m].name);
      }
    }
  }

  /** Below the first child and below a later one. */
  lemma HeadAndTail(path: string, es: seq<Entry>, a: nat, b: nat)
    requires es != [] && Kept(es[0])
    requires a < |TreePaths(path + "/" + es[0].name, es[0].entries)| <= b < |ForestPaths(path, es)|
    ensures Under(ForestPaths(path, es)[a], path + "/" + es[0].name)
    ensures exists m :: 1 <= m < |es| && Under(ForestPaths(path, es)[b], path + "/" + es[m].name)
  {
    var child := path + "/" + es[0].name;
    var head := TreePaths(child, es[0].entries);
    TreePathsUnder(child, es[0].entries);
    assert ForestPaths(path, es)[a] == head[a] && head[a] in head;
    var r := ForestPaths(path, es)[b];
    ForestPathsUnder(path, es[1..]);
    assert r == ForestPaths(path, es[1..])[b - |head|] && r in ForestPaths(path, es[1..]);
    var i :| 0 <= i < |es[1..]| && Under(r, path + "/" + es[1..][i].name);
    assert es[i + 1] == es[1..][i];
  }

  /** The paths of two entries of the directory at `path` by way of `ns`. */
  function EntryPath(path: string, all: seq<Entry>, ns: seq<string>, i: nat): string
    requires Lookup(all, ns).Some? && i < |Lookup(all, ns).value|
  {
    Join(path, ns) + "/" + Lookup(all, ns).value[i].name
  }

  lemma EntryPathFront(path: string, all: seq<Entry>, ns: seq<string>, i: nat) returns (k: nat)
    requires WellFormed(all) && ns != [] && Lookup(all, ns).Some? && i < |Lookup(all, ns).value|
    ensures k < |all| && all[k].Directory? && all[k].name == ns[0]
    ensures Lookup(all[k].entries, ns[1..]) == Lookup(all, ns)
    ensures EntryPath(path, all, ns, i) == EntryPath(path + "/" + ns[0], all[k].entries, ns[1..], i)
    ensures Under(EntryPath(path, all, ns, i), path + "/" + ns[0])
  {
    LookupFront(all, ns);
    k := FoundIsListed(all, ns[0]);
    JoinFront(path, ns);
    var top := Join(path + "/" + ns[0], ns[1..]);
    JoinUnder(path + "/" + ns[0], ns[1..]);
    ChildUnder(top, Lookup(all, ns).value[i].name);
    UnderTransitive(EntryPath(path, all, ns, i), top, path + "/" + ns[0]);
  }

  /** What lies below child `k` and below an entry further down: the way to the entry begins with `k`. */
  lemma WayBegins(path: string, all: seq<Entry>, k: nat, ns: seq<string>, i: nat, q: string)
    requires WellFormed(all) && k < |all| && Lookup(all, ns).Some? && i < |Lookup(all, ns).value|
    requires Under(q, path + "/" + all[k].name) && Under(q, EntryPath(path, all, ns, i))
    ensures if ns == [] then k == i
      else && ns[0] == all[k].name && all[k].Directory? && Lookup(all[k].entries, ns[1..]) == Lookup(all, ns)
           && EntryPath(path, all, ns, i) == EntryPath(path + "/" + ns[0], all[k].entries, ns[1..], i)
  {
    if ns == [] {
      ChildrenAreApart(q, path, all[k].name, all[i].name);
    } else {
      var x := EntryPathFront(path, all, ns, i);
      UnderTransitive(q, EntryPath(path, all, ns, i), path + "/" + ns[0]);
      ChildrenAreApart(q, path, all[k].name, ns[0]);
      assert x == k;
    }
  }

  /** Of two entries of one directory, nothing of the one listed later comes before anything of the one
      listed earlier. */
  lemma {:induction false} TreeInListingOrder(path: string, es: seq<Entry>, a: nat, b: nat,
                                              ns: seq<string>, i: nat, j: nat)
    requires WellFormed(es) && a < b < |TreePaths(path, es)|
    requires Lookup(es, ns).Some? && i < j < |Lookup(es, ns).value|
    ensures !(Under(TreePaths(path, es)[a], EntryPath(path, es, ns, j)) &&
              Under(TreePaths(path, es)[b], EntryPath(path, es, ns, i)))
    decreases es, 1, 0
  {
    if a == 0 {
      JoinUnder(path, ns);
    } else {
      ForestInListingOrder(path, es, es, 0, a - 1, b - 1, ns, i, j);
    }
  }

  lemma {:induction false} ForestInListingOrder(path: string, all: seq<Entry>, es: seq<Entry>, k: nat, a: nat, b: nat,
                                                ns: seq<string>, i: nat, j: nat)
    requires WellFormed(all) && k <= |all| && es == all[k..] && a < b < |ForestPaths(path, es)|
    requires Lookup(all, ns).Some? && i < j < |Lookup(all, ns).value|
    ensures !(Under(ForestPaths(path, es)[a], EntryPath(path, all, ns, j)) &&
              Under(ForestPaths(path, es)[b], EntryPath(path, all, ns, i)))
    decreases es, 0, 1
  {
    var head := if Kept(es[0]) then TreePaths(path + "/" + es[0].name, es[0].entries) else [];
    ForestAt(path, es, a);
    ForestAt(path, es, b);
    if |head| <= a {
      ForestInListingOrder(path, all, es[1..], k + 1, a - |head|, b - |head|, ns, i, j);
    } else if b < |head| {
      ChildInListingOrder(path, all, es, k, a, b, ns, i, j);
    } else {
      HeadAndTail(path, es, a, b);
      HeadInListingOrder(path, all, es, k, ForestPaths(path, es)[a], ForestPaths(path, es)[b], ns, i, j);
    }
  }

  lemma ForestAt(path: string, es: seq<Entry>, a: nat)
    requires a < |ForestPaths(path, es)|
    ensures var head := if Kept(es[0]) then TreePaths(path + "/" + es[0].name, es[0].entries) else [];
      if a < |head| then ForestPaths(path, es)[a] == head[a]
      else
        && a - |head| < |ForestPaths(path, es[1..])|
        && ForestPaths(path, es)[a] == ForestPaths(path, es[1..])[a - |head|]
  {
  }

  lemma HeadInListingOrder(path: string, all: seq<Entry>, es: seq<Entry>, k: nat, q: string, r: string,
                           ns: seq<string>, i: nat, j: nat)
    requires WellFormed(all) && k < |all| && es == all[k..]
    requires Under(q, path + "/" + es[0].name) && exists m :: 1 <= m < |es| && Under(r, path + "/" + es[m].name)
    requires Lookup(all, ns).Some? && i < j < |Lookup(all, ns).value|
    ensures !(Under(q, EntryPath(path, all, ns, j)) && Under(r, EntryPath(path, all, ns, i)))
  {
    var m :| 1 <= m < |es| && Under(r, path + "/" + es[m].name);
    assert es[m] == all[k + m];
    ChildrenInListingOrder(path, all, k, k + m, q, r, ns, i, j);
  }

  /** Both below one child. */
  lemma {:induction false} ChildInListingOrder(path: string, all: seq<Entry>, es: seq<Entry>, k: nat, a: nat, b: nat,
                                               ns: seq<string>, i: nat, j: nat)
    requires WellFormed(all) && k < |all| && es == all[k..] && Kept(es[0])
    requires a < b < |TreePaths(path + "/" + es[0].name, es[0].entries)|
    requires Lookup(all, ns).Some? && i < j < |Lookup(all, ns).value|
    ensures var paths := TreePaths(path + "/" + es[0].name, es[0].entries);
      !(Under(paths[a], EntryPath(path, all, ns, j)) && Under(paths[b], EntryPath(path, all, ns, i)))
    decreases es, 0, 0
  {
    var child := path + "/" + es[0].name;
    var q, r := TreePaths(child, es[0].entries)[a], TreePaths(child, es[0].entries)[b];
    TreePathsUnder(child, es[0].entries);
    if Under(q, EntryPath(path, all, ns, j)) && Under(r, EntryPath(path, all, ns, i)) {
      WayBegins(path, all, k, ns, j, q);
      WayBegins(path, all, k, ns, i, r);
      TreeInListingOrder(child, es[0].entries, a, b, ns[1..], i, j);
    }
  }

  /** Below two children. */
  lemma ChildrenInListingOrder(path: string, all: seq<Entry>, k: nat, m: nat, q: string, r: string,
                               ns: seq<string>, i: nat, j: nat)
    requires WellFormed(all) && k < m < |all|
    requires Under(q, path + "/" + all[k].name) && Under(r, path + "/" + all[m].name)
    requires Lookup(all, ns).Some? && i < j < |Lookup(all, ns).value|
    ensures !(Under(q, EntryPath(path, all, ns, j)) && Under(r, EntryPath(path, all, ns, i)))
  {
    if Under(q, EntryPath(path, all, ns, j)) && Under(r, EntryPath(path, all, ns, i)) {
      WayBegins(path, all, k, ns, j, q);
      WayBegins(path, all, m, ns, i, r);
    }
  }

  lemma UnderOne(q: string, d: string, e: string)
    requires IsName(d) && IsName(e) && Under(q, d) && Under(q, e)
    ensures d == e
  {
    FirstSlash(q + "/", d, e);
  }

  ghost predicate Differ(dirs: seq<string>, i: nat, j: nat)
    requires i < j < |dirs|
  {
    dirs[i] != dirs[j]
  }

  /** Starting directories: different names. */
  ghost predicate IsStart(dirs: seq<string>) {
    && (forall i :: 0 <= i < |dirs| ==> IsName(dirs[i]))
    && forall i, j {:trigger Differ(dirs, i, j)} :: 0 <= i < j < |dirs| ==> Differ(dirs, i, j)
  }

  lemma StartIsDistinct(dirs: seq<string>)
    ensures IsStart(dirs) <==> NoDuplicates(dirs) && forall d :: d in dirs ==> IsName(d)
  {
    if IsStart(dirs) {
      forall i, j | 0 <= i < j < |dirs|
        ensures dirs[i] != dirs[j]
      {
        assert Differ(dirs, i, j);
      }
    }
  }

  lemma LastIsOther(dirs: seq<string>)
    requires IsStart(dirs) && dirs != []
    ensures dirs[|dirs| - 1] !in dirs[..|dirs| - 1]
  {
    forall j | 0 <= j < |dirs| - 1
      ensures dirs[j] != dirs[|dirs| - 1]
    {
      assert Differ(dirs, j, |dirs| - 1);
    }
  }

  lemma ShorterStart(dirs: seq<string>)
    requires IsStart(dirs) && dirs != []
    ensures IsStart(dirs[..|dirs| - 1])
  {
    var rest := dirs[..|dirs| - 1];
    forall i, j | 0 <= i < j < |rest|
      ensures Differ(rest, i, j)
    {
      assert Differ(dirs, i, j);
    }
  }

  lemma SomeStart(root: seq<Entry>, dirs: seq<string>, a: nat) returns (d: string)
    requires WellFormed(root) && IsStart(dirs)
    requires a < |Walk(root, dirs).1|
    ensures d in dirs && Under(Walk(root, dirs).1[a], d)
  {
    StartIsDistinct(dirs);
    VisitedOnce(root, dirs);
    assert Walk(root, dirs).1[a] in Walk(root, dirs).1;
    d :| d in dirs && Under(Walk(root, dirs).1[a], d);
  }

  /** What was visited from the last starting directory, and what from the others. */
  lemma VisitedParts(root: seq<Entry>, dirs: seq<string>, a: nat)
    requires WellFormed(root) && IsStart(dirs)
    requires a < |Walk(root, dirs).1|
    ensures dirs != [] && Resolve(root, dirs[|dirs| - 1]).Some?
    ensures var last := TreePaths(dirs[|dirs| - 1], Resolve(root, dirs[|dirs| - 1]).value);
      var rest := Walk(root, dirs[..|dirs| - 1]).1;
      var q := Walk(root, dirs).1[a];
      if a < |last| then q == last[a] && Under(q, dirs[|dirs| - 1])
      else a - |last| < |rest| && q == rest[a - |last|] && exists d :: d in dirs[..|dirs| - 1] && Under(q, d)
  {
    var n := |dirs| - 1;
    var es := Resolve(root, dirs[n]).value;
    TreePathsUnder(dirs[n], es);
    var last := TreePaths(dirs[n], es);
    if a < |last| {
      assert last[a] in last;
    } else {
      ShorterStart(dirs);
      var d := SomeStart(root, dirs[..n], a - |last|);
    }
  }

  /** What lies below a starting directory was visited from it. */
  lemma PartOf(root: seq<Entry>, dirs: seq<string>, a: nat, d: string)
    requires WellFormed(root) && IsStart(dirs)
    requires a < |Walk(root, dirs).1| && d in dirs && Under(Walk(root, dirs).1[a], d)
    ensures Resolve(root, dirs[|dirs| - 1]).Some?
    ensures var last := TreePaths(dirs[|dirs| - 1], Resolve(root, dirs[|dirs| - 1]).value);
      var rest := Walk(root, dirs[..|dirs| - 1]).1;
      var q := Walk(root, dirs).1[a];
      if d == dirs[|dirs| - 1] then a < |last| && q == last[a]
      else d in dirs[..|dirs| - 1] && |last| <= a < |last| + |rest| && q == rest[a - |last|]
  {
    var e, q := dirs[|dirs| - 1], Walk(root, dirs).1[a];
    VisitedParts(root, dirs, a);
    StartIsDistinct(dirs);
    if a < |TreePaths(e, Resolve(root, e).value)| {
      UnderOne(q, d, e);
    } else {
      var d' :| d' in dirs[..|dirs| - 1] && Under(q, d');
      UnderOne(q, d', d);
    }
  }

  /** From what lies below an earlier starting directory on, the last one is done with. */
  lemma SkipLast(root: seq<Entry>, dirs: seq<string>, a: nat, b: nat, d: string) returns (a': nat, b': nat)
    requires WellFormed(root) && IsStart(dirs) && a < b < |Walk(root, dirs).1|
    requires d in dirs && d != dirs[|dirs| - 1] && Under(Walk(root, dirs).1[a], d)
    ensures var rest := dirs[..|dirs| - 1];
      && IsStart(rest) && d in rest && a' < b' < |Walk(root, rest).1|
      && Walk(root, rest).1[a'] == Walk(root, dirs).1[a] && Walk(root, rest).1[b'] == Walk(root, dirs).1[b]
  {
    PartOf(root, dirs, a, d);
    ShorterStart(dirs);
    var e := dirs[|dirs| - 1];
    var skipped := |TreePaths(e, Resolve(root, e).value)|;
    a', b' := a - skipped, b - skipped;
  }

  /** No directory comes after one that lies below it. */
  lemma {:induction false} VisitedParentFirst(root: seq<Entry>, dirs: seq<string>, a: nat, b: nat)
    requires WellFormed(root) && IsStart(dirs)
    requires a < b < |Walk(root, dirs).1|
    ensures !Under(Walk(root, dirs).1[a], Walk(root, dirs).1[b])
  {
    var q, r := Walk(root, dirs).1[a], Walk(root, dirs).1[b];
    if Under(q, r) {
      var d := SomeStart(root, dirs, b);
      var e := dirs[|dirs| - 1];
      UnderTransitive(q, r, d);
      if d == e {
        PartOf(root, dirs, a, d);
        PartOf(root, dirs, b, d);
        ResolvedIsWellFormed(root, Split(e));
        TreeParentFirst(e, Resolve(root, e).value, a, b);
      } else {
        var a', b' := SkipLast(root, dirs, a, b, d);
        VisitedParentFirst(root, dirs[..|dirs| - 1], a', b');
      }
    }
  }

  lemma RestIsNotUnderLast(root: seq<Entry>, dirs: seq<string>, b: nat)
    requires WellFormed(root) && IsStart(dirs) && dirs != []
    requires b < |Walk(root, dirs[..|dirs| - 1]).1|
    ensures !Under(Walk(root, dirs[..|dirs| - 1]).1[b], dirs[|dirs| - 1])
  {
    var rest, e := dirs[..|dirs| - 1], dirs[|dirs| - 1];
    LastIsOther(dirs);
    ShorterStart(dirs);
    var d := SomeStart(root, rest, b);
    StartIsDistinct(rest);
    if Under(Walk(root, rest).1[b], e) {
      UnderOne(Walk(root, rest).1[b], d, e);
    }
  }

  /** Nothing below a starting directory comes before anything below a later one on the stack. */
  lemma {:induction false} VisitedInStackOrder(root: seq<Entry>, dirs: seq<string>, a: nat, b: nat, x: nat, y: nat)
    requires WellFormed(root) && IsStart(dirs)
    requires a < b < |Walk(root, dirs).1| && x < y < |dirs|
    ensures !(Under(Walk(root, dirs).1[a], dirs[x]) && Under(Walk(root, dirs).1[b], dirs[y]))
  {
    var rest := dirs[..|dirs| - 1];
    LastIsOther(dirs);
    assert rest[x] == dirs[x];
    if Under(Walk(root, dirs).1[a], dirs[x]) {
      var a', b' := SkipLast(root, dirs, a, b, dirs[x]);
      RestIsNotUnderLast(root, dirs, b');
      if y < |rest| {
        VisitedInStackOrder(root, rest, a', b', x, y);
      }
    }
  }

  /** Of two entries of one directory, all of the one listed first comes before all of the other. */
  lemma {:induction false} VisitedInListingOrder(root: seq<Entry>, dirs: seq<string>, a: nat, b: nat, d: string,
                                                 ns: seq<string>, i: nat, j: nat)
    requires WellFormed(root) && IsStart(dirs)
    requires a < b < |Walk(root, dirs).1| && d in dirs && Resolve(root, d).Some?
    requires var es := Resolve(root, d).value; Lookup(es, ns).Some? && i < j < |Lookup(es, ns).value|
    ensures var q, r, es := Walk(root, dirs).1[a], Walk(root, dirs).1[b], Resolve(root, d).value;
      !(Under(q, EntryPath(d, es, ns, j)) && Under(r, EntryPath(d, es, ns, i)))
  {
    var q, r, es := Walk(root, dirs).1[a], Walk(root, dirs).1[b], Resolve(root, d).value;
    if Under(q, EntryPath(d, es, ns, j)) && Under(r, EntryPath(d, es, ns, i)) {
      EntryUnder(q, d, es, ns, j);
      EntryUnder(r, d, es, ns, i);
      if d == dirs[|dirs| - 1] {
        PartOf(root, dirs, a, d);
        PartOf(root, dirs, b, d);
        ResolvedIsWellFormed(root, Split(d));
        TreeInListingOrder(d, es, a, b, ns, i, j);
      } else {
        var a', b' := SkipLast(root, dirs, a, b, d);
        VisitedInListingOrder(root, dirs[..|dirs| - 1], a', b', d, ns, i, j);
      }
    }
  }

  lemma EntryUnder(q: string, d: string, es: seq<Entry>, ns: seq<string>, i: nat)
    requires Lookup(es, ns).Some? && i < |Lookup(es, ns).value| && Under(q, EntryPath(d, es, ns, i))
    ensures Under(q, d)
  {
    JoinUnder(d, ns);
    ChildUnder(Join(d, ns), Lookup(es, ns).value[i].name);
    UnderTransitive(EntryPath(d, es, ns, i), Join(d, ns), d);
    UnderTransitive(q, EntryPath(d, es, ns, i), d);
  }
}
