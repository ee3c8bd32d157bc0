/** Which file an #include means, which files a .cpp reaches, and in which order
    (internal/client/own-includes-parser.go). These are the specifications of the parser's methods. */
module IncludeResolution {
  import opened Wrappers
  import opened Paths
  import opened Sha256
  import Text
  import opened IncludeScanner

  datatype IncludeDirs = IncludeDirs(dirsI: seq<string>, dirsIquote: seq<string>, dirsIsystem: seq<string>,
                                     filesI: seq<string>)

  /** A file system that does not change, the -I lists of the command line, and the hash of contents. */
  datatype World = World(fs: map<string, string>, dirs: IncludeDirs, sha: string -> SHA256)

  datatype IncludedFile = IncludedFile(fileName: string, fileSize: nat, fileSHA256: SHA256)

  function FileOf(w: World, name: string): IncludedFile
    requires name in w.fs
  {
    IncludedFile(name, |w.fs[name]|, w.sha(w.fs[name]))
  }

  ghost predicate RootedDirs(w: World) {
    forall d :: d in w.dirs.dirsI || d in w.dirs.dirsIquote || d in w.dirs.dirsIsystem ==> Rooted(d)
  }

  // ---------------------------------------------------------------- one #include

  function JoinAll(dirs: seq<string>, name: string): (ps: seq<string>)
    ensures |ps| == |dirs| && forall i :: 0 <= i < |ps| ==> ps[i] == Join(dirs[i], name)
  {
    seq(|dirs|, i requires 0 <= i < |dirs| => Join(dirs[i], name))
  }

  /** All paths an #include may mean, in the order they are tried. */
  function AllPaths(w: World, currentFileName: string, arg: IncludedArg): seq<string> {
    if Rooted(arg.insideStr) then [arg.insideStr]
    else if arg.isQuote then QuotePaths(w, currentFileName, arg.insideStr) + AnglePaths(w, arg.insideStr)
    else AnglePaths(w, arg.insideStr)
  }

  function QuotePaths(w: World, currentFileName: string, name: string): seq<string> {
    [Join(Dir(currentFileName), name)] + JoinAll(w.dirs.dirsIquote, name)
  }

  function AnglePaths(w: World, name: string): seq<string> {
    JoinAll(w.dirs.dirsI, name) + JoinAll(w.dirs.dirsIsystem, name)
  }

  /** The directory part of a tried path. */
  function IncludeDirOf(path: string, name: string): string
    requires |name| <= |path|
  {
    path[..|path| - |name|]
  }

  /** #include_next: nothing is tried up to the first directory the current file lies in. */
  function AfterCurrentDir(currentFileName: string, name: string, paths: seq<string>): seq<string> {
    if paths == [] || |paths[0]| < |name| then []
    else if IncludeDirOf(paths[0], name) <= currentFileName then paths[1..]
    else AfterCurrentDir(currentFileName, name, paths[1..])
  }

  /** While it looks for that directory, the program cuts the name off each path: path.Join may have
      made the path shorter than the name ("../.."), and then the slice is out of range. */
  predicate CutsInRange(currentFileName: string, name: string, paths: seq<string>) {
    paths == []
    || (|name| <= |paths[0]|
        && (IncludeDirOf(paths[0], name) <= currentFileName || CutsInRange(currentFileName, name, paths[1..])))
  }

  function Tried(w: World, currentFileName: string, arg: IncludedArg): seq<string> {
    var all := AllPaths(w, currentFileName, arg);
    if arg.isIncludeNext then AfterCurrentDir(currentFileName, arg.insideStr, all) else all
  }

  /** The program does not fail on this directive: `insideStr[0]` and the cuts are in range. */
  predicate ArgInRange(w: World, currentFileName: string, arg: IncludedArg) {
    && arg.insideStr != ""
    && (arg.isIncludeNext ==> CutsInRange(currentFileName, arg.insideStr, AllPaths(w, currentFileName, arg)))
  }

  /** What resolving a directive does before it tries a path: it reads the name's first character, and for
      include_next cuts the name off each path until it meets the current file's directory. It is out of range
      exactly when ArgInRange says. */
  method WalkToCurrentDir(w: World, currentFileName: string, arg: IncludedArg) returns (inRange: bool)
    ensures inRange <==> ArgInRange(w, currentFileName, arg)
  {
    if arg.insideStr == "" { return false; }
    if !arg.isIncludeNext { return true; }
    var paths := AllPaths(w, currentFileName, arg);
    for i := 0 to |paths|
      invariant CutsInRange(currentFileName, arg.insideStr, paths)
             == CutsInRange(currentFileName, arg.insideStr, paths[i..])
    {
      if |arg.insideStr| > |paths[i]| { return false; }
      if IncludeDirOf(paths[i], arg.insideStr) <= currentFileName { return true; }
    }
    inRange := true;
  }

  /** Directives on which the program fails: an empty name in either form, and an include_next whose name is longer
      than a path made from it. */
  lemma FailingDirectives(w: World, currentFileName: string, isQuote: bool, isNext: bool)
    ensures !ArgInRange(w, currentFileName, IncludedArg("", isQuote, isNext))
    ensures !ArgInRange(w, "/a.h", IncludedArg("./", true, true))
  {
    assert Text.Split('/', "/") == ["", ""] && UpToLastSlash("/a.h") == "/" by {
      assert Text.Split('/', "") == [""];
      assert "/a.h"[..3] == "/a." && "/a."[..2] == "/a" && "/a"[..1] == "/";
    }
    assert Dir("/a.h") == "/";
    var slashes := "/" + "/" + "./";
    assert slashes[1..] == "/./" && "/./"[1..] == "./" && "./"[1..] == "/";
    assert ['.'] + "" == ".";
    assert Text.Split('/', "./") == ["."] + [""] == [".", ""];
    assert Text.Split('/', "/./") == ["", ".", ""];
    assert Text.Split('/', slashes) == ["", "", ".", ""];
    assert Normalize(["", "", ".", ""], true, []) == [] by {
      assert ["", "", ".", ""][1..] == ["", ".", ""] && ["", ".", ""][1..] == [".", ""] && [".", ""][1..] == [""];
    }
    assert Join("/", "./") == "/";
  }

  function FirstExisting(fs: map<string, string>, paths: seq<string>): (r: Option<string>)
    ensures r.Some? ==> r.value in fs && r.value in paths
    ensures r.None? <==> forall p :: p in paths ==> p !in fs
  {
    if paths == [] then None
    else if paths[0] in fs then Some(paths[0])
    else FirstExisting(fs, paths[1..])
  }

  lemma {:induction false} FirstExistingAppend(fs: map<string, string>, a: seq<string>, b: seq<string>)
    ensures FirstExisting(fs, a + b)
          == if FirstExisting(fs, a).Some? then FirstExisting(fs, a) else FirstExisting(fs, b)
  {
    if a == [] {
      assert a + b == b;
    } else {
      assert (a + b)[1..] == a[1..] + b;
      FirstExistingAppend(fs, a[1..], b);
    }
  }

  /** The file an #include means: the first path tried that exists. */
  function Resolve(w: World, currentFileName: string, arg: IncludedArg): (r: Option<string>)
    ensures r.Some? ==> r.value in w.fs
  {
    FirstExisting(w.fs, Tried(w, currentFileName, arg))
  }

  // ---- the same without the walk

  /** The current file lies in the directory this path was made from. */
  predicate LiesIn(currentFileName: string, name: string, path: string) {
    |name| <= |path| && path[..|path| - |name|] <= currentFileName
  }

  predicate FirstToLieIn(currentFileName: string, name: string, paths: seq<string>, i: nat) {
    i < |paths| && LiesIn(currentFileName, name, paths[i])
    && forall j :: 0 <= j < i ==> !LiesIn(currentFileName, name, paths[j])
  }

  predicate LiesEarlier(currentFileName: string, name: string, paths: seq<string>, i: int) {
    exists j :: 0 <= j < i && j < |paths| && LiesIn(currentFileName, name, paths[j])
  }

  /** No path is shorter than the name, unless an earlier one was made from the current file's directory. */
  predicate LongEnough(currentFileName: string, name: string, paths: seq<string>) {
    forall i :: 0 <= i < |paths| && |paths[i]| < |name| ==> LiesEarlier(currentFileName, name, paths, i)
  }

  lemma {:induction false} AfterFirstDir(currentFileName: string, name: string, paths: seq<string>)
    ensures CutsInRange(currentFileName, name, paths) <==> LongEnough(currentFileName, name, paths)
    ensures forall i: nat ::
              CutsInRange(currentFileName, name, paths) && FirstToLieIn(currentFileName, name, paths, i) ==>
                AfterCurrentDir(currentFileName, name, paths) == paths[i + 1..]
    ensures (forall i :: 0 <= i < |paths| ==> !LiesIn(currentFileName, name, paths[i])) ==>
              AfterCurrentDir(currentFileName, name, paths) == []
  {
    if paths != [] {
      var rest := paths[1..];
      AfterFirstDir(currentFileName, name, rest);
      if |name| <= |paths[0]| && !LiesIn(currentFileName, name, paths[0]) {
        LongEnoughLater(currentFileName, name, paths);
        forall i: nat | FirstToLieIn(currentFileName, name, paths, i)
          ensures i > 0 && FirstToLieIn(currentFileName, name, rest, i - 1) && paths[i + 1..] == rest[i..]
        {
          assert i > 0 && forall j :: 0 <= j < i - 1 ==> rest[j] == paths[j + 1];
        }
      }
    }
  }

  lemma LiesEarlierLater(currentFileName: string, name: string, paths: seq<string>, i: nat)
    requires paths != [] && !LiesIn(currentFileName, name, paths[0])
    ensures LiesEarlier(currentFileName, name, paths, i + 1) <==> LiesEarlier(currentFileName, name, paths[1..], i)
  {
    hide LiesIn;
    var rest := paths[1..];
    if j :| 0 <= j < i && j < |rest| && LiesIn(currentFileName, name, rest[j]) { assert paths[j + 1] == rest[j]; }
    if j :| 0 <= j < i + 1 && j < |paths| && LiesIn(currentFileName, name, paths[j]) { assert rest[j - 1] == paths[j]; }
  }

  lemma LongEnoughLater(currentFileName: string, name: string, paths: seq<string>)
    requires paths != [] && |name| <= |paths[0]| && !LiesIn(currentFileName, name, paths[0])
    ensures LongEnough(currentFileName, name, paths) <==> LongEnough(currentFileName, name, paths[1..])
  {
    hide LiesIn, LiesEarlier;
    var rest := paths[1..];
    forall i: nat
      ensures LiesEarlier(currentFileName, name, rest, i) <==> LiesEarlier(currentFileName, name, paths, i + 1)
    {
      LiesEarlierLater(currentFileName, name, paths, i);
    }
    if LongEnough(currentFileName, name, paths) {
      forall i | 0 <= i < |rest| && |rest[i]| < |name| ensures LiesEarlier(currentFileName, name, rest, i) {
        assert rest[i] == paths[i + 1];
      }
    }
    if LongEnough(currentFileName, name, rest) {
      forall i | 0 <= i < |paths| && |paths[i]| < |name| ensures LiesEarlier(currentFileName, name, paths, i) {
        assert paths[i] == rest[i - 1];
      }
    }
  }

  /** An include_next that does not fail means the first existing path after the first one that was made from a
      directory the current file lies in, and nothing if it lies in none. */
  lemma IncludeNextExactly(w: World, currentFileName: string, arg: IncludedArg)
    requires arg.isIncludeNext
    ensures var paths, name := AllPaths(w, currentFileName, arg), arg.insideStr;
            && paths == AllPaths(w, currentFileName, arg.(isIncludeNext := false))
            && (ArgInRange(w, currentFileName, arg) <==>
                  name != "" && LongEnough(currentFileName, name, paths))
            && (ArgInRange(w, currentFileName, arg) ==>
                  && (forall i: nat :: FirstToLieIn(currentFileName, name, paths, i) ==>
                        Resolve(w, currentFileName, arg) == FirstExisting(w.fs, paths[i + 1..]))
                  && ((forall i :: 0 <= i < |paths| ==> !LiesIn(currentFileName, name, paths[i])) ==>
                        Resolve(w, currentFileName, arg) == None))
  {
    AfterFirstDir(currentFileName, arg.insideStr, AllPaths(w, currentFileName, arg));
  }

  // ---- and for any other directive, directory by directory

  /** The name is found under this path, in the first of these directories that has it. */
  predicate FirstIn(fs: map<string, string>, dirs: seq<string>, name: string, i: nat) {
    i < |dirs| && Join(dirs[i], name) in fs && forall j :: 0 <= j < i ==> Join(dirs[j], name) !in fs
  }

  predicate NoneIn(fs: map<string, string>, dirs: seq<string>, name: string) {
    forall j :: 0 <= j < |dirs| ==> Join(dirs[j], name) !in fs
  }

  lemma {:induction false} FirstOfDirs(fs: map<string, string>, dirs: seq<string>, name: string)
    ensures forall i: nat :: FirstIn(fs, dirs, name, i) ==>
              FirstExisting(fs, JoinAll(dirs, name)) == Some(Join(dirs[i], name))
    ensures NoneIn(fs, dirs, name) ==> FirstExisting(fs, JoinAll(dirs, name)) == None
  {
    hide Join;
    if dirs != [] {
      assert JoinAll(dirs, name)[1..] == JoinAll(dirs[1..], name);
      FirstOfDirs(fs, dirs[1..], name);
      if Join(dirs[0], name) !in fs {
        forall i: nat | FirstIn(fs, dirs, name, i) ensures i > 0 && FirstIn(fs, dirs[1..], name, i - 1) {}
      }
    }
  }

  /** "name" is looked for beside the current file, and then in the -iquote directories; after that, as for
      <name>, in the -I and at last in the -isystem directories. An absolute name means itself. */
  lemma SearchOrder(w: World, currentFileName: string, arg: IncludedArg)
    requires !arg.isIncludeNext
    ensures var name, r := arg.insideStr, Resolve(w, currentFileName, arg);
            var here := Join(Dir(currentFileName), name);
            var notQuoted := arg.isQuote ==> here !in w.fs && NoneIn(w.fs, w.dirs.dirsIquote, name);
            if Rooted(name) then r == if name in w.fs then Some(name) else None
            else
              && (arg.isQuote && here in w.fs ==> r == Some(here))
              && (forall i: nat :: arg.isQuote && here !in w.fs && FirstIn(w.fs, w.dirs.dirsIquote, name, i) ==>
                    r == Some(Join(w.dirs.dirsIquote[i], name)))
              && (forall i: nat :: notQuoted && FirstIn(w.fs, w.dirs.dirsI, name, i) ==>
                    r == Some(Join(w.dirs.dirsI[i], name)))
              && (forall i: nat :: notQuoted && NoneIn(w.fs, w.dirs.dirsI, name)
                                   && FirstIn(w.fs, w.dirs.dirsIsystem, name, i) ==>
                    r == Some(Join(w.dirs.dirsIsystem[i], name)))
              && (notQuoted && NoneIn(w.fs, w.dirs.dirsI, name) && NoneIn(w.fs, w.dirs.dirsIsystem, name) ==> r == None)
  {
    hide Join, Dir, FirstExisting;
    var name, d := arg.insideStr, w.dirs;
    var here := Join(Dir(currentFileName), name);
    FirstOfDirs(w.fs, d.dirsIquote, name);
    FirstOfDirs(w.fs, d.dirsI, name);
    FirstOfDirs(w.fs, d.dirsIsystem, name);
    OneExisting(w.fs, here);
    OneExisting(w.fs, name);
    FirstExistingAppend(w.fs, QuotePaths(w, currentFileName, name), AnglePaths(w, name));
    FirstExistingAppend(w.fs, [here], JoinAll(d.dirsIquote, name));
    FirstExistingAppend(w.fs, JoinAll(d.dirsI, name), JoinAll(d.dirsIsystem, name));
  }

  lemma OneExisting(fs: map<string, string>, path: string)
    ensures FirstExisting(fs, [path]) == if path in fs then Some(path) else None
  {
  }

  lemma {:induction false} NextPathsAreOfAll(currentFileName: string, name: string, paths: seq<string>)
    ensures forall p :: p in AfterCurrentDir(currentFileName, name, paths) ==> p in paths
  {
    if paths != [] {
      NextPathsAreOfAll(currentFileName, name, paths[1..]);
    }
  }

  lemma ResolvedIsRooted(w: World, currentFileName: string, arg: IncludedArg)
    requires RootedDirs(w) && Rooted(currentFileName)
    ensures forall p :: p in Tried(w, currentFileName, arg) ==> Rooted(p)
  {
    hide Join, Dir, AfterCurrentDir;
    NextPathsAreOfAll(currentFileName, arg.insideStr, AllPaths(w, currentFileName, arg));
  }

  // ---------------------------------------------------------------- all of them

  /** The files a list of directives means; a directive that means none is passed over. */
  function ResolveAll(w: World, currentFileName: string, args: seq<IncludedArg>): (r: seq<string>)
    ensures forall f :: f in r ==> f in w.fs
  {
    if args == [] then []
    else
      var last := Resolve(w, currentFileName, args[|args| - 1]);
      ResolveAll(w, currentFileName, args[..|args| - 1]) + (if last.Some? then [last.value] else [])
  }

  /** The files a file includes directly. */
  ghost function Children(w: World, name: string): (r: seq<string>)
    requires name in w.fs
    ensures forall f :: f in r ==> f in w.fs
  {
    ResolveAll(w, name, IncludesOf(w.fs[name]))
  }

  function AngleArg(name: string): IncludedArg { IncludedArg(name, false, false) }

  function AngleArgs(names: seq<string>): (r: seq<IncludedArg>)
    ensures |r| == |names| && forall i :: 0 <= i < |r| ==> r[i] == AngleArg(names[i])
  {
    seq(|names|, i requires 0 <= i < |names| => AngleArg(names[i]))
  }

  /** What is included before the .cpp itself is read: stdc-predef.h and every -include file. */
  function ImplicitArgs(w: World): seq<IncludedArg> { [AngleArg("stdc-predef.h")] + AngleArgs(w.dirs.filesI) }

  ghost function Roots(w: World, cppInFile: string): (r: seq<string>)
    requires cppInFile in w.fs
    ensures forall f :: f in r ==> f in w.fs
  {
    ResolveAll(w, cppInFile, ImplicitArgs(w)) + Children(w, cppInFile)
  }

  /** One of these directives means this file. */
  ghost predicate Meant(w: World, from: string, args: seq<IncludedArg>, f: string) {
    exists i :: 0 <= i < |args| && Resolve(w, from, args[i]) == Some(f)
  }

  lemma {:induction false} ResolveAllExactly(w: World, from: string, args: seq<IncludedArg>)
    ensures forall f :: f in ResolveAll(w, from, args) <==> Meant(w, from, args, f)
  {
    hide Resolve;
    if args != [] {
      var n := |args| - 1;
      ResolveAllExactly(w, from, args[..n]);
      forall f
        ensures Meant(w, from, args, f) <==> Meant(w, from, args[..n], f) || Resolve(w, from, args[n]) == Some(f)
      {
        if i :| 0 <= i < |args| && Resolve(w, from, args[i]) == Some(f) { assert i < n ==> args[..n][i] == args[i]; }
      }
    }
  }

  lemma {:induction false} ResolveAllAppend(w: World, from: string, a: seq<IncludedArg>, b: seq<IncludedArg>)
    ensures ResolveAll(w, from, a + b) == ResolveAll(w, from, a) + ResolveAll(w, from, b)
  {
    hide Resolve;
    if b == [] {
      assert a + b == a;
    } else {
      assert (a + b)[..|a + b| - 1] == a + b[..|b| - 1];
      ResolveAllAppend(w, from, a, b[..|b| - 1]);
    }
  }

  /** A .cpp starts the search from what <stdc-predef.h> means, which comes first, the -include files and its own
      directives, and from nothing else. */
  lemma RootsExactly(w: World, cppInFile: string)
    requires cppInFile in w.fs
    ensures var predef := Resolve(w, cppInFile, IncludedArg("stdc-predef.h", false, false));
            var roots, own := Roots(w, cppInFile), IncludesOf(w.fs[cppInFile]);
            && (predef.Some? ==> roots != [] && roots[0] == predef.value)
            && forall f :: f in roots
                  <==> || predef == Some(f)
                       || (exists name :: name in w.dirs.filesI
                             && Resolve(w, cppInFile, IncludedArg(name, false, false)) == Some(f))
                       || Meant(w, cppInFile, own, f)
  {
    hide Resolve, IncludesOf;
    var first, files := AngleArg("stdc-predef.h"), AngleArgs(w.dirs.filesI);
    ResolveAllAppend(w, cppInFile, [first], files);
    ResolveAllOne(w, cppInFile, first);
    ResolveAllExactly(w, cppInFile, files);
    ResolveAllExactly(w, cppInFile, IncludesOf(w.fs[cppInFile]));
    forall name | name in w.dirs.filesI ensures IncludedArg(name, false, false) in files {
      var i :| 0 <= i < |w.dirs.filesI| && w.dirs.filesI[i] == name;
      assert files[i] == IncludedArg(name, false, false);
    }
  }

  lemma ResolveAllOne(w: World, from: string, arg: IncludedArg)
    ensures var r := Resolve(w, from, arg); ResolveAll(w, from, [arg]) == if r.Some? then [r.value] else []
  {
    hide Resolve;
    assert [arg][..0] == [] && ResolveAll(w, from, []) == [];
  }

  /** Depth-first, in order of first appearance: `seen` are the files found so far, `todo` the files
      still to be looked at, in order. */
  ghost function Dfs(w: World, seen: seq<string>, todo: seq<string>): (r: seq<string>)
    requires forall f :: f in todo ==> f in w.fs
    ensures seen <= r
    decreases w.fs.Keys - (set f | f in seen), |todo|
  {
    if todo == [] then seen
    else if todo[0] in seen then Dfs(w, seen, todo[1..])
    else
      assert w.fs.Keys - (set f | f in seen + [todo[0]]) < w.fs.Keys - (set f | f in seen) by {
        assert todo[0] in w.fs.Keys - (set f | f in seen);
      }
      Dfs(w, seen + [todo[0]], Children(w, todo[0]) + todo[1..])
  }

  // ---------------------------------------------------------------- the search is exact reachability

  ghost predicate Chain(w: World, p: seq<string>) {
    && p != []
    && (forall i :: 0 <= i < |p| ==> p[i] in w.fs)
    && (forall i :: 0 < i < |p| ==> p[i] in Children(w, p[i - 1]))
  }

  /** A file is reached from some others by including, any number of times. */
  ghost predicate Reachable(w: World, from: seq<string>, name: string) {
    exists p :: Chain(w, p) && p[0] in from && p[|p| - 1] == name
  }

  ghost predicate NoDuplicates(s: seq<string>) { forall i, j :: 0 <= i < j < |s| ==> s[i] != s[j] }

  lemma {:induction false} DfsNoDuplicates(w: World, seen: seq<string>, todo: seq<string>)
    requires (forall f :: f in todo ==> f in w.fs) && NoDuplicates(seen)
    ensures NoDuplicates(Dfs(w, seen, todo))
    decreases w.fs.Keys - (set f | f in seen), |todo|
  {
    if todo != [] {
      if todo[0] in seen {
        DfsNoDuplicates(w, seen, todo[1..]);
      } else {
        Shrinks(w, seen, todo[0]);
        DfsNoDuplicates(w, seen + [todo[0]], Children(w, todo[0]) + todo[1..]);
      }
    }
  }

  lemma Shrinks(w: World, seen: seq<string>, name: string)
    requires name in w.fs && name !in seen
    ensures w.fs.Keys - (set f | f in seen + [name]) < w.fs.Keys - (set f | f in seen)
  {
    assert name in w.fs.Keys - (set f | f in seen);
  }

  lemma ChainPrepend(w: World, x: string, p: seq<string>)
    requires x in w.fs && Chain(w, p) && p[0] in Children(w, x)
    ensures Chain(w, [x] + p) && ([x] + p)[0] == x && ([x] + p)[|[x] + p| - 1] == p[|p| - 1]
  {
    var q := [x] + p;
    hide Children;
    assert forall i :: 0 <= i < |q| ==> q[i] == if i == 0 then x else p[i - 1];
    forall i | 0 < i < |q|
      ensures q[i] in Children(w, q[i - 1])
    {
      if i > 1 { assert p[i - 1] in Children(w, p[i - 2]); }
    }
  }

  /** Whatever the search finds is reached. */
  lemma {:induction false} DfsFindsOnlyReachable(w: World, seen: seq<string>, todo: seq<string>, name: string)
    requires (forall f :: f in todo ==> f in w.fs) && name in Dfs(w, seen, todo) && name !in seen
    ensures Reachable(w, todo, name)
    decreases w.fs.Keys - (set f | f in seen), |todo|
  {
    var x := todo[0];
    if x in seen {
      DfsFindsOnlyReachable(w, seen, todo[1..], name);
      var p :| Chain(w, p) && p[0] in todo[1..] && p[|p| - 1] == name;
      assert p[0] in todo;
    } else if name == x {
      assert Chain(w, [x]);
    } else {
      Shrinks(w, seen, x);
      DfsFindsOnlyReachable(w, seen + [x], Children(w, x) + todo[1..], name);
      var p :| Chain(w, p) && p[0] in Children(w, x) + todo[1..] && p[|p| - 1] == name;
      if p[0] in todo[1..] {
        assert p[0] in todo;
      } else {
        ChainPrepend(w, x, p);
      }
    }
  }

  /** Whatever it finds, it also finds the children of. */
  lemma {:induction false} DfsIsClosed(w: World, seen: seq<string>, todo: seq<string>)
    requires forall f :: f in todo ==> f in w.fs
    ensures forall f :: f in todo ==> f in Dfs(w, seen, todo)
    ensures forall f :: f in Dfs(w, seen, todo) && f !in seen ==>
              f in w.fs && forall c :: c in Children(w, f) ==> c in Dfs(w, seen, todo)
    decreases w.fs.Keys - (set f | f in seen), |todo|
  {
    if todo != [] {
      var x := todo[0];
      if x in seen {
        DfsIsClosed(w, seen, todo[1..]);
      } else {
        Shrinks(w, seen, x);
        var rest := Children(w, x) + todo[1..];
        DfsIsClosed(w, seen + [x], rest);
        assert forall c :: c in Children(w, x) ==> c in rest;
        assert forall f :: f in todo[1..] ==> f in rest;
        assert x in seen + [x];
      }
    }
  }

  lemma {:induction false} ChainStaysInside(w: World, roots: seq<string>, p: seq<string>)
    requires (forall f :: f in roots ==> f in w.fs) && Chain(w, p) && p[0] in roots
    ensures p[|p| - 1] in Dfs(w, [], roots)
    decreases |p|
  {
    DfsIsClosed(w, [], roots);
    if |p| > 1 {
      var q := p[..|p| - 1];
      assert Chain(w, q);
      ChainStaysInside(w, roots, q);
      assert p[|p| - 1] in Children(w, q[|q| - 1]);
    }
  }

  /** The list found from a .cpp has no duplicates and is exactly the set of files reached from it. */
  lemma DfsIsReachability(w: World, roots: seq<string>)
    requires forall f :: f in roots ==> f in w.fs
    ensures NoDuplicates(Dfs(w, [], roots))
    ensures forall name :: name in Dfs(w, [], roots) <==> Reachable(w, roots, name)
  {
    DfsNoDuplicates(w, [], roots);
    forall name
      ensures name in Dfs(w, [], roots) <==> Reachable(w, roots, name)
    {
      if name in Dfs(w, [], roots) {
        DfsFindsOnlyReachable(w, [], roots, name);
      }
      if Reachable(w, roots, name) {
        var p :| Chain(w, p) && p[0] in roots && p[|p| - 1] == name;
        ChainStaysInside(w, roots, p);
      }
    }
  }

  /** Searching a list of files is searching its parts one after another. */
  lemma {:induction false} DfsAppend(w: World, seen: seq<string>, a: seq<string>, b: seq<string>)
    requires forall f :: f in a || f in b ==> f in w.fs
    ensures Dfs(w, seen, a + b) == Dfs(w, Dfs(w, seen, a), b)
    decreases w.fs.Keys - (set f | f in seen), |a|
  {
    if a == [] {
      assert a + b == b;
    } else {
      assert (a + b)[1..] == a[1..] + b;
      if a[0] in seen {
        DfsAppend(w, seen, a[1..], b);
      } else {
        Shrinks(w, seen, a[0]);
        assert Children(w, a[0]) + (a[1..] + b) == (Children(w, a[0]) + a[1..]) + b;
        DfsAppend(w, seen + [a[0]], Children(w, a[0]) + a[1..], b);
      }
    }
  }
}
