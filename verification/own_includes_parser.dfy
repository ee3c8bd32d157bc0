/** The own includes parser and the daemon-wide cache under it
    (internal/client/own-includes-parser.go, internal/client/includes-cache.go). */
module OwnIncludesParsing {
  import opened Wrappers
  import opened Paths
  import opened Sha256
  import Text
  import opened IncludeScanner
  import opened IncludeResolution

  // ---------------------------------------------------------------- the cache

  /** fileSize: -1 if there is no such file. */
  datatype CachedHFile = CachedHFile(fileSize: int, fileSHA256: SHA256, nestedIncludes: seq<string>)

  const NO := "NO"

  /** Kept while the daemon runs: how <arg> is resolved ("NO" if it is not), and what is known of a file. */
  class IncludesCache {
    var includesResolve: map<string, string>
    var hFilesInfo: map<string, CachedHFile>

    /** Every entry is what the directory walk, or reading the file, would answer. */
    ghost predicate Sound(w: World)
      reads this
    {
      && (forall arg :: arg in includesResolve ==> SoundResolve(w, arg, includesResolve[arg]))
      && (forall name :: name in hFilesInfo ==> SoundInfo(w, name, hFilesInfo[name]))
    }

    constructor ()
      ensures includesResolve == map[] && hFilesInfo == map[]
    {
      includesResolve, hFilesInfo := map[], map[];
    }

    method GetIncludeResolve(quotedArg: string) returns (hFileName: Option<string>)
      requires quotedArg != ""
      ensures hFileName == if Rooted(quotedArg) then Some(quotedArg)
                           else if quotedArg in includesResolve then Some(includesResolve[quotedArg]) else None
    {
      if quotedArg[0] == '/' {
        return Some(quotedArg);
      }
      hFileName := if quotedArg in includesResolve then Some(includesResolve[quotedArg]) else None;
    }

    method AddIncludeResolve(quotedArg: string, hFileName: string, ghost w: World)
      requires Sound(w) && SoundResolve(w, quotedArg, hFileName)
      modifies this`includesResolve
      ensures includesResolve == old(includesResolve)[quotedArg := hFileName] && Sound(w)
    {
      includesResolve := includesResolve[quotedArg := hFileName];
    }

    method GetHFileInfo(hFileName: string) returns (info: Option<CachedHFile>)
      ensures info == if hFileName in hFilesInfo then Some(hFilesInfo[hFileName]) else None
    {
      info := if hFileName in hFilesInfo then Some(hFilesInfo[hFileName]) else None;
    }

    method AddHFileInfo(hFileName: string, info: CachedHFile, ghost w: World)
      requires Sound(w) && SoundInfo(w, hFileName, info)
      modifies this`hFilesInfo
      ensures hFilesInfo == old(hFilesInfo)[hFileName := info] && Sound(w)
    {
      hFilesInfo := hFilesInfo[hFileName := info];
    }
  }

  ghost predicate SoundResolve(w: World, arg: string, answer: string) {
    var r := Resolve(w, "/", AngleArg(arg));
    arg != "" && !Rooted(arg) && answer == if r.Some? then r.value else NO
  }

  /** What is known of a file; or, of the name of a precompiled header's file, that there is none. */
  ghost predicate SoundInfo(w: World, name: string, info: CachedHFile) {
    if name in w.fs then info == CachedHFile(|w.fs[name]|, w.sha(w.fs[name]), Children(w, name))
    else IsPchName(name) && info == NO_FILE
  }

  const PCH_SUFFIX := ".nocc-pch"

  const NO_FILE := CachedHFile(-1, SHA256(0, 0, 0, 0), [])

  predicate IsPchName(name: string) { |name| >= |PCH_SUFFIX| && name[|name| - |PCH_SUFFIX|..] == PCH_SUFFIX }

  /** No precompiled header stands in for a header. */
  ghost predicate NoPchFiles(w: World) { forall f :: f in w.fs ==> !IsPchName(f) }

  /** The program does not fail on this directive, and does not take it for a precompiled header's. */
  predicate Fine(w: World, currentFileName: string, arg: IncludedArg) {
    && ArgInRange(w, currentFileName, arg)
    && forall p :: p in AllPaths(w, currentFileName, arg) ==> !IsPchName(p)
  }

  /** An <arg> means the same wherever it is included from, so the cache may be keyed by it alone. */
  lemma AngleIgnoresIncluder(w: World, arg: string, from: string, from': string)
    ensures Resolve(w, from, AngleArg(arg)) == Resolve(w, from', AngleArg(arg))
  {
  }

  /** shouldCacheHFile: only files of -isystem dirs (outside -I dirs) and kphp classes are cached. */
  predicate ShouldCache(w: World, hFileName: string) {
    && !(exists d | d in w.dirs.dirsI :: d <= hFileName)
    && ((exists d | d in w.dirs.dirsIsystem :: d <= hFileName)
        || Text.Contains(hFileName, "/kphp/cl/") || Text.Contains(hFileName, "/kphp/cl_l/"))
  }

  /** What is remembered of a file over runs: nothing that a -I directory could change, and of the rest only what lies
      in an -isystem directory or has one of the two names somewhere in its path. */
  lemma CachedExactlyWhen(w: World, hFileName: string)
    ensures ShouldCache(w, hFileName) <==>
              && (forall d :: d in w.dirs.dirsI ==> !(d <= hFileName))
              && ((exists d :: d in w.dirs.dirsIsystem && d <= hFileName)
                  || (exists a: string, b: string :: hFileName == a + "/kphp/cl/" + b)
                  || (exists a: string, b: string :: hFileName == a + "/kphp/cl_l/" + b))
  {
    Text.ContainsExactly(hFileName, "/kphp/cl/");
    Text.ContainsExactly(hFileName, "/kphp/cl_l/");
  }

  // ---------------------------------------------------------------- what a run may touch without failing

  const PREALLOCATED := 32 * 1024

  /** Capacity left behind a file read into the shared buffer; a bigger file gets a buffer of its own. */
  function SpareAfter(fileSize: nat): nat { if fileSize > PREALLOCATED then 0 else PREALLOCATED - fileSize }

  /** The scanner returns on this file, whatever earlier files left in the buffer. */
  ghost predicate Scannable(contents: string) {
    forall spare: string :: |spare| == SpareAfter(|contents|) ==>
      !SliceBoundsFail(contents, spare) && !StopsInHashComment(contents, spare)
  }

  /** Files in the program's own buffer on which it does not return: a last line "// #x" without a newline (it
      loops), just "#endif", and 32 KiB or more that end with a '#' (it fails). */
  lemma UnscannableFiles(front: string)
    ensures !Scannable("// #x") && !Scannable("#endif")
    ensures |front| + 1 >= PREALLOCATED ==> !Scannable(front + "#")
  {
    var looping, failing := seq(SpareAfter(5), _ => 'x'), seq(SpareAfter(6), _ => 'x');
    TroublesomeFiles(front, looping);
    TroublesomeFiles(front, failing);
    TroublesomeFiles(front, "");
    assert |looping| == SpareAfter(|"// #x"|) && |failing| == SpareAfter(|"#endif"|) && |""| == 0;
  }

  ghost predicate AllFine(w: World, name: string, args: seq<IncludedArg>) {
    forall arg :: arg in args ==> Fine(w, name, arg)
  }

  ghost predicate Readable(w: World, name: string)
    requires name in w.fs
  {
    Scannable(w.fs[name]) && AllFine(w, name, IncludesOf(w.fs[name]))
  }

  /** A set of readable files that includes nothing outside of it. */
  ghost predicate Closed(w: World, area: set<string>) {
    && RootedDirs(w) && NoPchFiles(w)
    && forall f :: f in area ==>
         f in w.fs && Rooted(f) && Readable(w, f) && forall c :: c in Children(w, f) ==> c in area
  }

  lemma {:induction false} ResolveAllHas(w: World, from: string, args: seq<IncludedArg>, i: nat)
    requires i < |args|
    ensures Resolve(w, from, args[i]).Some? ==> Resolve(w, from, args[i]).value in ResolveAll(w, from, args)
  {
    if i < |args| - 1 {
      ResolveAllHas(w, from, args[..|args| - 1], i);
    }
  }

  function OptSeq<T>(o: Option<T>): seq<T> { if o.Some? then [o.value] else [] }

  lemma ResolveAllStep(w: World, from: string, args: seq<IncludedArg>, i: nat)
    requires i < |args|
    ensures ResolveAll(w, from, args[..i + 1]) == ResolveAll(w, from, args[..i]) + OptSeq(Resolve(w, from, args[i]))
  {
    assert args[..i + 1][..i] == args[..i];
  }

  /** What is still to be tried of `paths`; `walking`: #include_next is still looking for the current directory. */
  function StillTried(currentFileName: string, name: string, paths: seq<string>, walking: bool): seq<string> {
    if walking then AfterCurrentDir(currentFileName, name, paths) else paths
  }

  /** The answer is among `paths`, unless it is found nowhere. */
  ghost predicate Remaining(w: World, currentFileName: string, arg: IncludedArg, paths: seq<string>, walking: bool) {
    && Resolve(w, currentFileName, arg)
       == FirstExisting(w.fs, StillTried(currentFileName, arg.insideStr, paths, walking))
    && (walking ==> arg.isIncludeNext && CutsInRange(currentFileName, arg.insideStr, paths))
  }

  lemma DfsNewFile(w: World, seen: seq<string>, name: string)
    requires name in w.fs && name !in seen
    ensures Dfs(w, seen, [name]) == Dfs(w, seen + [name], Children(w, name))
  {
    assert [name][1..] == [] && Children(w, name) + [] == Children(w, name);
  }

  lemma DfsOneMore(w: World, seen: seq<string>, todo: seq<string>, i: nat)
    requires i < |todo| && forall f :: f in todo ==> f in w.fs
    ensures Dfs(w, seen, todo[..i + 1]) == Dfs(w, Dfs(w, seen, todo[..i]), [todo[i]])
  {
    assert todo[..i + 1] == todo[..i] + [todo[i]];
    DfsAppend(w, seen, todo[..i], [todo[i]]);
  }

  lemma Regroup<T>(a: seq<T>, b: seq<T>, c: seq<T>)
    ensures (a + b) + c == a + (b + c)
  {
  }

  lemma PeelPath(paths: seq<string>, rest: seq<string>, i: nat)
    requires i < |paths|
    ensures paths[i..] + rest == [paths[i]] + (paths[i + 1..] + rest)
  {
  }

  lemma NestedMeansItself(w: World, from: string, nested: string)
    requires Rooted(nested) && nested in w.fs
    ensures Resolve(w, from, AngleArg(nested)) == Some(nested)
    ensures !IsPchName(nested) ==> Fine(w, from, AngleArg(nested))
  {
    assert AllPaths(w, from, AngleArg(nested)) == [nested];
  }

  function Names(files: seq<IncludedFile>): (r: seq<string>)
    ensures |r| == |files| && forall i :: 0 <= i < |r| ==> r[i] == files[i].fileName
  {
    seq(|files|, i requires 0 <= i < |files| => files[i].fileName)
  }

  // ---------------------------------------------------------------- the parser

  class OwnIncludesParser {
    const w: World
    const includesCache: IncludesCache

    var preallocatedBuf: string
    var uniqSeen: map<string, Option<IncludedFile>>   // every path tried: None if there is no such file
    var hFiles: seq<IncludedFile>                     // in order of appearance

    constructor (w: World, includesCache: IncludesCache)
      ensures this.w == w && this.includesCache == includesCache && Valid() && Found() == []
    {
      this.w := w;
      this.includesCache := includesCache;
      preallocatedBuf := seq(PREALLOCATED, i => ' ');
      uniqSeen := map[];
      hFiles := [];
    }

    /** The names of hFiles: what has been found so far. */
    ghost function Found(): (r: seq<string>)
      reads this`hFiles
    {
      Names(hFiles)
    }

    ghost predicate Valid()
      reads this
    {
      && |preallocatedBuf| == PREALLOCATED
      && (forall f :: f in hFiles ==> f.fileName in w.fs && f == FileOf(w, f.fileName))
      && (forall p :: p in uniqSeen ==>
            if p in w.fs then uniqSeen[p] == Some(FileOf(w, p)) && p in Found() else uniqSeen[p] == None)
      && (forall p :: p in Found() ==> p in uniqSeen)
    }

    /** Existing files not found yet: the search gets nowhere else. */
    ghost function Left(): set<string>
      reads this`hFiles
    {
      w.fs.Keys - (set f | f in Found())
    }

    /** What every step of the search keeps, and how far it went: it looked at `todo`. */
    twostate predicate Searched(todo: seq<string>)
      requires forall f :: f in todo ==> f in w.fs
      reads this, includesCache
    {
      Valid() && includesCache.Sound(w) && Found() == Dfs(w, old(Found()), todo)
    }

    /** onHashInclude: looks for the file a directive means, and through that file if it is new. */
    method OnHashInclude(currentFileName: string, arg: IncludedArg, tryPch: bool, ghost area: set<string>)
      returns (hFile: Option<IncludedFile>)
      requires Valid() && includesCache.Sound(w) && Closed(w, area)
      requires Rooted(currentFileName) && Fine(w, currentFileName, arg)
      requires forall f :: f in OptSeq(Resolve(w, currentFileName, arg)) ==> f in area
      modifies this, includesCache
      ensures Searched(OptSeq(Resolve(w, currentFileName, arg)))
      ensures var r := Resolve(w, currentFileName, arg); hFile == if r.Some? then Some(FileOf(w, r.value)) else None
      decreases Left(), 4
    {
      hFile := ResolveIncludedArg(currentFileName, arg, tryPch, area);
    }

    /** The handler onHashInclude gives to resolveIncludedArg: whether a path exists; a file seen for
        the first time is recorded and searched, from the cache if it is known there. */
    method OnEachResolveAttempt(hFileName: string, tryPch: bool, ghost area: set<string>)
      returns (hFile: Option<IncludedFile>)
      requires Valid() && includesCache.Sound(w) && Closed(w, area) && (hFileName in w.fs ==> hFileName in area)
      requires !IsPchName(hFileName)
      modifies this, includesCache
      ensures Searched(if hFileName in w.fs then [hFileName] else [])
      ensures hFile == if hFileName in w.fs then Some(FileOf(w, hFileName)) else None
      decreases Left(), 1
    {
      if hFileName in uniqSeen {
        return uniqSeen[hFileName];
      }
      assert hFileName !in Found();
      if tryPch {
        var pchFile := LocateOwnPchFile(hFileName);
        if pchFile.Some? { return pchFile; }
      }

      var cachedItem: Option<CachedHFile> := None;
      var shouldCache := ShouldCache(w, hFileName);
      if shouldCache {
        cachedItem := includesCache.GetHFileInfo(hFileName);
      }
      var fileExists := cachedItem.Some? || hFileName in w.fs;
      if !fileExists {
        uniqSeen := uniqSeen[hFileName := None];
        return None;
      }

      var found := if cachedItem.Some?
                   then IncludedFile(hFileName, cachedItem.value.fileSize, cachedItem.value.fileSHA256)
                   else IncludedFile(hFileName, |w.fs[hFileName]|, w.sha(w.fs[hFileName]));
      hFile := Some(found);
      ghost var before := Found();
      Record(found);
      DfsNewFile(w, before, hFileName);
      if cachedItem.Some? {
        SearchNested(hFileName, cachedItem.value.nestedIncludes, area);
      } else {
        ProcessHFile(hFileName, shouldCache, area);
      }
    }

    /** LocateOwnPchFile, where there is no precompiled header: that is remembered, and then found in the cache. */
    method LocateOwnPchFile(hFileName: string) returns (pchFile: Option<IncludedFile>)
      requires includesCache.Sound(w) && NoPchFiles(w)
      modifies includesCache
      ensures includesCache.Sound(w) && pchFile.None?
    {
      var ownPchFile := hFileName + PCH_SUFFIX;
      var pchCached := includesCache.GetHFileInfo(ownPchFile);
      if pchCached.None? {
        includesCache.AddHFileInfo(ownPchFile, NO_FILE, w);
        pchCached := Some(NO_FILE);
      }
      assert pchCached.value.fileSize == -1;
      pchFile := None;
    }

    method Record(found: IncludedFile)
      requires Valid() && found.fileName in w.fs && found == FileOf(w, found.fileName) && found.fileName !in uniqSeen
      modifies this`uniqSeen, this`hFiles
      ensures Valid() && Found() == old(Found()) + [found.fileName] && Left() < old(Left())
    {
      Shrinks(w, Found(), found.fileName);
      uniqSeen := uniqSeen[found.fileName := Some(found)];
      hFiles := hFiles + [found];
      assert Found() == old(Found()) + [found.fileName];
    }

    /** A file known to the cache: its resolved directives are searched without reading it. */
    method SearchNested(hFileName: string, nested: seq<string>, ghost area: set<string>)
      requires Valid() && includesCache.Sound(w) && Closed(w, area)
      requires hFileName in area && nested == Children(w, hFileName)
      modifies this, includesCache
      ensures Searched(nested)
      decreases Left(), 8
    {
      for i := 0 to |nested|
        invariant Searched(nested[..i])
      {
        ghost var found := Found();
        assert nested[i] in area;
        NestedMeansItself(w, hFileName, nested[i]);
        var _ := OnHashInclude(hFileName, AngleArg(nested[i]), false, area);
        DfsOneMore(w, old(Found()), nested, i);
      }
      assert nested[..|nested|] == nested;
    }

    /** processHFile: reads a new file and searches what it includes; the resolved names may be cached. */
    method ProcessHFile(hFileName: string, shouldCache: bool, ghost area: set<string>)
      requires Valid() && includesCache.Sound(w) && Closed(w, area) && hFileName in area
      modifies this, includesCache
      ensures Searched(Children(w, hFileName))
      decreases Left(), 9
    {
      var contents := w.fs[hFileName];
      var spare := ReadIntoBuffer(contents);
      var includeStatements := CollectIncludeStatementsInFile(contents, spare);
      var nestedIncludes := SearchIncludes(hFileName, includeStatements, 0, 0, area);
      if shouldCache {
        includesCache.AddHFileInfo(hFileName, CachedHFile(|contents|, w.sha(contents), nestedIncludes), w);
      }
    }

    /** CalcSHA256OfFile's buffer: a small file overwrites the front of the shared one. */
    method ReadIntoBuffer(contents: string) returns (spare: string)
      requires Valid()
      modifies this`preallocatedBuf
      ensures Valid() && |spare| == SpareAfter(|contents|)
    {
      if |contents| > |preallocatedBuf| {
        spare := "";
      } else {
        preallocatedBuf := contents + preallocatedBuf[|contents|..];
        spare := preallocatedBuf[|contents|..];
      }
    }

    /** The loop over a file's directives; returns the names of the files they mean. For those from `from` to `to` a
        precompiled header is looked for first. */
    method SearchIncludes(fileName: string, args: seq<IncludedArg>, from: nat, to: nat, ghost area: set<string>)
      returns (nested: seq<string>)
      requires Valid() && includesCache.Sound(w) && Closed(w, area)
      requires Rooted(fileName) && AllFine(w, fileName, args)
      requires forall f :: f in ResolveAll(w, fileName, args) ==> f in area
      modifies this, includesCache
      ensures Searched(ResolveAll(w, fileName, args)) && nested == ResolveAll(w, fileName, args)
      decreases Left(), 8
    {
      hide Resolve, Children;
      nested := [];
      ghost var before := Found();
      for i := 0 to |args|
        invariant Valid() && includesCache.Sound(w)
        invariant nested == ResolveAll(w, fileName, args[..i]) && Found() == Dfs(w, before, nested)
      {
        ghost var r := OptSeq(Resolve(w, fileName, args[i]));
        ResolveAllHas(w, fileName, args, i);
        ResolveAllStep(w, fileName, args, i);
        var hNested := OnHashInclude(fileName, args[i], from <= i < to, area);
        DfsAppend(w, before, nested, r);
        if hNested.Some? {
          nested := nested + [hNested.value.fileName];
        }
      }
      assert args[..|args|] == args;
    }

    /** resolveIncludedArg: the cache for <arg>, else the walk over all directories. */
    method ResolveIncludedArg(currentFileName: string, arg: IncludedArg, tryPch: bool, ghost area: set<string>)
      returns (hFile: Option<IncludedFile>)
      requires Valid() && includesCache.Sound(w) && Closed(w, area)
      requires Rooted(currentFileName) && Fine(w, currentFileName, arg)
      requires forall f :: f in OptSeq(Resolve(w, currentFileName, arg)) ==> f in area
      modifies this, includesCache
      ensures Searched(OptSeq(Resolve(w, currentFileName, arg)))
      ensures var r := Resolve(w, currentFileName, arg); hFile == if r.Some? then Some(FileOf(w, r.value)) else None
      decreases Left(), 3
    {
      var isAngle := !arg.isQuote && !arg.isIncludeNext;
      ghost var r := Resolve(w, currentFileName, arg);
      if isAngle {
        AngleIgnoresIncluder(w, arg.insideStr, "/", currentFileName);
        ResolvedIsRooted(w, currentFileName, arg);
        var hFileName := includesCache.GetIncludeResolve(arg.insideStr);
        if hFileName.Some? {
          if hFileName.value != "NO" {
            hFile := OnEachResolveAttempt(hFileName.value, tryPch, area);
          } else {
            hFile := None;
          }
          return;
        }
      }

      hFile := WalkDirs(currentFileName, arg, tryPch, area);
      if isAngle && hFile.None? {
        // even for not found, that fact is kept
        includesCache.AddIncludeResolve(arg.insideStr, "NO", w);
      }
    }

    /** The rest of resolveIncludedArg: an absolute name, or the current directory and the -iquote, -I and
        -isystem directories in turn. */
    method WalkDirs(currentFileName: string, arg: IncludedArg, tryPch: bool, ghost area: set<string>)
      returns (hFile: Option<IncludedFile>)
      requires Valid() && includesCache.Sound(w) && Closed(w, area)
      requires Fine(w, currentFileName, arg)
      requires !arg.isQuote && !arg.isIncludeNext ==> !Rooted(arg.insideStr)
      requires forall f :: f in OptSeq(Resolve(w, currentFileName, arg)) ==> f in area
      modifies this, includesCache
      ensures Searched(OptSeq(Resolve(w, currentFileName, arg)))
      ensures var r := Resolve(w, currentFileName, arg); hFile == if r.Some? then Some(FileOf(w, r.value)) else None
      decreases Left(), 2, 3
    {
      var walking := arg.isIncludeNext;
      if arg.insideStr[0] == '/' {
        assert AllPaths(w, currentFileName, arg) == [arg.insideStr] + [];
        hFile, walking := TryPath(currentFileName, arg, tryPch, arg.insideStr, walking, [], area);
        return;
      }
      if arg.isQuote {
        hFile, walking := TryQuoteDirs(currentFileName, arg, tryPch, walking, AnglePaths(w, arg.insideStr), area);
        if hFile.Some? {
          return;
        }
      }
      hFile, walking := TryDirs(currentFileName, arg, tryPch, w.dirs.dirsI, walking,
                                JoinAll(w.dirs.dirsIsystem, arg.insideStr), area);
      if hFile.Some? {
        return;
      }
      assert JoinAll(w.dirs.dirsIsystem, arg.insideStr) == JoinAll(w.dirs.dirsIsystem, arg.insideStr) + [];
      hFile, walking := TryDirs(currentFileName, arg, tryPch, w.dirs.dirsIsystem, walking, [], area);
    }

    method TryQuoteDirs(currentFileName: string, arg: IncludedArg, tryPch: bool, walking0: bool,
                        ghost rest: seq<string>, ghost area: set<string>)
      returns (hFile: Option<IncludedFile>, walking: bool)
      requires Valid() && includesCache.Sound(w) && Closed(w, area) && arg.insideStr != "" && arg.isQuote
      requires Remaining(w, currentFileName, arg, QuotePaths(w, currentFileName, arg.insideStr) + rest, walking0)
      requires forall p :: p in QuotePaths(w, currentFileName, arg.insideStr) ==> !IsPchName(p)
      requires forall f :: f in OptSeq(Resolve(w, currentFileName, arg)) ==> f in area
      modifies this, includesCache
      ensures hFile.Some? ==> Resolve(w, currentFileName, arg).Some?
                              && hFile == Some(FileOf(w, Resolve(w, currentFileName, arg).value))
                              && Searched([hFile.value.fileName])
      ensures hFile.None? ==> Remaining(w, currentFileName, arg, rest, walking) && Searched([])
      decreases Left(), 2, 2
    {
      ghost var quote := JoinAll(w.dirs.dirsIquote, arg.insideStr) + rest;
      ghost var here := [Join(Dir(currentFileName), arg.insideStr)];
      Regroup(here, JoinAll(w.dirs.dirsIquote, arg.insideStr), rest);
      hFile, walking := TryPath(currentFileName, arg, tryPch, Join(Dir(currentFileName), arg.insideStr), walking0,
                                quote, area);
      if hFile.None? {
        hFile, walking := TryDirs(currentFileName, arg, tryPch, w.dirs.dirsIquote, walking, rest, area);
      }
    }

    /** eachFn on one path: #include_next only looks for the current directory at first; an <arg> found
        in a cacheable place is remembered. */
    method TryPath(currentFileName: string, arg: IncludedArg, tryPch: bool, hFileName: string, walking0: bool,
                   ghost rest: seq<string>, ghost area: set<string>)
      returns (hFile: Option<IncludedFile>, walking: bool)
      requires Valid() && includesCache.Sound(w) && Closed(w, area) && arg.insideStr != ""
      requires !arg.isQuote && !arg.isIncludeNext ==> !Rooted(arg.insideStr)
      requires Remaining(w, currentFileName, arg, [hFileName] + rest, walking0) && !IsPchName(hFileName)
      requires forall f :: f in OptSeq(Resolve(w, currentFileName, arg)) ==> f in area
      modifies this, includesCache
      ensures hFile.Some? ==> Resolve(w, currentFileName, arg) == Some(hFileName) && hFileName in w.fs
                              && hFile == Some(FileOf(w, hFileName)) && Searched([hFileName])
      ensures hFile.None? ==> Remaining(w, currentFileName, arg, rest, walking) && Searched([])
      decreases Left(), 2, 0
    {
      walking := walking0;
      assert ([hFileName] + rest)[1..] == rest;
      if walking {
        var includeDir := hFileName[0..|hFileName| - |arg.insideStr|];
        if includeDir <= currentFileName {
          walking := false;
        }
        return None, walking;
      }
      hFile := OnEachResolveAttempt(hFileName, tryPch, area);
      if hFile.Some? && !arg.isQuote && !arg.isIncludeNext && ShouldCache(w, hFileName) {
        AngleIgnoresIncluder(w, arg.insideStr, "/", currentFileName);
        includesCache.AddIncludeResolve(arg.insideStr, hFileName, w);
      }
    }

    /** One of the loops over a list of directories. */
    method TryDirs(currentFileName: string, arg: IncludedArg, tryPch: bool, dirs: seq<string>, walking0: bool,
                   ghost rest: seq<string>, ghost area: set<string>)
      returns (hFile: Option<IncludedFile>, walking: bool)
      requires Valid() && includesCache.Sound(w) && Closed(w, area) && arg.insideStr != ""
      requires !arg.isQuote && !arg.isIncludeNext ==> !Rooted(arg.insideStr)
      requires Remaining(w, currentFileName, arg, JoinAll(dirs, arg.insideStr) + rest, walking0)
      requires forall p :: p in JoinAll(dirs, arg.insideStr) ==> !IsPchName(p)
      requires forall f :: f in OptSeq(Resolve(w, currentFileName, arg)) ==> f in area
      modifies this, includesCache
      ensures hFile.Some? ==> Resolve(w, currentFileName, arg).Some?
                              && hFile == Some(FileOf(w, Resolve(w, currentFileName, arg).value))
                              && Searched([hFile.value.fileName])
      ensures hFile.None? ==> Remaining(w, currentFileName, arg, rest, walking) && Searched([])
      decreases Left(), 2, 1
    {
      hFile, walking := None, walking0;
      ghost var paths := JoinAll(dirs, arg.insideStr);
      for i := 0 to |dirs|
        invariant hFile.None? && Searched([])
        invariant Remaining(w, currentFileName, arg, paths[i..] + rest, walking)
      {
        PeelPath(paths, rest, i);
        hFile, walking := TryPath(currentFileName, arg, tryPch, Join(dirs[i], arg.insideStr),
                                  walking, paths[i + 1..] + rest, area);
        if hFile.Some? {
          return;
        }
      }
      assert paths[|dirs|..] + rest == rest;
    }

    /** processCppInFile: the implicit includes first, then the .cpp itself. A precompiled header is looked for in
        place of every -include file, and of the first file the .cpp includes. */
    method ProcessCppInFile(cppInFile: string, searchForPch: bool, ghost area: set<string>)
      returns (cppFile: Option<IncludedFile>)
      requires Valid() && includesCache.Sound(w) && Closed(w, area)
      requires Rooted(cppInFile) && AllFine(w, cppInFile, ImplicitArgs(w))
      requires cppInFile in w.fs ==> Readable(w, cppInFile)
      requires forall f :: f in StartOf(w, cppInFile) ==> f in area
      modifies this, includesCache
      ensures Searched(StartOf(w, cppInFile))
      ensures cppFile == if cppInFile in w.fs then Some(FileOf(w, cppInFile)) else None
    {
      ghost var implicit := ResolveAll(w, cppInFile, ImplicitArgs(w));
      var _ := SearchIncludes(cppInFile, ImplicitArgs(w), 1, if searchForPch then |ImplicitArgs(w)| else 0, area);
      if cppInFile !in w.fs {
        assert StartOf(w, cppInFile) == implicit;
        return None;
      }
      var contents := w.fs[cppInFile];
      var spare := ReadIntoBuffer(contents);
      var includes := CollectIncludeStatementsInFile(contents, spare);
      var _ := SearchIncludes(cppInFile, includes, 0, if searchForPch then 1 else 0, area);
      DfsAppend(w, old(Found()), implicit, Children(w, cppInFile));
      cppFile := Some(FileOf(w, cppInFile));
    }
  }

  // ---------------------------------------------------------------- a whole run

  /** Where the search from a .cpp starts; the .cpp may be missing, which is an error only later. */
  ghost function StartOf(w: World, cppInFile: string): (r: seq<string>)
    ensures forall f :: f in r ==> f in w.fs
  {
    ResolveAll(w, cppInFile, ImplicitArgs(w)) + (if cppInFile in w.fs then Children(w, cppInFile) else [])
  }

  /** A run for this .cpp comes to an end: nothing it reads makes the scanner or the resolver fail. */
  ghost predicate Runnable(w: World, cppInFile: string) {
    && RootedDirs(w) && NoPchFiles(w) && Rooted(cppInFile) && AllFine(w, cppInFile, ImplicitArgs(w))
    && (cppInFile in w.fs ==> Readable(w, cppInFile))
    && forall f :: f in Dfs(w, [], StartOf(w, cppInFile)) ==> f in w.fs && Readable(w, f)
  }

  lemma {:induction false} ResolvedAreRooted(w: World, from: string, args: seq<IncludedArg>)
    requires RootedDirs(w) && Rooted(from)
    ensures forall f :: f in ResolveAll(w, from, args) ==> Rooted(f)
  {
    if args != [] {
      ResolvedIsRooted(w, from, args[|args| - 1]);
      ResolvedAreRooted(w, from, args[..|args| - 1]);
    }
  }

  lemma {:induction false} DfsRooted(w: World, seen: seq<string>, todo: seq<string>)
    requires RootedDirs(w) && (forall f :: f in todo ==> f in w.fs)
    requires forall f :: f in seen || f in todo ==> Rooted(f)
    ensures forall f :: f in Dfs(w, seen, todo) ==> Rooted(f)
    decreases w.fs.Keys - (set f | f in seen), |todo|
  {
    if todo != [] {
      if todo[0] in seen {
        DfsRooted(w, seen, todo[1..]);
      } else {
        Shrinks(w, seen, todo[0]);
        ResolvedAreRooted(w, todo[0], IncludesOf(w.fs[todo[0]]));
        DfsRooted(w, seen + [todo[0]], Children(w, todo[0]) + todo[1..]);
      }
    }
  }

  lemma RunnableIsClosed(w: World, cppInFile: string) returns (area: set<string>)
    requires Runnable(w, cppInFile)
    ensures Closed(w, area) && forall f :: f in StartOf(w, cppInFile) ==> f in area
  {
    var found := Dfs(w, [], StartOf(w, cppInFile));
    area := set f | f in found;
    DfsIsClosed(w, [], StartOf(w, cppInFile));
    ResolvedAreRooted(w, cppInFile, ImplicitArgs(w));
    if cppInFile in w.fs {
      ResolvedAreRooted(w, cppInFile, IncludesOf(w.fs[cppInFile]));
    }
    DfsRooted(w, [], StartOf(w, cppInFile));
  }

  datatype Collected = Collected(hFiles: seq<IncludedFile>, cppFile: IncludedFile)
  datatype CollectError = CantReadCpp

  function FilesOf(w: World, names: seq<string>): (r: seq<IncludedFile>)
    requires forall f :: f in names ==> f in w.fs
    ensures |r| == |names| && forall i :: 0 <= i < |r| ==> r[i] == FileOf(w, names[i])
  {
    seq(|names|, i requires 0 <= i < |names| => FileOf(w, names[i]))
  }

  /** What a run is to return, said without any cache: the depth-first list of reached files. */
  ghost function Expected(w: World, cppInFile: string): Result<Collected, CollectError>
    requires Runnable(w, cppInFile)
  {
    if cppInFile in w.fs
    then Ok(Collected(FilesOf(w, Dfs(w, [], Roots(w, cppInFile))), FileOf(w, cppInFile)))
    else Err(CantReadCpp)
  }

  /** CollectDependentIncludesByOwnParser: with any sound cache, the answer is the cache-free one, and
      the cache stays sound. */
  method CollectDependentIncludesByOwnParser(w: World, includesCache: IncludesCache, cppInFile: string,
                                             searchForPch: bool)
    returns (r: Result<Collected, CollectError>)
    requires includesCache.Sound(w) && Runnable(w, cppInFile)
    modifies includesCache
    ensures includesCache.Sound(w) && r == Expected(w, cppInFile)
  {
    ghost var area := RunnableIsClosed(w, cppInFile);
    var inc := new OwnIncludesParser(w, includesCache);
    var cppFile := inc.ProcessCppInFile(cppInFile, searchForPch, area);
    if cppFile.None? {
      return Err(CantReadCpp);
    }
    assert StartOf(w, cppInFile) == Roots(w, cppInFile);
    assert inc.hFiles == FilesOf(w, inc.Found());
    r := Ok(Collected(inc.hFiles, cppFile.value));
  }

  ghost function ExpectedAnswers(w: World, cppInFiles: seq<string>): (r: seq<Result<Collected, CollectError>>)
    requires forall i :: 0 <= i < |cppInFiles| ==> Runnable(w, cppInFiles[i])
    ensures |r| == |cppInFiles| && forall i :: 0 <= i < |r| ==> r[i] == Expected(w, cppInFiles[i])
  {
    seq(|cppInFiles|, i requires 0 <= i < |cppInFiles| => Expected(w, cppInFiles[i]))
  }

  /** A daemon's life: any number of runs over one cache, starting from an empty one. Every run
      answers as if there were no cache at all. */
  method CollectForMany(w: World, cppInFiles: seq<string>, searchForPch: seq<bool>)
    returns (answers: seq<Result<Collected, CollectError>>)
    requires |searchForPch| == |cppInFiles|
    requires forall i :: 0 <= i < |cppInFiles| ==> Runnable(w, cppInFiles[i])
    ensures answers == ExpectedAnswers(w, cppInFiles)
  {
    var includesCache := new IncludesCache();
    answers := [];
    for i := 0 to |cppInFiles|
      invariant includesCache.Sound(w) && answers == ExpectedAnswers(w, cppInFiles)[..i]
    {
      var r := CollectDependentIncludesByOwnParser(w, includesCache, cppInFiles[i], searchForPch[i]);
      Extend(answers, r, ExpectedAnswers(w, cppInFiles), i);
      answers := answers + [r];
    }
  }

  lemma Extend<T>(a: seq<T>, x: T, b: seq<T>, i: nat)
    requires i < |b| && a == b[..i] && x == b[i]
    ensures a + [x] == b[..i + 1]
  {
  }

  lemma RunnableFound(w: World, cppInFile: string)
    requires Runnable(w, cppInFile) && cppInFile in w.fs
    ensures forall f :: f in Dfs(w, [], Roots(w, cppInFile)) ==> f in w.fs
  {
    hide Dfs;
    assert StartOf(w, cppInFile) == Roots(w, cppInFile);
  }

  /** The list returned for a .cpp names each file it reaches exactly once, and no other file, with the size and the
      hash of what is in it. */
  lemma ExpectedIsWhatIsReached(w: World, cppInFile: string)
    requires Runnable(w, cppInFile) && cppInFile in w.fs
    ensures var names := Names(Expected(w, cppInFile).value.hFiles);
            NoDuplicates(names) && forall f :: f in names <==> Reachable(w, Roots(w, cppInFile), f)
    ensures forall file :: file in Expected(w, cppInFile).value.hFiles + [Expected(w, cppInFile).value.cppFile] ==>
              && file.fileName in w.fs && file.fileSize == |w.fs[file.fileName]|
              && file.fileSHA256 == w.sha(w.fs[file.fileName])
    ensures Expected(w, cppInFile).value.cppFile.fileName == cppInFile
  {
    hide Roots, Dfs, Runnable, NoDuplicates, Reachable;
    var found := Dfs(w, [], Roots(w, cppInFile));
    DfsIsReachability(w, Roots(w, cppInFile));
    RunnableFound(w, cppInFile);
    assert Names(FilesOf(w, found)) == found;
  }

  /** The cache must not outlive a change of the -I lists: a remembered answer for <name> stays right when
      a directory is put in front of them exactly if that directory has no such file, or is the answer. */
  lemma NewFirstDirKeepsAnswer(w: World, dir: string, name: string, answer: string)
    requires SoundResolve(w, name, answer)
    ensures var w' := w.(dirs := w.dirs.(dirsI := [dir] + w.dirs.dirsI));
            SoundResolve(w', name, answer) <==> (Join(dir, name) !in w.fs || Join(dir, name) == answer)
  {
    var w' := w.(dirs := w.dirs.(dirsI := [dir] + w.dirs.dirsI));
    assert JoinAll(w'.dirs.dirsI, name) == [Join(dir, name)] + JoinAll(w.dirs.dirsI, name);
    Regroup([Join(dir, name)], JoinAll(w.dirs.dirsI, name), JoinAll(w.dirs.dirsIsystem, name));
    FirstOrRest(w.fs, Join(dir, name), AnglePaths(w, name));
  }

  lemma FirstOrRest(fs: map<string, string>, first: string, rest: seq<string>)
    ensures FirstExisting(fs, [first] + rest) == if first in fs then Some(first) else FirstExisting(fs, rest)
  {
    assert ([first] + rest)[1..] == rest;
  }
}
