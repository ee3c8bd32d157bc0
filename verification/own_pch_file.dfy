/** A .nocc-pch file as a whole (internal/common/own-pch-files.go): the lines that say how to compile the
    precompiled header, and the container with its dependencies. */
module OwnPchFile {
  import opened OwnPch
  import opened Paths
  import opened Sha256
  import opened Text
  import opened Wrappers

  /** OwnPch without the name of its file and without its dependencies. */
  datatype Pch = Pch(pchHash: SHA256, origHFile: string, origPchFile: string,
                     cxxName: string, cxxArgs: seq<string>, cxxIDirs: seq<string>)

  // ---------------------------------------------------------------- writing

  const HASH := "PCH_HASH="
  const HDR := "ORIG_HDR="
  const PCH := "ORIG_PCH="
  const NAME := "CXX_NAME="
  const ARGS := "CXX_ARGS="
  const DIRS := "CXX_DIRS="

  function Comment(words: seq<string>): string { "#" + (" " + Joined(' ', words)) }

  function Generated(): seq<string> {
    ["this", "is", "a", "nocc", "precompiled", "header", "generated", "from"]
  }

  function InsteadOf(): seq<string> {
    ["it", "was", "created", "instead", "of"]
  }

  function OnDemand(): seq<string> {
    ["an", "actual", "pch", "file", "will", "be", "compiled", "by", "remotes", "on", "demand",
     "with", "these", "parameters"]
  }

  function ListedBelow(): seq<string> {
    ["all", "dependencies", "are", "listed", "below,", "including", "system", "headers"]
  }

  function Regenerate(): seq<string> {
    ["make", "sure", "to", "manually", "regenerate", "this", "file", "whenever", "dependent",
     "files", "are", "changed"]
  }

  function InTotal(count: nat, size: int64): seq<string> {
    ["(in", "total", Digits(10, count), "dependencies,", Decimal(size), "bytes)"]
  }

  function WhenSent(pch: string): seq<string> {
    ["when", "this", "file", "is", "sent", "to", "a", "remote,", "it", "automatically", "compiles", pch]
  }

  function LinesToName(p: Pch): (lines: seq<string>)
    ensures |lines| == 9
  {
    [HASH + p.pchHash.ToLongHexString(), "",
     Comment(Generated()),
     HDR + p.origHFile,
     Comment(InsteadOf()),
     PCH + p.origPchFile, "",
     Comment(OnDemand()),
     NAME + p.cxxName]
  }

  function ArgsText(p: Pch): string { Joined(' ', p.cxxArgs) }

  function DirsText(p: Pch): string { Joined(' ', p.cxxIDirs) }

  /** The lines of text below, about `count` dependencies of `size` bytes; the last of them ends with a newline. */
  function LinesBelow(p: Pch, count: nat, size: int64): (lines: seq<string>)
    ensures |lines| == 7
  {
    ["",
     Comment(ListedBelow()),
     Comment(InTotal(count, size)),
     Comment(WhenSent(Base(p.origPchFile))),
     Comment(Regenerate()),
     "", ""]
  }

  /** The lines with any arguments, directories and lines behind. */
  function LinesWith(p: Pch, args: string, dirs: string, behind: seq<string>): (lines: seq<string>)
    ensures |lines| == 11 + |behind|
  {
    LinesToName(p) + ([ARGS + args] + ([DIRS + dirs] + behind))
  }

  function Lines(p: Pch, count: nat, size: int64): seq<string> {
    LinesWith(p, ArgsText(p), DirsText(p), LinesBelow(p, count, size))
  }

  function Header(p: Pch, count: nat, size: int64): string { Joined('\n', Lines(p, count, size)) }

  /** Addition of int64 wraps around. */
  function Wrapped(n: int): int64 {
    var m := n % 0x1_0000_0000_0000_0000;
    if m < 0x8000_0000_0000_0000 then m else m - 0x1_0000_0000_0000_0000
  }

  function TotalSize(deps: seq<Dep>): int64 {
    if deps == [] then 0 else Wrapped(TotalSize(deps[..|deps| - 1]) + deps[|deps| - 1].fileSize)
  }

  function PlainSum(deps: seq<Dep>): int {
    if deps == [] then 0 else PlainSum(deps[..|deps| - 1]) + deps[|deps| - 1].fileSize
  }

  lemma WrappedIs(n: int)
    ensures (Wrapped(n) - n) % 0x1_0000_0000_0000_0000 == 0
    ensures -0x8000_0000_0000_0000 <= n < 0x8000_0000_0000_0000 ==> Wrapped(n) == n
  {
  }

  /** The total is that of the sizes, as far as 64 bits hold it. */
  lemma {:induction false} TotalIsSum(deps: seq<Dep>)
    ensures (TotalSize(deps) - PlainSum(deps)) % 0x1_0000_0000_0000_0000 == 0
    ensures -0x8000_0000_0000_0000 <= PlainSum(deps) < 0x8000_0000_0000_0000 ==> TotalSize(deps) == PlainSum(deps)
  {
    if deps != [] {
      var before := deps[..|deps| - 1];
      TotalIsSum(before);
      WrappedIs(TotalSize(before) + deps[|deps| - 1].fileSize);
      SameRest(TotalSize(deps), TotalSize(before) + deps[|deps| - 1].fileSize, PlainSum(deps));
    }
  }

  lemma SameRest(a: int, b: int, c: int)
    requires (a - b) % 0x1_0000_0000_0000_0000 == 0 && (b - c) % 0x1_0000_0000_0000_0000 == 0
    ensures (a - c) % 0x1_0000_0000_0000_0000 == 0
    ensures -0x8000_0000_0000_0000 <= a < 0x8000_0000_0000_0000 && -0x8000_0000_0000_0000 <= c < 0x8000_0000_0000_0000
            ==> a == c
  {
  }

  /** SaveToOwnPchFile: the header, then every dependency as it is on disk now. */
  method SaveToOwnPchFile(p: Pch, deps: seq<Dep>, disk: map<string, string>) returns (r: Result<string, Error>)
    ensures r.Ok? <==> Readable(deps, disk)
    ensures r.Ok? ==> r.value == Header(p, |deps|, TotalSize(deps)) + Body(AllOnDisk(deps, disk))
  {
    hide Separator, Entry, Body, Header;
    var depsSize: int64 := 0;
    for i := 0 to |deps|
      invariant depsSize == TotalSize(deps[..i])
    {
      assert deps[..i + 1][..i] == deps[..i];
      depsSize := Wrapped(depsSize + deps[i].fileSize);
    }
    assert deps[..|deps|] == deps;
    var header := Header(p, |deps|, depsSize);
    var file := header;
    EmptyBody(header);
    for i := 0 to |deps|
      invariant Readable(deps[..i], disk) && file == header + Body(AllOnDisk(deps[..i], disk))
    {
      if deps[i].fileName !in disk { return Err(CannotRead); }
      Written(header, deps, disk, i);
      file := file + (Separator() + Entry(OnDisk(deps[i], disk)));
    }
    return Ok(file);
  }

  lemma EmptyBody(header: string)
    ensures header == header + Body([])
  {
  }

  // ---------------------------------------------------------------- parsing

  /** What the last line with this key says. */
  function Field(lines: seq<string>, key: string): Option<string> {
    if lines == [] then None
    else
      var last := lines[|lines| - 1];
      if key <= last then Some(last[|key|..]) else Field(lines[..|lines| - 1], key)
  }

  /** So the last line that begins with the key counts. */
  lemma {:induction false} FieldExactly(lines: seq<string>, key: string)
    ensures Field(lines, key).None? <==> forall i :: 0 <= i < |lines| ==> !(key <= lines[i])
    ensures forall i :: 0 <= i < |lines| && key <= lines[i] && (forall j :: i < j < |lines| ==> !(key <= lines[j])) ==>
              Field(lines, key) == Some(lines[i][|key|..])
  {
    if lines != [] {
      var n, before := |lines| - 1, lines[..|lines| - 1];
      FieldExactly(before, key);
      assert forall j :: 0 <= j < n ==> before[j] == lines[j];
      forall i | 0 <= i < n && key <= lines[i] && (forall j :: i < j < |lines| ==> !(key <= lines[j]))
        ensures Field(lines, key) == Some(lines[i][|key|..])
      {
        assert !(key <= lines[n]) && before[i] == lines[i];
      }
    }
  }

  function OrEmpty(field: Option<string>): string { if field.None? then "" else field.value }

  function Words(field: Option<string>): seq<string> { if field.None? then [] else Split(' ', field.value) }

  const NO_HASH := SHA256(0, 0, 0, 0)

  function Parsed(lines: seq<string>): Pch {
    var hash := Field(lines, HASH);
    Pch(if hash.None? then NO_HASH else FromLongHexString(hash.value), OrEmpty(Field(lines, HDR)),
        OrEmpty(Field(lines, PCH)), OrEmpty(Field(lines, NAME)), Words(Field(lines, ARGS)), Words(Field(lines, DIRS)))
  }

  predicate Complete(p: Pch) {
    p.cxxName != "" && p.cxxArgs != [] && p.origPchFile != "" && !p.pchHash.IsEmpty()
  }

  function ParsedHead(head: string): Result<Pch, Error> {
    var p := Parsed(Split('\n', head));
    if Complete(p) then Ok(p) else Err(Corrupted)
  }

  /** Lines are refused exactly if the compiler's name or the .gch is missing or empty, no line has arguments, or no
      hash is said. */
  lemma RefusedExactly(head: string)
    ensures var lines := Split('\n', head);
            var hash := Field(lines, "PCH_HASH=");
            ParsedHead(head).Err? <==>
              || Field(lines, "CXX_NAME=") in [None, Some("")] || Field(lines, "ORIG_PCH=") in [None, Some("")]
              || Field(lines, "CXX_ARGS=").None?
              || hash.None? || FromLongHexString(hash.value) == SHA256(0, 0, 0, 0)
  {
    hide Split, Field, FromLongHexString;
  }

  const BUFFER := 0x8000

  /** A buffer of 32K that the file is read into; zeros stay behind a shorter file. */
  function Head(file: string): (h: string)
    ensures |h| == BUFFER
  {
    if |file| >= BUFFER then file[..BUFFER] else file + seq(BUFFER - |file|, i => '\0')
  }

  function ParsedFile(file: string): Result<Pch, Error> {
    var sepPos := Index(Head(file), Separator());
    if sepPos == -1 then Err(Corrupted) else ParsedHead(Head(file)[..sepPos])
  }

  lemma FieldStep(lines: seq<string>, i: nat, key: string)
    requires i < |lines|
    ensures Field(lines[..i + 1], key) == if key <= lines[i] then Some(lines[i][|key|..]) else Field(lines[..i], key)
  {
    assert lines[..i + 1][..i] == lines[..i];
  }

  method ParseOwnPchFile(disk: map<string, string>, ownPchFile: string) returns (r: Result<Pch, Error>)
    ensures r == if ownPchFile in disk then ParsedFile(disk[ownPchFile]) else Err(CannotRead)
  {
    hide Field, Split, Index, Separator, Head, FromLongHexString;
    if ownPchFile !in disk { return Err(CannotRead); }
    var headContents := Head(disk[ownPchFile]);
    var sepPos := Index(headContents, Separator());
    if sepPos == -1 { return Err(Corrupted); }
    var headLines := Split('\n', headContents[..sepPos]);
    var ownPch := Pch(NO_HASH, "", "", "", [], []);
    NoLines(headLines);
    for i := 0 to |headLines|
      invariant ownPch == Parsed(headLines[..i])
    {
      var line := headLines[i];
      FieldStep(headLines, i, HASH);
      FieldStep(headLines, i, HDR);
      FieldStep(headLines, i, PCH);
      FieldStep(headLines, i, NAME);
      FieldStep(headLines, i, ARGS);
      FieldStep(headLines, i, DIRS);
      if HASH <= line { ownPch := ownPch.(pchHash := FromLongHexString(line[9..])); }
      if HDR <= line { ownPch := ownPch.(origHFile := line[9..]); }
      if PCH <= line { ownPch := ownPch.(origPchFile := line[9..]); }
      if NAME <= line { ownPch := ownPch.(cxxName := line[9..]); }
      if ARGS <= line { ownPch := ownPch.(cxxArgs := Split(' ', line[9..])); }
      if DIRS <= line { ownPch := ownPch.(cxxIDirs := Split(' ', line[9..])); }
    }
    assert headLines[..|headLines|] == headLines;
    return if Complete(ownPch) then Ok(ownPch) else Err(Corrupted);
  }

  lemma NoLines(lines: seq<string>)
    ensures Parsed(lines[..0]) == Pch(NO_HASH, "", "", "", [], [])
  {
    assert lines[..0] == [];
  }

  // ---------------------------------------------------------------- the lines come back

  /** What fits into the lines: the newline ends a line, the space a word. */
  predicate Clean(p: Pch) {
    && NoneHas('\n', [p.origHFile, p.origPchFile, p.cxxName])
    && NoneHas('\n', p.cxxArgs) && NoneHas(' ', p.cxxArgs)
    && NoneHas('\n', p.cxxIDirs) && NoneHas(' ', p.cxxIDirs)
  }

  predicate Restorable(p: Pch) { Complete(p) && Clean(p) && p.cxxIDirs != [] }

  predicate HasKey(line: string, key: string) { key <= line }

  /** Where the keys differ. */
  function Mark(line: string): (char, char, char) {
    if |line| < 9 then ('#', '#', '#') else (line[0], line[4], line[5])
  }

  lemma KeyMark(line: string, key: string)
    requires |key| == 9 && HasKey(line, key)
    ensures Mark(line) == Mark(key)
  {
    assert line[0] == key[0] && line[4] == key[4] && line[5] == key[5];
  }

  lemma Marks()
    ensures Mark(HASH) == ('P', 'H', 'A') && Mark(HDR) == ('O', '_', 'H') && Mark(PCH) == ('O', '_', 'P')
    ensures Mark(NAME) == ('C', 'N', 'A') && Mark(ARGS) == ('C', 'A', 'R') && Mark(DIRS) == ('C', 'D', 'I')
  {
  }

  lemma FieldAbsent(lines: seq<string>, key: string)
    requires forall j :: 0 <= j < |lines| ==> !HasKey(lines[j], key)
    ensures Field(lines, key) == None
  {
    if lines != [] { assert !HasKey(lines[|lines| - 1], key); FieldAbsent(lines[..|lines| - 1], key); }
  }

  lemma {:induction false} FieldIs(lines: seq<string>, key: string, k: nat)
    requires k < |lines| && HasKey(lines[k], key)
    requires forall j :: k < j < |lines| ==> !HasKey(lines[j], key)
    ensures Field(lines, key) == Some(lines[k][|key|..])
  {
    var last := |lines| - 1;
    if k < last {
      assert !HasKey(lines[last], key);
      FieldIs(lines[..last], key, k);
    }
  }

  lemma {:induction false} FieldFrom(lines: seq<string>, key: string) returns (k: nat)
    requires Field(lines, key).Some?
    ensures k < |lines| && HasKey(lines[k], key) && Field(lines, key) == Some(lines[k][|key|..])
  {
    var last := |lines| - 1;
    if key <= lines[last] { k := last; } else { k := FieldFrom(lines[..last], key); }
  }

  lemma KeyedLine(key: string, value: string)
    ensures HasKey(key + value, key) && (key + value)[|key|..] == value
    ensures |key| == 9 ==> Mark(key + value) == Mark(key)
  {
  }

  lemma NoMark()
    ensures Mark("").0 == '#'
  {
  }

  lemma CommentMarks()
    ensures forall words :: Mark(Comment(words)).0 == '#'
  {
  }

  lemma KeyedAt(p: Pch)
    ensures var ls := LinesToName(p);
            && ls[0] == HASH + p.pchHash.ToLongHexString() && ls[3] == HDR + p.origHFile
            && ls[5] == PCH + p.origPchFile && ls[8] == NAME + p.cxxName
  {
    hide Comment, Generated, InsteadOf, OnDemand;
  }

  lemma MarksToName(p: Pch)
    ensures var ls := LinesToName(p);
            && Mark(ls[0]) == Mark(HASH) && Mark(ls[3]) == Mark(HDR) && Mark(ls[5]) == Mark(PCH)
            && Mark(ls[8]) == Mark(NAME)
            && Mark(ls[1]).0 == Mark(ls[2]).0 == Mark(ls[4]).0 == Mark(ls[6]).0 == Mark(ls[7]).0 == '#'
  {
    hide Comment, Mark, Generated, InsteadOf, OnDemand;
    NoMark();
    CommentMarks();
    KeyedAt(p);
    KeyedLine(HASH, p.pchHash.ToLongHexString());
    KeyedLine(HDR, p.origHFile);
    KeyedLine(PCH, p.origPchFile);
    KeyedLine(NAME, p.cxxName);
  }

  lemma MarksBelow(p: Pch, count: nat, size: int64)
    ensures forall j :: 0 <= j < |LinesBelow(p, count, size)| ==> Mark(LinesBelow(p, count, size)[j]).0 == '#'
  {
    hide Base, Comment, Mark, ListedBelow, Regenerate, InTotal, WhenSent;
    NoMark();
    CommentMarks();
  }

  lemma FieldMarked(lines: seq<string>, key: string, k: nat)
    requires k < |lines| && |key| == 9 && HasKey(lines[k], key)
    requires forall j :: k < j < |lines| ==> Mark(lines[j]) != Mark(key)
    ensures Field(lines, key) == Some(lines[k][9..])
  {
    hide Mark, Field, HasKey;
    forall j | k < j < |lines| ensures !HasKey(lines[j], key) {
      if HasKey(lines[j], key) { KeyMark(lines[j], key); }
    }
    FieldIs(lines, key, k);
  }

  lemma LinesWithAt(p: Pch, args: string, dirs: string, behind: seq<string>, j: nat)
    requires j < |LinesWith(p, args, dirs, behind)|
    ensures LinesWith(p, args, dirs, behind)[j] ==
            if j < 9 then LinesToName(p)[j] else if j == 9 then ARGS + args
            else if j == 10 then DIRS + dirs else behind[j - 11]
  {
  }

  /** The key of each line, if it has one. */
  function KeyAt(j: nat): string {
    if j == 0 then HASH else if j == 3 then HDR else if j == 5 then PCH
    else if j == 8 then NAME else if j == 9 then ARGS else if j == 10 then DIRS else ""
  }

  lemma MarksWith(p: Pch, args: string, dirs: string, behind: seq<string>)
    requires forall j :: 0 <= j < |behind| ==> Mark(behind[j]).0 == '#'
    ensures var ls := LinesWith(p, args, dirs, behind);
            forall j :: 0 <= j < |ls| ==> if KeyAt(j) == "" then Mark(ls[j]).0 == '#' else Mark(ls[j]) == Mark(KeyAt(j))
  {
    hide Mark, LinesWith, LinesToName, HasKey;
    var ls := LinesWith(p, args, dirs, behind);
    Marks();
    MarksToName(p);
    KeyedLine(ARGS, args);
    KeyedLine(DIRS, dirs);
    forall j | 0 <= j < |ls|
      ensures if KeyAt(j) == "" then Mark(ls[j]).0 == '#' else Mark(ls[j]) == Mark(KeyAt(j))
    {
      LinesWithAt(p, args, dirs, behind, j);
    }
  }

  lemma FieldAt(p: Pch, args: string, dirs: string, behind: seq<string>, k: nat, key: string, value: string)
    requires forall j :: 0 <= j < |behind| ==> Mark(behind[j]).0 == '#'
    requires k < 11 && key == KeyAt(k) && |key| == 9 && LinesWith(p, args, dirs, behind)[k] == key + value
    ensures Field(LinesWith(p, args, dirs, behind), key) == Some(value)
  {
    hide Mark, LinesWith, LinesToName, HasKey, Field;
    Marks();
    KeyedLine(key, value);
    MarksWith(p, args, dirs, behind);
    FieldMarked(LinesWith(p, args, dirs, behind), key, k);
  }

  /** What each key says. */
  lemma FieldsWith(p: Pch, args: string, dirs: string, behind: seq<string>)
    requires forall j :: 0 <= j < |behind| ==> Mark(behind[j]).0 == '#'
    ensures var ls := LinesWith(p, args, dirs, behind);
            && Field(ls, HASH) == Some(p.pchHash.ToLongHexString()) && Field(ls, HDR) == Some(p.origHFile)
            && Field(ls, PCH) == Some(p.origPchFile) && Field(ls, NAME) == Some(p.cxxName)
            && Field(ls, ARGS) == Some(args) && Field(ls, DIRS) == Some(dirs)
  {
    hide Mark, Field, LinesWith, LinesToName;
    KeyedAt(p);
    LinesWithAt(p, args, dirs, behind, 0);
    LinesWithAt(p, args, dirs, behind, 3);
    LinesWithAt(p, args, dirs, behind, 5);
    LinesWithAt(p, args, dirs, behind, 8);
    LinesWithAt(p, args, dirs, behind, 9);
    LinesWithAt(p, args, dirs, behind, 10);
    FieldAt(p, args, dirs, behind, 0, HASH, p.pchHash.ToLongHexString());
    FieldAt(p, args, dirs, behind, 3, HDR, p.origHFile);
    FieldAt(p, args, dirs, behind, 5, PCH, p.origPchFile);
    FieldAt(p, args, dirs, behind, 8, NAME, p.cxxName);
    FieldAt(p, args, dirs, behind, 9, ARGS, args);
    FieldAt(p, args, dirs, behind, 10, DIRS, dirs);
  }

  /** The lines before the arguments, cut off anywhere, say no arguments. */
  lemma NoArgsYet(p: Pch, short: seq<string>)
    requires Shortened(short, LinesToName(p))
    ensures Field(short, ARGS) == None
  {
    hide Mark, LinesToName, Field;
    Marks();
    MarksToName(p);
    forall j | 0 <= j < |short| ensures !HasKey(short[j], ARGS) {
      if HasKey(short[j], ARGS) { KeyMark(LinesToName(p)[j], ARGS); }
    }
    FieldAbsent(short, ARGS);
  }

  // ---------------------------------------------------------------- what lines are made of

  lemma CommentKeeps(words: seq<string>, c: char)
    requires NoneHas(c, words) && c != ' ' && c != '#'
    ensures c !in Comment(words)
  {
    JoinedKeeps(' ', words, c);
  }

  predicate NotPrinted(c: char) { c in {'\n', '/', '\\'} }

  lemma NumbersKeep(n: nat, m: int64, h: SHA256, c: char)
    requires NotPrinted(c)
    ensures c !in Digits(10, n) && c !in Decimal(m) && c !in h.ToLongHexString()
  {
    hide Digits;
    HexHasNoSpace(h);
    assert !IsDigit(10, c) && !IsDigit(16, c);
  }

  lemma KeysKeep()
    ensures '\n' !in HASH && '\n' !in HDR && '\n' !in PCH && '\n' !in NAME && '\n' !in ARGS && '\n' !in DIRS
    ensures '#' !in ARGS && '#' !in DIRS
  {
  }

  lemma AboveKeeps()
    ensures NoneHas('\n', Generated()) && NoneHas('\n', InsteadOf()) && NoneHas('\n', OnDemand())
  {
  }

  lemma BelowKeeps(c: char)
    requires NotPrinted(c)
    ensures NoneHas(c, ListedBelow()) && NoneHas(c, Regenerate())
  {
  }

  lemma NumbersBelowKeep(count: nat, size: int64, pch: string, c: char)
    requires NotPrinted(c) && c !in pch
    ensures NoneHas(c, InTotal(count, size)) && NoneHas(c, WhenSent(pch))
  {
    hide Digits, Decimal;
    NumbersKeep(count, size, NO_HASH, c);
  }

  lemma LinesToNameClean(p: Pch)
    requires NoneHas('\n', [p.origHFile, p.origPchFile, p.cxxName])
    ensures NoneHas('\n', LinesToName(p))
  {
    hide Comment, Generated, InsteadOf, OnDemand;
    KeysKeep();
    NumbersKeep(0, 0, p.pchHash, '\n');
    AboveKeeps();
    CommentKeeps(Generated(), '\n');
    CommentKeeps(InsteadOf(), '\n');
    CommentKeeps(OnDemand(), '\n');
    assert forall q :: q in [p.origHFile, p.origPchFile, p.cxxName] ==> '\n' !in q;
  }

  lemma LinesBelowClean(p: Pch, count: nat, size: int64, c: char)
    requires NotPrinted(c) && c !in Base(p.origPchFile)
    ensures NoneHas(c, LinesBelow(p, count, size))
  {
    hide Comment, Base, ListedBelow, Regenerate, InTotal, WhenSent;
    BelowKeeps(c);
    NumbersBelowKeep(count, size, Base(p.origPchFile), c);
    CommentKeeps(ListedBelow(), c);
    CommentKeeps(InTotal(count, size), c);
    CommentKeeps(WhenSent(Base(p.origPchFile)), c);
    CommentKeeps(Regenerate(), c);
  }

  lemma NoneHasWith(p: Pch, args: string, dirs: string, behind: seq<string>)
    requires NoneHas('\n', LinesToName(p)) && NoneHas('\n', behind) && '\n' !in args && '\n' !in dirs
    ensures NoneHas('\n', LinesWith(p, args, dirs, behind))
  {
    hide LinesToName, LinesWith;
    KeysKeep();
    var lines := LinesWith(p, args, dirs, behind);
    forall j | 0 <= j < |lines| ensures '\n' !in lines[j] { LinesWithAt(p, args, dirs, behind, j); }
  }

  lemma LinesAreClean(p: Pch, count: nat, size: int64)
    requires Clean(p)
    ensures NoneHas('\n', Lines(p, count, size))
    ensures NoneHas('\n', LinesToName(p)) && '\n' !in ArgsText(p) && '\n' !in DirsText(p)
  {
    hide LinesToName, LinesBelow, Joined, Base;
    LinesToNameClean(p);
    assert '\n' !in p.origPchFile by { assert [p.origHFile, p.origPchFile, p.cxxName][1] == p.origPchFile; }
    BaseHasNoSlash(p.origPchFile);
    LinesBelowClean(p, count, size, '\n');
    JoinedKeeps(' ', p.cxxArgs, '\n');
    JoinedKeeps(' ', p.cxxIDirs, '\n');
    NoneHasWith(p, ArgsText(p), DirsText(p), LinesBelow(p, count, size));
  }

  /** Whatever is read from lines fits into lines. */
  lemma ReadIsClean(head: string)
    ensures Clean(Parsed(Split('\n', head)))
  {
    hide Split, Joined, Field, FromLongHexString;
    JoinSplit('\n', head);
    var lines := Split('\n', head);
    FieldIsClean(lines, HDR);
    FieldIsClean(lines, PCH);
    FieldIsClean(lines, NAME);
    FieldIsClean(lines, ARGS);
    FieldIsClean(lines, DIRS);
    WordsAreClean(Field(lines, ARGS));
    WordsAreClean(Field(lines, DIRS));
  }

  lemma FieldIsClean(lines: seq<string>, key: string)
    requires NoneHas('\n', lines)
    ensures '\n' !in OrEmpty(Field(lines, key))
  {
    if Field(lines, key).Some? {
      var k := FieldFrom(lines, key);
      assert '\n' !in lines[k];
    }
  }

  lemma WordsAreClean(field: Option<string>)
    requires '\n' !in OrEmpty(field)
    ensures NoneHas('\n', Words(field)) && NoneHas(' ', Words(field))
  {
    hide Split, Joined;
    if field.Some? {
      JoinSplit(' ', field.value);
      SplitKeeps(' ', field.value, '\n');
    }
  }

  /** What the lines say: everything, except that a list without elements becomes one empty word. */
  lemma HeaderSays(p: Pch, count: nat, size: int64)
    requires Clean(p)
    ensures Parsed(Split('\n', Header(p, count, size)))
         == p.(cxxArgs := Split(' ', ArgsText(p)), cxxIDirs := Split(' ', DirsText(p)))
  {
    hide Split, Joined, Field, LinesWith, LinesBelow, Clean, FromLongHexString;
    LinesAreClean(p, count, size);
    SplitJoined('\n', Lines(p, count, size));
    MarksBelow(p, count, size);
    FieldsWith(p, ArgsText(p), DirsText(p), LinesBelow(p, count, size));
    HexRoundTrip(p.pchHash);
  }

  /** A header that is read to its end says what was written if and only if that can be written. */
  lemma HeaderExactly(p: Pch, count: nat, size: int64)
    ensures ParsedHead(Header(p, count, size)) == Ok(p) <==> Restorable(p)
  {
    hide Split, Joined, Parsed, Header;
    var head := Header(p, count, size);
    ReadIsClean(head);
    if Clean(p) {
      HeaderSays(p, count, size);
      SplitJoined(' ', p.cxxArgs);
      SplitJoined(' ', p.cxxIDirs);
    }
  }

  // ---------------------------------------------------------------- a header that is cut off

  function AboveArgs(p: Pch): string { Joined('\n', LinesToName(p)) }

  function AboveDirs(p: Pch): string { Joined('\n', LinesToName(p) + [ARGS + ArgsText(p)]) }

  function Below(p: Pch, count: nat, size: int64): string { Joined('\n', LinesBelow(p, count, size)) }

  lemma CutAboveArgs(p: Pch, i: nat)
    requires i <= |AboveArgs(p)| && NoneHas('\n', LinesToName(p))
    ensures ParsedHead(AboveArgs(p)[..i]).Err?
  {
    hide Split, Joined, Field, LinesToName, FromLongHexString;
    var text := AboveArgs(p);
    SplitJoined('\n', LinesToName(p));
    SplitPrefix('\n', text, i);
    NoArgsYet(p, Split('\n', text[..i]));
  }

  lemma CutInArgs(p: Pch, args: string)
    requires NoneHas('\n', LinesToName(p)) && '\n' !in args && args != ArgsText(p)
    ensures ParsedHead(AboveArgs(p) + (['\n'] + (ARGS + args))) != Ok(p)
  {
    hide Split, Joined, Field, LinesToName, FromLongHexString;
    KeysKeep();
    SplitBehind('\n', LinesToName(p), ARGS + args);
    SplitAppend('\n', ARGS + args, "");
    var lines := LinesToName(p) + [ARGS + args];
    KeyedLine(ARGS, args);
    FieldMarked(lines, ARGS, |LinesToName(p)|);
    JoinSplit(' ', args);
  }

  /** The directories come after the arguments. */
  lemma CutInDirs(p: Pch, dirs: string)
    requires NoneHas('\n', LinesToName(p)) && '\n' !in ArgsText(p) && '\n' !in dirs && dirs != DirsText(p)
    ensures ParsedHead(AboveDirs(p) + (['\n'] + (DIRS + dirs))) != Ok(p)
  {
    hide Split, Joined, Field, LinesToName, LinesWith, FromLongHexString, ArgsText;
    var before := LinesToName(p) + [ARGS + ArgsText(p)];
    KeysKeep();
    SplitBehind('\n', before, DIRS + dirs);
    SplitAppend('\n', DIRS + dirs, "");
    assert before + [DIRS + dirs] == LinesWith(p, ArgsText(p), dirs, []) by { NothingBehind(p, dirs); }
    FieldsWith(p, ArgsText(p), dirs, []);
    JoinSplit(' ', dirs);
  }

  lemma NothingBehind(p: Pch, dirs: string)
    ensures LinesToName(p) + [ARGS + ArgsText(p)] + [DIRS + dirs] == LinesWith(p, ArgsText(p), dirs, [])
  {
    hide LinesToName;
  }

  // ---------------------------------------------------------------- where a separator can be

  lemma SeparatorIs()
    ensures Separator()[0] == '#' && Separator()[11] == '\\' && Separator()[12] == '/'
    ensures '\n' !in Separator() && '\0' !in Separator()
  {
  }

  /** A separator stands within one line. */
  lemma AtChar(s: string, i: int, k: nat)
    requires At(s, i, Separator()) && k < 24
    ensures s[i + k] == Separator()[k]
  {
    hide Separator;
    assert s[i..i + 24][k] == s[i + k];
  }

  lemma NotOverNewline(s: string, i: int, nl: nat)
    requires At(s, i, Separator()) && nl < |s| && s[nl] == '\n'
    ensures i + 24 <= nl || nl < i
  {
    hide Separator;
    SeparatorIs();
    if i <= nl < i + 24 { AtChar(s, i, nl - i); }
  }

  /** A line in a text. */
  function Line(before: string, key: string, value: string, rest: string): string {
    before + (['\n'] + (key + (value + (['\n'] + rest))))
  }

  /** A separator that is not in front of the line is in its value, or behind it. */
  lemma InLine(before: string, key: string, value: string, rest: string, i: int)
    requires |key| == 9 && '#' !in key && At(Line(before, key, value, rest), i, Separator())
    ensures i + 24 <= |before|
         || (0 <= i - |before| - 10 <= |value| - 24)
         || i > |before| + 10 + |value|
  {
    hide Separator;
    var s := Line(before, key, value, rest);
    SeparatorIs();
    AtChar(s, i, 0);
    NotOverNewline(s, i, |before|);
    NotOverNewline(s, i, |before| + 10 + |value|);
    forall j | |before| < j < |before| + 10 ensures s[j] != '#' { assert s[j] == key[j - |before| - 1]; }
  }

  /** The text in front of it. */
  lemma LineCut(before: string, key: string, value: string, rest: string, i: nat)
    requires |key| == 9
    ensures i <= |before| ==> Line(before, key, value, rest)[..i] == before[..i]
    ensures |before| + 10 <= i <= |before| + 10 + |value| ==>
              Line(before, key, value, rest)[..i] == before + (['\n'] + (key + value[..i - |before| - 10]))
    ensures i > |before| + 10 + |value| && At(Line(before, key, value, rest), i, Separator()) ==>
              At(rest, i - |before| - |value| - 11, Separator())
  {
    hide Separator;
    var s := Line(before, key, value, rest);
    assert s[|before| + |value| + 11..] == rest;
    if At(s, i, Separator()) && i > |before| + 10 + |value| {
      assert s[i..i + 24] == rest[i - |before| - |value| - 11..i - |before| - |value| - 11 + 24];
    }
  }

  lemma HeaderLayout(p: Pch, count: nat, size: int64)
    ensures AboveDirs(p) == AboveArgs(p) + (['\n'] + (ARGS + ArgsText(p)))
    ensures Header(p, count, size) == Line(AboveDirs(p), DIRS, DirsText(p), Below(p, count, size))
    ensures Header(p, count, size)
         == Line(AboveArgs(p), ARGS, ArgsText(p), DIRS + DirsText(p) + (['\n'] + Below(p, count, size)))
  {
    hide LinesToName, LinesBelow, ArgsText, DirsText;
    var a, b, dirs, below := LinesToName(p), [ARGS + ArgsText(p)], [DIRS + DirsText(p)], LinesBelow(p, count, size);
    JoinedBehind('\n', a, b);
    assert Lines(p, count, size) == (a + b) + (dirs + below);
    JoinedBehind('\n', a + b, dirs + below);
    JoinedBehind('\n', dirs, below);
    var t := Below(p, count, size);
    assert DIRS + DirsText(p) + (['\n'] + t) == DIRS + (DirsText(p) + (['\n'] + t));
    var rest := DIRS + DirsText(p) + (['\n'] + t);
    assert AboveArgs(p) + (['\n'] + (ARGS + ArgsText(p))) + (['\n'] + rest)
        == AboveArgs(p) + (['\n'] + (ARGS + (ArgsText(p) + (['\n'] + rest))));
  }

  /** No separator below the directories. */
  lemma NoneBelow(p: Pch, count: nat, size: int64, i: int)
    ensures !At(Below(p, count, size), i, Separator())
  {
    hide Separator, LinesBelow, Joined, Base;
    var text := Below(p, count, size);
    BaseHasNoSlash(p.origPchFile);
    SeparatorIs();
    if At(text, i, Separator()) {
      AtChar(text, i, 11);
      AtChar(text, i, 12);
      var c := if '/' !in Base(p.origPchFile) then '/' else '\\';
      LinesBelowClean(p, count, size, c);
      JoinedKeeps('\n', LinesBelow(p, count, size), c);
    }
  }

  /** A header that contains a separator is cut off there, and then does not say what was written. */
  lemma CutSaysLess(p: Pch, count: nat, size: int64, i: nat)
    requires At(Header(p, count, size), i, Separator())
    ensures ParsedHead(Header(p, count, size)[..i]) != Ok(p)
  {
    ReadIsClean(Header(p, count, size)[..i]);
    if Clean(p) { CleanCutSaysLess(p, count, size, i); }
  }

  lemma CleanCutSaysLess(p: Pch, count: nat, size: int64, i: nat)
    requires At(Header(p, count, size), i, Separator()) && Clean(p)
    ensures ParsedHead(Header(p, count, size)[..i]) != Ok(p)
  {
    hide Separator, Header, AboveArgs, LinesToName, ArgsText, DirsText, Below, Line, ParsedHead, Joined, Lines;
    var args, dirs, below := ArgsText(p), DirsText(p), Below(p, count, size);
    var rest := DIRS + dirs + (['\n'] + below);
    LinesAreClean(p, count, size);
    KeysKeep();
    HeaderLayout(p, count, size);
    if i <= |AboveArgs(p)| {
      LineCut(AboveArgs(p), ARGS, args, rest, i);
      CutAboveArgs(p, i);
    } else if i <= |AboveDirs(p)| {
      InLine(AboveArgs(p), ARGS, args, rest, i);
      LineCut(AboveArgs(p), ARGS, args, rest, i);
      CutInArgs(p, args[..i - |AboveArgs(p)| - 10]);
    } else {
      InLine(AboveDirs(p), DIRS, dirs, below, i);
      LineCut(AboveDirs(p), DIRS, dirs, below, i);
      if i > |AboveDirs(p)| + 10 + |dirs| {
        NoneBelow(p, count, size, i - |AboveDirs(p)| - |dirs| - 11);
      } else {
        CutInDirs(p, dirs[..i - |AboveDirs(p)| - 10]);
      }
    }
  }

  // ---------------------------------------------------------------- the file comes back

  /** The program finds the container behind the whole header. */
  predicate ContainerFound(header: string, items: seq<Item>) {
    items != [] && Index(header, Separator()) == -1 && |header| + 24 <= BUFFER
  }

  lemma InBuffer(file: string, i: int)
    ensures At(Head(file), i, Separator()) <==> At(file, i, Separator()) && i + 24 <= BUFFER
  {
    hide Separator;
    SeparatorIs();
    var h := Head(file);
    if 0 <= i && i + 24 <= BUFFER {
      if i + 24 <= |file| {
        assert h[i..i + 24] == file[i..i + 24];
      } else {
        assert h[i..i + 24][23] == h[i + 23] == '\0';
      }
    }
  }

  lemma JoinedOne(part: string)
    ensures Joined('\n', [part]) == part
  {
  }

  lemma HeaderEnds(p: Pch, count: nat, size: int64)
    ensures var h := Header(p, count, size); h != "" && h[|h| - 1] == '\n'
  {
    hide LinesWith, Joined;
    var lines := Lines(p, count, size);
    LinesWithAt(p, ArgsText(p), DirsText(p), LinesBelow(p, count, size), 17);
    assert lines == lines[..17] + [""];
    JoinedBehind('\n', lines[..17], [""]);
    JoinedOne("");
  }

  /** A separator in the file is in the header, or behind it. */
  lemma InHeader(header: string, body: string, i: int)
    requires header != "" && header[|header| - 1] == '\n'
    ensures i < |header| ==> (At(header + body, i, Separator()) <==> At(header, i, Separator()))
  {
    hide Separator;
    var file := header + body;
    if i < |header| {
      if At(file, i, Separator()) { NotOverNewline(file, i, |header| - 1); }
      if 0 <= i && i + 24 <= |header| { assert file[i..i + 24] == header[i..i + 24]; }
    }
  }

  lemma BodyBehind(header: string, items: seq<Item>)
    ensures At(header + Body(items), |header|, Separator()) <==> items != []
  {
    hide Separator, Entry;
    var file := header + Body(items);
    if items != [] { assert file[|header|..|header| + 24] == Separator(); }
  }

  lemma HeadPrefix(header: string, body: string, i: nat)
    requires i <= |header| && i <= BUFFER
    ensures Head(header + body)[..i] == header[..i]
  {
  }

  /** Where the program takes the header to end: at a separator in it, or where the container begins. */
  lemma SeparatorFound(header: string, items: seq<Item>) returns (sepPos: int)
    requires header != "" && header[|header| - 1] == '\n'
    ensures sepPos == Index(Head(header + Body(items)), Separator())
    ensures ContainerFound(header, items) ==> sepPos == |header|
    ensures !ContainerFound(header, items) && sepPos != -1 ==> At(header, sepPos, Separator())
  {
    hide Separator, Head, Body, Index;
    var file := header + Body(items);
    var head, i := Head(file), Index(header, Separator());
    sepPos := Index(head, Separator());
    BodyBehind(header, items);
    InBuffer(file, sepPos);
    InHeader(header, Body(items), sepPos);
    if ContainerFound(header, items) {
      InBuffer(file, |header|);
      assert At(head, |header|, Separator());
      assert sepPos < |header| ==> !At(header, sepPos, Separator());
    } else if sepPos >= |header| && items != [] && i >= 0 {
      InBuffer(file, i);
      InHeader(header, Body(items), i);
    } else if items == [] {
      EmptyBody(header);
    }
  }

  /** ParseOwnPchFile gives back what SaveToOwnPchFile wrote if and only if the lines can hold the fields and the
      container is found. */
  lemma ParsesExactly(p: Pch, count: nat, size: int64, items: seq<Item>)
    ensures ParsedFile(Header(p, count, size) + Body(items)) == Ok(p)
        <==> Restorable(p) && ContainerFound(Header(p, count, size), items)
  {
    hide Separator, Header, Body, Index, Head, ParsedHead, Restorable, ContainerFound, At;
    var header := Header(p, count, size);
    HeaderEnds(p, count, size);
    var sepPos := SeparatorFound(header, items);
    if ContainerFound(header, items) {
      HeadWhole(header, items);
      HeaderExactly(p, count, size);
    } else if sepPos != -1 {
      CutIsPrefix(header, items, sepPos);
      CutSaysLess(p, count, size, sepPos);
    }
  }

  lemma HeadWhole(header: string, items: seq<Item>)
    requires ContainerFound(header, items)
    ensures Head(header + Body(items))[..|header|] == header
  {
    hide Body, Head, Index;
    HeadPrefix(header, Body(items), |header|);
    assert header[..|header|] == header;
  }

  lemma CutIsPrefix(header: string, items: seq<Item>, sepPos: int)
    requires sepPos == Index(Head(header + Body(items)), Separator()) && At(header, sepPos, Separator())
    ensures 0 <= sepPos <= |header| && Head(header + Body(items))[..sepPos] == header[..sepPos]
  {
    hide Body, Head, Index, Separator;
    HeadPrefix(header, Body(items), sepPos);
  }

  /** The file as a whole, dependencies included. */
  lemma FileComesBack(p: Pch, count: nat, size: int64, items: seq<Item>)
    ensures var file := Header(p, count, size) + Body(items);
            ParsedFile(file) == Ok(p) && Extracted(file) == Ok(items)
            <==> Restorable(p) && ContainerFound(Header(p, count, size), items) && Extractable(items)
  {
    hide Separator, Header, Body, Index, Head, ParsedFile, Extracted, Extractable, Restorable, At;
    var header := Header(p, count, size);
    ParsesExactly(p, count, size, items);
    HeaderEnds(p, count, size);
    if ContainerFound(header, items) {
      HeaderIsDelimited(header);
      RoundTrip(header, items);
    }
  }

  lemma HeaderIsDelimited(header: string)
    requires header != "" && header[|header| - 1] == '\n' && Index(header, Separator()) == -1
    ensures Delimited(header, false)
  {
    hide Separator;
    forall i | 0 <= i < |header| ensures !At(header + Separator(), i, Separator()) {
      InHeader(header, Separator(), i);
    }
    assert (header + Separator())[|header|..|header| + 24] == Separator();
    IndexIs(header + Separator(), Separator(), |header|);
  }
}
