/** Dependency files for make (internal/client/dep-files.go): the writer escapes names its own way, the parser
    reads what make's users write. */
module DepFiles {
  import opened Wrappers

  datatype Target = Target(name: string, deps: seq<string>)

  /** OutOfRange: the program stops with a slice bound out of range. */
  datatype Error = ColonExpected | OutOfRange

  // ---------------------------------------------------------------- writing

  predicate Special(c: char) { c == '\n' || c == ' ' || c == ':' }

  /** strings.ReplaceAll of one character by a backslash and itself. */
  function ReplaceAll(s: string, c: char): string {
    if s == [] then [] else (if s[0] == c then ['\\', c] else [s[0]]) + ReplaceAll(s[1..], c)
  }

  function EscapeMakefileSpaces(s: string): string {
    ReplaceAll(ReplaceAll(ReplaceAll(s, '\n'), ' '), ':')
  }

  /** The same in one go. */
  function Escape(s: string): string {
    if s == [] then [] else (if Special(s[0]) then ['\\', s[0]] else [s[0]]) + Escape(s[1..])
  }

  lemma ReplaceAllAppend(a: string, b: string, c: char)
    ensures ReplaceAll(a + b, c) == ReplaceAll(a, c) + ReplaceAll(b, c)
  {
    if a == [] {
      assert a + b == b;
    } else {
      assert (a + b)[1..] == a[1..] + b;
      ReplaceAllAppend(a[1..], b, c);
    }
  }

  lemma ReplaceOne(x: char, c: char)
    ensures ReplaceAll([x], c) == if x == c then ['\\', c] else [x]
    ensures c != '\\' ==> ReplaceAll(['\\', x], c) == ['\\'] + ReplaceAll([x], c)
  {
    assert ['\\', x][1..] == [x];
  }

  /** The three replacements do not get in each other's way. */
  lemma {:induction false} EscapedInOneGo(s: string)
    ensures EscapeMakefileSpaces(s) == Escape(s)
  {
    if s != [] {
      var x, rest := s[0], s[1..];
      EscapedInOneGo(rest);
      assert s == [x] + rest;
      ReplaceAllAppend([x], rest, '\n');
      ReplaceAllAppend(ReplaceAll([x], '\n'), ReplaceAll(rest, '\n'), ' ');
      ReplaceAllAppend(ReplaceAll(ReplaceAll([x], '\n'), ' '), ReplaceAll(ReplaceAll(rest, '\n'), ' '), ':');
      EscapedOne(x);
    }
  }

  lemma EscapedOne(x: char)
    ensures EscapeMakefileSpaces([x]) == if Special(x) then ['\\', x] else [x]
  {
    ReplaceOne(x, '\n');
    ReplaceOne(x, ' ');
    ReplaceOne(x, ':');
  }

  const NEXT_LINE := " \\\n  "

  function MoreDeps(deps: seq<string>): string {
    if deps == [] then [] else NEXT_LINE + Escape(deps[0]) + MoreDeps(deps[1..])
  }

  function TargetText(t: Target): string {
    t.name + ":" + (if t.deps == [] then [] else " " + Escape(t.deps[0]) + MoreDeps(t.deps[1..])) + "\n"
  }

  function Text(targets: seq<Target>): string {
    if targets == [] then []
    else Text(targets[..|targets| - 1]) + (if |targets| > 1 then "\n" else "") + TargetText(targets[|targets| - 1])
  }

  lemma MoreDepsMore(deps: seq<string>, dep: string)
    ensures MoreDeps(deps + [dep]) == MoreDeps(deps) + (NEXT_LINE + Escape(dep))
  {
    if deps == [] {
      assert [dep][1..] == [] && [] + [dep] == [dep];
    } else {
      assert (deps + [dep])[1..] == deps[1..] + [dep];
      MoreDepsMore(deps[1..], dep);
    }
  }

  /** The layout, literally: what one more dependency, and one more target, add to it. */
  lemma LayoutExactly(targets: seq<Target>, t: Target, deps: seq<string>, dep: string)
    ensures TargetText(Target(t.name, [])) == t.name + ":" + "\n"
    ensures TargetText(Target(t.name, [dep])) == t.name + ":" + " " + EscapeMakefileSpaces(dep) + "\n"
    ensures deps != [] ==>
              TargetText(Target(t.name, deps)) != []
              && TargetText(Target(t.name, deps + [dep]))
                 == TargetText(Target(t.name, deps))[..|TargetText(Target(t.name, deps))| - 1]
                    + " \\\n  " + EscapeMakefileSpaces(dep) + "\n"
    ensures Text([t]) == TargetText(t)
    ensures targets != [] ==> Text(targets + [t]) == Text(targets) + "\n" + TargetText(t)
  {
    hide TargetText;
    FewDeps(t.name, dep);
    if deps != [] { OneMoreDep(t.name, deps, dep); }
    assert [t][..0] == [] && [] + TargetText(t) == TargetText(t);
    assert (targets + [t])[..|targets|] == targets;
  }

  lemma FewDeps(name: string, dep: string)
    ensures TargetText(Target(name, [])) == name + ":" + "\n"
    ensures TargetText(Target(name, [dep])) == name + ":" + " " + EscapeMakefileSpaces(dep) + "\n"
  {
    hide Escape, EscapeMakefileSpaces;
    EscapedInOneGo(dep);
    NoMoreDeps();
    assert [dep][1..] == [];
  }

  lemma OneMoreDep(name: string, deps: seq<string>, dep: string)
    requires deps != []
    ensures var text := TargetText(Target(name, deps));
            && text != []
            && TargetText(Target(name, deps + [dep]))
               == text[..|text| - 1] + " \\\n  " + EscapeMakefileSpaces(dep) + "\n"
  {
    hide Escape, EscapeMakefileSpaces, MoreDeps;
    EscapedInOneGo(dep);
    var first, rest, more := Escape(deps[0]), MoreDeps(deps[1..]), NEXT_LINE + Escape(dep);
    assert (deps + [dep])[1..] == deps[1..] + [dep] && (deps + [dep])[0] == deps[0];
    MoreDepsMore(deps[1..], dep);
    var body := name + ":" + (" " + first + rest);
    assert TargetText(Target(name, deps)) == body + "\n" && (body + "\n")[..|body|] == body;
    assert name + ":" + (" " + first + (rest + more)) + "\n" == body + more + "\n";
    assert body + more + "\n" == body + NEXT_LINE + Escape(dep) + "\n";
  }

  lemma NoMoreDeps()
    ensures MoreDeps([]) == []
  {
  }

  method WriteTarget(t: Target) returns (b: string)
    ensures b == TargetText(t)
  {
    hide Escape, MoreDeps, EscapeMakefileSpaces;
    NoMoreDeps();
    b := t.name + ":";
    if |t.deps| > 0 {
      EscapedInOneGo(t.deps[0]);
      b := b + (" " + EscapeMakefileSpaces(t.deps[0]));
      assert t.deps[1..1] == [] && " " + Escape(t.deps[0]) + [] == " " + Escape(t.deps[0]);
      for i := 1 to |t.deps|
        invariant b == t.name + ":" + (" " + Escape(t.deps[0]) + MoreDeps(t.deps[1..i]))
      {
        assert t.deps[1..i + 1] == t.deps[1..i] + [t.deps[i]];
        MoreDepsMore(t.deps[1..i], t.deps[i]);
        EscapedInOneGo(t.deps[i]);
        var line := NEXT_LINE + EscapeMakefileSpaces(t.deps[i]);
        assert b + line == t.name + ":" + (" " + Escape(t.deps[0]) + (MoreDeps(t.deps[1..i]) + line));
        b := b + line;
      }
      assert t.deps[1..|t.deps|] == t.deps[1..];
    }
    b := b + "\n";
  }

  method WriteToBytes(targets: seq<Target>) returns (b: string)
    ensures b == Text(targets)
  {
    b := [];
    for i := 0 to |targets|
      invariant b == Text(targets[..i]) && (|b| > 0 <==> i > 0)
    {
      assert targets[..i + 1][..i] == targets[..i];
      if |b| > 0 { b := b + "\n"; }
      var text := WriteTarget(targets[i]);
      b := b + text;
    }
    assert targets[..|targets|] == targets;
  }

  // ---------------------------------------------------------------- parsing

  /** unicode.IsSpace of a byte. */
  predicate IsSpace(c: char) {
    c == ' ' || '\t' <= c <= '\r' || c as int == 0x85 || c as int == 0xA0
  }

  function SkipSpaces(s: string): (r: string)
    ensures |r| <= |s|
  {
    if s != [] && IsSpace(s[0]) then SkipSpaces(s[1..]) else s
  }

  /** "targetName:", read into `name` without its backslashes; and what follows. */
  function RawTarget(s: string, name: string): (r: Result<(string, string), Error>)
    ensures r.Ok? ==> |r.value.1| < |s| && name <= r.value.0
    ensures r.Ok? ==> forall k :: |name| <= k < |r.value.0| ==> r.value.0[k] != '\n'
    decreases |s|
  {
    if s == [] || s[0] == '\n' then Err(ColonExpected)
    else if s[0] == ':' then Ok((name, s[1..]))
    else if s[0] == '\\' then
      if |s| < 2 then Err(OutOfRange) else RawTarget(s[2..], if s[1] != '\n' then name + [s[1]] else name)
    else if s[0] == ' ' then
      RawTarget(s[1..], if name != [] && name[|name| - 1] == ' ' then name else name + " ")
    else RawTarget(s[1..], name + [s[0]])
  }

  /** A target's name, escaped again; and what follows its colon. */
  function ReadTarget(s: string): (r: Result<(string, string), Error>)
    ensures r.Ok? ==> |r.value.1| < |s|
  {
    match RawTarget(s, [])
    case Err(e) => Err(e)
    case Ok(p) => Ok((EscapeMakefileSpaces(p.0), p.1))
  }

  function SkipToItem(s: string): (r: string)
    ensures |r| <= |s|
    ensures r != [] ==> r[0] != ' ' && r[0] != '\\'
  {
    if s == [] then s
    else if s[0] == ' ' then SkipToItem(s[1..])
    else if s[0] == '\\' then (if |s| < 2 then [] else SkipToItem(s[2..]))
    else s
  }

  function ReadItem(s: string, item: string): (r: Result<(string, string), Error>)
    ensures r.Ok? ==> |r.value.1| <= |s| && item <= r.value.0
    decreases |s|
  {
    if s == [] || s[0] == ' ' || s[0] == '\n' then Ok((item, s))
    else if s[0] == '\\' then
      if |s| < 2 then Err(OutOfRange) else ReadItem(s[2..], item + [s[1]])
    else ReadItem(s[1..], item + [s[0]])
  }

  /** The next dependency, or "" where the list ends; and what follows. */
  function NextItem(s: string): (r: Result<(string, string), Error>)
    ensures r.Ok? ==> |r.value.1| <= |s| && (s != [] ==> |r.value.1| < |s|)
    ensures r.Ok? && r.value.0 != [] ==> s != []
  {
    var t := SkipToItem(s);
    if t == [] then Ok(([], []))
    else if t[0] == '\n' then Ok(([], t[1..]))
    else ReadItem(t, [])
  }

  function Items(s: string): (r: Result<(seq<string>, string), Error>)
    ensures r.Ok? ==> |r.value.1| <= |s|
    decreases |s|
  {
    match NextItem(s)
    case Err(e) => Err(e)
    case Ok(p) =>
      if p.0 == [] then Ok(([], p.1))
      else
        match Items(p.1)
        case Err(e) => Err(e)
        case Ok(q) => Ok(([p.0] + q.0, q.1))
  }

  /** What is left at an offset, which may be beyond the end. */
  function Left(c: string, offset: nat): string { if offset <= |c| then c[offset..] else [] }

  method ParseSkipSpaces(c: string, startOffset: nat) returns (offset: nat)
    ensures offset >= startOffset && Left(c, offset) == SkipSpaces(Left(c, startOffset))
  {
    offset := startOffset;
    while offset < |c| && IsSpace(c[offset])
      invariant offset >= startOffset && SkipSpaces(Left(c, startOffset)) == SkipSpaces(Left(c, offset))
    {
      offset := offset + 1;
    }
  }

  /** One turn of the loop over a target's name. */
  lemma TargetLeft(c: string, offset: nat, name: string)
    ensures offset >= |c| || c[offset] == '\n' ==> RawTarget(Left(c, offset), name) == Err(ColonExpected)
    ensures offset < |c| && c[offset] == ':' ==> RawTarget(Left(c, offset), name) == Ok((name, Left(c, offset + 1)))
    ensures offset < |c| && c[offset] == '\\' ==>
              RawTarget(Left(c, offset), name) ==
              if offset + 1 >= |c| then Err(OutOfRange)
              else RawTarget(Left(c, offset + 2), if c[offset + 1] != '\n' then name + [c[offset + 1]] else name)
    ensures offset < |c| && c[offset] == ' ' ==>
              RawTarget(Left(c, offset), name) ==
              RawTarget(Left(c, offset + 1), if name != [] && name[|name| - 1] == ' ' then name else name + " ")
    ensures offset < |c| && c[offset] !in {'\n', ':', '\\', ' '} ==>
              RawTarget(Left(c, offset), name) == RawTarget(Left(c, offset + 1), name + [c[offset]])
  {
    hide Left;
    if offset < |c| { LeftFront(c, offset); } else { NothingLeft(c, offset); }
  }

  lemma NothingLeft(c: string, offset: nat)
    requires offset >= |c|
    ensures Left(c, offset) == []
  {
  }

  lemma LeftFront(c: string, offset: nat)
    requires offset < |c|
    ensures var s := Left(c, offset);
            && s != [] && s[0] == c[offset] && s[1..] == Left(c, offset + 1)
            && (offset + 1 < |c| ==> |s| > 1 && s[1] == c[offset + 1] && s[2..] == Left(c, offset + 2))
            && (offset + 1 >= |c| ==> |s| == 1)
  {
  }

  method ParseTargetName(c: string, startOffset: nat) returns (r: Result<(string, nat), Error>)
    ensures r.Err? ==> ReadTarget(Left(c, startOffset)) == Err(r.error)
    ensures r.Ok? ==> r.value.1 > startOffset && r.value.1 <= |c|
                      && ReadTarget(Left(c, startOffset)) == Ok((r.value.0, Left(c, r.value.1)))
  {
    hide RawTarget, Left, IsSpace;
    var offset := startOffset;
    var targetName := "";
    while offset < |c|
      invariant offset >= startOffset
      invariant RawTarget(Left(c, startOffset), []) == RawTarget(Left(c, offset), targetName)
    {
      TargetLeft(c, offset, targetName);
      if c[offset] == ':' {
        return Ok((EscapeMakefileSpaces(targetName), offset + 1));
      } else if c[offset] == '\n' {
        break;
      } else if c[offset] == '\\' {
        if offset + 1 >= |c| { return Err(OutOfRange); }
        if c[offset + 1] != '\n' { targetName := targetName + [c[offset + 1]]; }
        offset := offset + 2;
      } else if c[offset] == ' ' {
        if targetName == [] || targetName[|targetName| - 1] != ' ' { targetName := targetName + " "; }
        offset := offset + 1;
      } else {
        targetName := targetName + [c[offset]];
        offset := offset + 1;
      }
    }
    TargetLeft(c, offset, targetName);
    return Err(ColonExpected);
  }

  /** The first loop of parseNextDepItem. */
  method SkipToDepItem(c: string, startOffset: nat) returns (offset: nat)
    ensures offset >= startOffset && Left(c, offset) == SkipToItem(Left(c, startOffset))
  {
    offset := startOffset;
    while offset < |c| && (c[offset] == ' ' || c[offset] == '\\')
      invariant offset >= startOffset && SkipToItem(Left(c, startOffset)) == SkipToItem(Left(c, offset))
    {
      if c[offset] == ' ' { offset := offset + 1; } else { offset := offset + 2; }
    }
  }

  /** One turn of the second loop. */
  lemma ReadLeft(c: string, offset: nat, item: string)
    ensures offset >= |c| || c[offset] == ' ' || c[offset] == '\n' ==>
              ReadItem(Left(c, offset), item) == Ok((item, Left(c, offset)))
    ensures offset < |c| && c[offset] == '\\' ==>
              ReadItem(Left(c, offset), item) == if offset + 1 >= |c| then Err(OutOfRange)
                                                 else ReadItem(Left(c, offset + 2), item + [c[offset + 1]])
    ensures offset < |c| && c[offset] != ' ' && c[offset] != '\n' && c[offset] != '\\' ==>
              ReadItem(Left(c, offset), item) == ReadItem(Left(c, offset + 1), item + [c[offset]])
  {
    if offset < |c| {
      var s := Left(c, offset);
      assert s[0] == c[offset] && s[1..] == Left(c, offset + 1);
      if offset + 1 < |c| { assert s[1] == c[offset + 1] && s[2..] == Left(c, offset + 2); }
    }
  }

  /** The second loop: a backslash stands for the character behind it. */
  method ReadDepItem(c: string, startOffset: nat) returns (r: Result<(string, nat), Error>)
    ensures r.Err? ==> ReadItem(Left(c, startOffset), []) == Err(r.error)
    ensures r.Ok? ==> ReadItem(Left(c, startOffset), []) == Ok((r.value.0, Left(c, r.value.1)))
  {
    hide ReadItem, Left;
    var offset := startOffset;
    var depItemName := "";
    ReadLeft(c, offset, depItemName);
    while offset < |c| && c[offset] != ' ' && c[offset] != '\n'
      invariant ReadItem(Left(c, startOffset), []) == ReadItem(Left(c, offset), depItemName)
    {
      ReadLeft(c, offset, depItemName);
      if c[offset] == '\\' {
        if offset + 1 >= |c| { return Err(OutOfRange); }
        depItemName := depItemName + [c[offset + 1]];
        offset := offset + 2;
      } else {
        depItemName := depItemName + [c[offset]];
        offset := offset + 1;
      }
    }
    ReadLeft(c, offset, depItemName);
    return Ok((depItemName, offset));
  }

  method ParseNextDepItem(c: string, startOffset: nat) returns (r: Result<(string, nat), Error>)
    ensures r.Err? ==> NextItem(Left(c, startOffset)) == Err(r.error)
    ensures r.Ok? ==> NextItem(Left(c, startOffset)) == Ok((r.value.0, Left(c, r.value.1)))
  {
    hide SkipToItem, ReadItem;
    var offset := SkipToDepItem(c, startOffset);
    if offset >= |c| { return Ok(("", offset)); }
    if c[offset] == '\n' { return Ok(("", offset + 1)); }
    r := ReadDepItem(c, offset);
  }

  function PrependItems(a: seq<string>, r: Result<(seq<string>, string), Error>): Result<(seq<string>, string), Error> {
    match r
    case Err(e) => Err(e)
    case Ok(p) => Ok((a + p.0, p.1))
  }

  lemma ItemsStep(a: seq<string>, s: string)
    ensures NextItem(s).Err? ==> PrependItems(a, Items(s)) == Err(NextItem(s).error)
    ensures NextItem(s).Ok? ==>
              var (item, rest) := NextItem(s).value;
              PrependItems(a, Items(s)) == if item == [] then Ok((a, rest)) else PrependItems(a + [item], Items(rest))
    ensures PrependItems([], Items(s)) == Items(s)
  {
    hide NextItem;
    if NextItem(s).Ok? {
      var (item, rest) := NextItem(s).value;
      assert a + [] == a;
      if item != [] && Items(rest).Ok? {
        assert a + ([item] + Items(rest).value.0) == a + [item] + Items(rest).value.0;
      }
    }
    if Items(s).Ok? { assert [] + Items(s).value.0 == Items(s).value.0; }
  }

  /** The dependencies of one target. */
  method ParseDepItems(c: string, startOffset: nat) returns (r: Result<(seq<string>, nat), Error>)
    ensures r.Err? ==> Items(Left(c, startOffset)) == Err(r.error)
    ensures r.Ok? ==> Items(Left(c, startOffset)) == Ok((r.value.0, Left(c, r.value.1)))
  {
    hide Items, NextItem, PrependItems, Left;
    var items: seq<string> := [];
    var offset := startOffset;
    ItemsStep([], Left(c, startOffset));
    while true
      invariant Items(Left(c, startOffset)) == PrependItems(items, Items(Left(c, offset)))
      decreases |Left(c, offset)|
    {
      ItemsStep(items, Left(c, offset));
      var next := ParseNextDepItem(c, offset);
      if next.Err? { return Err(next.error); }
      if |next.value.0| == 0 { return Ok((items, next.value.1)); }
      items, offset := items + [next.value.0], next.value.1;
    }
  }

  function Prepend(a: seq<Target>, r: Result<seq<Target>, Error>): Result<seq<Target>, Error> {
    match r
    case Err(e) => Err(e)
    case Ok(b) => Ok(a + b)
  }

  /** A target at the front of what is left. */
  function NextTarget(s: string): (r: Result<(Target, string), Error>)
    ensures r.Ok? ==> |r.value.1| < |s|
  {
    match ReadTarget(s)
    case Err(e) => Err(e)
    case Ok(p) =>
      match Items(p.1)
      case Err(e) => Err(e)
      case Ok(q) => Ok((Target(p.0, q.0), q.1))
  }

  function Parsed(s: string): Result<seq<Target>, Error>
    decreases |s|
  {
    var t := SkipSpaces(s);
    if t == [] then Ok([])
    else
      match NextTarget(t)
      case Err(e) => Err(e)
      case Ok(p) => Prepend([p.0], Parsed(p.1))
  }

  lemma ParsedStep(a: seq<Target>, s: string)
    ensures var t := SkipSpaces(s);
            Prepend(a, Parsed(s)) == if t == [] then Ok(a)
                                     else if NextTarget(t).Err? then Err(NextTarget(t).error)
                                     else Prepend(a + [NextTarget(t).value.0], Parsed(NextTarget(t).value.1))
    ensures Prepend([], Parsed(s)) == Parsed(s)
  {
    hide SkipSpaces, NextTarget;
    var t := SkipSpaces(s);
    assert a + [] == a;
    if t != [] && NextTarget(t).Ok? {
      var (target, rest) := NextTarget(t).value;
      if Parsed(rest).Ok? { assert a + ([target] + Parsed(rest).value) == a + [target] + Parsed(rest).value; }
    }
    if Parsed(s).Ok? { assert [] + Parsed(s).value == Parsed(s).value; }
  }

  method ParseDepFileContents(c: string) returns (r: Result<seq<Target>, Error>)
    ensures r == Parsed(c)
  {
    hide NextItem, ReadTarget, SkipSpaces, Items, Parsed, Prepend;
    var targets: seq<Target> := [];
    var offset: nat := 0;
    assert Left(c, 0) == c;
    ParsedStep([], c);
    while true
      invariant Parsed(c) == Prepend(targets, Parsed(Left(c, offset)))
      decreases |Left(c, offset)|
    {
      ParsedStep(targets, Left(c, offset));
      offset := ParseSkipSpaces(c, offset);
      if offset >= |c| { return Ok(targets); }
      var named := ParseTargetName(c, offset);
      if named.Err? { return Err(named.error); }
      var items := ParseDepItems(c, named.value.1);
      if items.Err? { return Err(items.error); }
      targets, offset := targets + [Target(named.value.0, items.value.0)], items.value.1;
    }
  }

  // ---------------------------------------------------------------- the round trip

  /** A backslash is not escaped by the writer; the parser gives it back only before a colon. */
  predicate Plain(s: string) {
    s == [] || ((s[0] == '\\' ==> |s| > 1 && s[1] == ':') && Plain(s[1..]))
  }

  predicate GoodDep(dep: string) { dep != [] && !Special(dep[0]) && dep[0] != '\\' && Plain(dep) }

  /** What can stand behind a dependency. */
  predicate Ends(tail: string) { tail == [] || tail[0] == ' ' || tail[0] == '\n' }

  lemma EscapeFront(s: string, tail: string)
    requires s != []
    ensures Special(s[0]) ==> Escape(s) + tail == ['\\', s[0]] + (Escape(s[1..]) + tail)
    ensures !Special(s[0]) ==> Escape(s) + tail == [s[0]] + (Escape(s[1..]) + tail)
  {
    Assoc(if Special(s[0]) then ['\\', s[0]] else [s[0]], Escape(s[1..]), tail);
  }

  lemma Assoc(a: string, b: string, c: string)
    ensures (a + b) + c == a + (b + c)
  {
  }

  lemma PairShift(c: char, more: string)
    ensures ['\\'] + (['\\', c] + more) == ['\\', '\\'] + ([c] + more)
    ensures ['\\'] + ([c] + more) == ['\\', c] + more
  {
  }

  /** One turn of the reading loop. */
  lemma ReadStep(c: char, s: string, item: string)
    ensures c != ' ' && c != '\n' && c != '\\' ==> ReadItem([c] + s, item) == ReadItem(s, item + [c])
    ensures ReadItem(['\\', c] + s, item) == ReadItem(s, item + [c])
  {
    assert ([c] + s)[1..] == s && (['\\', c] + s)[2..] == s;
  }

  lemma {:induction false} ReadsPlain(dep: string, tail: string, item: string)
    requires Plain(dep) && Ends(tail)
    ensures ReadItem(Escape(dep) + tail, item) == Ok((item + dep, tail))
    decreases |dep|
  {
    hide ReadItem, Escape;
    if dep == [] {
      EscapeNothing(tail, item);
    } else {
      EscapeFront(dep, tail);
      if dep[0] == '\\' {
        assert dep[1..][1..] == dep[2..] && dep[1..][0] == ':';
        EscapeFront(dep[1..], tail);
        var rest := Escape(dep[2..]) + tail;
        assert ['\\'] + (['\\', ':'] + rest) == ['\\', '\\'] + ([':'] + rest);
        ReadStep('\\', [':'] + rest, item);
        ReadStep(':', rest, item + ['\\']);
        ReadsPlain(dep[2..], tail, item + ['\\'] + [':']);
        assert item + ['\\'] + [':'] + dep[2..] == item + dep;
      } else {
        ReadStep(dep[0], Escape(dep[1..]) + tail, item);
        ReadsPlain(dep[1..], tail, item + [dep[0]]);
        assert item + [dep[0]] + dep[1..] == item + dep;
      }
    }
  }

  lemma EscapeNothing(tail: string, item: string)
    requires Ends(tail)
    ensures ReadItem(Escape([]) + tail, item) == Ok((item + [], tail))
  {
    assert Escape([]) + tail == tail && item + [] == item;
  }

  lemma SkipStep(c: char, s: string)
    ensures SkipToItem([' '] + s) == SkipToItem(s) && SkipToItem(['\\', c] + s) == SkipToItem(s)
    ensures c != ' ' && c != '\\' ==> SkipToItem([c] + s) == [c] + s
  {
    assert ([' '] + s)[1..] == s && (['\\', c] + s)[2..] == s;
  }

  /** How the items of a list begin. */
  predicate Begun(item: string) { item != [] && item[0] != ' ' && item[0] != '\n' && item[0] != '\\' }

  /** A dependency that begins like an item is read from its beginning, behind either separator. */
  lemma FindsItem(dep: string, tail: string)
    requires Begun(dep) && dep[0] != ':'
    ensures NextItem(" " + (Escape(dep) + tail)) == ReadItem(Escape(dep) + tail, [])
    ensures NextItem(NEXT_LINE + (Escape(dep) + tail)) == ReadItem(Escape(dep) + tail, [])
  {
    hide SkipToItem, ReadItem, Escape;
    var text := Escape(dep) + tail;
    EscapeFront(dep, tail);
    SkipStep(dep[0], Escape(dep[1..]) + tail);
    SkipStep('\n', text);
    SkipStep('\n', [' '] + text);
    assert NEXT_LINE + text == [' '] + (['\\', '\n'] + ([' '] + ([' '] + text)));
    SkipStep('\n', [' '] + ([' '] + text));
    SkipStep('\n', ['\\', '\n'] + ([' '] + ([' '] + text)));
  }

  // ---- and no other dependency is

  /** What is still to be given by a reader, after the next character of a name. */
  lemma Shift(item: string, between: string, s: string, j: nat)
    requires between != [] && j <= |s|
    ensures item + (between + s) == (item + [between[0]]) + ((between[1..] + s[..j]) + s[j..])
    ensures (item + (between + s))[|item|] == between[0]
    ensures |item + (between + s)| == |item| + |between| + |s|
  {
    assert s[..j] + s[j..] == s;
  }

  /** A backslash at the end of a name takes what is behind the name with it. */
  lemma LoneBackslash(tail: string, item: string)
    ensures var r := ReadItem(['\\'] + (Escape([]) + tail), item);
            r.Ok? ==> tail != [] && |r.value.0| > |item| && r.value.0[|item|] == tail[0]
  {
    NothingEscaped(tail);
    if tail != [] {
      assert ['\\'] + tail == ['\\', tail[0]] + tail[1..];
      ReadStep(tail[0], tail[1..], item);
      ReadKeeps(tail[1..], item, tail[0]);
    }
  }

  /** What becomes of a backslash in a name, by the character behind it. */
  lemma TwoChars(s: string, tail: string, item: string)
    requires |s| > 1 && s[0] == '\\'
    ensures var r, rest := ReadItem(Escape(s) + tail, item), Escape(s[2..]) + tail;
            r == if s[1] == ' ' || s[1] == '\n' then Ok((item + ['\\'], [s[1]] + rest))
                 else if s[1] == ':' then ReadItem(rest, item + ['\\'] + [':'])
                 else ReadItem(rest, item + [s[1]])
  {
    hide ReadItem, Escape;
    var rest := Escape(s[2..]) + tail;
    EscapeFront(s, tail);
    EscapeFront(s[1..], tail);
    assert s[1..][1..] == s[2..] && s[1..][0] == s[1];
    PairShift(s[1], rest);
    if Special(s[1]) {
      ReadStep('\\', [s[1]] + rest, item);
      ReadStep(s[1], rest, item + ['\\']);
      Stops(s[1], rest, item + ['\\']);
    } else {
      ReadStep(s[1], rest, item);
    }
  }

  lemma Stops(c: char, s: string, item: string)
    ensures c == ' ' || c == '\n' ==> ReadItem([c] + s, item) == Ok((item, [c] + s))
  {
  }

  predicate NoSpecial(s: string) { forall i :: 0 <= i < |s| ==> !Special(s[i]) }

  /** A reader that is too far on in a name's text cannot make up for what it owes. */
  lemma {:induction false} ReadsNotAhead(s: string, tail: string, item: string, owed: string)
    requires Ends(tail) && owed != [] && NoSpecial(owed)
    ensures var r := ReadItem(Escape(s) + tail, item);
            r.Ok? ==> r.value.0 != item + (owed + s)
    decreases |s|
  {
    hide ReadItem, Escape;
    Shift(item, owed, s, 0);
    if s == [] {
      EscapeNothing(tail, item);
      assert item + [] == item;
    } else if s[0] != '\\' {
      EscapeFront(s, tail);
      var after := Escape(s[1..]) + tail;
      ReadStep(s[0], after, item);
      ReadKeeps(after, item, s[0]);
      if s[0] == owed[0] {
        Shift(item, owed, s, 1);
        ReadsNotAhead(s[1..], tail, item + [s[0]], owed[1..] + s[..1]);
      }
    } else if |s| == 1 {
      EscapeFront(s, tail);
      assert s[1..] == [];
      LoneBackslash(tail, item);
    } else {
      TwoChars(s, tail, item);
      var rest := Escape(s[2..]) + tail;
      if s[1] == ':' {
        ReadKeeps(rest, item + ['\\'], ':');
        assert (item + (owed + s))[|item| + 1] == if |owed| > 1 then owed[1] else '\\';
      } else if !Special(s[1]) {
        ReadKeeps(rest, item, s[1]);
        if s[1] == owed[0] {
          Shift(item, owed, s, 2);
          ReadsNotAhead(s[2..], tail, item + [s[1]], owed[1..] + s[..2]);
        }
      }
    }
  }

  lemma ReadKeeps(s: string, item: string, c: char)
    ensures var r := ReadItem(s, item + [c]);
            r.Ok? ==> |r.value.0| > |item| && r.value.0[|item|] == c
  {
    hide ReadItem;
    assert (item + [c])[|item|] == c;
  }

  /** A name that is read back from its beginning has no other backslash, wherever the reader stops. */
  lemma {:induction false} OnlyPlain(s: string, tail: string, item: string)
    requires Ends(tail) && ReadItem(Escape(s) + tail, item).Ok?
    requires ReadItem(Escape(s) + tail, item).value.0 == item + s
    ensures Plain(s)
    decreases |s|
  {
    hide ReadItem, Escape;
    if s != [] {
      EscapeFront(s, tail);
      assert (item + s)[|item|] == s[0];
      if s[0] != '\\' {
        ReadStep(s[0], Escape(s[1..]) + tail, item);
        assert item + [s[0]] + s[1..] == item + s;
        OnlyPlain(s[1..], tail, item + [s[0]]);
      } else if |s| == 1 {
        assert s[1..] == [];
        LoneBackslash(tail, item);
      } else {
        TwoChars(s, tail, item);
        BackslashBeforeColon(s, tail, item);
        assert item + ['\\'] + [':'] + s[2..] == item + s;
        OnlyPlain(s[2..], tail, item + ['\\'] + [':']);
        assert s[1..][0] == ':' && s[1..][1..] == s[2..];
      }
    }
  }

  lemma BackslashBeforeColon(s: string, tail: string, item: string)
    requires |s| > 1 && s[0] == '\\' && Ends(tail)
    requires ReadItem(Escape(s) + tail, item).Ok? && ReadItem(Escape(s) + tail, item).value.0 == item + s
    ensures s[1] == ':'
  {
    hide ReadItem, Escape;
    TwoChars(s, tail, item);
    assert (item + s)[|item|] == '\\';
    if !Special(s[1]) {
      ReadKeeps(Escape(s[2..]) + tail, item, s[1]);
      assert item + s == item + ['\\'] + (['\\'] + s[2..]);
      ReadsNotAhead(s[2..], tail, item + ['\\'], ['\\']);
    }
  }

  lemma NothingEscaped(tail: string)
    ensures Escape([]) + tail == tail
  {
  }

  lemma {:induction false} ItemsBegun(s: string)
    ensures Items(s).Ok? ==> forall i :: 0 <= i < |Items(s).value.0| ==> Begun(Items(s).value.0[i])
    decreases |s|
  {
    hide SkipToItem, ReadItem;
    if Items(s).Ok? && NextItem(s).value.0 != [] {
      var t := SkipToItem(s);
      assert t == [t[0]] + t[1..];
      ReadStep(t[0], t[1..], []);
      ReadKeeps(t[1..], [], t[0]);
      assert [] + [t[0]] == [t[0]];
      ItemsBegun(NextItem(s).value.1);
    }
  }

  lemma SameItems(a: string, b: string)
    requires SkipToItem(a) == SkipToItem(b)
    ensures Items(a) == Items(b)
  {
  }

  function Backslashes(s: string): nat { if s == [] then 0 else (if s[0] == '\\' then 1 else 0) + Backslashes(s[1..]) }

  /** The backslashes of a text that escape nothing. */
  function Bare(u: string): nat {
    if |u| < 2 then 0 else (if u[0] == '\\' && !Special(u[1]) then 1 else 0) + Bare(u[1..])
  }

  function AllBackslashes(items: seq<string>): nat {
    if items == [] then 0 else Backslashes(items[0]) + AllBackslashes(items[1..])
  }

  function StartsWithColon(item: string): nat { if item != [] && item[0] == ':' then 1 else 0 }

  /** What a list of dependencies takes from the bare backslashes of a text. */
  function Price(items: seq<string>): nat {
    if items == [] then 0 else Backslashes(items[0]) + StartsWithColon(items[0]) + Price(items[1..])
  }

  /** Every colon but a leading one stands behind a backslash. */
  predicate Guarded(u: string) { forall k :: 0 < k < |u| && u[k] == ':' ==> u[k - 1] == '\\' }

  lemma BackslashesMore(s: string, c: char)
    ensures Backslashes(s + [c]) == Backslashes(s) + (if c == '\\' then 1 else 0)
  {
    if s != [] {
      assert (s + [c])[1..] == s[1..] + [c];
      BackslashesMore(s[1..], c);
    }
  }

  lemma BareStep(u: string)
    requires u != []
    ensures u[0] != '\\' ==> Bare(u) == Bare(u[1..])
    ensures u[0] == '\\' && |u| > 1 ==> Bare(u) >= Bare(u[2..]) + (if u[1] == '\\' then 1 else 0)
  {
    if |u| > 1 { assert u[1..][1..] == u[2..]; }
  }

  /** An item is read up to one of the blanks of its text, or up to what is behind the end of the line; each of its
      backslashes is read off two, and the first of them is bare. */
  lemma {:induction false} ReadsBare(u: string, more: string, item: string) returns (k: nat)
    requires more == [] || more[0] == '\n'
    ensures var r := ReadItem(u + ("\n" + more), item);
            r.Ok? ==> if k <= |u| then && r.value.1 == u[k..] + ("\n" + more)
                                       && (k < |u| ==> u[k] == ' ' || u[k] == '\n')
                                       && Backslashes(r.value.0) + Bare(u[k..]) <= Backslashes(item) + Bare(u)
                      else r.value.1 == more && Backslashes(r.value.0) <= Backslashes(item) + Bare(u)
    decreases |u|
  {
    hide ReadItem, Backslashes, Bare;
    var s := u + ("\n" + more);
    if u == [] || u[0] == ' ' || u[0] == '\n' {
      k := 0;
      assert u[0..] == u && s == [s[0]] + s[1..];
      Stops(s[0], s[1..], item);
    } else if u[0] != '\\' {
      BareStep(u);
      assert s == [u[0]] + (u[1..] + ("\n" + more));
      ReadStep(u[0], u[1..] + ("\n" + more), item);
      BackslashesMore(item, u[0]);
      var j := ReadsBare(u[1..], more, item + [u[0]]);
      k := j + 1;
      if j <= |u| - 1 { assert u[1..][j..] == u[k..]; }
    } else if |u| == 1 {
      k := 2;
      assert s == ['\\', '\n'] + more;
      ReadStep('\n', more, item);
      BackslashesMore(item, '\n');
      if more != [] { Stops(more[0], more[1..], item + ['\n']); assert more == [more[0]] + more[1..]; }
      else { NothingToRead(item + ['\n']); }
    } else {
      assert s == ['\\', u[1]] + (u[2..] + ("\n" + more));
      BareStep(u);
      ReadStep(u[1], u[2..] + ("\n" + more), item);
      BackslashesMore(item, u[1]);
      var j := ReadsBare(u[2..], more, item + [u[1]]);
      k := j + 2;
      if j <= |u| - 2 { assert u[2..][j..] == u[k..]; }
    }
  }

  lemma NothingToRead(item: string)
    ensures ReadItem([], item) == Ok((item, []))
  {
  }

  lemma BehindTheLine(more: string)
    requires more == [] || more[0] == '\n'
    ensures Items(more).Ok? && Items(more).value.0 == [] && Items("\n" + more) == Ok(([], more))
  {
    ListEnds(more);
    if more != [] { ListEnds(more[1..]); assert more == "\n" + more[1..]; }
  }

  /** The dependencies read from a text are paid for by its bare backslashes; one that starts with a colon costs
      one more, the one that takes the backslash away from the colon. */
  lemma {:induction false} Paid(u: string, more: string)
    requires Guarded(u) && (more == [] || more[0] == '\n')
    ensures var r := Items(u + ("\n" + more));
            r.Ok? ==> Price(r.value.0) <= Bare(u) + StartsWithColon(u)
    decreases |u|, 1
  {
    hide SkipToItem, Items, Price;
    var end := "\n" + more;
    var s := u + end;
    assert Price([]) == 0 by { NoPrice(); }
    BehindTheLine(more);
    if u == [] {
      assert s == end;
    } else if u[0] == ' ' {
      assert s == [' '] + (u[1..] + end);
      SkipStep(' ', u[1..] + end);
      SameItems(s, u[1..] + end);
      Paid(u[1..], more);
    } else if u[0] == '\n' {
      assert s == "\n" + (u[1..] + end);
      EndsHere(u[1..] + end);
    } else if u[0] == '\\' && |u| == 1 {
      assert s == ['\\', '\n'] + more;
      SkipStep('\n', more);
      SameItems(s, more);
    } else if u[0] == '\\' {
      assert s == ['\\', u[1]] + (u[2..] + end) && u[1..][1..] == u[2..];
      SkipStep(u[1], u[2..] + end);
      SameItems(s, u[2..] + end);
      Paid(u[2..], more);
    } else {
      PaidItem(u, more);
    }
  }

  lemma NoPrice()
    ensures Price([]) == 0 && Backslashes([]) == 0
  {
  }

  lemma EndsHere(more: string)
    ensures Items("\n" + more) == Ok(([], more))
  {
    ListEnds(more);
  }

  /** The same at the beginning of an item. */
  lemma PaidItem(u: string, more: string)
    requires Guarded(u) && (more == [] || more[0] == '\n') && u != [] && u[0] != '\\' && u[0] != ' ' && u[0] != '\n'
    ensures var r := Items(u + ("\n" + more));
            r.Ok? ==> Price(r.value.0) <= Bare(u) + StartsWithColon(u)
    decreases |u|, 0
  {
    hide SkipToItem, ReadItem, Backslashes;
    var s := u + ("\n" + more);
    assert s == [u[0]] + s[1..];
    SkipStep(u[0], s[1..]);
    ReadStep(u[0], s[1..], []);
    ReadKeeps(s[1..], [], u[0]);
    assert [] + [u[0]] == [u[0]];
    var k := ReadsBare(u, more, []);
    if Items(s).Ok? {
      var (item, rest) := NextItem(s).value;
      PriceFirst(item, Items(rest).value.0);
      NoPrice();
      if k <= |u| { Paid(u[k..], more); } else { BehindTheLine(more); }
    }
  }

  lemma PriceFirst(item: string, items: seq<string>)
    ensures Price([item] + items) == Backslashes(item) + StartsWithColon(item) + Price(items)
  {
    assert ([item] + items)[1..] == items;
  }

  lemma ColonCosts(items: seq<string>, i: nat)
    requires i < |items|
    ensures Price(items) >= AllBackslashes(items) + StartsWithColon(items[i])
  {
    hide Backslashes;
    if i > 0 { ColonCosts(items[1..], i - 1); } else if |items| > 1 { ColonCosts(items[1..], 0); }
  }

  /** What is written before the end of the line. */
  function DepsText(deps: seq<string>): string {
    if deps == [] then [] else " " + (Escape(deps[0]) + MoreDeps(deps[1..]))
  }

  lemma {:induction false} EscapedGuarded(s: string, tail: string)
    requires Guarded(tail) && (tail == [] || tail[0] == ' ')
    ensures var u := Escape(s) + tail;
            Guarded(u) && StartsWithColon(u) == 0 && Bare(u) <= Backslashes(s) + Bare(tail)
    decreases |s|
  {
    hide Escape;
    if s == [] {
      NothingEscaped(tail);
    } else {
      EscapedGuarded(s[1..], tail);
      EscapeFront(s, tail);
      GuardedFront(s[0], Escape(s[1..]) + tail);
    }
  }

  lemma GuardedFront(c: char, u: string)
    requires Guarded(u) && StartsWithColon(u) == 0
    ensures Special(c) ==> Guarded(['\\', c] + u) && Bare(['\\', c] + u) == Bare(u)
    ensures Guarded([c] + u) && Bare([c] + u) <= Bare(u) + (if c == '\\' then 1 else 0)
  {
    assert ([c] + u)[1..] == u && (['\\', c] + u)[1..] == [c] + u;
  }

  lemma NextLineGuarded(u: string)
    requires Guarded(u) && StartsWithColon(u) == 0
    ensures Guarded(NEXT_LINE + u) && Bare(NEXT_LINE + u) <= Bare(u)
  {
    hide Guarded, Bare;
    GuardedFront(' ', u);
    GuardedFront(' ', [' '] + u);
    GuardedFront('\n', [' '] + ([' '] + u));
    GuardedFront(' ', ['\\', '\n'] + ([' '] + ([' '] + u)));
    assert NEXT_LINE + u == [' '] + (['\\', '\n'] + ([' '] + ([' '] + u)));
  }

  lemma {:induction false} MoreDepsGuarded(deps: seq<string>)
    ensures var u := MoreDeps(deps);
            Guarded(u) && (u == [] || u[0] == ' ') && Bare(u) <= AllBackslashes(deps)
    decreases |deps|
  {
    hide Escape, Backslashes, Guarded, Bare;
    if deps == [] {
      NothingGuarded();
    } else {
      MoreDepsGuarded(deps[1..]);
      var u := Escape(deps[0]) + MoreDeps(deps[1..]);
      EscapedGuarded(deps[0], MoreDeps(deps[1..]));
      NextLineGuarded(u);
      assert MoreDeps(deps) == NEXT_LINE + u;
    }
  }

  lemma NothingGuarded()
    ensures Guarded([]) && Bare([]) == 0
  {
  }

  lemma DepsGuarded(deps: seq<string>)
    ensures Guarded(DepsText(deps)) && StartsWithColon(DepsText(deps)) == 0
    ensures Bare(DepsText(deps)) <= AllBackslashes(deps)
  {
    hide Escape, Backslashes, MoreDeps;
    if deps != [] {
      MoreDepsGuarded(deps[1..]);
      EscapedGuarded(deps[0], MoreDeps(deps[1..]));
      GuardedFront(' ', Escape(deps[0]) + MoreDeps(deps[1..]));
    }
  }

  // ---- targets

  /** In a name before escaping, the parser gives a backslash back only before a space, and a newline never. */
  predicate TargetPlain(n: string) {
    n == [] || (n[0] != '\n' && (n[0] == '\\' ==> |n| > 1 && n[1] == ' ') && TargetPlain(n[1..]))
  }

  /** Target names are escaped before they get here. */
  ghost predicate GoodTarget(name: string) {
    (name == [] || !IsSpace(name[0])) && exists n: string :: name == Escape(n) && TargetPlain(n)
  }

  lemma TargetStep(c: char, s: string, name: string)
    ensures c != ' ' && c != '\n' && c != '\\' && c != ':' ==> RawTarget([c] + s, name) == RawTarget(s, name + [c])
    ensures RawTarget(['\\', c] + s, name) == RawTarget(s, if c == '\n' then name else name + [c])
    ensures RawTarget([':'] + s, name) == Ok((name, s))
    ensures RawTarget(['\n'] + s, name) == Err(ColonExpected)
  {
    assert ([c] + s)[1..] == s && (['\\', c] + s)[2..] == s && ([':'] + s)[1..] == s;
  }

  lemma TargetSpace(s: string, name: string)
    requires name != [] && name[|name| - 1] != ' '
    ensures RawTarget([' '] + s, name) == RawTarget(s, name + [' '])
  {
    assert ([' '] + s)[1..] == s;
  }

  lemma {:induction false} ReadsTarget(n: string, rest: string, name: string)
    requires TargetPlain(n)
    ensures RawTarget(Escape(n) + (":" + rest), name) == Ok((name + n, rest))
    decreases |n|
  {
    hide RawTarget, Escape;
    if n == [] {
      NothingEscaped(":" + rest);
      TargetStep(':', rest, name);
      assert name + n == name;
    } else {
      EscapeFront(n, ":" + rest);
      var after := Escape(n[1..]) + (":" + rest);
      if n[0] == '\\' {
        assert n[1..][1..] == n[2..] && n[1..][0] == ' ';
        EscapeFront(n[1..], ":" + rest);
        var more := Escape(n[2..]) + (":" + rest);
        assert ['\\'] + (['\\', ' '] + more) == ['\\', '\\'] + ([' '] + more);
        TargetStep('\\', [' '] + more, name);
        TargetSpace(more, name + ['\\']);
        assert name + ['\\'] + [' '] + n[2..] == name + n;
        ReadsTarget(n[2..], rest, name + ['\\'] + [' ']);
      } else {
        TargetStep(n[0], after, name);
        assert name + [n[0]] + n[1..] == name + n;
        ReadsTarget(n[1..], rest, name + [n[0]]);
      }
    }
  }

  lemma TwoTargetChars(n: string, tail: string, name: string)
    requires |n| > 1 && n[0] == '\\'
    ensures var r, more := RawTarget(Escape(n) + (":" + tail), name), Escape(n[2..]) + (":" + tail);
            r == if n[1] == ' ' then RawTarget(more, name + ['\\'] + [' '])
                 else if n[1] == ':' then Ok((name + ['\\'], more))
                 else if n[1] == '\n' then Err(ColonExpected)
                 else RawTarget(more, name + [n[1]])
  {
    hide RawTarget, Escape;
    var more := Escape(n[2..]) + (":" + tail);
    EscapeFront(n, ":" + tail);
    EscapeFront(n[1..], ":" + tail);
    assert n[1..][1..] == n[2..] && n[1..][0] == n[1];
    PairShift(n[1], more);
    if Special(n[1]) {
      TargetStep('\\', [n[1]] + more, name);
      TargetStep(n[1], more, name + ['\\']);
      TargetSpace(more, name + ['\\']);
    } else {
      TargetStep(n[1], more, name);
    }
  }

  lemma TargetKeeps(s: string, name: string, c: char)
    ensures var r := RawTarget(s, name + [c]);
            r.Ok? ==> |r.value.0| > |name| && r.value.0[|name|] == c
  {
    hide RawTarget;
    assert (name + [c])[|name|] == c;
  }

  lemma TargetHasNoNewline(s: string, name: string, want: string, k: nat)
    requires |name| <= k < |want| && want[k] == '\n'
    ensures RawTarget(s, name).Ok? ==> RawTarget(s, name).value.0 != want
  {
    hide RawTarget;
  }

  lemma LoneTargetBackslash(tail: string, name: string)
    ensures var r := RawTarget(['\\'] + (Escape([]) + (":" + tail)), name);
            r.Ok? ==> |r.value.0| > |name| && r.value.0[|name|] == ':'
  {
    hide RawTarget;
    NothingEscaped(":" + tail);
    assert ['\\'] + (":" + tail) == ['\\', ':'] + tail;
    TargetStep(':', tail, name);
    TargetKeeps(tail, name, ':');
  }

  /** A reader that is too far on in a target's text cannot make up for what it owes. */
  lemma {:induction false} TargetNotAhead(n: string, tail: string, name: string, owed: string)
    requires owed != [] && NoSpecial(owed)
    ensures var r := RawTarget(Escape(n) + (":" + tail), name);
            r.Ok? ==> r.value.0 != name + (owed + n)
    decreases |n|
  {
    hide RawTarget, Escape;
    Shift(name, owed, n, 0);
    if n == [] {
      NothingEscaped(":" + tail);
      TargetStep(':', tail, name);
    } else if n[0] == '\n' {
      TargetHasNoNewline(Escape(n) + (":" + tail), name, name + (owed + n), |name| + |owed|);
    } else if n[0] != '\\' {
      EscapeFront(n, ":" + tail);
      var after := Escape(n[1..]) + (":" + tail);
      TargetStep(n[0], after, name);
      TargetKeeps(after, name, n[0]);
      if n[0] == owed[0] {
        Shift(name, owed, n, 1);
        TargetNotAhead(n[1..], tail, name + [n[0]], owed[1..] + n[..1]);
      }
    } else if |n| == 1 {
      EscapeFront(n, ":" + tail);
      assert n[1..] == [];
      LoneTargetBackslash(tail, name);
    } else {
      TwoTargetChars(n, tail, name);
      var more := Escape(n[2..]) + (":" + tail);
      if n[1] == ' ' {
        TargetKeeps(more, name + ['\\'], ' ');
        assert (name + (owed + n))[|name| + 1] == if |owed| > 1 then owed[1] else '\\';
      } else if !Special(n[1]) {
        TargetKeeps(more, name, n[1]);
        if n[1] == owed[0] {
          Shift(name, owed, n, 2);
          TargetNotAhead(n[2..], tail, name + [n[1]], owed[1..] + n[..2]);
        }
      }
    }
  }

  /** A name that is read back from its beginning is a plain one, wherever the reader stops. */
  lemma {:induction false} OnlyTargetPlain(n: string, tail: string, name: string)
    requires RawTarget(Escape(n) + (":" + tail), name).Ok?
    requires RawTarget(Escape(n) + (":" + tail), name).value.0 == name + n
    ensures TargetPlain(n)
    decreases |n|
  {
    hide RawTarget, Escape;
    if n != [] {
      assert (name + n)[|name|] == n[0];
      EscapeFront(n, ":" + tail);
      assert n[0] != '\n';
      if n[0] != '\\' {
        TargetStep(n[0], Escape(n[1..]) + (":" + tail), name);
        assert name + [n[0]] + n[1..] == name + n;
        OnlyTargetPlain(n[1..], tail, name + [n[0]]);
      } else if |n| == 1 {
        assert n[1..] == [];
        LoneTargetBackslash(tail, name);
      } else {
        BackslashBeforeSpace(n, tail, name);
        TwoTargetChars(n, tail, name);
        assert name + ['\\'] + [' '] + n[2..] == name + n;
        OnlyTargetPlain(n[2..], tail, name + ['\\'] + [' ']);
        assert n[1..][0] == ' ' && n[1..][1..] == n[2..];
      }
    }
  }

  lemma BackslashBeforeSpace(n: string, tail: string, name: string)
    requires |n| > 1 && n[0] == '\\'
    requires RawTarget(Escape(n) + (":" + tail), name).Ok?
    requires RawTarget(Escape(n) + (":" + tail), name).value.0 == name + n
    ensures n[1] == ' '
  {
    hide RawTarget, Escape;
    TwoTargetChars(n, tail, name);
    assert (name + n)[|name|] == '\\';
    if !Special(n[1]) {
      TargetKeeps(Escape(n[2..]) + (":" + tail), name, n[1]);
      assert name + n == name + ['\\'] + (['\\'] + n[2..]);
      TargetNotAhead(n[2..], tail, name + ['\\'], ['\\']);
    }
  }

  /** Blanks at the beginning of an escaped name are skipped with no backslash before them. */
  lemma SkippedPart(n: string, tail: string) returns (j: nat)
    ensures j <= |n| && NoSpecial(n[..j]) && SkipSpaces(Escape(n) + (":" + tail)) == Escape(n[j..]) + (":" + tail)
    ensures j == 0 <==> Escape(n) == [] || !IsSpace(Escape(n)[0])
    decreases |n|
  {
    hide Escape;
    j := 0;
    assert n[0..] == n;
    if n == [] {
      NothingEscaped(":" + tail);
      assert Escape([]) + [] == Escape([]) by { NothingEscaped([]); }
    } else {
      EscapeFront(n, ":" + tail);
      EscapeFront(n, []);
      assert Escape(n) + [] == Escape(n);
      if !Special(n[0]) && IsSpace(n[0]) {
        var i := SkippedPart(n[1..], tail);
        j := i + 1;
        assert n[1..][i..] == n[j..] && n[..j] == [n[0]] + n[1..][..i];
      }
    }
  }

  /** Exactly the good target names are read back, and then up to their colon. */
  lemma TargetExactly(name: string, tail: string)
    ensures var s := name + (":" + tail);
            var r := ReadTarget(SkipSpaces(s));
            && (r.Ok? && r.value.0 == name <==> GoodTarget(name))
            && (GoodTarget(name) ==> SkipSpaces(s) == s && r == Ok((name, tail)))
  {
    hide RawTarget, Escape, EscapeMakefileSpaces, TargetPlain, SkipSpaces;
    var s := name + (":" + tail);
    if GoodTarget(name) {
      NotSkipped(name, tail);
      var n :| name == Escape(n) && TargetPlain(n);
      ReadsTarget(n, tail, []);
      EscapedInOneGo(n);
      assert [] + n == n;
    }
    var r := RawTarget(SkipSpaces(s), []);
    if r.Ok? && EscapeMakefileSpaces(r.value.0) == name {
      var n := r.value.0;
      EscapedInOneGo(n);
      var j := SkippedPart(n, tail);
      assert [] + n == n && n[..j] + n[j..] == n && n[0..] == n;
      if j > 0 { TargetNotAhead(n[j..], tail, [], n[..j]); } else { OnlyTargetPlain(n, tail, []); }
    }
  }

  /** Blanks before a target are skipped. */
  lemma NotSkipped(name: string, after: string)
    ensures var s := name + (":" + after);
            SkipSpaces(s) == s <==> (name == [] || !IsSpace(name[0]))
  {
    var s := name + (":" + after);
    assert s[0] == if name == [] then ':' else name[0];
    if IsSpace(s[0]) { assert |SkipSpaces(s)| <= |s[1..]|; }
  }

  predicate AllGood(deps: seq<string>) { forall i :: 0 <= i < |deps| ==> GoodDep(deps[i]) }

  /** A good dependency, found where it was written, is read as it is; another one is not. */
  lemma OneGood(s: string, deps: seq<string>, tail: string)
    requires deps != [] && Ends(tail) && NextItem(s) == ReadItem(Escape(deps[0]) + tail, [])
    ensures GoodDep(deps[0]) && Items(tail).Ok? && Items(tail).value.0 == deps[1..] ==>
              Items(s) == Ok((deps, Items(tail).value.1))
    ensures Begun(deps[0]) && deps[0][0] != ':' && Items(s).Ok? && Items(s).value.0 == deps ==>
              GoodDep(deps[0]) && Items(tail).Ok? && Items(tail).value.0 == deps[1..]
  {
    hide NextItem, ReadItem, Escape, Plain;
    assert [deps[0]] + deps[1..] == deps && [] + deps[0] == deps[0];
    if Plain(deps[0]) { ReadsPlain(deps[0], tail, []); }
    if Items(s).Ok? && Items(s).value.0 == deps { OnlyPlain(deps[0], tail, []); ReadsPlain(deps[0], tail, []); }
  }

  lemma {:induction false} MoreDepsExactly(deps: seq<string>, more: string)
    requires forall i :: 0 <= i < |deps| ==> Begun(deps[i]) && deps[i][0] != ':'
    ensures var r := Items(MoreDeps(deps) + ("\n" + more));
            && (r.Ok? && r.value.0 == deps <==> AllGood(deps))
            && (AllGood(deps) ==> r == Ok((deps, more)))
    decreases |deps|
  {
    hide NextItem, Escape, GoodDep, Items, ReadItem;
    if deps == [] {
      assert MoreDeps([]) + ("\n" + more) == "\n" + more;
      EndsHere(more);
    } else {
      var tail := MoreDeps(deps[1..]) + ("\n" + more);
      MoreDepsExactly(deps[1..], more);
      assert MoreDeps(deps) + ("\n" + more) == NEXT_LINE + (Escape(deps[0]) + tail);
      FindsItem(deps[0], tail);
      OneGood(NEXT_LINE + (Escape(deps[0]) + tail), deps, tail);
      GoodFirst(deps);
    }
  }

  lemma GoodFirst(deps: seq<string>)
    requires deps != []
    ensures AllGood(deps) <==> GoodDep(deps[0]) && AllGood(deps[1..])
  {
    hide GoodDep;
    if GoodDep(deps[0]) && AllGood(deps[1..]) {
      forall i | 0 <= i < |deps| ensures GoodDep(deps[i]) {
        if i > 0 { assert deps[i] == deps[1..][i - 1]; }
      }
    }
  }

  lemma ListEnds(more: string)
    ensures NextItem("\n" + more) == Ok(([], more))
  {
    SkipStep('\n', more);
    assert ("\n" + more)[1..] == more;
  }

  ghost predicate Good(t: Target) { GoodTarget(t.name) && AllGood(t.deps) }

  /** What stands behind a target's colon. */
  function AfterColon(deps: seq<string>, more: string): string {
    if deps == [] then "\n" + more else " " + (Escape(deps[0]) + (MoreDeps(deps[1..]) + ("\n" + more)))
  }

  /** Exactly the lists of good dependencies are read back, and then up to the end of their line. */
  lemma DepsExactly(deps: seq<string>, more: string)
    requires more == [] || more[0] == '\n'
    ensures var r := Items(AfterColon(deps, more));
            && (r.Ok? && r.value.0 == deps <==> AllGood(deps))
            && (AllGood(deps) ==> r == Ok((deps, more)))
  {
    hide NextItem, Escape, GoodDep, Items, ReadItem, MoreDeps, Guarded, Bare, Price, AllBackslashes;
    var s := AfterColon(deps, more);
    if deps == [] {
      EndsHere(more);
    } else {
      if Items(s).Ok? && Items(s).value.0 == deps {
        ItemsBegun(s);
        DepsGuarded(deps);
        assert s == DepsText(deps) + ("\n" + more);
        Paid(DepsText(deps), more);
        forall i | 0 <= i < |deps| ensures deps[i][0] != ':' { ColonCosts(deps, i); }
      }
      if AllGood(deps) { GoodBegun(deps); }
      if forall i :: 0 <= i < |deps| ==> Begun(deps[i]) && deps[i][0] != ':' {
        var tail := MoreDeps(deps[1..]) + ("\n" + more);
        MoreDepsExactly(deps[1..], more);
        FindsItem(deps[0], tail);
        DepsEnd(deps[1..], more);
        OneGood(s, deps, tail);
        GoodFirst(deps);
      }
    }
  }

  lemma GoodBegun(deps: seq<string>)
    ensures AllGood(deps) ==> forall i :: 0 <= i < |deps| ==> Begun(deps[i]) && deps[i][0] != ':'
  {
  }

  lemma DepsEnd(deps: seq<string>, more: string)
    ensures Ends(MoreDeps(deps) + ("\n" + more))
  {
  }

  lemma TargetLayout(t: Target, more: string)
    ensures TargetText(t) + more == t.name + (":" + AfterColon(t.deps, more))
  {
    hide Escape, MoreDeps;
    if t.deps == [] {
      assert TargetText(t) + more == t.name + (":" + ("\n" + more));
    } else {
      var first, rest := Escape(t.deps[0]), MoreDeps(t.deps[1..]);
      assert TargetText(t) + more == t.name + (":" + (" " + (first + (rest + ("\n" + more)))));
    }
  }

  lemma TargetTextExactly(t: Target, more: string)
    requires more == [] || more[0] == '\n'
    ensures var s := SkipSpaces(TargetText(t) + more);
            && s != []
            && (NextTarget(s).Ok? && NextTarget(s).value.0 == t <==> Good(t))
            && (Good(t) ==> NextTarget(s) == Ok((t, more)))
  {
    hide NextItem, Escape, GoodDep, ReadTarget, Items, TargetText, SkipSpaces, AfterColon, GoodTarget, AllGood;
    var after := AfterColon(t.deps, more);
    DepsExactly(t.deps, more);
    TargetLayout(t, more);
    TargetExactly(t.name, after);
    SomethingLeft(t.name, after);
  }

  lemma SomethingLeft(name: string, after: string)
    ensures SkipSpaces(name + (":" + after)) != []
  {
    if name == [] {
      assert (name + (":" + after))[0] == ':';
    } else {
      assert (name + (":" + after))[1..] == name[1..] + (":" + after);
      SomethingLeft(name[1..], after);
    }
  }

  lemma {:induction false} TextFront(t: Target, rest: seq<Target>)
    ensures Text([t] + rest) == TargetText(t) + (if rest == [] then [] else "\n" + Text(rest))
    decreases |rest|
  {
    hide TargetText;
    var all := [t] + rest;
    if rest == [] {
      assert all == [t] && all[..0] == [];
    } else {
      var n := |rest| - 1;
      assert all[..|all| - 1] == [t] + rest[..n] && all[|all| - 1] == rest[n];
      TextFront(t, rest[..n]);
      assert n == 0 ==> rest[..n] == [];
    }
  }

  lemma BlankLine(s: string)
    ensures Parsed("\n" + s) == Parsed(s)
  {
    assert ("\n" + s)[1..] == s;
  }

  // ---- and what others have written

  /** Blanks before a target, of any kind, do not matter. */
  lemma BlanksBefore(c: char, s: string)
    requires c in " \t\n\U{0B}\U{0C}\r\U{85}\U{A0}"
    ensures Parsed([c] + s) == Parsed(s)
  {
    assert ([c] + s)[1..] == s;
  }

  /** Nor do blanks and broken lines between dependencies; a word without blanks and backslashes is a dependency. */
  lemma PlainWords(word: string, rest: string, s: string)
    requires word != "" && (forall c <- word :: c != ' ' && c != '\n' && c != '\\') && Ends(rest)
    ensures Items(" " + s) == Items(s) && Items("\\\n" + s) == Items(s)
    ensures Items(word + rest) == PrependItems([word], Items(rest))
    ensures Items("\n" + s) == Ok(([], s)) && Items("") == Ok(([], ""))
  {
    hide Items, PrependItems;
    BlanksBetween(s);
    OneWord(word, rest);
    EndsHere(s);
    BehindTheLine("");
  }

  lemma BlanksBetween(s: string)
    ensures Items(" " + s) == Items(s) && Items("\\\n" + s) == Items(s)
  {
    hide SkipToItem, Items;
    SkipStep('\n', s);
    SameItems([' '] + s, s);
    SameItems(['\\', '\n'] + s, s);
  }

  lemma OneWord(word: string, rest: string)
    requires word != "" && (forall c <- word :: c != ' ' && c != '\n' && c != '\\') && Ends(rest)
    ensures Items(word + rest) == PrependItems([word], Items(rest))
  {
    hide NextItem, Items, PrependItems;
    WordIsNext(word, rest);
    ItemsAfter(word + rest, word, rest);
  }

  lemma WordIsNext(word: string, rest: string)
    requires word != "" && (forall c <- word :: c != ' ' && c != '\n' && c != '\\') && Ends(rest)
    ensures NextItem(word + rest) == Ok((word, rest))
  {
    hide SkipToItem, ReadItem;
    assert word[0] in word && word + rest == [word[0]] + (word[1..] + rest);
    SkipStep(word[0], word[1..] + rest);
    ReadsWord(word, rest, []);
    assert [] + word == word;
  }

  lemma ItemsAfter(s: string, item: string, rest: string)
    requires NextItem(s) == Ok((item, rest)) && item != []
    ensures Items(s) == PrependItems([item], Items(rest))
  {
    hide NextItem;
  }

  lemma {:induction false} ReadsWord(word: string, rest: string, item: string)
    requires (forall c <- word :: c != ' ' && c != '\n' && c != '\\') && Ends(rest)
    ensures ReadItem(word + rest, item) == Ok((item + word, rest))
    decreases |word|
  {
    hide ReadItem;
    if word == "" {
      assert word + rest == rest && item + word == item;
      if rest == "" {
        NothingToRead(item);
      } else {
        assert rest == [rest[0]] + rest[1..];
        Stops(rest[0], rest[1..], item);
      }
    } else {
      assert word[0] in word && word + rest == [word[0]] + (word[1..] + rest);
      ReadStep(word[0], word[1..] + rest, item);
      assert forall c <- word[1..] :: c in word;
      ReadsWord(word[1..], rest, item + [word[0]]);
      assert item + [word[0]] + word[1..] == item + word;
    }
  }

  /** A name without blanks, backslashes and colons is read up to its colon; several blanks in a name are one, and a
      broken line is none. */
  lemma PlainTargets(name: string, rest: string, done: string)
    requires forall c <- name :: c != ' ' && c != '\n' && c != '\\' && c != ':'
    ensures ReadTarget(name + (":" + rest)) == Ok((name, rest))
    ensures RawTarget("  " + rest, done) == RawTarget(" " + rest, done)
    ensures RawTarget("\\\n" + rest, done) == RawTarget(rest, done)
    ensures done == [] || done[|done| - 1] != ' ' ==> RawTarget(" " + rest, done) == RawTarget(rest, done + " ")
  {
    hide EscapeMakefileSpaces, Escape, RawTarget;
    ReadsName(name, rest, []);
    PlainEscape(name);
    EscapedInOneGo(name);
    assert [] + name == name;
    OneBlank(rest, done);
    if done != [] && done[|done| - 1] == ' ' { OneBlank(" " + rest, done); } else { OneBlank(rest, done + " "); }
    OneBlank(" " + rest, done);
    assert "  " + rest == " " + (" " + rest);
    assert "\\\n" + rest == ['\\', '\n'] + rest;
    TargetStep('\n', rest, done);
  }

  lemma OneBlank(rest: string, done: string)
    ensures RawTarget(" " + rest, done)
         == RawTarget(rest, if done != [] && done[|done| - 1] == ' ' then done else done + " ")
  {
    assert (" " + rest)[1..] == rest;
  }

  lemma {:induction false} PlainEscape(name: string)
    requires forall c <- name :: !Special(c)
    ensures Escape(name) == name
  {
    if name != "" {
      assert name[0] in name;
      PlainEscape(name[1..]);
      assert [name[0]] + name[1..] == name;
    }
  }

  lemma {:induction false} ReadsName(name: string, rest: string, done: string)
    requires forall c <- name :: c != ' ' && c != '\n' && c != '\\' && c != ':'
    ensures RawTarget(name + (":" + rest), done) == Ok((done + name, rest))
    decreases |name|
  {
    hide RawTarget;
    if name == "" {
      assert name + (":" + rest) == [':'] + rest && done + name == done;
      TargetStep(':', rest, done);
    } else {
      assert name[0] in name && name + (":" + rest) == [name[0]] + (name[1..] + (":" + rest));
      TargetStep(name[0], name[1..] + (":" + rest), done);
      assert forall c <- name[1..] :: c in name;
      ReadsName(name[1..], rest, done + [name[0]]);
      assert done + [name[0]] + name[1..] == done + name;
    }
  }

  /** Parsing what was written gives back the file, with no read out of range, exactly if all its names are good. */
  lemma {:induction false} RoundTrip(targets: seq<Target>)
    ensures Parsed(Text(targets)) == Ok(targets) <==> (forall i :: 0 <= i < |targets| ==> Good(targets[i]))
    decreases |targets|
  {
    hide TargetText, NextTarget, SkipSpaces, Good;
    if targets == [] {
      EmptyText();
    } else {
      var t, rest := targets[0], targets[1..];
      assert targets == [t] + rest;
      TextFront(t, rest);
      var more := if rest == [] then [] else "\n" + Text(rest);
      TargetTextExactly(t, more);
      RoundTrip(rest);
      if rest == [] { EmptyText(); } else { BlankLine(Text(rest)); }
    }
  }

  lemma EmptyText()
    ensures Parsed([]) == Ok([]) && Text([]) == []
  {
  }
}
