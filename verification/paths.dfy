/** Go's path.Join, path.Dir and path.Clean on slash-separated paths, as far as the includes parser uses them. */
module Paths {
  import opened Text

  predicate Rooted(p: string) { p != "" && p[0] == '/' }

  /** Drops "" and ".", and lets ".." take back the element before it; the root is its own parent. */
  function Normalize(es: seq<string>, rooted: bool, done: seq<string>): seq<string> {
    if es == [] then done
    else if es[0] == "" || es[0] == "." then Normalize(es[1..], rooted, done)
    else if es[0] != ".." then Normalize(es[1..], rooted, done + [es[0]])
    else if done != [] && done[|done| - 1] != ".." then Normalize(es[1..], rooted, done[..|done| - 1])
    else if rooted then Normalize(es[1..], rooted, done)
    else Normalize(es[1..], rooted, done + [".."])
  }

  function Clean(p: string): (c: string)
    ensures Rooted(p) ==> Rooted(c)
  {
    var body := Joined('/', Normalize(Split('/', p), Rooted(p), []));
    if Rooted(p) then "/" + body else if body == "" then "." else body
  }

  function Join(dir: string, name: string): (p: string)
    ensures Rooted(dir) ==> Rooted(p)
  {
    if dir == "" && name == "" then ""
    else if dir == "" then Clean(name)
    else if name == "" then Clean(dir)
    else Clean(dir + "/" + name)
  }

  function UpToLastSlash(p: string): (d: string)
    ensures Rooted(p) ==> Rooted(d)
  {
    if p == "" then "" else if p[|p| - 1] == '/' then p else UpToLastSlash(p[..|p| - 1])
  }

  function Dir(p: string): (d: string)
    ensures Rooted(p) ==> Rooted(d)
  {
    Clean(UpToLastSlash(p))
  }

  // ---- what that means for absolute paths

  /** An element of a clean path. */
  predicate Proper(e: string) { e != "" && e != "." && e != ".." && '/' !in e }

  predicate AllProper(es: seq<string>) { forall i :: 0 <= i < |es| ==> Proper(es[i]) }

  function Absolute(es: seq<string>): string { "/" + Joined('/', es) }

  lemma {:induction false} NormalizeAppend(a: seq<string>, b: seq<string>, rooted: bool, done: seq<string>)
    ensures Normalize(a + b, rooted, done) == Normalize(b, rooted, Normalize(a, rooted, done))
    decreases |a|
  {
    if a == [] {
      assert a + b == b;
    } else {
      assert (a + b)[1..] == a[1..] + b;
      var es := a[1..];
      if a[0] == "" || a[0] == "." { NormalizeAppend(es, b, rooted, done); }
      else if a[0] != ".." { NormalizeAppend(es, b, rooted, done + [a[0]]); }
      else if done != [] && done[|done| - 1] != ".." { NormalizeAppend(es, b, rooted, done[..|done| - 1]); }
      else if rooted { NormalizeAppend(es, b, rooted, done); }
      else { NormalizeAppend(es, b, rooted, done + [".."]); }
    }
  }

  lemma {:induction false} NormalizeProper(es: seq<string>, rooted: bool, done: seq<string>)
    requires AllProper(es)
    ensures Normalize(es, rooted, done) == done + es
    decreases |es|
  {
    if es == [] {
      assert done + es == done;
    } else {
      assert Proper(es[0]);
      NormalizeProper(es[1..], rooted, done + [es[0]]);
      assert done + [es[0]] + es[1..] == done + es;
    }
  }

  lemma {:induction false} NormalizedIsProper(es: seq<string>, done: seq<string>)
    requires NoneHas('/', es) && AllProper(done)
    ensures AllProper(Normalize(es, true, done))
    decreases |es|
  {
    if es != [] {
      var rest := es[1..];
      assert '/' !in es[0] && NoneHas('/', rest);
      if es[0] == "" || es[0] == "." { NormalizedIsProper(rest, done); }
      else if es[0] != ".." { NormalizedIsProper(rest, done + [es[0]]); }
      else if done != [] { NormalizedIsProper(rest, done[..|done| - 1]); }
      else { NormalizedIsProper(rest, done); }
    }
  }

  lemma CleanElements(es: seq<string>)
    requires NoneHas('/', es) && es != []
    ensures Clean("/" + Joined('/', es)) == Absolute(Normalize(es, true, []))
  {
    hide Split, Joined, Normalize;
    var p := "/" + Joined('/', es);
    assert p == "" + (['/'] + Joined('/', es));
    SplitAppend('/', "", Joined('/', es));
    SplitJoined('/', es);
    NormalizeEmpty(es);
  }

  lemma NormalizeEmpty(es: seq<string>)
    ensures Normalize([""] + es, true, []) == Normalize(es, true, [])
    ensures Normalize(["."] + es, true, []) == Normalize(es, true, [])
    ensures Normalize(es, true, []) == Normalize(es + [""], true, [])
  {
    assert ([""] + es)[1..] == es && (["."] + es)[1..] == es;
    NormalizeAppend(es, [""], true, []);
    assert [""][1..] == [];
  }

  /** A cleaned absolute path has only proper elements; and it is not changed by cleaning it again. */
  lemma CleanIsProper(p: string)
    requires Rooted(p)
    ensures exists es :: AllProper(es) && Clean(p) == Absolute(es) && Clean(Clean(p)) == Clean(p)
  {
    hide Split, Joined, Normalize;
    JoinSplit('/', p);
    var es := Normalize(Split('/', p), true, []);
    NormalizedIsProper(Split('/', p), []);
    CleanProper(es);
  }

  lemma CleanProper(es: seq<string>)
    requires AllProper(es)
    ensures Clean(Absolute(es)) == Absolute(es)
  {
    if es == [] {
      assert Split('/', "/") == [""] + Split('/', "") == ["", ""];
      assert ["", ""][1..] == [""] && [""][1..] == [];
    } else {
      CleanElements(es);
      NormalizeProper(es, true, []);
      assert [] + es == es;
    }
  }

  /** The same for relative paths, which are never empty. */
  lemma CleanRelative(es: seq<string>)
    requires AllProper(es)
    ensures Clean(Joined('/', es)) == if es == [] then "." else Joined('/', es)
  {
    if es == [] {
      assert Split('/', "") == [""] && [""][1..] == [];
    } else {
      hide Split, Normalize;
      assert Proper(es[0]) && es[0][0] in es[0] && Joined('/', es)[0] == es[0][0];
      SplitJoined('/', es);
      NormalizeProper(es, false, []);
      assert [] + es == es;
      JoinedNotEmpty(es);
    }
  }

  /** Elements are appended, and ".." takes one back. */
  lemma JoinExactly(dir: seq<string>, last: string, name: seq<string>)
    requires AllProper(dir) && Proper(last) && AllProper(name) && name != []
    ensures Join(Absolute(dir), Joined('/', name)) == Absolute(dir + name)
    ensures Join(Absolute(dir + [last]), ".." + "/" + Joined('/', name)) == Absolute(dir + name)
    ensures Join(Absolute(dir), "." + "/" + Joined('/', name)) == Absolute(dir + name)
  {
    hide Split, Joined, Normalize, Join, Absolute;
    JoinedNotEmpty(name);
    JoinElements(dir, name);
    NormalizeProper(dir + name, true, []);
    assert [] + (dir + name) == dir + name;
    JoinDots(dir + [last], "..", name);
    TakeBack(dir, last, name);
    JoinDots(dir, ".", name);
    Stay(dir, name);
  }

  lemma JoinDots(dir: seq<string>, dots: string, name: seq<string>)
    requires AllProper(dir) && AllProper(name) && name != [] && (dots == "." || dots == "..")
    ensures Join(Absolute(dir), dots + "/" + Joined('/', name))
         == Absolute(Normalize(dir + ([dots] + name), true, []))
  {
    hide Split, Joined, Normalize, Join, Absolute;
    JoinedNotEmpty([dots] + name);
    JoinElements(dir, [dots] + name);
    JoinedBehind('/', [dots], name);
    JoinedOne(dots);
    assert dots + "/" + Joined('/', name) == dots + (['/'] + Joined('/', name));
  }

  lemma JoinedOne(e: string)
    ensures Joined('/', [e]) == e
  {
  }

  lemma JoinedNotEmpty(es: seq<string>)
    requires es != [] && es[0] != ""
    ensures Joined('/', es) != ""
  {
  }

  lemma TakeBack(dir: seq<string>, last: string, name: seq<string>)
    requires AllProper(dir) && Proper(last) && AllProper(name)
    ensures Normalize(dir + [last] + ([".."] + name), true, []) == dir + name
  {
    NormalizeAppend(dir + [last], [".."] + name, true, []);
    NormalizeProper(dir + [last], true, []);
    assert [] + (dir + [last]) == dir + [last] && ([".."] + name)[1..] == name && (dir + [last])[..|dir|] == dir;
    NormalizeProper(name, true, dir);
  }

  lemma Stay(dir: seq<string>, name: seq<string>)
    requires AllProper(dir) && AllProper(name)
    ensures Normalize(dir + (["."] + name), true, []) == dir + name
  {
    NormalizeAppend(dir, ["."] + name, true, []);
    NormalizeProper(dir, true, []);
    assert [] + dir == dir && (["."] + name)[1..] == name;
    NormalizeProper(name, true, dir);
  }

  lemma JoinElements(dir: seq<string>, name: seq<string>)
    requires AllProper(dir) && NoneHas('/', name) && name != [] && Joined('/', name) != ""
    ensures Join(Absolute(dir), Joined('/', name)) == Absolute(Normalize(dir + name, true, []))
  {
    hide Split, Normalize, Clean;
    if dir == [] {
      assert Absolute(dir) + "/" + Joined('/', name) == "/" + ("" + (['/'] + Joined('/', name)));
      JoinedBehind('/', [""], name);
      CleanElements([""] + name);
      NormalizeEmpty(name);
      assert dir + name == name;
    } else {
      JoinedBehind('/', dir, name);
      assert Absolute(dir) + "/" + Joined('/', name) == "/" + (Joined('/', dir) + (['/'] + Joined('/', name)));
      CleanElements(dir + name);
    }
  }

  /** The directory of a path is what is before its last element. */
  lemma DirExactly(dir: seq<string>, last: string)
    requires AllProper(dir) && Proper(last)
    ensures Dir(Absolute(dir + [last])) == Absolute(dir)
  {
    hide Split, Normalize, Clean;
    if dir == [] {
      assert Absolute(dir + [last]) == "/" + last by { assert dir + [last] == [last]; }
      UpTo("/", last);
      CleanProper(dir);
      assert Absolute(dir) == "/";
    } else {
      JoinedBehind('/', dir, [last]);
      var front := "/" + Joined('/', dir) + "/";
      assert Absolute(dir + [last]) == front + last;
      UpTo(front, last);
      JoinedBehind('/', dir, [""]);
      assert front == "/" + Joined('/', dir + [""]);
      CleanElements(dir + [""]);
      NormalizeEmpty(dir);
      NormalizeProper(dir, true, []);
      assert [] + dir == dir;
    }
  }

  lemma {:induction false} UpTo(front: string, last: string)
    requires front != "" && front[|front| - 1] == '/' && '/' !in last
    ensures UpToLastSlash(front + last) == front
    decreases |last|
  {
    if last == "" {
      assert front + last == front;
    } else {
      assert last[|last| - 1] in last;
      assert (front + last)[..|front + last| - 1] == front + last[..|last| - 1];
      UpTo(front, last[..|last| - 1]);
    }
  }

  function WithoutLastSlashes(p: string): string {
    if p != "" && p[|p| - 1] == '/' then WithoutLastSlashes(p[..|p| - 1]) else p
  }

  /** path.Base. */
  function Base(p: string): string {
    var parts := Split('/', WithoutLastSlashes(p));
    if p == "" then "." else if parts[|parts| - 1] == "" then "/" else parts[|parts| - 1]
  }

  /** The base of a path is its last element. */
  lemma BaseExactly(dir: seq<string>, last: string)
    requires AllProper(dir) && Proper(last)
    ensures Base(Absolute(dir + [last])) == last
  {
    hide Split;
    var es := [""] + (dir + [last]);
    JoinedBehind('/', [""], dir + [last]);
    assert Absolute(dir + [last]) == Joined('/', es) by {
      assert "" + (['/'] + Joined('/', dir + [last])) == "/" + Joined('/', dir + [last]);
    }
    SplitJoined('/', es);
    LastOfJoined(es);
  }

  lemma {:induction false} LastOfJoined(es: seq<string>)
    requires es != [] && es[|es| - 1] != "" && '/' !in es[|es| - 1]
    ensures Joined('/', es) != "" && Joined('/', es)[|Joined('/', es)| - 1] != '/'
  {
    var last := es[|es| - 1];
    assert last[|last| - 1] in last;
    if |es| > 1 { LastOfJoined(es[1..]); }
  }

  lemma {:induction false} WithoutLastSlashesKeeps(p: string, c: char)
    requires c !in p
    ensures c !in WithoutLastSlashes(p)
  {
    if p != "" && p[|p| - 1] == '/' { WithoutLastSlashesKeeps(p[..|p| - 1], c); }
  }

  lemma BaseHasNoSlash(p: string)
    ensures '/' !in Base(p) || Base(p) == "/"
    ensures '\n' !in p ==> '\n' !in Base(p)
  {
    hide Split, Joined, WithoutLastSlashes;
    var q := WithoutLastSlashes(p);
    JoinSplit('/', q);
    if '\n' !in p {
      WithoutLastSlashesKeeps(p, '\n');
      SplitKeeps('/', q, '\n');
    }
  }
}
