/** The container in a .nocc-pch file (internal/common/own-pch-files.go): the dependencies of a precompiled
    header, one after another, each behind a separator that is not escaped in their contents. */
module OwnPch {
  import opened Sha256
  import opened Text
  import opened Wrappers

  function Separator(): (s: string)
    ensures |s| == 24
  {
    "#=======#'\"\\/\"'#=======#"
  }

  datatype Dep = Dep(fileName: string, fileSize: int64, sha: SHA256)

  /** A dependency and what its file contains. */
  datatype Item = Item(fileName: string, fileSize: int64, sha: SHA256, contents: string)

  /** OutOfRange: the program stops with a slice bound out of range. */
  datatype Error = Corrupted | OutOfRange | CannotRead

  // ---------------------------------------------------------------- writing

  function DepLine(item: Item): string {
    "\\" + (Decimal(item.fileSize) + (" " + (item.sha.ToLongHexString() + "\n")))
  }

  /** A dependency, without the separator before it. */
  function Entry(item: Item): string { " " + (item.fileName + (" " + (DepLine(item) + item.contents))) }

  function Body(items: seq<Item>): string {
    if items == [] then [] else Separator() + (Entry(items[0]) + Body(items[1..]))
  }

  lemma Regrouped(a: string, b: string, c: string, d: string)
    ensures a + (b + (c + d)) == a + (b + c) + d
  {
  }

  lemma BodyMore(items: seq<Item>, item: Item)
    ensures Body(items + [item]) == Body(items) + (Separator() + Entry(item))
  {
    hide Entry, Separator;
    if items == [] {
      assert [item][1..] == [] && [] + [item] == [item];
      assert Separator() + (Entry(item) + []) == [] + (Separator() + Entry(item));
    } else {
      assert (items + [item])[1..] == items[1..] + [item];
      BodyMore(items[1..], item);
      Regrouped(Separator(), Entry(items[0]), Body(items[1..]), Separator() + Entry(item));
    }
  }

  predicate Readable(deps: seq<Dep>, disk: map<string, string>) {
    forall i :: 0 <= i < |deps| ==> deps[i].fileName in disk
  }

  function OnDisk(dep: Dep, disk: map<string, string>): Item
    requires dep.fileName in disk
  {
    Item(dep.fileName, dep.fileSize, dep.sha, disk[dep.fileName])
  }

  function AllOnDisk(deps: seq<Dep>, disk: map<string, string>): (items: seq<Item>)
    requires Readable(deps, disk)
    ensures |items| == |deps| && forall i :: 0 <= i < |deps| ==> items[i] == OnDisk(deps[i], disk)
  {
    seq(|deps|, i requires 0 <= i < |deps| => OnDisk(deps[i], disk))
  }

  lemma Written(header: string, deps: seq<Dep>, disk: map<string, string>, i: nat)
    requires i < |deps| && Readable(deps[..i + 1], disk) && Readable(deps[..i], disk)
    ensures header + Body(AllOnDisk(deps[..i + 1], disk))
         == header + Body(AllOnDisk(deps[..i], disk)) + (Separator() + Entry(OnDisk(deps[i], disk)))
  {
    hide Separator, Entry, Body;
    var before, item := AllOnDisk(deps[..i], disk), OnDisk(deps[i], disk);
    assert AllOnDisk(deps[..i + 1], disk) == before + [item];
    BodyMore(before, item);
  }

  // ---------------------------------------------------------------- extracting

  predicate Blank(c: char) { c == ' ' || c == '\t' }

  function SkipBlanks(s: string): (r: string)
    ensures |r| <= |s|
  {
    if s != [] && Blank(s[0]) then SkipBlanks(s[1..]) else s
  }

  predicate Space(c: char) { Blank(c) || c == '\n' || c == '\r' }

  /** %s */
  function Word(s: string): string {
    if s == [] || Space(s[0]) then [] else [s[0]] + Word(s[1..])
  }

  /** Sscanf of the line from its backslash on: the size, and the text of the hash. */
  function ScanDepLine(line: string): Option<(int64, string)> {
    if line == [] || line[0] != '\\' then None
    else
      match ScanDecimal(SkipBlanks(line[1..]))
      case None => None
      case Some(size) =>
        var word := Word(SkipBlanks(size.rest));
        if size.rest == [] || !Blank(size.rest[0]) || word == [] then None else Some((size.value, word))
  }

  /** The dependency behind a separator, and what follows its line. `text` is what follows the separator. */
  function Front(text: string): (r: Result<(Item, string), Error>)
    ensures r.Ok? ==> |r.value.1| < |text| && r.value.1 == text[|text| - |r.value.1|..]
  {
    if text == [] then Err(OutOfRange)
    else
      var line := text[1..];
      var sizeOffset, nlOffset := Index(line, "\\"), Index(line, "\n");
      if nlOffset == -1 || sizeOffset == -1 || sizeOffset > nlOffset then Err(Corrupted)
      else if sizeOffset == 0 then Err(OutOfRange)
      else
        match ScanDepLine(line[sizeOffset..nlOffset + 1])
        case None => Err(Corrupted)
        case Some(p) =>
          var sha := FromLongHexString(p.1);
          if sha.IsEmpty() then Err(Corrupted)
          else Ok((Item(line[..sizeOffset - 1], p.0, sha, ""), line[nlOffset + 1..]))
  }

  function Prepend(done: seq<Item>, r: Result<seq<Item>, Error>): Result<seq<Item>, Error> {
    match r
    case Err(e) => Err(e)
    case Ok(items) => Ok(done + items)
  }

  /** What the extraction gives from a separator on. */
  function From(text: string): Result<seq<Item>, Error>
    decreases |text|
  {
    match Front(text)
    case Err(e) => Err(e)
    case Ok(front) =>
      var (dep, rest) := front;
      var end := Index(rest, Separator());
      if end == -1 then Ok([dep.(contents := rest)])
      else Prepend([dep.(contents := rest[..end])], From(rest[end + |Separator()|..]))
  }

  function Extracted(file: string): Result<seq<Item>, Error> {
    var sepPos := Index(file, Separator());
    if sepPos == -1 then Ok([]) else From(file[sepPos + |Separator()|..])
  }

  lemma SuffixOfSuffix(s: string, i: nat, j: nat)
    requires i + j <= |s|
    ensures s[i..][j..] == s[i + j..]
  {
  }

  lemma AtSuffix(s: string, i: nat, j: nat, part: string)
    requires i <= |s| && At(s[i..], j, part)
    ensures At(s, i + j, part) && s[i + j + |part|..] == s[i..][j + |part|..]
  {
    assert s[i..][j..j + |part|] == s[i + j..i + j + |part|];
  }

  /** One step of the extraction. */
  lemma FromStep(text: string)
    ensures Front(text).Err? ==> From(text) == Err(Front(text).error)
    ensures Front(text).Ok? ==>
              var (dep, rest) := Front(text).value;
              var end := Index(rest, Separator());
              From(text) == if end == -1 then Ok([dep.(contents := rest)])
                            else Prepend([dep.(contents := rest[..end])], From(rest[end + |Separator()|..]))
  {
    hide Front, Separator, Index, Prepend;
  }

  lemma PrependTwice(a: seq<Item>, b: seq<Item>, r: Result<seq<Item>, Error>)
    ensures Prepend(a, Prepend(b, r)) == Prepend(a + b, r)
    ensures Prepend([], r) == r
  {
    match r {
      case Err(_) =>
      case Ok(items) => assert a + (b + items) == a + b + items && [] + items == items;
    }
  }

  lemma PrependErr(a: seq<Item>, e: Error)
    ensures Prepend(a, Err(e)) == Err(e)
  {
  }

  lemma PrependOk(a: seq<Item>, b: seq<Item>)
    ensures Prepend(a, Ok(b)) == Ok(a + b)
  {
  }

  lemma FrontSuffix(file: string, from: nat)
    requires from <= |file| && Front(file[from..]).Ok?
    ensures var rest := Front(file[from..]).value.1; |rest| < |file| - from && file[|file| - |rest|..] == rest
  {
    hide Front;
    var rest := Front(file[from..]).value.1;
    SuffixOfSuffix(file, from, |file| - from - |rest|);
  }

  /** ExtractAllDepsToRootDir; the result lists the files in the order they are written. */
  method ExtractAllDeps(file: string) returns (r: Result<seq<Item>, Error>)
    ensures r == Extracted(file)
  {
    hide From, Front, Separator, Prepend;
    var deps: seq<Item> := [];
    var sepPos := Index(file, Separator());
    if sepPos != -1 { PrependTwice([], [], From(file[sepPos + |Separator()|..])); }
    while sepPos != -1
      invariant sepPos == -1 || (0 <= sepPos <= |file| - |Separator()|)
      invariant Extracted(file)
             == if sepPos == -1 then Ok(deps) else Prepend(deps, From(file[sepPos + |Separator()|..]))
      decreases if sepPos == -1 then 0 else |file| - sepPos
    {
      var text := file[sepPos + |Separator()|..];
      FromStep(text);
      var front := Front(text);
      if front.Err? {
        PrependErr(deps, front.error);
        return Err(front.error);
      }
      var (dep, rest) := front.value;
      var startPos := |file| - |rest|;
      FrontSuffix(file, sepPos + |Separator()|);
      var end := Index(rest, Separator());
      if end == -1 {
        PrependOk(deps, [dep.(contents := rest)]);
        deps, sepPos := deps + [dep.(contents := rest)], -1;
      } else {
        var item := dep.(contents := rest[..end]);
        AtSuffix(file, startPos, end, Separator());
        PrependTwice(deps, [item], From(rest[end + |Separator()|..]));
        deps, sepPos := deps + [item], startPos + end;
      }
    }
    return Ok(deps);
  }

  // ---------------------------------------------------------------- the round trip

  predicate GoodName(name: string) { '\\' !in name && '\n' !in name }

  /** The text ends where the search for a separator says it ends. Not the same as not containing one: the
      separator can begin inside the text and end inside the separator that follows. */
  predicate Delimited(text: string, last: bool) {
    Index(if last then text else text + Separator(), Separator()) == (if last then -1 else |text|)
  }

  predicate Extractable(items: seq<Item>) {
    items == []
    || (GoodName(items[0].fileName) && !items[0].sha.IsEmpty() && Delimited(items[0].contents, |items| == 1)
        && Extractable(items[1..]))
  }

  lemma {:induction false} WordOf(word: string, rest: string)
    requires (forall i :: 0 <= i < |word| ==> !Space(word[i])) && rest != [] && Space(rest[0])
    ensures Word(word + rest) == word
  {
    if word == [] {
      assert word + rest == rest;
    } else {
      assert (word + rest)[1..] == word[1..] + rest;
      WordOf(word[1..], rest);
    }
  }

  /** Sscanf reads what Fprintf wrote. */
  lemma LineScans(item: Item)
    ensures ScanDepLine(DepLine(item)) == Some((item.fileSize, item.sha.ToLongHexString()))
    ensures '\n' !in Decimal(item.fileSize) && '\n' !in item.sha.ToLongHexString()
  {
    hide Digits, ScanDecimal, ScanNumber, Word;
    var hex, size := item.sha.ToLongHexString(), Decimal(item.fileSize);
    HexHasNoSpace(item.sha);
    ScanDecimalPrinted(item.fileSize, " " + (hex + "\n"));
    assert DepLine(item)[1..] == size + (" " + (hex + "\n"));
    WordOf(hex, "\n");
    assert SkipBlanks(" " + (hex + "\n")) == hex + "\n" by {
      assert (" " + (hex + "\n"))[1..] == hex + "\n";
      assert (hex + "\n")[0] == hex[0];
    }
  }

  /** Where the fields of an entry are. */
  function EntryText(name: string, depLine: string, rest: string): string { name + " " + depLine + rest }

  lemma EntryLayout(item: Item, more: string)
    ensures Entry(item) + more == " " + EntryText(item.fileName, DepLine(item), item.contents + more)
  {
    hide DepLine;
    var name, line := item.fileName, DepLine(item);
    assert (name + (" " + (line + item.contents))) + more == name + " " + line + (item.contents + more);
  }

  lemma Layout(name: string, middle: string, rest: string)
    requires GoodName(name) && '\n' !in middle
    ensures var depLine := "\\" + (middle + "\n");
            var line := EntryText(name, depLine, rest);
            && Index(line, "\\") == |name| + 1 && Index(line, "\n") == |name| + 2 + |middle|
            && line[..|name|] == name && line[|name| + 1..|name| + 3 + |middle|] == depLine
            && line[|name| + 3 + |middle|..] == rest
  {
    var depLine := "\\" + (middle + "\n");
    var line := EntryText(name, depLine, rest);
    assert line == (name + " ") + "\\" + (middle + "\n" + rest);
    IndexSkips(name + " ", '\\', middle + "\n" + rest);
    var before := name + " " + "\\" + middle;
    assert line == before + "\n" + rest;
    IndexSkips(before, '\n', rest);
  }

  lemma FrontOfEntry(item: Item, more: string)
    requires GoodName(item.fileName)
    ensures Front(Entry(item) + more)
         == if item.sha.IsEmpty() then Err(Corrupted) else Ok((item.(contents := ""), item.contents + more))
  {
    hide Index, ScanDepLine, EntryText, Entry, Digits, FromLongHexString;
    var hex, size, rest := item.sha.ToLongHexString(), Decimal(item.fileSize), item.contents + more;
    var middle := size + (" " + hex);
    LineScans(item);
    HexRoundTrip(item.sha);
    assert DepLine(item) == "\\" + (middle + "\n");
    Layout(item.fileName, middle, rest);
    EntryLayout(item, more);
    assert (" " + EntryText(item.fileName, DepLine(item), rest))[1..] == EntryText(item.fileName, DepLine(item), rest);
  }

  /** Any other name is cut at the backslash, or the line ends before its backslash. */
  lemma OnlyGoodNames(item: Item, more: string)
    ensures var f := Front(Entry(item) + more);
            f.Ok? && f.value.0.fileName == item.fileName ==> GoodName(item.fileName)
  {
    hide ScanDepLine, EntryText, Entry, DepLine, FromLongHexString;
    EntryLayout(item, more);
    var name, line := item.fileName, EntryText(item.fileName, DepLine(item), item.contents + more);
    assert (" " + line)[1..] == line;
    var f := Front(Entry(item) + more);
    if f.Ok? && f.value.0.fileName == name {
      var sizeOffset := Index(line, "\\");
      assert |name| == sizeOffset - 1;
      NotFound(line, '\\', sizeOffset);
      NotFound(line, '\n', Index(line, "\n"));
      assert forall i :: 0 <= i < |name| ==> name[i] == line[i];
    }
  }

  lemma NotFound(line: string, c: char, i: nat)
    requires i == Index(line, [c])
    ensures forall j :: 0 <= j < i && j < |line| ==> line[j] != c
  {
    forall j | 0 <= j < i && j < |line| ensures line[j] != c {
      assert !At(line, j, [c]);
      assert line[j..j + 1] == [line[j]];
    }
  }

  lemma AtPrefix(s: string, t: string, j: int, part: string)
    requires j <= |s| - |part|
    ensures At(s + t, j, part) == At(s, j, part)
  {
    if j >= 0 { assert (s + t)[j..j + |part|] == s[j..j + |part|]; }
  }

  /** What comes after the next separator does not matter for finding it. */
  lemma EndFound(contents: string, part: string, more: string)
    requires part != []
    ensures Index(contents + (part + more), part) == Index(contents + part, part)
    ensures 0 <= Index(contents + part, part) <= |contents|
  {
    var short := contents + part;
    assert contents + (part + more) == short + more;
    assert At(short, |contents|, part);
    var i := Index(short, part);
    forall j | 0 <= j <= |contents| ensures At(short + more, j, part) == At(short, j, part) {
      AtPrefix(short, more, j, part);
    }
    assert At(short, i, part) && i <= |contents|;
    IndexIs(short + more, part, i);
  }

  lemma PrependOne(item: Item, r: Result<seq<Item>, Error>, items: seq<Item>)
    ensures Prepend([item], r) == Ok([item] + items) <==> r == Ok(items)
  {
    if r.Ok? {
      assert ([item] + r.value)[1..] == r.value && ([item] + items)[1..] == items;
    }
  }

  /** The first dependency comes back whole if and only if its text is delimited. */
  lemma FirstItem(item: Item, items: seq<Item>)
    requires GoodName(item.fileName) && !item.sha.IsEmpty()
    ensures var r := From(Entry(item) + Body(items));
            && (r.Ok? && r.value[..1] == [item] ==> Delimited(item.contents, items == []))
            && (Delimited(item.contents, items == []) ==>
                  r == if items == [] then Ok([item]) else Prepend([item], From(Entry(items[0]) + Body(items[1..]))))
  {
    hide Separator, From, Front, Entry;
    var text, rest := Entry(item) + Body(items), item.contents + Body(items);
    FrontOfEntry(item, Body(items));
    FromStep(text);
    var end := Index(rest, Separator());
    if items == [] {
      assert rest == item.contents;
    } else {
      var next := Entry(items[0]) + Body(items[1..]);
      assert Body(items) == Separator() + next;
      EndFound(item.contents, Separator(), next);
      assert |item.contents[..end]| == end;
      if end == |item.contents| {
        assert rest[..end] == item.contents && rest[end + |Separator()|..] == next;
      }
    }
  }

  lemma FromNotEmpty(text: string)
    ensures From(text).Ok? ==> Front(text).Ok? && From(text).value != []
                               && From(text).value[0].fileName == Front(text).value.0.fileName
  {
    hide Front;
    FromStep(text);
  }

  /** From its first separator on, a container gives back what was written into it exactly when every item can be. */
  lemma {:induction false} FromExactly(items: seq<Item>)
    requires items != []
    ensures From(Entry(items[0]) + Body(items[1..])) == Ok(items) <==> Extractable(items)
    decreases |items|
  {
    hide From, Front, Entry, GoodName, Delimited, Index, Separator;
    var item, rest := items[0], items[1..];
    var text := Entry(item) + Body(rest);
    FromStep(text);
    if !GoodName(item.fileName) {
      OnlyGoodNames(item, Body(rest));
      FromNotEmpty(text);
    } else if item.sha.IsEmpty() {
      FrontOfEntry(item, Body(rest));
    } else {
      FirstItem(item, rest);
      assert items == [item] + rest && items[..1] == [item] && (rest == [] ==> items == [item] && Extractable(rest));
      assert (|items| == 1) == (rest == []);
      if rest != [] {
        FromExactly(rest);
        PrependOne(item, From(Entry(rest[0]) + Body(rest[1..])), rest);
      }
    }
  }

  lemma ExtractedBehind(header: string, next: string)
    requires Index(header + (Separator() + next), Separator()) == |header|
    ensures Extracted(header + (Separator() + next)) == From(next)
  {
    hide From, Index, Separator;
    assert (header + (Separator() + next))[|header| + |Separator()|..] == next;
  }

  lemma NothingBehind(header: string)
    requires Index(header, Separator()) == -1
    ensures Extracted(header) == Ok([])
  {
  }

  /** The container as a whole, behind any text that is delimited. */
  lemma RoundTrip(header: string, items: seq<Item>)
    requires Delimited(header, items == [])
    ensures Extracted(header + Body(items)) == Ok(items) <==> Extractable(items)
  {
    hide From, Entry, Separator, Index, Extracted, GoodName;
    if items == [] {
      assert header + Body(items) == header;
      NothingBehind(header);
    } else {
      var next := Entry(items[0]) + Body(items[1..]);
      assert Body(items) == Separator() + next;
      EndFound(header, Separator(), next);
      ExtractedBehind(header, next);
      FromExactly(items);
    }
  }

  /** A border of the separator: it begins and ends with it. */
  predicate Border(k: nat) { 0 < k < 24 && Separator()[..k] == Separator()[24 - k..] }

  /** Two texts that do not contain a separator and are cut short all the same, because the separator ends
      with its own beginning. */
  lemma Borders(k: nat)
    requires k == 1 || k == 9
    ensures Border(k)
    ensures var text := Separator()[..24 - k];
            Index(text, Separator()) == -1 && Delimited(text, true) && !Delimited(text, false)
  {
    var sep, text := Separator(), Separator()[..24 - k];
    assert sep[..k] == sep[24 - k..];
    assert (text + sep)[..24] == text + sep[..k] == text + sep[24 - k..] == sep;
    IndexIs(text + sep, sep, 0);
  }
}
