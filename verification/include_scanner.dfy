/** The scanner that finds #include directives in a file (internal/client/own-includes-parser.go).

    The program jumps from one '#' or '/' to the next and stops after the last line that can matter.
    The meaning of that scan is given here by an automaton that reads every character once
    (`Step`, `Run`); the program is proved to return exactly what the automaton returns. */
module IncludeScanner {

  /** An #include directive: the text between the quotes or brackets, and its form. */
  datatype IncludedArg = IncludedArg(insideStr: string, isQuote: bool, isIncludeNext: bool)

  // ---------------------------------------------------------------- the automaton

  datatype Mode =
    | Code
    | Slash                                      // just after a '/' that may open a comment
    | LineComment(sawHash: bool)
    | BlockComment(star: bool)                   // star: the previous character was '*'
    | Hash                                       // after '#', before the directive's name
    | Word(n: nat)                               // n characters of "include_next" were read
    | Include(isNext: bool)                      // after the directive's name
    | Angle(isNext: bool, text: string)
    | Quote(isNext: bool, text: string)

  const KEYWORD := "include_next"

  ghost predicate Legal(m: Mode) { m.Word? ==> 1 <= m.n < 12 }

  function InCode(c: char): (m: Mode) {
    if c == '#' then Hash else if c == '/' then Slash else Code
  }

  function InInclude(isNext: bool, c: char): (m: Mode) {
    if c == ' ' || c == '\t' then Include(isNext)
    else if c == '<' then Angle(isNext, "")
    else if c == '"' then Quote(isNext, "")
    else Code
  }

  /** One character: the next mode, and the directive completed by it, if any. */
  function Step(m: Mode, c: char): (r: (Mode, seq<IncludedArg>))
    requires Legal(m)
    ensures Legal(r.0)
  {
    match m
    case Code => (InCode(c), [])
    case Slash =>
      if c == '/' then (LineComment(false), [])
      else if c == '*' then (BlockComment(true), [])   // so "/*/" is a whole comment
      else (InCode(c), [])
    case LineComment(h) => if c == '\n' then (Code, []) else (LineComment(h || c == '#'), [])
    case BlockComment(star) => if star && c == '/' then (Code, []) else (BlockComment(c == '*'), [])
    case Hash => if c == ' ' || c == '\t' then (Hash, []) else if c == 'i' then (Word(1), []) else (Code, [])
    case Word(n) =>
      if c == KEYWORD[n] then (if n == 11 then Include(true) else Word(n + 1), [])
      else if n == 7 then (InInclude(false, c), [])    // exactly "include"
      else (InCode(c), [])
    case Include(next) => (InInclude(next, c), [])
    case Angle(next, text) =>
      if c == '\n' then (Code, [])
      else if c == '>' then (Code, [IncludedArg(text, false, next)])
      else (Angle(next, text + [c]), [])
    case Quote(next, text) =>
      if c == '\n' then (Code, [])
      else if c == '"' then (Code, [IncludedArg(text, true, next)])
      else (Quote(next, text + [c]), [])
  }

  /** What reading a stretch of text gives: the directives in order, and whether the text stops
      inside a line comment in which a '#' was read. */
  datatype Outcome = Outcome(found: seq<IncludedArg>, openHashComment: bool)

  /** The automaton over s[i..n], started in mode m. */
  ghost function Run(s: string, m: Mode, i: nat, n: nat): Outcome
    requires Legal(m) && i <= n <= |s|
    decreases n - i
  {
    if i == n then Outcome([], m == LineComment(true))
    else
      var (m', out) := Step(m, s[i]);
      var rest := Run(s, m', i + 1, n);
      Outcome(out + rest.found, rest.openHashComment)
  }

  ghost function End(s: string, m: Mode, i: nat, n: nat): (e: Mode)
    requires Legal(m) && i <= n <= |s|
    ensures Legal(e)
    decreases n - i
  {
    if i == n then m else End(s, Step(m, s[i]).0, i + 1, n)
  }

  /** The directives of a whole file: the specification of collectIncludeStatementsInFile. */
  ghost function IncludesOf(s: string): seq<IncludedArg> { Run(s, Code, 0, |s|).found }

  // ---------------------------------------------------------------- where the program stops looking

  /** bytes.LastIndexByte(s[:n], c), or -1. */
  function LastIndexOf(s: string, c: char, n: nat): (r: int)
    requires n <= |s|
    ensures -1 <= r < n
    ensures r != -1 ==> s[r] == c
    ensures forall k :: r < k < n ==> s[k] != c
  {
    if n == 0 then -1 else if s[n - 1] == c then n - 1 else LastIndexOf(s, c, n - 1)
  }

  /** strChr: the first c in s[offset..n], or -1. */
  function StrChr(s: string, c: char, n: nat, offset: nat): (r: int)
    requires offset <= n <= |s|
    ensures r == -1 || offset <= r < n
    ensures r != -1 ==> s[r] == c
    ensures forall k :: offset <= k < (if r == -1 then n else r) ==> s[k] != c
    decreases n - offset
  {
    if offset == n then -1 else if s[offset] == c then offset else StrChr(s, c, n, offset + 1)
  }

  const ENDIF := "#endif"

  /** Whether the six characters from the last '#' on read "#endif". A Go slice may be cut past its
      length up to its capacity, so the comparison can look at `spare`: bytes an earlier, longer file
      left behind in the shared buffer. */
  predicate LastHashIsEndif(buffer: string, spare: string) {
    var h := LastIndexOf(buffer, '#', |buffer|);
    h != -1 && h + 6 <= |buffer| + |spare| && (buffer + spare)[h..h + 6] == ENDIF
  }

  /** The two slice expressions of the preamble are out of range exactly here. */
  predicate SliceBoundsFail(buffer: string, spare: string) {
    var h := LastIndexOf(buffer, '#', |buffer|);
    h != -1 && (h + 6 > |buffer| + |spare| || (LastHashIsEndif(buffer, spare) && h == 0))
  }

  /** How much of the file the program looks at: up to the end of the line of the last '#' that is
      not the final #endif. */
  function Window(buffer: string, spare: string): (n: nat)
    requires !SliceBoundsFail(buffer, spare)
    ensures n <= |buffer|
  {
    var h := LastIndexOf(buffer, '#', |buffer|);
    var h' := if LastHashIsEndif(buffer, spare) then LastIndexOf(buffer, '#', h - 1) else h;
    var newLine := if h' == -1 then -1 else StrChr(buffer, '\n', |buffer|, h');
    if newLine == -1 then |buffer| else newLine + 1
  }

  /** The text looked at stops inside a line comment after a '#' in it: its newline is missing. */
  ghost predicate StopsInHashComment(buffer: string, spare: string)
    requires !SliceBoundsFail(buffer, spare)
  {
    Run(buffer, Code, 0, Window(buffer, spare)).openHashComment
  }

  // ---------------------------------------------------------------- facts about the automaton

  /** The automaton reads one character. */
  lemma OneStep(s: string, m: Mode, i: nat, n: nat)
    requires Legal(m) && i < n <= |s|
    ensures var (m', out) := Step(m, s[i]);
            var rest := Run(s, m', i + 1, n);
            Run(s, m, i, n) == Outcome(out + rest.found, rest.openHashComment)
    ensures End(s, m, i, n) == End(s, Step(m, s[i]).0, i + 1, n)
  {
  }

  lemma {:induction false} RunSplit(s: string, m: Mode, i: nat, k: nat, n: nat)
    requires Legal(m) && i <= k <= n <= |s|
    ensures Run(s, m, i, n).found == Run(s, m, i, k).found + Run(s, End(s, m, i, k), k, n).found
    ensures Run(s, m, i, n).openHashComment == Run(s, End(s, m, i, k), k, n).openHashComment
    decreases k - i
  {
    hide Step;
    if i < k {
      OneStep(s, m, i, k);
      OneStep(s, m, i, n);
      var (m', out) := Step(m, s[i]);
      RunSplit(s, m', i + 1, k, n);
      assert out + (Run(s, m', i + 1, k).found + Run(s, End(s, m', i + 1, k), k, n).found)
          == (out + Run(s, m', i + 1, k).found) + Run(s, End(s, m', i + 1, k), k, n).found;
    }
  }

  /** Code characters that open nothing are skipped. */
  lemma {:induction false} SkipCode(s: string, i: nat, k: nat, n: nat)
    requires i <= k <= n <= |s|
    requires forall j :: i <= j < k ==> s[j] != '#' && s[j] != '/'
    ensures Run(s, Code, i, n) == Run(s, Code, k, n)
    decreases k - i
  {
    if i < k {
      SkipCode(s, i + 1, k, n);
    }
  }

  /** A line comment reads on to its newline, or to the end of the text. */
  lemma {:induction false} SkipLineComment(s: string, h: bool, i: nat, n: nat)
    requires i <= n <= |s|
    ensures var nl := StrChr(s, '\n', n, i);
            Run(s, LineComment(h), i, n) ==
            if nl == -1 then Outcome([], h || exists k :: i <= k < n && s[k] == '#') else Run(s, Code, nl + 1, n)
    decreases n - i
  {
    if i < n && s[i] != '\n' {
      SkipLineComment(s, h || s[i] == '#', i + 1, n);
    }
  }

  /** A block comment ends at the first '/' whose previous character is '*', wherever that star is. */
  lemma {:induction false} SkipBlockComment(s: string, i: nat, k: nat, n: nat)
    requires 0 < i <= k <= n <= |s|
    requires forall j :: i <= j < k ==> !(s[j] == '/' && s[j - 1] == '*')
    ensures Run(s, BlockComment(s[i - 1] == '*'), i, n) == Run(s, BlockComment(s[k - 1] == '*'), k, n)
    decreases k - i
  {
    if i < k {
      SkipBlockComment(s, i + 1, k, n);
    }
  }

  lemma SliceOff<T>(s: seq<T>, i: nat, k: nat)
    requires i < k <= |s|
    ensures s[i..k] == [s[i]] + s[i + 1..k]
  {
  }

  predicate KeywordAt(s: string, i: nat, n: nat, len: nat)
    requires i <= n <= |s| && len <= 12
  {
    n > i + len && s[i..i + len] == KEYWORD[..len]
  }

  /** Reading on in a keyword that is there. */
  lemma {:induction false} ReadWord(s: string, i: nat, w: nat, k: nat, n: nat)
    requires 1 <= w <= k < 12 && i + (k - w) < n <= |s|
    requires s[i..i + (k - w)] == KEYWORD[w..k]
    ensures Run(s, Word(w), i, n) == Run(s, Word(k), i + (k - w), n)
    decreases k - w
  {
    if w < k {
      assert s[i] == s[i..i + (k - w)][0] == KEYWORD[w];
      assert s[i + 1..i + (k - w)] == s[i..i + (k - w)][1..] == KEYWORD[w..k][1..] == KEYWORD[w + 1..k];
      ReadWord(s, i + 1, w + 1, k, n);
    }
  }

  /** A keyword that breaks off reads like ordinary code: its letters open nothing. */
  lemma {:induction false} BrokenWord(s: string, i: nat, w: nat, stop: nat, n: nat)
    requires i <= n <= |s| && ((1 <= w < 7 && stop == 7) || (8 <= w < 12 && stop == 12))
    requires n <= i + (stop - w) || s[i..i + (stop - w)] != KEYWORD[w..stop]
    ensures Run(s, Word(w), i, n) == Run(s, Code, i, n)
    decreases 12 - w
  {
    if i < n && s[i] == KEYWORD[w] {
      SliceOff(KEYWORD, w, stop);
      if i + (stop - w) <= n {
        SliceOff(s, i, i + (stop - w));
      }
      if w + 1 < stop {
        BrokenWord(s, i + 1, w + 1, stop, n);
      } else {
        assert i + 1 == n;
      }
    }
  }

  lemma FirstOfName(s: string, i: nat, n: nat)
    requires i < n <= |s| && s[i] != ' ' && s[i] != '\t'
    ensures Run(s, Hash, i, n) == if s[i] == 'i' then Run(s, Word(1), i + 1, n) else Run(s, Code, i + 1, n)
  {
    hide Run;
    OneStep(s, Hash, i, n);
  }

  /** The three branches of the program on the first character of a directive's name. */
  lemma DirectiveName(s: string, i: nat, n: nat)
    requires i < n <= |s| && s[i] != ' ' && s[i] != '\t'
    ensures Run(s, Hash, i, n) ==
            if KeywordAt(s, i, n, 12) then Run(s, Include(true), i + 12, n)
            else if KeywordAt(s, i, n, 7) then Run(s, Include(false), i + 7, n)
            else Run(s, Code, i + 1, n)
  {
    hide Run, Step;
    FirstOfName(s, i, n);
    if n > i + 7 {
      SliceOff(s, i, i + 7);
    }
    if n > i + 12 {
      SliceOff(s, i, i + 12);
      assert s[i + 1..i + 12] == s[i + 1..i + 7] + s[i + 7..i + 12];
      SliceOff(s, i + 7, i + 12);
    }
    assert KEYWORD[..12][..7] == KEYWORD[..7] && KEYWORD[..7][0] == 'i';
    assert KeywordAt(s, i, n, 12) ==> s[i..i + 7] == s[i..i + 12][..7];
    if s[i] == 'i' {
      if KeywordAt(s, i, n, 7) {
        assert s[i + 1..i + 7] == KEYWORD[1..7];
        ReadWord(s, i + 1, 1, 7, n);
        AfterTheWordInclude(s, i, n);
      } else {
        BrokenWord(s, i + 1, 1, 7, n);
      }
    }
  }

  lemma AfterTheWordInclude(s: string, i: nat, n: nat)
    requires i + 7 < n <= |s| && KeywordAt(s, i, n, 7)
    ensures Run(s, Word(7), i + 7, n) ==
            if KeywordAt(s, i, n, 12) then Run(s, Include(true), i + 12, n) else Run(s, Include(false), i + 7, n)
  {
    if n > i + 12 {
      assert s[i..i + 12] == s[i..i + 7] + ([s[i + 7]] + s[i + 8..i + 12]);
      assert KEYWORD[..12] == KEYWORD[..7] + ([KEYWORD[7]] + KEYWORD[8..12]);
    }
    if s[i + 7] == '_' {
      if KeywordAt(s, i, n, 12) {
        assert s[i + 8..i + 12] == KEYWORD[8..12];
        assert s[i + 8..i + 11] == s[i + 8..i + 12][..3] == KEYWORD[8..11];
        ReadWord(s, i + 8, 8, 11, n);
        assert s[i + 11] == s[i + 8..i + 12][3];
      } else {
        BrokenWord(s, i + 8, 8, 12, n);
      }
    }
  }

  // ---------------------------------------------------------------- what that means for a text

  /** The directives found by reading this text in this mode. */
  ghost function Read(m: Mode, s: string): seq<IncludedArg>
    requires Legal(m)
  {
    Run(s, m, 0, |s|).found
  }

  /** Reading does not depend on what was read before. */
  lemma {:induction false} RunShift(a: string, b: string, m: Mode, i: nat, n: nat)
    requires Legal(m) && i <= n <= |b|
    ensures Run(a + b, m, |a| + i, |a| + n) == Run(b, m, i, n)
    ensures End(a + b, m, |a| + i, |a| + n) == End(b, m, i, n)
    decreases n - i
  {
    hide Step;
    if i < n {
      assert (a + b)[|a| + i] == b[i];
      OneStep(b, m, i, n);
      OneStep(a + b, m, |a| + i, |a| + n);
      RunShift(a, b, Step(m, b[i]).0, i + 1, n);
    }
  }

  lemma ReadOne(m: Mode, c: char, s: string)
    requires Legal(m)
    ensures Read(m, [c] + s) == Step(m, c).1 + Read(Step(m, c).0, s)
  {
    OneStep([c] + s, m, 0, |s| + 1);
    RunShift([c], s, Step(m, c).0, 0, |s|);
  }

  lemma ReadQuietly(m: Mode, c: char, s: string, m': Mode)
    requires Legal(m) && Step(m, c) == (m', [])
    ensures Read(m, [c] + s) == Read(m', s)
  {
    hide Run, Step;
    ReadOne(m, c, s);
  }

  predicate Blank(b: string) { forall i :: 0 <= i < |b| ==> b[i] == ' ' || b[i] == '\t' }

  /** Before and after the directive's name. */
  lemma {:induction false} ReadBlanks(m: Mode, b: string, s: string)
    requires Blank(b) && (m.Hash? || m.Include?)
    ensures Read(m, b + s) == Read(m, s)
    decreases |b|
  {
    hide Run;
    if b == "" {
      assert b + s == s;
    } else {
      assert b + s == [b[0]] + (b[1..] + s);
      ReadQuietly(m, b[0], b[1..] + s, m);
      ReadBlanks(m, b[1..], s);
    }
  }

  /** So much of the keyword. */
  lemma {:induction false} ReadKeyword(n: nat, k: nat, s: string)
    requires 1 <= n <= k < 12
    ensures Read(Word(n), KEYWORD[n..k] + s) == Read(Word(k), s)
    decreases k - n
  {
    hide Run;
    if n == k {
      assert KEYWORD[n..k] + s == s;
    } else {
      assert KEYWORD[n..k] + s == [KEYWORD[n]] + (KEYWORD[n + 1..k] + s);
      ReadQuietly(Word(n), KEYWORD[n], KEYWORD[n + 1..k] + s, Word(n + 1));
      ReadKeyword(n + 1, k, s);
    }
  }

  /** "#include" and "#include_next", with any blanks. */
  lemma ReadName(b: string, s: string)
    requires Blank(b)
    ensures Read(Code, "#" + b + "include" + s) == Read(Word(7), s)
    ensures Read(Code, "#" + b + "include_next" + s) == Read(Include(true), s)
  {
    hide Run;
    forall name: string, t: string | name == "i" + t ensures Read(Code, "#" + b + name + s) == Read(Word(1), t + s) {
      assert "#" + b + name + s == ['#'] + (b + (['i'] + (t + s)));
      ReadQuietly(Code, '#', b + (['i'] + (t + s)), Hash);
      ReadBlanks(Hash, b, ['i'] + (t + s));
      ReadQuietly(Hash, 'i', t + s, Word(1));
    }
    var short, long := "nclude", "nclude_next";
    assert short == KEYWORD[1..7] && "include" == "i" + short;
    ReadKeyword(1, 7, s);
    assert long == KEYWORD[1..11] + "t" && "include_next" == "i" + long;
    assert long + s == KEYWORD[1..11] + (['t'] + s);
    ReadKeyword(1, 11, ['t'] + s);
    ReadQuietly(Word(11), 't', s, Include(true));
  }

  lemma {:induction false} ReadQuoted(next: bool, done: string, text: string, s: string)
    requires '\n' !in text && '"' !in text
    ensures Read(Quote(next, done), text + "\"" + s) == [IncludedArg(done + text, true, next)] + Read(Code, s)
    ensures Read(Quote(next, done), text + "\n" + s) == Read(Code, s)
    decreases |text|
  {
    hide Run;
    if text == "" {
      ReadOne(Quote(next, done), '"', s);
      ReadQuietly(Quote(next, done), '\n', s, Code);
      assert text + "\"" + s == ['"'] + s && text + "\n" + s == ['\n'] + s && done + text == done;
    } else {
      var c, rest := text[0], text[1..];
      assert c in text;
      assert text + "\"" + s == [c] + (rest + "\"" + s) && text + "\n" + s == [c] + (rest + "\n" + s);
      ReadQuietly(Quote(next, done), c, rest + "\"" + s, Quote(next, done + [c]));
      ReadQuietly(Quote(next, done), c, rest + "\n" + s, Quote(next, done + [c]));
      ReadQuoted(next, done + [c], rest, s);
      assert done + [c] + rest == done + text;
    }
  }

  lemma {:induction false} ReadAngled(next: bool, done: string, text: string, s: string)
    requires '\n' !in text && '>' !in text
    ensures Read(Angle(next, done), text + ">" + s) == [IncludedArg(done + text, false, next)] + Read(Code, s)
    ensures Read(Angle(next, done), text + "\n" + s) == Read(Code, s)
    decreases |text|
  {
    hide Run;
    if text == "" {
      ReadOne(Angle(next, done), '>', s);
      ReadQuietly(Angle(next, done), '\n', s, Code);
      assert text + ">" + s == ['>'] + s && text + "\n" + s == ['\n'] + s && done + text == done;
    } else {
      var c, rest := text[0], text[1..];
      assert c in text;
      assert text + ">" + s == [c] + (rest + ">" + s) && text + "\n" + s == [c] + (rest + "\n" + s);
      ReadQuietly(Angle(next, done), c, rest + ">" + s, Angle(next, done + [c]));
      ReadQuietly(Angle(next, done), c, rest + "\n" + s, Angle(next, done + [c]));
      ReadAngled(next, done + [c], rest, s);
      assert done + [c] + rest == done + text;
    }
  }

  /** After the name and any blanks: the text in quotes or brackets, if it is closed on its line. */
  lemma ReadArg(next: bool, b: string, text: string, s: string)
    requires Blank(b) && '\n' !in text
    ensures '"' !in text ==>
              && Read(Include(next), b + "\"" + text + "\"" + s) == [IncludedArg(text, true, next)] + Read(Code, s)
              && Read(Include(next), b + "\"" + text + "\n" + s) == Read(Code, s)
    ensures '>' !in text ==>
              && Read(Include(next), b + "<" + text + ">" + s) == [IncludedArg(text, false, next)] + Read(Code, s)
              && Read(Include(next), b + "<" + text + "\n" + s) == Read(Code, s)
  {
    hide Run;
    assert "" + text == text;
    if '"' !in text {
      forall close | close in ["\"", "\n"]
        ensures Read(Include(next), b + "\"" + text + close + s) == Read(Quote(next, ""), text + close + s)
      {
        assert b + "\"" + text + close + s == b + (['"'] + (text + close + s));
        ReadBlanks(Include(next), b, ['"'] + (text + close + s));
        ReadQuietly(Include(next), '"', text + close + s, Quote(next, ""));
      }
      ReadQuoted(next, "", text, s);
    }
    if '>' !in text {
      forall close | close in [">", "\n"]
        ensures Read(Include(next), b + "<" + text + close + s) == Read(Angle(next, ""), text + close + s)
      {
        assert b + "<" + text + close + s == b + (['<'] + (text + close + s));
        ReadBlanks(Include(next), b, ['<'] + (text + close + s));
        ReadQuietly(Include(next), '<', text + close + s, Angle(next, ""));
      }
      ReadAngled(next, "", text, s);
    }
  }

  lemma AfterInclude(s: string)
    requires s != "" && s[0] != '_'
    ensures Read(Word(7), s) == Read(Include(false), s)
  {
    hide Run;
    assert s == [s[0]] + s[1..];
    ReadOne(Word(7), s[0], s[1..]);
    ReadOne(Include(false), s[0], s[1..]);
  }

  lemma BehindName(b: string, t: string, front: string)
    requires Blank(b) && front != "" && front <= t && front[0] != '_'
    ensures IncludesOf("#" + b + "include" + t) == Read(Include(false), t)
    ensures IncludesOf("#" + b + "include_next" + t) == Read(Include(true), t)
  {
    hide Run;
    ReadName(b, t);
    AfterInclude(t);
  }

  /** A line #include "text" or #include <text> gives just that directive, and one that is not closed on its line
      gives none; what is behind it is read as if it stood alone. The same for #include_next. */
  lemma DirectiveLine(b: string, b': string, text: string, s: string)
    requires Blank(b) && Blank(b') && '\n' !in text
    ensures '"' !in text ==>
              && IncludesOf("#" + b + "include" + (b' + "\"" + text + "\"" + s))
                 == [IncludedArg(text, true, false)] + IncludesOf(s)
              && IncludesOf("#" + b + "include_next" + (b' + "\"" + text + "\"" + s))
                 == [IncludedArg(text, true, true)] + IncludesOf(s)
              && IncludesOf("#" + b + "include" + (b' + "\"" + text + "\n" + s)) == IncludesOf(s)
    ensures '>' !in text ==>
              && IncludesOf("#" + b + "include" + (b' + "<" + text + ">" + s))
                 == [IncludedArg(text, false, false)] + IncludesOf(s)
              && IncludesOf("#" + b + "include_next" + (b' + "<" + text + ">" + s))
                 == [IncludedArg(text, false, true)] + IncludesOf(s)
              && IncludesOf("#" + b + "include" + (b' + "<" + text + "\n" + s)) == IncludesOf(s)
  {
    hide Run;
    BehindName(b, b' + "\"" + text + "\"" + s, b' + "\"");
    BehindName(b, b' + "\"" + text + "\n" + s, b' + "\"");
    BehindName(b, b' + "<" + text + ">" + s, b' + "<");
    BehindName(b, b' + "<" + text + "\n" + s, b' + "<");
    ReadArg(false, b', text, s);
    ReadArg(true, b', text, s);
  }

  /** Where an include could be but is not: another directive, a name that only begins with "include", or no
      argument behind it. */
  lemma OtherDirective(b: string, c: char, s: string)
    requires Blank(b) && c != ' ' && c != '\t'
    ensures c != 'i' ==> IncludesOf("#" + b + [c] + s) == IncludesOf(s)
    ensures !("nclude" <= s && |s| > 6) ==> IncludesOf("#" + b + "i" + s) == IncludesOf(s)
    ensures c !in "<\"_" ==> IncludesOf("#" + b + "include" + ([c] + s)) == IncludesOf(s)
    ensures c !in "<\"" ==> IncludesOf("#" + b + "include_next" + ([c] + s)) == IncludesOf(s)
    ensures !("next" <= s && |s| > 4) ==> IncludesOf("#" + b + "include" + ("_" + s)) == IncludesOf(s)
  {
    hide Run;
    forall x: char | x != ' ' && x != '\t'
      ensures IncludesOf("#" + b + [x] + s) == Step(Hash, x).1 + Read(Step(Hash, x).0, s)
    {
      assert "#" + b + [x] + s == ['#'] + (b + ([x] + s));
      ReadQuietly(Code, '#', b + ([x] + s), Hash);
      ReadBlanks(Hash, b, [x] + s);
      ReadOne(Hash, x, s);
    }
    assert [] + Read(Code, s) == Read(Code, s) && [] + Read(Word(1), s) == Read(Word(1), s);
    if !("nclude" <= s && |s| > 6) { Broken(s, 1, 7); }
    ReadName(b, [c] + s);
    if c !in "<\"" {
      if c != '_' { ReadQuietly(Word(7), c, s, Code); }
      ReadQuietly(Include(true), c, s, Code);
    }
    ReadName(b, "_" + s);
    ReadQuietly(Word(7), '_', s, Word(8));
    if !("next" <= s && |s| > 4) { Broken(s, 8, 12); }
  }

  lemma Broken(s: string, w: nat, stop: nat)
    requires (w == 1 && stop == 7 && !("nclude" <= s && |s| > 6)) || (w == 8 && stop == 12 && !("next" <= s && |s| > 4))
    ensures Read(Word(w), s) == Read(Code, s)
  {
    assert KEYWORD[1..7] == "nclude" && KEYWORD[8..12] == "next";
    BrokenWord(s, 0, w, stop, |s|);
  }

  /** Any other character, and a '/' that opens no comment. */
  lemma OtherText(c: char, s: string)
    ensures c != '#' && c != '/' ==> IncludesOf([c] + s) == IncludesOf(s)
    ensures c != '/' && c != '*' ==> IncludesOf("/" + ([c] + s)) == IncludesOf([c] + s)
    ensures IncludesOf("") == [] && IncludesOf("/") == [] && IncludesOf("#") == []
  {
    hide Run;
    if c != '#' && c != '/' { ReadQuietly(Code, c, s, Code); }
    if c != '/' && c != '*' {
      ReadQuietly(Code, '/', [c] + s, Slash);
      ReadOne(Slash, c, s);
      ReadOne(Code, c, s);
    }
    Nothing();
    ReadQuietly(Code, '/', "", Slash);
    ReadQuietly(Code, '#', "", Hash);
    assert ['/'] + "" == "/" && ['#'] + "" == "#";
  }

  lemma Nothing()
    ensures forall m: Mode :: Legal(m) ==> Read(m, "") == []
  {
  }

  lemma {:induction false} ReadLineComment(h: bool, text: string, s: string)
    requires '\n' !in text
    ensures Read(LineComment(h), text + "\n" + s) == Read(Code, s) && Read(LineComment(h), text) == []
    decreases |text|
  {
    hide Run;
    if text == "" {
      assert text + "\n" + s == ['\n'] + s;
      ReadQuietly(LineComment(h), '\n', s, Code);
      Nothing();
    } else {
      var c, rest, h' := text[0], text[1..], h || text[0] == '#';
      assert c in text;
      assert text + "\n" + s == [c] + (rest + "\n" + s) && text == [c] + rest;
      ReadQuietly(LineComment(h), c, rest + "\n" + s, LineComment(h'));
      ReadQuietly(LineComment(h), c, rest, LineComment(h'));
      ReadLineComment(h', rest, s);
    }
  }

  /** In no place of this text is a comment closed. */
  predicate Unclosed(star: bool, text: string) {
    && !(star && text != "" && text[0] == '/')
    && forall i :: 0 < i < |text| && text[i] == '/' ==> text[i - 1] != '*'
  }

  lemma {:induction false} ReadBlockComment(star: bool, text: string, s: string)
    requires Unclosed(star, text)
    ensures Read(BlockComment(star), text + "*/" + s) == Read(Code, s) && Read(BlockComment(star), text) == []
    decreases |text|
  {
    hide Run;
    if text == "" {
      assert text + "*/" + s == ['*'] + (['/'] + s);
      ReadQuietly(BlockComment(star), '*', ['/'] + s, BlockComment(true));
      ReadQuietly(BlockComment(true), '/', s, Code);
      Nothing();
    } else {
      var c, rest := text[0], text[1..];
      assert text + "*/" + s == [c] + (rest + "*/" + s) && text == [c] + rest;
      ReadQuietly(BlockComment(star), c, rest + "*/" + s, BlockComment(c == '*'));
      ReadQuietly(BlockComment(star), c, rest, BlockComment(c == '*'));
      ReadBlockComment(c == '*', rest, s);
    }
  }

  /** Nothing in a comment is a directive, closed or not: not even a line that would be one. A comment is closed by
      the slash that opened it, too. */
  lemma Comments(text: string, s: string)
    ensures '\n' !in text ==> IncludesOf("//" + text + "\n" + s) == IncludesOf(s) && IncludesOf("//" + text) == []
    ensures Unclosed(true, text) ==>
              IncludesOf("/*" + text + "*/" + s) == IncludesOf(s) && IncludesOf("/*" + text) == []
    ensures IncludesOf("/*/" + s) == IncludesOf(s)
  {
    hide Run;
    forall c, m, t: string | (c, m) in [('/', LineComment(false)), ('*', BlockComment(true))]
      ensures IncludesOf(['/'] + ([c] + t)) == Read(m, t)
    {
      ReadQuietly(Code, '/', [c] + t, Slash);
      ReadQuietly(Slash, c, t, m);
    }
    if '\n' !in text {
      ReadLineComment(false, text, s);
      assert "//" + text + "\n" + s == ['/'] + (['/'] + (text + "\n" + s)) && "//" + text == ['/'] + (['/'] + text);
    }
    if Unclosed(true, text) {
      ReadBlockComment(true, text, s);
      assert "/*" + text + "*/" + s == ['/'] + (['*'] + (text + "*/" + s)) && "/*" + text == ['/'] + (['*'] + text);
    }
    assert "/*/" + s == ['/'] + (['*'] + (['/'] + s));
    ReadQuietly(BlockComment(true), '/', s, Code);
  }

  /** A directive behind this text would count. */
  ghost predicate Outside(front: string) { IncludesOf(front + "#include <x>\n") != IncludesOf(front) }

  lemma EndOne(m: Mode, c: char, s: string)
    requires Legal(m)
    ensures End([c] + s, m, 0, |[c] + s|) == End(s, Step(m, c).0, 0, |s|)
  {
    OneStep([c] + s, m, 0, |s| + 1);
    RunShift([c], s, Step(m, c).0, 0, |s|);
  }

  lemma {:induction false} ReadOn(m: Mode, front: string, s: string)
    requires Legal(m)
    ensures Read(m, front + s) == Read(m, front) + Read(End(front, m, 0, |front|), s)
    decreases |front|
  {
    hide Step, Run;
    if front == "" {
      assert front + s == s;
      Nothing();
    } else {
      var c, rest := front[0], front[1..];
      assert front == [c] + rest && front + s == [c] + (rest + s);
      EndOne(m, c, rest);
      hide End;
      ReadOne(m, c, rest);
      ReadOne(m, c, rest + s);
      ReadOn(Step(m, c).0, rest, s);
    }
  }

  lemma {:induction false} AfterLines(s: string, m: Mode, i: nat)
    requires Legal(m) && i < |s| && s[|s| - 1] == '\n'
    ensures var e := End(s, m, i, |s|); e == Code || e == BlockComment(false)
    decreases |s| - i
  {
    if i + 1 < |s| {
      AfterLines(s, Step(m, s[i]).0, i + 1);
    } else {
      assert End(s, m, i, |s|) == Step(m, s[i]).0;
    }
  }

  lemma {:induction false} NoneOpened(s: string, m: Mode, i: nat)
    requires Legal(m) && i <= |s| && !m.BlockComment? && (m.Slash? ==> i > 0 && s[i - 1] == '/')
    requires forall j :: 0 < j < |s| && s[j] == '*' ==> s[j - 1] != '/'
    ensures !End(s, m, i, |s|).BlockComment?
    decreases |s| - i
  {
    if i < |s| { NoneOpened(s, Step(m, s[i]).0, i + 1); }
  }

  /** Behind whole lines a text is read as if it stood alone; or they end inside a block comment, and then as if it
      stood in one. They do not if no comment is opened in them. */
  lemma BehindWholeLines(front: string, s: string)
    requires front == "" || front[|front| - 1] == '\n'
    ensures IncludesOf(front + s) == IncludesOf(front) + IncludesOf(if Outside(front) then s else "/* " + s)
    ensures (forall j :: 0 < j < |front| && front[j] == '*' ==> front[j - 1] != '/') ==> Outside(front)
  {
    var m, probe := End(front, Code, 0, |front|), "#include <x>\n";
    if front != "" { AfterLines(front, Code, 0); }
    if forall j :: 0 < j < |front| && front[j] == '*' ==> front[j - 1] != '/' { NoneOpened(front, Code, 0); }
    hide Run, End;
    ReadOn(Code, front, s);
    ReadOn(Code, front, probe);
    if m == Code {
      assert probe == "#" + "" + "include" + (" " + "<" + "x" + ">" + "\n");
      DirectiveLine("", " ", "x", "\n");
    } else {
      ReadBlockComment(false, probe, "");
      assert "/* " + s == ['/'] + (['*'] + ([' '] + s));
      ReadQuietly(Code, '/', ['*'] + ([' '] + s), Slash);
      ReadQuietly(Slash, '*', [' '] + s, BlockComment(true));
      ReadQuietly(BlockComment(true), ' ', s, BlockComment(false));
    }
  }

  // ---------------------------------------------------------------- the rest of the file is silent

  ghost predicate Quiet(m: Mode) { m.Code? || m.Slash? || m.LineComment? || m.BlockComment? }

  lemma {:induction false} NoHashNoIncludes(s: string, m: Mode, i: nat, n: nat)
    requires Quiet(m) && i <= n <= |s| && forall k :: i <= k < n ==> s[k] != '#'
    ensures Run(s, m, i, n).found == [] && Quiet(End(s, m, i, n))
    decreases n - i
  {
    if i < n {
      NoHashNoIncludes(s, Step(m, s[i]).0, i + 1, n);
    }
  }

  lemma {:induction false} NotOpen(s: string, m: Mode, i: nat, n: nat)
    requires Quiet(m) && m != LineComment(true) && i <= n <= |s| && forall k :: i <= k < n ==> s[k] != '#'
    ensures !Run(s, m, i, n).openHashComment
    decreases n - i
  {
    if i < n {
      NotOpen(s, Step(m, s[i]).0, i + 1, n);
    }
  }

  /** Text from the last '#' on, when that is "#endif" as far as the file goes, completes no directive. */
  lemma EndifIsSilent(s: string, m: Mode, h: nat)
    requires (Quiet(m) || m == Hash) && h < |s| && s[h] == '#'
    requires forall k :: h < k < |s| ==> s[k] != '#'
    requires h + 1 < |s| ==> s[h + 1] == 'e'
    ensures Run(s, m, h, |s|).found == []
  {
    var m1 := Step(m, s[h]).0;
    if Quiet(m1) {
      NoHashNoIncludes(s, m1, h + 1, |s|);
    } else if h + 1 < |s| {
      NoHashNoIncludes(s, Code, h + 2, |s|);
    }
  }

  lemma {:induction false} AfterNewLine(s: string, m: Mode, i: nat, n: nat)
    requires Legal(m) && i < n <= |s| && s[n - 1] == '\n'
    ensures Quiet(End(s, m, i, n)) && !End(s, m, i, n).LineComment?
    decreases n - i
  {
    if i + 1 < n {
      AfterNewLine(s, Step(m, s[i]).0, i + 1, n);
    } else {
      assert End(s, m, i, n) == Step(m, s[i]).0;
    }
  }

  /** Stopping at the window loses nothing: the whole file has the same directives. */
  lemma WindowSuffices(buffer: string, spare: string)
    requires !SliceBoundsFail(buffer, spare)
    ensures Run(buffer, Code, 0, Window(buffer, spare)).found == IncludesOf(buffer)
  {
    var n := |buffer|;
    var w := Window(buffer, spare);
    if w < n {
      RunSplit(buffer, Code, 0, w, n);
      AfterNewLine(buffer, Code, 0, w);
      var m := End(buffer, Code, 0, w);
      if LastHashIsEndif(buffer, spare) {
        var h := LastIndexOf(buffer, '#', n);
        if h < w {
          NoHashNoIncludes(buffer, m, w, n);
        } else {
          TailAfterWindow(buffer, spare, m, w, h);
        }
      } else {
        NoHashNoIncludes(buffer, m, w, n);
      }
    }
  }

  lemma TailAfterWindow(buffer: string, spare: string, m: Mode, w: nat, h: nat)
    requires LastHashIsEndif(buffer, spare) && h == LastIndexOf(buffer, '#', |buffer|)
    requires Quiet(m) && w <= h && forall k :: w <= k < h - 1 ==> buffer[k] != '#'
    ensures Run(buffer, m, w, |buffer|).found == []
  {
    hide Run, End;
    assert (buffer + spare)[h + 1] == (buffer + spare)[h..h + 6][1] == 'e';
    if w < h {
      RunSplit(buffer, m, w, h - 1, |buffer|);
      NoHashNoIncludes(buffer, m, w, h - 1);
      var m1 := End(buffer, m, w, h - 1);
      OneStep(buffer, m1, h - 1, |buffer|);
      EndifIsSilent(buffer, Step(m1, buffer[h - 1]).0, h);
    } else {
      EndifIsSilent(buffer, m, h);
    }
  }

  /** A file that ends with a newline never stops inside a comment. */
  lemma NewLineEndedFileIsFine(buffer: string, spare: string)
    requires !SliceBoundsFail(buffer, spare)
    requires buffer != "" && buffer[|buffer| - 1] == '\n'
    ensures !StopsInHashComment(buffer, spare)
  {
    var w := Window(buffer, spare);
    AfterNewLine(buffer, Code, 0, w);
    RunSplit(buffer, Code, 0, w, w);
  }

  // ---------------------------------------------------------------- the program

  datatype State = StateNone | StateAfterHash | StateAfterInclude | StateInsideQuoteBrackets | StateInsideAngleBrackets

  /** The automaton's mode the loop's variables stand for. */
  function ModeOf(buffer: string, state: State, isNext: bool, start: nat, offset: nat): (m: Mode)
    requires state.StateInsideQuoteBrackets? || state.StateInsideAngleBrackets? ==> start <= offset <= |buffer|
    ensures Legal(m)
  {
    match state
    case StateNone => Code
    case StateAfterHash => Hash
    case StateAfterInclude => Include(isNext)
    case StateInsideQuoteBrackets => Quote(isNext, buffer[start..offset])
    case StateInsideAngleBrackets => Angle(isNext, buffer[start..offset])
  }

  /** `next` is the first c at or after offset, or lies behind it, or there is none. */
  predicate IsNext(buffer: string, c: char, n: nat, offset: nat, next: int)
    requires n <= |buffer|
  {
    && -1 <= next < n
    && (next != -1 ==> buffer[next] == c)
    && (next == -1 ==> forall k :: offset <= k < n ==> buffer[k] != c)
    && (forall k :: offset <= k < next ==> buffer[k] != c)
  }

  /** The line-comment branch without a newline ahead: offset becomes -1, then 0, and the loop starts over. */
  ghost predicate Restarting(buffer: string, n: nat, state: State, offset: int, nextHash: int, nextSlash: int)
    requires n <= |buffer|
  {
    && state == StateNone && 0 <= offset <= nextSlash < nextHash < n
    && buffer[nextSlash] == '/' && buffer[nextSlash + 1] == '/' && buffer[nextHash] == '#'
    && StrChr(buffer, '\n', n, nextSlash) == -1
  }

  /** The block-comment loop: from the slash that opened the comment to the one that closes it, or -1. */
  method SkipToCommentEnd(buffer: string, n: nat, slash: nat) returns (offset: int)
    requires slash + 1 < n <= |buffer| && buffer[slash] == '/' && buffer[slash + 1] == '*'
    ensures offset == -1 || slash + 1 < offset < n
    ensures Run(buffer, Slash, slash + 1, n) ==
            if offset == -1 then Outcome([], false) else Run(buffer, Code, offset + 1, n)
  {
    offset := slash;
    var ok := true;
    while ok
      invariant slash <= offset < n && (offset == slash ==> ok)
      invariant offset > slash ==> offset > slash + 1 && buffer[offset] == '/' && ok == (buffer[offset - 1] != '*')
      invariant forall j :: slash + 2 <= j < offset ==> !(buffer[j] == '/' && buffer[j - 1] == '*')
      decreases n - offset, ok
    {
      offset := StrChr(buffer, '/', n, offset + 1);
      if offset == -1 {
        SkipBlockComment(buffer, slash + 2, n, n);
        return;
      }
      ok := buffer[offset - 1] != '*';
    }
    SkipBlockComment(buffer, slash + 2, offset, n);
  }

  /** What the loop does at a '/' in code: offset is the last character skipped, -1 if a line comment
      has no newline, and `over` tells that a block comment has no end. */
  method AtSlash(buffer: string, n: nat, slash: nat) returns (over: bool, offset: int)
    requires slash + 1 < n <= |buffer| && buffer[slash] == '/'
    ensures var was := Run(buffer, Code, slash, n);
            if over then offset == -1 && was == Outcome([], false)
            else if offset == -1 then
              && buffer[slash + 1] == '/' && StrChr(buffer, '\n', n, slash) == -1
              && was == Outcome([], exists k :: slash + 2 <= k < n && buffer[k] == '#')
            else slash <= offset < n && was == Run(buffer, Code, offset + 1, n)
    ensures buffer[slash + 1] == '/' && StrChr(buffer, '\n', n, slash) == -1 ==> !over && offset == -1
  {
    over, offset := false, slash;
    if buffer[offset + 1] == '/' {
      SkipLineComment(buffer, false, offset + 2, n);
      offset := StrChr(buffer, '\n', n, offset);
    } else if buffer[offset + 1] == '*' {
      offset := SkipToCommentEnd(buffer, n, offset);
      over := offset == -1;
    }
  }

  /** One round of the loop in state StateNone. `over` is the program's jump out of the loop; offset is -1
      after the line-comment branch found no newline, and then every later round ends the same way. */
  method InNone(buffer: string, n: nat, offset0: nat, hash: int, slash: int, ghost again: bool)
    returns (over: bool, state: State, offset: int, nextHash: int, nextSlash: int)
    requires offset0 < n <= |buffer|
    requires if again then Restarting(buffer, n, StateNone, offset0, hash, slash)
             else IsNext(buffer, '#', n, offset0, hash) && IsNext(buffer, '/', n, offset0, slash)
    ensures again ==> !over && offset == -1
    ensures !over && offset == -1 ==> state == StateNone && Restarting(buffer, n, state, 0, nextHash, nextSlash)
    ensures !again ==>
              var was := Run(buffer, Code, offset0, n);
              if over then was == Outcome([], false)
              else if offset == -1 then was.openHashComment
              else
                && offset0 <= offset < n && (state == StateNone || state == StateAfterHash)
                && was == Run(buffer, if state == StateNone then Code else Hash, offset + 1, n)
                && IsNext(buffer, '#', n, offset + 1, nextHash) && IsNext(buffer, '/', n, offset + 1, nextSlash)
  {
    hide Run, StrChr, End;
    over, state, offset, nextHash, nextSlash := false, StateNone, offset0, hash, slash;
    if nextHash != -1 && nextHash < offset {
      nextHash := StrChr(buffer, '#', n, offset);
    }
    if nextHash == -1 {
      NoHashNoIncludes(buffer, Code, offset, n);
      NotOpen(buffer, Code, offset, n);
      over := true;
      return;
    }
    if nextSlash != -1 && nextSlash < offset {
      nextSlash := StrChr(buffer, '/', n, offset);
    }
    if nextSlash != -1 && nextSlash < nextHash {
      if !again {
        SkipCode(buffer, offset0, nextSlash, n);
      }
      over, offset := AtSlash(buffer, n, nextSlash);
    } else {
      SkipCode(buffer, offset0, nextHash, n);
      OneStep(buffer, Code, nextHash, n);
      offset := nextHash;
      state := StateAfterHash;
    }
  }

  /** One round of the loop in any other state. */
  method InDirective(buffer: string, n: nat, state0: State, isNext0: bool, start0: nat, offset0: nat)
    returns (found: seq<IncludedArg>, state: State, isNext: bool, start: nat, offset: nat)
    requires offset0 < n <= |buffer| && state0 != StateNone
    requires state0.StateInsideQuoteBrackets? || state0.StateInsideAngleBrackets? ==> start0 <= offset0
    ensures offset0 <= offset < n
    ensures state.StateInsideQuoteBrackets? || state.StateInsideAngleBrackets? ==> start <= offset + 1
    ensures var was := Run(buffer, ModeOf(buffer, state0, isNext0, start0, offset0), offset0, n);
            var rest := Run(buffer, ModeOf(buffer, state, isNext, start, offset + 1), offset + 1, n);
            was == Outcome(found + rest.found, rest.openHashComment)
  {
    hide Run;
    OneStep(buffer, ModeOf(buffer, state0, isNext0, start0, offset0), offset0, n);
    found, state, isNext, start, offset := [], state0, isNext0, start0, offset0;
    match state {
      case StateAfterHash =>
        if buffer[offset] != ' ' && buffer[offset] != '\t' {
          DirectiveName(buffer, offset, n);
          if n > offset + 12 && buffer[offset..offset + 12] == "include_next" {
            state, offset, isNext := StateAfterInclude, offset + 11, true;
          } else if n > offset + 7 && buffer[offset..offset + 7] == "include" {
            state, offset, isNext := StateAfterInclude, offset + 6, false;
          } else {
            state := StateNone;
          }
        }

      case StateAfterInclude =>
        assert buffer[offset + 1..offset + 1] == "";
        if buffer[offset] == '<' {
          start, state := offset + 1, StateInsideAngleBrackets;
        } else if buffer[offset] == '"' {
          start, state := offset + 1, StateInsideQuoteBrackets;
        } else if buffer[offset] != ' ' && buffer[offset] != '\t' {
          state := StateNone;
        }

      case StateInsideAngleBrackets =>
        assert buffer[start..offset + 1] == buffer[start..offset] + [buffer[offset]];
        if buffer[offset] == '\n' {
          state := StateNone;
        } else if buffer[offset] == '>' {
          found, state := [IncludedArg(buffer[start..offset], false, isNext)], StateNone;
        }

      case StateInsideQuoteBrackets =>
        assert buffer[start..offset + 1] == buffer[start..offset] + [buffer[offset]];
        if buffer[offset] == '\n' {
          state := StateNone;
        } else if buffer[offset] == '"' {
          found, state := [IncludedArg(buffer[start..offset], true, isNext)], StateNone;
        }
    }
  }

  /** The scanning loop over buffer[..n], left after `rounds` rounds at the latest: `finished` tells
      whether it ended by itself. It ends, within n rounds and with the automaton's directives, exactly
      when the text does not stop in a line comment after a '#'; otherwise it never ends. */
  method ScanLoop(buffer: string, n: nat, rounds: nat) returns (includes: seq<IncludedArg>, finished: bool)
    requires n <= |buffer|
    ensures finished ==> !Run(buffer, Code, 0, n).openHashComment && includes == Run(buffer, Code, 0, n).found
    ensures !Run(buffer, Code, 0, n).openHashComment && rounds >= n ==> finished
  {
    hide Run, Restarting;
    includes := [];
    var state := StateNone;
    var isInsideIncludeNext := false;
    var offset: int := 0;
    var nextHash := StrChr(buffer, '#', n, 0);
    var nextSlash := StrChr(buffer, '/', n, 0);
    StrChrIsNext(buffer, '#', n, 0);
    StrChrIsNext(buffer, '/', n, 0);
    var start: nat := 0;
    var round := 0;
    ghost var whole := Run(buffer, Code, 0, n);
    ghost var restarting := false;
    while offset < n && round < rounds
      decreases rounds - round
      invariant round <= rounds && 0 <= offset <= n
      invariant state.StateInsideQuoteBrackets? || state.StateInsideAngleBrackets? ==> start <= offset
      invariant restarting ==> state == StateNone && offset == 0
      invariant restarting ==> whole.openHashComment && Restarting(buffer, n, state, offset, nextHash, nextSlash)
      invariant !restarting ==> IsNext(buffer, '#', n, offset, nextHash) && IsNext(buffer, '/', n, offset, nextSlash)
      invariant !restarting ==> round <= offset
      invariant !restarting ==>
        var rest := Run(buffer, ModeOf(buffer, state, isInsideIncludeNext, start, offset), offset, n);
        whole == Outcome(includes + rest.found, rest.openHashComment)
    {
      round := round + 1;
      if state == StateNone {
        var over;
        over, state, offset, nextHash, nextSlash := InNone(buffer, n, offset, nextHash, nextSlash, restarting);
        if over {
          return includes, true;
        }
        restarting := offset == -1;
      } else {
        var found;
        found, state, isInsideIncludeNext, start, offset :=
          InDirective(buffer, n, state, isInsideIncludeNext, start, offset);
        ghost var rest := Run(buffer, ModeOf(buffer, state, isInsideIncludeNext, start, offset + 1), offset + 1, n);
        assert includes + (found + rest.found) == (includes + found) + rest.found;
        includes := includes + found;
      }
      offset := offset + 1;
    }
    finished := offset >= n;
    if finished {
      NothingLeft(buffer, ModeOf(buffer, state, isInsideIncludeNext, start, offset), n);
      RestartingIsNotOver(buffer, n, state, offset, nextHash, nextSlash);
    }
  }

  lemma NothingLeft(s: string, m: Mode, n: nat)
    requires Legal(m) && n <= |s|
    ensures Run(s, m, n, n) == Outcome([], m == LineComment(true))
  {
  }

  lemma RestartingIsNotOver(buffer: string, n: nat, state: State, offset: int, nextHash: int, nextSlash: int)
    requires n <= |buffer| && offset >= n
    ensures !Restarting(buffer, n, state, offset, nextHash, nextSlash)
  {
  }

  lemma StrChrIsNext(buffer: string, c: char, n: nat, offset: nat)
    requires offset <= n <= |buffer|
    ensures IsNext(buffer, c, n, offset, StrChr(buffer, c, n, offset))
  {
  }

  datatype ScanResult = OutOfRange | Scanned(includes: seq<IncludedArg>, finished: bool)

  /** The whole function on any file, with its loop left after `rounds` rounds at the latest. Either a
      slice of the preamble is out of range, or the loop ends by itself within |buffer| rounds with the
      directives of the whole file, or it stops in a line comment after a '#' and never ends. */
  method CollectForRounds(buffer: string, spare: string, rounds: nat) returns (r: ScanResult)
    ensures r.OutOfRange? <==> SliceBoundsFail(buffer, spare)
    ensures r.Scanned? && r.finished ==> r.includes == IncludesOf(buffer)
    ensures r.Scanned? && StopsInHashComment(buffer, spare) ==> !r.finished
    ensures r.Scanned? && !StopsInHashComment(buffer, spare) && rounds >= |buffer| ==> r.finished
  {
    var bufferSize := |buffer|;
    var lastHash := LastIndexOf(buffer, '#', |buffer|);
    if lastHash != -1 {
      if lastHash + 6 > |buffer| + |spare| {
        return OutOfRange;
      }
      if (buffer + spare)[lastHash..lastHash + 6] == "#endif" {
        if lastHash - 1 < 0 {
          return OutOfRange;
        }
        lastHash := LastIndexOf(buffer, '#', lastHash - 1);
      }
      if lastHash != -1 {
        var newLineIdx := StrChr(buffer, '\n', bufferSize, lastHash);
        if newLineIdx != -1 {
          bufferSize := newLineIdx + 1;
        }
      }
    }
    assert bufferSize == Window(buffer, spare);
    WindowSuffices(buffer, spare);
    var includes, finished := ScanLoop(buffer, bufferSize, rounds);
    r := Scanned(includes, finished);
  }

  /** collectIncludeStatementsInFile, on the files it returns from. */
  method CollectIncludeStatementsInFile(buffer: string, spare: string) returns (includes: seq<IncludedArg>)
    requires !SliceBoundsFail(buffer, spare) && !StopsInHashComment(buffer, spare)
    ensures includes == IncludesOf(buffer)
  {
    var r := CollectForRounds(buffer, spare, |buffer|);
    includes := r.includes;
  }

  /** A last line "// #x" without its newline keeps the program busy forever, whatever the buffer holds behind it;
      a file that is just "#endif" makes it fail; and so does one whose last '#' has fewer than five bytes
      behind it in the buffer. */
  lemma TroublesomeFiles(front: string, spare: string)
    ensures |spare| >= 4 ==> !SliceBoundsFail("// #x", spare) && StopsInHashComment("// #x", spare)
    ensures |spare| < 5 ==> SliceBoundsFail(front + "#", spare)
    ensures SliceBoundsFail("#endif", spare)
  {
    var t, short := "// #x", front + "#";
    assert LastIndexOf(t, '#', 5) == 3;
    assert LastIndexOf("#endif", '#', 6) == 0 && ("#endif" + spare)[0..6] == ENDIF;
    assert short[|front|] == '#' && LastIndexOf(short, '#', |short|) == |front|;
    if |spare| >= 4 {
      assert (t + spare)[3..9][1] == 'x';
      SkipLineComment(t, false, 2, 5);
      assert Run(t, Code, 0, 5) == Run(t, Slash, 1, 5) == Run(t, LineComment(false), 2, 5);
      assert StrChr(t, '\n', 5, 2) == -1 && t[3] == '#';
    }
  }
}
