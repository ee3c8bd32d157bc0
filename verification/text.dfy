/** Searching in text, and printing and scanning numbers as Go's fmt does. */
module Text {
  import opened Wrappers

  // ---------------------------------------------------------------- search

  /** `part` stands at position i of s. */
  predicate At(s: string, i: int, part: string) {
    0 <= i <= |s| - |part| && s[i..i + |part|] == part
  }

  lemma AtLater(s: string, j: int, part: string)
    requires j > 0 && s != []
    ensures At(s, j, part) == At(s[1..], j - 1, part)
  {
    if j <= |s| - |part| {
      var a, b := s[j..j + |part|], s[1..][j - 1..j - 1 + |part|];
      assert |a| == |b| && forall k :: 0 <= k < |a| ==> a[k] == b[k];
    }
  }

  lemma AllLater(s: string, part: string)
    requires s != []
    ensures forall j :: 0 < j <= |s| ==> At(s, j, part) == At(s[1..], j - 1, part)
  {
    hide At;
    forall j | 0 < j <= |s| ensures At(s, j, part) == At(s[1..], j - 1, part) { AtLater(s, j, part); }
  }

  lemma AtStart(s: string, part: string)
    ensures At(s, 0, part) == (part <= s)
  {
  }

  /** bytes.Index: the first position of `part`, or -1. */
  function Index(s: string, part: string): (r: int)
    requires part != []
    ensures r == -1 || At(s, r, part)
    ensures forall j :: 0 <= j < (if r < 0 then |s| else r) ==> !At(s, j, part)
  {
    AtStart(s, part);
    if part <= s then 0
    else if s == [] then -1
    else
      AllLater(s, part);
      var i := Index(s[1..], part);
      if i < 0 then -1 else i + 1
  }

  lemma IndexIs(s: string, part: string, i: nat)
    requires part != [] && At(s, i, part) && forall j :: 0 <= j < i ==> !At(s, j, part)
    ensures Index(s, part) == i
  {
  }

  /** A character that is not in the first part is found in the second. */
  lemma IndexSkips(a: string, c: char, b: string)
    requires c !in a
    ensures Index(a + [c] + b, [c]) == |a|
  {
    var s := a + [c] + b;
    assert s[|a|] == c;
    assert At(s, |a|, [c]);
    forall j | 0 <= j < |a| ensures !At(s, j, [c]) {
      assert s[j] == a[j];
      assert s[j..j + 1] == [s[j]];
    }
    IndexIs(s, [c], |a|);
  }

  /** bytes.Contains. */
  predicate Contains(s: string, part: string) {
    |part| <= |s| && (part <= s || Contains(s[1..], part))
  }

  /** A text contains another one exactly if that stands somewhere in it. */
  lemma {:induction false} ContainsExactly(s: string, part: string)
    ensures Contains(s, part) <==> exists a: string, b: string :: s == a + part + b
    decreases |s|
  {
    if part <= s {
      assert s == [] + part + s[|part|..];
    } else if |part| <= |s| {
      var rest := s[1..];
      ContainsExactly(rest, part);
      if a: string, b: string :| rest == a + part + b { assert s == ([s[0]] + a) + part + b; }
      if a: string, b: string :| s == a + part + b { assert a != [] && rest == a[1..] + part + b; }
    }
  }

  // ---------------------------------------------------------------- parts

  /** strings.Split at a character: the parts between its occurrences. */
  function Split(c: char, s: string): (parts: seq<string>)
    ensures parts != [] && |parts[0]| <= |s|
  {
    if s == [] then [""]
    else
      var rest := Split(c, s[1..]);
      if s[0] == c then [""] + rest else [[s[0]] + rest[0]] + rest[1..]
  }

  /** strings.Join with a character. */
  function Joined(c: char, parts: seq<string>): string {
    if parts == [] then "" else if |parts| == 1 then parts[0] else parts[0] + ([c] + Joined(c, parts[1..]))
  }

  predicate NoneHas(c: char, parts: seq<string>) { forall i :: 0 <= i < |parts| ==> c !in parts[i] }

  /** One character more in front of parts. */
  lemma JoinedMore(c: char, x: char, rest: seq<string>)
    requires rest != []
    ensures Joined(c, [""] + rest) == [c] + Joined(c, rest)
    ensures Joined(c, [[x] + rest[0]] + rest[1..]) == [x] + Joined(c, rest)
  {
    assert ([""] + rest)[1..] == rest && ([[x] + rest[0]] + rest[1..])[1..] == rest[1..];
  }

  lemma NoneHasMore(c: char, x: char, rest: seq<string>)
    requires rest != [] && NoneHas(c, rest)
    ensures NoneHas(c, [""] + rest)
    ensures x != c ==> NoneHas(c, [[x] + rest[0]] + rest[1..])
  {
  }

  /** Joining takes splitting back, and no part contains the character. */
  lemma {:induction false} JoinSplit(c: char, s: string)
    ensures Joined(c, Split(c, s)) == s && NoneHas(c, Split(c, s))
  {
    if s == [] {
      assert NoneHas(c, [""]);
    } else {
      hide Joined, NoneHas;
      var rest := Split(c, s[1..]);
      JoinSplit(c, s[1..]);
      JoinedMore(c, s[0], rest);
      NoneHasMore(c, s[0], rest);
      assert s == [s[0]] + s[1..];
    }
  }

  lemma {:induction false} SplitAppend(c: char, part: string, more: string)
    requires c !in part
    ensures Split(c, part) == [part] && Split(c, part + ([c] + more)) == [part] + Split(c, more)
  {
    if part == [] {
      assert part + ([c] + more) == [c] + more && ([c] + more)[1..] == more;
    } else {
      SplitAppend(c, part[1..], more);
      assert (part + ([c] + more))[1..] == part[1..] + ([c] + more);
      assert [part[0]] + part[1..] == part;
      assert ([part[1..]] + Split(c, more))[1..] == Split(c, more);
    }
  }

  /** Splitting takes joining back exactly when there are parts and none contains the character. */
  lemma {:induction false} SplitJoined(c: char, parts: seq<string>)
    ensures Split(c, Joined(c, parts)) == parts <==> parts != [] && NoneHas(c, parts)
  {
    if parts != [] && NoneHas(c, parts) {
      SplitAppend(c, parts[0], Joined(c, parts[1..]));
      if |parts| > 1 {
        SplitJoined(c, parts[1..]);
        assert parts == [parts[0]] + parts[1..];
      }
    } else {
      JoinSplit(c, Joined(c, parts));
    }
  }

  lemma Regroup(parts: seq<string>, more: seq<string>)
    requires parts != []
    ensures [parts[0]] + (parts[1..] + more) == parts + more
  {
  }

  /** Parts in front, and a text whose parts follow. */
  lemma {:induction false} SplitBehind(c: char, parts: seq<string>, more: string)
    requires parts != [] && NoneHas(c, parts)
    ensures Split(c, Joined(c, parts) + ([c] + more)) == parts + Split(c, more)
  {
    hide Split;
    if |parts| == 1 {
      SplitAppend(c, parts[0], more);
      assert parts == [parts[0]];
    } else {
      var rest := Joined(c, parts[1..]) + ([c] + more);
      assert Joined(c, parts) + ([c] + more) == parts[0] + ([c] + rest);
      SplitAppend(c, parts[0], rest);
      SplitBehind(c, parts[1..], more);
      Regroup(parts, Split(c, more));
    }
  }

  /** Joining in two steps. */
  lemma {:induction false} JoinedBehind(c: char, parts: seq<string>, more: seq<string>)
    requires parts != [] && more != []
    ensures Joined(c, parts + more) == Joined(c, parts) + ([c] + Joined(c, more))
  {
    if |parts| == 1 {
      assert (parts + more)[1..] == more;
    } else {
      assert (parts + more)[1..] == parts[1..] + more;
      JoinedBehind(c, parts[1..], more);
    }
  }

  /** What is not in a text is not in its parts. */
  lemma {:induction false} SplitKeeps(c: char, s: string, other: char)
    requires other !in s
    ensures NoneHas(other, Split(c, s))
  {
    if s != [] { SplitKeeps(c, s[1..], other); }
  }

  lemma {:induction false} JoinedKeeps(c: char, parts: seq<string>, other: char)
    requires NoneHas(other, parts) && other != c
    ensures other !in Joined(c, parts)
  {
    if |parts| > 1 { JoinedKeeps(c, parts[1..], other); }
  }

  /** Each part is the beginning of one. */
  predicate Shortened(short: seq<string>, long: seq<string>) {
    |short| <= |long| && forall k :: 0 <= k < |short| ==> short[k] <= long[k]
  }

  lemma ShortenedMore(x: char, short: seq<string>, long: seq<string>)
    requires short != [] && Shortened(short, long)
    ensures Shortened([""] + short, [""] + long)
    ensures Shortened([[x] + short[0]] + short[1..], [[x] + long[0]] + long[1..])
  {
    var a, b := [[x] + short[0]] + short[1..], [[x] + long[0]] + long[1..];
    forall k | 0 <= k < |a| ensures a[k] <= b[k] {
      if k > 0 { assert a[k] == short[k] && b[k] == long[k]; }
    }
  }

  /** The parts of a text that is cut off are the parts of the text, the last one cut off. */
  lemma {:induction false} SplitPrefix(c: char, s: string, i: nat)
    requires i <= |s|
    ensures Shortened(Split(c, s[..i]), Split(c, s))
  {
    if i == 0 {
      assert s[..0] == [];
    } else {
      hide Shortened;
      assert s[..i][1..] == s[1..][..i - 1];
      SplitPrefix(c, s[1..], i - 1);
      ShortenedMore(s[0], Split(c, s[1..][..i - 1]), Split(c, s[1..]));
    }
  }

  // ---------------------------------------------------------------- numbers

  predicate IsBase(base: nat) { base == 10 || base == 16 }

  function DigitOf(n: nat): char
    requires n < 16
  {
    if n < 10 then ('0' as int + n) as char else ('a' as int + n - 10) as char
  }

  /** What the character stands for; hexadecimal digits may be capital. */
  function DigitValue(c: char): nat {
    if '0' <= c <= '9' then c as int - '0' as int
    else if 'a' <= c <= 'f' then c as int - 'a' as int + 10
    else if 'A' <= c <= 'F' then c as int - 'A' as int + 10
    else 16
  }

  predicate IsDigit(base: nat, c: char) { DigitValue(c) < base }

  predicate AllDigits(base: nat, s: string) { forall i :: 0 <= i < |s| ==> IsDigit(base, s[i]) }

  lemma DigitOfIsDigit(n: nat)
    requires n < 16
    ensures DigitValue(DigitOf(n)) == n
  {
  }

  /** %d and %x of a number that is not negative. */
  function Digits(base: nat, n: nat): (s: string)
    requires IsBase(base)
    ensures s != [] && AllDigits(base, s)
  {
    DigitOfIsDigit(if base == 10 then n % 10 else n % 16);
    if n < base then DigitOfIsDigit(n); [DigitOf(n)]
    else if base == 10 then Digits(10, n / 10) + [DigitOf(n % 10)]
    else Digits(16, n / 16) + [DigitOf(n % 16)]
  }

  /** The digits, literally, the highest first. */
  lemma DigitsExactly(base: nat, n: nat)
    requires IsBase(base)
    ensures n < 10 ==> Digits(base, n) == ["0123456789"[n]]
    ensures base == 16 && 10 <= n < 16 ==> Digits(base, n) == ["abcdef"[n - 10]]
    ensures n >= base ==>
              Digits(base, n) == if base == 10 then Digits(10, n / 10) + ["0123456789"[n % 10]]
                                 else Digits(16, n / 16) + ["0123456789abcdef"[n % 16]]
  {
    forall d: nat | d < 16 ensures DigitOf(d) == "0123456789abcdef"[d] { Digit(d); }
  }

  lemma Digit(d: nat)
    requires d < 16
    ensures DigitOf(d) == "0123456789abcdef"[d]
  {
  }

  function ValueOf(base: nat, s: string): nat
    requires IsBase(base)
  {
    if s == [] then 0
    else
      var high := ValueOf(base, s[..|s| - 1]);
      (if base == 10 then 10 * high else 16 * high) + DigitValue(s[|s| - 1])
  }

  /** The longest run of digits at the front: its length. */
  function RunLength(base: nat, s: string): (n: nat)
    ensures n <= |s| && AllDigits(base, s[..n])
    ensures n < |s| ==> !IsDigit(base, s[n])
  {
    if s == [] || !IsDigit(base, s[0]) then 0
    else
      var n := RunLength(base, s[1..]);
      assert s[..n + 1] == [s[0]] + s[1..][..n];
      1 + n
  }

  lemma {:induction false} ValueOfDigits(base: nat, n: nat)
    requires IsBase(base)
    ensures ValueOf(base, Digits(base, n)) == n
  {
    var s := Digits(base, n);
    if n < base {
      DigitOfIsDigit(n);
      assert s == [DigitOf(n)] && s[..0] == [];
    } else if base == 10 {
      ValueOfDigits(10, n / 10);
      DigitOfIsDigit(n % 10);
      assert s[..|s| - 1] == Digits(10, n / 10);
    } else {
      ValueOfDigits(16, n / 16);
      DigitOfIsDigit(n % 16);
      assert s[..|s| - 1] == Digits(16, n / 16);
    }
  }

  /** A run of digits ends where the text goes on with anything else. */
  lemma {:induction false} RunOf(base: nat, run: string, rest: string)
    requires AllDigits(base, run) && (rest == [] || !IsDigit(base, rest[0]))
    ensures RunLength(base, run + rest) == |run|
  {
    if run == [] {
      assert run + rest == rest;
    } else {
      assert (run + rest)[1..] == run[1..] + rest;
      RunOf(base, run[1..], rest);
    }
  }

  /** What was scanned, and the text after it. */
  datatype Scanned<+T> = Scanned(value: T, rest: string)

  /** An unsigned number below the limit; at least one digit, as many as there are. */
  function ScanNumber(base: nat, limit: nat, s: string): (r: Option<Scanned<nat>>)
    requires IsBase(base)
    ensures r.Some? ==> r.value.value < limit && |r.value.rest| < |s|
  {
    var n := RunLength(base, s);
    if n == 0 || ValueOf(base, s[..n]) >= limit then None
    else Some(Scanned(ValueOf(base, s[..n]), s[n..]))
  }

  /** What was printed is scanned back. */
  lemma ScanPrinted(base: nat, limit: nat, n: nat, rest: string)
    requires IsBase(base) && n < limit && (rest == [] || !IsDigit(base, rest[0]))
    ensures ScanNumber(base, limit, Digits(base, n) + rest) == Some(Scanned(n, rest))
  {
    hide Digits, ValueOf, RunLength;
    RunOf(base, Digits(base, n), rest);
    ValueOfDigits(base, n);
    assert (Digits(base, n) + rest)[..|Digits(base, n)|] == Digits(base, n);
    assert (Digits(base, n) + rest)[|Digits(base, n)|..] == rest;
  }

  /** int64. */
  type int64 = x: int | -0x8000_0000_0000_0000 <= x < 0x8000_0000_0000_0000

  /** %d of an int64. */
  function Decimal(n: int64): (s: string)
    ensures s != []
  {
    var m: int := n;
    if m < 0 then "-" + Digits(10, -m) else Digits(10, m)
  }

  function ScanDecimal(s: string): (r: Option<Scanned<int64>>)
    ensures r.Some? ==> |r.value.rest| < |s|
  {
    if s != [] && s[0] == '-' then
      match ScanNumber(10, 0x8000_0000_0000_0001, s[1..])
      case None => None
      case Some(n) => var m: int := n.value; var v: int64 := -m; Some(Scanned(v, n.rest))
    else
      match ScanNumber(10, 0x8000_0000_0000_0000, if s != [] && s[0] == '+' then s[1..] else s)
      case None => None
      case Some(n) => var v: int64 := n.value; Some(Scanned(v, n.rest))
  }

  lemma ScanDecimalPrinted(n: int64, rest: string)
    requires rest == [] || !IsDigit(10, rest[0])
    ensures ScanDecimal(Decimal(n) + rest) == Some(Scanned(n, rest))
  {
    hide Digits, ScanNumber;
    var m: int := n;
    if m < 0 {
      assert (Decimal(n) + rest)[1..] == Digits(10, -m) + rest;
      ScanPrinted(10, 0x8000_0000_0000_0001, -m, rest);
    } else {
      var d := Digits(10, m);
      assert IsDigit(10, d[0]) && (d + rest)[0] == d[0];
      ScanPrinted(10, 0x8000_0000_0000_0000, m, rest);
    }
  }
}
