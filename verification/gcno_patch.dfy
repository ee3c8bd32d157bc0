/** Replacing the cwd recorded in a .gcno (internal/server/coverage.go): the record is looked for in four
    layouts, and only an unambiguous match is patched. */
module GcnoPatch {
  import opened Wrappers

  type byte = x: nat | x < 256
  type Bytes = seq<byte>

  datatype Order = LittleEndian | BigEndian

  /** The offset of the length word, and its unit: 4-byte words before gcc 12, bytes since. */
  datatype Layout = Layout(offset: nat, lengthWords: bool)

  datatype Error = NotGcno | Matches(count: nat)

  const TWO_TO_THE_32 := 0x1_0000_0000

  // ---------------------------------------------------------------- records

  const LITTLE_MAGIC: Bytes := [111, 110, 99, 103]   // "oncg"
  const BIG_MAGIC: Bytes := [103, 99, 110, 111]      // "gcno"

  function OrderOf(gcno: Bytes): Option<Order> {
    if LITTLE_MAGIC <= gcno then Some(LittleEndian)
    else if BIG_MAGIC <= gcno then Some(BigEndian)
    else None
  }

  /** AppendUint32, of a length converted to 32 bits. */
  function Uint32(order: Order, n: nat): (r: Bytes)
    ensures |r| == 4
  {
    var v := n % TWO_TO_THE_32;
    var v1, v2 := v / 0x100, v / 0x100 / 0x100;
    var b0: byte, b1: byte, b2: byte, b3: byte := v % 0x100, v1 % 0x100, v2 % 0x100, v2 / 0x100;
    if order == LittleEndian then [b0, b1, b2, b3] else [b3, b2, b1, b0]
  }

  /** The number these four bytes stand for. */
  function ValueOf(order: Order, b: Bytes): nat
    requires |b| == 4
  {
    var b0: nat, b1: nat, b2: nat, b3: nat := b[0], b[1], b[2], b[3];
    if order == LittleEndian then b0 + 0x100 * (b1 + 0x100 * (b2 + 0x100 * b3))
    else b3 + 0x100 * (b2 + 0x100 * (b1 + 0x100 * b0))
  }

  lemma Uint32Value(order: Order, n: nat)
    ensures ValueOf(order, Uint32(order, n)) == n % TWO_TO_THE_32
  {
    var v := n % TWO_TO_THE_32;
    var v1 := v / 0x100;
    assert v == v % 0x100 + 0x100 * v1;
    assert v1 == v1 % 0x100 + 0x100 * (v1 / 0x100);
  }

  function Zeros(n: nat): (r: Bytes)
    ensures |r| == n && forall i :: 0 <= i < n ==> r[i] == 0
  {
    seq(n, _ => 0)
  }

  /** The value of the length word, and the size of the string with its NUL and padding. */
  function LengthOf(l: Layout, s: Bytes): nat { if l.lengthWords then (|s| + 4) / 4 else |s| + 1 }
  function SizeOf(l: Layout, s: Bytes): (n: nat)
    ensures n > |s|
  {
    if l.lengthWords then (|s| + 4) / 4 * 4 else |s| + 1
  }

  function Record(order: Order, l: Layout, s: Bytes): (r: Bytes)
    ensures |r| == 4 + SizeOf(l, s)
  {
    Uint32(order, LengthOf(l, s)) + s + Zeros(SizeOf(l, s) - |s|)
  }

  predicate Fits(order: Order, gcno: Bytes, l: Layout, cwd: Bytes) {
    l.offset <= |gcno| && Record(order, l, cwd) <= gcno[l.offset..]
  }

  /** The layouts in the order they are tried. */
  function LayoutNo(n: nat): Layout { Layout(if n < 2 then 12 else 16, n % 2 == 1) }

  function Found(order: Order, gcno: Bytes, cwd: Bytes, n: nat): seq<Layout>
    requires n <= 4
  {
    if n == 0 then []
    else Found(order, gcno, cwd, n - 1) + (if Fits(order, gcno, LayoutNo(n - 1), cwd) then [LayoutNo(n - 1)] else [])
  }

  /** The bytes with the record of this layout replaced. */
  function Replaced(order: Order, gcno: Bytes, l: Layout, from: Bytes, to: Bytes): Bytes
    requires Fits(order, gcno, l, from)
  {
    gcno[..l.offset] + Record(order, l, to) + gcno[l.offset + |Record(order, l, from)|..]
  }

  function Patched(gcno: Bytes, serverCwd: Bytes, clientCwd: Bytes): Result<Bytes, Error> {
    match OrderOf(gcno)
    case None => Err(NotGcno)
    case Some(order) =>
      var found := Found(order, gcno, serverCwd, 4);
      if |found| != 1 then Err(Matches(|found|))
      else
        FoundFits(order, gcno, serverCwd, 4);
        Ok(Replaced(order, gcno, found[0], serverCwd, clientCwd))
  }

  lemma FoundFits(order: Order, gcno: Bytes, cwd: Bytes, n: nat)
    requires n <= 4
    ensures forall i :: 0 <= i < |Found(order, gcno, cwd, n)| ==> Fits(order, gcno, Found(order, gcno, cwd, n)[i], cwd)
    ensures forall k :: 0 <= k < n && Fits(order, gcno, LayoutNo(k), cwd) ==> LayoutNo(k) in Found(order, gcno, cwd, n)
  {
    if n > 0 { FoundFits(order, gcno, cwd, n - 1); }
  }

  lemma FoundStep(gcno: Bytes, cwd: Bytes)
    ensures forall order :: Found(order, gcno, cwd, 0) == []
    ensures forall order, n :: 0 < n <= 4 ==>
              Found(order, gcno, cwd, n)
              == Found(order, gcno, cwd, n - 1)
                 + (if Fits(order, gcno, LayoutNo(n - 1), cwd) then [LayoutNo(n - 1)] else [])
  {
  }

  /** patchGcnoCwd */
  method PatchGcnoCwd(gcno: Bytes, serverCwd: Bytes, clientCwd: Bytes) returns (r: Result<Bytes, Error>)
    ensures r == Patched(gcno, serverCwd, clientCwd)
  {
    hide Record, Fits, Replaced, Found;
    FoundStep(gcno, serverCwd);
    if |gcno| < 4 { return Err(NotGcno); }
    var order;
    if gcno[..4] == LITTLE_MAGIC {
      order := LittleEndian;
    } else if gcno[..4] == BIG_MAGIC {
      order := BigEndian;
    } else {
      return Err(NotGcno);
    }
    var found: seq<Layout> := [];
    for i := 0 to 2
      invariant found == Found(order, gcno, serverCwd, 2 * i)
    {
      for j := 0 to 2
        invariant found == Found(order, gcno, serverCwd, 2 * i + j)
      {
        var l := Layout(if i == 0 then 12 else 16, j == 1);
        assert l == LayoutNo(2 * i + j);
        if Fits(order, gcno, l, serverCwd) { found := found + [l]; }
      }
    }
    if |found| != 1 { return Err(Matches(|found|)); }
    FoundFits(order, gcno, serverCwd, 4);
    return Ok(Replaced(order, gcno, found[0], serverCwd, clientCwd));
  }

  // ---------------------------------------------------------------- one layout at most

  predicate NulFree(s: Bytes) { forall i :: 0 <= i < |s| ==> s[i] != 0 }

  /** The only strings two layouts can hold at once; an absolute path is none of them. */
  predicate Ambiguous(order: Order, s: Bytes) { s == [] || (order == LittleEndian && (s == [1] || s == [2])) }

  lemma Uint32Injective(order: Order, m: nat, n: nat)
    requires m < TWO_TO_THE_32 && n < TWO_TO_THE_32 && Uint32(order, m) == Uint32(order, n)
    ensures m == n
  {
    Uint32Value(order, m);
    Uint32Value(order, n);
  }

  /** What a match means, byte by byte. */
  lemma FitsAt(order: Order, gcno: Bytes, l: Layout, s: Bytes)
    requires Fits(order, gcno, l, s)
    ensures l.offset + 4 + SizeOf(l, s) <= |gcno|
    ensures gcno[l.offset..l.offset + 4] == Uint32(order, LengthOf(l, s))
    ensures forall i :: 0 <= i < |s| ==> gcno[l.offset + 4 + i] == s[i]
    ensures gcno[l.offset + 4 + |s|] == 0
  {
    hide Uint32;
    var r := Record(order, l, s);
    assert r == gcno[l.offset..l.offset + |r|];
    assert r[..4] == Uint32(order, LengthOf(l, s));
    assert forall i :: 0 <= i < |s| ==> r[4 + i] == s[i];
    assert r[4 + |s|] == 0;
  }

  lemma SameOffset(order: Order, gcno: Bytes, s: Bytes, offset: nat)
    requires |s| + 1 < TWO_TO_THE_32
    requires Fits(order, gcno, Layout(offset, false), s) && Fits(order, gcno, Layout(offset, true), s)
    ensures s == []
  {
    hide Uint32, Fits, Record;
    FitsAt(order, gcno, Layout(offset, false), s);
    FitsAt(order, gcno, Layout(offset, true), s);
    Uint32Injective(order, |s| + 1, (|s| + 4) / 4);
  }

  lemma SmallUint32(order: Order, n: nat)
    requires n < 256
    ensures Uint32(order, n) == if order == LittleEndian then [n, 0, 0, 0] else [0, 0, 0, n]
  {
    assert n % TWO_TO_THE_32 == n && n / 0x100 == 0;
  }

  /** Two matches read the string at 16 as a length word too. */
  lemma ReadTwice(order: Order, gcno: Bytes, s: Bytes, a: bool, b: bool)
    requires Fits(order, gcno, Layout(12, a), s) && Fits(order, gcno, Layout(16, b), s)
    ensures |s| >= 4 ==> s[|s| - 4] == 0
    ensures |s| >= 1 ==> s[0] == Uint32(order, LengthOf(Layout(16, b), s))[0]
    ensures |s| >= 2 ==> s[1] == Uint32(order, LengthOf(Layout(16, b), s))[1]
  {
    hide Uint32, Fits, Record;
    FitsAt(order, gcno, Layout(12, a), s);
    FitsAt(order, gcno, Layout(16, b), s);
    if |s| >= 4 {
      assert gcno[20 + (|s| - 4)] == s[|s| - 4];
    }
    assert gcno[16..20][0] == gcno[16 + 0] && gcno[16..20][1] == gcno[16 + 1];
  }

  /** That fails at the NUL, or at the first bytes. */
  lemma TwoOffsets(order: Order, gcno: Bytes, s: Bytes, a: bool, b: bool)
    requires NulFree(s) && s != []
    requires Fits(order, gcno, Layout(12, a), s) && Fits(order, gcno, Layout(16, b), s)
    ensures Ambiguous(order, s)
  {
    hide Fits, Record, Uint32;
    if |s| < 4 { SmallUint32(order, LengthOf(Layout(16, b), s)); }
    assert |s| == 1 ==> s == [s[0]];
    ReadTwice(order, gcno, s, a, b);
  }

  lemma NotBoth(order: Order, gcno: Bytes, s: Bytes, i: nat, j: nat)
    requires NulFree(s) && |s| + 1 < TWO_TO_THE_32 && !Ambiguous(order, s) && i < j < 4
    ensures !(Fits(order, gcno, LayoutNo(i), s) && Fits(order, gcno, LayoutNo(j), s))
  {
    hide Fits;
    if Fits(order, gcno, LayoutNo(i), s) && Fits(order, gcno, LayoutNo(j), s) {
      if j < 2 || i >= 2 {
        SameOffset(order, gcno, s, LayoutNo(i).offset);
      } else {
        TwoOffsets(order, gcno, s, i == 1, j == 3);
      }
    }
  }

  lemma AtMostOneLayout(order: Order, gcno: Bytes, s: Bytes)
    requires NulFree(s) && |s| + 1 < TWO_TO_THE_32 && !Ambiguous(order, s)
    ensures |Found(order, gcno, s, 4)| <= 1
    ensures forall k :: 0 <= k < 4 && Fits(order, gcno, LayoutNo(k), s) ==> Found(order, gcno, s, 4) == [LayoutNo(k)]
  {
    hide Fits, Found;
    forall i, j | 0 <= i < j < 4 ensures !(Fits(order, gcno, LayoutNo(i), s) && Fits(order, gcno, LayoutNo(j), s)) {
      NotBoth(order, gcno, s, i, j);
    }
    FoundStep(gcno, s);
    FoundFits(order, gcno, s, 4);
    assert LayoutNo(0) != LayoutNo(1);
    assert |Found(order, gcno, s, 2)| <= 1 && |Found(order, gcno, s, 3)| <= 1;
  }

  lemma FitsWhen(order: Order, gcno: Bytes, l: Layout, s: Bytes, record: Bytes)
    requires Record(order, l, s) == record
    requires l.offset + |record| <= |gcno| && gcno[l.offset..l.offset + |record|] == record
    ensures Fits(order, gcno, l, s)
  {
  }

  function Magic(order: Order): Bytes { if order == LittleEndian then LITTLE_MAGIC else BIG_MAGIC }

  /** A file with this after its first twelve bytes. */
  function WithHeader(order: Order, rest: Bytes): (gcno: Bytes)
    ensures |gcno| == 12 + |rest| && gcno[12..] == rest && OrderOf(gcno) == Some(order)
  {
    var gcno := Magic(order) + Zeros(8) + rest;
    assert gcno[0] == Magic(order)[0];
    assert LITTLE_MAGIC <= gcno <==> order == LittleEndian;
    gcno
  }

  lemma TwiceEmpty(order: Order) returns (gcno: Bytes)
    ensures OrderOf(gcno) == Some(order) && Fits(order, gcno, LayoutNo(0), []) && Fits(order, gcno, LayoutNo(1), [])
  {
    hide Fits, Uint32, OrderOf;
    var record := Uint32(order, 1) + [0, 0, 0, 0];
    gcno := WithHeader(order, record);
    FitsWhen(order, gcno, LayoutNo(1), [], record);
    assert record[..5] == Uint32(order, 1) + [0] && gcno[12..17] == record[..5];
    FitsWhen(order, gcno, LayoutNo(0), [], record[..5]);
  }

  lemma TwiceOne() returns (gcno: Bytes)
    ensures OrderOf(gcno) == Some(LittleEndian)
    ensures Fits(LittleEndian, gcno, LayoutNo(1), [1]) && Fits(LittleEndian, gcno, LayoutNo(3), [1])
  {
    hide Fits, Uint32, OrderOf;
    var record: Bytes := [1, 0, 0, 0, 1, 0, 0, 0];
    gcno := WithHeader(LittleEndian, [1, 0, 0, 0, 1, 0, 0, 0, 1, 0, 0, 0]);
    SmallUint32(LittleEndian, 1);
    assert gcno[12..20] == record && gcno[16..24] == record;
    FitsWhen(LittleEndian, gcno, LayoutNo(1), [1], record);
    FitsWhen(LittleEndian, gcno, LayoutNo(3), [1], record);
  }

  lemma TwiceTwo() returns (gcno: Bytes)
    ensures OrderOf(gcno) == Some(LittleEndian)
    ensures Fits(LittleEndian, gcno, LayoutNo(0), [2]) && Fits(LittleEndian, gcno, LayoutNo(2), [2])
  {
    hide Fits, Uint32, OrderOf;
    var record: Bytes := [2, 0, 0, 0, 2, 0];
    gcno := WithHeader(LittleEndian, [2, 0, 0, 0, 2, 0, 0, 0, 2, 0]);
    SmallUint32(LittleEndian, 2);
    assert gcno[12..18] == record && gcno[16..22] == record;
    FitsWhen(LittleEndian, gcno, LayoutNo(0), [2], record);
    FitsWhen(LittleEndian, gcno, LayoutNo(2), [2], record);
  }

  /** A .gcno that holds an ambiguous string twice. */
  lemma AmbiguousMatchesTwice(order: Order, s: Bytes) returns (gcno: Bytes, i: nat, j: nat)
    requires Ambiguous(order, s)
    ensures OrderOf(gcno) == Some(order) && i < j < 4
    ensures Fits(order, gcno, LayoutNo(i), s) && Fits(order, gcno, LayoutNo(j), s)
  {
    hide Fits, OrderOf;
    if s == [] {
      gcno := TwiceEmpty(order);
      i, j := 0, 1;
    } else if s == [1] {
      gcno := TwiceOne();
      i, j := 1, 3;
    } else {
      gcno := TwiceTwo();
      i, j := 0, 2;
    }
  }

  lemma TwoMatches(order: Order, gcno: Bytes, s: Bytes, i: nat, j: nat)
    requires i < j < 4 && Fits(order, gcno, LayoutNo(i), s) && Fits(order, gcno, LayoutNo(j), s)
    ensures |Found(order, gcno, s, 4)| > 1
  {
    hide Fits;
    FoundFits(order, gcno, s, 4);
  }

  /** Exactly the other strings are never found twice. */
  lemma UnambiguousExactly(order: Order, s: Bytes)
    requires NulFree(s) && |s| + 1 < TWO_TO_THE_32
    ensures (forall gcno :: |Found(order, gcno, s, 4)| <= 1) <==> !Ambiguous(order, s)
  {
    hide Found, Fits;
    if Ambiguous(order, s) {
      var gcno, i, j := AmbiguousMatchesTwice(order, s);
      TwoMatches(order, gcno, s, i, j);
    } else {
      forall gcno ensures |Found(order, gcno, s, 4)| <= 1 { AtMostOneLayout(order, gcno, s); }
    }
  }

  // ---------------------------------------------------------------- what gcc reads there

  /** How many bytes the length word announces. */
  function Announced(order: Order, gcno: Bytes, l: Layout): nat
    requires l.offset + 4 <= |gcno|
  {
    ValueOf(order, gcno[l.offset..l.offset + 4]) * (if l.lengthWords then 4 else 1)
  }

  /** A reader of this layout finds this string there: so many bytes as announced, the string, then its NUL; and the
      padding up to a whole word, if lengths are in words. */
  predicate Holds(order: Order, gcno: Bytes, l: Layout, s: Bytes) {
    && l.offset + 4 <= |gcno| && l.offset + 4 + Announced(order, gcno, l) <= |gcno|
    && |s| < Announced(order, gcno, l) <= |s| + (if l.lengthWords then 4 else 1)
    && gcno[l.offset + 4..l.offset + 4 + |s|] == s
    && forall i :: l.offset + 4 + |s| <= i < l.offset + 4 + Announced(order, gcno, l) ==> gcno[i] == 0
  }

  lemma LengthAnnounces(order: Order, l: Layout, s: Bytes)
    requires |s| + 1 < TWO_TO_THE_32
    ensures ValueOf(order, Uint32(order, LengthOf(l, s))) * (if l.lengthWords then 4 else 1) == SizeOf(l, s)
    ensures forall n: nat :: |s| < n * 4 <= |s| + 4 ==> n == (|s| + 4) / 4
  {
    Uint32Value(order, LengthOf(l, s));
  }

  /** What is looked for is found exactly where a reader would read it. */
  lemma FitsExactly(order: Order, gcno: Bytes, l: Layout, s: Bytes)
    requires |s| + 1 < TWO_TO_THE_32
    ensures Fits(order, gcno, l, s) <==> Holds(order, gcno, l, s)
    ensures Holds(order, gcno, l, s) ==> Announced(order, gcno, l) + 4 == |Record(order, l, s)|
  {
    hide Fits, Holds, Record, Announced;
    if Fits(order, gcno, l, s) { FoundIsHeld(order, gcno, l, s); }
    if Holds(order, gcno, l, s) { HeldIsFound(order, gcno, l, s); }
  }

  lemma FoundIsHeld(order: Order, gcno: Bytes, l: Layout, s: Bytes)
    requires |s| + 1 < TWO_TO_THE_32 && Fits(order, gcno, l, s)
    ensures Holds(order, gcno, l, s)
  {
    hide Uint32, Fits, Record, ValueOf;
    LengthAnnounces(order, l, s);
    FitsAt(order, gcno, l, s);
    PaddedAt(order, gcno, l, s);
  }

  lemma HeldIsFound(order: Order, gcno: Bytes, l: Layout, s: Bytes)
    requires |s| + 1 < TWO_TO_THE_32 && Holds(order, gcno, l, s)
    ensures Fits(order, gcno, l, s) && Announced(order, gcno, l) + 4 == |Record(order, l, s)|
  {
    hide Uint32, ValueOf, Record;
    LengthAnnounces(order, l, s);
    var word, held := gcno[l.offset..l.offset + 4], gcno[l.offset + 4..l.offset + 4 + |s|];
    assert ValueOf(order, word) == LengthOf(l, s);
    WordOf(order, word, LengthOf(l, s));
    var r := Record(order, l, s);
    assert r == gcno[l.offset..l.offset + |r|] by {
      forall k | 0 <= k < |r| ensures r[k] == gcno[l.offset + k] {
        RecordAt(order, l, s, k);
        if k < 4 { assert word[k] == gcno[l.offset + k]; } else if k < 4 + |s| { assert held[k - 4] == s[k - 4]; }
      }
    }
    assert gcno[l.offset..][..|r|] == gcno[l.offset..l.offset + |r|];
  }

  lemma RecordAt(order: Order, l: Layout, s: Bytes, k: nat)
    requires k < |Record(order, l, s)|
    ensures Record(order, l, s)[k]
         == if k < 4 then Uint32(order, LengthOf(l, s))[k] else if k < 4 + |s| then s[k - 4] else 0
  {
    hide Uint32;
  }

  lemma PaddedAt(order: Order, gcno: Bytes, l: Layout, s: Bytes)
    requires Fits(order, gcno, l, s)
    ensures forall i :: l.offset + 4 + |s| <= i < l.offset + 4 + SizeOf(l, s) ==> gcno[i] == 0
    ensures gcno[l.offset + 4..l.offset + 4 + |s|] == s
  {
    hide Uint32;
    var r := Record(order, l, s);
    assert r == gcno[l.offset..l.offset + |r|];
    assert forall k :: 4 + |s| <= k < |r| ==> r[k] == 0;
  }

  lemma LowByte(b: nat, m: nat)
    requires b < 0x100
    ensures (b + 0x100 * m) % 0x100 == b && (b + 0x100 * m) / 0x100 == m
  {
  }

  lemma LowBytes(b0: byte, b1: byte, b2: byte, b3: byte)
    ensures var n: nat := b0 + 0x100 * (b1 + 0x100 * (b2 + 0x100 * b3));
            && n < TWO_TO_THE_32 && n % 0x100 == b0 && n / 0x100 % 0x100 == b1
            && n / 0x100 / 0x100 % 0x100 == b2 && n / 0x100 / 0x100 / 0x100 == b3
  {
    var m2: nat := b2 + 0x100 * b3;
    var m1: nat := b1 + 0x100 * m2;
    LowByte(b0, m1);
    LowByte(b1, m2);
    LowByte(b2, b3);
  }

  /** Four bytes are determined by their value. */
  lemma WordOf(order: Order, b: Bytes, n: nat)
    requires |b| == 4 && ValueOf(order, b) == n
    ensures b == Uint32(order, n)
  {
    if order == LittleEndian { LowBytes(b[0], b[1], b[2], b[3]); } else { LowBytes(b[3], b[2], b[1], b[0]); }
    Same(n);
  }

  lemma Same(n: nat)
    ensures n < TWO_TO_THE_32 ==> n % TWO_TO_THE_32 == n
  {
  }

  const MAGIC := 0x67_63_6e_6f   // "gcno" as a number

  /** The order is the one in which the file's first word is the magic number. */
  lemma OrderExactly(gcno: Bytes, order: Order)
    ensures OrderOf(gcno) == Some(order) <==> |gcno| >= 4 && ValueOf(order, gcno[..4]) == MAGIC
  {
    var little, big := [0x6f, 0x6e, 0x63, 0x67], [0x67, 0x63, 0x6e, 0x6f];
    assert LITTLE_MAGIC == little && BIG_MAGIC == big;
    if |gcno| >= 4 {
      assert LITTLE_MAGIC <= gcno <==> gcno[..4] == LITTLE_MAGIC;
      assert BIG_MAGIC <= gcno <==> gcno[..4] == BIG_MAGIC;
      if ValueOf(order, gcno[..4]) == MAGIC {
        WordOf(order, gcno[..4], MAGIC);
        WordOf(order, if order == LittleEndian then LITTLE_MAGIC else BIG_MAGIC, MAGIC);
      }
    }
  }

  // ---------------------------------------------------------------- the patch

  /** It succeeds exactly on a .gcno that holds the cwd at one of the two offsets, in one of the two forms. */
  lemma PatchesExactly(gcno: Bytes, serverCwd: Bytes, clientCwd: Bytes)
    requires NulFree(serverCwd) && |serverCwd| + 1 < TWO_TO_THE_32
    requires serverCwd != [] && serverCwd[0] == 47
    ensures Patched(gcno, serverCwd, clientCwd).Ok? <==>
              && OrderOf(gcno).Some?
              && exists l: Layout ::
                   (l.offset == 12 || l.offset == 16) && Holds(OrderOf(gcno).value, gcno, l, serverCwd)
  {
    hide Fits, Found, Replaced, Holds;
    if OrderOf(gcno).Some? {
      var order := OrderOf(gcno).value;
      AtMostOneLayout(order, gcno, serverCwd);
      SomeFits(order, gcno, serverCwd, 4);
      forall l: Layout | l.offset == 12 || l.offset == 16
        ensures Fits(order, gcno, l, serverCwd) <==> Holds(order, gcno, l, serverCwd)
        ensures exists k :: 0 <= k < 4 && l == LayoutNo(k)
      {
        FitsExactly(order, gcno, l, serverCwd);
        assert l == LayoutNo((if l.offset == 12 then 0 else 2) + (if l.lengthWords then 1 else 0));
      }
      assert forall k :: 0 <= k < 4 ==> LayoutNo(k).offset == 12 || LayoutNo(k).offset == 16;
    }
  }

  lemma SomeFits(order: Order, gcno: Bytes, cwd: Bytes, n: nat)
    requires n <= 4
    ensures Found(order, gcno, cwd, n) != [] ==> exists k :: 0 <= k < n && Fits(order, gcno, LayoutNo(k), cwd)
    ensures forall i :: 0 <= i < |Found(order, gcno, cwd, n)| ==>
              exists k :: 0 <= k < n && Found(order, gcno, cwd, n)[i] == LayoutNo(k)
  {
    hide Fits;
    if n > 0 { SomeFits(order, gcno, cwd, n - 1); }
  }

  lemma ReplacedFits(order: Order, gcno: Bytes, l: Layout, from: Bytes, to: Bytes)
    requires l.offset >= 4 && Fits(order, gcno, l, from) && OrderOf(gcno) == Some(order)
    ensures var p := Replaced(order, gcno, l, from, to);
            OrderOf(p) == Some(order) && Fits(order, p, l, to) && Replaced(order, p, l, to, from) == gcno
  {
    hide Record;
    var p, r, r' := Replaced(order, gcno, l, from, to), Record(order, l, from), Record(order, l, to);
    assert gcno == gcno[..l.offset] + r + gcno[l.offset + |r|..];
    assert p[..l.offset] == gcno[..l.offset] && p[l.offset..l.offset + |r'|] == r';
    assert p[l.offset..][..|r'|] == r' && p[l.offset + |r'|..] == gcno[l.offset + |r|..];
    assert p[..4] == gcno[..4];
    assert LITTLE_MAGIC <= gcno <==> gcno[..4] == LITTLE_MAGIC;
    assert LITTLE_MAGIC <= p <==> p[..4] == LITTLE_MAGIC;
    assert BIG_MAGIC <= p <==> p[..4] == BIG_MAGIC;
  }

  /** A patch that succeeds is of a .gcno that holds the server's cwd at offset 12 or 16; the result holds the
      client's there, in the same layout, and is the same before and behind. */
  lemma PatchesTheRecord(gcno: Bytes, serverCwd: Bytes, clientCwd: Bytes)
    requires Patched(gcno, serverCwd, clientCwd).Ok?
    requires |serverCwd| + 1 < TWO_TO_THE_32 && |clientCwd| + 1 < TWO_TO_THE_32
    ensures var p := Patched(gcno, serverCwd, clientCwd).value;
            exists order, l: Layout :: (l.offset == 12 || l.offset == 16)
              && Holds(order, gcno, l, serverCwd) && Holds(order, p, l, clientCwd)
              && OrderOf(p) == OrderOf(gcno) == Some(order) && p[..l.offset] == gcno[..l.offset]
              && p[l.offset + 4 + Announced(order, p, l)..] == gcno[l.offset + 4 + Announced(order, gcno, l)..]
  {
    hide Fits, Found, Replaced, Holds, Record, Announced;
    var order := OrderOf(gcno).value;
    FoundFits(order, gcno, serverCwd, 4);
    SomeFits(order, gcno, serverCwd, 4);
    var l := Found(order, gcno, serverCwd, 4)[0];
    var p := Replaced(order, gcno, l, serverCwd, clientCwd);
    ReplacedFits(order, gcno, l, serverCwd, clientCwd);
    FitsExactly(order, gcno, l, serverCwd);
    FitsExactly(order, p, l, clientCwd);
    ReplacedAround(order, gcno, l, serverCwd, clientCwd);
    HoldsInside(order, gcno, l, serverCwd);
    HoldsInside(order, p, l, clientCwd);
  }

  lemma HoldsInside(order: Order, gcno: Bytes, l: Layout, s: Bytes)
    requires Holds(order, gcno, l, s)
    ensures l.offset + 4 <= |gcno| && l.offset + 4 + Announced(order, gcno, l) <= |gcno|
  {
  }

  lemma ReplacedAround(order: Order, gcno: Bytes, l: Layout, from: Bytes, to: Bytes)
    requires Fits(order, gcno, l, from)
    ensures var p := Replaced(order, gcno, l, from, to);
            && l.offset + |Record(order, l, to)| <= |p| && l.offset + |Record(order, l, from)| <= |gcno|
            && p[..l.offset] == gcno[..l.offset]
            && p[l.offset + |Record(order, l, to)|..] == gcno[l.offset + |Record(order, l, from)|..]
  {
    hide Record;
  }

  /** Only the record changes; and patching back gives the bytes there were. */
  lemma PatchBack(gcno: Bytes, serverCwd: Bytes, clientCwd: Bytes)
    requires Patched(gcno, serverCwd, clientCwd).Ok?
    requires NulFree(clientCwd) && |clientCwd| + 1 < TWO_TO_THE_32 && clientCwd != [] && clientCwd[0] == 47
    ensures Patched(Patched(gcno, serverCwd, clientCwd).value, clientCwd, serverCwd) == Ok(gcno)
  {
    hide Fits, Found, Replaced;
    var order := OrderOf(gcno).value;
    FoundFits(order, gcno, serverCwd, 4);
    SomeFits(order, gcno, serverCwd, 4);
    var found := Found(order, gcno, serverCwd, 4);
    var l := found[0];
    ReplacedFits(order, gcno, l, serverCwd, clientCwd);
    AtMostOneLayout(order, Replaced(order, gcno, l, serverCwd, clientCwd), clientCwd);
  }
}
