/** What the server's file cache is about (internal/server/file-cache.go): the cells of its list, most recently used
    first, and the tail that DropAll leaves behind. Every operation of the cache as a function of that. */
module LruModel {
  import opened Sha256

  const SHARDS_DIR_COUNT := 256

  /** {cacheDir}/{shard}/{name}.{uniqueID} */
  datatype CachePath = CachePath(shard: nat, name: string, uniqueID: nat)

  datatype Entry = Entry(key: SHA256, pathInCache: CachePath, fileSize: nat)

  /** A node of the list that the table leads to, or one that it does not lead to (any more). */
  datatype Cell = Live(entry: Entry) | Dead(deadKey: SHA256) {
    function Key(): SHA256 { if Live? then entry.key else deadKey }

    function Size(): nat { if Live? then entry.fileSize else 0 }
  }

  /** stale: the keys of a list that DropAll forgot, up to the tail pointer; empty if the tail pointer is right. */
  datatype Lru = Lru(cells: seq<Cell>, stale: seq<SHA256>, lastIndex: nat)

  const EMPTY := Lru([], [], 0)

  datatype Op =
    | SaveFile(linked: bool, name: string, key: SHA256, fileSize: nat)
    | LookUp(key: SHA256)
    | OneRound
    | DropAll

  // ---------------------------------------------------------------- the operations

  predicate IsLive(c: Cell, key: SHA256) { c.Live? && c.entry.key == key }

  /** Where the file with this key is, or -1. */
  function Position(cells: seq<Cell>, key: SHA256): (i: int)
    ensures -1 <= i < |cells|
    ensures i == -1 ==> forall j :: 0 <= j < |cells| ==> !IsLive(cells[j], key)
    ensures i != -1 ==> IsLive(cells[i], key)
  {
    if cells == [] then -1
    else if IsLive(cells[|cells| - 1], key) then |cells| - 1
    else Position(cells[..|cells| - 1], key)
  }

  /** Element i first, the others after it in their order. */
  function MoveToFront<T>(s: seq<T>, i: nat): (r: seq<T>)
    requires i < |s|
    ensures |r| == |s|
  {
    seq(|s|, k requires 0 <= k < |s| => if k == 0 then s[i] else if k <= i then s[k - 1] else s[k])
  }

  /** The table forgets these keys. */
  function Without(cells: seq<Cell>, keys: set<SHA256>): (r: seq<Cell>)
    ensures |r| == |cells|
    ensures forall i :: 0 <= i < |r| ==>
              r[i] == if cells[i].Live? && cells[i].entry.key in keys then Dead(cells[i].entry.key) else cells[i]
  {
    seq(|cells|, i requires 0 <= i < |cells| =>
      if cells[i].Live? && cells[i].entry.key in keys then Dead(cells[i].entry.key) else cells[i])
  }

  function Saved(a: Lru, e: Entry): Lru {
    if Position(a.cells, e.key) != -1 then a else a.(cells := [Live(e)] + a.cells)
  }

  /** A hit goes to the front; and if it was the last of several, the tail pointer is right from then on. */
  function Hit(a: Lru, key: SHA256): Lru {
    var i := Position(a.cells, key);
    if i <= 0 then a
    else a.(cells := MoveToFront(a.cells, i), stale := if i == |a.cells| - 1 then [] else a.stale)
  }

  function Shorter<T>(s: seq<T>): seq<T> { if s == [] then s else s[..|s| - 1] }

  /** The keys that the tail pointer has before it, and its own. */
  function Walk(a: Lru): seq<SHA256> { if a.stale != [] then a.stale else KeysOf(a.cells) }

  function KeysOf(cells: seq<Cell>): (keys: seq<SHA256>)
    ensures |keys| == |cells| && forall i :: 0 <= i < |keys| ==> keys[i] == cells[i].Key()
  {
    seq(|cells|, i requires 0 <= i < |cells| => cells[i].Key())
  }

  /** One round of the purge: the table forgets the key of the tail, and the tail goes one back. */
  function Round(a: Lru): Lru {
    if |Walk(a)| < 2 then a
    else
      var cells := Without(a.cells, {Walk(a)[|Walk(a)| - 1]});
      if a.stale != [] then a.(cells := cells, stale := Shorter(a.stale)) else a.(cells := Shorter(cells))
  }

  function NewEntry(uniqueID: nat, name: string, key: SHA256, fileSize: nat): Entry {
    Entry(key, CachePath(uniqueID % SHARDS_DIR_COUNT, name, uniqueID), fileSize)
  }

  function Apply(a: Lru, op: Op): Lru {
    match op
    case SaveFile(linked, name, key, fileSize) =>
      var a' := a.(lastIndex := a.lastIndex + 1);
      if linked then Saved(a', NewEntry(a'.lastIndex, name, key, fileSize)) else a'
    case LookUp(key) => Hit(a, key)
    case OneRound => Round(a)
    case DropAll => a.(cells := [], stale := Walk(a))
  }

  lemma RoundIs(a: Lru)
    ensures Apply(a, OneRound) == Round(a)
    ensures |Walk(a)| < 2 ==> Round(a) == a
    ensures |Walk(a)| >= 2 ==>
              var cells := Without(a.cells, {Walk(a)[|Walk(a)| - 1]});
              Round(a) == if a.stale != [] then a.(cells := cells, stale := Shorter(a.stale))
                          else a.(cells := Shorter(cells))
  {
  }

  lemma DropIs(a: Lru)
    ensures Apply(a, DropAll) == a.(cells := [], stale := Walk(a))
    ensures Sound(Apply(a, DropAll)) <==> Walk(a) == []
  {
  }

  function After(a: Lru, ops: seq<Op>): Lru {
    if ops == [] then a else Apply(After(a, ops[..|ops| - 1]), ops[|ops| - 1])
  }

  lemma AfterOneMore(a: Lru, ops: seq<Op>, i: nat)
    requires i < |ops|
    ensures After(a, ops[..i + 1]) == Apply(After(a, ops[..i]), ops[i])
  {
    assert ops[..i + 1][..i] == ops[..i];
  }

  lemma {:induction false} AfterBoth(a: Lru, ops: seq<Op>, more: seq<Op>)
    ensures After(a, ops + more) == After(After(a, ops), more)
  {
    if more == [] {
      assert ops + more == ops;
    } else {
      assert (ops + more)[..|ops + more| - 1] == ops + more[..|more| - 1];
      AfterBoth(a, ops, more[..|more| - 1]);
    }
  }

  // ---------------------------------------------------------------- bytes

  function Total(cells: seq<Cell>): nat {
    if cells == [] then 0 else Total(cells[..|cells| - 1]) + cells[|cells| - 1].Size()
  }

  lemma {:induction false} TotalAppend(a: seq<Cell>, b: seq<Cell>)
    ensures Total(a + b) == Total(a) + Total(b)
  {
    if b == [] {
      assert a + b == a;
    } else {
      assert (a + b)[..|a + b| - 1] == a + b[..|b| - 1];
      TotalAppend(a, b[..|b| - 1]);
    }
  }

  lemma TotalOne(c: Cell)
    ensures Total([c]) == c.Size()
  {
    assert [c][..0] == [];
  }

  lemma TotalOfThree(a: seq<Cell>, b: seq<Cell>, c: seq<Cell>)
    ensures Total(a + b + c) == Total(a) + Total(b) + Total(c)
  {
    TotalAppend(a + b, c);
    TotalAppend(a, b);
  }

  lemma MoveToFrontParts<T>(s: seq<T>, i: nat)
    requires i < |s|
    ensures MoveToFront(s, i) == [s[i]] + s[..i] + s[i + 1..]
    ensures s[..i] + [s[i]] + s[i + 1..] == s
  {
  }

  lemma TotalMoved(cells: seq<Cell>, i: nat)
    requires i < |cells|
    ensures Total(MoveToFront(cells, i)) == Total(cells)
  {
    MoveToFrontParts(cells, i);
    TotalOfThree([cells[i]], cells[..i], cells[i + 1..]);
    TotalOfThree(cells[..i], [cells[i]], cells[i + 1..]);
  }

  /** No key is that of two files. */
  predicate Unique(cells: seq<Cell>) {
    forall i, j :: 0 <= i < j < |cells| && cells[i].Live? ==> !IsLive(cells[j], cells[i].entry.key)
  }

  lemma TotalUnchanged(cells: seq<Cell>, key: SHA256)
    requires forall i :: 0 <= i < |cells| ==> !IsLive(cells[i], key)
    ensures Without(cells, {key}) == cells
  {
  }

  /** What forgetting a key takes off the total. */
  lemma TotalWithout(cells: seq<Cell>, key: SHA256)
    requires Unique(cells)
    ensures var i := Position(cells, key);
            Total(Without(cells, {key})) == Total(cells) - (if i == -1 then 0 else cells[i].entry.fileSize)
  {
    var i := Position(cells, key);
    if i == -1 {
      TotalUnchanged(cells, key);
    } else {
      var front, back := cells[..i], cells[i + 1..];
      TotalUnchanged(front, key);
      TotalUnchanged(back, key);
      assert cells == front + [cells[i]] + back;
      assert Without(cells, {key}) == front + [Dead(key)] + back;
      TotalOfThree(front, [cells[i]], back);
      TotalOfThree(front, [Dead(key)], back);
      TotalOne(cells[i]);
      TotalOne(Dead(key));
    }
  }

  lemma {:induction false} TotalNotMore(cells: seq<Cell>, keys: set<SHA256>)
    ensures Total(Without(cells, keys)) <= Total(cells)
  {
    if cells != [] {
      var n := |cells| - 1;
      assert Without(cells, keys)[..n] == Without(cells[..n], keys);
      TotalNotMore(cells[..n], keys);
    }
  }

  // ---------------------------------------------------------------- the purge

  function Rounds(a: Lru, n: nat): Lru
    decreases n
  {
    if n == 0 then a else Rounds(Round(a), n - 1)
  }

  /** The keys the tail pointer will have passed when it can go no further. */
  function Passed(a: Lru): set<SHA256> { set i | 0 < i < |Walk(a)| :: Walk(a)[i] }

  /** What no number of rounds removes. */
  function Remaining(a: Lru): nat { Total(Without(a.cells, Passed(a))) }

  lemma RoundWalk(a: Lru)
    ensures Walk(Round(a)) == if |Walk(a)| < 2 then Walk(a) else Shorter(Walk(a))
  {
    var w := Walk(a);
    if |w| >= 2 && a.stale == [] {
      var cells := Without(a.cells, {w[|w| - 1]});
      assert KeysOf(cells) == KeysOf(a.cells);
      assert KeysOf(Shorter(cells)) == Shorter(KeysOf(cells));
    }
  }

  lemma PassedMore(a: Lru)
    requires |Walk(a)| >= 2
    ensures Passed(a) == Passed(Round(a)) + {Walk(a)[|Walk(a)| - 1]}
  {
    RoundWalk(a);
    var w := Walk(a);
    forall k | k in Passed(a) ensures k in Passed(Round(a)) + {w[|w| - 1]} {
      var i :| 0 < i < |w| && w[i] == k;
      if i < |w| - 1 { assert Shorter(w)[i] == k; }
    }
  }

  lemma WithoutBoth(cells: seq<Cell>, a: set<SHA256>, b: set<SHA256>)
    ensures Without(Without(cells, a), b) == Without(cells, a + b)
  {
  }

  lemma RoundKeepsRemaining(a: Lru)
    ensures Remaining(Round(a)) == Remaining(a)
  {
    var w := Walk(a);
    if |w| >= 2 {
      hide Without, Walk, Passed;
      PassedMore(a);
      var last, rest := {w[|w| - 1]}, Passed(Round(a));
      var cells := Without(a.cells, last);
      WithoutBoth(a.cells, last, rest);
      assert rest + last == last + rest;
      if a.stale == [] { LastIsDead(a, rest); }
      assert Total(Without(Round(a).cells, rest)) == Total(Without(cells, rest));
    }
  }

  lemma LastIsDead(a: Lru, rest: set<SHA256>)
    requires a.stale == [] && |Walk(a)| >= 2
    ensures var cells := Without(a.cells, {Walk(a)[|Walk(a)| - 1]});
            Round(a).cells == Shorter(cells) && Total(Without(Shorter(cells), rest)) == Total(Without(cells, rest))
  {
    var cells := Without(a.cells, {Walk(a)[|Walk(a)| - 1]});
    var all, n := Without(cells, rest), |cells| - 1;
    assert all[..n] == Without(Shorter(cells), rest) && all[n].Size() == 0;
  }

  lemma {:induction false} RoundsKeepRemaining(a: Lru, n: nat)
    ensures Remaining(Rounds(a, n)) == Remaining(a)
    ensures |Walk(Rounds(a, n))| == if |Walk(a)| < 2 then |Walk(a)| else if n < |Walk(a)| then |Walk(a)| - n else 1
    decreases n
  {
    hide Remaining, Walk, Round;
    if n > 0 {
      RoundKeepsRemaining(a);
      RoundWalk(a);
      RoundsKeepRemaining(Round(a), n - 1);
    }
  }

  lemma RemainingAtEnd(a: Lru)
    ensures Remaining(a) <= Total(a.cells)
    ensures |Walk(a)| < 2 ==> Remaining(a) == Total(a.cells)
  {
    TotalNotMore(a.cells, Passed(a));
    if |Walk(a)| < 2 { assert Passed(a) == {} && Without(a.cells, {}) == a.cells; }
  }

  /** Some number of rounds gets the total down to the limit. */
  ghost predicate GetsDownTo(a: Lru, limit: int) { exists n :: Total(Rounds(a, n).cells) <= limit }

  /** However many rounds it is given, and whatever the tail pointer is at, the purge ends if and only if the files
      that the tail pointer does not pass fit the limit; it takes no more rounds than there are keys to pass. */
  lemma PurgeEndsExactly(a: Lru, limit: int)
    ensures GetsDownTo(a, limit) <==> Remaining(a) <= limit
    ensures GetsDownTo(a, limit) ==> Total(Rounds(a, |Walk(a)|).cells) <= limit
  {
    hide Remaining, Walk, Total, Rounds;
    RoundsKeepRemaining(a, |Walk(a)|);
    RemainingAtEnd(Rounds(a, |Walk(a)|));
    if n :| Total(Rounds(a, n).cells) <= limit {
      RoundsKeepRemaining(a, n);
      RemainingAtEnd(Rounds(a, n));
    }
  }

  /** What is left when the purge ends. */
  function Purged(a: Lru, limit: int): Lru
    decreases |Walk(a)|
  {
    RoundWalk(a);
    if Total(a.cells) <= limit || |Walk(a)| < 2 then a else Purged(Round(a), limit)
  }

  /** The purge stops at the first round after which the total is within the limit, or at the last possible one. */
  lemma {:induction false} PurgedIsFirst(a: Lru, limit: int, n: nat)
    requires forall m :: 0 <= m < n ==> Total(Rounds(a, m).cells) > limit
    requires Total(Rounds(a, n).cells) <= limit
    ensures Purged(a, limit) == Rounds(a, n)
    decreases n
  {
    hide Remaining, Walk, Total, Round;
    assert Rounds(a, 0) == a;
    if n > 0 {
      assert Total(Rounds(a, 0).cells) > limit;
      if |Walk(a)| < 2 { Stuck(a, n); }
      forall m | 0 <= m < n - 1 ensures Total(Rounds(Round(a), m).cells) > limit {
        assert Rounds(a, m + 1) == Rounds(Round(a), m);
      }
      PurgedIsFirst(Round(a), limit, n - 1);
    }
  }

  lemma {:induction false} Stuck(a: Lru, n: nat)
    requires |Walk(a)| < 2
    ensures Rounds(a, n) == a
    decreases n
  {
    if n > 0 { Stuck(a, n - 1); }
  }

  // ---------------------------------------------------------------- as long as DropAll was not called

  /** The tail pointer is right, and the table leads to every node. */
  predicate Sound(a: Lru) {
    a.stale == [] && Unique(a.cells) && forall i :: 0 <= i < |a.cells| ==> a.cells[i].Live?
  }

  lemma UniqueMoved(cells: seq<Cell>, i: nat)
    requires Unique(cells) && i < |cells|
    ensures Unique(MoveToFront(cells, i))
  {
    var moved := MoveToFront(cells, i);
    forall j, k | 0 <= j < k < |moved| && moved[j].Live? ensures !IsLive(moved[k], moved[j].entry.key) {
      var j' := if j == 0 then i else if j <= i then j - 1 else j;
      var k' := if k <= i then k - 1 else k;
      assert moved[j] == cells[j'] && moved[k] == cells[k'] && j' != k';
    }
  }

  lemma UniqueStays(a: Lru, op: Op)
    requires Unique(a.cells)
    ensures Unique(Apply(a, op).cells)
  {
    match op {
      case SaveFile(linked, name, key, fileSize) =>
      case LookUp(key) =>
        var i := Position(a.cells, key);
        if i > 0 { UniqueMoved(a.cells, i); }
      case OneRound =>
      case DropAll =>
    }
  }

  /** Every operation but one keeps a sound cache sound; DropAll does so exactly if there is nothing to drop. */
  lemma SoundStays(a: Lru, op: Op)
    requires Sound(a)
    ensures Sound(Apply(a, op)) <==> op != DropAll || a.cells == []
    ensures op == OneRound ==> Apply(a, op).cells == if |a.cells| < 2 then a.cells else Shorter(a.cells)
  {
    UniqueStays(a, op);
    if op.OneRound? && |a.cells| >= 2 { SoundRound(a); }
  }

  lemma SoundRound(a: Lru)
    requires Sound(a) && |a.cells| >= 2
    ensures Round(a) == a.(cells := Shorter(a.cells))
  {
    var n := |a.cells| - 1;
    assert Walk(a)[n] == a.cells[n].entry.key;
    forall i | 0 <= i < n ensures a.cells[i].entry.key != a.cells[n].entry.key {
      assert !IsLive(a.cells[n], a.cells[i].entry.key);
    }
    assert Shorter(Without(a.cells, {Walk(a)[n]})) == Shorter(a.cells);
  }

  /** The tail pointer passes every file but the most recent one. */
  lemma PassedBySound(a: Lru)
    requires Sound(a) && a.cells != []
    ensures a.cells[0].entry.key !in Passed(a)
    ensures forall i :: 0 < i < |a.cells| ==> a.cells[i].entry.key in Passed(a)
  {
    var w := Walk(a);
    assert |w| == |a.cells| && forall i :: 0 <= i < |w| ==> w[i] == a.cells[i].entry.key;
    forall i | 0 < i < |w| ensures w[i] != a.cells[0].entry.key {
      assert !IsLive(a.cells[i], a.cells[0].entry.key);
    }
  }

  lemma {:induction false} TotalDead(cells: seq<Cell>)
    requires forall i :: 0 <= i < |cells| ==> cells[i].Dead?
    ensures Total(cells) == 0
  {
    if cells != [] { TotalDead(cells[..|cells| - 1]); }
  }

  lemma TotalHead(cells: seq<Cell>)
    requires cells != [] && forall i :: 0 < i < |cells| ==> cells[i].Dead?
    ensures Total(cells) == cells[0].Size()
  {
    hide Total;
    assert cells == [cells[0]] + cells[1..];
    TotalAppend([cells[0]], cells[1..]);
    TotalOne(cells[0]);
    TotalDead(cells[1..]);
  }

  /** In a sound cache the purge ends exactly if the most recent file fits. */
  lemma RemainingIsHead(a: Lru)
    requires Sound(a)
    ensures Remaining(a) == if a.cells == [] then 0 else a.cells[0].entry.fileSize
  {
    if a.cells != [] {
      PassedBySound(a);
      hide Passed, Total, Unique;
      TotalHead(Without(a.cells, Passed(a)));
    }
  }

  /** And it keeps exactly the longest prefix of most recently used files that fits the limit. */
  lemma {:induction false} KeepsLongestPrefix(a: Lru, limit: int)
    requires Sound(a) && GetsDownTo(a, limit)
    ensures var kept := Purged(a, limit);
            && Sound(kept) && kept.cells <= a.cells && Total(kept.cells) <= limit
            && forall n :: |kept.cells| < n <= |a.cells| ==> Total(a.cells[..n]) > limit
    decreases |a.cells|
  {
    hide Without, Remaining, GetsDownTo, Sound, Walk, Round, Total;
    assert a.cells[..|a.cells|] == a.cells;
    if Total(a.cells) > limit {
      assert |Walk(a)| == |a.cells| by { SoundWalk(a); }
      PurgeEndsExactly(a, limit);
      RemainingAtEnd(a);
      SoundShorter(a);
      RoundKeepsRemaining(a);
      PurgeEndsExactly(Round(a), limit);
      KeepsLongestPrefix(Round(a), limit);
      var kept, shorter := Purged(a, limit), Round(a).cells;
      assert kept == Purged(Round(a), limit);
      forall n | |kept.cells| < n <= |a.cells| ensures Total(a.cells[..n]) > limit {
        if n < |a.cells| { assert a.cells[..n] == shorter[..n]; }
      }
    }
  }

  lemma SoundWalk(a: Lru)
    requires Sound(a)
    ensures |Walk(a)| == |a.cells|
  {
  }

  lemma SoundShorter(a: Lru)
    requires Sound(a) && |a.cells| >= 2
    ensures Sound(Round(a)) && Round(a).cells == a.cells[..|a.cells| - 1]
  {
    SoundRound(a);
  }

  /** int64(80.0 * (float64(limitBytes) / 100.0)) */
  function SoftLimit(limitBytes: nat): int { (80.0 * (limitBytes as real / 100.0)).Floor }

  /** 80% of it, rounded down. */
  lemma SoftIsFourFifths(limitBytes: nat)
    ensures 5 * SoftLimit(limitBytes) <= 4 * limitBytes < 5 * SoftLimit(limitBytes) + 5
  {
    var soft := 80.0 * (limitBytes as real / 100.0);
    assert soft == 4.0 * (limitBytes as real) / 5.0;
    assert soft.Floor as real <= soft < soft.Floor as real + 1.0;
  }

  lemma SoftIsLower(limitBytes: nat)
    ensures 0 <= SoftLimit(limitBytes) <= limitBytes && (limitBytes > 0 ==> SoftLimit(limitBytes) < limitBytes)
  {
  }

  /** The periodic purge is held to a lower limit than saving is. Whatever the hard limit is, unless 0, there is a
      cache that saving leaves alone and the periodic purge never gets down to its limit; these are the caches whose
      most recent file is between the two. */
  lemma SoftPurgeMayNotEnd(limitBytes: nat)
    ensures (exists a :: Sound(a) && GetsDownTo(a, limitBytes) && !GetsDownTo(a, SoftLimit(limitBytes)))
         <==> limitBytes > 0
    ensures forall a :: Sound(a) && a.cells != [] ==>
              (GetsDownTo(a, limitBytes) && !GetsDownTo(a, SoftLimit(limitBytes))
               <==> SoftLimit(limitBytes) < a.cells[0].entry.fileSize <= limitBytes)
  {
    hide GetsDownTo, Remaining;
    forall a, limit: int | Sound(a)
      ensures GetsDownTo(a, limit) <==> (if a.cells == [] then 0 else a.cells[0].entry.fileSize) <= limit
    {
      PurgeEndsExactly(a, limit);
      RemainingIsHead(a);
    }
    SoftIsLower(limitBytes);
    var a := EMPTY.(cells := [Live(Entry(SHA256(0, 0, 0, 0), CachePath(0, "", 0), limitBytes))]);
    assert Sound(a);
  }

  // ---------------------------------------------------------------- recency, and what is found

  predicate Present(a: Lru, key: SHA256) { exists i :: 0 <= i < |a.cells| && IsLive(a.cells[i], key) }

  /** A look-up that finds the key, or a save that finds it absent. */
  predicate Uses(a: Lru, op: Op, key: SHA256) {
    match op
    case SaveFile(linked, _, k, _) => linked && k == key && !Present(a, key)
    case LookUp(k) => k == key && Present(a, key)
    case _ => false
  }

  /** Up to which operation of a run the key was used; 0 if it never was. */
  function LastUse(ops: seq<Op>, key: SHA256): (n: nat)
    ensures n <= |ops|
  {
    if ops == [] then 0
    else
      var before := ops[..|ops| - 1];
      if Uses(After(EMPTY, before), ops[|ops| - 1], key) then |ops| else LastUse(before, key)
  }

  predicate ByRecency(ops: seq<Op>, cells: seq<Cell>) {
    forall i, j :: 0 <= i < j < |cells| ==> LastUse(ops, cells[i].Key()) > LastUse(ops, cells[j].Key())
  }

  /** One more operation: the key it uses, if it uses one, is the latest; the others stay. */
  lemma LastUseStep(ops: seq<Op>, key: SHA256)
    requires ops != []
    ensures var n := |ops| - 1;
            LastUse(ops, key) == if Uses(After(EMPTY, ops[..n]), ops[n], key) then n + 1 else LastUse(ops[..n], key)
    ensures LastUse(ops[..|ops| - 1], key) < |ops|
  {
  }

  lemma PresentIs(a: Lru, key: SHA256)
    ensures Position(a.cells, key) != -1 <==> Present(a, key)
    ensures Sound(a) ==> (Present(a, key) <==> exists i :: 0 <= i < |a.cells| && a.cells[i].Key() == key)
  {
  }

  lemma SameKeys(ops: seq<Op>, cells: seq<Cell>)
    requires ops != [] && ByRecency(ops[..|ops| - 1], cells)
    requires forall i :: 0 <= i < |cells| ==> !Uses(After(EMPTY, ops[..|ops| - 1]), ops[|ops| - 1], cells[i].Key())
    ensures ByRecency(ops, cells)
  {
    hide LastUse, Uses;
    forall i | 0 <= i < |cells| ensures LastUse(ops, cells[i].Key()) == LastUse(ops[..|ops| - 1], cells[i].Key()) {
      LastUseStep(ops, cells[i].Key());
    }
  }

  /** The cell that was used comes first, the others follow in their order. */
  lemma UsedFirst(ops: seq<Op>, cells: seq<Cell>, used: Cell)
    requires ops != [] && ByRecency(ops[..|ops| - 1], cells)
    requires Uses(After(EMPTY, ops[..|ops| - 1]), ops[|ops| - 1], used.Key())
    requires forall i :: 0 <= i < |cells| ==> !Uses(After(EMPTY, ops[..|ops| - 1]), ops[|ops| - 1], cells[i].Key())
    ensures ByRecency(ops, [used] + cells)
  {
    hide LastUse, Uses;
    SameKeys(ops, cells);
    LastUseStep(ops, used.Key());
    forall i | 0 <= i < |cells| ensures LastUse(ops, cells[i].Key()) < LastUse(ops, used.Key()) {
      LastUseStep(ops, cells[i].Key());
    }
  }

  /** In every run without DropAll, the cells are in the order in which their keys were last used: what a purge round
      takes is the least recently used. */
  lemma {:induction false} OrderIsRecency(ops: seq<Op>)
    requires NoDrop(ops)
    ensures ByRecency(ops, After(EMPTY, ops).cells)
  {
    if ops != [] {
      var n := |ops| - 1;
      var a, op := After(EMPTY, ops[..n]), ops[n];
      OrderIsRecency(ops[..n]);
      SoundWithoutDrop(ops[..n]);
      hide LastUse, After;
      AfterLast(ops);
      match op {
        case SaveFile(linked, name, key, fileSize) =>
          PresentIs(a, key);
          if linked && !Present(a, key) {
            UsedFirst(ops, a.cells, Live(NewEntry(a.lastIndex + 1, name, key, fileSize)));
          } else {
            SameKeys(ops, a.cells);
          }
        case LookUp(key) =>
          PresentIs(a, key);
          if Present(a, key) { HitIsFirst(ops, a, key); } else { SameKeys(ops, a.cells); }
        case OneRound =>
          SoundStays(a, op);
          SameKeys(ops, Apply(a, op).cells);
        case DropAll =>
      }
    }
  }

  lemma HitIsFirst(ops: seq<Op>, a: Lru, key: SHA256)
    requires ops != [] && a == After(EMPTY, ops[..|ops| - 1]) && ops[|ops| - 1] == LookUp(key)
    requires Sound(a) && Present(a, key) && ByRecency(ops[..|ops| - 1], a.cells)
    ensures ByRecency(ops, Apply(a, LookUp(key)).cells)
  {
    hide LastUse, After;
    PresentIs(a, key);
    var i := Position(a.cells, key);
    var others := a.cells[..i] + a.cells[i + 1..];
    assert ByRecency(ops[..|ops| - 1], others);
    assert forall j :: 0 <= j < |others| ==> others[j].Key() != key;
    UsedFirst(ops, others, a.cells[i]);
    assert Apply(a, LookUp(key)).cells == [a.cells[i]] + others;
  }

  lemma AfterLast(ops: seq<Op>)
    requires ops != []
    ensures After(EMPTY, ops) == Apply(After(EMPTY, ops[..|ops| - 1]), ops[|ops| - 1])
  {
  }

  /** The t-th operation saved this entry. */
  predicate SavedBy(ops: seq<Op>, t: nat, e: Entry) {
    && t < |ops| && ops[t].SaveFile? && ops[t].linked && ops[t].key == e.key && ops[t].fileSize == e.fileSize
    && e.pathInCache.name == ops[t].name && e.pathInCache.uniqueID == After(EMPTY, ops[..t]).lastIndex + 1
  }

  lemma SavedEarlier(ops: seq<Op>, t: nat, e: Entry)
    requires ops != [] && SavedBy(ops[..|ops| - 1], t, e)
    ensures SavedBy(ops, t, e)
  {
    assert ops[..|ops| - 1][..t] == ops[..t];
  }

  /** In every run, DropAll included: what is found under a key is a file that was saved under it, of that size and
      with a number of its own. */
  lemma {:induction false} FoundWasSaved(ops: seq<Op>, i: nat)
    requires i < |After(EMPTY, ops).cells| && After(EMPTY, ops).cells[i].Live?
    ensures exists t :: SavedBy(ops, t, After(EMPTY, ops).cells[i].entry)
  {
    var n := |ops| - 1;
    var a, a' := After(EMPTY, ops[..n]), After(EMPTY, ops);
    var e := a'.cells[i].entry;
    if j :| 0 <= j < |a.cells| && a.cells[j] == Live(e) {
      FoundWasSaved(ops[..n], j);
      var t :| SavedBy(ops[..n], t, e);
      SavedEarlier(ops, t, e);
    } else {
      AfterLast(ops);
      hide After;
      OnlySavesAdd(a, ops[n], e);
      assert SavedBy(ops, n, e);
    }
  }

  lemma OnlySavesAdd(a: Lru, op: Op, e: Entry)
    requires Live(e) in Apply(a, op).cells && Live(e) !in a.cells
    ensures op.SaveFile? && op.linked && e == NewEntry(a.lastIndex + 1, op.name, op.key, op.fileSize)
    ensures !Present(a, op.key)
  {
  }

  lemma {:induction false} NumbersGrow(ops: seq<Op>, t: nat)
    requires t < |ops| && ops[t].SaveFile?
    ensures After(EMPTY, ops[..t]).lastIndex < After(EMPTY, ops).lastIndex
    decreases |ops|
  {
    var n := |ops| - 1;
    AfterLast(ops);
    if t < n {
      assert ops[..n][..t] == ops[..t];
      NumbersGrow(ops[..n], t);
    }
  }

  /** No two saves of a run get the same path. */
  lemma PathsDiffer(ops: seq<Op>, t: nat, u: nat, e: Entry, f: Entry)
    requires t < u && SavedBy(ops, t, e) && SavedBy(ops, u, f)
    ensures e.pathInCache != f.pathInCache
  {
    assert ops[..u][..t] == ops[..t];
    NumbersGrow(ops[..u], t);
  }

  /** Only a purge round, or DropAll, removes a file; and a round only the one that the tail pointer is at. */
  lemma OnlyPurgeRemoves(a: Lru, op: Op, i: nat)
    requires i < |a.cells| && a.cells[i].Live? && !op.DropAll?
    requires op.OneRound? ==> Walk(a) == [] || a.cells[i].entry.key != Walk(a)[|Walk(a)| - 1]
    ensures a.cells[i] in Apply(a, op).cells
  {
    var cells := Apply(a, op).cells;
    match op {
      case SaveFile(linked, name, key, fileSize) => assert cells != a.cells ==> cells[i + 1] == a.cells[i];
      case LookUp(key) =>
        var j := Position(a.cells, key);
        if j > 0 { assert a.cells[i] == if i == j then cells[0] else if i < j then cells[i + 1] else cells[i]; }
      case OneRound => assert cells[i] == a.cells[i];
      case DropAll =>
    }
  }

  // ---------------------------------------------------------------- after DropAll

  predicate NoDrop(ops: seq<Op>) { forall i :: 0 <= i < |ops| ==> !ops[i].DropAll? }

  predicate SavesKey(op: Op, key: SHA256) { op.SaveFile? && op.linked && op.key == key }

  predicate Saves(ops: seq<Op>, key: SHA256) { exists i :: 0 <= i < |ops| && SavesKey(ops[i], key) }

  /** A node of the list that the table does not lead to: its file was deleted behind the list's back. */
  predicate Lossy(a: Lru) { exists i :: 0 <= i < |a.cells| && a.cells[i].Dead? }

  /** A cache from which files with these keys were just dropped. */
  function JustDropped(dropped: seq<SHA256>, lastIndex: nat): Lru { Lru([], dropped, lastIndex) }

  lemma SavesLess(ops: seq<Op>, key: SHA256)
    requires ops != []
    ensures Saves(ops, key) <==> Saves(ops[..|ops| - 1], key) || SavesKey(ops[|ops| - 1], key)
  {
    var n := |ops| - 1;
    if Saves(ops, key) {
      var i :| 0 <= i < |ops| && SavesKey(ops[i], key);
      if i < n { assert SavesKey(ops[..n][i], key); }
    }
    if Saves(ops[..n], key) {
      var i :| 0 <= i < n && SavesKey(ops[..n][i], key);
      assert SavesKey(ops[i], key);
    }
  }

  /** The forgotten list gets shorter from its end, until a hit on the oldest file makes the tail pointer right. */
  lemma {:induction false} StaleIsPrefix(dropped: seq<SHA256>, lastIndex: nat, ops: seq<Op>)
    requires NoDrop(ops)
    ensures After(JustDropped(dropped, lastIndex), ops).stale <= dropped
    ensures Unique(After(JustDropped(dropped, lastIndex), ops).cells)
  {
    if ops != [] {
      var n := |ops| - 1;
      StaleIsPrefix(dropped, lastIndex, ops[..n]);
      UniqueStays(After(JustDropped(dropped, lastIndex), ops[..n]), ops[n]);
    }
  }

  lemma MovedHas(cells: seq<Cell>, i: nat, key: SHA256)
    requires i < |cells| && Position(cells, key) != -1
    ensures Position(MoveToFront(cells, i), key) != -1
  {
    var j := Position(cells, key);
    assert IsLive(MoveToFront(cells, i)[if j < i then j + 1 else if j == i then 0 else j], key);
  }

  lemma WithoutHas(cells: seq<Cell>, other: SHA256, key: SHA256)
    requires key != other && Position(cells, key) != -1
    ensures Position(Without(cells, {other}), key) != -1
  {
    assert IsLive(Without(cells, {other})[Position(cells, key)], key);
  }

  lemma StepKeeps(a: Lru, op: Op, key: SHA256)
    requires !op.DropAll? && Apply(a, op).stale != []
    requires |a.stale| > 1 ==> a.stale[|a.stale| - 1] != key
    ensures Position(a.cells, key) != -1 || SavesKey(op, key) ==> Position(Apply(a, op).cells, key) != -1
  {
    match op {
      case SaveFile(linked, name, k, fileSize) =>
        if linked && Position(a.cells, k) == -1 {
          var cells := Apply(a, op).cells;
          assert IsLive(cells[0], k);
          assert Position(a.cells, key) != -1 ==> IsLive(cells[Position(a.cells, key) + 1], key);
        }
      case LookUp(k) =>
        if Position(a.cells, k) > 0 && Position(a.cells, key) != -1 { MovedHas(a.cells, Position(a.cells, k), key); }
      case OneRound =>
        if |a.stale| > 1 && Position(a.cells, key) != -1 { WithoutHas(a.cells, a.stale[|a.stale| - 1], key); }
      case DropAll =>
    }
  }

  /** As long as the tail pointer is wrong, a file saved since is never removed, unless its key is one of the dropped
      ones, the most recent of these excepted. */
  lemma {:induction false} KeptUnlessDropped(dropped: seq<SHA256>, lastIndex: nat, ops: seq<Op>, key: SHA256)
    requires NoDrop(ops) && Saves(ops, key) && dropped != [] && key !in dropped[1..]
    ensures var a := After(JustDropped(dropped, lastIndex), ops); a.stale != [] ==> Position(a.cells, key) != -1
  {
    var n := |ops| - 1;
    var before := After(JustDropped(dropped, lastIndex), ops[..n]);
    StaleIsPrefix(dropped, lastIndex, ops[..n]);
    SavesLess(ops, key);
    if Apply(before, ops[n]).stale != [] {
      var k := |before.stale| - 1;
      assert k > 0 ==> before.stale[k] == dropped[1..][k - 1];
      if Saves(ops[..n], key) { KeptUnlessDropped(dropped, lastIndex, ops[..n], key); }
      StepKeeps(before, ops[n], key);
    }
  }

  function ManyRounds(n: nat): (ops: seq<Op>)
    ensures |ops| == n && forall i :: 0 <= i < n ==> ops[i] == OneRound
  {
    seq(n, _ => OneRound)
  }

  lemma {:induction false} RoundsTurned(a: Lru, n: nat)
    ensures Rounds(a, n + 1) == Round(Rounds(a, n))
    decreases n
  {
    assert Rounds(a, n + 1) == Rounds(Round(a), n);
    if n > 0 { RoundsTurned(Round(a), n - 1); }
  }

  lemma {:induction false} RoundsAreOps(a: Lru, n: nat)
    ensures After(a, ManyRounds(n)) == Rounds(a, n)
  {
    hide Round;
    if n > 0 {
      assert ManyRounds(n)[..n - 1] == ManyRounds(n - 1);
      RoundsAreOps(a, n - 1);
      RoundsTurned(a, n - 1);
    }
  }

  lemma RoundOnOne(a: Lru)
    requires |a.cells| == 1 && |a.stale| > 1
    ensures var b, k := Round(a), |a.stale| - 1;
            && b.stale == a.stale[..k] && |b.cells| == 1 && b.cells[0].Key() == a.cells[0].Key()
            && (a.cells[0].Dead? || a.stale[k] == a.cells[0].Key() ==> b.cells[0].Dead?)
  {
  }

  lemma TailParts<T>(s: seq<T>, n: nat)
    requires 0 < n <= |s|
    ensures s[..|s| - 1][..|s| - n] == s[..|s| - n]
    ensures s[|s| - n..] == s[..|s| - 1][|s| - n..] + [s[|s| - 1]]
  {
  }

  /** A single file and a tail pointer that passes its key, or does not. */
  lemma {:induction false} RoundsOnOne(a: Lru, key: SHA256, n: nat)
    requires |a.cells| == 1 && a.cells[0].Key() == key && n < |a.stale|
    ensures var b := Rounds(a, n);
            && b.stale == a.stale[..|a.stale| - n] && |b.cells| == 1 && b.cells[0].Key() == key
            && (a.cells[0].Dead? || key in a.stale[|a.stale| - n..] ==> b.cells[0].Dead?)
    decreases n
  {
    if n == 0 {
      assert a.stale[..|a.stale|] == a.stale && a.stale[|a.stale|..] == [];
    } else {
      RoundOnOne(a);
      TailParts(a.stale, n);
      hide Round;
      RoundsOnOne(Round(a), key, n - 1);
    }
  }

  lemma SavedAlone(d: Lru, save: Op)
    requires save.SaveFile? && save.linked && d.cells == []
    ensures var a := After(d, [save]); |a.cells| == 1 && a.cells[0].Key() == save.key && a.stale == d.stale
  {
    assert [save][..0] == [];
    assert After(d, []) == d;
  }

  /** Any of the other keys, saved again, is lost once the tail pointer gets to its forgotten node. */
  lemma ResavedIsLost(dropped: seq<SHA256>, lastIndex: nat, i: nat, name: string, fileSize: nat)
    requires 0 < i < |dropped|
    ensures var ops := [SaveFile(true, name, dropped[i], fileSize)] + ManyRounds(|dropped| - i);
            var a := After(JustDropped(dropped, lastIndex), ops);
            NoDrop(ops) && a.cells == [Dead(dropped[i])] && a.stale == dropped[..i]
  {
    var d, save, n := JustDropped(dropped, lastIndex), SaveFile(true, name, dropped[i], fileSize), |dropped| - i;
    var a := After(d, [save]);
    SavedAlone(d, save);
    hide After, Rounds;
    AfterBoth(d, [save], ManyRounds(n));
    RoundsAreOps(a, n);
    RoundsOnOne(a, dropped[i], n);
    assert dropped[i..][0] == dropped[i];
    assert Rounds(a, n).cells == [Rounds(a, n).cells[0]];
  }

  /** All cells are files that were saved, with keys that are not passed. */
  predicate NoneLost(a: Lru, ops: seq<Op>) {
    && Unique(a.cells) && !Lossy(a)
    && forall i :: 0 <= i < |a.cells| ==> Saves(ops, a.cells[i].Key())
  }

  lemma NoneLostStep(a: Lru, op: Op, before: seq<Op>, ops: seq<Op>)
    requires NoneLost(a, before) && !op.DropAll? && ops == before + [op]
    requires |a.stale| > 1 ==> !Saves(before, a.stale[|a.stale| - 1])
    ensures NoneLost(Apply(a, op), ops)
  {
    var a' := Apply(a, op);
    UniqueStays(a, op);
    forall i | 0 <= i < |a'.cells| ensures a'.cells[i].Live? && Saves(ops, a'.cells[i].Key()) {
      CellFrom(a, op, before, i);
      assert ops[..|ops| - 1] == before;
      SavesLess(ops, a'.cells[i].Key());
    }
  }

  lemma CellFrom(a: Lru, op: Op, before: seq<Op>, i: nat)
    requires NoneLost(a, before) && !op.DropAll? && i < |Apply(a, op).cells|
    requires |a.stale| > 1 ==> !Saves(before, a.stale[|a.stale| - 1])
    ensures var c := Apply(a, op).cells[i]; c.Live? && (Saves(before, c.Key()) || SavesKey(op, c.Key()))
  {
    assert forall j :: 0 <= j < |a.cells| ==> a.cells[j].Live? && Saves(before, a.cells[j].Key());
    if op.OneRound? && a.stale == [] && |a.cells| >= 2 { SoundRound(a); }
  }

  /** Nothing is lost unless a dropped key other than the most recent one is saved again; and a cache whose tail
      pointer was made right by a hit is sound then. */
  lemma {:induction false} OnlyResavedIsLost(dropped: seq<SHA256>, lastIndex: nat, ops: seq<Op>)
    requires NoDrop(ops) && dropped != [] && forall key :: key in dropped[1..] ==> !Saves(ops, key)
    ensures var a := After(JustDropped(dropped, lastIndex), ops);
            NoneLost(a, ops) && (a.stale == [] ==> Sound(a))
  {
    if ops != [] {
      var n := |ops| - 1;
      var before := After(JustDropped(dropped, lastIndex), ops[..n]);
      forall key | key in dropped[1..] ensures !Saves(ops[..n], key) { SavesLess(ops, key); }
      OnlyResavedIsLost(dropped, lastIndex, ops[..n]);
      StaleIsPrefix(dropped, lastIndex, ops[..n]);
      var k := |before.stale| - 1;
      assert k > 0 ==> before.stale[k] == dropped[1..][k - 1];
      assert ops == ops[..n] + [ops[n]];
      assert After(JustDropped(dropped, lastIndex), ops) == Apply(before, ops[n]);
      hide Apply, After, Saves;
      NoneLostStep(before, ops[n], ops[..n], ops);
    }
  }

  /** A DropAll leads to a lost file in some run exactly if it dropped more than one. */
  lemma LosesExactlyWhen(dropped: seq<SHA256>, lastIndex: nat)
    requires dropped != []
    ensures (exists ops :: NoDrop(ops) && Lossy(After(JustDropped(dropped, lastIndex), ops))) <==> |dropped| > 1
  {
    if |dropped| > 1 {
      hide After;
      ResavedIsLost(dropped, lastIndex, 1, "", 0);
      var ops := [SaveFile(true, "", dropped[1], 0)] + ManyRounds(|dropped| - 1);
      assert NoDrop(ops) && After(JustDropped(dropped, lastIndex), ops).cells[0].Dead?;
    } else {
      forall ops | NoDrop(ops) ensures !Lossy(After(JustDropped(dropped, lastIndex), ops)) {
        OnlyResavedIsLost(dropped, lastIndex, ops);
      }
    }
  }

  // ---------------------------------------------------------------- when the purge is endless

  predicate AllFit(ops: seq<Op>, limit: nat) {
    forall i :: 0 <= i < |ops| && ops[i].SaveFile? ==> ops[i].fileSize <= limit
  }

  predicate Small(a: Lru, limit: nat) { forall i :: 0 <= i < |a.cells| ==> a.cells[i].Size() <= limit }

  lemma SmallStep(a: Lru, op: Op, limit: nat)
    requires Small(a, limit) && (op.SaveFile? ==> op.fileSize <= limit)
    ensures Small(Apply(a, op), limit)
  {
  }

  lemma {:induction false} StaysSmall(a: Lru, ops: seq<Op>, limit: nat)
    requires Small(a, limit) && AllFit(ops, limit)
    ensures Small(After(a, ops), limit)
  {
    if ops != [] {
      var n := |ops| - 1;
      StaysSmall(a, ops[..n], limit);
      SmallStep(After(a, ops[..n]), ops[n], limit);
    }
  }

  lemma {:induction false} NoBytes(cells: seq<Cell>)
    requires forall i :: 0 <= i < |cells| ==> cells[i].Size() == 0
    ensures Total(cells) == 0
  {
    if cells != [] { NoBytes(cells[..|cells| - 1]); }
  }

  lemma {:induction false} SoundWithoutDrop(ops: seq<Op>)
    requires NoDrop(ops)
    ensures Sound(After(EMPTY, ops))
  {
    if ops != [] {
      SoundWithoutDrop(ops[..|ops| - 1]);
      SoundStays(After(EMPTY, ops[..|ops| - 1]), ops[|ops| - 1]);
    }
  }

  /** A file is saved and dropped, and two more are saved. */
  function DropOne(limit: nat): seq<Op> {
    [SaveFile(true, "", SHA256(0, 0, 0, 0), 0), DropAll, SaveFile(true, "", SHA256(0, 0, 0, 1), limit),
     SaveFile(true, "", SHA256(0, 0, 0, 2), limit)]
  }

  lemma SavedNew(a: Lru, name: string, key: SHA256, fileSize: nat)
    requires Position(a.cells, key) == -1
    ensures var b := Apply(a, SaveFile(true, name, key, fileSize));
            b.stale == a.stale && b.cells == [Live(NewEntry(a.lastIndex + 1, name, key, fileSize))] + a.cells
  {
  }

  lemma Absent(cells: seq<Cell>, key: SHA256)
    requires forall i :: 0 <= i < |cells| ==> cells[i].Key() != key
    ensures Position(cells, key) == -1
  {
  }

  lemma DropOneIsStuck(limit: nat)
    ensures var a := After(EMPTY, DropOne(limit)); Total(a.cells) == 2 * limit && |Walk(a)| == 1
  {
    var ops := DropOne(limit);
    assert ops[..0] == [] && ops[..4] == ops;
    AfterOneMore(EMPTY, ops, 0);
    AfterOneMore(EMPTY, ops, 1);
    AfterOneMore(EMPTY, ops, 2);
    AfterOneMore(EMPTY, ops, 3);
    var b, c := After(EMPTY, ops[..2]), After(EMPTY, ops[..3]);
    Absent([], ops[0].key);
    SavedNew(EMPTY, "", ops[0].key, 0);
    assert After(EMPTY, ops[..0]) == EMPTY;
    assert |b.stale| == 1 && b.cells == [];
    hide After, Position, Total, Apply;
    Absent([], ops[2].key);
    SavedNew(b, "", ops[2].key, limit);
    Absent(c.cells, ops[3].key);
    SavedNew(c, "", ops[3].key, limit);
    TotalOne(c.cells[0]);
    TotalAppend([Live(NewEntry(c.lastIndex + 1, "", ops[3].key, limit))], c.cells);
    TotalOne(Live(NewEntry(c.lastIndex + 1, "", ops[3].key, limit)));
  }

  /** Files each of which fits the limit, and a purge that no number of rounds ends: there is a run to that
      if and only if the cache may be dropped and the limit is not 0. */
  lemma EndlessExactlyWhen(mayDrop: bool, limit: nat)
    ensures (exists ops :: (mayDrop || NoDrop(ops)) && AllFit(ops, limit) && !GetsDownTo(After(EMPTY, ops), limit))
       <==> mayDrop && limit > 0
  {
    hide Remaining, GetsDownTo, Total, Walk;
    if mayDrop && limit > 0 {
      var ops := DropOne(limit);
      DropOneIsStuck(limit);
      PurgeEndsExactly(After(EMPTY, ops), limit);
      RemainingAtEnd(After(EMPTY, ops));
      assert AllFit(ops, limit) && !GetsDownTo(After(EMPTY, ops), limit);
    } else {
      forall ops | (mayDrop || NoDrop(ops)) && AllFit(ops, limit) ensures GetsDownTo(After(EMPTY, ops), limit) {
        var a := After(EMPTY, ops);
        StaysSmall(EMPTY, ops, limit);
        PurgeEndsExactly(a, limit);
        if limit == 0 {
          NoBytes(a.cells);
          RemainingAtEnd(a);
        } else {
          SoundWithoutDrop(ops);
          RemainingIsHead(a);
        }
      }
    }
  }
}
