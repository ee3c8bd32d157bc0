/** The server's LRU file cache (internal/server/file-cache.go): its table, its doubly linked list, its tail pointer
    and its directory, in whatever state DropAll left them, do what LruModel says. Calls are taken one at a time. */
module FileCaching {
  import opened Wrappers
  import opened Sha256
  import opened LruModel

  class LruNode {
    var next: LruNode?
    var prev: LruNode?
    const key: SHA256

    constructor (key: SHA256)
      ensures this.key == key && next == null && prev == null
    {
      this.key := key;
      next, prev := null, null;
    }
  }

  datatype CachedFile = CachedFile(pathInCache: CachePath, fileSize: nat, lruNode: LruNode)

  class FileCache {
    var table: map<SHA256, CachedFile>
    var lruTail: LruNode?
    var lruHead: LruNode?
    var lastIndex: nat
    var purgedCount: nat
    var totalSizeOnDisk: int
    const hardLimit: int
    const softLimit: int
    var onDisk: set<CachePath>     // the files in the cache's directory
    ghost var nodes: seq<LruNode>  // the list, from head to its end
    ghost var members: set<LruNode>
    ghost var stale: seq<LruNode>  // a list that DropAll forgot, up to the tail pointer, if that is still on it
    ghost var repr: set<LruNode>   // the nodes of all lists there were

    /** The list without its tail pointer: prev undoes next, the ends are closed, no node comes twice. */
    ghost predicate Linked()
      reads this`nodes, this`members, this`lruHead, nodes
    {
      && (forall i, j :: 0 <= i < j < |nodes| ==> nodes[i] != nodes[j])
      && (forall n :: n in members ==> n in nodes) && (forall n :: n in nodes ==> n in members)
      && (forall i {:trigger nodes[i].next} :: 0 <= i < |nodes| ==>
            nodes[i].next == if i + 1 < |nodes| then nodes[i + 1] else null)
      && (forall i {:trigger nodes[i].prev} :: 0 <= i < |nodes| ==>
            nodes[i].prev == if i > 0 then nodes[i - 1] else null)
      && lruHead == if nodes == [] then null else nodes[0]
    }

    /** The tail pointer is at the end of the list, or still on a forgotten one. */
    ghost predicate TailKnown()
      reads this`lruTail, this`nodes, this`stale, stale
    {
      if stale == [] then lruTail == if nodes == [] then null else nodes[|nodes| - 1]
      else
        && lruTail == stale[|stale| - 1]
        && (forall i, j :: 0 <= i < j < |stale| ==> stale[i] != stale[j])
        && (forall i {:trigger stale[i].prev} :: 0 <= i < |stale| ==>
              stale[i].prev == if i > 0 then stale[i - 1] else null)
        && (forall i :: 0 <= i < |stale| ==> stale[i] !in nodes)
    }

    /** The table leads to nodes of the list, each under its own key. */
    ghost predicate Tabled()
      reads this`table, this`members
    {
      TableOf(table, members)
    }

    /** The directory holds the file of every table entry and nothing else; no two entries share a file. */
    ghost predicate DiskMatches()
      reads this`table, this`onDisk, this`lastIndex
    {
      FilesOf(table, onDisk, lastIndex)
    }

    ghost predicate Owned()
      reads this`nodes, this`stale, this`repr
    {
      (forall n :: n in nodes ==> n in repr) && (forall n :: n in stale ==> n in repr)
    }

    /** Holds always, whatever was called. */
    ghost predicate Intact()
      reads this, nodes, stale
    {
      Owned() && Linked() && TailKnown() && Tabled() && DiskMatches() && totalSizeOnDisk == Total(Model().cells)
    }

    ghost function Model(): Lru
      reads this`table, this`nodes, this`stale, this`lastIndex
    {
      Lru(CellsOf(table, nodes), NodeKeys(stale), lastIndex)
    }

    /** The cache is as it was meant to be. */
    ghost predicate Valid()
      reads this, nodes, stale
    {
      Intact() && Sound(Model())
    }

    /** MakeFileCache */
    constructor (limitBytes: nat)
      ensures Valid() && Model() == EMPTY && hardLimit == limitBytes && softLimit == SoftLimit(limitBytes)
      ensures repr == {}
    {
      table, lruTail, lruHead, lastIndex, purgedCount, totalSizeOnDisk := map[], null, null, 0, 0, 0;
      hardLimit, softLimit := limitBytes, SoftLimit(limitBytes);
      onDisk, nodes, members, stale, repr := {}, [], {}, [], {};
    }

    // -------------------------------------------------------------- looking up

    /** A hit moves to the front; nothing else changes. */
    method LookupInCache(key: SHA256) returns (pathInCache: Option<CachePath>)
      requires Intact()
      modifies this`lruHead, this`lruTail, this`nodes, this`stale, repr
      ensures Intact() && Model() == Apply(old(Model()), LookUp(key)) && repr == old(repr)
      ensures var cells, i := old(Model()).cells, Position(old(Model()).cells, key);
              pathInCache == if i == -1 then None else Some(cells[i].entry.pathInCache)
    {
      hide Linked, TailKnown, TableOf, FilesOf, Total, MoveToFront;
      ghost var i := PositionInList(key);
      if key !in table {
        return None;
      }
      var cachedFile := table[key];
      IsHead(i);
      if cachedFile.lruNode != lruHead {
        Touch(cachedFile.lruNode, i);
      }
      pathInCache := Some(cachedFile.pathInCache);
    }

    lemma PositionInList(key: SHA256) returns (i: int)
      requires Linked() && Tabled()
      ensures i == Position(Model().cells, key) && (i == -1 <==> key !in table)
      ensures i != -1 ==> 0 <= i < |nodes| && nodes[i] == table[key].lruNode
      ensures i != -1 ==> Model().cells[i].entry.pathInCache == table[key].pathInCache
    {
      i := PositionOf(table, nodes, members, key);
    }

    lemma IsHead(i: int)
      requires Linked() && 0 <= i < |nodes|
      ensures nodes[i] == lruHead <==> i == 0
    {
    }

    method Touch(node: LruNode, ghost i: nat)
      requires Intact() && 0 < i < |nodes| && nodes[i] == node
      modifies this`lruHead, this`lruTail, this`nodes, this`stale, nodes
      ensures Intact() && repr == old(repr)
      ensures var a := old(Model());
              Model() == a.(cells := MoveToFront(a.cells, i), stale := if i == |a.cells| - 1 then [] else a.stale)
    {
      hide Linked, TableOf, FilesOf, Total, MoveToFront;
      ghost var was := nodes;
      SameMembers(nodes, i);
      CellsMoved(table, nodes, i);
      TotalMoved(Model().cells, i);
      MovedEnd(nodes, i);
      Relink(node, i);
      if i + 1 == |nodes| { stale := []; }
    }

    /** Takes a node out of the list and puts it before the head. */
    method Relink(node: LruNode, ghost i: nat)
      requires Linked() && 0 < i < |nodes| && nodes[i] == node
      modifies this`lruHead, this`lruTail, this`nodes, nodes
      ensures Linked() && nodes == MoveToFront(old(nodes), i)
      ensures lruTail == if i + 1 == |nodes| then old(nodes)[i - 1] else old(lruTail)
    {
      ghost var was := nodes;
      node.prev.next := node.next;
      if node.next == null {
        lruTail := node.prev;
      } else {
        node.next.prev := node.prev;
      }
      node.prev := null;
      node.next := lruHead;
      lruHead.prev := node;
      lruHead := node;
      assert forall j {:trigger was[j].next} :: 0 <= j < |was| && j != i && j != i - 1 ==>
               was[j].next == if j + 1 < |was| then was[j + 1] else null;
      assert forall j {:trigger was[j].prev} :: 0 < j < |was| && j != i && j != i + 1 ==> was[j].prev == was[j - 1];
      LinksOfMoved(was, i);
      hide MoveToFront;
      nodes := MoveToFront(nodes, i);
    }

    // -------------------------------------------------------------- saving

    /** SaveFileToCache without its final purge: `linked` is whether the file could be linked into the
        cache's directory. A file whose key is present is unlinked again. */
    method AddFile(linked: bool, fileNameInCacheDir: string, key: SHA256, fileSize: nat) returns (ok: bool)
      requires Intact()
      modifies this`onDisk, this`table, this`totalSizeOnDisk, this`lruHead, this`lruTail, this`lastIndex,
               this`nodes, this`members, this`repr, repr
      ensures Intact() && Model() == Apply(old(Model()), SaveFile(linked, fileNameInCacheDir, key, fileSize))
      ensures ok == linked && fresh(repr - old(repr))
    {
      hide Linked, TailKnown, TableOf, Total;
      FilesLater(table, onDisk, lastIndex);
      lastIndex := lastIndex + 1;
      if linked {
        Store(CachePath(lastIndex % SHARDS_DIR_COUNT, fileNameInCacheDir, lastIndex), key, fileSize);
      }
      ok := linked;
    }

    method Store(pathInCache: CachePath, key: SHA256, fileSize: nat)
      requires Intact() && lastIndex > 0 && FilesOf(table, onDisk, lastIndex - 1) && pathInCache.uniqueID == lastIndex
      modifies this`onDisk, this`table, this`totalSizeOnDisk, this`lruHead, this`lruTail,
               this`nodes, this`members, this`repr, nodes
      ensures Intact() && Model() == Saved(old(Model()), Entry(key, pathInCache, fileSize))
      ensures fresh(repr - old(repr))
    {
      hide Linked, TailKnown, TableOf, FilesOf, Total, CellsOf;
      var newHead := new LruNode(key);
      var value := CachedFile(pathInCache, fileSize, newHead);
      FilesExtended(table, onDisk, lastIndex - 1, key, value);
      ghost var i := PositionInList(key);
      StoredCells(table, nodes, members, key, value);
      repr := repr + {newHead};
      var exists_ := InsertFront(key, value);
      onDisk := onDisk + {pathInCache};
      if exists_ {
        onDisk := onDisk - {pathInCache};
        assert onDisk == old(onDisk);
      }
    }

    /** The locked part: a new key goes to the front, a present one changes nothing. */
    method InsertFront(key: SHA256, value: CachedFile) returns (exists_: bool)
      requires Linked() && TailKnown() && value.lruNode !in nodes && value.lruNode !in stale
      requires value.lruNode.next == null && value.lruNode.prev == null
      modifies this`table, this`totalSizeOnDisk, this`lruHead, this`lruTail,
               this`nodes, this`members, nodes, value.lruNode
      ensures Linked() && TailKnown() && exists_ == (key in old(table))
      ensures exists_ ==> table == old(table) && totalSizeOnDisk == old(totalSizeOnDisk)
                          && nodes == old(nodes) && members == old(members)
      ensures !exists_ ==> table == old(table)[key := value] && totalSizeOnDisk == old(totalSizeOnDisk) + value.fileSize
                           && nodes == [value.lruNode] + old(nodes) && members == old(members) + {value.lruNode}
    {
      hide Linked, TailKnown;
      exists_ := key in table;
      if !exists_ {
        totalSizeOnDisk := totalSizeOnDisk + value.fileSize;
        table := table[key := value];
        PushFront(value.lruNode);
      }
    }

    /** The tail pointer is set only if it is nil, whatever the list looks like. */
    method PushFront(newHead: LruNode)
      requires Linked() && TailKnown() && newHead !in nodes && newHead !in stale
      requires newHead.next == null && newHead.prev == null
      modifies this`lruHead, this`lruTail, this`nodes, this`members, nodes, newHead
      ensures Linked() && TailKnown()
      ensures nodes == [newHead] + old(nodes) && members == old(members) + {newHead}
    {
      newHead.next := lruHead;
      if lruHead != null {
        lruHead.prev := newHead;
      }
      lruHead := newHead;
      if lruTail == null {
        lruTail := newHead;
      }
      nodes, members := [newHead] + nodes, members + {newHead};
    }

    /** SaveFileToCache: a file that can be linked is added, and then the purge is to keep the hard limit. */
    method SaveFileToCache(linked: bool, fileNameInCacheDir: string, key: SHA256, fileSize: nat, rounds: nat)
      returns (ok: bool, ended: bool)
      requires Intact()
      modifies this, repr
      ensures Intact() && ok == linked && fresh(repr - old(repr))
      ensures var a := Apply(old(Model()), SaveFile(linked, fileNameInCacheDir, key, fileSize));
              if !linked then ended && Model() == a
              else
                && (ended ==> GetsDownTo(a, hardLimit) && Model() == Purged(a, hardLimit))
                && (!ended ==> Model() == Rounds(a, rounds))
                && (GetsDownTo(a, hardLimit) && rounds >= |Walk(a)| ==> ended)
    {
      hide Intact, Apply, Purged, Rounds, GetsDownTo, Walk;
      ok := AddFile(linked, fileNameInCacheDir, key, fileSize);
      ended := true;
      if ok { ended := PurgeLastElementsTillLimit(hardLimit, rounds); }
    }

    // -------------------------------------------------------------- purging

    /** purgeLastElementsTillLimit, left after `rounds` rounds at the latest: `ended` tells whether it ended
        by itself. */
    method PurgeLastElementsTillLimit(cacheLimit: int, rounds: nat) returns (ended: bool)
      requires Intact()
      modifies this, repr
      ensures Intact() && repr == old(repr)
      ensures ended ==> GetsDownTo(old(Model()), cacheLimit) && Model() == Purged(old(Model()), cacheLimit)
      ensures !ended ==> Model() == Rounds(old(Model()), rounds)
      ensures GetsDownTo(old(Model()), cacheLimit) && rounds >= |Walk(old(Model()))| ==> ended
    {
      hide Linked, TailKnown, TableOf, FilesOf, Total, Walk, Round;
      ghost var a := Model();
      var round := 0;
      while totalSizeOnDisk > cacheLimit && round < rounds
        invariant Intact() && round <= rounds && Model() == Rounds(a, round) && repr == old(repr)
        invariant forall m :: 0 <= m < round ==> Total(Rounds(a, m).cells) > cacheLimit
        decreases rounds - round
      {
        RoundsTurned(a, round);
        PurgeRound();
        round := round + 1;
      }
      ended := totalSizeOnDisk <= cacheLimit;
      if ended { PurgedIsFirst(a, cacheLimit, round); }
      PurgeEndsExactly(a, cacheLimit);
    }

    method PurgeLastElementsIfRequired(rounds: nat) returns (ended: bool)
      requires Intact()
      modifies this, repr
      ensures Intact() && repr == old(repr)
      ensures ended ==> GetsDownTo(old(Model()), softLimit) && Model() == Purged(old(Model()), softLimit)
      ensures !ended ==> Model() == Rounds(old(Model()), rounds)
      ensures GetsDownTo(old(Model()), softLimit) && rounds >= |Walk(old(Model()))| ==> ended
    {
      ended := PurgeLastElementsTillLimit(softLimit, rounds);
    }

    /** One round: the tail pointer goes one back, unless there is nothing before it, and what the table has under
        the key of the tail is removed. */
    method PurgeRound()
      requires Intact()
      modifies this, repr
      ensures Intact() && Model() == Round(old(Model())) && repr == old(repr)
    {
      hide TableOf, FilesOf, Total, CellsOf, NodeKeys, Round;
      OneBack();
      Distinct();
      hide Linked, TailKnown;
      var tail := lruTail;
      if tail != null && tail.prev != null {
        RoundedCells(table, nodes, members, stale, lastIndex, tail.key);
        TableShorter(table, members, tail);
        MoveTail();
        ForgetKey(tail.key);
      } else {
        NoRound();
      }
    }

    lemma Distinct()
      requires Linked()
      ensures forall i, j :: 0 <= i < j < |nodes| ==> nodes[i] != nodes[j]
      ensures forall n :: n in members ==> n in nodes
    {
    }

    lemma NoRound()
      requires |if stale != [] then stale else nodes| < 2
      ensures Round(Model()) == Model()
    {
    }

    /** The tail pointer has a node before it exactly if there is a key to pass. */
    lemma OneBack()
      requires Linked() && TailKnown()
      ensures lruTail != null && lruTail.prev != null <==> |if stale != [] then stale else nodes| >= 2
      ensures lruTail != null <==> |if stale != [] then stale else nodes| >= 1
      ensures lruTail != null ==> lruTail == if stale != [] then stale[|stale| - 1] else nodes[|nodes| - 1]
    {
    }

    method MoveTail()
      requires Linked() && TailKnown() && |if stale != [] then stale else nodes| >= 2
      modifies this`lruTail, this`nodes, this`members, this`stale, nodes, stale
      ensures Linked() && TailKnown()
      ensures old(stale) != [] ==> stale == Shorter(old(stale)) && nodes == old(nodes) && members == old(members)
      ensures old(stale) == [] ==>
                stale == [] && nodes == Shorter(old(nodes)) && members == old(members) - {old(lruTail)}
    {
      ghost var tail := lruTail;
      lruTail := lruTail.prev;
      lruTail.next := null;
      if stale != [] {
        stale := Shorter(stale);
      } else {
        nodes, members := Shorter(nodes), members - {tail};
      }
    }

    /** The table entry and the file of the tail's key, if there are any. */
    method ForgetKey(key: SHA256)
      requires DiskMatches()
      modifies this`table, this`onDisk, this`totalSizeOnDisk, this`purgedCount
      ensures DiskMatches() && table == old(table) - {key}
      ensures totalSizeOnDisk == old(totalSizeOnDisk) - (if key in old(table) then old(table)[key].fileSize else 0)
      ensures purgedCount == old(purgedCount) + (if key in old(table) then 1 else 0)
    {
      if key in table {
        var removingFile := table[key];
        FilesShrunk(table, onDisk, lastIndex, key);
        hide FilesOf;
        table := table - {key};
        onDisk := onDisk - {removingFile.pathInCache};
        totalSizeOnDisk := totalSizeOnDisk - removingFile.fileSize;
        purgedCount := purgedCount + 1;
      } else {
        assert table - {key} == table;
      }
    }

    // -------------------------------------------------------------- dropping

    /** DropAll as it is written: the head is cleared twice and the tail never. The cache is as it was meant to be
        afterwards exactly if there was nothing for the tail pointer to be at. */
    method DropAll()
      requires Intact()
      modifies this
      ensures Intact() && Model() == Apply(old(Model()), Op.DropAll) && onDisk == {} && lruTail == old(lruTail)
      ensures purgedCount == old(purgedCount) + |old(table)| && repr == old(repr)
      ensures Valid() <==> Walk(old(Model())) == []
    {
      hide Linked, TailKnown, TableOf, FilesOf, CellsOf, NodeKeys, Total, Walk, Apply, Sound;
      KeysToPass();
      DropIs(Model());
      purgedCount := purgedCount + |table|;
      ForgetList();
      NothingLeft(lastIndex);
    }

    lemma KeysToPass()
      ensures Walk(Model()) == NodeKeys(if stale != [] then stale else nodes)
    {
    }

    /** The list is forgotten, but not by the tail pointer. */
    method ForgetList()
      requires Owned() && Linked() && TailKnown()
      modifies this`table, this`totalSizeOnDisk, this`lruHead, this`onDisk, this`nodes, this`members, this`stale
      ensures Owned() && Linked() && TailKnown() && stale == if old(stale) != [] then old(stale) else old(nodes)
      ensures DiskMatches() && table == map[] && onDisk == {} && totalSizeOnDisk == 0
      ensures nodes == [] && members == {}
    {
      hide FilesOf;
      stale := if stale != [] then stale else nodes;
      ForgetAll();
    }

    method ForgetAll()
      modifies this`table, this`totalSizeOnDisk, this`lruHead, this`onDisk, this`nodes, this`members
      ensures Linked() && DiskMatches() && table == map[] && onDisk == {} && totalSizeOnDisk == 0
      ensures nodes == [] && members == {}
    {
      totalSizeOnDisk := 0;
      table := map[];
      lruHead := null;
      lruHead := null;
      onDisk := {};
      nodes, members := [], {};
    }

    /** DropAll with the tail cleared too, as was evidently meant. */
    method DropAllAndTail()
      requires Intact()
      modifies this
      ensures Valid() && Model() == Lru([], [], old(lastIndex)) && onDisk == {}
      ensures purgedCount == old(purgedCount) + |old(table)|
    {
      hide Linked, TableOf, FilesOf, Total;
      purgedCount := purgedCount + |table|;
      ForgetAll();
      lruTail := null;
      stale := [];
      NothingLeft(lastIndex);
    }

    // -------------------------------------------------------------- any operation

    method Do(op: Op)
      requires Intact()
      modifies this, repr
      ensures Intact() && Model() == Apply(old(Model()), op) && fresh(repr - old(repr))
    {
      hide Intact, Apply;
      match op {
        case SaveFile(linked, name, key, fileSize) => var _ := AddFile(linked, name, key, fileSize);
        case LookUp(key) => var _ := LookupInCache(key);
        case OneRound =>
          RoundIs(Model());
          PurgeRound();
        case DropAll => DropAll();
      }
    }
  }

  lemma NothingLeft(lastIndex: nat)
    ensures TableOf(map[], {}) && CellsOf(map[], []) == [] && NodeKeys([]) == [] && Total([]) == 0
    ensures Sound(Lru([], [], lastIndex))
  {
  }

  /** Any run of operations on a new cache, DropAll included. */
  method Run(limitBytes: nat, ops: seq<Op>) returns (cache: FileCache)
    ensures cache.Intact() && cache.Model() == After(EMPTY, ops)
  {
    hide Apply, After;
    cache := new FileCache(limitBytes);
    AfterNothing(ops);
    for i := 0 to |ops|
      invariant cache.Intact() && cache.Model() == After(EMPTY, ops[..i])
      invariant fresh(cache) && fresh(cache.repr)
    {
      AfterOneMore(EMPTY, ops, i);
      cache.Do(ops[i]);
    }
    assert ops[..|ops|] == ops;
  }

  lemma AfterNothing(ops: seq<Op>)
    ensures After(EMPTY, ops[..0]) == EMPTY
  {
  }

  // ---------------------------------------------------------------- the table and the list, as values

  ghost predicate TableOf(table: map<SHA256, CachedFile>, members: set<LruNode>) {
    forall k :: k in table ==> table[k].lruNode in members && table[k].lruNode.key == k
  }

  ghost predicate FilesOf(table: map<SHA256, CachedFile>, onDisk: set<CachePath>, lastIndex: nat) {
    && onDisk == (set k | k in table :: table[k].pathInCache)
    && (forall k :: k in table ==> table[k].pathInCache.uniqueID <= lastIndex)
    && (forall k, l :: k in table && l in table && k != l ==> table[k].pathInCache != table[l].pathInCache)
  }

  function CellOf(table: map<SHA256, CachedFile>, n: LruNode): Cell {
    if n.key in table && table[n.key].lruNode == n
    then Live(Entry(n.key, table[n.key].pathInCache, table[n.key].fileSize))
    else Dead(n.key)
  }

  function CellsOf(table: map<SHA256, CachedFile>, nodes: seq<LruNode>): (cells: seq<Cell>)
    ensures |cells| == |nodes| && forall i :: 0 <= i < |cells| ==> cells[i] == CellOf(table, nodes[i])
  {
    seq(|nodes|, i requires 0 <= i < |nodes| => CellOf(table, nodes[i]))
  }

  function NodeKeys(nodes: seq<LruNode>): (keys: seq<SHA256>)
    ensures |keys| == |nodes| && forall i :: 0 <= i < |keys| ==> keys[i] == nodes[i].key
  {
    seq(|nodes|, i requires 0 <= i < |nodes| => nodes[i].key)
  }

  lemma UniqueCells(table: map<SHA256, CachedFile>, nodes: seq<LruNode>)
    requires forall i, j :: 0 <= i < j < |nodes| ==> nodes[i] != nodes[j]
    ensures Unique(CellsOf(table, nodes))
  {
    var cells := CellsOf(table, nodes);
    forall i, j | 0 <= i < j < |cells| && cells[i].Live? ensures !IsLive(cells[j], cells[i].entry.key) {
      assert table[nodes[i].key].lruNode == nodes[i];
    }
  }

  lemma PositionOf(table: map<SHA256, CachedFile>, nodes: seq<LruNode>, members: set<LruNode>, key: SHA256)
    returns (i: int)
    requires TableOf(table, members) && (forall n :: n in members ==> n in nodes)
    ensures i == Position(CellsOf(table, nodes), key) && (i == -1 <==> key !in table)
    ensures i != -1 ==> nodes[i] == table[key].lruNode
    ensures i != -1 ==> CellsOf(table, nodes)[i] == Live(Entry(key, table[key].pathInCache, table[key].fileSize))
  {
    i := Position(CellsOf(table, nodes), key);
    if key in table {
      var j :| 0 <= j < |nodes| && nodes[j] == table[key].lruNode;
      assert IsLive(CellsOf(table, nodes)[j], key);
    }
  }

  lemma CellsMoved(table: map<SHA256, CachedFile>, nodes: seq<LruNode>, i: nat)
    requires i < |nodes|
    ensures CellsOf(table, MoveToFront(nodes, i)) == MoveToFront(CellsOf(table, nodes), i)
  {
  }

  lemma MovedEnd(nodes: seq<LruNode>, i: nat)
    requires 0 < i < |nodes|
    ensures var moved := MoveToFront(nodes, i);
            moved[|moved| - 1] == if i + 1 == |nodes| then nodes[i - 1] else nodes[|nodes| - 1]
  {
  }

  /** What storing a file does. */
  lemma StoredCells(table: map<SHA256, CachedFile>, nodes: seq<LruNode>, members: set<LruNode>, key: SHA256,
                    value: CachedFile)
    requires key !in table ==> value.lruNode !in nodes
    requires value.lruNode.key == key && TableOf(table, members)
    ensures key !in table ==>
              var cells := [Live(Entry(key, value.pathInCache, value.fileSize))] + CellsOf(table, nodes);
              && TableOf(table[key := value], members + {value.lruNode})
              && CellsOf(table[key := value], [value.lruNode] + nodes) == cells
              && Total(cells) == Total(CellsOf(table, nodes)) + value.fileSize
  {
    if key !in table {
      var new_ := Live(Entry(key, value.pathInCache, value.fileSize));
      assert CellsOf(table[key := value], [value.lruNode] + nodes) == [new_] + CellsOf(table, nodes);
      TotalAppend([new_], CellsOf(table, nodes));
      TotalOne(new_);
    }
  }

  lemma CellsForget(table: map<SHA256, CachedFile>, nodes: seq<LruNode>, key: SHA256)
    ensures CellsOf(table - {key}, nodes) == Without(CellsOf(table, nodes), {key})
  {
  }

  lemma CellsShorter(table: map<SHA256, CachedFile>, nodes: seq<LruNode>)
    ensures CellsOf(table, Shorter(nodes)) == Shorter(CellsOf(table, nodes))
    ensures NodeKeys(Shorter(nodes)) == Shorter(NodeKeys(nodes))
    ensures nodes != [] && nodes[|nodes| - 1].key !in table ==>
              Total(Shorter(CellsOf(table, nodes))) == Total(CellsOf(table, nodes))
  {
  }

  lemma ForgottenTotal(table: map<SHA256, CachedFile>, nodes: seq<LruNode>, members: set<LruNode>, key: SHA256)
    requires TableOf(table, members) && (forall n :: n in members ==> n in nodes)
    requires forall i, j :: 0 <= i < j < |nodes| ==> nodes[i] != nodes[j]
    ensures CellsOf(table - {key}, nodes) == Without(CellsOf(table, nodes), {key})
    ensures Total(CellsOf(table - {key}, nodes)) + (if key in table then table[key].fileSize else 0)
         == Total(CellsOf(table, nodes))
  {
    CellsForget(table, nodes, key);
    UniqueCells(table, nodes);
    var i := PositionOf(table, nodes, members, key);
    hide CellsOf, Without, Total, Unique, TableOf, Position;
    TotalWithout(CellsOf(table, nodes), key);
  }

  /** What a round of the purge does. */
  lemma RoundedCells(table: map<SHA256, CachedFile>, nodes: seq<LruNode>, members: set<LruNode>,
                     stale: seq<LruNode>, lastIndex: nat, key: SHA256)
    requires TableOf(table, members) && (forall n :: n in members ==> n in nodes)
    requires forall i, j :: 0 <= i < j < |nodes| ==> nodes[i] != nodes[j]
    requires var walk := NodeKeys(if stale != [] then stale else nodes); |walk| >= 2 && walk[|walk| - 1] == key
    ensures var a := Lru(CellsOf(table, nodes), NodeKeys(stale), lastIndex);
            var nodes' := if stale != [] then nodes else Shorter(nodes);
            && Round(a) == Lru(CellsOf(table - {key}, nodes'), NodeKeys(Shorter(stale)), lastIndex)
            && Total(CellsOf(table - {key}, nodes')) + (if key in table then table[key].fileSize else 0)
               == Total(a.cells)
  {
    hide Without, Total, TableOf, Round, Shorter;
    var a := Lru(CellsOf(table, nodes), NodeKeys(stale), lastIndex);
    assert Walk(a) == NodeKeys(if stale != [] then stale else nodes);
    ForgottenTotal(table, nodes, members, key);
    RoundIs(a);
    if stale == [] {
      CellsShorter(table - {key}, nodes);
      NoKeys();
    } else {
      CellsShorter(table, stale);
    }
  }

  lemma NoKeys()
    ensures Shorter<LruNode>([]) == [] && NodeKeys([]) == []
  {
  }

  lemma TableShorter(table: map<SHA256, CachedFile>, members: set<LruNode>, tail: LruNode)
    requires TableOf(table, members)
    ensures TableOf(table - {tail.key}, members) && TableOf(table - {tail.key}, members - {tail})
  {
  }

  /** The pointers of a list of which node i was moved to the front. */
  lemma LinksOfMoved(was: seq<LruNode>, i: nat)
    requires 0 < i < |was| && forall j, k :: 0 <= j < k < |was| ==> was[j] != was[k]
    requires forall j {:trigger was[j].next} :: 0 <= j < |was| && j != i && j != i - 1 ==>
               was[j].next == if j + 1 < |was| then was[j + 1] else null
    requires forall j {:trigger was[j].prev} :: 0 < j < |was| && j != i && j != i + 1 ==> was[j].prev == was[j - 1]
    requires was[i - 1].next == if i + 1 < |was| then was[i + 1] else null
    requires i + 1 < |was| ==> was[i + 1].prev == was[i - 1]
    requires was[i].next == was[0] && was[i].prev == null && was[0].prev == was[i]
    ensures var moved := MoveToFront(was, i);
            && moved[0] == was[i] && moved[|moved| - 1] == (if i + 1 < |was| then was[|was| - 1] else was[i - 1])
            && (forall k {:trigger moved[k].next} :: 0 <= k < |moved| ==>
                  moved[k].next == if k + 1 < |moved| then moved[k + 1] else null)
            && (forall k {:trigger moved[k].prev} :: 0 <= k < |moved| ==>
                  moved[k].prev == if k > 0 then moved[k - 1] else null)
            && (forall j, k :: 0 <= j < k < |moved| ==> moved[j] != moved[k])
            && (forall n :: n in moved ==> n in was) && (forall n :: n in was ==> n in moved)
  {
    SameMembers(was, i);
  }

  lemma SameMembers(nodes: seq<LruNode>, i: nat)
    requires i < |nodes|
    ensures forall n :: n in MoveToFront(nodes, i) ==> n in nodes
    ensures forall n :: n in nodes ==> n in MoveToFront(nodes, i)
  {
    var moved := MoveToFront(nodes, i);
    forall n | n in nodes
      ensures n in moved
    {
      var j :| 0 <= j < |nodes| && nodes[j] == n;
      assert n == moved[if j < i then j + 1 else if j == i then 0 else j];
    }
  }

  lemma FilesExtended(table: map<SHA256, CachedFile>, onDisk: set<CachePath>, lastIndex: nat,
                      key: SHA256, value: CachedFile)
    requires FilesOf(table, onDisk, lastIndex) && value.pathInCache.uniqueID == lastIndex + 1
    ensures value.pathInCache !in onDisk && FilesOf(table, onDisk, lastIndex + 1)
    ensures key !in table ==> FilesOf(table[key := value], onDisk + {value.pathInCache}, lastIndex + 1)
  {
    if key !in table {
      var table' := table[key := value];
      forall p | p in onDisk + {value.pathInCache}
        ensures exists k :: k in table' && table'[k].pathInCache == p
      {
        if p == value.pathInCache {
          assert table'[key].pathInCache == p;
        } else {
          var k :| k in table && table[k].pathInCache == p;
          assert k in table' && table'[k].pathInCache == p;
        }
      }
    }
  }

  lemma FilesLater(table: map<SHA256, CachedFile>, onDisk: set<CachePath>, lastIndex: nat)
    requires FilesOf(table, onDisk, lastIndex)
    ensures FilesOf(table, onDisk, lastIndex + 1)
  {
  }

  lemma FilesShrunk(table: map<SHA256, CachedFile>, onDisk: set<CachePath>, lastIndex: nat, key: SHA256)
    requires FilesOf(table, onDisk, lastIndex) && key in table
    ensures FilesOf(table - {key}, onDisk - {table[key].pathInCache}, lastIndex)
  {
    var table' := table - {key};
    forall p | p in onDisk - {table[key].pathInCache}
      ensures exists k :: k in table' && table'[k].pathInCache == p
    {
      var k :| k in table && table[k].pathInCache == p;
      assert k in table' && table'[k].pathInCache == p;
    }
  }
}
