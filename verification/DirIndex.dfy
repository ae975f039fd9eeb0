/** The indexed directory: searching, adding and removing names. */
module DirIndex {
  import opened Words
  import opened DirRecords
  import opened DirSplit
  import opened DirTree
  import opened DirSearch
  import opened DirUpdate

  /** Adding this name is defined: the leaf that its hash leads to has room, or is more than
      half full of entries, so that it can be split. */
  ghost predicate CanTake(hash: Hash, blocks: seq<Blk>, levels: nat, size: nat, name: Name) {
    forall k: nat :: Located(Leaves(blocks, levels), k, hash(name)) ==>
      var recs := RecsAt(blocks, Leaves(blocks, levels)[k].block);
      RoomFor(recs, Need(name)) || LiveSize(recs) > size / 2
  }

  predicate NodeFull(blocks: seq<Blk>, b: nat) {
    b < |blocks| && blocks[b].Node? && |blocks[b].entries| == blocks[b].limit
  }

  /** The index block at the end of a path has no room for a key. */
  predicate MustSplit(blocks: seq<Blk>, path: seq<DxBlock>) {
    path != [] && NodeFull(blocks, path[|path| - 1].iblock)
  }

  /** Neither has the root of a tree of two levels, which cannot grow. */
  predicate IndexFull(blocks: seq<Blk>, levels: nat, path: seq<DxBlock>) {
    MustSplit(blocks, path) && levels > 0 && NodeFull(blocks, 0)
  }

  /** When a name cannot be added for lack of space: its path leads through a full index block
      that cannot be split, or there are fewer blocks left than the splits take. */
  predicate NoSpace(blocks: seq<Blk>, levels: nat, free: nat, path: seq<DxBlock>, recs: seq<Rec>, name: Name) {
    || IndexFull(blocks, levels, path)
    || free < (if MustSplit(blocks, path) then 1 else 0) + if RoomFor(recs, Need(name)) then 0 else 1
  }

  class Directory {
    const hash: Hash
    const size: nat
    var blocks: seq<Blk>
    var levels: nat

    /** Blocks that the file system can still give. */
    var free: nat

    ghost predicate Valid()
      reads this
    {
      TreeOk(hash, blocks, levels, size)
    }

    /** The records of a leaf. */
    ghost function LeafRecs(k: nat): seq<Rec>
      reads this
    {
      var f := Leaves(blocks, levels);
      if k < |f| then RecsAt(blocks, f[k].block) else []
    }

    ghost function Contents(): multiset<Item>
      reads this
    {
      AllEntries(blocks)
    }

    /** `ext4_dir_dx_init`: a root with one empty leaf. */
    constructor (hash: Hash, size: nat, free: nat)
      requires Even(hash) && size % 4 == 0 && 1024 <= size <= 32768
      ensures Valid() && Contents() == multiset{} && this.hash == hash && this.size == size && this.free == free
      ensures blocks == EmptyBlocks(size) && levels == 0
    {
      this.hash, this.size, this.free := hash, size, free;
      blocks := [Node(RootLimit(size), [Entry(0, 1)]), Leaf([Rec(0, size, [])])];
      levels := 0;
      new;
      EmptyTree(hash, size);
    }

    /** A directory as it is found on disk. */
    constructor Open(hash: Hash, size: nat, free: nat, blocks: seq<Blk>, levels: nat)
      requires TreeOk(hash, blocks, levels, size)
      ensures Valid() && this.hash == hash && this.size == size && this.free == free
      ensures this.blocks == blocks && this.levels == levels
    {
      this.hash, this.size, this.free, this.blocks, this.levels := hash, size, free, blocks, levels;
    }

    /** `ext4_dir_dx_find_entry`: finds a name exactly when some leaf holds it. */
    method FindEntry(name: Name) returns (r: Errno, leaf: nat, at: nat, off: nat)
      requires Valid()
      ensures r == EOK || r == ENOENT
      ensures r == EOK <==> InSomeLeaf(blocks, name)
      ensures r == EOK ==> leaf < |blocks| && blocks[leaf].Leaf? && Tiles(blocks[leaf].recs, size)
      ensures r == EOK ==> var recs := RecsAt(blocks, leaf);
                at < |recs| && recs[at].inode != 0 && recs[at].name == name && off == Span(recs[..at])
    {
      hide Even, ClearLow, Located, NodesOk, At, Ordered, Distinct, Holds, HashedIn, Tiles, Leaves, Span;
      var x := hash(name);
      ghost var f := Leaves(blocks, levels);
      EvenAt(hash, name);
      var path;
      ghost var k0;
      r, path, k0 := GetLeaf(blocks, levels, size, x);
      AtLeaf(blocks, levels, size, path, k0);
      ghost var k := k0;
      var more := true;
      leaf, at, off := 0, 0, 0;
      while more
        invariant k0 <= k && (more ==> At(blocks, levels, path, k))
        invariant k < |f| && (forall m :: k0 <= m < k ==> !Holds(RecsAt(blocks, f[m].block), name))
        invariant !more ==> !Holds(RecsAt(blocks, f[k].block), name)
        invariant !more ==> k + 1 == |f| || ClearLow(f[k + 1].low) != x
        decreases |f| - k, more
      {
        AtLeaf(blocks, levels, size, path, k);
        leaf := Target(blocks, path).value.block;
        assert LeafOk(hash, blocks, size, f, k);
        r, at, off := FindInBlock(blocks[leaf].recs, size, name);
        if r == EOK {
          assert InSomeLeaf(blocks, name);
          return;
        }
        more, path := NextBlock(blocks, levels, size, x, path, k);
        if more { k := k + 1; }
      }
      NotInLeaves(hash, blocks, levels, size, name, k0, k);
      r := ENOENT;
    }

    /** The linear search of `ext4_dir_find_entry`, block by block. */
    method Scan(name: Name) returns (r: Errno, leaf: nat)
      requires Valid()
      ensures r == EOK || r == ENOENT
      ensures r == EOK <==> InSomeLeaf(blocks, name)
      ensures r == EOK ==> leaf < |blocks| && blocks[leaf].Leaf? && Holds(blocks[leaf].recs, name)
      ensures r == EOK ==> forall b :: 0 <= b < leaf && blocks[b].Leaf? ==> !Holds(blocks[b].recs, name)
    {
      hide Holds, Tiles, Ordered, Distinct, Even, NodesOk, Leaves, HashedIn;
      leaf := 0;
      while leaf < |blocks|
        invariant leaf <= |blocks|
        invariant forall b :: 0 <= b < leaf && blocks[b].Leaf? ==> !Holds(blocks[b].recs, name)
      {
        if blocks[leaf].Leaf? {
          LeafTiles(hash, blocks, size, Leaves(blocks, levels), leaf);
          var e, at, off := FindInBlock(blocks[leaf].recs, size, name);
          if e == EOK { return EOK, leaf; }
        }
        leaf := leaf + 1;
      }
      r := ENOENT;
    }

    /** `ext4_dir_remove_entry` on an indexed directory. */
    method RemoveEntry(name: Name) returns (r: Errno, gone: Item)
      requires Valid()
      modifies this`blocks
      ensures Valid() && (r == EOK || r == ENOENT)
      ensures r == EOK <==> old(InSomeLeaf(blocks, name))
      ensures r == EOK ==> gone.name == name && old(Contents()) == Contents() + multiset{gone}
      ensures r != EOK ==> blocks == old(blocks)
    {
      hide TreeOk, Entries, Span, Tiles, InSomeLeaf;
      var leaf, at, off;
      gone := Item(name, 0);
      r, leaf, at, off := FindEntry(name);
      if r != EOK { return; }
      var recs := blocks[leaf].recs;
      gone := Item(recs[at].name, recs[at].inode);
      var recs' := RemoveRec(recs, size, at, off);
      RecsChanged(hash, blocks, levels, size, leaf, recs');
      AllEntriesLess(blocks, leaf, recs', gone);
      blocks := blocks[leaf := Leaf(recs')];
    }

    /** `ext4_fs_append_inode_dblk`: the number of a new block of the directory, if there is one. */
    method AppendBlock() returns (r: Errno, iblock: nat)
      modifies this`free
      ensures iblock == |blocks| && r == if old(free) == 0 then ENOSPC else EOK
      ensures free == if old(free) == 0 then 0 else old(free) - 1
    {
      iblock := |blocks|;
      if free == 0 { return ENOSPC, iblock; }
      free := free - 1;
      r := EOK;
    }

    /** `ext4_dir_dx_insert_entry`: the entries behind the position move up by one. */
    method InsertEntry(dx: DxBlock, x: u32, iblock: nat)
      requires dx.iblock < |blocks| && blocks[dx.iblock].Node?
      requires dx.position < |blocks[dx.iblock].entries|
      modifies this`blocks
      ensures var e, j := old(NodeAt(blocks, dx.iblock)), dx.position;
              blocks == old(blocks)[dx.iblock := Node(old(blocks)[dx.iblock].limit, e[..j + 1] + [Entry(x,
                  iblock)] + e[j + 1..])]
    {
      var node := blocks[dx.iblock];
      var e, j := node.entries, dx.position;
      blocks := blocks[dx.iblock := Node(node.limit, e[..j + 1] + [Entry(x, iblock)] + e[j + 1..])];
    }

    /** `ext4_dir_dx_split_index`: makes room in the last index block of the path. The leaves and
        their order stay as they are. `dx` replaces that block in the path; `at` is what the
        path then is. */
    method SplitIndex(path: seq<DxBlock>, ghost k: nat) returns (r: Errno, dx: DxBlock, ghost at: seq<DxBlock>)
      requires Valid() && At(blocks, levels, path, k)
      modifies this
      ensures Valid() && Leaves(blocks, levels) == old(Leaves(blocks, levels)) && Contents() == old(Contents())
      ensures r == EOK || r == ENOSPC
      ensures r == ENOSPC <==> old(IndexFull(blocks, levels, path) || (MustSplit(blocks, path) && free == 0))
      ensures free == old(free) - if r == EOK && old(MustSplit(blocks, path)) then 1 else 0
      ensures old(levels == 0 && free > 0) ==> r == EOK
      ensures levels == if r == EOK && old(levels == 0 && MustSplit(blocks, path)) then 1 else old(levels)
      ensures forall b :: 0 <= b < |old(blocks)| && old(blocks)[b].Leaf? ==> b < |blocks| && blocks[b] == old(blocks)[b]
      ensures r == EOK ==>
                && At(blocks, levels, at, k) && at[levels] == dx
                && dx.iblock < |blocks| && blocks[dx.iblock].Node?
                && |blocks[dx.iblock].entries| < blocks[dx.iblock].limit
    {
      hide Leaves, LeavesOk, Even, NodesOk, At, AllEntries, NodeLimit, RootLimit, HalvedNode, Grown;
      PathNode(blocks, levels, size, path, k);
      r, dx, at := EOK, path[|path| - 1], path;
      ghost var blocks0, levels0 := blocks, levels;
      var node := blocks[dx.iblock];
      if node.limit == |node.entries| {
        var root := blocks[0];
        if levels > 0 && root.limit == |root.entries| { return ENOSPC, dx, at; }
        var iblock;
        r, iblock := AppendBlock();
        if r != EOK { return; }
        if levels > 0 {
          NodeHalved(blocks, size, path, k);
          var countLeft := |node.entries| / 2;
          var hashRight := node.entries[countLeft].hash;
          blocks := blocks[dx.iblock := Node(node.limit, node.entries[..countLeft])] +
                    [Node(NodeLimit(size), node.entries[countLeft..])];
          if dx.position >= countLeft {
            dx := DxBlock(iblock, dx.position - countLeft);
            at := [DxBlock(0, path[0].position + 1), dx];
          }
          InsertEntry(path[0], hashRight, iblock);
          HalvedIs(blocks0, path[1].iblock, path[0].position, size, blocks);
          NodesChanged(hash, blocks0, levels, blocks, levels, size);
        } else {
          RootGrown(blocks, size, path, k, root.entries[0].hash);
          blocks := blocks[0 := Node(root.limit, [root.entries[0].(block := iblock)])] +
                    [Node(NodeLimit(size), root.entries)];
          levels := 1;
          dx := DxBlock(iblock, dx.position);
          at := [DxBlock(0, 0), dx];
          GrownIs(blocks0, size, blocks);
          NodesChanged(hash, blocks0, levels0, blocks, levels, size);
        }
      }
    }

    /** `ext4_dir_dx_split_data`: moves the upper half of leaf `k`, block `leaf`, to a new block
        and enters that behind it. */
    method SplitData(dx: DxBlock, leaf: nat, ghost at: seq<DxBlock>, ghost k: nat)
      returns (r: Errno, iblock: nat, bound: u32, ghost sort: seq<Rec>)
      requires Valid() && leaf < |blocks| && blocks[leaf].Leaf? && LiveSize(blocks[leaf].recs) > size / 2
      requires At(blocks, levels, at, k) && at[levels] == dx
      requires k < |Leaves(blocks, levels)| && Leaves(blocks, levels)[k].block == leaf
      requires dx.iblock < |blocks| && blocks[dx.iblock].Node? && |blocks[dx.iblock].entries| < blocks[dx.iblock].limit
      modifies this`blocks, this`free
      ensures Valid() && Contents() == old(Contents()) && r == if old(free) == 0 then ENOSPC else EOK
      ensures r == EOK ==>
                var f := old(Leaves(blocks, levels));
                && Leaves(blocks, levels) == f[..k + 1] + [Ref(bound, iblock)] + f[k + 1..]
                && f[k].low <= bound <= High(f, k)
                && leaf < |blocks| && blocks[leaf].Leaf? && iblock < |blocks| && blocks[iblock].Leaf?
                && SplitWell(hash, old(blocks[leaf].recs), sort, blocks[leaf].recs, blocks[iblock].recs, bound, size)
      ensures r == EOK ==>
                && |NodeAt(blocks, dx.iblock)| > dx.position + 1
                && NodeAt(blocks, dx.iblock)[dx.position + 1].hash == bound
    {
      hide Leaves, LeavesOk, Even, NodesOk, At, AllEntries, Entries, Tiles, HashedIn, ClearLow, LiveSize, High,
          Compact, InOrder, BoundOf, NeedSum, MidOf;
      ghost var blocks0, f := blocks, Leaves(blocks, levels);
      LeafFacts(hash, blocks, levels, size, k);
      var left, right;
      ghost var largest;
      left, right, bound, largest, sort := SplitRecords(hash, blocks[leaf].recs, size);
      r, iblock := AppendBlock();
      if r != EOK { return; }
      SplitBound(hash, blocks, levels, size, k, left, right, bound, largest);
      blocks := blocks[leaf := Leaf(left)] + [Leaf(right)];
      ghost var blocks1 := blocks;
      SamePath(blocks0, blocks1, levels, size, at, k);
      SameNodes(blocks0, blocks1, levels, size);
      PathNode(blocks1, levels, size, at, k);
      InsertEntry(dx, bound, iblock);
      EntryInserted(blocks1, levels, size, at, k, Entry(bound, iblock));
      SplitDone(hash, blocks0, levels, size, k, left, right, bound, blocks1, blocks);
    }

    /** Tries to put the name into leaf `k`, block `leaf`. */
    method InsertAt(leaf: nat, ghost k: nat, name: Name, inode: u32) returns (r: Errno)
      requires Valid() && ValidName(name) && inode != 0 && leaf < |blocks| && blocks[leaf].Leaf?
      requires Located(Leaves(blocks, levels), k, hash(name))
      requires k < |Leaves(blocks, levels)| && Leaves(blocks, levels)[k].block == leaf
      modifies this`blocks
      ensures Valid() && (r == EOK || r == ENOSPC)
      ensures r == EOK <==> RoomFor(old(blocks)[leaf].recs, Need(name))
      ensures r == EOK ==> Contents() == old(Contents()) + multiset{Item(name, inode)}
      ensures r != EOK ==> blocks == old(blocks)
    {
      hide Leaves, LeavesOk, Even, NodesOk, AllEntries, Entries, Tiles, HashedIn, ClearLow, High, Located, PutIn;
      LeafFacts(hash, blocks, levels, size, k);
      RoomIff(blocks[leaf].recs, Need(name));
      var recs';
      ghost var i;
      r, recs', i := TryInsert(blocks[leaf].recs, size, name, inode);
      if r == EOK {
        EntryAdded(hash, blocks, levels, size, k, recs', Item(name, inode));
        blocks := blocks[leaf := Leaf(recs')];
      }
    }

    /** `ext4_dir_dx_add_entry`, by way of the path `way` to leaf `k`. It fails just for lack of
        space. When the leaf was split, at the middle of its entries in the order `sort` of
        their hashes, the result of adding the name to a half is overwritten: success is
        reported, and the name is lost exactly when that half has no room for it. It takes
        blocks of 1024 bytes for that. */
    method AddEntry(name: Name, inode: u32)
      returns (r: Errno, ghost lost: bool, ghost way: seq<DxBlock>, ghost k: nat, ghost sort: seq<Rec>)
      requires Valid() && ValidName(name) && inode != 0 && CanTake(hash, blocks, levels, size, name)
      modifies this
      ensures Valid() && (r == EOK || r == ENOSPC)
      ensures old(At(blocks, levels, way, k)) && Located(old(Leaves(blocks, levels)), k, hash(name))
      ensures r == ENOSPC <==> NoSpace(old(blocks), old(levels), old(free), way, old(LeafRecs(k)), name)
      ensures lost <==> r == EOK && !RoomFor(old(LeafRecs(k)), Need(name)) && Spills(hash, sort, size, name)
      ensures r == EOK && !RoomFor(old(LeafRecs(k)), Need(name)) ==> InOrder(hash, old(LeafRecs(k)), sort)
      ensures lost ==> size < 2048
      ensures Contents() == if r == EOK && !lost then old(Contents()) + multiset{Item(name, inode)} else old(Contents())
    {
      hide Leaves, LeavesOk, Even, NodesOk, At, AllEntries, Entries, Tiles, HashedIn, ClearLow, LiveSize, High,
          Compact, Located, NodeFull, InOrder, BoundOf, NeedSum, MidOf, RoomFor;
      lost, sort := false, [];
      var x := hash(name);
      var path;
      TreeParts(hash, blocks, levels, size);
      r, path, k := GetLeaf(blocks, levels, size, x);
      AtLeaf(blocks, levels, size, path, k);
      way := path;
      var leaf := Target(blocks, path).value.block;
      LeafFacts(hash, blocks, levels, size, k);
      ghost var recs, f := blocks[leaf].recs, Leaves(blocks, levels);
      var dx;
      ghost var at;
      r, dx, at := SplitIndex(path, k);
      if r != EOK { return; }
      LeafFacts(hash, blocks, levels, size, k);
      r := InsertAt(leaf, k, name, inode);
      if r == EOK { return; }
      var iblock, bound;
      r, iblock, bound, sort := SplitData(dx, leaf, at, k);
      if r != EOK { return; }
      ghost var h := if x >= bound then k + 1 else k;
      SplitLocated(f, k, x, bound, iblock);
      LeafFacts(hash, blocks, levels, size, h);
      var blkHash := NodeAt(blocks, dx.iblock)[dx.position + 1].hash;
      var target := if x >= blkHash then iblock else leaf;
      HalfHasRoom(blocks[target].recs, size, name);
      r := InsertAt(target, h, name, inode);
      lost := r != EOK;
      r := EOK;
    }
  }

  function EmptyBlocks(size: nat): seq<Blk> {
    [Node(RootLimit(size), [Entry(0, 1)]), Leaf([Rec(0, size, [])])]
  }

  lemma EmptyTree(hash: Hash, size: nat)
    requires Even(hash) && size % 4 == 0 && 1024 <= size <= 32768
    ensures TreeOk(hash, EmptyBlocks(size), 0, size) && AllEntries(EmptyBlocks(size)) == multiset{}
  {
    var recs := [Rec(0, size, [])];
    var blocks := [Node(RootLimit(size), [Entry(0, 1)]), Leaf(recs)];
    OneRec(recs[0]);
    OneLevel(blocks, size, 0);
    var f := Leaves(blocks, 0);
    assert LeafOk(hash, blocks, size, f, 0);
    assert f[0].block == 1;
    assert blocks[..1] == [blocks[0]] && [blocks[0]][..0] == [];
    assert AllEntries([blocks[0]]) == AllEntries([blocks[0]][..0]) + Entries([]);
  }

  lemma LeafTiles(hash: Hash, blocks: seq<Blk>, size: nat, f: seq<Ref>, b: nat)
    requires LeavesOk(hash, blocks, size, f) && b < |blocks| && blocks[b].Leaf?
    ensures Tiles(blocks[b].recs, size)
  {
    var k :| 0 <= k < |f| && f[k].block == b;
    assert LeafOk(hash, blocks, size, f, k);
  }

  /** The leaves that the search visits are all that could hold the name. */
  lemma NotInLeaves(hash: Hash, blocks: seq<Blk>, levels: nat, size: nat, name: Name, k0: nat, k: nat)
    requires TreeOk(hash, blocks, levels, size)
    requires var f := Leaves(blocks, levels);
             && Located(f, k0, hash(name)) && k0 <= k < |f|
             && (forall m :: k0 <= m <= k ==> !Holds(RecsAt(blocks, f[m].block), name))
             && (k + 1 == |f| || ClearLow(f[k + 1].low) != hash(name))
    ensures !InSomeLeaf(blocks, name)
  {
    hide Holds, ClearLow, Located, Even, HashedIn, Tiles, Ordered, Distinct, NodesOk, Leaves;
    var f := Leaves(blocks, levels);
    forall b | 0 <= b < |blocks| && blocks[b].Leaf?
      ensures !Holds(blocks[b].recs, name)
    {
      var m :| 0 <= m < |f| && f[m].block == b;
      assert RecsAt(blocks, b) == blocks[b].recs;
      if Holds(blocks[b].recs, name) {
        OnlyInRun(hash, blocks, size, f, k0, m, name);
      }
    }
  }

  lemma PathNode(blocks: seq<Blk>, levels: nat, size: nat, path: seq<DxBlock>, k: nat)
    requires NodesOk(blocks, levels, size) && At(blocks, levels, path, k)
    ensures |path| == levels + 1 && path[0].iblock == 0 && path[0].position < |NodeAt(blocks, 0)| && levels <= 1
    ensures blocks != [] && blocks[0].Node? && 1 <= |blocks[0].entries| <= blocks[0].limit
    ensures var dx := path[levels];
            && dx.iblock < |blocks| && blocks[dx.iblock].Node? && dx.position < |blocks[dx.iblock].entries|
            && 1 <= |blocks[dx.iblock].entries| <= blocks[dx.iblock].limit
            && (levels > 0 ==> dx.iblock > 0)
  {
    hide Off, Groups;
    if levels == 1 { assert NodeOk(blocks, path[1].iblock, size); }
  }

  lemma HalvedIs(blocks: seq<Blk>, b: nat, i: nat, size: nat, blocks': seq<Blk>)
    requires 0 < b < |blocks| && blocks[b].Node? && 0 < |blocks[b].entries| && blocks[0].Node?
            && i < |blocks[0].entries|
    requires var e, r := blocks[b].entries, blocks[0].entries;
             var cl := |e| / 2;
             blocks' == (blocks[b := Node(blocks[b].limit, e[..cl])] + [Node(NodeLimit(size), e[cl..])])
                          [0 := Node(blocks[0].limit, r[..i + 1] + [Entry(e[cl].hash, |blocks|)] + r[i + 1..])]
    ensures blocks' == HalvedNode(blocks, b, i, size)
    ensures OnlyNodes(blocks, blocks')
  {
  }

  lemma GrownIs(blocks: seq<Blk>, size: nat, blocks': seq<Blk>)
    requires blocks != [] && blocks[0].Node? && blocks[0].entries != []
    requires blocks' == blocks[0 := Node(blocks[0].limit, [blocks[0].entries[0].(block := |blocks|)])] +
                        [Node(NodeLimit(size), blocks[0].entries)]
    ensures blocks' == Grown(blocks, size, blocks[0].entries[0].hash)
    ensures OnlyNodes(blocks, blocks')
  {
  }

  /** Only index blocks changed or came on top. */
  ghost predicate OnlyNodes(blocks: seq<Blk>, blocks': seq<Blk>) {
    && |blocks| <= |blocks'|
    && (forall b :: 0 <= b < |blocks| && blocks[b].Leaf? ==> blocks'[b] == blocks[b])
    && (forall b :: 0 <= b < |blocks'| && blocks'[b].Leaf? ==> b < |blocks| && blocks[b].Leaf?)
  }

  lemma NodesChanged(hash: Hash, blocks: seq<Blk>, levels: nat, blocks': seq<Blk>, levels': nat, size: nat)
    requires TreeOk(hash, blocks, levels, size) && OnlyNodes(blocks, blocks') && NodesOk(blocks', levels', size)
    requires Leaves(blocks', levels') == Leaves(blocks, levels)
    ensures TreeOk(hash, blocks', levels', size) && AllEntries(blocks') == AllEntries(blocks)
  {
    hide NodesOk, Leaves, LeavesOk, Even, AllEntries;
    OnlyNodesKeep(blocks, blocks');
    LeavesKept(hash, blocks, blocks', size, Leaves(blocks, levels));
  }

  lemma {:induction false} OnlyNodesKeep(blocks: seq<Blk>, blocks': seq<Blk>)
    requires OnlyNodes(blocks, blocks')
    ensures AllEntries(blocks') == AllEntries(blocks)
    decreases |blocks'|
  {
    hide Entries;
    if blocks' != [] {
      var n := |blocks'| - 1;
      NoEntries();
      if |blocks| == |blocks'| {
        OnlyNodesKeep(blocks[..n], blocks'[..n]);
        assert RecsAt(blocks, n) == RecsAt(blocks', n);
      } else {
        OnlyNodesKeep(blocks, blocks'[..n]);
        assert RecsAt(blocks', n) == [];
      }
    }
  }

  lemma NoEntries()
    ensures Entries([]) == multiset{}
  {
  }

  /** New records in a leaf, with entries that were there. */
  lemma RecsChanged(hash: Hash, blocks: seq<Blk>, levels: nat, size: nat, b: nat, recs: seq<Rec>)
    requires TreeOk(hash, blocks, levels, size) && b < |blocks| && blocks[b].Leaf? && Tiles(recs, size)
    requires forall x :: x in Entries(recs) ==> x in Entries(blocks[b].recs)
    ensures TreeOk(hash, blocks[b := Leaf(recs)], levels, size)
    ensures Leaves(blocks[b := Leaf(recs)], levels) == Leaves(blocks, levels)
  {
    hide Entries, Tiles, Ordered, Distinct, ClearLow, Leaves, NodesOk, Even;
    var f := Leaves(blocks, levels);
    var k :| 0 <= k < |f| && f[k].block == b;
    assert LeafOk(hash, blocks, size, f, k);
    LeafReplaced(hash, blocks, size, f, k, recs);
    SameNodes(blocks, blocks[b := Leaf(recs)], levels, size);
  }

  lemma AllEntriesLess(blocks: seq<Blk>, b: nat, recs: seq<Rec>, x: Item)
    requires b < |blocks| && blocks[b].Leaf? && Entries(blocks[b].recs) == Entries(recs) + multiset{x}
    ensures AllEntries(blocks) == AllEntries(blocks[b := Leaf(recs)]) + multiset{x}
  {
    hide Entries, AllEntries;
    AllEntriesUpdate(blocks, b, Leaf(recs));
    Cancel(AllEntries(blocks), AllEntries(blocks[b := Leaf(recs)]), Entries(recs), multiset{x});
  }

  lemma Cancel(a: multiset<Item>, a': multiset<Item>, e: multiset<Item>, x: multiset<Item>)
    requires a' + (e + x) == a + e
    ensures a == a' + x
  {
    assert a == (a + e) - e;
    assert a' + x == (a' + (e + x)) - e;
  }

  lemma TreeParts(hash: Hash, blocks: seq<Blk>, levels: nat, size: nat)
    requires TreeOk(hash, blocks, levels, size)
    ensures NodesOk(blocks, levels, size) && Ordered(Leaves(blocks, levels)) && size % 4 == 0 && 1024 <= size <= 32768
    ensures LeavesOk(hash, blocks, size, Leaves(blocks, levels)) && Even(hash)
  {
  }

  lemma LeafFacts(hash: Hash, blocks: seq<Blk>, levels: nat, size: nat, k: nat)
    requires TreeOk(hash, blocks, levels, size) && k < |Leaves(blocks, levels)|
    ensures var f := Leaves(blocks, levels);
            && f[k].block < |blocks| && blocks[f[k].block].Leaf?
            && Tiles(blocks[f[k].block].recs, size) && RecsAt(blocks, f[k].block) == blocks[f[k].block].recs
            && HashedIn(hash, blocks[f[k].block].recs, ClearLow(f[k].low), High(f, k))
    ensures NodesOk(blocks, levels, size) && size % 4 == 0 && 1024 <= size <= 32768 && Even(hash)
  {
    assert LeafOk(hash, blocks, size, Leaves(blocks, levels), k);
  }

  /** An entry more in the leaf where its hash is located. */
  lemma EntryAdded(hash: Hash, blocks: seq<Blk>, levels: nat, size: nat, k: nat, recs: seq<Rec>, x: Item)
    requires TreeOk(hash, blocks, levels, size) && k < |Leaves(blocks, levels)| && Tiles(recs, size)
    requires var f := Leaves(blocks, levels);
             && Located(f, k, hash(x.name))
             && f[k].block < |blocks| && blocks[f[k].block].Leaf?
             && Entries(recs) == Entries(blocks[f[k].block].recs) + multiset{x}
    ensures var b := Leaves(blocks, levels)[k].block;
            && TreeOk(hash, blocks[b := Leaf(recs)], levels, size)
            && AllEntries(blocks[b := Leaf(recs)]) == AllEntries(blocks) + multiset{x}
  {
    hide Entries, Tiles, Ordered, Distinct, Leaves, NodesOk, Even, AllEntries, High;
    var f := Leaves(blocks, levels);
    var b := f[k].block;
    assert LeafOk(hash, blocks, size, f, k);
    LeafReplaced(hash, blocks, size, f, k, recs);
    SameNodes(blocks, blocks[b := Leaf(recs)], levels, size);
    AllEntriesUpdate(blocks, b, Leaf(recs));
    Cancel(AllEntries(blocks[b := Leaf(recs)]), AllEntries(blocks), Entries(blocks[b].recs), multiset{x});
  }

  /** How the entries of a full leaf are shared out. */
  ghost predicate SplitWell(hash: Hash, recs: seq<Rec>, sort: seq<Rec>, left: seq<Rec>, right: seq<Rec>, bound: nat,
          size: nat) {
    && Entries(left) + Entries(right) == Entries(recs)
    && Compact(left, size) && Compact(right, size)
    && LiveSize(left) <= size / 2 && LiveSize(right) <= size / 2 + 264
    && InOrder(hash, recs, sort) && bound == BoundOf(hash, sort, size / 2)
    && LiveSize(left) == NeedSum(sort[..MidOf(sort, size / 2)])
    && LiveSize(right) == NeedSum(sort[MidOf(sort, size / 2)..])
  }

  /** Only in a block of 1024 bytes can a half be too full for a name. */
  lemma HalfHasRoom(recs: seq<Rec>, size: nat, name: Name)
    requires Compact(recs, size) && LiveSize(recs) <= size / 2 + 264 && ValidName(name)
    ensures RoomFor(recs, Need(name)) <==> LiveSize(recs) + Need(name) <= size
    ensures size >= 2048 ==> RoomFor(recs, Need(name))
  {
    NeedIsSmall(name);
  }

  /** The bound between the halves lies in the range of the leaf. */
  lemma SplitBound(hash: Hash, blocks: seq<Blk>, levels: nat, size: nat, k: nat, left: seq<Rec>, right: seq<Rec>,
                   bound: u32, largest: Item)
    requires TreeOk(hash, blocks, levels, size) && k < |Leaves(blocks, levels)|
    requires var f := Leaves(blocks, levels);
             && f[k].block < |blocks| && blocks[f[k].block].Leaf?
             && Entries(left) + Entries(right) == Entries(blocks[f[k].block].recs)
    requires HashedIn(hash, left, 0, bound) && HashedIn(hash, right, ClearLow(bound), 0x1_0000_0000)
    requires largest in Entries(left) && (bound != ClearLow(bound) ==> bound == hash(largest.name) + 1)
    requires exists x :: x in Entries(right) && hash(x.name) == ClearLow(bound)
    ensures var f := Leaves(blocks, levels);
            && f[k].low <= bound <= High(f, k)
            && HashedIn(hash, left, ClearLow(f[k].low), bound) && HashedIn(hash, right, ClearLow(bound), High(f, k))
  {
    hide Entries, Leaves, NodesOk, Even, ClearLow, High;
    var f := Leaves(blocks, levels);
    var lo, hi := ClearLow(f[k].low), High(f, k);
    var all := Entries(blocks[f[k].block].recs);
    assert LeafOk(hash, blocks, size, f, k);
    assert forall x :: x in Entries(left) ==> x in all && lo <= hash(x.name) < hi;
    assert forall x :: x in Entries(right) ==> x in all && lo <= hash(x.name) < hi;
    var y :| y in Entries(right) && hash(y.name) == ClearLow(bound);
    EvenAt(hash, largest.name);
    Between(f[k].low, bound, hi, hash(largest.name), hash(y.name));
  }

  lemma Between(low: nat, bound: nat, hi: nat, l: nat, r: nat)
    requires ClearLow(low) <= l < bound && l < hi && ClearLow(low) <= r < hi && l % 2 == 0
    requires r == ClearLow(bound) && (bound != r ==> bound == l + 1)
    ensures low <= bound <= hi
  {
  }

  lemma SplitDone(hash: Hash, blocks: seq<Blk>, levels: nat, size: nat, k: nat, left: seq<Rec>, right: seq<Rec>,
                  bound: nat, blocks1: seq<Blk>, blocks2: seq<Blk>)
    requires TreeOk(hash, blocks, levels, size) && k < |Leaves(blocks, levels)|
    requires var f := Leaves(blocks, levels);
             && f[k].block < |blocks| && blocks[f[k].block].Leaf?
             && Entries(left) + Entries(right) == Entries(blocks[f[k].block].recs)
             && f[k].low <= bound <= High(f, k) && Tiles(left, size) && Tiles(right, size)
             && HashedIn(hash, left, ClearLow(f[k].low), bound) && HashedIn(hash, right, ClearLow(bound), High(f, k))
             && blocks1 == blocks[f[k].block := Leaf(left)] + [Leaf(right)]
             && Leaves(blocks2, levels) == f[..k + 1] + [Ref(bound, |blocks|)] + f[k + 1..]
    requires OnlyNodes(blocks1, blocks2) && NodesOk(blocks2, levels, size)
    ensures TreeOk(hash, blocks2, levels, size) && AllEntries(blocks2) == AllEntries(blocks)
  {
    hide Entries, Leaves, NodesOk, Even, ClearLow, High, Tiles, HashedIn, Ordered, Distinct, AllEntries, OnlyNodes;
    var f, b := Leaves(blocks, levels), Leaves(blocks, levels)[k].block;
    var f' := f[..k + 1] + [Ref(bound, |blocks|)] + f[k + 1..];
    LeafSplit(hash, blocks, size, f, k, left, right, bound);
    OnlyNodesKeep(blocks1, blocks2);
    LeavesKept(hash, blocks1, blocks2, size, f');
    AllEntriesUpdate(blocks, b, Leaf(left));
    AllEntriesAppend(blocks[b := Leaf(left)], Leaf(right));
    assert AllEntries(blocks[b := Leaf(left)]) + (Entries(left) + Entries(right)) == AllEntries(blocks) + Entries(left);
    Cancel(AllEntries(blocks), AllEntries(blocks[b := Leaf(left)]), Entries(left), Entries(right));
  }

  lemma LeavesKept(hash: Hash, blocks: seq<Blk>, blocks': seq<Blk>, size: nat, f: seq<Ref>)
    requires LeavesOk(hash, blocks, size, f) && OnlyNodes(blocks, blocks')
    ensures LeavesOk(hash, blocks', size, f)
  {
    hide Ordered, Distinct, HashedIn, Tiles, ClearLow, High;
    forall k | 0 <= k < |f|
      ensures LeafOk(hash, blocks', size, f, k)
    {
      assert LeafOk(hash, blocks, size, f, k);
    }
  }

  /** Which half a hash belongs to. */
  lemma SplitLocated(f: seq<Ref>, k: nat, x: u32, bound: nat, iblock: nat)
    requires Located(f, k, x) && f[k].low <= bound <= High(f, k)
    ensures var f' := f[..k + 1] + [Ref(bound, iblock)] + f[k + 1..];
            var half := if x >= bound then k + 1 else k;
            Located(f', half, x) && f'[half].block == if x >= bound then iblock else f[k].block
  {
    Inserted(f, k, Ref(bound, iblock));
  }

  // ----- Where splitting fails

  function Long(n: nat, c: u8): (name: Name)
    ensures |name| == n
  {
    seq(n, _ => c)
  }

  /** A leaf may refuse a long name though its entries take no more than half a block: no
      record has all the room. `ext4_dir_dx_split_data` then finds no second half and reads in
      front of its table; see `FindMid`. */
  lemma RefusesHalfEmpty()
    ensures var recs := [Rec(1, 256, Long(1, 1)), Rec(2, 256, Long(1, 2)), Rec(3, 256, Long(1, 3)), Rec(4, 256,
            Long(1, 4))];
            Tiles(recs, 1024) && !RoomFor(recs, Need(Long(255, 9))) && LiveSize(recs) <= 512
  {
    var a, b, c, d := Rec(1, 256, Long(1, 1)), Rec(2, 256, Long(1, 2)), Rec(3, 256, Long(1, 3)), Rec(4, 256, Long(1,
        4));
    assert Need(Long(1, 1)) == 12 && Need(Long(1, 2)) == 12 && Need(Long(1, 3)) == 12 && Need(Long(1, 4)) == 12;
    assert [a, b, c, d][1..] == [b, c, d] && [b, c, d][1..] == [c, d] && [c, d][1..] == [d] && [d][1..] == [];
    OneRec(d);
    LiveOne(d);
    assert Need(Long(255, 9)) == 264;
  }

  /** A full leaf of 1024 bytes, whose first entry alone makes the lower half. */
  function FullLeaf(): seq<Rec> {
    [Rec(1, 252, Long(244, 1)), Rec(2, 264, Long(255, 2)), Rec(3, 264, Long(255, 3)), Rec(4, 244, Long(236, 4))]
  }

  /** A hash by the first byte. */
  function FirstByte(n: Name): u32 {
    var b: int := if n == [] then 0 else n[0];
    2 * b
  }

  lemma FullLeafSums()
    ensures var l := FullLeaf();
            && Tiles(l, 1024) && LiveSize(l) == 1024 && NeedSum(l[..1]) == 252 && NeedSum(l[1..]) == 772
            && MidOf(l, 512) == 1
    ensures Need(Long(255, 9)) == 264 && !RoomFor(FullLeaf(), 264)
  {
    var a, b, c, d := Rec(1, 252, Long(244, 1)), Rec(2, 264, Long(255, 2)), Rec(3, 264, Long(255, 3)), Rec(4, 244,
        Long(236, 4));
    var l := FullLeaf();
    assert l == [a, b, c, d];
    assert Need(a.name) == 252 && Need(b.name) == 264 && Need(c.name) == 264 && Need(d.name) == 244;
    assert l[1..] == [b, c, d] && [b, c, d][1..] == [c, d] && [c, d][1..] == [d] && [d][1..] == [];
    assert l[..1] == [a];
    NeedOne(a);
    NeedOne(d);
    OneRec(d);
    LiveOne(d);
  }

  lemma FullLeafLive()
    ensures Live(FullLeaf()) == FullLeaf()
  {
    var l := FullLeaf();
    assert l[..3][..2] == l[..2] && l[..2][..1] == l[..1] && l[..1][..0] == [];
    assert Live(l[..1]) == [l[0]];
    assert Live(l[..2]) == [l[0], l[1]];
    assert Live(l[..3]) == [l[0], l[1], l[2]];
  }

  lemma FullLeafHashes()
    ensures Even(FirstByte) && |FullLeaf()| == 4
    ensures forall i :: 0 <= i < 4 ==> FirstByte(FullLeaf()[i].name) == 2 * (i + 1)
  {
    var l := FullLeaf();
    assert l[0].name[0] == 1 && l[1].name[0] == 2 && l[2].name[0] == 3 && l[3].name[0] == 4;
  }

  lemma FullLeafOrder(sort: seq<Rec>)
    requires InOrder(FirstByte, FullLeaf(), sort)
    ensures sort == FullLeaf()
  {
    FullLeafLive();
    FullLeafHashes();
    hide FirstByte, Live, FullLeaf;
    OrderIsUnique(FirstByte, FullLeaf(), sort);
  }

  lemma OneLeafTree(hash: Hash, recs: seq<Rec>)
    requires Even(hash) && Tiles(recs, 1024)
    ensures var blocks := [Node(RootLimit(1024), [Entry(0, 1)]), Leaf(recs)];
            TreeOk(hash, blocks, 0, 1024) && Leaves(blocks, 0) == [Ref(0, 1)]
  {
    hide Tiles;
    var blocks := [Node(RootLimit(1024), [Entry(0, 1)]), Leaf(recs)];
    OneLevel(blocks, 1024, 0);
    var f := Leaves(blocks, 0);
    assert f == [Ref(0, 1)];
    assert LeafOk(hash, blocks, 1024, f, 0);
  }

  lemma FullLeafSpills()
    ensures Spills(FirstByte, FullLeaf(), 1024, Long(255, 9))
  {
    FullLeafSums();
    var l := FullLeaf();
    assert FirstByte(l[1].name) == 4 && FirstByte(l[0].name) == 2 && FirstByte(Long(255, 9)) == 18;
    assert BoundOf(FirstByte, l, 512) == 4;
  }

  /** What adding the name to it comes to: no block is lacking, and the name spills. */
  lemma FullLeafAdd(blocks: seq<Blk>, way: seq<DxBlock>, k: nat)
    requires blocks == [Node(RootLimit(1024), [Entry(0, 1)]), Leaf(FullLeaf())] && Leaves(blocks, 0) == [Ref(0, 1)]
    requires At(blocks, 0, way, k) && Located(Leaves(blocks, 0), k, FirstByte(Long(255, 9)))
    ensures k == 0 && !NoSpace(blocks, 0, 1, way, FullLeaf(), Long(255, 9))
  {
    hide RoomFor, Leaves, FirstByte;
  }

  lemma FullLeafNames(blocks: seq<Blk>)
    requires blocks == [Node(RootLimit(1024), [Entry(0, 1)]), Leaf(FullLeaf())]
    ensures forall x :: x in AllEntries(blocks) ==> x.name != Long(255, 9)
  {
    var name := Long(255, 9);
    forall i | 0 <= i < |FullLeaf()|
      ensures FullLeaf()[i].name != name
    {
      assert FullLeaf()[i].name[0] == i + 1 && name[0] == 9;
    }
    assert !InSomeLeaf(blocks, name);
    hide AllEntries;
    InSomeLeafIff(blocks, name);
  }

  /** Adding a name of 255 bytes to such a directory: success is reported, and the name is not
      there. */
  method NameLost() returns (d: Directory, r: Errno)
    ensures d.Valid() && r == EOK && forall x :: x in d.Contents() ==> x.name != Long(255, 9)
  {
    hide LiveSize, Tiles, TreeOk, MidOf, NeedSum, Leaves, FirstByte, Live, InOrder, RoomFor, Spills, Need, AllEntries,
        At, Located, NoSpace, FullLeaf, Long;
    var blocks := [Node(RootLimit(1024), [Entry(0, 1)]), Leaf(FullLeaf())];
    FullLeafSums();
    FullLeafHashes();
    OneLeafTree(FirstByte, FullLeaf());
    FullLeafNames(blocks);
    d := new Directory.Open(FirstByte, 1024, 1, blocks, 0);
    assert d.LeafRecs(0) == FullLeaf();
    FullLeafTakes(blocks);
    ghost var lost, way, k, sort;
    r, lost, way, k, sort := d.AddEntry(Long(255, 9), 5);
    FullLeafAdd(blocks, way, k);
    FullLeafOrder(sort);
    FullLeafSpills();
  }

  lemma FullLeafTakes(blocks: seq<Blk>)
    requires blocks == [Node(RootLimit(1024), [Entry(0, 1)]), Leaf(FullLeaf())] && Leaves(blocks, 0) == [Ref(0, 1)]
    requires LiveSize(FullLeaf()) == 1024
    ensures CanTake(FirstByte, blocks, 0, 1024, Long(255, 9)) && ValidName(Long(255, 9))
  {
    hide LiveSize, RoomFor, Leaves;
  }
}
