/** Why changes to the blocks of a hash tree keep it well-formed. */
module DirUpdate {
  import opened Words
  import opened DirRecords
  import opened DirSplit
  import opened DirTree
  import opened DirSearch

  // ----- Leaf blocks

  lemma SameNodes(blocks: seq<Blk>, blocks': seq<Blk>, levels: nat, size: nat)
    requires NodesOk(blocks, levels, size) && |blocks| <= |blocks'|
    requires forall b :: 0 <= b < |blocks| && blocks[b].Node? ==> blocks'[b] == blocks[b]
    ensures NodesOk(blocks', levels, size) && Leaves(blocks', levels) == Leaves(blocks, levels)
    ensures Groups(blocks', levels) == Groups(blocks, levels)
  {
    assert NodeAt(blocks', 0) == NodeAt(blocks, 0);
    if levels == 1 {
      forall i | 0 <= i < |NodeAt(blocks, 0)|
        ensures NodeOk(blocks', NodeAt(blocks, 0)[i].block, size)
        ensures Groups(blocks', levels)[i] == Groups(blocks, levels)[i]
      {
        assert NodeOk(blocks, NodeAt(blocks, 0)[i].block, size);
      }
      assert Groups(blocks', levels) == Groups(blocks, levels);
    }
  }

  lemma SamePath(blocks: seq<Blk>, blocks': seq<Blk>, levels: nat, size: nat, path: seq<DxBlock>, k: nat)
    requires NodesOk(blocks, levels, size) && |blocks| <= |blocks'| && At(blocks, levels, path, k)
    requires forall b :: 0 <= b < |blocks| && blocks[b].Node? ==> blocks'[b] == blocks[b]
    ensures At(blocks', levels, path, k) && Target(blocks', path) == Target(blocks, path)
  {
    hide Groups, Off;
    SameNodes(blocks, blocks', levels, size);
    if levels == 1 { assert NodeOk(blocks, path[1].iblock, size); }
  }

  lemma LeafReplaced(hash: Hash, blocks: seq<Blk>, size: nat, f: seq<Ref>, k: nat, recs: seq<Rec>)
    requires LeavesOk(hash, blocks, size, f) && k < |f| && f[k].block < |blocks|
    requires Tiles(recs, size) && HashedIn(hash, recs, ClearLow(f[k].low), High(f, k))
    ensures LeavesOk(hash, blocks[f[k].block := Leaf(recs)], size, f)
  {
    hide Tiles, HashedIn, ClearLow, High, Ordered;
    var blocks' := blocks[f[k].block := Leaf(recs)];
    forall m | 0 <= m < |f|
      ensures LeafOk(hash, blocks', size, f, m)
    {
      assert LeafOk(hash, blocks, size, f, m);
    }
    forall b | 0 <= b < |blocks'| && blocks'[b].Leaf?
      ensures exists m :: 0 <= m < |f| && f[m].block == b
    {
      if b == f[k].block { assert f[k].block == b; } else { assert blocks[b].Leaf?; }
    }
  }

  lemma LeafBlocks(hash: Hash, blocks: seq<Blk>, size: nat, f: seq<Ref>)
    requires LeavesOk(hash, blocks, size, f)
    ensures forall m :: 0 <= m < |f| ==> f[m].block < |blocks| && blocks[f[m].block].Leaf?
  {
    forall m | 0 <= m < |f|
      ensures f[m].block < |blocks| && blocks[f[m].block].Leaf?
    {
      assert LeafOk(hash, blocks, size, f, m);
    }
  }

  /** A leaf is split in two neighbours at `bound`. */
  lemma LeafSplit(hash: Hash, blocks: seq<Blk>, size: nat, f: seq<Ref>, k: nat, left: seq<Rec>, right: seq<Rec>,
          bound: nat)
    requires LeavesOk(hash, blocks, size, f) && k < |f| && f[k].block < |blocks|
    requires Tiles(left, size) && Tiles(right, size) && f[k].low <= bound <= High(f, k)
    requires HashedIn(hash, left, ClearLow(f[k].low), bound) && HashedIn(hash, right, ClearLow(bound), High(f, k))
    ensures var f' := f[..k + 1] + [Ref(bound, |blocks|)] + f[k + 1..];
            LeavesOk(hash, blocks[f[k].block := Leaf(left)] + [Leaf(right)], size, f')
  {
    hide Tiles, HashedIn, ClearLow, High, LeafOk, Ordered;
    var n := |blocks|;
    var f' := f[..k + 1] + [Ref(bound, n)] + f[k + 1..];
    var blocks' := blocks[f[k].block := Leaf(left)] + [Leaf(right)];
    LeafBlocks(hash, blocks, size, f);
    InsertedOrdered(f, k, Ref(bound, n));
    forall m | 0 <= m < |f'|
      ensures LeafOk(hash, blocks', size, f', m)
    {
      LeafSplitAt(hash, blocks, size, f, k, left, right, bound, m);
    }
    forall b | 0 <= b < |blocks'| && blocks'[b].Leaf?
      ensures exists m :: 0 <= m < |f'| && f'[m].block == b
    {
      if b == n {
        assert f'[k + 1].block == b;
      } else {
        var m :| 0 <= m < |f| && f[m].block == b;
        assert f'[if m <= k then m else m + 1].block == b;
      }
    }
  }

  lemma LeafSplitAt(hash: Hash, blocks: seq<Blk>, size: nat, f: seq<Ref>, k: nat, left: seq<Rec>, right: seq<Rec>,
                    bound: nat, m: nat)
    requires LeavesOk(hash, blocks, size, f) && k < |f| && f[k].block < |blocks| && m <= |f|
    requires Tiles(left, size) && Tiles(right, size)
    requires HashedIn(hash, left, ClearLow(f[k].low), bound) && HashedIn(hash, right, ClearLow(bound), High(f, k))
    ensures var f' := f[..k + 1] + [Ref(bound, |blocks|)] + f[k + 1..];
            LeafOk(hash, blocks[f[k].block := Leaf(left)] + [Leaf(right)], size, f', m)
  {
    hide Tiles, HashedIn, ClearLow, High, Ordered;
    Inserted(f, k, Ref(bound, |blocks|));
    if m <= k {
      assert LeafOk(hash, blocks, size, f, m);
    } else if m > k + 1 {
      assert LeafOk(hash, blocks, size, f, m - 1);
    }
  }

  lemma Inserted(f: seq<Ref>, k: nat, r: Ref)
    requires k < |f|
    ensures var f' := f[..k + 1] + [r] + f[k + 1..];
            && |f'| == |f| + 1 && f'[k + 1] == r
            && (forall m :: 0 <= m <= k ==> f'[m] == f[m])
            && (forall m :: k + 1 < m < |f'| ==> f'[m] == f[m - 1])
            && (forall m :: 0 <= m < k ==> High(f', m) == High(f, m)) && High(f', k) == r.low
            && (forall m :: k + 1 <= m < |f'| ==> High(f', m) == High(f, m - 1))
  {
  }

  lemma InsertedOrdered(f: seq<Ref>, k: nat, r: Ref)
    requires Ordered(f) && Distinct(f) && k < |f| && f[k].low <= r.low <= High(f, k)
    requires forall m :: 0 <= m < |f| ==> f[m].block != r.block
    ensures var f' := f[..k + 1] + [r] + f[k + 1..];
            Ordered(f') && Distinct(f')
  {
    hide High;
    var f' := f[..k + 1] + [r] + f[k + 1..];
    Inserted(f, k, r);
    HighIs(f, k);
    forall a, b | 0 <= a < b < |f'|
      ensures f'[a].low <= f'[b].low && f'[a].block != f'[b].block
    {
      var a0, b0 := if a <= k then a else a - 1, if b <= k then b else b - 1;
      if a == k + 1 {
        assert f'[b] == f[b - 1] && f[k + 1].low <= f[b - 1].low;
      } else if b == k + 1 {
        assert f'[a] == f[a] && f[a].low <= f[k].low;
      } else {
        assert f'[a] == f[a0] && f'[b] == f[b0] && a0 < b0;
      }
    }
  }

  lemma HighIs(f: seq<Ref>, k: nat)
    requires Ordered(f) && k < |f|
    ensures High(f, k) <= 0x1_0000_0000
    ensures k + 1 < |f| ==> High(f, k) == f[k + 1].low
  {
  }

  // ----- Index blocks

  lemma RefsInserted(e: seq<Entry>, low: nat, j: nat, x: Entry)
    requires j < |e|
    ensures Refs(e[..j + 1] + [x] + e[j + 1..], low) ==
            Refs(e, low)[..j + 1] + [Ref(x.hash, x.block)] + Refs(e, low)[j + 1..]
  {
  }

  lemma FlatReplace(gs: seq<seq<Ref>>, i: nat, mid: seq<seq<Ref>>)
    requires i < |gs|
    ensures Flat(gs[..i] + mid + gs[i + 1..]) == Flat(gs[..i]) + Flat(mid) + Flat(gs[i + 1..])
  {
    FlatAppend(gs[..i], mid);
    FlatAppend(gs[..i] + mid, gs[i + 1..]);
  }

  /** A new entry behind the one that a path points to adds a leaf behind its leaf. */
  lemma EntryInserted(blocks: seq<Blk>, levels: nat, size: nat, path: seq<DxBlock>, k: nat, x: Entry)
    requires NodesOk(blocks, levels, size) && At(blocks, levels, path, k)
    requires var b := path[levels].iblock;
             b < |blocks| && blocks[b].Node? && |blocks[b].entries| < blocks[b].limit
    ensures var b, j := path[levels].iblock, path[levels].position;
            var e := NodeAt(blocks, b);
            var blocks' := blocks[b := Node(blocks[b].limit, e[..j + 1] + [x] + e[j + 1..])];
            var f := Leaves(blocks, levels);
            && k < |f| && Leaves(blocks', levels) == f[..k + 1] + [Ref(x.hash, x.block)] + f[k + 1..]
            && NodesOk(blocks', levels, size) && At(blocks', levels, path, k)
  {
    hide Off;
    var b, j := path[levels].iblock, path[levels].position;
    var e := NodeAt(blocks, b);
    var blocks' := blocks[b := Node(blocks[b].limit, e[..j + 1] + [x] + e[j + 1..])];
    if levels == 0 {
      RefsInserted(e, 0, j, x);
      FlatOne(Tops(blocks));
      FlatOne(Tops(blocks'));
    } else {
      var i := path[0].position;
      ChildInserted(blocks, size, i, j, x);
      ChildInsertedGroups(blocks, size, i, j, x);
      AtLeaf(blocks, levels, size, path, k);
    }
  }

  lemma ChildInserted(blocks: seq<Blk>, size: nat, i: nat, j: nat, x: Entry)
    requires NodesOk(blocks, 1, size) && i < |NodeAt(blocks, 0)|
    requires var b := NodeAt(blocks, 0)[i].block;
             j < |NodeAt(blocks, b)| && b < |blocks| && blocks[b].Node? && |blocks[b].entries| < blocks[b].limit
    ensures var b := NodeAt(blocks, 0)[i].block;
            var e := NodeAt(blocks, b);
            var blocks' := blocks[b := Node(blocks[b].limit, e[..j + 1] + [x] + e[j + 1..])];
            var gs := Groups(blocks, 1);
            && NodesOk(blocks', 1, size) && NodeAt(blocks', 0) == NodeAt(blocks, 0)
            && Groups(blocks', 1) == gs[..i] + [gs[i][..j + 1] + [Ref(x.hash, x.block)] + gs[i][j + 1..]] + gs[i + 1..]
  {
    var r := NodeAt(blocks, 0);
    var b := r[i].block;
    var e := NodeAt(blocks, b);
    var blocks' := blocks[b := Node(blocks[b].limit, e[..j + 1] + [x] + e[j + 1..])];
    assert NodeOk(blocks, b, size);
    var gs, gs' := Groups(blocks, 1), Groups(blocks', 1);
    RefsInserted(e, Tops(blocks)[i].low, j, x);
    forall m | 0 <= m < |r|
      ensures NodeOk(blocks', r[m].block, size) && (m != i ==> gs'[m] == gs[m])
    {
      assert NodeOk(blocks, r[m].block, size);
      if m != i {
        assert Tops(blocks)[m].block != Tops(blocks)[i].block;
      }
    }
  }

  lemma ChildInsertedGroups(blocks: seq<Blk>, size: nat, i: nat, j: nat, x: Entry)
    requires NodesOk(blocks, 1, size) && i < |NodeAt(blocks, 0)| && j < |NodeAt(blocks, NodeAt(blocks, 0)[i].block)|
    ensures var gs := Groups(blocks, 1);
            var gs' := gs[..i] + [gs[i][..j + 1] + [Ref(x.hash, x.block)] + gs[i][j + 1..]] + gs[i + 1..];
            var k, f := Off(gs, i) + j, Flat(gs);
            && k < |f| && Flat(gs') == f[..k + 1] + [Ref(x.hash, x.block)] + f[k + 1..]
            && Off(gs', i) == Off(gs, i)
  {
    hide Flat, Off;
    var gs := Groups(blocks, 1);
    var g' := gs[i][..j + 1] + [Ref(x.hash, x.block)] + gs[i][j + 1..];
    var gs' := gs[..i] + [g'] + gs[i + 1..];
    FlatSplit(gs, i);
    FlatReplace(gs, i, [g']);
    FlatOne(g');
    assert gs'[..i] == gs[..i];
    OffPrefix(gs, gs', i);
  }

  // ----- Splitting index blocks

  /** The blocks after a full index block below the root was split in two. */
  function HalvedNode(blocks: seq<Blk>, b: nat, i: nat, size: nat): seq<Blk>
    requires b < |blocks| && blocks[b].Node? && 0 < |blocks[b].entries| && blocks != [] && blocks[0].Node?
    requires i < |blocks[0].entries| && b != 0
  {
    var e, r := blocks[b].entries, blocks[0].entries;
    var cl := |e| / 2;
    blocks[b := Node(blocks[b].limit, e[..cl])]
          [0 := Node(blocks[0].limit, r[..i + 1] + [Entry(e[cl].hash, |blocks|)] + r[i + 1..])]
      + [Node(NodeLimit(size), e[cl..])]
  }

  lemma HalvedGroups(blocks: seq<Blk>, b: nat, i: nat, size: nat)
    requires NodesOk(blocks, 1, size) && i < |NodeAt(blocks, 0)| && b == NodeAt(blocks, 0)[i].block && size >= 1024
    requires 0 < b < |blocks| && blocks[b].Node? && |blocks[b].entries| == blocks[b].limit
    requires |blocks[0].entries| < blocks[0].limit
    ensures var e := NodeAt(blocks, b);
            var cl, gs, blocks' := |e| / 2, Groups(blocks, 1), HalvedNode(blocks, b, i, size);
            && 0 < cl < |e| && i < |gs| && |gs[i]| == |e|
            && NodesOk(blocks', 1, size)
            && Groups(blocks', 1) == gs[..i] + [gs[i][..cl], gs[i][cl..]] + gs[i + 1..]
            && |NodeAt(blocks', b)| < blocks'[b].limit && |NodeAt(blocks', |blocks|)| < blocks'[|blocks|].limit
            && NodeAt(blocks', 0)[i].block == b && NodeAt(blocks', 0)[i + 1].block == |blocks|
  {
    hide NodeLimit, RootLimit, Distinct;
    assert NodeOk(blocks, b, size);
    LimitsAreLarge(size);
    var r, e := NodeAt(blocks, 0), NodeAt(blocks, b);
    var cl, gs, blocks' := |e| / 2, Groups(blocks, 1), HalvedNode(blocks, b, i, size);
    var gs', r' := Groups(blocks', 1), NodeAt(blocks', 0);
    forall m | 0 <= m < |r'|
      ensures NodeOk(blocks', r'[m].block, size)
      ensures gs'[m] == if m < i then gs[m] else if m == i then gs[i][..cl] else if m == i + 1 then gs[i][cl..]
              else gs[m - 1]
    {
      HalvedAt(blocks, b, i, size, m);
    }
    HalvedDistinct(blocks, b, i, size);
    HalvedAt(blocks, b, i, size, i);
    assert NodeAt(blocks', b) == e[..cl] && NodeAt(blocks', |blocks|) == e[cl..];
    assert gs' == gs[..i] + [gs[i][..cl], gs[i][cl..]] + gs[i + 1..];
  }

  lemma LimitsAreLarge(size: nat)
    requires size >= 1024
    ensures 2 <= RootLimit(size) < NodeLimit(size)
  {
  }

  lemma HalvedAt(blocks: seq<Blk>, b: nat, i: nat, size: nat, m: nat)
    requires NodesOk(blocks, 1, size) && i < |NodeAt(blocks, 0)| && b == NodeAt(blocks, 0)[i].block && size >= 1024
    requires 0 < b < |blocks| && blocks[b].Node? && |blocks[b].entries| == blocks[b].limit
    requires m <= |NodeAt(blocks, 0)|
    ensures var e := NodeAt(blocks, b);
            var cl, gs, blocks' := |e| / 2, Groups(blocks, 1), HalvedNode(blocks, b, i, size);
            && i < |gs| && |gs[i]| == |e| && m < |NodeAt(blocks', 0)| == |Groups(blocks', 1)|
            && NodeOk(blocks', NodeAt(blocks', 0)[m].block, size)
            && Groups(blocks', 1)[m] ==
                 if m < i then gs[m] else if m == i then gs[i][..cl] else if m == i + 1 then gs[i][cl..] else gs[m - 1]
  {
    hide NodeLimit, RootLimit;
    assert NodeOk(blocks, b, size);
    LimitsAreLarge(size);
    var r, e := NodeAt(blocks, 0), NodeAt(blocks, b);
    var blocks' := HalvedNode(blocks, b, i, size);
    var r' := NodeAt(blocks', 0);
    assert NodeAt(blocks', b) == e[..|e| / 2] && NodeAt(blocks', |blocks|) == e[|e| / 2..];
    if m != i && m != i + 1 {
      var o := if m < i then m else m - 1;
      assert r'[m] == r[o] && NodeOk(blocks, r[o].block, size);
      assert Tops(blocks)[o].block != Tops(blocks)[i].block;
      assert NodeAt(blocks', r'[m].block) == NodeAt(blocks, r[o].block);
    }
  }

  lemma HalvedDistinct(blocks: seq<Blk>, b: nat, i: nat, size: nat)
    requires NodesOk(blocks, 1, size) && i < |NodeAt(blocks, 0)| && b == NodeAt(blocks, 0)[i].block
    requires 0 < b < |blocks| && blocks[b].Node? && 0 < |blocks[b].entries|
    ensures Distinct(Tops(HalvedNode(blocks, b, i, size)))
  {
    var blocks' := HalvedNode(blocks, b, i, size);
    var f, f' := Tops(blocks), Tops(blocks');
    assert forall m :: 0 <= m < |f| ==> f[m].block < |blocks| by {
      forall m | 0 <= m < |f| ensures f[m].block < |blocks| { assert NodeOk(blocks, blocks[0].entries[m].block, size); }
    }
    forall x, y | 0 <= x < y < |f'|
      ensures f'[x].block != f'[y].block
    {
      assert f'[x].block == if x == i + 1 then |blocks| else f[if x <= i then x else x - 1].block;
      assert f'[y].block == if y == i + 1 then |blocks| else f[if y <= i then y else y - 1].block;
    }
  }

  /** Two groups in place of one. */
  lemma TwoForOne(gs: seq<seq<Ref>>, gs': seq<seq<Ref>>, i: nat, x: seq<Ref>, y: seq<Ref>)
    requires i < |gs| && gs[i] == x + y && gs' == gs[..i] + [x, y] + gs[i + 1..]
    ensures Flat(gs') == Flat(gs) && Off(gs', i) == Off(gs, i) && Off(gs', i + 1) == Off(gs, i) + |x|
  {
    hide Flat, Off;
    FlatSplit(gs, i);
    FlatReplace(gs, i, [x, y]);
    FlatTwo(x, y);
    assert gs'[..i] == gs[..i];
    OffPrefix(gs, gs', i);
    FlatSplit(gs', i);
  }

  /** Splitting an index block in two keeps all leaves in their order, and makes room. */
  lemma NodeHalved(blocks: seq<Blk>, size: nat, path: seq<DxBlock>, k: nat)
    requires NodesOk(blocks, 1, size) && At(blocks, 1, path, k) && size >= 1024
    requires var b := path[1].iblock;
             && 0 < b < |blocks| && blocks[b].Node? && |blocks[b].entries| == blocks[b].limit
             && |blocks[0].entries| < blocks[0].limit
    ensures var b, i, j := path[1].iblock, path[0].position, path[1].position;
            var blocks', cl := HalvedNode(blocks, b, i, size), |NodeAt(blocks, b)| / 2;
            var path' := if j < cl then path else [DxBlock(0, i + 1), DxBlock(|blocks|, j - cl)];
            && NodesOk(blocks', 1, size) && Leaves(blocks', 1) == Leaves(blocks, 1)
            && At(blocks', 1, path', k)
            && |NodeAt(blocks', path'[1].iblock)| < blocks'[path'[1].iblock].limit
  {
    hide Flat, Off, NodesOk, HalvedNode, Groups, Tops;
    var b, i, j := path[1].iblock, path[0].position, path[1].position;
    var gs := Groups(blocks, 1);
    HalvedGroups(blocks, b, i, size);
    var e := NodeAt(blocks, b);
    var blocks', cl := HalvedNode(blocks, b, i, size), |e| / 2;
    var gs' := Groups(blocks', 1);
    var x, y := gs[i][..cl], gs[i][cl..];
    TwoForOne(gs, gs', i, x, y);
    assert gs'[i] == x && gs'[i + 1] == y;
    GroupSize(blocks', i);
    GroupSize(blocks', i + 1);
  }

  lemma GroupSize(blocks: seq<Blk>, i: nat)
    requires i < |Groups(blocks, 1)|
    ensures |Groups(blocks, 1)| == |NodeAt(blocks, 0)|
    ensures |Groups(blocks, 1)[i]| == |NodeAt(blocks, NodeAt(blocks, 0)[i].block)|
  {
  }

  lemma FlatTwo(x: seq<Ref>, y: seq<Ref>)
    ensures Flat([x, y]) == x + y
  {
    assert [x, y] == [x] + [y];
    FlatAppend([x], [y]);
    FlatOne(x);
    FlatOne(y);
  }

  /** The blocks after the root moved its entries to a new index block. */
  function Grown(blocks: seq<Blk>, size: nat, first: u32): seq<Blk>
    requires blocks != [] && blocks[0].Node?
  {
    blocks[0 := Node(blocks[0].limit, [Entry(first, |blocks|)])] + [Node(NodeLimit(size), blocks[0].entries)]
  }

  /** Growing the tree by a level keeps all leaves in their order, and makes room. */
  lemma RootGrown(blocks: seq<Blk>, size: nat, path: seq<DxBlock>, k: nat, first: u32)
    requires NodesOk(blocks, 0, size) && At(blocks, 0, path, k) && size >= 1024
    ensures var blocks' := Grown(blocks, size, first);
            var path' := [DxBlock(0, 0), DxBlock(|blocks|, path[0].position)];
            && NodesOk(blocks', 1, size) && Leaves(blocks', 1) == Leaves(blocks, 0)
            && At(blocks', 1, path', k)
            && |NodeAt(blocks', |blocks|)| < blocks'[|blocks|].limit
  {
    var blocks' := Grown(blocks, size, first);
    assert NodeAt(blocks', |blocks|) == blocks[0].entries;
    assert NodeAt(blocks', 0) == [Entry(first, |blocks|)];
    assert NodeOk(blocks', |blocks|, size);
    assert Groups(blocks', 1) == Groups(blocks, 0);
  }

  // ----- What the directory holds
}
