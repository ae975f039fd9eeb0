/** Paths through the hash tree, and the search for the leaf of a hash. */
module DirSearch {
  import opened Words
  import opened DirRecords
  import opened DirSplit
  import opened DirTree

  /** `struct ext4_dir_idx_block`: an index block and a position in it. */
  datatype DxBlock = DxBlock(iblock: nat, position: nat)

  /** A path from the root to the last index block, which points to leaf `k`. */
  ghost predicate At(blocks: seq<Blk>, levels: nat, path: seq<DxBlock>, k: nat) {
    && levels <= 1 && |path| == levels + 1 && path[0].iblock == 0
    && path[0].position < |NodeAt(blocks, 0)|
    && (levels == 0 ==> k == path[0].position)
    && (levels == 1 ==>
          && path[1].iblock == NodeAt(blocks, 0)[path[0].position].block
          && path[1].position < |NodeAt(blocks, path[1].iblock)|
          && k == Off(Groups(blocks, levels), path[0].position) + path[1].position)
  }

  /** The entry that the last block of a path points to. */
  function Target(blocks: seq<Blk>, path: seq<DxBlock>): Option<Entry> {
    if path == [] then None
    else
      var dx := path[|path| - 1];
      if dx.position < |NodeAt(blocks, dx.iblock)| then Some(NodeAt(blocks, dx.iblock)[dx.position]) else None
  }

  lemma GroupsAre(blocks: seq<Blk>, levels: nat, size: nat)
    requires NodesOk(blocks, levels, size)
    ensures Groups(blocks, levels) != []
    ensures forall g :: g in Groups(blocks, levels) ==> g != []
    ensures levels == 0 ==> Leaves(blocks, levels) == Tops(blocks)
    ensures levels == 1 ==> forall i :: 0 <= i < |Tops(blocks)| ==>
              && Groups(blocks, levels)[i] != [] && Groups(blocks, levels)[i][0].low == Tops(blocks)[i].low
  {
    FlatOne(Tops(blocks));
    if levels == 1 {
      forall i | 0 <= i < |Tops(blocks)|
        ensures Groups(blocks, levels)[i] != [] && Groups(blocks, levels)[i][0].low == Tops(blocks)[i].low
      {
        assert NodeOk(blocks, blocks[0].entries[i].block, size);
      }
    }
  }

  /** What comes after position `j` of group `i`. */
  lemma NextRef(gs: seq<seq<Ref>>, i: nat, j: nat)
    requires i < |gs| && j < |gs[i]| && forall g :: g in gs ==> g != []
    ensures var k, f := Off(gs, i) + j, Flat(gs);
            && k < |f| && f[k] == gs[i][j]
            && (if j + 1 < |gs[i]| then k + 1 < |f| && f[k + 1] == gs[i][j + 1]
                else k + 1 == Off(gs, i + 1) &&
                     if i + 1 < |gs| then gs[i + 1] != [] && k + 1 < |f| && f[k + 1] == gs[i + 1][0] else k + 1 == |f|)
  {
    hide Flat, Off;
    FlatAt(gs, i, j);
    FlatSplit(gs, i);
    if j + 1 < |gs[i]| {
      FlatAt(gs, i, j + 1);
    } else if i + 1 < |gs| {
      assert gs[i + 1] in gs;
      FlatAt(gs, i + 1, 0);
    } else {
      FlatEnd(gs);
    }
  }

  function Low(entries: seq<Entry>, j: nat, low: nat): nat
    requires j < |entries|
  {
    if j == 0 then low else entries[j].hash
  }

  /** The leaves of a tree without index blocks below the root. */
  lemma OneLevel(blocks: seq<Blk>, size: nat, j: nat)
    requires NodesOk(blocks, 0, size) && j < |NodeAt(blocks, 0)|
    ensures var e, f := NodeAt(blocks, 0), Leaves(blocks, 0);
            && |f| == |e| && f[j] == Ref(Low(e, j, 0), e[j].block)
            && (j + 1 < |e| ==> f[j + 1].low == e[j + 1].hash)
  {
    FlatOne(Tops(blocks));
  }

  /** The leaves of a tree with them. */
  lemma TwoLevels(blocks: seq<Blk>, size: nat, i: nat, j: nat)
    requires NodesOk(blocks, 1, size) && i < |NodeAt(blocks, 0)| && j < |NodeAt(blocks, NodeAt(blocks, 0)[i].block)|
    ensures var r := NodeAt(blocks, 0);
            var e, f, k := NodeAt(blocks, r[i].block), Leaves(blocks, 1), Off(Groups(blocks, 1), i) + j;
            && k < |f| && f[k] == Ref(Low(e, j, Low(r, i, 0)), e[j].block)
            && (if j + 1 < |e| then k + 1 < |f| && f[k + 1].low == e[j + 1].hash
                else k + 1 == Off(Groups(blocks, 1), i + 1) &&
                     if i + 1 < |r| then k + 1 < |f| && f[k + 1].low == r[i + 1].hash else k + 1 == |f|)
  {
    hide Flat, Off;
    GroupsAre(blocks, 1, size);
    NextRef(Groups(blocks, 1), i, j);
  }

  /** The leaf a path points to. */
  lemma AtLeaf(blocks: seq<Blk>, levels: nat, size: nat, path: seq<DxBlock>, k: nat)
    requires NodesOk(blocks, levels, size) && At(blocks, levels, path, k)
    ensures k < |Leaves(blocks, levels)| && Target(blocks, path).Some?
    ensures Leaves(blocks, levels)[k].block == Target(blocks, path).value.block
  {
    hide Leaves, Groups, Off, NodesOk;
    if levels == 0 {
      OneLevel(blocks, size, k);
    } else {
      TwoLevels(blocks, size, path[0].position, path[1].position);
    }
  }

  predicate SortedNode(entries: seq<Entry>) {
    forall a, b :: 1 <= a < b < |entries| ==> entries[a].hash <= entries[b].hash
  }

  lemma RootSorted(blocks: seq<Blk>, levels: nat, size: nat)
    requires NodesOk(blocks, levels, size) && Ordered(Leaves(blocks, levels))
    ensures SortedNode(NodeAt(blocks, 0))
  {
    var tops, f, gs := Tops(blocks), Leaves(blocks, levels), Groups(blocks, levels);
    GroupsAre(blocks, levels, size);
    forall a, b | 1 <= a < b < |tops|
      ensures tops[a].low <= tops[b].low
    {
      if levels == 1 {
        FlatAt(gs, a, 0);
        FlatAt(gs, b, 0);
        OffGrows(gs, a, b);
      }
    }
    forall a, b | 1 <= a < b < |tops|
      ensures NodeAt(blocks, 0)[a].hash <= NodeAt(blocks, 0)[b].hash
    {
      assert tops[a].low <= tops[b].low;
    }
  }

  lemma {:induction false} OffGrows(gs: seq<seq<Ref>>, a: nat, b: nat)
    requires a < b <= |gs| && forall g :: g in gs ==> g != []
    ensures Off(gs, a) < Off(gs, b)
    decreases b
  {
    assert gs[b - 1] in gs;
    if a < b - 1 { OffGrows(gs, a, b - 1); }
  }

  lemma ChildSorted(blocks: seq<Blk>, size: nat, i: nat)
    requires NodesOk(blocks, 1, size) && Ordered(Leaves(blocks, 1)) && i < |NodeAt(blocks, 0)|
    ensures SortedNode(NodeAt(blocks, NodeAt(blocks, 0)[i].block))
  {
    var gs := Groups(blocks, 1);
    var entries := NodeAt(blocks, NodeAt(blocks, 0)[i].block);
    forall a, b | 1 <= a < b < |entries|
      ensures entries[a].hash <= entries[b].hash
    {
      FlatAt(gs, i, a);
      FlatAt(gs, i, b);
    }
  }

  /** The binary search of `ext4_dir_dx_get_leaf` in one node. */
  method SearchNode(entries: seq<Entry>, x: u32) returns (at: nat)
    requires entries != [] && SortedNode(entries)
    ensures at < |entries| && (at > 0 ==> entries[at].hash <= x)
    ensures at + 1 < |entries| ==> entries[at + 1].hash > x
  {
    var p, q := 1, |entries| - 1;
    while p <= q
      invariant 1 <= p <= q + 1 <= |entries|
      invariant p > 1 ==> entries[p - 1].hash <= x
      invariant q + 1 < |entries| ==> entries[q + 1].hash > x
    {
      var m := p + (q - p) / 2;
      if entries[m].hash > x {
        q := m - 1;
      } else {
        p := m + 1;
      }
    }
    at := p - 1;
  }

  /** The position in the node is that of the last entry not above the hash. */
  ghost predicate Searched(blocks: seq<Blk>, dx: DxBlock, x: u32) {
    var e, j := NodeAt(blocks, dx.iblock), dx.position;
    j < |e| && (j > 0 ==> e[j].hash <= x) && (j + 1 < |e| ==> e[j + 1].hash > x)
  }

  /** The positions found in the nodes of a path locate the hash. */
  lemma PathLocates(blocks: seq<Blk>, levels: nat, size: nat, path: seq<DxBlock>, k: nat, x: u32)
    requires NodesOk(blocks, levels, size) && Ordered(Leaves(blocks, levels)) && At(blocks, levels, path, k)
    requires forall p :: 0 <= p < |path| ==> Searched(blocks, path[p], x)
    ensures Located(Leaves(blocks, levels), k, x)
  {
    hide Leaves, Groups, Off, NodesOk, Ordered;
    assert Leaves(blocks, levels)[0].low == 0 by { FirstLow(Leaves(blocks, levels)); }
    if levels == 0 {
      OneLevel(blocks, size, k);
    } else {
      TwoLevels(blocks, size, path[0].position, path[1].position);
    }
  }

  lemma FirstLow(f: seq<Ref>)
    requires Ordered(f)
    ensures f != [] && f[0].low == 0
  {
  }

  /** `ext4_dir_dx_get_leaf`: the path to the first leaf that may hold a name with hash `x`. */
  method GetLeaf(blocks: seq<Blk>, levels: nat, size: nat, x: u32) returns (r: Errno, path: seq<DxBlock>, ghost k: nat)
    requires NodesOk(blocks, levels, size) && Ordered(Leaves(blocks, levels))
    ensures r == EOK && At(blocks, levels, path, k) && Located(Leaves(blocks, levels), k, x)
  {
    hide Leaves, Ordered, Located, SortedNode, NodeLimit, RootLimit;
    RootSorted(blocks, levels, size);
    path := [];
    k := 0;
    var indLevel, iblock := levels, 0;
    var node := blocks[0];
    while true
      invariant indLevel <= levels && |path| == levels - indLevel
      invariant iblock < |blocks| && blocks[iblock] == node && node.Node? && SortedNode(node.entries)
      invariant 1 <= |node.entries| <= node.limit
      invariant path == [] ==> iblock == 0
      invariant path != [] ==> indLevel == 0 && path[0].iblock == 0 && path[0].position < |blocks[0].entries|
                               && iblock == blocks[0].entries[path[0].position].block
      invariant forall p :: 0 <= p < |path| ==> Searched(blocks, path[p], x)
      decreases indLevel
    {
      if |node.entries| == 0 || |node.entries| > node.limit { return BAD_DX_DIR, path, k; }
      var at := SearchNode(node.entries, x);
      assert Searched(blocks, DxBlock(iblock, at), x);
      path := path + [DxBlock(iblock, at)];
      if indLevel == 0 { break; }
      indLevel := indLevel - 1;
      iblock := node.entries[at].block;
      assert NodeOk(blocks, iblock, size);
      ChildSorted(blocks, size, at);
      node := blocks[iblock];
      if node.limit != NodeLimit(size) { return BAD_DX_DIR, path, k; }
    }
    k := if levels == 0 then path[0].position else Off(Groups(blocks, levels), path[0].position) + path[1].position;
    PathLocates(blocks, levels, size, path, k, x);
    r := EOK;
  }

  predicate InNode(blocks: seq<Blk>, dx: DxBlock) {
    dx.position < |NodeAt(blocks, dx.iblock)|
  }

  predicate LastInNode(blocks: seq<Blk>, dx: DxBlock) {
    dx.position + 1 == |NodeAt(blocks, dx.iblock)|
  }

  /** The first loop of `ext4_dir_dx_next_block`: one position on, in the lowest block of the
      path that has one. */
  method StepOn(blocks: seq<Blk>, path: seq<DxBlock>) returns (more: bool, p: nat, path': seq<DxBlock>)
    requires path != [] && forall q :: 0 <= q < |path| ==> InNode(blocks, path[q])
    ensures !more ==> forall q :: 0 <= q < |path| ==> LastInNode(blocks, path[q])
    ensures more ==> p < |path| == |path'| && path'[..p] == path[..p]
    ensures more ==> path'[p] == path[p].(position := path[p].position + 1) && InNode(blocks, path'[p])
    ensures more ==> forall q :: p < q < |path| ==> LastInNode(blocks, path[q])
  {
    p := |path| - 1;
    path' := path;
    while true
      invariant p < |path| == |path'| && path'[..p + 1] == path[..p + 1]
      invariant forall q :: p < q < |path| ==> LastInNode(blocks, path[q])
      decreases p
    {
      assert path'[..p + 1][p] == path[..p + 1][p];
      assert path'[..p + 1][..p] == path'[..p] && path[..p + 1][..p] == path[..p];
      path' := path'[p := path'[p].(position := path'[p].position + 1)];
      if path'[p].position < |NodeAt(blocks, path'[p].iblock)| { return true, p, path'; }
      assert InNode(blocks, path[p]);
      if p == 0 { return false, p, path'; }
      p := p - 1;
    }
    more := false;
  }

  /** Its last loop: the first leaf below the position reached. */
  method Descend(blocks: seq<Blk>, levels: nat, size: nat, path: seq<DxBlock>, p0: nat,
          ghost k: nat) returns (path': seq<DxBlock>)
    requires NodesOk(blocks, levels, size) && |path| == levels + 1 && p0 < |path| && path[0].iblock == 0
    requires InNode(blocks, path[p0])
    requires p0 == levels ==> At(blocks, levels, path, k)
    requires p0 == 0 < levels ==> k == Off(Groups(blocks, levels), path[0].position)
    ensures At(blocks, levels, path', k)
  {
    hide Groups, Off;
    var p := p0;
    path' := path;
    while p < |path| - 1
      invariant p0 <= p < |path| == |path'| && path'[..p0 + 1] == path[..p0 + 1]
      invariant p == p0 ==> path' == path
      invariant p == levels ==> At(blocks, levels, path', k)
    {
      var blk := NodeAt(blocks, path'[p].iblock)[path'[p].position].block;
      assert NodeOk(blocks, blk, size);
      p := p + 1;
      path' := path'[p := DxBlock(blk, 0)];
    }
  }

  /** `ext4_dir_dx_next_block`: on to the next leaf, if it goes on with the same hash. */
  method NextBlock(blocks: seq<Blk>, levels: nat, size: nat, x: u32, path: seq<DxBlock>, ghost k: nat)
    returns (more: bool, path': seq<DxBlock>)
    requires NodesOk(blocks, levels, size) && At(blocks, levels, path, k) && x % 2 == 0
    ensures var f := Leaves(blocks, levels);
            more <==> k + 1 < |f| && ClearLow(f[k + 1].low) == x
    ensures more ==> At(blocks, levels, path', k + 1)
  {
    hide Leaves, ClearLow, Groups, Off;
    ghost var f := Leaves(blocks, levels);
    var p;
    more, p, path' := StepOn(blocks, path);
    if levels == 0 {
      OneLevel(blocks, size, k);
      if !more { return; }
    } else {
      TwoLevels(blocks, size, path[0].position, path[1].position);
      if !more { return; }
      assert p == 1 ==> path'[..1][0] == path[0];
    }
    var currentHash := NodeAt(blocks, path'[p].iblock)[path'[p].position].hash;
    assert k + 1 < |f| && f[k + 1].low == currentHash;
    if ClearLow(currentHash) != x { return false, path'; }
    path' := Descend(blocks, levels, size, path', p, k + 1);
  }
}
