/** The hash tree of an indexed directory as a list of leaf blocks with lower hash bounds. */
module DirTree {
  import opened Words
  import opened DirRecords
  import opened DirSplit

  /** `struct ext4_dir_idx_entry`. The hash of a node's first entry is not stored: the limit
      and count of the node take its place. */
  datatype Entry = Entry(hash: u32, block: nat)

  /** A logical block of the directory. To a scan over the records an index block looks like a
      block with one free record. */
  datatype Blk = Leaf(recs: seq<Rec>) | Node(limit: nat, entries: seq<Entry>)

  /** A child: what its entries' hashes begin from, but for the lowest bit, and its block. */
  datatype Ref = Ref(low: nat, block: nat)

  function Refs(entries: seq<Entry>, low: nat): (rs: seq<Ref>)
    ensures |rs| == |entries|
  {
    seq(|entries|, j requires 0 <= j < |entries| => Ref(if j == 0 then low else entries[j].hash, entries[j].block))
  }

  function NodeAt(blocks: seq<Blk>, b: nat): seq<Entry> {
    if b < |blocks| && blocks[b].Node? then blocks[b].entries else []
  }

  function RecsAt(blocks: seq<Blk>, b: nat): seq<Rec> {
    if b < |blocks| && blocks[b].Leaf? then blocks[b].recs else []
  }

  function Tops(blocks: seq<Blk>): seq<Ref> { Refs(NodeAt(blocks, 0), 0) }

  /** The leaf references, node by node. */
  function Groups(blocks: seq<Blk>, levels: nat): (gs: seq<seq<Ref>>)
    ensures |gs| == if levels == 0 then 1 else |Tops(blocks)|
  {
    var tops := Tops(blocks);
    if levels == 0 then [tops]
    else seq(|tops|, i requires 0 <= i < |tops| => Refs(NodeAt(blocks, tops[i].block), tops[i].low))
  }

  function Flat(gs: seq<seq<Ref>>): seq<Ref> {
    if gs == [] then [] else gs[0] + Flat(gs[1..])
  }

  function Leaves(blocks: seq<Blk>, levels: nat): seq<Ref> { Flat(Groups(blocks, levels)) }

  /** Number of references in front of group `i`. */
  function Off(gs: seq<seq<Ref>>, i: nat): nat
    requires i <= |gs|
  {
    if i == 0 then 0 else Off(gs, i - 1) + |gs[i - 1]|
  }

  // ----- Lists of lists

  lemma {:induction false} FlatAppend(a: seq<seq<Ref>>, b: seq<seq<Ref>>)
    ensures Flat(a + b) == Flat(a) + Flat(b)
    decreases |a|
  {
    if a == [] {
      assert a + b == b;
    } else {
      assert (a + b)[1..] == a[1..] + b;
      FlatAppend(a[1..], b);
    }
  }

  lemma {:induction false} OffIsLen(gs: seq<seq<Ref>>, i: nat)
    requires i <= |gs|
    ensures Off(gs, i) == |Flat(gs[..i])|
    decreases i
  {
    if i > 0 {
      OffIsLen(gs, i - 1);
      assert gs[..i] == gs[..i - 1] + [gs[i - 1]];
      FlatAppend(gs[..i - 1], [gs[i - 1]]);
      FlatOne(gs[i - 1]);
    } else {
      assert gs[..0] == [];
    }
  }

  lemma FlatOne(g: seq<Ref>)
    ensures Flat([g]) == g
  {
    assert [g][1..] == [];
    assert g + [] == g;
  }

  lemma FlatSplit(gs: seq<seq<Ref>>, i: nat)
    requires i < |gs|
    ensures Flat(gs) == Flat(gs[..i]) + gs[i] + Flat(gs[i + 1..])
    ensures Off(gs, i) == |Flat(gs[..i])| && Off(gs, i + 1) == Off(gs, i) + |gs[i]|
  {
    assert gs == gs[..i] + [gs[i]] + gs[i + 1..];
    FlatAppend(gs[..i], [gs[i]]);
    FlatAppend(gs[..i] + [gs[i]], gs[i + 1..]);
    FlatOne(gs[i]);
    OffIsLen(gs, i);
  }

  lemma FlatAt(gs: seq<seq<Ref>>, i: nat, j: nat)
    requires i < |gs| && j < |gs[i]|
    ensures Off(gs, i) + j < |Flat(gs)| && Flat(gs)[Off(gs, i) + j] == gs[i][j]
  {
    FlatSplit(gs, i);
  }

  lemma FlatEnd(gs: seq<seq<Ref>>)
    ensures Off(gs, |gs|) == |Flat(gs)|
  {
    OffIsLen(gs, |gs|);
    assert gs[..|gs|] == gs;
  }

  lemma {:induction false} OffPrefix(gs: seq<seq<Ref>>, gs': seq<seq<Ref>>, i: nat)
    requires i <= |gs| && i <= |gs'| && gs'[..i] == gs[..i]
    ensures Off(gs', i) == Off(gs, i)
  {
    OffIsLen(gs, i);
    OffIsLen(gs', i);
  }

  // ----- The order of the leaves

  function High(f: seq<Ref>, k: nat): nat {
    if k + 1 < |f| then f[k + 1].low else 0x1_0000_0000
  }

  ghost predicate Ordered(f: seq<Ref>) {
    && f != [] && f[0].low == 0
    && (forall a, b :: 0 <= a < b < |f| ==> f[a].low <= f[b].low)
    && (forall a :: 0 <= a < |f| ==> f[a].low <= 0x1_0000_0000)
  }

  ghost predicate Distinct(f: seq<Ref>) {
    forall a, b :: 0 <= a < b < |f| ==> f[a].block != f[b].block
  }

  ghost predicate LeafOk(hash: Hash, blocks: seq<Blk>, size: nat, f: seq<Ref>, k: nat)
    requires k < |f|
  {
    && f[k].block < |blocks| && blocks[f[k].block].Leaf?
    && Tiles(blocks[f[k].block].recs, size)
    && HashedIn(hash, blocks[f[k].block].recs, ClearLow(f[k].low), High(f, k))
  }

  /** The leaf whose range holds hash `x` is the first that may hold it. */
  ghost predicate Located(f: seq<Ref>, k: nat, x: u32) {
    k < |f| && f[k].low <= x < High(f, k)
  }

  ghost predicate LeavesOk(hash: Hash, blocks: seq<Blk>, size: nat, f: seq<Ref>) {
    && Ordered(f) && Distinct(f)
    && (forall k :: 0 <= k < |f| ==> LeafOk(hash, blocks, size, f, k))
    && (forall b :: 0 <= b < |blocks| && blocks[b].Leaf? ==> exists k :: 0 <= k < |f| && f[k].block == b)
  }

  /** How many entries fit behind the dot entries and the root information, and how many
      behind the free record that an index block begins with. */
  function RootLimit(size: nat): nat { if size < 32 then 0 else (size - 32) / 8 }

  function NodeLimit(size: nat): nat { if size < FAKE_ENTRY_SIZE then 0 else (size - FAKE_ENTRY_SIZE) / 8 }

  /** As many entries as the bytes of a block allow: two dot entries of 12 bytes each and 8 bytes of root
      information come before those of the root, one free record of 8 bytes before those of a node. */
  lemma LimitsFill(size: nat)
    requires 1024 <= size
    ensures 2 * 12 + 8 + 8 * RootLimit(size) <= size < 2 * 12 + 8 + 8 * (RootLimit(size) + 1)
    ensures FAKE_ENTRY_SIZE + 8 * NodeLimit(size) <= size < FAKE_ENTRY_SIZE + 8 * (NodeLimit(size) + 1)
  {
  }

  ghost predicate NodesOk(blocks: seq<Blk>, levels: nat, size: nat) {
    && levels <= 1 && blocks != [] && blocks[0].Node?
    && blocks[0].limit == RootLimit(size) && 1 <= |blocks[0].entries| <= blocks[0].limit
    && (levels == 1 ==>
          (forall i :: 0 <= i < |blocks[0].entries| ==> NodeOk(blocks, blocks[0].entries[i].block, size)) &&
          Distinct(Tops(blocks)))
  }

  ghost predicate NodeOk(blocks: seq<Blk>, b: nat, size: nat) {
    && 0 < b < |blocks| && blocks[b].Node?
    && blocks[b].limit == NodeLimit(size) && 1 <= |blocks[b].entries| <= blocks[b].limit
  }

  /** The directory is a well-formed hash tree. */
  ghost predicate TreeOk(hash: Hash, blocks: seq<Blk>, levels: nat, size: nat) {
    && Even(hash) && size % 4 == 0 && 1024 <= size <= 32768
    && NodesOk(blocks, levels, size)
    && LeavesOk(hash, blocks, size, Leaves(blocks, levels))
  }

  /** A name can only be in the leaf its hash is located in, and in those after it up to which
      all bounds are its hash with the lowest bit set. */
  lemma OnlyInRun(hash: Hash, blocks: seq<Blk>, size: nat, f: seq<Ref>, k0: nat, k: nat, name: Name)
    requires LeavesOk(hash, blocks, size, f) && Even(hash)
    requires Located(f, k0, hash(name)) && k < |f| && Holds(RecsAt(blocks, f[k].block), name)
    ensures k0 <= k && forall m :: k0 < m <= k ==> ClearLow(f[m].low) == hash(name)
  {
    hide Entries, Holds, Distinct;
    var x := hash(name);
    assert LeafOk(hash, blocks, size, f, k);
    HoldsIffEntry(RecsAt(blocks, f[k].block), name);
    assert ClearLow(f[k].low) <= x < High(f, k);
    EvenAt(hash, name);
    if k < k0 { NotBefore(f, k, k0); }
    forall m | k0 < m <= k
      ensures ClearLow(f[m].low) == x
    {
      assert f[k0 + 1].low <= f[m].low <= f[k].low;
      OddBound(f[m].low, f[k].low, x);
    }
  }

  lemma NotBefore(f: seq<Ref>, k: nat, k0: nat)
    requires Ordered(f) && k < k0 < |f|
    ensures High(f, k) <= f[k0].low
  {
  }

  lemma OddBound(low: nat, top: nat, x: nat)
    requires x % 2 == 0 && x < low <= top && ClearLow(top) <= x
    ensures ClearLow(low) == x
  {
  }

  // ----- Contents

  function AllEntries(blocks: seq<Blk>): multiset<Item> {
    if blocks == [] then multiset{}
    else AllEntries(blocks[..|blocks| - 1]) + Entries(RecsAt(blocks, |blocks| - 1))
  }

  lemma {:induction false} AllEntriesUpdate(blocks: seq<Blk>, b: nat, blk: Blk)
    requires b < |blocks|
    ensures AllEntries(blocks[b := blk]) + Entries(RecsAt(blocks, b)) ==
            AllEntries(blocks) + Entries(RecsAt(blocks[b := blk], b))
    decreases |blocks|
  {
    hide Entries;
    var n := |blocks| - 1;
    var blocks' := blocks[b := blk];
    if b == n {
      assert blocks'[..n] == blocks[..n];
    } else {
      assert blocks'[..n] == blocks[..n][b := blk];
      AllEntriesUpdate(blocks[..n], b, blk);
      assert RecsAt(blocks', n) == RecsAt(blocks, n);
      assert RecsAt(blocks[..n], b) == RecsAt(blocks, b);
      assert RecsAt(blocks'[..n], b) == RecsAt(blocks', b);
      Plus(AllEntries(blocks[..n]), AllEntries(blocks'[..n]), Entries(RecsAt(blocks, n)),
           Entries(RecsAt(blocks, b)), Entries(RecsAt(blocks', b)));
    }
  }

  lemma Plus(a: multiset<Item>, a': multiset<Item>, r: multiset<Item>, e: multiset<Item>, e': multiset<Item>)
    requires a' + e == a + e'
    ensures (a' + r) + e == (a + r) + e'
  {
    assert (a' + r) + e == (a' + e) + r;
    assert (a + r) + e' == (a + e') + r;
  }

  lemma AllEntriesAppend(blocks: seq<Blk>, blk: Blk)
    ensures AllEntries(blocks + [blk]) == AllEntries(blocks) + Entries(if blk.Leaf? then blk.recs else [])
  {
    assert (blocks + [blk])[..|blocks|] == blocks;
  }

  /** Some leaf holds the name, as a scan over all blocks finds it. */
  ghost predicate InSomeLeaf(blocks: seq<Blk>, name: Name) {
    exists b :: 0 <= b < |blocks| && blocks[b].Leaf? && Holds(blocks[b].recs, name)
  }

  lemma {:induction false} InSomeLeafIff(blocks: seq<Blk>, name: Name)
    ensures InSomeLeaf(blocks, name) <==> exists x :: x in AllEntries(blocks) && x.name == name
    decreases |blocks|
  {
    hide Entries, Holds;
    if blocks != [] {
      var n := |blocks| - 1;
      InSomeLeafIff(blocks[..n], name);
      HoldsIffEntry(RecsAt(blocks, n), name);
      NoneHeld(name);
      if InSomeLeaf(blocks[..n], name) {
        var b :| 0 <= b < n && blocks[..n][b].Leaf? && Holds(blocks[..n][b].recs, name);
        assert blocks[b].Leaf?;
      }
      if InSomeLeaf(blocks, name) && !Holds(RecsAt(blocks, n), name) {
        var b :| 0 <= b < |blocks| && blocks[b].Leaf? && Holds(blocks[b].recs, name);
        assert blocks[..n][b].Leaf?;
      }
    }
  }

  lemma NoneHeld(name: Name)
    ensures !Holds([], name)
  {
  }
}
