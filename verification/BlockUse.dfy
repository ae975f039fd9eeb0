/** The block allocator as the block map of a file sees it: a set of used blocks. */
module BlockUse {
  import opened Words
  import opened BlockGroups
  import opened GroupCounts
  import opened BlockAlloc
  import InodeBlocks

  /** The bitmaps say of each block whether it is in `used`; address 0 is no block of a file. */
  ghost predicate InUse(geo: Layout, c: Counts, used: set<u32>) {
    && (forall b: u32 :: 0 < b < geo.total ==> (b in used <==> !FreeIn(geo, c, b)))
    && (geo.first == 0 ==> !FreeIn(geo, c, 0))
  }

  lemma TakenOnly(geo: Layout, c: Counts, addr: nat, c': Counts, b: nat)
    requires Taken(geo, c, addr, c') && geo.first <= b < geo.total
    ensures FreeIn(geo, c, addr) && (FreeIn(geo, c', b) <==> FreeIn(geo, c, b) && b != addr)
  {
    hide Geometry.GroupOf, Geometry.IdxOf;
    if geo.GroupOf(b) == geo.GroupOf(addr) && geo.IdxOf(b) == geo.IdxOf(addr) { SameBlock(geo, addr, b); }
  }

  lemma GivenOnly(geo: Layout, c: Counts, addr: nat, c': Counts, b: nat)
    requires Given(geo, c, addr, c') && geo.first <= b < geo.total && geo.first <= addr < geo.total
    ensures FreeIn(geo, c', b) <==> FreeIn(geo, c, b) || b == addr
  {
    hide Geometry.GroupOf, Geometry.IdxOf;
    if geo.GroupOf(b) == geo.GroupOf(addr) && geo.IdxOf(b) == geo.IdxOf(addr) { SameBlock(geo, addr, b); }
  }

  /** When the superblock counts no free block, every block is used. */
  lemma NoneLeftIff(geo: Layout, c: Counts, used: set<u32>)
    requires Counted(c) && c.sizes == Sizes(geo) && |c.bits| == geo.GroupCnt() && InUse(geo, c, used) && c.all == 0
    ensures InodeBlocks.AllUsed(used, geo.total)
  {
    hide Counted, Geometry.GroupOf, Geometry.IdxOf, Geometry.BlocksIn, Geometry.GroupCnt;
    NoneFreeIff(c);
    forall b: u32 | 0 < b < geo.total
      ensures b in used
    {
      AddrRoundTrip(geo, b);
      assert Full(c, geo.GroupOf(b));
    }
  }

  /** An allocation is one from the set of used blocks: some block that is not in it, or all are. */
  method AllocFor(a: BlockAllocator, goal: nat, inoBlocks: nat, ghost used: set<u32>)
    returns (r: Errno, addr: nat, inoBlocks': nat, ghost used': set<u32>)
    requires a.Valid() && goal < a.geo.total && InUse(a.geo, a.C(), used)
    modifies a
    ensures a.Valid() && InUse(a.geo, a.C(), used')
    ensures r == EOK ==> 0 < addr < a.geo.total && addr !in used && used' == used + {addr}
    ensures r == EOK ==>
              forall per: nat :: a.geo.blockSize == 4 * per ==> inoBlocks' == inoBlocks + InodeBlocks.Unit(per)
    ensures r != EOK ==> used' == used && inoBlocks' == inoBlocks && InodeBlocks.AllUsed(used, a.geo.total)
  {
    hide Counted, Taken, Chosen, Padded, FreeIn, InodeBlocks.AllUsed, Geometry.GroupCnt;
    ghost var c := a.C();
    r, addr, inoBlocks' := a.AllocBlock(goal, inoBlocks);
    used' := used;
    if r == EOK {
      TakenInside(a.geo, c, addr, a.C());
      forall b: nat | a.geo.first <= b < a.geo.total
        ensures FreeIn(a.geo, a.C(), b) <==> FreeIn(a.geo, c, b) && b != addr
        ensures FreeIn(a.geo, c, addr)
      {
        TakenOnly(a.geo, c, addr, a.C(), b);
      }
      used' := used + {addr};
    } else {
      NoneLeftIff(a.geo, c, used);
    }
  }

  lemma TakenInside(geo: Layout, c: Counts, addr: nat, c': Counts)
    requires Taken(geo, c, addr, c')
    ensures geo.first <= addr < geo.total
  {
  }

  /** A used block given back leaves the set, and the counts stay right. */
  method GiveFor(a: BlockAllocator, addr: u32, inoBlocks: nat, ghost used: set<u32>) returns (inoBlocks': nat)
    requires a.Valid() && InUse(a.geo, a.C(), used) && 0 < addr < a.geo.total && addr in used
    requires inoBlocks >= a.geo.blockSize / 512
    modifies a
    ensures a.Valid() && InUse(a.geo, a.C(), used - {addr})
    ensures forall per: nat :: a.geo.blockSize == 4 * per ==> inoBlocks' == inoBlocks - InodeBlocks.Unit(per)
  {
    hide Counted, Given, Padded, BlocksOk, FreeIn, BlockAllocator.Valid;
    ghost var c := a.C();
    assert !FreeIn(a.geo, c, addr);
    UsedIsTaken(a, addr);
    inoBlocks' := a.FreeBlock(addr, inoBlocks);
    forall b: nat | a.geo.first <= b < a.geo.total
      ensures FreeIn(a.geo, a.C(), b) <==> FreeIn(a.geo, c, b) || b == addr
    {
      GivenOnly(a.geo, c, addr, a.C(), b);
    }
  }

  lemma UsedIsTaken(a: BlockAllocator, addr: nat)
    ensures a.IsFree(addr) <==> FreeIn(a.geo, a.C(), addr)
  {
  }
}
