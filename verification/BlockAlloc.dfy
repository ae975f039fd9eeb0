/** The block allocator: a bitmap and a free count for each block group, a free count in the
    superblock, and a block count in the inode that a block is for. */
module BlockAlloc {
  import opened Words
  import opened Bitmap
  import opened BlockGroups
  import opened GroupCounts

  datatype Errno = EOK | ENOSPC

  ghost function Sizes(geo: Layout): (s: seq<nat>)
    ensures |s| == geo.GroupCnt() && forall g :: 0 <= g < |s| ==> s[g] == geo.BlocksIn(g)
  {
    seq(geo.GroupCnt(), g requires 0 <= g < geo.GroupCnt() => geo.BlocksIn(g))
  }

  /** Bits for blocks beyond the last are set. */
  ghost predicate Padded(geo: Layout, bits: seq<seq<bool>>) {
    forall g: nat, i: nat :: g < |bits| && i < |bits[g]| && geo.AddrOf(i, g) >= geo.total ==> bits[g][i]
  }

  ghost predicate BlocksOk(geo: Layout, bitmaps: seq<seq<Byte>>, c: Counts) {
    && |bitmaps| == geo.GroupCnt() && (forall g :: 0 <= g < |bitmaps| ==> |bitmaps[g]| == geo.blockSize)
    && c.bits == AllBits(bitmaps) && c.sizes == Sizes(geo)
  }

  /** All bits of a group from `lo` on are set. */
  ghost predicate NoneFrom(c: Counts, g: nat, lo: nat) {
    g < |c.bits| == |c.sizes| && AllSet(c.bits[g], lo, c.sizes[g])
  }

  /** Which free block an allocation takes: the first in the goal's group from the goal on. If there is
      none, the first of the group that the search going up from the next one meets first among those
      with a free block. */
  ghost predicate Chosen(geo: Layout, c: Counts, goal: nat, addr: nat) {
    var g0, g := geo.GroupOf(goal), geo.GroupOf(addr);
    if !NoneFrom(c, g0, geo.IdxOf(goal)) then g == g0 && FirstClear(c, g0, geo.IdxOf(goal), geo.IdxOf(addr))
    else FirstAfter(c, g0, g, geo.IdxOf(addr))
  }

  ghost predicate FirstAfter(c: Counts, g0: nat, g: nat, i: nat) {
    && g0 < |c.bits| && FirstClear(c, g, 0, i)
    && forall h: nat :: h < |c.bits| && Between(g0 + 1, h, g) ==> Full(c, h)
  }

  /** A block is taken. */
  ghost predicate Taken(geo: Layout, c: Counts, addr: nat, c': Counts) {
    && geo.first <= addr < geo.total && IsClear(c, geo.GroupOf(addr), geo.IdxOf(addr)) && Shaped(c)
    && c' == Take(c, geo.GroupOf(addr), geo.IdxOf(addr))
  }

  /** A block is given back. */
  ghost predicate Given(geo: Layout, c: Counts, addr: nat, c': Counts) {
    && Shaped(c) && geo.GroupOf(addr) < |c.bits| && geo.IdxOf(addr) < |c.bits[geo.GroupOf(addr)]|
    && c' == Give(c, geo.GroupOf(addr), geo.IdxOf(addr))
  }

  class BlockAllocator {
    const geo: Layout
    var bitmaps: seq<seq<Byte>>
    var groupFree: seq<nat>
    var freeBlocks: nat

    ghost function C(): Counts
      reads this
    {
      Counts(AllBits(bitmaps), Sizes(geo), groupFree, freeBlocks)
    }

    ghost predicate Valid()
      reads this
    {
      BlocksOk(geo, bitmaps, C()) && Counted(C()) && Padded(geo, C().bits)
    }

    /** A block is free. */
    ghost predicate IsFree(baddr: nat)
      reads this
    {
      IsClear(C(), geo.GroupOf(baddr), geo.IdxOf(baddr))
    }

    constructor (geo: Layout, bitmaps: seq<seq<Byte>>, groupFree: seq<nat>, freeBlocks: nat)
      requires var c := Counts(AllBits(bitmaps), Sizes(geo), groupFree, freeBlocks);
               BlocksOk(geo, bitmaps, c) && Counted(c) && Padded(geo, c.bits)
      ensures Valid() && this.geo == geo && this.bitmaps == bitmaps
      ensures this.groupFree == groupFree && this.freeBlocks == freeBlocks
    {
      this.geo, this.bitmaps, this.groupFree, this.freeBlocks := geo, bitmaps, groupFree, freeBlocks;
    }

    /** The bitmap block of a group, in a buffer. */
    method BitmapGet(bgid: nat) returns (b: array<Byte>)
      requires bgid < |bitmaps|
      ensures fresh(b) && b[..] == bitmaps[bgid]
    {
      var bytes := bitmaps[bgid];
      b := new Byte[|bytes|](i requires 0 <= i < |bytes| => bytes[i]);
    }

    /** The end of an allocation: sets the bit, puts the bitmap block back, and counts. */
    method Claim(b: array<Byte>, bgid: nat, idx: nat, inoBlocks: nat) returns (addr: nat, inoBlocks': nat)
      requires Valid() && bgid < geo.GroupCnt() && idx < geo.BlocksIn(bgid)
      requires b[..] == bitmaps[bgid] && IsClear(C(), bgid, idx)
      modifies this, b
      ensures Valid() && Taken(geo, old(C()), addr, C()) && old(freeBlocks) > 0
      ensures geo.GroupOf(addr) == bgid && geo.IdxOf(addr) == idx && geo.first <= addr < geo.total
      ensures inoBlocks' == inoBlocks + geo.blockSize / 512
    {
      hide Counted, Padded, Take, Geometry.GroupOf, Geometry.IdxOf, Geometry.AddrOf, Geometry.BlocksIn,
          Geometry.GroupCnt;
      ghost var c := C();
      ghost var was := bitmaps;
      ClaimOk(geo, bitmaps, c, bgid, idx);
      BitSet(b, idx);
      bitmaps := bitmaps[bgid := b[..]];
      addr := geo.AddrOf(idx, bgid);
      freeBlocks := freeBlocks - 1;
      inoBlocks' := inoBlocks + geo.blockSize / 512;
      groupFree := groupFree[bgid := groupFree[bgid] - 1];
      TakeIs(geo, was, c, bgid, idx, b[..], C());
    }

    /** `ext4_balloc_alloc_block`: it fails just if no block is free. */
    method AllocBlock(goal: nat, inoBlocks: nat) returns (r: Errno, addr: nat, inoBlocks': nat)
      requires Valid() && goal < geo.total
      modifies this
      ensures Valid() && (r == ENOSPC <==> old(freeBlocks) == 0)
      ensures r == ENOSPC ==> C() == old(C()) && inoBlocks' == inoBlocks
      ensures r == EOK ==> Taken(geo, old(C()), addr, C()) && Chosen(geo, old(C()), goal, addr)
      ensures r == EOK ==> inoBlocks' == inoBlocks + geo.blockSize / 512
    {
      hide Counted, Padded, Taken, FirstAfter, Geometry.GroupOf, Geometry.IdxOf, Geometry.AddrOf, Geometry.BlocksIn,
          Geometry.GroupCnt;
      addr, inoBlocks' := 0, inoBlocks;
      InGroup(geo, goal);
      var bgId, idx := geo.GroupOf(goal), geo.IdxOf(goal);
      ghost var c := C();
      var blkInBg := geo.BlocksIn(bgId);
      SomeBlocks(geo, bgId);
      FullIff(c, bgId);
      if groupFree[bgId] != 0 {
        var firstIdx := geo.IdxOf(geo.FirstOf(bgId));
        FirstIdx(geo, bgId);
        if idx < firstIdx { idx := firstIdx; }
        var b := BitmapGet(bgId);
        var found := FindNear(b, idx, blkInBg);
        if found.Some? {
          addr, inoBlocks' := Claim(b, bgId, found.value, inoBlocks);
          r := EOK;
          return;
        }
      }
      r, addr, inoBlocks' := AllocAfter(bgId, inoBlocks);
    }

    /** The second part of it: tries the other groups. */
    method AllocAfter(bgId: nat, inoBlocks: nat) returns (r: Errno, addr: nat, inoBlocks': nat)
      requires Valid() && bgId < geo.GroupCnt()
      modifies this
      ensures Valid() && (r == ENOSPC <==> old(freeBlocks) == 0)
      ensures r == ENOSPC ==> C() == old(C()) && inoBlocks' == inoBlocks
      ensures r == EOK ==> Taken(geo, old(C()), addr, C()) && inoBlocks' == inoBlocks + geo.blockSize / 512
      ensures r == EOK ==> FirstAfter(old(C()), bgId, geo.GroupOf(addr), geo.IdxOf(addr))
    {
      hide Counted, Padded, Taken, Full, Geometry.GroupOf, Geometry.IdxOf, Geometry.AddrOf, Geometry.BlocksIn,
          Geometry.GroupCnt;
      ghost var c := C();
      addr, inoBlocks' := 0, inoBlocks;
      var n := geo.GroupCnt();
      var bgid := if bgId + 1 == n then 0 else bgId + 1;
      var count: nat := n;
      while count > 0
        invariant Valid() && C() == c && count <= n && inoBlocks' == inoBlocks
        invariant count > 0 ==> bgid == if bgId + 1 < count then bgId + 1 + n - count else bgId + 1 - count
        invariant forall g: nat :: bgId < g < n && g < bgId + 1 + n - count ==> Full(c, g)
        invariant forall g: nat :: g < bgId + 1 - count ==> Full(c, g)
        decreases count
      {
        FullIff(c, bgid);
        if groupFree[bgid] != 0 {
          var b := BitmapGet(bgid);
          SomeBlocks(geo, bgid);
          FirstIdx(geo, bgid);
          var first := geo.IdxOf(geo.FirstOf(bgid));
          var found := FindClr(b, first, geo.BlocksIn(bgid));
          if found.Some? {
            addr, inoBlocks' := Claim(b, bgid, found.value, inoBlocks);
            r := EOK;
            return;
          }
          FullIs(c, bgid);
        }
        bgid := if bgid + 1 == n then 0 else bgid + 1;
        count := count - 1;
      }
      NoneFreeIff(c);
      r := ENOSPC;
    }

    /** `ext4_balloc_try_alloc_block`. */
    method TryAllocBlock(baddr: nat, inoBlocks: nat) returns (free: bool, inoBlocks': nat)
      requires Valid() && geo.first <= baddr < geo.total
      modifies this
      ensures Valid() && free == old(IsFree(baddr))
      ensures free ==> Taken(geo, old(C()), baddr, C()) && inoBlocks' == inoBlocks + geo.blockSize / 512
      ensures !free ==> C() == old(C()) && inoBlocks' == inoBlocks
    {
      hide Counted, Padded, Taken, Geometry.GroupOf, Geometry.IdxOf, Geometry.AddrOf, Geometry.BlocksIn,
          Geometry.GroupCnt;
      AddrRoundTrip(geo, baddr);
      var bgid, idx := geo.GroupOf(baddr), geo.IdxOf(baddr);
      SomeBlocks(geo, bgid);
      var b := BitmapGet(bgid);
      free := IsBitClr(b, 0, idx);
      inoBlocks' := inoBlocks;
      if free {
        ghost var addr;
        addr, inoBlocks' := Claim(b, bgid, idx, inoBlocks);
        SameBlock(geo, baddr, addr);
      }
    }

    /** `ext4_balloc_free_block`. The counts stay right just if the block was in use: giving a
        block back twice is not noticed. */
    method FreeBlock(baddr: nat, inoBlocks: nat) returns (inoBlocks': nat)
      requires Valid() && geo.first <= baddr < geo.total && inoBlocks >= geo.blockSize / 512
      modifies this
      ensures Valid() <==> old(!IsFree(baddr))
      ensures Given(geo, old(C()), baddr, C()) && IsFree(baddr)
      ensures inoBlocks' == inoBlocks - geo.blockSize / 512
    {
      hide Counted, Padded, Geometry.GroupOf, Geometry.IdxOf, Geometry.AddrOf, Geometry.BlocksIn, Geometry.GroupCnt;
      AddrRoundTrip(geo, baddr);
      ghost var c, was := C(), bitmaps;
      var bgid, idx := geo.GroupOf(baddr), geo.IdxOf(baddr);
      SomeBlocks(geo, bgid);
      GiveOk(geo, was, c, baddr);
      var b := BitmapGet(bgid);
      BitClr(b, 0, idx);
      bitmaps := bitmaps[bgid := b[..]];
      freeBlocks := freeBlocks + 1;
      inoBlocks' := inoBlocks - geo.blockSize / 512;
      groupFree := groupFree[bgid := groupFree[bgid] + 1];
      GiveIs(geo, was, c, bgid, idx, b[..], C());
    }

    /** `ext4_balloc_free_blocks`: gives a run of blocks back, group by group. It counts the bits
        of a bitmap block, not the blocks of a group, so the counts stay right just if the run
        lies in one group or groups fill their bitmap; then just these blocks become free. */
    method FreeBlocks(first: nat, count: nat, inoBlocks: nat) returns (inoBlocks': nat)
      requires Valid() && geo.first <= first && 0 < count && first + count <= geo.total
      requires forall a: nat :: first <= a < first + count ==> !FreeIn(geo, C(), a)
      requires inoBlocks >= count * (geo.blockSize / 512)
      modifies this
      ensures Valid() <==> OneRun(geo, first, count)
      ensures OneRun(geo, first, count) ==> freeBlocks == old(freeBlocks) + count
      ensures OneRun(geo, first, count) ==> Released(geo, old(C()), C(), first, first + count)
      ensures OneRun(geo, first, count) ==> inoBlocks' == inoBlocks - count * (geo.blockSize / 512)
    {
      hide Counted, Padded, BlocksOk, Released, Running, OneRun, Geometry.GroupOf, Geometry.IdxOf, Geometry.AddrOf,
          Geometry.BlocksIn, Geometry.GroupCnt;
      ghost var c0 := C();
      var bgFirst, bgLast := geo.GroupOf(first), geo.GroupOf(first + count - 1);
      var cur: nat, left: nat, per := first, count, geo.blockSize / 512;
      inoBlocks' := inoBlocks;
      RunStart(geo, c0, first, count);
      assert (count - left) * per == 0;
      while bgFirst <= bgLast
        invariant BlocksOk(geo, bitmaps, C()) && Shaped(C()) && left <= count && bgFirst <= bgLast + 1
        invariant Running(geo, c0, C(), first, count, cur, left, bgFirst)
        invariant inoBlocks' == inoBlocks - (count - left) * per
        decreases bgLast + 1 - bgFirst
      {
        ghost var c, was := C(), bitmaps;
        RunInside(geo, c0, c, first, count, cur, left, bgFirst);
        var n := FreeRun(bgFirst, cur, left);
        RunStep(geo, was, c0, c, first, count, cur, left, bgFirst);
        PerBlock(count - left, n, per);
        PerBlock(count - left + n, left - n, per);
        inoBlocks' := inoBlocks' - n * per;
        left := left - n;
        cur := cur + n;
        bgFirst := bgFirst + 1;
      }
      RunEnd(geo, c0, C(), first, count, cur, left, bgFirst);
    }

    /** One step of it, in one bitmap. */
    method FreeRun(bgid: nat, cur: nat, left: nat) returns (n: nat)
      requires BlocksOk(geo, bitmaps, C()) && Shaped(C()) && bgid < geo.GroupCnt() && geo.first <= cur
      modifies this
      ensures BlocksOk(geo, bitmaps, C()) && n == RunLen(geo, cur, left)
      ensures C() == GiveRange(old(C()), bgid, geo.IdxOf(cur), geo.IdxOf(cur) + n)
    {
      hide Counted, Padded, Geometry.GroupOf, Geometry.IdxOf, Geometry.AddrOf, Geometry.BlocksIn, Geometry.GroupCnt;
      ghost var c, was := C(), bitmaps;
      var idx := geo.IdxOf(cur);
      InBitmap(geo, cur);
      n := 8 * geo.blockSize - idx;
      if left <= n { n := left; }
      var b := BitmapGet(bgid);
      BitsFree(b, idx, n);
      bitmaps := bitmaps[bgid := b[..]];
      freeBlocks := freeBlocks + n;
      groupFree := groupFree[bgid := groupFree[bgid] + n];
      GiveRangeIs(geo, was, c, bgid, idx, n, b[..], C());
    }
  }

  /** A run of blocks lies in one group, or groups fill their bitmap. */
  predicate OneRun(geo: Layout, first: nat, count: nat)
    requires 0 < count
  {
    geo.perGroup == 8 * geo.blockSize || geo.GroupOf(first) == geo.GroupOf(first + count - 1)
  }

  /** Two groups of four blocks, each with a bitmap of eight bits, and all in use. */
  const HALF_FULL: Layout := Geometry(0, 8, 4, 1)

  lemma AllInUse()
    ensures var c := Counts(AllBits([[0xFF], [0xFF]]), Sizes(HALF_FULL), [0, 0], 0);
            BlocksOk(HALF_FULL, [[0xFF], [0xFF]], c) && Counted(c) && Padded(HALF_FULL, c.bits)
    ensures var c := Counts(AllBits([[0xFF], [0xFF]]), Sizes(HALF_FULL), [0, 0], 0);
            forall a: nat :: a < 8 ==> !FreeIn(HALF_FULL, c, a)
  {
    var maps: seq<seq<Byte>> := [[0xFF], [0xFF]];
    var c := Counts(AllBits(maps), Sizes(HALF_FULL), [0, 0], 0);
    hide Bit;
    forall g: nat, k: nat | g < 2 && k < 8
      ensures c.bits[g][k]
    {
      FullBit(k);
      assert BitAt(maps[g], k);
    }
    forall g: nat | g < 2
      ensures Clear(c.bits[g], c.sizes[g]) == 0
    {
      ClearNone(c.bits[g], c.sizes[g]);
    }
    assert [0, 0][1..] == [0] && [0][1..] == [];
  }

  /** Giving back blocks 2 to 5 in one run, which ends in the second group, spoils the counts. */
  method RunAcross() returns (a: BlockAllocator)
    ensures fresh(a) && a.geo == HALF_FULL && !OneRun(HALF_FULL, 2, 4) && !a.Valid()
  {
    hide BlockAllocator.Valid, FreeIn, BlocksOk, Counted, Padded;
    AllInUse();
    a := new BlockAllocator(HALF_FULL, [[0xFF], [0xFF]], [0, 0], 0);
    var n := a.FreeBlocks(2, 4, 0);
  }

  /** How many bits of one bitmap a run of blocks takes. */
  function RunLen(geo: Layout, cur: nat, left: nat): (n: nat)
    ensures n <= left
  {
    InBitmap(geo, cur);
    var room := 8 * geo.blockSize - geo.IdxOf(cur);
    if left <= room then left else room
  }

  lemma InBitmap(geo: Layout, cur: nat)
    ensures geo.IdxOf(cur) < geo.perGroup <= 8 * geo.blockSize
  {
  }

  /** The blocks from `lo` on, and before `hi`, are free as well, and else nothing changed. */
  ghost predicate Released(geo: Layout, c: Counts, c': Counts, lo: nat, hi: nat) {
    forall a: nat :: geo.first <= a < geo.total ==> (FreeIn(geo, c', a) <==> FreeIn(geo, c, a) || lo <= a < hi)
  }

  lemma NoneReleased(geo: Layout, c: Counts, lo: nat)
    ensures Released(geo, c, c, lo, lo)
  {
  }

  lemma Bounds(geo: Layout, a: nat, b: nat)
    requires geo.first <= a <= b < geo.total
    ensures geo.GroupOf(a) <= geo.GroupOf(b) < geo.GroupCnt()
  {
    InOrder(geo, a, b);
    InGroup(geo, b);
  }

  /** The free count of a group is not that of its bitmap. */
  ghost predicate Off(c: Counts, g: nat) {
    Shaped(c) && g < |c.bits| && c.free[g] != Clear(c.bits[g], c.sizes[g])
  }

  lemma OffIsWrong(c: Counts, g: nat)
    ensures Counted(c) ==> Shaped(c) && !Off(c, g)
  {
  }

  ghost predicate FreeIn(geo: Layout, c: Counts, a: nat) {
    IsClear(c, geo.GroupOf(a), geo.IdxOf(a))
  }

  /** The first clear bit from the goal on: the goal, a bit near it, or one further on. */
  method FindNear(b: array<Byte>, idx: nat, blkInBg: nat) returns (found: Option<nat>)
    requires idx < blkInBg <= 8 * b.Length
    ensures found.None? ==> AllSet(Bits(b[..]), idx, blkInBg)
    ensures found.Some? ==>
              idx <= found.value < blkInBg && !Bits(b[..])[found.value] && AllSet(Bits(b[..]), idx, found.value)
  {
    hide Bits;
    var clear := IsBitClr(b, 0, idx);
    if clear { return Some(idx); }
    var endIdx := (idx + 63) / 64 * 64;
    if endIdx > blkInBg { endIdx := blkInBg; }
    var i := idx + 1;
    while i < endIdx
      invariant idx + 1 <= i && (i <= endIdx || i == idx + 1) && AllSet(Bits(b[..]), idx, i)
    {
      clear := IsBitClr(b, 0, i);
      if clear { return Some(i); }
      i := i + 1;
    }
    found := FindClr(b, idx, blkInBg);
  }

  lemma ClaimOk(geo: Layout, bitmaps: seq<seq<Byte>>, c: Counts, bgid: nat, idx: nat)
    requires BlocksOk(geo, bitmaps, c) && Counted(c) && Padded(geo, c.bits)
    requires bgid < geo.GroupCnt() && idx < geo.BlocksIn(bgid) && IsClear(c, bgid, idx)
    ensures Shaped(c) && c.free[bgid] > 0 && c.all > 0
    ensures Counted(Take(c, bgid, idx)) && Padded(geo, Take(c, bgid, idx).bits)
    ensures geo.GroupOf(geo.AddrOf(idx, bgid)) == bgid && geo.IdxOf(geo.AddrOf(idx, bgid)) == idx
    ensures geo.first <= geo.AddrOf(idx, bgid) < geo.total
  {
    hide Clear, Sum, Geometry.GroupOf, Geometry.IdxOf, Geometry.AddrOf, Geometry.BlocksIn, Geometry.GroupCnt;
    TakeCounted(c, bgid, idx);
    ClearInside(geo, c.bits, bgid, idx);
    IdxRoundTrip(geo, bgid, idx);
  }

  lemma ClearInside(geo: Layout, bits: seq<seq<bool>>, bgid: nat, idx: nat)
    requires bgid < geo.GroupCnt() && idx < geo.BlocksIn(bgid) && Padded(geo, bits)
    requires bgid < |bits| && idx < |bits[bgid]| && !bits[bgid][idx]
    ensures geo.first <= geo.AddrOf(idx, bgid) < geo.total
  {
    hide Geometry.AddrOf, Geometry.BlocksIn, Geometry.GroupCnt;
    AddrIs(geo, bgid, idx);
  }

  lemma TakeIs(geo: Layout, bitmaps: seq<seq<Byte>>, c: Counts, bgid: nat, idx: nat, bm: seq<Byte>, c': Counts)
    requires BlocksOk(geo, bitmaps, c) && bgid < |bitmaps| && idx < 8 * |bitmaps[bgid]| && Shaped(c)
    requires |bm| == |bitmaps[bgid]| && Bits(bm) == Bits(bitmaps[bgid])[idx := true] && c.free[bgid] > 0 && c.all > 0
    requires c' == Counts(AllBits(bitmaps[bgid := bm]), c.sizes, c.free[bgid := c.free[bgid] - 1], c.all - 1)
    ensures c' == Take(c, bgid, idx) && BlocksOk(geo, bitmaps[bgid := bm], c')
  {
    hide Bits;
  }

  /** Two blocks with the same place are the same. */
  lemma SameBlock(geo: Layout, a: nat, b: nat)
    requires geo.first <= a < geo.total && geo.first <= b < geo.total
    requires geo.GroupOf(a) == geo.GroupOf(b) && geo.IdxOf(a) == geo.IdxOf(b)
    ensures a == b
  {
    AddrRoundTrip(geo, a);
    AddrRoundTrip(geo, b);
  }

  lemma GiveOk(geo: Layout, bitmaps: seq<seq<Byte>>, c: Counts, baddr: nat)
    requires BlocksOk(geo, bitmaps, c) && Counted(c) && Padded(geo, c.bits) && geo.first <= baddr < geo.total
    requires geo.GroupOf(baddr) < geo.GroupCnt() && geo.IdxOf(baddr) < geo.BlocksIn(geo.GroupOf(baddr))
    ensures Shaped(c) && Padded(geo, Give(c, geo.GroupOf(baddr), geo.IdxOf(baddr)).bits)
    ensures Counted(Give(c, geo.GroupOf(baddr), geo.IdxOf(baddr))) <==> !FreeIn(geo, c, baddr)
  {
    hide Clear, Sum, Geometry.GroupOf, Geometry.IdxOf, Geometry.AddrOf, Geometry.BlocksIn, Geometry.GroupCnt;
    AddrRoundTrip(geo, baddr);
    GiveCounted(c, geo.GroupOf(baddr), geo.IdxOf(baddr));
  }

  lemma GiveIs(geo: Layout, bitmaps: seq<seq<Byte>>, c: Counts, bgid: nat, idx: nat, bm: seq<Byte>, c': Counts)
    requires BlocksOk(geo, bitmaps, c) && bgid < |bitmaps| && idx < 8 * |bitmaps[bgid]| && Shaped(c)
    requires |bm| == |bitmaps[bgid]| && Bits(bm) == Bits(bitmaps[bgid])[idx := false]
    requires c' == Counts(AllBits(bitmaps[bgid := bm]), c.sizes, c.free[bgid := c.free[bgid] + 1], c.all + 1)
    ensures c' == Give(c, bgid, idx) && BlocksOk(geo, bitmaps[bgid := bm], c') && IsClear(c', bgid, idx)
  {
    hide Bits;
  }

  lemma GiveRangeIs(geo: Layout, bitmaps: seq<seq<Byte>>, c: Counts, bgid: nat, lo: nat, n: nat, bm: seq<Byte>,
          c': Counts)
    requires BlocksOk(geo, bitmaps, c) && bgid < |bitmaps| && Shaped(c)
    requires |bm| == |bitmaps[bgid]| && Bits(bm) == Freed(Bits(bitmaps[bgid]), lo, lo + n)
    requires c' == Counts(AllBits(bitmaps[bgid := bm]), c.sizes, c.free[bgid := c.free[bgid] + n], c.all + n)
    ensures c' == GiveRange(c, bgid, lo, lo + n) && BlocksOk(geo, bitmaps[bgid := bm], c')
  {
    hide Bits;
  }

  lemma UsedStill(geo: Layout, c0: Counts, c: Counts, first: nat, cur: nat, left: nat)
    requires geo.first <= first <= cur && cur + left <= geo.total && Released(geo, c0, c, first, cur)
    requires forall a: nat :: first <= a < cur + left ==> !FreeIn(geo, c0, a)
    ensures forall a: nat :: cur <= a < cur + left ==> !FreeIn(geo, c, a)
  {
    hide FreeIn;
  }

  lemma ReleasedMore(geo: Layout, c0: Counts, c: Counts, c': Counts, first: nat, cur: nat, n: nat)
    requires Released(geo, c0, c, first, cur) && Released(geo, c, c', cur, cur + n) && first <= cur
    ensures Released(geo, c0, c', first, cur + n)
  {
    hide FreeIn;
  }

  lemma PerBlock(done: nat, n: nat, per: nat)
    ensures (done + n) * per == done * per + n * per
  {
  }

  /** The `k`-th block from `cur` on, in the same group or at the start of the next. */
  lemma Along(geo: Layout, cur: nat, k: nat)
    requires geo.first <= cur && geo.IdxOf(cur) + k <= geo.perGroup
    ensures geo.IdxOf(cur) + k < geo.perGroup ==>
              geo.GroupOf(cur + k) == geo.GroupOf(cur) && geo.IdxOf(cur + k) == geo.IdxOf(cur) + k
    ensures geo.IdxOf(cur) + k == geo.perGroup ==> geo.GroupOf(cur + k) == geo.GroupOf(cur) + 1
  {
    var g, i, per := geo.GroupOf(cur), geo.IdxOf(cur), geo.perGroup;
    RowOf(cur - geo.first, per);
    assert cur - geo.first == per * g + i;
    if i + k < per {
      RowIs(per, g, i + k);
    } else {
      assert per * g + per == per * (g + 1);
      RowIs(per, g + 1, 0);
    }
  }

  /** Blocks of one group are in the order of their indices. */
  lemma Within(geo: Layout, cur: nat, a: nat)
    requires geo.first <= cur && geo.first <= a && geo.GroupOf(a) == geo.GroupOf(cur)
    ensures geo.IdxOf(a) - geo.IdxOf(cur) == a - cur && geo.IdxOf(a) < geo.perGroup
  {
    RowOf(cur - geo.first, geo.perGroup);
    RowOf(a - geo.first, geo.perGroup);
  }

  lemma InOrder(geo: Layout, a: nat, b: nat)
    requires geo.first <= a <= b
    ensures geo.GroupOf(a) <= geo.GroupOf(b)
  {
    RowsInOrder(a - geo.first, b - geo.first, geo.perGroup);
  }

  /** One step of a run takes the blocks from `cur` on that lie in this group. */
  lemma RunFits(geo: Layout, cur: nat, left: nat)
    requires geo.first <= cur && 0 < left && cur + left <= geo.total && OneRun(geo, cur, left)
    ensures var n := RunLen(geo, cur, left);
            && 0 < n <= left && geo.IdxOf(cur) + n <= geo.perGroup
            && (n == left ==> geo.GroupOf(cur) == geo.GroupOf(cur + left - 1))
            && (n < left ==>
                  && geo.perGroup == 8 * geo.blockSize
                  && geo.GroupOf(cur + n) == geo.GroupOf(cur) + 1 <= geo.GroupOf(cur + left - 1))
  {
    hide Geometry.GroupOf, Geometry.IdxOf;
    InBitmap(geo, cur);
    var end: nat := cur + left - 1;
    var n := RunLen(geo, cur, left);
    if geo.GroupOf(cur) == geo.GroupOf(end) {
      Within(geo, cur, end);
      assert n == left;
    } else if n == left {
      Along(geo, cur, left - 1);
    } else {
      Along(geo, cur, n);
      InOrder(geo, cur + n, end);
    }
  }

  lemma RunSet(geo: Layout, c: Counts, cur: nat, n: nat)
    requires Counted(c) && |c.bits| == geo.GroupCnt() && c.sizes == Sizes(geo) && geo.GroupOf(cur) < geo.GroupCnt()
    requires geo.first <= cur && 0 < n && cur + n <= geo.total && geo.IdxOf(cur) + n <= geo.perGroup
    requires forall a: nat :: cur <= a < cur + n ==> !FreeIn(geo, c, a)
    ensures AllSet(c.bits[geo.GroupOf(cur)], geo.IdxOf(cur), geo.IdxOf(cur) + n)
    ensures geo.IdxOf(cur) + n <= c.sizes[geo.GroupOf(cur)]
  {
    hide Geometry.GroupOf, Geometry.IdxOf, Geometry.BlocksIn, Geometry.GroupCnt, Clear, Sum;
    var g, lo := geo.GroupOf(cur), geo.IdxOf(cur);
    var end: nat := cur + n - 1;
    Along(geo, cur, n - 1);
    AddrRoundTrip(geo, end);
    assert lo + n <= c.sizes[g];
    forall i: nat | lo <= i < lo + n
      ensures c.bits[g][i]
    {
      BitInRun(geo, c, cur, i - lo);
    }
  }

  /** The bit of a used block in a run. */
  lemma BitInRun(geo: Layout, c: Counts, cur: nat, k: nat)
    requires Shaped(c) && geo.GroupOf(cur) < |c.bits| && geo.first <= cur && cur + k < geo.total
    requires geo.IdxOf(cur) + k < geo.perGroup && geo.IdxOf(cur) + k < |c.bits[geo.GroupOf(cur)]|
    requires geo.IdxOf(cur) + k < c.sizes[geo.GroupOf(cur)] && !FreeIn(geo, c, cur + k)
    ensures c.bits[geo.GroupOf(cur)][geo.IdxOf(cur) + k]
  {
    hide Geometry.GroupOf, Geometry.IdxOf;
    Along(geo, cur, k);
  }

  lemma RunFree(geo: Layout, c: Counts, c': Counts, cur: nat, n: nat)
    requires Shaped(c) && geo.GroupOf(cur) < |c.bits| && geo.first <= cur && geo.IdxOf(cur) + n <= geo.perGroup
    requires geo.IdxOf(cur) + n <= c.sizes[geo.GroupOf(cur)]
    requires c' == GiveRange(c, geo.GroupOf(cur), geo.IdxOf(cur), geo.IdxOf(cur) + n)
    ensures Released(geo, c, c', cur, cur + n)
  {
    hide Geometry.GroupOf, Geometry.IdxOf, Clear, Sum;
    forall a: nat | geo.first <= a < geo.total
      ensures FreeIn(geo, c', a) <==> FreeIn(geo, c, a) || cur <= a < cur + n
    {
      if geo.GroupOf(a) == geo.GroupOf(cur) { Within(geo, cur, a); }
      if cur <= a < cur + n { Along(geo, cur, a - cur); }
    }
  }

  lemma RunOk(geo: Layout, bitmaps: seq<seq<Byte>>, c: Counts, cur: nat, left: nat)
    requires BlocksOk(geo, bitmaps, c) && Counted(c) && Padded(geo, c.bits)
    requires geo.first <= cur && 0 < left && cur + left <= geo.total && OneRun(geo, cur, left)
    requires forall a: nat :: cur <= a < cur + left ==> !FreeIn(geo, c, a)
    ensures Shaped(c) && geo.GroupOf(cur) < |c.bits|
    ensures var n := RunLen(geo, cur, left);
            var c' := GiveRange(c, geo.GroupOf(cur), geo.IdxOf(cur), geo.IdxOf(cur) + n);
            Counted(c') && Padded(geo, c'.bits) && Released(geo, c, c', cur, cur + n)
  {
    hide Geometry.GroupOf, Geometry.IdxOf, Geometry.BlocksIn, Geometry.GroupCnt, Clear, Sum, FreeIn, AllBits, Sizes,
        Padded, RunLen, Released;
    var g, lo, n := geo.GroupOf(cur), geo.IdxOf(cur), RunLen(geo, cur, left);
    AddrRoundTrip(geo, cur);
    RunFits(geo, cur, left);
    RunSet(geo, c, cur, n);
    GiveRangeCounted(c, g, lo, lo + n);
    var c' := GiveRange(c, g, lo, lo + n);
    RunFree(geo, c, c', cur, n);
    RunPadded(geo, c, c', cur, n);
  }

  lemma {:induction false} ClearAtMost(bits: seq<bool>, n: nat, lo: nat, hi: nat)
    requires lo <= n <= |bits|
    ensures Clear(Freed(bits, lo, hi), n) <= Clear(bits, n) + (n - lo)
  {
    if n == lo {
      ClearSame(Freed(bits, lo, hi), bits, n);
    } else {
      ClearAtMost(bits, n - 1, lo, hi);
    }
  }

  /** A run that leaves a group that does not fill its bitmap makes its count too high. */
  lemma RunOff(geo: Layout, c: Counts, cur: nat, left: nat)
    requires Counted(c) && |c.bits| == geo.GroupCnt() && c.sizes == Sizes(geo)
    requires geo.first <= cur && 0 < left && cur + left <= geo.total && !OneRun(geo, cur, left)
    ensures geo.GroupOf(cur) < |c.bits|
    ensures Off(GiveRange(c, geo.GroupOf(cur), geo.IdxOf(cur), geo.IdxOf(cur) + RunLen(geo, cur, left)),
            geo.GroupOf(cur))
  {
    hide Geometry.GroupOf, Geometry.IdxOf, Geometry.BlocksIn, Geometry.GroupCnt, Clear, Sum;
    var g, lo, n := geo.GroupOf(cur), geo.IdxOf(cur), RunLen(geo, cur, left);
    AddrRoundTrip(geo, cur);
    SomeBlocks(geo, g);
    if lo + left <= geo.perGroup { Along(geo, cur, left - 1); }
    ClearAtMost(c.bits[g], c.sizes[g], lo, lo + n);
  }

  lemma OffStill(c: Counts, g: nat, h: nat, lo: nat, hi: nat)
    requires Off(c, g) && g != h && h < |c.bits| && lo <= hi
    ensures Off(GiveRange(c, h, lo, hi), g)
  {
  }

  /** A step of a run that goes wrong. */
  lemma RunGoesOff(geo: Layout, c: Counts, first: nat, count: nat, cur: nat, left: nat, bg: nat)
    requires Shaped(c) && bg < |c.bits| && |c.bits| == geo.GroupCnt() && c.sizes == Sizes(geo)
    requires geo.first <= first && 0 < count && first + count <= geo.total && !OneRun(geo, first, count)
    requires if bg == geo.GroupOf(first) then Counted(c) && cur == first
            && left == count else Off(c, geo.GroupOf(first))
    ensures Off(GiveRange(c, bg, geo.IdxOf(cur), geo.IdxOf(cur) + RunLen(geo, cur, left)), geo.GroupOf(first))
  {
    hide Geometry.GroupOf, Geometry.IdxOf, Geometry.GroupCnt, Sizes, Off, Counted, Shaped, RunLen;
    if bg == geo.GroupOf(first) {
      RunOff(geo, c, first, count);
    } else {
      OffStill(c, geo.GroupOf(first), bg, geo.IdxOf(cur), geo.IdxOf(cur) + RunLen(geo, cur, left));
    }
  }

  /** A step of a run that goes well. */
  lemma RunGoesOn(geo: Layout, bitmaps: seq<seq<Byte>>, c0: Counts, c: Counts, first: nat, cur: nat, left: nat)
    requires BlocksOk(geo, bitmaps, c) && Counted(c) && Padded(geo, c.bits) && Released(geo, c0, c, first, cur)
    requires geo.first <= first <= cur && 0 < left && cur + left <= geo.total && OneRun(geo, cur, left)
    requires forall a: nat :: first <= a < cur + left ==> !FreeIn(geo, c0, a)
    ensures Shaped(c) && geo.GroupOf(cur) < |c.bits|
    ensures var n := RunLen(geo, cur, left);
            var c' := GiveRange(c, geo.GroupOf(cur), geo.IdxOf(cur), geo.IdxOf(cur) + n);
            Counted(c') && Padded(geo, c'.bits) && Released(geo, c0, c', first, cur + n)
  {
    hide BlocksOk, Counted, Padded, Released, FreeIn, OneRun, RunLen, GiveRange, Shaped, Geometry.GroupOf,
        Geometry.IdxOf;
    UsedStill(geo, c0, c, first, cur, left);
    RunOk(geo, bitmaps, c, cur, left);
    var n := RunLen(geo, cur, left);
    ReleasedMore(geo, c0, c, GiveRange(c, geo.GroupOf(cur), geo.IdxOf(cur), geo.IdxOf(cur) + n), first, cur, n);
  }

  /** In the middle of a run, with `left` blocks from `cur` on left for group `bg` and later. */
  ghost predicate Running(geo: Layout, c0: Counts, c: Counts, first: nat, count: nat, cur: nat, left: nat, bg: nat)
    requires 0 < count
  {
    && cur + left == first + count && first <= cur && geo.GroupOf(first) <= bg
    && if OneRun(geo, first, count) then
         && Counted(c) && Padded(geo, c.bits) && c.all == c0.all + (count - left) && Released(geo, c0, c, first, cur)
         && (left > 0 ==> bg == geo.GroupOf(cur) <= geo.GroupOf(first + count - 1) && OneRun(geo, cur, left))
         && (left == 0 ==> bg > geo.GroupOf(first + count - 1))
       else if bg == geo.GroupOf(first) then Counted(c) && cur == first
       else Off(c, geo.GroupOf(first))
  }

  lemma RunStart(geo: Layout, c: Counts, first: nat, count: nat)
    requires Counted(c) && Padded(geo, c.bits) && geo.first <= first && 0 < count && first + count <= geo.total
    ensures Shaped(c) && Running(geo, c, c, first, count, first, count, geo.GroupOf(first))
    ensures geo.GroupOf(first) <= geo.GroupOf(first + count - 1)
  {
    hide Counted, Padded, Geometry.GroupOf;
    Bounds(geo, first, first + count - 1);
    NoneReleased(geo, c, first);
    OffIsWrong(c, geo.GroupOf(first));
  }

  lemma RunInside(geo: Layout, c0: Counts, c: Counts, first: nat, count: nat, cur: nat, left: nat, bg: nat)
    requires 0 < count && geo.first <= first && first + count <= geo.total
            && Running(geo, c0, c, first, count, cur, left, bg)
    requires bg <= geo.GroupOf(first + count - 1)
    ensures geo.first <= first <= cur && bg < geo.GroupCnt() && (OneRun(geo, first, count) ==> left > 0)
  {
    hide Counted, Padded, Geometry.GroupOf, Geometry.GroupCnt;
    Bounds(geo, first, first + count - 1);
  }

  lemma RunEnd(geo: Layout, c0: Counts, c: Counts, first: nat, count: nat, cur: nat, left: nat, bg: nat)
    requires 0 < count && geo.first <= first && first + count <= geo.total
            && Running(geo, c0, c, first, count, cur, left, bg)
    requires bg > geo.GroupOf(first + count - 1)
    ensures OneRun(geo, first, count) ==>
              Counted(c) && Padded(geo, c.bits) && left == 0 && c.all == c0.all + count
                  && Released(geo, c0, c, first, first + count)
    ensures !OneRun(geo, first, count) ==> !Counted(c)
  {
    hide Counted, Padded, Released, Geometry.GroupOf;
    Bounds(geo, first, first + count - 1);
    OffIsWrong(c, geo.GroupOf(first));
  }

  lemma RunStep(geo: Layout, bitmaps: seq<seq<Byte>>, c0: Counts, c: Counts, first: nat, count: nat, cur: nat,
          left: nat, bg: nat)
    requires 0 < count && geo.first <= first && first + count <= geo.total
            && Running(geo, c0, c, first, count, cur, left, bg)
    requires BlocksOk(geo, bitmaps, c) && Shaped(c) && bg <= geo.GroupOf(first + count - 1) && bg < |c.bits|
    requires forall a: nat :: first <= a < first + count ==> !FreeIn(geo, c0, a)
    ensures var n := RunLen(geo, cur, left);
            Running(geo, c0, GiveRange(c, bg, geo.IdxOf(cur), geo.IdxOf(cur) + n), first, count, cur + n, left - n,
                bg + 1)
  {
    hide Counted, Padded, Released, Off, FreeIn, RunLen, Geometry.GroupOf, Geometry.IdxOf, Geometry.GroupCnt;
    if OneRun(geo, first, count) {
      Bounds(geo, first, first + count - 1);
      RunGoesOn(geo, bitmaps, c0, c, first, cur, left);
      RunFits(geo, cur, left);
    } else {
      RunGoesOff(geo, c, first, count, cur, left, bg);
    }
  }

  lemma RunPadded(geo: Layout, c: Counts, c': Counts, cur: nat, n: nat)
    requires Shaped(c) && Padded(geo, c.bits) && geo.first <= cur && 0 < n && cur + n <= geo.total
            && |c.bits| == geo.GroupCnt()
    requires geo.GroupOf(cur) < |c.bits| && geo.IdxOf(cur) + n <= c.sizes[geo.GroupOf(cur)] && c.sizes == Sizes(geo)
    requires c' == GiveRange(c, geo.GroupOf(cur), geo.IdxOf(cur), geo.IdxOf(cur) + n)
    ensures Padded(geo, c'.bits)
  {
    hide Geometry.GroupOf, Geometry.IdxOf, Geometry.BlocksIn, Geometry.GroupCnt, Geometry.AddrOf, Clear, Sum;
    var g, lo := geo.GroupOf(cur), geo.IdxOf(cur);
    AddrRoundTrip(geo, cur);
    forall h: nat, i: nat | h < |c'.bits| && i < |c'.bits[h]| && geo.AddrOf(i, h) >= geo.total
      ensures c'.bits[h][i]
    {
      assert c.bits[h][i];
      if h == g && lo <= i < lo + n {
        AddrIs(geo, g, i);
        AddrIs(geo, g, lo);
      }
    }
  }
}
