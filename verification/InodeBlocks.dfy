/** The operations on the block map of an inode, with the allocator's set of used blocks. */
module InodeBlocks {
  import opened Words
  import opened BlockTree
  import opened BlockMap
  import opened BlockPlaces

  /** Sectors of 512 bytes in a block, which is what the inode counts its blocks in. A block has `per`
      words of 4 bytes. */
  function Unit(per: nat): nat { 4 * per / 512 }

  lemma InSectors(n: nat, per: nat)
    requires 4 * per % 512 == 0
    ensures n * Unit(per) * 512 == n * (4 * per)
  {
    var u := Unit(per);
    assert u * 512 == 4 * per;
    assert n * u * 512 == n * (u * 512);
  }

  /** The block map, the block bitmap, and the inode's count at some time. */
  datatype Snap = Snap(disk: Disk, rs: Roots, used: set<u32>, blocks: int) {
    function Mine(): multiset<u32> { All(disk, rs) }
  }

  /** What was allocated since: the file's blocks are those of before and the new ones. */
  ghost predicate Gained(per: nat, total: u32, s: Snap, s': Snap, gained: set<u32>) {
    && s'.Mine() == s.Mine() + multiset(gained) && s'.used == s.used + gained && gained !! s.used
    && (forall b :: b in gained ==> 0 < b < total)
    && s'.blocks == s.blocks + |gained| * Unit(per)
  }

  lemma GainOne(per: nat, total: u32, s: Snap, s1: Snap, s2: Snap, gained: set<u32>, v: u32)
    requires Gained(per, total, s, s1, gained) && v !in s1.used && 0 < v < total
    requires s2.Mine() == s1.Mine() + multiset{v} && s2.used == s1.used + {v} && s2.blocks == s1.blocks + Unit(per)
    ensures Gained(per, total, s, s2, gained + {v}) && |gained + {v}| == |gained| + 1
  {
    hide All, Unit;
    Times(|gained|, Unit(per));
  }

  /** On the way to logical block `i`, down to level `l`, the missing pointer blocks were put in, and
      nothing else was done. */
  ghost predicate Descent(per: nat, total: u32, s0: Snap, s: Snap, i: nat, l: nat, gained: set<u32>) {
    && MapOk(s.disk, s.rs, per) && SameMap(s0.disk, s0.rs, s.disk, s.rs, per) && 0 !in s.used
    && Gained(per, total, s0, s, gained)
    && Counting(s0.disk, s0.rs, s.disk, s.rs, per, i, l, |gained|)
  }

  lemma DescentStart(per: nat, total: u32, s: Snap, i: nat)
    requires MapOk(s.disk, s.rs, per) && 0 !in s.used
    ensures Descent(per, total, s, s, i, Depth(per, i) + 1, {})
  {
    hide MapOk, Found, Counting;
    CountStart(s.disk, s.rs, per, i);
  }

  /** Pointer block `v` came into the map at the next level, in its place. */
  ghost predicate PutIn(per: nat, total: u32, s: Snap, s': Snap, i: nat, l: nat, v: u32) {
    && MapOk(s'.disk, s'.rs, per) && SameMap(s.disk, s.rs, s'.disk, s'.rs, per)
    && s'.Mine() == s.Mine() + multiset{v} && s'.used == s.used + {v} && v !in s.used && 0 < v < total
    && s'.blocks == s.blocks + Unit(per)
    && forall pl :: Proper(pl) ==>
         (Filled(s'.disk, s'.rs, pl) <==> Filled(s.disk, s.rs, pl) || pl == PlaceOf(per, i, l))
  }

  lemma DescentOn(per: nat, total: u32, s0: Snap, s: Snap, s': Snap, i: nat, l: nat, gained: set<u32>, v: u32)
    requires Descent(per, total, s0, s, i, l, gained) && l > 1 && !Filled(s.disk, s.rs, PlaceOf(per, i, l - 1))
    requires PutIn(per, total, s, s', i, l - 1, v)
    ensures Descent(per, total, s0, s', i, l - 1, gained + {v})
  {
    hide MapOk, Found, Counting, Filled, PlaceOf, Proper, Gained, Unit;
    GainOne(per, total, s0, s, s', gained, v);
    CountStep(s0.disk, s0.rs, s.disk, s.rs, s'.disk, s'.rs, per, i, l, |gained|);
  }

  lemma DescentPast(per: nat, total: u32, s0: Snap, s: Snap, i: nat, l: nat, gained: set<u32>)
    requires Descent(per, total, s0, s, i, l, gained) && l > 1 && Filled(s.disk, s.rs, PlaceOf(per, i, l - 1))
    ensures Descent(per, total, s0, s, i, l - 1, gained)
  {
    hide MapOk, Found, Counting, Filled, PlaceOf, Proper, Gained;
    CountStep(s0.disk, s0.rs, s.disk, s.rs, s.disk, s.rs, per, i, l, |gained|);
  }

  lemma DescentFacts(per: nat, total: u32, s0: Snap, s: Snap, i: nat, l: nat, gained: set<u32>)
    requires Descent(per, total, s0, s, i, l, gained)
    ensures MapOk(s.disk, s.rs, per) && 0 !in s.used && Gained(per, total, s0, s, gained)
    ensures l > 1 && !Filled(s.disk, s.rs, PlaceOf(per, i, l - 1)) ==> |gained| < |Lacks(s0.disk, s0.rs, per, i)|
    ensures (forall b :: b in s0.Mine() ==> b in s0.used) ==> forall b :: b in s.Mine() ==> b in s.used
  {
    hide MapOk, Found, Counting, Filled, PlaceOf, Unit, All;
    if l > 1 && !Filled(s.disk, s.rs, PlaceOf(per, i, l - 1)) {
      CountEmpty(s0.disk, s0.rs, s.disk, s.rs, per, i, l, |gained|);
    }
  }

  /** No block is free, but for one that a failed operation gave back. */
  ghost predicate Exhausted(used: set<u32>, total: u32) {
    forall b: u32, c: u32 :: 0 < b < total && 0 < c < total && b !in used && c !in used ==> b == c
  }

  ghost predicate AllUsed(used: set<u32>, total: u32) {
    forall b: u32 :: 0 < b < total ==> b in used
  }

  function OthersOf(used: set<u32>, all: multiset<u32>): set<u32> {
    set b | b in used && b !in all
  }

  class InodeRef {
    /** Pointers in a block, and the number of blocks of the file system. */
    const per: nat
    const total: u32

    // The inode.
    var direct: seq<u32>
    var indirect: seq<u32>
    var size: nat
    var blocks: int

    // The pointer blocks on disk, and the block bitmap.
    var disk: Disk
    var used: set<u32>

    function Rs(): Roots
      reads this`direct, this`indirect
    {
      Roots(direct, indirect)
    }

    ghost function Mine(): multiset<u32>
      reads this`direct, this`indirect, this`disk
    {
      All(disk, Rs())
    }

    ghost predicate Valid()
      reads this`direct, this`indirect, this`disk, this`used
    {
      && MapOk(disk, Rs(), per) && 0 !in used
      && forall b :: b in Mine() ==> b in used
    }

    function S(): Snap
      reads this`direct, this`indirect, this`disk, this`used, this`blocks
    {
      Snap(disk, Rs(), used, blocks)
    }

    /** The inode's count is that of its blocks. */
    ghost predicate Counted()
      reads this`direct, this`indirect, this`disk, this`blocks
    {
      blocks == |Mine()| * Unit(per)
    }

    /** Where blocks are of whole sectors, as all are in practice, it stands for as many bytes as they
        have, and for no others. */
    lemma CountedIff()
      requires BlockSize() % 512 == 0
      ensures Counted() <==> blocks * 512 == |Mine()| * BlockSize()
    {
      hide All;
      InSectors(|Mine()|, per);
    }

    /** Used blocks that are not the file's. */
    ghost function Others(): set<u32>
      reads this`direct, this`indirect, this`disk, this`used
    {
      OthersOf(used, Mine())
    }

    /** What logical block `i` leads to. */
    function At(i: nat): u32
      reads this`direct, this`indirect, this`disk
    {
      Found(disk, Rs(), per, i)
    }

    /** `ext4_balloc_alloc_block`, of which only this matters here: some free block. */
    method AllocBlock() returns (r: Errno, b: u32)
      requires 0 !in used
      modifies this`used, this`blocks
      ensures r == EOK || r == ENOSPC
      ensures r == EOK ==> 0 < b < total && b !in old(used) && used == old(used) + {b}
      ensures r == EOK ==> blocks == old(blocks) + Unit(per)
      ensures r != EOK ==> used == old(used) && blocks == old(blocks) && AllUsed(used, total)
    {
      var n: nat := 1;
      while n < total
        invariant used == old(used) && blocks == old(blocks) && forall b: u32 :: 0 < b < n ==> b in used
        decreases total - n
      {
        if n !in used {
          used := used + {n};
          blocks := blocks + Unit(per);
          return EOK, n;
        }
        n := n + 1;
      }
      return ENOSPC, 0;
    }

    /** `ext4_balloc_free_block`. */
    method FreeBlock(b: u32)
      requires b in used
      modifies this`used, this`blocks
      ensures used == old(used) - {b} && blocks == old(blocks) - Unit(per)
    {
      used := used - {b};
      blocks := blocks - Unit(per);
    }

    /** `ext4_fs_get_inode_dblk_idx_internal`. */
    method Get(iblock: nat) returns (r: Errno, fblock: u32)
      requires Valid()
      ensures r == EOK || r == EIO
      ensures r == EIO <==> size > 0 && LevelOf(per, iblock) == 4
      ensures r == EOK ==> fblock == if size == 0 then 0 else At(iblock)
    {
      hide Single, All, Wf, PerLevel, Limit, Slot, Rest, Lookup;
      if size == 0 { return EOK, 0; }
      if iblock < DIRECT_COUNT { return EOK, direct[iblock]; }
      var l := FindLevel(iblock);
      if l == 0 { return EIO, 0; }
      var off: nat := iblock - Limit(per, l - 1);
      var current := indirect[l - 1];
      SlotIs(per, l, off);
      var slot := off / PerLevel(per, l - 1);
      assert Lookup(disk, per, current, l, off) == At(iblock);
      if current == 0 {
        Hole(disk, per, l, off);
        return EOK, 0;
      }
      assert AreaWf(disk, Rs(), per, l);
      while l > 0
        invariant l <= 3 && current != 0 && Wf(disk, per, current, l)
        invariant off < PerLevel(per, l) && (l > 0 ==> slot == Slot(per, l, off))
        invariant Lookup(disk, per, current, l, off) == At(iblock)
      {
        LookupStep(disk, per, current, l, off);
        SlotIs(per, l, off);
        current := disk[current][slot];
        l := l - 1;
        if current == 0 {
          Hole(disk, per, l, off % PerLevel(per, l));
          return EOK, 0;
        }
        off := off % PerLevel(per, l);
        if l == 0 { break; }
        SlotIs(per, l, off);
        slot := off / PerLevel(per, l - 1);
      }
      DataLevel(disk, per, current, off);
      return EOK, current;
    }

    /** The level loop; 0 for a block behind all levels. */
    method FindLevel(iblock: nat) returns (l: nat)
      requires iblock >= DIRECT_COUNT
      ensures l == if LevelOf(per, iblock) == 4 then 0 else LevelOf(per, iblock)
      ensures l <= 3 && (l > 0 ==> Limit(per, l - 1) <= iblock && iblock - Limit(per, l - 1) < PerLevel(per, l))
    {
      hide PerLevel, Limit;
      l := 0;
      var i := 1;
      while i < 4
        invariant 1 <= i <= 4 && forall m :: 1 <= m < i ==> iblock >= Limit(per, m)
      {
        if iblock < Limit(per, i) { return i; }
        i := i + 1;
      }
    }

    /** `ext4_fs_set_inode_data_block_index`: logical block `iblock`, and no other, leads to
        `fblock`. Just the missing pointer blocks are allocated on the way, and stay in the map should
        there be too few blocks. */
    method SetBlock(iblock: nat, fblock: u32) returns (r: Errno, ghost gained: set<u32>)
      requires Valid() && fblock != 0 && fblock in used && fblock !in Mine()
      modifies this`direct, this`indirect, this`disk, this`used, this`blocks
      ensures Valid() && (r == EOK || r == EIO || r == ENOSPC)
      ensures r == EIO <==> LevelOf(per, iblock) == 4
      ensures forall j: nat :: At(j) == if r == EOK && j == iblock then fblock else old(At(j))
      ensures used == old(used) + gained && gained !! old(used) && forall b :: b in gained ==> 0 < b < total
      ensures r == EOK ==> Mine() + One(old(At(iblock))) == old(Mine()) + multiset(gained) + One(fblock)
      ensures r != EOK ==> Mine() == old(Mine()) + multiset(gained)
      ensures blocks == old(blocks) + |gained| * Unit(per)
      ensures r == ENOSPC ==> AllUsed(used, total) && |gained| < old(|Lacks(disk, Rs(), per, iblock)|)
      ensures r == ENOSPC ==> Lacks(disk, Rs(), per, iblock) != {}
      ensures r == EOK ==> |gained| == old(|Lacks(disk, Rs(), per, iblock)|)
      ensures r == EOK ==> FilledFrom(old(disk), old(Rs()), disk, Rs(), per, iblock, 1)
      ensures r == EIO ==> gained == {}
    {
      hide Single, All, Wf, PerLevel, Limit, Lookup, Found, MapOk, Area, AllUsed, FilledFrom, Unit, Lacks;
      MapShape(disk, Rs(), per);
      ghost var all0 := Mine();
      if iblock < DIRECT_COUNT {
        DirectSet(disk, Rs(), per, iblock, fblock);
        DirectFills(disk, Rs(), per, iblock, fblock);
        direct := direct[iblock := fblock];
        InBoth(Mine(), One(old(At(iblock))), all0, One(fblock));
        gained := {};
        assert multiset(gained) == multiset{};
        return EOK, {};
      }
      var l := FindLevel(iblock);
      if l == 0 { return EIO, {}; }
      r, gained := SetIndirect(iblock, l, fblock);
    }

    /** A zeroed pointer block where one is missing, entered in its parent `current`. */
    method AddChild(iblock: nat, current: u32, l: nat, ghost off: nat, slot: nat) returns (r: Errno, v: u32)
      requires MapOk(disk, Rs(), per) && 0 !in used && forall b :: b in Mine() ==> b in used
      requires OnPath(disk, Rs(), per, iblock, current, l, off, slot) && l > 1
      requires current in disk && slot < |disk[current]| && disk[current][slot] == 0
      modifies this`disk, this`used, this`blocks
      ensures r == EOK || r == ENOSPC
      ensures r != EOK ==> used == old(used) && disk == old(disk) && blocks == old(blocks)
      ensures r == ENOSPC ==> AllUsed(used, total)
      ensures r == EOK ==> v != 0 && PutIn(per, total, old(S()), S(), iblock, l - 1, v)
      ensures r == EOK ==> current in disk && slot < |disk[current]| && disk[current][slot] == v
      ensures r == EOK ==> OnPath(disk, Rs(), per, iblock, current, l, off, slot)
    {
      hide Single, All, Wf, PerLevel, Limit, Slot, Rest, Lookup, Found, MapOk, Reaches, Down, Area, Zeros, SameMap,
          AllUsed, Filled, Proper, PlaceOf, Unit;
      r, v := AllocBlock();
      if r != EOK { return; }
      CurInside(disk, Rs(), per, iblock, current, l);
      ChildAdded(disk, Rs(), per, iblock, current, l, slot, v);
      ReachesChild(disk, Rs(), per, iblock, current, l, slot, v);
      ChildFills(disk, Rs(), per, iblock, current, l, slot, v);
      disk := disk[v := Zeros(per)];
      disk := Pointed(disk, current, slot, v);
    }

    /** The same, unless there is one already. */
    method NeedChild(iblock: nat, current: u32, l: nat, ghost off: nat, slot: nat, ghost s0: Snap,
                     ghost gained0: set<u32>)
      returns (r: Errno, ghost gained: set<u32>)
      requires Descent(per, total, s0, S(), iblock, l, gained0) && forall b :: b in s0.Mine() ==> b in s0.used
      requires OnPath(disk, Rs(), per, iblock, current, l, off, slot) && l > 1
      requires current in disk && slot < |disk[current]|
      modifies this`disk, this`used, this`blocks
      ensures r == EOK || r == ENOSPC
      ensures r == ENOSPC ==> AllUsed(used, total) && |gained| < |Lacks(s0.disk, s0.rs, per, iblock)|
      ensures r == ENOSPC ==> !Filled(disk, Rs(), PlaceOf(per, iblock, l - 1))
      ensures Descent(per, total, s0, S(), iblock, if r == EOK then l - 1 else l, gained)
      ensures r == EOK ==>
                && OnPath(disk, Rs(), per, iblock, current, l, off, slot)
                && current in disk && slot < |disk[current]| && disk[current][slot] != 0
    {
      hide Single, All, Wf, PerLevel, Limit, Slot, Rest, Lookup, Found, MapOk, OnPath, Area, Zeros, LevelOf, AllUsed,
          Descent, PutIn, Filled, PlaceOf, Lacks, Unit, Gained;
      r, gained := EOK, gained0;
      ghost var s := S();
      DescentFacts(per, total, s0, s, iblock, l, gained0);
      PlaceAt(disk, Rs(), per, iblock, current, l, off, slot);
      if disk[current][slot] == 0 {
        var v;
        r, v := AddChild(iblock, current, l, off, slot);
        if r != EOK { return; }
        DescentOn(per, total, s0, s, S(), iblock, l, gained, v);
        gained := gained + {v};
      } else {
        DescentPast(per, total, s0, s, iblock, l, gained);
      }
    }

    /** The pointer block that the inode itself names at level `l`. */
    method Root(iblock: nat, l: nat) returns (r: Errno, current: u32, ghost gained: set<u32>)
      requires Valid() && 1 <= l <= 3 && l == LevelOf(per, iblock)
      modifies this`indirect, this`disk, this`used, this`blocks
      ensures r == EOK || r == ENOSPC
      ensures r == ENOSPC ==> AllUsed(used, total) && |gained| < old(|Lacks(disk, Rs(), per, iblock)|)
      ensures r == ENOSPC ==> !Filled(disk, Rs(), PlaceOf(per, iblock, l))
      ensures Descent(per, total, old(S()), S(), iblock, if r == EOK then l else l + 1, gained)
      ensures r == EOK ==> current != 0 && Rs().Shaped() && Rs().indirect[l - 1] == current
    {
      hide Single, All, Wf, PerLevel, Limit, Lookup, Found, MapOk, Area, Zeros, AllUsed, Descent, Filled, Proper,
          PlaceOf, Lacks, Unit, Gained;
      gained := {};
      r := EOK;
      MapShape(disk, Rs(), per);
      ghost var s := S();
      DescentStart(per, total, s, iblock);
      DescentFacts(per, total, s, s, iblock, l + 1, {});
      PlaceAtRoot(disk, Rs(), per, iblock);
      current := indirect[l - 1];
      if current == 0 {
        r, current := AllocBlock();
        if r != EOK { return; }
        RootAdded(disk, Rs(), per, l, current);
        RootFills(disk, Rs(), per, iblock, current);
        indirect := indirect[l - 1 := current];
        disk := disk[current := Zeros(per)];
        DescentOn(per, total, s, s, S(), iblock, l + 1, gained, current);
        gained := {current};
        MapShape(disk, Rs(), per);
      } else {
        DescentPast(per, total, s, s, iblock, l + 1, {});
      }
    }

    method SetIndirect(iblock: nat, l0: nat, fblock: u32) returns (r: Errno, ghost gained: set<u32>)
      requires Valid() && fblock != 0 && fblock in used && fblock !in Mine()
      requires 1 <= l0 <= 3 && l0 == LevelOf(per, iblock)
      modifies this`indirect, this`disk, this`used, this`blocks
      ensures Valid() && (r == EOK || r == ENOSPC)
      ensures forall j: nat :: At(j) == if r == EOK && j == iblock then fblock else old(At(j))
      ensures used == old(used) + gained && gained !! old(used) && forall b :: b in gained ==> 0 < b < total
      ensures r == EOK ==> Mine() + One(old(At(iblock))) == old(Mine()) + multiset(gained) + One(fblock)
      ensures r != EOK ==> Mine() == old(Mine()) + multiset(gained)
      ensures blocks == old(blocks) + |gained| * Unit(per)
      ensures r == ENOSPC ==> AllUsed(used, total) && |gained| < old(|Lacks(disk, Rs(), per, iblock)|)
      ensures r == ENOSPC ==> Lacks(disk, Rs(), per, iblock) != {}
      ensures r == EOK ==> |gained| == old(|Lacks(disk, Rs(), per, iblock)|)
      ensures r == EOK ==> FilledFrom(old(disk), old(Rs()), disk, Rs(), per, iblock, 1)
    {
      hide Single, All, Wf, PerLevel, Limit, Slot, Rest, Lookup, Found, MapOk, OnPath, Area, Zeros, LevelOf, SetTo,
          One, Pointed, AllUsed, Descent, Lacks, Unit, FilledFrom, Gained, Filled, PlaceOf;
      ghost var s0 := S();
      var l := l0;
      LevelRange(per, iblock);
      MapShape(disk, Rs(), per);
      var off: nat := iblock - Limit(per, l - 1);
      var slot := SlotOf(l, off);
      var current;
      r, current, gained := Root(iblock, l);
      if r != EOK {
        DescentEnds(per, total, s0, S(), iblock, l + 1, gained);
        SomeLacking(disk, Rs(), per, iblock, l);
        return;
      }
      DescentFacts(per, total, s0, S(), iblock, l, gained);
      MapShape(disk, Rs(), per);
      StartOfPath(disk, Rs(), per, iblock, current, slot);
      while l > 0
        invariant 1 <= l <= 3 && Descent(per, total, s0, S(), iblock, l, gained) && direct == s0.rs.direct
        invariant OnPath(disk, Rs(), per, iblock, current, l, off, slot) && l <= l0
      {
        DescentFacts(per, total, s0, S(), iblock, l, gained);
        PathFacts(disk, Rs(), per, iblock, current, l, off, slot);
        if l == 1 {
          DescentDone(per, total, s0, S(), iblock, gained, current, off, slot, fblock);
          disk := Pointed(disk, current, slot, fblock);
          return EOK, gained;
        }
        r, gained := NeedChild(iblock, current, l, off, slot, s0, gained);
        if r != EOK {
          DescentEnds(per, total, s0, S(), iblock, l, gained);
          SomeLacking(disk, Rs(), per, iblock, l - 1);
          return;
        }
        DescentFacts(per, total, s0, S(), iblock, l - 1, gained);
        ghost var l1, off1, cur1, slot1 := l, off, current, slot;
        current := disk[current][slot];
        off := RestOf(l, off);
        l := l - 1;
        slot := SlotOf(l, off);
        PathOn(disk, Rs(), per, iblock, cur1, l1, off1, slot1, off, slot);
      }
    }

    method SlotOf(l: nat, off: nat) returns (slot: nat)
      requires per > 0 && l > 0
      ensures slot == Slot(per, l, off)
    {
      SlotIs(per, l, off);
      slot := off / PerLevel(per, l - 1);
    }

    method RestOf(l: nat, off: nat) returns (rest: nat)
      requires per > 0 && l > 0
      ensures rest == Rest(per, l, off)
    {
      SlotIs(per, l, off);
      rest := off % PerLevel(per, l - 1);
    }

    function BlockSize(): nat { 4 * per }

    /** The file is no longer than the map can be, and no block lies behind its end. */
    ghost predicate Tight()
      reads this`direct, this`indirect, this`disk, this`size
    {
      && CountOf(size, BlockSize()) <= Limit(per, 3)
      && forall j: nat :: j >= CountOf(size, BlockSize()) ==> At(j) == 0
    }

    lemma ValidIs()
      requires Valid()
      ensures 0 !in used && forall b :: b in Mine() ==> b in used
    {
    }

    /** A block for the file, not yet in its map. */
    method TakeBlock() returns (r: Errno, b: u32)
      requires Valid()
      modifies this`used, this`blocks
      ensures Valid() && (r == EOK || r == ENOSPC)
      ensures r == EOK ==> 0 < b < total && b !in old(used) && b !in Mine() && used == old(used) + {b}
      ensures r == EOK ==> blocks == old(blocks) + Unit(per)
      ensures r != EOK ==> used == old(used) && blocks == old(blocks) && AllUsed(used, total)
    {
      hide MapOk, All, AllUsed, Unit;
      r, b := AllocBlock();
    }

    /** It is given back unused. */
    method GiveBack(b: u32)
      requires Valid() && b in used && b !in Mine()
      modifies this`used, this`blocks
      ensures Valid() && used == old(used) - {b} && blocks == old(blocks) - Unit(per)
    {
      hide MapOk, All, Unit;
      FreeBlock(b);
    }

    /** A data block for a hole, and the pointer blocks that are missing on the way to it. On failure
        the map is as it was, but for pointer blocks; every block allocated is then in the map, or
        given back. It fails just if not all of them are free, or the block is behind all levels. */
    method Fill(iblock: nat) returns (r: Errno, phys: u32)
      requires Valid() && At(iblock) == 0
      modifies this`direct, this`indirect, this`disk, this`used, this`blocks
      ensures Valid() && Others() == old(Others()) && (r == EOK || r == EIO || r == ENOSPC)
      ensures r == ENOSPC <==> old(FreeCount(used, total)) < 1 + old(|Lacks(disk, Rs(), per, iblock)|)
      ensures r == EIO <==> LevelOf(per, iblock) == 4 && old(FreeCount(used, total)) > 0
      ensures r == ENOSPC ==> Exhausted(used, total)
      ensures r != EOK ==> Short(disk, Rs(), per, used, total, iblock, 1)
      ensures r == EOK ==> 0 < phys < total && phys !in old(used) && phys in used
      ensures r == EOK ==> FilledFrom(old(disk), old(Rs()), disk, Rs(), per, iblock, 1)
      ensures var needs := 1 + old(|Lacks(disk, Rs(), per, iblock)|);
              r == EOK ==> FreeCount(used, total) == old(FreeCount(used, total)) - needs
      ensures old(used) <= used && (old(Counted()) ==> Counted())
      ensures forall j: nat :: At(j) == if r == EOK && j == iblock then phys else old(At(j))
    {
      hide MapOk, Single, All, Found, LevelOf, OthersOf, One, AllUsed, Exhausted, Lacks, FilledFrom, FreeCount, Unit,
          Short, FreeSet, InodeRef.Valid;
      ghost var s0 := S();
      NoneLacking(disk, Rs(), per, iblock);
      ValidIs();
      r, phys := TakeBlock();
      if r != EOK {
        NoneFree(used, total);
        ShortNow(disk, Rs(), per, used, total, iblock, 1);
        NoneLeft(used, total);
        return;
      }
      ghost var gained;
      r, gained := SetBlock(iblock, phys);
      ghost var s := S();
      if r != EOK {
        FillFails(per, total, s0, s, iblock, phys, gained);
        GiveBack(phys);
      } else {
        FillEnds(per, total, s0, s, iblock, phys, gained);
      }
    }

    lemma SomeBytes()
      requires per > 0
      ensures BlockSize() > 0
    {
    }

    /** `ext4_fs_append_inode_dblk`: one block more, behind the last. */
    method Append() returns (r: Errno, fblock: u32, iblock: nat)
      requires Valid() && Tight()
      modifies this`direct, this`indirect, this`disk, this`used, this`blocks, this`size
      ensures Valid() && Tight() && Others() == old(Others())
      ensures r == EOK || r == EIO || r == ENOSPC
      ensures old(Counted()) ==> Counted()
      ensures var at := CountOf(old(size), BlockSize());
              var needs, free := 1 + |Lacks(old(disk), old(Rs()), per, at)|, old(FreeCount(used, total));
              && (r == ENOSPC <==> free < needs) && (r == EIO <==> LevelOf(per, at) == 4 && free > 0)
              && (r == EOK ==> FreeCount(used, total) == free - needs)
              && (r == EOK ==> FilledFrom(old(disk), old(Rs()), disk, Rs(), per, at, 1))
      ensures r == EOK ==> iblock == CountOf(old(size), BlockSize()) && size == (iblock + 1) * BlockSize()
      ensures r == EOK ==> 0 < fblock < total && fblock !in old(used) && fblock in used
      ensures r != EOK ==> size == old(size)
      ensures r == ENOSPC ==> Exhausted(used, total)
      ensures r != EOK ==> Short(disk, Rs(), per, used, total, CountOf(old(size), BlockSize()), 1)
      ensures old(used) <= used
      ensures forall j: nat :: At(j) == if r == EOK && j == iblock then fblock else old(At(j))
    {
      hide MapOk, Single, All, Found, LevelOf, CountOf, Limit, Exhausted, Lacks, FilledFrom, FreeCount, Unit, Short,
          InodeRef.BlockSize, InodeRef.Others;
      MapShape(disk, Rs(), per);
      SomeBytes();
      var bs := BlockSize();
      var inodeSize := size;
      if inodeSize % bs != 0 { inodeSize := inodeSize + (bs - inodeSize % bs); }
      iblock := inodeSize / bs;
      Aligned(size, bs, inodeSize, iblock);
      LevelBound(per, iblock);
      r, fblock := Fill(iblock);
      if r == EOK { size := inodeSize + bs; }
    }

    /** `ext4_fs_release_inode_block`: logical block `iblock` becomes a hole, and its data block
        is given back. Pointer blocks stay. */
    method Release(iblock: nat) returns (r: Errno)
      requires Valid()
      modifies this`direct, this`disk, this`used, this`blocks
      ensures Valid() && Others() == old(Others()) && (r == EOK || r == EIO)
      ensures r == EIO <==> LevelOf(per, iblock) == 4
      ensures r != EOK ==> used == old(used)
      ensures r == EOK ==> used == old(used) - {old(At(iblock))}
      ensures old(Counted()) ==> Counted()
      ensures forall j: nat :: At(j) == if r == EOK && j == iblock then 0 else old(At(j))
    {
      hide Unit, MapOk, Single, All, Found, LevelOf, OthersOf, One, PerLevel, Limit, Slot, Rest, OnPath, SetTo, Pointed;
      MapShape(disk, Rs(), per);
      ghost var all0, used0, disk0, rs0 := Mine(), used, disk, Rs();
      NoZero(disk, Rs());
      DirectLevel(disk, Rs(), per, iblock);
      if iblock < DIRECT_COUNT {
        var fblock := direct[iblock];
        if fblock == 0 { return EOK; }
        DirectSet(disk, Rs(), per, iblock, 0);
        direct := direct[iblock := 0];
        OneGone(disk0, rs0, disk, Rs(), per, iblock, used0);
        FreeBlock(fblock);
        CountLess(all0, Mine(), fblock, Unit(per));
        return EOK;
      }
      var l := FindLevel(iblock);
      if l == 0 { return EIO; }
      LevelRange(per, iblock);
      var off: nat := iblock - Limit(per, l - 1);
      var current := indirect[l - 1];
      var slot := SlotOf(l, off);
      if current == 0 {
        RootHole(disk, Rs(), per, iblock);
        return EOK;
      }
      StartOfPath(disk, Rs(), per, iblock, current, slot);
      while l > 0
        invariant disk == disk0 && Rs() == rs0 && used == used0 && blocks == old(blocks)
        invariant 1 <= l <= 3 && OnPath(disk, Rs(), per, iblock, current, l, off, slot)
      {
        PathFacts(disk, Rs(), per, iblock, current, l, off, slot);
        PathHole(disk, Rs(), per, iblock, current, l, off, slot);
        var next := disk[current][slot];
        if next == 0 { return EOK; }
        if l == 1 {
          PathData(disk, Rs(), per, iblock, current, off, slot, 0);
          disk := Pointed(disk, current, slot, 0);
          OneGone(disk0, rs0, disk, Rs(), per, iblock, used0);
          FreeBlock(next);
          CountLess(all0, Mine(), next, Unit(per));
          return EOK;
        }
        ghost var l1, off1, cur1, slot1 := l, off, current, slot;
        current := next;
        off := RestOf(l, off);
        l := l - 1;
        slot := SlotOf(l, off);
        PathOn(disk, Rs(), per, iblock, cur1, l1, off1, slot1, off, slot);
      }
    }

    /** `ext4_fs_truncate_inode` for a file: what lies behind the new size is given back, each
        block once, and the rest of the map stays. */
    method Truncate(newSize: nat) returns (r: Errno)
      requires Valid() && Tight()
      modifies this`direct, this`disk, this`used, this`blocks, this`size
      ensures Valid() && Tight() && Others() == old(Others())
      ensures r == if old(size) < newSize then EINVAL else EOK
      ensures r == EOK ==> size == newSize
      ensures r == EOK ==> forall j: nat ::
                At(j) == if j < CountOf(newSize, BlockSize()) then old(At(j)) else 0
      ensures r == EOK ==> forall b :: b in used <==>
                b in old(used) && forall j: nat :: j >= CountOf(newSize, BlockSize()) ==> b != old(At(j))
      ensures r != EOK ==> size == old(size)
      ensures old(Counted()) ==> Counted()
    {
      hide MapOk, Single, All, Found, LevelOf, OthersOf, CountOf, Limit, Unit;
      if size == newSize { return EOK; }
      if size < newSize { return EINVAL; }
      var newCnt, oldCnt := CountOf(newSize, BlockSize()), CountOf(size, BlockSize());
      CountGrows(newSize, size, BlockSize());
      var i := 0;
      while i < oldCnt - newCnt
        invariant i <= oldCnt - newCnt && size == old(size)
        invariant Valid() && Others() == old(Others()) && (old(Counted()) ==> Counted())
        invariant forall j: nat :: At(j) == if newCnt <= j < newCnt + i then 0 else old(At(j))
        invariant forall b :: b in used <==> b in old(used) && forall j: nat :: newCnt <= j < newCnt + i ==>
                b != old(At(j))
      {
        LevelBound(per, newCnt + i);
        r := Release(newCnt + i);
        if r != EOK { return; }
        i := i + 1;
      }
      size := newSize;
      r := EOK;
    }

    /** The loop over the slots of a pointer block whose children are to be given back. */
    method FreeChildren(kids: seq<u32>, ghost ledger: Ledger, ghost rest: multiset<u32>)
      requires forall k :: 0 <= k < |kids| ==> NoData(disk, per, kids[k], 1)
      requires ledger.unit == Unit(per)
      requires Freeing(ledger, used, blocks, rest + KidBlocks(disk, kids, 1))
      modifies this`used, this`blocks
      ensures Freeing(ledger, used, blocks, rest)
    {
      hide Freeing, Blocks, KidBlocks, NoData, Unit;
      var offset := 0;
      assert kids[0..] == kids;
      while offset < |kids|
        invariant offset <= |kids| && Freeing(ledger, used, blocks, rest + KidBlocks(disk, kids[offset..], 1))
      {
        var indBlock := kids[offset];
        NoDataBelow(disk, per, indBlock);
        ghost var less := rest + KidBlocks(disk, kids[offset + 1..], 1);
        NextKid(disk, kids, offset, 1, rest);
        if indBlock != 0 {
          FreeNext(ledger, used, blocks, less, indBlock);
          FreeBlock(indBlock);
        } else {
          assert less + multiset{} == less;
        }
        offset := offset + 1;
      }
      NoKidLeft(disk, kids, offset, 1, rest);
    }

    /** The same two levels deep. */
    method FreeGrandchildren(kids: seq<u32>, ghost ledger: Ledger, ghost rest: multiset<u32>)
      requires forall k :: 0 <= k < |kids| ==> NoData(disk, per, kids[k], 2)
      requires ledger.unit == Unit(per)
      requires Freeing(ledger, used, blocks, rest + KidBlocks(disk, kids, 2))
      modifies this`used, this`blocks
      ensures Freeing(ledger, used, blocks, rest)
    {
      hide Freeing, Blocks, KidBlocks, Unit;
      var offset := 0;
      assert kids[0..] == kids;
      while offset < |kids|
        invariant offset <= |kids| && Freeing(ledger, used, blocks, rest + KidBlocks(disk, kids[offset..], 2))
      {
        var indBlock := kids[offset];
        assert NoData(disk, per, indBlock, 2);
        ghost var less := rest + KidBlocks(disk, kids[offset + 1..], 2);
        NextKid(disk, kids, offset, 2, rest);
        BlocksOf(disk, indBlock, 2);
        if indBlock != 0 {
          ghost var more := less + multiset{indBlock};
          assert less + Blocks(disk, indBlock, 2) == more + KidBlocks(disk, disk[indBlock], 1);
          FreeChildren(disk[indBlock], ledger, more);
          FreeNext(ledger, used, blocks, less, indBlock);
          FreeBlock(indBlock);
        } else {
          assert less + multiset{} == less;
        }
        offset := offset + 1;
      }
      NoKidLeft(disk, kids, offset, 2, rest);
    }

    /** The double indirect block of a file without data, with the blocks below it. */
    method FreeDouble(ghost ledger: Ledger, ghost rest: multiset<u32>)
      requires |indirect| == 3 && NoData(disk, per, indirect[1], 2)
      requires ledger.unit == Unit(per)
      requires Freeing(ledger, used, blocks, rest + Blocks(disk, indirect[1], 2))
      modifies this`indirect, this`used, this`blocks
      ensures Freeing(ledger, used, blocks, rest) && indirect == old(indirect)[1 := 0]
    {
      hide Freeing, Blocks, KidBlocks;
      var fblock := indirect[1];
      BlocksOf(disk, fblock, 2);
      if fblock != 0 {
        assert rest + Blocks(disk, fblock, 2) == (rest + multiset{fblock}) + KidBlocks(disk, disk[fblock], 1);
        FreeChildren(disk[fblock], ledger, rest + multiset{fblock});
        FreeNext(ledger, used, blocks, rest, fblock);
        FreeBlock(fblock);
        indirect := indirect[1 := 0];
      } else {
        assert rest + multiset{} == rest;
      }
    }

    /** The triple indirect block. */
    method FreeTriple(ghost ledger: Ledger, ghost rest: multiset<u32>)
      requires |indirect| == 3 && NoData(disk, per, indirect[2], 3)
      requires ledger.unit == Unit(per)
      requires Freeing(ledger, used, blocks, rest + Blocks(disk, indirect[2], 3))
      modifies this`indirect, this`used, this`blocks
      ensures Freeing(ledger, used, blocks, rest) && indirect == old(indirect)[2 := 0]
    {
      hide Freeing, Blocks, KidBlocks;
      var fblock := indirect[2];
      BlocksOf(disk, fblock, 3);
      if fblock != 0 {
        assert rest + Blocks(disk, fblock, 3) == (rest + multiset{fblock}) + KidBlocks(disk, disk[fblock], 2);
        FreeGrandchildren(disk[fblock], ledger, rest + multiset{fblock});
        FreeNext(ledger, used, blocks, rest, fblock);
        FreeBlock(fblock);
        indirect := indirect[2 := 0];
      } else {
        assert rest + multiset{} == rest;
      }
    }

    /** `ext4_fs_free_inode`, the blocks of the map. A file without data blocks, as after
        truncating to nothing, gives back each of its pointer blocks once, and no other block. */
    method FreeInode()
      requires Valid() && forall j: nat :: At(j) == 0
      modifies this`indirect, this`used, this`blocks
      ensures used == old(Others()) && Mine() == multiset{} && Valid()
      ensures old(Counted()) ==> Counted() && blocks == 0
    {
      hide Unit, Freeing, Blocks, KidBlocks, NoData, Single, Wf, MapOk, OthersOf, Found, All;
      ghost var unit := Unit(per);
      ghost var ledger := Ledger(Mine(), used, blocks - |Mine()| * unit, unit);
      MapShape(disk, Rs(), per);
      forall j: nat
        ensures Found(disk, Rs(), per, j) == 0
      {
        assert At(j) == 0;
      }
      EmptyMap(disk, Rs(), per);
      ghost var b2, b3 := Blocks(disk, indirect[1], 2), Blocks(disk, indirect[2], 3);
      FreeStart(ledger, used, blocks);
      var fblock := indirect[0];
      if fblock != 0 {
        FreeNext(ledger, used, blocks, b3 + b2, fblock);
        FreeBlock(fblock);
        indirect := indirect[0 := 0];
      } else {
        assert b3 + b2 + multiset{} == b3 + b2;
      }
      FreeDouble(ledger, b3);
      assert multiset{} + b3 == b3;
      FreeTriple(ledger, multiset{});
      FreeEnd(ledger, used, blocks);
      assert indirect == [0, 0, 0];
      NothingLeft(disk, Rs(), per);
    }

    /** An empty file on a file system where `used` blocks are taken. */
    constructor (per: nat, total: u32, used: set<u32>)
      requires per > 0 && 0 !in used
      ensures Valid() && Tight() && size == 0 && Mine() == multiset{} && this.used == used
      ensures this.per == per && this.total == total && Counted() && disk == map[] && Rs() == NoBlocks()
    {
      this.per, this.total, this.used := per, total, used;
      direct, indirect := [0, 0, 0, 0, 0, 0, 0, 0, 0, 0, 0, 0], [0, 0, 0];
      size, blocks, disk := 0, 0, map[];
      new;
      hide MapOk, All, Found, CountOf, Limit;
      NoBytes(BlockSize());
      NothingLeft(disk, Rs(), per);
      forall j: nat
        ensures At(j) == 0
      {
        EmptyFound(disk, Rs(), per, j);
      }
    }

    /** Removing a file: truncated to nothing, then its inode freed. Every block that was its own,
        data or pointer block, is given back, once, and no other block is touched. */
    method Remove() returns (r: Errno)
      requires Valid() && Tight()
      modifies this`direct, this`indirect, this`disk, this`used, this`blocks, this`size
      ensures r == EOK && used == old(Others()) && Mine() == multiset{} && Valid()
      ensures old(Counted()) ==> Counted() && blocks == 0
    {
      hide MapOk, Single, All, Found, LevelOf, OthersOf, CountOf, Limit, Unit;
      r := Truncate(0);
      MapShape(disk, Rs(), per);
      NoBytes(BlockSize());
      FreeInode();
    }
  }

  /** The way to a block stays when a pointer in it is set to a new block. */
  lemma ReachesChild(disk: Disk, rs: Roots, per: nat, i: nat, cur: u32, lv: nat, s: nat, v: u32)
    requires MapOk(disk, rs, per) && var l := LevelOf(per, i); 1 <= lv <= l <= 3
    requires cur != 0 && cur in disk && s < |disk[cur]| && cur != v && v !in All(disk, rs)
    requires var l := LevelOf(per, i);
             Reaches(disk, per, rs.indirect[l - 1], l, i - Limit(per, l - 1), cur, lv)
    ensures var l := LevelOf(per, i);
            var disk1 := disk[v := Zeros(per)];
            Reaches(Pointed(disk1, cur, s, v), per, rs.indirect[l - 1], l, i - Limit(per, l - 1), cur, lv)
  {
    hide PerLevel, Limit, Reaches, Blocks, Zeros;
    var l := LevelOf(per, i);
    var off := i - Limit(per, l - 1);
    var disk1 := disk[v := Zeros(per)];
    AreaIs(disk, rs, l, v);
    ReachesFrame(disk, per, rs.indirect[l - 1], l, off, cur, lv, v, Zeros(per));
    OutsideChanged(disk, rs, per, v, Zeros(per));
    AreaSingle(disk1, rs, l);
    ReachesStill(disk1, per, rs.indirect[l - 1], l, off, cur, lv, Pointed(disk1, cur, s, v)[cur]);
  }

  lemma InBoth(a: multiset<u32>, c: multiset<u32>, b: multiset<u32>, v: multiset<u32>)
    requires a + c == b + v
    ensures forall x :: x in a ==> x in b || x in v
  {
    forall x | x in a
      ensures x in b || x in v
    {
      assert (a + c)[x] == (b + v)[x];
    }
  }

  lemma MapShape(disk: Disk, rs: Roots, per: nat)
    requires MapOk(disk, rs, per)
    ensures per > 0 && rs.Shaped()
  {
  }

  /** Where the descent ended for want of a block. */
  lemma DescentEnds(per: nat, total: u32, s0: Snap, s: Snap, i: nat, l: nat, gained: set<u32>)
    requires Descent(per, total, s0, s, i, l, gained) && forall b :: b in s0.Mine() ==> b in s0.used
    ensures MapOk(s.disk, s.rs, per) && 0 !in s.used && forall b :: b in s.Mine() ==> b in s.used
    ensures s.used == s0.used + gained && gained !! s0.used && forall b :: b in gained ==> 0 < b < total
    ensures s.Mine() == s0.Mine() + multiset(gained) && s.blocks == s0.blocks + |gained| * Unit(per)
    ensures forall j: nat :: Found(s.disk, s.rs, per, j) == Found(s0.disk, s0.rs, per, j)
  {
    hide MapOk, All, Found, Counting, Unit;
  }

  /** From the map at first, over new pointer blocks, to the data block set. */
  lemma DescentDone(per: nat, total: u32, s0: Snap, s: Snap, i: nat, gained: set<u32>, cur: u32, off: nat, slot: nat,
                    v: u32)
    requires Descent(per, total, s0, s, i, 1, gained) && forall b :: b in s0.Mine() ==> b in s0.used
    requires OnPath(s.disk, s.rs, per, i, cur, 1, off, slot) && cur in s.disk && slot < |s.disk[cur]|
    requires v != 0 && v in s0.used && v !in s0.Mine()
    ensures var disk := Pointed(s.disk, cur, slot, v);
            && MapOk(disk, s.rs, per) && 0 !in s.used && (forall b :: b in All(disk, s.rs) ==> b in s.used)
            && s.used == s0.used + gained && gained !! s0.used && (forall b :: b in gained ==> 0 < b < total)
            && s.blocks == s0.blocks + |gained| * Unit(per)
            && (forall j: nat :: Found(disk, s.rs, per, j) == if j == i then v else Found(s0.disk, s0.rs, per, j))
            && All(disk, s.rs) + One(Found(s0.disk, s0.rs, per, i)) == s0.Mine() + multiset(gained) + One(v)
            && |gained| == |Lacks(s0.disk, s0.rs, per, i)| && FilledFrom(s0.disk, s0.rs, disk, s.rs, per, i, 1)
  {
    hide MapOk, All, Found, OnPath, Pointed, FilledFrom, Unit, Counting;
    var disk := Pointed(s.disk, cur, slot, v);
    assert v !in s.Mine();
    PathData(s.disk, s.rs, per, i, cur, off, slot, v);
    InBoth(All(disk, s.rs), One(Found(s.disk, s.rs, per, i)), s.Mine(), One(v));
    DataFills(s.disk, s.rs, per, i, cur, off, slot, v);
    CountSame(s0.disk, s0.rs, s.disk, s.rs, disk, s.rs, per, i, 1, |gained|);
    CountDone(s0.disk, s0.rs, disk, s.rs, per, i, |gained|);
  }

  lemma CountDone(disk0: Disk, rs0: Roots, disk: Disk, rs: Roots, per: nat, i: nat, n: nat)
    requires Counting(disk0, rs0, disk, rs, per, i, 1, n)
    ensures n == |Lacks(disk0, rs0, per, i)| && FilledFrom(disk0, rs0, disk, rs, per, i, 1)
  {
    hide FilledFrom;
    assert LacksTo(disk0, rs0, per, i, 0) == {};
  }

  // ----- The places on the way

  lemma ChildFills(disk: Disk, rs: Roots, per: nat, i: nat, cur: u32, lv: nat, s: nat, v: u32)
    requires MapOk(disk, rs, per) && var l := LevelOf(per, i); 1 < lv <= l <= 3
    requires cur != 0 && cur in disk && s < |disk[cur]| && disk[cur][s] == 0
    requires var l := LevelOf(per, i);
             var off := i - Limit(per, l - 1);
             && Reaches(disk, per, rs.indirect[l - 1], l, off, cur, lv)
             && s == Slot(per, lv, Down(per, l, off, lv))
    requires v != 0 && v !in All(disk, rs)
    ensures var disk1 := disk[v := Zeros(per)];
            && cur in disk1 && s < |disk1[cur]|
            && forall pl :: Proper(pl) ==>
                 (Filled(Pointed(disk1, cur, s, v), rs, pl) <==> Filled(disk, rs, pl) || pl == PlaceOf(per, i, lv - 1))
  {
    hide PerLevel, Limit, Slot, Down, Reaches, All, Zeros, Filled, Proper, PlaceOf;
    CurInside(disk, rs, per, i, cur, lv);
    forall pl | Proper(pl)
      ensures var disk1 := disk[v := Zeros(per)];
              && cur in disk1 && s < |disk1[cur]|
              && (Filled(Pointed(disk1, cur, s, v), rs, pl) <==> Filled(disk, rs, pl) || pl == PlaceOf(per, i, lv - 1))
    {
      ChildFilled(disk, rs, per, i, cur, lv, s, v, pl);
    }
  }

  lemma RootFills(disk: Disk, rs: Roots, per: nat, i: nat, v: u32)
    requires MapOk(disk, rs, per) && var l := LevelOf(per, i); 1 <= l <= 3 && rs.indirect[l - 1] == 0
    requires v != 0 && v !in All(disk, rs)
    ensures var l := LevelOf(per, i);
            var disk', rs' := disk[v := Zeros(per)], rs.(indirect := rs.indirect[l - 1 := v]);
            forall pl :: Proper(pl) ==> (Filled(disk', rs', pl) <==> Filled(disk, rs, pl) || pl == PlaceOf(per, i, l))
  {
    hide All, Zeros, Filled, Proper, PlaceOf, MapOk, LevelOf;
    MapShape(disk, rs, per);
    var l := LevelOf(per, i);
    var disk', rs' := disk[v := Zeros(per)], rs.(indirect := rs.indirect[l - 1 := v]);
    forall pl | Proper(pl)
      ensures Filled(disk', rs', pl) <==> Filled(disk, rs, pl) || pl == PlaceOf(per, i, l)
    {
      RootFilled(disk, rs, per, i, v, pl);
    }
  }

  lemma DataFills(disk: Disk, rs: Roots, per: nat, i: nat, cur: u32, off: nat, s: nat, v: u32)
    requires MapOk(disk, rs, per) && OnPath(disk, rs, per, i, cur, 1, off, s)
    requires cur in disk && s < |disk[cur]| && v !in All(disk, rs)
    ensures forall pl :: Proper(pl) ==> (Filled(Pointed(disk, cur, s, v), rs, pl) <==> Filled(disk, rs, pl))
  {
    hide PerLevel, Limit, Slot, Reaches, Down, All, Filled, Proper;
    CurInside(disk, rs, per, i, cur, 1);
    forall pl | Proper(pl)
      ensures Filled(Pointed(disk, cur, s, v), rs, pl) <==> Filled(disk, rs, pl)
    {
      DataFilled(disk, rs, per, i, cur, s, v, pl);
    }
  }

  /** A direct block needs no pointer block. */
  lemma DirectFills(disk: Disk, rs: Roots, per: nat, i: nat, v: u32)
    requires i < DIRECT_COUNT && rs.Shaped()
    ensures Lacks(disk, rs, per, i) == {}
    ensures FilledFrom(disk, rs, disk, rs.(direct := rs.direct[i := v]), per, i, 1)
  {
    hide Follow, Way;
  }

  /** Whether the next place on the way is empty, is seen in the pointer block before it. */
  lemma PlaceAt(disk: Disk, rs: Roots, per: nat, i: nat, cur: u32, l: nat, off: nat, slot: nat)
    requires MapOk(disk, rs, per) && OnPath(disk, rs, per, i, cur, l, off, slot) && l > 1
    requires cur in disk && slot < |disk[cur]|
    ensures Filled(disk, rs, PlaceOf(per, i, l - 1)) <==> disk[cur][slot] != 0
  {
    hide PerLevel, Limit, Slot, Rest, Reaches, Down, Way, Follow, All;
    var top := LevelOf(per, i);
    ReachesOn(disk, per, rs.indirect[top - 1], top, i - Limit(per, top - 1), cur, l);
    ReachesFollow(disk, per, rs.indirect[top - 1], top, i - Limit(per, top - 1), disk[cur][slot], l - 1);
  }

  lemma SomeLacking(disk: Disk, rs: Roots, per: nat, i: nat, l: nat)
    requires 1 <= l <= LevelOf(per, i) <= 3 && !Filled(disk, rs, PlaceOf(per, i, l))
    ensures Lacks(disk, rs, per, i) != {}
  {
    hide Filled, PlaceOf, LevelOf;
    assert OnWay(per, i, Depth(per, i), PlaceOf(per, i, l));
  }

  lemma PlaceAtRoot(disk: Disk, rs: Roots, per: nat, i: nat)
    requires rs.Shaped() && 1 <= LevelOf(per, i) <= 3
    ensures var l := LevelOf(per, i); Filled(disk, rs, PlaceOf(per, i, l)) <==> rs.indirect[l - 1] != 0
  {
    hide Limit, PerLevel;
  }

  lemma LevelRange(per: nat, i: nat)
    requires 1 <= LevelOf(per, i) <= 3
    ensures var l := LevelOf(per, i); Limit(per, l - 1) <= i && i - Limit(per, l - 1) < PerLevel(per, l)
  {
  }

  /** The walk to logical block `i` stands at pointer block `cur` of level `l`, with `off` left
      of the offset, and is to follow `slot`. */
  ghost predicate OnPath(disk: Disk, rs: Roots, per: nat, i: nat, cur: u32, l: nat, off: nat, slot: nat) {
    var top := LevelOf(per, i);
    && 1 <= l <= top <= 3 && rs.Shaped() && per > 0 && cur != 0
    && Reaches(disk, per, rs.indirect[top - 1], top, i - Limit(per, top - 1), cur, l)
    && off == Down(per, top, i - Limit(per, top - 1), l) && off < PerLevel(per, l) && slot == Slot(per, l, off)
  }

  lemma StartOfPath(disk: Disk, rs: Roots, per: nat, i: nat, cur: u32, slot: nat)
    requires per > 0 && rs.Shaped() && 1 <= LevelOf(per, i) <= 3 && cur != 0
    requires var l := LevelOf(per, i);
             rs.indirect[l - 1] == cur && slot == Slot(per, l, i - Limit(per, l - 1))
    ensures var l := LevelOf(per, i); OnPath(disk, rs, per, i, cur, l, i - Limit(per, l - 1), slot)
  {
    hide PerLevel, Limit, Slot;
  }

  lemma PathFacts(disk: Disk, rs: Roots, per: nat, i: nat, cur: u32, l: nat, off: nat, slot: nat)
    requires MapOk(disk, rs, per) && OnPath(disk, rs, per, i, cur, l, off, slot)
    ensures cur in disk && slot < |disk[cur]| && per > 0
  {
    hide PerLevel, Limit, Slot, Reaches, Down;
    CurInside(disk, rs, per, i, cur, l);
    LookupStep(disk, per, cur, l, off);
  }

  lemma PathOn(disk: Disk, rs: Roots, per: nat, i: nat, cur: u32, l: nat, off: nat, slot: nat, off': nat, slot': nat)
    requires MapOk(disk, rs, per) && OnPath(disk, rs, per, i, cur, l, off, slot) && l > 1
    requires cur in disk && slot < |disk[cur]| && disk[cur][slot] != 0
    requires off' == Rest(per, l, off) && slot' == Slot(per, l - 1, off')
    ensures OnPath(disk, rs, per, i, disk[cur][slot], l - 1, off', slot')
  {
    hide PerLevel, Limit, Slot, Rest, Reaches, Down;
    var top := LevelOf(per, i);
    SlotRest(per, l, off);
    ReachesOn(disk, per, rs.indirect[top - 1], top, i - Limit(per, top - 1), cur, l);
  }

  lemma PathData(disk: Disk, rs: Roots, per: nat, i: nat, cur: u32, off: nat, slot: nat, v: u32)
    requires MapOk(disk, rs, per) && OnPath(disk, rs, per, i, cur, 1, off, slot)
    requires cur in disk && slot < |disk[cur]| && v !in All(disk, rs)
    ensures SetTo(disk, rs, Pointed(disk, cur, slot, v), rs, per, i, v)
    ensures Found(disk, rs, per, i) == disk[cur][slot]
  {
    hide PerLevel, Limit, Slot, Reaches, Down, Found, All, MapOk, SetTo, Blocks;
    DataSet(disk, rs, per, i, cur, slot, v);
  }

  lemma DataLevel(disk: Disk, per: nat, b: u32, off: nat)
    ensures Lookup(disk, per, b, 0, off) == b
  {
  }

  /** Blocks that a size takes. */
  function CountOf(bytes: nat, bs: nat): nat {
    if bs == 0 then 0 else (bytes + bs - 1) / bs
  }

  lemma Aligned(size: nat, bs: nat, aligned: nat, idx: nat)
    requires bs > 0 && idx == aligned / bs
    requires aligned == if size % bs != 0 then size + (bs - size % bs) else size
    ensures aligned == idx * bs && idx == CountOf(size, bs)
    ensures CountOf(aligned + bs, bs) == idx + 1 && aligned + bs == (idx + 1) * bs
  {
    var q, m := size / bs, size % bs;
    DivModIs(size, bs);
    assert q * bs + m == size;
    if m != 0 {
      Times(q, bs);
      Times(q + 1, bs);
      DivOf(q + 1, bs, m - 1);
      DivOf(q + 1, bs, 0);
      DivOf(q + 2, bs, bs - 1);
    } else {
      Times(q, bs);
      DivOf(q, bs, 0);
      DivOf(q, bs, bs - 1);
      DivOf(q + 1, bs, bs - 1);
    }
  }

  lemma DivModIs(x: nat, p: nat)
    requires p > 0
    ensures x == (x / p) * p + x % p && x % p < p
  {
  }

  lemma Times(k: nat, p: nat)
    ensures (k + 1) * p == k * p + p
  {
  }

  lemma DivOf(k: nat, p: nat, r: nat)
    requires r < p
    ensures (k * p + r) / p == k
  {
    SumDivMod(k, p, r, k + 1);
  }

  /** What is used but not the file's stays, whether a block allocated for data went into the
      map or is given back. */
  lemma OthersDone(all0: multiset<u32>, used0: set<u32>, phys: u32, gained: set<u32>, all: multiset<u32>,
          used: set<u32>)
    requires (forall b :: b in all0 ==> b in used0) && phys !in used0 && phys != 0 && gained !! used0 + {phys}
    requires all + One(0) == all0 + multiset(gained) + One(phys) && used == used0 + {phys} + gained
    ensures OthersOf(used, all) == OthersOf(used0, all0)
  {
    assert all == all + One(0);
  }

  lemma OthersFail(all0: multiset<u32>, used0: set<u32>, phys: u32, gained: set<u32>, all: multiset<u32>,
          used: set<u32>)
    requires (forall b :: b in all0 ==> b in used0) && phys !in used0 && gained !! used0 + {phys}
    requires all == all0 + multiset(gained) && used == used0 + {phys} + gained
    ensures OthersOf(used - {phys}, all) == OthersOf(used0, all0) && phys !in all
  {
  }

  /** The pointers of an empty inode. */
  function NoBlocks(): Roots { Roots([0, 0, 0, 0, 0, 0, 0, 0, 0, 0, 0, 0], [0, 0, 0]) }

  lemma NoneLacking(disk: Disk, rs: Roots, per: nat, i: nat)
    ensures LevelOf(per, i) == 4 ==> Lacks(disk, rs, per, i) == {}
  {
    assert forall pl :: !OnWay(per, i, 0, pl);
  }

  lemma NoneFree(used: set<u32>, total: u32)
    ensures AllUsed(used, total) <==> FreeCount(used, total) == 0
  {
    var f := FreeSet(used, total);
    if |f| == 0 {
      assert f == {};
      forall b: u32 | 0 < b < total
        ensures b in used
      {
        assert b !in f;
      }
    }
  }

  lemma FreeAfter(used0: set<u32>, total: u32, phys: u32, gained: set<u32>, used: set<u32>)
    requires phys !in used0 && 0 < phys < total && gained !! used0 + {phys} && used == used0 + {phys} + gained
    requires forall b :: b in gained ==> 0 < b < total
    ensures FreeCount(used, total) == FreeCount(used0, total) - 1 - |gained|
    ensures AllUsed(used, total) <==> FreeCount(used, total) == 0
  {
    hide FreeCount, AllUsed;
    FreeLess(used0, total, {phys});
    FreeLess(used0 + {phys}, total, gained);
    NoneFree(used, total);
  }

  lemma StillShort(disk: Disk, rs: Roots, per: nat, used: set<u32>, total: u32, phys: u32, i: nat)
    requires LevelOf(per, i) == 4 || (Lacks(disk, rs, per, i) != {} && AllUsed(used + {phys}, total))
    requires 0 < phys < total && phys !in used
    ensures Short(disk, rs, per, used, total, i, 1)
  {
    hide Lacks, FreeCount, AllUsed, LevelOf;
    FreeLess(used, total, {phys});
    NoneFree(used + {phys}, total);
    ShortNow(disk, rs, per, used, total, i, 1);
  }

  lemma CountMore(all0: multiset<u32>, all: multiset<u32>, gained: set<u32>, phys: u32, unit: nat)
    requires all + One(0) == all0 + multiset(gained) + One(phys) && phys != 0
    ensures |all| * unit == |all0| * unit + |gained| * unit + unit
  {
    assert |all| == |all + One(0)| == |all0| + |gained| + 1;
    SumTimes(|all0|, |gained|, unit);
    Times(|all0| + |gained|, unit);
  }

  lemma CountFail(all0: multiset<u32>, all: multiset<u32>, gained: set<u32>, unit: nat)
    requires all == all0 + multiset(gained)
    ensures |all| * unit == |all0| * unit + |gained| * unit
  {
    SumTimes(|all0|, |gained|, unit);
  }

  lemma CountLess(all0: multiset<u32>, all: multiset<u32>, b: u32, unit: nat)
    requires all0 == all + multiset{b}
    ensures |all0| * unit == |all| * unit + unit
  {
    Times(|all|, unit);
  }

  lemma SumTimes(a: nat, b: nat, p: nat)
    ensures (a + b) * p == a * p + b * p
  {
  }

  lemma NoneLeft(used: set<u32>, total: u32)
    ensures AllUsed(used, total) ==> Exhausted(used, total)
  {
  }

  lemma OneGivenBack(used: set<u32>, total: u32, b: u32)
    ensures AllUsed(used, total) ==> Exhausted(used - {b}, total)
  {
  }

  /** A data block was taken, and pointer blocks with it. */
  ghost predicate Took(total: u32, s0: Snap, s: Snap, phys: u32, gained: set<u32>) {
    && (forall b :: b in s0.Mine() ==> b in s0.used) && phys !in s0.used && 0 < phys < total
    && s.used == s0.used + {phys} + gained && gained !! s0.used + {phys} && forall b :: b in gained ==> 0 < b < total
  }

  lemma FillEnds(per: nat, total: u32, s0: Snap, s: Snap, i: nat, phys: u32, gained: set<u32>)
    requires Took(total, s0, s, phys, gained) && |gained| == |Lacks(s0.disk, s0.rs, per, i)|
    requires s.Mine() + One(0) == s0.Mine() + multiset(gained) + One(phys)
    ensures OthersOf(s.used, s.Mine()) == OthersOf(s0.used, s0.Mine())
    ensures FreeCount(s.used, total) == FreeCount(s0.used, total) - 1 - |Lacks(s0.disk, s0.rs, per, i)|
    ensures |s.Mine()| * Unit(per) == |s0.Mine()| * Unit(per) + |gained| * Unit(per) + Unit(per)
  {
    hide FreeCount, Lacks, OthersOf, All, AllUsed, One;
    OthersDone(s0.Mine(), s0.used, phys, gained, s.Mine(), s.used);
    FreeAfter(s0.used, total, phys, gained, s.used);
    CountMore(s0.Mine(), s.Mine(), gained, phys, Unit(per));
  }

  lemma FillFails(per: nat, total: u32, s0: Snap, s: Snap, i: nat, phys: u32, gained: set<u32>)
    requires Took(total, s0, s, phys, gained) && s.Mine() == s0.Mine() + multiset(gained)
    requires if LevelOf(per, i) == 4 then gained == {} else
             && AllUsed(s.used, total) && |gained| < |Lacks(s0.disk, s0.rs, per, i)|
             && Lacks(s.disk, s.rs, per, i) != {}
    ensures OthersOf(s.used - {phys}, s.Mine()) == OthersOf(s0.used, s0.Mine()) && phys !in s.Mine()
    ensures FreeCount(s0.used, total) > 0
    ensures LevelOf(per, i) != 4 ==> FreeCount(s0.used, total) < 1 + |Lacks(s0.disk, s0.rs, per, i)|
    ensures LevelOf(per, i) != 4 ==> Exhausted(s.used - {phys}, total)
    ensures Short(s.disk, s.rs, per, s.used - {phys}, total, i, 1)
    ensures |s.Mine()| * Unit(per) == |s0.Mine()| * Unit(per) + |gained| * Unit(per)
  {
    hide FreeCount, Lacks, OthersOf, All, LevelOf, Short, AllUsed, Exhausted;
    OthersFail(s0.Mine(), s0.used, phys, gained, s.Mine(), s.used);
    FreeAfter(s0.used, total, phys, gained, s.used);
    CountFail(s0.Mine(), s.Mine(), gained, Unit(per));
    OneGivenBack(s.used, total, phys);
    assert s.used - {phys} + {phys} == s.used;
    StillShort(s.disk, s.rs, per, s.used - {phys}, total, phys, i);
  }

  lemma NoZero(disk: Disk, rs: Roots)
    ensures 0 !in All(disk, rs)
  {
    hide KidBlocks, Blocks;
    NoZeroKids(disk, rs.direct, 0);
    forall a | 1 <= a <= 3 && a - 1 < |rs.indirect|
      ensures 0 !in Area(disk, rs, a)
    {
      NoZeroBelow(disk, rs.indirect[a - 1], a);
    }
  }

  lemma {:induction false} NoZeroBelow(disk: Disk, root: u32, d: nat)
    ensures 0 !in Blocks(disk, root, d)
    decreases d, 1, 0
  {
    if root != 0 && d > 0 && root in disk { NoZeroKids(disk, disk[root], d - 1); }
  }

  lemma {:induction false} NoZeroKids(disk: Disk, kids: seq<u32>, d: nat)
    ensures 0 !in KidBlocks(disk, kids, d)
    decreases d, 2, |kids|
  {
    if kids != [] {
      NoZeroBelow(disk, kids[0], d);
      NoZeroKids(disk, kids[1..], d);
    }
  }

  lemma DirectLevel(disk: Disk, rs: Roots, per: nat, i: nat)
    requires rs.Shaped()
    ensures LevelOf(per, i) == 0 <==> i < DIRECT_COUNT
    ensures i < DIRECT_COUNT ==> Found(disk, rs, per, i) == rs.direct[i]
  {
    hide PerLevel, Limit, Lookup;
  }

  lemma RootHole(disk: Disk, rs: Roots, per: nat, i: nat)
    requires rs.Shaped() && 1 <= LevelOf(per, i) <= 3 && rs.indirect[LevelOf(per, i) - 1] == 0
    ensures Found(disk, rs, per, i) == 0
  {
    hide PerLevel, Limit;
  }

  /** What the walk has still to find. */
  lemma PathHole(disk: Disk, rs: Roots, per: nat, i: nat, cur: u32, l: nat, off: nat, slot: nat)
    requires MapOk(disk, rs, per) && OnPath(disk, rs, per, i, cur, l, off, slot)
    requires cur in disk && slot < |disk[cur]|
    ensures disk[cur][slot] == 0 ==> Found(disk, rs, per, i) == 0
    ensures l == 1 ==> Found(disk, rs, per, i) == disk[cur][slot]
  {
    hide PerLevel, Limit, Slot, Rest, Down;
    var top := LevelOf(per, i);
    PathLookup(disk, per, rs.indirect[top - 1], top, i - Limit(per, top - 1), cur, l);
  }

  lemma {:induction false} PathLookup(disk: Disk, per: nat, root: u32, d: nat, off: nat, cur: u32, l: nat)
    requires Reaches(disk, per, root, d, off, cur, l) && l <= d
    ensures Lookup(disk, per, root, d, off) == Lookup(disk, per, cur, l, Down(per, d, off, l))
    decreases d
  {
    hide PerLevel, Slot, Rest;
    if d > l { PathLookup(disk, per, disk[root][Slot(per, d, off)], d - 1, Rest(per, d, off), cur, l); }
  }

  /** A data block left the map. */
  lemma OneGone(disk0: Disk, rs0: Roots, disk: Disk, rs: Roots, per: nat, i: nat, used0: set<u32>)
    requires SetTo(disk0, rs0, disk, rs, per, i, 0) && Found(disk0, rs0, per, i) != 0
    requires MapOk(disk0, rs0, per) && forall b :: b in All(disk0, rs0) ==> b in used0
    ensures var b := Found(disk0, rs0, per, i);
            && MapOk(disk, rs, per) && b in used0 && All(disk0, rs0) == All(disk, rs) + multiset{b}
            && (forall x :: x in All(disk, rs) ==> x in used0 - {b})
            && OthersOf(used0 - {b}, All(disk, rs)) == OthersOf(used0, All(disk0, rs0))
            && (forall j: nat :: Found(disk, rs, per, j) == if j == i then 0 else Found(disk0, rs0, per, j))
  {
    hide All, Found;
    var b := Found(disk0, rs0, per, i);
    var m, m0 := All(disk, rs), All(disk0, rs0);
    forall x: u32
      ensures m0[x] == m[x] + (if x == b then 1 else 0)
    {
      assert (m + One(b))[x] == (m0 + One(0))[x];
    }
  }

  lemma CountGrows(a: nat, b: nat, bs: nat)
    requires a <= b
    ensures CountOf(a, bs) <= CountOf(b, bs)
  {
    if bs > 0 {
      var x, y := a + bs - 1, b + bs - 1;
      if x / bs > y / bs {
        TimesLess(y / bs + 1, x / bs, bs);
      }
    }
  }

  /** All blocks of a file, the used blocks there were, and what the inode's count comes to when each
      of them is given back. */
  datatype Ledger = Ledger(all: multiset<u32>, used0: set<u32>, base: int, unit: nat)

  /** Of the blocks of the file, those in `rest` have still to be given back. */
  ghost predicate Freeing(l: Ledger, used: set<u32>, blocks: int, rest: multiset<u32>) {
    && Single(l.all) && rest <= l.all && (forall b :: b in l.all ==> b in l.used0)
    && (forall b :: b in used <==> b in l.used0 && (b in l.all ==> b in rest))
    && blocks == l.base + |rest| * l.unit
  }

  lemma FreeStart(l: Ledger, used: set<u32>, blocks: int)
    requires Single(l.all) && (forall b :: b in l.all ==> b in used) && used == l.used0
    requires blocks == l.base + |l.all| * l.unit
    ensures Freeing(l, used, blocks, l.all)
  {
  }

  lemma FreeNext(l: Ledger, used: set<u32>, blocks: int, rest: multiset<u32>, b: u32)
    requires Freeing(l, used, blocks, rest + multiset{b})
    ensures b in used && Freeing(l, used - {b}, blocks - l.unit, rest)
  {
    var more := rest + multiset{b};
    assert more[b] == rest[b] + 1 && more[b] <= l.all[b] <= 1;
    forall x: u32
      ensures rest[x] <= l.all[x] && (x in rest <==> x in more && x != b)
    {
      assert more[x] <= l.all[x];
    }
    Times(|rest|, l.unit);
  }

  lemma FreeEnd(l: Ledger, used: set<u32>, blocks: int)
    requires Freeing(l, used, blocks, multiset{})
    ensures used == OthersOf(l.used0, l.all) && used <= l.used0 && blocks == l.base
  {
  }

  lemma NextKid(disk: Disk, kids: seq<u32>, k: nat, d: nat, rest: multiset<u32>)
    requires k < |kids|
    ensures rest + KidBlocks(disk, kids[k..], d)
         == rest + KidBlocks(disk, kids[k + 1..], d) + Blocks(disk, kids[k], d)
  {
    assert kids[k..][0] == kids[k] && kids[k..][1..] == kids[k + 1..];
  }

  lemma NoKidLeft(disk: Disk, kids: seq<u32>, k: nat, d: nat, rest: multiset<u32>)
    requires k == |kids|
    ensures rest + KidBlocks(disk, kids[k..], d) == rest
  {
  }

  lemma BlocksOf(disk: Disk, root: u32, d: nat)
    requires d > 0
    ensures Blocks(disk, root, d) ==
              if root == 0 then multiset{}
              else if root !in disk then multiset{root}
              else multiset{root} + KidBlocks(disk, disk[root], d - 1)
  {
  }

  /** A map in which every logical block is a hole. */
  lemma EmptyMap(disk: Disk, rs: Roots, per: nat)
    requires MapOk(disk, rs, per) && forall j: nat :: Found(disk, rs, per, j) == 0
    ensures Single(All(disk, rs))
    ensures All(disk, rs) == Blocks(disk, rs.indirect[2], 3) + Blocks(disk, rs.indirect[1], 2) + One(rs.indirect[0])
    ensures NoData(disk, per, rs.indirect[1], 2) && NoData(disk, per, rs.indirect[2], 3)
    ensures forall k :: 0 <= k < DIRECT_COUNT ==> rs.direct[k] == 0
  {
    hide KidBlocks, Blocks, PerLevel, Limit, Lookup, Found;
    forall k | 0 <= k < DIRECT_COUNT
      ensures rs.direct[k] == 0
    {
      assert Found(disk, rs, per, k) == 0;
      DirectLevel(disk, rs, per, k);
    }
    NoKids(disk, rs.direct, 0);
    TreeEmpty(disk, rs, per, 1);
    TreeEmpty(disk, rs, per, 2);
    TreeEmpty(disk, rs, per, 3);
    NoDataBelow(disk, per, rs.indirect[0]);
  }

  lemma TreeEmpty(disk: Disk, rs: Roots, per: nat, l: nat)
    requires MapOk(disk, rs, per) && 1 <= l <= 3 && forall j: nat :: Found(disk, rs, per, j) == 0
    ensures NoData(disk, per, rs.indirect[l - 1], l)
  {
    hide PerLevel, All, Lookup;
    assert AreaWf(disk, rs, per, l);
    var root := rs.indirect[l - 1];
    forall off: nat | off < PerLevel(per, l)
      ensures Lookup(disk, per, root, l, off) == 0
    {
      assert Found(disk, rs, per, Limit(per, l - 1) + off) == 0;
      LevelOfSum(per, l, off);
    }
    AllHoles(disk, per, root, l);
  }

  lemma LevelOfSum(per: nat, l: nat, off: nat)
    requires 1 <= l <= 3 && off < PerLevel(per, l)
    ensures LevelOf(per, Limit(per, l - 1) + off) == l
  {
    hide PerLevel;
  }

  lemma NothingLeft(disk: Disk, rs: Roots, per: nat)
    requires per > 0 && rs.Shaped() && rs.indirect == [0, 0, 0] && forall k :: 0 <= k < DIRECT_COUNT ==>
            rs.direct[k] == 0
    ensures All(disk, rs) == multiset{} && MapOk(disk, rs, per)
  {
    hide KidBlocks, PerLevel;
    NoKids(disk, rs.direct, 0);
    assert forall a :: 1 <= a <= 3 ==> Area(disk, rs, a) == multiset{} && AreaWf(disk, rs, per, a);
  }

  lemma NoBytes(bs: nat)
    requires bs > 0
    ensures CountOf(0, bs) == 0
  {
  }

  lemma EmptyFound(disk: Disk, rs: Roots, per: nat, j: nat)
    requires rs.indirect == [0, 0, 0] && rs.Shaped() && forall k :: 0 <= k < DIRECT_COUNT ==> rs.direct[k] == 0
    ensures Found(disk, rs, per, j) == 0
  {
    hide PerLevel, Limit;
  }

  /** A file of up to `n` blocks, made and removed. The `grown` data blocks it got are different
      ones that were free, it got no others than those `taken`, and those are free again; the inode
      counts none. It stops growing just if the map ends before that, or the blocks with the pointer
      blocks they need are more than were free. */
  method Lifetime(per: nat, total: u32, used: set<u32>, n: nat)
    returns (f: InodeRef, grown: nat, ghost blocks: seq<u32>, ghost taken: set<u32>)
    requires per > 0 && 0 !in used
    ensures f.used == used && grown == |blocks| <= n && f.blocks == 0
    ensures taken !! used && forall i :: 0 <= i < grown ==> blocks[i] in taken && 0 < blocks[i] < total
    ensures forall i, j :: 0 <= i < j < grown ==> blocks[i] != blocks[j]
    ensures grown < n <==> Short(map[], NoBlocks(), per, used, total, 0, n)
    ensures grown < n ==> LevelOf(per, grown) == 4 || Exhausted(used + taken, total)
  {
    hide MapOk, Single, All, Found, LevelOf, OthersOf, CountOf, Limit, Exhausted, Short, Lacks, FilledFrom, FreeCount,
        Unit;
    f := new InodeRef(per, total, used);
    NoneOf(used);
    NoBytes(f.BlockSize());
    grown, blocks := 0, [];
    ghost var short := Short(map[], NoBlocks(), per, used, total, 0, n);
    var full := false;
    while grown < n && !full
      invariant fresh(f) && f.per == per && f.total == total && f.Valid() && f.Tight() && f.Others() == used
      invariant used <= f.used && grown == |blocks| <= n && CountOf(f.size, f.BlockSize()) == grown && f.Counted()
      invariant forall i :: 0 <= i < grown ==> blocks[i] in f.used && blocks[i] !in used && 0 < blocks[i] < total
      invariant forall i, j :: 0 <= i < j < grown ==> blocks[i] != blocks[j]
      invariant full ==> grown < n && short && (LevelOf(per, grown) == 4 || Exhausted(f.used, total))
      invariant !full ==> (short <==> Short(f.disk, f.Rs(), per, f.used, total, grown, n - grown))
      decreases n - grown, !full
    {
      ghost var s := f.S();
      var e, b, k := f.Append();
      if e == EOK {
        WholeBlocks(grown + 1, f.BlockSize());
        ShortStep(s.disk, s.rs, s.used, f.disk, f.Rs(), f.used, per, total, grown, n - grown);
        grown, blocks := grown + 1, blocks + [b];
      } else {
        ShortNow(s.disk, s.rs, per, s.used, total, grown, n - grown);
        full := true;
      }
    }
    NotShort(f.disk, f.Rs(), per, f.used, total, grown);
    taken := f.used - used;
    assert used + taken == f.used;
    var r := f.Remove();
  }

  lemma NotShort(disk: Disk, rs: Roots, per: nat, used: set<u32>, total: u32, i: nat)
    ensures !Short(disk, rs, per, used, total, i, 0)
  {
  }

  lemma WholeBlocks(n: nat, bs: nat)
    requires bs > 0
    ensures CountOf(n * bs, bs) == n
  {
    DivOf(n, bs, bs - 1);
  }

  lemma NoneOf(used: set<u32>)
    ensures OthersOf(used, multiset{}) == used
  {
  }

  lemma LevelBound(per: nat, i: nat)
    ensures LevelOf(per, i) == 4 <==> i >= Limit(per, 3)
  {
    hide PerLevel;
    assert Limit(per, 3) == Limit(per, 2) + PerLevel(per, 3);
    assert Limit(per, 2) == Limit(per, 1) + PerLevel(per, 2);
    assert Limit(per, 1) == Limit(per, 0) + PerLevel(per, 1);
  }

  // ----- How far a file can grow

  /** A file of `have` blocks cannot grow to `want` blocks. */
  predicate TooMany(per: nat, total: u32, s: Snap, have: nat, want: nat) {
    want > have && Short(s.disk, s.rs, per, s.used, total, have, want - have)
  }

  /** What it cannot grow to is the same. */
  ghost predicate SameLimit(per: nat, total: u32, s: Snap, have: nat, s': Snap, have': nat) {
    forall n: nat :: TooMany(per, total, s', have', n) <==> TooMany(per, total, s, have, n)
  }

  lemma LimitStays(per: nat, total: u32, s: Snap, s': Snap, have: nat)
    requires FilledFrom(s.disk, s.rs, s'.disk, s'.rs, per, have, 1) && LevelOf(per, have) != 4
    requires FreeCount(s'.used, total) == FreeCount(s.used, total) - 1 - |Lacks(s.disk, s.rs, per, have)|
    ensures SameLimit(per, total, s, have, s', have + 1)
  {
    hide FilledFrom, LevelOf, Lacks, FreeCount, Short;
    forall n: nat
      ensures TooMany(per, total, s', have + 1, n) <==> TooMany(per, total, s, have, n)
    {
      if n > have { ShortStep(s.disk, s.rs, s.used, s'.disk, s'.rs, s'.used, per, total, have, n - have); }
      NotShort(s'.disk, s'.rs, per, s'.used, total, have + 1);
    }
  }

  /** At the limit, no more blocks will do, before and after a failed attempt. */
  lemma LimitReached(per: nat, total: u32, s: Snap, have: nat)
    requires Short(s.disk, s.rs, per, s.used, total, have, 1)
    ensures forall n: nat :: TooMany(per, total, s, have, n) <==> n > have
  {
    hide Short;
    OneIsShort(s.disk, s.rs, per, s.used, total, have);
    forall n: nat | n > have
      ensures TooMany(per, total, s, have, n)
    {
      ShortNow(s.disk, s.rs, per, s.used, total, have, n - have);
    }
  }

  lemma LimitStands(per: nat, total: u32, s: Snap, s': Snap, have: nat)
    requires LevelOf(per, have) == 4 || FreeCount(s.used, total) < 1 + |Lacks(s.disk, s.rs, per, have)|
    requires Short(s'.disk, s'.rs, per, s'.used, total, have, 1)
    ensures SameLimit(per, total, s, have, s', have)
  {
    hide Short, FreeCount, Lacks, LevelOf, TooMany;
    OneIsShort(s.disk, s.rs, per, s.used, total, have);
    LimitReached(per, total, s, have);
    LimitReached(per, total, s', have);
  }

  lemma LimitSame(per: nat, total: u32, s: Snap, have: nat)
    ensures SameLimit(per, total, s, have, s, have)
  {
  }

  lemma LimitTrans(per: nat, total: u32, s: Snap, have: nat, s': Snap, have': nat, s'': Snap, have'': nat)
    requires SameLimit(per, total, s, have, s', have') && SameLimit(per, total, s', have', s'', have'')
    ensures SameLimit(per, total, s, have, s'', have'')
  {
    hide TooMany;
  }

  lemma OneIsShort(disk: Disk, rs: Roots, per: nat, used: set<u32>, total: u32, i: nat)
    ensures Short(disk, rs, per, used, total, i, 1) <==>
            LevelOf(per, i) == 4 || 1 + |Lacks(disk, rs, per, i)| > FreeCount(used, total)
  {
    hide Lacks, FreeCount, LevelOf;
    assert LacksAll(disk, rs, per, i + 1, 0) == {};
    assert Lacks(disk, rs, per, i) + {} == Lacks(disk, rs, per, i);
  }
}
