/** The inode allocator: for each block group a bitmap, the counts of free inodes and of
    directories, and how many inodes at the end of the group were never used. */
module InodeAlloc {
  import opened Bitmap
  import opened BlockGroups
  import opened GroupCounts

  datatype Errno = EOK | ENOSPC

  /** What the superblock says of the inodes. */
  datatype Inodes = Inodes(groups: nat, total: nat, perGroup: nat, blockSize: nat)
  {
    predicate Ok() {
      && 0 < groups && 0 < perGroup <= 8 * blockSize
      && (groups - 1) * perGroup < total <= groups * perGroup && total < WORD32
    }

    /** `ext4_ialloc_inode_to_bgidx`. */
    function ToIdx(inode: nat): nat
      requires perGroup > 0 && inode > 0
    {
      (inode - 1) % perGroup
    }

    /** `ext4_ialloc_get_bgid_of_inode`. */
    function GroupOf(inode: nat): nat
      requires perGroup > 0 && inode > 0
    {
      (inode - 1) / perGroup
    }

    /** `ext4_ialloc_bgidx_to_inode`, in 32-bit words. */
    function ToInode(index: nat, bgid: nat): nat {
      (bgid * perGroup + (index + 1)) % WORD32
    }

    /** `ext4_inodes_in_group_cnt`. */
    function InodesIn(bgid: nat): nat
      requires Ok() && bgid < groups
    {
      if bgid < groups - 1 then perGroup else total - (groups - 1) * perGroup
    }
  }

  type Table = t: Inodes | t.Ok() witness Inodes(1, 8, 8, 1)

  /** From group and index to the number, and back. */
  lemma IdxRoundTrip(t: Table, bgid: nat, index: nat)
    requires bgid < t.groups && index < t.InodesIn(bgid)
    ensures 1 <= t.ToInode(index, bgid) <= t.total
    ensures t.GroupOf(t.ToInode(index, bgid)) == bgid && t.ToIdx(t.ToInode(index, bgid)) == index
  {
    InTable(t, bgid, index);
    assert t.perGroup * bgid == bgid * t.perGroup;
    RowIs(t.perGroup, bgid, index);
  }

  lemma InTable(t: Table, bgid: nat, index: nat)
    requires bgid < t.groups && index < t.InodesIn(bgid)
    ensures index < t.perGroup && bgid * t.perGroup + index + 1 <= t.total
    ensures t.ToInode(index, bgid) == bgid * t.perGroup + index + 1
  {
    var last := t.groups - 1;
    assert t.groups * t.perGroup == last * t.perGroup + t.perGroup;
    if bgid < last {
      RowLess(t.perGroup, bgid + 1, last);
      assert (bgid + 1) * t.perGroup == bgid * t.perGroup + t.perGroup;
    }
    Small(bgid * t.perGroup + index + 1);
  }

  /** From the number to group and index, and back. */
  lemma InodeRoundTrip(t: Table, inode: nat)
    requires 1 <= inode <= t.total
    ensures t.GroupOf(inode) < t.groups && t.ToIdx(inode) < t.InodesIn(t.GroupOf(inode))
    ensures t.ToInode(t.ToIdx(inode), t.GroupOf(inode)) == inode
  {
    RowOf(inode - 1, t.perGroup);
    var b, last := t.GroupOf(inode), t.groups - 1;
    assert t.perGroup * b == b * t.perGroup && t.groups * t.perGroup == t.perGroup * t.groups;
    if b >= t.groups { RowLess(t.perGroup, t.groups, b); }
    Small(inode);
  }

  ghost function Sizes(t: Table): (s: seq<nat>)
    ensures |s| == t.groups && forall g :: 0 <= g < |s| ==> s[g] == t.InodesIn(g)
  {
    seq(t.groups, g requires 0 <= g < t.groups => t.InodesIn(g))
  }

  lemma SizesFit(t: Table, g: nat)
    requires g < t.groups
    ensures 0 < t.InodesIn(g) <= 8 * t.blockSize
  {
    var last := t.groups - 1;
    assert t.groups * t.perGroup == last * t.perGroup + t.perGroup;
  }

  ghost predicate InodesOk(t: Table, bitmaps: seq<seq<Byte>>, c: Counts) {
    && |bitmaps| == t.groups && (forall g :: 0 <= g < |bitmaps| ==> |bitmaps[g]| == t.blockSize)
    && c.bits == AllBits(bitmaps) && c.sizes == Sizes(t)
  }

  /** The last `unused` inodes of each group are free. */
  ghost predicate Tidy(c: Counts, unused: seq<nat>) {
    && |unused| == |c.bits| == |c.sizes|
    && forall g: nat :: g < |c.bits| ==> GroupTidy(c.bits[g], c.sizes[g], unused[g])
  }

  ghost predicate GroupTidy(bits: seq<bool>, size: nat, unused: nat) {
    unused <= size <= |bits| && forall i :: size - unused <= i < size ==> !bits[i]
  }

  /** Of the inodes never used, just those behind the one taken are left in its group. */
  ghost predicate StillUnused(t: Table, unused: seq<nat>, inode: nat, unused': seq<nat>) {
    && inode > 0 && |unused'| == |unused| == t.groups
    && forall g: nat :: g < t.groups ==>
         var behind := if g == t.GroupOf(inode) then t.InodesIn(g) - t.ToIdx(inode) - 1 else t.InodesIn(g);
         unused'[g] == if unused[g] <= behind then unused[g] else behind
  }

  predicate HasDirs(dirs: seq<nat>, g: nat) {
    g < |dirs| && dirs[g] > 0
  }

  /** An inode is taken. */
  ghost predicate Taken(t: Table, c: Counts, inode: nat, c': Counts) {
    && 1 <= inode <= t.total && IsClear(c, t.GroupOf(inode), t.ToIdx(inode)) && Shaped(c)
    && c' == Take(c, t.GroupOf(inode), t.ToIdx(inode))
  }

  /** An inode is given back. */
  ghost predicate Given(t: Table, c: Counts, inode: nat, c': Counts) {
    && inode > 0 && Shaped(c) && t.GroupOf(inode) < |c.bits| && t.ToIdx(inode) < |c.bits[t.GroupOf(inode)]|
    && c' == Give(c, t.GroupOf(inode), t.ToIdx(inode))
  }

  class InodeAllocator {
    const t: Table
    var bitmaps: seq<seq<Byte>>
    var groupFree: seq<nat>
    var usedDirs: seq<nat>
    var unused: seq<nat>
    var freeInodes: nat
    var lastBg: nat

    ghost function C(): Counts
      reads this
    {
      Counts(AllBits(bitmaps), Sizes(t), groupFree, freeInodes)
    }

    ghost predicate Valid()
      reads this
    {
      InodesOk(t, bitmaps, C()) && Counted(C()) && Tidy(C(), unused) && |usedDirs| == t.groups && lastBg < t.groups
    }

    ghost predicate IsFree(inode: nat)
      requires inode > 0
      reads this
    {
      IsClear(C(), t.GroupOf(inode), t.ToIdx(inode))
    }

    constructor (t: Table, bitmaps: seq<seq<Byte>>, groupFree: seq<nat>, usedDirs: seq<nat>, unused: seq<nat>,
        freeInodes: nat)
      requires var c := Counts(AllBits(bitmaps), Sizes(t), groupFree, freeInodes);
               InodesOk(t, bitmaps, c) && Counted(c) && Tidy(c, unused) && |usedDirs| == t.groups
      ensures Valid() && this.t == t && this.bitmaps == bitmaps && lastBg == 0
      ensures this.groupFree == groupFree && this.usedDirs == usedDirs && this.freeInodes == freeInodes
    {
      this.t, this.bitmaps, this.groupFree, this.usedDirs := t, bitmaps, groupFree, usedDirs;
      this.unused, this.freeInodes, lastBg := unused, freeInodes, 0;
    }

    /** The bitmap block of a group, in a buffer. */
    method BitmapGet(bgid: nat) returns (b: array<Byte>)
      requires bgid < |bitmaps|
      ensures fresh(b) && b[..] == bitmaps[bgid]
    {
      var bytes := bitmaps[bgid];
      b := new Byte[|bytes|](i requires 0 <= i < |bytes| => bytes[i]);
    }

    /** `ext4_ialloc_alloc_inode`: searches the groups from the last used one up, and then those
        below it; it fails just if no inode is free. */
    method AllocInode(isDir: bool) returns (r: Errno, inode: nat)
      requires Valid()
      modifies this
      ensures Valid() && (r == ENOSPC <==> old(freeInodes) == 0)
      ensures r == ENOSPC ==> C() == old(C()) && lastBg == old(lastBg)
      ensures r == ENOSPC ==> usedDirs == old(usedDirs) && unused == old(unused)
      ensures r == EOK ==> Taken(t, old(C()), inode, C()) && lastBg == t.GroupOf(inode)
      ensures r == EOK ==> FirstClear(old(C()), lastBg, 0, t.ToIdx(inode))
      ensures r == EOK ==> forall g: nat :: g < t.groups && Between(old(lastBg), g, lastBg) ==> Full(old(C()), g)
      ensures r == EOK ==> |usedDirs| == |old(usedDirs)|
      ensures r == EOK ==>
                forall g :: 0 <= g < |usedDirs| ==>
                  usedDirs[g] == old(usedDirs)[g] + if isDir && g == lastBg then 1 else 0
      ensures r == EOK ==> StillUnused(t, old(unused), inode, unused)
    {
      hide Counted, Tidy, Taken, Full, StillUnused, Inodes.GroupOf, Inodes.ToIdx, Inodes.ToInode, Inodes.InodesIn;
      ghost var c := C();
      inode := 0;
      var bgid: nat, bgCount: nat, rewind := lastBg, t.groups, false;
      while bgid <= bgCount
        invariant Valid() && C() == c && lastBg == old(lastBg) && usedDirs == old(usedDirs)
        invariant unused == old(unused)
        invariant if rewind then bgCount == lastBg && bgid <= lastBg
                  else bgCount == t.groups && lastBg <= bgid <= t.groups
        invariant forall g: nat :: lastBg <= g < (if rewind then t.groups else bgid) ==> Full(c, g)
        invariant rewind ==> forall g: nat :: g < bgid ==> Full(c, g)
        decreases !rewind, bgCount - bgid
      {
        if bgid == bgCount {
          if rewind { break; }
          bgCount := lastBg;
          bgid := 0;
          rewind := true;
          continue;
        }
        FullIff(c, bgid);
        if groupFree[bgid] > 0 {
          var b := BitmapGet(bgid);
          SizesFit(t, bgid);
          var idx := FindClr(b, 0, t.InodesIn(bgid));
          if idx.Some? {
            inode := Claim(b, bgid, idx.value, isDir);
            r := EOK;
            return;
          }
          FullIs(c, bgid);
        }
        bgid := bgid + 1;
      }
      NoneLeft(c);
      r := ENOSPC;
    }

    /** The end of an allocation. */
    method Claim(b: array<Byte>, bgid: nat, idx: nat, isDir: bool) returns (inode: nat)
      requires Valid() && bgid < t.groups && idx < t.InodesIn(bgid)
      requires b[..] == bitmaps[bgid] && IsClear(C(), bgid, idx)
      modifies this, b
      ensures Valid() && Taken(t, old(C()), inode, C()) && old(freeInodes) > 0
      ensures t.GroupOf(inode) == bgid && t.ToIdx(inode) == idx && lastBg == bgid
      ensures |usedDirs| == |old(usedDirs)| && StillUnused(t, old(unused), inode, unused)
      ensures forall g :: 0 <= g < |usedDirs| ==>
                usedDirs[g] == old(usedDirs)[g] + if isDir && g == bgid then 1 else 0
    {
      hide Counted, Tidy, Take, StillUnused, Inodes.GroupOf, Inodes.ToIdx, Inodes.ToInode, Inodes.InodesIn;
      ghost var c, was := C(), bitmaps;
      ClaimOk(t, bitmaps, c, unused, bgid, idx);
      UnusedIs(t, unused, bgid, idx);
      BitSet(b, idx);
      bitmaps := bitmaps[bgid := b[..]];
      groupFree := groupFree[bgid := groupFree[bgid] - 1];
      if isDir { usedDirs := usedDirs[bgid := usedDirs[bgid] + 1]; }
      var free := t.InodesIn(bgid) - unused[bgid];
      if idx >= free { unused := unused[bgid := t.InodesIn(bgid) - (idx + 1)]; }
      freeInodes := freeInodes - 1;
      inode := t.ToInode(idx, bgid);
      lastBg := bgid;
      TakeIs(t, was, c, bgid, idx, b[..], C());
    }

    /** `ext4_ialloc_free_inode`. The counts stay right just if the inode was in use. */
    method FreeInode(inode: nat, isDir: bool)
      requires Valid() && 1 <= inode <= t.total && (isDir ==> HasDirs(usedDirs, t.GroupOf(inode)))
      modifies this
      ensures Valid() <==> old(!IsFree(inode))
      ensures Given(t, old(C()), inode, C()) && IsFree(inode)
      ensures |usedDirs| == |old(usedDirs)| && unused == old(unused)
      ensures forall g :: 0 <= g < |usedDirs| ==>
                usedDirs[g] == old(usedDirs)[g] - if isDir && g == t.GroupOf(inode) then 1 else 0
    {
      hide Counted, Tidy, Inodes.GroupOf, Inodes.ToIdx, Inodes.InodesIn;
      InodeRoundTrip(t, inode);
      ghost var c, was := C(), bitmaps;
      var bgid, idx := t.GroupOf(inode), t.ToIdx(inode);
      SizesFit(t, bgid);
      GiveOk(t, was, c, unused, inode);
      var b := BitmapGet(bgid);
      BitClr(b, 0, idx);
      bitmaps := bitmaps[bgid := b[..]];
      if isDir { usedDirs := usedDirs[bgid := usedDirs[bgid] - 1]; }
      groupFree := groupFree[bgid := groupFree[bgid] + 1];
      freeInodes := freeInodes + 1;
      GiveIs(t, was, c, bgid, idx, b[..], C());
    }
  }

  lemma NoneLeft(c: Counts)
    requires Counted(c) && forall g: nat :: g < |c.bits| ==> Full(c, g)
    ensures c.all == 0
  {
    NoneFreeIff(c);
  }

  lemma ClaimOk(t: Table, bitmaps: seq<seq<Byte>>, c: Counts, unused: seq<nat>, bgid: nat, idx: nat)
    requires InodesOk(t, bitmaps, c) && Counted(c) && Tidy(c, unused)
    requires bgid < t.groups && idx < t.InodesIn(bgid) && IsClear(c, bgid, idx)
    ensures Shaped(c) && c.free[bgid] > 0 && c.all > 0 && Counted(Take(c, bgid, idx)) && |unused| == t.groups
    ensures forall g: nat :: g < t.groups ==> unused[g] <= t.InodesIn(g)
    ensures var inode := t.ToInode(idx, bgid);
            1 <= inode <= t.total && t.GroupOf(inode) == bgid && t.ToIdx(inode) == idx
    ensures var size := t.InodesIn(bgid);
            Tidy(Take(c, bgid, idx), if idx >= size - unused[bgid] then unused[bgid := size - (idx + 1)] else unused)
  {
    hide Clear, Sum, Inodes.GroupOf, Inodes.ToIdx, Inodes.ToInode, Inodes.InodesIn;
    TakeCounted(c, bgid, idx);
    IdxRoundTrip(t, bgid, idx);
    assert forall g: nat :: g < t.groups ==> GroupTidy(c.bits[g], c.sizes[g], unused[g]);
  }

  lemma UnusedIs(t: Table, unused: seq<nat>, bgid: nat, idx: nat)
    requires bgid < t.groups == |unused| && idx < t.InodesIn(bgid) && unused[bgid] <= t.InodesIn(bgid)
    requires forall g: nat :: g < t.groups ==> unused[g] <= t.InodesIn(g)
    ensures var size := t.InodesIn(bgid);
            var unused' := if idx >= size - unused[bgid] then unused[bgid := size - (idx + 1)] else unused;
            StillUnused(t, unused, t.ToInode(idx, bgid), unused')
  {
    hide Inodes.GroupOf, Inodes.ToIdx, Inodes.ToInode, Inodes.InodesIn;
    IdxRoundTrip(t, bgid, idx);
  }

  lemma TakeIs(t: Table, bitmaps: seq<seq<Byte>>, c: Counts, bgid: nat, idx: nat, bm: seq<Byte>, c': Counts)
    requires InodesOk(t, bitmaps, c) && bgid < |bitmaps| && idx < 8 * |bitmaps[bgid]| && Shaped(c)
    requires |bm| == |bitmaps[bgid]| && Bits(bm) == Bits(bitmaps[bgid])[idx := true] && c.free[bgid] > 0 && c.all > 0
    requires c' == Counts(AllBits(bitmaps[bgid := bm]), c.sizes, c.free[bgid := c.free[bgid] - 1], c.all - 1)
    ensures c' == Take(c, bgid, idx) && InodesOk(t, bitmaps[bgid := bm], c')
  {
    hide Bits;
  }

  lemma GiveOk(t: Table, bitmaps: seq<seq<Byte>>, c: Counts, unused: seq<nat>, inode: nat)
    requires InodesOk(t, bitmaps, c) && Counted(c) && Tidy(c, unused) && 1 <= inode <= t.total
    requires t.GroupOf(inode) < t.groups && t.ToIdx(inode) < t.InodesIn(t.GroupOf(inode))
    ensures Shaped(c) && Tidy(Give(c, t.GroupOf(inode), t.ToIdx(inode)), unused)
    ensures Counted(Give(c, t.GroupOf(inode), t.ToIdx(inode))) <==> !IsClear(c, t.GroupOf(inode), t.ToIdx(inode))
  {
    hide Clear, Sum, Inodes.GroupOf, Inodes.ToIdx, Inodes.InodesIn;
    GiveCounted(c, t.GroupOf(inode), t.ToIdx(inode));
    assert forall g: nat :: g < |c.bits| ==> GroupTidy(c.bits[g], c.sizes[g], unused[g]);
  }

  lemma GiveIs(t: Table, bitmaps: seq<seq<Byte>>, c: Counts, bgid: nat, idx: nat, bm: seq<Byte>, c': Counts)
    requires InodesOk(t, bitmaps, c) && bgid < |bitmaps| && idx < 8 * |bitmaps[bgid]| && Shaped(c)
    requires |bm| == |bitmaps[bgid]| && Bits(bm) == Bits(bitmaps[bgid])[idx := false]
    requires c' == Counts(AllBits(bitmaps[bgid := bm]), c.sizes, c.free[bgid := c.free[bgid] + 1], c.all + 1)
    ensures c' == Give(c, bgid, idx) && InodesOk(t, bitmaps[bgid := bm], c') && IsClear(c', bgid, idx)
  {
    hide Bits;
  }
}
