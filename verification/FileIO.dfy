/** Reading and writing a file by way of its block map: an unaligned head, runs of blocks that lie
    one after the other, and a tail. */
module FileIO {
  import opened Words
  import opened BlockMap
  import opened BlockPlaces
  import opened InodeBlocks
  import opened FileMap
  import BlockTree
  import D = ByteDevice

  type Bytes = D.Bytes

  /** The blocks of a file of `size` bytes in logical order. */
  ghost function Mapped(disk: BlockTree.Disk, rs: Roots, per: nat, size: nat): (pm: seq<u32>)
    ensures |pm| == CountOf(size, 4 * per) && forall i :: 0 <= i < |pm| ==> pm[i] == Found(disk, rs, per, i)
  {
    seq(CountOf(size, 4 * per), i requires 0 <= i => Found(disk, rs, per, i))
  }

  ghost function PhysOf(ref: InodeRef): (pm: seq<u32>)
    reads ref`direct, ref`indirect, ref`disk, ref`size
    ensures |pm| == CountOf(ref.size, ref.BlockSize()) && forall i :: 0 <= i < |pm| ==> pm[i] == ref.At(i)
  {
    Mapped(ref.disk, ref.Rs(), ref.per, ref.size)
  }

  /** No block of the file is a hole. */
  ghost predicate Solid(pm: seq<u32>) {
    forall i :: 0 <= i < |pm| ==> pm[i] != 0
  }

  /** Whole blocks in so many bytes. */
  function FullBlocks(bytes: nat, bs: nat): nat {
    if bs == 0 then 0 else bytes / bs
  }

  lemma CountCovers(n: nat, bs: nat)
    requires bs > 0
    ensures n <= CountOf(n, bs) * bs < n + bs
  {
    D.Whole(n + bs - 1, bs);
  }

  lemma PhysDistinct(ref: InodeRef)
    requires ref.Valid() && Solid(PhysOf(ref))
    ensures Distinct(PhysOf(ref))
  {
    hide MapOk, Found, CountOf;
    var pm := PhysOf(ref);
    forall i, j | 0 <= i < j < |pm|
      ensures pm[i] != pm[j]
    {
      assert pm[i] != 0 && ref.At(i) == pm[i];
      MapInjective(ref.disk, ref.Rs(), ref.per, i, j);
    }
  }

  /** A lookup of one of the file's blocks succeeds. */
  lemma InMap(ref: InodeRef, idx: nat)
    requires ref.Valid() && ref.Tight() && idx < |PhysOf(ref)|
    ensures LevelOf(ref.per, idx) != 4 && ref.size > 0
  {
    hide MapOk, Found, Limit, LevelOf;
    MapShape(ref.disk, ref.Rs(), ref.per);
    LevelBound(ref.per, idx);
    if ref.size == 0 { NoBytes(ref.BlockSize()); }
  }

  /** An append adds one block to them. */
  lemma PhysMore(pm: seq<u32>, pm': seq<u32>, fblock: u32)
    requires |pm'| == |pm| + 1 && pm'[|pm|] == fblock && forall i :: 0 <= i < |pm| ==> pm'[i] == pm[i]
    ensures pm' == pm + [fblock]
    ensures Solid(pm) && fblock != 0 ==> Solid(pm')
  {
  }

  // ----- Runs

  /** The last `cnt` blocks before block `idx` lie one after the other, from `start` on. */
  ghost predicate Pending(pm: seq<u32>, idx: nat, cnt: nat, start: nat) {
    && cnt <= idx && Contiguous(pm, idx - cnt, cnt, start)
    && (cnt == 0 <==> start == 0)
  }

  lemma PendingMore(pm: seq<u32>, idx: nat, cnt: nat, start: nat)
    requires Pending(pm, idx, cnt, start) && idx < |pm| && pm[idx] != 0
    ensures var s := if start == 0 then pm[idx] else start;
            s + cnt == pm[idx] ==> Pending(pm, idx + 1, cnt + 1, s)
    ensures cnt == 0 ==> (if start == 0 then pm[idx] else start) + cnt == pm[idx]
  {
  }

  lemma PendingOne(pm: seq<u32>, idx: nat)
    requires idx < |pm| && pm[idx] != 0
    ensures Pending(pm, idx + 1, 1, pm[idx])
  {
  }

  lemma PendingStill(pm: seq<u32>, more: seq<u32>, idx: nat, cnt: nat, start: nat)
    requires Pending(pm, idx, cnt, start)
    ensures Pending(pm + more, idx, cnt, start)
  {
  }

  // ----- Writing

  /** Nothing changed but in blocks of the file. */
  ghost predicate Beside(d: Bytes, d': Bytes, po: nat, pm: seq<u32>, bs: nat) {
    |d'| == |d| && forall x :: 0 <= x < |d| && OutsideAll(po, pm, bs, x) ==> d'[x] == d[x]
  }

  ghost predicate OutsideAll(po: nat, pm: seq<u32>, bs: nat, x: nat) {
    forall i :: 0 <= i < |pm| ==> x < po + pm[i] * bs || po + pm[i] * bs + bs <= x
  }

  lemma BesideGrown(d: Bytes, d': Bytes, po: nat, pm: seq<u32>, pm': seq<u32>, bs: nat)
    requires Beside(d, d', po, pm, bs) && pm <= pm'
    ensures Beside(d, d', po, pm', bs)
  {
    forall x | 0 <= x < |d| && OutsideAll(po, pm', bs, x)
      ensures d'[x] == d[x]
    {
      assert forall i :: 0 <= i < |pm| ==> pm'[i] == pm[i];
      assert OutsideAll(po, pm, bs, x);
    }
  }

  /** A piece of a run of the file's blocks is written. */
  lemma BesideRun(d0: Bytes, d: Bytes, d': Bytes, po: nat, pm: seq<u32>, bs: nat, idx: nat, cnt: nat, start: nat,
                  u: nat, b: Bytes, k: nat)
    requires bs > 0 && Beside(d0, d, po, pm, bs) && Contiguous(pm, idx, cnt, start) && u + |b| <= cnt * bs
    requires D.Wrote(d, d', po + start * bs + u, b, k)
    ensures Beside(d0, d', po, pm, bs)
  {
    var at := po + start * bs + u;
    forall x | 0 <= x < |d0| && OutsideAll(po, pm, bs, x)
      ensures d'[x] == d0[x]
    {
      if at <= x < at + k { InRun(po, pm, bs, idx, cnt, start, x); }
    }
  }

  /** A byte of the run is in one of its blocks. */
  lemma InRun(po: nat, pm: seq<u32>, bs: nat, idx: nat, cnt: nat, start: nat, x: nat)
    requires bs > 0 && Contiguous(pm, idx, cnt, start)
    requires po + start * bs <= x < po + start * bs + cnt * bs
    ensures !OutsideAll(po, pm, bs, x)
  {
    var off: nat := x - po - start * bs;
    D.Whole(off, bs);
    var c := off / bs;
    Within(off, c, cnt, bs);
    D.SumRows(start, c, bs);
    var i := idx + c;
    assert pm[i] == start + c;
    assert po + pm[i] * bs <= x < po + pm[i] * bs + bs;
  }

  lemma Within(off: nat, c: nat, cnt: nat, bs: nat)
    requires c * bs <= off < cnt * bs
    ensures c < cnt
  {
    D.Sectors(if cnt < c then cnt else c, c, bs);
  }

  /** A run of blocks below block `total` ends before it. */
  lemma RunBelow(pm: seq<u32>, idx: nat, cnt: nat, start: nat, total: nat, bs: nat)
    requires Contiguous(pm, idx, cnt, start) && cnt > 0 && forall i :: 0 <= i < |pm| ==> pm[i] < total
    ensures start * bs + cnt * bs <= total * bs
  {
    assert pm[idx + cnt - 1] == start + cnt - 1;
    D.SumRows(start, cnt, bs);
    D.Sectors(start + cnt, total, bs);
  }

  /** The device when a write began, and whether nothing can fail on it. */
  datatype Was = Was(disk: Bytes, sound: bool, snap: Snap, have: nat)

  /** After `w` bytes of `buf` are written to position `p` of a file that held `s`. */
  ghost predicate Progress(d: Bytes, po: nat, pm: seq<u32>, bs: nat, s: Bytes, p: nat, buf: Bytes, w: nat)
    requires bs > 0
  {
    && p <= |s| && w <= |buf|
    && var t := Overwrite(s, p, buf[..w]);
       |t| <= |pm| * bs && FileBytes(d, po, pm, bs, |t|) == t
  }

  /** The part of a write that goes to a run of blocks, or the first `k` bytes of it. */
  lemma ProgressRun(d: Bytes, d': Bytes, po: nat, pm: seq<u32>, bs: nat, s: Bytes, p: nat, buf: Bytes, w: nat,
                    idx: nat, cnt: nat, start: nat, u: nat, len: nat, k: nat)
    requires bs > 0 && Progress(d, po, pm, bs, s, p, buf, w) && Distinct(pm) && Contiguous(pm, idx, cnt, start)
    requires w + len <= |buf| && p + w == idx * bs + u && u + len <= cnt * bs
    requires D.Wrote(d, d', po + start * bs + u, buf[w..w + len], k)
    ensures k <= len && Progress(d', po, pm, bs, s, p, buf, w + k)
  {
    hide FileBytes, Distinct, Contiguous;
    var b := buf[w..w + len];
    WroteLen(d, d', po + start * bs + u, b, k);
    hide D.Wrote;
    var t, t' := Overwrite(s, p, buf[..w]), Overwrite(s, p, buf[..w + k]);
    RunEnds(|pm|, idx, cnt, bs, pm, start);
    var n := |t'|;
    assert n <= |pm| * bs;
    forall i | 0 <= i < n
      ensures FileBytes(d', po, pm, bs, n)[i] == t'[i]
    {
      WriteRun(d, d', po, pm, bs, n, idx, cnt, start, u, b, k, i);
      if i < |t| {
        FewerBytes(d, po, pm, bs, |t|, n);
        assert FileBytes(d, po, pm, bs, |t|)[i] == FileBytes(d, po, pm, bs, n)[i];
      }
    }
  }

  lemma WroteLen(d: Bytes, d': Bytes, at: nat, b: Bytes, k: nat)
    requires D.Wrote(d, d', at, b, k)
    ensures k <= |b|
  {
  }

  lemma RunEnds(total: nat, idx: nat, cnt: nat, bs: nat, pm: seq<u32>, start: nat)
    requires Contiguous(pm, idx, cnt, start) && total == |pm|
    ensures idx * bs + cnt * bs <= total * bs
  {
    D.SumRows(idx, cnt, bs);
    D.Sectors(idx + cnt, total, bs);
  }

  lemma ProgressMore(d: Bytes, po: nat, pm: seq<u32>, more: seq<u32>, bs: nat, s: Bytes, p: nat, buf: Bytes, w: nat)
    requires bs > 0 && Progress(d, po, pm, bs, s, p, buf, w)
    ensures Progress(d, po, pm + more, bs, s, p, buf, w)
  {
    MoreBlocks(d, po, pm, more, bs, |Overwrite(s, p, buf[..w])|);
  }

  /** `CONFIG_MAX_TRUNCATE_SIZE`. */
  const MAX_TRUNCATE_SIZE := 16 * 1024 * 1024

  datatype Origin = SeekSet | SeekCur | SeekEnd

  class File {
    const ref: InodeRef
    const dev: D.BlockDev
    var fpos: nat
    var fsize: nat

    /** `cache_write_back`. */
    var writeBack: nat

    /** `ext4_fopen` for a file whose map and device are as described. */
    constructor (ref: InodeRef, dev: D.BlockDev)
      requires ref.Valid() && ref.Tight() && Solid(PhysOf(ref))
      requires dev.Valid() && ref.BlockSize() > 0 && ref.BlockSize() % dev.bsize == 0 && dev.partOffset % dev.bsize == 0
      ensures Valid() && this.ref == ref && this.dev == dev && fpos == 0 && fsize == ref.size && writeBack == 0
    {
      this.ref, this.dev, fpos, fsize, writeBack := ref, dev, 0, ref.size, 0;
    }

    function Bs(): nat { ref.BlockSize() }

    ghost function Phys(): (pm: seq<u32>)
      reads ref`direct, ref`indirect, ref`disk, ref`size
      ensures |pm| == CountOf(ref.size, Bs())
    {
      PhysOf(ref)
    }

    /** The map has no hole and no block too much; blocks of file system and device fit. */
    ghost predicate Core()
      reads ref
    {
      && ref.Valid() && ref.Tight() && Solid(Phys())
      && dev.Valid() && Bs() > 0 && Bs() % dev.bsize == 0 && dev.partOffset % dev.bsize == 0
    }

    ghost predicate Valid()
      reads this, ref
    {
      Core() && fpos <= ref.size
    }

    /** All blocks of the file system lie on the partition and the device, which fails nothing. */
    ghost predicate Sound()
      reads ref, dev`disk
    {
      SoundOn(|dev.disk|)
    }

    ghost predicate SoundOn(n: nat)
      reads ref
    {
      && dev.Valid() && D.SoundSize(dev.healthy, n, dev.bsize) && dev.partOffset + dev.partSize <= n
      && ref.total * Bs() <= dev.partSize && forall i :: 0 <= i < |Phys()| ==> Phys()[i] < ref.total
    }

    /** No second block is left, or the map is at its end, so that the file cannot grow. */
    ghost predicate Full()
      reads ref
    {
      && (Exhausted(ref.used, ref.total) || LevelOf(ref.per, |Phys()|) == 4)
      && Short(ref.disk, ref.Rs(), ref.per, ref.used, ref.total, |Phys()|, 1)
    }

    /** The file cannot grow to so many blocks. */
    ghost predicate CannotHold(blocks: nat)
      reads ref`direct, ref`indirect, ref`disk, ref`size, ref`used, ref`blocks
    {
      TooMany(ref.per, ref.total, ref.S(), |Phys()|, blocks)
    }

    /** What it cannot grow to is as it was. */
    ghost predicate LimitKept(s: Snap, have: nat)
      reads ref`direct, ref`indirect, ref`disk, ref`size, ref`used, ref`blocks
    {
      SameLimit(ref.per, ref.total, s, have, ref.S(), |Phys()|)
    }

    lemma CoreBs()
      requires Core()
      ensures Bs() > 0
    {
    }

    /** The contents of the file. */
    ghost function Contents(): (s: Bytes)
      requires Bs() > 0
      reads ref`direct, ref`indirect, ref`disk, ref`size, dev`disk
      ensures |s| == ref.size
    {
      CountCovers(ref.size, Bs());
      FileBytes(dev.disk, dev.partOffset, Phys(), Bs(), ref.size)
    }

    /** Where the device has a block of the partition. */
    lemma PlaceOf(off: nat)
      requires dev.Valid() && dev.partOffset % dev.bsize == 0
      ensures dev.Start(off) == dev.partOffset + off
    {
      dev.StartIff(off);
    }

    /** `ext4_fs_get_inode_dblk_idx`, and `ext4_fs_init_inode_dblk_idx`, for a block of the file. */
    method BlockOf(idx: nat) returns (fblock: u32)
      requires Core() && idx < |Phys()|
      ensures fblock == Phys()[idx] != 0
    {
      hide D.PowerOfTwo, InodeRef.Valid, InodeRef.Tight, InodeRef.BlockSize, CountOf, LevelOf;
      InMap(ref, idx);
      var r;
      r, fblock := ref.Get(idx);
    }

    /** The inner loop of `ext4_fread`: blocks of the file as long as they lie one after the other.
        The block that ends a run, if any, is the first of the next. */
    method Collect(idx0: nat, last: nat, start0: nat, cnt0: nat, fblock0: u32)
      returns (idx: nat, start: nat, cnt: nat, fblock: u32, ghost broke: bool)
      requires Core() && idx0 <= last <= |Phys()| && Pending(Phys(), idx0, cnt0, start0)
      ensures idx0 <= idx <= last && Collected(Phys(), idx0, cnt0, last, idx, start, cnt, fblock, broke)
    {
      hide D.PowerOfTwo, InodeRef.Valid, InodeRef.Tight, InodeRef.BlockSize, CountOf, Pending;
      idx, start, cnt, fblock, broke := idx0, start0, cnt0, fblock0, false;
      PendingFirst(Phys(), idx0, cnt0, start0);
      while idx < last
        invariant idx0 <= idx <= last && cnt <= idx && Pending(Phys(), idx, cnt, start) && idx - cnt == idx0 - cnt0
        invariant cnt0 > 0 || idx0 < idx ==> cnt > 0
      {
        fblock := BlockOf(idx);
        PendingMore(Phys(), idx, cnt, start);
        PendingOne(Phys(), idx);
        ghost var start1 := start;
        idx := idx + 1;
        if start == 0 { start := fblock; }
        if start + cnt != fblock {
          broke := true;
          PendingFirst(Phys(), idx - 1, cnt, start1);
          break;
        }
        cnt := cnt + 1;
      }
    }

    /** Where a run lies on a sound device. */
    lemma SoundRun(idx: nat, cnt: nat, start: nat)
      requires Core() && Contiguous(Phys(), idx, cnt, start)
      ensures Sound() ==> dev.healthy && (cnt > 0 ==> dev.partOffset + start * Bs() + cnt * Bs() <= |dev.disk|)
      ensures Sound() && cnt > 0 ==> start * Bs() + cnt * Bs() <= dev.partSize
      ensures cnt == 0 ==> cnt * Bs() == 0
    {
      hide D.PowerOfTwo, InodeRef.Valid, InodeRef.Tight, InodeRef.BlockSize, CountOf, Contiguous;
      if Sound() {
        dev.Inside(0, 0);
        if cnt > 0 { RunBelow(Phys(), idx, cnt, start, ref.total, Bs()); }
      }
    }

    /** Where a part of a block lies on one. */
    lemma SoundPart(idx: nat, fblk: u32, u: nat, len: nat)
      requires Core() && idx < |Phys()| && fblk == Phys()[idx] && u + len <= Bs()
      ensures Contiguous(Phys(), idx, 1, fblk) && u + len <= 1 * Bs()
      ensures dev.Start(fblk * Bs() + u) == dev.partOffset + fblk * Bs() + u
      ensures Sound() ==> dev.Sound() && fblk * Bs() + u + len <= dev.partSize
      ensures Sound() ==> dev.Start(fblk * Bs() + u) + len <= |dev.disk|
    {
      hide D.PowerOfTwo, InodeRef.Valid, InodeRef.Tight, InodeRef.BlockSize, CountOf, Contiguous;
      PlaceOf(fblk * Bs() + u);
      OneBlock(Phys(), idx);
      SoundRun(idx, 1, fblk);
    }

    /** Reads a piece of a run. */
    method ReadRunOf(ghost idx: nat, cnt: nat, start: nat) returns (r: Errno, data: Bytes)
      requires Core() && Contiguous(Phys(), idx, cnt, start) && idx * Bs() + cnt * Bs() <= ref.size
      ensures Sound() ==> r == EOK
      ensures r == EOK ==>
                idx * Bs() + cnt * Bs() <= ref.size && data == Contents()[idx * Bs()..idx * Bs() + cnt * Bs()]
    {
      hide D.PowerOfTwo, InodeRef.Valid, InodeRef.Tight, InodeRef.BlockSize, CountOf, Contiguous, D.Range, FileBytes,
          SoundOn, D.SoundSize, D.BlockDev.Start, Solid;
      var dr;
      PlaceOf(start * Bs());
      SoundRun(idx, cnt, start);
      dr, data := dev.GetDirect(start, cnt, Bs());
      r := Of(dr);
      if r == EOK {
        PlaceOf(start * Bs());
        CountCovers(ref.size, Bs());
        ReadRun(dev.disk, dev.partOffset, Phys(), Bs(), ref.size, idx, cnt, start, 0, cnt * Bs());
      }
    }

    /** The main loop of `ext4_fread`: whole blocks, run by run. */
    method ReadBlocks(idx0: nat, last: nat, left0: nat) returns (r: Errno, data: Bytes, idx: nat, left: nat)
      requires Core() && fpos + left0 <= ref.size && (left0 > 0 ==> fpos == idx0 * Bs())
      requires last * Bs() <= fpos + left0 < last * Bs() + Bs()
      modifies this`fpos
      ensures left <= left0 && fpos + left == old(fpos) + left0
      ensures fpos <= ref.size && data == Contents()[old(fpos)..fpos]
      ensures r == EOK ==> left < Bs() && (left > 0 ==> fpos == idx * Bs())
      ensures Sound() ==> r == EOK
    {
      hide D.PowerOfTwo, InodeRef.Valid, InodeRef.Tight, InodeRef.BlockSize, CountOf, Pending, FileBytes, Contiguous,
          Going, Collected, Sound;
      r, data, idx, left := EOK, [], idx0, left0;
      var start: nat, cnt: nat, fblock: u32 := 0, 0, 0;
      ghost var p0, s := fpos, Contents();
      LastIn(ref.size, Bs(), last, fpos + left0);
      if left0 > 0 { LastIn(ref.size, Bs(), idx0, fpos); }
      GoingFirst(Phys(), Bs(), idx0, last, fpos, left0);
      while left >= Bs()
        invariant left <= left0 && fpos + left == p0 + left0 && data == s[p0..fpos] && r == EOK
        invariant Going(Phys(), Bs(), idx, cnt, start, last, fpos, left)
        decreases left
      {
        ghost var idx1, cnt1, broke := idx, cnt, false;
        GoingIs(Phys(), Bs(), idx, cnt, start, last, fpos, left);
        idx, start, cnt, fblock, broke := Collect(idx, last, start, cnt, fblock);
        GoingOn(Phys(), Bs(), idx1, cnt1, last, idx, start, cnt, fblock, broke, fpos, left);
        var more;
        r, more := ReadRunOf(idx1 - cnt1, cnt, start);
        if r != EOK { return; }
        data := data + more;
        left := left - cnt * Bs();
        fpos := fpos + cnt * Bs();
        start, cnt := fblock, 1;
      }
      if left > 0 { GoingIs(Phys(), Bs(), idx, cnt, start, last, fpos, left); }
    }

    /** A part of one block, by way of the sectors. */
    method ReadPart(idx: nat, u: nat, len: nat) returns (r: Errno, data: Bytes)
      requires Core() && u + len <= Bs() && idx * Bs() + u + len <= ref.size && idx < |Phys()|
      modifies dev.bbuf
      ensures r == EOK ==> data == Contents()[idx * Bs() + u..idx * Bs() + u + len]
      ensures Sound() ==> r == EOK
    {
      hide D.PowerOfTwo, InodeRef.Valid, InodeRef.Tight, InodeRef.BlockSize, CountOf, D.Range, FileBytes;
      var fblock := BlockOf(idx);
      var dr;
      SoundPart(idx, fblock, u, len);
      dr, data := dev.ReadBytes(fblock * Bs() + u, len);
      r := Of(dr);
      if r == EOK {
        CountCovers(ref.size, Bs());
        ReadRun(dev.disk, dev.partOffset, Phys(), Bs(), ref.size, idx, 1, fblock, u, len);
      }
    }

    /** Quotient and remainder by the block size. */
    method Split(n: nat) returns (q: nat, u: nat)
      requires Bs() > 0
      ensures q * Bs() + u == n && u < Bs() && q == FullBlocks(n, Bs())
    {
      hide InodeRef.BlockSize;
      var bs := Bs();
      D.Whole(n, bs);
      q, u := n / bs, n % bs;
    }

    /** The first part of `ext4_fread`: up to the end of a block, if not at the start of one. */
    method ReadHead(left0: nat) returns (r: Errno, data: Bytes, idx: nat, left: nat)
      requires Core() && fpos + left0 <= ref.size
      modifies this`fpos, dev.bbuf
      ensures left <= left0 && fpos + left == old(fpos) + left0 && fpos >= old(fpos)
      ensures data == Contents()[old(fpos)..fpos]
      ensures r == EOK && left > 0 ==> fpos == idx * Bs()
      ensures Sound() ==> r == EOK
    {
      hide D.PowerOfTwo, InodeRef.Valid, InodeRef.Tight, InodeRef.BlockSize, CountOf, FileBytes, Sound;
      r, data, left := EOK, [], left0;
      var unalg;
      idx, unalg := Split(fpos);
      if unalg > 0 {
        var len := if left > Bs() - unalg then Bs() - unalg else left;
        InFile(ref.size, Bs(), idx, fpos);
        var head;
        r, head := ReadPart(idx, unalg, len);
        if r != EOK { return; }
        data := head;
        left := left - len;
        fpos := fpos + len;
        D.NextSector(idx, Bs());
        idx := idx + 1;
      }
    }

    /** `ext4_fread`: the next `size` bytes of the file, or what is left of it; of a read that
        fails, some of the first bytes. */
    method Fread(size: nat) returns (r: Errno, data: Bytes)
      requires Valid()
      modifies this`fpos, this`fsize, dev.bbuf
      ensures Valid() && fpos == old(fpos) + |data| && data == Contents()[old(fpos)..fpos]
      ensures r == EOK ==> |data| == if size > ref.size - old(fpos) then ref.size - old(fpos) else size
      ensures fsize == if size > 0 then ref.size else old(fsize)
      ensures Sound() ==> r == EOK
    {
      hide D.PowerOfTwo, InodeRef.Valid, InodeRef.Tight, InodeRef.BlockSize, CountOf, FileBytes, Sound, Solid,
          FullBlocks;
      r, data := EOK, [];
      if size == 0 { return; }
      fsize := ref.size;
      var left := if size > fsize - fpos then fsize - fpos else size;
      var last, tail := Split(fpos + left);
      var idx;
      r, data, idx, left := ReadHead(left);
      if r != EOK { return; }
      ghost var s, p0, p1 := Contents(), old(fpos), fpos;
      var more, rest;
      r, more, idx, left := ReadBlocks(idx, last, left);
      Joined(s, p0, p1, fpos, data, more);
      data := data + more;
      if r != EOK || left == 0 { return; }
      p1 := fpos;
      InFile(ref.size, Bs(), idx, fpos + left);
      r, rest := ReadPart(idx, 0, left);
      if r != EOK { return; }
      fpos := fpos + left;
      Joined(s, p0, p1, fpos, data, rest);
      data := data + rest;
    }

    /** `ext4_trunc_inode`: in steps of at most 16 MB, each a transaction of its own. */
    method TruncInode(newSize: nat) returns (r: Errno)
      requires Core()
      modifies ref`direct, ref`indirect, ref`disk, ref`used, ref`blocks, ref`size
      ensures Core() && ref.Others() == old(ref.Others()) && r == EOK
      ensures ref.size == if newSize < old(ref.size) then newSize else old(ref.size)
      ensures Contents() == old(Contents())[..ref.size]
    {
      hide D.PowerOfTwo, InodeRef.Valid, InodeRef.Tight, InodeRef.BlockSize, InodeRef.Others, CountOf, FileBytes, Core;
      CoreBs();
      r := EOK;
      ghost var s := Contents();
      var inodeSize := ref.size;
      while inodeSize > newSize + MAX_TRUNCATE_SIZE
        invariant Core() && ref.Others() == old(ref.Others()) && inodeSize == ref.size <= |s|
                && Contents() == s[..ref.size]
        invariant r == EOK && (inodeSize == |s| || inodeSize > newSize)
      {
        inodeSize := inodeSize - MAX_TRUNCATE_SIZE;
        r := Cut(inodeSize);
      }
      if inodeSize > newSize {
        inodeSize := newSize;
        r := Cut(inodeSize);
      }
    }

    /** `ext4_fs_truncate_inode` and the contents. */
    method Cut(newSize: nat) returns (r: Errno)
      requires Core() && newSize <= ref.size
      modifies ref`direct, ref`indirect, ref`disk, ref`used, ref`blocks, ref`size
      ensures Core() && ref.Others() == old(ref.Others()) && r == EOK && ref.size == newSize
      ensures Contents() == old(Contents())[..newSize]
    {
      hide D.PowerOfTwo, InodeRef.Valid, InodeRef.Tight, InodeRef.BlockSize, InodeRef.Others, InodeRef.At, CountOf,
          FileBytes;
      ghost var pm, n := Phys(), ref.size;
      CountGrows(newSize, n, Bs());
      CountCovers(n, Bs());
      CountCovers(newSize, Bs());
      r := ref.Truncate(newSize);
      ghost var cnt := |Phys()|;
      assert Phys() == pm[..cnt] && pm == Phys() + pm[cnt..];
      MoreBlocks(dev.disk, dev.partOffset, Phys(), pm[cnt..], Bs(), newSize);
      FewerBytes(dev.disk, dev.partOffset, pm, Bs(), newSize, n);
    }

    /** `ext4_ftruncate`: a file can only be made shorter; the position moves back if need be. */
    method Ftruncate(size: nat) returns (r: Errno)
      requires Valid()
      modifies this, ref`direct, ref`indirect, ref`disk, ref`used, ref`blocks, ref`size
      ensures Valid() && ref.Others() == old(ref.Others()) && r == EOK && writeBack == old(writeBack)
      ensures Contents() == if size < |old(Contents())| then old(Contents())[..size] else old(Contents())
      ensures fsize == ref.size && fpos == if old(fpos) > size then size else old(fpos)
    {
      hide D.PowerOfTwo, InodeRef.Valid, InodeRef.Tight, InodeRef.BlockSize, InodeRef.Others, CountOf, FileBytes, Core;
      CoreBs();
      fsize := ref.size;
      if fsize <= size { return EOK; }
      writeBack := writeBack + 1;
      r := TruncInode(size);
      fsize := size;
      if fpos > size { fpos := size; }
      writeBack := writeBack - 1;
    }

    /** `ext4_fseek`: within the file, or refused. */
    method Fseek(offset: int, origin: Origin) returns (r: Errno)
      requires Valid() && fpos <= fsize <= ref.size
      modifies this`fpos
      ensures Valid() && fpos <= fsize
      ensures var to := offset + match origin case SeekSet => 0 case SeekCur => old(fpos) case SeekEnd => fsize;
              if 0 <= to <= fsize && (origin == SeekEnd ==> offset <= 0) then r == EOK && fpos == to
              else r == EINVAL && fpos == old(fpos)
    {
      match origin
      case SeekSet =>
        if offset < 0 || offset > fsize { return EINVAL; }
        fpos := offset;
        return EOK;
      case SeekCur =>
        if (offset < 0 && -offset > fpos) || (offset > 0 && offset > fsize - fpos) { return EINVAL; }
        fpos := fpos + offset;
        return EOK;
      case SeekEnd =>
        if offset > 0 || (if offset < 0 then -offset else offset) > fsize { return EINVAL; }
        fpos := fsize + offset;
        return EOK;
    }

    /** `ext4_fs_append_inode_dblk`. */
    method Grow() returns (r: Errno, fblock: u32, iblock: nat)
      requires Core()
      modifies ref`direct, ref`indirect, ref`disk, ref`used, ref`blocks, ref`size
      ensures Core() && ref.Others() == old(ref.Others())
      ensures r != EOK ==> Phys() == old(Phys()) && ref.size == old(ref.size)
      ensures r == EOK ==> iblock == |old(Phys())| && Phys() == old(Phys()) + [fblock] && fblock != 0
      ensures r == EOK ==> ref.size == |Phys()| * Bs()
      ensures (old(Sound()) ==> Sound()) && (r != EOK ==> Full())
      ensures LimitKept(old(ref.S()), |old(Phys())|)
    {
      hide D.PowerOfTwo, InodeRef.Valid, InodeRef.Tight, InodeRef.BlockSize, InodeRef.Others, InodeRef.At, CountOf,
          LevelOf, Exhausted, Short, Lacks, FreeCount, FilledFrom, SameLimit;
      ghost var pm, s := Phys(), ref.S();
      r, fblock, iblock := ref.Append();
      if r == EOK {
        CountTimes(iblock + 1, Bs());
        PhysMore(pm, Phys(), fblock);
        LimitStays(ref.per, ref.total, s, ref.S(), |pm|);
      } else {
        assert Phys() == pm;
        LimitStands(ref.per, ref.total, s, ref.S(), |pm|);
      }
    }

    /** The same in the middle of a write, which stands as it did. */
    method GrowFor(ghost s: Bytes, ghost p: nat, ghost buf: Bytes, ghost w: nat, ghost was: Was)
      returns (r: Errno, fblock: u32, iblock: nat)
      requires Core() && Holds(s, p, buf, w, was)
      modifies ref`direct, ref`indirect, ref`disk, ref`used, ref`blocks, ref`size
      ensures Core() && ref.Others() == old(ref.Others()) && Holds(s, p, buf, w, was)
      ensures r != EOK ==> Phys() == old(Phys()) && ref.size == old(ref.size) && Full()
      ensures r == EOK ==> iblock == |old(Phys())| && Phys() == old(Phys()) + [fblock] && fblock != 0
      ensures r == EOK ==> ref.size == |Phys()| * Bs()
    {
      hide D.PowerOfTwo, InodeRef.Valid, InodeRef.Tight, InodeRef.BlockSize, InodeRef.Others, CountOf, Core, Progress,
          Beside, Sound, Full, SameLimit, InodeRef.S;
      ghost var pm, s1 := Phys(), ref.S();
      CoreBs();
      r, fblock, iblock := Grow();
      ProgressGrown(dev.disk, dev.partOffset, pm, Phys(), Bs(), s, p, buf, w);
      BesideGrown(was.disk, dev.disk, dev.partOffset, pm, Phys(), Bs());
      LimitTrans(ref.per, ref.total, was.snap, was.have, s1, |pm|, ref.S(), |Phys()|);
    }

    /** The block of the file at `idx`, or one appended there. */
    method BlockFor(idx: nat, ifile: nat, ghost cnt: nat, ghost start: nat, ghost s: Bytes, ghost p: nat,
                    ghost buf: Bytes, ghost w: nat, ghost was: Was)
      returns (r: Errno, fblk: u32)
      requires Core() && Pending(Phys(), idx, cnt, start) && Holds(s, p, buf, w, was)
      requires Sized(|Phys()|, ref.size, |s|, Bs(), ifile, idx)
      modifies ref`direct, ref`indirect, ref`disk, ref`used, ref`blocks, ref`size
      ensures Core() && ref.Others() == old(ref.Others()) && old(Phys()) <= Phys() && Holds(s, p, buf, w, was)
      ensures Pending(Phys(), idx, cnt, start)
      ensures r == EOK ==> idx < |Phys()| && fblk == Phys()[idx] != 0
      ensures r == EOK ==> Sized(|Phys()|, ref.size, |s|, Bs(), ifile, idx + 1)
      ensures r != EOK ==> Sized(|Phys()|, ref.size, |s|, Bs(), ifile, idx) && Full() && |Phys()| == idx
    {
      hide D.PowerOfTwo, InodeRef.Valid, InodeRef.Tight, InodeRef.BlockSize, InodeRef.Others, CountOf, Pending, Core,
          Full, Holds;
      r := EOK;
      if idx < ifile {
        fblk := BlockOf(idx);
      } else {
        ghost var pm := Phys();
        var at;
        r, fblk, at := GrowFor(s, p, buf, w, was);
        if r == EOK { PendingStill(pm, [fblk], idx, cnt, start); }
      }
    }

    /** The inner loop of `ext4_fwrite`: as in reading, but behind the end of the file blocks are
        appended; when that fails, the run so far is all. */
    method CollectGrow(idx0: nat, last: nat, ifile: nat, start0: nat, cnt0: nat, fblk0: u32, ghost s: Bytes,
                       ghost p: nat, ghost buf: Bytes, ghost w: nat, ghost was: Was)
      returns (rr: Errno, idx: nat, start: nat, cnt: nat, fblk: u32, ghost broke: bool)
      requires Core() && idx0 <= last && Pending(Phys(), idx0, cnt0, start0) && Holds(s, p, buf, w, was)
      requires Sized(|Phys()|, ref.size, |s|, Bs(), ifile, idx0)
      modifies ref`direct, ref`indirect, ref`disk, ref`used, ref`blocks, ref`size
      ensures Core() && ref.Others() == old(ref.Others()) && old(Phys()) <= Phys() && Holds(s, p, buf, w, was)
      ensures idx0 <= idx <= last && Sized(|Phys()|, ref.size, |s|, Bs(), ifile, idx)
      ensures rr == EOK ==> Collected(Phys(), idx0, cnt0, last, idx, start, cnt, fblk, broke)
      ensures rr != EOK ==> idx < last && Pending(Phys(), idx, cnt, start) && cnt <= idx && idx - cnt == idx0 - cnt0
      ensures rr != EOK ==> Full() && |Phys()| == idx
    {
      hide D.PowerOfTwo, InodeRef.Valid, InodeRef.Tight, InodeRef.BlockSize, InodeRef.Others, CountOf, Pending, Core,
          Full, Holds;
      CoreBs();
      rr, idx, start, cnt, fblk, broke := EOK, idx0, start0, cnt0, fblk0, false;
      PendingFirst(Phys(), idx0, cnt0, start0);
      while idx < last
        invariant Core() && ref.Others() == old(ref.Others()) && old(Phys()) <= Phys() && Holds(s, p, buf, w, was)
        invariant idx0 <= idx <= last && cnt <= idx && Pending(Phys(), idx, cnt, start) && idx - cnt == idx0 - cnt0
        invariant rr == EOK && (cnt0 > 0 || idx0 < idx ==> cnt > 0) && Sized(|Phys()|, ref.size, |s|, Bs(), ifile, idx)
      {
        var f;
        rr, f := BlockFor(idx, ifile, cnt, start, s, p, buf, w, was);
        if rr != EOK { break; }
        fblk := f;
        PendingMore(Phys(), idx, cnt, start);
        PendingOne(Phys(), idx);
        ghost var start1 := start;
        idx := idx + 1;
        if start == 0 { start := fblk; }
        if start + cnt != fblk {
          broke := true;
          PendingFirst(Phys(), idx - 1, cnt, start1);
          break;
        }
        cnt := cnt + 1;
      }
    }

    /** After `w` bytes of `buf` went to position `p` of a file that held `s`. */
    ghost predicate Holds(s: Bytes, p: nat, buf: Bytes, w: nat, was: Was)
      requires Bs() > 0
      reads ref, dev`disk
    {
      && Progress(dev.disk, dev.partOffset, Phys(), Bs(), s, p, buf, w)
      && Beside(was.disk, dev.disk, dev.partOffset, Phys(), Bs()) && (was.sound ==> Sound())
      && LimitKept(was.snap, was.have)
    }

    /** Writes to a run of blocks. */
    method WriteRunOf(buf: Bytes, w: nat, ghost idx: nat, cnt: nat, start: nat, ghost s: Bytes, ghost p: nat,
                      ghost was: Was)
      returns (r: Errno, ghost k: nat)
      requires Core() && Contiguous(Phys(), idx, cnt, start) && Holds(s, p, buf, w, was)
      requires p + w == idx * Bs() && w + cnt * Bs() <= |buf|
      modifies dev`disk
      ensures k <= cnt * Bs() && Holds(s, p, buf, w + k, was) && (r == EOK ==> k == cnt * Bs())
      ensures cnt == 0 || was.sound ==> r == EOK
    {
      hide D.PowerOfTwo, InodeRef.Valid, InodeRef.Tight, InodeRef.BlockSize, CountOf, Contiguous, Progress, D.Wrote,
          Beside, D.SoundSize, SoundOn, SameLimit, InodeRef.S;
      PhysDistinct(ref);
      PlaceOf(start * Bs());
      SoundRun(idx, cnt, start);
      ghost var d := dev.disk;
      var dr;
      dr, k := dev.SetDirect(buf[w..w + cnt * Bs()], start, cnt, Bs());
      r := Of(dr);
      ProgressRun(d, dev.disk, dev.partOffset, Phys(), Bs(), s, p, buf, w, idx, cnt, start, 0, cnt * Bs(), k);
      BesideRun(was.disk, d, dev.disk, dev.partOffset, Phys(), Bs(), idx, cnt, start, 0, buf[w..w + cnt * Bs()], k);
    }

    /** Writes to a part of one block. */
    method WritePart(buf: Bytes, w: nat, len: nat, ghost idx: nat, u: nat, fblk: u32, ghost s: Bytes, ghost p: nat,
                     ghost was: Was)
      returns (r: Errno, ghost k: nat)
      requires Core() && idx < |Phys()| && fblk == Phys()[idx] && Holds(s, p, buf, w, was)
      requires p + w == idx * Bs() + u && u + len <= Bs() && w + len <= |buf|
      modifies dev`disk, dev.bbuf
      ensures k <= len && Holds(s, p, buf, w + k, was) && (r == EOK ==> k == len)
      ensures was.sound ==> r == EOK
    {
      hide D.PowerOfTwo, InodeRef.Valid, InodeRef.Tight, InodeRef.BlockSize, CountOf, Progress, D.Wrote, Beside,
          D.SoundSize, SoundOn, Contiguous, Distinct, D.BlockDev.Start, SameLimit, InodeRef.S;
      PhysDistinct(ref);
      SoundPart(idx, fblk, u, len);
      ghost var d := dev.disk;
      var dr;
      dr, k := dev.WriteBytes(fblk * Bs() + u, buf[w..w + len]);
      r := Of(dr);
      ProgressRun(d, dev.disk, dev.partOffset, Phys(), Bs(), s, p, buf, w, idx, 1, fblk, u, len, k);
      BesideRun(was.disk, d, dev.disk, dev.partOffset, Phys(), Bs(), idx, 1, fblk, u, buf[w..w + len], k);
    }

    /** The main loop of `ext4_fwrite`: whole blocks, run by run. */
    method WriteBlocks(buf: Bytes, w0: nat, idx0: nat, last: nat, ifile: nat, ghost s: Bytes, ghost p: nat,
                       ghost was: Was)
      returns (out: Outcome, w: nat, idx: nat, ghost k: nat)
      requires Core() && w0 <= |buf| && fpos == p + w0 && Holds(s, p, buf, w0, was)
      requires last * Bs() <= p + |buf| < last * Bs() + Bs() && (w0 < |buf| ==> fpos == idx0 * Bs())
      requires Sized(|Phys()|, ref.size, |s|, Bs(), ifile, idx0) && Reached(fpos, Bs(), ifile, idx0)
      modifies this`fpos, ref`direct, ref`indirect, ref`disk, ref`used, ref`blocks, ref`size, dev`disk
      ensures Core() && ref.Others() == old(ref.Others())
      ensures w0 <= w <= k <= |buf| && fpos == p + w && Holds(s, p, buf, k, was) && (out != DeviceError ==> k == w)
      ensures Sized(|Phys()|, ref.size, |s|, Bs(), ifile, idx) && (out != DeviceError ==>
              Reached(fpos, Bs(), ifile, idx))
      ensures out == Done ==> |buf| - w < Bs() && (w < |buf| ==> fpos == idx * Bs())
      ensures out == NoBlock ==> |buf| - w >= Bs() && fpos == idx * Bs() && Full() && |Phys()| == idx < last
      ensures out == DeviceError ==> w < |buf| && fpos <= ref.size && !was.sound
    {
      hide D.PowerOfTwo, InodeRef.Valid, InodeRef.Tight, InodeRef.BlockSize, InodeRef.Others, CountOf, Pending, Core,
          Going, Collected, Contiguous, Reached, Full, FileBytes, Holds;
      out, w, idx, k := Done, w0, idx0, w0;
      var start: nat, cnt: nat, fblk: u32 := 0, 0, 0;
      GoingFirst(Phys(), Bs(), idx0, last, fpos, |buf| - w0);
      while |buf| - w >= Bs()
        invariant Core() && ref.Others() == old(ref.Others()) && w0 <= w <= |buf| && fpos == p + w && k == w
        invariant Going(Phys(), Bs(), idx, cnt, start, last, fpos, |buf| - w)
        invariant Holds(s, p, buf, w, was) && Sized(|Phys()|, ref.size, |s|, Bs(), ifile, idx)
        invariant |buf| - w < Bs() ==> Reached(fpos, Bs(), ifile, idx)
        decreases |buf| - w
      {
        ghost var idx1, cnt1, broke, pm := idx, cnt, false, Phys();
        GoingIs(pm, Bs(), idx, cnt, start, last, fpos, |buf| - w);
        var rr: Errno, r: Errno;
        rr, idx, start, cnt, fblk, broke := CollectGrow(idx, last, ifile, start, cnt, fblk, s, p, buf, w, was);
        ghost var first: nat := idx1 - cnt1;
        if rr == EOK {
          GoingOn(Phys(), Bs(), idx1, cnt1, last, idx, start, cnt, fblk, broke, fpos, |buf| - w);
        } else {
          GoingStop(Phys(), Bs(), first, last, idx, start, cnt, fpos, |buf| - w);
        }
        ghost var n;
        r, n := WriteRunOf(buf, w, first, cnt, start, s, p, was);
        k := w + n;
        if r != EOK {
          FposIn(Phys(), ref.size, |s|, Bs(), ifile, idx, first, cnt, start);
          out := DeviceError;
          return;
        }
        w := w + cnt * Bs();
        fpos := fpos + cnt * Bs();
        ReachedAt(fpos, Bs(), ifile, idx);
        start, cnt := fblk, 1;
        if rr != EOK {
          out := NoBlock;
          return;
        }
      }
      if w < |buf| { GoingIs(Phys(), Bs(), idx, cnt, start, last, fpos, |buf| - w); }
    }

    /** The first part of `ext4_fwrite`: up to the end of a block, if not at the start of one. */
    method WriteHead(buf: Bytes, ghost s: Bytes, ghost was: Was) returns (out: Outcome, w: nat, idx: nat, ghost k: nat)
      requires Core() && fpos <= ref.size && s == Contents() && 0 < |buf|
      requires was == Was(dev.disk, Sound(), ref.S(), |Phys()|)
      modifies this`fpos, dev`disk, dev.bbuf
      ensures w <= k <= |buf| && fpos == old(fpos) + w && Holds(s, old(fpos), buf, k, was)
      ensures out == Done ==> k == w && (w < |buf| ==> fpos == idx * Bs())
      ensures out != Done ==> out == DeviceError && w == 0 < |buf| && !was.sound
      ensures out == Done ==> idx <= CountOf(ref.size, Bs()) && Reached(fpos, Bs(), CountOf(ref.size, Bs()), idx)
    {
      hide D.PowerOfTwo, InodeRef.Valid, InodeRef.Tight, InodeRef.BlockSize, CountOf, FileBytes, Sound, SameLimit,
          InodeRef.S, Progress, Beside, Reached, FullBlocks;
      out, w, k := Done, 0, 0;
      LimitSame(ref.per, ref.total, ref.S(), |Phys()|);
      ghost var p := fpos;
      var unalg;
      idx, unalg := Split(fpos);
      CountCovers(ref.size, Bs());
      HoldsNone(dev.disk, dev.partOffset, Phys(), Bs(), s, p, buf);
      UnwrittenBeside(dev.disk, dev.partOffset, Phys(), Bs());
      LastIn(ref.size, Bs(), idx, fpos);
      if unalg > 0 {
        var len := if |buf| > Bs() - unalg then Bs() - unalg else |buf|;
        InFile(ref.size, Bs(), idx, fpos);
        var fblk := BlockOf(idx);
        var r;
        r, k := WritePart(buf, 0, len, idx, unalg, fblk, s, p, was);
        if r != EOK {
          out := DeviceError;
          return;
        }
        w := len;
        fpos := fpos + len;
        D.NextSector(idx, Bs());
        idx := idx + 1;
      }
      ReachedBefore(fpos, Bs(), CountOf(ref.size, Bs()), idx);
    }

    /** The last part of `ext4_fwrite`: what is left, less than a block. */
    method WriteTail(buf: Bytes, w0: nat, idx0: nat, ifile: nat, ghost s: Bytes, ghost p: nat, ghost was: Was)
      returns (out: Outcome, w: nat, ghost idx: nat, ghost k: nat)
      requires Core() && w0 < |buf| < w0 + Bs() && fpos == p + w0 == idx0 * Bs() && Holds(s, p, buf, w0, was)
      requires Sized(|Phys()|, ref.size, |s|, Bs(), ifile, idx0)
      modifies this`fpos, ref`direct, ref`indirect, ref`disk, ref`used, ref`blocks, ref`size, dev`disk, dev.bbuf
      ensures Core() && ref.Others() == old(ref.Others())
      ensures w0 <= w <= k <= |buf| && fpos == p + w && Holds(s, p, buf, k, was) && (out != DeviceError ==> k == w)
      ensures Sized(|Phys()|, ref.size, |s|, Bs(), ifile, idx) && (out != DeviceError ==>
              Reached(fpos, Bs(), ifile, idx))
      ensures out == Done ==> w == |buf|
      ensures out == NoBlock ==> w == w0 && Full() && |Phys()| * Bs() == fpos
      ensures out == DeviceError ==> w < |buf| && fpos <= ref.size && !was.sound
    {
      hide D.PowerOfTwo, InodeRef.Valid, InodeRef.Tight, InodeRef.BlockSize, InodeRef.Others, CountOf, Core, Progress,
          Beside, Sound, Full, Holds;
      out, w, idx, k := Done, w0, idx0, w0;
      var fblk: u32;
      if idx0 < ifile {
        fblk := BlockOf(idx0);
      } else {
        var r, at;
        r, fblk, at := GrowFor(s, p, buf, w, was);
        if r != EOK {
          ReachedAt(fpos, Bs(), ifile, idx0);
          out := NoBlock;
          return;
        }
      }
      idx := idx0 + 1;
      var r: Errno;
      ghost var n;
      r, n := WritePart(buf, w, |buf| - w, idx0, 0, fblk, s, p, was);
      k := w + n;
      if r != EOK {
        OneBlock(Phys(), idx0);
        FposIn(Phys(), ref.size, |s|, Bs(), ifile, idx, idx0, 1, fblk);
        out := DeviceError;
        return;
      }
      fpos := fpos + (|buf| - w);
      w := |buf|;
      ReachedIn(fpos, Bs(), ifile, idx0);
    }

    /** The main loop of `ext4_fwrite` and its last part, with write-back on in between. */
    method WriteBody(buf: Bytes, w0: nat, idx0: nat, ifile: nat, ghost s: Bytes, ghost p: nat, ghost was: Was)
      returns (out: Outcome, w: nat, ghost idx: nat, ghost k: nat)
      requires Core() && w0 <= |buf| && fpos == p + w0 && Holds(s, p, buf, w0, was)
      requires Sized(|Phys()|, ref.size, |s|, Bs(), ifile, idx0) && Reached(fpos, Bs(), ifile, idx0)
      requires w0 < |buf| ==> fpos == idx0 * Bs()
      modifies this`fpos, this`writeBack, ref`direct, ref`indirect, ref`disk, ref`used, ref`blocks, ref`size, dev`disk,
          dev.bbuf
      ensures Core() && ref.Others() == old(ref.Others()) && Holds(s, p, buf, k, was)
      ensures w0 <= w <= k <= |buf| && fpos == p + w && (out == Done <==> w == |buf|)
      ensures Sized(|Phys()|, ref.size, |s|, Bs(), ifile, idx)
      ensures out != DeviceError ==> k == w && Reached(fpos, Bs(), ifile, idx)
      ensures out == NoBlock ==> Full() && fpos == |Phys()| * Bs()
      ensures out == DeviceError ==> fpos <= ref.size && !was.sound
      ensures writeBack == old(writeBack) + if out == NoBlock && |buf| - w >= Bs() then 1 else 0
      ensures out != DeviceError ==>
                (out == NoBlock && |buf| - w >= Bs() <==>
                   TooMany(ref.per, ref.total, was.snap, was.have, FullBlocks(p + |buf|, Bs())))
    {
      hide D.PowerOfTwo, InodeRef.Valid, InodeRef.Tight, InodeRef.BlockSize, InodeRef.Others, CountOf, Core, Sized,
          Reached, Full, Holds, FullBlocks, TooMany, Solid, OutsideAll;
      CoreBs();
      var last, rest := Split(fpos + (|buf| - w0));
      var at;
      writeBack := writeBack + 1;
      out, w, at, k := WriteBlocks(buf, w0, idx0, last, ifile, s, p, was);
      if out != NoBlock { writeBack := writeBack - 1; }
      if out != DeviceError { Decided(s, p, buf, w, ifile, at, last, out == NoBlock, was); }
      idx := at;
      if out == Done && w < |buf| {
        out, w, idx, k := WriteTail(buf, w, at, ifile, s, p, was);
      }
    }

    /** All of `ext4_fwrite` after its first part. */
    method WriteRest(buf: Bytes, w0: nat, idx0: nat, ifile: nat, ghost s: Bytes, ghost p: nat, ghost was: Was)
      returns (wcnt: nat, ghost out: Outcome, ghost k: nat)
      requires Core() && fsize == |s| && w0 <= |buf| && fpos == p + w0 && Holds(s, p, buf, w0, was)
      requires Sized(|Phys()|, ref.size, |s|, Bs(), ifile, idx0) && Reached(fpos, Bs(), ifile, idx0)
      requires w0 < |buf| ==> fpos == idx0 * Bs()
      modifies this, ref`direct, ref`indirect, ref`disk, ref`used, ref`blocks, ref`size, dev`disk, dev.bbuf
      ensures Valid() && ref.Others() == old(ref.Others())
      ensures w0 <= wcnt <= k <= |buf| && fpos == p + wcnt && (out == Done <==> wcnt == |buf|)
      ensures out != DeviceError ==> k == wcnt && Contents() == Overwrite(s, p, buf[..wcnt]) && fsize == ref.size
      ensures out == DeviceError ==> ref.size >= |s| && Alike(Contents(), Overwrite(s, p, buf[..k])) && !was.sound
      ensures writeBack == old(writeBack) + if out == NoBlock && |buf| - wcnt >= Bs() then 1 else 0
      ensures Beside(was.disk, dev.disk, dev.partOffset, Phys(), Bs()) && (was.sound ==> Sound())
      ensures out == NoBlock ==> Full() && fpos == |Phys()| * Bs()
      ensures LimitKept(was.snap, was.have)
      ensures out != DeviceError ==>
                (out == NoBlock && |buf| - wcnt >= Bs() <==>
                   TooMany(ref.per, ref.total, was.snap, was.have, FullBlocks(p + |buf|, Bs())))
    {
      hide D.PowerOfTwo, InodeRef.Valid, InodeRef.Tight, InodeRef.BlockSize, InodeRef.Others, CountOf, Progress, Core,
          FileBytes, Sized, Reached, Overwrite, Alike, Beside, Sound, Full, Holds, LimitKept, InodeRef.S,
          FullBlocks, TooMany;
      var o;
      ghost var end;
      o, wcnt, end, k := WriteBody(buf, w0, idx0, ifile, s, p, was);
      out := o;
      CoreBs();
      HoldsLimit(s, p, buf, k, was);
      HoldsBeside(s, p, buf, k, was);
      if o == DeviceError {
        Failed(s, p, buf, k, ifile, end, was);
      } else {
        SetSize(s, p, buf, wcnt, ifile, end, was);
      }
    }

    /** `ext4_fwrite`. What was written stands in the file from the old position on, and nothing
        else changed; the file grows as needed. Of a write that the device fails, some more bytes
        may be written than are reported. The result is that of putting the inode back, so errors
        do not show in it. Unless the device fails, all is written just if the file can hold the blocks
        up to its end; if not, it is written up to the last block that the file can hold, and if that
        is before the last whole block, write-back stays on. */
    method Fwrite(buf: Bytes) returns (r: Errno, wcnt: nat, ghost out: Outcome, ghost k: nat)
      requires Valid()
      modifies this, ref`direct, ref`indirect, ref`disk, ref`used, ref`blocks, ref`size, dev`disk, dev.bbuf
      ensures Valid() && ref.Others() == old(ref.Others()) && r == EOK
      ensures fpos == old(fpos) + wcnt && wcnt <= k <= |buf| && (out == Done <==> wcnt == |buf|)
      ensures out != DeviceError ==> k == wcnt && Contents() == Overwrite(old(Contents()), old(fpos), buf[..wcnt])
      ensures out != DeviceError && |buf| > 0 ==> fsize == ref.size
      ensures out == DeviceError ==>
                ref.size >= old(ref.size) && Alike(Contents(), Overwrite(old(Contents()), old(fpos), buf[..k]))
      ensures writeBack == old(writeBack) + if out == NoBlock && |buf| - wcnt >= Bs() then 1 else 0
      ensures Beside(old(dev.disk), dev.disk, dev.partOffset, Phys(), Bs())
      ensures old(Sound()) ==> Sound() && out != DeviceError
      ensures out == NoBlock ==> Full()
      ensures out == NoBlock ==> old(CannotHold(CountOf(fpos + |buf|, Bs())))
      ensures out == Done ==> !old(CannotHold(CountOf(fpos + |buf|, Bs())))
      ensures out != DeviceError ==>
                writeBack == old(writeBack) + if old(CannotHold(FullBlocks(fpos + |buf|, Bs()))) then 1 else 0
      ensures out == NoBlock ==>
                var n := |Phys()|;
                && fpos == n * Bs() && !TooMany(ref.per, ref.total, old(ref.S()), |old(Phys())|, n)
                && TooMany(ref.per, ref.total, old(ref.S()), |old(Phys())|, n + 1)
    {
      hide D.PowerOfTwo, InodeRef.Valid, InodeRef.Tight, InodeRef.BlockSize, InodeRef.Others, CountOf, Progress, Core,
          FileBytes, Reached, Alike, Beside, Sound, Full, LimitKept, InodeRef.S, TooMany, FullBlocks;
      r, wcnt, out, k := EOK, 0, Done, 0;
      CoreBs();
      ghost var s, p := Contents(), fpos;
      ghost var was := Was(dev.disk, Sound(), ref.S(), |Phys()|);
      Unwritten(s, p, buf);
      UnwrittenBeside(dev.disk, dev.partOffset, Phys(), Bs());
      EnoughFor(fpos + |buf|);
      if |buf| == 0 { return; }
      fsize := ref.size;
      var ifile := CountOf(fsize, Bs());
      var o, idx;
      o, wcnt, idx, k := WriteHead(buf, s, was);
      out := o;
      if o == Done {
        wcnt, out, k := WriteRest(buf, wcnt, idx, ifile, s, p, was);
        LimitTells(was.snap, was.have, CountOf(p + |buf|, Bs()));
        LimitTells(was.snap, was.have, |Phys()|);
        LimitTells(was.snap, was.have, |Phys()| + 1);
        EnoughFor(p + |buf|);
      } else {
        Failed(s, p, buf, k, ifile, ifile, was);
      }
    }

    /** The end of `ext4_fwrite`, at `out_fsize`. */
    method SetSize(ghost s: Bytes, ghost p: nat, ghost buf: Bytes, ghost w: nat, ghost ifile: nat, ghost idx: nat,
                   ghost was: Was)
      requires Core() && fsize == |s| && fpos == p + w && Holds(s, p, buf, w, was)
      requires Sized(|Phys()|, ref.size, |s|, Bs(), ifile, idx) && Reached(fpos, Bs(), ifile, idx)
      modifies this`fsize, ref`size
      ensures Valid() && ref.Others() == old(ref.Others()) && fsize == ref.size
      ensures Contents() == Overwrite(s, p, buf[..w]) && Phys() == old(Phys())
      ensures (old(Full()) ==> Full()) && (old(Sound()) ==> Sound()) && LimitKept(was.snap, was.have)
    {
      hide InodeRef.Valid, InodeRef.BlockSize, InodeRef.Others, CountOf, FileBytes, Beside, SameLimit;
      NewSize(|Phys()|, ref.size, |s|, Bs(), ifile, idx, fpos);
      ghost var pm := Phys();
      if fpos > fsize {
        fsize := fpos;
        ref.size := fsize;
      }
      assert Phys() == pm;
    }

    lemma HoldsLimit(s: Bytes, p: nat, buf: Bytes, w: nat, was: Was)
      requires Bs() > 0 && Holds(s, p, buf, w, was)
      ensures LimitKept(was.snap, was.have)
    {
    }

    /** The number of blocks tells what the file could not grow to. */
    lemma LimitTells(s: Snap, have: nat, want: nat)
      requires LimitKept(s, have)
      ensures |Phys()| >= want ==> !TooMany(ref.per, ref.total, s, have, want)
      ensures Full() && |Phys()| < want ==> TooMany(ref.per, ref.total, s, have, want)
    {
      hide Short, CountOf, InodeRef.BlockSize, Exhausted;
      if Full() { LimitReached(ref.per, ref.total, ref.S(), |Phys()|); }
    }

    /** A file that reaches so far has all blocks up to there. */
    lemma EnoughFor(bytes: nat)
      requires Core()
      ensures bytes <= ref.size ==> CountOf(bytes, Bs()) <= |Phys()| && !CannotHold(CountOf(bytes, Bs()))
      ensures bytes <= ref.size ==> !CannotHold(FullBlocks(bytes, Bs()))
      ensures |Phys()| * Bs() < bytes ==> |Phys()| < CountOf(bytes, Bs())
    {
      hide InodeRef.Valid, InodeRef.Tight, D.PowerOfTwo, CountOf, Short;
      CountCovers(bytes, Bs());
      D.Whole(bytes, Bs());
      FewerFull(bytes, Bs());
      if bytes <= ref.size { CountGrows(bytes, ref.size, Bs()); }
      if CountOf(bytes, Bs()) <= |Phys()| { D.Sectors(CountOf(bytes, Bs()), |Phys()|, Bs()); }
    }

    /** Whether all whole blocks could be written, told by the state at first. */
    lemma Decided(s: Bytes, p: nat, buf: Bytes, w: nat, ifile: nat, idx: nat, last: nat, short: bool, was: Was)
      requires Bs() > 0 && Holds(s, p, buf, w, was) && Sized(|Phys()|, ref.size, |s|, Bs(), ifile, idx)
      requires w <= |buf| && fpos == p + w && last * Bs() <= p + |buf|
      requires if short then Full() && |Phys()| == idx < last else
               |buf| - w < Bs() && Reached(fpos, Bs(), ifile, idx)
      ensures short <==> TooMany(ref.per, ref.total, was.snap, was.have, last)
    {
      hide CountOf, InodeRef.BlockSize, Progress, Beside, Sound, Sized, Reached, Full, TooMany, SameLimit;
      LimitTells(was.snap, was.have, last);
      if !short { LastCovered(|Phys()|, ref.size, |s|, Bs(), ifile, idx, fpos, last, |buf| - w); }
    }

    lemma HoldsBeside(s: Bytes, p: nat, buf: Bytes, w: nat, was: Was)
      requires Bs() > 0 && Holds(s, p, buf, w, was)
      ensures Beside(was.disk, dev.disk, dev.partOffset, Phys(), Bs()) && (was.sound ==> Sound())
    {
    }

    lemma Failed(s: Bytes, p: nat, buf: Bytes, k: nat, ifile: nat, idx: nat, was: Was)
      requires Core() && Holds(s, p, buf, k, was) && Sized(|Phys()|, ref.size, |s|, Bs(), ifile, idx)
      ensures ref.size >= |s| && Alike(Contents(), Overwrite(s, p, buf[..k]))
    {
      hide D.PowerOfTwo, InodeRef.Valid, InodeRef.Tight, InodeRef.BlockSize, CountOf, FileBytes;
      var t := Overwrite(s, p, buf[..k]);
      var m := if |t| < ref.size then |t| else ref.size;
      CountCovers(ref.size, Bs());
      CountCovers(|s|, Bs());
      FewerBytes(dev.disk, dev.partOffset, Phys(), Bs(), m, |t|);
      FewerBytes(dev.disk, dev.partOffset, Phys(), Bs(), m, ref.size);
      D.Sectors(ifile, |Phys()|, Bs());
      assert Contents()[..m] == t[..m];
      AlikeIs(Contents(), t, m);
    }
  }

  // ----- A write that is cut short unnoticed

  const ONE_K := 1024

  lemma SectorSize()
    ensures D.PowerOfTwo(512)
  {
    assert D.PowerOfTwo(2) && D.PowerOfTwo(4);
    assert D.PowerOfTwo(8) && D.PowerOfTwo(16);
    assert D.PowerOfTwo(32) && D.PowerOfTwo(64);
    assert D.PowerOfTwo(128) && D.PowerOfTwo(256);
  }

  /** With one block free, an empty file can hold one block, and no more. */
  lemma OnlyOne(s: Snap, per: nat)
    requires s.used == {} && per > 0 && s.rs == NoBlocks()
    ensures forall n: nat :: TooMany(per, 2, s, 0, n) <==> n >= 2
  {
    hide Lacks, LevelOf;
    assert FreeSet({}, 2) == {1};
    DirectFills(s.disk, s.rs, per, 0, 0);
    OneIsShort(s.disk, s.rs, per, s.used, 2, 0);
    DirectLevel(s.disk, s.rs, per, 0);
  }

  lemma SmallSizes(ref: InodeRef)
    requires ref.per == 256 && ref.total == 2
    ensures ref.BlockSize() == ONE_K && ref.BlockSize() % 512 == 0 && 0 % 512 == 0 && (2 * ONE_K) % 512 == 0
    ensures CountOf(0, ref.BlockSize()) == 0
  {
  }

  /** An empty file on a file system with one block free, on a sound device. */
  method SmallFile() returns (f: File)
    ensures fresh(f) && fresh(f.ref) && fresh(f.dev) && fresh(f.dev.bbuf) && f.Valid() && f.Sound()
    ensures f.fpos == f.writeBack == 0 && f.Bs() == ONE_K && f.Contents() == [] && |f.Phys()| == 0
    ensures forall n: nat :: TooMany(f.ref.per, f.ref.total, f.ref.S(), 0, n) <==> n >= 2
  {
    hide InodeRef.Valid, InodeRef.Tight, CountOf, TooMany, FileBytes, D.PowerOfTwo, InodeRef.BlockSize, MapOk, All,
        Found, NoBlocks;
    SectorSize();
    var ref := new InodeRef(256, 2, {});
    SmallSizes(ref);
    var dev := new D.BlockDev(512, 0, 2 * ONE_K, true, seq(2 * ONE_K, _ => 0));
    OnlyOne(ref.S(), ref.per);
    f := new File(ref, dev);
  }

  /** Two blocks are written to it: one goes there, the call reports success, and write-back stays on. */
  method CutWrite() returns (f: File, r: Errno, wcnt: nat)
    ensures fresh(f) && f.Valid() && f.Sound()
    ensures r == EOK && wcnt == ONE_K && f.writeBack == 1
    ensures f.Contents() == seq(ONE_K, _ => 1)
  {
    hide InodeRef.Valid, InodeRef.Tight, CountOf, TooMany, FileBytes, D.PowerOfTwo, File.Valid, File.Sound, InodeRef.S,
        InodeRef.BlockSize, FullBlocks, Alike, Beside, File.Full;
    f := SmallFile();
    TwoBlocks();
    var buf: Bytes := seq(2 * ONE_K, _ => 1);
    ghost var out, k, per, total, s := Done, 0, f.ref.per, f.ref.total, f.ref.S();
    r, wcnt, out, k := f.Fwrite(buf);
    OneFits(per, total, s, |f.Phys()|, f.Bs(), f.fpos);
    NewContents(buf);
  }

  lemma OneFits(per: nat, total: u32, s: Snap, m: nat, bs: nat, fpos: nat)
    requires forall n: nat :: TooMany(per, total, s, 0, n) <==> n >= 2
    requires fpos == m * bs && !TooMany(per, total, s, 0, m) && TooMany(per, total, s, 0, m + 1)
    ensures fpos == bs
  {
    hide TooMany;
  }

  lemma NewContents(buf: Bytes)
    requires buf == seq(2 * ONE_K, _ => 1)
    ensures Overwrite([], 0, buf[..ONE_K]) == seq(ONE_K, _ => 1)
  {
  }

  lemma TwoBlocks()
    ensures CountOf(2 * ONE_K, ONE_K) == 2 && FullBlocks(2 * ONE_K, ONE_K) == 2
  {
  }

  /** As far as both go, the same bytes. */
  ghost predicate Alike(a: Bytes, b: Bytes) {
    forall i :: 0 <= i < |a| && i < |b| ==> a[i] == b[i]
  }

  lemma AlikeIs(a: Bytes, b: Bytes, m: nat)
    requires m == (if |b| < |a| then |b| else |a|) && a[..m] == b[..m]
    ensures Alike(a, b)
  {
    forall i | 0 <= i < |a| && i < |b|
      ensures a[i] == b[i]
    {
      assert a[..m][i] == b[..m][i];
    }
  }

  lemma UnwrittenBeside(d: Bytes, po: nat, pm: seq<u32>, bs: nat)
    ensures Beside(d, d, po, pm, bs)
  {
  }

  lemma Unwritten(s: Bytes, p: nat, buf: Bytes)
    requires p <= |s|
    ensures |buf| == 0 ==> Overwrite(s, p, buf[..0]) == s
  {
  }

  /** The position is in the last block that was appended, if any was. */
  ghost predicate Reached(fpos: nat, bs: nat, ifile: nat, idx: nat) {
    if idx > ifile then (idx - 1) * bs < fpos <= idx * bs else fpos <= ifile * bs
  }

  lemma ReachedAt(fpos: nat, bs: nat, ifile: nat, idx: nat)
    requires bs > 0
    ensures fpos == idx * bs ==> Reached(fpos, bs, ifile, idx)
  {
    if idx > ifile { D.Further(idx - 1, idx, bs); } else { D.Sectors(idx, ifile, bs); }
  }

  lemma ReachedBefore(fpos: nat, bs: nat, ifile: nat, idx: nat)
    requires bs > 0 && idx <= ifile && fpos <= idx * bs
    ensures Reached(fpos, bs, ifile, idx)
  {
    D.Sectors(idx, ifile, bs);
  }

  lemma ReachedIn(fpos: nat, bs: nat, ifile: nat, idx: nat)
    requires idx * bs < fpos < idx * bs + bs
    ensures Reached(fpos, bs, ifile, idx + 1)
  {
    D.NextSector(idx, bs);
    if idx + 1 <= ifile { D.Sectors(idx + 1, ifile, bs); }
  }

  lemma FewerFull(bytes: nat, bs: nat)
    requires bs > 0
    ensures FullBlocks(bytes, bs) <= CountOf(bytes, bs)
  {
    hide CountOf;
    CountCovers(bytes, bs);
    D.Whole(bytes, bs);
    if FullBlocks(bytes, bs) > CountOf(bytes, bs) { D.Further(CountOf(bytes, bs), FullBlocks(bytes, bs), bs); }
  }

  /** Whole blocks up to the position are among those of the file. */
  lemma LastCovered(count: nat, size: nat, n0: nat, bs: nat, ifile: nat, idx: nat, fpos: nat, last: nat, left: nat)
    requires bs > 0 && Sized(count, size, n0, bs, ifile, idx) && Reached(fpos, bs, ifile, idx)
    requires last * bs <= fpos + left && left < bs
    ensures last <= count
  {
    if last > count { D.Further(count, last, bs); }
  }

  /** The new size takes just the blocks that the file has. */
  lemma NewSize(count: nat, size: nat, n0: nat, bs: nat, ifile: nat, idx: nat, fpos: nat)
    requires bs > 0 && Sized(count, size, n0, bs, ifile, idx) && Reached(fpos, bs, ifile, idx)
    ensures var n := if fpos > n0 then fpos else n0; CountOf(n, bs) == count && fpos <= n
    ensures fpos <= n0 ==> size == n0
  {
    var n := if fpos > n0 then fpos else n0;
    CountCovers(n0, bs);
    if ifile > 0 { D.NextSector(ifile - 1, bs); }
    if idx > ifile {
      D.Sectors(ifile, idx - 1, bs);
      CountIs(n, bs, idx);
    } else {
      CountIs(n, bs, ifile);
    }
  }

  lemma CountIs(n: nat, bs: nat, c: nat)
    requires bs > 0 && n <= c * bs < n + bs
    ensures CountOf(n, bs) == c
  {
    CountCovers(n, bs);
    var q := CountOf(n, bs);
    if q < c { D.Further(q, c, bs); }
    if q > c { D.Further(c, q, bs); }
  }

  lemma ProgressGrown(d: Bytes, po: nat, pm: seq<u32>, pm': seq<u32>, bs: nat, s: Bytes, p: nat, buf: Bytes, w: nat)
    requires bs > 0 && Progress(d, po, pm, bs, s, p, buf, w) && pm <= pm'
    ensures Progress(d, po, pm', bs, s, p, buf, w)
  {
    hide Progress;
    var more := pm'[|pm|..];
    assert pm' == pm + more;
    ProgressMore(d, po, pm, more, bs, s, p, buf, w);
  }

  /** A run that ends because no block could be appended. */
  lemma GoingStop(pm: seq<u32>, bs: nat, first: nat, last: nat, idx: nat, start: nat, cnt: nat, fpos: nat, left: nat)
    requires bs > 0 && last * bs <= fpos + left && fpos == first * bs && idx == first + cnt < last
            && Pending(pm, idx, cnt, start)
    ensures Contiguous(pm, first, cnt, start) && fpos + cnt * bs == idx * bs && left - cnt * bs >= bs
  {
    D.SumRows(first, cnt, bs);
    D.Further(idx, last, bs);
  }

  /** A run begins within the file. */
  lemma FposIn(pm: seq<u32>, size: nat, n0: nat, bs: nat, ifile: nat, idx: nat, first: nat, cnt: nat, start: nat)
    requires bs > 0 && Sized(|pm|, size, n0, bs, ifile, idx) && cnt > 0 && Contiguous(pm, first, cnt, start)
    ensures first * bs <= size
  {
    CountCovers(n0, bs);
    D.Further(first, |pm|, bs);
  }

  /** How a write ends: complete, without a block to append, or with an error of the device. */
  datatype Outcome = Done | NoBlock | DeviceError

  lemma HoldsNone(d: Bytes, po: nat, pm: seq<u32>, bs: nat, s: Bytes, p: nat, buf: Bytes)
    requires bs > 0 && p <= |s| <= |pm| * bs && s == FileBytes(d, po, pm, bs, |s|)
    ensures Progress(d, po, pm, bs, s, p, buf, 0)
  {
    assert Overwrite(s, p, buf[..0]) == s;
  }

  /** Blocks and size while a file grows: at first those of `n0` bytes, `ifile` blocks; appended
      blocks are whole. */
  ghost predicate Sized(count: nat, size: nat, n0: nat, bs: nat, ifile: nat, idx: nat) {
    && ifile == CountOf(n0, bs) && count == (if idx > ifile then idx else ifile)
    && size == if count == ifile then n0 else count * bs
  }

  lemma CountTimes(cnt: nat, bs: nat)
    requires bs > 0
    ensures CountOf(cnt * bs, bs) == cnt
  {
    CountCovers(cnt * bs, bs);
    var c := CountOf(cnt * bs, bs);
    if c < cnt { D.Further(c, cnt, bs); }
    if c > cnt { D.Further(cnt, c, bs); }
  }

  lemma Joined(s: Bytes, a: nat, b: nat, c: nat, x: Bytes, y: Bytes)
    requires a <= b <= c <= |s| && x == s[a..b] && y == s[b..c]
    ensures x + y == s[a..c] && |x + y| == c - a
  {
  }

  lemma OneBlock(pm: seq<u32>, idx: nat)
    requires idx < |pm|
    ensures Contiguous(pm, idx, 1, pm[idx])
  {
  }

  /** A block that begins before the end of the file is one of its blocks. */
  lemma InFile(size: nat, bs: nat, idx: nat, end: nat)
    requires bs > 0 && idx * bs < end <= size
    ensures idx < CountOf(size, bs)
  {
    CountCovers(size, bs);
    if CountOf(size, bs) <= idx { D.Sectors(CountOf(size, bs), idx, bs); }
  }

  /** What the collecting of a run found: a run that reaches `last`, or ends before a block that
      begins the next. */
  ghost predicate Collected(pm: seq<u32>, idx0: nat, cnt0: nat, last: nat, idx: nat, start: nat, cnt: nat,
          fblock: u32, broke: bool) {
    && (cnt0 > 0 || idx0 < last ==> cnt > 0)
    && (!broke ==> idx == last && Pending(pm, idx, cnt, start) && idx - cnt == idx0 - cnt0)
    && (broke ==> idx > idx0 && Pending(pm, idx - 1, cnt, start) && idx - 1 - cnt == idx0 - cnt0
                  && Pending(pm, idx, 1, fblock as nat))
  }

  /** In the middle of reading or writing whole blocks up to block `last`, with a run pending. */
  ghost predicate Going(pm: seq<u32>, bs: nat, idx: nat, cnt: nat, start: nat, last: nat, fpos: nat, left: nat) {
    && bs > 0 && last * bs <= fpos + left < last * bs + bs
    && (left >= bs ==> idx <= last && Pending(pm, idx, cnt, start) && fpos == (idx - cnt) * bs)
    && (0 < left < bs ==> idx == last && fpos == idx * bs)
  }

  lemma GoingFirst(pm: seq<u32>, bs: nat, idx: nat, last: nat, fpos: nat, left: nat)
    requires bs > 0 && last * bs <= fpos + left < last * bs + bs && (left > 0 ==> fpos == idx * bs)
    requires left > 0 ==> idx <= |pm|
    ensures Going(pm, bs, idx, 0, 0, last, fpos, left)
  {
    if left > 0 {
      if last < idx { D.Further(last, idx, bs); }
      if idx < last { D.Further(idx, last, bs); }
    }
  }

  function Of(e: D.Errno): Errno {
    match e
    case EOK => EOK
    case EIO => EIO
    case EINVAL => EINVAL
  }

  /** Blocks that begin within the file, or at its end, are counted. */
  lemma LastIn(size: nat, bs: nat, last: nat, end: nat)
    requires bs > 0 && last * bs <= end <= size
    ensures last <= CountOf(size, bs)
  {
    CountCovers(size, bs);
    if CountOf(size, bs) < last { D.Further(CountOf(size, bs), last, bs); }
  }

  lemma GoingIs(pm: seq<u32>, bs: nat, idx: nat, cnt: nat, start: nat, last: nat, fpos: nat, left: nat)
    requires Going(pm, bs, idx, cnt, start, last, fpos, left)
    ensures left >= bs ==>
              cnt <= idx <= last && Pending(pm, idx, cnt, start) && fpos == (idx - cnt) * bs && (cnt > 0 || idx < last)
    ensures 0 < left < bs ==> idx == last && fpos == idx * bs
  {
  }

  lemma GoingOn(pm: seq<u32>, bs: nat, idx0: nat, cnt0: nat, last: nat, idx: nat, start: nat, cnt: nat, fblock: u32,
          broke: bool,
                fpos: nat, left: nat)
    requires bs > 0 && last * bs <= fpos + left < last * bs + bs && left >= bs
    requires cnt0 <= idx0 <= idx <= last && fpos == (idx0 - cnt0) * bs && (cnt0 > 0 || idx0 < last)
    requires Collected(pm, idx0, cnt0, last, idx, start, cnt, fblock, broke)
    ensures 0 < cnt * bs <= left && Contiguous(pm, idx0 - cnt0, cnt, start)
    ensures Going(pm, bs, idx, 1, fblock, last, fpos + cnt * bs, left - cnt * bs)
    ensures left - cnt * bs < bs ==> fpos + cnt * bs == idx * bs
  {
    hide Contiguous;
    var first: nat := idx0 - cnt0;
    D.SumRows(first, cnt, bs);
    D.Further(0, cnt, bs);
    D.Sectors(first + cnt, last, bs);
    if broke { D.Further(first + cnt, last, bs); }
  }

  lemma PendingFirst(pm: seq<u32>, idx: nat, cnt: nat, start: nat)
    requires Pending(pm, idx, cnt, start)
    ensures cnt <= idx && (cnt == 0 <==> start == 0)
  {
  }
}
