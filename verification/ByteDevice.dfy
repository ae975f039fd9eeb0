/** Byte ranges of a partition on a device of sectors: an unaligned head, whole sectors, and a
    tail, the ends by way of a sector buffer. */
module ByteDevice {
  import opened Words

  datatype Errno = EOK | EIO | EINVAL

  type Bytes = seq<u8>

  /** The bytes with `b` at position `at`. */
  function Spliced(d: Bytes, at: nat, b: Bytes): (r: Bytes)
    requires at + |b| <= |d|
    ensures |r| == |d|
  {
    d[..at] + b + d[at + |b|..]
  }

  /** The first `k` of the bytes `b` went to position `at`, and nothing else changed. */
  ghost predicate Wrote(d: Bytes, d': Bytes, at: nat, b: Bytes, k: nat) {
    && k <= |b|
    && (k == 0 ==> d' == d)
    && (k > 0 ==> at + k <= |d| && d' == Spliced(d, at, b[..k]))
  }

  lemma WroteFirst(d: Bytes, at: nat, b: Bytes, k: nat)
    requires k <= |b| && at + |b| <= |d|
    ensures Wrote(d, Spliced(d, at, b[..k]), at, b, k)
  {
    if k == 0 { assert Spliced(d, at, b[..0]) == d; }
  }

  lemma WroteMore(d: Bytes, d1: Bytes, d2: Bytes, at: nat, b: Bytes, p: nat, q: nat, k: nat)
    requires p <= q <= |b| && Wrote(d, d1, at, b, p) && Wrote(d1, d2, at + p, b[p..q], k)
    ensures Wrote(d, d2, at, b, p + k)
  {
    if p > 0 && k > 0 {
      assert b[p..q][..k] == b[p..p + k];
      assert Spliced(Spliced(d, at, b[..p]), at + p, b[p..p + k]) == Spliced(d, at, b[..p + k]);
    } else if k > 0 {
      assert b[p..q][..k] == b[..k];
    }
  }

  /** Reading a part, changing a piece of it, and writing it back changes that piece. */
  lemma WrotePart(d: Bytes, d': Bytes, at: nat, n: nat, u: nat, b: Bytes)
    requires at + n <= |d| && u + |b| <= n && d' == Spliced(d, at, Spliced(d[at..at + n], u, b))
    ensures Wrote(d, d', at + u, b, |b|)
  {
    if |b| > 0 { assert b[..|b|] == b; }
  }

  lemma SplicedIs(d: Bytes, at: nat, b: Bytes, r: Bytes)
    requires |r| == |d| && at + |b| <= |d|
    requires forall i :: 0 <= i < |d| ==> r[i] == if at <= i < at + |b| then b[i - at] else d[i]
    ensures r == Spliced(d, at, b)
  {
  }

  /** A sector with a piece changed was written, or not. */
  lemma SectorWritten(d: Bytes, d': Bytes, at: nat, n: nat, u: nat, b: Bytes, data: Bytes, sector: Bytes, k: nat)
    requires u + |b| <= n && at + n <= |d| && data == Range(d, at, n)
    requires |data| == n && sector == Spliced(data, u, b) && Wrote(d, d', at, sector, k) && (k == 0 || k == n)
    ensures k == 0 ==> d' == d
    ensures k == n ==> Wrote(d, d', at + u, b, |b|)
  {
    if k == n && n > 0 {
      assert sector[..n] == sector;
      WrotePart(d, d', at, n, u, b);
    }
  }

  // ----- Masks

  predicate PowerOfTwo(n: nat) {
    n == 1 || (n > 1 && n % 2 == 0 && PowerOfTwo(n / 2))
  }

  /** The bitwise `&`. */
  function And(a: nat, b: nat): nat {
    if a == 0 || b == 0 then 0 else a % 2 * (b % 2) + 2 * And(a / 2, b / 2)
  }

  /** Masking with one less than a power of two is the remainder. */
  lemma {:induction false} MaskIsMod(a: nat, n: nat)
    requires PowerOfTwo(n)
    ensures And(a, n - 1) == a % n
    decreases n
  {
    if n > 1 {
      var c := n / 2;
      MaskIsMod(a / 2, c);
      assert (n - 1) / 2 == c - 1 && (n - 1) % 2 == 1;
      HalfMod(a, c);
    }
  }

  lemma HalfMod(a: nat, c: nat)
    requires c > 0
    ensures a % (2 * c) == a % 2 + 2 * (a / 2 % c)
  {
    Whole(a / 2, c);
    var q := a / 2 / c;
    assert a == q * (2 * c) + (a % 2 + 2 * (a / 2 % c));
    RowIs(a, q, a % 2 + 2 * (a / 2 % c), 2 * c);
  }

  /** A healthy device of whole sectors. */
  ghost predicate SoundSize(healthy: bool, size: nat, bsize: nat)
    requires bsize > 0
  {
    healthy && size % bsize == 0
  }

  class BlockDev {
    /** Bytes of a sector, and where the partition lies. */
    const bsize: nat
    const partOffset: nat
    const partSize: nat

    /** No transfer within the device fails. */
    const healthy: bool

    var disk: Bytes

    /** `ph_bbuf`. */
    const bbuf: array<u8>

    ghost predicate Valid() {
      0 < bsize == bbuf.Length && PowerOfTwo(bsize)
    }

    /** Nothing fails that lies on the device. */
    ghost predicate Sound()
      requires Valid()
      reads this`disk
    {
      SoundSize(healthy, |disk|, bsize)
    }

    /** A sector that begins on such a device lies on it. */
    lemma Inside(blk: nat, len: nat)
      requires Valid()
      ensures Sound() ==> healthy
      ensures Sound() && len > 0 && blk * bsize + len <= |disk| ==> blk * bsize + bsize <= |disk|
    {
      if Sound() && len > 0 && blk * bsize + len <= |disk| { SectorFits(|disk|, blk, len, bsize); }
    }

    constructor (bsize: nat, partOffset: nat, partSize: nat, healthy: bool, disk: Bytes)
      requires PowerOfTwo(bsize)
      ensures Valid() && fresh(bbuf) && this.disk == disk && this.healthy == healthy
      ensures this.bsize == bsize && this.partOffset == partOffset && this.partSize == partSize
    {
      this.bsize, this.partOffset, this.partSize := bsize, partOffset, partSize;
      this.healthy, this.disk := healthy, disk;
      bbuf := new u8[bsize](_ => 0);
    }

    /** The place on the device that the operations use for a byte of the partition. */
    function Start(off: nat): nat
      requires bsize > 0
    {
      (off + partOffset) / bsize * bsize + off % bsize
    }

    /** The driver's read. It fails beyond the device, and may fail, but for a read of nothing. */
    method Bread(blk: nat, cnt: nat) returns (r: Errno, data: Bytes)
      requires Valid()
      ensures r == EOK || r == EIO
      ensures healthy && blk * bsize + cnt * bsize <= |disk| ==> r == EOK
      ensures r == EOK && cnt > 0 ==> blk * bsize + cnt * bsize <= |disk|
      ensures r == EOK ==> data == Range(disk, blk * bsize, cnt * bsize)
      ensures cnt == 0 ==> r == EOK && data == []
    {
      var ok: bool := *;
      if cnt == 0 { return EOK, []; }
      if (ok || healthy) && blk * bsize + cnt * bsize <= |disk| {
        return EOK, disk[blk * bsize..blk * bsize + cnt * bsize];
      }
      return EIO, [];
    }

    /** The driver's write. It fails beyond the device, and may fail, but for a write of nothing;
        then some of the first sectors are written. */
    method Bwrite(data: Bytes, blk: nat, cnt: nat) returns (r: Errno, ghost k: nat)
      requires Valid() && |data| == cnt * bsize
      modifies this`disk
      ensures (r == EOK || r == EIO) && Wrote(old(disk), disk, blk * bsize, data, k)
      ensures |disk| == |old(disk)| && (healthy && blk * bsize + |data| <= |disk| ==> r == EOK)
      ensures r == EOK ==> k == |data|
      ensures r == EOK && cnt > 0 ==> blk * bsize + |data| <= |disk|
      ensures r != EOK && cnt <= 1 ==> k == 0
      ensures cnt == 0 ==> r == EOK
    {
      hide Wrote, Spliced;
      var ok: bool := *;
      var done := 0;
      k := 0;
      NoneWrote(disk, blk * bsize, data);
      if cnt == 0 { return EOK, 0; }
      r := EIO;
      if blk * bsize + |data| > |disk| { return; }
      if ok || healthy {
        done := |data|;
        r := EOK;
      } else if cnt > 1 {
        var n: nat :| n < cnt;
        Sectors(n, cnt, bsize);
        done := n * bsize;
      }
      k := done;
      WroteFirst(disk, blk * bsize, data, done);
      disk := Spliced(disk, blk * bsize, data[..done]);
    }

    /** A part of a sector is changed by way of the buffer: wholly, or not at all. */
    method Patch(blk: nat, u: nat, piece: Bytes) returns (r: Errno, ghost k: nat)
      requires Valid() && u + |piece| <= bsize
      modifies this`disk, bbuf
      ensures (r == EOK || r == EIO) && Wrote(old(disk), disk, blk * bsize + u, piece, k)
      ensures |disk| == |old(disk)| && (healthy && blk * bsize + bsize <= |disk| ==> r == EOK)
      ensures r == EOK ==> k == |piece| && blk * bsize + bsize <= |disk|
    {
      hide Wrote, Spliced, Range, PowerOfTwo;
      k := 0;
      ghost var d := disk;
      NoneWrote(d, blk * bsize + u, piece);
      r := Fetch(blk);
      if r != EOK { return; }
      ghost var data := bbuf[..];
      forall i | 0 <= i < |piece| { bbuf[u + i] := piece[i]; }
      var sector := bbuf[..];
      SplicedIs(data, u, piece, sector);
      ghost var n;
      r, n := Bwrite(sector, blk, 1);
      SectorWritten(d, disk, blk * bsize, bsize, u, piece, data, sector, n);
      if r == EOK { k := |piece|; }
    }

    /** The sector of a byte of the partition, and the place in it. */
    method Locate(off: nat) returns (blk: nat, unalg: nat)
      requires Valid()
      ensures Start(off) == blk * bsize + unalg && unalg < bsize
    {
      hide PowerOfTwo, And;
      MaskIsMod(off, bsize);
      Whole(off, bsize);
      blk, unalg := (off + partOffset) / bsize, And(off, bsize - 1);
    }

    /** `ext4_block_writebytes`: on failure, some of the first bytes are written; no other byte is
        ever touched. */
    method WriteBytes(off: nat, buf: Bytes) returns (r: Errno, ghost k: nat)
      requires Valid()
      modifies this`disk, bbuf
      ensures r == EINVAL <==> off + |buf| > partSize
      ensures r == EINVAL ==> disk == old(disk)
      ensures Wrote(old(disk), disk, Start(off), buf, k)
      ensures r == EOK ==> k == |buf|
      ensures old(Sound()) && off + |buf| <= partSize && Start(off) + |buf| <= |disk| ==> r == EOK
      ensures |disk| == |old(disk)|
    {
      hide Wrote, Spliced, Start, SoundSize, PowerOfTwo;
      k := 0;
      ghost var d, at := disk, Start(off);
      NoneWrote(d, at, buf);
      if off + |buf| > partSize { return EINVAL, 0; }
      var blk, unalg := Locate(off);
      var p := 0;
      if unalg > 0 {
        var wlen := if bsize - unalg > |buf| then |buf| else bsize - unalg;
        Inside(blk, unalg + wlen);
        r, k := Patch(blk, unalg, buf[..wlen]);
        WroteMore(d, d, disk, at, buf, 0, wlen, k);
        if r != EOK { return; }
        p := wlen;
        NextSector(blk, bsize);
        blk := blk + 1;
        if p == |buf| { return; }
      }
      ghost var d1, n := disk, 0;
      assert blk * bsize == at + p;
      r, n := WriteSectors(blk, buf[p..|buf|]);
      WroteMore(d, d1, disk, at, buf, p, |buf|, n);
      k := p + n;
    }

    /** How many sectors some bytes fill, and the bytes in them. */
    method WholeSectors(len: nat) returns (blen: nat, whole: nat)
      requires Valid()
      ensures whole == blen * bsize <= len < whole + bsize
    {
      hide PowerOfTwo;
      blen := len / bsize;
      whole := bsize * blen;
      Whole(len, bsize);
    }

    /** The second part of it: whole sectors, and the rest of the data. */
    method WriteSectors(blk: nat, buf: Bytes) returns (r: Errno, ghost k: nat)
      requires Valid()
      modifies this`disk, bbuf
      ensures (r == EOK || r == EIO) && Wrote(old(disk), disk, blk * bsize, buf, k)
      ensures r == EOK ==> k == |buf|
      ensures old(Sound()) && blk * bsize + |buf| <= |disk| ==> r == EOK
      ensures |disk| == |old(disk)|
    {
      hide Wrote, Spliced, SoundSize, PowerOfTwo;
      ghost var d, at := disk, blk * bsize;
      NoneWrote(d, at, buf);
      Inside(blk, 0);
      k := 0;
      var p, b := 0, blk;
      var blen, whole := WholeSectors(|buf|);
      r := EOK;
      if blen != 0 {
        r, k := Bwrite(buf[..whole], b, blen);
        WroteMore(d, d, disk, at, buf, 0, whole, k);
        if r != EOK { return; }
        p := whole;
        b := b + blen;
        Sectors(blk, b, bsize);
      }
      if p < |buf| {
        ghost var d1, n := disk, 0;
        assert b * bsize == at + p;
        Inside(b, |buf| - p);
        r, n := Patch(b, 0, buf[p..|buf|]);
        WroteMore(d, d1, disk, at, buf, p, |buf|, n);
        k := p + n;
      }
    }

    /** `ext4_block_readbytes`: just the bytes of the range. */
    method ReadBytes(off: nat, len: nat) returns (r: Errno, data: Bytes)
      requires Valid()
      modifies bbuf
      ensures r == EINVAL <==> off + len > partSize
      ensures r == EOK ==> data == Range(disk, Start(off), len) && (len > 0 ==> Start(off) + len <= |disk|)
      ensures Sound() && off + len <= partSize && Start(off) + len <= |disk| ==> r == EOK
    {
      hide Start, Range, SoundSize, PowerOfTwo;
      data := [];
      if off + len > partSize { return EINVAL, []; }
      var blk, unalg := Locate(off);
      ghost var at := Start(off);
      r := EOK;
      var left := len;
      if unalg > 0 {
        var rlen := if bsize - unalg > len then len else bsize - unalg;
        Inside(blk, unalg + rlen);
        r := Fetch(blk);
        if r != EOK { return; }
        data := bbuf[unalg..unalg + rlen];
        RangePart(disk, blk * bsize, bsize, unalg, rlen);
        assert bbuf[..][unalg..unalg + rlen] == data;
        NextSector(blk, bsize);
        blk := blk + 1;
        left := left - rlen;
        if left == 0 { return; }
      }
      var more;
      assert blk * bsize == at + |data|;
      r, more := ReadSectors(blk, left);
      if r != EOK { return; }
      RangeNone(disk, at);
      if left > 0 { RangeMore(disk, at, |data|, left); }
      data := data + more;
    }

    /** The second part of it: whole sectors, and the rest of the data. */
    method ReadSectors(blk: nat, len: nat) returns (r: Errno, data: Bytes)
      requires Valid()
      modifies bbuf
      ensures r == EOK || r == EIO
      ensures r == EOK ==> data == Range(disk, blk * bsize, len) && (len > 0 ==> blk * bsize + len <= |disk|)
      ensures Sound() && blk * bsize + len <= |disk| ==> r == EOK
    {
      hide Range, SoundSize, PowerOfTwo;
      data := [];
      r := EOK;
      Inside(blk, 0);
      var b, left := blk, len;
      var blen, whole := WholeSectors(len);
      ghost var at := blk * bsize;
      RangeNone(disk, at);
      if blen != 0 {
        r, data := Bread(b, blen);
        if r != EOK { return; }
        b := b + blen;
        Sectors(blk, b, bsize);
        left := left - whole;
      }
      if left > 0 {
        Inside(b, left);
        r := Fetch(b);
        if r != EOK { return; }
        assert b * bsize == at + whole;
        RangePart(disk, b * bsize, bsize, 0, left);
        RangeMore(disk, at, whole, left);
        assert bbuf[..][0..left] == bbuf[..left];
        data := data + bbuf[..left];
      }
    }

    /** A sector into the buffer. */
    method Fetch(blk: nat) returns (r: Errno)
      requires Valid()
      modifies bbuf
      ensures r == EOK || r == EIO
      ensures healthy && blk * bsize + bsize <= |disk| ==> r == EOK
      ensures r == EOK ==> blk * bsize + bsize <= |disk| && bbuf[..] == Range(disk, blk * bsize, bsize)
    {
      var data;
      r, data := Bread(blk, 1);
      if r != EOK { return; }
      forall i | 0 <= i < bsize { bbuf[i] := data[i]; }
      assert bbuf[..] == data;
    }

    /** `ext4_blocks_get_direct`, of `cnt` blocks of `lg` bytes. */
    method GetDirect(lba: nat, cnt: nat, lg: nat) returns (r: Errno, data: Bytes)
      requires Valid() && lg % bsize == 0
      ensures r == EOK || r == EIO
      ensures r == EOK ==> data == Range(disk, Start(lba * lg), cnt * lg) && (cnt * lg > 0 ==>
              Start(lba * lg) + cnt * lg <= |disk|)
      ensures cnt == 0 || (healthy && Start(lba * lg) + cnt * lg <= |disk|) ==> r == EOK
    {
      hide PowerOfTwo;
      BlockPlace(lba, cnt, lg, bsize);
      var pba := (lba * lg + partOffset) / bsize;
      var pbCnt := lg / bsize;
      r, data := Bread(pba, pbCnt * cnt);
    }

    /** `ext4_blocks_set_direct`. */
    method SetDirect(data: Bytes, lba: nat, cnt: nat, lg: nat) returns (r: Errno, ghost k: nat)
      requires Valid() && lg % bsize == 0 && |data| == cnt * lg
      modifies this`disk
      ensures (r == EOK || r == EIO) && Wrote(old(disk), disk, Start(lba * lg), data, k)
      ensures |disk| == |old(disk)| && (r == EOK ==> k == |data|)
      ensures cnt == 0 || (healthy && Start(lba * lg) + cnt * lg <= |disk|) ==> r == EOK
    {
      hide PowerOfTwo;
      BlockPlace(lba, cnt, lg, bsize);
      var pba := (lba * lg + partOffset) / bsize;
      var pbCnt := lg / bsize;
      r, k := Bwrite(data, pba, pbCnt * cnt);
    }

    /** The place is that of the byte in the partition just if the partition is aligned. */
    lemma StartIff(off: nat)
      requires bsize > 0
      ensures Start(off) == partOffset + off <==> partOffset % bsize == 0
    {
      Whole(off + partOffset, bsize);
      Whole(off, bsize);
      Whole(partOffset, bsize);
      SumMod(off, partOffset, bsize);
    }
  }

  /** A range of bytes; what lies beyond the device is left out. */
  function Range(d: Bytes, at: nat, n: nat): (r: Bytes)
    ensures at + n <= |d| ==> |r| == n
  {
    if at + n <= |d| then d[at..at + n] else []
  }

  lemma RangeNone(d: Bytes, at: nat)
    ensures Range(d, at, 0) == []
  {
  }

  lemma RangeMore(d: Bytes, at: nat, p: nat, q: nat)
    requires at + p + q <= |d|
    ensures Range(d, at, p) + Range(d, at + p, q) == Range(d, at, p + q) && |Range(d, at, p)| == p
  {
  }

  lemma RangePart(d: Bytes, at: nat, n: nat, u: nat, m: nat)
    requires at + n <= |d| && u + m <= n
    ensures |Range(d, at, n)| == n && |Range(d, at + u, m)| == m && Range(d, at, n)[u..u + m] == Range(d, at + u, m)
  {
  }

  /** The remainder of a sum is that of one summand just if the other has none. */
  lemma SumMod(a: nat, b: nat, bs: nat)
    requires bs > 0
    ensures (a + b) % bs == a % bs <==> b % bs == 0
  {
    Whole(a, bs);
    Whole(b, bs);
    var q, r := a / bs + b / bs, a % bs + b % bs;
    SumRows(a / bs, b / bs, bs);
    if r < bs {
      RowIs(a + b, q, r, bs);
    } else {
      NextSector(q, bs);
      RowIs(a + b, q + 1, r - bs, bs);
    }
  }

  lemma SumRows(a: nat, b: nat, bs: nat)
    ensures (a + b) * bs == a * bs + b * bs
  {
  }

  lemma RowIs(n: nat, q: nat, r: nat, bs: nat)
    requires r < bs && n == q * bs + r
    ensures n / bs == q && n % bs == r
  {
    Row(q, r, bs);
  }

  lemma Further(q: nat, p: nat, bs: nat)
    requires q < p
    ensures q * bs + bs <= p * bs
  {
    Sectors(q + 1, p, bs);
    NextSector(q, bs);
  }

  lemma Row(q: nat, r: nat, bs: nat)
    requires r < bs
    ensures (q * bs + r) / bs == q && (q * bs + r) % bs == r
  {
    var n := q * bs + r;
    Whole(n, bs);
    var p := n / bs;
    if p < q { Further(p, q, bs); }
    if p > q { Further(q, p, bs); }
  }

  lemma BlockPlace(lba: nat, cnt: nat, lg: nat, bs: nat)
    requires bs > 0 && lg % bs == 0
    ensures (lba * lg) % bs == 0 && ((lg / bs) * cnt) * bs == cnt * lg
  {
    Whole(lg, bs);
    var m := lg / bs;
    assert lba * (m * bs) == (lba * m) * bs;
    Row(lba * m, 0, bs);
    assert (m * cnt) * bs == cnt * (m * bs);
  }

  lemma SectorFits(n: nat, blk: nat, len: nat, bs: nat)
    requires bs > 0 && n % bs == 0 && 0 < len && blk * bs + len <= n
    ensures blk * bs + bs <= n
  {
    Whole(n, bs);
    var m := n / bs;
    Sectors(if m < blk then m else blk, blk, bs);
    if m > blk { Further(blk, m, bs); }
  }

  lemma NoneWrote(d: Bytes, at: nat, b: Bytes)
    ensures Wrote(d, d, at, b, 0)
  {
  }

  lemma NextSector(blk: nat, bs: nat)
    ensures (blk + 1) * bs == blk * bs + bs
  {
  }

  lemma Whole(n: nat, bs: nat)
    requires bs > 0
    ensures bs * (n / bs) == (n / bs) * bs <= n && n - bs * (n / bs) == n % bs < bs
  {
  }

  lemma Sectors(n: nat, cnt: nat, bs: nat)
    requires n <= cnt
    ensures cnt * bs == n * bs + (cnt - n) * bs
  {
  }
}
