/** The bytes of a file: its blocks in logical order, wherever the block map puts them. */
module FileMap {
  import opened Words
  import opened BlockTree
  import opened BlockMap
  import opened ByteDevice

  // ----- The block map leads to different blocks

  /** A block that a lookup finds is one of the tree. */
  lemma {:induction false} FoundInside(disk: Disk, per: nat, root: u32, d: nat, off: nat)
    requires per > 0 && Wf(disk, per, root, d) && off < PerLevel(per, d)
    requires Lookup(disk, per, root, d, off) != 0
    ensures Lookup(disk, per, root, d, off) in Blocks(disk, root, d)
    decreases d
  {
    if d > 0 {
      SlotRest(per, d, off);
      var s := Slot(per, d, off);
      FoundInside(disk, per, disk[root][s], d - 1, Rest(per, d, off));
      KidInside(disk, disk[root], d - 1, s);
    }
  }

  /** Different places of a tree hold different blocks. */
  lemma {:induction false} TreeInjective(disk: Disk, per: nat, root: u32, d: nat, off: nat, other: nat)
    requires per > 0 && Wf(disk, per, root, d) && Single(Blocks(disk, root, d)) && off != other
    requires off < PerLevel(per, d) && other < PerLevel(per, d) && Lookup(disk, per, root, d, off) != 0
    ensures Lookup(disk, per, root, d, off) != Lookup(disk, per, root, d, other)
    decreases d
  {
    hide PerLevel, Slot, Rest;
    if d == 0 {
      OnePerLevel(per);
    } else if Lookup(disk, per, root, d, other) != 0 {
      SlotRest(per, d, off);
      SlotRest(per, d, other);
      var s, t := Slot(per, d, off), Slot(per, d, other);
      var kids := disk[root];
      FoundInside(disk, per, kids[s], d - 1, Rest(per, d, off));
      FoundInside(disk, per, kids[t], d - 1, Rest(per, d, other));
      SingleKid(disk, root, d, s);
      if s == t {
        TreeInjective(disk, per, kids[s], d - 1, Rest(per, d, off), Rest(per, d, other));
      } else {
        NotBelowItself(disk, root, d);
        KidsApart(disk, kids, d - 1, t, s, Lookup(disk, per, root, d, off));
      }
    }
  }

  lemma FoundInArea(disk: Disk, rs: Roots, per: nat, i: nat)
    requires MapOk(disk, rs, per) && Found(disk, rs, per, i) != 0
    ensures LevelOf(per, i) <= 3 && Found(disk, rs, per, i) in Area(disk, rs, LevelOf(per, i))
  {
    hide PerLevel, Limit, Lookup, Single, All;
    var l := LevelOf(per, i);
    if l == 0 {
      DirectBlock(disk, rs.direct[i]);
      KidInside(disk, rs.direct, 0, i);
    } else if l <= 3 {
      assert AreaWf(disk, rs, per, l);
      FoundInside(disk, per, rs.indirect[l - 1], l, i - Limit(per, l - 1));
    }
  }

  /** Different logical blocks lead to different blocks, or to none. */
  lemma MapInjective(disk: Disk, rs: Roots, per: nat, i: nat, j: nat)
    requires MapOk(disk, rs, per) && i != j && Found(disk, rs, per, i) != 0
    ensures Found(disk, rs, per, i) != Found(disk, rs, per, j)
  {
    hide PerLevel, Limit, Lookup, Single, All, Blocks, KidBlocks;
    var b := Found(disk, rs, per, i);
    if Found(disk, rs, per, j) == b {
      FoundInArea(disk, rs, per, i);
      FoundInArea(disk, rs, per, j);
      var l, m := LevelOf(per, i), LevelOf(per, j);
      AreaInside(disk, rs, l, b);
      assert l == m;
      if l == 0 {
        DirectBlock(disk, b);
        KidsApart(disk, rs.direct, 0, i, j, b);
      } else {
        assert AreaWf(disk, rs, per, l);
        TreeInjective(disk, per, rs.indirect[l - 1], l, i - Limit(per, l - 1), j - Limit(per, l - 1));
      }
    }
  }

  // ----- Bytes by way of the map

  /** The place in the partition of byte `i` of the file. */
  function Place(pm: seq<u32>, bs: nat, i: nat): nat
    requires bs > 0 && i / bs < |pm|
  {
    pm[i / bs] * bs + i % bs
  }

  function ByteAt(d: Bytes, pos: nat): u8 {
    if pos < |d| then d[pos] else 0
  }

  /** The first `n` bytes of a file whose blocks are `pm`, on a device with the partition at `po`. */
  ghost function FileBytes(d: Bytes, po: nat, pm: seq<u32>, bs: nat, n: nat): (s: Bytes)
    requires bs > 0 && n <= |pm| * bs
    ensures |s| == n
  {
    seq(n, i requires 0 <= i < n => InBlocks(i, |pm|, bs); ByteAt(d, po + Place(pm, bs, i)))
  }

  lemma InBlocks(i: nat, cnt: nat, bs: nat)
    requires bs > 0 && i < cnt * bs
    ensures i / bs < cnt
  {
    Whole(i, bs);
    if i / bs >= cnt { Sectors(cnt, i / bs, bs); }
  }

  lemma FileByte(d: Bytes, po: nat, pm: seq<u32>, bs: nat, n: nat, i: nat)
    requires bs > 0 && i < n <= |pm| * bs
    ensures i / bs < |pm| && FileBytes(d, po, pm, bs, n)[i] == ByteAt(d, po + Place(pm, bs, i))
  {
    InBlocks(i, |pm|, bs);
  }

  ghost predicate Distinct(pm: seq<u32>) {
    forall i, j :: 0 <= i < j < |pm| ==> pm[i] != pm[j]
  }

  /** Blocks `idx` and on of the file lie one after the other. */
  ghost predicate Contiguous(pm: seq<u32>, idx: nat, cnt: nat, start: nat) {
    idx + cnt <= |pm| && forall m :: idx <= m < idx + cnt ==> pm[m] == start + (m - idx)
  }

  lemma PlaceInRun(pm: seq<u32>, bs: nat, idx: nat, cnt: nat, start: nat, y: nat)
    requires bs > 0 && Contiguous(pm, idx, cnt, start) && y < cnt * bs
    ensures (idx * bs + y) / bs < idx + cnt && Place(pm, bs, idx * bs + y) == start * bs + y
    ensures (idx * bs + y) / bs >= idx
  {
    Whole(y, bs);
    InBlocks(y, cnt, bs);
    var q, r := y / bs, y % bs;
    SumRows(idx, q, bs);
    RowIs(idx * bs + y, idx + q, r, bs);
    SumRows(start, q, bs);
    assert pm[idx + q] == start + q;
  }

  /** Any other block of the file lies outside the run. */
  lemma PlaceOutside(pm: seq<u32>, bs: nat, idx: nat, cnt: nat, start: nat, i: nat)
    requires bs > 0 && Contiguous(pm, idx, cnt, start) && Distinct(pm) && i / bs < |pm|
    requires !(idx <= i / bs < idx + cnt)
    ensures Place(pm, bs, i) < start * bs || Place(pm, bs, i) >= start * bs + cnt * bs
  {
    var m := i / bs;
    Whole(i, bs);
    NotInRun(pm, idx, cnt, start, m);
    if pm[m] < start {
      Further(pm[m], start, bs);
    } else {
      Sectors(start + cnt, pm[m], bs);
      SumRows(start, cnt, bs);
    }
  }

  lemma NotInRun(pm: seq<u32>, idx: nat, cnt: nat, start: nat, m: nat)
    requires Contiguous(pm, idx, cnt, start) && Distinct(pm) && m < |pm| && !(idx <= m < idx + cnt)
    ensures !(start <= pm[m] < start + cnt)
  {
    if start <= pm[m] < start + cnt { NotOfRun(pm, idx, cnt, start, m, pm[m]); }
  }

  lemma NotOfRun(pm: seq<u32>, idx: nat, cnt: nat, start: nat, m: nat, v: nat)
    requires Contiguous(pm, idx, cnt, start) && Distinct(pm) && m < |pm| && !(idx <= m < idx + cnt)
    requires start <= v < start + cnt
    ensures pm[m] != v
  {
    var t := idx + (v - start);
    assert pm[t] == v;
  }

  /** What is read of a run is what the file holds there. */
  lemma ReadRun(d: Bytes, po: nat, pm: seq<u32>, bs: nat, n: nat, idx: nat, cnt: nat, start: nat, u: nat, len: nat)
    requires bs > 0 && n <= |pm| * bs && Contiguous(pm, idx, cnt, start) && u + len <= cnt * bs
    requires idx * bs + u + len <= n && (len > 0 ==> po + start * bs + u + len <= |d|)
    ensures Range(d, po + start * bs + u, len) == FileBytes(d, po, pm, bs, n)[idx * bs + u..idx * bs + u + len]
  {
    hide Place, Contiguous;
    var r, s := Range(d, po + start * bs + u, len), FileBytes(d, po, pm, bs, n)[idx * bs + u..idx * bs + u + len];
    forall x | 0 <= x < len
      ensures r[x] == s[x]
    {
      PlaceInRun(pm, bs, idx, cnt, start, u + x);
      assert s[x] == FileBytes(d, po, pm, bs, n)[idx * bs + (u + x)];
    }
  }

  /** The bytes with `b` from position `p` on, longer if need be. */
  function Overwrite(s: Bytes, p: nat, b: Bytes): Bytes
    requires p <= |s|
  {
    s[..p] + b + if p + |b| < |s| then s[p + |b|..] else []
  }

  /** A byte after a write. */
  function Newer(d: Bytes, pos: nat, at: nat, b: Bytes, k: nat): u8
    requires k <= |b|
  {
    if at <= pos < at + k then b[pos - at] else ByteAt(d, pos)
  }

  lemma WroteAt(d: Bytes, d': Bytes, at: nat, b: Bytes, k: nat, pos: nat)
    requires Wrote(d, d', at, b, k)
    ensures k <= |b| && ByteAt(d', pos) == Newer(d, pos, at, b, k)
  {
  }

  /** Writing into a run changes just these bytes of the file. */
  lemma WriteRun(d: Bytes, d': Bytes, po: nat, pm: seq<u32>, bs: nat, n: nat, idx: nat, cnt: nat, start: nat, u: nat,
          b: Bytes, k: nat, i: nat)
    requires bs > 0 && n <= |pm| * bs && Contiguous(pm, idx, cnt, start) && Distinct(pm) && u + |b| <= cnt * bs
    requires Wrote(d, d', po + start * bs + u, b, k) && i < n
    ensures FileBytes(d', po, pm, bs, n)[i] ==
              if idx * bs + u <= i < idx * bs + u + k then b[i - (idx * bs + u)] else FileBytes(d, po, pm, bs, n)[i]
  {
    hide Place, Contiguous, Wrote, Newer, Distinct, FileBytes, ByteAt;
    InBlocks(i, |pm|, bs);
    FileByte(d, po, pm, bs, n, i);
    FileByte(d', po, pm, bs, n, i);
    var pos := Place(pm, bs, i);
    WroteAt(d, d', po + start * bs + u, b, k, po + pos);
    SumRows(idx, cnt, bs);
    if idx * bs <= i < (idx + cnt) * bs {
      PlaceInRun(pm, bs, idx, cnt, start, i - idx * bs);
      NewerInside(d, po, idx * bs, start * bs, u, b, k, i, pos);
    } else {
      OtherBlock(i, idx, cnt, bs);
      PlaceOutside(pm, bs, idx, cnt, start, i);
      NewerOutside(d, po, start * bs, cnt * bs, u, b, k, pos);
    }
  }

  lemma NewerInside(d: Bytes, po: nat, lo: nat, at: nat, u: nat, b: Bytes, k: nat, i: nat, pos: nat)
    requires lo <= i && pos == at + (i - lo) && k <= |b|
    ensures Newer(d, po + pos, po + at + u, b, k) == if lo + u <= i < lo + u + k then b[i - (lo + u)] else ByteAt(d,
            po + pos)
  {
  }

  lemma NewerOutside(d: Bytes, po: nat, at: nat, n: nat, u: nat, b: Bytes, k: nat, pos: nat)
    requires (pos < at || pos >= at + n) && u + |b| <= n && k <= |b|
    ensures Newer(d, po + pos, po + at + u, b, k) == ByteAt(d, po + pos)
  {
  }

  lemma OtherBlock(i: nat, idx: nat, cnt: nat, bs: nat)
    requires bs > 0 && !(idx * bs <= i < (idx + cnt) * bs)
    ensures !(idx <= i / bs < idx + cnt)
  {
    Whole(i, bs);
    var q := i / bs;
    if idx <= q < idx + cnt {
      Sectors(idx, q, bs);
      Further(q, idx + cnt, bs);
    }
  }

  /** More blocks behind do not change the bytes of those before. */
  lemma MoreBlocks(d: Bytes, po: nat, pm: seq<u32>, more: seq<u32>, bs: nat, n: nat)
    requires bs > 0 && n <= |pm| * bs
    ensures n <= |pm + more| * bs && FileBytes(d, po, pm + more, bs, n) == FileBytes(d, po, pm, bs, n)
  {
    SumRows(|pm|, |more|, bs);
    forall i | 0 <= i < n
      ensures FileBytes(d, po, pm + more, bs, n)[i] == FileBytes(d, po, pm, bs, n)[i]
    {
      InBlocks(i, |pm|, bs);
    }
  }

  lemma FewerBytes(d: Bytes, po: nat, pm: seq<u32>, bs: nat, m: nat, n: nat)
    requires bs > 0 && m <= n <= |pm| * bs
    ensures FileBytes(d, po, pm, bs, n)[..m] == FileBytes(d, po, pm, bs, m)
  {
  }
}
