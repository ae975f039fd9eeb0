/** How block addresses are divided in block groups. */
module BlockGroups {
  const WORD32 := 0x1_0000_0000

  /** What the superblock says of the layout. */
  datatype Geometry = Geometry(first: nat, total: nat, perGroup: nat, blockSize: nat)
  {
    predicate Ok() {
      first <= 1 && first < total < WORD32 && 0 < perGroup <= 8 * blockSize && perGroup < WORD32
    }

    /** `ext4_balloc_get_bgid_of_block`. */
    function GroupOf(baddr: nat): nat
      requires perGroup > 0
    {
      (if first != 0 && baddr != 0 then baddr - 1 else baddr) / perGroup
    }

    /** `ext4_fs_addr_to_idx_bg`. */
    function IdxOf(baddr: nat): nat
      requires perGroup > 0
    {
      (if first != 0 && baddr != 0 then baddr - 1 else baddr) % perGroup
    }

    /** `ext4_balloc_get_block_of_bgid`, a product of 32-bit words. */
    function FirstOf(bgid: nat): nat {
      (if first != 0 then 1 else 0) + bgid * perGroup % WORD32
    }

    /** `ext4_fs_bg_idx_to_addr`, also in 32-bit words. */
    function AddrOf(index: nat, bgid: nat): nat {
      (perGroup * bgid + (if first != 0 then index + 1 else index)) % WORD32
    }

    /** `ext4_block_group_cnt`. */
    function GroupCnt(): nat
      requires perGroup > 0
    {
      total / perGroup + if total % perGroup != 0 then 1 else 0
    }

    /** `ext4_blocks_in_group_cnt`. */
    function BlocksIn(bgid: nat): nat
      requires Ok() && bgid < GroupCnt()
    {
      GroupCntBounds();
      if bgid + 1 < GroupCnt() then perGroup else total - (GroupCnt() - 1) * perGroup
    }

    lemma GroupCntBounds()
      requires Ok()
      ensures 0 < GroupCnt() && (GroupCnt() - 1) * perGroup < total <= GroupCnt() * perGroup
    {
      var q, r := total / perGroup, total % perGroup;
      assert total == q * perGroup + r;
      if r == 0 {
        assert (q - 1) * perGroup == q * perGroup - perGroup;
      } else {
        assert (q + 1) * perGroup == q * perGroup + perGroup;
      }
    }
  }

  type Layout = g: Geometry | g.Ok() witness Geometry(0, 1, 8, 1)

  /** Rows of equal length: the division of a number in the rows. */
  lemma RowOf(n: nat, per: nat)
    requires per > 0
    ensures n == per * (n / per) + n % per && 0 <= n % per < per
  {
  }

  lemma RowLess(per: nat, p: nat, q: nat)
    requires p <= q
    ensures per * p <= per * q
  {
  }

  lemma RowIs(per: nat, q: nat, r: nat)
    requires r < per
    ensures (per * q + r) / per == q && (per * q + r) % per == r
  {
    var n := per * q + r;
    RowOf(n, per);
    var p := n / per;
    if p < q { RowLess(per, p + 1, q); }
    if p > q { RowLess(per, q + 1, p); }
  }

  lemma RowsInOrder(m: nat, n: nat, per: nat)
    requires m <= n && per > 0
    ensures m / per <= n / per
  {
    RowOf(m, per);
    RowOf(n, per);
    var p, q := m / per, n / per;
    assert per * (q + 1) == per * q + per;
    if q < p { RowLess(per, q + 1, p); }
  }

  /** The blocks of a group have the linear addresses from the start of the group on. */
  lemma InTotal(g: Geometry, bgid: nat, index: nat)
    requires g.Ok() && bgid < g.GroupCnt() && index < g.BlocksIn(bgid)
    ensures index < g.perGroup && g.perGroup * bgid + index < g.total
  {
    g.GroupCntBounds();
    var last := g.GroupCnt() - 1;
    assert g.GroupCnt() * g.perGroup == last * g.perGroup + g.perGroup;
    if bgid < last {
      RowLess(g.perGroup, bgid + 1, last);
      assert g.perGroup * (bgid + 1) == g.perGroup * bgid + g.perGroup;
    } else {
      assert bgid == last;
    }
  }

  /** The 32-bit product and sum do not wrap. */
  lemma AddrIs(g: Geometry, bgid: nat, index: nat)
    requires g.Ok() && bgid < g.GroupCnt() && index < g.BlocksIn(bgid)
    ensures g.AddrOf(index, bgid) == g.perGroup * bgid + index + g.first <= g.total
  {
    InTotal(g, bgid, index);
    Small(g.perGroup * bgid + index + g.first);
  }

  lemma Small(n: nat)
    requires n < WORD32
    ensures n % WORD32 == n
  {
  }

  /** From an address to group and index, and back. */
  lemma AddrRoundTrip(g: Geometry, baddr: nat)
    requires g.Ok() && g.first <= baddr < g.total
    ensures g.GroupOf(baddr) < g.GroupCnt() && g.IdxOf(baddr) < g.BlocksIn(g.GroupOf(baddr))
    ensures g.AddrOf(g.IdxOf(baddr), g.GroupOf(baddr)) == baddr
  {
    InGroup(g, baddr);
    AddrIs(g, g.GroupOf(baddr), g.IdxOf(baddr));
    RowOf(baddr - g.first, g.perGroup);
  }

  /** Also the block before the first, which then stands for the first. */
  lemma InGroup(g: Geometry, baddr: nat)
    requires g.Ok() && baddr < g.total
    ensures g.GroupOf(baddr) < g.GroupCnt() && g.IdxOf(baddr) < g.BlocksIn(g.GroupOf(baddr))
  {
    var n := if g.first != 0 && baddr != 0 then baddr - 1 else baddr;
    g.GroupCntBounds();
    RowOf(n, g.perGroup);
    var b, cnt := n / g.perGroup, g.GroupCnt();
    assert cnt * g.perGroup == g.perGroup * cnt;
    if b >= cnt { RowLess(g.perGroup, cnt, b); }
    assert b + 1 >= cnt ==> b == cnt - 1 && (cnt - 1) * g.perGroup == g.perGroup * b;
  }

  /** And from group and index to the address, and back. */
  lemma IdxRoundTrip(g: Geometry, bgid: nat, index: nat)
    requires g.Ok() && bgid < g.GroupCnt() && index < g.BlocksIn(bgid)
    ensures g.GroupOf(g.AddrOf(index, bgid)) == bgid && g.IdxOf(g.AddrOf(index, bgid)) == index
  {
    InTotal(g, bgid, index);
    AddrIs(g, bgid, index);
    RowIs(g.perGroup, bgid, index);
  }

  /** A group begins at index 0. */
  lemma FirstIdx(g: Geometry, bgid: nat)
    requires g.Ok() && bgid < g.GroupCnt() && 0 < g.BlocksIn(bgid)
    ensures g.IdxOf(g.FirstOf(bgid)) == 0
  {
    InTotal(g, bgid, 0);
    Small(g.perGroup * bgid);
    assert g.perGroup * bgid == bgid * g.perGroup;
    RowIs(g.perGroup, bgid, 0);
  }

  lemma SomeBlocks(g: Geometry, bgid: nat)
    requires g.Ok() && bgid < g.GroupCnt()
    ensures 0 < g.BlocksIn(bgid) <= g.perGroup
  {
    g.GroupCntBounds();
    var last := g.GroupCnt() - 1;
    assert g.GroupCnt() * g.perGroup == last * g.perGroup + g.perGroup;
  }

  /** The count of the last group includes an index beyond the last block just if the first data
      block is 1, since the total counts block 0. Only there is an address out of range. */
  lemma BeyondIff(g: Geometry, bgid: nat, index: nat)
    requires g.Ok() && bgid < g.GroupCnt() && index < g.BlocksIn(bgid)
    ensures g.AddrOf(index, bgid) >= g.total <==>
            g.first == 1 && bgid == g.GroupCnt() - 1 && index == g.BlocksIn(bgid) - 1
  {
    InTotal(g, bgid, index);
    AddrIs(g, bgid, index);
    g.GroupCntBounds();
    var last := g.GroupCnt() - 1;
    assert bgid == last ==> g.perGroup * bgid == last * g.perGroup;
    if bgid < last {
      RowLess(g.perGroup, bgid + 1, last);
      assert g.perGroup * (bgid + 1) == g.perGroup * bgid + g.perGroup;
      assert g.perGroup * last == last * g.perGroup;
    }
  }
}
