/** Bitmaps in blocks of bytes, bit `i` being bit `i % 8` of byte `i / 8`. */
module Bitmap {
  import opened Words

  type Byte = bv8

  predicate Bit(b: Byte, k: nat)
    requires k < 8
  {
    b & (1 << k) != 0
  }

  predicate BitAt(bmap: seq<Byte>, i: nat)
    requires i < 8 * |bmap|
  {
    Bit(bmap[i / 8], i % 8)
  }

  /** The bitmap as a sequence of its bits. */
  ghost function Bits(bmap: seq<Byte>): (bits: seq<bool>)
    ensures |bits| == 8 * |bmap|
  {
    seq(8 * |bmap|, i requires 0 <= i < 8 * |bmap| => BitAt(bmap, i))
  }

  lemma SetOne(b: Byte, k: nat, j: nat)
    requires k < 8 && j < 8
    ensures Bit(b | (1 << k), j) == (j == k || Bit(b, j))
  {
  }

  lemma ClearOne(b: Byte, k: nat, j: nat)
    requires k < 8 && j < 8
    ensures Bit(b & !(1 << k), j) == (j != k && Bit(b, j))
  {
  }

  lemma ZeroByte(j: nat)
    requires j < 8
    ensures !Bit(0, j)
  {
  }

  lemma FullByte(b: Byte)
    requires forall j: nat :: j < 8 ==> Bit(b, j)
    ensures b == 0xFF
  {
    assert Bit(b, 0) && Bit(b, 1) && Bit(b, 2) && Bit(b, 3) && Bit(b, 4) && Bit(b, 5) && Bit(b, 6) && Bit(b, 7);
  }

  lemma FullBit(j: nat)
    requires j < 8
    ensures Bit(0xFF, j)
  {
  }

  /** Replacing a byte replaces its eight bits. */
  lemma ByteReplaced(bmap: seq<Byte>, p: nat, b: Byte)
    requires p < |bmap|
    ensures forall i: nat :: i < 8 * |bmap| ==>
              BitAt(bmap[p := b], i) == if i / 8 == p then Bit(b, i % 8) else BitAt(bmap, i)
  {
  }

  lemma BitIndex(p: nat, j: nat)
    requires j < 8
    ensures (8 * p + j) / 8 == p && (8 * p + j) % 8 == j
  {
  }

  /** A byte that differs in one bit changes that bit of the bitmap. */
  lemma BitPut(bmap: seq<Byte>, p: nat, k: nat, b: Byte, v: bool)
    requires p < |bmap| && k < 8
    requires forall j: nat :: j < 8 ==> Bit(b, j) == if j == k then v else Bit(bmap[p], j)
    ensures Bits(bmap[p := b]) == Bits(bmap)[8 * p + k := v]
  {
    hide Bit;
    ByteReplaced(bmap, p, b);
    BitIndex(p, k);
  }

  /** `ext4_bmap_bit_set`. */
  method BitSet(bmap: array<Byte>, bit: nat)
    requires bit < 8 * bmap.Length
    modifies bmap
    ensures Bits(bmap[..]) == old(Bits(bmap[..]))[bit := true]
  {
    hide Bit, Bits;
    ghost var was := bmap[..];
    var p, k := bit / 8, bit % 8;
    bmap[p] := bmap[p] | (1 << k);
    assert bmap[..] == was[p := bmap[p]];
    forall j: nat | j < 8
      ensures Bit(bmap[p], j) == if j == k then true else Bit(was[p], j)
    {
      SetOne(was[p], k, j);
    }
    BitPut(was, p, k, bmap[p], true);
  }

  /** `ext4_bmap_bit_clr` of a bitmap that starts at byte `base` of the block. */
  method BitClr(bmap: array<Byte>, base: nat, bit: nat)
    requires 8 * base + bit < 8 * bmap.Length
    modifies bmap
    ensures Bits(bmap[..]) == old(Bits(bmap[..]))[8 * base + bit := false]
  {
    hide Bit, Bits;
    ghost var was := bmap[..];
    var p, k := base + bit / 8, bit % 8;
    bmap[p] := bmap[p] & !(1 << k);
    assert bmap[..] == was[p := bmap[p]];
    forall j: nat | j < 8
      ensures Bit(bmap[p], j) == if j == k then false else Bit(was[p], j)
    {
      ClearOne(was[p], k, j);
    }
    BitPut(was, p, k, bmap[p], false);
  }

  /** `ext4_bmap_is_bit_clr`, likewise. */
  method IsBitClr(bmap: array<Byte>, base: nat, bit: nat) returns (clear: bool)
    requires 8 * base + bit < 8 * bmap.Length
    ensures clear == !Bits(bmap[..])[8 * base + bit]
  {
    assert (8 * base + bit) / 8 == base + bit / 8 && (8 * base + bit) % 8 == bit % 8;
    clear := !Bit(bmap[base + bit / 8], bit % 8);
  }

  /** The bits with those from `lo` on, and before `hi`, cleared. */
  ghost function Freed(bits: seq<bool>, lo: nat, hi: nat): (r: seq<bool>)
    ensures |r| == |bits|
  {
    seq(|bits|, i requires 0 <= i < |bits| => bits[i] && !(lo <= i < hi))
  }

  lemma FreedOne(bits: seq<bool>, lo: nat, hi: nat)
    requires lo <= hi < |bits|
    ensures Freed(bits, lo, hi)[hi := false] == Freed(bits, lo, hi + 1)
  {
  }

  lemma FreedByte(bmap: seq<Byte>, bits: seq<bool>, lo: nat, p: nat)
    requires p < |bmap| && lo <= 8 * p && Bits(bmap) == Freed(bits, lo, 8 * p) && |bits| == 8 * |bmap|
    ensures Bits(bmap[p := 0]) == Freed(bits, lo, 8 * (p + 1))
  {
    hide Bit;
    var hi := 8 * (p + 1);
    ByteReplaced(bmap, p, 0);
    forall i: nat | i < |bits|
      ensures BitAt(bmap[p := 0], i) == Freed(bits, lo, hi)[i]
    {
      ZeroByte(i % 8);
      assert BitAt(bmap, i) == Bits(bmap)[i] == Freed(bits, lo, 8 * p)[i];
    }
  }

  /** `ext4_bmap_bits_free`: single bits up to a whole byte, whole bytes, then single bits. */
  method BitsFree(bmap: array<Byte>, sbit: nat, bcnt: nat)
    requires sbit + bcnt <= 8 * bmap.Length
    modifies bmap
    ensures Bits(bmap[..]) == Freed(old(Bits(bmap[..])), sbit, sbit + bcnt)
  {
    hide BitAt;
    ghost var bits := Bits(bmap[..]);
    var i: nat, left: nat := sbit, bcnt;
    assert bits == Freed(bits, sbit, sbit);
    while i % 8 != 0
      invariant sbit <= i && i + left == sbit + bcnt && Bits(bmap[..]) == Freed(bits, sbit, i)
      decreases left
    {
      if left == 0 { return; }
      FreedOne(bits, sbit, i);
      BitClr(bmap, 0, i);
      left := left - 1;
      i := i + 1;
    }
    var base := i / 8;
    while left >= 8
      invariant sbit <= 8 * base && 8 * base + left == sbit + bcnt && Bits(bmap[..]) == Freed(bits, sbit, 8 * base)
      decreases left
    {
      ghost var was := bmap[..];
      FreedByte(was, bits, sbit, base);
      bmap[base] := 0;
      assert bmap[..] == was[base := 0];
      base := base + 1;
      left := left - 8;
    }
    for j := 0 to left
      invariant 8 * base + left == sbit + bcnt && Bits(bmap[..]) == Freed(bits, sbit, 8 * base + j)
    {
      FreedOne(bits, sbit, 8 * base + j);
      BitClr(bmap, base, j);
    }
  }

  /** All bits of a range are set. */
  ghost predicate AllSet(bits: seq<bool>, lo: nat, hi: nat) {
    lo <= hi <= |bits| && forall i :: lo <= i < hi ==> bits[i]
  }

  lemma FullIsSet(bmap: seq<Byte>, lo: nat, p: nat)
    requires p < |bmap| && lo <= 8 * p && bmap[p] == 0xFF && AllSet(Bits(bmap), lo, 8 * p)
    ensures AllSet(Bits(bmap), lo, 8 * (p + 1))
  {
    hide Bit;
    forall i | 8 * p <= i < 8 * (p + 1)
      ensures Bits(bmap)[i]
    {
      FullBit(i % 8);
      assert i / 8 == p;
    }
  }

  lemma NotFull(bmap: seq<Byte>, p: nat)
    requires p < |bmap| && AllSet(Bits(bmap), 8 * p, 8 * p + 8)
    ensures bmap[p] == 0xFF
  {
    hide Bit;
    forall j: nat | j < 8
      ensures Bit(bmap[p], j)
    {
      BitIndex(p, j);
      assert Bits(bmap)[8 * p + j];
    }
    FullByte(bmap[p]);
  }

  /** `ext4_bmap_bit_find_clr`: the first clear bit of a range, or none. */
  method FindClr(bmap: array<Byte>, sbit: nat, ebit: nat) returns (r: Option<nat>)
    requires sbit <= ebit <= 8 * bmap.Length
    ensures r.None? ==> AllSet(Bits(bmap[..]), sbit, ebit)
    ensures r.Some? ==> sbit <= r.value < ebit && !Bits(bmap[..])[r.value] && AllSet(Bits(bmap[..]), sbit, r.value)
  {
    hide Bits;
    var i: nat, bcnt: nat := sbit, ebit - sbit;
    while i % 8 != 0
      invariant sbit <= i && i + bcnt == ebit && AllSet(Bits(bmap[..]), sbit, i)
      decreases bcnt
    {
      if bcnt == 0 { return None; }
      var clear := IsBitClr(bmap, 0, i);
      if clear { return Some(i); }
      i := i + 1;
      bcnt := bcnt - 1;
    }
    var base := i / 8;
    while bcnt >= 8
      invariant sbit <= 8 * base && 8 * base + bcnt == ebit && AllSet(Bits(bmap[..]), sbit, 8 * base)
      decreases bcnt
    {
      if bmap[base] != 0xFF {
        for j := 0 to 8
          invariant AllSet(Bits(bmap[..]), sbit, 8 * base + j)
        {
          var clear := IsBitClr(bmap, base, j);
          if clear { return Some(8 * base + j); }
        }
        NotFull(bmap[..], base);
        assert false;
      }
      FullIsSet(bmap[..], sbit, base);
      base := base + 1;
      bcnt := bcnt - 8;
    }
    for j := 0 to bcnt
      invariant AllSet(Bits(bmap[..]), sbit, 8 * base + j)
    {
      var clear := IsBitClr(bmap, base, j);
      if clear { return Some(8 * base + j); }
    }
    r := None;
  }
}
