/** Free counts of block groups next to their bitmaps, for blocks and for inodes alike. */
module GroupCounts {
  import opened Bitmap

  /** The clear bits below `n`. */
  ghost function Clear(bits: seq<bool>, n: nat): (c: nat)
    requires n <= |bits|
    ensures c <= n
  {
    if n == 0 then 0 else Clear(bits, n - 1) + if bits[n - 1] then 0 else 1
  }

  ghost function ClearBits(bits: seq<bool>, n: nat): set<nat>
    requires n <= |bits|
  {
    set i: nat | i < n && !bits[i]
  }

  lemma {:induction false} ClearIsCard(bits: seq<bool>, n: nat)
    requires n <= |bits|
    ensures Clear(bits, n) == |ClearBits(bits, n)|
  {
    if n == 0 {
      assert ClearBits(bits, n) == {};
    } else {
      ClearIsCard(bits, n - 1);
      var before := ClearBits(bits, n - 1);
      assert ClearBits(bits, n) == if bits[n - 1] then before else before + {n - 1};
    }
  }

  lemma {:induction false} ClearSame(a: seq<bool>, b: seq<bool>, n: nat)
    requires n <= |a| && n <= |b| && forall i :: 0 <= i < n ==> a[i] == b[i]
    ensures Clear(a, n) == Clear(b, n)
  {
    if n > 0 { ClearSame(a, b, n - 1); }
  }

  lemma {:induction false} ClearPut(bits: seq<bool>, n: nat, i: nat, v: bool)
    requires i < n <= |bits|
    ensures Clear(bits[i := v], n) == Clear(bits, n) + (if bits[i] then 1 else 0) - if v then 1 else 0
  {
    if i == n - 1 {
      ClearSame(bits, bits[i := v], n - 1);
    } else {
      ClearPut(bits, n - 1, i, v);
    }
  }

  lemma {:induction false} ClearNone(bits: seq<bool>, n: nat)
    requires n <= |bits|
    ensures Clear(bits, n) == 0 <==> AllSet(bits, 0, n)
  {
    if n > 0 { ClearNone(bits, n - 1); }
  }

  lemma {:induction false} ClearFreed(bits: seq<bool>, n: nat, lo: nat, hi: nat)
    requires AllSet(bits, lo, hi) && hi <= n <= |bits|
    ensures Clear(Freed(bits, lo, hi), n) == Clear(bits, n) + hi - lo
    decreases hi
  {
    if lo == hi {
      ClearSame(Freed(bits, lo, hi), bits, n);
    } else {
      var h: nat := hi - 1;
      ClearFreed(bits, n, lo, h);
      ClearPut(Freed(bits, lo, h), n, h, false);
      assert Freed(bits, lo, hi) == Freed(bits, lo, h)[h := false];
    }
  }

  ghost function Sum(c: seq<nat>): nat {
    if c == [] then 0 else c[0] + Sum(c[1..])
  }

  lemma {:induction false} SumPut(c: seq<nat>, g: nat, v: nat)
    requires g < |c|
    ensures Sum(c[g := v]) == Sum(c) - c[g] + v && c[g] <= Sum(c)
  {
    if g == 0 {
      assert c[g := v][1..] == c[1..];
    } else {
      SumPut(c[1..], g - 1, v);
      assert c[g := v][1..] == c[1..][g - 1 := v];
    }
  }

  lemma {:induction false} SumZero(c: seq<nat>)
    ensures Sum(c) == 0 <==> forall g :: 0 <= g < |c| ==> c[g] == 0
  {
    if c != [] {
      SumZero(c[1..]);
      assert forall g :: 0 < g < |c| ==> c[g] == c[1..][g - 1];
    }
  }

  ghost function AllBits(bitmaps: seq<seq<Byte>>): (s: seq<seq<bool>>)
    ensures |s| == |bitmaps| && forall g :: 0 <= g < |s| ==> s[g] == Bits(bitmaps[g])
  {
    seq(|bitmaps|, g requires 0 <= g < |bitmaps| => Bits(bitmaps[g]))
  }

  /** The bitmaps of all groups, their sizes, the free counts of groups, and that of the
      superblock. */
  datatype Counts = Counts(bits: seq<seq<bool>>, sizes: seq<nat>, free: seq<nat>, all: nat)

  ghost predicate Shaped(c: Counts) {
    |c.bits| == |c.sizes| == |c.free| && forall g :: 0 <= g < |c.bits| ==> c.sizes[g] <= |c.bits[g]|
  }

  /** The counts are those of the clear bits. */
  ghost predicate Counted(c: Counts) {
    && Shaped(c)
    && (forall g :: 0 <= g < |c.bits| ==> c.free[g] == Clear(c.bits[g], c.sizes[g]))
    && c.all == Sum(c.free)
  }

  ghost predicate IsClear(c: Counts, g: nat, i: nat) {
    g < |c.bits| && i < |c.bits[g]| && !c.bits[g][i]
  }

  ghost predicate Full(c: Counts, g: nat) {
    g < |c.bits| == |c.sizes| && AllSet(c.bits[g], 0, c.sizes[g])
  }

  /** Going up from group `lo`, and on from group 0 behind the last, group `g` comes before group `hi`. */
  predicate Between(lo: nat, g: nat, hi: nat) {
    if lo <= hi then lo <= g < hi else lo <= g || g < hi
  }

  /** The first clear bit of a group from `lo` on. */
  ghost predicate FirstClear(c: Counts, g: nat, lo: nat, i: nat) {
    && g < |c.bits| == |c.sizes| && lo <= i < c.sizes[g] && i < |c.bits[g]|
    && !c.bits[g][i] && AllSet(c.bits[g], lo, i)
  }

  ghost function Take(c: Counts, g: nat, i: nat): Counts
    requires Shaped(c) && g < |c.bits| && i < |c.bits[g]|
  {
    c.(bits := c.bits[g := c.bits[g][i := true]], free := c.free[g := Less(c.free[g])], all := Less(c.all))
  }

  function Less(n: nat): nat {
    if n > 0 then n - 1 else 0
  }

  ghost function Give(c: Counts, g: nat, i: nat): Counts
    requires Shaped(c) && g < |c.bits| && i < |c.bits[g]|
  {
    c.(bits := c.bits[g := c.bits[g][i := false]], free := c.free[g := c.free[g] + 1], all := c.all + 1)
  }

  ghost function GiveRange(c: Counts, g: nat, lo: nat, hi: nat): Counts
    requires Shaped(c) && g < |c.bits| && lo <= hi
  {
    c.(bits := c.bits[g := Freed(c.bits[g], lo, hi)], free := c.free[g := c.free[g] + (hi - lo)],
        all := c.all + (hi - lo))
  }

  /** Taking a clear bit keeps the counts. */
  lemma TakeCounted(c: Counts, g: nat, i: nat)
    requires Counted(c) && g < |c.bits| && i < c.sizes[g] && !c.bits[g][i]
    ensures c.free[g] > 0 && c.all > 0 && Counted(Take(c, g, i))
  {
    ClearPut(c.bits[g], c.sizes[g], i, true);
    SumPut(c.free, g, c.free[g] - 1);
  }

  /** Giving a bit back keeps the counts just if it was in use. */
  lemma GiveCounted(c: Counts, g: nat, i: nat)
    requires Counted(c) && g < |c.bits| && i < c.sizes[g]
    ensures Counted(Give(c, g, i)) <==> c.bits[g][i]
  {
    var c' := Give(c, g, i);
    ClearPut(c.bits[g], c.sizes[g], i, false);
    SumPut(c.free, g, c.free[g] + 1);
    assert c'.free[g] == c.free[g] + 1;
  }

  lemma GiveRangeCounted(c: Counts, g: nat, lo: nat, hi: nat)
    requires Counted(c) && g < |c.bits| && AllSet(c.bits[g], lo, hi) && hi <= c.sizes[g]
    ensures Counted(GiveRange(c, g, lo, hi))
  {
    ClearFreed(c.bits[g], c.sizes[g], lo, hi);
    SumPut(c.free, g, c.free[g] + (hi - lo));
  }

  lemma FullIs(c: Counts, g: nat)
    requires g < |c.bits| == |c.sizes| && AllSet(c.bits[g], 0, c.sizes[g])
    ensures Full(c, g)
  {
  }

  lemma FullIff(c: Counts, g: nat)
    requires Counted(c) && g < |c.bits|
    ensures |c.free| == |c.bits| && (c.free[g] == 0 <==> Full(c, g))
  {
    ClearNone(c.bits[g], c.sizes[g]);
  }

  /** Nothing is free just if every group is full. */
  lemma NoneFreeIff(c: Counts)
    requires Counted(c)
    ensures c.all == 0 <==> forall g: nat :: g < |c.bits| ==> Full(c, g)
  {
    hide Full, Clear;
    SumZero(c.free);
    forall g: nat | g < |c.bits|
      ensures c.free[g] == 0 <==> Full(c, g)
    {
      FullIff(c, g);
    }
  }
}
