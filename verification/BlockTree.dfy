/** Trees of indirect blocks: what a logical offset leads to, and which blocks there are. */
module BlockTree {
  import opened Words

  /** The contents of pointer blocks, by address. Address 0 stands for a hole. */
  type Disk = map<u32, seq<u32>>

  /** `inode_blocks_per_level`: data blocks below one pointer at this level. */
  function PerLevel(per: nat, level: nat): nat {
    if level == 0 then 1 else PerLevel(per, level - 1) * per
  }

  lemma {:induction false} PerLevelPositive(per: nat, level: nat)
    requires per > 0
    ensures PerLevel(per, level) > 0
  {
    if level > 0 {
      PerLevelPositive(per, level - 1);
      assert PerLevel(per, level - 1) * per > 0;
    }
  }

  /** The slot of a pointer block at level `d`, and the offset below it. */
  function Slot(per: nat, d: nat, off: nat): nat
    requires d > 0
  {
    if PerLevel(per, d - 1) == 0 then 0 else off / PerLevel(per, d - 1)
  }

  function Rest(per: nat, d: nat, off: nat): nat
    requires d > 0
  {
    if PerLevel(per, d - 1) == 0 then 0 else off % PerLevel(per, d - 1)
  }

  lemma SlotRest(per: nat, d: nat, off: nat)
    requires per > 0 && d > 0 && off < PerLevel(per, d)
    ensures Slot(per, d, off) < per && Rest(per, d, off) < PerLevel(per, d - 1)
    ensures off == Slot(per, d, off) * PerLevel(per, d - 1) + Rest(per, d, off)
  {
    PerLevelPositive(per, d - 1);
    var p := PerLevel(per, d - 1);
    DivMod(off, p, per);
  }

  /** How the code computes them. */
  lemma SlotIs(per: nat, d: nat, off: nat)
    requires per > 0 && d > 0
    ensures PerLevel(per, d - 1) > 0
    ensures Slot(per, d, off) == off / PerLevel(per, d - 1) && Rest(per, d, off) == off % PerLevel(per, d - 1)
  {
    PerLevelPositive(per, d - 1);
  }

  lemma DivMod(x: nat, p: nat, per: nat)
    requires p > 0 && x < p * per
    ensures x / p < per && x == (x / p) * p + x % p
  {
    if x / p >= per { TimesLess(per, x / p, p); }
  }

  lemma TimesLess(a: nat, b: nat, p: nat)
    requires a <= b
    ensures a * p <= b * p
  {
  }

  /** The data block at an offset below a pointer, or 0. */
  function Lookup(disk: Disk, per: nat, root: u32, d: nat, off: nat): u32
    decreases d
  {
    if root == 0 || d == 0 then root
    else if root !in disk || Slot(per, d, off) >= |disk[root]| then 0
    else Lookup(disk, per, disk[root][Slot(per, d, off)], d - 1, Rest(per, d, off))
  }

  /** All blocks below a pointer, the one it names included. */
  function Blocks(disk: Disk, root: u32, d: nat): multiset<u32>
    decreases d, 1, 0
  {
    if root == 0 then multiset{}
    else if d == 0 || root !in disk then multiset{root}
    else multiset{root} + KidBlocks(disk, disk[root], d - 1)
  }

  function KidBlocks(disk: Disk, kids: seq<u32>, d: nat): multiset<u32>
    decreases d, 2, |kids|
  {
    if kids == [] then multiset{} else Blocks(disk, kids[0], d) + KidBlocks(disk, kids[1..], d)
  }

  ghost predicate Wf(disk: Disk, per: nat, root: u32, d: nat)
    decreases d
  {
    root != 0 && d > 0 ==>
      root in disk && |disk[root]| == per && forall k :: 0 <= k < per ==> Wf(disk, per, disk[root][k], d - 1)
  }

  /** No block occurs twice. */
  ghost predicate Single(m: multiset<u32>) {
    forall b: u32 :: m[b] <= 1
  }

  /** One level down. */
  lemma LookupStep(disk: Disk, per: nat, cur: u32, l: nat, off: nat)
    requires per > 0 && l > 0 && cur != 0 && Wf(disk, per, cur, l) && off < PerLevel(per, l)
    ensures cur in disk && Slot(per, l, off) < |disk[cur]| && Rest(per, l, off) < PerLevel(per, l - 1)
    ensures var kid := disk[cur][Slot(per, l, off)];
            && Wf(disk, per, kid, l - 1)
            && Lookup(disk, per, cur, l, off) == Lookup(disk, per, kid, l - 1, Rest(per, l, off))
  {
    hide PerLevel, Slot, Rest;
    SlotRest(per, l, off);
  }

  // ----- Children

  lemma {:induction false} KidUpdate(disk: Disk, kids: seq<u32>, d: nat, k: nat, v: u32)
    requires k < |kids|
    ensures KidBlocks(disk, kids[k := v], d) + Blocks(disk, kids[k], d) == KidBlocks(disk, kids, d) + Blocks(disk, v, d)
    decreases |kids|
  {
    hide Blocks;
    if k == 0 {
      assert kids[0 := v][1..] == kids[1..];
    } else {
      assert kids[k := v][1..] == kids[1..][k - 1 := v];
      KidUpdate(disk, kids[1..], d, k - 1, v);
      Rotate(KidBlocks(disk, kids[1..][k - 1 := v], d), Blocks(disk, kids[k], d), KidBlocks(disk, kids[1..], d),
             Blocks(disk, v, d), Blocks(disk, kids[0], d));
    }
  }

  lemma Rotate(a: multiset<u32>, b: multiset<u32>, c: multiset<u32>, e: multiset<u32>, x: multiset<u32>)
    requires a + b == c + e
    ensures (x + a) + b == (x + c) + e
  {
    assert (x + a) + b == x + (a + b);
    assert (x + c) + e == x + (c + e);
  }

  lemma {:induction false} KidInside(disk: Disk, kids: seq<u32>, d: nat, k: nat)
    requires k < |kids|
    ensures Blocks(disk, kids[k], d) <= KidBlocks(disk, kids, d)
    decreases |kids|
  {
    hide Blocks;
    if k > 0 { KidInside(disk, kids[1..], d, k - 1); }
  }

  /** Two children have no block in common when all blocks are different. */
  lemma {:induction false} KidsApart(disk: Disk, kids: seq<u32>, d: nat, i: nat, k: nat, b: u32)
    requires i < |kids| && k < |kids| && i != k && Single(KidBlocks(disk, kids, d)) && b in Blocks(disk, kids[k], d)
    ensures b !in Blocks(disk, kids[i], d)
    decreases |kids|
  {
    hide Blocks;
    if i == 0 || k == 0 {
      var o := if i == 0 then k else i;
      KidInside(disk, kids[1..], d, o - 1);
      assert KidBlocks(disk, kids, d)[b] == Blocks(disk, kids[0], d)[b] + KidBlocks(disk, kids[1..], d)[b];
    } else {
      assert forall c: u32 :: KidBlocks(disk, kids[1..], d)[c] <= KidBlocks(disk, kids, d)[c];
      KidsApart(disk, kids[1..], d, i - 1, k - 1, b);
    }
  }

  // ----- Changes elsewhere

  lemma {:induction false} Frame(disk: Disk, per: nat, root: u32, d: nat, p: u32, x: seq<u32>)
    requires p !in Blocks(disk, root, d)
    ensures Blocks(disk[p := x], root, d) == Blocks(disk, root, d)
    ensures Wf(disk, per, root, d) ==> Wf(disk[p := x], per, root, d)
    decreases d, 1, 0
  {
    if root != 0 && d > 0 && root in disk {
      KidsFrame(disk, per, disk[root], d - 1, p, x);
    }
  }

  lemma {:induction false} KidsFrame(disk: Disk, per: nat, kids: seq<u32>, d: nat, p: u32, x: seq<u32>)
    requires p !in KidBlocks(disk, kids, d)
    ensures KidBlocks(disk[p := x], kids, d) == KidBlocks(disk, kids, d)
    ensures forall k :: 0 <= k < |kids| && Wf(disk, per, kids[k], d) ==> Wf(disk[p := x], per, kids[k], d)
    decreases d, 2, |kids|
  {
    if kids != [] {
      Frame(disk, per, kids[0], d, p, x);
      KidsFrame(disk, per, kids[1..], d, p, x);
      forall k | 0 <= k < |kids| && Wf(disk, per, kids[k], d)
        ensures Wf(disk[p := x], per, kids[k], d)
      {
        if k > 0 { assert kids[k] == kids[1..][k - 1]; }
      }
    }
  }

  lemma {:induction false} LookupFrame(disk: Disk, per: nat, root: u32, d: nat, p: u32, x: seq<u32>, off: nat)
    requires p !in Blocks(disk, root, d)
    ensures Lookup(disk[p := x], per, root, d, off) == Lookup(disk, per, root, d, off)
    decreases d
  {
    hide PerLevel, Slot, Rest, KidBlocks;
    if root != 0 && d > 0 && root in disk && Slot(per, d, off) < |disk[root]| {
      KidInside(disk, disk[root], d - 1, Slot(per, d, off));
      LookupFrame(disk, per, disk[root][Slot(per, d, off)], d - 1, p, x, Rest(per, d, off));
    }
  }

  /** An empty pointer block. */
  lemma {:induction false} NoKids(disk: Disk, kids: seq<u32>, d: nat)
    requires forall k :: 0 <= k < |kids| ==> kids[k] == 0
    ensures KidBlocks(disk, kids, d) == multiset{}
    decreases |kids|
  {
    if kids != [] { NoKids(disk, kids[1..], d); }
  }

  // ----- The path to an offset

  /** Following the slots of offset `off` from a pointer at level `d` leads to block `cur`,
      a pointer block at level `l`. */
  ghost predicate Reaches(disk: Disk, per: nat, root: u32, d: nat, off: nat, cur: u32, l: nat)
    decreases d
  {
    if d <= l then d == l && root == cur
    else root != 0 && root in disk && Slot(per, d, off) < |disk[root]|
         && Reaches(disk, per, disk[root][Slot(per, d, off)], d - 1, Rest(per, d, off), cur, l)
  }

  /** What is left of an offset at level `l`. */
  function Down(per: nat, d: nat, off: nat, l: nat): nat
    decreases d
  {
    if d <= l then off else Down(per, d - 1, Rest(per, d, off), l)
  }

  /** Two offsets go through the same slot at level `l`. */
  predicate Together(per: nat, d: nat, l: nat, off: nat, other: nat)
    requires l > 0
    decreases d
  {
    if d < l then false
    else Slot(per, d, off) == Slot(per, d, other) &&
         (d == l || Together(per, d - 1, l, Rest(per, d, off), Rest(per, d, other)))
  }

  lemma {:induction false} OnlyItself(per: nat, d: nat, off: nat, other: nat)
    requires per > 0 && d > 0 && off < PerLevel(per, d) && other < PerLevel(per, d)
    ensures Together(per, d, 1, off, other) <==> off == other
    decreases d
  {
    hide PerLevel, Slot, Rest;
    SlotRest(per, d, off);
    SlotRest(per, d, other);
    if d == 1 {
      OnePerLevel(per);
    } else {
      OnlyItself(per, d - 1, Rest(per, d, off), Rest(per, d, other));
    }
  }

  lemma OnePerLevel(per: nat)
    ensures PerLevel(per, 0) == 1
  {
  }

  lemma {:induction false} DownInRange(per: nat, d: nat, off: nat, l: nat)
    requires per > 0 && l <= d && off < PerLevel(per, d)
    ensures Down(per, d, off, l) < PerLevel(per, l)
    decreases d
  {
    hide PerLevel, Slot, Rest;
    if l < d {
      SlotRest(per, d, off);
      DownInRange(per, d - 1, Rest(per, d, off), l);
    }
  }

  /** One step further down the path. */
  lemma {:induction false} ReachesOn(disk: Disk, per: nat, root: u32, d: nat, off: nat, cur: u32, l: nat)
    requires Reaches(disk, per, root, d, off, cur, l) && l > 0 && cur != 0 && cur in disk
    requires Slot(per, l, Down(per, d, off, l)) < |disk[cur]|
    ensures var x := Down(per, d, off, l);
            && Reaches(disk, per, root, d, off, disk[cur][Slot(per, l, x)], l - 1)
            && Down(per, d, off, l - 1) == Rest(per, l, x)
    decreases d
  {
    hide PerLevel, Slot, Rest;
    if d > l {
      ReachesOn(disk, per, disk[root][Slot(per, d, off)], d - 1, Rest(per, d, off), cur, l);
    }
  }

  lemma {:induction false} ReachedIsInside(disk: Disk, per: nat, root: u32, d: nat, off: nat, cur: u32, l: nat)
    requires Reaches(disk, per, root, d, off, cur, l) && cur != 0 && l <= d
    ensures Blocks(disk, cur, l) <= Blocks(disk, root, d) && cur in Blocks(disk, root, d)
    ensures Wf(disk, per, root, d) && per > 0 && off < PerLevel(per, d) ==> Wf(disk, per, cur, l)
    decreases d
  {
    hide PerLevel, Slot, Rest, KidBlocks;
    if d > l {
      var k := Slot(per, d, off);
      KidInside(disk, disk[root], d - 1, k);
      ReachedIsInside(disk, per, disk[root][k], d - 1, Rest(per, d, off), cur, l);
      if Wf(disk, per, root, d) && per > 0 && off < PerLevel(per, d) {
        SlotRest(per, d, off);
      }
    }
  }

  // ----- Changing one pointer

  /** The disk after slot `s` of pointer block `cur` was set. */
  function Pointed(disk: Disk, cur: u32, s: nat, v: u32): Disk
    requires cur in disk && s < |disk[cur]|
  {
    var kids: seq<u32> := disk[cur][s := v];
    disk[cur := kids]
  }

  /** The blocks below change by what is below the pointer. */
  lemma {:induction false} PointedBlocks(disk: Disk, per: nat, root: u32, d: nat, off: nat, cur: u32, l: nat, s: nat,
          v: u32)
    requires 0 < l <= d && cur != 0 && cur in disk && s < |disk[cur]|
    requires Reaches(disk, per, root, d, off, cur, l) && Single(Blocks(disk, root, d))
    requires cur !in Blocks(disk, v, l - 1)
    ensures Blocks(Pointed(disk, cur, s, v), root, d) + Blocks(disk, disk[cur][s], l - 1)
         == Blocks(disk, root, d) + Blocks(disk, v, l - 1)
    decreases d
  {
    hide PerLevel, Slot, Rest;
    var disk' := Pointed(disk, cur, s, v);
    if d == l {
      PointedHere(disk, per, cur, l, s, v);
    } else {
      var k := Slot(per, d, off);
      var kids, kid := disk[root], disk[root][k];
      BelowRoot(disk, root, d, k, cur);
      ReachedIsInside(disk, per, kid, d - 1, Rest(per, d, off), cur, l);
      SingleKid(disk, root, d, k);
      PointedBlocks(disk, per, kid, d - 1, Rest(per, d, off), cur, l, s, v);
      OneKidChanged(disk, per, kids, d - 1, k, cur, disk'[cur]);
      assert disk'[root] == kids;
      Exchange(KidBlocks(disk', kids, d - 1), KidBlocks(disk, kids, d - 1), Blocks(disk', kid, d - 1), Blocks(disk,
          kid, d - 1),
               Blocks(disk, v, l - 1), Blocks(disk, disk[cur][s], l - 1));
      assert Blocks(disk', root, d) == multiset{root} + KidBlocks(disk', kids, d - 1);
      Rotate(KidBlocks(disk', kids, d - 1), Blocks(disk, disk[cur][s], l - 1), KidBlocks(disk, kids, d - 1),
             Blocks(disk, v, l - 1), multiset{root});
    }
  }

  lemma Exchange(kids': multiset<u32>, kids: multiset<u32>, kid': multiset<u32>, kid: multiset<u32>,
                 v: multiset<u32>, c: multiset<u32>)
    requires kids' + kid == kids + kid' && kid' + c == kid + v
    ensures kids' + c == kids + v
  {
    forall b: u32
      ensures (kids' + c)[b] == (kids + v)[b]
    {
      assert (kids' + kid)[b] == (kids + kid')[b] && (kid' + c)[b] == (kid + v)[b];
    }
  }

  lemma PointedHere(disk: Disk, per: nat, cur: u32, l: nat, s: nat, v: u32)
    requires 0 < l && cur != 0 && cur in disk && s < |disk[cur]| && Single(Blocks(disk, cur, l))
    requires cur !in Blocks(disk, v, l - 1)
    ensures Blocks(Pointed(disk, cur, s, v), cur, l) + Blocks(disk, disk[cur][s], l - 1)
         == Blocks(disk, cur, l) + Blocks(disk, v, l - 1)
  {
    hide KidBlocks;
    var kids := disk[cur];
    var disk' := Pointed(disk, cur, s, v);
    assert Blocks(disk, cur, l) == multiset{cur} + KidBlocks(disk, kids, l - 1);
    assert Blocks(disk', cur, l) == multiset{cur} + KidBlocks(disk', kids[s := v], l - 1);
    NotBelowItself(disk, cur, l);
    hide Blocks, Single;
    KidUpdate(disk, kids, l - 1, s, v);
    StillNotIn(KidBlocks(disk, kids[s := v], l - 1), KidBlocks(disk, kids, l - 1), Blocks(disk, v, l - 1),
               Blocks(disk, kids[s], l - 1), cur);
    KidsFrame(disk, per, kids[s := v], l - 1, cur, disk'[cur]);
    Rotate(KidBlocks(disk, kids[s := v], l - 1), Blocks(disk, kids[s], l - 1), KidBlocks(disk, kids, l - 1),
           Blocks(disk, v, l - 1), multiset{cur});
  }

  lemma StillNotIn(a: multiset<u32>, b: multiset<u32>, v: multiset<u32>, c: multiset<u32>, x: u32)
    requires a + c == b + v && x !in b && x !in v
    ensures x !in a
  {
    assert (a + c)[x] == (b + v)[x];
  }

  lemma NotBelowItself(disk: Disk, root: u32, d: nat)
    requires root != 0 && d > 0 && root in disk && Single(Blocks(disk, root, d))
    ensures root !in KidBlocks(disk, disk[root], d - 1) && Single(KidBlocks(disk, disk[root], d - 1))
  {
    hide KidBlocks;
    var m := KidBlocks(disk, disk[root], d - 1);
    assert forall b: u32 :: Blocks(disk, root, d)[b] == m[b] + (if b == root then 1 else 0);
  }

  lemma BelowRoot(disk: Disk, root: u32, d: nat, k: nat, cur: u32)
    requires root != 0 && d > 0 && root in disk && Single(Blocks(disk, root, d)) && k < |disk[root]|
    ensures cur in Blocks(disk, disk[root][k], d - 1) ==> cur != root
    ensures forall i :: 0 <= i < |disk[root]| && i != k && cur in Blocks(disk, disk[root][k], d - 1) ==>
              cur !in Blocks(disk, disk[root][i], d - 1)
  {
    hide KidBlocks, Blocks;
    NotBelowItself(disk, root, d);
    KidInside(disk, disk[root], d - 1, k);
    forall i | 0 <= i < |disk[root]| && i != k && cur in Blocks(disk, disk[root][k], d - 1)
      ensures cur !in Blocks(disk, disk[root][i], d - 1)
    {
      KidsApart(disk, disk[root], d - 1, i, k, cur);
    }
  }

  lemma SingleKid(disk: Disk, root: u32, d: nat, k: nat)
    requires root != 0 && d > 0 && root in disk && Single(Blocks(disk, root, d)) && k < |disk[root]|
    ensures Single(Blocks(disk, disk[root][k], d - 1))
  {
    hide KidBlocks, Blocks;
    NotBelowItself(disk, root, d);
    KidInside(disk, disk[root], d - 1, k);
    var m, n := Blocks(disk, disk[root][k], d - 1), KidBlocks(disk, disk[root], d - 1);
    assert forall b: u32 :: m[b] <= n[b];
  }

  /** Only child `k` sees the change of block `p`. */
  lemma {:induction false} OneKidChanged(disk: Disk, per: nat, kids: seq<u32>, d: nat, k: nat, p: u32, x: seq<u32>)
    requires k < |kids| && forall i :: 0 <= i < |kids| && i != k ==> p !in Blocks(disk, kids[i], d)
    ensures KidBlocks(disk[p := x], kids, d) + Blocks(disk, kids[k], d)
         == KidBlocks(disk, kids, d) + Blocks(disk[p := x], kids[k], d)
    decreases |kids|
  {
    hide Blocks;
    if k == 0 {
      forall i | 0 <= i < |kids[1..]|
        ensures p !in Blocks(disk, kids[1..][i], d)
      {
      }
      NoneInside(disk, kids[1..], d, p);
      KidsFrame(disk, per, kids[1..], d, p, x);
    } else {
      Frame(disk, per, kids[0], d, p, x);
      OneKidChanged(disk, per, kids[1..], d, k - 1, p, x);
      Rotate(KidBlocks(disk[p := x], kids[1..], d), Blocks(disk, kids[k], d), KidBlocks(disk, kids[1..], d),
             Blocks(disk[p := x], kids[k], d), Blocks(disk, kids[0], d));
    }
  }

  lemma {:induction false} NoneInside(disk: Disk, kids: seq<u32>, d: nat, p: u32)
    requires forall i :: 0 <= i < |kids| ==> p !in Blocks(disk, kids[i], d)
    ensures p !in KidBlocks(disk, kids, d)
    decreases |kids|
  {
    hide Blocks;
    if kids != [] {
      forall i | 0 <= i < |kids[1..]|
        ensures p !in Blocks(disk, kids[1..][i], d)
      {
      }
      NoneInside(disk, kids[1..], d, p);
    }
  }

  lemma {:induction false} PointedWf(disk: Disk, per: nat, root: u32, d: nat, off: nat, cur: u32, l: nat, s: nat,
          v: u32)
    requires 0 < l <= d && cur != 0 && cur in disk && s < |disk[cur]|
    requires Reaches(disk, per, root, d, off, cur, l) && Single(Blocks(disk, root, d))
    requires Wf(disk, per, root, d) && Wf(disk, per, v, l - 1) && cur !in Blocks(disk, v, l - 1)
    requires Slot(per, l, Down(per, d, off, l)) < per || d == l
    ensures Wf(Pointed(disk, cur, s, v), per, root, d)
    decreases d
  {
    hide PerLevel, Slot, Rest, KidBlocks;
    var disk' := Pointed(disk, cur, s, v);
    if d == l {
      NotBelowItself(disk, cur, l);
      forall k | 0 <= k < per
        ensures Wf(disk', per, disk'[cur][k], l - 1)
      {
        if k != s { KidInside(disk, disk[cur], l - 1, k); }
        Frame(disk, per, disk'[cur][k], l - 1, cur, disk'[cur]);
      }
    } else {
      var k := Slot(per, d, off);
      BelowRoot(disk, root, d, k, cur);
      ReachedIsInside(disk, per, disk[root][k], d - 1, Rest(per, d, off), cur, l);
      SingleKid(disk, root, d, k);
      forall i | 0 <= i < per
        ensures Wf(disk', per, disk'[root][i], d - 1)
      {
        if i == k {
          PointedWf(disk, per, disk[root][k], d - 1, Rest(per, d, off), cur, l, s, v);
        } else {
          Frame(disk, per, disk[root][i], d - 1, cur, disk'[cur]);
        }
      }
    }
  }

  /** Offsets that go through the changed slot find what is below its new pointer; all others
      find what they found. */
  lemma {:induction false} PointedLookup(disk: Disk, per: nat, root: u32, d: nat, off: nat, cur: u32, l: nat, s: nat,
          v: u32, j: nat)
    requires 0 < l <= d && cur != 0 && cur in disk && s < |disk[cur]| && s == Slot(per, l, Down(per, d, off, l))
    requires Reaches(disk, per, root, d, off, cur, l) && Single(Blocks(disk, root, d))
    requires cur !in Blocks(disk, v, l - 1)
    ensures var disk', jl := Pointed(disk, cur, s, v), Rest(per, l, Down(per, d, j, l));
            Lookup(disk', per, root, d, j) ==
              (if Together(per, d, l, off, j) then Lookup(disk, per, v, l - 1, jl) else Lookup(disk, per, root, d, j))
    ensures Together(per, d, l, off, j) ==>
              Lookup(disk, per, root, d, j) == Lookup(disk, per, disk[cur][s], l - 1, Rest(per, l, Down(per, d, j, l)))
    decreases d
  {
    hide PerLevel, Slot, Rest, KidBlocks;
    var disk' := Pointed(disk, cur, s, v);
    if d == l {
      var k := Slot(per, l, j);
      NotBelowItself(disk, cur, l);
      if k < |disk[cur]| {
        if k != s { KidInside(disk, disk[cur], l - 1, k); }
        LookupFrame(disk, per, disk'[cur][k], l - 1, cur, disk'[cur], Rest(per, l, j));
      }
    } else {
      var k, kj := Slot(per, d, off), Slot(per, d, j);
      BelowRoot(disk, root, d, k, cur);
      ReachedIsInside(disk, per, disk[root][k], d - 1, Rest(per, d, off), cur, l);
      SingleKid(disk, root, d, k);
      if kj == k {
        PointedLookup(disk, per, disk[root][k], d - 1, Rest(per, d, off), cur, l, s, v, Rest(per, d, j));
      } else if kj < |disk[root]| {
        LookupFrame(disk, per, disk[root][kj], d - 1, cur, disk'[cur], Rest(per, d, j));
      }
    }
  }

  /** The way to a block does not depend on what is in it. */
  lemma {:induction false} ReachesStill(disk: Disk, per: nat, root: u32, d: nat, off: nat, cur: u32, l: nat,
          x: seq<u32>)
    requires Reaches(disk, per, root, d, off, cur, l) && l <= d && cur != 0 && Single(Blocks(disk, root, d))
    ensures Reaches(disk[cur := x], per, root, d, off, cur, l)
    decreases d
  {
    hide PerLevel, Slot, Rest, KidBlocks;
    if d > l {
      var k := Slot(per, d, off);
      BelowRoot(disk, root, d, k, cur);
      ReachedIsInside(disk, per, disk[root][k], d - 1, Rest(per, d, off), cur, l);
      SingleKid(disk, root, d, k);
      ReachesStill(disk, per, disk[root][k], d - 1, Rest(per, d, off), cur, l, x);
    }
  }

  // ----- Trees without data

  /** There are pointer blocks only. */
  ghost predicate NoData(disk: Disk, per: nat, root: u32, d: nat)
    decreases d
  {
    root != 0 ==>
      d > 0 && root in disk && |disk[root]| == per && forall k :: 0 <= k < per ==>
          NoData(disk, per, disk[root][k], d - 1)
  }

  lemma SlotOfSum(per: nat, d: nat, k: nat, r: nat)
    requires per > 0 && d > 0 && k < per && r < PerLevel(per, d - 1)
    ensures var off := k * PerLevel(per, d - 1) + r;
            off < PerLevel(per, d) && Slot(per, d, off) == k && Rest(per, d, off) == r
  {
    var p := PerLevel(per, d - 1);
    SumDivMod(k, p, r, per);
  }

  lemma SumDivMod(k: nat, p: nat, r: nat, per: nat)
    requires r < p && k < per
    ensures k * p + r < p * per && (k * p + r) / p == k && (k * p + r) % p == r
  {
    TimesLess(k + 1, per, p);
    assert (k + 1) * p == k * p + p;
    var x := k * p + r;
    assert x == (x / p) * p + x % p;
    if x / p > k { TimesLess(k + 1, x / p, p); }
    if x / p < k { TimesLess(x / p + 1, k, p); }
  }

  /** A tree in which every offset is a hole holds no data. */
  lemma {:induction false} AllHoles(disk: Disk, per: nat, root: u32, d: nat)
    requires per > 0 && Wf(disk, per, root, d)
    requires forall off: nat :: off < PerLevel(per, d) ==> Lookup(disk, per, root, d, off) == 0
    ensures NoData(disk, per, root, d)
    decreases d
  {
    hide PerLevel, Slot, Rest;
    if d == 0 {
      OnePerLevel(per);
      assert Lookup(disk, per, root, 0, 0) == root;
    } else if root != 0 {
      forall k | 0 <= k < per
        ensures NoData(disk, per, disk[root][k], d - 1)
      {
        var kid, below := disk[root][k], d - 1;
        forall r: nat | r < PerLevel(per, below)
          ensures Lookup(disk, per, kid, below, r) == 0
        {
          SlotOfSum(per, d, k, r);
          assert Lookup(disk, per, root, d, k * PerLevel(per, below) + r) == 0;
        }
        AllHoles(disk, per, kid, below);
      }
    }
  }

  /** A pointer block of the lowest level is alone then. */
  lemma NoDataBelow(disk: Disk, per: nat, root: u32)
    requires NoData(disk, per, root, 1)
    ensures Blocks(disk, root, 1) == if root == 0 then multiset{} else multiset{root}
  {
    if root != 0 {
      forall k | 0 <= k < |disk[root]|
        ensures disk[root][k] == 0
      {
        assert NoData(disk, per, disk[root][k], 0);
      }
      NoKids(disk, disk[root], 0);
    }
  }
}
