/** The block map of a file: direct, single, double and triple indirect blocks. */
module BlockMap {
  import opened Words
  import opened BlockTree

  datatype Errno = EOK | EIO | ENOSPC | EINVAL

  const DIRECT_COUNT := 12

  /** `inode_block_limits`. */
  function Limit(per: nat, level: nat): nat {
    if level == 0 then DIRECT_COUNT else Limit(per, level - 1) + PerLevel(per, level)
  }

  /** The level of indirection of a logical block: 0 for a direct one, 4 behind all of them. */
  function LevelOf(per: nat, i: nat): (l: nat)
    ensures l <= 4
    ensures 1 <= l <= 3 ==> Limit(per, l - 1) <= i < Limit(per, l) && i - Limit(per, l - 1) < PerLevel(per, l)
  {
    if i < DIRECT_COUNT then 0
    else if i < Limit(per, 1) then 1
    else if i < Limit(per, 2) then 2
    else if i < Limit(per, 3) then 3
    else 4
  }

  /** The pointers of an inode. */
  datatype Roots = Roots(direct: seq<u32>, indirect: seq<u32>) {
    ghost predicate Shaped() { |direct| == DIRECT_COUNT && |indirect| == 3 }
  }

  /** The data block of logical block `i`, or 0. */
  function Found(disk: Disk, rs: Roots, per: nat, i: nat): u32 {
    var l := LevelOf(per, i);
    if l == 0 then (if i < |rs.direct| then rs.direct[i] else 0)
    else if l == 4 || l - 1 >= |rs.indirect| then 0
    else Lookup(disk, per, rs.indirect[l - 1], l, i - Limit(per, l - 1))
  }

  /** The blocks of one of the four parts of the map. */
  function Area(disk: Disk, rs: Roots, a: nat): multiset<u32> {
    if a == 0 then KidBlocks(disk, rs.direct, 0)
    else if a - 1 < |rs.indirect| then Blocks(disk, rs.indirect[a - 1], a)
    else multiset{}
  }

  /** All blocks of the file, data and pointer blocks. */
  function All(disk: Disk, rs: Roots): multiset<u32> {
    Area(disk, rs, 0) + Area(disk, rs, 1) + Area(disk, rs, 2) + Area(disk, rs, 3)
  }

  ghost predicate MapOk(disk: Disk, rs: Roots, per: nat) {
    && per > 0 && rs.Shaped() && Single(All(disk, rs))
    && forall a :: 0 <= a <= 3 ==> AreaWf(disk, rs, per, a)
  }

  ghost predicate AreaWf(disk: Disk, rs: Roots, per: nat, a: nat) {
    a == 0 || (a - 1 < |rs.indirect| && Wf(disk, per, rs.indirect[a - 1], a))
  }

  /** Two maps lead to the same data blocks. */
  ghost predicate SameMap(disk: Disk, rs: Roots, disk': Disk, rs': Roots, per: nat) {
    forall j: nat :: Found(disk', rs', per, j) == Found(disk, rs, per, j)
  }

  // ----- Arithmetic of levels

  /** Level and slots are a bijection: different logical blocks take different paths. */
  lemma PathsDiffer(per: nat, i: nat, j: nat)
    requires per > 0 && i != j && 1 <= LevelOf(per, i) <= 3 && LevelOf(per, j) == LevelOf(per, i)
    ensures var l := LevelOf(per, i);
            !Together(per, l, 1, i - Limit(per, l - 1), j - Limit(per, l - 1))
  {
    hide PerLevel, Limit, Together;
    var l := LevelOf(per, i);
    OnlyItself(per, l, i - Limit(per, l - 1), j - Limit(per, l - 1));
  }

  // ----- Areas

  lemma AreaInside(disk: Disk, rs: Roots, a: nat, x: u32)
    requires a <= 3 && x in Area(disk, rs, a)
    ensures x in All(disk, rs)
    ensures Single(All(disk, rs)) ==> Single(Area(disk, rs, a)) && forall b :: 0 <= b <= 3 && b != a ==>
            x !in Area(disk, rs, b)
  {
    hide Area;
    var m := All(disk, rs);
    assert forall y: u32 :: m[y] == Area(disk, rs, 0)[y] + Area(disk, rs, 1)[y] + Area(disk, rs, 2)[y] + Area(disk,
        rs, 3)[y];
    assert m[x] <= 1 || !Single(m);
  }

  lemma AreaSingle(disk: Disk, rs: Roots, a: nat)
    requires a <= 3 && Single(All(disk, rs))
    ensures Single(Area(disk, rs, a))
  {
    hide Area;
    var m := All(disk, rs);
    assert forall y: u32 :: m[y] == Area(disk, rs, 0)[y] + Area(disk, rs, 1)[y] + Area(disk, rs, 2)[y] + Area(disk,
        rs, 3)[y];
  }

  /** One area changes by what goes and what comes. */
  lemma OneArea(disk: Disk, rs: Roots, disk': Disk, rs': Roots, a: nat, c: multiset<u32>, v: multiset<u32>)
    requires a <= 3 && Area(disk', rs', a) + c == Area(disk, rs, a) + v
    requires forall b :: 0 <= b <= 3 && b != a ==> Area(disk', rs', b) == Area(disk, rs, b)
    ensures All(disk', rs') + c == All(disk, rs) + v
  {
    hide Area;
    forall x: u32
      ensures (All(disk', rs') + c)[x] == (All(disk, rs) + v)[x]
    {
      assert (Area(disk', rs', a) + c)[x] == (Area(disk, rs, a) + v)[x];
    }
  }

  /** A block outside the map changes. */
  lemma OutsideChanged(disk: Disk, rs: Roots, per: nat, p: u32, x: seq<u32>)
    requires MapOk(disk, rs, per) && p !in All(disk, rs)
    ensures MapOk(disk[p := x], rs, per) && All(disk[p := x], rs) == All(disk, rs)
    ensures SameMap(disk, rs, disk[p := x], rs, per)
  {
    hide Area;
    var disk' := disk[p := x];
    forall a | 0 <= a <= 3
      ensures Area(disk', rs, a) == Area(disk, rs, a) && AreaWf(disk', rs, per, a) && p !in Area(disk, rs, a)
    {
      NotInArea(disk, rs, a, p);
      AreaFrame(disk, rs, per, a, p, x);
      assert AreaWf(disk, rs, per, a);
    }
    OutsideFound(disk, rs, per, p, x);
  }

  lemma OutsideFound(disk: Disk, rs: Roots, per: nat, p: u32, x: seq<u32>)
    requires rs.Shaped() && forall a :: 0 <= a <= 3 ==> p !in Area(disk, rs, a)
    ensures SameMap(disk, rs, disk[p := x], rs, per)
  {
    hide PerLevel, Limit, Area, Found;
    forall j: nat
      ensures Found(disk[p := x], rs, per, j) == Found(disk, rs, per, j)
    {
      FoundFrame(disk, rs, per, p, x, j);
    }
  }

  lemma NotInArea(disk: Disk, rs: Roots, a: nat, p: u32)
    requires a <= 3 && p !in All(disk, rs)
    ensures p !in Area(disk, rs, a)
  {
    hide Area;
  }

  lemma AreaFrame(disk: Disk, rs: Roots, per: nat, a: nat, p: u32, x: seq<u32>)
    requires a <= 3 && p !in Area(disk, rs, a) && rs.Shaped()
    ensures Area(disk[p := x], rs, a) == Area(disk, rs, a)
    ensures AreaWf(disk, rs, per, a) ==> AreaWf(disk[p := x], rs, per, a)
  {
    if a == 0 {
      KidsFrame(disk, per, rs.direct, 0, p, x);
    } else {
      Frame(disk, per, rs.indirect[a - 1], a, p, x);
    }
  }

  lemma FoundFrame(disk: Disk, rs: Roots, per: nat, p: u32, x: seq<u32>, j: nat)
    requires rs.Shaped()
    requires 1 <= LevelOf(per, j) <= 3 ==> p !in Area(disk, rs, LevelOf(per, j))
    ensures Found(disk[p := x], rs, per, j) == Found(disk, rs, per, j)
  {
    hide PerLevel, Limit;
    var l := LevelOf(per, j);
    if 1 <= l <= 3 {
      LookupFrame(disk, per, rs.indirect[l - 1], l, p, x, j - Limit(per, l - 1));
    }
  }

  // ----- One pointer changes

  /** The pointer `s` of block `cur`, met on the way to logical block `i`, now leads to `v`. */
  lemma PointerSet(disk: Disk, rs: Roots, per: nat, i: nat, cur: u32, lv: nat, s: nat, v: u32)
    requires MapOk(disk, rs, per) && var l := LevelOf(per, i); 1 <= lv <= l <= 3
    requires cur != 0 && cur in disk && s < |disk[cur]|
    requires var l := LevelOf(per, i);
             var off := i - Limit(per, l - 1);
             && Reaches(disk, per, rs.indirect[l - 1], l, off, cur, lv)
             && s == Slot(per, lv, Down(per, l, off, lv))
    requires Wf(disk, per, v, lv - 1) && Single(Blocks(disk, v, lv - 1))
    requires forall x :: x in Blocks(disk, v, lv - 1) ==> x !in All(disk, rs)
    ensures var disk' := Pointed(disk, cur, s, v);
            && MapOk(disk', rs, per)
            && All(disk', rs) + Blocks(disk, disk[cur][s], lv - 1) == All(disk, rs) + Blocks(disk, v, lv - 1)
  {
    hide PerLevel, Limit, Slot, Down, Reaches, Blocks, KidBlocks;
    var l := LevelOf(per, i);
    var off := i - Limit(per, l - 1);
    var root := rs.indirect[l - 1];
    var disk' := Pointed(disk, cur, s, v);
    assert AreaWf(disk, rs, per, l);
    ReachedIsInside(disk, per, root, l, off, cur, lv);
    AreaInside(disk, rs, l, cur);
    PointedBlocks(disk, per, root, l, off, cur, lv, s, v);
    DownInRange(per, l, off, lv);
    SlotRest(per, lv, Down(per, l, off, lv));
    PointedWf(disk, per, root, l, off, cur, lv, s, v);
    forall a | 0 <= a <= 3 && a != l
      ensures Area(disk', rs, a) == Area(disk, rs, a)
      ensures AreaWf(disk', rs, per, a)
    {
      assert AreaWf(disk, rs, per, a);
      AreaFrame(disk, rs, per, a, cur, disk'[cur]);
    }
    assert AreaWf(disk', rs, per, l);
    OneArea(disk, rs, disk', rs, l, Blocks(disk, disk[cur][s], lv - 1), Blocks(disk, v, lv - 1));
    StillSingle(All(disk', rs), All(disk, rs), Blocks(disk, v, lv - 1), Blocks(disk, disk[cur][s], lv - 1));
  }

  lemma StillSingle(a: multiset<u32>, b: multiset<u32>, v: multiset<u32>, c: multiset<u32>)
    requires a + c == b + v && Single(b) && Single(v) && forall x :: x in v ==> x !in b
    ensures Single(a)
  {
    forall x: u32
      ensures a[x] <= 1
    {
      assert (a + c)[x] == (b + v)[x];
    }
  }

  lemma PointerSetFound(disk: Disk, rs: Roots, per: nat, i: nat, cur: u32, lv: nat, s: nat, v: u32, j: nat)
    requires MapOk(disk, rs, per) && var l := LevelOf(per, i); 1 <= lv <= l <= 3
    requires cur != 0 && cur in disk && s < |disk[cur]|
    requires var l := LevelOf(per, i);
             var off := i - Limit(per, l - 1);
             && Reaches(disk, per, rs.indirect[l - 1], l, off, cur, lv)
             && s == Slot(per, lv, Down(per, l, off, lv))
    requires cur !in Blocks(disk, v, lv - 1)
    ensures var disk', l := Pointed(disk, cur, s, v), LevelOf(per, i);
            var off := i - Limit(per, l - 1);
            if LevelOf(per, j) == l && Together(per, l, lv, off, j - Limit(per, l - 1)) then
              var rest := Rest(per, lv, Down(per, l, j - Limit(per, l - 1), lv));
              && Found(disk', rs, per, j) == Lookup(disk, per, v, lv - 1, rest)
              && Found(disk, rs, per, j) == Lookup(disk, per, disk[cur][s], lv - 1, rest)
            else Found(disk', rs, per, j) == Found(disk, rs, per, j)
  {
    hide PerLevel, Limit, Slot, Down, Reaches, Blocks, KidBlocks, Rest, Together, Lookup;
    var l := LevelOf(per, i);
    var off := i - Limit(per, l - 1);
    var disk' := Pointed(disk, cur, s, v);
    ReachedIsInside(disk, per, rs.indirect[l - 1], l, off, cur, lv);
    AreaInside(disk, rs, l, cur);
    if LevelOf(per, j) == l {
      PointedLookup(disk, per, rs.indirect[l - 1], l, off, cur, lv, s, v, j - Limit(per, l - 1));
    } else {
      FoundFrame(disk, rs, per, cur, disk'[cur], j);
    }
  }

  // ----- New pointer blocks

  function Zeros(per: nat): (z: seq<u32>)
    ensures |z| == per && forall k :: 0 <= k < per ==> z[k] == 0
  {
    seq(per, _ => 0)
  }

  lemma EmptyBlock(disk: Disk, per: nat, v: u32, d: nat)
    requires v != 0
    ensures d > 0 ==> Blocks(disk[v := Zeros(per)], v, d) == multiset{v}
    ensures d == 0 ==> Blocks(disk, v, d) == multiset{v}
    ensures Wf(disk[v := Zeros(per)], per, v, d)
  {
    if d > 0 {
      NoKids(disk[v := Zeros(per)], Zeros(per), d - 1);
      forall k | 0 <= k < per
        ensures Wf(disk[v := Zeros(per)], per, Zeros(per)[k], d - 1)
      {
        assert Zeros(per)[k] == 0;
      }
    }
  }

  lemma EmptyLookup(disk: Disk, per: nat, v: u32, d: nat, off: nat)
    requires v != 0 && d > 0 && v in disk && disk[v] == Zeros(per)
    ensures Lookup(disk, per, v, d, off) == 0
  {
    hide PerLevel, Slot, Rest;
  }

  lemma AreaIs(disk: Disk, rs: Roots, l: nat, p: u32)
    requires 1 <= l <= 3 && rs.Shaped() && p !in All(disk, rs)
    ensures p !in Blocks(disk, rs.indirect[l - 1], l)
  {
    hide Blocks, KidBlocks;
  }

  /** A pointer block that was missing on the way to block `i` is put in. No logical block sees
      the difference. */
  lemma ChildAdded(disk: Disk, rs: Roots, per: nat, i: nat, cur: u32, lv: nat, s: nat, v: u32)
    requires MapOk(disk, rs, per) && var l := LevelOf(per, i); 1 < lv <= l <= 3
    requires cur != 0 && cur in disk && s < |disk[cur]| && disk[cur][s] == 0
    requires var l := LevelOf(per, i);
             var off := i - Limit(per, l - 1);
             && Reaches(disk, per, rs.indirect[l - 1], l, off, cur, lv)
             && s == Slot(per, lv, Down(per, l, off, lv))
    requires v != 0 && v !in All(disk, rs)
    ensures var disk1 := disk[v := Zeros(per)];
            && cur in disk1 && s < |disk1[cur]|
            && var disk' := Pointed(disk1, cur, s, v);
               && MapOk(disk', rs, per) && SameMap(disk, rs, disk', rs, per)
               && All(disk', rs) == All(disk, rs) + multiset{v}
               && v in disk' && disk'[v] == Zeros(per)
  {
    hide PerLevel, Limit, Slot, Down, Reaches, Blocks, KidBlocks, Rest, Together, Lookup, Zeros, Found, Area;
    var l := LevelOf(per, i);
    var disk1 := disk[v := Zeros(per)];
    CurInside(disk, rs, per, i, cur, lv);
    assert cur != v;
    AreaIs(disk, rs, l, v);
    OutsideChanged(disk, rs, per, v, Zeros(per));
    ReachesFrame(disk, per, rs.indirect[l - 1], l, i - Limit(per, l - 1), cur, lv, v, Zeros(per));
    EmptyBlock(disk, per, v, lv - 1);
    PointerSet(disk1, rs, per, i, cur, lv, s, v);
    var disk' := Pointed(disk1, cur, s, v);
    forall j: nat
      ensures Found(disk', rs, per, j) == Found(disk, rs, per, j)
    {
      PointerSetFound(disk1, rs, per, i, cur, lv, s, v, j);
      if LevelOf(per, j) == l {
        var rest := Rest(per, lv, Down(per, l, j - Limit(per, l - 1), lv));
        Hole(disk1, per, lv - 1, rest);
        EmptyLookup(disk1, per, v, lv - 1, rest);
      }
    }
    NoHoleBlocks(disk1, lv - 1);
    assert All(disk', rs) == All(disk', rs) + Blocks(disk1, 0, lv - 1);
  }

  lemma Hole(disk: Disk, per: nat, d: nat, off: nat)
    ensures Lookup(disk, per, 0, d, off) == 0
  {
  }

  lemma NoHoleBlocks(disk: Disk, d: nat)
    ensures Blocks(disk, 0, d) == multiset{}
  {
  }

  lemma CurInside(disk: Disk, rs: Roots, per: nat, i: nat, cur: u32, lv: nat)
    requires MapOk(disk, rs, per) && var l := LevelOf(per, i); 1 <= lv <= l <= 3
    requires cur != 0 && var l := LevelOf(per, i);
             Reaches(disk, per, rs.indirect[l - 1], l, i - Limit(per, l - 1), cur, lv)
    ensures cur in All(disk, rs) && Wf(disk, per, cur, lv) && cur in disk && |disk[cur]| == per
  {
    hide PerLevel, Limit, Blocks;
    var l := LevelOf(per, i);
    assert AreaWf(disk, rs, per, l);
    ReachedIsInside(disk, per, rs.indirect[l - 1], l, i - Limit(per, l - 1), cur, lv);
    AreaInside(disk, rs, l, cur);
  }

  lemma {:induction false} ReachesFrame(disk: Disk, per: nat, root: u32, d: nat, off: nat, cur: u32, l: nat, p: u32,
          x: seq<u32>)
    requires Reaches(disk, per, root, d, off, cur, l) && p !in Blocks(disk, root, d)
    ensures Reaches(disk[p := x], per, root, d, off, cur, l)
    decreases d
  {
    hide PerLevel, Slot, Rest, KidBlocks;
    if d > l {
      KidInside(disk, disk[root], d - 1, Slot(per, d, off));
      ReachesFrame(disk, per, disk[root][Slot(per, d, off)], d - 1, Rest(per, d, off), cur, l, p, x);
    }
  }

  /** The same for a pointer block that was missing in the inode itself. */
  lemma RootAdded(disk: Disk, rs: Roots, per: nat, l: nat, v: u32)
    requires MapOk(disk, rs, per) && 1 <= l <= 3 && rs.indirect[l - 1] == 0
    requires v != 0 && v !in All(disk, rs)
    ensures var disk', rs' := disk[v := Zeros(per)], rs.(indirect := rs.indirect[l - 1 := v]);
            && MapOk(disk', rs', per) && SameMap(disk, rs, disk', rs', per)
            && All(disk', rs') == All(disk, rs) + multiset{v}
  {
    hide PerLevel, Limit, Blocks, KidBlocks, Lookup, Zeros, Found;
    var disk', rs' := disk[v := Zeros(per)], rs.(indirect := rs.indirect[l - 1 := v]);
    OutsideChanged(disk, rs, per, v, Zeros(per));
    EmptyBlock(disk, per, v, l);
    NoHoleBlocks(disk', l);
    OneArea(disk', rs, disk', rs', l, multiset{}, multiset{v});
    assert All(disk', rs') == All(disk', rs') + multiset{};
    StillSingle(All(disk', rs'), All(disk, rs), multiset{v}, multiset{});
    forall a | 0 <= a <= 3
      ensures AreaWf(disk', rs', per, a)
    {
      assert AreaWf(disk', rs, per, a);
    }
    forall j: nat
      ensures Found(disk', rs', per, j) == Found(disk', rs, per, j)
    {
      RootFound(disk, rs, per, l, v, j);
    }
    assert forall j: nat :: Found(disk', rs', per, j) == Found(disk, rs, per, j);
  }

  lemma RootFound(disk: Disk, rs: Roots, per: nat, l: nat, v: u32, j: nat)
    requires per > 0 && rs.Shaped() && 1 <= l <= 3 && rs.indirect[l - 1] == 0 && v != 0
    ensures var disk' := disk[v := Zeros(per)];
            Found(disk', rs.(indirect := rs.indirect[l - 1 := v]), per, j) == Found(disk', rs, per, j)
  {
    hide PerLevel, Limit, Lookup, Zeros;
    if LevelOf(per, j) == l {
      var disk' := disk[v := Zeros(per)];
      EmptyBlock(disk, per, v, l);
      Hole(disk', per, l, j - Limit(per, l - 1));
      EmptyLookup(disk', per, v, l, j - Limit(per, l - 1));
    }
  }

  /** The data block of logical block `i` is set in the last pointer block on the way to it. */
  lemma DataSet(disk: Disk, rs: Roots, per: nat, i: nat, cur: u32, s: nat, v: u32)
    requires MapOk(disk, rs, per) && 1 <= LevelOf(per, i) <= 3
    requires cur != 0 && cur in disk && s < |disk[cur]|
    requires var l := LevelOf(per, i);
             var off := i - Limit(per, l - 1);
             && Reaches(disk, per, rs.indirect[l - 1], l, off, cur, 1)
             && s == Slot(per, 1, Down(per, l, off, 1))
    requires v !in All(disk, rs)
    ensures Found(disk, rs, per, i) == disk[cur][s]
    ensures SetTo(disk, rs, Pointed(disk, cur, s, v), rs, per, i, v)
  {
    hide PerLevel, Limit, Slot, Down, Reaches, KidBlocks, Rest, Together, Found, MapOk, All, LevelOf;
    var l := LevelOf(per, i);
    var disk' := Pointed(disk, cur, s, v);
    CurInside(disk, rs, per, i, cur, 1);
    PointerSet(disk, rs, per, i, cur, 1, s, v);
    OnlyItself(per, l, i - Limit(per, l - 1), i - Limit(per, l - 1));
    PointerSetFound(disk, rs, per, i, cur, 1, s, v, i);
    forall j: nat | j != i
      ensures Found(disk', rs, per, j) == Found(disk, rs, per, j)
    {
      PointerSetFound(disk, rs, per, i, cur, 1, s, v, j);
      if LevelOf(per, j) == l { PathsDiffer(per, i, j); }
    }
  }

  /** Logical block `i`, and no other, now leads to `v`; the block it led to before is gone from
      the map, and `v` is new in it. */
  ghost predicate SetTo(disk: Disk, rs: Roots, disk': Disk, rs': Roots, per: nat, i: nat, v: u32) {
    && MapOk(disk', rs', per)
    && (forall j: nat :: Found(disk', rs', per, j) == if j == i then v else Found(disk, rs, per, j))
    && All(disk', rs') + One(Found(disk, rs, per, i)) == All(disk, rs) + One(v)
  }

  function One(b: u32): multiset<u32> { if b == 0 then multiset{} else multiset{b} }

  lemma DirectSet(disk: Disk, rs: Roots, per: nat, i: nat, v: u32)
    requires MapOk(disk, rs, per) && i < DIRECT_COUNT && v !in All(disk, rs)
    ensures SetTo(disk, rs, disk, rs.(direct := rs.direct[i := v]), per, i, v)
  {
    hide All, Found, Limit, PerLevel, Wf;
    DirectAreas(disk, rs, per, i, v);
    forall j: nat
      ensures Found(disk, rs.(direct := rs.direct[i := v]), per, j) == if j == i then v else Found(disk, rs, per, j)
    {
      DirectFound(disk, rs, per, i, v, j);
    }
  }

  lemma DirectFound(disk: Disk, rs: Roots, per: nat, i: nat, v: u32, j: nat)
    requires rs.Shaped() && i < DIRECT_COUNT
    ensures Found(disk, rs.(direct := rs.direct[i := v]), per, j) == if j == i then v else Found(disk, rs, per, j)
    ensures Found(disk, rs, per, i) == rs.direct[i]
  {
    hide PerLevel, Limit, Lookup;
  }

  lemma DirectAreas(disk: Disk, rs: Roots, per: nat, i: nat, v: u32)
    requires MapOk(disk, rs, per) && i < DIRECT_COUNT && v !in All(disk, rs)
    ensures var rs' := rs.(direct := rs.direct[i := v]);
            MapOk(disk, rs', per) && All(disk, rs') + One(Found(disk, rs, per, i)) == All(disk, rs) + One(v)
  {
    hide KidBlocks, Blocks, Found;
    var rs' := rs.(direct := rs.direct[i := v]);
    DirectFound(disk, rs, per, i, v, i);
    KidUpdate(disk, rs.direct, 0, i, v);
    DirectBlock(disk, v);
    DirectBlock(disk, rs.direct[i]);
    OneArea(disk, rs, disk, rs', 0, One(rs.direct[i]), One(v));
    hide All;
    StillSingle(All(disk, rs'), All(disk, rs), One(v), One(rs.direct[i]));
    forall a | 0 <= a <= 3
      ensures AreaWf(disk, rs', per, a)
    {
      assert AreaWf(disk, rs, per, a);
    }
  }

  lemma DirectBlock(disk: Disk, b: u32)
    ensures Blocks(disk, b, 0) == One(b)
  {
  }
}
