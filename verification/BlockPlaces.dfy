/** How many blocks an operation on the block map needs: the places where pointer blocks belong, and
    which of them are still empty. */
module BlockPlaces {
  import opened Words
  import opened BlockTree
  import opened BlockMap

  /** Where a pointer block belongs: in the tree of level `area`, behind this path of slots. */
  datatype Place = Place(area: nat, path: seq<nat>)

  /** What a path of slots leads to. */
  function Follow(disk: Disk, root: u32, path: seq<nat>): u32
    decreases |path|
  {
    if path == [] || root == 0 then root
    else if root !in disk || path[0] >= |disk[root]| then 0
    else Follow(disk, disk[root][path[0]], path[1..])
  }

  /** The slots that an offset takes from level `d` down to level `l`. */
  function Way(per: nat, d: nat, off: nat, l: nat): (w: seq<nat>)
    ensures |w| == if d <= l then 0 else d - l
    decreases d
  {
    if d <= l then [] else [Slot(per, d, off)] + Way(per, d - 1, Rest(per, d, off), l)
  }

  /** There is a pointer block. */
  predicate Filled(disk: Disk, rs: Roots, pl: Place) {
    1 <= pl.area <= |rs.indirect| && Follow(disk, rs.indirect[pl.area - 1], pl.path) != 0
  }

  /** Pointer blocks on the way to logical block `i`. */
  function Depth(per: nat, i: nat): (d: nat)
    ensures d <= 3
  {
    if LevelOf(per, i) == 4 then 0 else LevelOf(per, i)
  }

  function Off(per: nat, i: nat): nat {
    var l := LevelOf(per, i);
    if 1 <= l <= 3 then i - Limit(per, l - 1) else 0
  }

  /** The place of the one at level `l`. */
  function PlaceOf(per: nat, i: nat, l: nat): Place {
    Place(Depth(per, i), Way(per, Depth(per, i), Off(per, i), l))
  }

  /** The empty places among the ones up to level `l`. */
  function LacksTo(disk: Disk, rs: Roots, per: nat, i: nat, l: nat): (s: set<Place>)
    requires l <= Depth(per, i)
    ensures forall pl :: pl in s <==> OnWay(per, i, l, pl) && !Filled(disk, rs, pl)
  {
    if l == 0 then {}
    else
      var pl := PlaceOf(per, i, l);
      LacksTo(disk, rs, per, i, l - 1) + if Filled(disk, rs, pl) then {} else {pl}
  }

  ghost predicate OnWay(per: nat, i: nat, l: nat, pl: Place) {
    exists k :: 1 <= k <= l && pl == PlaceOf(per, i, k)
  }

  function Lacks(disk: Disk, rs: Roots, per: nat, i: nat): (s: set<Place>) {
    LacksTo(disk, rs, per, i, Depth(per, i))
  }

  /** The empty places on the ways to `n` logical blocks, each counted once. */
  function LacksAll(disk: Disk, rs: Roots, per: nat, i: nat, n: nat): (s: set<Place>)
    decreases n
  {
    if n == 0 then {} else Lacks(disk, rs, per, i) + LacksAll(disk, rs, per, i + 1, n - 1)
  }

  /** The blocks that `n` logical blocks from `i` on take, if all of them are holes: data blocks, and
      pointer blocks that are missing. */
  function Need(disk: Disk, rs: Roots, per: nat, i: nat, n: nat): nat {
    n + |LacksAll(disk, rs, per, i, n)|
  }

  function FreeSet(used: set<u32>, total: u32): (s: set<u32>)
    ensures forall b: u32 :: b in s <==> 0 < b < total && b !in used
  {
    set b: u32 | 0 < b < total && b !in used
  }

  /** The blocks of the file system that are free. */
  function FreeCount(used: set<u32>, total: u32): nat { |FreeSet(used, total)| }

  lemma FreeLess(used: set<u32>, total: u32, gained: set<u32>)
    requires gained !! used && forall b :: b in gained ==> 0 < b < total
    ensures FreeCount(used + gained, total) == FreeCount(used, total) - |gained|
  {
    var f := FreeSet(used, total);
    assert FreeSet(used + gained, total) == f - gained;
    assert f == (f - gained) + gained;
  }

  // ----- What follows a path

  lemma {:induction false} FollowFrame(disk: Disk, root: u32, d: nat, path: seq<nat>, p: u32, x: seq<u32>)
    requires p !in Blocks(disk, root, d) && |path| <= d
    ensures Follow(disk[p := x], root, path) == Follow(disk, root, path)
    decreases d
  {
    hide KidBlocks;
    if path != [] && root != 0 && root in disk && path[0] < |disk[root]| {
      KidInside(disk, disk[root], d - 1, path[0]);
      FollowFrame(disk, disk[root][path[0]], d - 1, path[1..], p, x);
    }
  }

  lemma {:induction false} ReachesFollow(disk: Disk, per: nat, root: u32, d: nat, off: nat, cur: u32, l: nat)
    requires Reaches(disk, per, root, d, off, cur, l) && l <= d
    ensures Follow(disk, root, Way(per, d, off, l)) == cur
    decreases d
  {
    hide Slot, Rest;
    if d > l {
      ReachesFollow(disk, per, disk[root][Slot(per, d, off)], d - 1, Rest(per, d, off), cur, l);
      assert Way(per, d, off, l)[1..] == Way(per, d - 1, Rest(per, d, off), l);
    }
  }

  /** A path from the changed block itself. */
  lemma FollowHere(disk: Disk, per: nat, cur: u32, l: nat, s: nat, v: u32, path: seq<nat>)
    requires 0 < l && cur != 0 && cur in disk && s < |disk[cur]| && Single(Blocks(disk, cur, l))
    requires 0 < |path| <= l && cur !in Blocks(disk, v, l - 1)
    ensures path[0] == s ==>
              && Follow(Pointed(disk, cur, s, v), cur, path) == Follow(disk, v, path[1..])
              && Follow(disk, cur, path) == Follow(disk, disk[cur][s], path[1..])
    ensures path[0] != s ==> Follow(Pointed(disk, cur, s, v), cur, path) == Follow(disk, cur, path)
  {
    hide KidBlocks, Single;
    var disk' := Pointed(disk, cur, s, v);
    NotBelowItself(disk, cur, l);
    var k := path[0];
    if k < |disk[cur]| {
      if k != s { KidInside(disk, disk[cur], l - 1, k); }
      FollowFrame(disk, disk'[cur][k], l - 1, path[1..], cur, disk'[cur]);
    }
  }

  /** A path from a block above it, by another slot than the one that leads to it. */
  lemma FollowBeside(disk: Disk, root: u32, d: nat, k: nat, cur: u32, x: seq<u32>, path: seq<nat>)
    requires root != 0 && d > 0 && root in disk && k < |disk[root]| && Single(Blocks(disk, root, d))
    requires cur in Blocks(disk, disk[root][k], d - 1) && 0 < |path| <= d
    ensures cur != root
    ensures path[0] != k ==> Follow(disk[cur := x], root, path) == Follow(disk, root, path)
  {
    hide Blocks, Single;
    BelowRoot(disk, root, d, k, cur);
    if path[0] != k && path[0] < |disk[root]| {
      FollowFrame(disk, disk[root][path[0]], d - 1, path[1..], cur, x);
    }
  }

  /** Paths through the changed slot lead to what is below its new pointer; all others lead to what
      they did. */
  lemma {:induction false} PointedFollow(disk: Disk, per: nat, root: u32, d: nat, off: nat, cur: u32, l: nat, s: nat,
                                         v: u32, path: seq<nat>)
    requires 0 < l <= d && cur != 0 && cur in disk && s < |disk[cur]| && s == Slot(per, l, Down(per, d, off, l))
    requires Reaches(disk, per, root, d, off, cur, l) && Single(Blocks(disk, root, d)) && |path| <= d
    requires cur !in Blocks(disk, v, l - 1)
    ensures var way, k := Way(per, d, off, l - 1), d - l + 1;
            if way <= path then
              && Follow(Pointed(disk, cur, s, v), root, path) == Follow(disk, v, path[k..])
              && Follow(disk, root, path) == Follow(disk, disk[cur][s], path[k..])
            else Follow(Pointed(disk, cur, s, v), root, path) == Follow(disk, root, path)
    decreases d
  {
    hide PerLevel, Slot, Rest, KidBlocks, Blocks, Single;
    if path == [] {
    } else if d == l {
      FollowHere(disk, per, cur, l, s, v, path);
      assert Way(per, d, off, l - 1) == [s];
      assert [s] <= path <==> path[0] == s;
    } else {
      var way, k := Way(per, d, off, l - 1), Slot(per, d, off);
      var below := Way(per, d - 1, Rest(per, d, off), l - 1);
      ReachedIsInside(disk, per, disk[root][k], d - 1, Rest(per, d, off), cur, l);
      FollowBeside(disk, root, d, k, cur, Pointed(disk, cur, s, v)[cur], path);
      SingleKid(disk, root, d, k);
      assert way == [k] + below;
      if path[0] == k {
        PointedFollow(disk, per, disk[root][k], d - 1, Rest(per, d, off), cur, l, s, v, path[1..]);
        PrefixBelow(k, below, path);
        if below <= path[1..] { assert path[1..][d - l..] == path[d - l + 1..]; }
      } else {
        NotPrefix(k, below, path);
      }
    }
  }

  lemma PrefixBelow(k: nat, below: seq<nat>, path: seq<nat>)
    requires path != [] && path[0] == k
    ensures [k] + below <= path <==> below <= path[1..]
  {
    var way := [k] + below;
    if way <= path {
      assert forall i :: 0 <= i < |below| ==> below[i] == way[i + 1] == path[i + 1];
    }
    if below <= path[1..] {
      assert forall i :: 0 < i < |way| ==> way[i] == below[i - 1] == path[1..][i - 1];
    }
  }

  lemma NotPrefix(k: nat, below: seq<nat>, path: seq<nat>)
    requires path != [] && path[0] != k
    ensures !([k] + below <= path)
  {
    var way := [k] + below;
    assert way[0] == k;
  }

  // ----- What an operation fills

  /** Places where a pointer block can be. */
  predicate Proper(pl: Place) { |pl.path| < pl.area <= 3 }

  lemma FilledOutside(disk: Disk, rs: Roots, pl: Place, p: u32, x: seq<u32>)
    requires Proper(pl) && rs.Shaped() && p !in All(disk, rs)
    ensures Filled(disk[p := x], rs, pl) <==> Filled(disk, rs, pl)
  {
    hide All, Blocks, Follow;
    AreaIs(disk, rs, pl.area, p);
    FollowFrame(disk, rs.indirect[pl.area - 1], pl.area, pl.path, p, x);
  }

  /** A pointer set on the way to logical block `i`, seen from elsewhere. */
  lemma FilledBeside(disk: Disk, rs: Roots, per: nat, i: nat, cur: u32, lv: nat, pl: Place, x: seq<u32>)
    requires Proper(pl) && MapOk(disk, rs, per) && var l := LevelOf(per, i); 1 <= lv <= l <= 3 && pl.area != l
    requires cur != 0 && var l := LevelOf(per, i);
             Reaches(disk, per, rs.indirect[l - 1], l, i - Limit(per, l - 1), cur, lv)
    ensures Filled(disk[cur := x], rs, pl) <==> Filled(disk, rs, pl)
  {
    hide PerLevel, Limit, Blocks, Follow;
    var l := LevelOf(per, i);
    ReachedIsInside(disk, per, rs.indirect[l - 1], l, i - Limit(per, l - 1), cur, lv);
    AreaInside(disk, rs, l, cur);
    FollowFrame(disk, rs.indirect[pl.area - 1], pl.area, pl.path, cur, x);
  }

  lemma FollowZeros(disk: Disk, per: nat, v: u32, path: seq<nat>)
    requires v != 0 && v in disk && disk[v] == Zeros(per)
    ensures Follow(disk, v, path) != 0 <==> path == []
  {
  }

  /** A missing pointer block put in fills just its own place. */
  lemma ChildFilled(disk: Disk, rs: Roots, per: nat, i: nat, cur: u32, lv: nat, s: nat, v: u32, pl: Place)
    requires MapOk(disk, rs, per) && var l := LevelOf(per, i); 1 < lv <= l <= 3
    requires cur != 0 && cur in disk && s < |disk[cur]| && disk[cur][s] == 0 && Proper(pl)
    requires var l := LevelOf(per, i);
             var off := i - Limit(per, l - 1);
             && Reaches(disk, per, rs.indirect[l - 1], l, off, cur, lv)
             && s == Slot(per, lv, Down(per, l, off, lv))
    requires v != 0 && v !in All(disk, rs)
    ensures var disk1 := disk[v := Zeros(per)];
            && cur in disk1 && s < |disk1[cur]|
            && (Filled(Pointed(disk1, cur, s, v), rs, pl) <==> Filled(disk, rs, pl) || pl == PlaceOf(per, i, lv - 1))
  {
    hide PerLevel, Limit, Slot, Down, Reaches, Blocks, KidBlocks, Rest, Zeros, Found, Area, Follow, Way;
    var l := LevelOf(per, i);
    var off, root := i - Limit(per, l - 1), rs.indirect[l - 1];
    var disk1 := disk[v := Zeros(per)];
    CurInside(disk, rs, per, i, cur, lv);
    assert cur != v;
    AreaIs(disk, rs, l, v);
    OutsideChanged(disk, rs, per, v, Zeros(per));
    ReachesFrame(disk, per, root, l, off, cur, lv, v, Zeros(per));
    FilledOutside(disk, rs, pl, v, Zeros(per));
    var disk' := Pointed(disk1, cur, s, v);
    if pl.area != l {
      FilledBeside(disk1, rs, per, i, cur, lv, pl, disk'[cur]);
    } else {
      EmptyBlock(disk, per, v, lv - 1);
      AreaSingle(disk1, rs, l);
      AreaRoot(disk1, rs, l);
      PointedFollow(disk1, per, root, l, off, cur, lv, s, v, pl.path);
      var way, k := Way(per, l, off, lv - 1), l - lv + 1;
      if way <= pl.path {
        FollowZeros(disk1, per, v, pl.path[k..]);
        FollowNothing(disk1, pl.path[k..]);
        assert pl.path == way + pl.path[k..];
      }
    }
  }

  lemma AreaRoot(disk: Disk, rs: Roots, l: nat)
    requires 1 <= l <= 3 && rs.Shaped()
    ensures Area(disk, rs, l) == Blocks(disk, rs.indirect[l - 1], l)
  {
  }

  lemma FollowNothing(disk: Disk, path: seq<nat>)
    ensures Follow(disk, 0, path) == 0
  {
  }

  /** So does one put in the inode. */
  lemma RootFilled(disk: Disk, rs: Roots, per: nat, i: nat, v: u32, pl: Place)
    requires MapOk(disk, rs, per) && Proper(pl) && var l := LevelOf(per, i); 1 <= l <= 3 && rs.indirect[l - 1] == 0
    requires v != 0 && v !in All(disk, rs)
    ensures var l := LevelOf(per, i);
            var disk', rs' := disk[v := Zeros(per)], rs.(indirect := rs.indirect[l - 1 := v]);
            Filled(disk', rs', pl) <==> Filled(disk, rs, pl) || pl == PlaceOf(per, i, l)
  {
    hide All, Zeros, Follow, LevelOf, Limit;
    var l := LevelOf(per, i);
    FilledOutside(disk, rs, pl, v, Zeros(per));
    FollowZeros(disk[v := Zeros(per)], per, v, pl.path);
    FollowNothing(disk, pl.path);
  }

  /** And the data block fills none. */
  lemma DataFilled(disk: Disk, rs: Roots, per: nat, i: nat, cur: u32, s: nat, v: u32, pl: Place)
    requires MapOk(disk, rs, per) && 1 <= LevelOf(per, i) <= 3 && Proper(pl)
    requires cur != 0 && cur in disk && s < |disk[cur]| && cur != v
    requires var l := LevelOf(per, i);
             var off := i - Limit(per, l - 1);
             && Reaches(disk, per, rs.indirect[l - 1], l, off, cur, 1)
             && s == Slot(per, 1, Down(per, l, off, 1))
    ensures Filled(Pointed(disk, cur, s, v), rs, pl) <==> Filled(disk, rs, pl)
  {
    hide PerLevel, Limit, Slot, Down, Reaches, KidBlocks, Rest, Found, Area, Follow;
    var l := LevelOf(per, i);
    if pl.area != l {
      FilledBeside(disk, rs, per, i, cur, 1, pl, Pointed(disk, cur, s, v)[cur]);
    } else {
      AreaSingle(disk, rs, l);
      AreaRoot(disk, rs, l);
      PointedFollow(disk, per, rs.indirect[l - 1], l, i - Limit(per, l - 1), cur, 1, s, v, pl.path);
    }
  }

  // ----- How many

  /** Of the places on the way to logical block `i`, those from level `l` up are filled now. */
  ghost predicate FilledFrom(disk0: Disk, rs0: Roots, disk: Disk, rs: Roots, per: nat, i: nat, l: nat) {
    forall pl :: Proper(pl) ==> (Filled(disk, rs, pl) <==> Filled(disk0, rs0, pl) || FromLevel(per, i, l, pl))
  }

  ghost predicate FromLevel(per: nat, i: nat, l: nat, pl: Place) {
    exists k :: l <= k <= Depth(per, i) && pl == PlaceOf(per, i, k)
  }

  /** On the way down to level `l`, `n` empty places were filled. */
  ghost predicate Counting(disk0: Disk, rs0: Roots, disk: Disk, rs: Roots, per: nat, i: nat, l: nat, n: nat) {
    && 1 <= l <= Depth(per, i) + 1 && FilledFrom(disk0, rs0, disk, rs, per, i, l)
    && n + |LacksTo(disk0, rs0, per, i, l - 1)| == |Lacks(disk0, rs0, per, i)|
  }

  lemma CountStart(disk: Disk, rs: Roots, per: nat, i: nat)
    ensures Counting(disk, rs, disk, rs, per, i, Depth(per, i) + 1, 0)
  {
  }

  lemma CountStep(disk0: Disk, rs0: Roots, disk: Disk, rs: Roots, disk': Disk, rs': Roots, per: nat, i: nat, l: nat,
                  n: nat)
    requires Counting(disk0, rs0, disk, rs, per, i, l, n) && l > 1
    requires var here := PlaceOf(per, i, l - 1);
             forall pl :: Proper(pl) ==> (Filled(disk', rs', pl) <==> Filled(disk, rs, pl) || pl == here)
    ensures var empty := !Filled(disk, rs, PlaceOf(per, i, l - 1));
            && Counting(disk0, rs0, disk', rs', per, i, l - 1, n + if empty then 1 else 0)
            && (empty ==> n < |Lacks(disk0, rs0, per, i)|)
  {
    hide Filled, PlaceOf, FromLevel, OnWay, Depth, Proper;
    var here := PlaceOf(per, i, l - 1);
    PlacesApart(per, i, l);
    forall pl
      ensures FromLevel(per, i, l - 1, pl) <==> FromLevel(per, i, l, pl) || pl == here
    {
      OneLevelMore(per, i, l, pl);
    }
    if !Filled(disk, rs, here) { CountEmpty(disk0, rs0, disk, rs, per, i, l, n); }
  }

  lemma PlacesApart(per: nat, i: nat, l: nat)
    requires 1 < l <= Depth(per, i) + 1
    ensures var here := PlaceOf(per, i, l - 1);
            Proper(here) && !FromLevel(per, i, l, here) && !OnWay(per, i, l - 2, here)
  {
  }

  lemma OneLevelMore(per: nat, i: nat, l: nat, pl: Place)
    requires 1 < l <= Depth(per, i) + 1
    ensures FromLevel(per, i, l - 1, pl) <==> FromLevel(per, i, l, pl) || pl == PlaceOf(per, i, l - 1)
  {
    hide PlaceOf;
  }

  lemma CountEmpty(disk0: Disk, rs0: Roots, disk: Disk, rs: Roots, per: nat, i: nat, l: nat, n: nat)
    requires Counting(disk0, rs0, disk, rs, per, i, l, n) && l > 1 && !Filled(disk, rs, PlaceOf(per, i, l - 1))
    ensures n < |Lacks(disk0, rs0, per, i)|
  {
    hide Filled;
    var here := PlaceOf(per, i, l - 1);
    assert Proper(here);
    assert here in LacksTo(disk0, rs0, per, i, l - 1);
  }

  lemma CountSame(disk0: Disk, rs0: Roots, disk: Disk, rs: Roots, disk': Disk, rs': Roots, per: nat, i: nat, l: nat,
                  n: nat)
    requires Counting(disk0, rs0, disk, rs, per, i, l, n)
    requires forall pl :: Proper(pl) ==> (Filled(disk', rs', pl) <==> Filled(disk, rs, pl))
    ensures Counting(disk0, rs0, disk', rs', per, i, l, n)
  {
    hide Filled;
  }

  /** All places on the way to a logical block. */
  function WaySet(per: nat, i: nat, l: nat): (s: set<Place>)
    requires l <= Depth(per, i)
    ensures forall pl :: pl in s <==> OnWay(per, i, l, pl)
  {
    if l == 0 then {} else WaySet(per, i, l - 1) + {PlaceOf(per, i, l)}
  }

  lemma OnWayIsProper(per: nat, i: nat, pl: Place)
    requires OnWay(per, i, Depth(per, i), pl)
    ensures Proper(pl)
  {
  }

  lemma {:induction false} LacksAllEmpty(disk: Disk, rs: Roots, per: nat, i: nat, n: nat)
    ensures forall pl :: pl in LacksAll(disk, rs, per, i, n) ==> Proper(pl) && !Filled(disk, rs, pl)
    decreases n
  {
    hide Filled, Proper, Depth;
    if n > 0 {
      LacksAllEmpty(disk, rs, per, i + 1, n - 1);
      forall pl | pl in Lacks(disk, rs, per, i)
        ensures Proper(pl)
      {
        OnWayIsProper(per, i, pl);
      }
    }
  }

  lemma {:induction false} LacksAllAfter(disk: Disk, rs: Roots, disk': Disk, rs': Roots, per: nat, i: nat, j: nat,
                                         n: nat)
    requires FilledFrom(disk, rs, disk', rs', per, i, 1)
    ensures LacksAll(disk', rs', per, j, n) == LacksAll(disk, rs, per, j, n) - WaySet(per, i, Depth(per, i))
    decreases n
  {
    hide Filled, Proper, PlaceOf;
    if n > 0 {
      LacksAllAfter(disk, rs, disk', rs', per, i, j + 1, n - 1);
      forall pl
        ensures pl in Lacks(disk', rs', per, j) <==>
                pl in Lacks(disk, rs, per, j) && pl !in WaySet(per, i, Depth(per, i))
      {
        if OnWay(per, j, Depth(per, j), pl) { OnWayIsProper(per, j, pl); }
        assert FromLevel(per, i, 1, pl) <==> OnWay(per, i, Depth(per, i), pl);
      }
    }
  }

  /** What one logical block more takes is no longer needed for those after it. */
  lemma NeedStep(disk: Disk, rs: Roots, disk': Disk, rs': Roots, per: nat, i: nat, n: nat)
    requires n > 0 && FilledFrom(disk, rs, disk', rs', per, i, 1)
    ensures Need(disk, rs, per, i, n) == 1 + |Lacks(disk, rs, per, i)| + Need(disk', rs', per, i + 1, n - 1)
  {
    hide Filled, Proper, FilledFrom, OnWay, Depth;
    var s, here, l := WaySet(per, i, Depth(per, i)), Lacks(disk, rs, per, i), LacksAll(disk, rs, per, i + 1, n - 1);
    LacksAllAfter(disk, rs, disk', rs', per, i, i + 1, n - 1);
    LacksAllEmpty(disk, rs, per, i + 1, n - 1);
    assert here + l == here + (l - s);
    assert here !! (l - s);
  }

  lemma NeedOne(disk: Disk, rs: Roots, per: nat, i: nat, n: nat)
    requires n > 0
    ensures Need(disk, rs, per, i, n) >= n + |Lacks(disk, rs, per, i)|
  {
    hide Lacks;
    var here, l := Lacks(disk, rs, per, i), LacksAll(disk, rs, per, i + 1, n - 1);
    assert here + l == here + (l - here);
  }

  /** Some of the next `n` logical blocks cannot be filled: the map ends before the last of them, or
      they need more blocks than are free. */
  predicate Short(disk: Disk, rs: Roots, per: nat, used: set<u32>, total: u32, i: nat, n: nat) {
    n > 0 && (LevelOf(per, i + n - 1) == 4 || Need(disk, rs, per, i, n) > FreeCount(used, total))
  }

  lemma ShortNow(disk: Disk, rs: Roots, per: nat, used: set<u32>, total: u32, i: nat, n: nat)
    requires n > 0 && (LevelOf(per, i) == 4 || 1 + |Lacks(disk, rs, per, i)| > FreeCount(used, total))
    ensures Short(disk, rs, per, used, total, i, n)
  {
    hide Lacks, FreeCount, Need, Limit;
    NeedOne(disk, rs, per, i, n);
  }

  lemma ShortStep(disk: Disk, rs: Roots, used: set<u32>, disk': Disk, rs': Roots, used': set<u32>, per: nat, total: u32,
                  i: nat, n: nat)
    requires n > 0 && FilledFrom(disk, rs, disk', rs', per, i, 1) && LevelOf(per, i) != 4
    requires FreeCount(used', total) == FreeCount(used, total) - 1 - |Lacks(disk, rs, per, i)|
    ensures Short(disk', rs', per, used', total, i + 1, n - 1) <==> Short(disk, rs, per, used, total, i, n)
  {
    hide Lacks, FreeCount, FilledFrom, LevelOf;
    NeedStep(disk, rs, disk', rs', per, i, n);
    if n == 1 { assert LacksAll(disk', rs', per, i + 1, 0) == {}; }
  }
}
