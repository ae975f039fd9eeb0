/** Which logs can be walked: a walk never meets the same block twice, so that a scan of at most
    as many records as the ring has blocks decides whether it ends. */
module JournalWalk {
  import opened Words
  import opened JournalFormat
  import opened JournalRecovery

  /** The records that the walk meets from block `p` on, if they are no more than `n`. */
  function Scan(log: seq<Block>, g: Geometry, start: nat, p: nat, t: u32, n: nat): Option<seq<Item>>
    requires ValidLog(log, g) && g.Inside(p)
    decreases n
  {
    match ItemAt(log, g, p, t)
    case None => Some([])
    case Some(item) =>
      if n == 0 then None
      else
        var q := g.Skip(p, item.Len());
        if q == start then Some([item])
        else
          match Scan(log, g, start, q, NextId(t, item), n - 1)
          case None => None
          case Some(rest) => Some([item] + rest)
  }

  /** The walk from block `p` ends: the test that anyone can make before it. */
  predicate WalkEnds(log: seq<Block>, g: Geometry, start: nat, p: nat, t: u32)
    requires ValidLog(log, g) && g.Inside(p)
  {
    Scan(log, g, start, p, t, g.Size()).Some?
  }

  /** What it meets. */
  function Walk(log: seq<Block>, g: Geometry, start: nat, p: nat, t: u32): seq<Item>
    requires ValidLog(log, g) && g.Inside(p) && WalkEnds(log, g, start, p, t)
  {
    Scan(log, g, start, p, t, g.Size()).value
  }

  /** The log walk meets one list of records only. */
  lemma {:induction false} WalkIsUnique(log: seq<Block>, g: Geometry, start: nat, p: nat, t: u32,
                                        a: seq<Item>, b: seq<Item>)
    requires ValidLog(log, g) && g.Inside(p)
    requires IsWalk(log, g, start, p, t, a) && IsWalk(log, g, start, p, t, b)
    ensures a == b
    decreases |a|
  {
    if a != [] && b != [] {
      var q := g.Skip(p, a[0].Len());
      assert a == [a[0]] + a[1..] && b == [b[0]] + b[1..];
      if q != start {
        WalkIsUnique(log, g, start, q, NextId(t, a[0]), a[1..], b[1..]);
      } else {
        assert a[1..] == [] && b[1..] == [];
      }
    }
  }

  lemma {:induction false} ScanIsWalk(log: seq<Block>, g: Geometry, start: nat, p: nat, t: u32, n: nat)
    requires ValidLog(log, g) && g.Inside(p) && Scan(log, g, start, p, t, n).Some?
    ensures IsWalk(log, g, start, p, t, Scan(log, g, start, p, t, n).value)
    decreases n
  {
    hide ItemAt;
    if ItemAt(log, g, p, t).Some? {
      var item := ItemAt(log, g, p, t).value;
      var q := g.Skip(p, item.Len());
      if q != start { ScanIsWalk(log, g, start, q, NextId(t, item), n - 1); }
    }
  }

  lemma {:induction false} WalkIsScanned(log: seq<Block>, g: Geometry, start: nat, p: nat, t: u32, n: nat,
                                         items: seq<Item>)
    requires ValidLog(log, g) && g.Inside(p) && IsWalk(log, g, start, p, t, items) && |items| <= n
    ensures Scan(log, g, start, p, t, n) == Some(items)
    decreases |items|
  {
    hide ItemAt;
    if items != [] {
      var q := g.Skip(p, items[0].Len());
      assert items == [items[0]] + items[1..];
      if q != start {
        WalkIsScanned(log, g, start, q, NextId(t, items[0]), n - 1, items[1..]);
      } else {
        assert items == [items[0]];
        assert Scan(log, g, start, p, t, n) == Some([items[0]]);
      }
    }
  }

  // ----- No block is met twice

  /** The blocks that the records begin at. */
  function Places(g: Geometry, p: nat, items: seq<Item>): (ps: seq<nat>)
    requires g.Inside(p)
    ensures |ps| == |items| && forall k :: 0 <= k < |ps| ==> g.Inside(ps[k])
    decreases |items|
  {
    if items == [] then [] else [p] + Places(g, g.Skip(p, items[0].Len()), items[1..])
  }

  /** The walk goes on from each of them with what is left, and the id that stands in the block. */
  lemma {:induction false} WalkFrom(log: seq<Block>, g: Geometry, start: nat, p: nat, t: u32, items: seq<Item>, k: nat)
    requires ValidLog(log, g) && g.Inside(p) && IsWalk(log, g, start, p, t, items) && k < |items|
    ensures var q := Places(g, p, items)[k]; IsWalk(log, g, start, q, log[q][2], items[k..])
    decreases k
  {
    if k > 0 {
      var q := g.Skip(p, items[0].Len());
      WalkFrom(log, g, start, q, NextId(t, items[0]), items[1..], k - 1);
      assert items[1..][k - 1..] == items[k..];
    } else {
      assert items[0..] == items;
    }
  }

  lemma {:induction false} NoneTwice(log: seq<Block>, g: Geometry, start: nat, p: nat, t: u32, items: seq<Item>,
                                     i: nat, k: nat)
    requires ValidLog(log, g) && g.Inside(p) && IsWalk(log, g, start, p, t, items) && i < k < |items|
    ensures Places(g, p, items)[i] != Places(g, p, items)[k]
  {
    hide IsWalk, Places;
    var ps := Places(g, p, items);
    if ps[i] == ps[k] {
      WalkFrom(log, g, start, p, t, items, i);
      WalkFrom(log, g, start, p, t, items, k);
      WalkIsUnique(log, g, start, ps[i], log[ps[i]][2], items[i..], items[k..]);
    }
  }

  function Range(lo: nat, n: nat): (r: set<nat>)
    ensures |r| == n && forall x :: x in r <==> lo <= x < lo + n
  {
    if n == 0 then {} else Range(lo, n - 1) + {lo + (n - 1)}
  }

  function Members(ps: seq<nat>): (r: set<nat>)
    ensures forall x :: x in r <==> x in ps
  {
    set x | x in ps
  }

  lemma {:induction false} MembersCount(ps: seq<nat>)
    requires forall i, k :: 0 <= i < k < |ps| ==> ps[i] != ps[k]
    ensures |Members(ps)| == |ps|
  {
    if ps != [] {
      var n := |ps| - 1;
      MembersCount(ps[..n]);
      assert ps[..n] + [ps[n]] == ps;
      assert ps[n] !in ps[..n];
      assert Members(ps) == Members(ps[..n]) + {ps[n]};
    }
  }

  /** Different numbers of a range are no more than it has. */
  lemma {:induction false} Pigeons(ps: seq<nat>, lo: nat, n: nat)
    requires forall k :: 0 <= k < |ps| ==> lo <= ps[k] < lo + n
    requires forall i, k :: 0 <= i < k < |ps| ==> ps[i] != ps[k]
    ensures |ps| <= n
  {
    MembersCount(ps);
    var a, b := Members(ps), Range(lo, n);
    assert a <= b;
    assert b == a + (b - a);
    assert |b| == |a| + |b - a|;
  }

  /** A walk meets no more records than the ring has blocks. */
  lemma {:induction false} WalkIsShort(log: seq<Block>, g: Geometry, start: nat, p: nat, t: u32, items: seq<Item>)
    requires ValidLog(log, g) && g.Inside(p) && IsWalk(log, g, start, p, t, items)
    ensures |items| <= g.Size() && Commits(items) <= g.Size() < 0x8000_0000
  {
    hide IsWalk, Places;
    var ps := Places(g, p, items);
    forall i, k | 0 <= i < k < |ps|
      ensures ps[i] != ps[k]
    {
      NoneTwice(log, g, start, p, t, items, i, k);
    }
    Pigeons(ps, g.first, g.Size());
    FewCommits(items);
  }

  lemma {:induction false} FewCommits(items: seq<Item>)
    ensures Commits(items) <= |items|
  {
    if items != [] { FewCommits(items[1..]); }
  }

  /** A log has a walk exactly if the scan of so many records ends. */
  lemma {:induction false} WalkEndsIff(log: seq<Block>, g: Geometry, start: nat, p: nat, t: u32)
    requires ValidLog(log, g) && g.Inside(p)
    ensures WalkEnds(log, g, start, p, t) <==> exists items :: IsWalk(log, g, start, p, t, items)
    ensures WalkEnds(log, g, start, p, t) ==> IsWalk(log, g, start, p, t, Walk(log, g, start, p, t))
  {
    hide IsWalk, Scan;
    if WalkEnds(log, g, start, p, t) { ScanIsWalk(log, g, start, p, t, g.Size()); }
    if items :| IsWalk(log, g, start, p, t, items) {
      WalkIsShort(log, g, start, p, t, items);
      WalkIsScanned(log, g, start, p, t, g.Size(), items);
    }
  }

  /** The one walk that there is. */
  lemma {:induction false} WalkIs(log: seq<Block>, g: Geometry, start: nat, p: nat, t: u32, items: seq<Item>)
    requires ValidLog(log, g) && g.Inside(p) && IsWalk(log, g, start, p, t, items)
    ensures WalkEnds(log, g, start, p, t) && Walk(log, g, start, p, t) == items
    ensures Commits(items) < 0x8000_0000
  {
    hide IsWalk, Scan;
    WalkIsShort(log, g, start, p, t, items);
    WalkIsScanned(log, g, start, p, t, g.Size(), items);
  }

  // ----- No commit on the way

  /** From block `p` on the walk ends within `n` records, and meets no commit block: all of them
      would belong to transaction `t`. */
  predicate Silent(log: seq<Block>, g: Geometry, start: nat, p: nat, t: u32, n: nat)
    requires ValidLog(log, g) && g.Inside(p)
    decreases n
  {
    match ItemAt(log, g, p, t)
    case None => true
    case Some(item) =>
      && !item.Commit? && n > 0
      && var q := g.Skip(p, item.Len()); q == start || Silent(log, g, start, q, t, n - 1)
  }

  lemma {:induction false} SilentWalk(log: seq<Block>, g: Geometry, start: nat, p: nat, t: u32, n: nat)
    requires ValidLog(log, g) && g.Inside(p) && Silent(log, g, start, p, t, n)
    ensures Scan(log, g, start, p, t, n).Some? && Commits(Scan(log, g, start, p, t, n).value) == 0
    decreases n
  {
    hide ItemAt;
    if ItemAt(log, g, p, t).Some? {
      var item := ItemAt(log, g, p, t).value;
      var q := g.Skip(p, item.Len());
      if q != start {
        SilentWalk(log, g, start, q, t, n - 1);
        assert ([item] + Scan(log, g, start, q, t, n - 1).value)[1..] == Scan(log, g, start, q, t, n - 1).value;
      } else {
        assert [item][1..] == [];
      }
    }
  }

  lemma {:induction false} WalkSilent(log: seq<Block>, g: Geometry, start: nat, p: nat, t: u32, n: nat,
                                      items: seq<Item>)
    requires ValidLog(log, g) && g.Inside(p) && IsWalk(log, g, start, p, t, items) && |items| <= n
    requires Commits(items) == 0
    ensures Silent(log, g, start, p, t, n)
    decreases |items|
  {
    hide ItemAt;
    if items != [] {
      var q := g.Skip(p, items[0].Len());
      if q != start { WalkSilent(log, g, start, q, t, n - 1, items[1..]); }
    }
  }

  /** The test is exact. */
  lemma {:induction false} SilentIff(log: seq<Block>, g: Geometry, start: nat, p: nat, t: u32)
    requires ValidLog(log, g) && g.Inside(p)
    ensures Silent(log, g, start, p, t, g.Size()) <==>
            exists items :: IsWalk(log, g, start, p, t, items) && Commits(items) == 0
  {
    hide IsWalk, Scan, Silent;
    if Silent(log, g, start, p, t, g.Size()) {
      SilentWalk(log, g, start, p, t, g.Size());
      ScanIsWalk(log, g, start, p, t, g.Size());
    }
    if items :| IsWalk(log, g, start, p, t, items) && Commits(items) == 0 {
      WalkIsShort(log, g, start, p, t, items);
      WalkSilent(log, g, start, p, t, g.Size(), items);
    }
  }
}
