/** Sessions over a log that still holds records of ids to come: for which old logs they are safe,
    and one that is not. */
module JournalStale {
  import opened Words
  import opened JournalFormat
  import opened JournalRecovery
  import opened JournalWalk
  import opened JournalReplay
  import opened JournalLayout
  import opened JournalState
  import opened JournalRing
  import opened JournalSession
  import opened JournalCheckpoint
  import opened JournalFlush
  import opened JournalCommit
  import opened JournalRuns
  import opened JournalJam

  /** The walk from block `p` of the old log meets no commit block, when the first `d` blocks of the
      ring hold records of the session by then, and the open ones of them begin at the blocks
      `opens`: coming to one of these it would go round for ever, and all else there ends it. */
  predicate SilentOver(before: seq<Block>, g: Geometry, d: nat, opens: set<nat>, p: nat, t: u32, n: nat)
    requires ValidLog(before, g) && g.Inside(p)
    decreases n
  {
    if p < g.first + d then p !in opens
    else
      match ItemAt(before, g, p, t)
      case None => true
      case Some(item) =>
        && !item.Commit? && n > 0
        && var q := g.Skip(p, item.Len()); q == g.first || SilentOver(before, g, d, opens, q, t, n - 1)
  }

  /** The test on the old log, before the session writes anything: when it has logged the whole
      transactions `a` and the records `open` of the next one, no crash brings back an before
      transaction. */
  predicate SafeOver(before: seq<Block>, g: Geometry, began: u32, a: seq<Item>, open: seq<Item>)
    requires ValidLog(before, g) && TotalLen(a) + TotalLen(open) < g.Size()
  {
    var d := TotalLen(a) + TotalLen(open);
    var opens := Members(Places(g, g.first + TotalLen(a), open));
    SilentOver(before, g, d, opens, g.first + d, Plus(began, Commits(a)), g.Size())
  }

  /** The log with these records at its front, and behind them what it held before, or copies. */
  ghost predicate Over(g: Geometry, before: seq<Block>, log: seq<Block>, began: u32, a: seq<Item>, open: seq<Item>) {
    && ValidLog(before, g) && ValidLog(log, g) && TotalLen(a) + TotalLen(open) < g.Size()
    && (a != [] ==> a[|a| - 1].Commit?) && Commits(open) == 0
    && Laid(log, g, g.first, began, a)
    && Laid(log, g, g.first + TotalLen(a), Plus(began, Commits(a)), open)
    && forall p :: g.first + TotalLen(a) + TotalLen(open) <= p < g.maxlen ==>
         log[p] == before[p] || log[p][0] != MAGIC
  }

  lemma SameKind(before: seq<Block>, log: seq<Block>, g: Geometry, p: nat, t: u32)
    requires ValidLog(before, g) && ValidLog(log, g) && g.Inside(p) && log[p] == before[p]
    ensures var x, y := ItemAt(before, g, p, t), ItemAt(log, g, p, t);
            && x.Some? == y.Some?
            && (x.Some? ==> x.value.Commit? == y.value.Commit? && x.value.Len() == y.value.Len())
  {
  }

  /** A block of the open records begins one of them, or does not look like a header. */
  lemma {:induction false} PlaceOrCopy(log: seq<Block>, g: Geometry, p: nat, t: u32, open: seq<Item>, x: nat)
    requires ValidLog(log, g) && g.Inside(p) && p + TotalLen(open) < g.maxlen && Laid(log, g, p, t, open)
    requires p <= x < p + TotalLen(open)
    ensures x in Places(g, p, open) || log[x][0] != MAGIC
    decreases |open|
  {
    hide ItemAt;
    var n := open[0].Len();
    g.SkipIsAdv(p, n);
    if x >= p + n {
      PlaceOrCopy(log, g, p + n, NextId(t, open[0]), open[1..], x);
    } else if x > p {
      assert log[g.Adv(p, x - p)][0] != MAGIC;
    }
  }

  /** From the beginning of an open record on, the rest of them follows. */
  lemma {:induction false} FromPlace(log: seq<Block>, g: Geometry, p: nat, t: u32, open: seq<Item>, x: nat)
    returns (k: nat)
    requires ValidLog(log, g) && g.Inside(p) && p + TotalLen(open) < g.maxlen && Laid(log, g, p, t, open)
    requires Commits(open) == 0 && x in Places(g, p, open)
    ensures k < |open| && x + TotalLen(open[k..]) == p + TotalLen(open) && Laid(log, g, x, t, open[k..])
    ensures p <= x
    decreases |open|
  {
    hide ItemAt;
    var n := open[0].Len();
    g.SkipIsAdv(p, n);
    if x == p {
      k := 0;
      assert open[0..] == open;
    } else {
      var m := FromPlace(log, g, p + n, t, open[1..], x);
      k := m + 1;
      assert open[1..][m..] == open[k..];
    }
  }

  /** Within the records of the session, only the beginning of an open one is a record of the
      transaction awaited. */
  lemma NoneThere(g: Geometry, before: seq<Block>, log: seq<Block>, began: u32, a: seq<Item>, open: seq<Item>, x: nat)
    requires Over(g, before, log, began, a, open) && g.first <= x < g.first + TotalLen(a) + TotalLen(open)
    requires x !in Places(g, g.first + TotalLen(a), open)
    ensures ItemAt(log, g, x, Plus(began, Commits(a))) == None
  {
    hide Laid, Plus, Places;
    assert g.Adv(g.first, x - g.first) == x;
    if x < g.first + TotalLen(a) {
      LaidIds(log, g, g.first, began, a, x - g.first);
      EndIdIsPlus(began, a);
      if log[x][0] == MAGIC {
        var i :| 0 <= i < Commits(a) && log[x][2] == Plus(began, i);
        PlusDiffer(began, i, Commits(a));
      }
    } else {
      PlaceOrCopy(log, g, g.first + TotalLen(a), Plus(began, Commits(a)), open, x);
    }
  }

  lemma {:induction false} OverIsSilent(g: Geometry, before: seq<Block>, log: seq<Block>, began: u32, a: seq<Item>,
                                        open: seq<Item>, p: nat, n: nat)
    requires Over(g, before, log, began, a, open) && g.Inside(p)
    requires SilentOver(before, g, TotalLen(a) + TotalLen(open), Members(Places(g, g.first + TotalLen(a), open)), p,
                        Plus(began, Commits(a)), n)
    ensures Silent(log, g, g.first, p, Plus(began, Commits(a)), n)
    decreases n
  {
    hide Laid, Plus, TotalLen, Places, ItemAt, Commits;
    var t := Plus(began, Commits(a));
    if p < g.first + TotalLen(a) + TotalLen(open) {
      NoneThere(g, before, log, began, a, open, p);
    } else if log[p] == before[p] {
      SameKind(before, log, g, p, t);
      if ItemAt(log, g, p, t).Some? {
        var q := g.Skip(p, ItemAt(log, g, p, t).value.Len());
        if q != g.first { OverIsSilent(g, before, log, began, a, open, q, n - 1); }
      }
    } else {
      Unmarked(log, g, p, t);
    }
  }

  lemma Unmarked(log: seq<Block>, g: Geometry, p: nat, t: u32)
    requires ValidLog(log, g) && g.Inside(p) && log[p][0] != MAGIC
    ensures ItemAt(log, g, p, t) == None
  {
  }

  /** The walk `w` from the end of the records comes to none of the open ones: it would begin again
      behind them. */
  lemma NotBack(g: Geometry, before: seq<Block>, log: seq<Block>, began: u32, a: seq<Item>, open: seq<Item>,
                w: seq<Item>, p: nat, items: seq<Item>)
    requires Over(g, before, log, began, a, open) && g.Inside(p) && |items| <= |w|
    requires var t := Plus(began, Commits(a));
             && IsWalk(log, g, g.first, g.first + TotalLen(a) + TotalLen(open), t, w)
             && IsWalk(log, g, g.first, p, t, items)
    ensures p !in Places(g, g.first + TotalLen(a), open)
  {
    hide IsWalk, Laid, Plus, TotalLen, Places, ItemAt, Commits;
    var t, e := Plus(began, Commits(a)), g.first + TotalLen(a);
    if p in Places(g, e, open) {
      var k := FromPlace(log, g, e, t, open, p);
      var rest := open[k..];
      WalkMeetsLaid(log, g, g.first, p - g.first, t, rest, items);
      LaidIsWalk(log, g, g.first, p - g.first, t, rest, items[|rest|..]);
      assert open == open[..k] + rest;
      CommitsAppend(open[..k], rest);
      EndIdOpen(t, rest);
      WalkIsUnique(log, g, g.first, e + TotalLen(open), t, w, items[|rest|..]);
    }
  }

  lemma {:induction false} WalkIsOver(g: Geometry, before: seq<Block>, log: seq<Block>, began: u32, a: seq<Item>,
                                      open: seq<Item>, w: seq<Item>, p: nat, items: seq<Item>, n: nat)
    requires Over(g, before, log, began, a, open) && g.Inside(p) && |items| <= |w| && |items| <= n
    requires forall x :: g.first + TotalLen(a) + TotalLen(open) <= x < g.maxlen ==> log[x] == before[x]
    requires var t := Plus(began, Commits(a));
             && IsWalk(log, g, g.first, g.first + TotalLen(a) + TotalLen(open), t, w)
             && IsWalk(log, g, g.first, p, t, items) && Commits(items) == 0
    ensures SilentOver(before, g, TotalLen(a) + TotalLen(open), Members(Places(g, g.first + TotalLen(a), open)), p,
                       Plus(began, Commits(a)), n)
    decreases |items|
  {
    hide Laid, Plus, TotalLen, Places, ItemAt;
    var t := Plus(began, Commits(a));
    if p < g.first + TotalLen(a) + TotalLen(open) {
      NotBack(g, before, log, began, a, open, w, p, items);
    } else {
      SameKind(before, log, g, p, t);
      if items != [] {
        var q := g.Skip(p, items[0].Len());
        if q != g.first { WalkIsOver(g, before, log, began, a, open, w, q, items[1..], n - 1); }
      }
    }
  }

  /** The test on the old log tells what the log as it is then would show. */
  lemma OverIff(g: Geometry, before: seq<Block>, log: seq<Block>, began: u32, a: seq<Item>, open: seq<Item>)
    requires Over(g, before, log, began, a, open)
    ensures var d := TotalLen(a) + TotalLen(open);
            var ahead := Ahead(log, g, g.first, d, Plus(began, Commits(a)));
            && (SafeOver(before, g, began, a, open) ==> ahead)
            && ((forall p :: g.first + d <= p < g.maxlen ==> log[p] == before[p]) ==>
                  (ahead <==> SafeOver(before, g, began, a, open)))
  {
    hide Laid, Plus, TotalLen, Places, ItemAt, Commits, Silent, SilentOver, IsWalk;
    var d, t := TotalLen(a) + TotalLen(open), Plus(began, Commits(a));
    var e := g.first + d;
    if SafeOver(before, g, began, a, open) { OverIsSilent(g, before, log, began, a, open, e, g.Size()); }
    if Silent(log, g, g.first, e, t, g.Size()) && forall p :: e <= p < g.maxlen ==> log[p] == before[p] {
      SilentIff(log, g, g.first, e, t);
      var w :| IsWalk(log, g, g.first, e, t, w) && Commits(w) == 0;
      WalkIsShort(log, g, g.first, e, t, w);
      WalkIsOver(g, before, log, began, a, open, w, e, w, g.Size());
    }
  }

  lemma OverShape(g: Geometry, before: seq<Block>, log: seq<Block>, began: u32, a: seq<Item>, open: seq<Item>)
    requires Over(g, before, log, began, a, open)
    ensures ValidLog(before, g) && ValidLog(log, g) && TotalLen(a) + TotalLen(open) < g.Size()
  {
  }

  lemma InvIsOver(g: Geometry, v: View)
    requires Inv(g, v) && v.gone == []
    ensures Over(g, v.before, v.log, v.began, Flat(v.live), v.open) && Commits(Flat(v.live)) == |v.live|
    ensures v.Len() == TotalLen(Flat(v.live)) + TotalLen(v.open)
    ensures v.diskStart == g.first && v.diskSequence == v.began
    ensures v.reserved == 0 ==> forall p :: g.first + v.Len() <= p < g.maxlen ==> v.log[p] == v.before[p]
  {
    hide Laid, Plus, TotalLen, ItemAt, Logged.Valid, HomeInv, QueuePending, QueueOk, Traced, FreshAhead,
        Clean;
    var a := Flat(v.live);
    TotalLenAppend(a, v.open);
    LaidAppend(v.log, g, g.first, v.began, a, v.open);
    ReadBack(v.live, [], v.began);
    assert a + [] == a;
    EndsWithCommit(v.live);
  }

  /** As long as all that the session committed is still in the log, a crash is safe if the test on the
      old log says so; and between two records, only then. */
  lemma OldLogIff(g: Geometry, v: View)
    requires Inv(g, v) && v.gone == []
    ensures ValidLog(v.before, g) && TotalLen(Flat(v.live)) + TotalLen(v.open) < g.Size()
    ensures var safe := SafeOver(v.before, g, v.began, Flat(v.live), v.open);
            && (safe ==> Consistent(g, v.origin, v.Disk(), v.All()))
            && (v.reserved == 0 ==> (Consistent(g, v.origin, v.Disk(), v.All()) <==> safe))
  {
    hide Inv, Over, Consistent, SafeOver, Ahead, TotalLen, Commits, RecoversFrom, View.All, Flat, Clean;
    InvIsOver(g, v);
    OverShape(g, v.before, v.log, v.began, Flat(v.live), v.open);
    DiskIsConsistent(g, v);
    OverIff(g, v.before, v.log, v.began, Flat(v.live), v.open);
  }

  /** A crash at once after the start. */
  lemma StartIsSafeIff(g: Geometry, log: seq<Block>, home: seq<Block>, sequence: u32)
    requires ValidLog(log, g) && |home| <= 0x1_0000_0000
    ensures TotalLen([]) == 0
    ensures Consistent(g, home, Image(log, home, g.first, Succ(sequence)), []) <==>
            SafeOver(log, g, Succ(sequence), [], [])
  {
    hide Inv, Consistent, SafeOver;
    var t := Succ(sequence);
    var v := View(log, home, home, log, t, g.first, t, g.first, g.first, t, t, [], [], [], [], 0);
    StartInv(g, v);
    OldLogIff(g, v);
    assert Flat(v.live) == [] && TotalLen([]) == 0;
  }

  /** Only the lengths of the records matter to the test. */
  lemma {:induction false} LengthsDecide(before: seq<Block>, g: Geometry, began: u32, a: seq<Item>, open: seq<Item>,
                                         a': seq<Item>, open': seq<Item>)
    requires ValidLog(before, g) && TotalLen(a) + TotalLen(open) < g.Size()
    requires SameLengths(a, a') && SameLengths(open, open')
    ensures TotalLen(a') + TotalLen(open') == TotalLen(a) + TotalLen(open)
    ensures SafeOver(before, g, began, a', open') <==> SafeOver(before, g, began, a, open)
  {
    hide SilentOver;
    SameTotals(g, g.first, a, a');
    SameTotals(g, g.first + TotalLen(a), open, open');
  }

  ghost predicate SameLengths(a: seq<Item>, b: seq<Item>) {
    |a| == |b| && forall i :: 0 <= i < |a| ==> a[i].Len() == b[i].Len() && a[i].Commit? == b[i].Commit?
  }

  lemma {:induction false} SameTotals(g: Geometry, p: nat, a: seq<Item>, b: seq<Item>)
    requires SameLengths(a, b) && g.Inside(p)
    ensures TotalLen(a) == TotalLen(b) && Commits(a) == Commits(b) && Places(g, p, a) == Places(g, p, b)
    decreases |a|
  {
    if a != [] { SameTotals(g, g.Skip(p, a[0].Len()), a[1..], b[1..]); }
  }

  /** A whole session, nothing of which is gone from the log, is safe at any time just if the test on
      the old log says so for all records that it logs. */
  lemma SessionIsSafeIff(g: Geometry, states: seq<View>)
    requires forall v :: v in states ==> Inv(g, v) && v.gone == [] && FromBoundary(states, v)
    ensures (forall v :: v in states ==> CrashSafe(g, v)) <==> (forall v :: v in states ==> TestedSafe(g, v))
  {
    hide Inv, CrashSafe, TestedSafe, Boundary, FromBoundary;
    forall v | v in states
      ensures TestedSafe(g, v) ==> CrashSafe(g, v)
    {
      SafeIfTested(g, v);
    }
    if forall v :: v in states ==> CrashSafe(g, v) {
      forall v | v in states
        ensures TestedSafe(g, v)
      {
        var u := BoundaryOf(states, v);
        SafeIfTested(g, u);
        SameTest(g, u, v);
      }
    }
  }

  /** A crash in this state recovers to what was committed by then. */
  ghost predicate CrashSafe(g: Geometry, v: View) {
    Consistent(g, v.origin, v.Disk(), v.All())
  }

  /** State `u` is one of those between two records, and `v` adds no record to it. */
  ghost predicate Boundary(u: View, v: View) {
    u.reserved == 0 && u.live == v.live && u.open == v.open && u.before == v.before && u.began == v.began
  }

  ghost predicate FromBoundary(states: seq<View>, v: View) {
    exists u :: u in states && Boundary(u, v)
  }

  lemma BoundaryOf(states: seq<View>, v: View) returns (u: View)
    requires FromBoundary(states, v)
    ensures u in states && Boundary(u, v)
  {
    hide Boundary;
    u :| u in states && Boundary(u, v);
  }

  lemma SafeIfTested(g: Geometry, v: View)
    requires Inv(g, v) && v.gone == []
    ensures TestedSafe(g, v) ==> CrashSafe(g, v)
    ensures v.reserved == 0 && CrashSafe(g, v) ==> TestedSafe(g, v)
  {
    hide Inv, Consistent, SafeOver;
    OldLogIff(g, v);
  }

  lemma SameTest(g: Geometry, u: View, v: View)
    requires Boundary(u, v)
    ensures u.reserved == 0 && (TestedSafe(g, u) ==> TestedSafe(g, v))
  {
  }

  ghost predicate TestedSafe(g: Geometry, v: View) {
    && ValidLog(v.before, g) && TotalLen(Flat(v.live)) + TotalLen(v.open) < g.Size()
    && SafeOver(v.before, g, v.began, Flat(v.live), v.open)
  }

  // ----- A session that is not

  /** Where a transaction lies in the log. */
  lemma LoggedAt(g: Geometry, v: View, i: nat)
    requires Inv(g, v) && v.gone == [] && i < |v.live|
    ensures LenOf(v.live[..i]) + TotalLen(v.live[i].items) < g.Size() && v.live[i].Valid()
    ensures Laid(v.log, g, g.first + LenOf(v.live[..i]), Plus(v.began, i), v.live[i].items)
  {
    hide Laid, Plus, TotalLen, LenOf, ItemAt, Commits, Flat, Logged.Valid, HomeInv, QueuePending, QueueOk, Traced,
        FreshAhead, Clean;
    SyncedLog(g, v.log, v.diskStart, v.diskSequence, v.live, v.open, Clean(g, v.before, v.began), i);
    var rest := v.live[i..];
    FlatFirst(rest);
    assert Flat(rest) + v.open == rest[0].items + (Flat(rest[1..]) + v.open);
    TotalLenAppend(rest[0].items, Flat(rest[1..]) + v.open);
    LaidAppend(v.log, g, g.first + LenOf(v.live[..i]), Plus(v.began, i), rest[0].items, Flat(rest[1..]) + v.open);
  }

  lemma FlatFirst(live: seq<Logged>)
    requires live != []
    ensures Flat(live) == live[0].items + Flat(live[1..])
  {
  }

  /** The journal with `n` transactions, each of which takes three blocks of the log. */
  ghost predicate Threes(v: View, n: nat) {
    && |v.All()| == |v.queue| == n && v.open == [] && v.reserved == 0
    && forall i :: 0 <= i < n ==> v.queue[i].allocBlocks == 3
  }

  lemma {:induction false} ThreesLen(g: Geometry, v: View, n: nat, i: nat)
    requires Inv(g, v) && Threes(v, n) && i <= n
    ensures v.gone == [] && |v.live| == n && LenOf(v.live[..i]) == 3 * i
    ensures forall k :: 0 <= k < i ==> TotalLen(v.live[k].items) == 3
    ensures forall k :: 0 <= k < n ==> v.live[k].tx == v.All()[k]
    decreases i
  {
    hide LogInv, HomeInv, QueuePending, Copies, Traced, TotalLen, LenOf, Begun;
    if i == 0 {
      NoLive();
      assert v.live[..0] == [];
    } else {
      ThreesLen(g, v, n, i - 1);
      assert Placed(g, v.diskStart, v.diskSequence, v.live, v.Idle() + (i - 1), v.queue[i - 1]);
      LenOfPrefix(v.live, i - 1);
    }
  }

  lemma AllThrees(g: Geometry, v: View, n: nat)
    requires Inv(g, v) && Threes(v, n)
    ensures v.gone == [] && v.Len() == 3 * n && v.diskStart == g.first && v.diskSequence == v.began
    ensures forall p :: g.first + 3 * n <= p < g.maxlen ==> v.log[p] == v.before[p]
  {
    hide LogInv, HomeInv, QueuePending, QueueOk, Traced, TotalLen, Flat;
    ThreesLen(g, v, n, n);
    assert v.live[..n] == v.live && Flat(v.live) + [] == Flat(v.live);
    LenIsTotal(v.live);
  }

  /** The walk meets the new transaction and then an old one of the id that follows. */
  lemma NewThenOld(log: seq<Block>, l: Logged, k: Logged, t: u32)
    requires ValidLog(log, RING) && l.Valid() && k.Valid() && TotalLen(l.items) == TotalLen(k.items) == 3
    requires Laid(log, RING, 1, t, l.items) && Laid(log, RING, 4, Succ(t), k.items) && log[7] == BLANK
    ensures IsWalk(log, RING, 1, 1, t, l.items + k.items)
    ensures Txs(l.items + k.items, EMPTY_TX) == [l.tx, k.tx] && Commits(l.items + k.items) == 2
  {
    hide IsWalk, Laid, TotalLen, Txs, Commits, Logged.Valid;
    var all := [l, k];
    assert all[1..] == [k] && all[1..][1..] == [];
    assert Flat(all) + [] == l.items + k.items by {
      assert Flat(all) == l.items + Flat([k]) && Flat([k]) == k.items + Flat([]);
    }
    NoneOpen();
    ReadBack(all, [], t);
    EndOf(l, t);
    EndOf(k, Succ(t));
    LaidIsWalk(log, RING, 1, 0, t, l.items, k.items);
    LaidIsWalk(log, RING, 1, 3, Succ(t), k.items, []);
    assert k.items + [] == k.items;
    assert IsWalk(log, RING, 1, 7, Succ(Succ(t)), []) by { BlankEnds(log, Succ(Succ(t))); }
  }

  lemma NoneOpen()
    ensures Commits([]) == 0
  {
  }

  lemma EndOf(l: Logged, t: u32)
    requires l.Valid()
    ensures EndId(t, l.items) == Succ(t)
  {
    ReadOne(l, [], t);
    assert l.items + [] == l.items;
  }

  lemma BlankEnds(log: seq<Block>, t: u32)
    requires ValidLog(log, RING) && log[7] == BLANK
    ensures IsWalk(log, RING, 1, 7, t, [])
  {
  }

  /** The second session over the log of the first: recovery brings back the old copy of block 5. */
  lemma StaleWalk(v: View, w: View)
    requires Inv(RING, v) && Threes(v, 2) && Inv(RING, w) && Threes(w, 1) && w.before == v.log
    requires v.before[7] == BLANK && v.began == w.began && 5 < |w.home|
    requires v.All()[1] == Tx([Write(5, Data(2))], [])
    ensures WalkEnds(w.log, RING, 1, 1, w.began) && w.diskStart == 1 && w.diskSequence == w.began
    ensures !Consistent(RING, w.origin, w.Disk(), w.All())
    ensures Recovered(Txs(Walk(w.log, RING, 1, 1, w.began), EMPTY_TX), w.home)[5] == Data(2)
  {
    hide Inv, Laid, Logged.Valid, TotalLen, Plus, Txs, IsWalk, WalkEnds, Walk, View.All, Surviving;
    StaleLaid(v, w);
    NewThenOld(w.log, w.live[0], v.live[1], w.began);
    var items := w.live[0].items + v.live[1].items;
    WalkIs(w.log, RING, 1, 1, w.began, items);
    OldSurvives(w.live[0].tx, v.live[1].tx);
    if Consistent(RING, w.origin, w.Disk(), w.All()) {
      var other :| RecoversFrom(RING, w.Disk(), w.All(), other);
      WalkIsUnique(w.log, RING, 1, 1, w.began, items, other);
      assert false;
    }
  }

  lemma OldSurvives(tx: Tx, stale: Tx)
    requires stale == Tx([Write(5, Data(2))], [])
    ensures Surviving([tx, stale], 5) == Some(Data(2))
  {
    assert LastWrite(stale.writes, 5) == Some(Data(2));
  }

  lemma StaleLaid(v: View, w: View)
    requires Inv(RING, v) && Threes(v, 2) && Inv(RING, w) && Threes(w, 1) && w.before == v.log
    requires v.before[7] == BLANK && v.began == w.began
    ensures ValidLog(w.log, RING) && |w.live| == 1 && |v.live| == 2 && w.live[0].Valid() && v.live[1].Valid()
    ensures TotalLen(w.live[0].items) == TotalLen(v.live[1].items) == 3 && v.live[1].tx == v.All()[1]
    ensures Laid(w.log, RING, 1, w.began, w.live[0].items)
    ensures Laid(w.log, RING, 4, Succ(w.began), v.live[1].items) && w.log[7] == BLANK
    ensures w.diskStart == 1 && w.diskSequence == w.began && |w.All()| == 1
  {
    hide Laid, Logged.Valid, TotalLen, LogInv, HomeInv, QueuePending, QueueOk, Traced, Plus, LenOf, View.All;
    AllThrees(RING, v, 2);
    AllThrees(RING, w, 1);
    ThreesLen(RING, v, 2, 2);
    ThreesLen(RING, v, 2, 1);
    ThreesLen(RING, w, 1, 1);
    ThreesLen(RING, w, 1, 0);
    LoggedAt(RING, v, 1);
    LoggedAt(RING, w, 0);
    assert Plus(w.began, 0) == w.began && Plus(v.began, 1) == Succ(v.began) by { FirstIds(w.began); }
    LaidFrame(v.log, w.log, RING, 4, Succ(v.began), v.live[1].items);
  }

  lemma FirstIds(t: u32)
    ensures Plus(t, 0) == t && Plus(t, 1) == Succ(t)
  {
    assert Plus(t, 0) == t;
  }

  lemma QueuedThrees(q0: seq<Trans>, q1: seq<Trans>, q2: seq<Trans>, a: Block, b: Block)
    requires q0 == [] && Queued(q0, q1, [Write(5, a)], 3) && Queued(q1, q2, [Write(5, b)], 3)
    ensures |q1| == 1 && q1[0].allocBlocks == 3
    ensures |q2| == 2 && q2[0].allocBlocks == q2[1].allocBlocks == 3
  {
    hide Queued;
    QueuedOne(q0, q1, 5, a, 3);
    QueuedOne(q1, q2, 5, b, 3);
  }

  /** Two transactions that log block 5 are committed, and the journal is stopped. */
  method FirstSession(uuid: seq<u32>) returns (i: Journal, ghost v: View)
    requires |uuid| == UUID_WORDS
    ensures fresh(i) && Inv(RING, v) && Threes(v, 2) && v.log == i.log && v.began == 1 && v.before[7] == BLANK
    ensures v.All() == [Tx([Write(5, Data(1))], []), Tx([Write(5, Data(2))], [])]
    ensures ValidLog(i.log, RING) && |i.home| == SIZE && i.diskSequence == 0
  {
    hide Inv, Consistent, LenOf, AllPending, TxsOf, View.All, View.Used, RevokesSettled, Current, Queued,
        Taken, Trans.Pending, Quiet, Agrees, Surviving, Judged;
    var log, blank := seq(11, _ => BLANK), seq(SIZE, _ => BLANK);
    BlankIsFresh(log);
    i := new Journal.Start(RING, log, blank, 0);
    StartsQuiet(i);
    ghost var q0 := i.cpQueue;
    CommitOne(i, uuid, 5, Data(1));
    ghost var q1 := i.cpQueue;
    CommitOne(i, uuid, 5, Data(2));
    QueuedThrees(q0, q1, i.cpQueue, Data(1), Data(2));
    v := i.V();
    QuietIs(i);
    Stop(i);
  }

  lemma QuietIs(j: Journal)
    requires Quiet(j)
    ensures Inv(j.g, j.V()) && ValidLog(j.log, j.g)
    ensures j.V().queue == j.cpQueue && j.V().open == [] && j.V().reserved == 0
  {
  }

  /** The next session begins with id 1 again, and commits one that logs block 5. A crash now brings
      back the second of the old ones: mounting undoes what was just committed. */
  method StaleSession(uuid: seq<u32>) returns (j: Journal, home: seq<Block>)
    requires |uuid| == UUID_WORDS
    ensures fresh(j) && Quiet(j) && j.V().All() == [Tx([Write(5, Data(3))], [])]
    ensures !Consistent(j.g, j.origin, j.V().Disk(), j.V().All())
    ensures |home| == SIZE && home[5] == Data(2)
  {
    hide Inv, Consistent, LenOf, AllPending, TxsOf, View.All, View.Used, RevokesSettled, Current, Queued,
        Taken, Plain, Trans.Pending, Quiet, Agrees, Surviving, WalkEnds, Walk, Txs, Laid, ValidLog;
    var i: Journal;
    ghost var v;
    i, v := FirstSession(uuid);
    j := new Journal.Start(RING, i.log, i.home, i.diskSequence);
    StartsQuiet(j);
    ghost var q := j.cpQueue;
    CommitOne(j, uuid, 5, Data(3));
    QueuedOne(q, j.cpQueue, 5, Data(3), 3);
    ghost var w := j.V();
    QuietIs(j);
    StaleWalk(v, w);
    var fs := new JbdFs(RING, j.log, j.home, j.diskStart, j.diskSequence);
    var r := fs.Recover();
    home := fs.home;
  }
}
