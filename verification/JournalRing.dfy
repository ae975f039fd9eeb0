/** The part of the ring the on-disk superblock names, and what every disk image met
    on the way recovers to. */
module JournalRing {
  import opened Words
  import opened JournalFormat
  import opened JournalRecovery
  import opened JournalWalk
  import opened JournalLayout
  import opened JournalState

  /** The transaction logged this copy of block `a`, up to a blanked magic word. */
  ghost predicate LoggedAs(tx: Tx, a: u32, data: Block) {
    var w := LastWrite(tx.writes, a);
    w.Some? && (data == w.value || data == Escaped(w.value))
  }

  /** Block `a` holds what it held at first, or a copy that a committed transaction logged. */
  ghost predicate FromLog(origin: seq<Block>, home: seq<Block>, txs: seq<Tx>, a: u32)
    requires |home| == |origin| && a < |home|
  {
    home[a] == origin[a] || exists k :: 0 <= k < |txs| && LoggedAs(txs[k], a, home[a])
  }

  /** Nothing that was not committed is in the home blocks. */
  ghost predicate Traced(origin: seq<Block>, home: seq<Block>, txs: seq<Tx>) {
    |home| == |origin| && forall a: u32 :: a < |home| ==> FromLog(origin, home, txs, a)
  }

  lemma TracedWrite(origin: seq<Block>, home: seq<Block>, txs: seq<Tx>, a: u32, data: Block, k: nat)
    requires Traced(origin, home, txs) && a < |home| && k < |txs| && LoggedAs(txs[k], a, data)
    ensures Traced(origin, home[a := data], txs)
  {
    hide LoggedAs;
    var home' := home[a := data];
    forall c: u32 | c < |home'|
      ensures FromLog(origin, home', txs, c)
    {
      assert FromLog(origin, home, txs, c);
    }
  }

  lemma TracedMore(origin: seq<Block>, home: seq<Block>, txs: seq<Tx>, tx: Tx)
    requires Traced(origin, home, txs)
    ensures Traced(origin, home, txs + [tx])
  {
    hide LoggedAs;
    var txs' := txs + [tx];
    forall c: u32 | c < |home|
      ensures FromLog(origin, home, txs', c)
    {
      assert FromLog(origin, home, txs, c);
      if home[c] != origin[c] {
        var k :| 0 <= k < |txs| && LoggedAs(txs[k], c, home[c]);
        assert txs'[k] == txs[k];
      }
    }
  }

  /** A disk as a crash may leave it. */
  datatype Image = Image(log: seq<Block>, home: seq<Block>, start: nat, sequence: u32)

  /** After recovery each block that the committed transactions left with a logged copy holds
      that copy, and every other block is untouched. */
  ghost predicate Agrees(recovered: seq<Block>, home: seq<Block>, txs: seq<Tx>) {
    && |recovered| == |home|
    && forall a: u32 :: a < |home| ==>
         recovered[a] == (if Surviving(txs, a).Some? then Surviving(txs, a).value else home[a])
  }

  /** Recovery of this disk, whose home blocks once were `origin`, ends with exactly the effect
      of the committed transactions `txs`. It finds the last of them in the log; the others are
      home already, and nothing else is. */
  ghost predicate Consistent(g: Geometry, origin: seq<Block>, img: Image, txs: seq<Tx>) {
    && ValidLog(img.log, g) && |img.home| <= 0x1_0000_0000 && Traced(origin, img.home, txs)
    && (img.start == 0 ==> Agrees(img.home, img.home, txs))
    && (img.start != 0 ==>
          g.Inside(img.start) && exists items :: RecoversFrom(g, img, txs, items))
  }

  ghost predicate RecoversFrom(g: Geometry, img: Image, txs: seq<Tx>, items: seq<Item>)
    requires ValidLog(img.log, g) && g.Inside(img.start) && |img.home| <= 0x1_0000_0000
  {
    && IsWalk(img.log, g, img.start, img.start, img.sequence, items)
    && Commits(items) <= |txs| && Txs(items, EMPTY_TX) == txs[|txs| - Commits(items)..]
    && Agrees(Recovered(Txs(items, EMPTY_TX), img.home), img.home, txs)
  }

  // ----- The log

  /** Block `b`, `d` blocks ahead of the next record, is not taken for a record of the next
      `d + 1` transactions, counted from id `t`. */
  ghost predicate Stale(b: Block, t: u32, d: nat)
    requires |b| >= HEADER_WORDS
  {
    b[0] != MAGIC || forall k :: 0 <= k <= d ==> b[2] != Plus(t, k)
  }

  /** The `n` blocks from `p` on can be written over without a crash in between reviving
      what they held. */
  ghost predicate FreshAhead(log: seq<Block>, g: Geometry, p: nat, n: nat, t: u32)
    requires ValidLog(log, g) && g.Inside(p) && n <= g.Size()
  {
    forall d :: 0 <= d < n ==> Stale(log[g.Adv(p, d)], t, d)
  }

  /** From `start` with id `sequence` the log holds the records `items`; if it is `clean`, the rest
      of the ring is fresh. */
  ghost predicate Holds(g: Geometry, log: seq<Block>, start: nat, sequence: u32, items: seq<Item>, clean: bool) {
    && ValidLog(log, g) && g.Inside(start) && TotalLen(items) < g.Size()
    && Laid(log, g, start, sequence, items)
    && (clean ==>
          FreshAhead(log, g, g.Adv(start, TotalLen(items)), g.Size() - TotalLen(items), EndId(sequence, items)))
  }

  /** The records are those of the whole transactions `live`, and `open` of one that is
      being written. */
  ghost predicate LogInv(g: Geometry, log: seq<Block>, start: nat, sequence: u32,
                         live: seq<Logged>, open: seq<Item>, clean: bool)
  {
    && Holds(g, log, start, sequence, Flat(live) + open, clean)
    && (forall i :: 0 <= i < |live| ==> live[i].Valid())
    && Commits(open) == 0
  }

  /** What old records lie `d` blocks ahead of the start, where those of the log end, add no commit
      of transaction `t` to them, and the walk ends. Anyone can make this test before a commit. */
  predicate Ahead(log: seq<Block>, g: Geometry, start: nat, d: nat, t: u32)
    requires ValidLog(log, g) && g.Inside(start) && d < g.Size()
  {
    Silent(log, g, start, g.Adv(start, d), t, g.Size())
  }

  /** The records of the log, followed by old ones without a commit. */
  lemma AheadRecovers(g: Geometry, img: Image, gone: seq<Tx>, live: seq<Logged>, open: seq<Item>,
                      queue: seq<Trans>, rest: seq<Item>)
    requires LogInv(g, img.log, img.start, img.sequence, live, open, false) && img.start != 0
    requires |queue| <= |live| && HomeInv(img.home, gone + TxsOf(live), queue)
    requires var items := Flat(live) + open;
             && Commits(rest) == 0
             && IsWalk(img.log, g, img.start, g.Adv(img.start, TotalLen(items)), EndId(img.sequence, items), rest)
    ensures RecoversFrom(g, img, gone + TxsOf(live), Flat(live) + open + rest)
  {
    hide Laid, IsWalk, HomeInv, TotalLen, FreshAhead, Logged.Valid, Agrees, Recovered, EndId, Commits, Txs, ItemAt;
    var items := Flat(live) + open;
    var txs := gone + TxsOf(live);
    CommitsAppend(open, rest);
    assert items + rest == Flat(live) + (open + rest);
    ReadBack(live, open + rest, img.sequence);
    assert g.Adv(img.start, 0) == img.start;
    LaidIsWalk(img.log, g, img.start, 0, img.sequence, items, rest);
    assert txs[|txs| - |live|..] == TxsOf(live);
    AgreesFromHome(img.home, gone, live, queue);
  }

  /** Any walk over the log meets its records, and then what is ahead. */
  lemma WalkGoesAhead(g: Geometry, img: Image, live: seq<Logged>, open: seq<Item>, all: seq<Item>)
    requires LogInv(g, img.log, img.start, img.sequence, live, open, false)
    requires IsWalk(img.log, g, img.start, img.start, img.sequence, all)
    requires !Ahead(img.log, g, img.start, TotalLen(Flat(live) + open), Plus(img.sequence, |live|))
    ensures Commits(all) > |live|
  {
    hide IsWalk, Silent;
    var items := Flat(live) + open;
    ReadBack(live, open, img.sequence);
    assert g.Adv(img.start, 0) == img.start;
    WalkMeetsLaid(img.log, g, img.start, 0, img.sequence, items, all);
    var rest := all[|items|..];
    LaidIsWalk(img.log, g, img.start, 0, img.sequence, items, rest);
    SilentIff(img.log, g, img.start, g.Adv(img.start, TotalLen(items)), Plus(img.sequence, |live|));
    CommitsAppend(items, rest);
  }

  lemma FreshIsAhead(g: Geometry, log: seq<Block>, start: nat, sequence: u32, live: seq<Logged>, open: seq<Item>)
    requires LogInv(g, log, start, sequence, live, open, true)
    ensures Ahead(log, g, start, TotalLen(Flat(live) + open), Plus(sequence, |live|))
  {
    var items := Flat(live) + open;
    ReadBack(live, open, sequence);
    var t := EndId(sequence, items);
    assert Stale(log[g.Adv(g.Adv(start, TotalLen(items)), 0)], t, 0);
    assert Plus(t, 0) == t;
    assert g.Adv(g.Adv(start, TotalLen(items)), 0) == g.Adv(start, TotalLen(items));
  }

  /** The crash theorem: at any moment recovery finds the transactions in the log, and together
      with what is home already they make up all that was committed, if the old records ahead add
      no commit; and else it finds more transactions than the log holds, or does not end. While
      none is gone from the log yet, that makes the disk inconsistent. */
  lemma ImageIsConsistent(g: Geometry, origin: seq<Block>, img: Image, gone: seq<Tx>, live: seq<Logged>,
                          open: seq<Item>, queue: seq<Trans>)
    requires LogInv(g, img.log, img.start, img.sequence, live, open, false) && img.start != 0
    requires |queue| <= |live| && HomeInv(img.home, gone + TxsOf(live), queue)
    requires Traced(origin, img.home, gone + TxsOf(live))
    ensures var ahead := Ahead(img.log, g, img.start, TotalLen(Flat(live) + open), Plus(img.sequence, |live|));
            && (ahead ==> Consistent(g, origin, img, gone + TxsOf(live)))
            && (gone == [] && !ahead ==> !Consistent(g, origin, img, gone + TxsOf(live)))
            && (!ahead ==> forall all :: RecoversFrom(g, img, gone + TxsOf(live), all) ==> Commits(all) > |live|)
  {
    hide Silent, IsWalk;
    var items := Flat(live) + open;
    var txs := gone + TxsOf(live);
    var p := g.Adv(img.start, TotalLen(items));
    ReadBack(live, open, img.sequence);
    if Ahead(img.log, g, img.start, TotalLen(items), Plus(img.sequence, |live|)) {
      SilentIff(img.log, g, img.start, p, Plus(img.sequence, |live|));
      var rest :| IsWalk(img.log, g, img.start, p, Plus(img.sequence, |live|), rest) && Commits(rest) == 0;
      AheadRecovers(g, img, gone, live, open, queue, rest);
    } else {
      forall all | RecoversFrom(g, img, txs, all)
        ensures Commits(all) > |live|
      {
        WalkGoesAhead(g, img, live, open, all);
      }
    }
  }

  lemma {:induction false} LastEventAppend(a: seq<Tx>, b: seq<Tx>, c: u32)
    ensures LastEvent(a + b, c) == if LastEvent(b, c) >= 0 then |a| + LastEvent(b, c) else LastEvent(a, c)
  {
    var txs := a + b;
    var e := if LastEvent(b, c) >= 0 then |a| + LastEvent(b, c) else LastEvent(a, c);
    forall j | e < j < |txs|
      ensures c !in txs[j].revokes && LastWrite(txs[j].writes, c).None?
    {
      if j >= |a| { assert txs[j] == b[j - |a|]; }
    }
    LastEventUnique(txs, c, e);
  }

  lemma AgreesFromHome(home: seq<Block>, gone: seq<Tx>, live: seq<Logged>, queue: seq<Trans>)
    requires |queue| <= |live| && HomeInv(home, gone + TxsOf(live), queue)
    ensures Agrees(Recovered(TxsOf(live), home), home, gone + TxsOf(live))
  {
    hide LastEvent, LastWrite, Surviving;
    var txs := gone + TxsOf(live);
    var r := Recovered(TxsOf(live), home);
    forall a: u32 | a < |home|
      ensures r[a] == if Surviving(txs, a).Some? then Surviving(txs, a).value else home[a]
    {
      assert HomeOk(home, txs, queue, a);
      SurvivingIsLastEvent(txs, a);
      SurvivingIsLastEvent(TxsOf(live), a);
      LastEventAppend(gone, TxsOf(live), a);
    }
  }

  // ----- Writing records

  /** Writing one block that belongs to no record. */
  lemma LogWriteKeeps(g: Geometry, log: seq<Block>, start: nat, sequence: u32, items: seq<Item>, clean: bool, p: nat,
                      b: Block)
    requires Holds(g, log, start, sequence, items, clean)
    requires TotalLen(items) <= p < g.Size() && |b| == g.words && b[0] != MAGIC
    ensures Holds(g, log[g.Adv(start, p) := b], start, sequence, items, clean)
  {
    hide ItemAt, TotalLen, Plus, EndId;
    var n, t := TotalLen(items), EndId(sequence, items);
    var log' := log[g.Adv(start, p) := b];
    LaidFrame(log, log', g, start, sequence, items);
    if clean {
      forall d | 0 <= d < g.Size() - n
        ensures Stale(log'[g.Adv(g.Adv(start, n), d)], t, d)
      {
        assert Stale(log[g.Adv(g.Adv(start, n), d)], t, d);
      }
    }
  }

  /** One record more behind `items`, completed by writing block `b` in its first place. */
  lemma AppendLaid(g: Geometry, log: seq<Block>, start: nat, sequence: u32, items: seq<Item>, b: Block, item: Item)
    requires ValidLog(log, g) && g.Inside(start) && |b| == g.words
    requires TotalLen(items) + item.Len() <= g.Size() && Laid(log, g, start, sequence, items)
    requires var p := g.Adv(start, TotalLen(items));
             && ItemAt(log[p := b], g, p, EndId(sequence, items)) == Some(item)
             && DataUnmarked(log[p := b], g, p, item)
    ensures TotalLen(items + [item]) == TotalLen(items) + item.Len()
    ensures EndId(sequence, items + [item]) == NextId(EndId(sequence, items), item)
    ensures Laid(log[g.Adv(start, TotalLen(items)) := b], g, start, sequence, items + [item])
  {
    var p := g.Adv(start, TotalLen(items));
    var log' := log[p := b];
    LaidFrame(log, log', g, start, sequence, items);
    TotalLenAppend(items, [item]);
    EndIdAppend(sequence, items, [item]);
    assert [item][1..] == [] && TotalLen([item]) == item.Len();
    assert EndId(EndId(sequence, items), [item]) == NextId(EndId(sequence, items), item);
    hide ItemAt, DataUnmarked;
    assert Laid(log', g, p, EndId(sequence, items), [item]);
    LaidAppend(log', g, start, sequence, items, [item]);
  }

  /** What is fresh stays fresh `c` blocks further on, for at most `c` ids more. */
  lemma FreshAfter(log: seq<Block>, log': seq<Block>, g: Geometry, p: nat, c: nat, n: nat, t: u32, e: nat)
    requires ValidLog(log, g) && ValidLog(log', g) && g.Inside(p) && c <= n <= g.Size()
    requires FreshAhead(log, g, p, n, t) && e <= c
    requires forall d :: c <= d < n ==> log'[g.Adv(p, d)] == log[g.Adv(p, d)]
    ensures FreshAhead(log', g, g.Adv(p, c), n - c, Plus(t, e))
  {
    hide Plus;
    forall d | 0 <= d < n - c
      ensures Stale(log'[g.Adv(g.Adv(p, c), d)], Plus(t, e), d)
    {
      assert g.Adv(g.Adv(p, c), d) == g.Adv(p, c + d);
      assert Stale(log[g.Adv(p, c + d)], t, c + d);
      forall k | 0 <= k <= d
        ensures Plus(Plus(t, e), k) == Plus(t, e + k)
      {
        PlusPlus(t, e, k);
      }
    }
  }

  lemma NextIdIsPlus(t: u32, item: Item)
    ensures NextId(t, item) == Plus(t, if item.Commit? then 1 else 0)
  {
    assert Plus(t, 0) == t && Plus(t, 1) == Succ(t);
  }

  /** Writing the block that completes the next record: a descriptor block whose data blocks
      are in place, a revoke block or a commit block. */
  lemma RecordWritten(g: Geometry, log: seq<Block>, start: nat, sequence: u32, items: seq<Item>, clean: bool, b: Block,
                      item: Item)
    requires Holds(g, log, start, sequence, items, clean) && |b| == g.words
    requires TotalLen(items) + item.Len() < g.Size()
    requires var p := g.Adv(start, TotalLen(items));
             && ItemAt(log[p := b], g, p, EndId(sequence, items)) == Some(item)
             && DataUnmarked(log[p := b], g, p, item)
    ensures Holds(g, log[g.Adv(start, TotalLen(items)) := b], start, sequence, items + [item], clean)
    ensures TotalLen(items + [item]) == TotalLen(items) + item.Len()
  {
    hide ItemAt, TotalLen, Plus, DataUnmarked, Laid, FreshAhead, EndId, NextId;
    var n := TotalLen(items);
    var p := g.Adv(start, n);
    var log' := log[p := b];
    AppendLaid(g, log, start, sequence, items, b, item);
    NextIdIsPlus(EndId(sequence, items), item);
    if clean {
      FreshAfter(log, log', g, p, item.Len(), g.Size() - n, EndId(sequence, items), if item.Commit? then 1 else 0);
    }
    assert g.Adv(p, item.Len()) == g.Adv(start, n + item.Len());
  }

  lemma FlatOne(live: seq<Logged>, l: Logged)
    ensures Flat(live + [l]) == Flat(live) + l.items
  {
    FlatAppend(live, [l]);
    assert Flat([l]) == l.items + Flat([l][1..]);
  }

  // ----- Letting go of the oldest transactions

  /** A header inside records laid from id `t` on carries one of their ids. */
  lemma {:induction false} LaidIds(log: seq<Block>, g: Geometry, p: nat, t: u32, items: seq<Item>, d: nat)
    requires ValidLog(log, g) && g.Inside(p) && TotalLen(items) <= g.Size() && d < TotalLen(items)
    requires Laid(log, g, p, t, items)
    ensures log[g.Adv(p, d)][0] == MAGIC ==>
              exists i :: 0 <= i <= Commits(items) && (i == Commits(items) ==> !items[|items| - 1].Commit?) &&
                          log[g.Adv(p, d)][2] == Plus(t, i)
    decreases |items|
  {
    var n := items[0].Len();
    assert g.Adv(p, 0) == p;
    if d == 0 {
      assert Plus(t, 0) == t;
      if Commits(items) == 0 { NoCommits(items); }
    } else if d < n {
      assert log[g.Adv(p, d)][0] != MAGIC;
    } else {
      assert g.Adv(g.Adv(p, n), d - n) == g.Adv(p, d);
      LaidIds(log, g, g.Adv(p, n), NextId(t, items[0]), items[1..], d - n);
      if log[g.Adv(p, d)][0] == MAGIC {
        var i :| 0 <= i <= Commits(items[1..]) &&
                 (i == Commits(items[1..]) ==> !items[1..][|items[1..]| - 1].Commit?) &&
                 log[g.Adv(p, d)][2] == Plus(NextId(t, items[0]), i);
        var e := if items[0].Commit? then 1 else 0;
        NextIdIsPlus(t, items[0]);
        PlusPlus(t, e, i);
        assert log[g.Adv(p, d)][2] == Plus(t, e + i);
      }
    }
  }

  lemma {:induction false} NoCommits(items: seq<Item>)
    requires items != [] && Commits(items) == 0
    ensures !items[|items| - 1].Commit?
  {
    if |items| > 1 { NoCommits(items[1..]); }
  }

  lemma PlusDiffer(t: u32, i: nat, j: nat)
    requires i < j < i + 0x1_0000_0000
    ensures Plus(t, i) != Plus(t, j)
  {
    PlusIsModular(t, i);
    PlusIsModular(t, j);
  }

  lemma {:induction false} EndIdIsPlus(t: u32, items: seq<Item>)
    ensures EndId(t, items) == Plus(t, Commits(items))
    ensures Commits(items) <= TotalLen(items)
    decreases |items|
  {
    if items != [] {
      NextIdIsPlus(t, items[0]);
      EndIdIsPlus(NextId(t, items[0]), items[1..]);
      PlusPlus(t, if items[0].Commit? then 1 else 0, Commits(items[1..]));
    } else {
      assert Plus(t, 0) == t;
    }
  }

  /** A block of the transactions let go is stale once they are. */
  lemma FreedIsStale(g: Geometry, log: seq<Block>, start: nat, sequence: u32, a: seq<Item>, all: nat, d: nat, k: nat)
    requires ValidLog(log, g) && g.Inside(start) && TotalLen(a) <= g.Size()
    requires a != [] && a[|a| - 1].Commit? && Laid(log, g, start, sequence, a)
    requires d < TotalLen(a) && Commits(a) <= all < g.Size() && k < g.Size()
    ensures Stale(log[g.Adv(start, d)], Plus(sequence, all), k)
  {
    hide ItemAt, Laid, Plus;
    LaidIds(log, g, start, sequence, a, d);
    var b := log[g.Adv(start, d)];
    if b[0] == MAGIC {
      var i :| 0 <= i < Commits(a) && b[2] == Plus(sequence, i);
      forall j | 0 <= j <= k
        ensures b[2] != Plus(Plus(sequence, all), j)
      {
        PlusPlus(sequence, all, j);
        PlusDiffer(sequence, i, all + j);
      }
    }
  }

  /** Moving the start of the log past whole transactions. */
  lemma DropHolds(g: Geometry, log: seq<Block>, start: nat, sequence: u32, a: seq<Item>, b: seq<Item>, clean: bool)
    requires Holds(g, log, start, sequence, a + b, clean)
    requires a != [] ==> a[|a| - 1].Commit?
    ensures TotalLen(a + b) == TotalLen(a) + TotalLen(b)
    ensures Holds(g, log, g.Adv(start, TotalLen(a)), EndId(sequence, a), b, clean)
  {
    var n := g.Size() - TotalLen(a + b);
    TotalLenAppend(a, b);
    EndIdAppend(sequence, a, b);
    LaidAppend(log, g, start, sequence, a, b);
    EndIdIsPlus(sequence, a + b);
    CommitsAppend(a, b);
    hide ItemAt, Laid, Plus, EndId, TotalLen, Commits;
    var start', p := g.Adv(start, TotalLen(a)), g.Adv(start, TotalLen(a + b));
    var t := EndId(sequence, a + b);
    assert g.Adv(start', TotalLen(b)) == p;
    NoLen();
    if clean {
      forall d | 0 <= d < g.Size() - TotalLen(b)
        ensures Stale(log[g.Adv(p, d)], t, d)
      {
        if d < n {
        } else {
          assert g.Adv(p, d) == g.Adv(start, d - n);
          FreedIsStale(g, log, start, sequence, a, Commits(a + b), d - n, d);
        }
      }
    }
  }

  lemma NoLen()
    ensures TotalLen([]) == 0
  {
  }
}
