/** The journal in memory: the checkpoint queue, the callback that runs when a buffer has
    reached its home block, and the purge that moves the start of the log. */
module JournalCheckpoint {
  import opened Words
  import opened JournalFormat
  import opened JournalRecovery
  import opened JournalLayout
  import opened JournalState
  import opened JournalRing
  import opened JournalSession

  /** States that a session over the home blocks `origin` and the log `before` can come to. */
  ghost predicate AllReached(g: Geometry, origin: seq<Block>, before: seq<Block>, began: u32, states: seq<View>) {
    forall i :: 0 <= i < |states| ==> Reached(g, origin, before, began, states[i])
  }

  ghost predicate Reached(g: Geometry, origin: seq<Block>, before: seq<Block>, began: u32, v: View) {
    Inv(g, v) && v.origin == origin && v.before == before && v.began == began
  }

  /** The first transaction on the queue is fully written, yet still there. */
  predicate Stuck(queue: seq<Trans>) {
    queue != [] && queue[0].Done()
  }

  /** How many transactions leave the queue when transaction `i`, the last one with block `a`
      pending, has written it home: all that are done at the front, but never `i` itself
      unless it was first to begin with. */
  function Leaving(queue: seq<Trans>, i: nat, a: u32): (n: nat)
    requires i < |queue|
    ensures n <= |queue|
  {
    var q := EndUpTo(queue, i + 1, a);
    if i == 0 then DonePrefix(q)
    else if a in queue[0].Pending() then DonePrefix(q[..i])
    else 0
  }

  lemma DonePrefixIs(queue: seq<Trans>, n: nat)
    requires n <= |queue| && (forall i :: 0 <= i < n ==> queue[i].Done())
    requires n < |queue| ==> !queue[n].Done()
    ensures DonePrefix(queue) == n
  {
  }

  /** The home block holds what the last transaction logged, unless that one revoked it. */
  ghost predicate UpToDate(home: seq<Block>, all: seq<Tx>, a: u32) {
    var e := LastEvent(all, a);
    a < |home| ==> e < 0 || a in all[e].revokes || Some(home[a]) == LastWrite(all[e].writes, a)
  }

  /** In the middle of ending block `a`: of the queue `q0` there was, the first `n`
      transactions have left, and `k` more have ended their write. */
  ghost predicate Ending(q0: seq<Trans>, i: nat, a: u32, n: int, k: nat, q: seq<Trans>) {
    && 0 <= n && n + k <= i < |q0|
    && (forall t :: t in q0 ==> t.Valid())
    && a in q0[i].Pending()
    && q == EndUpTo(q0, n + k, a)[n..]
    && n == (if a in q0[0].Pending() && n + k > 0 then DonePrefix(EndUpTo(q0, n + k, a)[..i]) else 0)
  }

  lemma EndingBegin(q0: seq<Trans>, i: nat, a: u32)
    requires i < |q0| && (forall t :: t in q0 ==> t.Valid()) && a in q0[i].Pending()
    ensures Ending(q0, i, a, 0, 0, q0)
  {
  }

  lemma NothingToEnd(q0: seq<Trans>, n: nat, m: nat, a: u32)
    requires n <= m <= |q0| && forall j :: n <= j < m ==> a !in q0[j].Pending()
    ensures EndUpTo(q0, m, a) == EndUpTo(q0, n, a)
  {
  }

  lemma EndingSkip(q0: seq<Trans>, i: nat, a: u32, n: int, k: nat, q: seq<Trans>)
    requires Ending(q0, i, a, n, k, q) && n + k < i && a !in q[k].Pending()
    ensures Ending(q0, i, a, n, k + 1, q)
  {
    assert q[k] == q0[n + k];
    NothingToEnd(q0, n + k, n + k + 1, a);
  }

  lemma EndingShape(q0: seq<Trans>, i: nat, a: u32, n: int, k: nat, q: seq<Trans>)
    requires Ending(q0, i, a, n, k, q)
    ensures 0 <= n && n + k <= i && |q| == |q0| - n && i < |q0|
    ensures a in q[i - n].Pending() && q[i - n] == q0[i] && !q0[i].Done()
    ensures forall j :: k <= j < |q| ==> q[j] == q0[n + j]
    ensures forall j :: 0 <= j < k ==> a !in q[j].Pending()
  {
    assert q0[i] in q0;
    forall j | 0 <= j < k
      ensures a !in q[j].Pending()
    {
      assert q[j] == q0[n + j].Ended(a) && q0[n + j] in q0;
      EndedKeeps(q0[n + j], a);
    }
  }

  lemma EndingOne(q0: seq<Trans>, i: nat, a: u32, n: int, k: nat, q: seq<Trans>)
    requires Ending(q0, i, a, n, k, q) && n + k < i && a in q[k].Pending()
    ensures var q' := q[k := q[k].Ended(a)];
            var p := if k == 0 then DonePrefix(q') else 0;
            n + p <= i && Ending(q0, i, a, n + p, if p > 0 then 0 else k + 1, q'[p..])
  {
    hide Trans.Pending, Trans.Ended, DonePrefix, EndUpTo, Ending;
    EndingShape(q0, i, a, n, k, q);
    EndingNext(q0, i, a, n, k, q);
    var q' := q[k := q[k].Ended(a)];
    assert q'[0..] == q';
    if k == 0 {
      EndingHead(q0, i, a, n, q, q');
    } else {
      EndingLater(q0, i, a, n, k, q);
    }
  }

  lemma EndingNext(q0: seq<Trans>, i: nat, a: u32, n: int, k: nat, q: seq<Trans>)
    requires Ending(q0, i, a, n, k, q) && n + k < i
    ensures k < |q| && q[k := q[k].Ended(a)] == EndUpTo(q0, n + k + 1, a)[n..]
  {
    hide Trans.Pending, Trans.Ended, DonePrefix;
  }

  lemma EndingHead(q0: seq<Trans>, i: nat, a: u32, n: int, q: seq<Trans>, q': seq<Trans>)
    requires Ending(q0, i, a, n, 0, q) && n < i && |q| == |q0| - n && a in q[0].Pending()
    requires q' == EndUpTo(q0, n + 1, a)[n..]
    ensures var p := DonePrefix(q');
            n + p <= i && Ending(q0, i, a, n + p, if p > 0 then 0 else 1, q'[p..])
  {
    hide Trans.Pending, Trans.Ended, DonePrefix, EndUpTo, Ending;
    var p := DonePrefix(q');
    EndingParts(q0, i, a, n, q);
    HeadDonePrefix(q0, i, a, n, q, q');
    if p > 0 {
      HeadNothing(q0, i, a, n, p, q');
    }
    assert q'[p..] == EndUpTo(q0, n + 1, a)[n + p..];
    EndingNow(q0, i, a, n + p, if p > 0 then 0 else 1, q'[p..]);
  }

  lemma EndingParts(q0: seq<Trans>, i: nat, a: u32, n: int, q: seq<Trans>)
    requires Ending(q0, i, a, n, 0, q) && n < i && |q| == |q0| - n && a in q[0].Pending()
    ensures (forall t :: t in q0 ==> t.Valid()) && 0 <= n < i < |q0| && a in q0[i].Pending()
    ensures a in q0[n].Pending() && a in q0[0].Pending()
    ensures n > 0 ==> n == DonePrefix(EndUpTo(q0, n, a)[..i])
  {
    hide Trans.Pending, Trans.Ended, DonePrefix;
    assert q[0] == q0[n];
  }

  lemma HeadDonePrefix(q0: seq<Trans>, i: nat, a: u32, n: nat, q: seq<Trans>, q': seq<Trans>)
    requires n < i < |q0| && (forall t :: t in q0 ==> t.Valid()) && a in q0[i].Pending()
    requires n > 0 ==> n == DonePrefix(EndUpTo(q0, n, a)[..i])
    requires q' == EndUpTo(q0, n + 1, a)[n..]
    ensures n + DonePrefix(q') <= i
    ensures DonePrefix(EndUpTo(q0, n + 1, a)[..i]) == n + DonePrefix(q')
  {
    hide Trans.Pending, Trans.Ended, DonePrefix, Trans.Valid, Trans.Done;
    var q1, q2 := EndUpTo(q0, n, a), EndUpTo(q0, n + 1, a);
    var p := DonePrefix(q');
    assert q0[i] in q0;
    NotDone(q0[i], a);
    assert q'[i - n] == q0[i];
    forall x | 0 <= x < n + p
      ensures q2[..i][x].Done()
    {
      if x < n { assert q1[..i][x].Done(); } else { assert q2[x] == q'[x - n]; }
    }
    DonePrefixIs(q2[..i], n + p);
  }

  lemma HeadNothing(q0: seq<Trans>, i: nat, a: u32, n: nat, p: nat, q': seq<Trans>)
    requires n < i < |q0| && (forall t :: t in q0 ==> t.Valid())
    requires q' == EndUpTo(q0, n + 1, a)[n..] && 0 < p == DonePrefix(q') && n + p <= i
    ensures EndUpTo(q0, n + p, a) == EndUpTo(q0, n + 1, a)
  {
    hide Trans.Pending, Trans.Ended, DonePrefix, Trans.Valid, Trans.Done;
    forall x | n + 1 <= x < n + p
      ensures a !in q0[x].Pending()
    {
      assert q'[x - n] == q0[x] && q0[x] in q0;
      if a in q0[x].Pending() { NotDone(q0[x], a); }
    }
    NothingToEnd(q0, n + 1, n + p, a);
  }

  lemma EndingNow(q0: seq<Trans>, i: nat, a: u32, n: nat, k: nat, q: seq<Trans>)
    requires n + k <= i < |q0| && (forall t :: t in q0 ==> t.Valid()) && a in q0[i].Pending()
    requires q == EndUpTo(q0, n + k, a)[n..]
    requires a in q0[0].Pending() && n == DonePrefix(EndUpTo(q0, n + k, a)[..i])
    ensures Ending(q0, i, a, n, k, q)
  {
  }

  lemma NotDone(t: Trans, a: u32)
    requires t.Valid() && a in t.Pending()
    ensures !t.Done()
  {
  }

  lemma EndingLater(q0: seq<Trans>, i: nat, a: u32, n: int, k: nat, q: seq<Trans>)
    requires Ending(q0, i, a, n, k, q) && n + k < i && k > 0
    requires a in q0[n + k].Pending() && q[k] == q0[n + k] && k < |q|
    ensures Ending(q0, i, a, n, k + 1, q[k := q[k].Ended(a)])
  {
    hide Trans.Pending, Trans.Ended;
    var j := n + k;
    var q1, q2 := EndUpTo(q0, j, a), EndUpTo(q0, j + 1, a);
    assert q[k := q[k].Ended(a)] == q2[n..];
    if a in q0[0].Pending() {
      assert n == DonePrefix(q1[..i]);
      assert forall x :: 0 <= x < j ==> q2[..i][x] == q1[..i][x];
      assert !q1[..i][n].Done();
      DonePrefixIs(q2[..i], n);
    }
  }

  lemma QueueValid(g: Geometry, v: View)
    requires Inv(g, v)
    ensures forall t :: t in v.queue ==> t.Valid()
    ensures |v.queue| <= |v.All()|
  {
    forall i | 0 <= i < |v.queue|
      ensures v.queue[i].Valid()
    {
      assert HoldsLogged(v.All(), v.queue, i);
    }
  }

  /** The next earlier write of `a` may end. */
  lemma EndingMay(v: View, q0: seq<Trans>, i: nat, a: u32, n: int, k: nat, q: seq<Trans>)
    requires Ending(q0, i, a, n, k, q) && k < |q| && a in q[k].Pending()
    requires |q| <= |v.queue| <= |v.All()| && v.queue[..|q|] == q
    requires UpToDate(v.home, v.All(), a) || (k == 0 && LastEvent(v.All(), a) > |v.All()| - |v.queue|)
    ensures MayEnd(v.home, v.All(), v.queue, k, a)
  {
    hide Trans.Pending, LastEvent, LastWrite, View.All;
    EndingShape(q0, i, a, n, k, q);
    assert v.queue[k] == q[k];
    assert forall j :: 0 <= j < k ==> v.queue[j] == q[j];
  }

  lemma EndingEnd(q0: seq<Trans>, i: nat, a: u32, n: int, k: nat, q: seq<Trans>)
    requires Ending(q0, i, a, n, k, q) && n + k == i
    ensures 0 <= k < |q| && a in q[k].Pending()
    ensures q[k := q[k].Ended(a)] == EndUpTo(q0, i + 1, a)[n..]
    ensures i > 0 ==> n == Leaving(q0, i, a)
    ensures i == 0 ==> n == 0 && DonePrefix(q[k := q[k].Ended(a)]) == Leaving(q0, i, a)
  {
    hide Trans.Pending, Trans.Ended, DonePrefix;
    EndingShape(q0, i, a, n, k, q);
    assert EndUpTo(q0, i + 1, a)[..i] == EndUpTo(q0, i, a)[..i];
    if i == 0 { assert EndUpTo(q0, 1, a)[0..] == EndUpTo(q0, 1, a); }
  }

  lemma StartInv(g: Geometry, v: View)
    requires ValidLog(v.log, g) && |v.home| <= 0x1_0000_0000
    requires v.before == v.log && v.began == v.diskSequence
    requires v.start == v.last == v.diskStart == g.first && v.transId == v.allocTransId == v.diskSequence
    requires v.origin == v.home && v.gone == [] && v.live == [] && v.open == [] && v.reserved == 0 && v.queue == []
    ensures Inv(g, v) && v.All() == [] && v.Used() == 0
  {
    assert Flat(v.live) + v.open == [] && TotalLen([]) == 0;
    assert v.live[..0] == [] && LenOf([]) == 0;
    assert g.Adv(g.first, 0) == g.first;
  }

  class Journal {
    const g: Geometry

    // The device, and the journal superblock on it.
    var log: seq<Block>
    var home: seq<Block>
    var diskStart: nat
    var diskSequence: u32

    // The superblock in memory.
    var sbStart: nat
    var sbSequence: u32
    var dirty: bool

    // `struct jbd_journal`.
    var start: nat
    var last: nat
    var transId: u32
    var allocTransId: u32
    var cpQueue: seq<Trans>

    /** Blocks whose cached buffer does not hold what was last committed: the running
        transaction has dirtied or freed them. */
    var busy: set<u32>

    /** The blocks that the cache writes back, each time that it makes room for a new buffer. */
    var plan: seq<seq<u32>>

    // History: see `View`. `entering` is a committed transaction not yet on the queue.
    ghost var gone: seq<Tx>
    ghost var live: seq<Logged>
    ghost var open: seq<Item>
    ghost var reserved: nat
    ghost var entering: seq<Trans>

    /** The home blocks and the log when the session began, and the id it began with. */
    ghost const origin: seq<Block>
    ghost const before: seq<Block>
    ghost const began: u32

    /** The blocks that were held each time that the running commit took a log block. */
    ghost var stages: seq<set<u32>>

    /** Every state in which a crash would have met the disk. */
    ghost var images: seq<View>

    /** `jbd_journal_start`: the log begins anew at its first block, with the id after the one
        in the superblock, whatever old records it holds. */
    constructor Start(g: Geometry, log: seq<Block>, home: seq<Block>, sequence: u32)
      requires ValidLog(log, g) && |home| <= 0x1_0000_0000
      ensures Valid() && this.g == g && this.log == before == log && this.home == origin == home
      ensures began == diskSequence == Succ(sequence) && gone == []
      ensures cpQueue == [] && entering == [] && open == [] && reserved == 0 && busy == {} && plan == []
      ensures V().All() == [] && V().Used() == 0 && Current(V())
      ensures images == [V()]
    {
      this.g, this.log, this.home := g, log, home;
      this.before, this.origin, this.began := log, home, Succ(sequence);
      start, last := g.first, g.first;
      transId, allocTransId := Succ(sequence), Succ(sequence);
      cpQueue, busy, plan := [], {}, [];
      sbStart, sbSequence, dirty := g.first, Succ(sequence), false;
      diskStart, diskSequence := g.first, Succ(sequence);
      gone, live, open, reserved, entering, stages, images := [], [], [], 0, [], [], [];
      new;
      hide Inv, Consistent, Clean;
      StartInv(g, V());
      Snapshot();
    }

    ghost function V(): View
      reads this
    {
      View(log, home, origin, before, began, diskStart, diskSequence, start, last, transId, allocTransId,
           cpQueue + entering, gone, live, open, reserved)
    }

    ghost predicate Valid()
      reads this
    {
      && Inv(g, V()) && sbStart == start && sbSequence == transId
      && AllReached(g, origin, before, began, images)
    }

    /** The same transactions are committed; disk images only came on top. */
    twostate predicate Ongoing()
      reads this
    {
      && |home| == old(|home|) && allocTransId == old(allocTransId) && busy <= old(busy)
      && |plan| <= |old(plan)|
      && V().All() == old(V().All()) && entering == old(entering)
      && AllPending(cpQueue) <= old(AllPending(cpQueue))
      && old(images) <= images
      && forall i :: |old(images)| <= i < |images| ==> images[i].All() == V().All()
    }

    /** The log is as it was as well. */
    twostate predicate Kept()
      reads this
    {
      Ongoing() && log == old(log) && open == old(open) && busy == old(busy)
    }

    /** Nothing but the checkpoint state of this session changed. */
    twostate predicate OnlyCheckpoint()
      reads this
    {
      Settled() && plan == old(plan) && stages == old(stages)
    }

    /** Nor did anything else, but for the plan of the commit that goes on. */
    twostate predicate Settled()
      reads this
    {
      && Kept() && last == old(last) && reserved == old(reserved)
      && LenOf(live) <= old(LenOf(live)) && |live| <= old(|live|)
      && (|live| < old(|live|) ==> LenOf(live) < old(LenOf(live)))
    }

    /** A block write has reached the device. */
    ghost method Snapshot()
      requires Valid()
      modifies this`images
      ensures Valid() && images == old(images) + [V()]
    {
      hide Inv, LenOf, AllPending, View.All;
      images := images + [V()];
    }

    /** `jbd_journal_write_sb`. */
    method JournalWriteSb()
      modifies this`sbStart, this`sbSequence, this`dirty
      ensures sbStart == start && sbSequence == transId && dirty
    {
      sbStart, sbSequence := start, transId;
      dirty := true;
    }

    /** `jbd_write_sb`. */
    method WriteSb()
      requires Valid() && dirty
      modifies this`diskStart, this`diskSequence, this`dirty, this`gone, this`live, this`images
      ensures Valid() && OnlyCheckpoint() && V() == Synced(old(V())) && Current(V())
    {
      hide Inv, Consistent, LenOf, AllPending, View.All, Synced, TxsOf;
      if dirty {
        ghost var v := V();
        InvShape(g, v);
        SyncedKeeps(g, v);
        ghost var v' := Synced(v);
        SyncedFields(v);
        diskStart, diskSequence := sbStart, sbSequence;
        gone, live := v'.gone, v'.live;
        dirty := false;
        assert V() == v';
        Snapshot();
      }
    }

    /** The first transaction leaves the queue; the log starts behind it. */
    method PopHead()
      requires Inv(g, V()) && cpQueue != [] && cpQueue[0].Done()
      modifies this`start, this`transId, this`cpQueue, this`sbStart, this`sbSequence, this`dirty
      ensures Inv(g, V()) && V() == Popped(g, old(V()), 1) && cpQueue == old(cpQueue)[1..]
      ensures sbStart == start && sbSequence == transId && dirty
    {
      hide Inv, LenOf, AllPending, View.All, AllReached;
      ghost var v := V();
      var trans := cpQueue[0];
      start := g.Adv(trans.startIblock, trans.allocBlocks);
      transId := Succ(trans.id);
      cpQueue := cpQueue[1..];
      assert V() == Popped(g, v, 1);
      PoppedKeeps(g, v, 1);
      JournalWriteSb();
    }

    /** The start is that of the first transaction, which is what it is already. */
    method NameHead()
      requires Inv(g, V()) && cpQueue != []
      modifies this`start, this`transId, this`sbStart, this`sbSequence, this`dirty
      ensures V() == old(V()) && cpQueue == old(cpQueue) && sbStart == start && sbSequence == transId && dirty
    {
      hide Inv, LenOf, AllPending, View.All;
      HeadNamed(g, V(), cpQueue[0]);
      start := cpQueue[0].startIblock;
      transId := cpQueue[0].id;
      JournalWriteSb();
    }

    /** `jbd_journal_purge_cp_trans` without flushing: drops what is done at the front of the queue. */
    method PurgeDone()
      requires Inv(g, V())
      modifies this`start, this`transId, this`cpQueue, this`sbStart, this`sbSequence, this`dirty
      ensures Inv(g, V()) && V() == Popped(g, old(V()), DonePrefix(old(cpQueue)))
      ensures cpQueue == old(cpQueue)[DonePrefix(old(cpQueue))..]
      ensures old(cpQueue) != [] ==> sbStart == start && sbSequence == transId && dirty
    {
      hide Inv, LenOf, AllPending, DonePrefix, View.All, Popped;
      ghost var q, v := cpQueue, V();
      ghost var n := 0;
      PoppedOnward(g, v, 0);
      while cpQueue != []
        invariant n <= |q| && cpQueue == q[n..] && forall i :: 0 <= i < n ==> q[i].Done()
        invariant V() == Popped(g, v, n) && Inv(g, V())
        invariant n > 0 ==> sbStart == start && sbSequence == transId && dirty
        decreases |cpQueue|
      {
        var trans := cpQueue[0];
        if trans.dataCnt == 0 || trans.dataCnt == trans.writtenCnt {
          HeadDone(g, V(), trans);
          PoppedOnward(g, v, n);
          PopHead();
          n := n + 1;
        } else {
          NameHead();
          break;
        }
      }
      DonePrefixIs(q, n);
    }

    /** One buffer of transaction `k` is written, or need not be any more. Only the transaction
        that was first when the callback began may leave the queue, and others behind it. */
    method EndOne(k: nat, a: u32, first: bool) returns (popped: nat)
      requires Valid() && k < |cpQueue| && MayEnd(home, V().All(), V().queue, k, a)
      requires first ==> k == 0
      modifies this
      ensures Valid() && OnlyCheckpoint() && home == old(home)
      ensures popped == if first then DonePrefix(old(cpQueue[k := cpQueue[k].Ended(a)])) else 0
      ensures cpQueue == old(cpQueue[k := cpQueue[k].Ended(a)])[popped..]
      ensures popped == 0 ==>
                V() == old(V()).(queue := cpQueue + entering) && images == old(images) && dirty == old(dirty)
      ensures popped > 0 ==> Current(V())
    {
      hide Inv, Consistent, LenOf, AllPending, TxsOf, MayEnd, DonePrefix, View.All;
      ghost var v := V();
      BufEnded(g, v, k, a);
      QueueValid(g, v);
      assert cpQueue[k] in v.queue;
      EndedPending(cpQueue, k, a);
      cpQueue := cpQueue[k := cpQueue[k].Ended(a)];
      assert V() == v.(queue := v.queue[k := v.queue[k].Ended(a)]);
      AllIs(v, V());
      ghost var q1 := cpQueue;
      assert cpQueue[0..] == cpQueue;
      DoneFirst(q1);
      popped := 0;
      if cpQueue[k].writtenCnt == cpQueue[k].dataCnt && first {
        var size := |cpQueue|;
        PopDone();
        popped := size - |cpQueue|;
      }
    }

    /** The end of `jbd_trans_end_write`: the first transaction is finished, and leaves the queue
        with those finished behind it. */
    method PopDone()
      requires Valid() && cpQueue != [] && cpQueue[0].Done()
      modifies this
      ensures Valid() && OnlyCheckpoint() && home == old(home) && Current(V())
      ensures cpQueue == old(cpQueue)[DonePrefix(old(cpQueue))..] && DonePrefix(old(cpQueue)) > 0
    {
      hide Inv, Consistent, LenOf, AllPending, TxsOf, Popped, Synced, DonePrefix, View.All, Current, AllReached,
          Trans.Pending, Trans.Done;
      ghost var q, v := cpQueue, V();
      DoneFirst(q);
      PopHead();
      ghost var w := V();
      PoppedAll(g, v, 1);
      PurgeDone();
      PoppedAll(g, w, DonePrefix(q[1..]));
      JournalWriteSb();
      WriteSb();
      TailPending(q, DonePrefix(q));
    }

    /** `jbd_trans_finish_callback`: the writes of block `a` that transactions before `i` still
        have pending are void. Transactions that this completes at the front leave the queue,
        so that `i` moves up to position `pos`. */
    method EndEarlier(i: nat, a: u32) returns (pos: nat)
      requires Valid() && i < |cpQueue| && a in cpQueue[i].Pending()
      requires i > 0 ==> UpToDate(home, V().All(), a)
      modifies this
      ensures Valid() && OnlyCheckpoint() && home == old(home)
      ensures pos <= i && Ending(old(cpQueue), i, a, i - pos, pos, cpQueue)
      ensures i == pos ==> V() == old(V()).(queue := cpQueue + entering) && images == old(images) && dirty == old(dirty)
      ensures i > pos ==> Current(V())
    {
      hide Inv, Consistent, LenOf, AllPending, TxsOf, MayEnd, DonePrefix, EndUpTo, UpToDate, LastEvent, Leaving,
          Trans.Ended, Ending, Trans.Pending, View.All, AllReached;
      ghost var q0, v0 := cpQueue, V();
      var k: nat := 0;
      pos := i;
      QueueValid(g, V());
      EndingBegin(q0, i, a);
      while k < pos
        invariant Valid() && OnlyCheckpoint() && home == old(home)
        invariant k <= pos <= i < |q0| && Ending(q0, i, a, i - pos, k, cpQueue)
        invariant i == pos ==> V() == v0.(queue := cpQueue + entering) && images == old(images) && dirty == old(dirty)
        invariant i > pos ==> Current(V())
        decreases pos - k
      {
        pos, k := EndNext(q0, i, a, pos, k);
      }
    }

    /** One round of it, for the transaction at position `k`. */
    method EndNext(ghost q0: seq<Trans>, ghost i: nat, a: u32, pos: nat, k: nat) returns (pos': nat, k': nat)
      requires Valid() && k < pos <= i < |q0| && Ending(q0, i, a, i - pos, k, cpQueue)
      requires UpToDate(home, V().All(), a)
      modifies this
      ensures Valid() && OnlyCheckpoint() && home == old(home)
      ensures k' <= pos' <= pos && pos' - k' < pos - k && Ending(q0, i, a, i - pos', k', cpQueue)
      ensures pos' == pos ==>
                V() == old(V()).(queue := cpQueue + entering) && images == old(images) && dirty == old(dirty)
      ensures pos' < pos ==> Current(V())
    {
      hide Inv, Consistent, LenOf, AllPending, TxsOf, MayEnd, DonePrefix, EndUpTo, UpToDate, LastEvent, Leaving,
          Trans.Ended, Ending, Trans.Pending, View.All, AllReached;
      pos', k' := pos, k;
      EndingShape(q0, i, a, i - pos, k, cpQueue);
      if a in cpQueue[k].Pending() {
        QueueValid(g, V());
        EndingMay(V(), q0, i, a, i - pos, k, cpQueue);
        EndingOne(q0, i, a, i - pos, k, cpQueue);
        var popped := EndOne(k, a, k == 0);
        pos' := pos - popped;
        if popped == 0 { k' := k + 1; }
      } else {
        EndingSkip(q0, i, a, i - pos, k, cpQueue);
        k' := k + 1;
      }
    }

    /** `jbd_trans_end_write`: transaction `i` has written block `a` home, or its write is void.
        When it is the last transaction to hold the block, the writes of earlier ones are void
        as well. Which transaction is first is looked up before those callbacks run. */
    method EndWrite(i: nat, a: u32)
      requires Valid() && i < |cpQueue| && a in cpQueue[i].Pending()
      requires UpToDate(home, V().All(), a) ||
               (i == 0 && LastEvent(V().All(), a) > |V().All()| - |V().queue|)
      modifies this
      ensures Valid() && OnlyCheckpoint() && home == old(home)
      ensures cpQueue == EndUpTo(old(cpQueue), i + 1, a)[Leaving(old(cpQueue), i, a)..]
      ensures Leaving(old(cpQueue), i, a) == 0 ==>
                V() == old(V()).(queue := cpQueue + entering) && images == old(images) && dirty == old(dirty)
      ensures Leaving(old(cpQueue), i, a) > 0 ==> Current(V())
    {
      hide Inv, Consistent, LenOf, AllPending, TxsOf, MayEnd, DonePrefix, EndUpTo, UpToDate, LastEvent, Leaving,
          Trans.Ended, Ending, Trans.Pending, View.All, AllReached;
      ghost var q0 := cpQueue;
      var first := i == 0;
      var pos := EndEarlier(i, a);
      QueueValid(g, V());
      EndingEnd(q0, i, a, i - pos, pos, cpQueue);
      EndingMay(V(), q0, i, a, i - pos, pos, cpQueue);
      var popped := EndOne(pos, a, first);
    }
  }

  lemma PoppedAll(g: Geometry, v: View, n: nat)
    requires n <= |v.queue|
    ensures Popped(g, v, n).All() == v.All()
    ensures Popped(g, v, n).live == v.live
  {
  }

  lemma PoppedOnward(g: Geometry, v: View, n: nat)
    requires n <= |v.queue|
    ensures Popped(g, v, 0) == v
    ensures n < |v.queue| ==> Popped(g, Popped(g, v, n), 1) == Popped(g, v, n + 1)
  {
  }

  lemma DoneFirst(queue: seq<Trans>)
    requires queue != []
    ensures DonePrefix(queue) == if queue[0].Done() then 1 + DonePrefix(queue[1..]) else 0
  {
  }

  lemma InvShape(g: Geometry, v: View)
    requires Inv(g, v)
    ensures |v.queue| <= |v.live| && ValidLog(v.log, g)
  {
  }

  lemma SyncedFields(v: View)
    requires |v.queue| <= |v.live|
    ensures var s := Synced(v);
            s == v.(diskStart := v.start, diskSequence := v.transId, gone := s.gone, live := s.live)
    ensures Synced(v).live == v.live[v.Idle()..]
  {
  }

  /** A transaction without data is done as well. */
  lemma HeadDone(g: Geometry, v: View, t: Trans)
    requires Inv(g, v) && v.queue != [] && t == v.queue[0] && (t.dataCnt == 0 || t.dataCnt == t.writtenCnt)
    ensures t.Done()
  {
    assert HoldsLogged(v.All(), v.queue, 0);
  }

  /** The journal's start is that of the first transaction on the queue. */
  lemma HeadNamed(g: Geometry, v: View, t: Trans)
    requires Inv(g, v) && v.queue != [] && t == v.queue[0]
    ensures v.start == t.startIblock && v.transId == t.id
  {
    assert Placed(g, v.diskStart, v.diskSequence, v.live, v.Idle() + 0, v.queue[0]);
  }
}
