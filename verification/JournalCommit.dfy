/** Committing a transaction: whatever a crash leaves on the disk recovers to exactly the
    transactions committed by then. */
module JournalCommit {
  import opened Words
  import opened JournalFormat
  import opened JournalRecovery
  import opened JournalLayout
  import opened JournalState
  import opened JournalRing
  import opened JournalSession
  import opened JournalCheckpoint
  import opened JournalEvict
  import opened JournalFlush
  import opened JournalSpace
  import opened JournalTags
  import opened JournalSteps
  import opened JournalWriter

  /** Log blocks that a transaction takes. */
  function NeedOf(words: nat, tx: Tx): nat {
    if TagsPerBlock(words) <= 0 || RevokesPerBlock(words) <= 0 then 0
    else DataLen(|tx.writes|, TagsPerBlock(words), 0) + (RevokeLen(|tx.revokes|, RevokesPerBlock(words), 0) + 1)
  }

  /** A transaction logs a block once, and does not revoke what it logs. */
  predicate WellFormed(g: Geometry, size: nat, tx: Tx) {
    && WritesFit(g, size, tx.writes)
    && (forall i, j :: 0 <= i < j < |tx.writes| ==> tx.writes[i].block != tx.writes[j].block)
    && (forall w :: w in tx.writes ==> w.block !in tx.revokes)
  }

  /** A transaction that is to be committed: its buffers, and the blocks it revokes. */
  datatype Todo = Todo(bufs: seq<TransBuf>, revokes: seq<u32>)

  /** What it logs. */
  function TxOf(todo: Todo): Tx { Tx(Dirty(todo.bufs), todo.revokes) }

  /** Its buffers are those of different blocks, all of which it took hold of, and what it logs is
      well-formed. */
  predicate Ready(g: Geometry, size: nat, busy: set<u32>, todo: Todo) {
    && WellFormed(g, size, TxOf(todo)) && NeedOf(g.words, TxOf(todo)) < g.Size()
    && (forall i, j :: 0 <= i < j < |todo.bufs| ==> todo.bufs[i].block != todo.bufs[j].block)
    && forall b :: b in todo.bufs ==> b.block in busy
  }

  /** Blocks that the cache does not write back while the transaction commits. */
  function Keep(busy: set<u32>, todo: Todo): set<u32> { busy - Dropped(todo.bufs, todo.revokes) }

  /** No commit is going on. */
  ghost predicate Quiet(j: Journal)
    reads j
  {
    && j.Valid() && j.entering == [] && j.open == [] && j.reserved == 0
    && j.V().Used() < j.g.Size() && RevokesSettled(j.V().All(), j.cpQueue)
  }

  lemma {:induction false} LastWriteDistinct(ws: seq<Write>, a: u32)
    requires forall i, j :: 0 <= i < j < |ws| ==> ws[i].block != ws[j].block
    ensures forall w :: w in ws && w.block == a ==> LastWrite(ws, a) == Some(w.data)
    ensures LastWrite(ws, a).Some? ==> exists w :: w in ws && w.block == a
  {
    if ws != [] {
      var n := |ws| - 1;
      LastWriteDistinct(ws[..n], a);
      assert ws[n] in ws;
      forall w | w in ws && w.block == a
        ensures LastWrite(ws, a) == Some(w.data)
      {
        if w != ws[n] { assert w in ws[..n]; }
      }
    }
  }

  /** The buffers of the transaction and what it logged. */
  ghost predicate BufsOf(t: Trans, writes: seq<Write>) {
    && |t.bufs| == |writes| == t.dataCnt && t.writtenCnt == 0
    && forall k :: 0 <= k < |writes| ==> t.bufs[k].lba == writes[k].block && t.bufs[k].data == writes[k].data
  }

  lemma {:induction false} BufsLogged(t: Trans, writes: seq<Write>)
    requires BufsOf(t, writes)
    requires forall i, j :: 0 <= i < j < |writes| ==> writes[i].block != writes[j].block
    ensures t.Valid()
    ensures forall b :: b in t.bufs ==> LastWrite(writes, b.lba) == Some(b.data)
    ensures forall a :: LastWrite(writes, a).Some? ==> a in t.Pending()
    ensures forall a :: a in t.Pending() ==> exists w :: w in writes && w.block == a
  {
    hide LastWrite;
    forall b | b in t.bufs
      ensures LastWrite(writes, b.lba) == Some(b.data)
      ensures exists w :: w in writes && w.block == b.lba
    {
      LastWriteDistinct(writes, b.lba);
      var k :| 0 <= k < |t.bufs| && t.bufs[k] == b;
      assert writes[k] in writes;
    }
    forall a | LastWrite(writes, a).Some?
      ensures a in t.Pending()
    {
      LastWriteDistinct(writes, a);
      var w :| w in writes && w.block == a;
      var k :| 0 <= k < |writes| && writes[k] == w;
      assert t.bufs[k] in t.bufs;
    }
  }

  /** All that comes before the commit block is in the log. */
  lemma ReadyToCommit(g: Geometry, v: View, t: Trans, tx: Tx, b': Block)
    requires Inv(g, v) && v.Used() < g.Size() && v.reserved == 1 && g.Valid() && |b'| == g.words
    requires g.Inside(t.startIblock) && v.last == g.Adv(t.startIblock, t.allocBlocks)
    requires t.allocBlocks == TotalLen(v.open) + 1 && t.id == v.allocTransId
    requires Txs(v.open + [Commit], EMPTY_TX) == [tx] && BufsOf(t, tx.writes) && WellFormed(g, |v.home|, tx)
    requires forall b :: b in t.bufs ==>
               && g.Inside(b.jbdLba) && Dist(g, t.startIblock, b.jbdLba) < t.allocBlocks - 1
               && |b.data| == g.words && v.log[b.jbdLba] == Escaped(b.data)
    ensures Prepared(g, v, tx, t)
    ensures ValidLog(v.log[g.Adv(v.diskStart, v.Used() - 1) := b'], g)
    ensures Copies(g, v.log[g.Adv(v.diskStart, v.Used() - 1) := b'], v.home, t)
  {
    hide HomeInv, QueuePending, QueueOk, Holds, Flat, TotalLen, LenOf, LastWrite, Txs, Escaped, Trans.Valid,
        Trans.Pending;
    UsedIs(v);
    BufsLogged(t, tx.writes);
    var log' := v.log[g.Adv(v.diskStart, v.Used() - 1) := b'];
    forall b | b in t.bufs
      ensures 0 < b.lba < |v.home| && log'[b.jbdLba] == v.log[b.jbdLba]
    {
      var k :| 0 <= k < |t.bufs| && t.bufs[k] == b;
      assert tx.writes[k] in tx.writes;
    }
  }

  lemma RevokeDone(g: Geometry, log: seq<Block>, last: nat, open: seq<Item>, reserved: nat, t: Trans, tx: Tx)
    requires ValidLog(log, g)
    requires Revoking(g, log, last, open, reserved, t, 0, [], [], tx.writes, tx.revokes, |tx.revokes|)
    ensures InFlight(g, log, last, t, 0) && t.allocBlocks == TotalLen(open) && reserved == 0
    ensures Commits(open) == 0 && Txs(open + [Commit], EMPTY_TX) == [tx]
  {
    assert tx.revokes[..|tx.revokes|] == tx.revokes;
  }

  lemma StillSettled(all: seq<Tx>, queue: seq<Trans>, queue': seq<Trans>)
    requires |queue| <= |all| && |queue'| <= |all| && RevokesSettled(all, queue)
    requires AllPending(queue') <= AllPending(queue)
    ensures RevokesSettled(all, queue')
  {
    if queue == [] {
      assert AllPending(queue) == {};
    }
  }

  /** What the session is once it is written. */
  lemma Committed(g: Geometry, v: View, t: Trans, tx: Tx, p: nat, b: Block)
    requires Inv(g, v) && g.Valid() && v.Used() < g.Size() && v.reserved == 1 && g.Inside(p) && v.last == g.Inc(p)
    requires g.Inside(t.startIblock) && v.last == g.Adv(t.startIblock, t.allocBlocks)
    requires t.allocBlocks == TotalLen(v.open) + 1 && t.id == v.allocTransId && p < |v.log|
    requires forall b :: b in t.bufs ==>
               && g.Inside(b.jbdLba) && b.jbdLba < |v.log| && Dist(g, t.startIblock, b.jbdLba) < t.allocBlocks - 1
               && |b.data| == g.words && v.log[b.jbdLba] == Escaped(b.data)
    requires Txs(v.open + [Commit], EMPTY_TX) == [tx] && BufsOf(t, tx.writes) && WellFormed(g, |v.home|, tx)
    requires |v.queue| <= |v.All()| && RevokesSettled(v.All(), v.queue)
    requires |b| == g.words > 2 && b[0] == MAGIC && b[1] == COMMIT_BLOCK && b[2] == t.id
    ensures var v' := v.(log := v.log[p := b], open := [], reserved := 0,
                         live := v.live + [Logged(tx, v.open + [Commit])],
                         queue := v.queue + [t], allocTransId := Succ(v.allocTransId));
            Inv(g, v') && v'.All() == v.All() + [tx] && v'.Used() == v.Used()
  {
    hide Inv, LenOf, TxsOf, View.All, View.Used, TotalLen, Txs, WellFormed, Copies, Prepared, RevokesSettled, BufsOf,
        ValidLog;
    InvLog(g, v);
    PlaceOfLast(g, v, p);
    ReadyToCommit(g, v, t, tx, b);
    CommitDone(g, v, b, tx, t);
  }

  /** The commit block reaches the log: from here on the transaction counts as committed. */
  method LogCommit(j: Journal, p: nat, t: Trans, ghost tx: Tx)
    requires j.Valid() && j.g.Valid() && j.entering == [] && j.V().Used() < j.g.Size() && j.reserved == 1
    requires j.g.Inside(p) && p < |j.log| && j.last == j.g.Inc(p)
    requires j.g.Inside(t.startIblock) && j.last == j.g.Adv(t.startIblock, t.allocBlocks)
    requires t.allocBlocks == TotalLen(j.open) + 1 && t.id == j.allocTransId
    requires forall b :: b in t.bufs ==>
               && j.g.Inside(b.jbdLba) && b.jbdLba < |j.log| && Dist(j.g, t.startIblock, b.jbdLba) < t.allocBlocks - 1
               && |b.data| == j.g.words && j.log[b.jbdLba] == Escaped(b.data)
    requires Txs(j.open + [Commit], EMPTY_TX) == [tx] && BufsOf(t, tx.writes) && WellFormed(j.g, |j.home|, tx)
    requires |j.cpQueue| <= |j.V().All()| && RevokesSettled(j.V().All(), j.cpQueue)
    modifies j`log, j`allocTransId, j`live, j`open, j`reserved, j`entering, j`images
    ensures j.Valid() && j.open == [] && j.reserved == 0 && j.entering == [t] && j.V().Used() < j.g.Size()
    ensures j.V().All() == old(j.V().All()) + [tx]
    ensures j.images == old(j.images) + [j.V()]
    ensures j.cpQueue == old(j.cpQueue) && j.home == old(j.home) && j.busy == old(j.busy) && j.plan == old(j.plan)
    ensures Current(j.V()) <==> old(Current(j.V()))
  {
    hide Inv, Consistent, LenOf, AllPending, TxsOf, View.All, View.Used, TotalLen, Txs, WellFormed, Prepared,
        RevokesSettled, BufsOf, AllReached, Trans.Pending;
    ghost var v := j.V();
    var b := NoRead(j.g.words);
    b := b[0 := MAGIC][1 := COMMIT_BLOCK][2 := t.id];
    assert v.queue == j.cpQueue;
    Committed(j.g, v, t, tx, p, b);
    j.log := j.log[p := b];
    j.allocTransId := Succ(j.allocTransId);
    j.live, j.open, j.reserved, j.entering := j.live + [Logged(tx, j.open + [Commit])], [], 0, [t];
    assert j.V() == v.(log := j.log, open := [], reserved := 0, live := j.live, queue := v.queue + [t],
                       allocTransId := j.allocTransId);
    j.Snapshot();
  }

  /** The transaction with its commit block. */
  lemma CommitPlaced(g: Geometry, log: seq<Block>, last: nat, t: Trans)
    requires ValidLog(log, g) && InFlight(g, log, last, t, 0) && t.allocBlocks > 0 && t.allocBlocks + 1 < g.Size()
    ensures g.Inside(last) && last < |log|
    ensures var t' := Took(t, last);
            && g.Inside(t'.startIblock) && g.Inc(last) == g.Adv(t'.startIblock, t'.allocBlocks)
            && forall b :: b in t'.bufs ==>
                 && g.Inside(b.jbdLba) && b.jbdLba < |log| && Dist(g, t'.startIblock, b.jbdLba) < t'.allocBlocks - 1
                 && |b.data| == g.words && log[b.jbdLba] == Escaped(b.data)
  {
  }

  /** Everything of the transaction that commits is in the log, but for the commit block. */
  ghost predicate AllLogged(j: Journal, t: Trans, tx: Tx)
    reads j
  {
    && ValidLog(j.log, j.g) && InFlight(j.g, j.log, j.last, t, 0) && t.allocBlocks == TotalLen(j.open) > 0
    && j.reserved == 0 && Txs(j.open + [Commit], EMPTY_TX) == [tx] && t.id == j.allocTransId
    && BufsOf(t, tx.writes) && t.revokes == tx.revokes
  }

  /** New disk images show the transactions of before or those of now. */
  twostate predicate Atomically(j: Journal)
    reads j
  {
    && old(j.images) <= j.images
    && forall i :: |old(j.images)| <= i < |j.images| ==>
         j.images[i].All() == old(j.V().All()) || j.images[i].All() == j.V().All()
  }

  /** `jbd_trans_write_commit_block`. */
  method WriteCommitBlock(j: Journal, t0: Trans, ghost tx: Tx, ghost busy: set<u32>, ghost m: Mode)
    returns (t: Trans, ok: bool)
    requires j.Valid() && j.g.Valid() && j.entering == [] && Plain(j.cpQueue, j.busy)
    requires AllLogged(j, t0, tx) && On(j, busy, m, 1) && WellFormed(j.g, |j.home|, tx)
    requires |j.cpQueue| <= |j.V().All()| && RevokesSettled(j.V().All(), j.cpQueue)
    modifies j
    ensures j.Valid() && |j.home| == old(|j.home|) && j.busy == old(j.busy) && Plain(j.cpQueue, j.busy)
    ensures !ok ==> Halted(j, busy, m) && j.entering == [] && j.V().All() == old(j.V().All())
    ensures ok ==> (m.calm ==> m.room) && Ran(j.g, j.stages, j.plan, RingOf(j), busy, m, 0)
    ensures ok ==>
              && j.open == [] && j.reserved == 0 && j.entering == [t] && j.V().Used() < j.g.Size()
              && j.V().All() == old(j.V().All()) + [tx]
              && BufsOf(t, tx.writes) && t.revokes == tx.revokes && t.allocBlocks == m.total
    ensures Atomically(j) && Restful(j, m)
  {
    hide Inv, Consistent, LenOf, AllPending, TxsOf, View.All, View.Used, Tracks, Ran, Plain, ValidLog, TotalLen, Txs,
        WellFormed, InFlight, RevokesSettled, Halted;
    ghost var q0 := j.cpQueue;
    AllocOf(j.g, j.V(), j.plan, busy, m, 1, t0.allocBlocks);
    var p;
    t := t0;
    p, ok := AllocBlock(j, busy, m, 0);
    if !ok { return; }
    AllocOf(j.g, j.V(), j.plan, busy, m, 0, t0.allocBlocks + 1);
    CommitPlaced(j.g, j.log, p, t0);
    t := Took(t0, p);
    assert j.V().queue == j.cpQueue;
    QueueValid(j.g, j.V());
    StillSettled(j.V().All(), q0, j.cpQueue);
    LogCommit(j, p, t, tx);
  }

  // ----- What was revoked need not be written home

  lemma {:induction false} RevokedUpToDate(home: seq<Block>, all: seq<Tx>, a: u32)
    requires all != [] && a in all[|all| - 1].revokes
    ensures UpToDate(home, all, a)
  {
    hide LastWrite;
    LastEventUnique(all, a, |all| - 1);
  }

  /** After the owner's write of a block ended nobody has it pending. */
  lemma NobodyPending(queue: seq<Trans>, a: u32, n: nat)
    requires (forall t :: t in queue ==> t.Valid()) && Owner(queue, a) >= 0 && n <= |queue|
    ensures a !in AllPending(EndUpTo(queue, Owner(queue, a) + 1, a)[n..])
  {
    hide Trans.Ended, Owner, Trans.Valid;
    var q := EndUpTo(queue, Owner(queue, a) + 1, a);
    forall i | 0 <= i < |q|
      ensures a !in q[i].Pending()
    {
      assert queue[i] in queue;
      EndedKeeps(queue[i], a);
    }
    TailPending(q, n);
    NotPending(q, a);
  }

  lemma NotPending(queue: seq<Trans>, a: u32)
    requires forall i :: 0 <= i < |queue| ==> a !in queue[i].Pending()
    ensures a !in AllPending(queue)
  {
    forall i, b | 0 <= i < |queue| && b in queue[i].bufs
      ensures b.lba != a
    {
      assert b.lba in queue[i].Pending();
    }
  }

  lemma OwnerNone(queue: seq<Trans>, a: u32)
    requires Owner(queue, a) < 0
    ensures a !in AllPending(queue)
  {
    hide Owner, Trans.Pending;
    NotPending(queue, a);
  }

  /** The loop of `__jbd_journal_commit_trans` over the revoked blocks. */
  method SettleRevokes(j: Journal, revokes: seq<u32>)
    requires j.Valid() && Plain(j.cpQueue, j.busy)
    requires j.V().All() != [] && j.V().All()[|j.V().All()| - 1].revokes == revokes
    modifies j
    ensures j.Valid() && j.OnlyCheckpoint() && Plain(j.cpQueue, j.busy)
    ensures forall a :: a in revokes ==> a !in AllPending(j.cpQueue)
    ensures j.cpQueue == AfterAll(old(j.cpQueue), {}, revokes) && j.home == old(j.home)
    ensures revokes == [] ==> j.V() == old(j.V())
  {
    hide Inv, Consistent, LenOf, AllPending, TxsOf, View.All, Plain, Owner, EndUpTo, Leaving, UpToDate, LastEvent,
        AfterOne;
    var i := 0;
    assert revokes[0..] == revokes;
    while i < |revokes|
      invariant i <= |revokes| && j.Valid() && j.OnlyCheckpoint() && Plain(j.cpQueue, j.busy)
      invariant forall a :: a in revokes[..i] ==> a !in AllPending(j.cpQueue)
      invariant AfterAll(j.cpQueue, {}, revokes[i..]) == AfterAll(old(j.cpQueue), {}, revokes)
      invariant j.home == old(j.home) && (i == 0 ==> j.V() == old(j.V()))
    {
      var a := revokes[i];
      SettleOne(j, a);
      assert revokes[..i + 1] == revokes[..i] + [a];
      assert revokes[i..][0] == a && revokes[i..][1..] == revokes[i + 1..];
      i := i + 1;
    }
    assert revokes[..i] == revokes && revokes[i..] == [];
  }

  /** One of them: the write of the block by the last transaction that has it pending is void. */
  method SettleOne(j: Journal, a: u32)
    requires j.Valid() && Plain(j.cpQueue, j.busy)
    requires j.V().All() != [] && a in j.V().All()[|j.V().All()| - 1].revokes
    modifies j
    ensures j.Valid() && j.OnlyCheckpoint() && Plain(j.cpQueue, j.busy)
    ensures a !in AllPending(j.cpQueue) && j.cpQueue == AfterOne(old(j.cpQueue), {}, a) && j.home == old(j.home)
  {
    hide Inv, Consistent, LenOf, AllPending, TxsOf, View.All, Plain, Owner, EndUpTo, Leaving, UpToDate, LastEvent;
    var o := Owner(j.cpQueue, a);
    ghost var q := j.cpQueue;
    if o >= 0 {
      CpQueueValid(j);
      RevokedUpToDate(j.home, j.V().All(), a);
      j.EndWrite(o, a);
      PlainAfter(q, j.busy, o + 1, a, Leaving(q, o, a));
      NobodyPending(q, a, Leaving(q, o, a));
    } else {
      OwnerNone(q, a);
    }
  }

  lemma CpQueueValid(j: Journal)
    requires j.Valid()
    ensures forall t :: t in j.cpQueue ==> t.Valid()
    ensures |j.V().queue| <= |j.V().All()|
  {
    QueueValid(j.g, j.V());
    assert forall t :: t in j.cpQueue ==> t in j.V().queue;
  }

  // ----- The commit as a whole

  /** A transaction with data becomes the first on the checkpoint queue: the superblock names it. */
  method EnqueueFirst(j: Journal, t: Trans)
    requires j.Valid() && j.entering == [t] && j.cpQueue == []
    modifies j
    ensures j.Valid() && j.entering == [] && LenOf(j.live) <= old(LenOf(j.live))
    ensures j.log == old(j.log) && |j.home| == old(|j.home|) && j.busy == old(j.busy)
    ensures j.open == old(j.open) && j.reserved == old(j.reserved) && j.V().All() == old(j.V().All())
    ensures j.cpQueue == [t] && Current(j.V()) && Atomically(j) && j.home == old(j.home)
  {
    hide Inv, Consistent, LenOf, AllPending, TxsOf, View.All, Synced;
    ghost var v := j.V();
    assert v.queue == [t];
    HeadNamed(j.g, v, t);
    j.start, j.transId := t.startIblock, t.id;
    j.JournalWriteSb();
    assert j.V() == v;
    j.WriteSb();
    ghost var w := j.V();
    j.cpQueue, j.entering := [t], [];
    assert j.V().queue == [t] + [] == w.queue;
    assert j.V() == w;
  }

  /** One that only revokes is skipped when it would be the first, in memory. */
  method SkipFirst(j: Journal, t: Trans)
    requires j.Valid() && j.entering == [t] && j.cpQueue == [] && t.Done()
    modifies j
    ensures j.Valid() && j.entering == [] && LenOf(j.live) <= old(LenOf(j.live))
    ensures j.log == old(j.log) && |j.home| == old(|j.home|) && j.busy == old(j.busy)
    ensures j.open == old(j.open) && j.reserved == old(j.reserved) && j.V().All() == old(j.V().All())
    ensures j.cpQueue == [] && j.images == old(j.images) && j.home == old(j.home)
  {
    hide Inv, Consistent, LenOf, AllPending, TxsOf, View.All, Popped;
    ghost var v := j.V();
    assert v.queue == [t];
    PoppedKeeps(j.g, v, 1);
    PoppedAll(j.g, v, 1);
    PoppedOne(j.g, v, t);
    j.start, j.transId := j.g.Adv(t.startIblock, t.allocBlocks), Succ(t.id);
    j.entering := [];
    assert j.V() == Popped(j.g, v, 1);
    j.JournalWriteSb();
  }

  /** The committed transaction goes to the end of the checkpoint queue. */
  method Enqueue(j: Journal, t: Trans, ghost tx: Tx)
    requires j.Valid() && j.entering == [t] && BufsOf(t, tx.writes) && t.revokes == tx.revokes
    requires WellFormed(j.g, |j.home|, tx) && j.V().All() != [] && j.V().All()[|j.V().All()| - 1] == tx
    requires forall a :: a in t.revokes ==> a !in AllPending(j.cpQueue)
    modifies j
    ensures j.Valid() && j.entering == [] && LenOf(j.live) <= old(LenOf(j.live))
    ensures j.log == old(j.log) && |j.home| == old(|j.home|) && j.busy == old(j.busy)
    ensures j.open == old(j.open) && j.reserved == old(j.reserved) && j.V().All() == old(j.V().All())
    ensures j.cpQueue == if old(j.cpQueue) == [] && tx.writes == [] then [] else old(j.cpQueue) + [t]
    ensures |j.cpQueue| <= |j.V().All()| && RevokesSettled(j.V().All(), j.cpQueue)
    ensures Atomically(j) && j.home == old(j.home)
    ensures tx.writes != [] && (old(j.cpQueue) == [] || old(Current(j.V()))) ==> Current(j.V())
  {
    hide Inv, Consistent, LenOf, AllPending, TxsOf, View.All, RevokesSettled, WellFormed, BufsOf;
    ghost var v := j.V();
    TransDone(t, tx.writes);
    CpQueueValid(j);
    SettledNow(v.All(), j.cpQueue, t, tx);
    if j.cpQueue == [] {
      if t.dataCnt > 0 {
        EnqueueFirst(j, t);
      } else {
        SkipFirst(j, t);
      }
      assert [] + [t] == [t];
    } else {
      assert v.queue == j.cpQueue + [t];
      j.cpQueue, j.entering := j.cpQueue + [t], [];
      assert j.cpQueue + [] == j.cpQueue;
      SameAll(v, j.V());
    }
  }

  lemma TransDone(t: Trans, writes: seq<Write>)
    requires BufsOf(t, writes)
    ensures (t.dataCnt == 0 <==> writes == []) && (t.dataCnt == 0 ==> t.Done())
  {
  }

  lemma PoppedOne(g: Geometry, v: View, t: Trans)
    requires v.queue == [t]
    ensures Popped(g, v, 1) == v.(queue := [], start := g.Adv(t.startIblock, t.allocBlocks), transId := Succ(t.id))
  {
  }

  lemma SettledNow(all: seq<Tx>, queue: seq<Trans>, t: Trans, tx: Tx)
    requires |queue| < |all| && all[|all| - 1] == tx
    requires exists g, size :: WellFormed(g, size, tx)
    requires BufsOf(t, tx.writes) && forall a :: a in tx.revokes ==> a !in AllPending(queue)
    ensures RevokesSettled(all, queue + [t]) && RevokesSettled(all, [])
  {
    var q := queue + [t];
    forall a | a in tx.revokes
      ensures a !in AllPending(q)
    {
      forall i | 0 <= i < |q|
        ensures a !in q[i].Pending()
      {
        if i < |queue| {
          PendingIsPending(queue, i, a);
        } else {
          forall b | b in t.bufs
            ensures b.lba != a
          {
            var k :| 0 <= k < |t.bufs| && t.bufs[k] == b;
            assert tx.writes[k] in tx.writes;
          }
        }
      }
      NotPending(q, a);
    }
  }

  /** The room in front of what the superblock on disk names shows in the fields. */
  lemma RoomIsSeen(j: Journal, need: nat)
    requires Quiet(j)
    ensures Fits(j.g, j.V(), need) <==> Dist(j.g, j.diskStart, j.last) + need < j.g.Size()
  {
    hide HomeInv, QueuePending, QueueOk, LogInv, Traced, Flat, LenOf;
    assert j.V().queue == j.cpQueue;
    assert TotalLen([]) == 0;
    UsedIs(j.V());
  }

  lemma NotEmpty(open: seq<Item>, tx: Tx)
    requires Txs(open + [Commit], EMPTY_TX) == [tx]
    ensures tx != EMPTY_TX ==> TotalLen(open) > 0
  {
    if open == [] {
      assert open + [Commit] == [Commit] && [Commit][1..] == [];
      assert Txs([Commit], EMPTY_TX) == [EMPTY_TX];
      assert tx == [tx][0] == EMPTY_TX;
    }
  }

  function Blocks(writes: seq<Write>): set<u32> { set w | w in writes :: w.block }

  lemma PlainNow(queue: seq<Trans>, busy: set<u32>, t: Trans, tx: Tx)
    requires Plain(queue, busy) && BufsOf(t, tx.writes)
    ensures Plain(queue + [t], busy - Blocks(tx.writes)) && Plain([], busy - Blocks(tx.writes))
  {
    forall b | b in t.bufs
      ensures b.lba in Blocks(tx.writes)
    {
      var k :| 0 <= k < |t.bufs| && t.bufs[k] == b;
      assert tx.writes[k] in tx.writes;
    }
  }

  /** What `jbd_journal_prepare` and `jbd_journal_prepare_revoke` put into the log. */
  method LogRecords(j: Journal, uuid: seq<u32>, todo: Todo, ghost m: Mode) returns (t: Trans, ok: bool)
    requires Quiet(j) && j.g.Valid() && |uuid| == UUID_WORDS && Plain(j.cpQueue, j.busy)
    requires Ready(j.g, |j.home|, j.busy, todo) && TxOf(todo) != EMPTY_TX
    requires On(j, Keep(j.busy, todo), m, NeedOf(j.g.words, TxOf(todo)))
    modifies j
    ensures j.Valid() && j.Ongoing() && Plain(j.cpQueue, j.busy) && Restful(j, m)
    ensures !ok ==> Halted(j, old(Keep(j.busy, todo)), m)
    ensures ok ==> AllLogged(j, t, TxOf(todo)) && On(j, old(Keep(j.busy, todo)), m, 1)
    ensures ok ==> j.busy == old(Keep(j.busy, todo))
  {
    hide Inv, Consistent, LenOf, AllPending, TxsOf, View.All, View.Used, Tracks, Ran, Plain, ValidLog, TotalLen, Txs,
        InFlight, Preparing, Revoking, RevokesSettled, DataLen, RevokeLen, BufsOf, WellFormed, Halted, Dirty, Dropped;
    ghost var tx, keep := TxOf(todo), Keep(j.busy, todo);
    WellFormedFits(j.g, |j.home|, tx);
    PerBlocks(j.g);
    t := Trans(j.allocTransId, 0, 0, |todo.bufs|, 0, [], todo.revokes);
    t, ok := Prepare(j, t, uuid, todo.bufs, todo.revokes, keep, m,
                     RevokeLen(|tx.revokes|, RevokesPerBlock(j.g.words), 0) + 1);
    if !ok { return; }
    PreparedBufs(j.g, j.log, j.last, j.open, j.reserved, t, tx.writes);
    RevokeBegin(j.g, j.log, j.last, j.open, j.reserved, t, 0, [], 0, [], [], tx.writes, [], tx.revokes);
    ghost var t0 := t;
    t, ok := PrepareRevoke(j, t, tx.writes, todo.revokes, keep, m, 1);
    if !ok { return; }
    BufsSame(t0, t, tx.writes);
    RevokeDone(j.g, j.log, j.last, j.open, j.reserved, t, tx);
    NotEmpty(j.open, tx);
  }

  lemma PerBlocks(g: Geometry)
    requires g.Valid()
    ensures TagsPerBlock(g.words) > 0 && RevokesPerBlock(g.words) > 0
  {
  }

  lemma BufsSame(t: Trans, t': Trans, writes: seq<Write>)
    requires BufsOf(t, writes) && t'.bufs == t.bufs && t'.dataCnt == t.dataCnt && t'.writtenCnt == t.writtenCnt
    ensures BufsOf(t', writes)
  {
  }

  lemma WellFormedFits(g: Geometry, size: nat, tx: Tx)
    requires WellFormed(g, size, tx)
    ensures WritesFit(g, size, tx.writes)
  {
  }

  lemma PreparedBufs(g: Geometry, log: seq<Block>, last: nat, open: seq<Item>, reserved: nat, t: Trans,
                     writes: seq<Write>)
    requires ValidLog(log, g) && t.dataCnt == |writes| && t.writtenCnt == 0
    requires Preparing(g, log, last, open, reserved, t, 0, [], 0, [], [], writes, |writes|)
    ensures BufsOf(t, writes)
  {
    hide Txs, Commits, TotalLen, InFlight, Filling;
  }

  /** After a commit: the transaction on the queue, with the blocks it takes. */
  ghost predicate Queued(queue0: seq<Trans>, queue: seq<Trans>, writes: seq<Write>, need: nat) {
    && |queue| == |queue0| + 1 && queue[..|queue0|] == queue0
    && BufsOf(queue[|queue0|], writes) && queue[|queue0|].allocBlocks == need
  }

  /** What comes of the checkpoint queue and the home blocks: as many log blocks as the transaction needs
      were taken, each time with what the cache writes back then; what it revoked is not written home
      any more; and it is on the queue, unless it would be the first and has nothing to write home. */
  ghost predicate Settles(g: Geometry, r: Ring, plan: seq<seq<u32>>, stages: seq<set<u32>>, busy: set<u32>, todo: Todo,
                          queue: seq<Trans>, home: seq<Block>)
  {
    var end := TakenAll(g, r, stages, plan);
    var q := AfterAll(end.queue, {}, todo.revokes);
    && |stages| == NeedOf(g.words, TxOf(todo)) && Held(stages, Keep(busy, todo), busy) && home == end.home
    && if q == [] && Dirty(todo.bufs) == [] then queue == [] else Queued(q, queue, Dirty(todo.bufs), |stages|)
  }

  /** What comes of them if the commit jams the ring before. */
  ghost predicate StopsShort(g: Geometry, r: Ring, plan: seq<seq<u32>>, stages: seq<set<u32>>, busy: set<u32>,
                             todo: Todo, r': Ring)
  {
    && |stages| < NeedOf(g.words, TxOf(todo)) && Held(stages, Keep(busy, todo), busy)
    && r' == JammedAt(g, TakenAll(g, r, stages, plan))
  }

  /** `__jbd_journal_commit_trans`: afterwards `tx` is the last of the committed transactions,
      and every state the disk went through recovers to those of before or to those of now. It
      comes to that, whatever the cache writes back meanwhile, if there is room in front of what
      the superblock on disk names, or that is up to date, the first transaction on the queue is
      not finished, and the queue is safe. If the cache writes nothing back, it comes to that
      exactly if there is room, or the superblock is up to date and the first transaction is not
      finished; else the ring jams. */
  method CommitTrans(j: Journal, uuid: seq<u32>, todo: Todo) returns (jam: bool, ghost stages: seq<set<u32>>)
    requires Quiet(j) && j.g.Valid() && |uuid| == UUID_WORDS && Plain(j.cpQueue, j.busy)
    requires Ready(j.g, |j.home|, j.busy, todo)
    modifies j
    ensures j.Valid() && |j.home| == old(|j.home|) && Atomically(j) && j.entering == []
    ensures !jam ==> Quiet(j) && Plain(j.cpQueue, j.busy)
    ensures !jam ==>
              j.V().All() == if TxOf(todo) == EMPTY_TX then old(j.V().All()) else old(j.V().All()) + [TxOf(todo)]
    ensures jam ==> Jammed(j.g, j.V()) && j.V().All() == old(j.V().All())
    ensures var need := NeedOf(j.g.words, TxOf(todo));
            && (old(Roomy(j.g, j.V(), Safe(j.cpQueue, Keep(j.busy, todo)), need)) ==> !jam)
            && (old(j.plan) == [] ==> (jam <==> TxOf(todo) != EMPTY_TX && !old(Roomy(j.g, j.V(), true, need))))
            && (old(j.plan) == [] && old(Fits(j.g, j.V(), need)) && todo.revokes == [] && Dirty(todo.bufs) != [] ==>
                  && Queued(old(j.cpQueue), j.cpQueue, Dirty(todo.bufs), need) && j.home == old(j.home)
                  && (old(j.cpQueue) == [] || old(Current(j.V())) ==> Current(j.V())))
    ensures TxOf(todo) == EMPTY_TX ==> j.V() == old(j.V())
    ensures !jam && TxOf(todo) != EMPTY_TX ==>
              Settles(j.g, old(RingOf(j)), old(j.plan), stages, old(j.busy), todo, j.cpQueue, j.home)
    ensures jam ==> StopsShort(j.g, old(RingOf(j)), old(j.plan), stages, old(j.busy), todo, RingOf(j))
    ensures jam && old(j.plan) == [] ==> j.home == old(j.home)
    ensures !jam ==> j.busy == old(j.busy - Released(todo))
  {
    hide Inv, Consistent, LenOf, AllPending, TxsOf, View.All, View.Used, Tracks, Ran, Plain, NeedOf, WellFormed,
        RevokesSettled, BufsOf, Safe, Roomy, Fits, Halted, Jammed, Dirty, Dropped, Blocks, AllReached, Released,
        Current, Settles, StopsShort, Queued;
    stages := [];
    var tx := TxOf(todo);
    ghost var need := NeedOf(j.g.words, tx);
    ghost var q0, all, keep := j.cpQueue, j.V().All(), Keep(j.busy, todo);
    CpQueueValid(j);
    assert j.V().queue == q0;
    if tx == EMPTY_TX {
      jam := DropOnly(j, todo);
      return;
    }
    ghost var v, r, plan := j.V(), RingOf(j), j.plan;
    j.stages := [];
    assert j.V() == v;
    ghost var room := Roomy(j.g, v, plan == [] || Safe(q0, keep), need);
    ghost var m := Mode(need, room, Fits(j.g, v, need), plan == [], r, plan, j.busy);
    ModeBegins(j.g, v, plan, keep, m);
    jam, stages := CommitRecords(j, uuid, todo, m);
    if jam { HaltedIs(j, keep, m, todo); }
  }

  /** All of a transaction that has something to log reaches the log. */
  method LogTrans(j: Journal, uuid: seq<u32>, todo: Todo, ghost m: Mode) returns (t: Trans, ok: bool)
    requires Quiet(j) && j.g.Valid() && |uuid| == UUID_WORDS && Plain(j.cpQueue, j.busy)
    requires Ready(j.g, |j.home|, j.busy, todo) && TxOf(todo) != EMPTY_TX
    requires m.total == NeedOf(j.g.words, TxOf(todo)) && On(j, Keep(j.busy, todo), m, m.total)
    modifies j
    ensures j.Valid() && |j.home| == old(|j.home|) && Atomically(j) && Plain(j.cpQueue, j.busy) && Restful(j, m)
    ensures !ok ==>
              Halted(j, old(Keep(j.busy, todo)), m) && j.entering == [] && j.V().All() == old(j.V().All())
    ensures ok ==>
              && j.open == [] && j.reserved == 0 && j.entering == [t] && j.V().Used() < j.g.Size()
              && j.V().All() == old(j.V().All()) + [TxOf(todo)] && j.busy == old(Keep(j.busy, todo))
              && BufsOf(t, Dirty(todo.bufs)) && t.revokes == todo.revokes && t.allocBlocks == m.total
              && (m.calm ==> m.room) && Ran(j.g, j.stages, j.plan, RingOf(j), old(Keep(j.busy, todo)), m, 0)
  {
    hide Inv, Consistent, LenOf, AllPending, TxsOf, View.All, View.Used, Tracks, Ran, Plain, NeedOf, WellFormed,
        RevokesSettled, BufsOf, Halted, Dirty, Dropped, AllReached, Current;
    ghost var q0, all, keep := j.cpQueue, j.V().All(), Keep(j.busy, todo);
    CpQueueValid(j);
    assert j.V().queue == q0;
    t, ok := LogRecords(j, uuid, todo, m);
    if !ok { return; }
    CpQueueValid(j);
    assert j.V().queue == j.cpQueue;
    StillSettled(all, q0, j.cpQueue);
    t, ok := WriteCommitBlock(j, t, TxOf(todo), keep, m);
  }

  /** The commit of a transaction that has something to log. */
  method CommitRecords(j: Journal, uuid: seq<u32>, todo: Todo, ghost m: Mode)
    returns (jam: bool, ghost stages: seq<set<u32>>)
    requires Quiet(j) && j.g.Valid() && |uuid| == UUID_WORDS && Plain(j.cpQueue, j.busy)
    requires Ready(j.g, |j.home|, j.busy, todo) && TxOf(todo) != EMPTY_TX && m.held == j.busy
    requires m.total == NeedOf(j.g.words, TxOf(todo)) && On(j, Keep(j.busy, todo), m, m.total)
    modifies j
    ensures j.Valid() && |j.home| == old(|j.home|) && Atomically(j) && j.entering == []
    ensures jam ==> Halted(j, old(Keep(j.busy, todo)), m) && stages == j.stages && j.V().All() == old(j.V().All())
    ensures jam ==> Restful(j, m)
    ensures !jam ==> Quiet(j) && Plain(j.cpQueue, j.busy) && j.V().All() == old(j.V().All()) + [TxOf(todo)]
    ensures !jam ==> j.busy == old(j.busy - Released(todo)) && (m.calm ==> m.room)
    ensures !jam ==> Settles(j.g, m.base, m.plan, stages, m.held, todo, j.cpQueue, j.home)
    ensures !jam && m.calm && m.fits && todo.revokes == [] && Dirty(todo.bufs) != [] ==>
              && Queued(old(j.cpQueue), j.cpQueue, Dirty(todo.bufs), m.total) && j.home == old(j.home)
              && (old(j.cpQueue) == [] || old(Current(j.V())) ==> Current(j.V()))
  {
    hide Inv, Consistent, LenOf, AllPending, TxsOf, View.All, View.Used, Tracks, Ran, Plain, NeedOf, WellFormed,
        RevokesSettled, BufsOf, Halted, Dirty, Dropped, Blocks, AllReached, Released, Current, Settles, Queued, Keep;
    var tx := TxOf(todo);
    var t, ok := LogTrans(j, uuid, todo, m);
    jam, stages := !ok, j.stages;
    if !ok { return; }
    assert j.V().All()[|j.V().All()| - 1] == tx;
    BusyAfter(old(j.busy), todo);
    ghost var end, plan := RingOf(j), j.plan;
    FinishCommit(j, t, tx);
    QueuedIs(end.queue, t, tx.writes, m.total);
    SettlesNow(j.g, m, stages, plan, end, todo, t, j.cpQueue);
  }

  lemma QueuedIs(queue: seq<Trans>, t: Trans, writes: seq<Write>, need: nat)
    requires BufsOf(t, writes) && t.allocBlocks == need
    ensures Queued(queue, queue + [t], writes, need)
  {
    hide BufsOf;
  }

  lemma HaltedIs(j: Journal, keep: set<u32>, m: Mode, todo: Todo)
    requires Halted(j, keep, m) && m.total == NeedOf(j.g.words, TxOf(todo)) && keep == Keep(m.held, todo)
    ensures !m.room && Jammed(j.g, j.V()) && StopsShort(j.g, m.base, m.plan, j.stages, m.held, todo, RingOf(j))
  {
    hide NeedOf, Jammed, Keep, Held, TakenAll, JammedAt;
  }

  lemma SettlesNow(g: Geometry, m: Mode, stages: seq<set<u32>>, plan: seq<seq<u32>>, end: Ring, todo: Todo, t: Trans,
                   queue: seq<Trans>)
    requires Ran(g, stages, plan, end, Keep(m.held, todo), m, 0) && m.total == NeedOf(g.words, TxOf(todo))
    requires BufsOf(t, Dirty(todo.bufs)) && t.allocBlocks == m.total
    requires var q := AfterAll(end.queue, {}, todo.revokes);
             queue == if q == [] && Dirty(todo.bufs) == [] then [] else q + [t]
    ensures Settles(g, m.base, m.plan, stages, m.held, todo, queue, end.home)
  {
    hide NeedOf, Keep, Held, TakenAll, AfterAll, BufsOf, Dirty;
  }

  /** The blocks that a transaction lets go of when it has committed. */
  function Released(todo: Todo): set<u32> { Dropped(todo.bufs, todo.revokes) + Blocks(Dirty(todo.bufs)) }

  lemma BusyAfter(busy: set<u32>, todo: Todo)
    ensures Keep(busy, todo) - Blocks(Dirty(todo.bufs)) == busy - Released(todo)
  {
  }

  lemma ModeBegins(g: Geometry, v: View, plan: seq<seq<u32>>, busy: set<u32>, m: Mode)
    requires v.Used() < g.Size() && v.open == [] && v.reserved == 0 && m.total < g.Size()
    requires m.room == Roomy(g, v, plan == [] || Safe(v.queue, busy), m.total)
    requires m.fits == Fits(g, v, m.total) && m.calm == (plan == [])
    ensures Tracks(g, v, plan, busy, m, m.total)
    ensures m.plan == plan ==> Ran(g, [], plan, m.base, busy, m, m.total)
    ensures Roomy(g, v, Safe(v.queue, busy), m.total) ==> m.room
    ensures (m.calm ==> (m.room <==> Roomy(g, v, true, m.total))) && (m.fits ==> m.room)
  {
    hide Safe, Stuck;
    NothingOpen();
  }

  /** A transaction without a dirty buffer, nor anything to revoke, is not committed. */
  method DropOnly(j: Journal, todo: Todo) returns (jam: bool)
    requires Quiet(j) && Plain(j.cpQueue, j.busy) && TxOf(todo) == EMPTY_TX
    modifies j`busy
    ensures !jam && Quiet(j) && Plain(j.cpQueue, j.busy) && j.V() == old(j.V()) && j.images == old(j.images)
    ensures j.busy == old(j.busy - Released(todo))
  {
    hide Inv, Consistent, LenOf, AllPending, TxsOf, View.All, View.Used, RevokesSettled, Dirty, Dropped;
    ghost var v := j.V();
    PlainLess(j.cpQueue, j.busy, j.busy - Released(todo));
    assert Blocks([]) == {};
    j.busy := j.busy - Dropped(todo.bufs, todo.revokes);
    assert j.V() == v;
    jam := false;
  }

  /** What is left to do once the commit block is written. */
  method FinishCommit(j: Journal, t: Trans, tx: Tx)
    requires j.Valid() && j.entering == [t] && j.open == [] && j.reserved == 0 && j.V().Used() < j.g.Size()
    requires BufsOf(t, tx.writes) && t.revokes == tx.revokes && WellFormed(j.g, |j.home|, tx)
    requires Plain(j.cpQueue, j.busy) && j.V().All() != [] && j.V().All()[|j.V().All()| - 1] == tx
    modifies j
    ensures Quiet(j) && Plain(j.cpQueue, j.busy) && |j.home| == old(|j.home|)
    ensures j.V().All() == old(j.V().All()) && Atomically(j) && j.busy == old(j.busy) - Blocks(tx.writes)
    ensures var q := AfterAll(old(j.cpQueue), {}, tx.revokes);
            j.cpQueue == (if q == [] && tx.writes == [] then [] else q + [t]) && j.home == old(j.home)
    ensures tx.revokes == [] && tx.writes != [] ==>
              && j.cpQueue == old(j.cpQueue) + [t] && j.home == old(j.home)
              && (old(j.cpQueue) == [] || old(Current(j.V())) ==> Current(j.V()))
  {
    hide Inv, Consistent, LenOf, AllPending, TxsOf, View.All, View.Used, Plain, WellFormed, RevokesSettled, BufsOf,
        Blocks;
    ghost var v := j.V();
    SettleRevokes(j, t.revokes);
    ghost var q := j.cpQueue;
    Enqueue(j, t, tx);
    PlainNow(q, j.busy, t, tx);
    UsedIs(v);
    UsedIs(j.V());
    ghost var w := j.V();
    j.busy := j.busy - Blocks(tx.writes);
    assert j.V() == w;
  }
}
