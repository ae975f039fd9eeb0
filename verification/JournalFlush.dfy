/** Writing checkpointed blocks home: by the block cache when it likes, and by the journal
    when it needs room or stops. */
module JournalFlush {
  import opened Words
  import opened JournalFormat
  import opened JournalRecovery
  import opened JournalLayout
  import opened JournalState
  import opened JournalRing
  import opened JournalSession
  import opened JournalCheckpoint
  import opened JournalEvict

  /** The pending buffer of block `a`. */
  function BufOf(bufs: seq<JbdBuf>, a: u32): (b: JbdBuf)
    requires exists b :: b in bufs && b.lba == a
    ensures b in bufs && b.lba == a
  {
    if bufs[0].lba == a then bufs[0] else BufOf(bufs[1..], a)
  }

  /** A pending buffer belongs to a block of the file system and has its copy in the log. */
  lemma PendingBuf(g: Geometry, v: View, i: nat, b: JbdBuf)
    requires Inv(g, v) && i < |v.queue| && b in v.queue[i].bufs
    ensures |v.queue| <= |v.All()| && b.lba in v.queue[i].Pending()
    ensures 0 < b.lba < |v.home| && g.Inside(b.jbdLba) && b.jbdLba < |v.log|
    ensures v.log[b.jbdLba] == Escaped(b.data)
    ensures LastWrite(v.All()[|v.All()| - |v.queue| + i].writes, b.lba) == Some(b.data)
  {
    hide LogInv, LenOf, TotalLen, HomeInv, LastWrite, View.All;
    assert Copies(g, v.log, v.home, v.queue[i]);
    assert HoldsLogged(v.All(), v.queue, i);
  }

  lemma {:induction false} OwnerIs(queue: seq<Trans>, a: u32, i: int)
    requires -1 <= i < |queue| && (i >= 0 ==> a in queue[i].Pending())
    requires forall j :: i < j < |queue| ==> a !in queue[j].Pending()
    ensures Owner(queue, a) == i
  {
  }

  lemma SameAll(v: View, w: View)
    requires v.gone == w.gone && v.live == w.live
    ensures v.All() == w.All()
  {
  }

  /** What the home block of a pending buffer may hold once it counts as written. */
  lemma MayWrite(g: Geometry, v: View, i: nat, b: JbdBuf, data: Block)
    requires Inv(g, v) && i < |v.queue| && b in v.queue[i].bufs && |v.queue| <= |v.All()|
    requires b.lba < |v.home| && (data == b.data || data == Escaped(b.data))
    requires i == Owner(v.queue, b.lba) ==> data == b.data
    requires i != Owner(v.queue, b.lba) ==> i == 0
    ensures Inv(g, v.(home := v.home[b.lba := data]))
    ensures UpToDate(v.home[b.lba := data], v.All(), b.lba) ||
            (i == 0 && LastEvent(v.All(), b.lba) > |v.All()| - |v.queue|)
  {
    hide LogInv, LenOf, TotalLen, HomeInv, LastWrite, LastEvent, View.All, Owner, QueueOk, Named, Trans.Pending, Inv;
    PendingBuf(g, v, i, b);
    var o := Owner(v.queue, b.lba);
    assert o >= i;
    QueueOf(g, v);
    OwnerIsLast(v.All(), v.queue, b.lba);
    HomeWritten(g, v, b.lba, data, |v.All()| - |v.queue| + i);
  }

  lemma QueueOf(g: Geometry, v: View)
    requires Inv(g, v)
    ensures QueuePending(v.All(), v.queue)
  {
  }

  /** Would transaction `i`, on writing block `a`, be left behind at the front of the queue
      with nothing more to write? */
  predicate Sticks(queue: seq<Trans>, i: nat, a: u32)
    requires i < |queue|
  {
    Stuck(EndUpTo(queue, i + 1, a)[Leaving(queue, i, a)..])
  }

  /** `ext4_block_flush_buf` for the cached buffer of a committed block: `b` is what its
      callback is given. */
  method FlushBuf(j: Journal, i: nat, b: JbdBuf)
    requires j.Valid() && j.entering == []
    requires i < |j.cpQueue| && b in j.cpQueue[i].bufs && i == Owner(j.cpQueue, b.lba)
    requires b.lba !in j.busy
    modifies j
    ensures j.Valid() && j.OnlyCheckpoint()
    ensures b.lba < |j.home| && j.home == old(j.home)[b.lba := b.data]
    ensures j.cpQueue == EndUpTo(old(j.cpQueue), i + 1, b.lba)[Leaving(old(j.cpQueue), i, b.lba)..]
    ensures Leaving(old(j.cpQueue), i, b.lba) == 0 ==>
              j.V() == old(j.V()).(home := j.home, queue := j.cpQueue)
    ensures Leaving(old(j.cpQueue), i, b.lba) > 0 ==> Current(j.V())
  {
    hide Inv, Consistent, LenOf, AllPending, TxsOf, View.All, Owner, EndUpTo, Leaving, UpToDate, LastEvent;
    ghost var v := j.V();
    assert v.queue == j.cpQueue;
    PendingBuf(j.g, v, i, b);
    MayWrite(j.g, v, i, b, b.data);
    j.home := j.home[b.lba := b.data];
    assert j.V() == v.(home := j.home);
    SameAll(v, j.V());
    j.Snapshot();
    j.EndWrite(i, b.lba);
    assert j.cpQueue + [] == j.cpQueue;
  }

  /** Transaction `t` after its first `n` buffers were written. */
  function Written(t: Trans, n: nat): Trans
    requires n <= |t.bufs|
  {
    t.(bufs := t.bufs[n..], writtenCnt := t.writtenCnt + n)
  }

  lemma FirstWritten(queue: seq<Trans>, n: nat)
    requires queue != [] && queue[0].Valid() && n < |queue[0].bufs|
    ensures var q := queue[0 := Written(queue[0], n)];
            var a := queue[0].bufs[n].lba;
            && a in q[0].Pending() && queue[0].bufs[n] in q[0].bufs
            && EndUpTo(q, 1, a) == queue[0 := Written(queue[0], n + 1)]
            && Leaving(q, 0, a) == if n + 1 < |queue[0].bufs| then 0 else 1 + DonePrefix(queue[1..])
  {
    var t := queue[0];
    var q := queue[0 := Written(t, n)];
    var a := t.bufs[n].lba;
    assert q[0].bufs[0] == t.bufs[n];
    assert a in q[0].Pending();
    assert q[0].Ended(a) == Written(t, n + 1);
    var q' := EndUpTo(q, 1, a);
    assert q' == queue[0 := Written(t, n + 1)];
    assert q'[1..] == queue[1..];
    DoneFirst(q');
  }

  /** What the log copies of the first transaction's buffers must not be when they are what
      gets written home: their magic word is blanked out. */
  predicate Plain(queue: seq<Trans>, busy: set<u32>) {
    forall i, b :: 0 <= i < |queue| && b in queue[i].bufs && b.lba in busy ==> Escaped(b.data) == b.data
  }

  /** `jbd_journal_flush_trans`: writes home what the first transaction on the queue still
      has pending. A buffer is taken from the cache if no later transaction owns the block,
      and else from the log. */
  method FlushTrans(j: Journal)
    requires j.Valid() && j.entering == [] && j.cpQueue != [] && j.cpQueue[0].bufs != []
    requires Plain(j.cpQueue, j.busy)
    modifies j
    ensures j.Valid() && j.OnlyCheckpoint() && Current(j.V())
    ensures j.cpQueue == old(j.cpQueue)[1 + DonePrefix(old(j.cpQueue)[1..])..]
    ensures j.home == FlushedHome(old(j.home), old(j.cpQueue))
  {
    hide Inv, Consistent, LenOf, AllPending, TxsOf, View.All, Owner, EndUpTo, Leaving, UpToDate, LastEvent,
        DonePrefix, Written, Stuck, FlushedSome, LastCopy;
    ghost var q0 := j.cpQueue;
    var bufs := j.cpQueue[0].bufs;
    assert j.cpQueue + [] == j.cpQueue;
    QueueValid(j.g, j.V());
    WrittenNone(q0);
    assert bufs[0..] == bufs;
    var n := 0;
    while n < |bufs|
      invariant n <= |bufs| && j.Valid() && j.OnlyCheckpoint()
      invariant n < |bufs| ==> j.cpQueue == q0[0 := Written(q0[0], n)]
      invariant n == |bufs| ==> Current(j.V()) && j.cpQueue == q0[1 + DonePrefix(q0[1..])..]
      invariant FlushedSome(j.home, bufs[n..], q0[1..]) == FlushedSome(old(j.home), bufs, q0[1..])
    {
      var b := bufs[n];
      FirstWritten(q0, n);
      FirstOwner(q0, n);
      HeadFits(j, b);
      FlushStep(j.home, bufs, n, q0[1..]);
      assert b == q0[0].bufs[n];
      FlushOne(j, b);
      LastWritten(q0, n);
      n := n + 1;
    }
    assert bufs[n..] == [];
    FlushNone(j.home, q0[1..]);
  }

  /** Only of a later transaction can it be that the block is not its own to write. */
  lemma FirstOwner(queue: seq<Trans>, n: nat)
    requires queue != [] && n < |queue[0].bufs|
    ensures var q := queue[0 := Written(queue[0], n)];
            Owner(q, queue[0].bufs[n].lba) == 0 <==> LastCopy(queue[1..], queue[0].bufs[n].lba).None?
  {
    hide Owner, Trans.Pending;
    var a, q := queue[0].bufs[n].lba, queue[0 := Written(queue[0], n)];
    assert q[0].bufs[0].lba == a;
    FirstPending(q[0]);
    LastCopyIs(queue[1..], a);
    var i := Owner(queue[1..], a);
    assert forall k :: 1 <= k < |q| ==> q[k] == queue[1..][k - 1];
    OwnerIs(q, a, if i < 0 then 0 else i + 1);
  }

  lemma FirstPending(t: Trans)
    requires t.bufs != []
    ensures t.bufs[0].lba in t.Pending()
  {
    assert t.bufs[0] in t.bufs;
  }

  lemma HeadFits(j: Journal, b: JbdBuf)
    requires j.Valid() && j.cpQueue != [] && b in j.cpQueue[0].bufs
    ensures 0 < b.lba < |j.home|
  {
    hide Inv;
    PendingBuf(j.g, j.V(), 0, b);
  }

  lemma WrittenNone(queue: seq<Trans>)
    requires queue != []
    ensures queue == queue[0 := Written(queue[0], 0)]
  {
  }

  lemma LastWritten(queue: seq<Trans>, n: nat)
    requires queue != [] && n < |queue[0].bufs|
    ensures var q := queue[0 := Written(queue[0], n + 1)];
            q[0..] == q && q[1 + DonePrefix(queue[1..])..] == queue[1 + DonePrefix(queue[1..])..]
  {
  }

  method FlushOne(j: Journal, b: JbdBuf)
    requires j.Valid() && j.entering == [] && j.cpQueue != [] && b in j.cpQueue[0].bufs
    requires b.lba in j.busy ==> Escaped(b.data) == b.data
    modifies j
    ensures j.Valid() && j.OnlyCheckpoint()
    ensures j.cpQueue == EndUpTo(old(j.cpQueue), 1, b.lba)[Leaving(old(j.cpQueue), 0, b.lba)..]
    ensures Leaving(old(j.cpQueue), 0, b.lba) > 0 ==> Current(j.V())
    ensures b.lba < |old(j.home)|
    ensures j.home == old(j.home)[b.lba := if Owner(old(j.cpQueue), b.lba) == 0 then b.data else Escaped(b.data)]
  {
    hide Inv, Consistent, LenOf, AllPending, TxsOf, View.All, Owner, EndUpTo, Leaving, UpToDate, LastEvent, Escaped;
    ghost var v := j.V();
    assert v.queue == j.cpQueue;
    PendingBuf(j.g, v, 0, b);
    if Owner(j.cpQueue, b.lba) == 0 && b.lba !in j.busy {
      FlushBuf(j, 0, b);
    } else {
      MayWrite(j.g, v, 0, b, j.log[b.jbdLba]);
      j.home := j.home[b.lba := j.log[b.jbdLba]];
      assert j.V() == v.(home := j.home);
      SameAll(v, j.V());
      j.Snapshot();
      j.EndWrite(0, b.lba);
    }
  }

  /** Popping a transaction moves the start of the journal in memory, so that the superblock
      on disk, which is not written, goes on naming the old one. */
  lemma PopLeavesDiskBehind(g: Geometry, v: View)
    requires Inv(g, v) && Current(v) && v.queue != []
    ensures !Current(Popped(g, v, 1))
  {
    hide LogInv, HomeInv, QueuePending, Copies, TxsOf, Flat, TotalLen, LenOf;
    assert Placed(g, v.diskStart, v.diskSequence, v.live, v.Idle() + 0, v.queue[0]);
    PlusDiffer(v.diskSequence, v.Idle(), v.Idle() + 1);
    PlusPlus(v.diskSequence, v.Idle(), 1);
    var t := v.queue[0];
    assert Succ(t.id) == Plus(v.diskSequence, v.Idle() + 1);
  }

  /** One round of `jbd_journal_purge_cp_trans` with flushing. It gets the superblock on disk
      moved exactly when the first transaction still had something to write. */
  method PurgeHead(j: Journal)
    requires j.Valid() && j.entering == [] && j.cpQueue != [] && Plain(j.cpQueue, j.busy)
    modifies j
    ensures j.Valid() && j.OnlyCheckpoint() && Plain(j.cpQueue, j.busy)
    ensures Stuck(old(j.cpQueue)) ==> j.V() == Popped(j.g, old(j.V()), 1) && j.cpQueue == old(j.cpQueue)[1..]
    ensures !Stuck(old(j.cpQueue)) ==>
              Current(j.V()) && j.cpQueue == old(j.cpQueue)[1 + DonePrefix(old(j.cpQueue)[1..])..]
    ensures j.home == if Stuck(old(j.cpQueue)) then old(j.home) else FlushedHome(old(j.home), old(j.cpQueue))
    ensures old(Current(j.V())) ==> (Current(j.V()) <==> !Stuck(old(j.cpQueue)))
  {
    hide Inv, Consistent, LenOf, AllPending, TxsOf, View.All, DonePrefix, Popped, Synced, FlushedHome;
    var trans := j.cpQueue[0];
    ghost var q, v := j.cpQueue, j.V();
    assert v.queue == q;
    if trans.dataCnt == 0 || trans.dataCnt == trans.writtenCnt {
      HeadDone(j.g, v, trans);
      if Current(v) { PopLeavesDiskBehind(j.g, v); }
      j.PopHead();
      PoppedAll(j.g, v, 1);
      PlainTail(q, j.busy, 1);
      TailPending(q, 1);
    } else {
      QueueValid(j.g, v);
      assert trans in v.queue;
      FlushTrans(j);
      PlainTail(q, j.busy, 1 + DonePrefix(q[1..]));
    }
  }

  /** `jbd_journal_purge_cp_trans` with flushing, until the queue is empty. */
  method PurgeAll(j: Journal)
    requires j.Valid() && j.entering == [] && Plain(j.cpQueue, j.busy)
    modifies j
    ensures j.Valid() && j.OnlyCheckpoint() && j.cpQueue == []
  {
    hide Inv, Consistent, LenOf, AllPending, TxsOf, View.All, DonePrefix, Popped, Synced, Plain;
    while j.cpQueue != []
      invariant j.Valid() && j.OnlyCheckpoint() && Plain(j.cpQueue, j.busy)
      decreases |j.cpQueue|
    {
      PurgeHead(j);
    }
  }

  lemma PlainTail(queue: seq<Trans>, busy: set<u32>, n: nat)
    requires Plain(queue, busy) && n <= |queue|
    ensures Plain(queue[n..], busy)
  {
  }
}
