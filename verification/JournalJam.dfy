/** When the ring jams: exactly which queues can get a finished transaction stuck at their front,
    what the block written next makes of the disk, and a session that comes to this. */
module JournalJam {
  import opened Words
  import opened JournalFormat
  import opened JournalRecovery
  import opened JournalLayout
  import opened JournalState
  import opened JournalRing
  import opened JournalSession
  import opened JournalCheckpoint
  import opened JournalEvict
  import opened JournalFlush
  import opened JournalSpace
  import opened JournalWriter
  import opened JournalCommit
  import opened JournalRuns

  // ----- Which queues are safe

  /** Whatever was taken off the front of the queue, and whatever the cache writes back then, no
      finished transaction is left there. */
  ghost predicate NeverSticks(queue: seq<Trans>, busy: set<u32>) {
    forall n, blocks :: 0 <= n <= |queue| && !Stuck(queue[n..]) ==> !Stuck(AfterAll(queue[n..], busy, blocks))
  }

  lemma {:induction false} SafeStays(queue: seq<Trans>, busy: set<u32>, blocks: seq<u32>)
    requires (forall t :: t in queue ==> t.Valid()) && Safe(queue, busy) && !Stuck(queue)
    ensures !Stuck(AfterAll(queue, busy, blocks))
    decreases |blocks|
  {
    hide Trans.Valid, Safe, Stuck, Owner, Leaving, EndUpTo;
    if blocks != [] {
      var a := blocks[0];
      AfterValid(queue, busy, a);
      var i := Owner(queue, a);
      if i >= 0 && a !in busy { SafeAfter(queue, busy, i, a); }
      SafeStays(AfterOne(queue, busy, a), busy, blocks[1..]);
    }
  }

  /** A transaction that waits for another block stays at the front. */
  lemma HeadStays(queue: seq<Trans>, o: nat, c: u32, a: u32)
    requires (forall t :: t in queue ==> t.Valid()) && o < |queue| && c != a && a in queue[0].Pending()
    ensures Leaving(queue, o, c) == 0 && !Stuck(queue)
  {
    hide Trans.Pending, Trans.Ended;
    assert queue[0] in queue;
    NotDone(queue[0], a);
    EndedKeeps(queue[0], c);
    NotDone(queue[0].Ended(c), a);
    var q := EndUpTo(queue, o + 1, c);
    assert q[0] == queue[0].Ended(c);
    if o > 0 { assert q[..o][0] == q[0]; }
  }

  lemma EndedLess(queue: seq<Trans>, n: nat, c: u32)
    requires (forall t :: t in queue ==> t.Valid()) && n <= |queue|
    ensures AllPending(EndUpTo(queue, n, c)) <= AllPending(queue)
    ensures forall k :: 0 <= k < |queue| ==>
              EndUpTo(queue, n, c)[k].Pending() == queue[k].Pending() - if k < n then {c} else {}
  {
    hide Trans.Ended, Trans.Valid;
    var q := EndUpTo(queue, n, c);
    forall k | 0 <= k < |queue|
      ensures q[k].Pending() == queue[k].Pending() - if k < n then {c} else {}
      ensures forall b :: b in q[k].bufs ==> b in queue[k].bufs
    {
      assert queue[k] in queue;
      EndedKeeps(queue[k], c);
    }
  }

  /** Once the transactions up to the owner of `a` wait for nothing else, writing `a` leaves a
      finished one at the front. */
  lemma LastWriteSticks(queue: seq<Trans>, busy: set<u32>, d: nat, a: u32)
    requires (forall t :: t in queue ==> t.Valid()) && CanStick(queue, busy, 0, d, a)
    requires forall k :: 0 <= k <= d ==> queue[k].Pending() <= {a}
    ensures Stuck(AfterOne(queue, busy, a))
  {
    hide Trans.Pending, Trans.Ended, Trans.Valid, Trans.Done, Leaving;
    OwnerIs(queue, a, d);
    assert queue[0] in queue;
    NotDone(queue[0], a);
    SticksIff(queue, d, a);
    forall k | 0 <= k <= d
      ensures queue[k].Ended(a).Done()
    {
      assert queue[k] in queue;
      OnlyThat(queue[k], a);
    }
  }

  lemma SomePending(t: Trans)
    ensures t.bufs != [] ==> t.Pending() != {}
  {
    if t.bufs != [] { assert t.bufs[0].lba in t.Pending(); }
  }

  lemma OnlyThat(t: Trans, a: u32)
    requires t.Valid() && t.Pending() <= {a}
    ensures t.Ended(a).Done()
  {
    EndedKeeps(t, a);
    assert t.Ended(a).Pending() == {};
    SomePending(t.Ended(a));
  }

  /** Writing back another block `c` that one of them waits for. */
  lemma OneLess(queue: seq<Trans>, busy: set<u32>, d: nat, a: u32, m: nat, c: u32)
    requires (forall t :: t in queue ==> t.Valid()) && CanStick(queue, busy, 0, d, a)
    requires m <= d && c in queue[m].Pending() && c != a
    ensures var q := AfterOne(queue, busy, c); CanStick(q, busy, 0, d, a) && AllPending(q) < AllPending(queue)
  {
    hide Trans.Pending, Trans.Ended, Trans.Valid, Trans.Done, Leaving, AllPending, Owner, Stuck;
    var o := OwnerFrom(queue, m, c);
    HeadStays(queue, o, c, a);
    var q := EndUpTo(queue, o + 1, c);
    assert q[0..] == q && AfterOne(queue, busy, c) == q;
    EndedLess(queue, o + 1, c);
    NobodyPending(queue, c, 0);
    PendingIsPending(queue, m, c);
  }

  /** The blocks to write back so that a transaction gets stuck: all that the ones up to the owner of
      `a` wait for, and `a` in the end. */
  lemma {:induction false} CanGetStuck(queue: seq<Trans>, busy: set<u32>, d: nat, a: u32) returns (blocks: seq<u32>)
    requires (forall t :: t in queue ==> t.Valid()) && CanStick(queue, busy, 0, d, a)
    ensures !Stuck(queue) && Stuck(AfterAll(queue, busy, blocks))
    decreases AllPending(queue)
  {
    hide Trans.Pending, Trans.Ended, Trans.Valid, Trans.Done, Leaving, AllPending, Owner, AfterOne;
    assert queue[0] in queue;
    NotDone(queue[0], a);
    if m, c :| 0 <= m <= d && c in queue[m].Pending() && c != a {
      OneLess(queue, busy, d, a, m, c);
      AfterValid(queue, busy, c);
      var rest := CanGetStuck(AfterOne(queue, busy, c), busy, d, a);
      blocks := [c] + rest;
      assert blocks[1..] == rest;
    } else {
      LastWriteSticks(queue, busy, d, a);
      blocks := [a];
      assert blocks[1..] == [];
    }
  }

  lemma OwnerFrom(queue: seq<Trans>, m: nat, c: u32) returns (o: nat)
    requires m < |queue| && c in queue[m].Pending()
    ensures m <= o < |queue| && o == Owner(queue, c)
  {
    o := Owner(queue, c);
  }

  /** The test that a caller can make before a commit is exact: a queue is safe just if no order of
      write-backs leaves a finished transaction at its front, at any time. */
  lemma {:induction false} SafeIff(queue: seq<Trans>, busy: set<u32>)
    requires forall t :: t in queue ==> t.Valid()
    ensures Safe(queue, busy) <==> NeverSticks(queue, busy)
  {
    hide Trans.Valid, Trans.Pending, Stuck, AfterAll;
    if Safe(queue, busy) {
      forall n, blocks | 0 <= n <= |queue| && !Stuck(queue[n..])
        ensures !Stuck(AfterAll(queue[n..], busy, blocks))
      {
        SafeTail(queue, busy, n);
        SafeStays(queue[n..], busy, blocks);
      }
    } else {
      var j, i, a :| CanStick(queue, busy, j, i, a);
      var q := queue[j..];
      assert forall k :: 0 <= k < |q| ==> q[k] == queue[j + k];
      assert CanStick(q, busy, 0, i - j, a);
      var blocks := CanGetStuck(q, busy, i - j, a);
      assert !Stuck(queue[j..]) && Stuck(AfterAll(queue[j..], busy, blocks));
    }
  }

  // ----- The block that is written next

  /** A crash after the first block of the log was written over, by one that is no record of the
      transaction expected there, loses all that is in the log: the disk is consistent exactly when
      all that was committed is home already. */
  lemma OverwrittenIff(g: Geometry, origin: seq<Block>, img: Image, b: Block, txs: seq<Tx>)
    requires ValidLog(img.log, g) && g.Inside(img.start) && |img.home| <= 0x1_0000_0000
    requires Traced(origin, img.home, txs) && |b| == g.words && (b[0] == MAGIC ==> b[2] != img.sequence)
    ensures Consistent(g, origin, img.(log := img.log[img.start := b]), txs) <==> Agrees(img.home, img.home, txs)
  {
    var img' := img.(log := img.log[img.start := b]);
    assert ItemAt(img'.log, g, img.start, img.sequence) == None;
    assert Recovered([], img.home) == img.home;
    assert Txs([], EMPTY_TX) == txs[|txs|..];
    if Agrees(img.home, img.home, txs) {
      assert RecoversFrom(g, img', txs, []);
    }
  }

  /** In a jammed ring, the next block that is written, be it a copy of a buffer or a block of the
      running transaction, leaves the disk consistent exactly when all that was committed is home. */
  lemma JammedBlockIff(g: Geometry, v: View, b: Block)
    requires Inv(g, v) && Jammed(g, v) && |b| == g.words && (b[0] == MAGIC ==> b[2] == v.allocTransId)
    ensures g.Inside(v.last) && v.last < |v.log|
    ensures Consistent(g, v.origin, Image(v.log[v.last := b], v.home, v.diskStart, v.diskSequence), v.All())
            <==> Agrees(v.home, v.home, v.All())
  {
    hide LogInv, HomeInv, QueuePending, QueueOk, Copies, TxsOf, Flat, TotalLen, LenOf, Consistent, Traced, Agrees,
        Plus, View.All, View.Used;
    IdleIff(g, v);
    ReadBackLen(g, v);
    PlusZero(v.diskSequence);
    PlusDiffer(v.diskSequence, 0, |v.live|);
    InvHome(g, v);
    OverwrittenIff(g, v.origin, v.Disk(), b, v.All());
  }

  lemma InvHome(g: Geometry, v: View)
    requires Inv(g, v)
    ensures |v.home| <= 0x1_0000_0000
  {
  }

  // ----- A session that is lost

  /** Log blocks that the queued transactions take. */
  function Taken(queue: seq<Trans>): nat {
    if queue == [] then 0 else Taken(queue[..|queue| - 1]) + queue[|queue| - 1].allocBlocks
  }

  lemma {:induction false} TakenIs(g: Geometry, v: View, j: nat)
    requires Inv(g, v) && v.Idle() == 0 && j <= |v.queue|
    ensures LenOf(v.live[..j]) == Taken(v.queue[..j])
  {
    hide LogInv, HomeInv, QueuePending, Copies, TxsOf, Flat, TotalLen, LenOf, Traced;
    if j == 0 {
      assert v.live[..0] == [];
      NoLive();
    } else {
      TakenIs(g, v, j - 1);
      LenOfPrefix(v.live, j - 1);
      assert Placed(g, v.diskStart, v.diskSequence, v.live, v.Idle() + (j - 1), v.queue[j - 1]);
      assert v.queue[..j][..j - 1] == v.queue[..j - 1];
    }
  }

  lemma UsedOfQueue(g: Geometry, v: View)
    requires Inv(g, v) && Current(v)
    ensures v.Used() == Taken(v.queue) + TotalLen(v.open) + v.reserved
  {
    hide LogInv, HomeInv, QueuePending, Copies, TxsOf, Flat, TotalLen, LenOf, Traced, Taken;
    CurrentNoIdle(g, v);
    TakenIs(g, v, |v.queue|);
    assert v.live[..|v.live|] == v.live && v.queue[..|v.queue|] == v.queue;
    UsedIs(v);
  }

  /** The cache writes back these blocks, one after the other. */
  method WriteBackAll(j: Journal, blocks: seq<u32>)
    requires Quiet(j) && Plain(j.cpQueue, j.busy) && Current(j.V())
    modifies j
    ensures Quiet(j) && Plain(j.cpQueue, j.busy) && Current(j.V()) && j.busy == old(j.busy)
    ensures j.cpQueue == AfterAll(old(j.cpQueue), j.busy, blocks) && j.V().All() == old(j.V().All())
    ensures |j.home| == old(|j.home|) && forall a :: 0 <= a < |j.home| && a !in blocks ==> j.home[a] == old(j.home[a])
  {
    hide Inv, Consistent, LenOf, AllPending, TxsOf, View.All, View.Used, RevokesSettled, Current, Plain,
        Trans.Pending, Owner, EndUpTo, Leaving, Quiet, AfterOne;
    for n := 0 to |blocks|
      invariant Quiet(j) && Plain(j.cpQueue, j.busy) && Current(j.V()) && j.busy == old(j.busy)
      invariant AfterAll(j.cpQueue, j.busy, blocks[n..]) == AfterAll(old(j.cpQueue), j.busy, blocks)
      invariant j.V().All() == old(j.V().All()) && |j.home| == old(|j.home|)
      invariant forall a :: 0 <= a < |j.home| && a !in blocks ==> j.home[a] == old(j.home[a])
    {
      WriteBackOne(j, blocks[n]);
      assert blocks[n..][1..] == blocks[n + 1..];
    }
  }

  method WriteBackOne(j: Journal, a: u32)
    requires Quiet(j) && Plain(j.cpQueue, j.busy) && Current(j.V())
    modifies j
    ensures Quiet(j) && Plain(j.cpQueue, j.busy) && Current(j.V()) && j.busy == old(j.busy)
    ensures j.cpQueue == AfterOne(old(j.cpQueue), j.busy, a) && j.V().All() == old(j.V().All())
    ensures |j.home| == old(|j.home|) && forall x :: 0 <= x < |j.home| && x != a ==> j.home[x] == old(j.home[x])
  {
    hide Inv, Consistent, LenOf, AllPending, TxsOf, View.All, View.Used, RevokesSettled, Plain, Trans.Pending, Owner,
        EndUpTo, Leaving;
    ghost var v, q := j.V(), j.cpQueue;
    assert v.queue == q;
    var i := Owner(j.cpQueue, a);
    if i >= 0 && a !in j.busy {
      CpQueueValid(j);
      PendingHasBuf(j.cpQueue[i], a);
      FlushBuf(j, i, BufOf(j.cpQueue[i].bufs, a));
      QuietAfter(j, v, q);
      PlainAfter(q, j.busy, i + 1, a, Leaving(q, i, a));
    }
  }

  lemma UsedNow(j: Journal)
    requires Quiet(j) && Current(j.V())
    ensures j.V().Used() == Taken(j.cpQueue)
  {
    hide Inv, Consistent, View.Used, Taken, Current;
    assert j.V().queue == j.cpQueue;
    assert TotalLen([]) == 0;
    UsedOfQueue(j.g, j.V());
  }

  /** A finished transaction is at the front, and the others leave no room for `tx`. */
  predicate NoRoom(g: Geometry, queue: seq<Trans>, tx: Tx) {
    Stuck(queue) && Taken(queue) + NeedOf(g.words, tx) >= g.Size()
  }

  /** From a journal whose superblock on disk is up to date, the cache writes back these blocks, and a
      transaction is committed. Exactly if that leaves a finished transaction at the front of the
      queue, and no room for the commit, the ring jams. */
  method CommitAfter(j: Journal, uuid: seq<u32>, blocks: seq<u32>, todo: Todo) returns (jam: bool)
    requires Quiet(j) && j.g.Valid() && |uuid| == UUID_WORDS && Plain(j.cpQueue, j.busy) && Current(j.V())
    requires Ready(j.g, |j.home|, j.busy, todo)
    modifies j
    ensures jam <==> TxOf(todo) != EMPTY_TX && NoRoom(j.g, AfterAll(old(j.cpQueue), old(j.busy), blocks), TxOf(todo))
    ensures jam ==> j.Valid() && j.entering == [] && Jammed(j.g, j.V()) && j.V().All() == old(j.V().All())
    ensures jam ==> |j.home| == old(|j.home|) && forall a :: 0 <= a < |j.home| && a !in blocks ==>
              j.home[a] == old(j.home[a])
    ensures !jam ==> Quiet(j) && old(j.V().All()) <= j.V().All()
  {
    hide Inv, Consistent, LenOf, AllPending, TxsOf, View.All, View.Used, NeedOf, RevokesSettled, Ready, Released,
        Current, Stuck, Safe, Queued, Taken, Jammed, Plain, AfterAll;
    WriteBackAll(j, blocks);
    ghost var v := j.V();
    UsedNow(j);
    j.plan := [];
    assert j.V() == v && Quiet(j) && v.queue == j.cpQueue;
    ghost var stages;
    jam, stages := CommitTrans(j, uuid, todo);
  }

  const RING := Geometry(1, 11, 16)

  const BLANK: Block := [0, 0, 0, 0, 0, 0, 0, 0, 0, 0, 0, 0, 0, 0, 0, 0]

  /** A transaction that logs one block, and one that logs two. */
  function One(a: u32, data: Block): Todo { Todo([TransBuf(a, data, true)], []) }

  function Two(a: u32, b: u32, data: Block): Todo { Todo([TransBuf(a, data, true), TransBuf(b, data, true)], []) }

  lemma OneIs(a: u32, data: Block)
    ensures Dirty(One(a, data).bufs) == [Write(a, data)] && Released(One(a, data)) == {a}
    ensures TxOf(One(a, data)) == Tx([Write(a, data)], []) != EMPTY_TX
    ensures NeedOf(16, TxOf(One(a, data))) == 3
  {
    DirtyOne(TransBuf(a, data, true));
    assert Blocks([Write(a, data)]) == {a};
    assert DataLen(1, 4, 0) == 2;
  }

  lemma TwoIs(a: u32, b: u32, data: Block)
    ensures TxOf(Two(a, b, data)) == Tx([Write(a, data), Write(b, data)], []) != EMPTY_TX
    ensures NeedOf(16, TxOf(Two(a, b, data))) == 4
  {
    var bufs := Two(a, b, data).bufs;
    assert bufs[..1] == [TransBuf(a, data, true)];
    DirtyOne(TransBuf(a, data, true));
    assert DataLen(2, 4, 0) == 1 + DataLen(2, 4, 4);
    assert DataLen(2, 4, 4) == 1 + DataLen(1, 4, 3);
  }

  /** A block of file data. */
  function Data(d: u32): (b: Block)
    requires d != MAGIC
    ensures |b| == 16 && Escaped(b) == b
  {
    [d, 0, 0, 0, 0, 0, 0, 0, 0, 0, 0, 0, 0, 0, 0, 0]
  }

  lemma PlainQueued(queue0: seq<Trans>, queue: seq<Trans>, a: u32, data: Block, need: nat, busy: set<u32>)
    requires Queued(queue0, queue, [Write(a, data)], need) && Plain(queue0, busy) && Escaped(data) == data
    ensures Plain(queue, busy) && Taken(queue) == Taken(queue0) + need
  {
    var n := |queue0|;
    forall i, b | 0 <= i < |queue| && b in queue[i].bufs && b.lba in busy
      ensures Escaped(b.data) == b.data
    {
      if i < n { assert queue[..n][i] == queue[i]; }
    }
  }

  /** Commits a transaction of one block while the cache writes nothing back. */
  method CommitOne(j: Journal, uuid: seq<u32>, a: u32, data: Block)
    requires Quiet(j) && j.g == RING && |uuid| == UUID_WORDS && j.busy == {} && Current(j.V())
    requires 0 < a < |j.home| && |data| == 16 && Escaped(data) == data
    requires Taken(j.cpQueue) < 7 && Plain(j.cpQueue, {3, 4, 5, 6}) && a in {5, 6}
    modifies j
    ensures Quiet(j) && j.busy == {} && Current(j.V()) && j.home == old(j.home) && Plain(j.cpQueue, {3, 4, 5, 6})
    ensures Queued(old(j.cpQueue), j.cpQueue, [Write(a, data)], 3) && Taken(j.cpQueue) == old(Taken(j.cpQueue)) + 3
    ensures j.V().All() == old(j.V().All()) + [Tx([Write(a, data)], [])]
  {
    hide Inv, Consistent, LenOf, AllPending, TxsOf, View.All, View.Used, NeedOf, RevokesSettled, BufsOf, Dirty,
        Released, Current, Stuck, Safe, Queued, Taken, Roomy;
    ghost var v := j.V();
    UsedNow(j);
    OneIs(a, data);
    j.busy, j.plan := {a}, [];
    assert j.V() == v && Quiet(j);
    ghost var q := j.cpQueue;
    var jam;
    ghost var stages;
    jam, stages := CommitTrans(j, uuid, One(a, data));
    PlainQueued(q, j.cpQueue, a, data, 3, {3, 4, 5, 6});
    RoomyIf(j.g, v, 3);
  }

  lemma RoomyIf(g: Geometry, v: View, need: nat)
    requires Fits(g, v, need)
    ensures Roomy(g, v, true, need)
  {
  }

  const SIZE := 8

  lemma BlankIsFresh(log: seq<Block>)
    requires log == seq(11, _ => BLANK)
    ensures ValidLog(log, RING)
  {
  }

  /** The three transactions on the queue: the first two wait for block 5, the third for block 6. */
  ghost predicate Three(queue: seq<Trans>) {
    && |queue| == 3 && Taken(queue) == 9
    && queue[0].Pending() == {5} && queue[1].Pending() == {5} && queue[2].Pending() == {6}
    && queue[0].allocBlocks == queue[1].allocBlocks == queue[2].allocBlocks == 3
  }

  lemma QueuedOne(queue0: seq<Trans>, queue: seq<Trans>, a: u32, data: Block, need: nat)
    requires Queued(queue0, queue, [Write(a, data)], need)
    ensures |queue| == |queue0| + 1 && (forall i :: 0 <= i < |queue0| ==> queue[i] == queue0[i])
    ensures queue[|queue0|].Pending() == {a} && queue[|queue0|].allocBlocks == need
  {
    var t, n := queue[|queue0|], |queue0|;
    assert forall i :: 0 <= i < n ==> queue[..n][i] == queue0[i];
    assert t.bufs == [t.bufs[0]] && t.bufs[0].lba == a;
  }

  /** Writing block 5 takes the first of them off the queue and leaves the second, finished. */
  lemma FiveSticks(queue: seq<Trans>, busy: set<u32>)
    requires Three(queue) && (forall t :: t in queue ==> t.Valid()) && 5 !in busy
    ensures var q := AfterAll(queue, busy, [5]); Stuck(q) && Taken(q) == 6
  {
    hide Trans.Pending, Trans.Ended, Trans.Done;
    OwnerIs(queue, 5, 1);
    assert queue[0] in queue && queue[1] in queue;
    OnlyThat(queue[0], 5);
    OnlyThat(queue[1], 5);
    var q := EndUpTo(queue, 2, 5);
    DonePrefixIs(q[..1], 1);
    EndedPlace(queue[0], 5);
    EndedPlace(queue[1], 5);
    assert q[1..][..1] == [q[1]] && [q[1]][..0] == [];
    assert Taken([q[1]]) == 3;
    assert [5][1..] == [];
  }

  /** Block 6 was committed and is not home. */
  lemma SixIsMissing(home: seq<Block>, txs: seq<Tx>, x: Block, y: Block, z: Block)
    requires txs == [Tx([Write(5, x)], []), Tx([Write(5, y)], []), Tx([Write(6, z)], [])]
    requires 6 < |home| && home[6] != z
    ensures !Agrees(home, home, txs)
  {
    assert LastWrite(txs[2].writes, 6) == Some(z);
    assert Surviving(txs, 6) == Some(z);
  }

  /** Three transactions are committed, and the cache writes one block back; the commit of the next
      one, for which no room is left, then jams the ring, and a crash after whatever log block it
      writes next loses the third transaction, committed before. */
  method LostSession(uuid: seq<u32>) returns (j: Journal)
    requires |uuid| == UUID_WORDS
    ensures fresh(j) && j.Valid() && j.g == RING && Jammed(j.g, j.V()) && j.last < |j.log|
    ensures j.V().All() == [Tx([Write(5, Data(1))], []), Tx([Write(5, Data(2))], []), Tx([Write(6, Data(3))], [])]
    ensures |j.home| == SIZE && j.home[6] == BLANK
    ensures forall b: Block :: |b| == 16 && (b[0] == MAGIC ==> b[2] == j.allocTransId) ==>
              !Consistent(j.g, j.origin, Image(j.log[j.last := b], j.home, j.diskStart, j.diskSequence), j.V().All())
  {
    hide Inv, Consistent, LenOf, AllPending, TxsOf, View.All, View.Used, RevokesSettled, Current, Stuck, Safe, Queued,
        Taken, Roomy, Jammed, Plain, Trans.Pending, Owner, EndUpTo, Leaving, Quiet, NeedOf, Agrees;
    var log, home := seq(11, _ => BLANK), seq(SIZE, _ => BLANK);
    BlankIsFresh(log);
    j := new Journal.Start(RING, log, home, 0);
    StartsQuiet(j);
    ghost var q0 := j.cpQueue;
    CommitOne(j, uuid, 5, Data(1));
    ghost var q1 := j.cpQueue;
    CommitOne(j, uuid, 5, Data(2));
    ghost var q2 := j.cpQueue;
    CommitOne(j, uuid, 6, Data(3));
    ghost var q3 := j.cpQueue;
    ThreeQueued(q0, q1, q2, q3);
    CommitTwo(j, uuid);
    SixIsMissing(j.home, j.V().All(), Data(1), Data(2), Data(3));
    LostWith(j);
  }

  lemma StartsQuiet(j: Journal)
    requires j.Valid() && j.entering == [] && j.open == [] && j.reserved == 0 && j.cpQueue == []
    requires j.V().All() == [] && j.V().Used() == 0 && j.g == RING
    ensures Quiet(j) && Plain(j.cpQueue, {3, 4, 5, 6}) && Taken(j.cpQueue) == 0
  {
    hide Inv, Consistent, View.All, View.Used;
    NonePending();
  }

  lemma ThreeQueued(q0: seq<Trans>, q1: seq<Trans>, q2: seq<Trans>, q3: seq<Trans>)
    requires q0 == [] && Taken(q3) == 9 && Queued(q0, q1, [Write(5, Data(1))], 3)
    requires Queued(q1, q2, [Write(5, Data(2))], 3) && Queued(q2, q3, [Write(6, Data(3))], 3)
    ensures Three(q3)
  {
    hide Queued, Taken, Trans.Pending;
    QueuedOne(q0, q1, 5, Data(1), 3);
    QueuedOne(q1, q2, 5, Data(2), 3);
    QueuedOne(q2, q3, 6, Data(3), 3);
  }

  /** The cache writes back block 5, and the commit jams. */
  method CommitTwo(j: Journal, uuid: seq<u32>)
    requires Quiet(j) && j.g == RING && |uuid| == UUID_WORDS && j.busy == {} && |j.home| == SIZE
    requires Current(j.V()) && Three(j.cpQueue) && Plain(j.cpQueue, {3, 4, 5, 6})
    modifies j
    ensures j.Valid() && j.entering == [] && Jammed(j.g, j.V())
    ensures j.V().All() == old(j.V().All()) && |j.home| == SIZE && j.home[6] == old(j.home[6])
  {
    hide Inv, Consistent, LenOf, AllPending, TxsOf, View.All, View.Used, NeedOf, RevokesSettled, Current, Stuck,
        Taken, Jammed, Three, AfterAll;
    ghost var v := j.V();
    CpQueueValid(j);
    FiveSticks(j.cpQueue, {3, 4});
    TwoIs(3, 4, Data(4));
    j.busy := {3, 4};
    assert j.V() == v && Quiet(j);
    var jam := CommitAfter(j, uuid, [5], Two(3, 4, Data(4)));
  }

  lemma LostWith(j: Journal)
    requires j.Valid() && j.g == RING && Jammed(j.g, j.V()) && !Agrees(j.home, j.home, j.V().All())
    ensures j.last < |j.log|
    ensures forall b: Block :: |b| == 16 && (b[0] == MAGIC ==> b[2] == j.allocTransId) ==>
              !Consistent(j.g, j.origin, Image(j.log[j.last := b], j.home, j.diskStart, j.diskSequence), j.V().All())
  {
    hide Inv, Consistent, View.All, Jammed, Agrees;
    JammedBlockIff(j.g, j.V(), BLANK);
    forall b: Block | |b| == 16 && (b[0] == MAGIC ==> b[2] == j.allocTransId)
      ensures !Consistent(j.g, j.origin, Image(j.log[j.last := b], j.home, j.diskStart, j.diskSequence), j.V().All())
    {
      JammedBlockIff(j.g, j.V(), b);
    }
  }
}
