/** Making room in the ring: allocating a log block, which checkpoints a transaction when the
    ring is full, while the block cache writes back what it likes. */
module JournalSpace {
  import opened Words
  import opened JournalFormat
  import opened JournalLayout
  import opened JournalState
  import opened JournalRing
  import opened JournalSession
  import opened JournalCheckpoint
  import opened JournalEvict
  import opened JournalFlush

  // ----- When a finished transaction may get stuck at the front

  /** Block `a` is pending in transactions `j` and `i`, and in none after `i`; and all that is
      pending from `j` to `i` the cache can write back. */
  ghost predicate CanStick(queue: seq<Trans>, busy: set<u32>, j: int, i: int, a: u32) {
    && 0 <= j < i < |queue| && a in queue[j].Pending() && a in queue[i].Pending()
    && (forall k :: i < k < |queue| ==> a !in queue[k].Pending())
    && forall m :: j <= m <= i ==> queue[m].Pending() !! busy
  }

  ghost predicate Safe(queue: seq<Trans>, busy: set<u32>) {
    forall j, i, a :: !CanStick(queue, busy, j, i, a)
  }

  /** The same, as a test. */
  predicate SafeNow(queue: seq<Trans>, busy: set<u32>) {
    forall j, i | 0 <= j < i < |queue| :: forall a | a in queue[j].Pending() ::
      a !in queue[i].Pending()
      || (exists k | i < k < |queue| :: a in queue[k].Pending())
      || (exists m | j <= m <= i :: exists c | c in queue[m].Pending() :: c in busy)
  }

  lemma SafeIsSeen(queue: seq<Trans>, busy: set<u32>)
    ensures SafeNow(queue, busy) <==> Safe(queue, busy)
  {
    hide Trans.Pending;
    if SafeNow(queue, busy) {
      forall j, i, a
        ensures !CanStick(queue, busy, j, i, a)
      {
      }
    }
    if Safe(queue, busy) {
      forall j, i, a | 0 <= j < i < |queue| && a in queue[j].Pending() && a in queue[i].Pending()
        ensures (exists k | i < k < |queue| :: a in queue[k].Pending())
                || (exists m | j <= m <= i :: exists c | c in queue[m].Pending() :: c in busy)
      {
        assert !CanStick(queue, busy, j, i, a);
      }
    }
  }

  lemma CanStickTail(queue: seq<Trans>, busy: set<u32>, n: nat, j: int, i: int, a: u32)
    requires n <= |queue| && CanStick(queue[n..], busy, j, i, a)
    ensures CanStick(queue, busy, n + j, n + i, a)
  {
    hide Trans.Pending;
    var q := queue[n..];
    assert forall k :: n <= k < |queue| ==> queue[k] == q[k - n];
  }

  lemma SafeTail(queue: seq<Trans>, busy: set<u32>, n: nat)
    requires n <= |queue| && Safe(queue, busy)
    ensures Safe(queue[n..], busy)
  {
    hide CanStick;
    forall j, i, a | CanStick(queue[n..], busy, j, i, a)
      ensures false
    {
      CanStickTail(queue, busy, n, j, i, a);
    }
  }

  /** Writing a block back does not make a queue less safe. */
  lemma SafeEnded(queue: seq<Trans>, busy: set<u32>, o: nat, a: u32)
    requires Safe(queue, busy) && (forall t :: t in queue ==> t.Valid())
    requires o < |queue| && o == Owner(queue, a) && a !in busy
    ensures Safe(EndUpTo(queue, o + 1, a), busy)
  {
    hide Trans.Ended, Trans.Pending, Trans.Valid, Owner;
    var q := EndUpTo(queue, o + 1, a);
    forall m | 0 <= m < |queue|
      ensures q[m].Pending() == queue[m].Pending() - {a}
    {
      assert queue[m] in queue;
      EndedKeeps(queue[m], a);
    }
    forall j, i, c | CanStick(q, busy, j, i, c)
      ensures CanStick(queue, busy, j, i, c)
    {
    }
  }

  /** Writing block `a` leaves a finished transaction at the front exactly when all up to the
      owner wait for nothing but `a`, and more than one of them does. */
  lemma SticksIff(queue: seq<Trans>, i: nat, a: u32)
    requires (forall t :: t in queue ==> t.Valid()) && i < |queue| && a in queue[i].Pending() && !Stuck(queue)
    ensures Sticks(queue, i, a) <==>
            i > 0 && a in queue[0].Pending() && forall k :: 0 <= k <= i ==> queue[k].Ended(a).Done()
  {
    hide Trans.Done, Trans.Pending, Trans.Ended, Trans.Valid;
    var q := EndUpTo(queue, i + 1, a);
    var n := Leaving(queue, i, a);
    assert forall k :: 0 <= k <= i ==> q[k] == queue[k].Ended(a);
    if i == 0 {
      if n < |q| { assert q[n..][0] == q[n]; }
    } else if a in queue[0].Pending() {
      assert n == DonePrefix(q[..i]);
      if n < i {
        assert !q[..i][n].Done() && q[n..][0] == q[n];
      } else {
        assert forall k :: 0 <= k < i ==> q[..i][k].Done();
        assert q[i..][0] == q[i];
      }
    } else {
      NotThere(queue[0], a);
      assert q[0..][0] == queue[0];
    }
  }

  lemma NotThere(t: Trans, a: u32)
    requires a !in t.Pending()
    ensures t.Ended(a) == t
  {
  }

  lemma DoneBut(t: Trans, a: u32)
    requires t.Valid() && t.Ended(a).Done()
    ensures t.Pending() <= {a}
  {
    EndedKeeps(t, a);
    assert t.Ended(a).bufs == [];
    assert t.Ended(a).Pending() == {};
  }

  /** From a safe queue no transaction gets stuck. */
  lemma SafeNeverSticks(queue: seq<Trans>, busy: set<u32>, i: nat, a: u32)
    requires Safe(queue, busy) && (forall t :: t in queue ==> t.Valid()) && !Stuck(queue)
    requires i < |queue| && i == Owner(queue, a) && a !in busy
    ensures !Sticks(queue, i, a)
  {
    hide Trans.Pending, Trans.Ended, Trans.Valid, Trans.Done, Owner, Leaving, Stuck;
    SticksIff(queue, i, a);
    forall k | 0 <= k <= i && queue[k].Ended(a).Done()
      ensures queue[k].Pending() <= {a}
    {
      assert queue[k] in queue;
      DoneBut(queue[k], a);
    }
    assert !CanStick(queue, busy, 0, i, a);
  }

  // ----- Room

  /** What is known of the commit that goes on: the blocks it takes in all, whether there is room
      for it, whether that is in front of what the superblock on disk names, whether the cache writes
      nothing back, and what it began with: the ring, the plan of the cache, and the blocks held. */
  datatype Mode = Mode(total: nat, room: bool, fits: bool, calm: bool, base: Ring, plan: seq<seq<u32>>, held: set<u32>)

  ghost predicate Fits(g: Geometry, v: View, need: nat) { v.Used() + need < g.Size() }

  /** `need` more blocks can be allocated without reaching the part of the ring that the
      superblock on disk names: they fit in front of it, or it is moved in time. */
  ghost predicate Roomy(g: Geometry, v: View, safe: bool, need: nat) {
    Fits(g, v, need) || (Current(v) && !Stuck(v.queue) && safe)
  }

  /** `need` blocks are still to be allocated. `busy` are blocks that the cache does not write
      back in the meantime. */
  ghost predicate Tracks(g: Geometry, v: View, plan: seq<seq<u32>>, busy: set<u32>, m: Mode, need: nat) {
    && v.Used() < g.Size() && TotalLen(v.open) + v.reserved + need == m.total < g.Size()
    && (m.calm ==> plan == [])
    && (m.fits ==> Fits(g, v, need))
    && (m.room ==> Roomy(g, v, m.calm || Safe(v.queue, busy), need))
    && (m.calm && !m.room ==> !Roomy(g, v, true, need))
  }

  /** The ring is full up to the first block that the superblock on disk names, which was not
      moved: that block is the next one to be handed out. */
  ghost predicate Jammed(g: Geometry, v: View) {
    v.Used() == g.Size() && !Current(v) && v.last == v.diskStart
  }

  /** When nothing is written back, the queue and the home blocks stay as they are if there is
      room in front of the superblock's part, and the home blocks also if there is no room. */
  twostate predicate Restful(j: Journal, m: Mode)
    reads j
  {
    && (m.calm && m.fits ==> j.cpQueue == old(j.cpQueue) && (old(Current(j.V())) ==> Current(j.V())))
    && (m.calm && (m.fits || !m.room) ==> j.home == old(j.home))
  }

  function Rest(plan: seq<seq<u32>>, n: nat): seq<seq<u32>> { if n <= |plan| then plan[n..] else [] }

  /** The ring is what the log blocks taken since the commit began, and what was written back each
      time, have made of it. */
  ghost predicate Ran(g: Geometry, stages: seq<set<u32>>, plan: seq<seq<u32>>, r: Ring, busy: set<u32>, m: Mode,
                      need: nat)
  {
    && |stages| + need == m.total && Held(stages, busy, m.held) && plan == Rest(m.plan, |stages|)
    && r == TakenAll(g, m.base, stages, m.plan)
  }

  ghost function RingOf(j: Journal): Ring
    reads j
  {
    Ring(j.cpQueue, j.home, j.last)
  }

  /** The above of a journal, and blocks `busy` of it. */
  ghost predicate On(j: Journal, busy: set<u32>, m: Mode, need: nat)
    reads j
  {
    && busy <= j.busy <= m.held && Tracks(j.g, j.V(), j.plan, busy, m, need)
    && Ran(j.g, j.stages, j.plan, RingOf(j), busy, m, need)
  }

  /** The commit came to a block that jams the ring. */
  ghost predicate Halted(j: Journal, busy: set<u32>, m: Mode)
    reads j
  {
    && !m.room && Jammed(j.g, j.V()) && |j.stages| < m.total && Held(j.stages, busy, m.held)
    && RingOf(j) == JammedAt(j.g, TakenAll(j.g, m.base, j.stages, m.plan))
  }

  lemma RanMore(g: Geometry, stages: seq<set<u32>>, plan: seq<seq<u32>>, r: Ring, busy: set<u32>, m: Mode, need: nat,
                now: set<u32>, q: Ring)
    requires Ran(g, stages, plan, r, busy, m, need + 1) && busy <= now <= m.held && q == Checkpointed(g, r)
    ensures var victims := VictimsAt(plan, 0);
            Ran(g, stages + [now], Rest(plan, 1),
                Ring(AfterAll(q.queue, now, victims), EvictedHome(q.home, q.queue, now, victims), NextBlock(g, r.last)),
                busy, m, need)
  {
    hide Checkpointed, AfterAll, EvictedHome, NextBlock;
    TakenMore(g, m.base, stages, m.plan, now);
    assert VictimsAt(plan, 0) == VictimsAt(m.plan, |stages|);
  }

  /** The last pending copy of a block, as the queue has it. */
  lemma OwnedCopy(queue: seq<Trans>, a: u32)
    requires (forall t :: t in queue ==> t.Valid()) && Owner(queue, a) >= 0
    requires exists b :: b in queue[Owner(queue, a)].bufs && b.lba == a
    ensures LastCopy(queue, a) == Some(BufOf(queue[Owner(queue, a)].bufs, a).data)
  {
    hide Owner;
    var i := Owner(queue, a);
    assert queue[i] in queue;
    LastCopyIs(queue, a);
    CopyOf(queue[i].bufs, BufOf(queue[i].bufs, a));
  }

  lemma UsedIs(v: View)
    ensures v.Used() == LenOf(v.live) + TotalLen(v.open) + v.reserved
  {
    TotalLenAppend(Flat(v.live), v.open);
  }

  /** Writing a block of the log changes nothing of this. */
  lemma TracksSame(g: Geometry, v: View, v': View, plan: seq<seq<u32>>, busy: set<u32>, m: Mode, need: nat)
    requires Tracks(g, v, plan, busy, m, need) && v'.live == v.live && v'.queue == v.queue
    requires Current(v) <==> Current(v')
    requires TotalLen(v'.open) + v'.reserved == TotalLen(v.open) + v.reserved
    ensures Tracks(g, v', plan, busy, m, need)
  {
    hide Safe, Stuck;
    UsedIs(v);
    UsedIs(v');
  }

  /** Room does not shrink when the cache writes back, unless that leaves a finished transaction
      at the front of the queue. */
  lemma TracksAfter(g: Geometry, v: View, v': View, plan: seq<seq<u32>>, busy: set<u32>, m: Mode, need: nat)
    requires Tracks(g, v, plan, busy, m, need) && !m.calm
    requires v'.open == v.open && v'.reserved == v.reserved && LenOf(v'.live) <= LenOf(v.live)
    requires !Stuck(v.queue) && Safe(v.queue, busy) ==> !Stuck(v'.queue) && Safe(v'.queue, busy)
    requires Current(v) ==> Current(v')
    ensures Tracks(g, v', [], busy, m, need)
  {
    hide Safe, Stuck;
    UsedIs(v);
    UsedIs(v');
  }

  lemma PlainAfter(queue: seq<Trans>, busy: set<u32>, n: nat, a: u32, k: nat)
    requires Plain(queue, busy) && (forall t :: t in queue ==> t.Valid()) && k <= |queue|
    ensures Plain(EndUpTo(queue, n, a)[k..], busy)
  {
    hide Trans.Ended, Trans.Valid;
    forall i | 0 <= i < |queue|
      ensures forall b :: b in EndUpTo(queue, n, a)[i].bufs ==> b in queue[i].bufs
    {
      assert queue[i] in queue;
      EndedKeeps(queue[i], a);
    }
  }

  lemma SafeAfter(queue: seq<Trans>, busy: set<u32>, i: nat, a: u32)
    requires (forall t :: t in queue ==> t.Valid()) && i < |queue| && i == Owner(queue, a) && a !in busy
    ensures !Stuck(queue) && Safe(queue, busy) ==>
              var q := EndUpTo(queue, i + 1, a)[Leaving(queue, i, a)..]; !Stuck(q) && Safe(q, busy)
  {
    hide Safe, Owner, EndUpTo, Leaving, Stuck, Trans.Valid;
    if !Stuck(queue) && Safe(queue, busy) {
      SafeNeverSticks(queue, busy, i, a);
      SafeEnded(queue, busy, i, a);
      SafeTail(EndUpTo(queue, i + 1, a), busy, Leaving(queue, i, a));
    }
  }

  /** `ext4_block_cache_shake`, in `ext4_block_get_noread`: the cache writes back committed buffers of
      its choice. Just those that are pending and that nobody holds reach their home blocks, with the
      data of their last pending copies. */
  method Shake(j: Journal, ghost busy: set<u32>, ghost m: Mode, ghost need: nat)
    requires j.Valid() && j.entering == [] && Plain(j.cpQueue, j.busy) && busy <= j.busy
    requires Tracks(j.g, j.V(), j.plan, busy, m, need)
    modifies j
    ensures j.Valid() && j.Settled() && Plain(j.cpQueue, j.busy) && j.stages == old(j.stages)
    ensures Tracks(j.g, j.V(), j.plan, busy, m, need) && Restful(j, m) && j.plan == Rest(old(j.plan), 1)
    ensures j.cpQueue == AfterAll(old(j.cpQueue), old(j.busy), VictimsAt(old(j.plan), 0))
    ensures j.home == EvictedHome(old(j.home), old(j.cpQueue), old(j.busy), VictimsAt(old(j.plan), 0))
  {
    hide Inv, Consistent, LenOf, AllPending, TxsOf, View.All, Tracks, Plain, Owner, EndUpTo, Leaving, Stuck, Safe,
        EvictedHome, AfterOne, LastCopy;
    CalmPlan(j.g, j.V(), j.plan, busy, m, need);
    if j.plan == [] {
      EvictNone(j.home, j.cpQueue, j.busy);
      return;
    }
    var victims := j.plan[0];
    AnyPlan(j.g, j.V(), j.plan, j.plan[1..], busy, m, need);
    j.plan := j.plan[1..];
    var n := 0;
    assert victims[0..] == victims;
    while n < |victims|
      invariant n <= |victims| && j.Valid() && j.Settled() && Plain(j.cpQueue, j.busy)
      invariant Tracks(j.g, j.V(), j.plan, busy, m, need) && j.plan == Rest(old(j.plan), 1) && j.stages == old(j.stages)
      invariant AfterAll(j.cpQueue, j.busy, victims[n..]) == AfterAll(old(j.cpQueue), old(j.busy), victims)
      invariant EvictedHome(j.home, j.cpQueue, j.busy, victims[n..]) ==
                EvictedHome(old(j.home), old(j.cpQueue), old(j.busy), victims)
    {
      ShakeOne(j, victims[n], busy, m, need, victims[n..]);
      assert victims[n..][1..] == victims[n + 1..];
      n := n + 1;
    }
    assert victims[n..] == [];
    EvictNone(j.home, j.cpQueue, j.busy);
  }

  lemma EvictNone(home: seq<Block>, queue: seq<Trans>, busy: set<u32>)
    ensures EvictedHome(home, queue, busy, []) == home && AfterAll(queue, busy, []) == queue
  {
  }

  /** One of them. */
  method ShakeOne(j: Journal, a: u32, ghost busy: set<u32>, ghost m: Mode, ghost need: nat, ghost victims: seq<u32>)
    requires j.Valid() && j.entering == [] && Plain(j.cpQueue, j.busy) && busy <= j.busy
    requires Tracks(j.g, j.V(), j.plan, busy, m, need) && !m.calm && victims != [] && victims[0] == a
    modifies j
    ensures j.Valid() && j.OnlyCheckpoint() && Plain(j.cpQueue, j.busy)
    ensures Tracks(j.g, j.V(), j.plan, busy, m, need)
    ensures j.cpQueue == AfterOne(old(j.cpQueue), old(j.busy), a)
    ensures EvictedHome(j.home, j.cpQueue, j.busy, victims[1..]) ==
            EvictedHome(old(j.home), old(j.cpQueue), old(j.busy), victims)
  {
    hide Inv, Consistent, LenOf, AllPending, TxsOf, View.All, Tracks, Plain, Owner, EndUpTo, Leaving, Stuck, Safe,
        EvictedHome, LastCopy;
    ghost var q, v, plan, home := j.cpQueue, j.V(), j.plan, j.home;
    assert v.queue == q;
    QueueValid(j.g, v);
    LastCopyIs(q, a);
    var i := Owner(j.cpQueue, a);
    if i >= 0 && a !in j.busy {
      SafeAfter(q, busy, i, a);
      var b := BufOf(j.cpQueue[i].bufs, a);
      OwnedCopy(q, a);
      FlushBuf(j, i, b);
      assert j.V().queue == j.cpQueue;
      PlainAfter(q, j.busy, i + 1, b.lba, Leaving(q, i, b.lba));
      TracksAfter(j.g, v, j.V(), plan, busy, m, need);
      AnyPlan(j.g, j.V(), [], j.plan, busy, m, need);
    }
    EvictStep(home, q, j.busy, victims, j.home);
  }

  lemma CalmPlan(g: Geometry, v: View, plan: seq<seq<u32>>, busy: set<u32>, m: Mode, need: nat)
    requires Tracks(g, v, plan, busy, m, need)
    ensures m.calm ==> plan == []
  {
  }

  lemma AnyPlan(g: Geometry, v: View, plan: seq<seq<u32>>, plan': seq<seq<u32>>, busy: set<u32>, m: Mode, need: nat)
    requires Tracks(g, v, plan, busy, m, need) && !m.calm
    ensures Tracks(g, v, plan', busy, m, need)
  {
  }

  /** The first part of `jbd_journal_alloc_block`: takes the block after the last one. Once none is
      left in front of the start of the journal, the first transaction on the queue is checkpointed. */
  method TakeBlock(j: Journal, ghost busy: set<u32>, ghost m: Mode, ghost need: nat) returns (block: nat, ok: bool)
    requires j.Valid() && j.entering == [] && Plain(j.cpQueue, j.busy)
    requires Tracks(j.g, j.V(), j.plan, busy, m, need + 1)
    modifies j
    ensures j.Valid() && j.Kept() && Plain(j.cpQueue, j.busy) && Restful(j, m)
    ensures j.plan == old(j.plan) && j.stages == old(j.stages)
    ensures ok ==> Tracks(j.g, j.V(), j.plan, busy, m, need)
    ensures ok ==> Ring(j.cpQueue, j.home, old(j.last)) == Checkpointed(j.g, old(RingOf(j)))
    ensures !ok ==> !m.room && Jammed(j.g, j.V()) && RingOf(j) == JammedAt(j.g, old(RingOf(j)))
    ensures j.g.Inside(block) && block == old(j.last) && j.last == j.g.Inc(block) == NextBlock(j.g, block)
    ensures j.reserved == old(j.reserved) + 1 && LenOf(j.live) <= old(LenOf(j.live))
  {
    hide Inv, Consistent, LenOf, AllPending, TxsOf, View.All, Tracks, Plain, Stuck, Safe, Jammed, FlushedHome, FullAt,
        NextBlock;
    ghost var v := j.V();
    assert v.queue == j.cpQueue;
    block := j.last;
    LastInside(j.g, v, j.plan, busy, m, need + 1);
    j.last := j.g.Inc(block);
    j.reserved := j.reserved + 1;
    ghost var w := j.V();
    assert w == v.(last := j.g.Inc(v.last), reserved := v.reserved + 1);
    Reserved(j.g, v, j.plan, busy, m, need);
    FullRing(j.g, v, j.plan, busy, m, need);
    SameAll(v, w);
    FullIff(j.g, v, w);
    ok := true;
    if j.last == j.start {
      ok := !Stuck(j.cpQueue);
      PurgeHead(j);
      assert j.V().queue == j.cpQueue && j.last == w.last;
      PurgedOut(j.g, w, j.V(), j.plan, busy, m, need);
    } else {
      ok := j.last != j.diskStart;
    }
  }

  /** `jbd_journal_alloc_block`: then a buffer is got for the block, for which the cache makes room. Not
      `ok` if the ring is jammed, which does not happen while there is room. */
  method AllocBlock(j: Journal, ghost busy: set<u32>, ghost m: Mode, ghost need: nat)
    returns (block: nat, ok: bool)
    requires j.Valid() && j.entering == [] && Plain(j.cpQueue, j.busy) && On(j, busy, m, need + 1)
    modifies j
    ensures j.Valid() && j.Kept() && Plain(j.cpQueue, j.busy) && Restful(j, m)
    ensures ok ==> On(j, busy, m, need)
    ensures !ok ==> Halted(j, busy, m)
    ensures j.g.Inside(block) && block == old(j.last) && j.last == j.g.Inc(block)
    ensures j.reserved == old(j.reserved) + 1 && LenOf(j.live) <= old(LenOf(j.live))
  {
    hide Inv, Consistent, LenOf, AllPending, TxsOf, View.All, Tracks, Plain, Stuck, Safe, Jammed, Ran, AfterAll,
        EvictedHome, TakenAll, Held, Checkpointed, JammedAt, NextBlock;
    ghost var r, stages, plan := RingOf(j), j.stages, j.plan;
    RanIs(j.g, stages, plan, r, busy, m, need + 1);
    block, ok := TakeBlock(j, busy, m, need);
    if ok {
      RanMore(j.g, stages, plan, r, busy, m, need, j.busy, Ring(j.cpQueue, j.home, r.last));
      Shake(j, busy, m, need);
      ghost var v := j.V();
      j.stages := j.stages + [j.busy];
      assert j.V() == v;
    }
  }

  lemma RanIs(g: Geometry, stages: seq<set<u32>>, plan: seq<seq<u32>>, r: Ring, busy: set<u32>, m: Mode, need: nat)
    requires Ran(g, stages, plan, r, busy, m, need)
    ensures |stages| + need == m.total && Held(stages, busy, m.held) && r == TakenAll(g, m.base, stages, m.plan)
  {
  }

  /** The journal sees a full ring by the start of the first transaction on the queue. */
  lemma FullIff(g: Geometry, v: View, w: View)
    requires Inv(g, v) && g.Inside(v.last) && w.last == g.Inc(v.last) && w.start == v.start
    requires w.last == w.start ==> v.queue != []
    ensures NextBlock(g, v.last) == w.last && (FullAt(g, Ring(v.queue, v.home, v.last)) <==> w.last == w.start)
  {
    hide LogInv, HomeInv, Traced, QueuePending, Copies, TxsOf, Flat, TotalLen, LenOf;
    if v.queue != [] { HeadNamed(g, v, v.queue[0]); }
  }

  lemma LastInside(g: Geometry, v: View, plan: seq<seq<u32>>, busy: set<u32>, m: Mode, need: nat)
    requires Inv(g, v) && Tracks(g, v, plan, busy, m, need)
    ensures g.Inside(v.last)
  {
  }

  lemma Reserved(g: Geometry, v: View, plan: seq<seq<u32>>, busy: set<u32>, m: Mode, need: nat)
    requires Inv(g, v) && Tracks(g, v, plan, busy, m, need + 1) && g.Inside(v.last)
    ensures Inv(g, v.(last := g.Inc(v.last), reserved := v.reserved + 1))
  {
    hide LogInv, HomeInv, Traced, QueuePending, Copies, TxsOf, Flat, TotalLen, LenOf, Clean;
  }

  /** Where the ring stands after one block more. */
  lemma RingAfter(g: Geometry, v: View)
    requires Inv(g, v) && v.Used() < g.Size() && g.Inside(v.last)
    ensures var w := v.(last := g.Inc(v.last), reserved := v.reserved + 1);
            && w.Used() == v.Used() + 1
            && (w.last == w.diskStart <==> w.Used() == g.Size())
            && (w.last == w.start <==> w.Used() == g.Size() && v.Idle() == 0)
  {
    hide LogInv, HomeInv, Traced, QueuePending, QueueOk, Copies, TxsOf, Flat, TotalLen, LenOf;
    UsedIs(v);
    UsedIs(v.(last := g.Inc(v.last), reserved := v.reserved + 1));
    LenOfAtMost(v.live, v.Idle());
    PrefixLen(g, v, v.Idle());
    if v.Idle() == 0 {
      assert v.live[..0] == [];
      NoLive();
    }
  }

  /** With one block more, the ring is full just if the journal sees it, or it is jammed. */
  lemma FullRing(g: Geometry, v: View, plan: seq<seq<u32>>, busy: set<u32>, m: Mode, need: nat)
    requires Inv(g, v) && Tracks(g, v, plan, busy, m, need + 1) && g.Inside(v.last)
    ensures var w := v.(last := g.Inc(v.last), reserved := v.reserved + 1);
            && (w.last == w.start ==>
                  && w.queue != [] && Current(w) && w.Used() == g.Size() && !m.fits
                  && (m.room ==> !Stuck(w.queue) && (m.calm || Safe(w.queue, busy)))
                        && (m.calm && !m.room ==> Stuck(w.queue))
                  && TotalLen(w.open) + w.reserved + need == m.total < g.Size() && (m.calm ==> plan == []))
            && (w.last != w.start && w.last == w.diskStart ==> Jammed(g, w) && !m.room && !m.fits)
            && (w.last != w.start && w.last != w.diskStart ==> Tracks(g, w, plan, busy, m, need))
  {
    hide LogInv, HomeInv, Traced, QueuePending, QueueOk, Copies, TxsOf, Flat, TotalLen, LenOf, Stuck, Safe;
    RingAfter(g, v);
    IdleIff(g, v);
    UsedIs(v);
    if v.live == [] { NoLive(); }
  }

  /** The journal and the disk name the same start only if every transaction of the log on disk
      is still on the queue. */
  lemma CurrentNoIdle(g: Geometry, v: View)
    requires Inv(g, v) && Current(v)
    ensures v.Idle() == 0
  {
    hide LogInv, HomeInv, Traced, QueuePending, Copies, TxsOf, Flat, TotalLen, QueueOk;
    ReadBackLen(g, v);
    PlusZero(v.diskSequence);
    if v.Idle() > 0 { PlusDiffer(v.diskSequence, 0, v.Idle()); }
  }

  lemma IdleIff(g: Geometry, v: View)
    requires Inv(g, v)
    ensures Current(v) <==> v.Idle() == 0
  {
    hide LogInv, HomeInv, Traced, QueuePending, Copies, TxsOf, Flat, TotalLen, QueueOk;
    if Current(v) { CurrentNoIdle(g, v); }
    if v.Idle() == 0 {
      PlusZero(v.diskSequence);
      assert v.live[..0] == [];
      NoLive();
    }
  }

  lemma ReadBackLen(g: Geometry, v: View)
    requires Inv(g, v)
    ensures |v.live| < g.Size() < 0x8000_0000
  {
    hide HomeInv, Traced, QueuePending, Copies, TxsOf, Laid, FreshAhead;
    ReadBack(v.live, v.open, v.diskSequence);
    TotalLenAppend(Flat(v.live), v.open);
  }

  lemma FrontGone(queue: seq<Trans>)
    requires queue != []
    ensures !Stuck(queue[1 + DonePrefix(queue[1..])..])
  {
    var n := DonePrefix(queue[1..]);
    if 1 + n < |queue| { assert queue[1 + n..][0] == queue[1..][n]; }
  }

  /** The full ring after one round of checkpointing: if the first transaction was finished, only
      the start in memory moved, and the ring is jammed; else there is room again. */
  lemma PurgedOut(g: Geometry, w: View, v: View, plan: seq<seq<u32>>, busy: set<u32>, m: Mode, need: nat)
    requires Inv(g, w) && Inv(g, v) && Current(w) && w.queue != [] && w.Used() == g.Size() && w.last == w.start
    requires TotalLen(w.open) + w.reserved + need == m.total < g.Size() && !m.fits && (m.calm ==> plan == [])
    requires m.room ==> !Stuck(w.queue) && (m.calm || Safe(w.queue, busy))
    requires m.calm && !m.room ==> Stuck(w.queue)
    requires v.open == w.open && v.reserved == w.reserved && v.last == w.last
    requires Stuck(w.queue) ==> v == Popped(g, w, 1)
    requires !Stuck(w.queue) ==> Current(v) && v.queue == w.queue[1 + DonePrefix(w.queue[1..])..]
    requires |v.live| < |w.live| ==> LenOf(v.live) < LenOf(w.live)
    ensures Stuck(w.queue) ==> Jammed(g, v)
    ensures !Stuck(w.queue) ==> Tracks(g, v, plan, busy, m, need)
  {
    hide LogInv, HomeInv, Traced, QueuePending, QueueOk, TxsOf, Flat, TotalLen, LenOf, Stuck, Safe, DonePrefix;
    if Stuck(w.queue) {
      PopLeavesDiskBehind(g, w);
    } else {
      FrontGone(w.queue);
      CurrentNoIdle(g, v);
      CurrentNoIdle(g, w);
      UsedIs(v);
      UsedIs(w);
      if m.room && !m.calm { SafeTail(w.queue, busy, 1 + DonePrefix(w.queue[1..])); }
    }
  }
}
