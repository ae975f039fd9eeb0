/** Whole journalling sessions, and what a crash in the middle of one recovers to. */
module JournalRuns {
  import opened Words
  import opened JournalFormat
  import opened JournalRecovery
  import opened JournalWalk
  import opened JournalReplay
  import opened JournalLayout
  import opened JournalState
  import opened JournalRing
  import opened JournalSession
  import opened JournalCheckpoint
  import opened JournalEvict
  import opened JournalFlush
  import opened JournalSpace
  import opened JournalWriter
  import opened JournalCommit

  /** What must be on the home blocks after recovery, when the session began with `origin`: the
      last copy of each block that the committed transactions logged and did not revoke; what it
      held at first, if none of them logged or revoked it; and else what it held at first or a
      copy that one of them logged. */
  ghost predicate Outcome(origin: seq<Block>, home: seq<Block>, txs: seq<Tx>) {
    && |home| == |origin|
    && forall a: u32 :: a < |home| ==>
         && (Surviving(txs, a).Some? ==> home[a] == Surviving(txs, a).value)
         && (LastEvent(txs, a) < 0 ==> home[a] == origin[a])
         && FromLog(origin, home, txs, a)
  }

  lemma {:induction false} SurvivorIsLogged(txs: seq<Tx>, a: u32)
    requires Surviving(txs, a).Some?
    ensures exists k :: 0 <= k < |txs| && LoggedAs(txs[k], a, Surviving(txs, a).value)
  {
    SurvivingIsLastEvent(txs, a);
    assert LoggedAs(txs[LastEvent(txs, a)], a, Surviving(txs, a).value);
  }

  lemma OutcomeIs(origin: seq<Block>, before: seq<Block>, home: seq<Block>, txs: seq<Tx>)
    requires Traced(origin, before, txs) && |home| == |before| && |home| <= 0x1_0000_0000
    requires forall a: u32 :: a < |home| ==>
               home[a] == if Surviving(txs, a).Some? then Surviving(txs, a).value else before[a]
    ensures Outcome(origin, home, txs)
  {
    hide Surviving, LastWrite, LastEvent, LoggedAs;
    forall a: u32 | a < |home|
      ensures LastEvent(txs, a) < 0 ==> home[a] == origin[a]
      ensures FromLog(origin, home, txs, a)
    {
      assert FromLog(origin, before, txs, a);
      SurvivingIsLastEvent(txs, a);
      if Surviving(txs, a).Some? { SurvivorIsLogged(txs, a); }
      if LastEvent(txs, a) < 0 { NeverLogged(txs, a); }
    }
  }

  lemma NeverLogged(txs: seq<Tx>, a: u32)
    requires LastEvent(txs, a) < 0
    ensures forall k, d :: 0 <= k < |txs| ==> !LoggedAs(txs[k], a, d)
  {
    hide LastEvent, LastWrite;
    assert forall k :: -1 < k < |txs| ==> LastWrite(txs[k].writes, a).None?;
  }

  /** Mounting after a crash: what `jbd_recover` makes of the disk. */
  method CrashAndRecover(g: Geometry, img: Image, ghost origin: seq<Block>, ghost txs: seq<Tx>)
    returns (home: seq<Block>)
    requires Consistent(g, origin, img, txs) && img.start < 0x1_0000_0000
    ensures Outcome(origin, home, txs)
  {
    hide IsWalk, Commits, Txs, Recovered, Surviving, ValidLog, Traced, WalkEnds, Walk;
    var fs := new JbdFs(g, img.log, img.home, img.start, img.sequence);
    if img.start != 0 {
      ghost var items :| RecoversFrom(g, img, txs, items);
      WalkIs(img.log, g, img.start, img.start, img.sequence, items);
    }
    var r := fs.Recover();
    home := fs.home;
    OutcomeIs(origin, img.home, home, txs);
  }

  // ----- Sessions

  /** What may happen in a session: the running transaction takes hold of a block, the cache
      writes back the buffer of a block, or the transaction commits, while the cache writes back
      some blocks each time that a log buffer is taken. */
  datatype Op = Claim(block: u32) | WriteBack(block: u32) | Log(todo: Todo, plan: seq<seq<u32>>)

  /** What comes of each. */
  datatype Event = Claimed | WroteBack(data: Block) | Idle | Committed(tx: Tx) | Nothing | Refused

  /** A session at some time. */
  datatype Snap = Snap(v: View, busy: set<u32>)

  ghost function SnapOf(j: Journal): Snap
    reads j
  {
    Snap(j.V(), j.busy)
  }

  /** The transaction can be committed. */
  ghost predicate MayLog(g: Geometry, s: Snap, todo: Todo, plan: seq<seq<u32>>) {
    && Ready(g, |s.v.home|, s.busy, todo) && Plain(s.v.queue, s.busy)
    && Roomy(g, s.v, plan == [] || Safe(s.v.queue, Keep(s.busy, todo)), NeedOf(g.words, TxOf(todo)))
  }

  /** What an operation does: a block is written back just if a committed buffer is all that the
      cache has of it, and then with the data of its last pending copy; and a transaction commits
      just if it can and has something to commit. Queue and home blocks are then what the write-backs of
      the plan and of a full ring make of them. */
  ghost predicate Next(g: Geometry, s: Snap, op: Op, e: Event, s': Snap) {
    match op
    case Claim(a) => e == Claimed && s' == s.(busy := s.busy + {a})
    case WriteBack(a) =>
      var i := Owner(s.v.queue, a);
      if i >= 0 && a !in s.busy && a < |s.v.home| && (exists b :: b in s.v.queue[i].bufs && b.lba == a) then
        && e == WroteBack(BufOf(s.v.queue[i].bufs, a).data) && s'.v.home == s.v.home[a := e.data]
        && s'.v.queue == EndUpTo(s.v.queue, i + 1, a)[Leaving(s.v.queue, i, a)..]
        && s'.v.All() == s.v.All() && s'.busy == s.busy
      else e == Idle && s' == s
    case Log(todo, plan) =>
      if !MayLog(g, s, todo, plan) then e == Refused && s' == s
      else
        && e == (if TxOf(todo) == EMPTY_TX then Nothing else Committed(TxOf(todo)))
        && s'.v.All() == s.v.All() + (if TxOf(todo) == EMPTY_TX then [] else [TxOf(todo)])
        && s'.busy == s.busy - Released(todo)
        && if TxOf(todo) == EMPTY_TX then s'.v == s.v
           else
             exists stages ::
               Settles(g, Ring(s.v.queue, s.v.home, s.v.last), plan, stages, s.busy, todo, s'.v.queue, s'.v.home)
  }

  /** A commit brings home each block of the plan that is pending, and that the transaction does not
      hold, with the data of its last pending copy. */
  lemma PlannedIsHome(g: Geometry, s: Snap, todo: Todo, plan: seq<seq<u32>>, e: Event, s': Snap, k: nat, a: u32)
    requires Next(g, s, Log(todo, plan), e, s') && MayLog(g, s, todo, plan) && TxOf(todo) != EMPTY_TX
    requires (forall t :: t in s.v.queue ==> t.Valid()) && a !in s.busy && a < |s.v.home|
    requires k < NeedOf(g.words, TxOf(todo)) && k < |plan| && a in plan[k] && LastCopy(s.v.queue, a).Some?
    ensures |s'.v.home| == |s.v.home| && s'.v.home[a] == LastCopy(s.v.queue, a).value
  {
    hide NeedOf, Dirty, AfterAll, Released, MayLog, Queued, LastCopy, TakenAll, Keep, Trans.Valid;
    var r := Ring(s.v.queue, s.v.home, s.v.last);
    var stages :| Settles(g, r, plan, stages, s.busy, todo, s'.v.queue, s'.v.home);
    VictimsAreHome(g, r, stages, plan, Keep(s.busy, todo), s.busy, k, a);
  }

  /** What a crash in this state comes to: the disk recovers to the transactions committed by then if
      no old records ahead add a commit, and, as long as none of them is gone from the log, only then.
      Over a log without records of ids to come that is always so. */
  ghost predicate Judged(g: Geometry, origin: seq<Block>, v: View) {
    && ValidLog(v.log, g) && g.Inside(v.diskStart) && v.Len() < g.Size()
    && (NoneAhead(g, v) ==> Consistent(g, origin, v.Disk(), v.All()))
    && (v.gone == [] ==> (Consistent(g, origin, v.Disk(), v.All()) <==> NoneAhead(g, v)))
    && (Clean(g, v.before, v.began) ==> NoneAhead(g, v))
  }

  /** So it is at any time, and what is committed by then are the first of the transactions committed
      in the end. */
  ghost predicate History(g: Geometry, origin: seq<Block>, states: seq<View>, all: seq<Tx>) {
    forall i :: 0 <= i < |states| ==> Judged(g, origin, states[i]) && states[i].All() <= all
  }

  lemma ReachedIsJudged(g: Geometry, origin: seq<Block>, v: View)
    requires Reached(g, origin, v.before, v.began, v)
    ensures Judged(g, origin, v)
  {
    hide Consistent, NoneAhead, Clean, View.Len, View.All, RecoversFrom, HomeInv, Traced, QueueOk, Named;
    DiskIsConsistent(g, v);
  }

  lemma HistoryGrows(j: Journal, states: seq<View>, all: seq<Tx>)
    requires j.Valid() && History(j.g, j.origin, states, all) && states <= j.images && all <= j.V().All()
    requires forall i :: |states| <= i < |j.images| ==>
               j.images[i].All() == all || j.images[i].All() == j.V().All()
    ensures History(j.g, j.origin, j.images, j.V().All())
  {
    hide Inv, Consistent, View.All, Judged;
    var states', all' := j.images, j.V().All();
    forall i | 0 <= i < |states'|
      ensures Judged(j.g, j.origin, states'[i]) && states'[i].All() <= all'
    {
      if i < |states| { assert states'[i] == states[i]; }
      assert Reached(j.g, j.origin, j.before, j.began, states'[i]);
      ReachedIsJudged(j.g, j.origin, states'[i]);
    }
  }

  lemma QuietAfter(j: Journal, v: View, q: seq<Trans>)
    requires j.Valid() && j.entering == [] && j.open == [] && j.reserved == 0
    requires v.Used() < j.g.Size() && |q| <= |v.All()| && RevokesSettled(v.All(), q)
    requires j.V().All() == v.All() && AllPending(j.cpQueue) <= AllPending(q) && LenOf(j.live) <= LenOf(v.live)
    ensures |j.cpQueue| <= |j.V().All()| && Quiet(j)
  {
    hide Inv, Consistent, LenOf, AllPending, TxsOf, View.All, View.Used, RevokesSettled;
    CpQueueValid(j);
    assert j.V().queue == j.cpQueue;
    StillSettled(v.All(), q, j.cpQueue);
    assert TotalLen([]) == 0;
    UsedIs(v);
    UsedIs(j.V());
  }

  /** The test for a commit, by what the journal and the superblock on disk hold. */
  method CanLog(j: Journal, todo: Todo, plan: seq<seq<u32>>) returns (may: bool)
    requires Quiet(j) && j.g.Valid()
    ensures may <==> MayLog(j.g, SnapOf(j), todo, plan)
  {
    hide Inv, Consistent, LenOf, AllPending, TxsOf, View.All, View.Used, Plain, NeedOf, Ready, RevokesSettled, Safe,
        SafeNow, Fits, Keep;
    var need := NeedOf(j.g.words, TxOf(todo));
    assert j.V().queue == j.cpQueue;
    RoomIsSeen(j, need);
    SafeIsSeen(j.cpQueue, Keep(j.busy, todo));
    var fits := Dist(j.g, j.diskStart, j.last) + need < j.g.Size();
    var current := j.diskStart == j.start && j.diskSequence == j.transId;
    may := Ready(j.g, |j.home|, j.busy, todo) && Plain(j.cpQueue, j.busy) &&
           (fits || (current && !Stuck(j.cpQueue) && (plan == [] || SafeNow(j.cpQueue, Keep(j.busy, todo)))));
  }

  lemma PendingHasBuf(t: Trans, a: u32)
    requires a in t.Pending()
    ensures exists b :: b in t.bufs && b.lba == a
  {
  }

  /** One operation. */
  method Step(j: Journal, uuid: seq<u32>, op: Op) returns (e: Event)
    requires Quiet(j) && j.g.Valid() && |uuid| == UUID_WORDS
    modifies j
    ensures Quiet(j) && Atomically(j) && old(j.V().All()) <= j.V().All()
    ensures Next(j.g, old(SnapOf(j)), op, e, SnapOf(j))
  {
    hide Inv, Consistent, LenOf, AllPending, TxsOf, View.All, View.Used, Plain, NeedOf, WellFormed, RevokesSettled,
        Owner, Leaving, EndUpTo, Roomy, Safe, Ready, Dirty, Dropped, Fits, Released, Keep, Trans.Pending,
        Settles, StopsShort;
    ghost var v, q := j.V(), j.cpQueue;
    assert v.queue == q;
    match op {
      case Claim(a) =>
        e := Claimed;
        j.busy := j.busy + {a};
        assert j.V() == v;
      case WriteBack(a) =>
        e := Idle;
        var i := Owner(j.cpQueue, a);
        if i >= 0 && a !in j.busy {
          CpQueueValid(j);
          PendingHasBuf(j.cpQueue[i], a);
          var b := BufOf(j.cpQueue[i].bufs, a);
          FlushBuf(j, i, b);
          QuietAfter(j, v, q);
          assert j.V().queue == j.cpQueue;
          e := WroteBack(b.data);
        }
      case Log(todo, plan) =>
        e := Refused;
        var may := CanLog(j, todo, plan);
        if may {
          j.plan := plan;
          assert j.V() == v;
          var jam;
          ghost var stages;
          jam, stages := CommitTrans(j, uuid, todo);
          assert j.V().queue == j.cpQueue;
          assert TxOf(todo) != EMPTY_TX ==>
              Settles(j.g, Ring(v.queue, v.home, v.last), plan, stages, old(j.busy), todo, j.V().queue, j.V().home);
          e := if TxOf(todo) == EMPTY_TX then Nothing else Committed(TxOf(todo));
        }
    }
  }

  /** A session over any log, with whatever transactions and write-backs come: for each operation
      there is one event, the one that `Next` says, and `Judged` says what a crash at any time, in the
      middle of an operation as well, comes to. */
  method Run(g: Geometry, log: seq<Block>, home: seq<Block>, sequence: u32, uuid: seq<u32>, ops: seq<Op>)
    returns (j: Journal, trace: seq<Event>, ghost states: seq<Snap>)
    requires ValidLog(log, g) && |home| <= 0x1_0000_0000 && |uuid| == UUID_WORDS
    ensures fresh(j) && Quiet(j) && j.g == g && |trace| == |ops| && |states| == |ops| + 1
    ensures j.origin == home && j.before == log && j.began == Succ(sequence)
    ensures states[0].v.All() == [] && states[0].v.home == home && states[0].busy == {} && states[|ops|] == SnapOf(j)
    ensures forall i :: 0 <= i < |ops| ==> Next(g, states[i], ops[i], trace[i], states[i + 1])
    ensures History(g, home, j.images, j.V().All()) && Judged(g, home, j.V())
  {
    hide Inv, Consistent, LenOf, AllPending, TxsOf, View.All, View.Used, History, Next, RevokesSettled, Clean,
        NoneAhead, View.Len;
    assert g.Valid();
    j := new Journal.Start(g, log, home, sequence);
    trace, states := [], [SnapOf(j)];
    StartHistory(j);
    assert Quiet(j) by { NonePending(); }
    var n := 0;
    while n < |ops|
      invariant n <= |ops| && |trace| == n && |states| == n + 1 && states[n] == SnapOf(j)
      invariant fresh(j) && Quiet(j) && j.g == g && j.origin == home && j.before == log && j.began == Succ(sequence)
      invariant states[0].v.All() == [] && states[0].v.home == home && states[0].busy == {}
      invariant forall i :: 0 <= i < n ==> Next(g, states[i], ops[i], trace[i], states[i + 1])
      invariant History(g, home, j.images, j.V().All())
    {
      ghost var images, all := j.images, j.V().All();
      var e := Step(j, uuid, ops[n]);
      trace, states := trace + [e], states + [SnapOf(j)];
      HistoryGrows(j, images, all);
      n := n + 1;
    }
    ReachedIsJudged(g, home, j.V());
  }

  lemma NonePending()
    ensures RevokesSettled([], [])
  {
  }

  lemma StartHistory(j: Journal)
    requires j.Valid() && j.images == [j.V()] && j.V().All() == []
    ensures History(j.g, j.origin, j.images, [])
  {
    hide Inv, Consistent, View.All, Judged;
    assert Reached(j.g, j.origin, j.before, j.began, j.images[0]);
    ReachedIsJudged(j.g, j.origin, j.images[0]);
  }

  /** `jbd_journal_stop`: all that was committed is home, and the superblock says that the log
      is empty. */
  method Stop(j: Journal)
    requires Quiet(j) && Plain(j.cpQueue, j.busy)
    modifies j
    ensures j.diskStart == 0 && j.diskSequence == 0 && j.V().All() == old(j.V().All())
    ensures old(j.images) < j.images && j.images[|j.images| - 1] == j.V()
    ensures forall i :: |old(j.images)| <= i < |j.images| ==> j.images[i].All() == j.V().All()
    ensures forall i :: 0 <= i < |j.images| - 1 ==> Judged(j.g, j.origin, j.images[i])
    ensures Consistent(j.g, j.origin, j.V().Disk(), j.V().All())
    ensures Outcome(j.origin, j.home, j.V().All()) && j.log == old(j.log)
  {
    hide Inv, Consistent, LenOf, AllPending, TxsOf, View.All, View.Used, Plain, Agrees, Judged;
    PurgeAll(j);
    ghost var v := j.V();
    AllJudged(j);
    assert v.queue == [];
    AllHome(j.g, v);
    j.start, j.transId := 0, 0;
    j.JournalWriteSb();
    j.diskStart, j.diskSequence := j.sbStart, j.sbSequence;
    j.dirty := false;
    SameAll(v, j.V());
    StoppedConsistent(j.g, v, j.V());
    j.images := j.images + [j.V()];
  }

  lemma AllJudged(j: Journal)
    requires j.Valid()
    ensures forall i :: 0 <= i < |j.images| ==> Judged(j.g, j.origin, j.images[i])
  {
    hide Inv, Judged;
    forall i | 0 <= i < |j.images|
      ensures Judged(j.g, j.origin, j.images[i])
    {
      assert Reached(j.g, j.origin, j.before, j.began, j.images[i]);
      ReachedIsJudged(j.g, j.origin, j.images[i]);
    }
  }

  lemma AllHome(g: Geometry, v: View)
    requires Inv(g, v) && v.queue == []
    ensures Agrees(v.home, v.home, v.All()) && Outcome(v.origin, v.home, v.All())
  {
    hide LastEvent, LastWrite, Surviving, LogInv, View.All;
    forall a: u32 | a < |v.home|
      ensures v.home[a] == if Surviving(v.All(), a).Some? then Surviving(v.All(), a).value else v.home[a]
    {
      assert HomeOk(v.home, v.All(), v.queue, a);
      SurvivingIsLastEvent(v.All(), a);
    }
    OutcomeIs(v.origin, v.home, v.home, v.All());
  }

  lemma StoppedConsistent(g: Geometry, v: View, v': View)
    requires Inv(g, v) && v'.log == v.log && v'.home == v.home && v'.diskStart == 0
    requires v'.All() == v.All() && Agrees(v.home, v.home, v.All())
    ensures Consistent(g, v.origin, v'.Disk(), v'.All())
  {
    hide LogInv, QueuePending, View.All, Agrees;
  }
}
