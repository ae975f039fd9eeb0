/** A journalling session as one value, its invariant, and why each single step keeps it. */
module JournalSession {
  import opened Words
  import opened JournalFormat
  import opened JournalRecovery
  import opened JournalLayout
  import opened JournalState
  import opened JournalRing

  /** The disk (log, home blocks, superblock fields; and what log and home blocks held when the
      session began, with the id it began with), the fields of `struct jbd_journal`, and
      the history: transactions `gone` from the log the disk names, the ones still `live` in
      it, the records of the one `open` now, and the blocks `reserved` for its next record. */
  datatype View = View(log: seq<Block>, home: seq<Block>, origin: seq<Block>, before: seq<Block>, began: u32,
                       diskStart: nat, diskSequence: u32, start: nat, last: nat, transId: u32, allocTransId: u32,
                       queue: seq<Trans>, gone: seq<Tx>, live: seq<Logged>, open: seq<Item>, reserved: nat)
  {
    function All(): (txs: seq<Tx>)
      ensures |txs| == |gone| + |live|
    {
      gone + TxsOf(live)
    }

    function Disk(): Image { Image(log, home, diskStart, diskSequence) }

    /** Transactions in the log that are off the queue already. */
    function Idle(): int { |live| - |queue| }

    /** Blocks that the records in the log take. */
    function Len(): nat { TotalLen(Flat(live) + open) }

    function Used(): nat { TotalLen(Flat(live) + open) + reserved }
  }

  function Dist(g: Geometry, p: int, q: int): int {
    if q >= p then q - p else q - p + g.Size()
  }

  /** Each pending buffer's copy lies in its transaction's part of the log. */
  ghost predicate Copies(g: Geometry, log: seq<Block>, home: seq<Block>, t: Trans)
    requires ValidLog(log, g)
  {
    forall b :: b in t.bufs ==>
      && g.Inside(b.jbdLba) && Dist(g, t.startIblock, b.jbdLba) < t.allocBlocks
      && 0 < b.lba < |home| && |b.data| == g.words
      && log[b.jbdLba] == Escaped(b.data)
  }

  /** Queued transactions have consecutive ids and adjacent segments of the ring. */
  ghost predicate Placed(g: Geometry, start: nat, sequence: u32, live: seq<Logged>, j: nat, t: Trans)
    requires j < |live|
  {
    && t.id == Plus(sequence, j)
    && t.startIblock == g.Adv(start, LenOf(live[..j]))
    && t.allocBlocks == TotalLen(live[j].items)
  }

  ghost predicate QueueOk(g: Geometry, v: View)
    requires ValidLog(v.log, g) && |v.queue| <= |v.live|
  {
    forall i :: 0 <= i < |v.queue| ==>
      && Placed(g, v.diskStart, v.diskSequence, v.live, v.Idle() + i, v.queue[i])
      && Copies(g, v.log, v.home, v.queue[i])
  }

  /** `start` and `trans_id` name the first transaction of the queue, or the next one to come. */
  ghost predicate Named(g: Geometry, v: View)
    requires |v.queue| <= |v.live|
  {
    && v.start == g.Adv(v.diskStart, LenOf(v.live[..v.Idle()]))
    && v.transId == Plus(v.diskSequence, v.Idle())
    && v.allocTransId == Plus(v.diskSequence, |v.live|)
    && v.last == g.Adv(v.diskStart, v.Used())
    && v.Used() <= g.Size()
  }

  /** The log that the session begins with holds no records of ids to come. */
  ghost predicate Clean(g: Geometry, before: seq<Block>, began: u32) {
    ValidLog(before, g) && FreshAhead(before, g, g.first, g.Size(), began)
  }

  /** As long as the log on disk holds all transactions of the session, it begins at its first
      block, and the blocks behind its records hold what they did before. */
  ghost predicate Begun(g: Geometry, before: seq<Block>, began: u32, gone: seq<Tx>, log: seq<Block>, diskStart: nat,
                        diskSequence: u32, len: nat, used: nat)
  {
    && ValidLog(before, g) && ValidLog(log, g)
    && (gone == [] ==> diskStart == g.first && diskSequence == began && Untouched(g, before, log, len, used))
  }

  /** Behind the first `len` blocks, all is as it was before, but for copies in the blocks taken. */
  ghost predicate Untouched(g: Geometry, before: seq<Block>, log: seq<Block>, len: nat, used: nat)
    requires ValidLog(before, g) && ValidLog(log, g)
  {
    forall p :: g.first + len <= p < g.maxlen ==>
      log[p] == before[p] || (p < g.first + used && log[p][0] != MAGIC)
  }

  ghost predicate Inv(g: Geometry, v: View) {
    && ValidLog(v.log, g) && g.Inside(v.diskStart) && |v.queue| <= |v.live|
    && LogInv(g, v.log, v.diskStart, v.diskSequence, v.live, v.open, Clean(g, v.before, v.began))
    && Begun(g, v.before, v.began, v.gone, v.log, v.diskStart, v.diskSequence, v.Len(), v.Used())
    && QueueOk(g, v) && Named(g, v)
    && HomeInv(v.home, v.All(), v.queue) && QueuePending(v.All(), v.queue)
    && Traced(v.origin, v.home, v.All())
  }

  /** The superblock on disk names what the journal in memory names. */
  predicate Current(v: View) {
    v.diskStart == v.start && v.diskSequence == v.transId
  }

  /** No old records ahead of those in the log add a commit to them. */
  ghost predicate NoneAhead(g: Geometry, v: View)
    requires ValidLog(v.log, g) && g.Inside(v.diskStart) && v.Len() < g.Size()
  {
    Ahead(v.log, g, v.diskStart, v.Len(), Plus(v.diskSequence, |v.live|))
  }

  /** The disk of a session recovers to what it committed, if no old records ahead add to it; as
      long as no transaction is gone from the log, exactly then. */
  lemma DiskIsConsistent(g: Geometry, v: View)
    requires Inv(g, v)
    ensures v.Len() < g.Size() && (Clean(g, v.before, v.began) ==> NoneAhead(g, v))
    ensures NoneAhead(g, v) ==> Consistent(g, v.origin, v.Disk(), v.All())
    ensures v.gone == [] ==> (Consistent(g, v.origin, v.Disk(), v.All()) <==> NoneAhead(g, v))
    ensures !NoneAhead(g, v) ==>
              forall all :: RecoversFrom(g, v.Disk(), v.All(), all) ==> Commits(all) > |v.live|
  {
    hide Ahead, Consistent, RecoversFrom, HomeInv, Traced, QueueOk, Laid, FreshAhead, Clean;
    ImageIsConsistent(g, v.origin, v.Disk(), v.gone, v.live, v.open, v.queue);
    if Clean(g, v.before, v.began) { FreshIsAhead(g, v.log, v.diskStart, v.diskSequence, v.live, v.open); }
  }

  // ----- Lengths

  lemma LenOfPrefix(live: seq<Logged>, j: nat)
    requires j < |live|
    ensures LenOf(live[..j + 1]) == LenOf(live[..j]) + TotalLen(live[j].items) <= LenOf(live)
  {
    assert live[..j + 1] == live[..j] + [live[j]];
    FlatOne(live[..j], live[j]);
    TotalLenAppend(Flat(live[..j]), live[j].items);
    assert live == live[..j + 1] + live[j + 1..];
    LenAppend(live[..j + 1], live[j + 1..]);
  }

  lemma LenOfAtMost(live: seq<Logged>, j: nat)
    requires j <= |live|
    ensures LenOf(live) == LenOf(live[..j]) + LenOf(live[j..])
  {
    assert live == live[..j] + live[j..];
    LenAppend(live[..j], live[j..]);
  }

  // ----- Checkpoint steps

  /** Writing a home block whose write is pending, with a copy that was logged. */
  lemma HomeWritten(g: Geometry, v: View, a: u32, data: Block, k: nat)
    requires Inv(g, v) && a < |v.home| && Owner(v.queue, a) >= 0
    requires k < |v.All()| && LoggedAs(v.All()[k], a, data)
    ensures Inv(g, v.(home := v.home[a := data]))
  {
    hide LogInv, LenOf, TotalLen, HomeInv, QueuePending, Owner, Traced, LoggedAs, View.All;
    TracedWrite(v.origin, v.home, v.All(), a, data, k);
    assert |v.home| <= 0x1_0000_0000 by { HomeSize(v.home, v.All(), v.queue); }
    HomeWriteKeeps(v.home, v.All(), v.queue, a, data);
    var v' := v.(home := v.home[a := data]);
    assert v'.All() == v.All() by { AllIs(v, v'); }
    forall i | 0 <= i < |v.queue|
      ensures Copies(g, v'.log, v'.home, v'.queue[i])
    {
      assert Copies(g, v.log, v.home, v.queue[i]);
    }
  }

  lemma AllIs(v: View, w: View)
    requires w.gone == v.gone && w.live == v.live
    ensures w.All() == v.All()
  {
  }

  lemma HomeSize(home: seq<Block>, all: seq<Tx>, queue: seq<Trans>)
    requires HomeInv(home, all, queue)
    ensures |home| <= 0x1_0000_0000
  {
  }

  /** One buffer of transaction `k` is done. */
  lemma BufEnded(g: Geometry, v: View, k: nat, a: u32)
    requires Inv(g, v) && k < |v.queue| && MayEnd(v.home, v.All(), v.queue, k, a)
    ensures Inv(g, v.(queue := v.queue[k := v.queue[k].Ended(a)]))
  {
    hide LogInv, LenOf, TotalLen, HomeInv, MayEnd, Superseding;
    var t' := v.queue[k].Ended(a);
    var v' := v.(queue := v.queue[k := t']);
    EndKeepsHome(v.home, v.All(), v.queue, k, a);
    assert forall j :: 0 <= j < k ==> a !in v.queue[j].Pending() by { MayEndFirst(v.home, v.All(), v.queue, k, a); }
    EndKeepsPending(v.All(), v.queue, k, a);
    assert HoldsLogged(v.All(), v.queue, k);
    EndedKeeps(v.queue[k], a);
    assert v'.All() == v.All() && v'.Idle() == v.Idle();
    hide QueuePending, Trans.Valid, Trans.Pending;
    forall i | 0 <= i < |v.queue|
      ensures Placed(g, v.diskStart, v.diskSequence, v.live, v.Idle() + i, v'.queue[i])
      ensures Copies(g, v.log, v.home, v'.queue[i])
    {
      assert Placed(g, v.diskStart, v.diskSequence, v.live, v.Idle() + i, v.queue[i]);
      assert Copies(g, v.log, v.home, v.queue[i]);
      EndedPlace(v.queue[k], a);
    }
  }

  lemma EndedPlace(t: Trans, a: u32)
    ensures t.Ended(a).id == t.id && t.Ended(a).startIblock == t.startIblock
    ensures t.Ended(a).allocBlocks == t.allocBlocks
  {
  }

  lemma MayEndFirst(home: seq<Block>, all: seq<Tx>, queue: seq<Trans>, k: nat, a: u32)
    requires k < |queue| <= |all| && MayEnd(home, all, queue, k, a)
    ensures a in queue[k].Pending()
    ensures forall j :: 0 <= j < k ==> a !in queue[j].Pending()
  {
  }

  /** The journal after the first `n` transactions left the queue. */
  function Popped(g: Geometry, v: View, n: nat): View
    requires n <= |v.queue|
  {
    if n == 0 then v
    else
      var t := v.queue[n - 1];
      v.(queue := v.queue[n..], start := g.Adv(t.startIblock, t.allocBlocks), transId := Succ(t.id))
  }

  /** The segment after that of transaction `j`. */
  lemma NextSegment(g: Geometry, start: nat, sequence: u32, live: seq<Logged>, open: seq<Item>, j: nat, t: Trans)
    requires g.Inside(start) && j < |live| && TotalLen(Flat(live) + open) <= g.Size()
    requires Placed(g, start, sequence, live, j, t)
    ensures g.Adv(t.startIblock, t.allocBlocks) == g.Adv(start, LenOf(live[..j + 1]))
    ensures Succ(t.id) == Plus(sequence, j + 1)
  {
    hide TotalLen, Flat, LenOf;
    LenIsTotal(live);
    LenOfPrefix(live, j);
    TotalLenAppend(Flat(live), open);
  }

  lemma PoppedKeeps(g: Geometry, v: View, n: nat)
    requires Inv(g, v) && n <= |v.queue|
    requires forall i :: 0 <= i < n ==> v.queue[i].Done()
    ensures Inv(g, Popped(g, v, n))
  {
    if n == 0 { return; }
    hide LogInv, LenOf, TotalLen, HomeInv, QueuePending, QueueOk, Named, TxsOf;
    DropKeeps(v.home, v.All(), v.queue, n);
    PoppedQueue(g, v, n);
  }

  lemma PoppedQueue(g: Geometry, v: View, n: nat)
    requires ValidLog(v.log, g) && g.Inside(v.diskStart) && 0 < n <= |v.queue| <= |v.live|
    requires QueueOk(g, v) && Named(g, v)
    ensures QueueOk(g, Popped(g, v, n)) && Named(g, Popped(g, v, n))
  {
    hide LenOf, TotalLen, Plus, Copies, ValidLog, TxsOf, Placed, Flat;
    var v' := Popped(g, v, n);
    var j := v.Idle() + (n - 1);
    assert Placed(g, v.diskStart, v.diskSequence, v.live, j, v.queue[n - 1]);
    NextSegment(g, v.diskStart, v.diskSequence, v.live, v.open, j, v.queue[n - 1]);
    QueueTail(g, v, n);
  }

  lemma QueueTail(g: Geometry, v: View, n: nat)
    requires ValidLog(v.log, g) && n <= |v.queue| <= |v.live| && QueueOk(g, v)
    ensures forall i :: 0 <= i < |v.queue| - n ==>
              && Placed(g, v.diskStart, v.diskSequence, v.live, v.Idle() + n + i, v.queue[n..][i])
              && Copies(g, v.log, v.home, v.queue[n..][i])
  {
    hide Placed, Copies, ValidLog;
    forall i | 0 <= i < |v.queue| - n
      ensures Placed(g, v.diskStart, v.diskSequence, v.live, v.Idle() + n + i, v.queue[n..][i])
      ensures Copies(g, v.log, v.home, v.queue[n..][i])
    {
      assert Placed(g, v.diskStart, v.diskSequence, v.live, v.Idle() + (n + i), v.queue[n + i]);
    }
  }

  /** The journal after its start was written to the superblock on disk. */
  function Synced(v: View): View
    requires |v.queue| <= |v.live|
  {
    v.(diskStart := v.start, diskSequence := v.transId,
       gone := v.gone + TxsOf(v.live[..v.Idle()]), live := v.live[v.Idle()..])
  }

  lemma SyncedKeeps(g: Geometry, v: View)
    requires Inv(g, v)
    ensures Inv(g, Synced(v))
    ensures Synced(v).All() == v.All() && Current(Synced(v))
    ensures LenOf(v.live) == LenOf(v.live[..v.Idle()]) + LenOf(Synced(v).live)
    ensures v.Idle() > 0 ==> LenOf(v.live[..v.Idle()]) > 0
  {
    hide LogInv, LenOf, TotalLen, HomeInv, QueuePending, Plus, Copies, ValidLog, Placed, TxsOf, Flat, View.All;
    var v' := Synced(v);
    var k := v.Idle();
    SyncedAll(v);
    SyncedLog(g, v.log, v.diskStart, v.diskSequence, v.live, v.open, Clean(g, v.before, v.began), k);
    SyncedBegun(g, v);
    PlusZero(v.transId);
    PlusPlus(v.diskSequence, k, |v'.live|);
    LenOfAtMost(v.live, k);
    PrefixLen(g, v, k);
    assert v'.live[..0] == [];
    NoLive();
    forall i | 0 <= i < |v'.queue|
      ensures Placed(g, v'.diskStart, v'.diskSequence, v'.live, v'.Idle() + i, v'.queue[i])
      ensures Copies(g, v.log, v.home, v'.queue[i])
    {
      assert Placed(g, v.diskStart, v.diskSequence, v.live, k + i, v.queue[i]);
      SyncedPlace(g, v.diskStart, v.diskSequence, v.live, v.open, k, i, v.queue[i]);
    }
  }

  lemma SyncedBegun(g: Geometry, v: View)
    requires Inv(g, v)
    ensures var v' := Synced(v);
            Begun(g, v'.before, v'.began, v'.gone, v'.log, v'.diskStart, v'.diskSequence, v'.Len(), v'.Used())
  {
    hide LogInv, HomeInv, QueuePending, QueueOk, Clean, Traced;
    var k, v' := v.Idle(), Synced(v);
    if k == 0 {
      assert v.live[..0] == [] && v.live[0..] == v.live;
      NoLive();
      PlusZero(v.diskSequence);
      assert TxsOf([]) == [] && v.gone + [] == v.gone;
    } else {
      assert |TxsOf(v.live[..k])| == k;
    }
  }

  lemma PrefixLen(g: Geometry, v: View, k: nat)
    requires Inv(g, v) && k <= |v.live|
    ensures LenOf(v.live[..k]) >= k
  {
    hide HomeInv, QueuePending, QueueOk, Named, Holds, TxsOf;
    ReadBack(v.live[..k], [], v.diskSequence);
  }

  lemma SyncedAll(v: View)
    requires |v.queue| <= |v.live|
    ensures Synced(v).All() == v.All()
  {
    var k := v.Idle();
    assert TxsOf(v.live) == TxsOf(v.live[..k]) + TxsOf(v.live[k..]);
  }

  lemma SyncedPlace(g: Geometry, start: nat, sequence: u32, live: seq<Logged>, open: seq<Item>, k: nat, i: nat,
          t: Trans)
    requires g.Inside(start) && k + i < |live| && TotalLen(Flat(live) + open) <= g.Size()
    requires Placed(g, start, sequence, live, k + i, t)
    ensures Placed(g, g.Adv(start, LenOf(live[..k])), Plus(sequence, k), live[k..], i, t)
  {
    hide LenOf, TotalLen, Plus, Flat;
    PlusPlus(sequence, k, i);
    LenOfPrefix(live, k + i);
    TotalLenAppend(Flat(live), open);
    LenOfAtMost(live[..k + i], k);
    assert live[..k + i][..k] == live[..k] && live[..k + i][k..] == live[k..][..i];
    LenIsTotal(live);
  }

  lemma LenIsTotal(live: seq<Logged>)
    ensures LenOf(live) == TotalLen(Flat(live))
  {
  }

  lemma PlusZero(t: u32)
    ensures Plus(t, 0) == t
  {
  }

  lemma NoLive()
    ensures LenOf([]) == 0
  {
  }

  /** The log named by a later start. */
  lemma SyncedLog(g: Geometry, log: seq<Block>, start: nat, sequence: u32, live: seq<Logged>, open: seq<Item>,
                  clean: bool, k: nat)
    requires LogInv(g, log, start, sequence, live, open, clean) && k <= |live|
    ensures LogInv(g, log, g.Adv(start, LenOf(live[..k])), Plus(sequence, k), live[k..], open, clean)
    ensures TotalLen(Flat(live) + open) == LenOf(live[..k]) + TotalLen(Flat(live[k..]) + open)
  {
    hide Laid, ItemAt, Logged.Valid;
    var a, b := Flat(live[..k]), Flat(live[k..]) + open;
    assert live == live[..k] + live[k..];
    FlatAppend(live[..k], live[k..]);
    assert a + b == Flat(live) + open;
    ReadBack(live[..k], [], sequence);
    assert a + [] == a;
    EndsWithCommit(live[..k]);
    DropHolds(g, log, start, sequence, a, b, clean);
  }

  lemma {:induction false} EndsWithCommit(live: seq<Logged>)
    requires forall i :: 0 <= i < |live| ==> live[i].Valid()
    ensures live != [] ==> Flat(live) != [] && Flat(live)[|Flat(live)| - 1].Commit?
    decreases |live|
  {
    if live != [] {
      EndsWithCommit(live[1..]);
    }
  }
}
