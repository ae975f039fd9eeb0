/** Single steps of writing a transaction to the log, each of which keeps the invariant. */
module JournalSteps {
  import opened Words
  import opened JournalFormat
  import opened JournalRecovery
  import opened JournalLayout
  import opened JournalState
  import opened JournalRing
  import opened JournalSession

  /** Queued copies lie in front of the records that follow them. */
  lemma CopiesKept(g: Geometry, v: View, d: nat, b: Block)
    requires Inv(g, v) && LenOf(v.live) <= d < g.Size() && |b| == g.words
    requires ValidLog(v.log[g.Adv(v.diskStart, d) := b], g)
    ensures forall i :: 0 <= i < |v.queue| ==> Copies(g, v.log[g.Adv(v.diskStart, d) := b], v.home, v.queue[i])
  {
    hide LogInv, HomeInv, QueuePending, TxsOf, Flat, TotalLen, LenOf;
    var p := g.Adv(v.diskStart, d);
    var log' := v.log[p := b];
    forall i | 0 <= i < |v.queue|
      ensures Copies(g, log', v.home, v.queue[i])
    {
      var t := v.queue[i];
      assert Placed(g, v.diskStart, v.diskSequence, v.live, v.Idle() + i, t) && Copies(g, v.log, v.home, t);
      LenOfPrefix(v.live, v.Idle() + i);
      forall c | c in t.bufs
        ensures c.jbdLba != p
      {
      }
    }
  }

  /** Writing a block that is in use: one of the records that there are then, or a copy. */
  lemma BegunWrite(g: Geometry, v: View, d: nat, b: Block, len: nat)
    requires Inv(g, v) && d < v.Used() && d < g.Size() && |b| == g.words && v.Len() <= len
    requires d < len || b[0] != MAGIC
    ensures g.Inside(g.Adv(v.diskStart, d)) && g.Adv(v.diskStart, d) < |v.log|
    ensures Begun(g, v.before, v.began, v.gone, v.log[g.Adv(v.diskStart, d) := b], v.diskStart, v.diskSequence,
                  len, v.Used())
  {
    hide LogInv, HomeInv, Traced, QueuePending, QueueOk, Copies, Flat, TotalLen, LenOf, Clean;
  }

  lemma CopiesAre(g: Geometry, v: View, v': View)
    requires ValidLog(v.log, g) && ValidLog(v'.log, g) && |v.queue| <= |v.live| && QueueOk(g, v)
    requires v'.diskStart == v.diskStart && v'.diskSequence == v.diskSequence && v'.live == v.live
    requires v'.queue == v.queue && forall i :: 0 <= i < |v.queue| ==> Copies(g, v'.log, v'.home, v.queue[i])
    ensures QueueOk(g, v')
  {
    hide Copies, Placed;
  }

  /** A copy of a buffer goes into a block taken for the record that is being written. */
  lemma DataWritten(g: Geometry, v: View, d: nat, b: Block)
    requires Inv(g, v) && TotalLen(Flat(v.live) + v.open) <= d < v.Used()
    requires |b| == g.words && b[0] != MAGIC
    ensures Inv(g, v.(log := v.log[g.Adv(v.diskStart, d) := b]))
  {
    hide HomeInv, Traced, QueuePending, QueueOk, Copies, Flat, TotalLen, LenOf, Laid, FreshAhead, Clean, Begun;
    TotalLenAppend(Flat(v.live), v.open);
    LenIsTotal(v.live);
    var v' := v.(log := v.log[g.Adv(v.diskStart, d) := b]);
    LogWriteKeeps(g, v.log, v.diskStart, v.diskSequence, Flat(v.live) + v.open, Clean(g, v.before, v.began), d, b);
    BegunWrite(g, v, d, b, v.Len());
    CopiesKept(g, v, d, b);
    CopiesAre(g, v, v');
    assert v'.All() == v.All();
  }

  /** The block that completes a descriptor or revoke record goes into the first of the blocks
      taken for it. */
  lemma RecordDone(g: Geometry, v: View, b: Block, item: Item)
    requires Inv(g, v) && v.Used() < g.Size() && v.reserved == item.Len() && !item.Commit?
    requires |b| == g.words
    requires var p := g.Adv(v.diskStart, TotalLen(Flat(v.live) + v.open));
             && ItemAt(v.log[p := b], g, p, EndId(v.diskSequence, Flat(v.live) + v.open)) == Some(item)
             && DataUnmarked(v.log[p := b], g, p, item)
    ensures var p := g.Adv(v.diskStart, TotalLen(Flat(v.live) + v.open));
            var v' := v.(log := v.log[p := b], open := v.open + [item], reserved := 0);
            Inv(g, v') && v'.Used() == v.Used()
  {
    hide HomeInv, Traced, QueuePending, QueueOk, Copies, Flat, TotalLen, LenOf, Laid, FreshAhead, Clean, Begun, ItemAt,
        EndId, DataUnmarked, Logged.Valid;
    var items := Flat(v.live) + v.open;
    var d := TotalLen(items);
    var v' := v.(log := v.log[g.Adv(v.diskStart, d) := b], open := v.open + [item], reserved := 0);
    RecordWritten(g, v.log, v.diskStart, v.diskSequence, items, Clean(g, v.before, v.began), b, item);
    BegunWrite(g, v, d, b, v.Used());
    assert items + [item] == Flat(v'.live) + v'.open;
    TotalLenAppend(Flat(v.live), v.open);
    LenIsTotal(v.live);
    CopiesKept(g, v, d, b);
    CopiesAre(g, v, v');
    CommitsAppend(v.open, [item]);
    OneItem(item);
    assert v'.All() == v.All();
  }

  lemma OneItem(item: Item)
    ensures Commits([item]) == if item.Commit? then 1 else 0
    ensures TotalLen([item]) == item.Len()
  {
    assert [item][1..] == [];
  }

  /** What the transaction being committed is, once all but its commit block is in the log. */
  ghost predicate Prepared(g: Geometry, v: View, tx: Tx, t: Trans) {
    && Txs(v.open + [Commit], EMPTY_TX) == [tx]
    && t.Valid() && t.id == v.allocTransId
    && (forall b :: b in t.bufs ==> LastWrite(tx.writes, b.lba) == Some(b.data))
    && (forall a :: LastWrite(tx.writes, a).Some? ==> a in t.Pending())
    && t.startIblock == g.Adv(v.diskStart, LenOf(v.live)) && t.allocBlocks == TotalLen(v.open) + 1
  }

  /** Writing the commit block makes the transaction one of those that recovery applies. */
  lemma CommitDone(g: Geometry, v: View, b: Block, tx: Tx, t: Trans)
    requires Inv(g, v) && v.Used() < g.Size() && v.reserved == 1
    requires |b| == g.words && b[0] == MAGIC && b[1] == COMMIT_BLOCK && b[2] == v.allocTransId
    requires Prepared(g, v, tx, t) && RevokesSettled(v.All(), v.queue)
    requires ValidLog(v.log[g.Adv(v.diskStart, v.Used() - 1) := b], g)
    requires Copies(g, v.log[g.Adv(v.diskStart, v.Used() - 1) := b], v.home, t)
    ensures var v' := v.(log := v.log[g.Adv(v.diskStart, v.Used() - 1) := b], open := [], reserved := 0,
                         live := v.live + [Logged(tx, v.open + [Commit])], queue := v.queue + [t],
                         allocTransId := Succ(v.allocTransId));
            Inv(g, v') && v'.All() == v.All() + [tx] && v'.Used() == v.Used()
  {
    hide HomeInv, Traced, QueuePending, QueueOk, Copies, Flat, TotalLen, LenOf, Laid, FreshAhead, Clean, Begun, EndId,
        Txs, LastWrite, Trans.Pending, Trans.Valid, Plus, RevokesSettled, View.All, TxsOf;
    var items := Flat(v.live) + v.open;
    var d := TotalLen(items);
    var log' := v.log[g.Adv(v.diskStart, d) := b];
    var l := Logged(tx, v.open + [Commit]);
    var v' := v.(log := log', open := [], reserved := 0, live := v.live + [l], queue := v.queue + [t],
                 allocTransId := Succ(v.allocTransId));
    ReadBack(v.live, v.open, v.diskSequence);
    NothingBehind(log', g, g.Adv(v.diskStart, d));
    RecordWritten(g, v.log, v.diskStart, v.diskSequence, items, Clean(g, v.before, v.began), b, Commit);
    BegunWrite(g, v, d, b, v.Used());
    FlatOne(v.live, l);
    assert items + [Commit] == Flat(v'.live) + v'.open;
    TotalLenAppend(Flat(v.live), v.open);
    LenIsTotal(v.live);
    CopiesKept(g, v, d, b);
    CommitAll(v, v', l);
    TotalLenAppend(v.open, [Commit]);
    OneItem(Commit);
    CommitsNone(v.open);
    CommitKeepsPending(v.All(), v.queue, tx, t);
    CommitKeepsHome(v.home, v.All(), v.queue, tx, t);
    TracedMore(v.origin, v.home, v.All(), tx);
    CommitQueue(g, v, v', l, t);
  }

  lemma NothingBehind(log: seq<Block>, g: Geometry, p: nat)
    requires ValidLog(log, g) && g.Inside(p)
    ensures DataUnmarked(log, g, p, Commit)
  {
  }

  lemma CommitAll(v: View, v': View, l: Logged)
    requires v'.gone == v.gone && v'.live == v.live + [l]
    ensures v'.All() == v.All() + [l.tx]
  {
    assert TxsOf(v'.live) == TxsOf(v.live) + [l.tx];
  }

  lemma CommitsNone(open: seq<Item>)
    ensures Commits([]) == 0 && (open + [Commit])[..|open + [Commit]| - 1] == open
  {
  }

  lemma CommitQueue(g: Geometry, v: View, v': View, l: Logged, t: Trans)
    requires ValidLog(v.log, g) && ValidLog(v'.log, g) && |v.queue| <= |v.live| && QueueOk(g, v) && Named(g, v)
    requires v'.diskStart == v.diskStart && v'.diskSequence == v.diskSequence && v'.home == v.home
    requires v'.start == v.start && v'.transId == v.transId && v'.last == v.last
    requires v'.live == v.live + [l] && v'.queue == v.queue + [t] && v'.allocTransId == Succ(v.allocTransId)
    requires forall i :: 0 <= i < |v.queue| ==> Copies(g, v'.log, v'.home, v.queue[i])
    requires Copies(g, v'.log, v'.home, t) && t.id == v.allocTransId
    requires t.startIblock == g.Adv(v.diskStart, LenOf(v.live)) && t.allocBlocks == TotalLen(l.items)
    requires v'.Used() == v.Used()
    ensures QueueOk(g, v') && Named(g, v')
  {
    hide Copies, LenOf, TotalLen, Flat, Plus, View.Used;
    PlusPlus(v.diskSequence, |v.live|, 1);
    PlusOne(v.allocTransId);
    forall i | 0 <= i < |v'.queue|
      ensures Placed(g, v'.diskStart, v'.diskSequence, v'.live, v'.Idle() + i, v'.queue[i])
      ensures Copies(g, v'.log, v'.home, v'.queue[i])
    {
      if i < |v.queue| {
        assert Placed(g, v.diskStart, v.diskSequence, v.live, v.Idle() + i, v.queue[i]);
        assert v'.live[..v.Idle() + i] == v.live[..v.Idle() + i];
      } else {
        assert v'.live[..|v.live|] == v.live;
      }
    }
    assert v'.live[..v.Idle()] == v.live[..v.Idle()];
  }

  lemma PlusOne(t: u32)
    ensures Plus(t, 1) == Succ(t)
  {
    assert Plus(t, 0) == t;
  }
}
