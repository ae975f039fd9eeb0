/** The checkpoint queue, the home blocks and the log, and the invariants that tie them. */
module JournalState {
  import opened Words
  import opened JournalFormat
  import opened JournalRecovery

  /** A logged buffer that has not reached its home block: `struct jbd_buf`. */
  datatype JbdBuf = JbdBuf(lba: u32, jbdLba: nat, data: Block)

  /** A committed transaction on the checkpoint queue: `struct jbd_trans`. */
  datatype Trans = Trans(id: u32, startIblock: nat, allocBlocks: nat, dataCnt: nat, writtenCnt: nat,
                         bufs: seq<JbdBuf>, revokes: seq<u32>)
  {
    /** Nothing left to write home: such a transaction may leave the queue. */
    predicate Done() { dataCnt == writtenCnt }

    function Pending(): set<u32> { set b | b in bufs :: b.lba }

    /** `jbd_trans_end_write` for the buffer of block `a`, if there still is one. */
    function Ended(a: u32): Trans {
      if a in Pending() then this.(bufs := Without(bufs, a), writtenCnt := writtenCnt + 1) else this
    }

    ghost predicate Valid() {
      && dataCnt == writtenCnt + |bufs|
      && (forall i, j :: 0 <= i < j < |bufs| ==> bufs[i].lba != bufs[j].lba)
    }
  }

  function Without(bufs: seq<JbdBuf>, a: u32): seq<JbdBuf> {
    if bufs == [] then []
    else if bufs[0].lba == a then bufs[1..]
    else [bufs[0]] + Without(bufs[1..], a)
  }

  lemma {:induction false} WithoutKeeps(bufs: seq<JbdBuf>, a: u32)
    requires forall i, j :: 0 <= i < j < |bufs| ==> bufs[i].lba != bufs[j].lba
    ensures var r := Without(bufs, a);
            && (forall b :: b in r <==> b in bufs && b.lba != a)
            && (forall i, j :: 0 <= i < j < |r| ==> r[i].lba != r[j].lba)
            && |r| == |bufs| - (if exists b :: b in bufs && b.lba == a then 1 else 0)
    decreases |bufs|
  {
    if bufs != [] && bufs[0].lba != a {
      WithoutKeeps(bufs[1..], a);
      assert forall b :: b in bufs <==> b == bufs[0] || b in bufs[1..];
    } else if bufs != [] {
      assert bufs[0] in bufs;
      assert forall b :: b in bufs <==> b == bufs[0] || b in bufs[1..];
    }
  }

  lemma EndedKeeps(t: Trans, a: u32)
    requires t.Valid()
    ensures t.Ended(a).Valid()
    ensures t.Ended(a).Pending() == t.Pending() - {a}
    ensures forall b :: b in t.Ended(a).bufs <==> b in t.bufs && b.lba != a
  {
    WithoutKeeps(t.bufs, a);
    if a in t.Pending() {
      var b :| b in t.bufs && b.lba == a;
    }
  }

  // ----- What the home blocks must hold

  /** Index of the last transaction that logged or revoked block `a`, or -1. */
  function LastEvent(txs: seq<Tx>, a: u32): (e: int)
    ensures -1 <= e < |txs|
    ensures e >= 0 ==> a in txs[e].revokes || LastWrite(txs[e].writes, a).Some?
    ensures forall j :: e < j < |txs| ==> a !in txs[j].revokes && LastWrite(txs[j].writes, a).None?
  {
    if txs == [] then -1
    else
      var t := txs[|txs| - 1];
      if a in t.revokes || LastWrite(t.writes, a).Some? then |txs| - 1
      else LastEvent(txs[..|txs| - 1], a)
  }

  lemma {:induction false} SurvivingIsLastEvent(txs: seq<Tx>, a: u32)
    ensures var e := LastEvent(txs, a);
            Surviving(txs, a) == if e < 0 || a in txs[e].revokes then None else LastWrite(txs[e].writes, a)
  {
    if txs != [] {
      var t := txs[|txs| - 1];
      if a !in t.revokes && LastWrite(t.writes, a).None? {
        SurvivingIsLastEvent(txs[..|txs| - 1], a);
      }
    }
  }

  lemma LastEventUnique(txs: seq<Tx>, a: u32, e: int)
    requires -1 <= e < |txs|
    requires e >= 0 ==> a in txs[e].revokes || LastWrite(txs[e].writes, a).Some?
    requires forall j :: e < j < |txs| ==> a !in txs[j].revokes && LastWrite(txs[j].writes, a).None?
    ensures LastEvent(txs, a) == e
  {
  }

  /** Block `a` is up to date at home, or the last transaction that logged it still has to
      write it there. `all` are the committed transactions; the queue holds the last of them. */
  ghost predicate HomeOk(home: seq<Block>, all: seq<Tx>, queue: seq<Trans>, a: u32)
    requires |queue| <= |all| && a < |home|
  {
    var e := LastEvent(all, a);
    var q := e - (|all| - |queue|);
    || e < 0
    || a in all[e].revokes
    || Some(home[a]) == LastWrite(all[e].writes, a)
    || (q >= 0 && a in queue[q].Pending())
  }

  ghost predicate HomeInv(home: seq<Block>, all: seq<Tx>, queue: seq<Trans>) {
    && |queue| <= |all| && |home| <= 0x1_0000_0000
    && forall a: u32 :: a < |home| ==> HomeOk(home, all, queue, a)
  }

  /** Transaction `j` of the queue lets an older write of block `a` stay pending: if it logged
      the block, that write is pending as well, and it did not revoke the block. Only the
      last transaction may have, as long as its commit goes on. */
  ghost predicate Superseding(all: seq<Tx>, queue: seq<Trans>, j: nat, a: u32)
    requires j < |queue| <= |all|
  {
    var tx := all[|all| - |queue| + j];
    (LastWrite(tx.writes, a).Some? ==> a in queue[j].Pending()) &&
    (a in tx.revokes ==> j == |queue| - 1)
  }

  /** The blocks that any transaction on the queue has still to write home. */
  function AllPending(queue: seq<Trans>): set<u32> {
    set i, b | 0 <= i < |queue| && b in queue[i].bufs :: b.lba
  }

  /** No pending buffer belongs to a block that the last transaction revoked. */
  ghost predicate RevokesSettled(all: seq<Tx>, queue: seq<Trans>)
    requires |queue| <= |all|
  {
    queue == [] || forall a :: a in AllPending(queue) ==> a !in all[|all| - 1].revokes
  }

  ghost predicate HoldsLogged(all: seq<Tx>, queue: seq<Trans>, i: nat)
    requires i < |queue| <= |all|
  {
    && queue[i].Valid()
    && forall b :: b in queue[i].bufs ==> LastWrite(all[|all| - |queue| + i].writes, b.lba) == Some(b.data)
  }

  /** A pending buffer holds what its transaction logged; no later transaction revoked the
      block, and later ones that logged it are pending as well. */
  ghost predicate QueuePending(all: seq<Tx>, queue: seq<Trans>) {
    && |queue| <= |all|
    && (forall i :: 0 <= i < |queue| ==> HoldsLogged(all, queue, i))
    && (forall a, i, j :: 0 <= i <= j < |queue| && a in queue[i].Pending() ==> Superseding(all, queue, j, a))
  }

  /** The queue after the first `n` transactions ended their write of block `a`. */
  function EndUpTo(queue: seq<Trans>, n: nat, a: u32): (q: seq<Trans>)
    ensures |q| == |queue|
  {
    seq(|queue|, i requires 0 <= i < |queue| => if i < n then queue[i].Ended(a) else queue[i])
  }

  /** Number of transactions at the front with nothing left to write. */
  function DonePrefix(queue: seq<Trans>): (n: nat)
    ensures n <= |queue|
    ensures forall i :: 0 <= i < n ==> queue[i].Done()
    ensures n < |queue| ==> !queue[n].Done()
  {
    if queue == [] || !queue[0].Done() then 0 else 1 + DonePrefix(queue[1..])
  }

  /** Position on the queue of the last transaction that has block `a` pending, or -1. */
  function Owner(queue: seq<Trans>, a: u32): (i: int)
    ensures -1 <= i < |queue|
    ensures i >= 0 ==> a in queue[i].Pending()
    ensures forall j :: i < j < |queue| ==> a !in queue[j].Pending()
  {
    if queue == [] then -1
    else if a in queue[|queue| - 1].Pending() then |queue| - 1
    else Owner(queue[..|queue| - 1], a)
  }

  lemma TailPending(queue: seq<Trans>, n: nat)
    requires n <= |queue|
    ensures AllPending(queue[n..]) <= AllPending(queue)
  {
    forall a | a in AllPending(queue[n..])
      ensures a in AllPending(queue)
    {
      var i, b :| 0 <= i < |queue| - n && b in queue[n..][i].bufs && b.lba == a;
      assert b in queue[n + i].bufs;
    }
  }

  lemma EndedPending(queue: seq<Trans>, k: nat, a: u32)
    requires k < |queue| && queue[k].Valid()
    ensures AllPending(queue[k := queue[k].Ended(a)]) <= AllPending(queue)
  {
    var q := queue[k := queue[k].Ended(a)];
    EndedKeeps(queue[k], a);
    hide Trans.Ended, Trans.Valid;
    forall c | c in AllPending(q)
      ensures c in AllPending(queue)
    {
      var i, b :| 0 <= i < |q| && b in q[i].bufs && b.lba == c;
      assert b in queue[i].bufs;
    }
  }

  // ----- What keeps the home blocks right

  /** Ending one write of block `a` is right when no earlier transaction still has one, and
      the block is up to date, revoked, or still to be written by a later transaction. */
  ghost predicate MayEnd(home: seq<Block>, all: seq<Tx>, queue: seq<Trans>, k: nat, a: u32)
    requires k < |queue| <= |all|
  {
    var e := LastEvent(all, a);
    && a in queue[k].Pending()
    && (forall j :: 0 <= j < k ==> a !in queue[j].Pending())
    && (a < |home| ==>
          e < 0 || e > |all| - |queue| + k || a in all[e].revokes ||
          Some(home[a]) == LastWrite(all[e].writes, a))
  }

  lemma EndKeepsPending(all: seq<Tx>, queue: seq<Trans>, k: nat, a: u32)
    requires QueuePending(all, queue) && k < |queue|
    requires forall j :: 0 <= j < k ==> a !in queue[j].Pending()
    ensures QueuePending(all, queue[k := queue[k].Ended(a)])
    ensures queue[k].Ended(a).Pending() == queue[k].Pending() - {a}
  {
    hide LastWrite, Trans.Ended;
    var q := queue[k := queue[k].Ended(a)];
    assert HoldsLogged(all, queue, k);
    EndedKeeps(queue[k], a);
    hide Trans.Pending, Trans.Valid;
    forall i | 0 <= i < |q|
      ensures HoldsLogged(all, q, i)
    {
      assert HoldsLogged(all, queue, i);
    }
    forall c, i, j | 0 <= i <= j < |q| && c in q[i].Pending()
      ensures Superseding(all, q, j, c)
    {
      assert Superseding(all, queue, j, c);
    }
  }

  lemma EndKeepsHome(home: seq<Block>, all: seq<Tx>, queue: seq<Trans>, k: nat, a: u32)
    requires HomeInv(home, all, queue) && QueuePending(all, queue) && k < |queue|
    requires MayEnd(home, all, queue, k, a)
    ensures HomeInv(home, all, queue[k := queue[k].Ended(a)])
  {
    hide LastWrite, LastEvent, Trans.Ended;
    var q := queue[k := queue[k].Ended(a)];
    assert HoldsLogged(all, queue, k);
    EndedKeeps(queue[k], a);
    hide Trans.Pending, Trans.Valid;
    var i := LastEvent(all, a) - (|all| - |queue|);
    if i > k {
      assert Superseding(all, queue, i, a);
    }
    forall c: u32 | c < |home|
      ensures HomeOk(home, all, q, c)
    {
      assert HomeOk(home, all, queue, c);
    }
  }

  /** Transactions that are done may leave the front of the queue. */
  lemma DropKeeps(home: seq<Block>, all: seq<Tx>, queue: seq<Trans>, n: nat)
    requires HomeInv(home, all, queue) && QueuePending(all, queue) && n <= |queue|
    requires forall i :: 0 <= i < n ==> queue[i].Done()
    ensures HomeInv(home, all, queue[n..]) && QueuePending(all, queue[n..])
  {
    hide LastWrite, LastEvent;
    var q := queue[n..];
    forall i | 0 <= i < |q|
      ensures HoldsLogged(all, q, i)
    {
      assert HoldsLogged(all, queue, n + i);
    }
    forall c, i, j | 0 <= i <= j < |q| && c in q[i].Pending()
      ensures Superseding(all, q, j, c)
    {
      assert c in queue[n + i].Pending();
      assert Superseding(all, queue, n + j, c);
    }
    forall c: u32 | c < |home|
      ensures HomeOk(home, all, q, c)
    {
      assert HomeOk(home, all, queue, c);
      var i := LastEvent(all, c) - (|all| - |queue|);
      if 0 <= i < n {
        assert HoldsLogged(all, queue, i);
        assert queue[i].bufs == [];
      }
    }
  }

  /** The last transaction that has block `a` pending is the last that logged it, and no
      later one but the last of all may have revoked it. */
  lemma OwnerIsLast(all: seq<Tx>, queue: seq<Trans>, a: u32)
    requires QueuePending(all, queue) && Owner(queue, a) >= 0
    ensures var e := LastEvent(all, a);
            e == |all| - |queue| + Owner(queue, a) || (e == |all| - 1 && a in all[e].revokes)
  {
    hide LastWrite, Owner, LastEvent, Trans.Valid, Trans.Pending;
    var base := |all| - |queue|;
    var o := Owner(queue, a);
    OwnerLogged(all, queue, o, a);
    forall j | base + o < j < |all|
      ensures LastWrite(all[j].writes, a).None? && (a in all[j].revokes ==> j == |all| - 1)
    {
      var i := j - base;
      assert Superseding(all, queue, i, a);
    }
    LastEventUnique(all, a, if a in all[|all| - 1].revokes then |all| - 1 else base + o);
  }

  lemma OwnerLogged(all: seq<Tx>, queue: seq<Trans>, i: nat, a: u32)
    requires QueuePending(all, queue) && i < |queue| && a in queue[i].Pending()
    ensures LastWrite(all[|all| - |queue| + i].writes, a).Some?
  {
    hide LastWrite;
    assert HoldsLogged(all, queue, i);
    var b :| b in queue[i].bufs && b.lba == a;
  }

  /** While some transaction has block `a` pending, its home block may hold anything. */
  lemma HomeWriteKeeps(home: seq<Block>, all: seq<Tx>, queue: seq<Trans>, a: u32, data: Block)
    requires HomeInv(home, all, queue) && QueuePending(all, queue) && a < |home|
    requires Owner(queue, a) >= 0
    ensures HomeInv(home[a := data], all, queue)
  {
    hide LastWrite, LastEvent, Owner;
    OwnerIsLast(all, queue, a);
    var home' := home[a := data];
    forall c: u32 | c < |home'|
      ensures HomeOk(home', all, queue, c)
    {
      assert HomeOk(home, all, queue, c);
    }
  }

  /** Committing a transaction: everything it logged is pending. */
  lemma CommitKeepsPending(all: seq<Tx>, queue: seq<Trans>, tx: Tx, t: Trans)
    requires QueuePending(all, queue) && RevokesSettled(all, queue)
    requires t.Valid() && forall b :: b in t.bufs ==> LastWrite(tx.writes, b.lba) == Some(b.data)
    requires forall a :: LastWrite(tx.writes, a).Some? ==> a in t.Pending()
    ensures QueuePending(all + [tx], queue + [t])
  {
    hide LastWrite, Trans.Pending, Trans.Valid;
    var all', queue' := all + [tx], queue + [t];
    var base := |all| - |queue|;
    forall i | 0 <= i < |queue'|
      ensures HoldsLogged(all', queue', i)
    {
      if i < |queue| {
        assert HoldsLogged(all, queue, i);
      }
    }
    forall c, i, j | 0 <= i <= j < |queue'| && c in queue'[i].Pending()
      ensures Superseding(all', queue', j, c)
    {
      if j < |queue| {
        assert c in queue[i].Pending();
        assert Superseding(all, queue, j, c);
        PendingIsPending(queue, i, c);
      }
    }
  }

  lemma PendingIsPending(queue: seq<Trans>, i: nat, a: u32)
    requires i < |queue|
    ensures a in queue[i].Pending() ==> a in AllPending(queue)
  {
  }

  lemma CommitKeepsHome(home: seq<Block>, all: seq<Tx>, queue: seq<Trans>, tx: Tx, t: Trans)
    requires HomeInv(home, all, queue)
    requires forall a :: LastWrite(tx.writes, a).Some? ==> a in t.Pending()
    ensures HomeInv(home, all + [tx], queue + [t])
  {
    hide LastWrite, LastEvent, Trans.Pending;
    var all', queue' := all + [tx], queue + [t];
    forall c: u32 | c < |home|
      ensures HomeOk(home, all', queue', c)
    {
      assert HomeOk(home, all, queue, c);
      LastEventUnique(all', c,
        if c in tx.revokes || LastWrite(tx.writes, c).Some? then |all| else LastEvent(all, c));
    }
  }
}
