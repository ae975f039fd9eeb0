/** What writing back does to the checkpoint queue and the home blocks, as functions of them: for the
    blocks that the cache chooses, and for the first transaction of a full ring. */
module JournalEvict {
  import opened Words
  import opened JournalFormat
  import opened JournalState
  import opened JournalCheckpoint

  // ----- The copies that are pending

  /** The data of a pending buffer of block `a`. */
  function CopyIn(bufs: seq<JbdBuf>, a: nat): Option<Block> {
    if bufs == [] then None else if bufs[0].lba == a then Some(bufs[0].data) else CopyIn(bufs[1..], a)
  }

  /** The copy of block `a` that is to be home in the end: that of the last transaction that has it
      pending. */
  function LastCopy(queue: seq<Trans>, a: nat): Option<Block> {
    if queue == [] then None
    else
      var c := CopyIn(queue[|queue| - 1].bufs, a);
      if c.Some? then c else LastCopy(queue[..|queue| - 1], a)
  }

  lemma {:induction false} CopyOf(bufs: seq<JbdBuf>, b: JbdBuf)
    requires b in bufs && forall i, j :: 0 <= i < j < |bufs| ==> bufs[i].lba != bufs[j].lba
    ensures CopyIn(bufs, b.lba) == Some(b.data)
    decreases |bufs|
  {
    if bufs[0] != b {
      assert b in bufs[1..];
      CopyOf(bufs[1..], b);
    }
  }

  lemma {:induction false} NoCopy(bufs: seq<JbdBuf>, a: nat)
    ensures CopyIn(bufs, a).None? <==> forall b :: b in bufs ==> b.lba != a
    decreases |bufs|
  {
    if bufs != [] {
      assert bufs[0] in bufs;
      NoCopy(bufs[1..], a);
      assert forall b :: b in bufs <==> b == bufs[0] || b in bufs[1..];
    }
  }

  lemma {:induction false} CopyLeft(bufs: seq<JbdBuf>, a: u32, c: nat)
    requires c != a
    ensures CopyIn(Without(bufs, a), c) == CopyIn(bufs, c)
    decreases |bufs|
  {
    if bufs != [] && bufs[0].lba != a {
      CopyLeft(bufs[1..], a, c);
      assert Without(bufs, a)[1..] == Without(bufs[1..], a);
    }
  }

  lemma {:induction false} LastCopyIs(queue: seq<Trans>, a: u32)
    ensures var i := Owner(queue, a);
            && LastCopy(queue, a) == (if i < 0 then None else CopyIn(queue[i].bufs, a))
            && (LastCopy(queue, a).Some? <==> i >= 0)
    decreases |queue|
  {
    if queue != [] {
      NoCopy(queue[|queue| - 1].bufs, a);
      LastCopyIs(queue[..|queue| - 1], a);
    }
  }

  lemma {:induction false} SameCopies(queue: seq<Trans>, queue': seq<Trans>, c: nat)
    requires |queue'| == |queue|
    requires forall k :: 0 <= k < |queue| ==> CopyIn(queue'[k].bufs, c) == CopyIn(queue[k].bufs, c)
    ensures LastCopy(queue', c) == LastCopy(queue, c)
    decreases |queue|
  {
    if queue != [] {
      SameCopies(queue[..|queue| - 1], queue'[..|queue| - 1], c);
    }
  }

  lemma {:induction false} CopyBehind(queue: seq<Trans>, n: nat, c: nat)
    requires n <= |queue| && forall k :: 0 <= k < n ==> CopyIn(queue[k].bufs, c).None?
    ensures LastCopy(queue[n..], c) == LastCopy(queue, c)
    decreases |queue|
  {
    if n < |queue| {
      assert queue[n..][..|queue| - n - 1] == queue[..|queue| - 1][n..];
      CopyBehind(queue[..|queue| - 1], n, c);
    } else {
      NoCopies(queue, c);
    }
  }

  lemma {:induction false} NoCopies(queue: seq<Trans>, c: nat)
    requires forall k :: 0 <= k < |queue| ==> CopyIn(queue[k].bufs, c).None?
    ensures LastCopy(queue, c).None?
    decreases |queue|
  {
    if queue != [] { NoCopies(queue[..|queue| - 1], c); }
  }

  lemma DoneIsEmpty(t: Trans, c: nat)
    requires t.Valid() && t.Done()
    ensures CopyIn(t.bufs, c).None?
  {
  }

  // ----- The cache writes blocks back

  /** The queue after the cache wrote back block `a`, if it could. */
  function AfterOne(queue: seq<Trans>, busy: set<u32>, a: u32): seq<Trans> {
    var i := Owner(queue, a);
    if i < 0 || a in busy then queue else EndUpTo(queue, i + 1, a)[Leaving(queue, i, a)..]
  }

  function AfterAll(queue: seq<Trans>, busy: set<u32>, blocks: seq<u32>): seq<Trans>
    decreases |blocks|
  {
    if blocks == [] then queue else AfterAll(AfterOne(queue, busy, blocks[0]), busy, blocks[1..])
  }

  /** The home blocks after that: each of the blocks that is pending, and that nobody holds, has the
      data of its last pending copy, and no other changed. */
  function EvictedHome(home: seq<Block>, queue: seq<Trans>, busy: set<u32>, blocks: seq<u32>): (r: seq<Block>)
    ensures |r| == |home|
  {
    seq(|home|, a requires 0 <= a < |home| =>
      if a in blocks && a !in busy && LastCopy(queue, a).Some? then LastCopy(queue, a).value else home[a])
  }

  lemma AfterValid(queue: seq<Trans>, busy: set<u32>, a: u32)
    requires forall t :: t in queue ==> t.Valid()
    ensures forall t :: t in AfterOne(queue, busy, a) ==> t.Valid()
  {
    hide Trans.Valid, Trans.Ended, Owner, Leaving;
    forall t | t in queue
      ensures t.Ended(a).Valid()
    {
      EndedKeeps(t, a);
    }
  }

  lemma EndedCopy(t: Trans, a: u32, c: nat)
    requires t.Valid()
    ensures CopyIn(t.Ended(a).bufs, c) == if c == a then None else CopyIn(t.bufs, c)
  {
    if c == a {
      EndedKeeps(t, a);
      NoCopy(t.Ended(a).bufs, c);
    } else {
      CopyLeft(t.bufs, a, c);
    }
  }

  /** Those that leave the queue have nothing pending. */
  lemma LeavingDone(queue: seq<Trans>, i: nat, a: u32, k: nat)
    requires i < |queue| && k < Leaving(queue, i, a)
    ensures EndUpTo(queue, i + 1, a)[k].Done()
  {
  }

  lemma EndedAt(queue: seq<Trans>, a: u32, k: nat, c: nat)
    requires (forall t :: t in queue ==> t.Valid()) && k < |queue| && Owner(queue, a) >= 0
    ensures var t := EndUpTo(queue, Owner(queue, a) + 1, a)[k];
            t.Valid() && CopyIn(t.bufs, c) == if c == a then None else CopyIn(queue[k].bufs, c)
  {
    hide Trans.Valid, Trans.Ended, Owner, CopyIn;
    assert queue[k] in queue;
    if k <= Owner(queue, a) {
      EndedCopy(queue[k], a, c);
      EndedKeeps(queue[k], a);
    } else {
      NoCopy(queue[k].bufs, a);
    }
  }

  lemma CopiesEnded(queue: seq<Trans>, a: u32, c: nat)
    requires (forall t :: t in queue ==> t.Valid()) && Owner(queue, a) >= 0
    ensures var i := Owner(queue, a);
            LastCopy(EndUpTo(queue, i + 1, a)[Leaving(queue, i, a)..], c) ==
            if c == a then None else LastCopy(queue, c)
  {
    hide Trans.Valid, Trans.Ended, Trans.Done, Owner, Leaving, EndUpTo, LastCopy, CopyIn;
    var i := Owner(queue, a);
    var q := EndUpTo(queue, i + 1, a);
    forall k | 0 <= k < |queue|
      ensures q[k].Valid() && CopyIn(q[k].bufs, c) == if c == a then None else CopyIn(queue[k].bufs, c)
    {
      EndedAt(queue, a, k, c);
    }
    forall k | 0 <= k < Leaving(queue, i, a)
      ensures CopyIn(q[k].bufs, c).None?
    {
      LeavingDone(queue, i, a, k);
      DoneIsEmpty(q[k], c);
    }
    CopyBehind(q, Leaving(queue, i, a), c);
    if c == a { NoCopies(q, c); } else { SameCopies(queue, q, c); }
  }

  /** Writing back one block leaves the last copies of the others pending, and none of it. */
  lemma CopiesAfter(queue: seq<Trans>, busy: set<u32>, a: u32, c: nat)
    requires forall t :: t in queue ==> t.Valid()
    ensures c != a ==> LastCopy(AfterOne(queue, busy, a), c) == LastCopy(queue, c)
    ensures a !in busy ==> LastCopy(AfterOne(queue, busy, a), a).None?
  {
    hide Trans.Valid, Owner, Leaving, EndUpTo;
    LastCopyIs(queue, a);
    if Owner(queue, a) >= 0 && a !in busy {
      CopiesEnded(queue, a, c);
      CopiesEnded(queue, a, a);
    }
  }

  /** The first of the blocks, then the others. */
  lemma EvictStep(home: seq<Block>, queue: seq<Trans>, busy: set<u32>, blocks: seq<u32>, home': seq<Block>)
    requires (forall t :: t in queue ==> t.Valid()) && blocks != [] && |home'| == |home|
    requires var a, c := blocks[0], LastCopy(queue, blocks[0]);
             forall x :: 0 <= x < |home| ==> home'[x] == if x == a && a !in busy && c.Some? then c.value else home[x]
    ensures EvictedHome(home, queue, busy, blocks) ==
            EvictedHome(home', AfterOne(queue, busy, blocks[0]), busy, blocks[1..])
  {
    hide AfterOne, LastCopy, Trans.Valid;
    forall x | 0 <= x < |home|
      ensures EvictedHome(home, queue, busy, blocks)[x] ==
              EvictedHome(home', AfterOne(queue, busy, blocks[0]), busy, blocks[1..])[x]
    {
      CopiesAfter(queue, busy, blocks[0], x);
      assert x in blocks <==> x == blocks[0] || x in blocks[1..];
    }
  }

  // ----- The first transaction is written home

  /** Each block that the buffers have pending gets their copy, from the cache if no later transaction
      has it pending, and else from the log. */
  function FlushedSome(home: seq<Block>, bufs: seq<JbdBuf>, later: seq<Trans>): (r: seq<Block>)
    ensures |r| == |home|
  {
    seq(|home|, a requires 0 <= a < |home| =>
      var c := CopyIn(bufs, a);
      if c.None? then home[a] else if LastCopy(later, a).None? then c.value else Escaped(c.value))
  }

  function FlushedHome(home: seq<Block>, queue: seq<Trans>): (r: seq<Block>)
    ensures |r| == |home|
  {
    if queue == [] then home else FlushedSome(home, queue[0].bufs, queue[1..])
  }

  lemma FlushStep(home: seq<Block>, bufs: seq<JbdBuf>, n: nat, later: seq<Trans>)
    requires n < |bufs| && bufs[n].lba < |home|
    requires forall i, j :: 0 <= i < j < |bufs| ==> bufs[i].lba != bufs[j].lba
    ensures var a, d := bufs[n].lba, bufs[n].data;
            FlushedSome(home, bufs[n..], later) ==
            FlushedSome(home[a := if LastCopy(later, a).None? then d else Escaped(d)], bufs[n + 1..], later)
  {
    var a, d := bufs[n].lba, bufs[n].data;
    var home' := home[a := if LastCopy(later, a).None? then d else Escaped(d)];
    NoCopy(bufs[n + 1..], a);
    assert bufs[n..][0] == bufs[n] && bufs[n..][1..] == bufs[n + 1..];
    assert FlushedSome(home, bufs[n..], later) == FlushedSome(home', bufs[n + 1..], later);
  }

  lemma FlushNone(home: seq<Block>, later: seq<Trans>)
    ensures FlushedSome(home, [], later) == home
  {
  }

  // ----- A commit takes log blocks

  /** What log blocks are taken from, and what writing back changes. */
  datatype Ring = Ring(queue: seq<Trans>, home: seq<Block>, last: nat)

  function NextBlock(g: Geometry, p: nat): nat { if g.Inside(p) then g.Inc(p) else p }

  /** The block behind the next one is the first of the log. */
  predicate FullAt(g: Geometry, r: Ring) {
    r.queue != [] && NextBlock(g, r.last) == r.queue[0].startIblock
  }

  /** A full ring is checkpointed. */
  function Checkpointed(g: Geometry, r: Ring): Ring {
    if FullAt(g, r) then Ring(r.queue[1 + DonePrefix(r.queue[1..])..], FlushedHome(r.home, r.queue), r.last) else r
  }

  /** A log block is taken: the ring is checkpointed if it is full, and then the cache writes back
      `victims`, but for those that are held. */
  function TakenOne(g: Geometry, r: Ring, busy: set<u32>, victims: seq<u32>): Ring {
    var q := Checkpointed(g, r);
    Ring(AfterAll(q.queue, busy, victims), EvictedHome(q.home, q.queue, busy, victims), NextBlock(g, r.last))
  }

  function VictimsAt(plan: seq<seq<u32>>, k: nat): seq<u32> { if k < |plan| then plan[k] else [] }

  /** As many log blocks as there are `stages`, which are the blocks held at each. */
  function TakenAll(g: Geometry, r: Ring, stages: seq<set<u32>>, plan: seq<seq<u32>>): Ring
    decreases |stages|
  {
    if stages == [] then r
    else
      var n := |stages| - 1;
      TakenOne(g, TakenAll(g, r, stages[..n], plan), stages[n], VictimsAt(plan, n))
  }

  /** The block that jams it is taken as well, and the finished transaction in front, if there is one,
      leaves the queue in memory. */
  function JammedAt(g: Geometry, r: Ring): Ring {
    Ring(if FullAt(g, r) then r.queue[1..] else r.queue, r.home, NextBlock(g, r.last))
  }

  /** What is held at each stage lies between what is held to the end and what is held at first. */
  predicate Held(stages: seq<set<u32>>, keep: set<u32>, busy: set<u32>) {
    forall k :: 0 <= k < |stages| ==> keep <= stages[k] <= busy
  }

  lemma TakenMore(g: Geometry, r: Ring, stages: seq<set<u32>>, plan: seq<seq<u32>>, busy: set<u32>)
    ensures TakenAll(g, r, stages + [busy], plan) ==
            TakenOne(g, TakenAll(g, r, stages, plan), busy, VictimsAt(plan, |stages|))
  {
    assert (stages + [busy])[..|stages|] == stages;
  }

  lemma {:induction false} AllValid(queue: seq<Trans>, busy: set<u32>, blocks: seq<u32>)
    requires forall t :: t in queue ==> t.Valid()
    ensures forall t :: t in AfterAll(queue, busy, blocks) ==> t.Valid()
    decreases |blocks|
  {
    hide AfterOne, Trans.Valid;
    if blocks != [] {
      AfterValid(queue, busy, blocks[0]);
      AllValid(AfterOne(queue, busy, blocks[0]), busy, blocks[1..]);
    }
  }

  /** What is written back is not pending any more, and of the rest the last copies still are. */
  lemma {:induction false} CopiesAfterAll(queue: seq<Trans>, busy: set<u32>, blocks: seq<u32>, c: u32)
    requires (forall t :: t in queue ==> t.Valid()) && c !in busy
    ensures LastCopy(AfterAll(queue, busy, blocks), c) == if c in blocks then None else LastCopy(queue, c)
    decreases |blocks|
  {
    hide AfterOne, Trans.Valid, LastCopy;
    if blocks != [] {
      AfterValid(queue, busy, blocks[0]);
      CopiesAfter(queue, busy, blocks[0], c);
      CopiesAfterAll(AfterOne(queue, busy, blocks[0]), busy, blocks[1..], c);
      if c in blocks && c != blocks[0] { assert c in blocks[1..]; }
    }
  }

  /** Block `a` is pending with the same last copy as before, or that copy is home; so it stays. */
  predicate Carried(r: Ring, r': Ring, a: nat) {
    var c := LastCopy(r.queue, a);
    && |r'.home| == |r.home| && a < |r.home|
    && if LastCopy(r'.queue, a).Some? then LastCopy(r'.queue, a) == c
       else r'.home[a] == if c.Some? then c.value else r.home[a]
  }

  lemma CheckpointCarries(g: Geometry, r: Ring, a: nat)
    requires (forall t :: t in r.queue ==> t.Valid()) && a < |r.home|
    ensures Carried(r, Checkpointed(g, r), a)
    ensures forall t :: t in Checkpointed(g, r).queue ==> t.Valid()
  {
    hide LastCopy, CopyIn, Trans.Valid, Trans.Done;
    if FullAt(g, r) {
      var n := DonePrefix(r.queue[1..]);
      forall k | 0 <= k < n
        ensures CopyIn(r.queue[1..][k].bufs, a).None?
      {
        assert r.queue[1..][k] in r.queue;
        DoneIsEmpty(r.queue[1..][k], a);
      }
      CopyBehind(r.queue[1..], n, a);
      assert r.queue[1..][n..] == r.queue[1 + n..];
      HeadCopy(r.queue, a);
    }
  }

  lemma {:induction false} HeadCopy(queue: seq<Trans>, a: nat)
    requires queue != []
    ensures LastCopy(queue, a) ==
            if LastCopy(queue[1..], a).Some? then LastCopy(queue[1..], a) else CopyIn(queue[0].bufs, a)
    decreases |queue|
  {
    if |queue| > 1 {
      assert queue[..|queue| - 1][1..] == queue[1..][..|queue| - 2];
      HeadCopy(queue[..|queue| - 1], a);
    } else {
      assert queue[..0] == [];
    }
  }

  lemma {:induction false} StagesCarry(g: Geometry, r: Ring, stages: seq<set<u32>>, plan: seq<seq<u32>>, keep: set<u32>,
                                       busy: set<u32>, a: u32)
    requires (forall t :: t in r.queue ==> t.Valid()) && a < |r.home| && Held(stages, keep, busy) && a !in busy
    ensures Carried(r, TakenAll(g, r, stages, plan), a)
    ensures forall t :: t in TakenAll(g, r, stages, plan).queue ==> t.Valid()
    ensures forall k :: 0 <= k < |stages| && a in VictimsAt(plan, k) ==>
              LastCopy(TakenAll(g, r, stages, plan).queue, a).None?
    decreases |stages|
  {
    hide LastCopy, AfterAll, Trans.Valid, Checkpointed;
    if stages != [] {
      var n := |stages| - 1;
      StagesCarry(g, r, stages[..n], plan, keep, busy, a);
      var r1 := TakenAll(g, r, stages[..n], plan);
      CheckpointCarries(g, r1, a);
      var q, victims := Checkpointed(g, r1), VictimsAt(plan, n);
      AllValid(q.queue, stages[n], victims);
      CopiesAfterAll(q.queue, stages[n], victims, a);
      assert TakenAll(g, r, stages, plan) == TakenOne(g, r1, stages[n], victims);
    }
  }

  /** What the cache chose to write back at one of the stages, and nobody held, is home in the end. */
  lemma VictimsAreHome(g: Geometry, r: Ring, stages: seq<set<u32>>, plan: seq<seq<u32>>, keep: set<u32>, busy: set<u32>,
                       k: nat, a: u32)
    requires (forall t :: t in r.queue ==> t.Valid()) && a < |r.home| && Held(stages, keep, busy) && a !in busy
    requires k < |stages| && a in VictimsAt(plan, k) && LastCopy(r.queue, a).Some?
    ensures |TakenAll(g, r, stages, plan).home| == |r.home|
    ensures TakenAll(g, r, stages, plan).home[a] == LastCopy(r.queue, a).value
  {
    hide LastCopy, TakenAll, Trans.Valid, Held;
    StagesCarry(g, r, stages, plan, keep, busy, a);
  }
}
