/** Writing the records of a transaction: `jbd_journal_prepare` and `jbd_journal_prepare_revoke`. */
module JournalWriter {
  import opened Words
  import opened JournalFormat
  import opened JournalRecovery
  import opened JournalLayout
  import opened JournalState
  import opened JournalRing
  import opened JournalSession
  import opened JournalCheckpoint
  import opened JournalFlush
  import opened JournalSpace
  import opened JournalTags
  import opened JournalSteps

  // ----- Blocks reach the log

  lemma PlaceOf(g: Geometry, v: View, p: nat)
    requires Inv(g, v) && v.Used() < g.Size() && g.Inside(p) && v.last == g.Adv(p, v.reserved)
    ensures p == g.Adv(v.diskStart, TotalLen(Flat(v.live) + v.open))
    ensures EndId(v.diskSequence, Flat(v.live) + v.open) == v.allocTransId
  {
    hide HomeInv, QueuePending, QueueOk, Holds, Flat, TotalLen, LenOf, Logged.Valid;
    ReadBack(v.live, v.open, v.diskSequence);
  }

  lemma PlaceOfLast(g: Geometry, v: View, p: nat)
    requires Inv(g, v) && v.Used() < g.Size() && g.Inside(p) && v.last == g.Inc(p) && v.reserved > 0
    ensures p == g.Adv(v.diskStart, v.Used() - 1)
  {
    hide HomeInv, QueuePending, QueueOk, LogInv, Flat, TotalLen, LenOf;
  }

  /** `jbd_block_set` for the copy of a buffer. */
  method WriteData(j: Journal, p: nat, b: Block, ghost busy: set<u32>, ghost m: Mode, ghost need: nat)
    requires j.Valid() && j.entering == [] && On(j, busy, m, need) && j.reserved > 0
    requires j.g.Inside(p) && p < |j.log| && j.last == j.g.Inc(p) && |b| == j.g.words > 0 && b[0] != MAGIC
    modifies j`log, j`images
    ensures j.Valid() && j.Ongoing() && j.log == old(j.log)[p := b] && On(j, busy, m, need) && Restful(j, m)
  {
    hide Inv, Consistent, LenOf, AllPending, TxsOf, View.All, View.Used, TotalLen, Tracks, Ran;
    ghost var v := j.V();
    AllocOf(j.g, v, j.plan, busy, m, need, TotalLen(v.open) + v.reserved);
    PlaceOfLast(j.g, v, p);
    UsedSplit(v);
    DataWritten(j.g, v, v.Used() - 1, b);
    j.log := j.log[p := b];
    assert j.V() == v.(log := j.log);
    SameAll(v, j.V());
    TracksSame(j.g, v, j.V(), j.plan, busy, m, need);
    j.Snapshot();
  }

  lemma UsedSplit(v: View)
    ensures v.Used() == TotalLen(Flat(v.live) + v.open) + v.reserved
  {
  }

  /** `jbd_block_set` for a descriptor or a revoke block. */
  method WriteRecord(j: Journal, p: nat, b: Block, ghost item: Item, ghost busy: set<u32>, ghost m: Mode,
                     ghost need: nat)
    requires j.Valid() && j.entering == [] && On(j, busy, m, need)
    requires j.g.Inside(p) && j.reserved == item.Len() && j.last == j.g.Adv(p, item.Len()) && !item.Commit?
    requires p < |j.log| && |b| == j.g.words && ValidLog(j.log[p := b], j.g)
    requires ItemAt(j.log[p := b], j.g, p, j.allocTransId) == Some(item)
    requires DataUnmarked(j.log[p := b], j.g, p, item)
    modifies j`log, j`open, j`reserved, j`images
    ensures j.Valid() && j.Ongoing() && j.log == old(j.log)[p := b]
    ensures j.open == old(j.open) + [item] && j.reserved == 0 && On(j, busy, m, need) && Restful(j, m)
  {
    hide Inv, Consistent, LenOf, AllPending, TxsOf, View.All, View.Used, ItemAt, DataUnmarked, EndId, TotalLen, Tracks,
        Ran;
    ghost var v := j.V();
    AllocOf(j.g, v, j.plan, busy, m, need, TotalLen(v.open) + v.reserved);
    PlaceOf(j.g, v, p);
    RecordDone(j.g, v, b, item);
    j.log := j.log[p := b];
    j.open, j.reserved := j.open + [item], 0;
    assert j.V() == v.(log := j.log, open := j.open, reserved := 0);
    SameAll(v, j.V());
    TotalLenAppend(v.open, [item]);
    OneItem(item);
    TracksSame(j.g, v, j.V(), j.plan, busy, m, need);
    j.Snapshot();
  }

  // ----- How many blocks a transaction takes

  /** Blocks for `n` buffers and the descriptor blocks in between, when the open one still
      takes `room` tags. */
  function DataLen(n: nat, per: nat, room: nat): nat
    requires per > 0
    decreases n, room == 0
  {
    if n == 0 then 0
    else if room == 0 then 1 + DataLen(n, per, per)
    else 1 + DataLen(n - 1, per, room - 1)
  }

  /** The same for the entries of revoke blocks. */
  function RevokeLen(n: nat, per: nat, room: nat): nat
    requires per > 0
    decreases n, room == 0
  {
    if n == 0 then 0
    else if room == 0 then 1 + RevokeLen(n, per, per)
    else RevokeLen(n - 1, per, room - 1)
  }

  // ----- The transaction on its way into the log

  /** One record more belongs to the open transaction. */
  lemma {:induction false} TxsMore(open: seq<Item>, cur: Tx, tx: Tx, item: Item)
    requires Txs(open + [Commit], cur) == [tx] && Commits(open) == 0 && !item.Commit?
    ensures Txs(open + [item] + [Commit], cur) ==
            [if item.Desc? then Tx(tx.writes + item.writes, tx.revokes) else Tx(tx.writes, tx.revokes + item.blocks)]
    decreases |open|
  {
    var items := open + [item] + [Commit];
    if open == [] {
      assert open + [Commit] == [Commit] && items[1..] == [Commit];
      assert forall c :: Txs([Commit], c) == [c] by { assert [Commit][1..] == []; }
    } else {
      assert (open + [Commit])[1..] == open[1..] + [Commit];
      assert items[1..] == open[1..] + [item] + [Commit];
      match open[0] {
        case Desc(ws) => TxsMore(open[1..], Tx(cur.writes + ws, cur.revokes), tx, item);
        case Revoke(bs) => TxsMore(open[1..], Tx(cur.writes, cur.revokes + bs), tx, item);
        case Commit =>
      }
    }
  }

  /** Its copies lie in the blocks allocated to it, and not in `desc`, which is still to be
      written. */
  ghost predicate InFlight(g: Geometry, log: seq<Block>, last: nat, t: Trans, desc: nat)
    requires ValidLog(log, g)
  {
    && g.Inside(last)
    && (if t.allocBlocks == 0 then t.startIblock == 0 && t.bufs == []
        else t.allocBlocks < g.Size() && g.Inside(t.startIblock) && last == g.Adv(t.startIblock, t.allocBlocks))
    && forall b :: b in t.bufs ==>
         && g.Inside(b.jbdLba) && Dist(g, t.startIblock, b.jbdLba) < t.allocBlocks && b.jbdLba != desc
         && |b.data| == g.words && log[b.jbdLba] == Escaped(b.data)
  }

  /** A block more is allocated to it. */
  function Took(t: Trans, block: nat): Trans {
    t.(allocBlocks := t.allocBlocks + 1, startIblock := if t.startIblock == 0 then block else t.startIblock)
  }

  lemma TookKeeps(g: Geometry, log: seq<Block>, last: nat, t: Trans, desc: nat)
    requires ValidLog(log, g) && InFlight(g, log, last, t, desc) && t.allocBlocks + 1 < g.Size()
    ensures InFlight(g, log, g.Inc(last), Took(t, last), desc)
    ensures desc == 0 ==> InFlight(g, log, g.Inc(last), Took(t, last), last)
  {
  }

  lemma CopyKeeps(g: Geometry, log: seq<Block>, last: nat, t: Trans, desc: nat, b: JbdBuf)
    requires ValidLog(log, g) && InFlight(g, log, last, t, desc) && t.allocBlocks + 1 < g.Size() && t.allocBlocks > 0
    requires b.jbdLba == last && |b.data| == g.words && last != desc && ValidLog(log[last := Escaped(b.data)], g)
    ensures InFlight(g, log[last := Escaped(b.data)], g.Inc(last), Took(t, last).(bufs := t.bufs + [b]), desc)
  {
    assert Dist(g, t.startIblock, last) == t.allocBlocks;
    var t' := Took(t, last).(bufs := t.bufs + [b]);
    forall c | c in t'.bufs
      ensures g.Inside(c.jbdLba) && Dist(g, t'.startIblock, c.jbdLba) < t'.allocBlocks && c.jbdLba != desc
      ensures |c.data| == g.words && log[last := Escaped(b.data)][c.jbdLba] == Escaped(c.data)
    {
      if c != b { assert c in t.bufs; }
    }
  }

  lemma DescKeeps(g: Geometry, log: seq<Block>, last: nat, t: Trans, desc: nat, b: Block)
    requires ValidLog(log, g) && InFlight(g, log, last, t, desc) && g.Inside(desc) && ValidLog(log[desc := b], g)
    ensures InFlight(g, log[desc := b], last, t, 0)
  {
  }

  /** `i` of the buffers `writes` are in the log; the copies of the last of them, `ws`, are
      described by the block being filled at `desc`, if there is one. */
  ghost predicate Preparing(g: Geometry, log: seq<Block>, last: nat, open: seq<Item>, reserved: nat, t: Trans,
                            desc: nat, b: Block, p: nat, tags: seq<Tag>, ws: seq<Write>, writes: seq<Write>, i: nat)
    requires ValidLog(log, g)
  {
    && |ws| <= i <= |writes| && |t.bufs| == i
    && (forall k :: 0 <= k < i ==> t.bufs[k].lba == writes[k].block && t.bufs[k].data == writes[k].data)
    && InFlight(g, log, last, t, desc) && t.allocBlocks == TotalLen(open) + reserved
    && Commits(open) == 0 && Txs(open + [Commit], EMPTY_TX) == [Tx(writes[..i - |ws|], [])]
    && ws == writes[i - |ws|..i]
    && (if desc == 0 then reserved == 0 && ws == []
        else reserved == 1 + |ws| && p == TagAt(|tags|) && Filling(g, log, last, t.id, desc, b, tags, ws)
             && (forall k :: 0 <= k < |tags| ==> (tags[k].last <==> k == |tags| - 1 && i == |writes|)))
  }

  lemma {:induction false} PrepareBegin(g: Geometry, log: seq<Block>, last: nat, t: Trans, b: Block, writes: seq<Write>)
    requires ValidLog(log, g) && g.Inside(last) && t.bufs == [] && t.allocBlocks == t.startIblock == 0
    ensures Preparing(g, log, last, [], 0, t, 0, b, 0, [], [], writes, 0)
  {
    hide Filling, Txs, Commits, TotalLen;
    NothingOpen();
    assert writes[..0] == [];
  }

  lemma NothingOpen()
    ensures Txs([] + [Commit], EMPTY_TX) == [EMPTY_TX] && Commits([]) == 0 && TotalLen([]) == 0
  {
    hide LastWrite;
    var one: seq<Item> := [Commit];
    assert [] + [Commit] == one && one[1..] == [];
  }

  lemma PrepareShape(g: Geometry, log: seq<Block>, last: nat, open: seq<Item>, reserved: nat, t: Trans,
                     desc: nat, b: Block, p: nat, tags: seq<Tag>, ws: seq<Write>, writes: seq<Write>, i: nat)
    requires ValidLog(log, g) && Preparing(g, log, last, open, reserved, t, desc, b, p, tags, ws, writes, i)
    ensures t.allocBlocks == TotalLen(open) + reserved && g.Inside(last) && last < |log|
    ensures desc == 0 ==> reserved == 0 && ws == []
    ensures desc != 0 ==> p == TagAt(|tags|) && |b| == g.words && |tags| == |ws| && g.Inside(desc) && desc < |log|
    ensures TagAt(0) == HEADER_WORDS && 16 <= g.words && g.words % 2 == 0
  {
    hide Table, LoggedWrites, Txs;
  }

  lemma PrepareOpen(g: Geometry, log: seq<Block>, last: nat, open: seq<Item>, t: Trans, b0: Block, p0: nat,
                    tags: seq<Tag>, writes: seq<Write>, i: nat, b: Block)
    requires ValidLog(log, g) && Preparing(g, log, last, open, 0, t, 0, b0, p0, tags, [], writes, i)
    requires i < |writes| && t.allocBlocks + 1 < g.Size() && |b| == g.words && Headed(b, DESCRIPTOR_BLOCK, t.id)
    requires g.words >= 16
    ensures Preparing(g, log, g.Inc(last), open, 1, Took(t, last), last, b, TagAt(0), [], [], writes, i)
  {
    hide InFlight, Filling, Txs;
    TookKeeps(g, log, last, t, 0);
    InFlightLast(g, log, last, t, 0);
    FillingBegin(g, log, g.Inc(last), t.id, last, b);
  }

  lemma InFlightLast(g: Geometry, log: seq<Block>, last: nat, t: Trans, desc: nat)
    requires ValidLog(log, g) && InFlight(g, log, last, t, desc)
    ensures g.Inside(last)
  {
  }

  /** The next tag, in the next free place of the block being filled. */
  ghost predicate TagWritten(b: Block, b': Block, p: nat, tag: Tag) {
    && p + tag.Words() <= |b| == |b'| && (forall k :: 0 <= k < p ==> b'[k] == b[k])
    && b'[p] == tag.block && b'[p + 1] == tag.Flags()
  }

  lemma PrepareMore(g: Geometry, log: seq<Block>, last: nat, open: seq<Item>, reserved: nat, t: Trans, desc: nat,
                    b: Block, p: nat, tags: seq<Tag>, ws: seq<Write>, writes: seq<Write>, i: nat, b': Block)
    requires ValidLog(log, g) && Preparing(g, log, last, open, reserved, t, desc, b, p, tags, ws, writes, i)
    requires desc != 0 && i < |writes| && t.allocBlocks + 1 < g.Size() && |writes[i].data| == g.words
    requires |tags| < TagsPerBlock(g.words)
    requires TagWritten(b, b', p, Tag(writes[i].block, writes[i].data[0] == MAGIC, |tags| == 0, i == |writes| - 1))
    ensures g.Inside(last) && ValidLog(log[last := Escaped(writes[i].data)], g)
    ensures var w := writes[i];
            var tag := Tag(w.block, w.data[0] == MAGIC, |tags| == 0, i == |writes| - 1);
            Preparing(g, log[last := Escaped(w.data)], g.Inc(last), open, reserved + 1,
                      Took(t, last).(bufs := t.bufs + [JbdBuf(w.block, last, w.data)]),
                      desc, b', p + tag.Words(), tags + [tag], ws + [w], writes, i + 1)
  {
    hide InFlight, Txs, Filling, Table, Tag.Flags, Escaped, Commits, TotalLen;
    var w := writes[i];
    var tag := Tag(w.block, w.data[0] == MAGIC, |tags| == 0, i == |writes| - 1);
    FillingSize(g, log, last, t, desc, b, tags, ws, t.allocBlocks);
    FillingMore(g, log, last, t.id, desc, b, tags, ws, b', w, i == |writes| - 1);
    CopyKeeps(g, log, last, t, desc, JbdBuf(w.block, last, w.data));
    assert writes[..i + 1 - |ws + [w]|] == writes[..i - |ws|];
    assert ws + [w] == writes[i + 1 - |ws + [w]|..i + 1];
  }

  lemma FillingSize(g: Geometry, log: seq<Block>, last: nat, t: Trans, desc: nat, b: Block, tags: seq<Tag>,
                    ws: seq<Write>, alloc: nat)
    requires ValidLog(log, g) && Filling(g, log, last, t.id, desc, b, tags, ws) && 1 + |ws| <= alloc
    requires alloc + 1 < g.Size()
    ensures |ws| + 2 < g.Size() && last != desc && |b| == g.words && g.Inside(desc) && |tags| == |ws|
    ensures last == g.Adv(desc, 1 + |ws|) && |tags| <= TagsPerBlock(g.words)
  {
  }

  lemma PrepareClose(g: Geometry, log: seq<Block>, last: nat, open: seq<Item>, reserved: nat, t: Trans, desc: nat,
                     b: Block, p: nat, tags: seq<Tag>, ws: seq<Write>, writes: seq<Write>, i: nat)
    requires ValidLog(log, g) && g.Valid()
            && Preparing(g, log, last, open, reserved, t, desc, b, p, tags, ws, writes, i)
    requires desc != 0 && tags != [] && (i == |writes| || |tags| == TagsPerBlock(g.words))
    ensures g.Inside(desc) && |b| == g.words && ValidLog(log[desc := b], g) && reserved == Desc(ws).Len()
    ensures last == g.Adv(desc, reserved)
    ensures ItemAt(log[desc := b], g, desc, t.id) == Some(Desc(ws))
    ensures DataUnmarked(log[desc := b], g, desc, Desc(ws))
    ensures Preparing(g, log[desc := b], last, open + [Desc(ws)], 0, t, 0, b, p, tags, [], writes, i)
  {
    hide InFlight, Txs, Table, ItemAt, DataUnmarked, LoggedWrites, Commits, TotalLen;
    assert Closed(g.words, tags);
    FillingEnd(g, log, last, t.id, desc, b, tags, ws);
    DescKeeps(g, log, last, t, desc, b);
    TxsMore(open, EMPTY_TX, Tx(writes[..i - |ws|], []), Desc(ws));
    assert writes[..i - |ws|] + ws == writes[..i];
    CommitsAppend(open, [Desc(ws)]);
    TotalLenAppend(open, [Desc(ws)]);
    OneItem(Desc(ws));
  }

  predicate WritesFit(g: Geometry, size: nat, writes: seq<Write>) {
    forall w :: w in writes ==> |w.data| == g.words && 0 < w.block < size
  }

  lemma OneFits(g: Geometry, size: nat, writes: seq<Write>, i: nat)
    requires WritesFit(g, size, writes) && i < |writes|
    ensures |writes[i].data| == g.words && 0 < writes[i].block < size
  {
    assert writes[i] in writes;
  }

  lemma AllocOf(g: Geometry, v: View, plan: seq<seq<u32>>, busy: set<u32>, m: Mode, need: nat, alloc: nat)
    requires Tracks(g, v, plan, busy, m, need) && alloc == TotalLen(v.open) + v.reserved
    ensures alloc < g.Size() && v.Used() < g.Size() && alloc + need == m.total
    ensures need == 0 && m.calm ==> m.room
  {
  }

  lemma FitsIffRoom(words: nat, tags: seq<Tag>, tag: Tag)
    requires 16 <= words && words % 2 == 0 && |tags| <= TagsPerBlock(words) && tag.uuid == (|tags| == 0)
    ensures (words - TagAt(|tags|)) % 2 == 1 && TagAt(|tags|) <= words
    ensures words - TagAt(|tags|) >= tag.Words() <==> |tags| < TagsPerBlock(words)
    ensures tags == [] ==> 0 < TagsPerBlock(words)
  {
  }

  /** A new descriptor block for transaction `t`. */
  method OpenDescriptor(j: Journal, t: Trans, ghost b0: Block, ghost p0: nat, ghost tags0: seq<Tag>,
                        ghost writes: seq<Write>, ghost i: nat, ghost busy: set<u32>, ghost m: Mode, ghost need: nat)
    returns (t': Trans, desc: nat, b: Block, ok: bool)
    requires j.Valid() && j.entering == [] && Plain(j.cpQueue, j.busy) && On(j, busy, m, need + 1)
    requires ValidLog(j.log, j.g) && j.g.Valid() && i < |writes|
    requires Preparing(j.g, j.log, j.last, j.open, j.reserved, t, 0, b0, p0, tags0, [], writes, i)
    modifies j
    ensures j.Valid() && j.Kept() && Plain(j.cpQueue, j.busy) && ValidLog(j.log, j.g) && Restful(j, m)
    ensures !ok ==> Halted(j, busy, m) && t' == t
    ensures ok ==>
              && On(j, busy, m, need)
              && Preparing(j.g, j.log, j.last, j.open, j.reserved, t', desc, b, TagAt(0), [], [], writes, i)
              && desc != 0 && t' == Took(t, desc)
  {
    hide Inv, Consistent, LenOf, AllPending, TxsOf, View.All, View.Used, Tracks, Ran, Plain, Preparing, TagAt,
        ValidLog, TotalLen, Halted;
    PrepareShape(j.g, j.log, j.last, j.open, j.reserved, t, 0, b0, p0, tags0, [], writes, i);
    InvLog(j.g, j.V());
    t', b := t, [];
    desc, ok := AllocBlock(j, busy, m, need);
    if !ok { return; }
    AllocOf(j.g, j.V(), j.plan, busy, m, need, t.allocBlocks + 1);
    b := NoRead(j.g.words);
    b := b[0 := MAGIC][1 := DESCRIPTOR_BLOCK][2 := t.id];
    PrepareOpen(j.g, j.log, desc, j.open, t, b0, p0, tags0, writes, i, b);
    t' := Took(t, desc);
  }

  /** The copy of buffer `i`, whose tag was just added to block `b`. */
  method CopyBuffer(j: Journal, t: Trans, ghost desc: nat, ghost b0: Block, ghost b: Block, ghost p: nat,
                    ghost tags: seq<Tag>, ghost ws: seq<Write>, ghost writes: seq<Write>, w: Write, ghost i: nat,
                    ghost busy: set<u32>, ghost m: Mode, ghost need: nat)
    returns (t': Trans, ok: bool)
    requires j.Valid() && j.entering == [] && Plain(j.cpQueue, j.busy) && On(j, busy, m, need + 1)
    requires ValidLog(j.log, j.g) && desc != 0 && i < |writes| && writes[i] == w && |w.data| == j.g.words > 0
    requires Preparing(j.g, j.log, j.last, j.open, j.reserved, t, desc, b0, p, tags, ws, writes, i)
    requires |tags| < TagsPerBlock(j.g.words)
    requires TagWritten(b0, b, p, Tag(w.block, w.data[0] == MAGIC, |tags| == 0, i == |writes| - 1))
    modifies j
    ensures j.Valid() && j.Ongoing() && j.busy == old(j.busy) && Plain(j.cpQueue, j.busy) && ValidLog(j.log, j.g)
            && Restful(j, m)
    ensures !ok ==> Halted(j, busy, m)
    ensures ok ==>
              && On(j, busy, m, need)
              && var tag := Tag(w.block, w.data[0] == MAGIC, |tags| == 0, i == |writes| - 1);
                 Preparing(j.g, j.log, j.last, j.open, j.reserved, t', desc, b, p + tag.Words(), tags + [tag],
                           ws + [w], writes, i + 1)
    ensures t' == t.(bufs := t'.bufs, allocBlocks := t'.allocBlocks, startIblock := t'.startIblock)
  {
    hide Inv, Consistent, LenOf, AllPending, TxsOf, View.All, View.Used, Tracks, Ran, Plain, Preparing, TagAt,
        ValidLog, TotalLen, Escaped, TagWritten, Tag.Words, Halted;
    PrepareShape(j.g, j.log, j.last, j.open, j.reserved, t, desc, b0, p, tags, ws, writes, i);
    EscapeReadBack(w.data);
    t' := t;
    var data;
    data, ok := AllocBlock(j, busy, m, need);
    if !ok {
      InvLog(j.g, j.V());
      return;
    }
    AllocOf(j.g, j.V(), j.plan, busy, m, need, t.allocBlocks + 1);
    PrepareMore(j.g, j.log, data, j.open, j.reserved - 1, t, desc, b0, p, tags, ws, writes, i, b);
    WriteData(j, data, Escaped(w.data), busy, m, need);
    t' := Took(t, data).(bufs := t.bufs + [JbdBuf(w.block, data, w.data)]);
  }

  // ----- The buffers of a transaction

  /** A buffer that a transaction took hold of: `struct jbd_buf`, and whether it is dirty. A
      block that was freed meanwhile is not. */
  datatype TransBuf = TransBuf(block: u32, data: Block, dirty: bool)

  /** The dirty ones, in order. */
  function Dirty(bufs: seq<TransBuf>): (ws: seq<Write>)
    ensures |ws| <= |bufs|
  {
    if bufs == [] then []
    else
      var b := bufs[|bufs| - 1];
      Dirty(bufs[..|bufs| - 1]) + if b.dirty then [Write(b.block, b.data)] else []
  }

  /** The blocks of buffers that are not dirty, nor revoked: their last committed copy is brought
      back into the cache. */
  function Dropped(bufs: seq<TransBuf>, revokes: seq<u32>): set<u32> {
    set b | b in bufs && !b.dirty && b.block !in revokes :: b.block
  }

  lemma {:induction false} DirtyAppend(a: seq<TransBuf>, b: seq<TransBuf>)
    ensures Dirty(a + b) == Dirty(a) + Dirty(b)
    decreases |b|
  {
    if b == [] {
      assert a + b == a;
    } else {
      assert (a + b)[..|a + b| - 1] == a + b[..|b| - 1];
      DirtyAppend(a, b[..|b| - 1]);
    }
  }

  lemma DirtyOne(b: TransBuf)
    ensures Dirty([b]) == if b.dirty then [Write(b.block, b.data)] else []
  {
    assert [b][..0] == [];
  }

  lemma DirtyLast(bufs: seq<TransBuf>)
    ensures bufs != [] && bufs[|bufs| - 1].dirty ==> Dirty(bufs) != []
    ensures bufs == [] ==> Dirty(bufs) == []
  {
  }

  lemma DirtyStep(bufs: seq<TransBuf>, k: nat)
    requires k < |bufs|
    ensures Dirty(bufs[..k + 1]) == Dirty(bufs[..k])
            + if bufs[k].dirty then [Write(bufs[k].block, bufs[k].data)] else []
  {
    hide Dirty;
    assert bufs[..k + 1] == bufs[..k] + [bufs[k]];
    DirtyAppend(bufs[..k], [bufs[k]]);
    DirtyOne(bufs[k]);
  }

  lemma DirtyRest(bufs: seq<TransBuf>, k: nat)
    requires k < |bufs|
    ensures Dirty(bufs) == Dirty(bufs[..k + 1]) + Dirty(bufs[k + 1..])
    ensures k + 1 < |bufs| && bufs[|bufs| - 1].dirty ==> Dirty(bufs[k + 1..]) != []
    ensures k + 1 == |bufs| ==> Dirty(bufs[k + 1..]) == []
  {
    hide Dirty;
    assert bufs == bufs[..k + 1] + bufs[k + 1..];
    DirtyAppend(bufs[..k + 1], bufs[k + 1..]);
    DirtyLast(bufs[k + 1..]);
  }

  /** A buffer that is not dirty leaves its transaction, in `jbd_trans_finish_callback` with
      `abort`: unless the block is revoked, the cache gets the copy that is in the log. */
  method DropBuffer(j: Journal, b: TransBuf, revokes: seq<u32>, ghost busy: set<u32>, ghost m: Mode, ghost need: nat)
    requires j.Valid() && j.entering == [] && Plain(j.cpQueue, j.busy) && On(j, busy, m, need) && ValidLog(j.log, j.g)
    requires b.block !in revokes ==> b.block !in busy
    modifies j`busy
    ensures j.Valid() && j.Ongoing() && Plain(j.cpQueue, j.busy) && On(j, busy, m, need) && Restful(j, m)
    ensures j.busy == old(j.busy) - if b.block in revokes then {} else {b.block}
    ensures j.V() == old(j.V()) && j.images == old(j.images) && ValidLog(j.log, j.g)
  {
    hide Inv, Consistent, LenOf, AllPending, TxsOf, View.All, Tracks, Ran, Plain;
    ghost var v := j.V();
    PlainLess(j.cpQueue, j.busy, j.busy - {b.block});
    if b.block !in revokes { j.busy := j.busy - {b.block}; }
    assert j.V() == v;
  }

  lemma PlainLess(queue: seq<Trans>, busy: set<u32>, less: set<u32>)
    requires Plain(queue, busy) && less <= busy
    ensures Plain(queue, less)
  {
  }

  lemma TrimNone(bufs: seq<TransBuf>, revokes: seq<u32>)
    ensures Dirty(bufs[..|bufs|]) == Dirty(bufs) && Dropped(bufs[|bufs|..], revokes) == {}
  {
    assert bufs[..|bufs|] == bufs;
  }

  lemma TrimStep(bufs: seq<TransBuf>, n: nat, revokes: seq<u32>)
    requires 0 < n <= |bufs| && !bufs[n - 1].dirty
    ensures var b := bufs[n - 1].block;
            && Dirty(bufs[..n - 1]) == Dirty(bufs[..n])
            && Dropped(bufs[n - 1..], revokes) == Dropped(bufs[n..], revokes) + (if b in revokes then {} else {b})
            && (b !in revokes ==> b in Dropped(bufs, revokes))
  {
    hide Dirty;
    DirtyStep(bufs, n - 1);
    assert bufs[n - 1..] == [bufs[n - 1]] + bufs[n..];
    assert bufs[n - 1] in bufs;
  }

  /** The first loop of `jbd_journal_prepare`: buffers that are not dirty leave at the tail. */
  method TrimTail(j: Journal, bufs: seq<TransBuf>, revokes: seq<u32>, dataCnt0: nat,
                  ghost busy: set<u32>, ghost m: Mode, ghost need: nat)
    returns (n: nat, dataCnt: nat)
    requires j.Valid() && j.entering == [] && Plain(j.cpQueue, j.busy) && On(j, busy, m, need) && ValidLog(j.log, j.g)
    requires Dropped(bufs, revokes) !! busy && dataCnt0 == |bufs|
    modifies j`busy
    ensures j.Valid() && j.Ongoing() && Plain(j.cpQueue, j.busy) && On(j, busy, m, need) && Restful(j, m)
    ensures n == dataCnt <= |bufs| && (n > 0 ==> bufs[n - 1].dirty) && Dirty(bufs[..n]) == Dirty(bufs)
    ensures j.busy == old(j.busy) - Dropped(bufs[n..], revokes)
    ensures j.V() == old(j.V()) && j.images == old(j.images) && ValidLog(j.log, j.g)
  {
    hide Inv, Consistent, LenOf, AllPending, TxsOf, View.All, Tracks, Ran, Plain, Dirty, Dropped;
    n, dataCnt := |bufs|, dataCnt0;
    TrimNone(bufs, revokes);
    while n > 0 && !bufs[n - 1].dirty
      invariant j.Valid() && j.Ongoing() && Plain(j.cpQueue, j.busy) && On(j, busy, m, need) && Restful(j, m)
      invariant n == dataCnt <= |bufs| && Dirty(bufs[..n]) == Dirty(bufs)
      invariant j.busy == old(j.busy) - Dropped(bufs[n..], revokes)
      invariant j.V() == old(j.V()) && j.images == old(j.images) && ValidLog(j.log, j.g)
    {
      TrimStep(bufs, n, revokes);
      DropBuffer(j, bufs[n - 1], revokes, busy, m, need);
      dataCnt := dataCnt - 1;
      n := n - 1;
    }
  }

  /** The body of the second loop of `jbd_journal_prepare` for a dirty buffer, up to `goto again`:
      when the descriptor block is full, it is written, and the buffer is still to be logged. */
  method LogOne(j: Journal, t: Trans, desc: nat, b: Block, p: nat, uuid: seq<u32>, w: Write, last: bool,
                ghost tags: seq<Tag>, ghost ws: seq<Write>, ghost writes: seq<Write>, ghost i: nat,
                ghost busy: set<u32>, ghost m: Mode, ghost need: nat)
    returns (t': Trans, desc': nat, b': Block, p': nat, ghost tags': seq<Tag>, ghost ws': seq<Write>, logged: bool,
             ok: bool)
    requires j.Valid() && j.g.Valid() && j.entering == [] && Plain(j.cpQueue, j.busy) && ValidLog(j.log, j.g)
    requires |uuid| == UUID_WORDS && t.id == j.allocTransId
    requires i < |writes| && writes[i] == w && |w.data| == j.g.words > 0 && last == (i == |writes| - 1)
    requires Preparing(j.g, j.log, j.last, j.open, j.reserved, t, desc, b, p, tags, ws, writes, i)
    requires var per := TagsPerBlock(j.g.words);
             && per > 0 && |tags| <= per && (if desc == 0 then ws == [] else tags != [])
             && On(j, busy, m, DataLen(|writes| - i, per, if desc == 0 then 0 else per - |tags|) + need)
    modifies j
    ensures j.Valid() && j.Ongoing() && j.busy == old(j.busy) && Plain(j.cpQueue, j.busy) && ValidLog(j.log, j.g)
            && Restful(j, m)
    ensures t' == t.(bufs := t'.bufs, allocBlocks := t'.allocBlocks, startIblock := t'.startIblock)
    ensures !ok ==> Halted(j, busy, m)
    ensures var per := TagsPerBlock(j.g.words);
            && (ok && logged ==>
                  && desc' != 0 && tags' != [] && |tags'| <= per
                  && Preparing(j.g, j.log, j.last, j.open, j.reserved, t', desc', b', p', tags', ws', writes, i + 1)
                  && On(j, busy, m, DataLen(|writes| - i - 1, per, per - |tags'|) + need))
            && (ok && !logged ==>
                  && desc != 0 && desc' == 0 && ws' == [] && |tags'| <= per
                  && Preparing(j.g, j.log, j.last, j.open, j.reserved, t', desc', b', p', tags', ws', writes, i)
                  && On(j, busy, m, DataLen(|writes| - i, per, 0) + need))
  {
    hide Inv, Consistent, LenOf, AllPending, TxsOf, View.All, View.Used, Tracks, Ran, Plain, Preparing, TagAt,
        Tag.Flags, Escaped, ItemAt, DataUnmarked, ValidLog, TagsPerBlock, TotalLen, Halted;
    ghost var per := TagsPerBlock(j.g.words);
    t', desc', b', p', tags', ws', logged, ok := t, desc, b, p, tags, ws, true, true;
    PrepareShape(j.g, j.log, j.last, j.open, j.reserved, t, desc, b, p, tags, ws, writes, i);
    var uuidExist := false;
    if desc == 0 {
      t', desc', b', ok := OpenDescriptor(j, t, b, p, tags, writes, i, busy, m, DataLen(|writes| - i, per, per) + need);
      if !ok { return; }
      p', tags' := HEADER_WORDS, [];
      uuidExist := true;
      PrepareShape(j.g, j.log, j.last, j.open, j.reserved, t', desc', b', TagAt(0), tags', ws', writes, i);
    }
    var tag := Tag(w.block, w.data[0] == MAGIC, uuidExist, last);
    FitsIffRoom(j.g.words, tags', tag);
    ghost var b0 := b';
    logged, b' := WriteBlockTag(b', p', uuid, tag);
    if !logged {
      PrepareClose(j.g, j.log, j.last, j.open, j.reserved, t', desc', b', p', tags', ws', writes, i);
      WriteRecord(j, desc', b', Desc(ws'), busy, m, DataLen(|writes| - i, per, 0) + need);
      desc', ws' := 0, [];
    } else {
      t', ok := CopyBuffer(j, t', desc', b0, b', p', tags', ws', writes, w, i, busy, m,
                           DataLen(|writes| - i - 1, per, per - |tags'| - 1) + need);
      tags', ws' := tags' + [tag], ws' + [w];
      p' := p' + tag.Words();
    }
  }

  /** The first `i` of the buffers to log are in the log or in the record that is being written, and
      there is room for the others. */
  ghost predicate Logging(j: Journal, t: Trans, desc: nat, b: Block, p: nat, tags: seq<Tag>, ws: seq<Write>,
                          writes: seq<Write>, i: nat, busy: set<u32>, m: Mode, need: nat)
    reads j
  {
    var per := TagsPerBlock(j.g.words);
    && j.Valid() && j.g.Valid() && j.entering == [] && Plain(j.cpQueue, j.busy) && ValidLog(j.log, j.g)
    && i <= |writes| && Preparing(j.g, j.log, j.last, j.open, j.reserved, t, desc, b, p, tags, ws, writes, i)
    && per > 0 && |tags| <= per && (if desc == 0 then ws == [] else tags != [])
    && On(j, busy, m, DataLen(|writes| - i, per, if desc == 0 then 0 else per - |tags|) + need)
  }

  /** The body of the loop over the buffers: one that is not dirty is skipped, and counts no more. When
      the descriptor block is full, it is written, and the buffer is still to be logged. */
  method LogBuffer(j: Journal, t: Trans, desc: nat, b: Block, p: nat, uuid: seq<u32>, bufs: seq<TransBuf>, ghost n: nat,
                   k: nat, i: nat, dataCnt: nat, revokes: seq<u32>, ghost tags: seq<Tag>, ghost ws: seq<Write>,
                   ghost busy0: set<u32>, ghost busy: set<u32>, ghost m: Mode, ghost need: nat)
    returns (t': Trans, desc': nat, b': Block, p': nat, ghost tags': seq<Tag>, ghost ws': seq<Write>,
             k': nat, i': nat, dataCnt': nat, ok: bool)
    requires Logging(j, t, desc, b, p, tags, ws, Dirty(bufs), i, busy, m, need) && k < n
    requires |uuid| == UUID_WORDS && WritesFit(j.g, |j.home|, Dirty(bufs)) && t.id == j.allocTransId
    requires Dropped(bufs, revokes) !! busy && Filled(bufs, n, k, i, dataCnt, revokes, busy0, j.busy)
    modifies j
    ensures j.Valid() && j.Ongoing() && Plain(j.cpQueue, j.busy) && Restful(j, m) && ValidLog(j.log, j.g)
    ensures !ok ==> Halted(j, busy, m)
    ensures t' == t.(bufs := t'.bufs, allocBlocks := t'.allocBlocks, startIblock := t'.startIblock)
    ensures ok ==>
              && Logging(j, t', desc', b', p', tags', ws', Dirty(bufs), i', busy, m, need)
              && Filled(bufs, n, k', i', dataCnt', revokes, busy0, j.busy)
              && (k' == k + 1 || (k' == k && desc != 0 && desc' == 0))
  {
    hide Inv, Consistent, LenOf, AllPending, TxsOf, View.All, View.Used, Tracks, Ran, Plain, Preparing, TagAt,
        Tag.Flags, Escaped, ItemAt, DataUnmarked, ValidLog, TagsPerBlock, WritesFit, TotalLen, Halted, Dirty, Dropped,
        Filled;
    ghost var per, writes := TagsPerBlock(j.g.words), Dirty(bufs);
    t', desc', b', p', tags', ws', k', i', dataCnt', ok := t, desc, b, p, tags, ws, k, i, dataCnt, true;
    FilledNext(bufs, n, k, i, dataCnt, revokes, busy, busy0, j.busy);
    if !bufs[k].dirty {
      DropBuffer(j, bufs[k], revokes, busy, m,
                 DataLen(|writes| - i, per, if desc == 0 then 0 else per - |tags|) + need);
      dataCnt', k' := dataCnt - 1, k + 1;
    } else {
      var w := Write(bufs[k].block, bufs[k].data);
      OneFits(j.g, |j.home|, writes, i);
      var logged;
      t', desc', b', p', tags', ws', logged, ok := LogOne(j, t, desc, b, p, uuid, w, i == dataCnt - 1, tags, ws, writes,
                                                          i, busy, m, need);
      if ok && logged { i', k' := i + 1, k + 1; }
    }
  }

  /** The second loop of `jbd_journal_prepare`: each dirty buffer is logged, and others leave. */
  method LogBuffers(j: Journal, t0: Trans, uuid: seq<u32>, bufs: seq<TransBuf>, n: nat, count: nat, revokes: seq<u32>,
                    ghost busy0: set<u32>, ghost busy: set<u32>, ghost m: Mode, ghost need: nat)
    returns (t: Trans, desc: nat, b: Block, p: nat, ghost tags: seq<Tag>, ghost ws: seq<Write>, dataCnt: nat, ok: bool)
    requires Logging(j, t0, 0, [], 0, [], [], Dirty(bufs), 0, busy, m, need)
    requires |uuid| == UUID_WORDS && WritesFit(j.g, |j.home|, Dirty(bufs)) && t0.id == j.allocTransId
    requires Dropped(bufs, revokes) !! busy && Filled(bufs, n, 0, 0, count, revokes, busy0, j.busy)
    modifies j
    ensures j.Valid() && j.Ongoing() && Plain(j.cpQueue, j.busy) && Restful(j, m) && ValidLog(j.log, j.g)
    ensures !ok ==> Halted(j, busy, m)
    ensures t == t0.(bufs := t.bufs, allocBlocks := t.allocBlocks, startIblock := t.startIblock)
    ensures ok ==>
              && Filled(bufs, n, n, |Dirty(bufs)|, dataCnt, revokes, busy0, j.busy)
              && Logging(j, t, desc, b, p, tags, ws, Dirty(bufs), |Dirty(bufs)|, busy, m, need)
  {
    hide Inv, Consistent, LenOf, AllPending, TxsOf, View.All, View.Used, Plain, ValidLog, WritesFit, Halted, Ran,
        Dirty, Dropped, Filled, Logging;
    LoggingIs(j, t0, 0, [], 0, [], [], Dirty(bufs), 0, busy, m, need);
    t, desc, b, p, dataCnt, ok := t0, 0, [], 0, count, true;
    tags, ws := [], [];
    var k, i: nat := 0, 0;
    FilledShape(bufs, n, k, i, dataCnt, revokes, busy0, j.busy);
    while k < n
      invariant j.Valid() && j.Ongoing() && Plain(j.cpQueue, j.busy) && ValidLog(j.log, j.g) && Restful(j, m)
      invariant k <= n && Filled(bufs, n, k, i, dataCnt, revokes, busy0, j.busy) && ok
      invariant Logging(j, t, desc, b, p, tags, ws, Dirty(bufs), i, busy, m, need)
      invariant t == t0.(bufs := t.bufs, allocBlocks := t.allocBlocks, startIblock := t.startIblock)
      decreases n - k, desc != 0
    {
      t, desc, b, p, tags, ws, k, i, dataCnt, ok :=
        LogBuffer(j, t, desc, b, p, uuid, bufs, n, k, i, dataCnt, revokes, tags, ws, busy0, busy, m, need);
      if !ok { return; }
      FilledShape(bufs, n, k, i, dataCnt, revokes, busy0, j.busy);
    }
    FilledEnd(bufs, n, k, i, dataCnt, revokes, busy0, j.busy);
  }

  lemma LoggingIs(j: Journal, t: Trans, desc: nat, b: Block, p: nat, tags: seq<Tag>, ws: seq<Write>,
                  writes: seq<Write>, i: nat, busy: set<u32>, m: Mode, need: nat)
    requires Logging(j, t, desc, b, p, tags, ws, writes, i, busy, m, need)
    ensures j.Valid() && Plain(j.cpQueue, j.busy) && ValidLog(j.log, j.g)
  {
  }

  /** `jbd_journal_prepare`: logs the dirty ones of the buffers of a transaction; the others leave
      it, and count no more, so that the tag of the last dirty buffer is the last tag. */
  method Prepare(j: Journal, t0: Trans, uuid: seq<u32>, bufs: seq<TransBuf>, revokes: seq<u32>,
                 ghost busy: set<u32>, ghost m: Mode, ghost need: nat)
    returns (t: Trans, ok: bool)
    requires j.Valid() && j.g.Valid() && j.entering == [] && Plain(j.cpQueue, j.busy)
    requires j.open == [] && j.reserved == 0 && |uuid| == UUID_WORDS && WritesFit(j.g, |j.home|, Dirty(bufs))
    requires t0.bufs == [] && t0.allocBlocks == t0.startIblock == 0 && t0.id == j.allocTransId && t0.dataCnt == |bufs|
    requires TagsPerBlock(j.g.words) > 0 && Dropped(bufs, revokes) !! busy
    requires On(j, busy, m, DataLen(|Dirty(bufs)|, TagsPerBlock(j.g.words), 0) + need)
    modifies j
    ensures j.Valid() && j.Ongoing() && Plain(j.cpQueue, j.busy) && Restful(j, m) && ValidLog(j.log, j.g)
    ensures !ok ==> Halted(j, busy, m)
    ensures ok ==>
              && On(j, busy, m, need) && j.busy == old(j.busy) - Dropped(bufs, revokes)
              && Preparing(j.g, j.log, j.last, j.open, j.reserved, t, 0, [], 0, [], [], Dirty(bufs), |Dirty(bufs)|)
              && t == t0.(bufs := t.bufs, allocBlocks := t.allocBlocks, startIblock := t.startIblock,
                          dataCnt := |Dirty(bufs)|)
  {
    hide Inv, Consistent, LenOf, AllPending, TxsOf, View.All, View.Used, Tracks, Ran, Plain, Preparing, TagAt,
        Tag.Flags, Escaped, ItemAt, DataUnmarked, ValidLog, TagsPerBlock, WritesFit, TotalLen, Halted, Dirty, Dropped,
        Filled;
    ghost var len, writes := DataLen(|Dirty(bufs)|, TagsPerBlock(j.g.words), 0), Dirty(bufs);
    InvLog(j.g, j.V());
    LastIn(j.g, j.V(), j.plan, busy, m, len + need);
    PrepareBegin(j.g, j.log, j.last, t0, [], writes);
    var n, dataCnt := TrimTail(j, bufs, revokes, t0.dataCnt, busy, m, len + need);
    FilledBegin(bufs, n, revokes, old(j.busy), j.busy);
    var desc, p, b;
    ghost var tags, ws;
    t, desc, b, p, tags, ws, dataCnt, ok := LogBuffers(j, t0, uuid, bufs, n, dataCnt, revokes, old(j.busy), busy, m,
        need);
    if !ok { return; }
    FilledEnd(bufs, n, n, |writes|, dataCnt, revokes, old(j.busy), j.busy);
    PrepareShape(j.g, j.log, j.last, j.open, j.reserved, t, desc, b, p, tags, ws, writes, |writes|);
    if desc != 0 {
      PrepareClose(j.g, j.log, j.last, j.open, j.reserved, t, desc, b, p, tags, ws, writes, |writes|);
      WriteRecord(j, desc, b, Desc(ws), busy, m, need);
      ws := [];
    }
    PrepareNone(j.g, j.log, j.last, j.open, j.reserved, t, b, p, tags, ws, writes, |writes|, dataCnt);
    t := t.(dataCnt := dataCnt);
  }

  /** Of the first `n` buffers, the last of which is dirty, `k` are dealt with, `i` of them
      logged; `dataCnt` counts those and the ones to come. */
  ghost predicate Filled(bufs: seq<TransBuf>, n: nat, k: nat, i: nat, dataCnt: nat, revokes: seq<u32>,
                         busy0: set<u32>, busy: set<u32>)
  {
    && k <= n <= |bufs| && Dirty(bufs[..n]) == Dirty(bufs) && (n > 0 ==> bufs[n - 1].dirty)
    && i == |Dirty(bufs[..k])| && dataCnt == i + n - k
    && busy == busy0 - Dropped(bufs[..k], revokes) - Dropped(bufs[n..], revokes)
  }

  lemma FilledBegin(bufs: seq<TransBuf>, n: nat, revokes: seq<u32>, busy0: set<u32>, busy: set<u32>)
    requires n <= |bufs| && Dirty(bufs[..n]) == Dirty(bufs) && (n > 0 ==> bufs[n - 1].dirty)
    requires busy == busy0 - Dropped(bufs[n..], revokes)
    ensures Filled(bufs, n, 0, 0, n, revokes, busy0, busy)
  {
    assert bufs[..0] == [];
  }

  lemma DroppedNext(bufs: seq<TransBuf>, k: nat, revokes: seq<u32>)
    requires k < |bufs|
    ensures Dropped(bufs[..k + 1], revokes) == Dropped(bufs[..k], revokes) +
            if bufs[k].dirty || bufs[k].block in revokes then {} else {bufs[k].block}
    ensures !bufs[k].dirty && bufs[k].block !in revokes ==> bufs[k].block in Dropped(bufs, revokes)
  {
    assert bufs[..k + 1] == bufs[..k] + [bufs[k]];
    assert bufs[k] in bufs;
  }

  lemma DirtyIn(bufs: seq<TransBuf>, n: nat, k: nat, i: nat, dataCnt: nat)
    requires k < n <= |bufs| && bufs[n - 1].dirty && i == |Dirty(bufs[..k])| && dataCnt == i + n - k
    ensures |Dirty(bufs[..k + 1])| == if bufs[k].dirty then i + 1 else i
    ensures bufs[k].dirty ==>
              && i < |Dirty(bufs[..n])| && Dirty(bufs[..n])[i] == Write(bufs[k].block, bufs[k].data)
              && (i == dataCnt - 1 <==> i == |Dirty(bufs[..n])| - 1)
  {
    hide Dirty;
    var part := bufs[..n];
    assert part[k] == bufs[k] && part[..k] == bufs[..k] && part[..k + 1] == bufs[..k + 1];
    DirtyStep(part, k);
    DirtyRest(part, k);
  }

  lemma FilledShape(bufs: seq<TransBuf>, n: nat, k: nat, i: nat, dataCnt: nat, revokes: seq<u32>, busy0: set<u32>,
                    busy: set<u32>)
    requires Filled(bufs, n, k, i, dataCnt, revokes, busy0, busy)
    ensures k <= n
  {
  }

  /** The next buffer: if it is dirty, it is the next one to be logged, and the last just if the
      counts say so. */
  lemma FilledNext(bufs: seq<TransBuf>, n: nat, k: nat, i: nat, dataCnt: nat, revokes: seq<u32>, keep: set<u32>,
                   busy0: set<u32>, busy: set<u32>)
    requires Filled(bufs, n, k, i, dataCnt, revokes, busy0, busy) && k < n && Dropped(bufs, revokes) !! keep
    ensures k < |bufs| && dataCnt > 0
    ensures bufs[k].dirty ==>
              && i < |Dirty(bufs)| && Dirty(bufs)[i] == Write(bufs[k].block, bufs[k].data)
              && (i == dataCnt - 1 <==> i == |Dirty(bufs)| - 1)
              && Filled(bufs, n, k + 1, i + 1, dataCnt, revokes, busy0, busy)
    ensures !bufs[k].dirty ==>
              && (bufs[k].block !in revokes ==> bufs[k].block !in keep)
              && Filled(bufs, n, k + 1, i, dataCnt - 1, revokes, busy0,
                        busy - if bufs[k].block in revokes then {} else {bufs[k].block})
  {
    hide Dirty, Dropped;
    DirtyIn(bufs, n, k, i, dataCnt);
    DroppedNext(bufs, k, revokes);
  }

  lemma FilledEnd(bufs: seq<TransBuf>, n: nat, k: nat, i: nat, dataCnt: nat, revokes: seq<u32>, busy0: set<u32>,
                  busy: set<u32>)
    requires Filled(bufs, n, k, i, dataCnt, revokes, busy0, busy) && k == n
    ensures k <= |bufs| && i == dataCnt == |Dirty(bufs)| && busy == busy0 - Dropped(bufs, revokes)
  {
    assert bufs == bufs[..n] + bufs[n..];
    assert Dropped(bufs, revokes) == Dropped(bufs[..n], revokes) + Dropped(bufs[n..], revokes);
  }

  lemma {:induction false} PrepareNone(g: Geometry, log: seq<Block>, last: nat, open: seq<Item>, reserved: nat,
                                       t: Trans, b: Block, p: nat, tags: seq<Tag>, ws: seq<Write>, writes: seq<Write>,
                                       i: nat, dataCnt: nat)
    requires ValidLog(log, g) && Preparing(g, log, last, open, reserved, t, 0, b, p, tags, ws, writes, i)
    ensures Preparing(g, log, last, open, reserved, t.(dataCnt := dataCnt), 0, [], 0, [], ws, writes, i)
  {
    hide Filling, Txs, Commits, TotalLen;
  }

  // ----- Revoke blocks

  /** The buffers `writes` and the first `i` blocks to revoke are logged; the last of these,
      `entries`, are in the block being filled at `desc`, if there is one. */
  ghost predicate Revoking(g: Geometry, log: seq<Block>, last: nat, open: seq<Item>, reserved: nat, t: Trans,
                           desc: nat, b: Block, entries: seq<u32>, writes: seq<Write>, revokes: seq<u32>, i: nat)
    requires ValidLog(log, g)
  {
    && |entries| <= i <= |revokes| && t.allocBlocks == TotalLen(open) + reserved
    && InFlight(g, log, last, t, desc)
    && Commits(open) == 0 && Txs(open + [Commit], EMPTY_TX) == [Tx(writes, revokes[..i - |entries|])]
    && entries == revokes[i - |entries|..i]
    && (if desc == 0 then reserved == 0 && entries == []
        else reserved == 1 && g.Inside(desc) && last == g.Inc(desc)
             && |entries| <= RevokesPerBlock(g.words) && RevokesIn(g, b, t.id, entries))
  }

  ghost predicate RevokesIn(g: Geometry, b: Block, t: u32, entries: seq<u32>) {
    && |b| == g.words && REVOKE_HEADER_WORDS + |entries| <= |b| && Headed(b, REVOKE_BLOCK, t)
    && b[REVOKE_HEADER_WORDS..REVOKE_HEADER_WORDS + |entries|] == entries
  }

  lemma {:induction false} RevokeBegin(g: Geometry, log: seq<Block>, last: nat, open: seq<Item>, reserved: nat,
                                       t: Trans, desc: nat, b: Block, p: nat, tags: seq<Tag>, ws: seq<Write>,
                                       writes: seq<Write>, entries: seq<u32>, revokes: seq<u32>)
    requires ValidLog(log, g) && desc == 0 && ws == [] && entries == []
    requires Preparing(g, log, last, open, reserved, t, desc, b, p, tags, ws, writes, |writes|)
    ensures Revoking(g, log, last, open, reserved, t, desc, b, entries, writes, revokes, 0)
  {
    hide Txs, Commits, TotalLen, InFlight, Filling, ValidLog;
    assert writes[..|writes| - |ws|] == writes;
    assert revokes[..0 - |entries|] == [] && entries == revokes[0 - |entries|..0];
  }

  lemma RevokeOpen(g: Geometry, log: seq<Block>, last: nat, open: seq<Item>, t: Trans, b0: Block,
                   writes: seq<Write>, revokes: seq<u32>, i: nat, b: Block)
    requires ValidLog(log, g) && g.Valid() && Revoking(g, log, last, open, 0, t, 0, b0, [], writes, revokes, i)
    requires t.allocBlocks + 1 < g.Size() && |b| == g.words && Headed(b, REVOKE_BLOCK, t.id)
    ensures Revoking(g, log, g.Inc(last), open, 1, Took(t, last), last, b, [], writes, revokes, i)
  {
    hide InFlight, Txs, Commits, TotalLen;
    TookKeeps(g, log, last, t, 0);
    InFlightLast(g, log, last, t, 0);
  }

  lemma RevokeMore(g: Geometry, log: seq<Block>, last: nat, open: seq<Item>, t: Trans, desc: nat, b: Block,
                   entries: seq<u32>, writes: seq<Write>, revokes: seq<u32>, i: nat)
    requires ValidLog(log, g) && Revoking(g, log, last, open, 1, t, desc, b, entries, writes, revokes, i)
    requires desc != 0 && i < |revokes| && |entries| < RevokesPerBlock(g.words)
    ensures REVOKE_HEADER_WORDS + |entries| < |b|
    ensures Revoking(g, log, last, open, 1, t, desc, b[REVOKE_HEADER_WORDS + |entries| := revokes[i]],
                     entries + [revokes[i]], writes, revokes, i + 1)
  {
    hide InFlight, Txs, Commits, TotalLen;
    assert revokes[..i + 1 - |entries + [revokes[i]]|] == revokes[..i - |entries|];
  }

  lemma RevokeShape(g: Geometry, log: seq<Block>, last: nat, open: seq<Item>, reserved: nat, t: Trans, desc: nat,
                    b: Block, entries: seq<u32>, writes: seq<Write>, revokes: seq<u32>, i: nat)
    requires ValidLog(log, g) && Revoking(g, log, last, open, reserved, t, desc, b, entries, writes, revokes, i)
    ensures t.allocBlocks == TotalLen(open) + reserved
    ensures if desc == 0 then reserved == 0 && entries == []
            else
              && reserved == 1 && |entries| <= RevokesPerBlock(g.words)
              && |b| == g.words && g.Inside(desc) && desc < |log|
    ensures 16 <= g.words <= 0x4000
  {
    hide InFlight, Txs, Commits, TotalLen;
  }

  /** Setting the byte count and writing the block completes the record. */
  lemma RevokeClose(g: Geometry, log: seq<Block>, last: nat, open: seq<Item>, t: Trans, desc: nat, b: Block,
                    entries: seq<u32>, writes: seq<Write>, revokes: seq<u32>, i: nat, count: u32)
    requires ValidLog(log, g) && g.Valid() && Revoking(g, log, last, open, 1, t, desc, b, entries, writes, revokes, i)
    requires desc != 0 && |b| > 3 && count == 16 + 4 * |entries|
    ensures var b' := b[3 := count];
            && ValidLog(log[desc := b'], g) && last == g.Adv(desc, 1)
            && ItemAt(log[desc := b'], g, desc, t.id) == Some(Revoke(entries))
            && DataUnmarked(log[desc := b'], g, desc, Revoke(entries))
            && Revoking(g, log[desc := b'], last, open + [Revoke(entries)], 0, t, 0, b', [], writes, revokes, i)
  {
    hide InFlight, Txs, ItemAt, DataUnmarked, Commits, TotalLen;
    RevokesReadBack(log, g, desc, t.id, b[3 := count], entries);
    DescKeeps(g, log, last, t, desc, b[3 := count]);
    TxsMore(open, EMPTY_TX, Tx(writes, revokes[..i - |entries|]), Revoke(entries));
    assert revokes[..i - |entries|] + entries == revokes[..i];
    CommitsAppend(open, [Revoke(entries)]);
    TotalLenAppend(open, [Revoke(entries)]);
    OneItem(Revoke(entries));
  }

  /** A new revoke block for transaction `t`. */
  method OpenRevoke(j: Journal, t: Trans, ghost b0: Block, ghost writes: seq<Write>, ghost revokes: seq<u32>,
                    ghost i: nat, ghost busy: set<u32>, ghost m: Mode, ghost need: nat)
    returns (t': Trans, desc: nat, b: Block, ok: bool)
    requires j.Valid() && j.entering == [] && Plain(j.cpQueue, j.busy) && On(j, busy, m, need + 1)
    requires ValidLog(j.log, j.g) && j.g.Valid()
    requires Revoking(j.g, j.log, j.last, j.open, j.reserved, t, 0, b0, [], writes, revokes, i)
    modifies j
    ensures j.Valid() && j.Kept() && Plain(j.cpQueue, j.busy) && ValidLog(j.log, j.g) && Restful(j, m)
    ensures !ok ==> Halted(j, busy, m) && t' == t
    ensures ok ==>
              && On(j, busy, m, need) && t' == Took(t, desc) && desc != 0
              && Revoking(j.g, j.log, j.last, j.open, j.reserved, t', desc, b, [], writes, revokes, i)
  {
    hide Inv, Consistent, LenOf, AllPending, TxsOf, View.All, View.Used, Tracks, Ran, Plain, Revoking, ValidLog,
        TotalLen, Halted;
    RevokeShape(j.g, j.log, j.last, j.open, j.reserved, t, 0, b0, [], writes, revokes, i);
    t', b := t, [];
    InvLog(j.g, j.V());
    desc, ok := AllocBlock(j, busy, m, need);
    if !ok { return; }
    AllocOf(j.g, j.V(), j.plan, busy, m, need, t.allocBlocks + 1);
    b := NoRead(j.g.words);
    b := b[0 := MAGIC][1 := REVOKE_BLOCK][2 := t.id];
    RevokeOpen(j.g, j.log, desc, j.open, t, b0, writes, revokes, i, b);
    t' := Took(t, desc);
  }

  /** The body of its loop: when the revoke block is full, it is written, and the entry is still to
      be made. */
  method EnterRevoke(j: Journal, t: Trans, desc: nat, b: Block, tblSize: nat, ghost entries: seq<u32>,
                     ghost writes: seq<Write>, revokes: seq<u32>, i: nat, ghost busy: set<u32>, ghost m: Mode,
                     ghost need: nat)
    returns (t': Trans, desc': nat, b': Block, tblSize': nat, ghost entries': seq<u32>, entered: bool, ok: bool)
    requires j.Valid() && j.g.Valid() && j.entering == [] && Plain(j.cpQueue, j.busy) && ValidLog(j.log, j.g)
    requires i < |revokes| && t.id == j.allocTransId
    requires Revoking(j.g, j.log, j.last, j.open, j.reserved, t, desc, b, entries, writes, revokes, i)
    requires var per := RevokesPerBlock(j.g.words);
             && (desc != 0 ==> entries != [] && tblSize == per - |entries|) && per > 0
             && On(j, busy, m, RevokeLen(|revokes| - i, per, if desc == 0 then 0 else tblSize) + need)
    modifies j
    ensures j.Valid() && j.Ongoing() && j.busy == old(j.busy) && Plain(j.cpQueue, j.busy) && Restful(j, m)
    ensures ValidLog(j.log, j.g) && (!ok ==> Halted(j, busy, m))
    ensures t' == t.(allocBlocks := t'.allocBlocks, startIblock := t'.startIblock)
    ensures ok ==>
              var per, k := RevokesPerBlock(j.g.words), if entered then i + 1 else i;
              && Revoking(j.g, j.log, j.last, j.open, j.reserved, t', desc', b', entries', writes, revokes, k)
              && (desc' != 0 ==> entries' != [] && tblSize' == per - |entries'|) && (desc' == 0 <==> !entered)
              && (!entered ==> desc != 0)
              && On(j, busy, m, RevokeLen(|revokes| - k, per, if desc' == 0 then 0 else tblSize') + need)
  {
    hide Inv, Consistent, LenOf, AllPending, TxsOf, View.All, View.Used, Tracks, Ran, Plain, Revoking, ItemAt,
        DataUnmarked, ValidLog, TotalLen, Halted;
    ghost var per := RevokesPerBlock(j.g.words);
    t', desc', b', tblSize', entries', entered, ok := t, desc, b, tblSize, entries, true, true;
    RevokeShape(j.g, j.log, j.last, j.open, j.reserved, t, desc, b, entries, writes, revokes, i);
    if desc == 0 {
      t', desc', b', ok := OpenRevoke(j, t, b, writes, revokes, i, busy, m, RevokeLen(|revokes| - i, per, per) + need);
      if !ok { return; }
      tblSize' := RevokesPerBlock(j.g.words);
      RevokeShape(j.g, j.log, j.last, j.open, j.reserved, t', desc', b', entries', writes, revokes, i);
    }
    if tblSize' == 0 {
      b' := CloseRevokes(j, t', desc', b', tblSize', entries', writes, revokes, i, busy, m,
                         RevokeLen(|revokes| - i, per, 0) + need);
      desc', entries', entered := 0, [], false;
    } else {
      RevokeMore(j.g, j.log, j.last, j.open, t', desc', b', entries', writes, revokes, i);
      b' := b'[j.g.words - tblSize' := revokes[i]];
      entries' := entries' + [revokes[i]];
      tblSize' := tblSize' - 1;
    }
  }

  /** `jbd_journal_prepare_revoke`: logs the blocks to revoke. */
  method PrepareRevoke(j: Journal, t0: Trans, ghost writes: seq<Write>, revokes: seq<u32>, ghost busy: set<u32>,
                       ghost m: Mode, ghost need: nat)
    returns (t: Trans, ok: bool)
    requires j.Valid() && j.g.Valid() && j.entering == [] && Plain(j.cpQueue, j.busy) && ValidLog(j.log, j.g)
    requires Revoking(j.g, j.log, j.last, j.open, j.reserved, t0, 0, [], [], writes, revokes, 0)
    requires On(j, busy, m, RevokeLen(|revokes|, RevokesPerBlock(j.g.words), 0) + need)
    requires t0.id == j.allocTransId
    modifies j
    ensures j.Valid() && j.Ongoing() && j.busy == old(j.busy) && Plain(j.cpQueue, j.busy) && Restful(j, m)
    ensures ValidLog(j.log, j.g) && (!ok ==> Halted(j, busy, m))
    ensures ok ==>
              && On(j, busy, m, need)
              && Revoking(j.g, j.log, j.last, j.open, j.reserved, t, 0, [], [], writes, revokes, |revokes|)
    ensures t == t0.(allocBlocks := t.allocBlocks, startIblock := t.startIblock)
  {
    hide Inv, Consistent, LenOf, AllPending, TxsOf, View.All, View.Used, Tracks, Ran, Plain, Revoking;
    hide ItemAt, DataUnmarked, ValidLog, TotalLen, Halted, Ran;
    ghost var per := RevokesPerBlock(j.g.words);
    t, ok := t0, true;
    var i: nat, desc: nat, tblSize: nat, b: Block := 0, 0, 0, [];
    ghost var entries := [];
    InvLog(j.g, j.V());
    RevokeShape(j.g, j.log, j.last, j.open, j.reserved, t, desc, b, entries, writes, revokes, i);
    while i < |revokes|
      invariant j.Valid() && j.Ongoing() && j.busy == old(j.busy) && Plain(j.cpQueue, j.busy)
      invariant i <= |revokes| && ValidLog(j.log, j.g) && Restful(j, m)
      invariant Revoking(j.g, j.log, j.last, j.open, j.reserved, t, desc, b, entries, writes, revokes, i)
      invariant desc != 0 ==> entries != [] && tblSize == per - |entries|
      invariant On(j, busy, m, RevokeLen(|revokes| - i, per, if desc == 0 then 0 else tblSize) + need)
      invariant t == t0.(allocBlocks := t.allocBlocks, startIblock := t.startIblock)
      decreases |revokes| - i, desc != 0
    {
      var entered;
      t, desc, b, tblSize, entries, entered, ok := EnterRevoke(j, t, desc, b, tblSize, entries, writes, revokes, i,
                                                               busy, m, need);
      if !ok { return; }
      if entered { i := i + 1; }
    }
    RevokeShape(j.g, j.log, j.last, j.open, j.reserved, t, desc, b, entries, writes, revokes, i);
    if desc != 0 {
      b := CloseRevokes(j, t, desc, b, tblSize, entries, writes, revokes, i, busy, m, need);
      entries := [];
    }
    RevokeNone(j.g, j.log, j.last, j.open, j.reserved, t, b, entries, writes, revokes, i);
  }

  method CloseRevokes(j: Journal, t: Trans, desc: nat, b: Block, tblSize: nat, ghost entries: seq<u32>,
                      ghost writes: seq<Write>, ghost revokes: seq<u32>, ghost i: nat, ghost busy: set<u32>,
                      ghost m: Mode, ghost need: nat)
    returns (b': Block)
    requires j.Valid() && j.g.Valid() && j.entering == [] && Plain(j.cpQueue, j.busy) && ValidLog(j.log, j.g)
    requires Revoking(j.g, j.log, j.last, j.open, j.reserved, t, desc, b, entries, writes, revokes, i)
    requires On(j, busy, m, need) && t.id == j.allocTransId
    requires desc != 0 && tblSize == RevokesPerBlock(j.g.words) - |entries|
    modifies j`log, j`open, j`reserved, j`images
    ensures j.Valid() && j.Ongoing() && ValidLog(j.log, j.g) && On(j, busy, m, need) && Restful(j, m)
    ensures Revoking(j.g, j.log, j.last, j.open, j.reserved, t, 0, b', [], writes, revokes, i)
  {
    hide Inv, Consistent, LenOf, AllPending, TxsOf, View.All, View.Used, Tracks, Ran, Plain, Revoking, ItemAt,
        DataUnmarked, ValidLog, TotalLen;
    RevokeShape(j.g, j.log, j.last, j.open, j.reserved, t, desc, b, entries, writes, revokes, i);
    var count := 4 * j.g.words - 4 * tblSize;
    RevokeClose(j.g, j.log, j.last, j.open, t, desc, b, entries, writes, revokes, i, count);
    b' := b[3 := count];
    WriteRecord(j, desc, b', Revoke(entries), busy, m, need);
  }

  lemma {:induction false} RevokeNone(g: Geometry, log: seq<Block>, last: nat, open: seq<Item>, reserved: nat,
                                      t: Trans, b: Block, entries: seq<u32>, writes: seq<Write>,
                                      revokes: seq<u32>, i: nat)
    requires ValidLog(log, g) && Revoking(g, log, last, open, reserved, t, 0, b, entries, writes, revokes, i)
    ensures Revoking(g, log, last, open, reserved, t, 0, [], entries, writes, revokes, i)
  {
    hide Txs, Commits, TotalLen, InFlight;
  }

  /** `jbd_block_get_noread`: a buffer with whatever was in it. */
  method NoRead(words: nat) returns (b: Block)
    ensures |b| == words
  {
    b := *;
    if |b| != words { b := seq(words, _ => 0); }
  }

  lemma LastIn(g: Geometry, v: View, plan: seq<seq<u32>>, busy: set<u32>, m: Mode, need: nat)
    requires Inv(g, v) && Tracks(g, v, plan, busy, m, need)
    ensures g.Inside(v.last)
  {
  }

  lemma InvLog(g: Geometry, v: View)
    requires Inv(g, v)
    ensures ValidLog(v.log, g)
  {
  }
}
