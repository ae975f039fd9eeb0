/** Where the journal's guarantees end: a log copy that is checkpointed, and a log whose walk never
    ends. And a crash in recovery, which is none of them. */
module JournalLimits {
  import opened Words
  import opened JournalFormat
  import opened JournalRecovery
  import opened JournalWalk
  import opened JournalState
  import opened JournalRing
  import opened JournalCheckpoint

  // ----- A crash in the middle of recovery

  /** What the recover pass, cut short, leaves of a block: the last copy that it wrote, if any. */
  function LastReplayed(items: seq<Item>, t: u32, tree: map<u32, u32>, a: u32): Option<Block>
    decreases |items|
  {
    if items == [] then None
    else
      var rest := LastReplayed(items[1..], NextId(t, items[0]), tree, a);
      if rest.Some? then rest
      else if items[0].Desc? && !Skipped(tree, a, t) then LastWrite(items[0].writes, a)
      else None
  }

  lemma {:induction false} ReplayAt(items: seq<Item>, t: u32, tree: map<u32, u32>, home: seq<Block>, a: u32)
    requires a < |home|
    ensures Replay(items, t, tree, home)[a] ==
            var w := LastReplayed(items, t, tree, a); if w.Some? then w.value else home[a]
    decreases |items|
  {
    if items != [] {
      var h := if items[0].Desc? then ReplayWrites(items[0].writes, t, tree, home) else home;
      if items[0].Desc? { ReplayWritesAt(items[0].writes, t, tree, home, a); }
      ReplayAt(items[1..], NextId(t, items[0]), tree, h, a);
    }
  }

  /** The first `k` records, and the first `m` copies of the one after them. */
  function CutShort(items: seq<Item>, k: nat, m: nat): seq<Item>
    requires k < |items| && items[k].Desc? && m <= |items[k].writes|
  {
    items[..k] + [Desc(items[k].writes[..m])]
  }

  lemma {:induction false} CutReplays(items: seq<Item>, k: nat, m: nat, t: u32, tree: map<u32, u32>, a: u32)
    requires k < |items| && items[k].Desc? && m <= |items[k].writes|
    requires LastReplayed(CutShort(items, k, m), t, tree, a).Some?
    ensures LastReplayed(items, t, tree, a).Some?
    decreases k
  {
    var cut := CutShort(items, k, m);
    if k == 0 {
      var ws := items[0].writes;
      assert cut[1..] == [];
      assert ws == ws[..m] + ws[m..];
      LastWriteAppend(ws[..m], ws[m..], a);
    } else {
      assert cut[0] == items[0] && cut[1..] == CutShort(items[1..], k - 1, m);
      if LastReplayed(cut[1..], NextId(t, items[0]), tree, a).Some? {
        CutReplays(items[1..], k - 1, m, NextId(t, items[0]), tree, a);
      }
    }
  }

  lemma LongerDiffers(b: Block)
    ensures b + [0] != b
  {
    assert |b + [0]| != |b|;
  }

  /** The recover pass writes no block that the committed transactions leave alone. */
  lemma {:induction false} OnlySurvivors(items: seq<Item>, t: u32, home: seq<Block>, a: u32)
    requires Commits(items) < 0x8000_0000 && a < |home| <= 0x1_0000_0000
    requires Surviving(Txs(items, EMPTY_TX), a).None?
    ensures var c := items[..CommittedLen(items)];
            LastReplayed(c, t, RevokeTree(c, t, map[]), a).None?
  {
    var c := items[..CommittedLen(items)];
    var tree := RevokeTree(c, t, map[]);
    var w := LastReplayed(c, t, tree, a);
    if w.Some? {
      var other := home[a := w.value + [0]];
      ThreePassesApplyInOrder(items, t, other);
      ReplayAt(c, t, tree, other, a);
      LongerDiffers(w.value);
    }
  }

  /** Recovery that is cut short by a crash, after the first `m` copies of record `k` went home,
      and then done again, comes to the same: what the disk recovers to is not changed by it. */
  lemma {:induction false} RecoveryRestarts(g: Geometry, img: Image, txs: seq<Tx>, items: seq<Item>, k: nat, m: nat)
    requires ValidLog(img.log, g) && g.Inside(img.start) && |img.home| <= 0x1_0000_0000
    requires RecoversFrom(g, img, txs, items)
    requires var c := items[..CommittedLen(items)]; k < |c| && c[k].Desc? && m <= |c[k].writes|
    ensures var c := items[..CommittedLen(items)];
            var home := Replay(CutShort(c, k, m), img.sequence, RevokeTree(c, img.sequence, map[]), img.home);
            && Recovered(Txs(items, EMPTY_TX), home) == Recovered(Txs(items, EMPTY_TX), img.home)
            && RecoversFrom(g, img.(home := home), txs, items)
  {
    hide Surviving, Replay, RevokeTree, Txs, IsWalk, CommittedLen, LastReplayed;
    WalkIs(img.log, g, img.start, img.start, img.sequence, items);
    var c := items[..CommittedLen(items)];
    var tree, done := RevokeTree(c, img.sequence, map[]), Txs(items, EMPTY_TX);
    var home := Replay(CutShort(c, k, m), img.sequence, tree, img.home);
    forall a: u32 | a < |home|
      ensures Surviving(done, a).None? ==> home[a] == img.home[a]
    {
      ReplayAt(CutShort(c, k, m), img.sequence, tree, img.home, a);
      if Surviving(done, a).None? {
        OnlySurvivors(items, img.sequence, img.home, a);
        if LastReplayed(CutShort(c, k, m), img.sequence, tree, a).Some? {
          CutReplays(c, k, m, img.sequence, tree, a);
        }
      }
    }
    assert Recovered(done, home) == Recovered(done, img.home);
    TxsOfCommitted(items, EMPTY_TX);
    SameAgrees(done, img.home, home, txs);
  }

  lemma {:induction false} SuffixSurvives(txs: seq<Tx>, done: seq<Tx>, a: u32)
    requires |done| <= |txs| && done == txs[|txs| - |done|..]
    ensures Surviving(done, a).Some? ==> Surviving(txs, a) == Surviving(done, a)
  {
    hide LastEvent, LastWrite;
    var before := txs[..|txs| - |done|];
    assert txs == before + done;
    SurvivingIsLastEvent(txs, a);
    SurvivingIsLastEvent(done, a);
    LastEventAppend(before, done, a);
  }

  lemma SameAgrees(done: seq<Tx>, home: seq<Block>, home': seq<Block>, txs: seq<Tx>)
    requires |home'| == |home| <= 0x1_0000_0000 && Recovered(done, home') == Recovered(done, home)
    requires Agrees(Recovered(done, home), home, txs) && |done| <= |txs| && done == txs[|txs| - |done|..]
    requires forall a: u32 :: a < |home| && Surviving(done, a).None? ==> home'[a] == home[a]
    ensures Agrees(Recovered(done, home'), home', txs)
  {
    hide Surviving;
    var r := Recovered(done, home');
    forall a: u32 | a < |home'|
      ensures r[a] == if Surviving(txs, a).Some? then Surviving(txs, a).value else home'[a]
    {
      assert r[a] == Recovered(done, home)[a];
      SuffixSurvives(txs, done, a);
    }
  }

  // ----- A checkpointed copy with its magic word blanked out

  /** Flushing the log copy of the block that was logged last brings it home exactly when the
      block does not begin with the magic number. */
  lemma FlushedCopyIff(home: seq<Block>, all: seq<Tx>, a: u32, data: Block)
    requires a < |home| && data != [] && LastEvent(all, a) >= 0 && a !in all[LastEvent(all, a)].revokes
    requires LastWrite(all[LastEvent(all, a)].writes, a) == Some(data)
    ensures UpToDate(home[a := Escaped(data)], all, a) <==> data[0] != MAGIC
  {
    hide LastEvent, LastWrite;
  }

  // ----- A log walk without an end

  const RING := Geometry(1, 4, 16)

  const BLANK: Block := [0, 0, 0, 0, 0, 0, 0, 0, 0, 0, 0, 0, 0, 0, 0, 0]

  /** A revoke block, then a descriptor block with two tags, in a ring of three blocks: the
      records jump over the start of the log. */
  function EndlessLog(): (log: seq<Block>)
    ensures ValidLog(log, RING)
  {
    [BLANK,
     [MAGIC, REVOKE_BLOCK, 7, 16, 0, 0, 0, 0, 0, 0, 0, 0, 0, 0, 0, 0],
     [MAGIC, DESCRIPTOR_BLOCK, 7, 9, 0, 0, 0, 0, 0, 10, 10, 0, 0, 0, 0, 0],
     BLANK]
  }

  lemma EndlessStep()
    ensures ItemAt(EndlessLog(), RING, 2, 7).Some? && ItemAt(EndlessLog(), RING, 2, 7).value.Desc?
    ensures ItemAt(EndlessLog(), RING, 2, 7).value.Len() == 3
    ensures ItemAt(EndlessLog(), RING, 1, 7) == Some(Revoke([]))
  {
    var r, b := EndlessLog()[1], EndlessLog()[2];
    assert r[4..4] == [] && RevokedBlocks(r) == [];
    assert ExtractTag(b, 3) == Some(Tag(9, false, true, false));
    assert ExtractTag(b, 9) == Some(Tag(10, false, false, true));
    assert Tags(b, 9) == [Tag(10, false, false, true)];
    assert Tags(b, 3) == [Tag(9, false, true, false)] + Tags(b, 9);
  }

  lemma {:induction false} EndlessFrom2(items: seq<Item>)
    ensures !IsWalk(EndlessLog(), RING, 1, 2, 7, items)
    decreases |items|
  {
    EndlessStep();
    if items != [] {
      RING.SkipIsAdv(2, 3);
      EndlessFrom2(items[1..]);
    }
  }

  /** The walk over such a log never ends, and the test that `WalkEndsIff` proves exact says so. On the
      logs the journal writes it ends: see `ImageIsConsistent`. */
  lemma EndlessWalk()
    ensures !WalkEnds(EndlessLog(), RING, 1, 1, 7)
    ensures forall items :: !IsWalk(EndlessLog(), RING, 1, 1, 7, items)
  {
    forall items
      ensures !IsWalk(EndlessLog(), RING, 1, 1, 7, items)
    {
      EndlessStep();
      if items != [] {
        RING.SkipIsAdv(1, 1);
        EndlessFrom2(items[1..]);
      }
    }
    WalkEndsIff(EndlessLog(), RING, 1, 1, 7);
  }
}
