/** The recovery routines of the journal, pass by pass, as they update the replay
    information and the home blocks. */
module JournalReplay {
  import opened Words
  import opened JournalFormat
  import opened JournalRecovery
  import opened JournalWalk

  datatype Errno = EOK | EIO

  datatype Action = SCAN | REVOKE | RECOVER

  /** `struct recover_info`. */
  class RecoverInfo {
    var startTransId: u32
    var lastTransId: u32
    var thisTransId: u32
    var transCnt: nat
    var revokeRoot: map<u32, u32>

    constructor ()
      ensures revokeRoot == map[]
    {
      startTransId, lastTransId, thisTransId := 0, 0, 0;
      transCnt := 0;
      revokeRoot := map[];
    }
  }

  lemma {:induction false} SkipOneMore(g: Geometry, p: nat, n: nat)
    requires g.Inside(p)
    ensures g.Skip(p, n + 1) == g.Inc(g.Skip(p, n))
    decreases n
  {
    if n != 0 {
      SkipOneMore(g, g.Inc(p), n - 1);
    }
  }

  /** Before the last commit block some commit is still to come. */
  lemma {:induction false} CommitsBefore(items: seq<Item>, k: nat)
    requires k <= CommittedLen(items)
    ensures Commits(items[k..]) == Commits(items[..CommittedLen(items)][k..])
    ensures k < CommittedLen(items) ==> Commits(items[k..]) > 0
    ensures k == CommittedLen(items) ==> Commits(items[k..]) == 0
    decreases |items|
  {
    var n := CommittedLen(items);
    if items != [] {
      if k > 0 {
        assert items[1..][k - 1..] == items[k..];
        assert items[1..][..n - 1][k - 1..] == items[..n][k..];
        if CommittedLen(items[1..]) > 0 {
          CommitsBefore(items[1..], k - 1);
        } else {
          TxsOfCommitted(items[1..], EMPTY_TX);
          assert items[..n][k..] == [];
        }
      } else {
        TxsOfCommitted(items, EMPTY_TX);
        assert items[..n][0..] == items[..n] && items[0..] == items;
        if n > 0 {
          CommitsBefore(items[1..], 0);
          assert items[1..][0..] == items[1..];
        }
      }
    }
  }

  /** The tag at word `p` describes the block that follows `block`, and the rest of the
      table describes the blocks after that. */
  lemma FirstLogged(log: seq<Block>, g: Geometry, b: Block, p: nat, block: nat)
    requires |log| == g.maxlen && g.Inside(block) && p < |b| && ExtractTag(b, p).Some?
    ensures p + ExtractTag(b, p).value.Words() <= |b|
    ensures var t := ExtractTag(b, p).value;
            var q := g.Inc(block);
            LoggedWrites(log, g, Tags(b, p), block) ==
            [Write(t.block, Unescape(log[q], t.escape))] +
            (if t.last then [] else LoggedWrites(log, g, Tags(b, p + t.Words()), q))
  {
    var t := ExtractTag(b, p).value;
    assert Tags(b, p)[1..] == if t.last then [] else Tags(b, p + t.Words());
  }

  lemma NothingLogged(log: seq<Block>, g: Geometry, b: Block, p: nat, block: nat)
    requires |log| == g.maxlen && g.Inside(block) && p <= |b| && (p == |b| || ExtractTag(b, p) == None)
    ensures LoggedWrites(log, g, Tags(b, p), block) == []
  {
  }

  lemma BlockShape(log: seq<Block>, g: Geometry, p: nat)
    requires ValidLog(log, g) && g.Inside(p)
    ensures p < |log| == g.maxlen && HEADER_WORDS < |log[p]|
  {
  }

  /** A pass: the records the walk meets, the id it starts from, and the revoke tree and home
      blocks it is to end with. */
  datatype Pass = Pass(action: Action, items: seq<Item>, first: u32, tree: map<u32, u32>, home: seq<Block>) {
    /** Only a scan goes beyond the last commit block. */
    function Records(): seq<Item> {
      if action == SCAN then items else items[..CommittedLen(items)]
    }

    /** Commit blocks among the first `k` records. */
    function Seen(k: nat): int
      requires k <= |items|
    {
      Commits(items) - Commits(items[k..])
    }

    /** What is left of the pass, `rest`, turns the present tree and home blocks into the goal. */
    ghost predicate OnTheWay(rest: seq<Item>, t: u32, tree': map<u32, u32>, home': seq<Block>) {
      && tree == (if action == REVOKE then RevokeTree(rest, t, tree') else tree')
      && home == (if action == RECOVER then Replay(rest, t, tree', home') else home')
    }
  }

  /** The pass has handled `k` records, stands before `block` expecting id `t`, and has counted
      `cnt` transactions. */
  ghost predicate Underway(p: Pass, log: seq<Block>, g: Geometry, start: nat, k: nat, block: nat, t: u32,
                           cnt: int, tree: map<u32, u32>, home: seq<Block>, logEnd: bool)
    requires ValidLog(log, g)
  {
    && k <= |p.Records()| && p.Seen(k) >= 0
    && t == Plus(p.first, p.Seen(k))
    && cnt == (if p.action == SCAN then p.Seen(k) else Commits(p.items))
    && (if logEnd then k == |p.Records()|
        else g.Inside(block) && IsWalk(log, g, start, block, t, p.items[k..]))
    && p.OnTheWay(p.Records()[k..], t, tree, home)
  }

  lemma Begin(p: Pass, log: seq<Block>, g: Geometry, start: nat, cnt: int, tree: map<u32, u32>, home: seq<Block>)
    requires ValidLog(log, g) && g.Inside(start)
    requires IsWalk(log, g, start, start, p.first, p.items)
    requires p.tree == if p.action == REVOKE then RevokeTree(p.Records(), p.first, tree) else tree
    requires p.home == if p.action == RECOVER then Replay(p.Records(), p.first, tree, home) else home
    requires cnt == if p.action == SCAN then 0 else Commits(p.items)
    ensures Underway(p, log, g, start, 0, start, p.first, cnt, tree, home, p.action != SCAN && cnt == 0)
  {
    assert p.items[0..] == p.items && p.Records()[0..] == p.Records();
    CommitsBefore(p.items, 0);
  }

  /** One record more. */
  lemma OneRecord(p: Pass, log: seq<Block>, g: Geometry, start: nat, k: nat, block: nat, t: u32, cnt: int,
                  tree: map<u32, u32>, home: seq<Block>, cnt': int, tree': map<u32, u32>, home': seq<Block>)
    requires ValidLog(log, g) && Underway(p, log, g, start, k, block, t, cnt, tree, home, false)
    requires k < |p.Records()| && ItemAt(log, g, block, t).Some?
    requires var item := ItemAt(log, g, block, t).value;
             && cnt' == cnt + (if p.action == SCAN && item.Commit? then 1 else 0)
             && tree' == (if p.action == REVOKE && item.Revoke? then AddRevokes(tree, item.blocks, t) else tree)
             && home' == (if p.action == RECOVER && item.Desc? then ReplayWrites(item.writes, t, tree, home) else home)
    ensures var item := ItemAt(log, g, block, t).value;
            var next := g.Skip(block, item.Len());
            Underway(p, log, g, start, k + 1, next, NextId(t, item), cnt', tree', home', next == start)
  {
    var items, c := p.items, p.Records();
    assert items[k..][0] == items[k] && items[k..][1..] == items[k + 1..];
    assert c[k..][0] == items[k] && c[k..][1..] == c[k + 1..];
    if p.action != SCAN { CommitsBefore(items, k + 1); }
  }

  /** The tests that end a pass hold exactly behind its last record. */
  lemma AtTheEnd(p: Pass, log: seq<Block>, g: Geometry, start: nat, k: nat, block: nat, t: u32, cnt: int,
                 tree: map<u32, u32>, home: seq<Block>)
    requires ValidLog(log, g) && Underway(p, log, g, start, k, block, t, cnt, tree, home, false)
    requires Commits(p.items) < 0x8000_0000
    ensures g.Inside(block) && block < |log| && |log[block]| >= HEADER_WORDS
    ensures log[block][0] != MAGIC || log[block][2] != t ==> ItemAt(log, g, block, t) == None
    ensures k <= |p.Records()|
    ensures ItemAt(log, g, block, t) == None ==> k == |p.Records()|
    ensures ItemAt(log, g, block, t) != None && p.action == SCAN ==> k < |p.Records()|
    ensures p.action != SCAN && cnt > 0 ==>
              (IdDiff(t, Plus(p.first, cnt - 1)) > 0 <==> k == |p.Records()|)
    ensures k == |p.Records()| ==>
              forall b: nat :: Underway(p, log, g, start, k, b, t, cnt, tree, home, true)
  {
    if p.action != SCAN {
      CommitsBefore(p.items, k);
      if cnt > 0 { IdDiffInWindow(p.first, p.Seen(k), cnt - 1); }
    }
  }

  lemma End(p: Pass, log: seq<Block>, g: Geometry, start: nat, k: nat, block: nat, t: u32, cnt: int,
            tree: map<u32, u32>, home: seq<Block>)
    requires ValidLog(log, g) && Underway(p, log, g, start, k, block, t, cnt, tree, home, true)
    ensures tree == p.tree && home == p.home && cnt == Commits(p.items)
    ensures p.action == SCAN ==> t == Plus(p.first, cnt)
  {
    assert p.Records()[|p.Records()|..] == [];
  }

  /** `last_trans_id` at the end of the scan. */
  function LastId(start: u32, this_: u32, ghost done: nat): (last: u32)
    requires done < 0x8000_0000 && this_ == Plus(start, done)
    ensures last == Plus(start, if done > 0 then done - 1 else 0)
  {
    IdDiffInWindow(start, done, 0);
    if IdDiff(this_, start) > 0 then (if this_ == 0 then 0xffff_ffff else this_ - 1) else this_
  }

  /** A mounted journal: superblock fields, the log, and the blocks of the file system. */
  class JbdFs {
    const g: Geometry
    var log: seq<Block>
    var home: seq<Block>
    var sbStart: u32
    var sbSequence: u32

    constructor (g: Geometry, log: seq<Block>, home: seq<Block>, sbStart: u32, sbSequence: u32)
      ensures this.g == g && this.log == log && this.home == home
      ensures this.sbStart == sbStart && this.sbSequence == sbSequence
    {
      this.g, this.log, this.home := g, log, home;
      this.sbStart, this.sbSequence := sbStart, sbSequence;
    }

    ghost predicate Valid()
      reads this
    {
      ValidLog(log, g) && |home| <= 0x1_0000_0000 && (sbStart != 0 ==> g.Inside(sbStart))
    }

    /** The walk over the log ends. */
    predicate Ends()
      requires ValidLog(log, g) && g.Inside(sbStart)
      reads this`log, this`sbStart, this`sbSequence
    {
      WalkEnds(log, g, sbStart, sbStart, sbSequence)
    }

    /** The records that it meets. */
    ghost function Records(): seq<Item>
      requires ValidLog(log, g) && g.Inside(sbStart) && Ends()
      reads this`log, this`sbStart, this`sbSequence
    {
      Walk(log, g, sbStart, sbStart, sbSequence)
    }

    /** `jbd_debug_descriptor_block`: only steps over the data blocks of a descriptor. */
    method SkipDescriptor(iblock: nat) returns (block: nat)
      requires Valid() && g.Inside(iblock)
      ensures block == g.Skip(iblock, |Tags(log[iblock], HEADER_WORDS)|)
    {
      var b := log[iblock];
      var p := HEADER_WORDS;
      block := iblock;
      ghost var n := 0;
      while p != |b|
        invariant HEADER_WORDS <= p <= |b|
        invariant block == g.Skip(iblock, n)
        invariant n + |Tags(b, p)| == |Tags(b, HEADER_WORDS)|
        decreases |b| - p
      {
        var tag := ExtractTag(b, p);
        if tag == None { break; }
        SkipOneMore(g, iblock, n);
        block := g.Inc(block);
        n := n + 1;
        if tag.value.last { return; }
        p := p + tag.value.Words();
      }
    }

    /** `jbd_replay_descriptor_block`: walks the tags of the descriptor block and copies
        the logged blocks home. Tag number 0 would name the ext4 superblock; that special
        case is not part of this model. */
    method ReplayDescriptor(iblock: nat, info: RecoverInfo, thisTransId: u32) returns (block: nat)
      requires Valid() && g.Inside(iblock)
      modifies this`home
      ensures Valid()
      ensures block == g.Skip(iblock, |Tags(log[iblock], HEADER_WORDS)|)
      ensures var ws := LoggedWrites(log, g, Tags(log[iblock], HEADER_WORDS), iblock);
              home == ReplayWrites(ws, thisTransId, info.revokeRoot, old(home))
    {
      hide ValidLog, ExtractTag, Tags, LoggedWrites, ReplayOne;
      BlockShape(log, g, iblock);
      var b := log[iblock];
      var p := HEADER_WORDS;
      block := iblock;
      ghost var ws := LoggedWrites(log, g, Tags(b, HEADER_WORDS), iblock);
      ghost var all, tree, target := ws, info.revokeRoot, g.Skip(iblock, |ws|);
      while p != |b|
        invariant p <= |b| && Valid() && g.Inside(block)
        invariant g.Skip(block, |ws|) == target
        invariant ws == LoggedWrites(log, g, Tags(b, p), block)
        invariant ReplayWrites(ws, thisTransId, tree, home) == ReplayWrites(all, thisTransId, tree, old(home))
        decreases |b| - p
      {
        var tag := ExtractTag(b, p);
        if tag == None { break; }
        FirstLogged(log, g, b, p, block);
        block := g.Inc(block);
        ghost var w := ws[0];
        ws := ws[1..];
        ReplayTag(tag.value, block, info, thisTransId, w);
        p := p + tag.value.Words();
        if tag.value.last { return; }
      }
      NothingLogged(log, g, b, p, block);
    }

    /** `jbd_replay_block_tags`: `w` is the logged copy that the tag describes. */
    method ReplayTag(tag: Tag, block: nat, info: RecoverInfo, thisTransId: u32, ghost w: Write)
      requires Valid() && g.Inside(block)
      requires w == Write(tag.block, Unescape(log[block], tag.escape))
      modifies this`home
      ensures home == ReplayOne(w, thisTransId, info.revokeRoot, old(home))
    {
      if tag.block in info.revokeRoot && IdDiff(thisTransId, info.revokeRoot[tag.block]) <= 0 {
        return;
      }
      if tag.block < |home| {
        home := home[tag.block := Unescape(log[block], tag.escape)];
      }
    }

    /** `jbd_build_revoke_tree`. */
    method BuildRevokeTree(iblock: nat, info: RecoverInfo)
      requires Valid() && g.Inside(iblock)
      modifies info`revokeRoot
      ensures info.revokeRoot == AddRevokes(old(info.revokeRoot), RevokedBlocks(log[iblock]), info.thisTransId)
    {
      var blocks := RevokedBlocks(log[iblock]);
      var i := 0;
      while i < |blocks|
        invariant i <= |blocks|
        invariant AddRevokes(info.revokeRoot, blocks[i..], info.thisTransId)
               == AddRevokes(old(info.revokeRoot), blocks, info.thisTransId)
      {
        info.revokeRoot := info.revokeRoot[blocks[i] := info.thisTransId];
        i := i + 1;
      }
    }

    /** The record at `block`: what the pass does with it, and where it goes on. */
    method Record(info: RecoverInfo, action: Action, block: nat, t: u32, ghost item: Option<Item>)
      returns (logEnd: bool, next: nat, nextId: u32)
      requires Valid() && g.Inside(block) && log[block][0] == MAGIC && log[block][2] == t
      requires item == ItemAt(log, g, block, t)
      modifies info, this`home
      ensures Valid() && g.Inside(next)
      ensures info.lastTransId == old(info.lastTransId)
      ensures logEnd <==> item == None
      ensures logEnd ==> nextId == t && info.transCnt == old(info.transCnt) &&
                         info.revokeRoot == old(info.revokeRoot) && home == old(home)
      ensures !logEnd ==> next == g.Skip(block, item.value.Len()) && nextId == NextId(t, item.value)
      ensures !logEnd ==> info.transCnt == old(info.transCnt) +
                            (if action == SCAN && item.value.Commit? then 1 else 0)
      ensures !logEnd ==>
                info.revokeRoot == (if action == REVOKE && item.value.Revoke?
                  then AddRevokes(old(info.revokeRoot), item.value.blocks, t) else old(info.revokeRoot))
      ensures !logEnd ==>
                home == (if action == RECOVER && item.value.Desc?
                  then ReplayWrites(item.value.writes, t, info.revokeRoot, old(home)) else old(home))
    {
      var header := log[block];
      logEnd, next, nextId := false, block, t;
      SkipOneMore(g, block, 0);
      if header[1] == DESCRIPTOR_BLOCK {
        if action == RECOVER {
          next := ReplayDescriptor(block, info, t);
        } else {
          next := SkipDescriptor(block);
        }
        SkipOneMore(g, block, |Tags(header, HEADER_WORDS)|);
      } else if header[1] == COMMIT_BLOCK {
        nextId := Succ(t);
        if action == SCAN { info.transCnt := info.transCnt + 1; }
      } else if header[1] == REVOKE_BLOCK {
        if action == REVOKE {
          info.thisTransId := t;
          BuildRevokeTree(block, info);
        }
      } else {
        logEnd := true;
      }
      next := g.Inc(next);
    }

    /** `jbd_iterate_log`: one pass over a log whose walk ends. */
    method IterateLog(info: RecoverInfo, action: Action) returns (r: Errno)
      requires Valid() && sbStart != 0 && Ends()
      requires action != SCAN ==> info.transCnt == Commits(Records())
      requires action != SCAN && info.transCnt > 0 ==>
                 info.lastTransId == Plus(sbSequence, info.transCnt - 1)
      modifies info, this`home
      ensures Valid() && r == EOK
      ensures action == SCAN ==>
                info.transCnt == Commits(Records()) && info.startTransId == sbSequence &&
                info.lastTransId == Plus(sbSequence, if info.transCnt > 0 then info.transCnt - 1 else 0)
      ensures action != SCAN ==>
                info.transCnt == old(info.transCnt) && info.lastTransId == old(info.lastTransId)
      ensures info.revokeRoot == if action == REVOKE
                then RevokeTree(Records()[..CommittedLen(Records())], sbSequence, old(info.revokeRoot))
                else old(info.revokeRoot)
      ensures home == if action == RECOVER
                then Replay(Records()[..CommittedLen(Records())], sbSequence, info.revokeRoot, old(home))
                else old(home)
    {
      hide ItemAt, ValidLog, Underway, IsWalk, RevokeTree, Replay, CommittedLen, Commits, WalkEnds, Walk;
      WalkEndsIff(log, g, sbStart, sbStart, sbSequence);
      ghost var items := Records();
      WalkIs(log, g, sbStart, sbStart, sbSequence, items);
      r := EOK;
      var logEnd := false;
      var startTransId, thisTransId := sbSequence, sbSequence;
      var startBlock: nat, thisBlock: nat := sbStart, sbStart;
      ghost var c := items[..CommittedLen(items)];
      ghost var p := Pass(action, items, sbSequence,
        if action == REVOKE then RevokeTree(c, sbSequence, info.revokeRoot) else info.revokeRoot,
        if action == RECOVER then Replay(c, sbSequence, info.revokeRoot, home) else home);
      ghost var k := 0;
      if action == SCAN {
        info.transCnt := 0;
      } else if info.transCnt == 0 {
        logEnd := true;
      }
      Begin(p, log, g, sbStart, info.transCnt, info.revokeRoot, home);
      while !logEnd
        invariant Valid() && k <= |items|
        invariant action != SCAN && info.transCnt == 0 ==> logEnd
        invariant Underway(p, log, g, startBlock, k, thisBlock, thisTransId, info.transCnt, info.revokeRoot, home,
                logEnd)
        invariant action != SCAN ==> info.transCnt == old(info.transCnt) && info.lastTransId == old(info.lastTransId)
        decreases |items| - k, !logEnd
      {
        AtTheEnd(p, log, g, startBlock, k, thisBlock, thisTransId, info.transCnt, info.revokeRoot, home);
        if action != SCAN {
          if IdDiff(thisTransId, info.lastTransId) > 0 {
            logEnd := true;
            break;
          }
        }
        var header := log[thisBlock];
        if header[0] != MAGIC {
          logEnd := true;
          break;
        }
        if header[2] != thisTransId {
          if action != SCAN { r := EIO; }
          logEnd := true;
          break;
        }
        ghost var item := ItemAt(log, g, thisBlock, thisTransId);
        ghost var block, t, cnt, tree, home0 := thisBlock, thisTransId, info.transCnt, info.revokeRoot, home;
        logEnd, thisBlock, thisTransId := Record(info, action, thisBlock, thisTransId, item);
        if logEnd { break; }
        OneRecord(p, log, g, startBlock, k, block, t, cnt, tree, home0, info.transCnt, info.revokeRoot, home);
        k := k + 1;
        if thisBlock == startBlock {
          logEnd := true;
        }
      }
      End(p, log, g, startBlock, k, thisBlock, thisTransId, info.transCnt, info.revokeRoot, home);
      if action == SCAN {
        info.startTransId := startTransId;
        info.lastTransId := LastId(startTransId, thisTransId, info.transCnt);
      }
    }

    /** `jbd_recover`: every home block gets what the committed transactions in the log,
        applied in order, leave for it, and the journal is marked empty. */
    method Recover() returns (r: Errno)
      requires Valid() && (sbStart != 0 ==> Ends())
      modifies this`home, this`sbStart, this`sbSequence
      ensures Valid() && r == EOK
      ensures sbStart == 0
      ensures old(sbStart) == 0 ==> home == old(home) && sbSequence == old(sbSequence)
      ensures old(sbStart) != 0 ==> home == Recovered(Txs(old(Records()), EMPTY_TX), old(home))
      ensures old(sbStart) != 0 ==>
                var n := Commits(old(Records())); sbSequence == Plus(old(sbSequence), if n > 0 then n - 1 else 0)
    {
      hide ValidLog, IsWalk, Commits, CommittedLen, Txs, Plus, RevokeTree, Replay, Recovered, WalkEnds, Walk;
      if sbStart == 0 { return EOK; }
      WalkEndsIff(log, g, sbStart, sbStart, sbSequence);
      WalkIs(log, g, sbStart, sbStart, sbSequence, Records());
      var info := new RecoverInfo();
      r := IterateLog(info, SCAN);
      if r != EOK { return; }
      r := IterateLog(info, REVOKE);
      if r != EOK { return; }
      ThreePassesApplyInOrder(Records(), sbSequence, home);
      r := IterateLog(info, RECOVER);
      if r == EOK {
        sbStart := 0;
        sbSequence := info.lastTransId;
      }
    }
  }
}
