/** Recovery: three walks over the log (scan, revoke, recover), proved equal to applying the
    committed transactions in order, where a revoke cancels every earlier logged copy. */
module JournalRecovery {
  import opened Words
  import opened JournalFormat

  // ----- Transactions, and what they mean

  /** A transaction's logged blocks, in log order, and the blocks it revokes. */
  datatype Tx = Tx(writes: seq<Write>, revokes: seq<u32>)

  const EMPTY_TX := Tx([], [])

  /** The committed transactions among `items`; `cur` holds what the open one has so far. */
  function Txs(items: seq<Item>, cur: Tx): seq<Tx> {
    if items == [] then []
    else
      match items[0]
      case Desc(ws) => Txs(items[1..], Tx(cur.writes + ws, cur.revokes))
      case Revoke(bs) => Txs(items[1..], Tx(cur.writes, cur.revokes + bs))
      case Commit => [cur] + Txs(items[1..], EMPTY_TX)
  }

  /** The last copy of block `a` in a list of logged blocks. */
  function LastWrite(ws: seq<Write>, a: u32): Option<Block> {
    if ws == [] then None
    else if ws[|ws| - 1].block == a then Some(ws[|ws| - 1].data)
    else LastWrite(ws[..|ws| - 1], a)
  }

  /** What transactions applied in order leave for block `a`: the last logged copy, unless
      the same or a later transaction revoked the block. */
  function Surviving(txs: seq<Tx>, a: u32): Option<Block> {
    if txs == [] then None
    else
      var t := txs[|txs| - 1];
      if a in t.revokes then None
      else if LastWrite(t.writes, a).Some? then LastWrite(t.writes, a)
      else Surviving(txs[..|txs| - 1], a)
  }

  /** The home blocks after the committed transactions took effect. */
  function Recovered(txs: seq<Tx>, home: seq<Block>): (h: seq<Block>)
    requires |home| <= 0x1_0000_0000
    ensures |h| == |home|
  {
    seq(|home|, a requires 0 <= a < |home| =>
      if Surviving(txs, a).Some? then Surviving(txs, a).value else home[a])
  }

  // ----- What the passes compute, record by record

  function Commits(items: seq<Item>): nat {
    if items == [] then 0 else Commits(items[1..]) + (if items[0].Commit? then 1 else 0)
  }

  /** The part of the walk up to and including the last commit block. */
  function CommittedLen(items: seq<Item>): (n: nat)
    ensures n <= |items|
    ensures n > 0 ==> items[n - 1].Commit?
  {
    if items == [] then 0
    else
      var r := CommittedLen(items[1..]);
      if r > 0 then r + 1 else if items[0].Commit? then 1 else 0
  }

  /** `jbd_add_revoke_block_tags` for every entry of a revoke block. */
  function AddRevokes(m: map<u32, u32>, blocks: seq<u32>, t: u32): map<u32, u32>
    decreases |blocks|
  {
    if blocks == [] then m else AddRevokes(m[blocks[0] := t], blocks[1..], t)
  }

  function RevokeTree(items: seq<Item>, t: u32, m: map<u32, u32>): map<u32, u32>
    decreases |items|
  {
    if items == [] then m
    else RevokeTree(items[1..], NextId(t, items[0]),
                    if items[0].Revoke? then AddRevokes(m, items[0].blocks, t) else m)
  }

  predicate Skipped(tree: map<u32, u32>, a: u32, t: u32) {
    a in tree && IdDiff(t, tree[a]) <= 0
  }

  /** `jbd_replay_block_tags` for one logged copy. */
  function ReplayOne(w: Write, t: u32, tree: map<u32, u32>, home: seq<Block>): (h: seq<Block>)
    ensures |h| == |home|
  {
    if !Skipped(tree, w.block, t) && w.block < |home| then home[w.block := w.data] else home
  }

  function ReplayWrites(ws: seq<Write>, t: u32, tree: map<u32, u32>, home: seq<Block>): (h: seq<Block>)
    ensures |h| == |home|
    decreases |ws|
  {
    if ws == [] then home else ReplayWrites(ws[1..], t, tree, ReplayOne(ws[0], t, tree, home))
  }

  function Replay(items: seq<Item>, t: u32, tree: map<u32, u32>, home: seq<Block>): (h: seq<Block>)
    ensures |h| == |home|
    decreases |items|
  {
    if items == [] then home
    else Replay(items[1..], NextId(t, items[0]), tree,
                if items[0].Desc? then ReplayWrites(items[0].writes, t, tree, home) else home)
  }

  // ----- The passes agree with applying transactions in order

  /** Index of the last transaction that revokes `a`, or -1. */
  function LastRevoke(txs: seq<Tx>, a: u32): (i: int)
    ensures -1 <= i < |txs|
    ensures i >= 0 ==> a in txs[i].revokes
    ensures forall j :: i < j < |txs| ==> a !in txs[j].revokes
  {
    if txs == [] then -1
    else if a in txs[|txs| - 1].revokes then |txs| - 1
    else LastRevoke(txs[..|txs| - 1], a)
  }

  /** The last copy of `a` logged by transaction `lo` or a later one. */
  function LastWriteSince(txs: seq<Tx>, lo: nat, a: u32): Option<Block> {
    if |txs| <= lo then None
    else if LastWrite(txs[|txs| - 1].writes, a).Some? then LastWrite(txs[|txs| - 1].writes, a)
    else LastWriteSince(txs[..|txs| - 1], lo, a)
  }

  lemma {:induction false} SurvivingIsLastUnrevoked(txs: seq<Tx>, a: u32)
    ensures Surviving(txs, a) == LastWriteSince(txs, LastRevoke(txs, a) + 1, a)
  {
    if txs != [] {
      var t := txs[|txs| - 1];
      if a !in t.revokes && LastWrite(t.writes, a).None? {
        SurvivingIsLastUnrevoked(txs[..|txs| - 1], a);
      }
    }
  }

  lemma {:induction false} LastWriteAppend(ws: seq<Write>, vs: seq<Write>, a: u32)
    ensures LastWrite(ws + vs, a) ==
            if LastWrite(vs, a).Some? then LastWrite(vs, a) else LastWrite(ws, a)
    decreases |vs|
  {
    if vs == [] {
      assert ws + vs == ws;
    } else {
      assert (ws + vs)[..|ws + vs| - 1] == ws + vs[..|vs| - 1];
      LastWriteAppend(ws, vs[..|vs| - 1], a);
    }
  }

  lemma {:induction false} ReplayWritesAt(ws: seq<Write>, t: u32, tree: map<u32, u32>,
                                          home: seq<Block>, a: u32)
    requires a < |home|
    ensures ReplayWrites(ws, t, tree, home)[a] ==
            if !Skipped(tree, a, t) && LastWrite(ws, a).Some? then LastWrite(ws, a).value else home[a]
    decreases |ws|
  {
    if ws != [] {
      ReplayWritesAt(ws[1..], t, tree, ReplayOne(ws[0], t, tree, home), a);
      assert ws == [ws[0]] + ws[1..];
      LastWriteAppend([ws[0]], ws[1..], a);
      assert LastWrite([ws[0]][..0], a) == None;
    }
  }

  lemma {:induction false} ReplayWritesAppend(ws: seq<Write>, vs: seq<Write>, t: u32,
                                              tree: map<u32, u32>, home: seq<Block>)
    ensures ReplayWrites(ws + vs, t, tree, home) == ReplayWrites(vs, t, tree, ReplayWrites(ws, t, tree, home))
    decreases |ws|
  {
    if ws == [] {
      assert ws + vs == vs;
    } else {
      assert (ws + vs)[1..] == ws[1..] + vs;
      ReplayWritesAppend(ws[1..], vs, t, tree, ReplayOne(ws[0], t, tree, home));
    }
  }

  /** Recovery at the level of transactions. */
  function ReplayTxs(txs: seq<Tx>, t: u32, tree: map<u32, u32>, home: seq<Block>): (h: seq<Block>)
    ensures |h| == |home|
    decreases |txs|
  {
    if txs == [] then home
    else ReplayTxs(txs[1..], Succ(t), tree, ReplayWrites(txs[0].writes, t, tree, home))
  }

  function RevokeTxs(txs: seq<Tx>, t: u32, m: map<u32, u32>): map<u32, u32>
    decreases |txs|
  {
    if txs == [] then m else RevokeTxs(txs[1..], Succ(t), AddRevokes(m, txs[0].revokes, t))
  }

  lemma {:induction false} AddRevokesAppend(m: map<u32, u32>, bs: seq<u32>, cs: seq<u32>, t: u32)
    ensures AddRevokes(m, bs + cs, t) == AddRevokes(AddRevokes(m, bs, t), cs, t)
    decreases |bs|
  {
    if bs == [] {
      assert bs + cs == cs;
    } else {
      assert (bs + cs)[1..] == bs[1..] + cs;
      AddRevokesAppend(m[bs[0] := t], bs[1..], cs, t);
    }
  }

  lemma {:induction false} AddRevokesAt(m: map<u32, u32>, bs: seq<u32>, t: u32, a: u32)
    ensures a in AddRevokes(m, bs, t) <==> a in bs || a in m
    ensures a in bs ==> AddRevokes(m, bs, t)[a] == t
    ensures a !in bs && a in m ==> AddRevokes(m, bs, t)[a] == m[a]
    decreases |bs|
  {
    if bs != [] {
      AddRevokesAt(m[bs[0] := t], bs[1..], t, a);
    }
  }

  /** Reading record by record is reading transaction by transaction, as long as the records
      stop right after a commit block. */
  lemma {:induction false} ReplayByTx(items: seq<Item>, cur: Tx, t: u32, tree: map<u32, u32>, home: seq<Block>)
    requires items != [] && items[|items| - 1].Commit?
    ensures Replay(items, t, tree, ReplayWrites(cur.writes, t, tree, home)) ==
            ReplayTxs(Txs(items, cur), t, tree, home)
    decreases |items|
  {
    match items[0] {
      case Desc(ws) =>
        ReplayWritesAppend(cur.writes, ws, t, tree, home);
        ReplayByTx(items[1..], Tx(cur.writes + ws, cur.revokes), t, tree, home);
      case Revoke(bs) =>
        ReplayByTx(items[1..], Tx(cur.writes, cur.revokes + bs), t, tree, home);
      case Commit =>
        var h := ReplayWrites(cur.writes, t, tree, home);
        if |items| > 1 {
          ReplayByTx(items[1..], EMPTY_TX, Succ(t), tree, h);
        } else {
          assert Txs(items[1..], EMPTY_TX) == [];
        }
        assert Txs(items, cur)[1..] == Txs(items[1..], EMPTY_TX);
    }
  }

  lemma {:induction false} RevokeByTx(items: seq<Item>, cur: Tx, t: u32, m: map<u32, u32>)
    requires items != [] && items[|items| - 1].Commit?
    ensures RevokeTree(items, t, AddRevokes(m, cur.revokes, t)) == RevokeTxs(Txs(items, cur), t, m)
    decreases |items|
  {
    match items[0] {
      case Desc(ws) =>
        RevokeByTx(items[1..], Tx(cur.writes + ws, cur.revokes), t, m);
      case Revoke(bs) =>
        AddRevokesAppend(m, cur.revokes, bs, t);
        RevokeByTx(items[1..], Tx(cur.writes, cur.revokes + bs), t, m);
      case Commit =>
        var h := AddRevokes(m, cur.revokes, t);
        if |items| > 1 {
          RevokeByTx(items[1..], EMPTY_TX, Succ(t), h);
        } else {
          assert Txs(items[1..], EMPTY_TX) == [];
        }
        assert Txs(items, cur)[1..] == Txs(items[1..], EMPTY_TX);
    }
  }

  lemma {:induction false} LastRevokeCons(txs: seq<Tx>, a: u32)
    requires txs != []
    ensures LastRevoke(txs, a) ==
            if LastRevoke(txs[1..], a) >= 0 then LastRevoke(txs[1..], a) + 1
            else if a in txs[0].revokes then 0 else -1
    decreases |txs|
  {
    if |txs| > 1 && a !in txs[|txs| - 1].revokes {
      LastRevokeCons(txs[..|txs| - 1], a);
      assert txs[..|txs| - 1][1..] == txs[1..][..|txs| - 2];
    }
  }

  /** After the revoke pass the tree holds, for each block, the id of the last committed
      transaction that revoked it. */
  lemma {:induction false} RevokeTreeHoldsLatest(txs: seq<Tx>, t: u32, m: map<u32, u32>, a: u32)
    ensures a in RevokeTxs(txs, t, m) <==> LastRevoke(txs, a) >= 0 || a in m
    ensures LastRevoke(txs, a) >= 0 ==> RevokeTxs(txs, t, m)[a] == Plus(t, LastRevoke(txs, a))
    ensures LastRevoke(txs, a) < 0 && a in m ==> RevokeTxs(txs, t, m)[a] == m[a]
    decreases |txs|
  {
    if txs != [] {
      AddRevokesAt(m, txs[0].revokes, t, a);
      LastRevokeCons(txs, a);
      var r := LastRevoke(txs[1..], a);
      if r >= 0 { assert Plus(t, 1) == Succ(t); PlusPlus(t, 1, r); }
      RevokeTreeHoldsLatest(txs[1..], Succ(t), AddRevokes(m, txs[0].revokes, t), a);
    }
  }

  lemma {:induction false} LastWriteSinceCons(txs: seq<Tx>, lo: nat, a: u32)
    requires txs != []
    ensures LastWriteSince(txs, lo, a) ==
            var rest := LastWriteSince(txs[1..], if lo == 0 then 0 else lo - 1, a);
            if rest.Some? then rest
            else if lo == 0 then LastWrite(txs[0].writes, a) else None
    decreases |txs|
  {
    if |txs| > lo && |txs| > 1 {
      assert txs[1..][|txs| - 2] == txs[|txs| - 1];
      if LastWrite(txs[|txs| - 1].writes, a).None? {
        LastWriteSinceCons(txs[..|txs| - 1], lo, a);
        assert txs[..|txs| - 1][1..] == txs[1..][..|txs| - 2];
      }
    }
  }

  /** The recover pass leaves in block `a` the last copy logged by a transaction that comes
      after transaction `r`, when the tree says that `a` was last revoked by `r`. */
  lemma {:induction false} ReplayTxsAt(txs: seq<Tx>, t0: u32, base: nat, r: int, tree: map<u32, u32>,
                                       home: seq<Block>, a: u32)
    requires a < |home| && -1 <= r < 0x8000_0000 && base + |txs| < 0x8000_0000
    requires if r < 0 then a !in tree else a in tree && tree[a] == Plus(t0, r)
    ensures ReplayTxs(txs, Plus(t0, base), tree, home)[a] ==
            var w := LastWriteSince(txs, if r + 1 > base then r + 1 - base else 0, a);
            if w.Some? then w.value else home[a]
    decreases |txs|
  {
    if txs != [] {
      var h := ReplayWrites(txs[0].writes, Plus(t0, base), tree, home);
      if r >= 0 { IdDiffInWindow(t0, base, r); }
      ReplayWritesAt(txs[0].writes, Plus(t0, base), tree, home, a);
      ReplayTxsAt(txs[1..], t0, base + 1, r, tree, h, a);
      LastWriteSinceCons(txs, if r + 1 > base then r + 1 - base else 0, a);
    }
  }

  /** Only the records up to the last commit block hold committed transactions. */
  lemma {:induction false} TxsOfCommitted(items: seq<Item>, cur: Tx)
    ensures Txs(items[..CommittedLen(items)], cur) == Txs(items, cur)
    ensures |Txs(items, cur)| == Commits(items)
    ensures Commits(items) == Commits(items[..CommittedLen(items)])
    ensures CommittedLen(items) == 0 ==> Commits(items) == 0
    decreases |items|
  {
    if items != [] {
      var n := CommittedLen(items);
      var rest := match items[0]
        case Desc(ws) => Tx(cur.writes + ws, cur.revokes)
        case Revoke(bs) => Tx(cur.writes, cur.revokes + bs)
        case Commit => EMPTY_TX;
      TxsOfCommitted(items[1..], rest);
      if n > 0 {
        assert items[..n][1..] == items[1..][..n - 1];
        assert items[..n][0] == items[0];
      }
    }
  }

  /** The three passes together equal applying the committed transactions in order. */
  lemma {:induction false} ThreePassesApplyInOrder(items: seq<Item>, t: u32, home: seq<Block>)
    requires Commits(items) < 0x8000_0000 && |home| <= 0x1_0000_0000
    ensures var c := items[..CommittedLen(items)];
            Replay(c, t, RevokeTree(c, t, map[]), home) == Recovered(Txs(items, EMPTY_TX), home)
  {
    var n := CommittedLen(items);
    var c := items[..n];
    var txs := Txs(items, EMPTY_TX);
    TxsOfCommitted(items, EMPTY_TX);
    if n == 0 {
      assert txs == [];
      assert Recovered(txs, home) == home;
    } else {
      var tree := RevokeTree(c, t, map[]);
      RevokeByTx(c, EMPTY_TX, t, map[]);
      ReplayByTx(c, EMPTY_TX, t, tree, home);
      var got := ReplayTxs(txs, t, tree, home);
      forall a | 0 <= a < |home|
        ensures got[a] == Recovered(txs, home)[a]
      {
        RevokeTreeHoldsLatest(txs, t, map[], a);
        ReplayTxsAt(txs, t, 0, LastRevoke(txs, a), tree, home, a);
        SurvivingIsLastUnrevoked(txs, a);
      }
    }
  }
}
