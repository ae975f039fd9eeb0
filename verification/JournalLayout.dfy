/** Where records lie on the ring, and what a write elsewhere leaves untouched. */
module JournalLayout {
  import opened Words
  import opened JournalFormat
  import opened JournalRecovery

  function TotalLen(items: seq<Item>): nat {
    if items == [] then 0 else items[0].Len() + TotalLen(items[1..])
  }

  function EndId(t: u32, items: seq<Item>): u32
    decreases |items|
  {
    if items == [] then t else EndId(NextId(t, items[0]), items[1..])
  }

  /** No logged copy behind a descriptor block looks like a journal header. */
  ghost predicate DataUnmarked(log: seq<Block>, g: Geometry, p: nat, item: Item)
    requires ValidLog(log, g) && g.Inside(p) && item.Len() <= g.Size()
  {
    forall k :: 1 <= k < item.Len() ==> log[g.Adv(p, k)][0] != MAGIC
  }

  /** From block `p` on, the log holds exactly these records, the first with id `t`. */
  ghost predicate Laid(log: seq<Block>, g: Geometry, p: nat, t: u32, items: seq<Item>)
    requires ValidLog(log, g) && g.Inside(p) && TotalLen(items) <= g.Size()
    decreases |items|
  {
    items == [] ||
    (&& ItemAt(log, g, p, t) == Some(items[0])
     && DataUnmarked(log, g, p, items[0])
     && Laid(log, g, g.Adv(p, items[0].Len()), NextId(t, items[0]), items[1..]))
  }

  lemma {:induction false} TotalLenAppend(a: seq<Item>, b: seq<Item>)
    ensures TotalLen(a + b) == TotalLen(a) + TotalLen(b)
    decreases |a|
  {
    if a == [] {
      assert a + b == b;
    } else {
      assert (a + b)[1..] == a[1..] + b;
      TotalLenAppend(a[1..], b);
    }
  }

  lemma {:induction false} EndIdAppend(t: u32, a: seq<Item>, b: seq<Item>)
    ensures EndId(t, a + b) == EndId(EndId(t, a), b)
    decreases |a|
  {
    if a == [] {
      assert a + b == b;
    } else {
      assert (a + b)[1..] == a[1..] + b;
      EndIdAppend(NextId(t, a[0]), a[1..], b);
    }
  }

  lemma {:induction false} LoggedWritesFrame(log: seq<Block>, log': seq<Block>, g: Geometry, tags: seq<Tag>, p: nat)
    requires |log| == |log'| == g.maxlen && g.Inside(p) && |tags| < g.Size()
    requires forall k :: 1 <= k <= |tags| ==> log'[g.Adv(p, k)] == log[g.Adv(p, k)]
    ensures LoggedWrites(log', g, tags, p) == LoggedWrites(log, g, tags, p)
    decreases |tags|
  {
    if tags != [] {
      var q := g.Inc(p);
      assert q == g.Adv(p, 1);
      forall k | 1 <= k <= |tags| - 1
        ensures log'[g.Adv(q, k)] == log[g.Adv(q, k)]
      {
        assert g.Adv(q, k) == g.Adv(p, k + 1);
      }
      LoggedWritesFrame(log, log', g, tags[1..], q);
    }
  }

  lemma ItemAtFrame(log: seq<Block>, log': seq<Block>, g: Geometry, p: nat, t: u32, item: Item)
    requires ValidLog(log, g) && ValidLog(log', g) && g.Inside(p)
    requires ItemAt(log, g, p, t) == Some(item) && item.Len() <= g.Size()
    requires forall k :: 0 <= k < item.Len() ==> log'[g.Adv(p, k)] == log[g.Adv(p, k)]
    ensures ItemAt(log', g, p, t) == Some(item)
  {
    assert g.Adv(p, 0) == p;
    if item.Desc? {
      LoggedWritesFrame(log, log', g, Tags(log[p], HEADER_WORDS), p);
    }
  }

  /** Records stay where they are when none of their blocks changes. */
  lemma {:induction false} LaidFrame(log: seq<Block>, log': seq<Block>, g: Geometry, p: nat, t: u32, items: seq<Item>)
    requires ValidLog(log, g) && ValidLog(log', g) && g.Inside(p) && TotalLen(items) <= g.Size()
    requires Laid(log, g, p, t, items)
    requires forall k :: 0 <= k < TotalLen(items) ==> log'[g.Adv(p, k)] == log[g.Adv(p, k)]
    ensures Laid(log', g, p, t, items)
    decreases |items|
  {
    if items != [] {
      var n := items[0].Len();
      var q := g.Adv(p, n);
      ItemAtFrame(log, log', g, p, t, items[0]);
      forall k | 0 <= k < TotalLen(items[1..])
        ensures log'[g.Adv(q, k)] == log[g.Adv(q, k)]
      {
        assert g.Adv(q, k) == g.Adv(p, n + k);
      }
      LaidFrame(log, log', g, q, NextId(t, items[0]), items[1..]);
    }
  }

  lemma {:induction false} LaidAppend(log: seq<Block>, g: Geometry, p: nat, t: u32, a: seq<Item>, b: seq<Item>)
    requires ValidLog(log, g) && g.Inside(p) && TotalLen(a) + TotalLen(b) <= g.Size()
    ensures TotalLen(a + b) == TotalLen(a) + TotalLen(b)
    ensures Laid(log, g, p, t, a + b) <==>
            Laid(log, g, p, t, a) && Laid(log, g, g.Adv(p, TotalLen(a)), EndId(t, a), b)
    decreases |a|
  {
    TotalLenAppend(a, b);
    if a == [] {
      assert a + b == b;
    } else {
      assert (a + b)[1..] == a[1..] + b && (a + b)[0] == a[0];
      var n := a[0].Len();
      assert g.Adv(g.Adv(p, n), TotalLen(a[1..])) == g.Adv(p, TotalLen(a));
      LaidAppend(log, g, g.Adv(p, n), NextId(t, a[0]), a[1..], b);
    }
  }

  /** The log walk from the first record meets exactly these records, when they do not fill the
      ring, and then what it meets behind them. */
  lemma {:induction false} LaidIsWalk(log: seq<Block>, g: Geometry, start: nat, d: nat, t: u32, items: seq<Item>,
                                      rest: seq<Item>)
    requires ValidLog(log, g) && g.Inside(start) && d + TotalLen(items) < g.Size()
    requires Laid(log, g, g.Adv(start, d), t, items)
    ensures IsWalk(log, g, start, g.Adv(start, d), t, items + rest) <==>
            IsWalk(log, g, start, g.Adv(start, d + TotalLen(items)), EndId(t, items), rest)
    decreases |items|
  {
    hide ItemAt, DataUnmarked;
    if items == [] {
      assert items + rest == rest;
    } else {
      var n := items[0].Len();
      var p := g.Adv(start, d);
      g.SkipIsAdv(p, n);
      assert g.Adv(p, n) == g.Adv(start, d + n);
      assert (items + rest)[0] == items[0] && (items + rest)[1..] == items[1..] + rest;
      LaidIsWalk(log, g, start, d + n, NextId(t, items[0]), items[1..], rest);
    }
  }

  /** A walk that begins with the first of these records meets all of them. */
  lemma {:induction false} WalkMeetsLaid(log: seq<Block>, g: Geometry, start: nat, d: nat, t: u32, items: seq<Item>,
                                         all: seq<Item>)
    requires ValidLog(log, g) && g.Inside(start) && d + TotalLen(items) < g.Size()
    requires Laid(log, g, g.Adv(start, d), t, items) && IsWalk(log, g, start, g.Adv(start, d), t, all)
    ensures |items| <= |all| && all == items + all[|items|..]
    decreases |items|
  {
    hide ItemAt, DataUnmarked;
    if items != [] {
      var n := items[0].Len();
      var p := g.Adv(start, d);
      g.SkipIsAdv(p, n);
      assert g.Adv(p, n) == g.Adv(start, d + n);
      WalkMeetsLaid(log, g, start, d + n, NextId(t, items[0]), items[1..], all[1..]);
    }
  }

  // ----- Whole transactions

  /** A committed transaction and its records in the log. */
  datatype Logged = Logged(tx: Tx, items: seq<Item>) {
    ghost predicate Valid() {
      && items != [] && items[|items| - 1] == Commit
      && Commits(items[..|items| - 1]) == 0
      && Txs(items, EMPTY_TX) == [tx]
    }
  }

  function Flat(live: seq<Logged>): seq<Item> {
    if live == [] then [] else live[0].items + Flat(live[1..])
  }

  function LenOf(live: seq<Logged>): nat {
    TotalLen(Flat(live))
  }

  function TxsOf(live: seq<Logged>): (txs: seq<Tx>)
    ensures |txs| == |live|
    ensures forall i :: 0 <= i < |live| ==> txs[i] == live[i].tx
  {
    seq(|live|, i requires 0 <= i < |live| => live[i].tx)
  }

  lemma {:induction false} FlatAppend(a: seq<Logged>, b: seq<Logged>)
    ensures Flat(a + b) == Flat(a) + Flat(b)
    decreases |a|
  {
    if a == [] {
      assert a + b == b;
    } else {
      assert (a + b)[1..] == a[1..] + b && (a + b)[0] == a[0];
      FlatAppend(a[1..], b);
    }
  }

  lemma LenAppend(a: seq<Logged>, b: seq<Logged>)
    ensures LenOf(a + b) == LenOf(a) + LenOf(b)
  {
    FlatAppend(a, b);
    TotalLenAppend(Flat(a), Flat(b));
  }

  lemma {:induction false} CommitsAppend(a: seq<Item>, b: seq<Item>)
    ensures Commits(a + b) == Commits(a) + Commits(b)
    decreases |a|
  {
    if a == [] {
      assert a + b == b;
    } else {
      assert (a + b)[1..] == a[1..] + b;
      CommitsAppend(a[1..], b);
    }
  }

  /** A run of records that ends with a commit block is read on its own. */
  lemma {:induction false} TxsAppend(a: seq<Item>, cur: Tx, b: seq<Item>)
    requires a != [] && a[|a| - 1] == Commit
    ensures Txs(a + b, cur) == Txs(a, cur) + Txs(b, EMPTY_TX)
    decreases |a|
  {
    assert (a + b)[1..] == a[1..] + b && (a + b)[0] == a[0];
    if |a| == 1 {
      assert a[1..] + b == b;
    } else {
      match a[0] {
        case Desc(ws) => TxsAppend(a[1..], Tx(cur.writes + ws, cur.revokes), b);
        case Revoke(bs) => TxsAppend(a[1..], Tx(cur.writes, cur.revokes + bs), b);
        case Commit => TxsAppend(a[1..], EMPTY_TX, b);
      }
    }
  }

  lemma {:induction false} OpenIsNoTx(items: seq<Item>, cur: Tx)
    requires Commits(items) == 0
    ensures Txs(items, cur) == []
    decreases |items|
  {
    if items != [] {
      match items[0] {
        case Desc(ws) => OpenIsNoTx(items[1..], Tx(cur.writes + ws, cur.revokes));
        case Revoke(bs) => OpenIsNoTx(items[1..], Tx(cur.writes, cur.revokes + bs));
        case Commit =>
      }
    }
  }

  lemma {:induction false} EndIdOpen(t: u32, items: seq<Item>)
    requires Commits(items) == 0
    ensures EndId(t, items) == t
    decreases |items|
  {
    if items != [] { EndIdOpen(t, items[1..]); }
  }

  lemma ReadOne(l: Logged, rest: seq<Item>, t: u32)
    requires l.Valid()
    ensures Txs(l.items + rest, EMPTY_TX) == [l.tx] + Txs(rest, EMPTY_TX)
    ensures Commits(l.items + rest) == 1 + Commits(rest)
    ensures EndId(t, l.items + rest) == EndId(Succ(t), rest)
    ensures TotalLen(l.items) >= 1
  {
    var n := |l.items| - 1;
    assert l.items == l.items[..n] + [Commit];
    TxsAppend(l.items, EMPTY_TX, rest);
    CommitsAppend(l.items, rest);
    CommitsAppend(l.items[..n], [Commit]);
    EndIdAppend(t, l.items, rest);
    EndIdAppend(t, l.items[..n], [Commit]);
    EndIdOpen(t, l.items[..n]);
  }

  /** Reading a log of whole transactions, and of the one still being written, gives back
      the transactions. */
  lemma {:induction false} ReadBack(live: seq<Logged>, open: seq<Item>, t: u32)
    requires forall i :: 0 <= i < |live| ==> live[i].Valid()
    requires Commits(open) == 0
    ensures Txs(Flat(live) + open, EMPTY_TX) == TxsOf(live)
    ensures Commits(Flat(live) + open) == |live|
    ensures EndId(t, Flat(live) + open) == Plus(t, |live|)
    ensures LenOf(live) >= |live|
    decreases |live|
  {
    hide Logged.Valid, Txs, Commits, EndId, TotalLen, Succ;
    if live == [] {
      assert Flat(live) + open == open;
      OpenIsNoTx(open, EMPTY_TX);
      EndIdOpen(t, open);
    } else {
      var rest := Flat(live[1..]) + open;
      assert Flat(live) + open == live[0].items + rest;
      ReadOne(live[0], rest, t);
      ReadBack(live[1..], open, Succ(t));
      assert Plus(t, 1) == Succ(t);
      PlusPlus(t, 1, |live| - 1);
      TotalLenAppend(live[0].items, Flat(live[1..]));
      assert TxsOf(live) == [live[0].tx] + TxsOf(live[1..]);
    }
  }
}
