/** The block cache next to a plain array of blocks, over whole runs. */
module CacheRuns {
  import opened Words
  import opened BlockCache

  /** What a client does: gets a block, stores into one that it holds or marks it for temporary use,
      gives a hold back, or has dirty buffers written. */
  datatype Op =
    | Get(a: nat)
    | Store(a: nat, data: Block)
    | Mark(a: nat)
    | Release(a: nat)
    | Flush(a: nat)
    | FlushAll
    | WriteBack(on: bool)

  /** What comes of each: the result, the data of a get, and what the block shows once the data of a
      buffer given back are lost. */
  datatype Event =
    | Got(a: nat, r: Errno, data: Block)
    | Stored(a: nat, data: Block, held: bool)
    | Marked(a: nat, held: bool)
    | GaveBack(a: nat, held: bool, lost: Option<Block>)
    | Flushed(a: nat, r: Errno)
    | FlushedAll(r: Errno)
    | Switched(on: bool, r: Errno)

  /** The event is one of the operation. */
  predicate Answers(op: Op, e: Event) {
    match op
    case Get(a) => e.Got? && e.a == a
    case Store(a, data) => e.Stored? && e.a == a && e.data == data
    case Mark(a) => e.Marked? && e.a == a
    case Release(a) => e.GaveBack? && e.a == a
    case Flush(a) => e.Flushed? && e.a == a
    case FlushAll => e.FlushedAll?
    case WriteBack(on) => e.Switched? && e.on == on
  }

  /** A plain array of blocks after the stores and the losses of a run. */
  function Plain(disk: seq<Block>, trace: seq<Event>): (r: seq<Block>)
    ensures |r| == |disk|
  {
    if trace == [] then disk
    else
      var r := Plain(disk, trace[..|trace| - 1]);
      var e := trace[|trace| - 1];
      After(r, e)
  }

  function After(blocks: seq<Block>, e: Event): (r: seq<Block>)
    ensures |r| == |blocks|
  {
    if e.Stored? && e.held && e.a < |blocks| then blocks[e.a := e.data]
    else if e.GaveBack? && e.lost.Some? && e.a < |blocks| then blocks[e.a := e.lost.value]
    else blocks
  }

  /** How often block `a` is held after a run, when it was held `n` times before: gets that
      succeeded less releases. */
  function Holds(n: nat, trace: seq<Event>, a: nat): nat {
    if trace == [] then n
    else
      var h := Holds(n, trace[..|trace| - 1], a);
      var e := trace[|trace| - 1];
      if e.Got? && e.a == a && e.r == EOK then h + 1
      else if e.GaveBack? && e.a == a && e.held && h > 0 then h - 1
      else h
  }

  /** Whether block `a` is marked for temporary use: until the last hold on it is given back. */
  function Temporary(t: bool, n: nat, trace: seq<Event>, a: nat): bool {
    if trace == [] then t
    else
      var before := trace[..|trace| - 1];
      var e := trace[|trace| - 1];
      if e.Marked? && e.a == a && e.held then true
      else if e.GaveBack? && e.a == a && e.held && Holds(n, before, a) <= 1 then false
      else Temporary(t, n, before, a)
  }

  /** Which of the events took hold of block `a` last when nobody held it: a get, or a flush that looks
      its buffer up. -1 if none did. */
  function LastTaken(n: nat, trace: seq<Event>, a: nat): (i: int)
    ensures -1 <= i < |trace|
  {
    if trace == [] then -1
    else
      var before := trace[..|trace| - 1];
      if Takes(trace[|trace| - 1], a) && Holds(n, before, a) == 0 then |before| else LastTaken(n, before, a)
  }

  predicate Takes(e: Event, a: nat) {
    (e.Got? && e.a == a && e.r == EOK) || (e.Flushed? && e.a == a)
  }

  /** Block `a` was taken hold of before block `b`. Blocks that a run has not taken hold of are in the
      order in which it found them. */
  ghost predicate Older(was: map<nat, Buf>, trace: seq<Event>, a: nat, b: nat) {
    var ta, tb := LastTaken(Refs(was, a), trace, a), LastTaken(Refs(was, b), trace, b);
    ta < tb || (ta == tb && a in was && b in was && was[a].lruId < was[b].lruId)
  }

  /** The LRU ids are in the order of use. */
  ghost predicate Ranked(bufs: map<nat, Buf>, was: map<nat, Buf>, trace: seq<Event>) {
    forall a, b :: a in bufs && b in bufs && a != b ==> (bufs[a].lruId < bufs[b].lruId <==> Older(was, trace, a, b))
  }

  /** What an event does to the set of cached blocks. A get evicts others just from a full cache,
      and then those that were taken hold of before any other that nobody holds and that stays. A block
      that is given back or flushed may leave; else none does. */
  ghost predicate Evicts(was: map<nat, Buf>, before: seq<Event>, e: Event, cached: set<nat>, cached': set<nat>,
                         cnt: nat) {
    if e.Got? then
      forall x :: x in cached && x != e.a && x !in cached' ==>
        && Holds(Refs(was, x), before, x) == 0 && |cached| >= cnt
        && forall y :: y in cached' && y != e.a && Holds(Refs(was, y), before, y) == 0 ==> Older(was, before, x, y)
    else
      forall x :: x in cached && x !in cached' ==> (e.GaveBack? || e.Flushed?) && e.a == x
  }

  predicate Temp(bufs: map<nat, Buf>, a: nat) { a in bufs && bufs[a].tmp }

  /** What a device that fails nothing lets fail: nothing but a get beyond its end. */
  predicate Allowed(reliable: bool, r: Errno) { r == EOK || (r == EIO && !reliable) }

  /** After the events `before`, the event `e` is what the array and the holds say: a get has
      the block's data, or is of a block beyond the end, or was failed by the device; a store
      and a release take effect just if the block is held; and data are lost only by a device that
      refuses writes, with the last hold on a block marked for temporary use. */
  ghost predicate Expected(disk: seq<Block>, bufs: map<nat, Buf>, reliable: bool, before: seq<Event>, e: Event) {
    match e
    case Got(a, r, data) =>
      if a >= |disk| then r == ENXIO
      else Allowed(reliable, r) && (r == EOK ==> data == Plain(disk, before)[a])
    case Stored(a, _, held) => held <==> Holds(Refs(bufs, a), before, a) > 0
    case Marked(a, held) => held <==> Holds(Refs(bufs, a), before, a) > 0
    case GaveBack(a, held, lost) =>
      && (held <==> Holds(Refs(bufs, a), before, a) > 0)
      && (lost.Some? ==>
            && held && !reliable && Holds(Refs(bufs, a), before, a) == 1
            && Temporary(Temp(bufs, a), Refs(bufs, a), before, a))
    case Flushed(_, r) => Allowed(reliable, r)
    case FlushedAll(r) => Allowed(reliable, r)
    case Switched(_, r) => Allowed(reliable, r)
  }

  ghost predicate Faithful(disk: seq<Block>, bufs: map<nat, Buf>, reliable: bool, trace: seq<Event>) {
    forall i :: 0 <= i < |trace| ==> Expected(disk, bufs, reliable, trace[..i], trace[i])
  }

  lemma FaithfulMore(disk: seq<Block>, bufs: map<nat, Buf>, reliable: bool, trace: seq<Event>, e: Event)
    requires Faithful(disk, bufs, reliable, trace) && Expected(disk, bufs, reliable, trace, e)
    ensures Faithful(disk, bufs, reliable, trace + [e])
  {
    hide Expected;
    var t := trace + [e];
    forall i | 0 <= i < |t|
      ensures Expected(disk, bufs, reliable, t[..i], t[i])
    {
      if i == |trace| {
        assert t[..i] == trace;
      } else {
        assert t[..i] == trace[..i] && t[i] == trace[i];
      }
    }
  }

  /** The cache shows the array, and its buffers are referenced as often as they are held. */
  ghost predicate Shows(s: State, blocks: seq<Block>) {
    |blocks| == |s.disk| && forall a :: 0 <= a < |blocks| ==> Seen(s.bufs, s.disk, a) == blocks[a]
  }

  ghost predicate Counted(bufs: map<nat, Buf>, was: map<nat, Buf>, trace: seq<Event>) {
    forall a: nat :: Refs(bufs, a) == Holds(Refs(was, a), trace, a)
  }

  lemma OneMore(disk: seq<Block>, t0: bool, n: nat, trace: seq<Event>, e: Event, a: nat)
    ensures Plain(disk, trace + [e]) == After(Plain(disk, trace), e)
    ensures Temporary(t0, n, trace + [e], a) ==
            if e.Marked? && e.a == a && e.held then true
            else if e.GaveBack? && e.a == a && e.held && Holds(n, trace, a) <= 1 then false
            else Temporary(t0, n, trace, a)
    ensures LastTaken(n, trace + [e], a) ==
            if Takes(e, a) && Holds(n, trace, a) == 0 then |trace| else LastTaken(n, trace, a)
    ensures Holds(n, trace + [e], a) ==
            var h := Holds(n, trace, a);
            if e.Got? && e.a == a && e.r == EOK then h + 1
            else if e.GaveBack? && e.a == a && e.held && h > 0 then h - 1 else h
  {
    var t := trace + [e];
    assert t[..|t| - 1] == trace;
  }

  lemma ShowsStill(s: State, t: State, blocks: seq<Block>)
    requires Shows(s, blocks) && SameView(s, t)
    ensures Shows(t, blocks)
  {
    forall a | 0 <= a < |blocks|
      ensures Seen(t.bufs, t.disk, a) == blocks[a]
    {
      assert Seen(t.bufs, t.disk, a) == Seen(s.bufs, s.disk, a);
    }
  }

  lemma ShowsStored(s: State, t: State, blocks: seq<Block>, a: nat, data: Block)
    requires Shows(s, blocks) && t.disk == s.disk && a < |s.disk| && Seen(t.bufs, t.disk, a) == data
    requires forall x :: 0 <= x < |s.disk| && x != a ==> Seen(t.bufs, t.disk, x) == Seen(s.bufs, s.disk, x)
    ensures Shows(t, blocks[a := data])
  {
    forall x | 0 <= x < |blocks|
      ensures Seen(t.bufs, t.disk, x) == blocks[a := data][x]
    {
      if x != a { assert Seen(t.bufs, t.disk, x) == Seen(s.bufs, s.disk, x); }
    }
  }

  /** What an event does to the buffers: the references and the mark of block `a` change as the events
      say, and its LRU id if it is taken hold of. */
  ghost predicate Effect(from: map<nat, Buf>, to: map<nat, Buf>, e: Event, a: nat) {
    && ((e.Got? && e.r == EOK) || ((e.Marked? || e.GaveBack?) && e.held) || e.Flushed? ==> e.a == a)
    && (forall x: nat :: x != a ==> Refs(to, x) == Refs(from, x) && (Temp(to, x) <==> Temp(from, x)))
    && (Refs(to, a) ==
        if e.Got? && e.r == EOK then Refs(from, a) + 1
        else if e.GaveBack? && e.held && Refs(from, a) > 0 then Refs(from, a) - 1 else Refs(from, a))
    && (Temp(to, a) <==>
        if e.Marked? && e.held then true
        else if e.GaveBack? && e.held && Refs(from, a) <= 1 then false else Temp(from, a))
    && (forall x :: x in to && x != a ==> x in from && to[x].lruId == from[x].lruId)
    && (a in to ==> Stamped(from, to, a, Takes(e, a)))
  }

  /** Buffers are changed, but neither their references nor their LRU ids. */
  lemma NoEffect(from: map<nat, Buf>, to: map<nat, Buf>, e: Event, a: nat)
    requires e.FlushedAll? || e.Switched? || e.Stored? || ((e.Marked? || e.GaveBack?) && !e.held)
    requires to.Keys == from.Keys
    requires forall x :: x in to ==>
               x in from && to[x] == from[x].(data := to[x].data, dirty := to[x].dirty, uptodate := to[x].uptodate,
               onDirtyList := to[x].onDirtyList)
    ensures Effect(from, to, e, a)
  {
  }

  lemma CleanedOnly(from: map<nat, Buf>, to: map<nat, Buf>)
    requires Cleaned(from, to)
    ensures to.Keys == from.Keys
    ensures forall x :: x in to ==>
              x in from && to[x] == from[x].(dirty := to[x].dirty, onDirtyList := to[x].onDirtyList)
  {
  }

  lemma GetEffect(from: map<nat, Buf>, to: map<nat, Buf>, e: Event)
    requires e.Got? && OthersHeld(from, to, e.a) && Stamped(from, to, e.a, e.r == EOK)
    requires if e.r == EOK then e.a in to && to[e.a].refctr == Refs(from, e.a) + 1 else Refs(to, e.a) == Refs(from, e.a)
    requires forall x: nat :: Temp(from, x) ==> Refs(from, x) > 0
    ensures Effect(from, to, e, e.a)
  {
    hide Newest;
  }

  lemma MarkEffect(from: map<nat, Buf>, to: map<nat, Buf>, e: Event)
    requires e.Marked? && e.held && e.a in from && to == from[e.a := from[e.a].(tmp := true)]
    ensures Effect(from, to, e, e.a) && to.Keys == from.Keys
  {
  }

  lemma ReleaseEffect(from: map<nat, Buf>, to: map<nat, Buf>, e: Event)
    requires e.GaveBack? && e.held && e.a in from && from[e.a].refctr > 0 && to - {e.a} == from - {e.a}
    requires e.a in to ==>
               var b := from[e.a];
               to[e.a].refctr == b.refctr - 1 && to[e.a].tmp == b.tmp && to[e.a].lruId == b.lruId
    requires e.a !in to <==> from[e.a].refctr == 1 && (!from[e.a].uptodate || from[e.a].tmp)
    ensures Effect(from, to, e, e.a)
  {
    BufsBut(from, to, e.a);
  }

  lemma FlushEffect(from: map<nat, Buf>, to: map<nat, Buf>, e: Event)
    requires e.Flushed? && to - {e.a} == from - {e.a} && Refs(to, e.a) == Refs(from, e.a)
    requires e.a in to ==> e.a in from && to[e.a].tmp == from[e.a].tmp && Stamped(from, to, e.a, true)
    requires Temp(from, e.a) ==> Refs(from, e.a) > 0
    ensures Effect(from, to, e, e.a)
  {
    hide Newest;
    BufsBut(from, to, e.a);
  }

  /** The references to block `a` change as the holds on it do. */
  lemma CountedMore(bufs: map<nat, Buf>, bufs': map<nat, Buf>, was: map<nat, Buf>, trace: seq<Event>, e: Event, a: nat)
    requires Counted(bufs, was, trace) && Effect(bufs, bufs', e, a)
    ensures Counted(bufs', was, trace + [e])
  {
    forall x: nat
      ensures Refs(bufs', x) == Holds(Refs(was, x), trace + [e], x)
    {
      assert Refs(bufs, x) == Holds(Refs(was, x), trace, x);
      OneMore([], false, Refs(was, x), trace, e, x);
    }
  }

  /** What the cache shows. */
  ghost function Shown(s: State): seq<Block> {
    seq(|s.disk|, a requires 0 <= a < |s.disk| => Seen(s.bufs, s.disk, a))
  }

  lemma Nothing(s: State)
    ensures Shows(s, Shown(s)) && Plain(Shown(s), []) == Shown(s) && Counted(s.bufs, s.bufs, [])
    ensures MarksKept(s.bufs, s.bufs, []) && Ranked(s.bufs, s.bufs, [])
  {
  }

  /** Just the buffers that are marked so are of temporary use. */
  ghost predicate MarksKept(bufs: map<nat, Buf>, was: map<nat, Buf>, trace: seq<Event>) {
    forall a: nat :: Temp(bufs, a) <==> Temporary(Temp(was, a), Refs(was, a), trace, a)
  }

  lemma MarksMore(bufs: map<nat, Buf>, bufs': map<nat, Buf>, was: map<nat, Buf>, trace: seq<Event>, e: Event, a: nat)
    requires MarksKept(bufs, was, trace) && Counted(bufs, was, trace) && Effect(bufs, bufs', e, a)
    ensures MarksKept(bufs', was, trace + [e])
  {
    hide Temp, Refs;
    forall x: nat
      ensures Temp(bufs', x) <==> Temporary(Temp(was, x), Refs(was, x), trace + [e], x)
    {
      assert Refs(bufs, x) == Holds(Refs(was, x), trace, x);
      assert Temp(bufs, x) <==> Temporary(Temp(was, x), Refs(was, x), trace, x);
      OneMore([], Temp(was, x), Refs(was, x), trace, e, x);
    }
  }

  /** An event keeps the order of use, but for a block that it takes hold of, which comes last. */
  lemma RankedMore(bufs: map<nat, Buf>, bufs': map<nat, Buf>, was: map<nat, Buf>, trace: seq<Event>, e: Event, a: nat)
    requires Ranked(bufs, was, trace) && Counted(bufs, was, trace)
    requires Effect(bufs, bufs', e, a)
    ensures Ranked(bufs', was, trace + [e])
  {
    forall x | x in bufs'
      ensures LastTaken(Refs(was, x), trace + [e], x) ==
              if x == a && Takes(e, a) && Refs(bufs, a) == 0 then |trace| else LastTaken(Refs(was, x), trace, x)
    {
      assert Refs(bufs, x) == Holds(Refs(was, x), trace, x);
      OneMore([], false, Refs(was, x), trace, e, x);
    }
    forall x, y | x in bufs' && y in bufs' && x != y
      ensures bufs'[x].lruId < bufs'[y].lruId <==> Older(was, trace + [e], x, y)
    {
      if a in bufs' && Takes(e, a) && Refs(bufs, a) == 0 && (x == a || y == a) {
      } else {
        assert x in bufs && y in bufs;
        assert Older(was, trace + [e], x, y) <==> Older(was, trace, x, y);
      }
    }
  }

  lemma BufsBut(from: map<nat, Buf>, to: map<nat, Buf>, a: nat)
    requires to - {a} == from - {a}
    ensures forall x :: x != a ==> (x in to <==> x in from) && (x in to ==> to[x] == from[x])
  {
    forall x | x != a
      ensures x in to <==> x in from
      ensures x in to ==> to[x] == from[x]
    {
      assert x in to <==> x in to - {a};
      assert x in from <==> x in from - {a};
      if x in to { assert (to - {a})[x] == (from - {a})[x]; }
    }
  }

  lemma Kept(bufs: map<nat, Buf>, bufs': map<nat, Buf>, was: map<nat, Buf>, trace: seq<Event>, e: Event, a: nat)
    requires Ranked(bufs, was, trace) && Counted(bufs, was, trace) && MarksKept(bufs, was, trace)
    requires Effect(bufs, bufs', e, a)
    ensures Ranked(bufs', was, trace + [e]) && Counted(bufs', was, trace + [e]) && MarksKept(bufs', was, trace + [e])
  {
    hide Ranked, Counted, MarksKept, Effect;
    RankedMore(bufs, bufs', was, trace, e, a);
    CountedMore(bufs, bufs', was, trace, e, a);
    MarksMore(bufs, bufs', was, trace, e, a);
  }

  /** By the events, what a get evicts. */
  lemma GetEvicts(bufs: map<nat, Buf>, bufs': map<nat, Buf>, was: map<nat, Buf>, trace: seq<Event>, e: Event, cnt: nat)
    requires Ranked(bufs, was, trace) && Counted(bufs, was, trace) && e.Got?
    requires OthersHeld(bufs, bufs', e.a) && LeastUsed(bufs, bufs', e.a, cnt)
    ensures Evicts(was, trace, e, bufs.Keys, bufs'.Keys, cnt)
  {
    hide Older, Holds;
    assert |bufs.Keys| == |bufs|;
    forall x | x in bufs && x != e.a && x !in bufs'
      ensures Holds(Refs(was, x), trace, x) == 0 && |bufs| >= cnt
      ensures forall y :: y in bufs' && y != e.a && Holds(Refs(was, y), trace, y) == 0 ==> Older(was, trace, x, y)
    {
      assert Refs(bufs, x) == Holds(Refs(was, x), trace, x);
      forall y | y in bufs' && y != e.a && Holds(Refs(was, y), trace, y) == 0
        ensures Older(was, trace, x, y)
      {
        assert Refs(bufs, y) == Holds(Refs(was, y), trace, y);
      }
    }
  }

  /** No other event lets a block leave but one that it is given back or flushed by. */
  lemma LeavesAlone(from: map<nat, Buf>, to: map<nat, Buf>, was: map<nat, Buf>, trace: seq<Event>, e: Event, cnt: nat)
    requires !e.Got? && (to.Keys == from.Keys || ((e.GaveBack? || e.Flushed?) && to - {e.a} == from - {e.a}))
    ensures Evicts(was, trace, e, from.Keys, to.Keys, cnt)
  {
    if to.Keys != from.Keys { BufsBut(from, to, e.a); }
  }

  /** A buffer of temporary use is held. */
  lemma MarkedIsHeld(s: State)
    requires Ok(s, {})
    ensures forall a: nat :: Temp(s.bufs, a) ==> Refs(s.bufs, a) > 0
  {
    forall a: nat | Temp(s.bufs, a)
      ensures Refs(s.bufs, a) > 0
    {
      assert BufOk(s.bufs[a], s.disk[a], s.lruCtr);
    }
  }

  /** The disk has the contents of all blocks that nobody holds. */
  ghost predicate Written(s: State, blocks: seq<Block>) {
    && |blocks| == |s.disk|
    && forall a :: 0 <= a < |blocks| && (a in s.bufs ==> s.bufs[a].refctr == 0) ==> s.disk[a] == blocks[a]
  }

  lemma WrittenAll(s: State, blocks: seq<Block>)
    requires Shows(s, blocks)
    requires forall a :: 0 <= a < |s.disk| && (a in s.bufs ==> s.bufs[a].refctr == 0) ==>
            Seen(s.bufs, s.disk, a) == s.disk[a]
    ensures Written(s, blocks)
  {
    forall a | 0 <= a < |blocks| && (a in s.bufs ==> s.bufs[a].refctr == 0)
      ensures s.disk[a] == blocks[a]
    {
      assert Seen(s.bufs, s.disk, a) == blocks[a];
    }
  }

  /** What a run has led to. */
  ghost predicate Reached(c: Cache, start: seq<Block>, was: map<nat, Buf>, trace: seq<Event>)
    reads c
  {
    && c.Valid() && MarksKept(c.bufs, was, trace) && Faithful(start, was, c.reliable, trace)
    && Shows(c.S(), Plain(start, trace)) && Counted(c.bufs, was, trace) && Ranked(c.bufs, was, trace)
  }

  /** The block that an event is about. */
  function Of(e: Event): nat { if e.FlushedAll? || e.Switched? then 0 else e.a }

  method GetOne(c: Cache, a: nat, ghost start: seq<Block>, ghost was: map<nat, Buf>, ghost before: seq<Event>)
    returns (e: Event)
    requires Reached(c, start, was, before)
    modifies c
    ensures c.Valid() && Answers(Op.Get(a), e) && Expected(start, was, c.reliable, before, e)
    ensures Shows(c.S(), After(Plain(start, before), e)) && Effect(old(c.bufs), c.bufs, e, a)
    ensures Evicts(was, before, e, old(c.bufs.Keys), c.bufs.Keys, c.cnt)
  {
    hide BlockCache.Ok, SameView, Faithful, Shows, Plain, Holds, MarksKept, OthersHeld, Counted, Refs, Temp, Temporary,
        Ranked, LeastUsed, Stamped, Effect, Evicts;
    ghost var s, bufs, now := c.S(), c.bufs, Plain(start, before);
    MarkedIsHeld(s);
    var r, data := c.Get(a);
    e := Got(a, r, data);
    GetEffect(bufs, c.bufs, e);
    GetEvicts(bufs, c.bufs, was, before, e, c.cnt);
    ShowsStill(s, c.S(), now);
    SeenIs(s, now, a);
  }

  method StoreOne(c: Cache, a: nat, data: Block, ghost start: seq<Block>, ghost was: map<nat, Buf>,
                  ghost before: seq<Event>)
    returns (e: Event)
    requires Reached(c, start, was, before)
    modifies c
    ensures c.Valid() && Answers(Op.Store(a, data), e) && Expected(start, was, c.reliable, before, e)
    ensures Shows(c.S(), After(Plain(start, before), e)) && Effect(old(c.bufs), c.bufs, e, a)
    ensures c.bufs.Keys == old(c.bufs.Keys)
  {
    hide BlockCache.Ok, Faithful, Shows, Plain, Holds, MarksKept, Counted, Refs, Temporary, Ranked, Effect, Evicts;
    ghost var s, bufs, now := c.S(), c.bufs, Plain(start, before);
    var held := a in c.bufs && c.bufs[a].refctr > 0;
    HeldIs(bufs, was, before, a);
    if held {
      c.Modify(a, data);
      ShowsStored(s, c.S(), now, a, data);
      SeenIs(s, now, a);
    }
    e := Stored(a, data, held);
    NoEffect(bufs, c.bufs, e, a);
  }

  /** One operation. What is not held is neither changed nor given back. */
  method Act(c: Cache, op: Op, ghost start: seq<Block>, ghost was: map<nat, Buf>, ghost before: seq<Event>)
    returns (e: Event)
    requires Reached(c, start, was, before)
    modifies c
    ensures c.Valid() && Answers(op, e) && Expected(start, was, c.reliable, before, e)
    ensures Shows(c.S(), After(Plain(start, before), e)) && Effect(old(c.bufs), c.bufs, e, Of(e))
    ensures Evicts(was, before, e, old(c.bufs.Keys), c.bufs.Keys, c.cnt)
  {
    hide BlockCache.Ok, SameView, Faithful, Shows, Plain, Holds, MarksKept, OthersHeld, Counted, Cleaned, Refs, Temp,
        Temporary, Ranked, LeastUsed, Stamped, Effect, Evicts;
    ghost var s, bufs, now := c.S(), c.bufs, Plain(start, before);
    MarkedIsHeld(s);
    match op {
      case Get(a) =>
        e := GetOne(c, a, start, was, before);
      case Store(a, data) =>
        e := StoreOne(c, a, data, start, was, before);
      case Mark(a) =>
        var held := a in c.bufs && c.bufs[a].refctr > 0;
        HeldIs(bufs, was, before, a);
        e := Marked(a, held);
        if held {
          c.SetTemporary(a);
          MarkEffect(bufs, c.bufs, e);
          ShowsStill(s, c.S(), now);
        } else {
          NoEffect(bufs, c.bufs, e, a);
        }
      case Release(a) =>
        e := Release(c, a, start, was, before);
      case Flush(a) =>
        var r := c.FlushLba(a);
        e := Flushed(a, r);
        ShowsStill(s, c.S(), now);
        FlushEffect(bufs, c.bufs, e);
      case FlushAll =>
        var r := c.CacheFlush();
        e := FlushedAll(r);
        CleanedOnly(bufs, c.bufs);
        NoEffect(bufs, c.bufs, e, 0);
        ShowsStill(s, c.S(), now);
      case WriteBack(on) =>
        var r := c.WriteBack(on);
        e := Switched(on, r);
        CleanedOnly(bufs, c.bufs);
        NoEffect(bufs, c.bufs, e, 0);
        ShowsStill(s, c.S(), now);
    }
    if !e.Got? { LeavesAlone(bufs, c.bufs, was, before, e, c.cnt); }
  }

  /** One step of a run. */
  method Step(c: Cache, op: Op, ghost start: seq<Block>, ghost was: map<nat, Buf>, ghost before: seq<Event>)
    returns (e: Event)
    requires Reached(c, start, was, before)
    modifies c
    ensures Reached(c, start, was, before + [e]) && Answers(op, e)
    ensures Evicts(was, before, e, old(c.bufs.Keys), c.bufs.Keys, c.cnt)
  {
    hide BlockCache.Ok, Faithful, Shows, Plain, MarksKept, Counted, Ranked, Effect, Evicts, Expected, After, Answers;
    ghost var bufs := c.bufs;
    e := Act(c, op, start, was, before);
    Kept(bufs, c.bufs, was, before, e, Of(e));
    OneMore(start, false, 0, before, e, 0);
    FaithfulMore(start, was, c.reliable, before, e);
  }

  /** A hold is given back. */
  method Release(c: Cache, a: nat, ghost start: seq<Block>, ghost was: map<nat, Buf>, ghost before: seq<Event>)
    returns (e: Event)
    requires Reached(c, start, was, before)
    modifies c
    ensures Effect(old(c.bufs), c.bufs, e, a) && c.bufs - {a} == old(c.bufs) - {a}
    ensures c.Valid() && Answers(Op.Release(a), e) && Expected(start, was, c.reliable, before, e)
    ensures Shows(c.S(), After(Plain(start, before), e))
  {
    hide BlockCache.Ok, SameView, Faithful, Shows, Plain, Holds, OthersHeld, Cleaned, Temporary, Effect;
    ghost var s, bufs, now := c.S(), c.bufs, Plain(start, before);
    var held := a in c.bufs && c.bufs[a].refctr > 0;
    HeldIs(bufs, was, before, a);
    SeenIs(s, now, a);
    e := GaveBack(a, held, None);
    if held {
      var b := c.bufs[a];
      BufFacts(s, {}, a);
      c.Free(a);
      if a !in c.bufs && b.uptodate && c.disk[a] != b.data {
        e := GaveBack(a, held, Some(c.disk[a]));
        ViewDiffers(s, c.S(), a);
        ShowsLost(s, c.S(), now, a);
      } else {
        ShowsStill(s, c.S(), now);
      }
      MarkIs(bufs, was, before, a);
      ReleaseEffect(bufs, c.bufs, e);
    } else {
      NoEffect(bufs, c.bufs, e, a);
    }
  }

  lemma SeenIs(s: State, blocks: seq<Block>, a: nat)
    requires Shows(s, blocks)
    ensures |blocks| == |s.disk| && (a < |s.disk| ==> Seen(s.bufs, s.disk, a) == blocks[a])
  {
  }

  lemma HeldIs(bufs: map<nat, Buf>, was: map<nat, Buf>, trace: seq<Event>, a: nat)
    requires Counted(bufs, was, trace)
    ensures a in bufs && bufs[a].refctr > 0 <==> Holds(Refs(was, a), trace, a) > 0
    ensures Refs(bufs, a) > 0 <==> a in bufs && bufs[a].refctr > 0
  {
    assert Refs(bufs, a) == Holds(Refs(was, a), trace, a);
  }

  lemma MarkIs(bufs: map<nat, Buf>, was: map<nat, Buf>, trace: seq<Event>, a: nat)
    requires MarksKept(bufs, was, trace)
    ensures Temp(bufs, a) <==> Temporary(Temp(was, a), Refs(was, a), trace, a)
  {
  }

  lemma ViewDiffers(s: State, t: State, a: nat)
    requires a < |s.disk| == |t.disk| && Seen(t.bufs, t.disk, a) != Seen(s.bufs, s.disk, a)
    ensures !SameView(s, t)
  {
  }

  /** Only this block is lost. */
  lemma ShowsLost(s: State, t: State, blocks: seq<Block>, a: nat)
    requires Shows(s, blocks) && t.disk == s.disk && a < |s.disk| && a !in t.bufs && t.bufs - {a} == s.bufs - {a}
    ensures Shows(t, blocks[a := t.disk[a]])
  {
    forall x | 0 <= x < |blocks| && x != a
      ensures Seen(t.bufs, t.disk, x) == blocks[x]
    {
      assert Seen(s.bufs, s.disk, x) == blocks[x];
      assert x in t.bufs <==> x in t.bufs - {a};
      assert x in s.bufs <==> x in s.bufs - {a};
      if x in t.bufs { assert (t.bufs - {a})[x] == (s.bufs - {a})[x]; }
    }
  }

  lemma MoreEvicts(was: map<nat, Buf>, trace: seq<Event>, e: Event, cached: seq<set<nat>>, next: set<nat>, cnt: nat)
    requires |cached| == |trace| + 1 && Evicts(was, trace, e, cached[|trace|], next, cnt)
    requires forall k :: 0 <= k < |trace| ==> Evicts(was, trace[..k], trace[k], cached[k], cached[k + 1], cnt)
    ensures var t, cs := trace + [e], cached + [next];
            forall k :: 0 <= k < |t| ==> Evicts(was, t[..k], t[k], cs[k], cs[k + 1], cnt)
  {
    hide Evicts;
    var t := trace + [e];
    forall k | 0 <= k < |t|
      ensures Evicts(was, t[..k], t[k], (cached + [next])[k], (cached + [next])[k + 1], cnt)
    {
      if k == |trace| {
        assert t[..k] == trace;
      } else {
        assert t[..k] == trace[..k] && t[k] == trace[k];
      }
    }
  }

  /** Any run: there is one event for each operation, and it is the one that a plain array of
      blocks would give, whatever the cache evicts and the device refuses, but for the data that are
      lost with a buffer of temporary use; nothing fails on a reliable device but a get beyond its
      end. At the end the cache shows the array, and if no write was refused and nothing waits on the
      list, so does the disk for all blocks that nobody holds. */
  method Run(c: Cache, ops: seq<Op>) returns (trace: seq<Event>, ghost cached: seq<set<nat>>)
    requires c.Valid()
    modifies c
    ensures |trace| == |ops| && forall i :: 0 <= i < |ops| ==> Answers(ops[i], trace[i])
    ensures Reached(c, Shown(old(c.S())), old(c.bufs), trace)
    ensures |cached| == |ops| + 1 && cached[0] == old(c.bufs.Keys) && cached[|ops|] == c.bufs.Keys
    ensures forall i :: 0 <= i < |ops| ==>
              Evicts(old(c.bufs), trace[..i], trace[i], cached[i], cached[i + 1], c.cnt)
    ensures c.failures == 0 && (c.dirtyList == [] || c.writeBack == 0) ==>
            Written(c.S(), Plain(Shown(old(c.S())), trace))
  {
    hide BlockCache.Ok, SameView, Shows, Plain, Written, MarksKept, Shown, Counted, Expected, Ranked, Evicts;
    ghost var start, was := Shown(c.S()), c.bufs;
    trace, cached := [], [c.bufs.Keys];
    Nothing(c.S());
    for i := 0 to |ops|
      invariant |trace| == i && forall k :: 0 <= k < i ==> Answers(ops[k], trace[k])
      invariant Reached(c, start, was, trace)
      invariant |cached| == i + 1 && cached[0] == was.Keys && cached[i] == c.bufs.Keys
      invariant forall k :: 0 <= k < i ==> Evicts(was, trace[..k], trace[k], cached[k], cached[k + 1], c.cnt)
    {
      var e := Step(c, ops[i], start, was, trace);
      MoreEvicts(was, trace, e, cached, c.bufs.Keys, c.cnt);
      trace, cached := trace + [e], cached + [c.bufs.Keys];
    }
    if c.failures == 0 {
      c.AllOnDisk();
      if c.dirtyList == [] { WrittenAll(c.S(), Plain(start, trace)); }
    }
  }

  /** Clearing a range of buffers leaves no old data to be seen in it just if the first block of
      the range is cached, or nothing there differed from the disk anyway. */
  lemma ClearedIff(s: State, s': State, from: nat, n: nat)
    requires Ok(s, {}) && s'.disk == s.disk
    requires from !in s.bufs ==> s' == s
    requires from in s.bufs ==> Cleared(s.bufs, s'.bufs, from, RangeEnd(from, n))
    ensures (forall a :: from <= a < RangeEnd(from, n) && a < |s.disk| ==> Seen(s'.bufs, s'.disk, a) == s.disk[a]) <==>
            (from in s.bufs || forall a :: from <= a < RangeEnd(from, n) && a < |s.disk| ==>
                Seen(s.bufs, s.disk, a) == s.disk[a])
  {
    hide Ok;
    if from in s.bufs {
      forall a | from <= a < RangeEnd(from, n) && a < |s.disk|
        ensures Seen(s'.bufs, s'.disk, a) == s.disk[a]
      {
        if a in s'.bufs { assert a in s.bufs; }
      }
    }
  }

  /** A released buffer that differs from the disk waits to be written. */
  lemma Waits(s: State, a: nat)
    requires Ok(s, {}) && s.failures == 0 && a in s.bufs && s.bufs[a].refctr == 0 && a < |s.disk|
    requires Seen(s.bufs, s.disk, a) != s.disk[a]
    ensures a in s.dirtyList
  {
    assert BufOk(s.bufs[a], s.disk[a], s.lruCtr) && Released(s.bufs[a], s.failures);
  }

  /** Blocks 5 and 6 are freed together; block 5 is not cached, so nothing is cleared: block 6
      keeps its old data, and the list will write it. */
  method NotCleared() returns (c: Cache)
    ensures c.Valid() && 6 in c.dirtyList && 6 < |c.disk| && c.View(6) != c.disk[6]
  {
    hide BlockCache.Ok, SameView;
    var disk: seq<Block> := seq(8, _ => [0]);
    c := new Cache(4, true, false, disk);
    Store6(c);
    c.Free(6);
    assert c.disk == disk && 5 !in c.bufs - {6};
    Waits(c.S(), 6);
    c.InvalidateLba(5, 2);
  }

  method Store6(c: Cache)
    requires c.Valid() && c.reliable && c.bufs == map[] && c.lru == {} && c.failures == 0 && |c.disk| == 8
    modifies c
    ensures c.Valid() && c.failures == 0 && c.disk == old(c.disk) && c.writeBack > 0 && c.bufs.Keys == {6}
    ensures var b := c.bufs[6]; b.refctr == 1 && b.uptodate && !b.flush && !b.tmp && b.data == [1]
  {
    hide BlockCache.Ok, SameView, Seen;
    var r := c.WriteBack(true);
    var data;
    r, data := c.Get(6);
    assert c.bufs.Keys == {6};
    c.Modify(6, [1]);
  }

  /** A block is stored into and marked for temporary use; the device refuses its write when it is given
      back, which returns nothing: the block shows its old data again, and nothing waits. */
  method LostBlock() returns (c: Cache)
    ensures c.Valid() && c.dirtyList == [] && 6 !in c.bufs && c.tried == c.failures == 1
    ensures 6 < |c.disk| && c.View(6) == [0]
  {
    hide BlockCache.Ok, SameView;
    var disk: seq<Block> := seq(8, _ => [0]);
    c := new Cache(4, false, true, disk);
    var r := c.GetNoread(6);
    c.Modify(6, [1]);
    assert c.View(6) == [1];
    c.SetTemporary(6);
    ghost var bufs := c.bufs;
    c.Free(6);
    OnlySix(bufs, c.bufs);
    NothingCached(c.S());
  }

  lemma OnlySix(from: map<nat, Buf>, to: map<nat, Buf>)
    requires from.Keys <= {6} && to - {6} == from - {6} && 6 !in to
    ensures to.Keys == {}
  {
    assert (to - {6}).Keys == to.Keys - {6} && (from - {6}).Keys == from.Keys - {6};
    assert to.Keys - {6} <= {6} - {6};
    assert to.Keys == to.Keys - {6};
  }

  lemma NothingCached(s: State)
    requires Ok(s, {}) && s.bufs.Keys == {}
    ensures s.dirtyList == []
  {
    HeadOf(s.dirtyList);
  }

  lemma HeadOf(list: seq<nat>)
    ensures list == [] || list[0] in list
  {
  }
}
