/** The write-back block cache: buffers by address, a tree of unreferenced ones in the order of
    last use, and a list of those ready to be written. */
module BlockCache {
  import opened Words

  datatype Errno = EOK | EIO | ENXIO

  type Block = seq<u8>

  /** `struct ext4_buf`: the flags BC_UPTODATE, BC_DIRTY, BC_FLUSH and BC_TMP, the data, and the
      fields that the cache keeps. */
  datatype Buf = Buf(uptodate: bool, dirty: bool, flush: bool, tmp: bool, data: Block,
                     lruId: nat, refctr: nat, onDirtyList: bool)
  {
    /** `ext4_bcache_set_dirty`. */
    function SetDirty(): Buf { this.(uptodate := true, dirty := true) }

    /** `ext4_bcache_clear_dirty`: both flags, as the macro has it. */
    function ClearDirty(): Buf { this.(uptodate := false, dirty := false) }
  }

  /** A buffer that nobody holds any more does not wait on the list for its write. */
  predicate WritesAtOnce(b: Buf, writeBack: nat) {
    b.dirty && b.uptodate && (writeBack == 0 || b.flush || b.tmp)
  }

  /** What a buffer's fields may be together. */
  ghost predicate BufOk(b: Buf, onDisk: Block, ctr: nat) {
    && (b.dirty ==> b.uptodate)
    && (b.uptodate && !b.dirty ==> b.data == onDisk)
    && (b.onDirtyList ==> b.refctr == 0 && b.dirty)
    && b.lruId <= ctr
  }

  /** The list holds just the buffers that say so, each once. */
  ghost predicate ListOk(bufs: map<nat, Buf>, list: seq<nat>) {
    && (forall i, j :: 0 <= i < j < |list| ==> list[i] != list[j])
    && (forall a :: a in list <==> a in bufs && bufs[a].onDirtyList)
  }

  ghost predicate IdsDiffer(bufs: map<nat, Buf>) {
    forall a, b :: a in bufs && b in bufs && a != b ==> bufs[a].lruId != bufs[b].lruId
  }

  /** What a reader of the device through the cache sees at an address. */
  function Seen(bufs: map<nat, Buf>, disk: seq<Block>, a: nat): Block
    requires a < |disk|
  {
    if a in bufs && bufs[a].uptodate then bufs[a].data else disk[a]
  }

  /** The state of the cache and its device, how many writes that refused, and whether the list
      is being emptied because write-back goes off. */
  datatype State = State(bufs: map<nat, Buf>, lru: set<nat>, dirtyList: seq<nat>, refBlocks: nat, lruCtr: nat,
                         writeBack: nat, disk: seq<Block>, failures: nat, draining: bool)

  /** `but` are buffers that are just being released. */
  ghost predicate BufsOk(s: State, but: set<nat>) {
    forall a :: a in s.bufs ==>
      a < |s.disk| && BufOk(s.bufs[a], s.disk[a], s.lruCtr) && (a in but || Released(s.bufs[a], s.failures))
  }

  /** A released buffer is not a temporary one and, unless a write was refused, on the list if
      it is dirty. */
  ghost predicate Released(b: Buf, failures: nat) {
    b.refctr == 0 ==> !b.tmp && (failures == 0 && b.dirty ==> b.onDirtyList)
  }

  ghost predicate Ok(s: State, but: set<nat>) {
    && s.lru == (set a | a in s.bufs && s.bufs[a].refctr == 0)
    && s.refBlocks == |s.bufs|
    && ListOk(s.bufs, s.dirtyList) && IdsDiffer(s.bufs) && BufsOk(s, but)
    && (s.failures == 0 && s.writeBack == 0 && !s.draining ==> s.dirtyList == [])
  }

  ghost predicate SameView(s: State, s': State) {
    |s'.disk| == |s.disk| && forall a :: 0 <= a < |s.disk| ==> Seen(s'.bufs, s'.disk, a) == Seen(s.bufs, s.disk, a)
  }

  /** The state with buffer `b` at address `a`, new or instead of what was there. */
  function Put(s: State, a: nat, b: Buf, list: seq<nat>, onDisk: Block, ctr: nat): State
    requires a < |s.disk|
  {
    s.(bufs := s.bufs[a := b], lru := if b.refctr == 0 then s.lru + {a} else s.lru - {a}, dirtyList := list,
       refBlocks := if a in s.bufs then s.refBlocks else s.refBlocks + 1, lruCtr := ctr, disk := s.disk[a := onDisk])
  }

  lemma PutOk(s: State, but: set<nat>, a: nat, b: Buf, list: seq<nat>, onDisk: Block, ctr: nat)
    requires Ok(s, but) && a < |s.disk| && BufOk(b, onDisk, ctr) && (a in but || Released(b, s.failures))
            && s.lruCtr <= ctr
    requires (a in s.bufs && b.lruId == s.bufs[a].lruId) || b.lruId > s.lruCtr
    requires ListOk(s.bufs[a := b], list) && (s.failures == 0 && s.writeBack == 0 && !s.draining ==> list == [])
    ensures Ok(Put(s, a, b, list, onDisk, ctr), but)
    ensures Seen(s.bufs[a := b], s.disk[a := onDisk], a) == Seen(s.bufs, s.disk, a) ==>
              SameView(s, Put(s, a, b, list, onDisk, ctr))
  {
    hide ListOk, IdsDiffer, Seen;
    var s' := Put(s, a, b, list, onDisk, ctr);
    PutSize(s.bufs, a, b);
    PutIds(s, but, a, b);
    if Seen(s.bufs[a := b], s.disk[a := onDisk], a) == Seen(s.bufs, s.disk, a) { PutView(s, a, b, onDisk); }
    forall x | x in s'.bufs
      ensures x < |s'.disk| && BufOk(s'.bufs[x], s'.disk[x], s'.lruCtr) && (x in but
              || Released(s'.bufs[x], s'.failures))
    {
      if x != a { assert BufOk(s.bufs[x], s.disk[x], s.lruCtr); }
    }
  }

  lemma PutIds(s: State, but: set<nat>, a: nat, b: Buf)
    requires IdsDiffer(s.bufs) && BufsOk(s, but) && ((a in s.bufs && b.lruId == s.bufs[a].lruId) || b.lruId > s.lruCtr)
    ensures IdsDiffer(s.bufs[a := b])
  {
    forall x | x in s.bufs
      ensures s.bufs[x].lruId <= s.lruCtr
    {
      assert BufOk(s.bufs[x], s.disk[x], s.lruCtr);
    }
  }

  lemma PutView(s: State, a: nat, b: Buf, onDisk: Block)
    requires a < |s.disk| && Seen(s.bufs[a := b], s.disk[a := onDisk], a) == Seen(s.bufs, s.disk, a)
    ensures forall x :: 0 <= x < |s.disk| ==> Seen(s.bufs[a := b], s.disk[a := onDisk], x) == Seen(s.bufs, s.disk, x)
  {
  }

  lemma PutSize(m: map<nat, Buf>, a: nat, b: Buf)
    ensures |m[a := b]| == |m| + (if a in m then 0 else 1)
  {
    assert |m| == |m.Keys| && |m[a := b]| == |m[a := b].Keys|;
    assert m[a := b].Keys == m.Keys + {a};
  }

  /** A buffer that stays on the list, or off it. */
  lemma ListKept(bufs: map<nat, Buf>, a: nat, b: Buf, list: seq<nat>)
    requires ListOk(bufs, list) && b.onDirtyList == (a in bufs && bufs[a].onDirtyList)
    ensures ListOk(bufs[a := b], list)
  {
  }

  lemma ListLess(bufs: map<nat, Buf>, a: nat, b: Buf, list: seq<nat>)
    requires ListOk(bufs, list) && a in bufs && !b.onDirtyList
    ensures ListOk(bufs[a := b], Without(list, a))
    ensures |Without(list, a)| == |list| - (if bufs[a].onDirtyList then 1 else 0)
    ensures !bufs[a].onDirtyList ==> Without(list, a) == list
    ensures list == [] ==> Without(list, a) == []
  {
    WithoutIs(list, a);
    if !bufs[a].onDirtyList { WithoutSame(list, a); }
  }

  lemma ListMore(bufs: map<nat, Buf>, a: nat, b: Buf, list: seq<nat>)
    requires ListOk(bufs, list) && (a in bufs ==> !bufs[a].onDirtyList) && b.onDirtyList
    ensures ListOk(bufs[a := b], [a] + list)
  {
  }

  /** The state without the unreferenced buffer at `a`. */
  lemma DropOk(s: State, but: set<nat>, a: nat)
    requires Ok(s, but) && a in s.bufs && s.bufs[a].refctr == 0
    ensures var s' := s.(bufs := s.bufs - {a}, lru := s.lru - {a}, dirtyList := Without(s.dirtyList, a),
            refBlocks := s.refBlocks - 1);
            && Ok(s', but - {a}) && a < |s.disk|
            && (SameView(s, s') <==> !s.bufs[a].uptodate || s.bufs[a].data == s.disk[a])
    ensures !s.bufs[a].dirty ==> Without(s.dirtyList, a) == s.dirtyList
    ensures s.refBlocks > 0
  {
    var s' := s.(bufs := s.bufs - {a}, lru := s.lru - {a}, dirtyList := Without(s.dirtyList, a),
        refBlocks := s.refBlocks - 1);
    WithoutIs(s.dirtyList, a);
    DropSize(s.bufs, a);
    assert BufOk(s.bufs[a], s.disk[a], s.lruCtr);
    if !s.bufs[a].dirty { WithoutSame(s.dirtyList, a); }
    DropView(s, s', a);
    forall x | x in s'.bufs
      ensures x < |s'.disk| && BufOk(s'.bufs[x], s'.disk[x], s'.lruCtr) && (x in but
              || Released(s'.bufs[x], s'.failures))
    {
      assert BufOk(s.bufs[x], s.disk[x], s.lruCtr);
    }
  }

  lemma DropView(s: State, s': State, a: nat)
    requires a in s.bufs && a < |s.disk| && s'.bufs == s.bufs - {a} && s'.disk == s.disk
    ensures SameView(s, s') <==> !s.bufs[a].uptodate || s.bufs[a].data == s.disk[a]
  {
    if SameView(s, s') { assert Seen(s'.bufs, s'.disk, a) == Seen(s.bufs, s.disk, a); }
  }

  lemma DropSize(m: map<nat, Buf>, a: nat)
    requires a in m
    ensures |m - {a}| == |m| - 1
  {
    assert |m - {a}| == |(m - {a}).Keys| && |m| == |m.Keys|;
    assert (m - {a}).Keys == m.Keys - {a};
  }

  function Without(list: seq<nat>, a: nat): seq<nat> {
    if list == [] then [] else if list[0] == a then list[1..] else [list[0]] + Without(list[1..], a)
  }

  lemma {:induction false} WithoutSame(list: seq<nat>, a: nat)
    requires a !in list
    ensures Without(list, a) == list
    decreases |list|
  {
    if list != [] {
      assert list[0] in list;
      WithoutSame(list[1..], a);
    }
  }

  lemma {:induction false} WithoutIs(list: seq<nat>, a: nat)
    requires forall i, j :: 0 <= i < j < |list| ==> list[i] != list[j]
    ensures var r := Without(list, a);
            && (forall x :: x in r <==> x in list && x != a)
            && (forall i, j :: 0 <= i < j < |r| ==> r[i] != r[j])
            && |r| == |list| - (if a in list then 1 else 0)
    decreases |list|
  {
    if list != [] {
      var rest := list[1..];
      assert forall x :: x in list <==> x == list[0] || x in rest;
      if list[0] != a {
        WithoutIs(rest, a);
        var w := Without(rest, a);
        var r := Without(list, a);
        assert r == [list[0]] + w && list[0] !in rest;
        forall i, j | 0 <= i < j < |r|
          ensures r[i] != r[j]
        {
          assert r[j] == w[j - 1] && w[j - 1] in w;
        }
      }
    }
  }

  class Cache {
    const cnt: nat

    /** The device fails neither reads nor writes. */
    const reliable: bool

    /** It refuses every write. */
    const readOnly: bool

    var bufs: map<nat, Buf>
    var lru: set<nat>
    var dirtyList: seq<nat>
    var refBlocks: nat
    var lruCtr: nat
    var dontShake: bool
    var writeBack: nat

    var disk: seq<Block>

    /** Writes to the device, and those that it refused. */
    ghost var tried: nat
    ghost var failures: nat
    ghost var draining: bool

    ghost function S(): State
      reads this
    {
      State(bufs, lru, dirtyList, refBlocks, lruCtr, writeBack, disk, failures, draining)
    }

    ghost predicate Valid()
      reads this
    {
      Ok(S(), {}) && !draining
    }

    /** What a reader sees at an address. */
    ghost function View(a: nat): Block
      requires a < |disk|
      reads this
    {
      Seen(bufs, disk, a)
    }

    constructor (cnt: nat, reliable: bool, readOnly: bool, disk: seq<Block>)
      ensures Valid() && this.cnt == cnt && this.reliable == reliable && this.disk == disk
      ensures this.readOnly == readOnly
      ensures tried == failures == writeBack == 0 && bufs == map[] && lru == {} && dirtyList == [] && !dontShake
      ensures forall a :: 0 <= a < |disk| ==> View(a) == disk[a]
    {
      this.cnt, this.reliable, this.readOnly, this.disk := cnt, reliable, readOnly, disk;
      bufs, lru, dirtyList := map[], {}, [];
      refBlocks, lruCtr, writeBack, dontShake, tried, failures, draining := 0, 0, 0, false, 0, 0, false;
    }

    /** With nothing on the list and no refused write, every block that nobody holds is on the
        disk; and nothing is on the list while write-back is off. */
    lemma AllOnDisk()
      requires Valid() && failures == 0
      ensures writeBack == 0 ==> dirtyList == []
      ensures dirtyList == [] ==> forall a :: 0 <= a < |disk| && (a in bufs ==> bufs[a].refctr == 0) ==>
              View(a) == disk[a]
    {
      if dirtyList == [] {
        forall a | 0 <= a < |disk| && (a in bufs ==> bufs[a].refctr == 0)
          ensures View(a) == disk[a]
        {
          if a in bufs {
            assert a in dirtyList <==> bufs[a].onDirtyList;
            assert BufOk(bufs[a], disk[a], lruCtr) && Released(bufs[a], failures);
          }
        }
      }
    }

    /** A clean buffer with valid data equals the block on the disk. */
    lemma CleanIsOnDisk(a: nat)
      requires Valid() && a in bufs && bufs[a].uptodate && !bufs[a].dirty
      ensures a < |disk| && bufs[a].data == disk[a]
    {
      assert BufOk(bufs[a], disk[a], lruCtr);
    }

    /** `ext4_blocks_set_direct` for one block. */
    method WriteDirect(a: nat, data: Block) returns (r: Errno)
      requires a < |disk|
      modifies this`disk, this`failures, this`tried
      ensures r == EOK || (r == EIO && !reliable)
      ensures r == EOK ==> disk == old(disk)[a := data] && failures == old(failures)
      ensures r != EOK ==> disk == old(disk) && failures == old(failures) + 1
      ensures tried == old(tried) + 1 && (r == EOK && readOnly ==> reliable)
    {
      tried := tried + 1;
      var ok: bool := *;
      if reliable || (ok && !readOnly) {
        disk := disk[a := data];
        r := EOK;
      } else {
        failures := failures + 1;
        r := EIO;
      }
    }

    /** `ext4_block_flush_buf`, but for the callback. */
    method FlushBuf(a: nat, ghost but: set<nat>) returns (r: Errno)
      requires Ok(S(), but) && a in bufs
      modifies this`bufs, this`dirtyList, this`disk, this`failures, this`tried
      ensures Ok(S(), but) && SameView(old(S()), S()) && (r == EOK || (r == EIO && !reliable))
      ensures r == EOK ==> failures == old(failures)
      ensures r == EOK ==> bufs == old(bufs)[a := old(bufs)[a].(dirty := false, onDirtyList := false)]
      ensures r == EOK ==> |dirtyList| == |old(dirtyList)| - (if old(bufs)[a].onDirtyList then 1 else 0)
      ensures r != EOK ==> failures == old(failures) + 1 && bufs == old(bufs) && disk == old(disk)
      ensures tried == old(tried) + if old(bufs)[a].dirty then 1 else 0
      ensures readOnly && !reliable ==> failures - old(failures) == tried - old(tried)
    {
      hide Ok, ListOk, SameView;
      ghost var s := S();
      BufFacts(s, but, a);
      r := EOK;
      if bufs[a].dirty && bufs[a].uptodate {
        r := WriteDirect(a, bufs[a].data);
        if r != EOK {
          RefusedOk(s, but, S());
          return;
        }
        FlushOk(s, but, a);
        dirtyList := Without(dirtyList, a);
        bufs := bufs[a := bufs[a].(dirty := false, onDirtyList := false)];
        assert S() == Put(s, a, bufs[a], dirtyList, s.bufs[a].data, lruCtr);
      }
      assert bufs == s.bufs[a := s.bufs[a].(dirty := false, onDirtyList := false)];
    }

    /** `ext4_bcache_drop_buf` for an unreferenced buffer; should it be dirty, its data is lost. */
    method DropBuf(a: nat, ghost but: set<nat>)
      requires Ok(S(), but) && a in bufs && bufs[a].refctr == 0
      modifies this`bufs, this`lru, this`dirtyList, this`refBlocks
      ensures Ok(S(), but - {a})
      ensures bufs == old(bufs) - {a} && refBlocks == old(refBlocks) - 1 && lru == old(lru) - {a}
      ensures !old(bufs)[a].dirty ==> SameView(old(S()), S())
      ensures a < |disk| && (SameView(old(S()), S()) <==> !old(bufs)[a].uptodate || old(bufs)[a].data == disk[a])
    {
      hide Ok, SameView;
      BufFacts(S(), but, a);
      DropOk(S(), but, a);
      lru := lru - {a};
      if bufs[a].dirty { dirtyList := Without(dirtyList, a); }
      bufs := bufs - {a};
      refBlocks := refBlocks - 1;
    }

    /** `ext4_bcache_find_get`: one more reference to a cached buffer. */
    method FindGet(a: nat) returns (found: bool)
      requires Valid()
      modifies this`bufs, this`lru, this`dirtyList, this`lruCtr
      ensures Valid() && SameView(old(S()), S())
      ensures found <==> a in old(bufs)
      ensures !found ==> S() == old(S())
      ensures found ==> a in bufs && bufs == old(bufs)[a := bufs[a]] && lru == old(lru) - {a}
      ensures found ==> Held(old(bufs)[a], bufs[a]) && (old(bufs)[a].refctr == 0 ==> Newest(bufs, a))
    {
      hide Ok, ListOk, SameView;
      found := a in bufs;
      if found {
        ghost var s := S();
        var buf := bufs[a];
        BufFacts(s, {}, a);
        if buf.refctr == 0 {
          FindFirst(s, a);
          IdsBelow(s, {});
          lruCtr := lruCtr + 1;
          buf := buf.(lruId := lruCtr);
          lru := lru - {a};
          if buf.dirty {
            dirtyList := Without(dirtyList, a);
            buf := buf.(onDirtyList := false);
          }
        } else {
          FindAgain(s, a);
        }
        buf := buf.(refctr := buf.refctr + 1);
        bufs := bufs[a := buf];
        assert S() == Put(s, a, buf, dirtyList, s.disk[a], lruCtr);
      } else {
        SameItself(S());
      }
    }

    /** `ext4_bcache_alloc`: a reference to the buffer of a block, which is a new one without
        valid data if none is cached. */
    method Alloc(a: nat) returns (isNew: bool)
      requires Valid() && a < |disk|
      modifies this`bufs, this`lru, this`dirtyList, this`lruCtr, this`refBlocks
      ensures Valid() && SameView(old(S()), S()) && (isNew <==> a !in old(bufs))
      ensures a in bufs && bufs == old(bufs)[a := bufs[a]] && lru == old(lru) - {a}
      ensures isNew ==> !bufs[a].uptodate && !bufs[a].dirty && !bufs[a].flush && !bufs[a].tmp && bufs[a].refctr == 1
      ensures !isNew ==> Held(old(bufs)[a], bufs[a])
      ensures Refs(old(bufs), a) == 0 ==> Newest(bufs, a)
      ensures refBlocks == old(refBlocks) + (if isNew then 1 else 0)
    {
      hide Ok, ListOk, SameView;
      var found := FindGet(a);
      if found { return false; }
      ghost var s := S();
      lruCtr := lruCtr + 1;
      var content: Block := *;
      var buf := Buf(false, false, false, false, content, lruCtr, 1, false);
      NewOk(s, a, buf);
      IdsBelow(s, {});
      bufs := bufs[a := buf];
      refBlocks := refBlocks + 1;
      assert S() == Put(s, a, buf, dirtyList, s.disk[a], lruCtr);
      isNew := true;
    }

    /** Of `ext4_bcache_free`: a dirty buffer that nobody holds any more goes on the list of those
        to be written, or is written at once. */
    method Settle(a: nat)
      requires Ok(S(), {a}) && a in bufs && bufs[a].refctr == 0 && !bufs[a].onDirtyList
      modifies this`bufs, this`dirtyList, this`disk, this`failures, this`tried
      ensures Ok(S(), {a}) && SameView(old(S()), S())
      ensures failures == old(failures) || (old(bufs)[a].dirty && failures == old(failures) + 1 && !reliable)
      ensures writeBack > 0 && !old(bufs)[a].flush && !old(bufs)[a].tmp ==> disk == old(disk)
      ensures a in bufs && bufs == old(bufs)[a := bufs[a]]
      ensures bufs[a].refctr == 0 && bufs[a].tmp == old(bufs)[a].tmp && bufs[a].data == old(bufs)[a].data
      ensures bufs[a].uptodate == old(bufs)[a].uptodate && bufs[a].lruId == old(bufs)[a].lruId
      ensures bufs[a].flush == (old(bufs)[a].flush && !(old(bufs)[a].dirty && old(bufs)[a].uptodate))
      ensures bufs[a].dirty ==> old(bufs)[a].dirty
      ensures failures == old(failures) && bufs[a].dirty ==> bufs[a].onDirtyList && !bufs[a].tmp
      ensures failures != old(failures) ==> disk == old(disk) && tried > old(tried)
      ensures tried == old(tried) + if WritesAtOnce(old(bufs)[a], writeBack) then 1 else 0
      ensures readOnly && !reliable ==> failures - old(failures) == tried - old(tried)
    {
      hide Ok, ListOk, SameView;
      ghost var s1 := S();
      BufFacts(s1, {a}, a);
      if bufs[a].dirty && bufs[a].uptodate {
        if writeBack > 0 && !bufs[a].flush && !bufs[a].tmp {
          QueueOk(s1, a);
          dirtyList := [a] + dirtyList;
          bufs := bufs[a := bufs[a].(onDirtyList := true)];
          assert S() == Put(s1, a, bufs[a], dirtyList, disk[a], lruCtr);
        } else {
          var r := FlushBuf(a, {a});
          ghost var s2 := S();
          BufFacts(s2, {a}, a);
          FlagOk(s2, {a}, a);
          bufs := bufs[a := bufs[a].(flush := false)];
          assert S() == Put(s2, a, bufs[a], dirtyList, disk[a], lruCtr);
          SameTwice(s1, s2, S());
        }
      } else {
        assert bufs == bufs[a := bufs[a]];
      }
    }

    /** `ext4_bcache_free` (and `ext4_block_set`): gives a reference back. With the last one a
        dirty buffer is settled, and one without valid data or of temporary use is dropped. A write is
        tried just then, for a buffer that is not to wait; and all blocks look as before, unless it is
        refused and the buffer is of temporary use, with data that differ from the disk. */
    method Free(a: nat)
      requires Valid() && a in bufs && bufs[a].refctr > 0
      modifies this`bufs, this`lru, this`dirtyList, this`refBlocks, this`disk, this`failures, this`tried
      ensures Valid() && (failures == old(failures) || !old(bufs)[a].tmp ==> SameView(old(S()), S()))
      ensures var b := old(bufs)[a];
              var now := b.refctr == 1 && b.dirty && (writeBack == 0 || b.flush || b.tmp);
              tried == old(tried) + if now then 1 else 0
      ensures failures == old(failures) || (tried > old(tried) && failures == old(failures) + 1 && !reliable)
      ensures failures != old(failures) ==> old(bufs)[a].dirty && disk == old(disk)
      ensures readOnly && !reliable ==> failures - old(failures) == tried - old(tried)
      ensures |disk| == |old(disk)| && a < |disk|
      ensures SameView(old(S()), S()) <==>
                failures == old(failures) || !old(bufs)[a].tmp || old(bufs)[a].data == old(disk)[a]
      ensures writeBack > 0 && !old(bufs)[a].flush && !old(bufs)[a].tmp ==> disk == old(disk)
      ensures a in bufs ==> bufs[a].refctr == old(bufs)[a].refctr - 1 && bufs[a].uptodate == old(bufs)[a].uptodate
      ensures a in bufs ==> bufs[a].data == old(bufs)[a].data && (bufs[a].dirty ==> old(bufs)[a].dirty)
      ensures a in bufs ==> bufs[a].tmp == old(bufs)[a].tmp && bufs[a].lruId == old(bufs)[a].lruId
      ensures a in bufs ==>
                bufs[a].flush == (old(bufs)[a].flush && !(old(bufs)[a].refctr == 1 && old(bufs)[a].dirty))
      ensures bufs - {a} == old(bufs) - {a}
      ensures a !in bufs <==> old(bufs)[a].refctr == 1 && (!old(bufs)[a].uptodate || old(bufs)[a].tmp)
    {
      hide Ok, ListOk, SameView;
      ghost var s := S();
      BufFacts(s, {}, a);
      if bufs[a].refctr > 1 {
        DecOk(s, a);
        bufs := bufs[a := bufs[a].(refctr := bufs[a].refctr - 1)];
        assert S() == Put(s, a, bufs[a], dirtyList, disk[a], lruCtr);
      } else {
        LastOk(s, a);
        bufs := bufs[a := bufs[a].(refctr := 0)];
        lru := lru + {a};
        assert S() == Put(s, a, bufs[a], dirtyList, disk[a], lruCtr);
        ghost var s1 := S();
        Settle(a);
        ghost var s2 := S();
        SameTwice(s, s1, s2);
        Finish(a);
        SameTwice(s, s2, S());
        SameBack(s, s2, S());
        SameSize(s, s2, S());
      }
    }

    /** The end of `ext4_bcache_free`. */
    method Finish(a: nat)
      requires Ok(S(), {a}) && a in bufs && bufs[a].refctr == 0
      requires failures == 0 && bufs[a].dirty ==> bufs[a].onDirtyList && !bufs[a].tmp
      requires !draining
      modifies this`bufs, this`lru, this`dirtyList, this`refBlocks
      ensures Valid() && (!old(bufs)[a].dirty || !old(bufs)[a].tmp ==> SameView(old(S()), S()))
      ensures bufs == if !old(bufs)[a].uptodate || old(bufs)[a].tmp then old(bufs) - {a} else old(bufs)
      ensures a < |disk|
      ensures SameView(old(S()), S()) <==>
                !old(bufs)[a].tmp || !old(bufs)[a].uptodate || old(bufs)[a].data == disk[a]
    {
      hide Ok, ListOk, SameView;
      ghost var s3 := S();
      BufFacts(s3, {a}, a);
      if !bufs[a].uptodate || bufs[a].tmp {
        DropBuf(a, {a});
        assert {a} - {a} == {};
      } else {
        DoneOk(s3, a);
      }
    }

    /** `ext4_buf_lowest_lru`. */
    method LowestLru() returns (a: nat)
      requires Valid() && lru != {}
      ensures a in bufs && bufs[a].refctr == 0 && Lowest(bufs, a)
    {
      hide ListOk, IdsDiffer, BufsOk;
      a :| a in lru;
      var rest := lru - {a};
      while rest != {}
        invariant a in lru && rest <= lru
        invariant forall x :: x in lru - rest ==> bufs[a].lruId <= bufs[x].lruId
      {
        var x :| x in rest;
        if bufs[x].lruId < bufs[a].lruId { a := x; }
        rest := rest - {x};
      }
      LowestIs(S(), a);
    }

    /** `ext4_block_cache_shake`: while the cache is full, drops the buffer that was used least
        recently, written first if it is dirty. It stops when all buffers are in use. */
    method Shake() returns (r: Errno)
      requires Valid()
      modifies this`bufs, this`lru, this`dirtyList, this`refBlocks, this`disk, this`failures, this`tried, this`dontShake
      ensures Valid() && SameView(old(S()), S()) && dontShake == old(dontShake)
      ensures dontShake ==> r == EOK && S() == old(S())
      ensures (r == EOK && failures == old(failures)) || (r == EIO && !reliable && failures == old(failures) + 1)
      ensures old(lru) == {} ==> r == EOK && S() == old(S()) && tried == old(tried)
      ensures r == EOK && !dontShake ==> lru == {} || refBlocks < cnt
      ensures Evicted(old(bufs), bufs) && (bufs == old(bufs) || (refBlocks + 1 >= cnt && old(refBlocks) >= cnt))
    {
      hide Ok, SameView, Evicted, Lowest;
      ghost var s := S();
      SameItself(s);
      NoneEvicted(bufs);
      if dontShake { return EOK; }
      dontShake := true;
      r := EOK;
      while lru != {} && cnt <= refBlocks
        invariant Valid() && SameView(s, S()) && r == EOK && failures == s.failures && dontShake
        invariant Evicted(s.bufs, bufs) && refBlocks <= s.refBlocks
        invariant bufs == s.bufs || (refBlocks + 1 >= cnt && s.refBlocks >= cnt)
        invariant s.lru == {} ==> S() == s && tried == old(tried)
        decreases refBlocks
      {
        ghost var t := S();
        var a := LowestLru();
        BufFacts(t, {}, a);
        if bufs[a].dirty {
          r := FlushBuf(a, {});
          SameTwice(s, t, S());
          if r != EOK { break; }
        }
        ghost var u := S();
        DropBuf(a, {});
        SameTwice(s, u, S());
        assert {} - {a} == {} && bufs == t.bufs - {a};
        OneEvicted(s.bufs, t, a);
      }
      dontShake := false;
    }

    /** Within its limit, or all buffers are in use. */
    ghost predicate Bounded()
      reads this
    {
      refBlocks <= cnt || lru == {}
    }

    /** `ext4_block_get_noread`: a reference to the buffer of a block, whatever is in it. */
    method GetNoread(a: nat) returns (r: Errno)
      requires Valid()
      modifies this`bufs, this`lru, this`dirtyList, this`lruCtr, this`refBlocks, this`disk, this`failures, this`tried,
          this`dontShake
      ensures Valid() && SameView(old(S()), S()) && dontShake == old(dontShake)
      ensures r == ENXIO <==> a >= |old(disk)|
      ensures r == ENXIO ==> S() == old(S())
      ensures failures == old(failures) + (if r == EIO then 1 else 0) && (r == EIO ==> !reliable)
      ensures old(lru) == {} ==> disk == old(disk) && tried == old(tried) && r != EIO
      ensures r == EOK ==> a in bufs && bufs[a].refctr == Refs(old(bufs), a) + 1
      ensures r != EOK ==> Refs(bufs, a) == Refs(old(bufs), a)
      ensures r == EOK && a !in old(bufs) && old(lru) == {} ==> !bufs[a].flush && !bufs[a].tmp
      ensures r == EOK && !dontShake ==> Bounded()
      ensures OthersHeld(old(bufs), bufs, a) && LeastUsed(old(bufs), bufs, a, cnt)
      ensures Stamped(old(bufs), bufs, a, r == EOK)
    {
      hide Ok, SameView, Evicted, OthersHeld, LeastUsed, Newest, Stamped, Held;
      ghost var s := S();
      SameItself(s);
      if a >= |disk| {
        NoneEvicted(bufs);
        EvictedHeld(bufs, bufs, a, cnt);
        return ENXIO;
      }
      CountIs(s);
      r := Shake();
      ghost var t := S();
      EvictedHeld(s.bufs, bufs, a, cnt);
      SameDisk(s, t);
      if r != EOK { return; }
      var isNew := Alloc(a);
      SameTwice(s, t, S());
      OneGot(s.bufs, t.bufs, bufs, a, cnt);
      if dontShake { } else if t.lru == {} { assert lru == {}; }
    }

    /** `ext4_block_get`: as above, with the data of the block. */
    method Get(a: nat) returns (r: Errno, data: Block)
      requires Valid()
      modifies this`bufs, this`lru, this`dirtyList, this`lruCtr, this`refBlocks, this`disk, this`failures, this`tried,
          this`dontShake
      ensures Valid() && SameView(old(S()), S()) && dontShake == old(dontShake)
      ensures r == ENXIO <==> a >= |old(disk)|
      ensures failures == old(failures) || (r == EIO && failures == old(failures) + 1)
      ensures reliable ==> r != EIO
      ensures r == EOK ==> a in bufs && bufs[a].refctr == Refs(old(bufs), a) + 1 && bufs[a].uptodate
      ensures r != EOK ==> Refs(bufs, a) == Refs(old(bufs), a)
      ensures r == EOK && a !in old(bufs) && old(lru) == {} ==> disk == old(disk) && !bufs[a].flush && !bufs[a].tmp
      ensures r == EOK ==> a < |disk| && data == bufs[a].data == View(a) == old(Seen(bufs, disk, a))
      ensures r == EOK && !dontShake ==> Bounded()
      ensures OthersHeld(old(bufs), bufs, a) && LeastUsed(old(bufs), bufs, a, cnt)
      ensures Stamped(old(bufs), bufs, a, r == EOK)
    {
      hide Ok, SameView, Held, OthersHeld, LeastUsed, Stamped;
      ghost var s := S();
      data := [];
      r := GetNoread(a);
      if r != EOK { return; }
      ghost var t := S();
      SameDisk(s, t);
      BufFacts(t, {}, a);
      if bufs[a].uptodate {
        SameAt(s, t, a);
        return EOK, bufs[a].data;
      }
      var ok: bool := *;
      if !(ok || reliable) {
        Free(a);
        SameTwice(s, t, S());
        OthersLeft(s.bufs, t.bufs, bufs, a, cnt);
        StampLost(s.bufs, t.bufs, bufs, a);
        return EIO, [];
      }
      ReadOk(t, a);
      bufs := bufs[a := bufs[a].(uptodate := true, data := disk[a])];
      assert S() == Put(t, a, bufs[a], dirtyList, disk[a], lruCtr);
      SameTwice(s, t, S());
      OthersLeft(s.bufs, t.bufs, bufs, a, cnt);
      StampStays(s.bufs, t.bufs, bufs, a);
      SameAt(s, S(), a);
      data := bufs[a].data;
    }

    /** What one who holds a block does to change it: new data, then `ext4_bcache_set_dirty`. */
    method Modify(a: nat, data: Block)
      requires Valid() && a in bufs && bufs[a].refctr > 0
      modifies this`bufs
      ensures Valid() && a < |disk| && View(a) == data
      ensures forall x :: 0 <= x < |disk| && x != a ==> View(x) == old(Seen(bufs, disk, x))
      ensures bufs == old(bufs)[a := old(bufs)[a].(data := data).SetDirty()]
    {
      hide Ok, ListOk;
      BufFacts(S(), {}, a);
      ghost var s := S();
      ModifyOk(s, a, data);
      bufs := bufs[a := bufs[a].(data := data).SetDirty()];
      assert S() == Put(s, a, bufs[a], dirtyList, disk[a], lruCtr);
    }

    /** What the journal does to a buffer of its own: sets BC_TMP, so that it is dropped when it is given
        back. */
    method SetTemporary(a: nat)
      requires Valid() && a in bufs && bufs[a].refctr > 0
      modifies this`bufs
      ensures Valid() && SameView(old(S()), S()) && bufs == old(bufs)[a := old(bufs)[a].(tmp := true)]
    {
      hide Ok, ListOk, SameView;
      ghost var s := S();
      PutFacts(s, {}, a);
      bufs := bufs[a := bufs[a].(tmp := true)];
      ListKept(s.bufs, a, bufs[a], dirtyList);
      PutOk(s, {}, a, bufs[a], dirtyList, disk[a], lruCtr);
      assert S() == Put(s, a, bufs[a], dirtyList, disk[a], lruCtr);
    }

    /** `ext4_bcache_invalidate_buf`: the block reads as it is on the disk. */
    method InvalidateBuf(a: nat)
      requires Valid() && a in bufs
      modifies this`bufs, this`dirtyList
      ensures Valid() && bufs == old(bufs)[a := Invalid(old(bufs)[a])]
    {
      hide Ok, ListOk, SameView;
      ghost var s := S();
      BufFacts(s, {}, a);
      InvalidOk(s, a);
      var buf := bufs[a];
      if buf.dirty {
        dirtyList := Without(dirtyList, a);
        buf := buf.(onDirtyList := false);
      }
      bufs := bufs[a := buf.ClearDirty()];
      assert S() == Put(s, a, bufs[a], dirtyList, disk[a], lruCtr);
    }

    /** The next cached address. */
    method NextLba(a: nat) returns (n: Option<nat>)
      ensures n.None? <==> forall x :: x in bufs ==> x <= a
      ensures n.Some? ==> n.value in bufs && a < n.value && forall x :: x in bufs && a < x ==> n.value <= x
    {
      n := None;
      var rest := bufs.Keys;
      while rest != {}
        invariant rest <= bufs.Keys
        invariant n.None? ==> forall x :: x in bufs && x !in rest ==> x <= a
        invariant n.Some? ==> n.value in bufs && a < n.value && forall x :: x in bufs && x !in rest && a < x ==>
                n.value <= x
      {
        var x :| x in rest;
        if a < x && (n.None? || x < n.value) { n := Some(x); }
        rest := rest - {x};
      }
    }

    /** `ext4_bcache_invalidate_lba`: the buffers of a range read as the disk, but only if the
        first block of the range is cached; else nothing happens. */
    method InvalidateLba(from: nat, n: nat)
      requires Valid()
      modifies this`bufs, this`dirtyList
      ensures Valid()
      ensures from !in old(bufs) ==> S() == old(S())
      ensures from in old(bufs) ==> Cleared(old(bufs), bufs, from, RangeEnd(from, n))
    {
      hide Ok, ListOk, Cleared, Invalid;
      if from !in bufs { return; }
      var end: nat := RangeEnd(from, n) - 1;
      ghost var was := bufs;
      var cur := Some(from);
      ghost var upTo: nat := from;
      NoneCleared(was, from);
      while cur.Some?
        invariant Valid() && Cleared(was, bufs, from, upTo) && from <= upTo <= end + 1
        invariant cur.Some? ==> cur.value in bufs && from <= cur.value
        invariant cur.Some? ==> upTo <= cur.value && forall x :: x in bufs && upTo <= x ==> cur.value <= x
        invariant cur.None? ==> upTo == end + 1
        decreases if cur.Some? then end + 2 - upTo else 0
      {
        if cur.value > end {
          ClearedOn(was, bufs, from, upTo, end + 1);
          upTo := end + 1;
          break;
        }
        ClearedOne(was, bufs, from, upTo, cur.value);
        InvalidateBuf(cur.value);
        upTo := cur.value + 1;
        cur := NextLba(cur.value);
        if cur.None? {
          ClearedOn(was, bufs, from, upTo, end + 1);
          upTo := end + 1;
        }
      }
    }

    /** `ext4_block_flush_lba`. */
    method FlushLba(a: nat) returns (r: Errno)
      requires Valid()
      modifies this`bufs, this`lru, this`dirtyList, this`lruCtr, this`refBlocks, this`disk, this`failures, this`tried
      ensures Valid() && SameView(old(S()), S())
      ensures r == EOK ==> failures == old(failures) && (a in bufs ==> !bufs[a].dirty)
      ensures r == EOK && a < |disk| ==> View(a) == disk[a]
      ensures r != EOK ==> failures > old(failures) && r == EIO && !reliable
      ensures Refs(bufs, a) == Refs(old(bufs), a)
      ensures bufs - {a} == old(bufs) - {a} && (a in bufs ==> a in old(bufs) && bufs[a].tmp == old(bufs)[a].tmp)
      ensures a in bufs ==> Stamped(old(bufs), bufs, a, true)
    {
      hide Ok, SameView, Held, Stamped, Newest;
      ghost var s := S();
      r := EOK;
      var found := FindGet(a);
      if found {
        ghost var t := S();
        TakenHold(s.bufs, s.bufs, bufs, a);
        PutFacts(s, {}, a);
        r := FlushBuf(a, {});
        ghost var u := S();
        SameTwice(s, t, u);
        Free(a);
        SameTwice(s, u, S());
        if a in bufs {
          BufFacts(S(), {}, a);
          StampStays(s.bufs, t.bufs, bufs, a);
        }
      }
    }

    /** `ext4_block_cache_flush`. */
    method CacheFlush() returns (r: Errno)
      requires Ok(S(), {})
      modifies this`bufs, this`dirtyList, this`disk, this`failures, this`tried
      ensures Ok(S(), {}) && SameView(old(S()), S())
      ensures r == EOK ==> dirtyList == [] && failures == old(failures)
      ensures r != EOK ==> failures == old(failures) + 1 && r == EIO && !reliable
      ensures Cleaned(old(bufs), bufs)
    {
      hide Ok, SameView;
      ghost var s := S();
      SameItself(s);
      while dirtyList != []
        invariant Ok(S(), {}) && SameView(s, S()) && failures == s.failures && Cleaned(s.bufs, bufs)
        decreases |dirtyList|
      {
        ghost var t := S();
        HeadIn(t);
        r := FlushBuf(dirtyList[0], {});
        SameTwice(s, t, S());
        if r != EOK { return; }
      }
      r := EOK;
    }

    /** `ext4_block_cache_write_back`: turned on and off in pairs; when it goes off, all that is
        on the list is written. */
    method WriteBack(on: bool) returns (r: Errno)
      requires Valid()
      modifies this`bufs, this`dirtyList, this`disk, this`failures, this`tried, this`writeBack, this`draining
      ensures Valid() && SameView(old(S()), S()) && Cleaned(old(bufs), bufs)
      ensures writeBack == if on then old(writeBack) + 1 else if old(writeBack) > 0 then old(writeBack) - 1 else 0
      ensures r == EOK ==> failures == old(failures) && (writeBack == 0 ==> dirtyList == [])
      ensures r != EOK ==> failures == old(failures) + 1 && r == EIO && !reliable
      ensures on ==> S() == old(S()).(writeBack := writeBack)
    {
      hide Ok, SameView;
      ghost var s := S();
      SameItself(s);
      if on { writeBack := writeBack + 1; }
      if !on && writeBack > 0 { writeBack := writeBack - 1; }
      draining := true;
      Drained(s, S());
      ghost var t := S();
      r := EOK;
      if writeBack == 0 {
        r := CacheFlush();
      }
      ghost var u := S();
      SameTwice(s, t, u);
      draining := false;
      DrainedWell(u, S());
      SameTwice(s, u, S());
    }
  }

  /** The same buffer with one reference more. With the first it gets a new LRU id and leaves the list. */
  predicate Held(b: Buf, b': Buf) {
    if b.refctr == 0 then b' == b.(refctr := 1, lruId := b'.lruId, onDirtyList := false)
    else b' == b.(refctr := b.refctr + 1)
  }

  /** Its LRU id is above those of all other buffers. */
  ghost predicate Newest(bufs: map<nat, Buf>, a: nat) {
    a in bufs && forall x :: x in bufs && x != a ==> bufs[x].lruId < bufs[a].lruId
  }

  lemma IdsBelow(s: State, but: set<nat>)
    requires Ok(s, but)
    ensures forall x :: x in s.bufs ==> s.bufs[x].lruId <= s.lruCtr
  {
    forall x | x in s.bufs
      ensures s.bufs[x].lruId <= s.lruCtr
    {
      assert BufOk(s.bufs[x], s.disk[x], s.lruCtr);
    }
  }

  /** The place of block `a` in the order of use after a get of it. */
  ghost predicate Stamped(was: map<nat, Buf>, now: map<nat, Buf>, a: nat, ok: bool) {
    if ok && Refs(was, a) == 0 then Newest(now, a)
    else a in now ==> a in was && now[a].lruId == was[a].lruId
  }

  lemma TakenHold(from: map<nat, Buf>, mid: map<nat, Buf>, to: map<nat, Buf>, a: nat)
    requires (a in mid ==> a in from && mid[a] == from[a]) && Refs(mid, a) == Refs(from, a) && a in to
    requires (a in mid ==> Held(mid[a], to[a])) && (Refs(mid, a) == 0 ==> Newest(to, a))
    ensures Stamped(from, to, a, true)
    ensures a in mid ==> to[a].refctr == mid[a].refctr + 1 && to[a].tmp == mid[a].tmp
  {
    hide Newest;
  }

  /** A buffer evicted or not, and then a reference more to block `a`. */
  lemma OneGot(from: map<nat, Buf>, mid: map<nat, Buf>, to: map<nat, Buf>, a: nat, cnt: nat)
    requires OthersHeld(from, mid, a) && LeastUsed(from, mid, a, cnt) && a in to && to == mid[a := to[a]]
    requires (a in mid ==> a in from && mid[a] == from[a]) && Refs(mid, a) == Refs(from, a)
    requires (a in mid ==> Held(mid[a], to[a])) && (Refs(mid, a) == 0 ==> Newest(to, a))
    requires a !in mid ==> !to[a].tmp
    ensures OthersHeld(from, to, a) && LeastUsed(from, to, a, cnt) && Stamped(from, to, a, true)
    ensures a in mid ==> to[a].refctr == mid[a].refctr + 1
  {
    hide OthersHeld, LeastUsed, Newest, Stamped;
    assert to - {a} == mid - {a};
    TakenHold(from, mid, to, a);
    OthersLeft(from, mid, to, a, cnt);
  }

  lemma StampStays(from: map<nat, Buf>, mid: map<nat, Buf>, to: map<nat, Buf>, a: nat)
    requires Stamped(from, mid, a, true) && to - {a} == mid - {a} && a in to && a in mid && to[a].lruId == mid[a].lruId
    ensures Stamped(from, to, a, true)
  {
    forall x | x in to && x != a
      ensures x in mid && to[x] == mid[x]
    {
      assert x in to - {a} && (mid - {a})[x] == (to - {a})[x];
    }
  }

  lemma StampLost(from: map<nat, Buf>, mid: map<nat, Buf>, to: map<nat, Buf>, a: nat)
    requires Stamped(from, mid, a, true) && a in mid && mid[a].refctr == Refs(from, a) + 1
    requires a in to ==> to[a].lruId == mid[a].lruId && mid[a].refctr > 1
    ensures Stamped(from, to, a, false)
  {
  }

  lemma SameItself(s: State)
    ensures SameView(s, s)
  {
  }

  lemma SameSize(s: State, t: State, u: State)
    requires SameView(s, t) && u.disk == t.disk
    ensures |u.disk| == |s.disk|
  {
  }

  lemma SameBack(s: State, t: State, u: State)
    ensures SameView(s, t) && SameView(s, u) ==> SameView(t, u)
  {
  }

  lemma SameTwice(s: State, t: State, u: State)
    ensures SameView(s, t) && SameView(t, u) ==> SameView(s, u)
  {
  }

  lemma BufFacts(s: State, but: set<nat>, a: nat)
    requires Ok(s, but) && a in s.bufs
    ensures a < |s.disk| && BufOk(s.bufs[a], s.disk[a], s.lruCtr) && SameView(s, s)
    ensures s.bufs[a].onDirtyList <==> a in s.dirtyList
    ensures a in s.lru <==> s.bufs[a].refctr == 0
  {
  }

  /** What `PutOk` asks for, of a buffer that is there. */
  lemma PutFacts(s: State, but: set<nat>, a: nat)
    requires Ok(s, but) && a in s.bufs
    ensures a < |s.disk| && BufOk(s.bufs[a], s.disk[a], s.lruCtr) && (a in but || Released(s.bufs[a], s.failures))
    ensures ListOk(s.bufs, s.dirtyList)
    ensures s.failures == 0 && s.writeBack == 0 && !s.draining ==> s.dirtyList == []
    ensures a in s.lru <==> s.bufs[a].refctr == 0
    ensures a in s.lru ==> s.lru + {a} == s.lru
    ensures a !in s.lru ==> s.lru - {a} == s.lru
  {
    hide ListOk, IdsDiffer;
  }

  lemma RefusedOk(s: State, but: set<nat>, s': State)
    requires Ok(s, but) && s' == s.(failures := s.failures + 1)
    ensures Ok(s', but) && SameView(s, s')
  {
    hide ListOk, IdsDiffer;
    forall a | a in s'.bufs
      ensures a < |s'.disk| && BufOk(s'.bufs[a], s'.disk[a], s'.lruCtr) && (a in but
              || Released(s'.bufs[a], s'.failures))
    {
      assert BufOk(s.bufs[a], s.disk[a], s.lruCtr);
    }
  }

  lemma FlushOk(s: State, but: set<nat>, a: nat)
    requires Ok(s, but) && a in s.bufs && s.bufs[a].dirty
    ensures var b := s.bufs[a].(dirty := false, onDirtyList := false);
            && a < |s.disk| && Ok(Put(s, a, b, Without(s.dirtyList, a), b.data, s.lruCtr), but)
            && SameView(s, Put(s, a, b, Without(s.dirtyList, a), b.data, s.lruCtr))
            && |Without(s.dirtyList, a)| == |s.dirtyList| - (if s.bufs[a].onDirtyList then 1 else 0)
            && (if b.refctr == 0 then s.lru + {a} else s.lru - {a}) == s.lru
  {
    PutFacts(s, but, a);
    hide Ok, ListOk, IdsDiffer, SameView;
    var b := s.bufs[a].(dirty := false, onDirtyList := false);
    ListLess(s.bufs, a, b, s.dirtyList);
    PutOk(s, but, a, b, Without(s.dirtyList, a), b.data, s.lruCtr);
  }

  lemma FindFirst(s: State, a: nat)
    requires Ok(s, {}) && a in s.bufs && s.bufs[a].refctr == 0
    ensures a < |s.disk|
    ensures var b := s.bufs[a].(refctr := 1, lruId := s.lruCtr + 1, onDirtyList := false);
            var list := if s.bufs[a].dirty then Without(s.dirtyList, a) else s.dirtyList;
            var s' := Put(s, a, b, list, s.disk[a], s.lruCtr + 1);
            Ok(s', {}) && SameView(s, s') && s'.lru == s.lru - {a} && (!s.bufs[a].dirty ==> !s.bufs[a].onDirtyList)
  {
    PutFacts(s, {}, a);
    hide Ok, ListOk, IdsDiffer, SameView;
    var b := s.bufs[a].(refctr := 1, lruId := s.lruCtr + 1, onDirtyList := false);
    if s.bufs[a].dirty {
      ListLess(s.bufs, a, b, s.dirtyList);
      PutOk(s, {}, a, b, Without(s.dirtyList, a), s.disk[a], s.lruCtr + 1);
    } else {
      ListKept(s.bufs, a, b, s.dirtyList);
      PutOk(s, {}, a, b, s.dirtyList, s.disk[a], s.lruCtr + 1);
    }
  }

  lemma FindAgain(s: State, a: nat)
    requires Ok(s, {}) && a in s.bufs && s.bufs[a].refctr > 0
    ensures a < |s.disk|
    ensures var b := s.bufs[a].(refctr := s.bufs[a].refctr + 1);
            var s' := Put(s, a, b, s.dirtyList, s.disk[a], s.lruCtr);
            Ok(s', {}) && SameView(s, s') && s'.lru == s.lru && a !in s.lru
  {
    PutFacts(s, {}, a);
    hide Ok, ListOk, IdsDiffer, SameView;
    var b := s.bufs[a].(refctr := s.bufs[a].refctr + 1);
    ListKept(s.bufs, a, b, s.dirtyList);
    PutOk(s, {}, a, b, s.dirtyList, s.disk[a], s.lruCtr);
  }

  lemma NewOk(s: State, a: nat, b: Buf)
    requires Ok(s, {}) && a !in s.bufs && a < |s.disk|
    requires !b.uptodate && !b.dirty && !b.onDirtyList && b.refctr == 1 && b.lruId == s.lruCtr + 1
    ensures var s' := Put(s, a, b, s.dirtyList, s.disk[a], s.lruCtr + 1);
            Ok(s', {}) && SameView(s, s') && s'.lru == s.lru
  {
    hide ListOk, IdsDiffer;
    ListKept(s.bufs, a, b, s.dirtyList);
    PutOk(s, {}, a, b, s.dirtyList, s.disk[a], s.lruCtr + 1);
  }

  lemma DecOk(s: State, a: nat)
    requires Ok(s, {}) && a in s.bufs && s.bufs[a].refctr > 1
    ensures a < |s.disk|
    ensures var b := s.bufs[a].(refctr := s.bufs[a].refctr - 1);
            var s' := Put(s, a, b, s.dirtyList, s.disk[a], s.lruCtr);
            Ok(s', {}) && SameView(s, s') && s'.lru == s.lru
  {
    PutFacts(s, {}, a);
    hide Ok, ListOk, IdsDiffer, SameView;
    var b := s.bufs[a].(refctr := s.bufs[a].refctr - 1);
    ListKept(s.bufs, a, b, s.dirtyList);
    PutOk(s, {}, a, b, s.dirtyList, s.disk[a], s.lruCtr);
  }

  lemma MoreBut(s: State, but: set<nat>, but': set<nat>)
    requires Ok(s, but) && but <= but'
    ensures Ok(s, but')
  {
  }

  lemma LastOk(s: State, a: nat)
    requires Ok(s, {}) && a in s.bufs && s.bufs[a].refctr == 1
    ensures a < |s.disk|
    ensures var b := s.bufs[a].(refctr := 0);
            var s' := Put(s, a, b, s.dirtyList, s.disk[a], s.lruCtr);
            Ok(s', {a}) && SameView(s, s') && !b.onDirtyList
  {
    MoreBut(s, {}, {a});
    PutFacts(s, {a}, a);
    hide Ok, ListOk, IdsDiffer, SameView;
    var b := s.bufs[a].(refctr := 0);
    ListKept(s.bufs, a, b, s.dirtyList);
    PutOk(s, {a}, a, b, s.dirtyList, s.disk[a], s.lruCtr);
  }

  lemma QueueOk(s: State, a: nat)
    requires Ok(s, {a}) && a in s.bufs && s.bufs[a].refctr == 0 && s.bufs[a].dirty && !s.bufs[a].onDirtyList
    requires s.writeBack > 0
    ensures a < |s.disk|
    ensures var b := s.bufs[a].(onDirtyList := true);
            var s' := Put(s, a, b, [a] + s.dirtyList, s.disk[a], s.lruCtr);
            Ok(s', {a}) && SameView(s, s') && s'.lru == s.lru
  {
    PutFacts(s, {a}, a);
    hide Ok, ListOk, IdsDiffer, SameView;
    var b := s.bufs[a].(onDirtyList := true);
    ListMore(s.bufs, a, b, s.dirtyList);
    PutOk(s, {a}, a, b, [a] + s.dirtyList, s.disk[a], s.lruCtr);
  }

  lemma FlagOk(s: State, but: set<nat>, a: nat)
    requires Ok(s, but) && a in s.bufs
    ensures a < |s.disk|
    ensures var b := s.bufs[a].(flush := false);
            var s' := Put(s, a, b, s.dirtyList, s.disk[a], s.lruCtr);
            Ok(s', but) && SameView(s, s') && s'.lru == s.lru
  {
    PutFacts(s, but, a);
    hide Ok, ListOk, IdsDiffer, SameView;
    var b := s.bufs[a].(flush := false);
    ListKept(s.bufs, a, b, s.dirtyList);
    PutOk(s, but, a, b, s.dirtyList, s.disk[a], s.lruCtr);
  }

  /** The buffer is released for good. */
  lemma DoneOk(s: State, a: nat)
    requires Ok(s, {a}) && a in s.bufs && Released(s.bufs[a], s.failures)
    ensures Ok(s, {})
  {
  }

  /** The references to a block. */
  function Refs(bufs: map<nat, Buf>, a: nat): nat {
    if a in bufs then bufs[a].refctr else 0
  }

  ghost predicate Lowest(bufs: map<nat, Buf>, a: nat) {
    a in bufs && forall x :: x in bufs && x != a && bufs[x].refctr == 0 ==> bufs[a].lruId < bufs[x].lruId
  }

  lemma LowestIs(s: State, a: nat)
    requires Ok(s, {}) && a in s.lru && forall x :: x in s.lru ==> x in s.bufs && s.bufs[a].lruId <= s.bufs[x].lruId
    ensures Lowest(s.bufs, a)
  {
  }

  /** Buffers that are in use stay as they are, and an evicted one was used less recently than
      any other that stays. */
  ghost predicate Evicted(from: map<nat, Buf>, to: map<nat, Buf>) {
    && (forall a :: a in to ==> a in from && to[a] == from[a])
    && (forall a :: a in from && a !in to ==> from[a].refctr == 0)
    && (forall a, b :: a in from && a !in to && b in to && to[b].refctr == 0 ==> from[a].lruId < to[b].lruId)
  }

  lemma CountIs(s: State)
    requires Ok(s, {})
    ensures s.refBlocks == |s.bufs|
  {
  }

  lemma NoneEvicted(bufs: map<nat, Buf>)
    ensures Evicted(bufs, bufs)
  {
  }

  lemma OneEvicted(from: map<nat, Buf>, t: State, a: nat)
    requires Evicted(from, t.bufs) && Lowest(t.bufs, a) && t.bufs[a].refctr == 0
    ensures Evicted(from, t.bufs - {a})
  {
  }

  /** Of the other buffers, some that nobody holds are dropped; the rest are untouched. */
  ghost predicate OthersHeld(from: map<nat, Buf>, to: map<nat, Buf>, a: nat) {
    && (forall x :: x in from && x != a && x !in to ==> from[x].refctr == 0)
    && (forall x :: x in to && x != a ==> x in from && to[x] == from[x])
    && (a in to && to[a].tmp ==> a in from && from[a].tmp)
    && (a in from && from[a].tmp && from[a].refctr > 0 ==> a in to && to[a].tmp)
  }

  /** A buffer of another block is evicted just from a full cache, and any that nobody holds and that
      stays was used after it. */
  ghost predicate LeastUsed(from: map<nat, Buf>, to: map<nat, Buf>, a: nat, cnt: nat) {
    forall x :: x in from && x != a && x !in to ==>
      && |from| >= cnt
      && forall y :: y in to && y != a && to[y].refctr == 0 ==> y in from && from[x].lruId < from[y].lruId
  }

  lemma EvictedHeld(from: map<nat, Buf>, to: map<nat, Buf>, a: nat, cnt: nat)
    requires Evicted(from, to) && (to == from || |from| >= cnt)
    ensures OthersHeld(from, to, a) && Refs(to, a) == Refs(from, a) && LeastUsed(from, to, a, cnt)
    ensures Stamped(from, to, a, false) && (a in to ==> a in from && to[a] == from[a])
  {
  }

  lemma OthersLeft(from: map<nat, Buf>, mid: map<nat, Buf>, to: map<nat, Buf>, a: nat, cnt: nat)
    requires OthersHeld(from, mid, a) && LeastUsed(from, mid, a, cnt) && to - {a} == mid - {a}
    requires a in to && to[a].tmp ==> a in mid && mid[a].tmp
    requires a in from && from[a].tmp && from[a].refctr > 0 && a in mid && mid[a].tmp ==> a in to && to[a].tmp
    ensures OthersHeld(from, to, a) && LeastUsed(from, to, a, cnt)
  {
    forall x | x != a
      ensures x in mid <==> x in to
      ensures x in mid ==> to[x] == mid[x]
    {
      assert x in mid - {a} <==> x in to - {a};
      if x in mid { assert (mid - {a})[x] == (to - {a})[x]; }
    }
  }

  lemma SameDisk(s: State, t: State)
    requires SameView(s, t)
    ensures |t.disk| == |s.disk|
  {
  }

  lemma SameAt(s: State, t: State, a: nat)
    requires SameView(s, t) && a < |t.disk|
    ensures a < |s.disk| && Seen(t.bufs, t.disk, a) == Seen(s.bufs, s.disk, a)
  {
  }

  lemma ReadOk(s: State, a: nat)
    requires Ok(s, {}) && a in s.bufs && s.bufs[a].refctr > 0 && !s.bufs[a].uptodate
    ensures a < |s.disk|
    ensures var b := s.bufs[a].(uptodate := true, data := s.disk[a]);
            var s' := Put(s, a, b, s.dirtyList, s.disk[a], s.lruCtr);
            Ok(s', {}) && SameView(s, s') && s'.lru == s.lru
  {
    PutFacts(s, {}, a);
    hide Ok, ListOk, IdsDiffer, SameView;
    var b := s.bufs[a].(uptodate := true, data := s.disk[a]);
    ListKept(s.bufs, a, b, s.dirtyList);
    PutOk(s, {}, a, b, s.dirtyList, s.disk[a], s.lruCtr);
  }

  lemma ModifyOk(s: State, a: nat, data: Block)
    requires Ok(s, {}) && a in s.bufs && s.bufs[a].refctr > 0
    ensures a < |s.disk|
    ensures var b := s.bufs[a].(data := data).SetDirty();
            var s' := Put(s, a, b, s.dirtyList, s.disk[a], s.lruCtr);
            Ok(s', {}) && s'.lru == s.lru
  {
    PutFacts(s, {}, a);
    hide Ok, ListOk, IdsDiffer, SameView;
    var b := s.bufs[a].(data := data).SetDirty();
    ListKept(s.bufs, a, b, s.dirtyList);
    PutOk(s, {}, a, b, s.dirtyList, s.disk[a], s.lruCtr);
  }

  function Invalid(b: Buf): Buf {
    b.(uptodate := false, dirty := false, onDirtyList := false)
  }

  lemma InvalidOk(s: State, a: nat)
    requires Ok(s, {}) && a in s.bufs
    ensures a < |s.disk|
    ensures var list := if s.bufs[a].dirty then Without(s.dirtyList, a) else s.dirtyList;
            var s' := Put(s, a, Invalid(s.bufs[a]), list, s.disk[a], s.lruCtr);
            Ok(s', {}) && s'.lru == s.lru && (!s.bufs[a].dirty ==> !s.bufs[a].onDirtyList)
  {
    PutFacts(s, {}, a);
    hide Ok, ListOk, IdsDiffer, SameView;
    var b := Invalid(s.bufs[a]);
    if s.bufs[a].dirty {
      ListLess(s.bufs, a, b, s.dirtyList);
      PutOk(s, {}, a, b, Without(s.dirtyList, a), s.disk[a], s.lruCtr);
    } else {
      ListKept(s.bufs, a, b, s.dirtyList);
      PutOk(s, {}, a, b, s.dirtyList, s.disk[a], s.lruCtr);
    }
  }

  /** The end of a range, as `ext4_bcache_invalidate_lba` computes it: an empty range at 0 wraps
      around to all addresses. */
  function RangeEnd(from: nat, n: nat): (end: nat)
    ensures end > 0 && end >= from
  {
    if from + n == 0 then 0x1_0000_0000_0000_0000 else from + n
  }

  /** Just the buffers from `lo` on, and before `hi`, are invalid. */
  ghost predicate Cleared(from: map<nat, Buf>, to: map<nat, Buf>, lo: nat, hi: nat) {
    && to.Keys == from.Keys
    && forall a :: a in from ==> to[a] == if lo <= a < hi then Invalid(from[a]) else from[a]
  }

  lemma NoneCleared(bufs: map<nat, Buf>, lo: nat)
    ensures Cleared(bufs, bufs, lo, lo)
  {
  }

  lemma ClearedOne(from: map<nat, Buf>, to: map<nat, Buf>, lo: nat, hi: nat, a: nat)
    requires Cleared(from, to, lo, hi) && a in to && lo <= hi <= a && forall x :: x in to && hi <= x ==> a <= x
    ensures Cleared(from, to[a := Invalid(to[a])], lo, a + 1)
  {
    hide Invalid;
  }

  lemma ClearedOn(from: map<nat, Buf>, to: map<nat, Buf>, lo: nat, hi: nat, hi': nat)
    requires Cleared(from, to, lo, hi) && hi <= hi' && forall x :: x in to && hi <= x ==> hi' <= x
    ensures Cleared(from, to, lo, hi')
  {
    hide Invalid;
  }

  /** Some buffers were written, and nothing else. */
  ghost predicate Cleaned(from: map<nat, Buf>, to: map<nat, Buf>) {
    && to.Keys == from.Keys
    && forall a :: a in from ==> to[a] == from[a] || to[a] == from[a].(dirty := false, onDirtyList := false)
  }

  lemma HeadIn(s: State)
    requires Ok(s, {}) && s.dirtyList != []
    ensures s.dirtyList[0] in s.bufs && s.bufs[s.dirtyList[0]].onDirtyList
  {
    assert s.dirtyList[0] in s.dirtyList;
  }

  lemma Drained(s: State, s': State)
    requires Ok(s, {}) && s' == s.(writeBack := s'.writeBack, draining := true)
    ensures Ok(s', {}) && SameView(s, s')
  {
  }

  lemma DrainedWell(s: State, s': State)
    requires Ok(s, {}) && s' == s.(draining := false)
    requires s.writeBack == 0 && s.failures == 0 ==> s.dirtyList == []
    ensures Ok(s', {}) && SameView(s, s')
  {
  }
}
