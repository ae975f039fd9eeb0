/** An indexed directory next to a plain bag of names, over whole runs. */
module DirRuns {
  import opened Words
  import opened DirRecords
  import opened DirSplit
  import opened DirTree
  import opened DirSearch
  import opened DirIndex

  datatype Op =
    | Add(name: Name, inode: u32)
    | Remove(name: Name)
    | Lookup(name: Name)
    | LinearLookup(name: Name)

  /** What comes of each. */
  datatype Event =
    | Added(item: Item)
    | Refused(item: Item)
    | Removed(item: Item)
    | Found(item: Item)
    | Seen(name: Name)
    | Missing(name: Name)

  /** A directory at some time. */
  datatype Snap = Snap(blocks: seq<Blk>, levels: nat, free: nat) {
    ghost function Bag(): multiset<Item> { AllEntries(blocks) }
  }

  ghost function SnapOf(d: Directory): Snap
    reads d
  {
    Snap(d.blocks, d.levels, d.free)
  }

  /** The name can be added: its leaf has room or is more than half full, and there are blocks
      for the splits that this takes. */
  ghost predicate Takes(hash: Hash, size: nat, s: Snap, name: Name) {
    forall way, k: nat :: At(s.blocks, s.levels, way, k) && Located(Leaves(s.blocks, s.levels), k, hash(name)) ==>
      var recs := RecsAt(s.blocks, Leaves(s.blocks, s.levels)[k].block);
      (RoomFor(recs, Need(name)) || LiveSize(recs) > size / 2) && !NoSpace(s.blocks, s.levels, s.free, way, recs, name)
  }

  /** Whether a name that is added is lost: where its leaf has no room, exactly if the half that it goes
      to, when the leaf is split at the middle of its entries in some order of their hashes, has none
      either. That takes blocks of 1024 bytes. */
  ghost predicate Outcome(hash: Hash, size: nat, s: Snap, name: Name, lost: bool) {
    exists k: nat, sort: seq<Rec> :: OutcomeAt(hash, size, s, name, lost, k, sort)
  }

  ghost predicate OutcomeAt(hash: Hash, size: nat, s: Snap, name: Name, lost: bool, k: nat, sort: seq<Rec>) {
    && k < |Leaves(s.blocks, s.levels)| && Located(Leaves(s.blocks, s.levels), k, hash(name))
    && var recs := RecsAt(s.blocks, Leaves(s.blocks, s.levels)[k].block);
       if RoomFor(recs, Need(name)) then !lost
       else InOrder(hash, recs, sort) && (lost <==> Spills(hash, sort, size, name)) && (lost ==> size < 2048)
  }

  ghost predicate Named(bag: multiset<Item>, name: Name) {
    exists x :: x in bag && x.name == name
  }

  /** The event is what the operation gives for the bag of names, and the bag after it is that
      of the directory. A removal or a lookup by hash meets one of the entries of the name; a name
      that is lost is reported as added. */
  ghost predicate Next(hash: Hash, size: nat, s: Snap, op: Op, e: Event, s': Snap) {
    match op
    case Add(name, inode) =>
      if ValidName(name) && inode != 0 && Takes(hash, size, s, name)
      then
        && e == Added(Item(name, inode)) && Outcome(hash, size, s, name, s'.Bag() == s.Bag())
        && (s'.Bag() == s.Bag() || s'.Bag() == s.Bag() + multiset{Item(name, inode)})
      else e == Refused(Item(name, inode)) && s'.Bag() == s.Bag()
    case Remove(name) =>
      if Named(s.Bag(), name)
      then e.Removed? && e.item.name == name && s.Bag() == s'.Bag() + multiset{e.item}
      else e == Missing(name) && s' == s
    case Lookup(name) =>
      && s' == s
      && if Named(s.Bag(), name) then e.Found? && e.item.name == name && e.item in s.Bag() else e == Missing(name)
    case LinearLookup(name) =>
      s' == s && e == if Named(s.Bag(), name) then Seen(name) else Missing(name)
  }

  /** Just one leaf is the first that may hold names with a hash. */
  lemma LocatedOnce(f: seq<Ref>, k: nat, m: nat, x: u32)
    requires Ordered(f) && Located(f, k, x) && Located(f, m, x)
    ensures k == m
  {
    if k < m { NotBefore(f, k, m); }
    if m < k { NotBefore(f, m, k); }
  }

  lemma {:induction false} OffBetween(gs: seq<seq<Ref>>, a: nat, b: nat)
    requires a < |gs| && b < |gs|
    ensures a < b ==> Off(gs, a) + |gs[a]| <= Off(gs, b)
    decreases b
  {
    if a < b - 1 { OffBetween(gs, a, b - 1); }
  }

  /** Just one path leads to a leaf. */
  lemma PathOnce(blocks: seq<Blk>, levels: nat, p: seq<DxBlock>, q: seq<DxBlock>, k: nat)
    requires At(blocks, levels, p, k) && At(blocks, levels, q, k)
    ensures p == q
  {
    hide Off;
    var gs := Groups(blocks, levels);
    if levels == 1 {
      OffBetween(gs, p[0].position, q[0].position);
      OffBetween(gs, q[0].position, p[0].position);
    }
  }

  /** Whether a name can be added. */
  method MayAdd(d: Directory, name: Name) returns (ok: bool)
    requires d.Valid()
    ensures ok <==> Takes(d.hash, d.size, SnapOf(d), name)
    ensures ok ==> CanTake(d.hash, d.blocks, d.levels, d.size, name)
  {
    hide Leaves, NodesOk, At, LeavesOk, Even, Ordered, Located, LiveSize, RoomFor, NoSpace;
    ghost var f := Leaves(d.blocks, d.levels);
    TreeParts(d.hash, d.blocks, d.levels, d.size);
    var r, path;
    ghost var k;
    r, path, k := GetLeaf(d.blocks, d.levels, d.size, d.hash(name));
    AtLeaf(d.blocks, d.levels, d.size, path, k);
    LeafFacts(d.hash, d.blocks, d.levels, d.size, k);
    var recs := d.blocks[Target(d.blocks, path).value.block].recs;
    ok := (RoomFor(recs, Need(name)) || LiveSize(recs) > d.size / 2) &&
          !NoSpace(d.blocks, d.levels, d.free, path, recs, name);
    forall m: nat | Located(f, m, d.hash(name))
      ensures m == k
    {
      LocatedOnce(f, k, m, d.hash(name));
    }
    forall way | At(d.blocks, d.levels, way, k)
      ensures way == path
    {
      PathOnce(d.blocks, d.levels, way, path, k);
    }
  }

  /** An entry of a leaf is one of the contents. */
  lemma EntryInside(blocks: seq<Blk>, b: nat, at: nat)
    requires b < |blocks| && blocks[b].Leaf? && at < |blocks[b].recs| && blocks[b].recs[at].inode != 0
    ensures Item(blocks[b].recs[at].name, blocks[b].recs[at].inode) in AllEntries(blocks)
  {
    hide Entries;
    var x := Item(blocks[b].recs[at].name, blocks[b].recs[at].inode);
    EntryIsRecord(blocks[b].recs, x);
    assert HasItem(blocks[b].recs, x);
    EntriesInside(blocks, b, x);
  }

  lemma {:induction false} EntriesInside(blocks: seq<Blk>, b: nat, x: Item)
    requires b < |blocks| && x in Entries(RecsAt(blocks, b))
    ensures x in AllEntries(blocks)
    decreases |blocks|
  {
    hide Entries;
    var n := |blocks| - 1;
    if b < n {
      assert RecsAt(blocks[..n], b) == RecsAt(blocks, b);
      EntriesInside(blocks[..n], b, x);
    }
  }

  /** A new directory takes and keeps every name. */
  lemma NewTakes(hash: Hash, size: nat, s: Snap, name: Name)
    requires Even(hash) && size % 4 == 0 && 1024 <= size <= 32768 && ValidName(name)
    requires s.blocks == EmptyBlocks(size) && s.levels == 0
    ensures Takes(hash, size, s, name) && !Outcome(hash, size, s, name, true)
  {
    hide LiveSize, Off, Leaves, LeavesOk;
    var f := Leaves(s.blocks, 0);
    EmptyTree(hash, size);
    OneLevel(s.blocks, size, 0);
    var recs := RecsAt(s.blocks, 1);
    assert recs == [Rec(0, size, [])] && Fits(recs[0], Need(name));
    assert f == [Ref(0, 1)];
  }

  /** One operation. */
  method Step(d: Directory, op: Op) returns (e: Event)
    requires d.Valid()
    modifies d
    ensures d.Valid() && Next(d.hash, d.size, old(SnapOf(d)), op, e, SnapOf(d))
  {
    hide TreeOk, AllEntries, CanTake, LiveSize, RoomFor, NoSpace, Takes, Leaves, At, Located, Outcome,
        InOrder, Spills;
    ghost var s := SnapOf(d);
    InSomeLeafIff(d.blocks, op.name);
    match op {
      case Add(name, inode) =>
        e := Refused(Item(name, inode));
        var ok := MayAdd(d, name);
        if ok && 0 < |name| <= MAX_NAME && inode != 0 {
          var r;
          ghost var lost, way, k, sort;
          r, lost, way, k, sort := d.AddEntry(name, inode);
          HadSpace(d.hash, d.size, s, name, way, k);
          OutcomeIs(d.hash, d.size, s, name, lost, k, sort);
          OneAdded(s.Bag(), Item(name, inode));
          e := Added(Item(name, inode));
        }
      case Remove(name) =>
        var r, gone := d.RemoveEntry(name);
        e := if r == EOK then Removed(gone) else Missing(name);
      case Lookup(name) =>
        var r, leaf, at, off := d.FindEntry(name);
        e := Missing(name);
        if r == EOK {
          EntryInside(d.blocks, leaf, at);
          e := Found(Item(name, d.blocks[leaf].recs[at].inode));
        }
      case LinearLookup(name) =>
        var r, leaf := d.Scan(name);
        e := if r == EOK then Seen(name) else Missing(name);
    }
  }

  /** A new directory takes any first name, even with no block left to grow by. */
  method FirstName(hash: Hash, size: nat, free: nat, name: Name, inode: u32) returns (d: Directory, e: Event)
    requires Even(hash) && size % 4 == 0 && 1024 <= size <= 32768 && ValidName(name) && inode != 0
    ensures fresh(d) && d.Valid() && e == Added(Item(name, inode)) && d.Contents() == multiset{Item(name, inode)}
  {
    hide TreeOk, Takes, AllEntries;
    d := new Directory(hash, size, free);
    NewTakes(hash, size, SnapOf(d), name);
    e := Step(d, Add(name, inode));
  }

  lemma HadSpace(hash: Hash, size: nat, s: Snap, name: Name, way: seq<DxBlock>, k: nat)
    requires Takes(hash, size, s, name)
    requires At(s.blocks, s.levels, way, k) && Located(Leaves(s.blocks, s.levels), k, hash(name))
    ensures k < |Leaves(s.blocks, s.levels)|
    ensures !NoSpace(s.blocks, s.levels, s.free, way, RecsAt(s.blocks, Leaves(s.blocks, s.levels)[k].block), name)
  {
    hide Leaves, LiveSize, RoomFor, NoSpace, At;
  }

  lemma OutcomeIs(hash: Hash, size: nat, s: Snap, name: Name, lost: bool, k: nat, sort: seq<Rec>)
    requires OutcomeAt(hash, size, s, name, lost, k, sort)
    ensures Outcome(hash, size, s, name, lost)
  {
    hide OutcomeAt;
  }

  lemma OneAdded(bag: multiset<Item>, x: Item)
    ensures bag + multiset{x} != bag
  {
    assert |bag + multiset{x}| == |bag| + 1;
  }

  /** Whatever is added, removed and looked up: for each operation there is one event, and it is
      the one that the bag of the names added and not removed gives. Lookups by hash and by
      scanning agree, a name is refused just if the directory cannot take it, and lost just if the
      half of its leaf cannot. */
  method Run(d: Directory, ops: seq<Op>) returns (trace: seq<Event>, ghost states: seq<Snap>)
    requires d.Valid()
    modifies d
    ensures d.Valid() && |trace| == |ops| && |states| == |ops| + 1
    ensures states[0] == old(SnapOf(d)) && states[|ops|] == SnapOf(d)
    ensures forall i :: 0 <= i < |ops| ==> Next(d.hash, d.size, states[i], ops[i], trace[i], states[i + 1])
  {
    hide TreeOk, Next;
    trace, states := [], [SnapOf(d)];
    for i := 0 to |ops|
      invariant d.Valid() && |trace| == i && |states| == i + 1 && states[i] == SnapOf(d)
      invariant states[0] == old(SnapOf(d))
      invariant forall k :: 0 <= k < i ==> Next(d.hash, d.size, states[k], ops[k], trace[k], states[k + 1])
    {
      var e := Step(d, ops[i]);
      trace, states := trace + [e], states + [SnapOf(d)];
    }
  }
}
