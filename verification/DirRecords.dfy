/** A directory block: records that tile it, each with an entry or free. */
module DirRecords {
  import opened Words

  type Name = seq<u8>

  datatype Errno = EOK | ENOENT | ENOSPC | BAD_DX_DIR

  /** `struct ext4_dir_en`: a record without an inode is free, whatever name it still holds. */
  datatype Rec = Rec(inode: u32, len: nat, name: Name)

  datatype Item = Item(name: Name, inode: u32)

  const FAKE_ENTRY_SIZE := 8
  const MAX_NAME := 255

  predicate ValidName(name: Name) { 0 < |name| <= MAX_NAME }

  /** The space a record for this name takes, rounded up to 4 bytes. */
  function Need(name: Name): (n: nat)
    ensures n % 4 == 0 && FAKE_ENTRY_SIZE + |name| <= n < FAKE_ENTRY_SIZE + |name| + 4
  {
    var n := FAKE_ENTRY_SIZE + |name|;
    if n % 4 != 0 then n + (4 - n % 4) else n
  }

  predicate ValidRec(r: Rec) {
    && r.len > 0 && r.len % 4 == 0
    && (r.inode != 0 ==> ValidName(r.name) && Need(r.name) <= r.len)
  }

  function Span(recs: seq<Rec>): nat {
    if recs == [] then 0 else recs[0].len + Span(recs[1..])
  }

  /** The records tile a block of this size exactly. */
  predicate Tiles(recs: seq<Rec>, size: nat) {
    Span(recs) == size && forall r :: r in recs ==> ValidRec(r)
  }

  function Entries(recs: seq<Rec>): multiset<Item> {
    if recs == [] then multiset{}
    else (if recs[0].inode != 0 then multiset{Item(recs[0].name, recs[0].inode)} else multiset{}) + Entries(recs[1..])
  }

  predicate Holds(recs: seq<Rec>, name: Name) {
    exists i :: 0 <= i < |recs| && recs[i].inode != 0 && recs[i].name == name
  }

  lemma {:induction false} SpanAppend(a: seq<Rec>, b: seq<Rec>)
    ensures Span(a + b) == Span(a) + Span(b)
    decreases |a|
  {
    if a == [] {
      assert a + b == b;
    } else {
      assert (a + b)[1..] == a[1..] + b;
      SpanAppend(a[1..], b);
    }
  }

  lemma {:induction false} EntriesAppend(a: seq<Rec>, b: seq<Rec>)
    ensures Entries(a + b) == Entries(a) + Entries(b)
    decreases |a|
  {
    if a == [] {
      assert a + b == b;
    } else {
      assert (a + b)[1..] == a[1..] + b;
      EntriesAppend(a[1..], b);
    }
  }

  /** Around record `i`. */
  lemma Around(recs: seq<Rec>, i: nat)
    requires i < |recs|
    ensures Span(recs[..i]) + recs[i].len + Span(recs[i + 1..]) == Span(recs)
    ensures Span(recs[..i + 1]) == Span(recs[..i]) + recs[i].len
    ensures Entries(recs) == Entries(recs[..i]) + Entries([recs[i]]) + Entries(recs[i + 1..])
  {
    hide Span, Entries;
    assert recs[..i + 1] == recs[..i] + [recs[i]];
    assert recs == recs[..i + 1] + recs[i + 1..];
    OneRec(recs[i]);
    SpanAppend(recs[..i], [recs[i]]);
    SpanAppend(recs[..i + 1], recs[i + 1..]);
    EntriesAppend(recs[..i], [recs[i]]);
    EntriesAppend(recs[..i + 1], recs[i + 1..]);
  }

  predicate HasItem(recs: seq<Rec>, x: Item) {
    exists i :: 0 <= i < |recs| && recs[i].inode != 0 && recs[i].name == x.name && recs[i].inode == x.inode
  }

  lemma {:induction false} EntryIsRecord(recs: seq<Rec>, x: Item)
    ensures x in Entries(recs) <==> HasItem(recs, x)
    decreases |recs|
  {
    if recs != [] {
      EntryIsRecord(recs[1..], x);
      if HasItem(recs[1..], x) {
        var i :| 0 <= i < |recs[1..]| && recs[1..][i].inode != 0 && recs[1..][i].name == x.name
            && recs[1..][i].inode == x.inode;
        assert recs[i + 1].name == x.name;
      }
      if HasItem(recs, x) {
        var i :| 0 <= i < |recs| && recs[i].inode != 0 && recs[i].name == x.name && recs[i].inode == x.inode;
        if i > 0 { assert recs[1..][i - 1].name == x.name; }
      }
    }
  }

  lemma HoldsIffEntry(recs: seq<Rec>, name: Name)
    ensures Holds(recs, name) <==> exists x :: x in Entries(recs) && x.name == name
  {
    hide Entries;
    if Holds(recs, name) {
      var i :| 0 <= i < |recs| && recs[i].inode != 0 && recs[i].name == name;
      var x := Item(name, recs[i].inode);
      EntryIsRecord(recs, x);
      assert x in Entries(recs);
    }
    forall x | x in Entries(recs) && x.name == name
      ensures Holds(recs, name)
    {
      EntryIsRecord(recs, x);
    }
  }

  lemma {:induction false} SpanStrict(recs: seq<Rec>, i: nat, j: nat)
    requires (forall r :: r in recs ==> ValidRec(r)) && i < j <= |recs|
    ensures Span(recs[..i]) < Span(recs[..j])
    decreases j
  {
    Around(recs, j - 1);
    assert recs[j - 1] in recs;
    if i < j - 1 { SpanStrict(recs, i, j - 1); }
  }

  /** The walk over a block ends behind its last record. */
  lemma AllSeen(recs: seq<Rec>, size: nat, at: nat)
    requires Tiles(recs, size) && at <= |recs|
    ensures Span(recs[..at]) <= size
    ensures Span(recs[..at]) >= size <==> at == |recs|
  {
    assert recs[..|recs|] == recs;
    if at < |recs| { SpanStrict(recs, at, |recs|); }
  }

  /** `ext4_dir_find_in_block`. No entry for the name can begin where it would not fit. */
  method FindInBlock(recs: seq<Rec>, size: nat, name: Name) returns (r: Errno, at: nat, off: nat)
    requires Tiles(recs, size)
    ensures r == EOK || r == ENOENT
    ensures r == EOK <==> Holds(recs, name)
    ensures r == EOK ==> at < |recs| && recs[at].inode != 0 && recs[at].name == name && off == Span(recs[..at])
    ensures r == EOK ==> forall i :: 0 <= i < at ==> recs[i].inode == 0 || recs[i].name != name
  {
    hide Span, ValidRec;
    at, off := 0, 0;
    AllSeen(recs, size, 0);
    NoSpan(recs);
    while off < size
      invariant at <= |recs| && off == Span(recs[..at])
      invariant forall i :: 0 <= i < at ==> recs[i].inode == 0 || recs[i].name != name
      decreases |recs| - at
    {
      AllSeen(recs, size, at);
      Around(recs, at);
      if off + |name| > size {
        TooFar(recs, size, name, at);
        return ENOENT, at, off;
      }
      if recs[at].inode != 0 && |recs[at].name| == |name| && recs[at].name == name {
        return EOK, at, off;
      }
      off := off + recs[at].len;
      at := at + 1;
    }
    AllSeen(recs, size, at);
    r := ENOENT;
  }

  lemma NoSpan(recs: seq<Rec>)
    ensures Span(recs[..0]) == 0
  {
  }

  lemma {:induction false} TooFar(recs: seq<Rec>, size: nat, name: Name, at: nat)
    requires Tiles(recs, size) && at <= |recs| && Span(recs[..at]) + |name| > size
    ensures forall i :: at <= i < |recs| ==> recs[i].inode == 0 || recs[i].name != name
    decreases |recs| - at
  {
    if at < |recs| {
      Around(recs, at);
      assert recs[at] in recs;
      TooFar(recs, size, name, at + 1);
    }
  }

  /** Is there room for a record of `need` bytes in this one? */
  predicate Fits(r: Rec, need: nat) {
    if r.inode == 0 then r.len >= need else r.len - Need(r.name) >= need
  }

  lemma Replaced(recs: seq<Rec>, size: nat, i: nat, mid: seq<Rec>)
    requires Tiles(recs, size) && i < |recs| && Span(mid) == recs[i].len
    requires forall r :: r in mid ==> ValidRec(r)
    ensures Tiles(recs[..i] + mid + recs[i + 1..], size)
    ensures Entries(recs[..i] + mid + recs[i + 1..]) == Entries(recs[..i]) + Entries(mid) + Entries(recs[i + 1..])
  {
    var recs' := recs[..i] + mid + recs[i + 1..];
    Around(recs, i);
    SpanAppend(recs[..i], mid);
    SpanAppend(recs[..i] + mid, recs[i + 1..]);
    EntriesAppend(recs[..i], mid);
    EntriesAppend(recs[..i] + mid, recs[i + 1..]);
    forall r | r in recs'
      ensures ValidRec(r)
    {
      assert r in recs || r in mid;
    }
  }

  lemma OneRec(r: Rec)
    ensures Span([r]) == r.len
    ensures Entries([r]) == if r.inode != 0 then multiset{Item(r.name, r.inode)} else multiset{}
  {
    assert [r][1..] == [];
  }

  lemma TwoRecs(r: Rec, s: Rec)
    ensures Span([r, s]) == r.len + s.len
    ensures Entries([r, s]) == Entries([r]) + Entries([s])
  {
    assert [r, s] == [r] + [s];
    SpanAppend([r], [s]);
    EntriesAppend([r], [s]);
    OneRec(r);
    OneRec(s);
  }

  /** A free record taken whole. */
  lemma TakeFree(recs: seq<Rec>, size: nat, i: nat, name: Name, inode: u32)
    requires Tiles(recs, size) && i < |recs| && ValidName(name) && inode != 0
    requires recs[i].inode == 0 && recs[i].len >= Need(name)
    ensures var r := recs[i].(inode := inode, name := name);
            var recs' := recs[..i] + [r] + recs[i + 1..];
            Tiles(recs', size) && Entries(recs') == Entries(recs) + multiset{Item(name, inode)}
  {
    hide Span, Entries;
    var r := recs[i].(inode := inode, name := name);
    assert recs[i] in recs;
    OneRec(recs[i]);
    OneRec(r);
    Around(recs, i);
    Replaced(recs, size, i, [r]);
  }

  lemma CutsValid(recs: seq<Rec>, size: nat, i: nat, name: Name, inode: u32)
    requires Tiles(recs, size) && i < |recs| && ValidName(name) && inode != 0
    requires recs[i].inode != 0 && recs[i].len - Need(recs[i].name) >= Need(name)
    ensures var sz := Need(recs[i].name);
            ValidRec(recs[i].(len := sz)) && ValidRec(Rec(inode, recs[i].len - sz, name))
  {
    hide Span;
    assert recs[i] in recs;
  }

  /** The tail of a used record cut off. */
  lemma CutTail(recs: seq<Rec>, size: nat, i: nat, name: Name, inode: u32)
    requires Tiles(recs, size) && i < |recs| && ValidName(name) && inode != 0
    requires recs[i].inode != 0 && recs[i].len - Need(recs[i].name) >= Need(name)
    ensures var sz := Need(recs[i].name);
            var recs' := recs[..i] + [recs[i].(len := sz), Rec(inode, recs[i].len - sz, name)] + recs[i + 1..];
            Tiles(recs', size) && Entries(recs') == Entries(recs) + multiset{Item(name, inode)}
  {
    hide Span, Entries, Need, Tiles, ValidRec;
    var sz := Need(recs[i].name);
    var cut, r := recs[i].(len := sz), Rec(inode, recs[i].len - sz, name);
    CutsValid(recs, size, i, name, inode);
    TwoRecs(cut, r);
    OneRec(cut);
    OneRec(r);
    OneRec(recs[i]);
    Around(recs, i);
    Replaced(recs, size, i, [cut, r]);
  }

  /** The first record with room for the name gives it: a free one whole, a used one its tail. */
  ghost predicate PutIn(recs: seq<Rec>, recs': seq<Rec>, i: nat, name: Name, inode: u32) {
    && i < |recs| && (forall k :: 0 <= k < i ==> !Fits(recs[k], Need(name)))
    && i < |recs'| && recs'[..i] == recs[..i]
    && if recs[i].inode == 0 then recs'[i..] == [Rec(inode, recs[i].len, name)] + recs[i + 1..]
       else
         var used := Need(recs[i].name);
         && recs[i].len >= used
         && recs'[i..] == [recs[i].(len := used), Rec(inode, recs[i].len - used, name)] + recs[i + 1..]
  }

  /** `ext4_dir_try_insert_entry`: succeeds exactly if some free record is as long as the name
      takes, or some used one is by that much longer than its own name takes. */
  method TryInsert(recs: seq<Rec>, size: nat, name: Name, inode: u32)
    returns (r: Errno, recs': seq<Rec>, ghost at: nat)
    requires Tiles(recs, size) && ValidName(name) && inode != 0
    ensures r == EOK || r == ENOSPC
    ensures r == EOK <==>
              exists i :: 0 <= i < |recs| &&
                recs[i].len >= Need(name) + if recs[i].inode == 0 then 0 else Need(recs[i].name)
    ensures r == EOK ==> Tiles(recs', size) && Entries(recs') == Entries(recs) + multiset{Item(name, inode)}
    ensures r == EOK ==> PutIn(recs, recs', at, name, inode)
    ensures r != EOK ==> recs' == recs
  {
    hide Span, Entries, Tiles, ValidRec;
    var need := Need(name);
    var i, off := 0, 0;
    recs', at := recs, 0;
    AllSeen(recs, size, 0);
    NoSpan(recs);
    while off < size
      invariant i <= |recs| && off == Span(recs[..i])
      invariant forall k :: 0 <= k < i ==> !Fits(recs[k], need)
      decreases |recs| - i
    {
      AllSeen(recs, size, i);
      Around(recs, i);
      var rec := recs[i];
      if rec.inode == 0 && rec.len >= need {
        TakeFree(recs, size, i, name, inode);
        return EOK, recs[..i] + [rec.(inode := inode, name := name)] + recs[i + 1..], i;
      }
      if rec.inode != 0 {
        var sz := FAKE_ENTRY_SIZE + |rec.name|;
        if |rec.name| % 4 != 0 { sz := sz + (4 - |rec.name| % 4); }
        NeedIs(rec.name, sz);
        var free := rec.len - sz;
        if free >= need {
          CutTail(recs, size, i, name, inode);
          return EOK, recs[..i] + [rec.(len := sz), Rec(inode, free, name)] + recs[i + 1..], i;
        }
      }
      off := off + rec.len;
      i := i + 1;
    }
    AllSeen(recs, size, i);
    r := ENOSPC;
  }

  lemma NeedIs(name: Name, sz: nat)
    requires sz == FAKE_ENTRY_SIZE + |name| + (if |name| % 4 != 0 then 4 - |name| % 4 else 0)
    ensures sz == Need(name)
  {
  }

  /** Two records next to each other. */
  lemma AroundTwo(recs: seq<Rec>, p: nat)
    requires p + 1 < |recs|
    ensures Span(recs) == Span(recs[..p]) + recs[p].len + recs[p + 1].len + Span(recs[p + 2..])
    ensures Entries(recs) == Entries(recs[..p]) + Entries([recs[p]]) + Entries([recs[p + 1]]) + Entries(recs[p + 2..])
  {
    hide Span, Entries;
    Around(recs, p);
    var rest := recs[p + 1..];
    assert rest[0] == recs[p + 1] && rest[1..] == recs[p + 2..] && rest[..0] == [];
    assert rest == [rest[0]] + rest[1..];
    SpanAppend([rest[0]], rest[1..]);
    EntriesAppend([rest[0]], rest[1..]);
    OneRec(rest[0]);
  }

  lemma Pieces(a: seq<Rec>, r: Rec, b: seq<Rec>)
    ensures Span(a + [r] + b) == Span(a) + r.len + Span(b)
    ensures Entries(a + [r] + b) == Entries(a) + Entries([r]) + Entries(b)
  {
    hide Span, Entries;
    SpanAppend(a, [r]);
    SpanAppend(a + [r], b);
    EntriesAppend(a, [r]);
    EntriesAppend(a + [r], b);
    OneRec(r);
  }

  /** A free record goes to its predecessor. */
  lemma Merged(recs: seq<Rec>, size: nat, p: nat)
    requires Tiles(recs, size) && p + 1 < |recs| && recs[p + 1].inode == 0
    ensures var recs' := recs[..p] + [recs[p].(len := recs[p].len + recs[p + 1].len)] + recs[p + 2..];
            Tiles(recs', size) && Entries(recs') == Entries(recs)
  {
    hide Span, Entries;
    var one := recs[p].(len := recs[p].len + recs[p + 1].len);
    var recs' := recs[..p] + [one] + recs[p + 2..];
    AroundTwo(recs, p);
    Pieces(recs[..p], one, recs[p + 2..]);
    OneRec(one);
    OneRec(recs[p]);
    OneRec(recs[p + 1]);
    assert recs[p] in recs && recs[p + 1] in recs;
    forall r | r in recs'
      ensures ValidRec(r)
    {
      assert r in recs || r == one;
    }
  }

  /** An entry's record set free. */
  lemma SetFree(recs: seq<Rec>, size: nat, at: nat)
    requires Tiles(recs, size) && at < |recs| && recs[at].inode != 0
    ensures var recs' := recs[at := recs[at].(inode := 0)];
            Tiles(recs', size) && Entries(recs) == Entries(recs') + multiset{Item(recs[at].name, recs[at].inode)}
  {
    hide Span, Entries;
    var freed := recs[at].(inode := 0);
    Around(recs, at);
    OneRec(recs[at]);
    OneRec(freed);
    assert recs[at] in recs;
    Replaced(recs, size, at, [freed]);
    assert recs[at := freed] == recs[..at] + [freed] + recs[at + 1..];
  }

  /** The second half of `ext4_dir_remove_entry`: the record at offset `pos` goes to its
      predecessor, or stays as a free one if it is the first. */
  method RemoveRec(recs: seq<Rec>, size: nat, at: nat, pos: nat) returns (recs': seq<Rec>)
    requires Tiles(recs, size) && at < |recs| && recs[at].inode != 0 && pos == Span(recs[..at])
    ensures Tiles(recs', size)
    ensures Entries(recs) == Entries(recs') + multiset{Item(recs[at].name, recs[at].inode)}
  {
    hide Span, Entries, ValidRec;
    SetFree(recs, size, at);
    recs' := recs[at := recs[at].(inode := 0)];
    NoSpan(recs);
    if pos != 0 {
      assert recs'[..at] == recs[..at];
      var p, off := 0, 0;
      NoSpan(recs');
      while off + recs'[p].len < pos
        invariant p < at && off == Span(recs'[..p])
        decreases at - p
      {
        Around(recs', p);
        off := off + recs'[p].len;
        p := p + 1;
      }
      Around(recs', p);
      if p + 1 < at { SpanStrict(recs', p + 1, at); }
      Merged(recs', size, p);
      recs' := recs'[..p] + [recs'[p].(len := recs'[p].len + recs'[p + 1].len)] + recs'[p + 2..];
    }
  }
}
