/** Splitting a full leaf block of an indexed directory by hash. */
module DirSplit {
  import opened Words
  import opened DirRecords

  type Hash = Name -> u32

  /** The name hash is even: its lowest bit is kept free to mark a run of equal hashes that
      goes on in the next block. */
  ghost predicate Even(hash: Hash) {
    forall n: Name :: hash(n) % 2 == 0
  }

  /** `bound & ~1`. */
  function ClearLow(bound: nat): nat { bound - bound % 2 }

  /** Bytes that the entries of these records need. */
  function NeedSum(recs: seq<Rec>): nat {
    if recs == [] then 0 else Need(recs[0].name) + NeedSum(recs[1..])
  }

  predicate AllLive(recs: seq<Rec>) {
    forall r :: r in recs ==> r.inode != 0 && ValidName(r.name)
  }

  function LiveSize(recs: seq<Rec>): nat {
    if recs == [] then 0
    else (if recs[0].inode != 0 then Need(recs[0].name) else 0) + LiveSize(recs[1..])
  }

  predicate SortedBy(hash: Hash, recs: seq<Rec>) {
    forall i, j :: 0 <= i < j < |recs| ==> hash(recs[i].name) <= hash(recs[j].name)
  }

  /** The records in use. */
  function Live(recs: seq<Rec>): seq<Rec> {
    if recs == [] then []
    else Live(recs[..|recs| - 1]) + if recs[|recs| - 1].inode != 0 then [recs[|recs| - 1]] else []
  }

  /** Where the second half begins: with the first record that makes it more than `half`. */
  function MidOf(sort: seq<Rec>, half: nat): (mid: nat)
    ensures mid <= |sort|
  {
    if sort == [] || Need(sort[0].name) > half then 0 else 1 + MidOf(sort[1..], half - Need(sort[0].name))
  }

  /** The hash that the second half begins with, and the mark that the first ends with it. */
  function BoundOf(hash: Hash, sort: seq<Rec>, half: nat): nat {
    var mid := MidOf(sort, half);
    if 0 < mid < |sort| then
      hash(sort[mid].name) + (if hash(sort[mid].name) == hash(sort[mid - 1].name) then 1 else 0)
    else 0
  }

  /** The half that a name belongs to has no room for it. */
  predicate Spills(hash: Hash, sort: seq<Rec>, size: nat, name: Name) {
    var mid := MidOf(sort, size / 2);
    NeedSum(if hash(name) >= BoundOf(hash, sort, size / 2) then sort[mid..] else sort[..mid]) + Need(name) > size
  }

  /** The records in use, in an order of their hashes. */
  ghost predicate InOrder(hash: Hash, recs: seq<Rec>, sort: seq<Rec>) {
    SortedBy(hash, sort) && multiset(sort) == multiset(Live(recs))
  }

  lemma TailSorted(hash: Hash, s: seq<Rec>)
    requires SortedBy(hash, s) && s != []
    ensures SortedBy(hash, s[1..])
  {
  }

  predicate Apart(hash: Hash, s: seq<Rec>) {
    forall i, j :: 0 <= i < j < |s| ==> hash(s[i].name) != hash(s[j].name)
  }

  lemma TailApart(hash: Hash, s: seq<Rec>)
    requires Apart(hash, s) && s != []
    ensures Apart(hash, s[1..])
  {
  }

  lemma FirstIsLeast(hash: Hash, a: seq<Rec>, b: seq<Rec>, k: nat, i: nat)
    requires SortedBy(hash, a) && SortedBy(hash, b) && Apart(hash, a)
    requires i < |a| && k < |b| && b[k] == a[0] && a[i] == b[0]
    ensures b[0] == a[0]
  {
    assert hash(b[0].name) <= hash(b[k].name);
    assert hash(a[0].name) <= hash(a[i].name);
  }

  /** If all hashes differ there is only one order. */
  lemma {:induction false} OrderIsUnique(hash: Hash, a: seq<Rec>, b: seq<Rec>)
    requires SortedBy(hash, a) && SortedBy(hash, b) && multiset(a) == multiset(b) && Apart(hash, a)
    ensures a == b
    decreases |a|
  {
    hide SortedBy, Apart;
    if a == [] {
      assert |multiset(b)| == 0;
    } else {
      var k := IndexOf(a, b);
      var i := IndexOf(b, a);
      FirstIsLeast(hash, a, b, k, i);
      assert b[..0] + b[1..] == b[1..];
      WithoutOne(a, b, 0);
      TailSorted(hash, a);
      TailSorted(hash, b);
      TailApart(hash, a);
      OrderIsUnique(hash, a[1..], b[1..]);
      assert a == [a[0]] + a[1..] && b == [b[0]] + b[1..];
    }
  }

  lemma {:induction false} MidIs(sort: seq<Rec>, half: nat, mid: nat)
    requires mid < |sort| && NeedSum(sort[..mid]) <= half < NeedSum(sort[..mid + 1])
    ensures MidOf(sort, half) == mid
    decreases mid
  {
    var first := Need(sort[0].name);
    assert sort[..mid + 1][1..] == sort[1..][..mid];
    if mid == 0 {
      assert sort[..1] == [sort[0]];
      NeedOne(sort[0]);
    } else {
      assert sort[..mid][1..] == sort[1..][..mid - 1];
      assert first + NeedSum(sort[1..][..mid - 1]) <= half;
      MidIs(sort[1..], half - first, mid - 1);
    }
  }

  lemma {:induction false} NeedSumAppend(a: seq<Rec>, b: seq<Rec>)
    ensures NeedSum(a + b) == NeedSum(a) + NeedSum(b)
    decreases |a|
  {
    if a == [] {
      assert a + b == b;
    } else {
      assert (a + b)[1..] == a[1..] + b;
      NeedSumAppend(a[1..], b);
    }
  }

  lemma {:induction false} LiveSizeAppend(a: seq<Rec>, b: seq<Rec>)
    ensures LiveSize(a + b) == LiveSize(a) + LiveSize(b)
    decreases |a|
  {
    if a == [] {
      assert a + b == b;
    } else {
      assert (a + b)[1..] == a[1..] + b;
      LiveSizeAppend(a[1..], b);
    }
  }

  lemma {:induction false} LiveAtMostSpan(recs: seq<Rec>)
    requires forall r :: r in recs ==> ValidRec(r)
    ensures LiveSize(recs) <= Span(recs)
    decreases |recs|
  {
    if recs != [] {
      assert recs[0] in recs;
      LiveAtMostSpan(recs[1..]);
    }
  }

  lemma NeedOne(r: Rec)
    ensures NeedSum([r]) == Need(r.name)
  {
    assert [r][1..] == [];
  }

  lemma TakeOut(recs: seq<Rec>, k: nat)
    requires k < |recs|
    ensures multiset(recs) == multiset(recs[..k] + recs[k + 1..]) + multiset{recs[k]}
  {
    assert recs == recs[..k] + [recs[k]] + recs[k + 1..];
  }

  lemma CancelOne(a: multiset<Rec>, b: multiset<Rec>, r: Rec)
    requires a + multiset{r} == b + multiset{r}
    ensures a == b
  {
    assert a == (a + multiset{r}) - multiset{r};
    assert b == (b + multiset{r}) - multiset{r};
  }

  lemma TakeOutSums(recs: seq<Rec>, k: nat)
    requires k < |recs|
    ensures Entries(recs) == Entries(recs[..k] + recs[k + 1..]) + Entries([recs[k]])
    ensures NeedSum(recs) == NeedSum(recs[..k] + recs[k + 1..]) + Need(recs[k].name)
  {
    hide Entries, NeedSum, Need;
    assert recs == recs[..k] + [recs[k]] + recs[k + 1..];
    Pieces(recs[..k], recs[k], recs[k + 1..]);
    EntriesAppend(recs[..k], recs[k + 1..]);
    NeedSumAppend(recs[..k], recs[k + 1..]);
    NeedSumAppend(recs[..k], [recs[k]]);
    NeedSumAppend(recs[..k] + [recs[k]], recs[k + 1..]);
    NeedOne(recs[k]);
  }

  /** Neither contents nor sizes depend on the order. */
  lemma {:induction false} SameInAnyOrder(a: seq<Rec>, b: seq<Rec>)
    requires multiset(a) == multiset(b)
    ensures Entries(a) == Entries(b) && NeedSum(a) == NeedSum(b)
    decreases |a|
  {
    hide Entries, NeedSum, Need;
    if a == [] {
      assert |multiset(b)| == 0;
    } else {
      var k := IndexOf(a, b);
      assert a[..0] + a[1..] == a[1..];
      WithoutOne(a, b, k);
      SameInAnyOrder(a[1..], b[..k] + b[k + 1..]);
      TakeOutSums(a, 0);
      TakeOutSums(b, k);
    }
  }

  lemma IndexOf(a: seq<Rec>, b: seq<Rec>) returns (k: nat)
    requires a != [] && multiset(a) == multiset(b)
    ensures k < |b| && b[k] == a[0]
  {
    assert a[0] in multiset(a);
    assert a[0] in b;
    k :| 0 <= k < |b| && b[k] == a[0];
  }

  lemma WithoutOne(a: seq<Rec>, b: seq<Rec>, k: nat)
    requires a != [] && multiset(a) == multiset(b) && k < |b| && b[k] == a[0]
    ensures multiset(a[1..]) == multiset(b[..k] + b[k + 1..])
  {
    assert a[..0] + a[1..] == a[1..];
    TakeOut(a, 0);
    TakeOut(b, k);
    CancelOne(multiset(a[1..]), multiset(b[..k] + b[k + 1..]), a[0]);
  }

  /** The library's sort, of which only this is relied on. */
  method QSort(hash: Hash, recs: seq<Rec>) returns (s: seq<Rec>)
    ensures SortedBy(hash, s) && multiset(s) == multiset(recs)
  {
    hide SortedBy;
    s := [];
    SortedNone(hash);
    var n := 0;
    while n < |recs|
      invariant n <= |recs| && SortedBy(hash, s) && multiset(s) == multiset(recs[..n])
    {
      s := Insert(hash, s, recs[n]);
      assert recs[..n + 1] == recs[..n] + [recs[n]];
      n := n + 1;
    }
    assert recs[..n] == recs;
  }

  lemma SortedNone(hash: Hash)
    ensures SortedBy(hash, [])
  {
  }

  method Insert(hash: Hash, s: seq<Rec>, r: Rec) returns (s': seq<Rec>)
    requires SortedBy(hash, s)
    ensures SortedBy(hash, s') && multiset(s') == multiset(s) + multiset{r}
  {
    hide SortedBy;
    var k: nat := |s|;
    while k > 0 && hash(s[k - 1].name) > hash(r.name)
      invariant k <= |s|
      invariant forall i :: k <= i < |s| ==> hash(s[i].name) > hash(r.name)
    {
      k := k - 1;
    }
    s' := s[..k] + [r] + s[k..];
    InsertSorted(hash, s, r, k);
    InsertSame(s, r, k);
  }

  lemma InsertSame(s: seq<Rec>, r: Rec, k: nat)
    requires k <= |s|
    ensures multiset(s[..k] + [r] + s[k..]) == multiset(s) + multiset{r}
  {
    assert s == s[..k] + s[k..];
  }

  lemma InsertSorted(hash: Hash, s: seq<Rec>, r: Rec, k: nat)
    requires SortedBy(hash, s) && k <= |s|
    requires k > 0 ==> hash(s[k - 1].name) <= hash(r.name)
    requires forall i :: k <= i < |s| ==> hash(s[i].name) > hash(r.name)
    ensures SortedBy(hash, s[..k] + [r] + s[k..])
  {
    var s' := s[..k] + [r] + s[k..];
    forall i, j | 0 <= i < j < |s'|
      ensures hash(s'[i].name) <= hash(s'[j].name)
    {
      assert s'[i] == if i < k then s[i] else if i == k then r else s[i - 1];
      assert s'[j] == if j < k then s[j] else if j == k then r else s[j - 1];
    }
  }

  /** The first loop of `ext4_dir_dx_split_data`: the valid entries of the block. */
  method Collect(recs: seq<Rec>, size: nat) returns (live: seq<Rec>)
    requires Tiles(recs, size)
    ensures AllLive(live) && Entries(live) == Entries(recs) && NeedSum(live) == LiveSize(recs) <= size
    ensures live == Live(recs)
  {
    hide Entries, Span, NeedSum, LiveSize, Need;
    live := [];
    var i, off := 0, 0;
    AllSeen(recs, size, 0);
    Nothing(recs);
    while off < size
      invariant i <= |recs| && off == Span(recs[..i]) && AllLive(live) && live == Live(recs[..i])
      invariant Entries(live) == Entries(recs[..i]) && NeedSum(live) == LiveSize(recs[..i])
      decreases |recs| - i
    {
      AllSeen(recs, size, i);
      Around(recs, i);
      LiveNext(recs, i);
      CollectOne(recs, i, live);
      assert recs[i] in recs;
      if recs[i].inode != 0 && |recs[i].name| != 0 {
        live := live + [recs[i]];
      }
      off := off + recs[i].len;
      i := i + 1;
    }
    AllSeen(recs, size, i);
    assert recs[..i] == recs;
    LiveAtMostSpan(recs);
  }

  lemma Nothing(recs: seq<Rec>)
    ensures Span(recs[..0]) == 0 && Entries(recs[..0]) == multiset{} && LiveSize(recs[..0]) == 0
    ensures Entries([]) == multiset{} && NeedSum([]) == 0
  {
  }

  lemma LiveNext(recs: seq<Rec>, i: nat)
    requires i < |recs|
    ensures Live(recs[..i + 1]) == if recs[i].inode != 0 then Live(recs[..i]) + [recs[i]] else Live(recs[..i])
  {
    assert recs[..i + 1][..i] == recs[..i];
  }

  lemma CollectOne(recs: seq<Rec>, i: nat, live: seq<Rec>)
    requires i < |recs| && Entries(live) == Entries(recs[..i]) && NeedSum(live) == LiveSize(recs[..i])
    ensures var live' := if recs[i].inode != 0 then live + [recs[i]] else live;
            Entries(live') == Entries(recs[..i + 1]) && NeedSum(live') == LiveSize(recs[..i + 1])
  {
    assert recs[..i + 1] == recs[..i] + [recs[i]];
    LiveOne(recs[i]);
    OneRec(recs[i]);
    NeedOne(recs[i]);
    hide Entries, NeedSum, LiveSize, Need;
    EntriesAppend(recs[..i], [recs[i]]);
    EntriesAppend(live, [recs[i]]);
    LiveSizeAppend(recs[..i], [recs[i]]);
    NeedSumAppend(live, [recs[i]]);
  }

  /** Where the second half begins: the entries before it take at most half a block, and with
      one more they take more. There is such an entry exactly when all together do. */
  method FindMid(recs: seq<Rec>, size: nat) returns (found: bool, mid: nat)
    ensures found <==> NeedSum(recs) > size / 2
    ensures found ==> mid < |recs| && NeedSum(recs[..mid]) <= size / 2 < NeedSum(recs[..mid + 1])
    ensures !found ==> mid == 0
  {
    hide NeedSum, Need;
    var current, i := 0, 0;
    found, mid := false, 0;
    Nothing(recs);
    assert recs[..0] == [];
    while i < |recs|
      invariant i <= |recs| && current == NeedSum(recs[..i]) <= size / 2 && !found && mid == 0
    {
      assert recs[..i + 1] == recs[..i] + [recs[i]];
      NeedSumAppend(recs[..i], [recs[i]]);
      NeedOne(recs[i]);
      if current + Need(recs[i].name) > size / 2 {
        assert recs == recs[..i + 1] + recs[i + 1..];
        NeedSumAppend(recs[..i + 1], recs[i + 1..]);
        return true, i;
      }
      current := current + Need(recs[i].name);
      i := i + 1;
    }
    assert recs[..i] == recs;
  }

  predicate RoomFor(recs: seq<Rec>, need: nat) {
    exists i :: 0 <= i < |recs| && Fits(recs[i], need)
  }

  /** In bytes: a free record of that length, or a used one that much longer than its own name takes. */
  lemma RoomIff(recs: seq<Rec>, need: nat)
    ensures RoomFor(recs, need) <==>
              exists i :: 0 <= i < |recs| &&
                recs[i].len >= need + if recs[i].inode == 0 then 0 else Need(recs[i].name)
  {
    if RoomFor(recs, need) {
      var i :| 0 <= i < |recs| && Fits(recs[i], need);
      assert recs[i].len >= need + if recs[i].inode == 0 then 0 else Need(recs[i].name);
    }
    if i :| 0 <= i < |recs| && recs[i].len >= need + if recs[i].inode == 0 then 0 else Need(recs[i].name) {
      assert Fits(recs[i], need);
    }
  }

  /** All that the entries do not need is in one place. */
  ghost predicate Compact(recs: seq<Rec>, size: nat) {
    forall need: nat :: need > 0 ==> (RoomFor(recs, need) <==> LiveSize(recs) + need <= size)
  }

  /** The last two loops of `ext4_dir_dx_split_data`: entries packed into a block, the last one
      taking all that is left. */
  method Pack(part: seq<Rec>, size: nat) returns (recs: seq<Rec>)
    requires part != [] && AllLive(part) && NeedSum(part) <= size && size % 4 == 0
    ensures Tiles(recs, size) && Entries(recs) == Entries(part)
    ensures Compact(recs, size) && LiveSize(recs) == NeedSum(part)
  {
    hide Entries, Span, NeedSum, LiveSize, ValidRec, Fits, Need;
    var i, off := 0, 0;
    recs := [];
    Nothing(part);
    Nothing([]);
    assert part[..0] == recs;
    NoSpan(part);
    while i < |part|
      invariant i <= |part| && |recs| == i && off == NeedSum(part[..i]) && off % 4 == 0
      invariant Span(recs) == (if i < |part| then off else size) && Entries(recs) == Entries(part[..i])
      invariant LiveSize(recs) == NeedSum(part[..i])
      invariant forall r :: r in recs ==> ValidRec(r)
      invariant forall m :: 0 <= m < i ==> Packed(recs[m], if m < |part| - 1 then 0 else size - NeedSum(part))
    {
      PackOne(part, i, recs, size);
      var len := if i < |part| - 1 then Need(part[i].name) else size - off;
      recs := recs + [part[i].(len := len)];
      off := off + Need(part[i].name);
      i := i + 1;
    }
    assert part[..i] == part;
    PackedIsCompact(recs, size);
  }

  /** The record has just this much to spare. */
  ghost predicate Packed(r: Rec, spare: int) { r.inode != 0 && r.len == Need(r.name) + spare }

  lemma PackedIsCompact(recs: seq<Rec>, size: nat)
    requires recs != [] && LiveSize(recs) <= size
    requires forall m :: 0 <= m < |recs| ==> Packed(recs[m], if m < |recs| - 1 then 0 else size - LiveSize(recs))
    ensures Compact(recs, size)
  {
    hide Need, LiveSize;
    forall need: nat | need > 0
      ensures RoomFor(recs, need) <==> LiveSize(recs) + need <= size
    {
      if LiveSize(recs) + need <= size { assert Fits(recs[|recs| - 1], need); }
    }
  }

  lemma PackLen(part: seq<Rec>, i: nat, size: nat)
    requires i < |part| && AllLive(part) && NeedSum(part) <= size && size % 4 == 0 && NeedSum(part[..i]) % 4 == 0
    ensures NeedSum(part[..i + 1]) == NeedSum(part[..i]) + Need(part[i].name) <= size
    ensures NeedSum(part[..i + 1]) % 4 == 0
    ensures i + 1 == |part| ==> NeedSum(part[..i + 1]) == NeedSum(part)
  {
    hide NeedSum, Need;
    assert part[..i + 1] == part[..i] + [part[i]] && part == part[..i + 1] + part[i + 1..];
    NeedSumAppend(part[..i], [part[i]]);
    NeedSumAppend(part[..i + 1], part[i + 1..]);
    NeedOne(part[i]);
    if i + 1 == |part| { assert part[..i + 1] == part; }
  }

  lemma LiveOne(r: Rec)
    ensures LiveSize([r]) == if r.inode != 0 then Need(r.name) else 0
  {
    assert [r][1..] == [];
  }

  lemma PackValid(r: Rec, size: nat, used: nat, last: bool)
    requires r.inode != 0 && ValidName(r.name) && size % 4 == 0 && used % 4 == 0 && used + Need(r.name) <= size
    ensures ValidRec(r.(len := if last then size - used else Need(r.name)))
  {
    hide Need;
    assert (size - used) % 4 == 0;
  }

  lemma PackOne(part: seq<Rec>, i: nat, recs: seq<Rec>, size: nat)
    requires i < |part| && AllLive(part) && NeedSum(part) <= size && size % 4 == 0
    requires Span(recs) == NeedSum(part[..i]) && NeedSum(part[..i]) % 4 == 0 && Entries(recs) == Entries(part[..i])
    ensures NeedSum(part[..i + 1]) == NeedSum(part[..i]) + Need(part[i].name) <= size
    ensures NeedSum(part[..i + 1]) % 4 == 0
    ensures i + 1 == |part| ==> NeedSum(part[..i + 1]) == NeedSum(part)
    ensures var len := if i < |part| - 1 then Need(part[i].name) else size - NeedSum(part[..i]);
            var r := part[i].(len := len);
            && Span(recs + [r]) == Span(recs) + len && Entries(recs + [r]) == Entries(part[..i + 1])
            && ValidRec(r) && Packed(r, if i < |part| - 1 then 0 else size - NeedSum(part))
            && LiveSize(recs + [r]) == LiveSize(recs) + Need(r.name)
  {
    hide Entries, Span, NeedSum, Need, ValidRec, LiveSize;
    PackLen(part, i, size);
    assert part[i] in part;
    PackValid(part[i], size, NeedSum(part[..i]), i == |part| - 1);
    var len := if i < |part| - 1 then Need(part[i].name) else size - NeedSum(part[..i]);
    var r := part[i].(len := len);
    assert part[..i + 1] == part[..i] + [part[i]];
    SpanAppend(recs, [r]);
    EntriesAppend(recs, [r]);
    LiveSizeAppend(recs, [r]);
    LiveOne(r);
    EntriesAppend(part[..i], [part[i]]);
    OneRec(r);
    OneRec(part[i]);
  }

  /** All hashes of a block's entries lie in a range. */
  ghost predicate HashedIn(hash: Hash, recs: seq<Rec>, lo: int, hi: int) {
    forall x :: x in Entries(recs) ==> lo <= hash(x.name) < hi
  }

  /** `ext4_dir_dx_split_data`, the distribution of the entries: what is at or above `bound`,
      or equal to it but for its lowest bit, goes to the new block. Should the entries take no
      more than half a block, `sort[mid - 1]` is in front of the table. */
  method SplitRecords(hash: Hash, recs: seq<Rec>, size: nat)
    returns (left: seq<Rec>, right: seq<Rec>, bound: u32, ghost largest: Item, ghost sort: seq<Rec>)
    requires Even(hash) && Tiles(recs, size) && size % 4 == 0 && size >= 1024
    requires LiveSize(recs) > size / 2
    ensures Tiles(left, size) && Tiles(right, size)
    ensures Entries(left) + Entries(right) == Entries(recs)
    ensures HashedIn(hash, left, 0, bound) && HashedIn(hash, right, ClearLow(bound), 0x1_0000_0000)
    ensures largest in Entries(left) && bound >= hash(largest.name)
    ensures bound != ClearLow(bound) ==> bound == hash(largest.name) + 1
    ensures exists x :: x in Entries(right) && hash(x.name) == ClearLow(bound)
    ensures Compact(left, size) && Compact(right, size) && LiveSize(left) + LiveSize(right) == LiveSize(recs)
    ensures LiveSize(left) <= size / 2 && LiveSize(right) <= size / 2 + 264
    ensures InOrder(hash, recs, sort) && bound == BoundOf(hash, sort, size / 2)
    ensures LiveSize(left) == NeedSum(sort[..MidOf(sort, size / 2)])
    ensures LiveSize(right) == NeedSum(sort[MidOf(sort, size / 2)..])
  {
    hide Entries, Span, NeedSum, LiveSize, ValidRec, ClearLow, Even, Compact, MidOf, Live;
    var live := Collect(recs, size);
    var sorted := QSort(hash, live);
    sort := sorted;
    SameInAnyOrder(live, sorted);
    assert AllLive(sorted) by { SameElements(live, sorted); }
    var found, mid := FindMid(sorted, size);
    MidIsInside(sorted, size, mid);
    MidIs(sorted, size / 2, mid);
    var newHash := hash(sorted[mid].name);
    EvenAt(hash, sorted[mid].name);
    var continued := if newHash == hash(sorted[mid - 1].name) then 1 else 0;
    left := Pack(sorted[..mid], size);
    right := Pack(sorted[mid..], size);
    bound := newHash + continued;
    largest := Item(sorted[mid - 1].name, sorted[mid - 1].inode);
    Halves(hash, sorted, mid, bound);
    assert HashedIn(hash, left, 0, bound);
  }

  lemma SameElements(a: seq<Rec>, b: seq<Rec>)
    requires multiset(a) == multiset(b)
    ensures forall r :: r in a <==> r in b
  {
    forall r
      ensures r in a <==> r in b
    {
      assert r in a <==> r in multiset(a);
      assert r in b <==> r in multiset(b);
    }
  }

  lemma NoNeed(recs: seq<Rec>)
    ensures NeedSum(recs[..0]) == 0
  {
  }

  lemma NeedIsSmall(name: Name)
    requires ValidName(name)
    ensures Need(name) <= 264
  {
  }

  lemma MidIsInside(sort: seq<Rec>, size: nat, mid: nat)
    requires size >= 1024 && AllLive(sort) && mid < |sort| && NeedSum(sort) <= size
    requires NeedSum(sort[..mid]) <= size / 2 < NeedSum(sort[..mid + 1])
    ensures mid > 0 && AllLive(sort[..mid]) && AllLive(sort[mid..])
    ensures NeedSum(sort[..mid]) + NeedSum(sort[mid..]) == NeedSum(sort)
    ensures NeedSum(sort[mid..]) <= size / 2 + 264
  {
    hide NeedSum, Need;
    assert sort == sort[..mid] + sort[mid..];
    assert sort[..mid + 1] == sort[..mid] + [sort[mid]];
    assert sort[mid] in sort;
    NeedSumAppend(sort[..mid], sort[mid..]);
    NeedSumAppend(sort[..mid], [sort[mid]]);
    NeedOne(sort[mid]);
    NeedIsSmall(sort[mid].name);
    NoNeed(sort);
    Half(size, NeedSum(sort[..mid]), NeedSum(sort[mid..]));
  }

  lemma Half(size: nat, left: nat, right: nat)
    requires left + right <= size && left + 264 > size / 2
    ensures right <= size / 2 + 264
  {
  }

  lemma Halves(hash: Hash, sort: seq<Rec>, mid: nat, bound: nat)
    requires Even(hash) && AllLive(sort) && SortedBy(hash, sort) && 0 < mid < |sort|
    requires var h := hash(sort[mid].name); bound == h + (if h == hash(sort[mid - 1].name) then 1 else 0)
    ensures Entries(sort[..mid]) + Entries(sort[mid..]) == Entries(sort)
    ensures HashedIn(hash, sort[..mid], 0, bound) && HashedIn(hash, sort[mid..], ClearLow(bound), 0x1_0000_0000)
    ensures Item(sort[mid - 1].name, sort[mid - 1].inode) in Entries(sort[..mid])
    ensures Item(sort[mid].name, sort[mid].inode) in Entries(sort[mid..])
    ensures ClearLow(bound) == hash(sort[mid].name)
  {
    hide Entries, SortedBy, HashedIn, Even, ClearLow;
    EvenAt(hash, sort[mid].name);
    EvenPart(hash(sort[mid].name), bound);
    assert sort == sort[..mid] + sort[mid..];
    EntriesAppend(sort[..mid], sort[mid..]);
    LowHalf(hash, sort, mid, bound);
    HighHalf(hash, sort, mid);
  }

  lemma EvenAt(hash: Hash, name: Name)
    requires Even(hash)
    ensures hash(name) % 2 == 0
  {
  }

  lemma EvenPart(h: nat, bound: nat)
    requires h % 2 == 0 && h <= bound <= h + 1
    ensures ClearLow(bound) == h
  {
  }

  lemma LowHalf(hash: Hash, sort: seq<Rec>, mid: nat, bound: nat)
    requires AllLive(sort) && SortedBy(hash, sort) && 0 < mid < |sort|
    requires var h := hash(sort[mid].name); bound == h + (if h == hash(sort[mid - 1].name) then 1 else 0)
    ensures HashedIn(hash, sort[..mid], 0, bound)
    ensures Item(sort[mid - 1].name, sort[mid - 1].inode) in Entries(sort[..mid])
  {
    hide Entries;
    var part := sort[..mid];
    assert sort[mid - 1] in sort && part[mid - 1] == sort[mid - 1];
    EntryIsRecord(part, Item(sort[mid - 1].name, sort[mid - 1].inode));
    forall x | x in Entries(part)
      ensures 0 <= hash(x.name) < bound
    {
      EntryIsRecord(part, x);
      var i :| 0 <= i < |part| && part[i].inode != 0 && part[i].name == x.name && part[i].inode == x.inode;
      assert part[i] == sort[i] && hash(sort[i].name) <= hash(sort[mid - 1].name);
    }
  }

  lemma HighHalf(hash: Hash, sort: seq<Rec>, mid: nat)
    requires AllLive(sort) && SortedBy(hash, sort) && 0 < mid < |sort|
    ensures HashedIn(hash, sort[mid..], hash(sort[mid].name), 0x1_0000_0000)
    ensures Item(sort[mid].name, sort[mid].inode) in Entries(sort[mid..])
  {
    hide Entries;
    var part := sort[mid..];
    assert sort[mid] in sort && part[0] == sort[mid];
    EntryIsRecord(part, Item(sort[mid].name, sort[mid].inode));
    forall x | x in Entries(part)
      ensures hash(sort[mid].name) <= hash(x.name) < 0x1_0000_0000
    {
      EntryIsRecord(part, x);
      var i :| 0 <= i < |part| && part[i].inode != 0 && part[i].name == x.name && part[i].inode == x.inode;
      assert part[i] == sort[mid + i];
    }
  }
}
