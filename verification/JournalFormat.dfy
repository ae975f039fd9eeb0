/** The on-disk format of the journal: descriptor, revoke and commit blocks, read the
    way the recovery code reads them. A journal block is a sequence of 32-bit words;
    every field of the format without checksums and 64-bit block numbers is made of
    whole words, except the tag word that holds a 16-bit checksum above the 16-bit flags. */
module JournalFormat {

  import opened Words

  type Block = seq<u32>

  const MAGIC: u32 := 0xc03b_3998
  const DESCRIPTOR_BLOCK: u32 := 1
  const COMMIT_BLOCK: u32 := 2
  const REVOKE_BLOCK: u32 := 5

  const FLAG_ESCAPE := 1
  const FLAG_SAME_UUID := 2
  const FLAG_LAST_TAG := 8

  /** Words of `struct jbd_bhdr`, `struct jbd_revoke_header`, a tag, and a UUID. */
  const HEADER_WORDS := 3
  const REVOKE_HEADER_WORDS := 4
  const TAG_WORDS := 2
  const UUID_WORDS := 4

  /** The id after `t`, as a 32-bit counter is incremented. */
  function Succ(t: u32): u32 {
    if t == 0xffff_ffff then 0 else t + 1
  }

  /** The id `n` transactions after `t`. */
  function Plus(t: u32, n: nat): u32 {
    if n == 0 then t else Succ(Plus(t, n - 1))
  }

  /** `trans_id_diff`: the 32-bit difference read as a signed number. */
  function IdDiff(x: u32, y: u32): int {
    var d := x - y;
    if d < -0x8000_0000 then d + 0x1_0000_0000
    else if d >= 0x8000_0000 then d - 0x1_0000_0000
    else d
  }

  lemma {:induction false} PlusIsModular(t: u32, n: nat)
    ensures Plus(t, n) == (t + n) % 0x1_0000_0000
  {
    if n != 0 { PlusIsModular(t, n - 1); }
  }

  lemma {:induction false} PlusPlus(t: u32, i: nat, j: nat)
    ensures Plus(Plus(t, i), j) == Plus(t, i + j)
    decreases j
  {
    if j != 0 { PlusPlus(t, i, j - 1); }
  }

  /** Ids inside a window shorter than 2^31 compare like their distances from its
      beginning, whatever wraps around. */
  lemma IdDiffInWindow(t: u32, i: nat, j: nat)
    requires i < 0x8000_0000 && j < 0x8000_0000
    ensures IdDiff(Plus(t, i), Plus(t, j)) == i - j
  {
    PlusIsModular(t, i);
    PlusIsModular(t, j);
  }

  // ----- Geometry of the ring

  /** The log is the ring of blocks first..maxlen-1; block 0 holds the journal superblock. */
  datatype Geometry = Geometry(first: nat, maxlen: nat, words: nat) {
    ghost predicate Valid() {
      1 <= first < maxlen < 0x8000_0000 && 16 <= words <= 0x4000 && words % 2 == 0
    }

    function Size(): int { maxlen - first }

    predicate Inside(p: int) { first <= p < maxlen }

    /** One step around the ring: increment and `wrap`. */
    function Inc(p: nat): nat
      requires Inside(p)
    {
      if p + 1 >= maxlen then p + 1 - (maxlen - first) else p + 1
    }

    /** `n` single steps. */
    function Skip(p: nat, n: nat): (q: nat)
      requires Inside(p)
      ensures Inside(q)
      decreases n
    {
      if n == 0 then p else Skip(Inc(p), n - 1)
    }

    /** The same, in one addition and one `wrap`; right for at most one lap. */
    function Adv(p: nat, n: int): int {
      if p + n >= maxlen then p + n - (maxlen - first) else p + n
    }

    lemma {:induction false} SkipIsAdv(p: nat, n: nat)
      requires Inside(p) && n <= Size()
      ensures Skip(p, n) == Adv(p, n)
      decreases n
    {
      if n != 0 {
        SkipIsAdv(Inc(p), n - 1);
      }
    }
  }

  // ----- Tags

  datatype Tag = Tag(block: u32, escape: bool, uuid: bool, last: bool) {
    function Words(): nat { if uuid then TAG_WORDS + UUID_WORDS else TAG_WORDS }

    function Flags(): nat {
      (if escape then FLAG_ESCAPE else 0) + (if uuid then 0 else FLAG_SAME_UUID) +
      (if last then FLAG_LAST_TAG else 0)
    }
  }

  predicate HasFlag(flags: nat, flag: nat)
    requires flag > 0
  {
    (flags / flag) % 2 == 1
  }

  /** `jbd_extract_block_tag` at word `p` of descriptor block `b`. */
  function ExtractTag(b: Block, p: nat): Option<Tag>
    requires p <= |b|
  {
    if |b| - p < TAG_WORDS then None
    else
      var flags := b[p + 1] % 0x1_0000;
      var uuid := !HasFlag(flags, FLAG_SAME_UUID);
      if uuid && |b| - p - TAG_WORDS < UUID_WORDS then None
      else Some(Tag(b[p], HasFlag(flags, FLAG_ESCAPE), uuid, HasFlag(flags, FLAG_LAST_TAG)))
  }

  /** All tags of a descriptor block from word `p` on, as `jbd_iterate_block_table` visits them. */
  function Tags(b: Block, p: nat): (tags: seq<Tag>)
    requires p <= |b|
    decreases |b| - p
  {
    if p == |b| then []
    else
      match ExtractTag(b, p)
      case None => []
      case Some(t) => if t.last then [t] else [t] + Tags(b, p + t.Words())
  }

  /** The block numbers of a revoke block. A byte count that would read past the block
      is cut off at its end; the writer never produces one. */
  function RevokedBlocks(b: Block): seq<u32>
    requires |b| >= REVOKE_HEADER_WORDS
  {
    var n := if b[3] < 16 then 0 else (b[3] - 16) / 4;
    var m := if n <= |b| - REVOKE_HEADER_WORDS then n else |b| - REVOKE_HEADER_WORDS;
    b[REVOKE_HEADER_WORDS .. REVOKE_HEADER_WORDS + m]
  }

  // ----- Log records

  datatype Write = Write(block: u32, data: Block)

  /** One record of the log: a descriptor block together with the data blocks it describes,
      a revoke block, or a commit block. */
  datatype Item = Desc(writes: seq<Write>) | Revoke(blocks: seq<u32>) | Commit {
    function Len(): nat { if Desc? then 1 + |writes| else 1 }
  }

  ghost predicate ValidLog(log: seq<Block>, g: Geometry) {
    g.Valid() && |log| == g.maxlen &&
    forall p :: 0 <= p < |log| ==> |log[p]| == g.words
  }

  function Unescape(data: Block, escape: bool): Block {
    if escape && |data| > 0 then data[0 := MAGIC] else data
  }

  /** The logged copies that follow the descriptor block at `p`. */
  function LoggedWrites(log: seq<Block>, g: Geometry, tags: seq<Tag>, p: nat): (ws: seq<Write>)
    requires |log| == g.maxlen && g.Inside(p)
    ensures |ws| == |tags|
  {
    if tags == [] then []
    else
      var q := g.Inc(p);
      [Write(tags[0].block, Unescape(log[q], tags[0].escape))] + LoggedWrites(log, g, tags[1..], q)
  }

  /** The record at block `p`, when it belongs to transaction `t`; None ends the walk. */
  function ItemAt(log: seq<Block>, g: Geometry, p: nat, t: u32): Option<Item>
    requires ValidLog(log, g) && g.Inside(p)
  {
    var b := log[p];
    if b[0] != MAGIC || b[2] != t then None
    else if b[1] == DESCRIPTOR_BLOCK then Some(Desc(LoggedWrites(log, g, Tags(b, HEADER_WORDS), p)))
    else if b[1] == COMMIT_BLOCK then Some(Commit)
    else if b[1] == REVOKE_BLOCK then Some(Revoke(RevokedBlocks(b)))
    else None
  }

  function NextId(t: u32, item: Item): u32 {
    if item.Commit? then Succ(t) else t
  }

  /** `items` is what the log walk meets from block `p` with id `t` until it ends, which it
      does at a block that is no record of the expected transaction or on reaching `start`. */
  ghost predicate IsWalk(log: seq<Block>, g: Geometry, start: nat, p: nat, t: u32, items: seq<Item>)
    requires ValidLog(log, g) && g.Inside(p)
    decreases |items|
  {
    if items == [] then ItemAt(log, g, p, t) == None
    else
      && ItemAt(log, g, p, t) == Some(items[0])
      && var q := g.Skip(p, items[0].Len());
         if q == start then |items| == 1
         else IsWalk(log, g, start, q, NextId(t, items[0]), items[1..])
  }

  /** What the log holds of a block: the magic word is blanked out. */
  function Escaped(data: Block): Block {
    if |data| > 0 && data[0] == MAGIC then data[0 := 0] else data
  }
}
