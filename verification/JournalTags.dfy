/** Filling descriptor and revoke blocks, and reading them back. */
module JournalTags {
  import opened Words
  import opened JournalFormat
  import opened JournalLayout

  /** Where tag `i` of a descriptor block begins; a UUID follows the first tag. */
  function TagAt(i: nat): nat {
    if i == 0 then HEADER_WORDS else HEADER_WORDS + UUID_WORDS + TAG_WORDS * i
  }

  /** How many tags a descriptor block takes, and how many entries a revoke block. */
  function TagsPerBlock(words: nat): int { (words - HEADER_WORDS - UUID_WORDS) / TAG_WORDS }

  function RevokesPerBlock(words: nat): int { words - REVOKE_HEADER_WORDS }

  /** The first tags of the table. */
  ghost predicate Table(b: Block, tags: seq<Tag>) {
    forall i :: 0 <= i < |tags| ==>
      && TagAt(i) + tags[i].Words() <= |b|
      && b[TagAt(i)] == tags[i].block && b[TagAt(i) + 1] == tags[i].Flags()
      && tags[i].uuid == (i == 0)
  }

  ghost predicate Headed(b: Block, kind: u32, t: u32) {
    |b| >= HEADER_WORDS && b[0] == MAGIC && b[1] == kind && b[2] == t
  }

  /** `jbd_write_block_tag` at word `p`. Clearing `struct jbd_block_tag` also clears the word
      behind a tag without its last member. */
  method WriteBlockTag(b: Block, p: nat, uuid: seq<u32>, tag: Tag) returns (ok: bool, b': Block)
    requires p <= |b| && (|b| - p) % 2 == 1 && |uuid| == UUID_WORDS
    ensures ok <==> |b| - p >= tag.Words()
    ensures |b'| == |b| && forall k :: 0 <= k < p ==> b'[k] == b[k]
    ensures ok ==> b'[p] == tag.block && b'[p + 1] == tag.Flags()
    ensures ok && tag.uuid ==> b'[p + TAG_WORDS..p + TAG_WORDS + UUID_WORDS] == uuid
    ensures ok && !tag.uuid ==> p + 2 < |b| && b'[p + 2] == 0
    ensures ok ==> forall k :: p + TAG_WORDS + (if tag.uuid then UUID_WORDS else 1) <= k < |b| ==> b'[k] == b[k]
    ensures !ok && !tag.uuid ==> b' == b
  {
    b' := b;
    if |b| - p < TAG_WORDS { return false, b'; }
    b' := b'[p := 0][p + 1 := 0][p + 2 := 0];
    b' := b'[p := tag.block];
    var flags := 0;
    if tag.uuid {
      if |b| - p - TAG_WORDS < UUID_WORDS { return false, b'; }
      b' := b'[..p + TAG_WORDS] + uuid + b'[p + TAG_WORDS + UUID_WORDS..];
    } else {
      flags := flags + FLAG_SAME_UUID;
    }
    if tag.last { flags := flags + FLAG_LAST_TAG; }
    if tag.escape { flags := flags + FLAG_ESCAPE; }
    b' := b'[p + 1 := flags];
    ok := true;
  }

  lemma TableOneMore(b: Block, b': Block, tags: seq<Tag>, tag: Tag)
    requires Table(b, tags) && |b'| == |b| && tag.uuid == (|tags| == 0)
    requires var p := TagAt(|tags|);
             && p + tag.Words() <= |b| && (forall k :: 0 <= k < p ==> b'[k] == b[k])
             && b'[p] == tag.block && b'[p + 1] == tag.Flags()
    ensures Table(b', tags + [tag]) && TagAt(|tags| + 1) == TagAt(|tags|) + tag.Words()
  {
  }

  /** The last tag, and only that one, ends the table, or the block is full. */
  ghost predicate Closed(words: nat, tags: seq<Tag>) {
    && tags != [] && |tags| <= TagsPerBlock(words)
    && (forall i :: 0 <= i < |tags| - 1 ==> !tags[i].last)
    && (!tags[|tags| - 1].last ==> |tags| == TagsPerBlock(words))
  }

  lemma TagReadBack(b: Block, p: nat, tag: Tag)
    requires p + tag.Words() <= |b| && b[p] == tag.block && b[p + 1] == tag.Flags()
    ensures ExtractTag(b, p) == Some(tag)
  {
  }

  /** The tags read from a descriptor block are the ones written to it. */
  lemma {:induction false} TagsReadBack(b: Block, tags: seq<Tag>, i: nat)
    requires |b| % 2 == 0 && 16 <= |b| && Table(b, tags) && Closed(|b|, tags) && i < |tags|
    ensures TagAt(i) <= |b| && Tags(b, TagAt(i)) == tags[i..]
    decreases |tags| - i
  {
    TagReadBack(b, TagAt(i), tags[i]);
    hide ExtractTag;
    var q := TagAt(i) + tags[i].Words();
    assert q == TagAt(i + 1) && tags[i..] == [tags[i]] + tags[i + 1..];
    if i + 1 < |tags| {
      TagsReadBack(b, tags, i + 1);
    } else if !tags[i].last {
      assert |b| - q == 1;
      NoTag(b, q);
      assert tags[i + 1..] == [];
    } else {
      assert tags[i + 1..] == [];
    }
  }

  lemma NoTag(b: Block, p: nat)
    requires p < |b| && |b| - p < TAG_WORDS
    ensures Tags(b, p) == []
  {
  }

  /** A logged copy is restored with its magic word. */
  lemma EscapeReadBack(data: Block)
    requires data != []
    ensures Escaped(data)[0] != MAGIC && |Escaped(data)| == |data|
    ensures Unescape(Escaped(data), data[0] == MAGIC) == data
  {
  }

  lemma {:induction false} LoggedWritesAppend(log: seq<Block>, g: Geometry, tags: seq<Tag>, tag: Tag, p: nat)
    requires |log| == g.maxlen && g.Inside(p) && |tags| + 1 < g.Size()
    ensures var q := g.Adv(p, |tags| + 1);
            g.Inside(q) && LoggedWrites(log, g, tags + [tag], p) ==
            LoggedWrites(log, g, tags, p) + [Write(tag.block, Unescape(log[q], tag.escape))]
    decreases |tags|
  {
    var q := g.Inc(p);
    if tags == [] {
      assert [tag][1..] == [];
      assert tags + [tag] == [tag];
    } else {
      assert (tags + [tag])[1..] == tags[1..] + [tag];
      LoggedWritesAppend(log, g, tags[1..], tag, q);
      assert g.Adv(q, |tags|) == g.Adv(p, |tags| + 1);
    }
  }

  /** A descriptor block with `tags` is being filled at block `desc`; behind it lie the copies
      of `ws`, up to `last`. */
  ghost predicate Filling(g: Geometry, log: seq<Block>, last: nat, t: u32, desc: nat, b: Block,
                          tags: seq<Tag>, ws: seq<Write>)
    requires ValidLog(log, g)
  {
    && g.Inside(desc) && |tags| == |ws| && |ws| + 1 < g.Size() && last == g.Adv(desc, 1 + |ws|)
    && |b| == g.words && Headed(b, DESCRIPTOR_BLOCK, t) && Table(b, tags) && |tags| <= TagsPerBlock(g.words)
    && LoggedWrites(log, g, tags, desc) == ws
    && forall k :: 1 <= k <= |ws| ==> log[g.Adv(desc, k)][0] != MAGIC
  }

  lemma FillingBegin(g: Geometry, log: seq<Block>, last: nat, t: u32, desc: nat, b: Block)
    requires ValidLog(log, g) && g.Inside(desc) && last == g.Inc(desc) && g.Size() > 1
    requires |b| == g.words && Headed(b, DESCRIPTOR_BLOCK, t)
    ensures Filling(g, log, last, t, desc, b, [], [])
  {
  }

  lemma FillingMore(g: Geometry, log: seq<Block>, last: nat, t: u32, desc: nat, b: Block,
                    tags: seq<Tag>, ws: seq<Write>, b': Block, w: Write, isLast: bool)
    requires ValidLog(log, g) && Filling(g, log, last, t, desc, b, tags, ws)
    requires |ws| + 2 < g.Size() && |tags| < TagsPerBlock(g.words) && |w.data| == g.words
    requires var tag := Tag(w.block, w.data[0] == MAGIC, |tags| == 0, isLast);
             var p := TagAt(|tags|);
             && p + tag.Words() <= |b| == |b'| && (forall k :: 0 <= k < p ==> b'[k] == b[k])
             && b'[p] == tag.block && b'[p + 1] == tag.Flags()
    ensures g.Inside(last) && ValidLog(log[last := Escaped(w.data)], g)
    ensures var tag := Tag(w.block, w.data[0] == MAGIC, |tags| == 0, isLast);
            Filling(g, log[last := Escaped(w.data)], g.Inc(last), t, desc, b', tags + [tag], ws + [w])
  {
    var tag := Tag(w.block, w.data[0] == MAGIC, |tags| == 0, isLast);
    TableOneMore(b, b', tags, tag);
    EscapeReadBack(w.data);
    hide Table, Tag.Flags, Tag.Words, Escaped, Unescape, LoggedWrites;
    var log' := log[last := Escaped(w.data)];
    LoggedWritesFrame(log, log', g, tags, desc);
    LoggedWritesAppend(log', g, tags, tag, desc);
  }

  /** Writing the descriptor block completes the record. */
  lemma FillingEnd(g: Geometry, log: seq<Block>, last: nat, t: u32, desc: nat, b: Block,
                   tags: seq<Tag>, ws: seq<Write>)
    requires ValidLog(log, g) && g.Valid() && Filling(g, log, last, t, desc, b, tags, ws) && Closed(g.words, tags)
    ensures ValidLog(log[desc := b], g)
    ensures ItemAt(log[desc := b], g, desc, t) == Some(Desc(ws))
    ensures DataUnmarked(log[desc := b], g, desc, Desc(ws))
  {
    var log' := log[desc := b];
    TagsReadBack(b, tags, 0);
    assert tags[0..] == tags;
    LoggedWritesFrame(log, log', g, tags, desc);
  }

  /** `jbd_journal_prepare_revoke`: the block at the end of its table. */
  lemma RevokesReadBack(log: seq<Block>, g: Geometry, p: nat, t: u32, b: Block, entries: seq<u32>)
    requires ValidLog(log, g) && g.Inside(p) && |b| == g.words && |entries| <= RevokesPerBlock(g.words)
    requires Headed(b, REVOKE_BLOCK, t) && b[3] == 16 + 4 * |entries|
    requires b[REVOKE_HEADER_WORDS..REVOKE_HEADER_WORDS + |entries|] == entries
    ensures ItemAt(log[p := b], g, p, t) == Some(Revoke(entries))
    ensures DataUnmarked(log[p := b], g, p, Revoke(entries))
  {
  }
}
