/** The channel's blocks over the recorder: every byte of the stream is in a resident block or in a
    file, and a resident block holds what the stream holds. */
module LiveChannel {
  import opened LiveCache

  /** As far as the stream goes, the buffer holds its bytes from `key` on. */
  ghost predicate Follows(buf: seq<Byte>, key: nat, stream: seq<Byte>) {
    |buf| == BLOCK_SIZE && forall i :: 0 <= i < BLOCK_SIZE && key + i < |stream| ==> buf[i] == stream[key + i]
  }

  /** The blocks lie at aligned offsets, in order, with a buffer each. */
  ghost predicate Ordered(blocks: seq<Block>)
    reads blocks`key
  {
    && (forall i :: 0 <= i < |blocks| ==> blocks[i].key % BLOCK_SIZE == 0)
    && (forall i, j :: 0 <= i < j < |blocks| ==> blocks[i].key < blocks[j].key && blocks[i].buf != blocks[j].buf)
  }

  ghost predicate Matching(blocks: seq<Block>, stream: seq<Byte>)
    reads blocks`key, set i | 0 <= i < |blocks| :: blocks[i].buf
  {
    forall i :: 0 <= i < |blocks| ==> blocks[i].key <= |stream| && Follows(blocks[i].buf[..], blocks[i].key, stream)
  }

  /** Only a full block leaves the state of being written, and only one on disk counts as saved. */
  ghost predicate Staged(blocks: seq<Block>, size: nat, saved: map<nat, Place>)
    reads blocks`key, blocks`state
  {
    forall i :: 0 <= i < |blocks| ==>
      && (blocks[i].key + BLOCK_SIZE > size ==> blocks[i].state == Writing)
      && (blocks[i].state == Saved ==> blocks[i].key in saved)
  }

  ghost function Keys(blocks: seq<Block>): (s: set<nat>)
    reads blocks`key
  {
    set i | 0 <= i < |blocks| :: blocks[i].key
  }

  /** No accepted byte is lost: each block of the stream is among the resident ones or on disk. */
  ghost predicate NothingLost(disk: Disk, stream: seq<Byte>, saved: map<nat, Place>, resident: set<nat>) {
    && (forall k :: k in saved ==> OnDisk(disk, stream, k, saved[k]))
    && (forall k {:trigger k in resident} :: 0 <= k < |stream| && k % BLOCK_SIZE == 0 ==> k in resident || k in saved)
  }

  /** A file that is emptied is named by the block that is being written, and holds no other. */
  lemma RecordKeeps(was: Disk, disk: Disk, stream: seq<Byte>, saved: map<nat, Place>, resident: set<nat>,
                    key: nat, done: bool, place: Place)
    requires NothingLost(was, stream, saved, resident) && key in resident && |stream| == key + BLOCK_SIZE
    requires forall f :: f in was && f != key ==> f in disk && was[f] <= disk[f]
    requires done ==> OnDisk(disk, stream, key, place)
    ensures NothingLost(disk, stream, if done then saved[key := place] else saved - {key}, resident)
  {
    var now := if done then saved[key := place] else saved - {key};
    forall k | k in now ensures OnDisk(disk, stream, k, now[k]) {
      if k != key {
        assert OnDisk(was, stream, k, saved[k]);
        var p := saved[k];
        assert disk[p.file][p.at..p.at + BLOCK_SIZE] == was[p.file][p.at..p.at + BLOCK_SIZE];
      }
    }
  }

  /** More of the stream needs no more than the block that it goes to. */
  lemma WriteKeeps(disk: Disk, stream: seq<Byte>, more: seq<Byte>, saved: map<nat, Place>, resident: set<nat>, last: nat)
    requires NothingLost(disk, stream, saved, resident) && last in resident
    requires last <= |stream| && |stream| + |more| <= last + BLOCK_SIZE && last % BLOCK_SIZE == 0
    ensures NothingLost(disk, stream + more, saved, resident)
  {
    var longer := stream + more;
    forall k | k in saved ensures OnDisk(disk, longer, k, saved[k]) {
      assert OnDisk(disk, stream, k, saved[k]);
      assert longer[k..k + BLOCK_SIZE] == stream[k..k + BLOCK_SIZE];
    }
    forall k | 0 <= k < |longer| && k % BLOCK_SIZE == 0 ensures k in resident || k in saved {
      if k >= |stream| {
        SameBlock(k, last);
      }
    }
  }

  lemma SameBlock(k: nat, last: nat)
    requires k % BLOCK_SIZE == 0 && last % BLOCK_SIZE == 0 && last <= k < last + BLOCK_SIZE
    ensures k == last
  {
  }

  /** On a reliable run the blocks are consecutive, only the last is not saved, and the first one is
      let go of only when the pool has no other. */
  ghost predicate Windowed(blocks: seq<Block>, avail: nat, capacity: nat)
    reads blocks`key, (if blocks == [] then [] else blocks[..|blocks| - 1])`state
  {
    && |blocks| + avail == capacity && avail >= 1 && capacity > 1
    && (forall i :: 0 <= i < |blocks| ==>
      blocks[i].key + (|blocks| - 1 - i) * BLOCK_SIZE == blocks[|blocks| - 1].key)
    && (forall i :: 0 <= i < |blocks| - 1 ==> blocks[i].state == Saved)
    && (blocks != [] && avail > 1 ==> blocks[0].key == 0)
  }

  /** Which block was given to which stretch of the stream: each resident one to its own, and none to
      a stretch behind the last. */
  ghost predicate Holding(blocks: seq<Block>, held: map<nat, Block>)
    reads blocks`key
  {
    HeldBy(blocks, held) && forall k :: k in held ==> held[k] in blocks && k <= blocks[|blocks| - 1].key
  }

  ghost predicate HeldBy(blocks: seq<Block>, held: map<nat, Block>)
    reads blocks`key
  {
    forall i :: 0 <= i < |blocks| ==> blocks[i].key in held && held[blocks[i].key] == blocks[i]
  }

  ghost predicate Grown(was: map<nat, Block>, now: map<nat, Block>) {
    forall k :: k in was ==> k in now && now[k] == was[k]
  }

  lemma GrownSelf(a: map<nat, Block>)
    ensures Grown(a, a)
  {
  }

  lemma GrownTrans(a: map<nat, Block>, b: map<nat, Block>, c: map<nat, Block>)
    requires Grown(a, b) && Grown(b, c)
    ensures Grown(a, c)
  {
  }

  ghost predicate HeldBelow(held: map<nat, Block>, blocks: seq<Block>, at: nat) {
    forall k :: k in held ==> k < at && held[k] in blocks
  }

  lemma HeldWithout(blocks: seq<Block>, i: nat, held: map<nat, Block>, at: nat)
    requires i < |blocks| && Holding(blocks, held) && forall j :: 0 <= j < |blocks| ==> blocks[j].key < at
    ensures var others := blocks[..i] + blocks[i + 1..]; HeldBy(others, held) && HeldBelow(held, others + [blocks[i]], at)
  {
    SameBlocks(blocks, i);
  }

  lemma HeldBefore(blocks: seq<Block>, b: Block, held: map<nat, Block>, at: nat)
    requires Holding(blocks, held) && forall j :: 0 <= j < |blocks| ==> blocks[j].key < at
    ensures HeldBy(blocks, held) && HeldBelow(held, blocks + [b], at)
  {
  }

  lemma HeldWith(others: seq<Block>, b: Block, held: map<nat, Block>, at: nat)
    requires HeldBy(others, held) && HeldBelow(held, others + [b], at) && b.key == at
    ensures Holding(others + [b], held[at := b]) && Grown(held, held[at := b])
  {
  }

  lemma Reach(blocks: seq<Block>, avail: nat, capacity: nat, k: nat) returns (i: nat)
    requires blocks != [] && Windowed(blocks, avail, capacity) && k % BLOCK_SIZE == 0
    requires var last := blocks[|blocks| - 1].key;
      last % BLOCK_SIZE == 0 && k <= last < k + (capacity - 1) * BLOCK_SIZE
    ensures i < |blocks| && blocks[i].key == k
  {
    var last := blocks[|blocks| - 1].key;
    Multiple(k, last);
    var back := (last - k) / BLOCK_SIZE;
    assert blocks[0].key + (|blocks| - 1) * BLOCK_SIZE == last;
    i := |blocks| - 1 - back;
    assert blocks[i].key + back * BLOCK_SIZE == last;
  }

  lemma KeysReach(blocks: seq<Block>, avail: nat, capacity: nat, k: nat)
    requires blocks != [] && Windowed(blocks, avail, capacity) && k % BLOCK_SIZE == 0
    requires var last := blocks[|blocks| - 1].key; last % BLOCK_SIZE == 0 && k <= last
    ensures k in Keys(blocks) <==> blocks[|blocks| - 1].key < k + (capacity - 1) * BLOCK_SIZE
  {
    hide Windowed;
    if k in Keys(blocks) {
      var i :| 0 <= i < |blocks| && blocks[i].key == k;
      WithinReach(blocks, avail, capacity, i);
    }
    if blocks[|blocks| - 1].key < k + (capacity - 1) * BLOCK_SIZE {
      var i := Reach(blocks, avail, capacity, k);
      assert blocks[i].key in Keys(blocks);
    }
  }

  lemma Multiple(a: nat, b: nat)
    requires a % BLOCK_SIZE == 0 && b % BLOCK_SIZE == 0 && a < b + BLOCK_SIZE
    ensures a <= b && b == a + (b - a) / BLOCK_SIZE * BLOCK_SIZE
  {
  }

  lemma WithinReach(blocks: seq<Block>, avail: nat, capacity: nat, i: nat)
    requires i < |blocks| && Windowed(blocks, avail, capacity)
    ensures blocks[|blocks| - 1].key < blocks[i].key + (capacity - 1) * BLOCK_SIZE
  {
  }

  class Channel {
    const recorder: Recorder
    /** How many free blocks the pool began with. */
    ghost const capacity: nat
    /** The tree of blocks, in the order of their keys. */
    var blocks: seq<Block>
    /** The free blocks of the pool, of which the last is never given out. */
    var avail: nat
    ghost var stream: seq<Byte>
    /** Where the blocks that were written completely are. */
    ghost var saved: map<nat, Place>
    ghost var resident: set<nat>
    /** The block given to each stretch so far. */
    ghost var held: map<nat, Block>

    ghost function RecordedTo(): nat
      reads this`blocks, blocks`key
    {
      if blocks == [] then 0 else blocks[|blocks| - 1].key
    }

    ghost predicate Cached()
      reads this`blocks, this`stream, this`resident, this`held, blocks`key
      reads set i | 0 <= i < |blocks| :: blocks[i].buf
    {
      && Ordered(blocks) && Matching(blocks, stream) && resident == Keys(blocks) && Holding(blocks, held)
      && (blocks == [] ==> stream == [])
      && (blocks != [] ==> |stream| <= RecordedTo() + BLOCK_SIZE)
    }

    ghost predicate Valid()
      reads this, recorder, blocks, set i | 0 <= i < |blocks| :: blocks[i].buf
    {
      && recorder.Valid() && Cached() && Staged(blocks, |stream|, saved)
      && NothingLost(recorder.disk, stream, saved, resident)
      && (recorder.reliable ==>
        Recorded(recorder.recdsize, recorder.index, recorder.disk, stream, RecordedTo()) && Windowed(blocks, avail, capacity))
    }

    constructor (recorder: Recorder, avail: nat)
      requires recorder.Valid() && recorder.index == [] && (recorder.reliable ==> avail > 1)
      ensures Valid() && stream == [] && blocks == [] && this.recorder == recorder && capacity == avail
    {
      this.recorder, this.avail, capacity := recorder, avail, avail;
      blocks, stream, saved, resident, held := [], [], map[], {}, map[];
    }

    /** `rbt_search_int` on the blocks. */
    method Search(key: nat) returns (b: Block?)
      requires Cached()
      ensures b != null ==> b in blocks && b.key == key
      ensures b == null ==> key !in resident
    {
      var i := 0;
      while i < |blocks|
        invariant 0 <= i <= |blocks| && forall j :: 0 <= j < i ==> blocks[j].key != key
      {
        if blocks[i].key == key {
          return blocks[i];
        }
        i := i + 1;
      }
      b := null;
    }

    /** The last block, full now, is written out. */
    method RecordLast()
      requires recorder.Valid() && Cached() && Staged(blocks, |stream|, saved)
      requires NothingLost(recorder.disk, stream, saved, resident)
      requires blocks != [] && |stream| == RecordedTo() + BLOCK_SIZE
      requires recorder.reliable ==> Recorded(recorder.recdsize, recorder.index, recorder.disk, stream, RecordedTo())
      modifies {blocks[|blocks| - 1]}`state, recorder, this`saved
      ensures recorder.Valid() && Cached() && Staged(blocks, |stream|, saved)
      ensures NothingLost(recorder.disk, stream, saved, resident)
      ensures recorder.reliable ==>
        blocks[|blocks| - 1].state == Saved && Recorded(recorder.recdsize, recorder.index, recorder.disk, stream, |stream|)
    {
      hide NothingLost, Recorded, OnDisk, Staged, Matching, Ordered, Holding, Keys;
      LastIsWhole();
      ghost var key, had := RecordedTo(), saved;
      MarkLast(Full, had);
      ghost var place;
      var done;
      done, place := RecordOut(blocks[|blocks| - 1]);
      if done {
        MarkLast(Saved, had[key := place]);
      } else {
        MarkLast(Full, had - {key});
      }
    }

    /** The block goes to a file, or what was known of it there is not known any more. */
    method RecordOut(lb: Block) returns (done: bool, ghost place: Place)
      requires recorder.Valid() && NothingLost(recorder.disk, stream, saved, resident)
      requires lb.key in resident && |stream| == lb.key + BLOCK_SIZE && lb.buf[..] == stream[lb.key..lb.key + BLOCK_SIZE]
      requires recorder.reliable ==> Recorded(recorder.recdsize, recorder.index, recorder.disk, stream, lb.key)
      modifies recorder
      ensures recorder.Valid()
      ensures NothingLost(recorder.disk, stream, if done then saved[lb.key := place] else saved - {lb.key}, resident)
      ensures recorder.reliable ==> done && Recorded(recorder.recdsize, recorder.index, recorder.disk, stream, |stream|)
    {
      hide NothingLost, Recorded, OnDisk;
      ghost var was := recorder.disk;
      done, place := recorder.Record(lb.key, lb.buf[..], stream);
      RecordKeeps(was, recorder.disk, stream, saved, resident, lb.key, done, place);
    }

    lemma LastIsWhole()
      requires Cached() && blocks != [] && |stream| == RecordedTo() + BLOCK_SIZE
      ensures var lb := blocks[|blocks| - 1];
        lb.buf[..] == stream[lb.key..lb.key + BLOCK_SIZE] && lb.key in resident && |stream| == lb.key + BLOCK_SIZE
    {
    }

    /** The state of the last block, and what is known of the saved ones. */
    method MarkLast(state: State, ghost now: map<nat, Place>)
      requires Ordered(blocks) && Staged(blocks, |stream|, saved)
      requires blocks != [] && |stream| == RecordedTo() + BLOCK_SIZE
      requires (state == Full || state == Saved) && (state == Saved ==> RecordedTo() in now)
      requires forall k :: k in saved && k != RecordedTo() ==> k in now
      modifies {blocks[|blocks| - 1]}`state, this`saved
      ensures Staged(blocks, |stream|, saved) && saved == now && blocks[|blocks| - 1].state == state
    {
      blocks[|blocks| - 1].state := state;
      saved := now;
    }

    /** A buffer for the block at the end of the stream: from the pool, or else from the first block
        that is on disk. Null when there is neither. */
    method NewBlock(at: nat) returns (block: Block?)
      requires recorder.Valid() && Cached() && Staged(blocks, |stream|, saved)
      requires NothingLost(recorder.disk, stream, saved, resident)
      requires at == |stream| && at % BLOCK_SIZE == 0 && at !in resident
      requires blocks != [] ==> at == RecordedTo() + BLOCK_SIZE
      requires blocks == [] ==> at == 0
      requires recorder.reliable ==>
        Windowed(blocks, avail, capacity) && (blocks == [] || blocks[|blocks| - 1].state == Saved)
      modifies this`blocks, this`avail, this`resident, this`held, blocks`key, blocks`state
      ensures recorder.reliable ==> Windowed(blocks, avail, capacity)
      ensures Cached() && Staged(blocks, |stream|, saved) && NothingLost(recorder.disk, stream, saved, resident)
      ensures block == null ==> blocks == old(blocks) && !recorder.reliable
      ensures block != null ==> blocks != [] && blocks[|blocks| - 1] == block && block.key == |stream|
      ensures Kept(old(blocks))
    {
      hide NothingLost, Keys, Matching, Staged, Ordered, Windowed, Holding;
      if avail <= 1 {
        block := OldBlock(at);
      } else {
        block := FreshBlock(at);
      }
    }

    /** The first block on disk gives its buffer. */
    method OldBlock(at: nat) returns (block: Block?)
      requires recorder.Valid() && Cached() && Staged(blocks, |stream|, saved)
      requires NothingLost(recorder.disk, stream, saved, resident)
      requires at == |stream| && at % BLOCK_SIZE == 0 && at !in resident
      requires blocks != [] ==> at == RecordedTo() + BLOCK_SIZE
      requires blocks == [] ==> at == 0
      requires recorder.reliable ==>
        Windowed(blocks, avail, capacity) && (blocks == [] || blocks[|blocks| - 1].state == Saved)
      requires avail <= 1
      modifies this`blocks, this`resident, this`held, blocks`key, blocks`state
      ensures recorder.reliable ==> Windowed(blocks, avail, capacity)
      ensures Cached() && Staged(blocks, |stream|, saved) && NothingLost(recorder.disk, stream, saved, resident)
      ensures block == null ==> blocks == old(blocks) && !recorder.reliable
      ensures block != null ==> blocks != [] && blocks[|blocks| - 1] == block && block.key == |stream|
      ensures (forall b :: b in blocks <==> b in old(blocks)) && Grown(old(held), held)
    {
      hide NothingLost, Keys, Matching, Staged, Ordered, Holding, Grown;
      FirstIsSaved();
      GrownSelf(held);
      hide Windowed;
      var i := FindSaved();
      if i == |blocks| {
        return null;
      }
      block := blocks[i];
      SameBlocks(blocks, i);
      OthersKept(i);
      Reuse(i, at);
      if recorder.reliable {
        WindowMoves(at);
      }
    }

    method FindSaved() returns (i: nat)
      ensures i <= |blocks| && (i < |blocks| ==> blocks[i].state == Saved)
      ensures forall j :: 0 <= j < i ==> blocks[j].state != Saved
    {
      i := 0;
      while i < |blocks| && blocks[i].state != Saved
        invariant 0 <= i <= |blocks| && forall j :: 0 <= j < i ==> blocks[j].state != Saved
      {
        i := i + 1;
      }
    }

    lemma OthersKept(i: nat)
      requires Ordered(blocks) && i < |blocks|
      ensures forall j :: 0 <= j < |blocks| && j != i ==> blocks[j] != blocks[i]
    {
    }

    lemma FirstIsSaved()
      requires recorder.reliable ==>
        Windowed(blocks, avail, capacity) && (blocks == [] || blocks[|blocks| - 1].state == Saved)
      requires avail <= 1
      ensures recorder.reliable ==> blocks != [] && blocks[0].state == Saved
    {
    }

    /** A buffer of the pool; when there is no memory for the record of the block, it stays taken. */
    method FreshBlock(at: nat) returns (block: Block?)
      requires recorder.Valid() && Cached() && Staged(blocks, |stream|, saved)
      requires NothingLost(recorder.disk, stream, saved, resident)
      requires at == |stream| && at % BLOCK_SIZE == 0 && at !in resident
      requires blocks != [] ==> at == RecordedTo() + BLOCK_SIZE
      requires blocks == [] ==> at == 0
      requires recorder.reliable ==>
        Windowed(blocks, avail, capacity) && (blocks == [] || blocks[|blocks| - 1].state == Saved)
      requires avail > 1
      modifies this`blocks, this`avail, this`resident, this`held
      ensures recorder.reliable ==> Windowed(blocks, avail, capacity)
      ensures Cached() && Staged(blocks, |stream|, saved) && NothingLost(recorder.disk, stream, saved, resident)
      ensures block == null ==> blocks == old(blocks) && !recorder.reliable
      ensures block != null ==> blocks != [] && blocks[|blocks| - 1] == block && block.key == |stream|
      ensures avail == old(avail) - 1 && Grown(old(held), held)
      ensures block != null ==> fresh(block) && fresh(block.buf) && blocks == old(blocks) + [block]
    {
      hide NothingLost, Keys, Matching, Staged, Ordered, Windowed, Holding;
      avail := avail - 1;
      var ok: bool :| recorder.reliable ==> ok;
      if !ok {
        return null;
      }
      block := new Block(at);
      AddLast(block, at);
      if recorder.reliable {
        WindowMoves(at);
      }
    }

    twostate lemma WindowMoves(at: nat)
      requires old(Windowed(blocks, avail, capacity) && (blocks == [] || blocks[|blocks| - 1].state == Saved))
      requires at == if old(blocks) == [] then 0 else old(RecordedTo()) + BLOCK_SIZE
      requires forall j :: 1 <= j < |old(blocks)| ==>
        old(blocks)[j].key == old(blocks[j].key) && old(blocks)[j].state == old(blocks[j].state)
      requires
        || (old(avail) <= 1 && old(blocks) != [] && avail == old(avail) && blocks == old(blocks)[1..] + [old(blocks)[0]])
        || (old(avail) > 1 && avail == old(avail) - 1 && |blocks| == |old(blocks)| + 1 && old(blocks) <= blocks &&
            (old(blocks) != [] ==> old(blocks)[0].key == old(blocks[0].key) && old(blocks)[0].state == old(blocks[0].state)))
      requires blocks != [] && blocks[|blocks| - 1].key == at
      ensures Windowed(blocks, avail, capacity)
    {
      var was, n := old(blocks), |old(blocks)|;
      var shift := |was| + 1 - |blocks|;
      forall j | 0 <= j < |blocks| - 1
        ensures blocks[j] == was[j + shift] && blocks[j].key + (|blocks| - 1 - j) * BLOCK_SIZE == at
        ensures blocks[j].state == Saved
      {
        assert old(was[j + shift].key + (n - 1 - (j + shift)) * BLOCK_SIZE == was[n - 1].key);
      }
    }

    /** The node moves from its old key to the end. */
    method Reuse(i: nat, at: nat)
      requires Cached() && Staged(blocks, |stream|, saved) && NothingLost(recorder.disk, stream, saved, resident)
      requires i < |blocks| && blocks[i].state == Saved && at == |stream| && at % BLOCK_SIZE == 0 && at !in resident
      modifies this`blocks, this`resident, this`held, {blocks[i]}`key, {blocks[i]}`state
      ensures blocks == old(blocks)[..i] + old(blocks)[i + 1..] + [old(blocks)[i]] && old(blocks)[i].key == at
      ensures Grown(old(held), held)
      ensures Cached() && Staged(blocks, |stream|, saved) && NothingLost(recorder.disk, stream, saved, resident)
    {
      hide NothingLost, Ordered, Matching, Staged, Keys, Holding, HeldBy, HeldBelow, Grown;
      ghost var lost := blocks[i].key;
      KeysWithout(blocks, i);
      Below(at);
      HeldWithout(blocks, i, held, at);
      Shortened(blocks, i, stream, saved, at);
      ReuseKeeps(recorder.disk, stream, saved, resident, lost, at);
      var fb := blocks[i];
      blocks := blocks[..i] + blocks[i + 1..];
      fb.key := at;
      fb.state := Writing;
      resident := resident - {lost};
      Append(fb, at);
    }

    /** A block for the end of the stream takes its place after all others. */
    method Append(block: Block, at: nat)
      requires Ordered(blocks) && Matching(blocks, stream) && Staged(blocks, |stream|, saved) && resident == Keys(blocks)
      requires HeldBy(blocks, held) && HeldBelow(held, blocks + [block], at)
      requires NothingLost(recorder.disk, stream, saved, resident + {at})
      requires at == |stream| && at % BLOCK_SIZE == 0
      requires block.key == at && block.state == Writing && block.buf.Length == BLOCK_SIZE
      requires forall j :: 0 <= j < |blocks| ==> blocks[j].key < at && blocks[j].buf != block.buf
      modifies this`blocks, this`resident, this`held
      ensures blocks == old(blocks) + [block] && Grown(old(held), held)
      ensures Cached() && Staged(blocks, |stream|, saved) && NothingLost(recorder.disk, stream, saved, resident)
    {
      hide NothingLost, Ordered, Matching, Staged, Keys, Holding, HeldBy, HeldBelow, Grown, Follows;
      Extended(blocks, block, stream, saved, at);
      HeldWith(blocks, block, held, at);
      blocks := blocks + [block];
      resident := resident + {at};
      held := held[at := block];
    }

    /** A key that no block has, at the end, is greater than all. */
    lemma Below(at: nat)
      requires Cached() && at == |stream| && at !in resident
      ensures forall j :: 0 <= j < |blocks| ==> blocks[j].key < at
    {
      forall j | 0 <= j < |blocks| ensures blocks[j].key < at {
        assert blocks[j].key in resident;
      }
    }

    method AddLast(block: Block, at: nat)
      requires Cached() && Staged(blocks, |stream|, saved) && NothingLost(recorder.disk, stream, saved, resident)
      requires at == |stream| && at % BLOCK_SIZE == 0 && at !in resident
      requires block !in blocks && block.buf.Length == BLOCK_SIZE
      requires forall j :: 0 <= j < |blocks| ==> blocks[j].buf != block.buf
      modifies this`blocks, this`resident, this`held, block
      ensures blocks == old(blocks) + [block] && block.key == at && Grown(old(held), held)
      ensures Cached() && Staged(blocks, |stream|, saved) && NothingLost(recorder.disk, stream, saved, resident)
    {
      hide NothingLost, Ordered, Matching, Staged, Keys, Holding, HeldBy, HeldBelow, Grown, Follows;
      AddKeeps(recorder.disk, stream, saved, resident, at);
      Below(at);
      HeldBefore(blocks, block, held, at);
      SetUp(block, at);
      Append(block, at);
    }

    /** A block that is not in the tree yet. */
    method SetUp(block: Block, at: nat)
      requires block !in blocks && Ordered(blocks) && Matching(blocks, stream) && Staged(blocks, |stream|, saved)
      requires HeldBy(blocks, held) && resident == Keys(blocks)
      modifies block`key, block`state
      ensures block.key == at && block.state == Writing
      ensures Ordered(blocks) && Matching(blocks, stream) && Staged(blocks, |stream|, saved) && HeldBy(blocks, held)
      ensures resident == Keys(blocks)
      ensures forall j :: 0 <= j < |blocks| ==> blocks[j].key == old(blocks[j].key)
    {
      hide Ordered, Matching, Staged, HeldBy, Keys;
      block.key := at;
      block.state := Writing;
    }

    /** `rns_memcpy` into the buffer. */
    method Store(block: Block, at: nat, bytes: seq<Byte>)
      requires at + |bytes| <= block.buf.Length
      modifies block.buf
      ensures block.buf[..] == old(block.buf[..at]) + bytes + old(block.buf[at + |bytes|..])
    {
      var i := 0;
      while i < |bytes|
        invariant 0 <= i <= |bytes|
        invariant forall k :: 0 <= k < i ==> block.buf[at + k] == bytes[k]
        invariant forall k :: 0 <= k < block.buf.Length && !(at <= k < at + i) ==> block.buf[k] == old(block.buf[k])
      {
        block.buf[at + i] := bytes[i];
        i := i + 1;
      }
    }

    /** As much as fits goes to the last block. */
    method WriteLast(block: Block, at: nat, bytes: seq<Byte>)
      requires Cached() && Staged(blocks, |stream|, saved) && NothingLost(recorder.disk, stream, saved, resident)
      requires recorder.reliable ==> Recorded(recorder.recdsize, recorder.index, recorder.disk, stream, RecordedTo())
      requires blocks != [] && block == blocks[|blocks| - 1] && at == |stream| - block.key
      requires block.key <= |stream| && at + |bytes| <= BLOCK_SIZE
      modifies block.buf, this`stream
      ensures stream == old(stream) + bytes
      ensures Cached() && Staged(blocks, |stream|, saved) && NothingLost(recorder.disk, stream, saved, resident)
      ensures recorder.reliable ==> Recorded(recorder.recdsize, recorder.index, recorder.disk, stream, RecordedTo())
    {
      hide NothingLost, Recorded, Follows, Matching, Ordered, Staged;
      LastOf(blocks, stream);
      WriteKeeps(recorder.disk, stream, bytes, saved, resident, block.key);
      if recorder.reliable {
        RecordedLonger(recorder.recdsize, recorder.index, recorder.disk, stream, bytes, RecordedTo());
      }
      BeforeLast(blocks, stream, bytes);
      StagedMore(blocks, |stream|, |stream + bytes|, saved);
      FollowsMore(block.buf[..], block.key, stream, bytes);
      ghost var content := block.buf[..];
      assert content[..at] == block.buf[..at] && content[at + |bytes|..] == block.buf[at + |bytes|..];
      Store(block, at, bytes);
      stream := stream + bytes;
      Rejoined(blocks, stream);
    }

    /** The block that the end of the stream falls into: a resident one, or a new one once the last is
        written out. */
    method CurrentBlock(at: nat) returns (block: Block?)
      requires Valid() && at == Align(|stream|)
      modifies this`blocks, this`avail, this`resident, this`held, this`saved, recorder, blocks`key, blocks`state
      ensures Valid()
      ensures block == null ==> !recorder.reliable
      ensures block != null ==> blocks != [] && block == blocks[|blocks| - 1] && block.key == at
      ensures Kept(old(blocks))
    {
      hide NothingLost, Recorded, Matching, Staged, Keys, Ordered, Windowed, Holding;
      block := Search(at);
      if block == null {
        WholeBlocks(at);
        block := NextBlock(at);
      } else {
        LastIsCurrent(block, at);
      }
    }

    /** The last block is written out, and a block for the end of the stream comes after it. */
    method NextBlock(at: nat) returns (block: Block?)
      requires Valid() && at == |stream| && at % BLOCK_SIZE == 0 && at !in resident
      requires blocks != [] ==> at == RecordedTo() + BLOCK_SIZE
      requires blocks == [] ==> at == 0
      modifies this`blocks, this`avail, this`resident, this`held, this`saved, recorder, blocks`key, blocks`state
      ensures recorder.Valid() && Cached() && Staged(blocks, |stream|, saved)
      ensures NothingLost(recorder.disk, stream, saved, resident)
      ensures recorder.reliable ==>
        && block != null && Recorded(recorder.recdsize, recorder.index, recorder.disk, stream, RecordedTo())
        && Windowed(blocks, avail, capacity)
      ensures block != null ==> blocks != [] && block == blocks[|blocks| - 1] && block.key == at
      ensures Kept(old(blocks))
    {
      hide NothingLost, Recorded, Matching, Staged, Keys, Ordered, Windowed, Holding;
      if blocks != [] {
        LastApart();
        RecordLast();
      }
      block := NewBlock(at);
    }

    /** No block leaves, and those that were not here before, and their buffers, are new. */
    twostate predicate Kept(was: seq<Block>)
      reads this, blocks
    {
      && (forall b :: b in was ==> b in blocks) && Grown(old(held), held)
      && fresh(set b | b in blocks && b !in was)
      && fresh(set b | b in blocks && b !in was :: b.buf)
    }

    lemma LastApart()
      requires Ordered(blocks) && blocks != []
      ensures blocks[|blocks| - 1] !in blocks[..|blocks| - 1]
    {
    }

    lemma WholeBlocks(at: nat)
      requires Cached() && at == Align(|stream|) && at !in resident
      ensures at == |stream| && at % BLOCK_SIZE == 0
      ensures blocks != [] ==> |stream| == RecordedTo() + BLOCK_SIZE
      ensures blocks == [] ==> |stream| == 0
    {
      if blocks != [] {
        LastOf(blocks, stream);
        Between(at, RecordedTo());
      }
    }

    lemma Between(at: nat, last: nat)
      requires at % BLOCK_SIZE == 0 && last % BLOCK_SIZE == 0 && at != last && last < at + BLOCK_SIZE && at <= last + BLOCK_SIZE
      ensures at == last + BLOCK_SIZE
    {
    }

    lemma LastIsCurrent(block: Block, at: nat)
      requires Cached() && at == Align(|stream|) && block in blocks && block.key == at
      ensures block == blocks[|blocks| - 1]
    {
      var i :| 0 <= i < |blocks| && blocks[i] == block;
      LastOf(blocks, stream);
      if i < |blocks| - 1 {
        Multiples(at, RecordedTo());
      }
    }

    /** What fits into the block at the end of the stream; nothing when there is no such block. */
    method WriteSome(gop: Gop, buf: seq<Byte>) returns (len: nat)
      requires Valid() && gop.offset + gop.len == |stream| && buf != []
      modifies this, recorder, gop`len, blocks`key, blocks`state, set i | 0 <= i < |blocks| :: blocks[i].buf
      ensures Valid() && gop.offset + gop.len == |stream| && Kept(old(blocks))
      ensures len <= |buf| && stream == old(stream) + buf[..len]
      ensures recorder.reliable ==> len > 0
    {
      hide NothingLost, Recorded, Matching, Staged, Keys, Ordered, Windowed, Holding;
      var offset := gop.offset + gop.len;
      var at := Align(offset);
      len := 0;
      var block := CurrentBlock(at);
      if block != null {
        len := if |buf| < BLOCK_SIZE - offset + at then |buf| else BLOCK_SIZE - offset + at;
        WriteLast(block, offset - at, buf[..len]);
        gop.len := gop.len + len;
      }
    }

    /** `gop_write`: the bytes go to the end of the stream, all of them when everything is reliable. */
    method GopWrite(gop: Gop, buf: seq<Byte>) returns (ghost n: nat)
      requires Valid() && gop.offset + gop.len == |stream|
      modifies this, recorder, gop`len, blocks`key, blocks`state, set i | 0 <= i < |blocks| :: blocks[i].buf
      ensures Valid() && gop.offset + gop.len == |stream| && Kept(old(blocks))
      ensures n <= |buf| && stream == old(stream) + buf[..n]
      ensures recorder.reliable ==> n == |buf|
    {
      hide NothingLost, Recorded, Matching, Staged, Keys, Ordered, Windowed, Holding;
      hide Grown;
      GrownSelf(held);
      var writebytes := 0;
      while writebytes < |buf|
        invariant 0 <= writebytes <= |buf|
        invariant Valid() && gop.offset + gop.len == |stream| && Kept(old(blocks))
        invariant stream == old(stream) + buf[..writebytes]
      {
        ghost var before := held;
        var len := WriteSome(gop, buf[writebytes..]);
        GrownTrans(old(held), before, held);
        assert buf[..writebytes] + buf[writebytes..][..len] == buf[..writebytes + len];
        if len == 0 {
          return writebytes;
        }
        writebytes := writebytes + len;
      }
      n := writebytes;
    }

    /** Every accepted byte is in the resident block that it belongs to, or in a file. */
    lemma EveryByteIsKept(p: nat)
      requires Valid() && p < |stream|
      ensures
        || (exists b :: b in blocks && b.key == Align(p) && b.buf.Length == BLOCK_SIZE && b.buf[p - b.key] == stream[p])
        || (Align(p) in saved && OnDisk(recorder.disk, stream, Align(p), saved[Align(p)]))
    {
      var k := Align(p);
      if k in resident {
        var i :| 0 <= i < |blocks| && blocks[i].key == k;
        assert Follows(blocks[i].buf[..], k, stream);
        assert k + (p - k) == p;
        assert blocks[i].buf[..][p - k] == stream[p];
        assert blocks[i] in blocks;
      }
    }

    /** The blocks that a stretch of the stream lies in are resident. */
    ghost predicate AllResident(from: nat, to: nat)
      reads this`resident
    {
      forall p :: from <= p < to ==> Align(p) in resident
    }

    /** On a reliable run the resident blocks are the last ones of the stream, as many as the pool
        gives out. */
    lemma ResidentExactly(p: nat)
      requires Valid() && recorder.reliable && p < |stream|
      ensures Align(p) in resident <==> RecordedTo() < Align(p) + (capacity - 1) * BLOCK_SIZE
    {
      LastOf(blocks, stream);
      hide NothingLost, Recorded, Staged, Matching, Holding, Windowed, Ordered, Keys;
      Multiple(Align(p), RecordedTo());
      KeysReach(blocks, avail, capacity, Align(p));
    }

    /** On a reliable run, while their sizes fit into the result of `stat`, every recorded file but the
        last is longer than `recdsize`, and none by more than a block. */
    lemma FileLengths(i: nat)
      requires Valid() && recorder.reliable && recorder.recdsize + BLOCK_SIZE < TWO_TO_THE_31 && i < |recorder.index|
      ensures var k := recorder.index[i];
        && k in recorder.disk && |recorder.disk[k]| <= recorder.recdsize + BLOCK_SIZE
        && (i + 1 < |recorder.index| ==> recorder.recdsize < |recorder.disk[k]|)
    {
      assert SizedFile(recorder.index, i, recorder.disk, recorder.recdsize);
    }

    /** The slice was attached: its block was given to the stretch of the stream that it lies in. */
    ghost predicate Attached(s: Slice)
      reads this`held
    {
      AttachedIn(held, s)
    }

    /** A stream of one byte is in the first block. */
    lemma FirstResident()
      requires Valid() && recorder.reliable && capacity == 2 && |stream| == 1
      ensures AllResident(0, 1) && 0 in resident
    {
      hide NothingLost, Recorded, Staged, Keys, Holding;
      if blocks != [] {
        LastOf(blocks, stream);
      }
      ResidentExactly(0);
      assert Align(0) == 0;
    }

    lemma FirstByte(s: Slice)
      requires Valid() && Attached(s) && s.offset == 0 && 0 in resident && |stream| == 1
      ensures s.block.buf.Length > 0 && s.block.buf[0] == stream[0]
    {
      hide NothingLost, Recorded, Staged, Matching, Keys, Ordered, Holding, Windowed;
      SliceReads(s);
    }

    /** With a block's worth behind the first byte, the only block of the pool holds that. */
    lemma SecondByte(s: Slice, was: map<nat, Block>, bytes: seq<Byte>)
      requires Valid() && recorder.reliable && capacity == 2 && AttachedIn(was, s) && Grown(was, held)
      requires s.offset == 0 && stream == [0] + bytes && |bytes| == BLOCK_SIZE
      ensures s.block.buf.Length > 0 && s.block.buf[0] == bytes[BLOCK_SIZE - 1]
    {
      assert Attached(s);
      SecondIsLast();
      hide NothingLost, Recorded, Staged, Matching, Keys, Ordered, Holding, Windowed;
      OutOfReach(s);
      SliceReads(s);
      assert blocks[0] == s.block && s.block.key == BLOCK_SIZE;
      assert stream[BLOCK_SIZE] == bytes[BLOCK_SIZE - 1];
    }

    lemma SecondIsLast()
      requires Valid() && recorder.reliable && capacity == 2 && |stream| == BLOCK_SIZE + 1
      ensures RecordedTo() == BLOCK_SIZE && |blocks| == 1
    {
      hide NothingLost, Recorded, Staged, Keys, Holding;
      if blocks != [] {
        LastOf(blocks, stream);
      }
    }

    /** `yms_attach_buffer`: the pieces of the GOP, block by block. What is attached are places in the
        blocks, and a piece whose attaching fails, for lack of memory, is passed over. The source waits
        for ever for a block that is missing. */
    method AttachBuffer(gop: Gop) returns (slices: seq<Slice>, ghost tried: seq<Slice>, ghost oks: seq<bool>)
      requires Valid() && gop.offset + gop.len <= |stream| && AllResident(gop.offset, gop.offset + gop.len)
      ensures Covers(tried, gop.offset, gop.offset + gop.len) && forall s :: s in tried ==> Attached(s)
      ensures |oks| == |tried| && slices == Taken(tried, oks) && (recorder.reliable ==> false !in oks)
    {
      hide NothingLost, Recorded, Staged, Matching, Keys, Ordered, Follows, Windowed;
      var sendbytes := 0;
      slices, tried, oks := [], [], [];
      while sendbytes < gop.len
        invariant 0 <= sendbytes <= gop.len && Covers(tried, gop.offset, gop.offset + sendbytes)
        invariant forall s :: s in tried ==> Attached(s)
        invariant |oks| == |tried| && slices == Taken(tried, oks) && (recorder.reliable ==> false !in oks)
      {
        var offset := gop.offset + sendbytes;
        var at := Align(offset);
        var block := Search(at);
        var len := if BLOCK_SIZE - (offset - at) < gop.len - sendbytes then BLOCK_SIZE - (offset - at) else gop.len - sendbytes;
        var slice := Slice(block, offset - at, len, offset);
        var ret: bool :| recorder.reliable ==> ret;
        CoversMore(tried, gop.offset, slice);
        TakenMore(tried, oks, slice, ret);
        if ret {
          slices := slices + [slice];
        }
        tried, oks := tried + [slice], oks + [ret];
        sendbytes := sendbytes + len;
      }
    }

    /** At any time a slice attached is read from the stream at the key that its block has then, as far
        as the stream goes. That is its own place exactly as long as its stretch is resident. */
    lemma SliceReads(s: Slice)
      requires Valid() && Attached(s)
      ensures s.block in blocks && s.at + s.len <= s.block.buf.Length
      ensures forall i :: s.at <= i < s.at + s.len && s.block.key + i < |stream| ==>
        s.block.buf[i] == stream[s.block.key + i]
      ensures s.block.key == Align(s.offset) <==> Align(s.offset) in resident
    {
      var b, k := s.block, Align(s.offset);
      var n :| 0 <= n < |blocks| && blocks[n] == b;
      assert Follows(blocks[n].buf[..], b.key, stream);
      forall i | s.at <= i < s.at + s.len && b.key + i < |stream| ensures b.buf[i] == stream[b.key + i] {
        assert b.buf[..][i] == b.buf[i];
      }
      if k in resident {
        var j :| 0 <= j < |blocks| && blocks[j].key == k;
        assert held[k] == blocks[j];
      }
    }

    /** Whenever all its blocks are resident, what is attached of a stretch reads as that stretch. */
    lemma {:induction false} ReadsStretch(slices: seq<Slice>, from: nat, to: nat)
      requires Valid() && Covers(slices, from, to) && to <= |stream|
      requires forall s :: s in slices ==> Attached(s) && Align(s.offset) in resident
      ensures from <= to && Read(slices) == stream[from..to]
    {
      hide NothingLost, Recorded, Staged, Matching, Keys, Ordered, Holding, Windowed, AttachedIn;
      if slices != [] {
        var n := |slices| - 1;
        var s := slices[n];
        assert s in slices && forall t :: t in slices[..n] ==> t in slices;
        SliceText(s);
        ReadsStretch(slices[..n], from, s.offset);
        OneStretch(stream, from, s.offset, to);
      }
    }

    lemma SliceText(s: Slice)
      requires Valid() && Attached(s) && Align(s.offset) in resident && s.offset + s.len <= |stream|
      ensures s.at + s.len <= s.block.buf.Length
      ensures s.block.buf[s.at..s.at + s.len] == stream[s.offset..s.offset + s.len]
    {
      hide NothingLost, Recorded, Staged, Matching, Keys, Ordered, Holding, Windowed;
      SliceReads(s);
    }

    /** On a reliable run, what was attached of a stretch is what is sent of it as long as the stretch
        is within the reach of the pool when it is sent. */
    lemma ReadsWithinReach(slices: seq<Slice>, from: nat, to: nat)
      requires Valid() && recorder.reliable && Covers(slices, from, to) && to <= |stream|
      requires forall s :: s in slices ==> Attached(s)
      requires RecordedTo() < Align(from) + (capacity - 1) * BLOCK_SIZE
      ensures from <= to && Read(slices) == stream[from..to]
    {
      forall s | s in slices ensures Align(s.offset) in resident {
        CoversWithin(slices, from, to, s);
        AlignGrows(from, s.offset);
        ResidentExactly(s.offset);
      }
      ReadsStretch(slices, from, to);
    }

    /** What was attached of a stretch and is sent later, within reach then, is the stretch as it was. */
    twostate lemma SentLater(slices: seq<Slice>, from: nat, to: nat)
      requires Valid() && recorder.reliable && Kept(old(blocks)) && old(stream) <= stream
      requires Covers(slices, from, to) && to <= |old(stream)| && forall s :: s in slices ==> old(Attached(s))
      requires RecordedTo() < Align(from) + (capacity - 1) * BLOCK_SIZE
      ensures from <= to && Read(slices) == old(stream)[from..to]
    {
      forall s | s in slices ensures Attached(s) {
        assert AttachedIn(old(held), s);
      }
      ReadsWithinReach(slices, from, to);
      SameFront(old(stream), stream, from, to);
    }

    /** Out of reach, a slice is in a block that was given to another stretch. */
    lemma OutOfReach(s: Slice)
      requires Valid() && recorder.reliable && Attached(s) && s.offset < |stream|
      ensures s.block.key == Align(s.offset) <==> RecordedTo() < Align(s.offset) + (capacity - 1) * BLOCK_SIZE
    {
      SliceReads(s);
      ResidentExactly(s.offset);
    }
  }

  /** A byte is attached, and the block that it is in is written anew behind it. */
  method SendLate(channel: Channel, gop: Gop) returns (attached: Byte, sent: Byte)
    requires channel.Valid() && channel.recorder.reliable && channel.capacity == 2
    requires channel.stream == [0] && gop.offset == 0 && gop.len == 1
    modifies channel, channel.recorder, gop`len, channel.blocks`key, channel.blocks`state
    modifies set i | 0 <= i < |channel.blocks| :: channel.blocks[i].buf
    ensures attached == 0 && sent == 1
  {
    hide NothingLost, Recorded, Staged, Matching, Keys, Ordered, Holding, Windowed, Follows, Grown, Covers, Taken;
    hide channel.Cached, channel.Valid, channel.AllResident;
    channel.FirstResident();
    var slices, tried, oks := channel.AttachBuffer(gop);
    OneSlice(slices, tried, oks);
    var slice := slices[0];
    channel.FirstByte(slice);
    attached := slice.block.buf[0];
    ghost var held := channel.held;
    var bytes := Ones();
    ghost var n := channel.GopWrite(gop, bytes);
    channel.SecondByte(slice, held, bytes);
    sent := slice.block.buf[0];
  }

  method Ones() returns (bytes: seq<Byte>)
    ensures |bytes| == BLOCK_SIZE && bytes[BLOCK_SIZE - 1] == 1
  {
    bytes := seq(BLOCK_SIZE, _ => 1);
  }

  /** With a pool that gives out one block only, a client that is slow to take its first byte is sent
      another one. */
  method SentTooLate() returns (attached: Byte, sent: Byte)
    ensures attached == 0 && sent == 1
  {
    hide NothingLost, Recorded, Staged, Matching, Keys, Ordered, Holding, Windowed, Follows, Grown;
    var channel := OneBlockChannel();
    hide channel.Cached, channel.Valid;
    var gop := new Gop(0, 0, 0.0);
    ghost var n := channel.GopWrite(gop, [0]);
    assert [] + [0][..1] == [0];
    attached, sent := SendLate(channel, gop);
  }

  method OneBlockChannel() returns (channel: Channel)
    ensures fresh(channel) && fresh(channel.recorder) && channel.Valid() && channel.recorder.reliable
    ensures channel.stream == [] && channel.blocks == [] && channel.capacity == 2
  {
    var recorder := new Recorder(0, true);
    channel := new Channel(recorder, 2);
  }

  lemma OneSlice(slices: seq<Slice>, tried: seq<Slice>, oks: seq<bool>)
    requires Covers(tried, 0, 1) && (forall s :: s in tried ==> s.len > 0)
    requires |oks| == |tried| && slices == Taken(tried, oks) && false !in oks
    ensures |slices| == 1 && slices[0] in tried && slices[0].offset == 0
  {
    TakenAll(tried, oks);
    CoversForward(tried, 0, 1);
    TotalAtLeast(tried);
    assert tried[..0] == [];
  }

  lemma {:induction false} TotalAtLeast(slices: seq<Slice>)
    requires forall s :: s in slices ==> s.len > 0
    ensures |slices| <= Total(slices)
  {
    if slices != [] {
      assert slices[|slices| - 1] in slices && forall s :: s in slices[..|slices| - 1] ==> s in slices;
      TotalAtLeast(slices[..|slices| - 1]);
    }
  }

  /** What the transport is handed: where in a block, and how much; and, for the record, where in the
      stream that was. */
  datatype Slice = Slice(block: Block, at: nat, len: nat, offset: nat)

  ghost predicate AttachedIn(held: map<nat, Block>, s: Slice) {
    var k := Align(s.offset);
    k in held && held[k] == s.block && s.offset == k + s.at && 0 < s.len && s.at + s.len <= BLOCK_SIZE
  }

  /** Slices that lie one behind the other in the stream. */
  ghost predicate Covers(slices: seq<Slice>, from: nat, to: nat) {
    if slices == [] then from == to
    else
      var n := |slices| - 1;
      slices[n].offset + slices[n].len == to && Covers(slices[..n], from, slices[n].offset)
  }

  lemma CoversMore(slices: seq<Slice>, from: nat, s: Slice)
    requires Covers(slices, from, s.offset)
    ensures Covers(slices + [s], from, s.offset + s.len)
  {
    assert (slices + [s])[..|slices|] == slices;
  }

  lemma {:induction false} CoversConcat(a: seq<Slice>, b: seq<Slice>, from: nat, mid: nat, to: nat)
    requires Covers(a, from, mid) && Covers(b, mid, to)
    ensures Covers(a + b, from, to)
  {
    if b == [] {
      assert a + b == a;
    } else {
      var n := |b| - 1;
      CoversConcat(a, b[..n], from, mid, b[n].offset);
      assert (a + b)[..|a| + n] == a + b[..n];
    }
  }

  lemma {:induction false} CoversWithin(slices: seq<Slice>, from: nat, to: nat, s: Slice)
    requires Covers(slices, from, to) && s in slices
    ensures from <= s.offset && s.offset + s.len <= to
    decreases |slices|
  {
    var n := |slices| - 1;
    CoversForward(slices[..n], from, slices[n].offset);
    if s != slices[n] {
      assert s in slices[..n];
      CoversWithin(slices[..n], from, slices[n].offset, s);
    }
  }

  lemma {:induction false} CoversForward(slices: seq<Slice>, from: nat, to: nat)
    requires Covers(slices, from, to)
    ensures from <= to && Total(slices) == to - from
  {
    if slices != [] {
      CoversForward(slices[..|slices| - 1], from, slices[|slices| - 1].offset);
    }
  }

  ghost function Total(slices: seq<Slice>): nat {
    if slices == [] then 0 else Total(slices[..|slices| - 1]) + slices[|slices| - 1].len
  }

  /** What the transport sends of the slices, if it sends them now. */
  ghost function Read(slices: seq<Slice>): seq<Byte>
    reads set s | s in slices :: s.block.buf
  {
    if slices == [] then []
    else
      var s := slices[|slices| - 1];
      Read(slices[..|slices| - 1]) + if s.at + s.len <= s.block.buf.Length then s.block.buf[s.at..s.at + s.len] else []
  }

  /** Those that were attached. */
  ghost function Taken(tried: seq<Slice>, oks: seq<bool>): seq<Slice>
    requires |oks| == |tried|
  {
    if tried == [] then []
    else
      var n := |tried| - 1;
      Taken(tried[..n], oks[..n]) + if oks[n] then [tried[n]] else []
  }

  lemma TakenMore(tried: seq<Slice>, oks: seq<bool>, s: Slice, ok: bool)
    requires |oks| == |tried|
    ensures Taken(tried + [s], oks + [ok]) == Taken(tried, oks) + if ok then [s] else []
  {
    assert (tried + [s])[..|tried|] == tried && (oks + [ok])[..|oks|] == oks;
  }

  lemma {:induction false} TakenConcat(a: seq<Slice>, b: seq<Slice>, p: seq<bool>, q: seq<bool>)
    requires |a| == |p| && |b| == |q|
    ensures Taken(a + b, p + q) == Taken(a, p) + Taken(b, q)
  {
    if b == [] {
      assert a + b == a && p + q == p;
    } else {
      var n := |b| - 1;
      TakenConcat(a, b[..n], p, q[..n]);
      assert (a + b)[..|a| + n] == a + b[..n] && (p + q)[..|a| + n] == p + q[..n];
    }
  }

  /** All pieces are sent exactly when attaching never failed; the length in front counts them all. */
  lemma {:induction false} TakenAll(tried: seq<Slice>, oks: seq<bool>)
    requires |oks| == |tried| && forall s :: s in tried ==> s.len > 0
    ensures Total(Taken(tried, oks)) <= Total(tried)
    ensures Total(Taken(tried, oks)) == Total(tried) <==> false !in oks
    ensures false !in oks ==> Taken(tried, oks) == tried
  {
    if tried != [] {
      var n := |tried| - 1;
      var t := Taken(tried[..n], oks[..n]);
      assert tried[n] in tried && forall s :: s in tried[..n] ==> s in tried;
      assert tried == tried[..n] + [tried[n]] && oks == oks[..n] + [oks[n]] && t + [] == t;
      hide Taken, Total;
      TakenAll(tried[..n], oks[..n]);
      TakenMore(tried[..n], oks[..n], tried[n], oks[n]);
      TotalMore(t, tried[n]);
      TotalMore(tried[..n], tried[n]);
      LastOr(oks);
    }
  }

  lemma TotalMore(t: seq<Slice>, s: Slice)
    ensures Total(t + [s]) == Total(t) + s.len
  {
    assert (t + [s])[..|t|] == t;
  }

  lemma LastOr(oks: seq<bool>)
    requires oks != []
    ensures false in oks <==> false in oks[..|oks| - 1] || !oks[|oks| - 1]
  {
    assert oks == oks[..|oks| - 1] + [oks[|oks| - 1]];
  }

  lemma AlignGrows(a: nat, b: nat)
    requires a <= b
    ensures Align(a) <= Align(b)
  {
  }

  lemma SameFront(s: seq<Byte>, more: seq<Byte>, from: nat, to: nat)
    requires s <= more && from <= to <= |s|
    ensures s[from..to] == more[from..to]
  {
  }

  lemma OneStretch(s: seq<Byte>, from: nat, mid: nat, to: nat)
    requires from <= mid <= to <= |s|
    ensures s[from..mid] + s[mid..to] == s[from..to]
  {
  }

  lemma LastOf(blocks: seq<Block>, stream: seq<Byte>)
    requires blocks != [] && Ordered(blocks) && Matching(blocks, stream)
    ensures var b := blocks[|blocks| - 1];
      && b.key % BLOCK_SIZE == 0 && b.key in Keys(blocks) && b.key <= |stream|
      && Follows(b.buf[..], b.key, stream) && b.buf.Length == BLOCK_SIZE
    ensures forall i :: 0 <= i < |blocks| - 1 ==> blocks[i].buf != blocks[|blocks| - 1].buf
  {
  }

  lemma StagedMore(blocks: seq<Block>, size: nat, more: nat, saved: map<nat, Place>)
    requires Staged(blocks, size, saved) && size <= more
    ensures Staged(blocks, more, saved)
  {
  }

  lemma Rejoined(blocks: seq<Block>, stream: seq<Byte>)
    requires blocks != [] && Matching(blocks[..|blocks| - 1], stream)
    requires var b := blocks[|blocks| - 1]; b.key <= |stream| && Follows(b.buf[..], b.key, stream)
    ensures Matching(blocks, stream)
  {
    assert forall i :: 0 <= i < |blocks| - 1 ==> blocks[i] == blocks[..|blocks| - 1][i];
  }

  lemma FollowsMore(buf: seq<Byte>, key: nat, stream: seq<Byte>, more: seq<Byte>)
    requires Follows(buf, key, stream) && key <= |stream| && |stream| + |more| <= key + BLOCK_SIZE
    ensures var at := |stream| - key; |buf| == BLOCK_SIZE && Follows(buf[..at] + more + buf[at + |more|..], key, stream + more)
  {
  }

  /** The blocks before the last are full, and go on matching. */
  lemma BeforeLast(blocks: seq<Block>, stream: seq<Byte>, more: seq<Byte>)
    requires blocks != [] && Ordered(blocks) && Matching(blocks, stream) && blocks[|blocks| - 1].key <= |stream|
    ensures Matching(blocks[..|blocks| - 1], stream + more)
  {
    var n := |blocks| - 1;
    forall i | 0 <= i < n ensures Follows(blocks[i].buf[..], blocks[i].key, stream + more) {
      Multiples(blocks[i].key, blocks[n].key);
      assert Follows(blocks[i].buf[..], blocks[i].key, stream);
    }
  }

  lemma Multiples(a: nat, b: nat)
    requires a % BLOCK_SIZE == 0 && b % BLOCK_SIZE == 0 && a < b
    ensures a + BLOCK_SIZE <= b
  {
  }

  lemma RecordedLonger(recdsize: nat, index: seq<nat>, disk: Disk, stream: seq<Byte>, more: seq<Byte>, end: nat)
    requires Recorded(recdsize, index, disk, stream, end)
    ensures Recorded(recdsize, index, disk, stream + more, end)
  {
    var longer := stream + more;
    forall i | 0 <= i < |index| ensures FileTile(index, i, disk, longer, end) {
      assert FileTile(index, i, disk, stream, end);
      var next := if i + 1 < |index| then index[i + 1] else end;
      assert longer[index[i]..next] == stream[index[i]..next];
    }
  }

  /** An empty block at the end. */
  lemma Extended(others: seq<Block>, b: Block, stream: seq<Byte>, saved: map<nat, Place>, at: nat)
    requires Ordered(others) && Matching(others, stream) && Staged(others, |stream|, saved)
    requires at == |stream| && at % BLOCK_SIZE == 0 && b.key == at && b.state == Writing && b.buf.Length == BLOCK_SIZE
    requires forall j :: 0 <= j < |others| ==> others[j].key < at && others[j].buf != b.buf
    ensures var blocks := others + [b];
      && Ordered(blocks) && Matching(blocks, stream) && Staged(blocks, |stream|, saved)
      && Keys(blocks) == Keys(others) + {at}
  {
    var blocks := others + [b];
    assert blocks[..|others|] == others;
    KeysWith(blocks, |others|);
  }

  lemma Shortened(blocks: seq<Block>, i: nat, stream: seq<Byte>, saved: map<nat, Place>, at: nat)
    requires i < |blocks| && Ordered(blocks) && Matching(blocks, stream) && Staged(blocks, |stream|, saved)
    requires forall j :: 0 <= j < |blocks| ==> blocks[j].key < at
    ensures var others := blocks[..i] + blocks[i + 1..];
      && Ordered(others) && Matching(others, stream) && Staged(others, |stream|, saved)
      && blocks[i] !in others && blocks[i].buf.Length == BLOCK_SIZE
      && (blocks[i].state == Saved ==> blocks[i].key in saved)
      && (forall j :: 0 <= j < |others| ==> others[j].key < at && others[j].buf != blocks[i].buf)
  {
    var others := blocks[..i] + blocks[i + 1..];
    assert forall j :: 0 <= j < |others| ==> others[j] == blocks[if j < i then j else j + 1];
  }

  lemma SameBlocks(blocks: seq<Block>, i: nat)
    requires i < |blocks|
    ensures forall b :: b in blocks[..i] + blocks[i + 1..] + [blocks[i]] <==> b in blocks
  {
    var moved := blocks[..i] + blocks[i + 1..] + [blocks[i]];
    forall b | b in blocks ensures b in moved {
      var j :| 0 <= j < |blocks| && blocks[j] == b;
      assert moved[if j < i then j else if j == i then |blocks| - 1 else j - 1] == b;
    }
  }

  lemma KeysWithout(blocks: seq<Block>, i: nat)
    requires i < |blocks| && Ordered(blocks)
    ensures Keys(blocks[..i] + blocks[i + 1..]) == Keys(blocks) - {blocks[i].key}
  {
    var others := blocks[..i] + blocks[i + 1..];
    forall k | k in Keys(blocks) - {blocks[i].key} ensures k in Keys(others) {
      var j :| 0 <= j < |blocks| && blocks[j].key == k;
      assert others[if j < i then j else j - 1] == blocks[j];
    }
    forall k | k in Keys(others) ensures k in Keys(blocks) - {blocks[i].key} {
      var j :| 0 <= j < |others| && others[j].key == k;
      assert others[j] == blocks[if j < i then j else j + 1];
    }
  }

  lemma KeysWith(blocks: seq<Block>, n: nat)
    requires |blocks| == n + 1
    ensures Keys(blocks) == Keys(blocks[..n]) + {blocks[n].key}
  {
    forall k | k in Keys(blocks) ensures k in Keys(blocks[..n]) + {blocks[n].key} {
      var j :| 0 <= j < |blocks| && blocks[j].key == k;
      if j < n {
        assert blocks[..n][j] == blocks[j];
      }
    }
    forall k | k in Keys(blocks[..n]) ensures k in Keys(blocks) {
      var j :| 0 <= j < n && blocks[..n][j].key == k;
      assert blocks[j].key == k;
    }
  }

  lemma ReuseKeeps(disk: Disk, stream: seq<Byte>, saved: map<nat, Place>, resident: set<nat>, lost: nat, at: nat)
    requires NothingLost(disk, stream, saved, resident) && lost in saved
    ensures NothingLost(disk, stream, saved, resident - {lost} + {at})
  {
    assert forall k :: k in resident && k != lost ==> k in resident - {lost} + {at};
  }

  lemma AddKeeps(disk: Disk, stream: seq<Byte>, saved: map<nat, Place>, resident: set<nat>, at: nat)
    requires NothingLost(disk, stream, saved, resident)
    ensures NothingLost(disk, stream, saved, resident + {at})
  {
    assert forall k :: k in resident ==> k in resident + {at};
  }
}
