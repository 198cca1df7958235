/** A pool of equal blocks inside one region: a header, one list link a block, then the blocks. */
module Mpool {
  import opened ListHead

  const HEADER_SIZE: nat := 40
  const LINK_SIZE: nat := 16
  const TWO_TO_THE_32: nat := 0x1_0000_0000

  /** Where the parts of the region lie, as offsets from its start. */
  datatype Layout = Layout(blockSize: nat, headBlocks: nat, avail: nat)
  {
    ghost predicate Sound(size: nat) {
      HEADER_SIZE + LINK_SIZE * avail <= headBlocks * blockSize && (headBlocks + avail) * blockSize == size
    }

    function LinkAt(i: nat): nat { HEADER_SIZE + LINK_SIZE * i }

    function BlockAt(i: nat): nat { headBlocks * blockSize + i * blockSize }
  }

  predicate Accepts(addr: nat, size: nat, blockSize: nat)
    requires blockSize > 0
  {
    !(size < blockSize || size < HEADER_SIZE || addr == 0 || size % blockSize != 0)
  }

  /** How many blocks `bytes` bytes take. */
  function Blocks(bytes: nat, blockSize: nat): (n: nat)
    requires blockSize > 0
    ensures bytes <= n * blockSize < bytes + blockSize
  {
    var h := bytes / blockSize;
    assert bytes == h * blockSize + bytes % blockSize;
    assert (h + 1) * blockSize == h * blockSize + blockSize;
    if bytes % blockSize != 0 then h + 1 else h
  }

  /** The arithmetic of `rns_mpool_init`, in 32-bit words. */
  function LayOut(size: nat, blockSize: nat): (l: Layout)
    requires blockSize > 0
  {
    var num := size / blockSize;
    var headBlocks := Blocks((LINK_SIZE * num + HEADER_SIZE) % TWO_TO_THE_32, blockSize);
    Layout(blockSize, headBlocks, (num - headBlocks) % TWO_TO_THE_32)
  }

  /** What the header with a link for every block takes, before its size is cut to 32 bits. */
  function HeaderSize(num: nat): nat { LINK_SIZE * num + HEADER_SIZE }

  /** The initialisation never asks whether the header leaves room. The layout is sound exactly when
      the blocks set aside for the header, as many as its size in 32 bits takes, are among those of the
      region, and they would hold it if every one of them brought a link's room more. */
  lemma SoundExactly(addr: nat, size: nat, blockSize: nat)
    requires blockSize > 0 && size < TWO_TO_THE_32 && Accepts(addr, size, blockSize)
    ensures var num := size / blockSize;
      var hb := Blocks(HeaderSize(num) % TWO_TO_THE_32, blockSize);
      LayOut(size, blockSize).Sound(size) <==> hb <= num && HeaderSize(num) <= hb * (blockSize + LINK_SIZE)
  {
    var num, l := size / blockSize, LayOut(size, blockSize);
    assert l.headBlocks == Blocks(HeaderSize(num) % TWO_TO_THE_32, blockSize);
    NoMoreBlocks(size, blockSize);
    BlocksAtMost(HeaderSize(num) % TWO_TO_THE_32, blockSize);
    hide Blocks, HeaderSize, LayOut;
    Decide(num, blockSize, l.headBlocks, l.avail);
  }

  lemma NoMoreBlocks(size: nat, blockSize: nat)
    requires blockSize > 0 && size % blockSize == 0
    ensures size == size / blockSize * blockSize && size / blockSize <= size
  {
    var num := size / blockSize;
    assert size == num * blockSize;
    AtLeast(num, blockSize);
  }

  lemma AtLeast(num: nat, blockSize: nat)
    requires blockSize > 0
    ensures num <= num * blockSize
  {
  }

  lemma Decide(num: nat, blockSize: nat, hb: nat, avail: nat)
    requires blockSize > 0 && num < TWO_TO_THE_32 && hb < TWO_TO_THE_32 && avail == (num - hb) % TWO_TO_THE_32
    ensures HEADER_SIZE + LINK_SIZE * avail <= hb * blockSize && (hb + avail) * blockSize == num * blockSize
      <==> hb <= num && HeaderSize(num) <= hb * (blockSize + LINK_SIZE)
  {
    WithLinks(hb, blockSize);
    if hb <= num {
      InRange(num - hb);
      assert hb + avail == num;
    } else {
      Wrapped(num, hb, avail, blockSize);
    }
  }

  lemma InRange(x: nat)
    requires x < TWO_TO_THE_32
    ensures x % TWO_TO_THE_32 == x
  {
  }

  lemma WithLinks(hb: nat, blockSize: nat)
    ensures hb * (blockSize + LINK_SIZE) == hb * blockSize + LINK_SIZE * hb
  {
  }

  /** A header size that fits into 32 bits leaves a simple condition: a header with a link for every
      block of the region fits in the region. */
  lemma SoundExactlyWhenHeaderFits(addr: nat, size: nat, blockSize: nat)
    requires blockSize > 0 && size < TWO_TO_THE_32 && Accepts(addr, size, blockSize)
    requires HeaderSize(size / blockSize) < TWO_TO_THE_32
    ensures LayOut(size, blockSize).Sound(size) <==> HeaderSize(size / blockSize) <= size
  {
    var num := size / blockSize;
    var h := HeaderSize(num);
    var hb := Blocks(h, blockSize);
    NoMoreBlocks(size, blockSize);
    InRange(h);
    SoundExactly(addr, size, blockSize);
    WithLinks(hb, blockSize);
    WithOneMore(num, blockSize);
    Fewer(hb, num + 1, blockSize);
    Fewer(num, hb, blockSize);
  }

  lemma WithOneMore(num: nat, blockSize: nat)
    ensures (num + 1) * blockSize == num * blockSize + blockSize
  {
  }

  /** Only blocks of 16 bytes or less can be so many that the header size wraps. */
  lemma HeaderWrapsOnlyForSmallBlocks(size: nat, blockSize: nat)
    requires blockSize > LINK_SIZE && size < TWO_TO_THE_32
    ensures HeaderSize(size / blockSize) < TWO_TO_THE_32
  {
    var num := size / blockSize;
    assert size == num * blockSize + size % blockSize;
    NoSmaller(num, LINK_SIZE + 1, blockSize);
  }

  lemma NoSmaller(num: nat, a: nat, b: nat)
    requires a <= b
    ensures num * a <= num * b
  {
  }

  /** A region of single bytes, whose header size wraps, is laid out soundly although its header with
      all links would not fit: most of the region is set aside for it. */
  lemma WrappedHeaderCanBeSound()
    ensures var size := 286_000_000;
      Accepts(1, size, 1) && LayOut(size, 1).Sound(size) && size < HeaderSize(size) && TWO_TO_THE_32 <= HeaderSize(size)
  {
    SoundExactly(1, 286_000_000, 1);
  }

  lemma BlocksAtMost(bytes: nat, blockSize: nat)
    requires blockSize > 0
    ensures Blocks(bytes, blockSize) <= bytes
  {
    assert (bytes + 1) * blockSize == bytes * blockSize + blockSize;
    assert bytes * blockSize >= bytes;
    Fewer(Blocks(bytes, blockSize), bytes + 1, blockSize);
  }

  lemma Fewer(a: nat, b: nat, m: nat)
    ensures a * m < b * m ==> a < b
  {
    if a >= b {
      assert a * m == b * m + (a - b) * m;
    }
  }

  /** A header of more blocks than there are wraps the count of the free ones. */
  lemma Wrapped(num: nat, hb: nat, avail: nat, blockSize: nat)
    requires blockSize > 0 && num < hb < TWO_TO_THE_32 && avail == (num - hb) % TWO_TO_THE_32
    ensures (hb + avail) * blockSize != num * blockSize
  {
    Fewer(hb + avail, num + 1, blockSize);
    assert avail == num - hb + TWO_TO_THE_32;
    assert num * blockSize < (num + 1) * blockSize == num * blockSize + blockSize;
  }

  /** Four blocks of 16 bytes are accepted, although the header alone needs more. */
  lemma SmallBlocksOverrun()
    ensures Accepts(1, 64, 16) && !LayOut(64, 16).Sound(64)
  {
    SoundExactlyWhenHeaderFits(1, 64, 16);
  }

  /** Any two of: the header with its links, and the blocks, share no byte of the region. */
  lemma PartsApart(l: Layout, size: nat, i: nat, j: nat)
    requires l.Sound(size) && i < l.avail && j < l.avail
    ensures l.LinkAt(i) + LINK_SIZE <= l.BlockAt(j) && l.BlockAt(j) + l.blockSize <= size
    ensures i < j ==> l.LinkAt(i) + LINK_SIZE <= l.LinkAt(j) && l.BlockAt(i) + l.blockSize <= l.BlockAt(j)
  {
    assert j * l.blockSize >= 0;
    assert (j + 1) * l.blockSize == j * l.blockSize + l.blockSize;
    assert (l.headBlocks + l.avail) * l.blockSize == l.headBlocks * l.blockSize + l.avail * l.blockSize;
    Fewer(l.avail, j + 1, l.blockSize);
    if i < j {
      assert (i + 1) * l.blockSize == i * l.blockSize + l.blockSize;
      Fewer(j, i + 1, l.blockSize);
    }
  }

  /** The index computations of allocating and freeing undo the address computations. */
  lemma IndexOfBlock(l: Layout, i: nat)
    requires l.blockSize > 0
    ensures (l.BlockAt(i) - l.BlockAt(0)) / l.blockSize == i
    ensures (l.LinkAt(i) - HEADER_SIZE) / LINK_SIZE == i
  {
    var q := i * l.blockSize / l.blockSize;
    assert i * l.blockSize == q * l.blockSize + i * l.blockSize % l.blockSize;
    assert (q + 1) * l.blockSize == q * l.blockSize + l.blockSize;
    Fewer(i, q + 1, l.blockSize);
    Fewer(q, i + 1, l.blockSize);
    assert (i + 1) * l.blockSize == i * l.blockSize + l.blockSize;
  }

  class Pool {
    const base: nat
    const size: nat
    /** As laid out; `avail` counts down and up from there. */
    const layout: Layout
    var avail: nat
    const list: List
    /** The link words of the region by index, and the address of each. */
    var links: seq<Link>
    var place: map<Link, nat>
    /** The indices in the free list, in its order, and those of the blocks handed out. */
    ghost var free: seq<nat>
    ghost var live: set<nat>

    ghost predicate Valid()
      reads this, list, list.head, list.items, links
    {
      layout.Sound(size) && Linked()
    }

    /** Valid, but for the layout. */
    ghost predicate Linked()
      reads this, list, list.head, list.items, links
    {
      && base > 0 && layout.blockSize > 0 && |links| == layout.avail && list.head !in links && Distinct(links)
      && (forall i :: 0 <= i < |links| ==> links[i] in place && place[links[i]] == base + layout.LinkAt(i))
      && list.Valid() && avail == |free| == |list.items|
      && (forall k :: 0 <= k < |free| ==> free[k] < |links| && list.items[k] == links[free[k]])
      && (forall i :: i in live ==> i < |links| && i !in free)
      && (forall i :: 0 <= i < |links| ==> i in live || i in free)
    }

    constructor (addr: nat, size: nat, layout: Layout)
      requires addr > 0 && layout.blockSize > 0
      ensures Linked() && (layout.Sound(size) ==> Valid()) && fresh(list) && fresh(list.head) && fresh(links)
      ensures base == addr && this.size == size && this.layout == layout
      ensures live == {} && avail == layout.avail && forall i :: 0 <= i < avail ==> free[i] == i
    {
      base, this.size, this.layout := addr, size, layout;
      avail := layout.avail;
      var head := new Link();
      list := new List(head);
      links, place := [], map[];
      free, live := [], {};
      new;
      Reserve();
      ThreadLinks();
    }

    /** The link words of the region. */
    method Reserve()
      requires links == [] && place == map[]
      modifies this`links, this`place
      ensures |links| == layout.avail && fresh(links) && Distinct(links)
      ensures forall i :: 0 <= i < |links| ==> links[i] in place && place[links[i]] == base + layout.LinkAt(i)
    {
      var i := 0;
      while i < layout.avail
        invariant 0 <= i <= layout.avail && |links| == i && fresh(links) && Distinct(links)
        invariant forall k :: 0 <= k < i ==> links[k] in place && place[links[k]] == base + layout.LinkAt(k)
      {
        var walker := new Link();
        place := place[walker := base + layout.LinkAt(i)];
        links := links + [walker];
        i := i + 1;
      }
    }

    /** Every link joins the free list, in the order of the blocks. */
    method ThreadLinks()
      requires Distinct(links) && list.head !in links && list.Valid() && list.items == [] && free == []
      modifies this`free, list, list.head, links
      ensures list.Valid() && list.items == links && |free| == |links| && forall k :: 0 <= k < |free| ==> free[k] == k
      ensures forall k :: 0 <= k < |free| ==> k in free
    {
      var i := 0;
      while i < |links|
        invariant 0 <= i <= |links| && list.Valid() && list.items == links[..i]
        invariant |free| == i && forall k :: 0 <= k < i ==> free[k] == k
        invariant forall k :: 0 <= k < i ==> k in free
      {
        list.Add(links[i]);
        free := free + [i];
        i := i + 1;
      }
    }

    lemma FirstIsLast()
      requires Valid()
      ensures list.items != [] ==> (list.items[0] == list.items[|list.items| - 1] <==> |list.items| == 1)
    {
      list.Open();
      var s := [list.head] + list.items;
      assert |list.items| > 1 ==> s[1] != s[|list.items|];
    }

    /** `rns_mpool_alloc`: nothing when at most one block is free, else the one freed last. */
    method Alloc() returns (block: nat)
      requires Valid()
      modifies this`avail, this`free, this`live, list, list.head, links
      ensures Valid()
      ensures block == 0 <==> old(avail) <= 1
      ensures block == 0 ==> free == old(free) && live == old(live)
      ensures block != 0 ==>
        var i := old(free)[|old(free)| - 1];
        i !in old(live) && live == old(live) + {i} && free + [i] == old(free) && block == base + layout.BlockAt(i)
    {
      var first := list.Last();
      var last := list.First();
      FirstIsLast();
      block := 0;
      if first != last {
        block := Take(first);
      }
    }

    /** The block of the link at the front of the region's list; its link leaves the list. */
    method Take(first: Link) returns (block: nat)
      requires Valid() && free != [] && first == list.items[|list.items| - 1]
      modifies this`avail, this`free, this`live, list, list.head, links
      ensures Valid()
      ensures var i := old(free)[|old(free)| - 1];
        && i !in old(live) && live == old(live) + {i} && free + [i] == old(free)
        && block == base + layout.BlockAt(i) && avail == old(avail) - 1
    {
      hide Distinct, layout.Sound, layout.LinkAt, layout.BlockAt;
      ghost var k := |free| - 1;
      IndexOfBlock(layout, free[k]);
      FreeOnce();
      var idx := (place[first] - base - HEADER_SIZE) / LINK_SIZE;
      avail := avail - 1;
      assert idx == free[k];
      list.Delete(first, k);
      free, live := free[..k], live + {idx};
      block := base + layout.BlockAt(idx);
    }

    /** `rns_mpool_free`: the block becomes the next to be handed out. */
    method Free(block: nat, ghost i: nat)
      requires Valid() && i in live && block == base + layout.BlockAt(i)
      modifies this`avail, this`free, this`live, list, list.head, links
      ensures Valid()
      ensures live == old(live) - {i} && free == old(free) + [i] && avail == old(avail) + 1
    {
      IndexOfBlock(layout, i);
      var idx := (block - (base + layout.BlockAt(0))) / layout.blockSize;
      NotListed(i);
      list.Add(links[idx]);
      free, live := free + [idx], live - {idx};
      avail := avail + 1;
    }

    /** Every block is handed out or on the free list, and never both; live blocks are disjoint. */
    lemma Partition(i: nat, j: nat)
      requires Valid() && i < layout.avail && j < layout.avail
      ensures i in live <==> i !in free
      ensures i in live && j in live && i != j ==>
        || layout.BlockAt(i) + layout.blockSize <= layout.BlockAt(j)
        || layout.BlockAt(j) + layout.blockSize <= layout.BlockAt(i)
    {
      PartsApart(layout, size, i, j);
      PartsApart(layout, size, j, i);
    }

    /** No block is on the free list twice. */
    lemma ListedOnce(i: nat, j: nat)
      requires Valid() && i < |free| && j < |free| && i != j
      ensures free[i] != free[j]
    {
      list.Open();
      var s := [list.head] + list.items;
      assert s[i + 1] == links[free[i]] && s[j + 1] == links[free[j]];
      assert s[i + 1] != s[j + 1];
    }

    /** The index to be handed out is on the free list once, and on no other. */
    lemma FreeOnce()
      requires Valid() && free != []
      ensures var k := |free| - 1;
        && free[k] !in free[..k] && free[k] !in live
        && forall i :: i in free && i != free[k] ==> i in free[..k]
    {
      var k := |free| - 1;
      forall j | 0 <= j < k ensures free[j] != free[k] {
        ListedOnce(j, k);
      }
    }

    lemma NotListed(i: nat)
      requires Valid() && i in live
      ensures links[i] !in Ring(list.head, list.items)
    {
      forall k | 0 <= k < |free| ensures list.items[k] != links[i] {
        assert free[k] != i;
      }
    }
  }

  /** `rns_mpool_init` over the bytes from `addr` on; null when it refuses them. */
  method Init(addr: nat, size: nat, blockSize: nat) returns (pool: Pool?)
    requires blockSize > 0
    ensures pool == null <==> !Accepts(addr, size, blockSize)
    ensures pool != null ==>
      && pool.Linked() && (LayOut(size, blockSize).Sound(size) ==> pool.Valid())
      && pool.base == addr && pool.size == size && pool.layout == LayOut(size, blockSize)
      && pool.live == {} && forall i :: 0 <= i < pool.avail ==> pool.free[i] == i
  {
    if !Accepts(addr, size, blockSize) {
      return null;
    }
    pool := new Pool(addr, size, LayOut(size, blockSize));
  }
}
