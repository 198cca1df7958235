/** The live channel's cache: an append-only byte stream, cut into aligned blocks that are kept in a
    fixed number of buffers and spilled to files. */
module LiveCache {
  import opened Common

  type Byte = b: int | 0 <= b < 256

  const BLOCK_SIZE: nat := 524288

  function Align(offset: nat): (a: nat)
    ensures a <= offset < a + BLOCK_SIZE && a % BLOCK_SIZE == 0
  {
    offset - offset % BLOCK_SIZE
  }

  /** `offset & BLOCK_MASK` */
  lemma MaskAligns(offset: bv64)
    ensures offset & 0xFFFF_FFFF_FFF8_0000 == offset - offset % 0x80000
    ensures BLOCK_SIZE == 0x80000
  {
  }

  datatype State = Writing | Full | Saving | Saved

  class Block {
    var key: nat
    const buf: array<Byte>
    var state: State

    constructor (key: nat)
      ensures this.key == key && state == Writing && fresh(buf) && buf.Length == BLOCK_SIZE
    {
      this.key, state := key, Writing;
      buf := new Byte[BLOCK_SIZE];
    }
  }

  class Gop {
    const idx: nat
    const offset: nat
    var len: nat
    const timeStart: real
    var timeLen: real

    constructor (idx: nat, offset: nat, timeStart: real)
      ensures this.idx == idx && this.offset == offset && this.timeStart == timeStart && len == 0 && timeLen == 0.0
    {
      this.idx, this.offset, this.timeStart := idx, offset, timeStart;
      len, timeLen := 0, 0.0;
    }
  }

  /** Where a block was written: in which file, named by its first offset, and at which place. */
  datatype Place = Place(file: nat, at: nat)

  type Disk = map<nat, seq<Byte>>

  /** The file holds the stream's block of this key at the place. */
  ghost predicate OnDisk(disk: Disk, stream: seq<Byte>, key: nat, p: Place) {
    && key + BLOCK_SIZE <= |stream| && p.file <= key
    && p.file in disk && p.at + BLOCK_SIZE <= |disk[p.file]|
    && disk[p.file][p.at..p.at + BLOCK_SIZE] == stream[key..key + BLOCK_SIZE]
  }

  ghost predicate StrictlyAscending(s: seq<nat>) {
    forall i, j :: 0 <= i < j < |s| ==> s[i] < s[j]
  }

  /** The files follow one another, from the start of the stream up to `end`, each named by the
      offset of its first byte. */
  ghost predicate Tiles(index: seq<nat>, disk: Disk, stream: seq<Byte>, end: nat) {
    && end <= |stream| && StrictlyAscending(index)
    && (index == [] ==> end == 0) && (index != [] ==> index[0] == 0)
    && (forall i :: 0 <= i < |index| ==> FileTile(index, i, disk, stream, end))
  }

  ghost predicate FileTile(index: seq<nat>, i: nat, disk: Disk, stream: seq<Byte>, end: nat)
    requires i < |index|
  {
    var k, next := index[i], if i + 1 < |index| then index[i + 1] else end;
    k in disk && k < next && k + |disk[k]| == next <= |stream| && disk[k] == stream[k..next]
  }

  const TWO_TO_THE_31: nat := 0x8000_0000

  /** How long the recorded files are: every file but the last is longer than `recdsize`, and none by
      more than a block. */
  ghost predicate Sized(index: seq<nat>, disk: Disk, recdsize: nat) {
    forall i :: 0 <= i < |index| ==> SizedFile(index, i, disk, recdsize)
  }

  ghost predicate SizedFile(index: seq<nat>, i: nat, disk: Disk, recdsize: nat)
    requires i < |index|
  {
    var k := index[i];
    k in disk && |disk[k]| <= recdsize + BLOCK_SIZE && (i + 1 < |index| ==> recdsize < |disk[k]|)
  }

  /** What a reliable recorder keeps: the files tile the stream up to `end`, and are as long as they
      should be while sizes fit into the signed result of `stat`. */
  ghost predicate Recorded(recdsize: nat, index: seq<nat>, disk: Disk, stream: seq<Byte>, end: nat) {
    Tiles(index, disk, stream, end) && (recdsize + BLOCK_SIZE < TWO_TO_THE_31 ==> Sized(index, disk, recdsize))
  }

  /** What `stat` gives for a size, in a signed 32-bit result. */
  function FileSize(size: nat): (s: int)
    ensures -0x8000_0000 <= s < 0x8000_0000
    ensures size < TWO_TO_THE_31 ==> s == size
    ensures TWO_TO_THE_31 <= size < 2 * TWO_TO_THE_31 ==> s < 0
  {
    (size + 0x8000_0000) % 0x1_0000_0000 - 0x8000_0000
  }

  /** The greatest name that is not greater, as `rbt_lsearch_int` finds it. */
  function Floor(index: seq<nat>, offset: nat): (r: Option<nat>)
    ensures r.None? ==> forall i :: 0 <= i < |index| ==> index[i] > offset
    ensures r.Some? ==> r.value in index && r.value <= offset
    ensures r.Some? ==> forall i :: 0 <= i < |index| && index[i] <= offset ==> index[i] <= r.value
  {
    if index == [] then None
    else
      var r := Floor(index[..|index| - 1], offset);
      var k := index[|index| - 1];
      if k <= offset && (r.None? || r.value <= k) then Some(k) else r
  }

  /** After all keys that are not greater, as `rbt_insert` places it. */
  function Inserted(index: seq<nat>, key: nat): (r: seq<nat>) {
    if index == [] || index[|index| - 1] <= key then index + [key]
    else Inserted(index[..|index| - 1], key) + [index[|index| - 1]]
  }

  lemma {:induction false} InsertedMembers(index: seq<nat>, key: nat)
    ensures forall k :: k in Inserted(index, key) <==> k in index || k == key
  {
    if index != [] && index[|index| - 1] > key {
      InsertedMembers(index[..|index| - 1], key);
    }
  }

  /** The last file ends where the recording does, and is the one that a search finds. */
  lemma LastTile(index: seq<nat>, disk: Disk, stream: seq<Byte>, end: nat)
    requires Tiles(index, disk, stream, end) && index != []
    ensures var k := index[|index| - 1];
      Floor(index, end) == Some(k) && k in disk && k < end && k + |disk[k]| == end && disk[k] == stream[k..end]
  {
    var n := |index| - 1;
    assert FileTile(index, n, disk, stream, end);
    assert index[n] in index;
    assert Floor(index, end).value in index;
  }

  /** More of the stream goes to the last file. */
  lemma TilesAppend(index: seq<nat>, disk: Disk, stream: seq<Byte>, end: nat, more: nat)
    requires Tiles(index, disk, stream, end) && index != [] && end + more <= |stream|
    ensures var k := index[|index| - 1];
      k in disk && Tiles(index, disk[k := disk[k] + stream[end..end + more]], stream, end + more)
  {
    var n := |index| - 1;
    var k := index[n];
    LastTile(index, disk, stream, end);
    var grown := disk[k := disk[k] + stream[end..end + more]];
    var e := end + more;
    assert stream[k..e] == stream[k..end] + stream[end..e];
    forall i | 0 <= i < |index| ensures FileTile(index, i, grown, stream, e) {
      assert FileTile(index, i, disk, stream, end);
    }
  }

  /** More of the stream starts a file of its own. */
  lemma TilesAdd(index: seq<nat>, disk: Disk, stream: seq<Byte>, end: nat, more: nat)
    requires Tiles(index, disk, stream, end) && 0 < more && end + more <= |stream|
    ensures Inserted(index, end) == index + [end]
    ensures Tiles(index + [end], disk[end := stream[end..end + more]], stream, end + more)
  {
    var n := |index|;
    if n > 0 {
      LastTile(index, disk, stream, end);
    }
    var longer, grown := index + [end], disk[end := stream[end..end + more]];
    var e := end + more;
    forall i | 0 <= i < |longer| ensures FileTile(longer, i, grown, stream, e) {
      if i < n {
        assert FileTile(index, i, disk, stream, end);
        assert longer[i] == index[i] < end;
      }
    }
  }

  lemma SizedAppend(index: seq<nat>, disk: Disk, recdsize: nat, bytes: seq<Byte>)
    requires StrictlyAscending(index) && Sized(index, disk, recdsize) && index != []
    requires var k := index[|index| - 1]; k in disk && |disk[k]| <= recdsize && |bytes| == BLOCK_SIZE
    ensures var k := index[|index| - 1]; Sized(index, disk[k := disk[k] + bytes], recdsize)
  {
    var n := |index| - 1;
    var grown := disk[index[n] := disk[index[n]] + bytes];
    forall i | 0 <= i < |index| ensures SizedFile(index, i, grown, recdsize) {
      assert SizedFile(index, i, disk, recdsize);
    }
  }

  lemma SizedAdd(index: seq<nat>, disk: Disk, recdsize: nat, key: nat, bytes: seq<Byte>)
    requires Sized(index, disk, recdsize) && key !in index && |bytes| == BLOCK_SIZE
    requires index != [] ==> var k := index[|index| - 1]; k in disk && recdsize < |disk[k]|
    ensures Sized(index + [key], disk[key := bytes], recdsize)
  {
    var longer, grown := index + [key], disk[key := bytes];
    forall i | 0 <= i < |longer| ensures SizedFile(longer, i, grown, recdsize) {
      if i < |index| {
        assert SizedFile(index, i, disk, recdsize);
        assert index[i] in index;
      }
    }
  }

  /** The index of the recorded files, with the files themselves. Calls that can fail do so at will,
      unless everything is reliable. */
  class Recorder {
    const recdsize: nat
    const reliable: bool
    var index: seq<nat>
    var disk: Disk

    ghost predicate Valid()
      reads this
    {
      forall k :: k in index ==> k in disk
    }

    constructor (recdsize: nat, reliable: bool)
      ensures Valid() && index == [] && disk == map[] && this.recdsize == recdsize && this.reliable == reliable
    {
      this.recdsize, this.reliable := recdsize, reliable;
      index, disk := [], map[];
    }

    /** `rns_fmgr_search`: it can fail to open what it finds. */
    method Search(offset: nat) returns (f: Option<nat>)
      ensures f == Floor(index, offset) || (f == None && !reliable)
    {
      f := Floor(index, offset);
      var ok: bool :| reliable ==> ok;
      if !ok {
        f := None;
      }
    }

    /** `rns_fmgr_add`: the file is created, or emptied, and then entered into the index. */
    method Add(offset: nat) returns (f: Option<nat>)
      requires Valid()
      modifies this
      ensures Valid() && (reliable ==> f.Some?)
      ensures f.Some? ==> f.value == offset && disk == old(disk)[offset := []] && index == Inserted(old(index), offset)
      ensures f.None? ==> index == old(index) && (disk == old(disk) || disk == old(disk)[offset := []])
    {
      InsertedMembers(index, offset);
      var ok: bool :| reliable ==> ok;
      if !ok {
        return None;
      }
      disk := disk[offset := []];
      var indexed: bool :| reliable ==> indexed;
      if !indexed {
        return None;
      }
      index := Inserted(index, offset);
      f := Some(offset);
    }

    /** `rns_file_size` and the conditions of `yms_channel_recd` on it. */
    method NeedsNewFile(f: Option<nat>, offset: nat) returns (anew: bool)
      requires f.Some? ==> f.value in disk
      ensures f.None? ==> anew
      ensures reliable && f.Some? && |disk[f.value]| < TWO_TO_THE_31 ==>
        (anew <==> recdsize < |disk[f.value]| || f.value + |disk[f.value]| < offset)
      ensures f.Some? && !anew ==> offset <= |disk[f.value]| % 0x1_0000_0000 + f.value
    {
      anew := f.None?;
      if f.Some? {
        var stat: bool :| reliable ==> stat;
        var size := if stat then FileSize(|disk[f.value]|) else -2;
        anew := size < 0 || size > recdsize || offset > size + f.value;
      }
    }

    /** `rns_file_write` appends; it can write less than it should. */
    method Append(f: nat, bytes: seq<Byte>) returns (n: nat)
      requires f in disk && Valid()
      modifies this`disk
      ensures n <= |bytes| && (reliable ==> n == |bytes|)
      ensures Valid() && disk == old(disk)[f := old(disk)[f] + bytes[..n]]
    {
      n :| 0 <= n <= |bytes| && (reliable ==> n == |bytes|);
      disk := disk[f := disk[f] + bytes[..n]];
    }

    /** The file that the block goes to: the last one before it, or a new one. */
    method Choose(offset: nat, ghost stream: seq<Byte>) returns (f: Option<nat>)
      requires Valid() && offset + BLOCK_SIZE <= |stream|
      modifies this
      ensures Valid() && (f.Some? ==> f.value in disk && f.value <= offset)
      ensures forall f :: f in old(disk) && f != offset ==> f in disk && disk[f] == old(disk)[f]
      ensures reliable && Recorded(recdsize, old(index), old(disk), stream, offset) ==>
        f.Some? &&
        Recorded(recdsize, index, disk[f.value := disk[f.value] + stream[offset..offset + BLOCK_SIZE]], stream,
                 offset + BLOCK_SIZE)
    {
      hide Recorded, Floor, Inserted;
      f := Search(offset);
      FloorIsFile(index, offset);
      ghost var bytes := stream[offset..offset + BLOCK_SIZE];
      if reliable && Recorded(recdsize, index, disk, stream, offset) {
        NextFile(recdsize, index, disk, stream, offset);
      }
      var anew := NeedsNewFile(f, offset);
      if anew {
        f := Add(offset);
        assert [] + bytes == bytes;
        assert f.Some? ==> disk[offset := bytes] == old(disk)[offset := bytes];
      }
    }

    /** `yms_channel_recd`, with the place where the block is when it was written. */
    method Record(offset: nat, bytes: seq<Byte>, ghost stream: seq<Byte>) returns (done: bool, ghost place: Place)
      requires Valid() && |bytes| == BLOCK_SIZE && offset + BLOCK_SIZE <= |stream| && bytes == stream[offset..offset + BLOCK_SIZE]
      modifies this
      ensures Valid() && (done ==> OnDisk(disk, stream, offset, place))
      ensures forall f :: f in old(disk) && f != offset ==> f in disk && old(disk)[f] <= disk[f]
      ensures reliable && Recorded(recdsize, old(index), old(disk), stream, offset) ==>
        done && Recorded(recdsize, index, disk, stream, offset + BLOCK_SIZE)
    {
      hide Recorded;
      place := Place(0, 0);
      done := false;
      var f := Choose(offset, stream);
      if f.Some? {
        ghost var before := disk[f.value];
        place := Place(f.value, |before|);
        var ret := Append(f.value, bytes);
        done := ret == BLOCK_SIZE;
        assert bytes[..BLOCK_SIZE] == bytes;
        if done {
          assert disk[f.value] == before + bytes;
          assert (before + bytes)[|before|..|before| + BLOCK_SIZE] == bytes;
        }
      }
    }
  }

  /** Where the next block goes on a reliable run: behind the last file while that is not longer than
      `recdsize`, and into a file of its own after that. */
  lemma NextFile(recdsize: nat, index: seq<nat>, disk: Disk, stream: seq<Byte>, offset: nat)
    requires Recorded(recdsize, index, disk, stream, offset) && offset + BLOCK_SIZE <= |stream|
    ensures var bytes, end := stream[offset..offset + BLOCK_SIZE], offset + BLOCK_SIZE;
      && Inserted(index, offset) == index + [offset]
      && (index == [] ==> Floor(index, offset) == None)
      && (index != [] ==>
        var k := index[|index| - 1];
        && Floor(index, offset) == Some(k) && k in disk && k + |disk[k]| == offset
        && (recdsize + BLOCK_SIZE < TWO_TO_THE_31 ==> |disk[k]| < TWO_TO_THE_31)
        && (|disk[k]| <= recdsize || TWO_TO_THE_31 <= recdsize + BLOCK_SIZE ==>
          Recorded(recdsize, index, disk[k := disk[k] + bytes], stream, end)))
      && (index == [] || recdsize < |disk[index[|index| - 1]]| || TWO_TO_THE_31 <= recdsize + BLOCK_SIZE ==>
        Recorded(recdsize, index + [offset], disk[offset := bytes], stream, end))
  {
    var bytes := stream[offset..offset + BLOCK_SIZE];
    TilesAdd(index, disk, stream, offset, BLOCK_SIZE);
    if index == [] {
      FloorOfNone(offset);
    } else {
      LastTile(index, disk, stream, offset);
      TilesAppend(index, disk, stream, offset, BLOCK_SIZE);
    }
    if recdsize + BLOCK_SIZE < TWO_TO_THE_31 {
      FileNew(index, disk, stream, offset);
      if index != [] {
        assert SizedFile(index, |index| - 1, disk, recdsize);
        if |disk[index[|index| - 1]]| <= recdsize {
          SizedAppend(index, disk, recdsize, bytes);
        }
      }
      if index == [] || recdsize < |disk[index[|index| - 1]]| {
        SizedAdd(index, disk, recdsize, offset, bytes);
      }
    }
  }

  lemma FileNew(index: seq<nat>, disk: Disk, stream: seq<Byte>, offset: nat)
    requires Tiles(index, disk, stream, offset)
    ensures offset !in index
  {
    if index != [] {
      LastTile(index, disk, stream, offset);
      forall i | 0 <= i < |index| ensures index[i] < offset {
        assert index[i] <= index[|index| - 1];
      }
    }
  }

  lemma FloorOfNone(offset: nat)
    ensures Floor([], offset) == None
  {
  }

  lemma FloorIsFile(index: seq<nat>, offset: nat)
    ensures var f := Floor(index, offset); f.Some? ==> f.value in index && f.value <= offset
  {
  }
}
