/** The GOPs that index the stream, the playlists that name groups of them, and the fragments served. */
module LiveGops {
  import opened Common
  import opened LiveCache
  import opened LiveChannel

  /** A transport packet, as the reader of it classifies it. */
  datatype Packet = Packet(bytes: seq<Byte>, isPat: bool, isPmt: bool, isIdr: bool, pcr: real)

  const PACKET_SIZE: nat := 188

  datatype Segment = Segment(frag: nat, timeLen: real)

  datatype Playlist = Playlist(mediaSequence: nat, segs: seq<Segment>)

  datatype Reply = Reply(contentLength: nat, body: seq<Byte>)

  /** The reply as it is handed to the transport. */
  datatype Response = Response(contentLength: nat, slices: seq<Slice>)

  /** A key frame; tables are looked for first. */
  predicate StartsGop(p: Packet) { p.isIdr && !p.isPat && !p.isPmt }

  function NextPat(pat: seq<Byte>, p: Packet): seq<Byte> { if p.isPat then p.bytes else pat }

  function NextPmt(pmt: seq<Byte>, p: Packet): seq<Byte> { if p.isPmt && !p.isPat then p.bytes else pmt }

  /** What one packet adds to the stream: a table nothing, and what comes before the first key frame
      nothing; a key frame the tables as well. */
  function Contribution(pat: seq<Byte>, pmt: seq<Byte>, started: bool, p: Packet): seq<Byte> {
    if p.isPat || p.isPmt then []
    else if p.isIdr then pat + pmt + p.bytes
    else if started then p.bytes
    else []
  }

  /** The stream that packets make. */
  ghost function Muxed(pat: seq<Byte>, pmt: seq<Byte>, started: bool, packets: seq<Packet>): seq<Byte>
    decreases |packets|
  {
    if packets == [] then []
    else
      var p := packets[0];
      Contribution(pat, pmt, started, p) +
      Muxed(NextPat(pat, p), NextPmt(pmt, p), started || StartsGop(p), packets[1..])
  }

  ghost function KeyFrames(packets: seq<Packet>): nat {
    if packets == [] then 0 else (if StartsGop(packets[0]) then 1 else 0) + KeyFrames(packets[1..])
  }

  /** The clock of a packet in seconds. */
  function Seconds(pcr: real): real { pcr / 90000.0 }

  /** The clocks of the key frames, in seconds. */
  ghost function KeyClocks(packets: seq<Packet>): seq<real> {
    if packets == [] then []
    else (if StartsGop(packets[0]) then [Seconds(packets[0].pcr)] else []) + KeyClocks(packets[1..])
  }

  /** Each key frame's clock is there, in its place: behind those of the key frames before it. */
  lemma {:induction false} KeyClocksExactly(packets: seq<Packet>, i: nat)
    requires i < |packets| && StartsGop(packets[i])
    ensures |KeyClocks(packets)| == KeyFrames(packets) && KeyFrames(packets[..i]) < KeyFrames(packets)
    ensures KeyClocks(packets)[KeyFrames(packets[..i])] * 90000.0 == packets[i].pcr
  {
    ClocksOfKeyFrames(packets);
    if i == 0 {
      assert packets[..0] == [];
    } else {
      KeyClocksExactly(packets[1..], i - 1);
      assert packets[..i][1..] == packets[1..][..i - 1];
    }
  }

  lemma {:induction false} ClocksOfKeyFrames(packets: seq<Packet>)
    ensures |KeyClocks(packets)| == KeyFrames(packets)
  {
    if packets != [] {
      ClocksOfKeyFrames(packets[1..]);
    }
  }

  lemma MuxedStep(stream: seq<Byte>, pat: seq<Byte>, pmt: seq<Byte>, started: bool, packets: seq<Packet>, w: nat)
    requires w < |packets|
    ensures var p := packets[w];
      && stream + Muxed(pat, pmt, started, packets[w..]) ==
         stream + Contribution(pat, pmt, started, p) +
         Muxed(NextPat(pat, p), NextPmt(pmt, p), started || StartsGop(p), packets[w + 1..])
      && KeyFrames(packets[w..]) == (if StartsGop(p) then 1 else 0) + KeyFrames(packets[w + 1..])
      && KeyClocks(packets[w..]) == (if StartsGop(p) then [Seconds(p.pcr)] else []) + KeyClocks(packets[w + 1..])
  {
    assert packets[w..][1..] == packets[w + 1..];
  }

  lemma MuxedNothing(pat: seq<Byte>, pmt: seq<Byte>, started: bool)
    ensures Muxed(pat, pmt, started, []) == [] && KeyFrames([]) == 0 && KeyClocks([]) == []
  {
  }

  // ---------- what packets make, stretch by stretch ----------

  /** The tables last seen. */
  ghost function LastPat(pat: seq<Byte>, packets: seq<Packet>): seq<Byte> {
    if packets == [] then pat
    else if packets[|packets| - 1].isPat then packets[|packets| - 1].bytes
    else LastPat(pat, packets[..|packets| - 1])
  }

  ghost function LastPmt(pmt: seq<Byte>, packets: seq<Packet>): seq<Byte> {
    if packets == [] then pmt
    else if packets[|packets| - 1].isPmt && !packets[|packets| - 1].isPat then packets[|packets| - 1].bytes
    else LastPmt(pmt, packets[..|packets| - 1])
  }

  /** All bytes but those of tables. */
  ghost function Payload(packets: seq<Packet>): seq<Byte> {
    if packets == [] then []
    else (if packets[0].isPat || packets[0].isPmt then [] else packets[0].bytes) + Payload(packets[1..])
  }

  lemma {:induction false} LastOfMore(pat: seq<Byte>, pmt: seq<Byte>, p: Packet, rest: seq<Packet>)
    ensures LastPat(pat, [p] + rest) == LastPat(NextPat(pat, p), rest)
    ensures LastPmt(pmt, [p] + rest) == LastPmt(NextPmt(pmt, p), rest)
  {
    var whole := [p] + rest;
    if rest == [] {
      assert whole == [p] && whole[..0] == [];
    } else {
      var n := |rest| - 1;
      LastOfMore(pat, pmt, p, rest[..n]);
      assert whole[..|whole| - 1] == [p] + rest[..n] && whole[|whole| - 1] == rest[n];
    }
  }

  /** Up to the next key frame packets make what is not a table, and nothing before the first one. */
  lemma {:induction false} StreamBeforeKeyFrame(pat: seq<Byte>, pmt: seq<Byte>, started: bool, packets: seq<Packet>)
    requires forall p :: p in packets ==> !StartsGop(p)
    ensures Muxed(pat, pmt, started, packets) == if started then Payload(packets) else []
    decreases |packets|
  {
    if packets != [] {
      var p := packets[0];
      assert p in packets;
      StreamBeforeKeyFrame(NextPat(pat, p), NextPmt(pmt, p), started, packets[1..]);
    }
  }

  /** A key frame makes the tables last seen and then itself, and starts what comes after it. */
  lemma {:induction false} StreamOfKeyFrame(pat: seq<Byte>, pmt: seq<Byte>, started: bool,
                                            before: seq<Packet>, key: Packet, rest: seq<Packet>)
    requires StartsGop(key) && forall p :: p in before ==> !StartsGop(p)
    ensures Muxed(pat, pmt, started, before + ([key] + rest)) ==
      (if started then Payload(before) else []) +
      (LastPat(pat, before) + LastPmt(pmt, before) + key.bytes +
       Muxed(LastPat(pat, before), LastPmt(pmt, before), true, rest))
    decreases |before|
  {
    var whole := before + ([key] + rest);
    if before == [] {
      assert whole == [key] + rest && whole[1..] == rest;
    } else {
      var p, more := before[0], before[1..];
      assert p in before && whole[0] == p && whole[1..] == more + ([key] + rest) && before == [p] + more;
      LastOfMore(pat, pmt, p, more);
      StreamOfKeyFrame(NextPat(pat, p), NextPmt(pmt, p), started, more, key, rest);
      var group := LastPat(pat, before) + LastPmt(pmt, before) + key.bytes +
        Muxed(LastPat(pat, before), LastPmt(pmt, before), true, rest);
      assert Muxed(pat, pmt, started, whole) ==
        Contribution(pat, pmt, started, p) + Muxed(NextPat(pat, p), NextPmt(pmt, p), started, whole[1..]);
      var own := if started then Payload(before) else [];
      assert own == Contribution(pat, pmt, started, p) + if started then Payload(more) else [];
      hide Muxed, LastPat, LastPmt, Payload, Contribution, NextPat, NextPmt;
      Assoc(Contribution(pat, pmt, started, p), if started then Payload(more) else [], group);
    }
  }

  /** GOPs follow one another without gap or overlap, up to the end of the stream, and are numbered. */
  ghost predicate Follow(gops: seq<Gop>, size: nat)
    reads gops`len
  {
    && (gops == [] ==> size == 0) && (gops != [] ==> gops[0].offset == 0)
    && (forall i :: 0 <= i < |gops| ==> InPlace(gops, i, size))
  }

  ghost predicate InPlace(gops: seq<Gop>, i: nat, size: nat)
    requires i < |gops|
    reads gops`len
  {
    gops[i].idx == i && gops[i].offset + gops[i].len == if i + 1 < |gops| then gops[i + 1].offset else size
  }

  /** What a GOP adds to the length of a segment; one that is not over counts for a second. */
  function Duration(g: Gop): real
    reads g
  {
    if g.timeLen == 0.0 then 1.0 else g.timeLen
  }

  ghost function Durations(gops: seq<Gop>, lo: nat, hi: nat): real
    requires lo <= hi <= |gops|
    reads gops
    decreases hi - lo
  {
    if lo == hi then 0.0 else Durations(gops, lo + 1, hi) + Duration(gops[lo])
  }

  ghost function Lengths(gops: seq<Gop>, lo: nat, hi: nat): nat
    requires lo <= hi <= |gops|
    reads gops`len
  {
    if lo == hi then 0 else Lengths(gops, lo, hi - 1) + gops[hi - 1].len
  }

  lemma FollowAdd(gops: seq<Gop>, gop: Gop, size: nat)
    requires Follow(gops, gop.offset) && gop.idx == |gops| && gop.offset + gop.len == size
    ensures Follow(gops + [gop], size)
  {
    var more := gops + [gop];
    forall i | 0 <= i < |more| ensures InPlace(more, i, size) {
      if i < |gops| {
        assert InPlace(gops, i, gop.offset);
      }
    }
  }

  lemma FollowFront(gops: seq<Gop>, size: nat)
    requires gops != [] && Follow(gops, size)
    ensures var n := |gops| - 1;
      && Follow(gops[..n], gops[n].offset) && gops[n].idx == n && gops[n].offset + gops[n].len == size
      && gops[n] !in gops[..n] && gops == gops[..n] + [gops[n]]
  {
    var n := |gops| - 1;
    var front := gops[..n];
    assert InPlace(gops, n, size);
    forall i | 0 <= i < |front| ensures InPlace(front, i, gops[n].offset) && front[i] != gops[n] {
      assert InPlace(gops, i, size);
    }
  }

  // ---------- what a channel has at one moment ----------

  /** From one clock to the next; no time at all counts for a second. */
  ghost function Span(from: real, to: real): real { if to == from then 1.0 else to - from }

  /** Where the GOPs start, in the stream and by the clock, and what they count for; and the stream. */
  datatype Snapshot = Snapshot(starts: seq<nat>, clocks: seq<real>, times: seq<real>, stream: seq<Byte>)
  {
    /** The starts are in order and within the stream, and the last GOP is not over. */
    ghost predicate Sane() {
      && |times| == |clocks| == |starts|
      && (forall i, j :: 0 <= i <= j < |starts| ==> starts[i] <= starts[j] <= |stream|)
      && (starts != [] ==> times[|times| - 1] == 1.0)
      && (forall i :: 0 <= i < |times| - 1 ==> times[i] == Span(clocks[i], clocks[i + 1]))
    }

    /** Where GOP `i` starts, or the stream ends. */
    ghost function StartOf(i: nat): nat
      requires i <= |starts|
    {
      if i < |starts| then starts[i] else |stream|
    }

    /** What a request for the fragment gets: the stream from the start of the group to its end, with
        the length in front; nothing when the group is not complete. */
    ghost function ReplyTo(frag: nat, m: nat): Option<Reply>
      requires Sane()
    {
      ReplyFrom(frag * m, m)
    }

    ghost function ReplyFrom(first: nat, m: nat): Option<Reply>
      requires Sane()
    {
      if first + m <= |starts| then Some(Stretch(StartOf(first), StartOf(first + m))) else None
    }

    ghost function Stretch(from: nat, to: nat): Reply
      requires from <= to <= |stream|
    {
      Reply(to - from, stream[from..to])
    }
  }

  /** What packets can make of a channel: GOPs are added behind the stream, the stream grows, and only
      the GOP that was the last gets another time. */
  ghost predicate Later(a: Snapshot, b: Snapshot) {
    && a.Sane() && b.Sane() && a.starts <= b.starts && a.clocks <= b.clocks && a.stream <= b.stream
    && (forall i :: |a.starts| <= i < |b.starts| ==> |a.stream| <= b.starts[i])
    && (forall i :: 0 <= i < |a.starts| - 1 ==> b.times[i] == a.times[i])
  }

  lemma LaterOf(a: Snapshot, b: Snapshot)
    requires a.Sane() && b.Sane() && |a.starts| <= |b.starts| && a.stream <= b.stream
    requires forall i :: 0 <= i < |a.starts| ==> a.starts[i] == b.starts[i] && a.clocks[i] == b.clocks[i]
    requires forall i :: |a.starts| <= i < |b.starts| ==> |a.stream| <= b.starts[i]
    requires forall i :: 0 <= i < |a.starts| - 1 ==> a.times[i] == b.times[i]
    ensures Later(a, b)
  {
  }

  lemma LaterSelf(a: Snapshot)
    requires a.Sane()
    ensures Later(a, a)
  {
  }

  lemma LaterTrans(a: Snapshot, b: Snapshot, c: Snapshot)
    requires Later(a, b) && Later(b, c)
    ensures Later(a, c)
  {
    assert forall i :: 0 <= i < |b.starts| ==> c.starts[i] == b.starts[i];
    assert forall i :: 0 <= i < |b.clocks| ==> c.clocks[i] == b.clocks[i];
  }

  ghost function Sum(s: seq<real>): real {
    if s == [] then 0.0 else s[0] + Sum(s[1..])
  }

  lemma {:induction false} SumLast(s: seq<real>)
    requires s != []
    ensures Sum(s) == Sum(s[..|s| - 1]) + s[|s| - 1]
  {
    if |s| > 1 {
      SumLast(s[1..]);
      assert s[..|s| - 1][1..] == s[1..][..|s| - 2];
    }
  }

  /** The playlist of the last whole groups of `m` GOPs: `t` segments, each named by its group and as
      long as that is. */
  ghost predicate PlaylistOf(p: Playlist, s: Snapshot, m: nat, t: nat)
    requires m > 0 && s.Sane()
  {
    && p.mediaSequence == |s.starts| / m - t && |p.segs| == t
    && forall i :: 0 <= i < t ==> NamesGroup(p.segs[i], p.mediaSequence + i, s, m)
  }

  ghost predicate NamesGroup(seg: Segment, frag: nat, s: Snapshot, m: nat)
    requires s.Sane()
  {
    seg.frag == frag && frag * m + m <= |s.starts| && seg.timeLen == Sum(s.times[frag * m..frag * m + m])
  }

  /** How many of the GOPs start at the clock at which the next one starts. */
  ghost function Ties(clocks: seq<real>, from: nat, to: nat): nat
    requires from <= to < |clocks|
  {
    if from == to then 0 else Ties(clocks, from, to - 1) + if clocks[to - 1] == clocks[to] then 1 else 0
  }

  /** GOPs that others follow sum to the time from the clock of the first to that of the one after them,
      and a second for every GOP that takes no time. */
  lemma {:induction false} SumByClocks(s: Snapshot, from: nat, to: nat)
    requires s.Sane() && from <= to < |s.starts|
    ensures Sum(s.times[from..to]) == s.clocks[to] - s.clocks[from] + Ties(s.clocks, from, to) as real
  {
    if from < to {
      SumByClocks(s, from, to - 1);
      SumLast(s.times[from..to]);
      assert s.times[from..to][..to - from - 1] == s.times[from..to - 1];
    }
  }

  /** The length of a published segment that a GOP follows: by the clocks of the key frames, from the one
      that starts its group to the one that starts the next group. */
  lemma SegmentByClocks(p: Playlist, i: nat, s: Snapshot, m: nat, t: nat)
    requires m > 0 && s.Sane() && PlaylistOf(p, s, m, t) && i < t
    requires (p.mediaSequence + i) * m + m < |s.starts|
    ensures var first := (p.mediaSequence + i) * m;
      p.segs[i].timeLen == s.clocks[first + m] - s.clocks[first] + Ties(s.clocks, first, first + m) as real
  {
    assert NamesGroup(p.segs[i], p.mediaSequence + i, s, m);
    SumByClocks(s, (p.mediaSequence + i) * m, (p.mediaSequence + i) * m + m);
  }

  /** Where no two successive clocks are equal, that is all. */
  lemma {:induction false} NoTies(clocks: seq<real>, from: nat, to: nat)
    requires from <= to < |clocks| && forall j :: from <= j < to ==> clocks[j] != clocks[j + 1]
    ensures Ties(clocks, from, to) == 0
  {
    if from < to {
      assert clocks[to - 1] != clocks[to - 1 + 1];
      NoTies(clocks, from, to - 1);
    }
  }

  /** A complete group with a GOP after it is served the same for good, and counts the same. */
  lemma GroupIsFinal(built: Snapshot, now: Snapshot, frag: nat, m: nat)
    requires m > 0 && Later(built, now) && frag * m + m < |built.starts|
    ensures now.ReplyTo(frag, m) == built.ReplyTo(frag, m)
    ensures now.times[frag * m..frag * m + m] == built.times[frag * m..frag * m + m]
  {
    FinalFrom(built, now, frag * m, m);
  }

  lemma FinalFrom(built: Snapshot, now: Snapshot, first: nat, m: nat)
    requires Later(built, now) && first + m < |built.starts|
    ensures now.ReplyFrom(first, m) == built.ReplyFrom(first, m)
    ensures now.times[first..first + m] == built.times[first..first + m]
  {
    var from, to := built.starts[first], built.starts[first + m];
    assert now.starts[first] == from && now.starts[first + m] == to;
    assert built.stream[from..to] == now.stream[from..to];
  }

  /** What was served of a complete group is the front of what is served of it later. */
  lemma GroupGrows(built: Snapshot, now: Snapshot, frag: nat, m: nat)
    requires m > 0 && Later(built, now) && frag * m + m <= |built.starts|
    ensures built.ReplyTo(frag, m).Some? && now.ReplyTo(frag, m).Some?
    ensures built.ReplyTo(frag, m).value.body <= now.ReplyTo(frag, m).value.body
  {
    var first := frag * m;
    if first + m < |built.starts| {
      GroupIsFinal(built, now, frag, m);
    } else {
      var from, to := built.starts[first], |built.stream|;
      assert now.starts[first] == from && to <= now.StartOf(first + m) <= |now.stream|;
      FrontOf(built.stream, now.stream, from, to, now.StartOf(first + m));
    }
  }

  lemma FrontOf(s: seq<Byte>, more: seq<Byte>, from: nat, to: nat, end: nat)
    requires s <= more && from <= to <= |s| && to <= end <= |more|
    ensures s[from..to] <= more[from..end]
  {
    assert s[from..to] == more[from..end][..to - from];
  }

  /** The segment has this number and the length of its group when it was built. A request now is
      answered with the stream from the start of that group to its end, with the length in front; a
      request then got the front of that. */
  ghost predicate ServedAs(seg: Segment, frag: nat, built: Snapshot, now: Snapshot, m: nat)
    requires built.Sane() && now.Sane() && m > 0
  {
    var first := frag * m;
    && seg.frag == frag && first + m <= |built.starts| <= |now.starts| && built.starts[first] == now.starts[first]
    && seg.timeLen == Sum(built.times[first..first + m])
    && now.ReplyTo(frag, m) == Some(now.Stretch(built.starts[first], now.StartOf(first + m)))
    && built.ReplyTo(frag, m).Some? && built.ReplyTo(frag, m).value.body <= now.ReplyTo(frag, m).value.body
  }

  /** The answer is the same as then, and the GOPs still sum to what they did. */
  ghost predicate Unchanged(seg: Segment, built: Snapshot, now: Snapshot, m: nat)
    requires built.Sane() && now.Sane() && m > 0
  {
    var first := seg.frag * m;
    && now.ReplyTo(seg.frag, m) == built.ReplyTo(seg.frag, m)
    && first + m <= |now.starts| && seg.timeLen == Sum(now.times[first..first + m])
  }

  /** Playlist and server agree, at any later time: segment `i` names fragment `mediaSequence + i`, and
      that is served with the GOPs summed into the segment. What it is served with no longer changes
      for a segment that is not the last, nor for the last one when a GOP comes after it. */
  lemma NamedIsServed(p: Playlist, i: nat, built: Snapshot, now: Snapshot, m: nat, t: nat)
    requires m > 0 && Later(built, now) && PlaylistOf(p, built, m, t) && i < t
    ensures ServedAs(p.segs[i], p.mediaSequence + i, built, now, m)
    ensures i + 1 < t || |built.starts| % m != 0 ==> Unchanged(p.segs[i], built, now, m)
  {
    hide Sum;
    var frag := p.mediaSequence + i;
    assert NamesGroup(p.segs[i], frag, built, m);
    GroupGrows(built, now, frag, m);
    assert now.starts[frag * m] == built.starts[frag * m];
    if i + 1 < t || |built.starts| % m != 0 {
      NotTheEnd(|built.starts|, m, t, i);
      GroupIsFinal(built, now, frag, m);
    }
  }

  /** A group that is not the last whole one, or that GOPs come after. */
  lemma NotTheEnd(n: nat, m: nat, t: nat, i: nat)
    requires m > 0 && i < t <= n / m && (i + 1 < t || n % m != 0)
    ensures (n / m - t + i) * m + m < n
  {
    var frag, q := n / m - t + i, n / m;
    GroupsOf(n, m);
    assert (frag + 1) * m == frag * m + m;
    Times(frag + 1, if i + 1 < t then q - 1 else q, m);
    EarlierGroup(q, m);
  }

  lemma GroupsOf(n: nat, m: nat)
    requires m > 0
    ensures n == n / m * m + n % m
  {
  }

  lemma EarlierGroup(q: nat, m: nat)
    ensures (q - 1) * m == q * m - m
  {
  }

  /** No table and no key frame. */
  predicate Plain(p: Packet) { !p.isPat && !p.isPmt && !p.isIdr }

  /** What a plain packet makes of a channel that has GOPs. */
  ghost function Continued(s: Snapshot, p: Packet): Snapshot { s.(stream := s.stream + p.bytes) }

  /** Any plain packet changes the answer for a group that no GOP comes after. */
  lemma ContinuedChanges(built: Snapshot, p: Packet, frag: nat, m: nat)
    requires m > 0 && built.Sane() && frag * m + m == |built.starts| && p.bytes != []
    ensures Later(built, Continued(built, p))
    ensures Continued(built, p).ReplyTo(frag, m) != built.ReplyTo(frag, m)
  {
    var now := Continued(built, p);
    assert |now.ReplyTo(frag, m).value.body| == |built.ReplyTo(frag, m).value.body| + |p.bytes|;
  }

  /** On a reliable run, what packets make of a channel is settled by its stream if no GOP is added. */
  lemma ContinuedIsAll(a: Snapshot, b: Snapshot, p: Packet)
    requires Later(a, b) && |b.starts| == |a.starts| && b.stream == a.stream + p.bytes
    ensures b == Continued(a, p)
  {
    assert b.starts == a.starts && b.clocks == a.clocks;
    forall i | 0 <= i < |a.times| ensures b.times[i] == a.times[i] {
      if i == |a.times| - 1 {
        assert a.times[i] == 1.0 && b.times[i] == 1.0;
      }
    }
    assert b.times == a.times;
  }

  lemma MuxedOne(pat: seq<Byte>, pmt: seq<Byte>, p: Packet)
    requires Plain(p)
    ensures Muxed(pat, pmt, true, [p]) == p.bytes && KeyFrames([p]) == 0
  {
    assert [p][1..] == [];
    assert p.bytes + [] == p.bytes;
  }

  /** The answer for a complete group can still change exactly as long as no GOP comes after it. */
  lemma FinalExactly(built: Snapshot, frag: nat, m: nat)
    requires m > 0 && built.Sane() && frag * m + m <= |built.starts|
    ensures frag * m + m < |built.starts| <==>
      forall now :: Later(built, now) ==> now.ReplyTo(frag, m) == built.ReplyTo(frag, m)
  {
    if frag * m + m < |built.starts| {
      forall now | Later(built, now) ensures now.ReplyTo(frag, m) == built.ReplyTo(frag, m) {
        GroupIsFinal(built, now, frag, m);
      }
    } else {
      var p := Packet(seq(PACKET_SIZE, _ => 0), false, false, false, 0.0);
      ContinuedChanges(built, p, frag, m);
    }
  }

  /** The last segment of a playlist: with no GOP after the last whole group, that segment is built
      while its last GOP is still growing, which counts for a second; then, and only then, what it
      names can change. */
  lemma LastSegment(p: Playlist, built: Snapshot, m: nat, t: nat)
    requires m > 0 && t > 0 && built.Sane() && PlaylistOf(p, built, m, t)
    ensures var frag, first := p.segs[t - 1].frag, p.segs[t - 1].frag * m;
      && (|built.starts| % m != 0 <==>
        forall now :: Later(built, now) ==> now.ReplyTo(frag, m) == built.ReplyTo(frag, m))
      && (|built.starts| % m == 0 ==>
        p.segs[t - 1].timeLen == Sum(built.times[first..first + m - 1]) + 1.0)
  {
    var frag := p.mediaSequence + t - 1;
    assert NamesGroup(p.segs[t - 1], frag, built, m);
    GroupsOf(|built.starts|, m);
    EarlierGroup(|built.starts| / m, m);
    FinalExactly(built, frag, m);
    if |built.starts| % m == 0 {
      var group := built.times[frag * m..frag * m + m];
      SumLast(group);
      assert group[..m - 1] == built.times[frag * m..frag * m + m - 1];
    }
  }

  ghost function Starts(gops: seq<Gop>): (s: seq<nat>)
    ensures |s| == |gops| && forall i :: 0 <= i < |gops| ==> s[i] == gops[i].offset
  {
    if gops == [] then [] else Starts(gops[..|gops| - 1]) + [gops[|gops| - 1].offset]
  }

  ghost function ClocksOf(gops: seq<Gop>): (s: seq<real>)
    ensures |s| == |gops| && forall i :: 0 <= i < |gops| ==> s[i] == gops[i].timeStart
  {
    if gops == [] then [] else ClocksOf(gops[..|gops| - 1]) + [gops[|gops| - 1].timeStart]
  }

  lemma ClocksMore(gops: seq<Gop>, gop: Gop)
    ensures ClocksOf(gops + [gop]) == ClocksOf(gops) + [gop.timeStart]
  {
    assert (gops + [gop])[..|gops|] == gops;
  }

  /** Every GOP but the last is as long as it takes the clock to get to the next one. */
  ghost predicate Timed(gops: seq<Gop>)
    reads gops`timeLen
  {
    forall i :: 0 <= i < |gops| - 1 ==> Spanned(gops, i)
  }

  ghost predicate Spanned(gops: seq<Gop>, i: nat)
    requires i + 1 < |gops|
    reads gops`timeLen
  {
    gops[i].timeLen == gops[i + 1].timeStart - gops[i].timeStart
  }

  /** The last GOP, if any, goes on until the clock. */
  ghost predicate EndsAt(gops: seq<Gop>, clock: real)
    reads gops`timeLen
  {
    gops != [] ==> gops[|gops| - 1].timeLen == clock - gops[|gops| - 1].timeStart
  }

  lemma TimedMore(gops: seq<Gop>, gop: Gop)
    requires Timed(gops) && EndsAt(gops, gop.timeStart)
    ensures Timed(gops + [gop])
  {
    var more := gops + [gop];
    forall i | 0 <= i < |more| - 1 ensures Spanned(more, i) {
      if i + 1 < |gops| {
        assert Spanned(gops, i);
      }
    }
  }

  ghost function DurationsOf(gops: seq<Gop>): (s: seq<real>)
    reads gops
    ensures |s| == |gops| && forall i :: 0 <= i < |gops| ==> s[i] == Duration(gops[i])
  {
    if gops == [] then [] else DurationsOf(gops[..|gops| - 1]) + [Duration(gops[|gops| - 1])]
  }

  lemma {:induction false} DurationsSum(gops: seq<Gop>, lo: nat, hi: nat)
    requires lo <= hi <= |gops|
    ensures Durations(gops, lo, hi) == Sum(DurationsOf(gops)[lo..hi])
    decreases hi - lo
  {
    var s := DurationsOf(gops)[lo..hi];
    if lo < hi {
      DurationsSum(gops, lo + 1, hi);
      assert s[1..] == DurationsOf(gops)[lo + 1..hi];
    }
  }

  /** The starts of GOPs that follow one another. */
  lemma {:induction false} StartsAscend(gops: seq<Gop>, size: nat, i: nat, j: nat)
    requires Follow(gops, size) && i <= j < |gops|
    ensures gops[i].offset <= gops[j].offset <= size
    decreases |gops| - i
  {
    Rest(gops, size, j);
    assert InPlace(gops, i, size);
    if i < j {
      StartsAscend(gops, size, i + 1, j);
    }
  }

  class Live {
    const channel: Channel
    const gopsize: nat
    const tfragsize: nat
    var gops: seq<Gop>
    var gopId: nat
    var pat: seq<Byte>
    var pmt: seq<Byte>
    var m3u8: Option<Playlist>
    /** What there was when the playlist was built. */
    ghost var built: Snapshot

    ghost predicate Valid()
      reads this, gops, channel, channel.recorder, channel.blocks, set i | 0 <= i < |channel.blocks| :: channel.blocks[i].buf
    {
      gopsize > 0 && tfragsize > 0 && channel.Valid() && Follow(gops, |channel.stream|) && gopId == |gops| && Growing()
    }

    /** The last GOP has no time yet, and the others have theirs. */
    ghost predicate Growing()
      reads this`gops, gops`timeLen
    {
      Timed(gops) && (gops != [] ==> gops[|gops| - 1].timeLen == 0.0)
    }

    ghost function Now(): Snapshot
      reads this`gops, gops, channel`stream
    {
      Snapshot(Starts(gops), ClocksOf(gops), DurationsOf(gops), channel.stream)
    }

    lemma NowIsSane()
      requires Follow(gops, |channel.stream|) && Growing()
      ensures Now().Sane()
    {
      forall i, j | 0 <= i <= j < |gops| ensures gops[i].offset <= gops[j].offset <= |channel.stream| {
        StartsAscend(gops, |channel.stream|, i, j);
      }
      forall i | 0 <= i < |gops| - 1 ensures Duration(gops[i]) == Span(gops[i].timeStart, gops[i + 1].timeStart) {
        assert Spanned(gops, i);
      }
    }

    /** The playlist, if there is one, was built of what there was then, and what there is now is what
        packets have made of that. */
    ghost predicate Published()
      requires gopsize > 0
      reads this, gops, channel`stream
    {
      m3u8.Some? ==> built.Sane() && PlaylistOf(m3u8.value, built, gopsize, tfragsize) && Later(built, Now())
    }

    constructor (channel: Channel, gopsize: nat, tfragsize: nat)
      requires channel.Valid() && channel.stream == [] && gopsize > 0 && tfragsize > 0
      ensures Valid() && Published() && gops == []
      ensures this.channel == channel && this.gopsize == gopsize && this.tfragsize == tfragsize
    {
      this.channel, this.gopsize, this.tfragsize := channel, gopsize, tfragsize;
      gops, gopId, pat, pmt, m3u8 := [], 0, seq(PACKET_SIZE, _ => 0), seq(PACKET_SIZE, _ => 0), None;
    }

    ghost predicate Reliable()
      reads this
    {
      channel.recorder.reliable
    }

    /** The last GOP takes more of the stream. */
    method WriteToLast(bytes: seq<Byte>) returns (ghost n: nat)
      requires Valid() && gops != []
      modifies channel, channel.recorder, channel.blocks`key, channel.blocks`state
      modifies set i | 0 <= i < |channel.blocks| :: channel.blocks[i].buf
      modifies {gops[|gops| - 1]}`len
      ensures Valid() && channel.Kept(old(channel.blocks))
      ensures n <= |bytes| && channel.stream == old(channel.stream) + bytes[..n] && (Reliable() ==> n == |bytes|)
    {
      hide NothingLost, Recorded, Matching, Staged, Keys, Ordered, Follow;
      hide channel.Cached, channel.Valid, Grown;
      var last := gops[|gops| - 1];
      ghost var front := gops[..|gops| - 1];
      FollowFront(gops, |channel.stream|);
      n := channel.GopWrite(last, bytes);
      FollowAdd(front, last, |channel.stream|);
    }

    /** A key frame starts a GOP where the last one ends, with the tables in front. */
    method StartGop(pcr: real) returns (started: bool)
      requires Valid()
      modifies this`gops, this`gopId, gops`timeLen
      modifies channel, channel.recorder, channel.blocks`key, channel.blocks`state
      modifies set i | 0 <= i < |channel.blocks| :: channel.blocks[i].buf
      ensures Valid() && channel.Kept(old(channel.blocks)) && old(channel.stream) <= channel.stream
      ensures started ==> |gops| == |old(gops)| + 1 && gops[..|gops| - 1] == old(gops) && fresh(gops[|gops| - 1])
      ensures started ==> gops[|gops| - 1].offset == |old(channel.stream)|
      ensures started ==> ClocksOf(gops) == ClocksOf(old(gops)) + [Seconds(pcr)]
      ensures forall i :: 0 <= i < |old(gops)| - 1 ==> old(gops)[i].timeLen == old(gops[i].timeLen)
      ensures !started ==> gops == old(gops) && channel.stream == old(channel.stream)
      ensures Reliable() ==> started && channel.stream == old(channel.stream) + pat + pmt
    {
      hide NothingLost, Recorded, Matching, Staged, Keys, Ordered, Follow, Grown, Timed, EndsAt, ClocksOf, Seconds;
      hide channel.Cached, channel.Valid, Growing;
      TimedNow();
      GrownSelf(channel.held);
      var ok: bool :| channel.recorder.reliable ==> ok;
      if !ok {
        return false;
      }
      var timeStart := Seconds(pcr);
      var offset := FinishLast(timeStart);
      var gop := NewGop(offset, timeStart);
      Join(gop);
      started := true;
    }

    lemma TimedNow()
      requires Growing()
      ensures Timed(gops)
    {
    }

    /** A new GOP, which is not yet among those of the channel, with the tables in front. */
    method NewGop(offset: nat, timeStart: real) returns (gop: Gop)
      requires channel.Valid() && offset == |channel.stream| && Timed(gops) && EndsAt(gops, timeStart) && Follow(gops, offset)
      modifies channel, channel.recorder, channel.blocks`key, channel.blocks`state
      modifies set i | 0 <= i < |channel.blocks| :: channel.blocks[i].buf
      ensures Timed(gops) && EndsAt(gops, timeStart) && Follow(gops, offset)
      ensures forall i :: 0 <= i < |gops| ==> gops[i].timeLen == old(gops[i].timeLen)
      ensures fresh(gop) && gop.idx == gopId && gop.offset == offset && gop.timeStart == timeStart && gop.timeLen == 0.0
      ensures channel.Valid() && gop.offset + gop.len == |channel.stream| && channel.Kept(old(channel.blocks))
      ensures old(channel.stream) <= channel.stream
      ensures Reliable() ==> channel.stream == old(channel.stream) + pat + pmt
    {
      hide NothingLost, Recorded, Matching, Staged, Keys, Ordered, Grown;
      hide channel.Cached, channel.Valid, Timed, EndsAt, Follow;
      gop := new Gop(gopId, offset, timeStart);
      WriteTables(gop);
    }

    method Join(gop: Gop)
      requires Follow(gops, gop.offset) && gop.idx == gopId == |gops| && gop.offset + gop.len == |channel.stream|
      requires Timed(gops) && EndsAt(gops, gop.timeStart) && gop.timeLen == 0.0
      modifies this`gops, this`gopId
      ensures gops == old(gops) + [gop] && gopId == |gops| && Follow(gops, |channel.stream|) && Growing()
      ensures ClocksOf(gops) == ClocksOf(old(gops)) + [gop.timeStart]
    {
      ClocksMore(gops, gop);
      TimedMore(gops, gop);
      FollowAdd(gops, gop, |channel.stream|);
      gopId := gopId + 1;
      gops := gops + [gop];
    }

    /** The last GOP, if any, ends here, and now its time is known. */
    method FinishLast(timeStart: real) returns (offset: nat)
      requires channel.Valid() && Follow(gops, |channel.stream|) && Timed(gops)
      modifies gops`timeLen
      ensures channel.Valid() && Follow(gops, |channel.stream|)
      ensures offset == |channel.stream| && Timed(gops) && EndsAt(gops, timeStart)
      ensures forall i :: 0 <= i < |gops| - 1 ==> gops[i].timeLen == old(gops[i].timeLen)
    {
      hide channel.Valid;
      if gops != [] {
        var g := gops[|gops| - 1];
        FollowFront(gops, |channel.stream|);
        assert forall i :: 0 <= i < |gops| - 1 ==> gops[i] == gops[..|gops| - 1][i];
        offset := g.offset + g.len;
        g.timeLen := timeStart - g.timeStart;
        forall i | 0 <= i < |gops| - 1 ensures Spanned(gops, i) {
          assert old(Spanned(gops, i));
        }
      } else {
        offset := 0;
      }
    }

    method WriteTables(gop: Gop)
      requires channel.Valid() && gop.offset + gop.len == |channel.stream|
      modifies channel, channel.recorder, gop`len, channel.blocks`key, channel.blocks`state
      modifies set i | 0 <= i < |channel.blocks| :: channel.blocks[i].buf
      ensures channel.Valid() && gop.offset + gop.len == |channel.stream| && channel.Kept(old(channel.blocks))
      ensures old(channel.stream) <= channel.stream
      ensures Reliable() ==> channel.stream == old(channel.stream) + pat + pmt
    {
      hide NothingLost, Recorded, Matching, Staged, Keys, Ordered, Grown;
      hide channel.Cached, channel.Valid;
      ghost var held := channel.held;
      ghost var m := channel.GopWrite(gop, pat);
      ghost var between := channel.held;
      ghost var k := channel.GopWrite(gop, pmt);
      GrownTrans(held, between, channel.held);
      assert pat[..|pat|] == pat && pmt[..|pmt|] == pmt;
    }

    /** GOPs are only ever added, behind the stream, and those that are were not there before; only the
        one that was the last gets another time. */
    twostate predicate Longer(was: seq<Gop>)
      reads this, was
    {
      && was <= gops && (forall i :: |was| <= i < |gops| ==> fresh(gops[i]) && |old(channel.stream)| <= gops[i].offset)
      && (forall i :: 0 <= i < |was| - 1 ==> was[i].timeLen == old(was[i].timeLen))
    }

    twostate lemma PacketsLater()
      requires old(Now()).Sane() && Follow(gops, |channel.stream|) && Growing()
      requires Longer(old(gops)) && old(channel.stream) <= channel.stream
      ensures Later(old(Now()), Now())
    {
      NowIsSane();
      var a, b, was := old(Now()), Now(), old(gops);
      hide Follow, Growing;
      forall i | 0 <= i < |was| ensures a.starts[i] == b.starts[i] && a.clocks[i] == b.clocks[i] {
        assert was[i] == gops[i];
      }
      forall i | 0 <= i < |was| - 1 ensures a.times[i] == b.times[i] {
        assert was[i] == gops[i] && a.times[i] == old(Duration(was[i])) && b.times[i] == Duration(gops[i]);
      }
      hide Longer;
      LaterOf(a, b);
    }

    /** One packet; false when no GOP could be allocated for it, which ends the delivery. */
    method RecvPacket(p: Packet) returns (go: bool)
      requires Valid()
      modifies this`gops, this`gopId, this`pat, this`pmt, gops`len, gops`timeLen
      modifies channel, channel.recorder, channel.blocks`key, channel.blocks`state
      modifies set i | 0 <= i < |channel.blocks| :: channel.blocks[i].buf
      ensures Valid() && channel.Kept(old(channel.blocks)) && Longer(old(gops)) && old(channel.stream) <= channel.stream
      ensures pat == NextPat(old(pat), p) && pmt == NextPmt(old(pmt), p)
      ensures Reliable() ==> go
      ensures Reliable() ==> channel.stream == old(channel.stream) + Contribution(old(pat), old(pmt), old(gops) != [], p)
      ensures Reliable() ==> |gops| == |old(gops)| + if StartsGop(p) then 1 else 0
      ensures Reliable() ==> ClocksOf(gops) == ClocksOf(old(gops)) + if StartsGop(p) then [Seconds(p.pcr)] else []
    {
      hide NothingLost, Recorded, Matching, Staged, Keys, Ordered, Follow;
      hide channel.Cached, channel.Valid, Growing, Timed, ClocksOf, Seconds;
      assert ClocksOf(gops) + [] == ClocksOf(gops);
      go := true;
      if p.isPat {
        pat := p.bytes;
        return;
      }
      if p.isPmt {
        pmt := p.bytes;
        return;
      }
      if p.isIdr {
        go := StartGop(p.pcr);
        if !go {
          return;
        }
      }
      if gops != [] {
        ghost var n := WriteToLast(p.bytes);
        assert p.bytes[..|p.bytes|] == p.bytes;
      }
    }

    /** The loop of `yms_channel_recv_ts`: the stream grows by what the packets make. */
    method RecvPackets(packets: seq<Packet>) returns (go: bool)
      requires Valid()
      modifies this`gops, this`gopId, this`pat, this`pmt, gops`len, gops`timeLen
      modifies channel, channel.recorder, channel.blocks`key, channel.blocks`state
      modifies set i | 0 <= i < |channel.blocks| :: channel.blocks[i].buf
      ensures Valid() && channel.Kept(old(channel.blocks)) && Longer(old(gops)) && old(channel.stream) <= channel.stream
      ensures Reliable() ==> go
      ensures Reliable() ==> channel.stream == old(channel.stream) + Muxed(old(pat), old(pmt), old(gops) != [], packets)
      ensures Reliable() ==> |gops| == |old(gops)| + KeyFrames(packets)
      ensures Reliable() ==> ClocksOf(gops) == ClocksOf(old(gops)) + KeyClocks(packets)
    {
      hide NothingLost, Recorded, Matching, Staged, Keys, Ordered, Follow, Contribution, Muxed, KeyFrames, KeyClocks;
      hide channel.Cached, channel.Valid, Growing, Timed, ClocksOf, Seconds;
      hide Grown;
      GrownSelf(channel.held);
      var walker := 0;
      assert packets[0..] == packets;
      while walker < |packets|
        invariant 0 <= walker <= |packets|
        invariant Valid() && channel.Kept(old(channel.blocks)) && Longer(old(gops)) && old(channel.stream) <= channel.stream
        invariant Reliable() ==>
          channel.stream + Muxed(pat, pmt, gops != [], packets[walker..]) ==
          old(channel.stream) + Muxed(old(pat), old(pmt), old(gops) != [], packets)
        invariant Reliable() ==> |gops| + KeyFrames(packets[walker..]) == |old(gops)| + KeyFrames(packets)
        invariant Reliable() ==>
          ClocksOf(gops) + KeyClocks(packets[walker..]) == ClocksOf(old(gops)) + KeyClocks(packets)
      {
        MuxedStep(channel.stream, pat, pmt, gops != [], packets, walker);
        ghost var clock := if StartsGop(packets[walker]) then [Seconds(packets[walker].pcr)] else [];
        Assoc(ClocksOf(gops), clock, KeyClocks(packets[walker + 1..]));
        ghost var held := channel.held;
        go := RecvPacket(packets[walker]);
        GrownTrans(old(channel.held), held, channel.held);
        if !go {
          return;
        }
        walker := walker + 1;
      }
      MuxedNothing(pat, pmt, gops != []);
      assert packets[walker..] == [];
      go := true;
    }

    /** `channel_m3u8_gop_align`: back to the last GOP of a whole group, with enough GOPs before it. */
    method GopAlign(end: nat) returns (e: Option<nat>)
      requires gopsize > 0 && Follow(gops, |channel.stream|) && end < |gops|
      ensures var n := Whole(end + 1, gopsize); e == if n == 0 || n < gopsize * tfragsize then None else Some(n - 1)
    {
      hide Whole, Follow;
      Numbered(gops, |channel.stream|);
      var k: int := end;
      ghost var n := Whole(end + 1, gopsize);
      WholeEnd(end, gopsize);
      while k >= 0 && gops[k].idx % gopsize != gopsize - 1
        invariant -1 <= k <= end && Whole(k + 1, gopsize) == n
      {
        WholeEnd(k, gopsize);
        k := k - 1;
      }
      if k < 0 {
        NoGroup(gopsize);
        return None;
      }
      WholeEnd(k, gopsize);
      var enough := CountBack(k, gopsize * tfragsize);
      e := if enough then Some(k) else None;
    }

    /** The second loop goes back over as many GOPs, and runs out of them when there are too few. */
    method CountBack(k: nat, number: nat) returns (enough: bool)
      ensures enough <==> number <= k + 1
    {
      var gop: int, i := k, 0;
      while i < number
        invariant 0 <= i <= number && gop == k - i >= -1
      {
        if gop < 0 {
          return false;
        }
        gop, i := gop - 1, i + 1;
      }
      enough := true;
    }

    /** The durations of one segment, going back; -1 when there is no GOP left after them. */
    method SumSegment(from: nat) returns (timeLen: real, gop: int)
      requires gopsize > 0 && from < |gops| && gopsize <= from + 1
      ensures gop == from - gopsize && timeLen == Durations(gops, from + 1 - gopsize, from + 1)
    {
      timeLen, gop := 0.0, from;
      var j := 0;
      while j < gopsize
        invariant 0 <= j <= gopsize && gop == from - j && timeLen == Durations(gops, from + 1 - j, from + 1)
      {
        timeLen := timeLen + Duration(gops[gop]);
        gop, j := gop - 1, j + 1;
      }
    }

    /** A segment: its name and the time of its group of GOPs. */
    ghost predicate SegmentOf(s: Segment, frag: nat)
      requires gopsize > 0
      reads this`gops, gops
    {
      && s.frag == frag && frag * gopsize + gopsize <= |gops|
      && s.timeLen == Durations(gops, frag * gopsize, frag * gopsize + gopsize)
    }

    /** `channel_m3u8_create`: the last groups up to `end`, each named by its number. It asks for one
        GOP more, before them, than it uses. */
    method M3u8Create(end: nat, ghost groups: nat) returns (r: Option<Playlist>)
      requires gopsize > 0 && tfragsize > 0 && Follow(gops, |channel.stream|)
      requires end < |gops| && end + 1 == groups * gopsize
      ensures r.Some? <==> groups > tfragsize
      ensures r.Some? ==>
        && r.value.mediaSequence == groups - tfragsize && |r.value.segs| == tfragsize
        && forall i :: 0 <= i < tfragsize ==> SegmentOf(r.value.segs[i], r.value.mediaSequence + i)
    {
      hide Follow;
      Numbered(gops, |channel.stream|);
      var segs: seq<Segment> := [];
      var mediaSequence := 0;
      var gop: int := end;
      ghost var q := groups;
      var i := tfragsize - 1;
      while i >= 0
        invariant -1 <= i < tfragsize && |segs| == tfragsize - 1 - i && q == groups - |segs| > 0
        invariant gop == q * gopsize - 1 && gop < |gops| && (segs != [] ==> q >= 1)
        invariant forall k :: 0 <= k < |segs| ==> SegmentOf(segs[k], q + k)
        invariant i < 0 ==> mediaSequence == q
      {
        GroupOf(gop, q, gopsize);
        var frag := gops[gop].idx / gopsize;
        if i == 0 {
          mediaSequence := frag;
        }
        var timeLen;
        timeLen, gop := SumSegment(gop);
        if gop < 0 {
          return None;
        }
        assert SegmentOf(Segment(frag, timeLen), q - 1);
        segs := [Segment(frag, timeLen)] + segs;
        q := q - 1;
        i := i - 1;
      }
      r := Some(Playlist(mediaSequence, segs));
    }

    /** `yms_channel_recv_ts`: the packets, and then a new playlist when there are groups enough. */
    method RecvTs(packets: seq<Packet>)
      requires Valid() && Published()
      modifies this`gops, this`gopId, this`pat, this`pmt, this`m3u8, this`built, gops`len, gops`timeLen
      modifies channel, channel.recorder, channel.blocks`key, channel.blocks`state
      modifies set i | 0 <= i < |channel.blocks| :: channel.blocks[i].buf
      ensures Valid() && Published() && Later(old(Now()), Now()) && channel.Kept(old(channel.blocks))
      ensures Reliable() ==> channel.stream == old(channel.stream) + Muxed(old(pat), old(pmt), old(gops) != [], packets)
      ensures Reliable() ==> |gops| == |old(gops)| + KeyFrames(packets)
      ensures Reliable() ==> ClocksOf(gops) == ClocksOf(old(gops)) + KeyClocks(packets)
      ensures (m3u8 == old(m3u8) && built == old(built)) || (m3u8.Some? && built == Now())
      ensures Reliable() && |gops| / gopsize > tfragsize ==> m3u8.Some? && built == Now()
    {
      hide NothingLost, Recorded, Matching, Staged, Keys, Ordered, Follow, Muxed, KeyFrames, KeyClocks, PlaylistOf, Later;
      hide channel.Cached, channel.Valid, Growing, Timed, Sum, Now;
      var go := Deliver(packets);
      if go && gops != [] {
        Build();
      }
    }

    /** The packets, under the playlist as it is. */
    method Deliver(packets: seq<Packet>) returns (go: bool)
      requires Valid() && Published()
      modifies this`gops, this`gopId, this`pat, this`pmt, gops`len, gops`timeLen
      modifies channel, channel.recorder, channel.blocks`key, channel.blocks`state
      modifies set i | 0 <= i < |channel.blocks| :: channel.blocks[i].buf
      ensures Valid() && Published() && Later(old(Now()), Now()) && channel.Kept(old(channel.blocks))
      ensures Reliable() ==> go
      ensures Reliable() ==> channel.stream == old(channel.stream) + Muxed(old(pat), old(pmt), old(gops) != [], packets)
      ensures Reliable() ==> |gops| == |old(gops)| + KeyFrames(packets)
      ensures Reliable() ==> ClocksOf(gops) == ClocksOf(old(gops)) + KeyClocks(packets)
    {
      hide NothingLost, Recorded, Matching, Staged, Keys, Ordered, Follow, Muxed, KeyFrames, KeyClocks, PlaylistOf, Later, Longer;
      hide channel.Cached, channel.Valid, Growing, Timed, Sum;
      ghost var before := Now();
      NowIsSane();
      go := RecvPackets(packets);
      PacketsLater();
      if m3u8.Some? {
        LaterTrans(built, before, Now());
      }
    }

    /** One more plain packet, on a reliable run, changes the answer for a group that no GOP comes after. */
    method DeliverPlain(p: Packet, ghost frag: nat)
      requires Valid() && Published() && Reliable() && Plain(p) && p.bytes != []
      requires gops != [] && frag * gopsize + gopsize == |gops|
      modifies this`gops, this`gopId, this`pat, this`pmt, gops`len, gops`timeLen
      modifies channel, channel.recorder, channel.blocks`key, channel.blocks`state
      modifies set i | 0 <= i < |channel.blocks| :: channel.blocks[i].buf
      ensures Valid() && Published() && old(Now()).Sane() && Now() == Continued(old(Now()), p)
      ensures Now().Sane() && Now().ReplyTo(frag, gopsize) != old(Now()).ReplyTo(frag, gopsize)
    {
      hide NothingLost, Recorded, Matching, Staged, Keys, Ordered, Follow, Muxed, KeyFrames, KeyClocks, PlaylistOf, Grown;
      hide channel.Cached, channel.Valid, Growing, Timed, Sum;
      NowIsSane();
      MuxedOne(pat, pmt, p);
      ghost var before := Now();
      ContinuedChanges(before, p, frag, gopsize);
      var go := Deliver([p]);
      ContinuedIsAll(before, Now(), p);
    }

    /** Alignment wants the groups that the playlist names; creation wants a GOP before them as well. */
    method Build()
      requires gopsize > 0 && tfragsize > 0 && Follow(gops, |channel.stream|) && Growing() && gops != [] && Published()
      modifies this`m3u8, this`built
      ensures Published()
      ensures |gops| / gopsize > tfragsize ==> m3u8.Some? && built == Now()
      ensures |gops| / gopsize <= tfragsize ==> m3u8 == old(m3u8) && built == old(built)
    {
      hide Follow, Growing, Later, PlaylistOf, Now;
      var end := GopAlign(|gops| - 1);
      ghost var groups := |gops| / gopsize;
      EnoughGroups(groups, tfragsize, gopsize);
      if end.Some? {
        assert Whole(|gops|, gopsize) == groups * gopsize;
        var p := M3u8Create(end.value, groups);
        if p.Some? {
          NamesGroups(p.value);
          m3u8, built := p, Now();
          LaterSelf(Now());
        }
      }
    }

    /** The segments as created, of what there is now. */
    lemma NamesGroups(p: Playlist)
      requires gopsize > 0 && Follow(gops, |channel.stream|) && Growing()
      requires p.mediaSequence == |gops| / gopsize - tfragsize && |p.segs| == tfragsize
      requires forall i :: 0 <= i < tfragsize ==> SegmentOf(p.segs[i], p.mediaSequence + i)
      ensures Now().Sane() && PlaylistOf(p, Now(), gopsize, tfragsize)
    {
      NowIsSane();
      forall i | 0 <= i < tfragsize ensures NamesGroup(p.segs[i], p.mediaSequence + i, Now(), gopsize) {
        var frag := p.mediaSequence + i;
        assert SegmentOf(p.segs[i], frag);
        DurationsSum(gops, frag * gopsize, frag * gopsize + gopsize);
      }
    }

    /** So it is at any time for the playlist that is published. */
    lemma PublishedIsServed(i: nat)
      requires Valid() && Published() && m3u8.Some? && i < tfragsize
      ensures built.Sane() && Now().Sane()
      ensures ServedAs(m3u8.value.segs[i], m3u8.value.mediaSequence + i, built, Now(), gopsize)
      ensures i + 1 < tfragsize || |built.starts| % gopsize != 0 ==> Unchanged(m3u8.value.segs[i], built, Now(), gopsize)
    {
      hide NothingLost, Recorded, Matching, Staged, Keys, Ordered, Follow, ServedAs, Unchanged, Sum;
      hide channel.Cached, channel.Valid;
      NowIsSane();
      NamedIsServed(m3u8.value, i, built, Now(), gopsize, tfragsize);
    }

    /** The GOPs from `first` on that make a group are all there. */
    predicate HasGroup(first: nat)
      reads this`gops
    {
      first + gopsize <= |gops|
    }

    /** The blocks under the group are resident; the source waits for ever for one that is not. */
    ghost predicate GroupResident(first: nat)
      requires HasGroup(first)
      reads this`gops, gops`len, channel`resident
    {
      var from := if gopsize == 0 then 0 else gops[first].offset;
      channel.AllResident(from, from + Lengths(gops, first, first + gopsize))
    }

    /** On a reliable run a group with bytes in it can be served exactly when it starts no further back
        from the last block than the pool reaches. */
    lemma GroupResidentExactly(first: nat)
      requires Valid() && Reliable() && HasGroup(first) && Lengths(gops, first, first + gopsize) > 0
      ensures GroupResident(first) <==>
        channel.RecordedTo() < Align(gops[first].offset) + (channel.capacity - 1) * BLOCK_SIZE
    {
      hide NothingLost, Recorded, Matching, Staged, Keys, Ordered, Windowed, Follow;
      hide channel.Cached;
      var from, len := gops[first].offset, Lengths(gops, first, first + gopsize);
      Stretch(gops, |channel.stream|, first, first + gopsize);
      channel.ResidentExactly(from);
      if channel.RecordedTo() < Align(from) + (channel.capacity - 1) * BLOCK_SIZE {
        forall p | from <= p < from + len ensures Align(p) in channel.resident {
          AlignGrows(from, p);
          channel.ResidentExactly(p);
        }
      } else {
        assert from <= from < from + len;
      }
    }

    /** The fragment request of `yms_live_req`: the GOPs of one group, with their length in front; or
        nothing when the channel does not have all of them. What is attached of them are places in the
        blocks, which read as the reply when they are sent at once. */
    method ServeFragment(fragId: nat) returns (r: Option<Response>, ghost tried: seq<Slice>, ghost oks: seq<bool>)
      requires Valid() && (HasGroup(fragId * gopsize) ==> GroupResident(fragId * gopsize))
      ensures r.Some? <==> HasGroup(fragId * gopsize)
      ensures r.Some? ==> Hands(r.value.slices, tried, oks, gops[fragId * gopsize].offset, r.value.contentLength)
      ensures Now().Sane()
      ensures Now().ReplyTo(fragId, gopsize) ==
        if r.Some? then Some(Reply(r.value.contentLength, Read(tried))) else None
    {
      hide NothingLost, Recorded, Matching, Staged, Keys, Ordered, Follow;
      hide channel.Cached, channel.Valid, Growing, Timed, GroupResident, Lengths, Hands, Read;
      NowIsSane();
      ReplyIsGroup(fragId);
      hide Now;
      r, tried, oks := ServeGroup(fragId * gopsize);
    }

    method ServeGroup(id: nat) returns (r: Option<Response>, ghost tried: seq<Slice>, ghost oks: seq<bool>)
      requires Valid() && (HasGroup(id) ==> GroupResident(id))
      ensures r.Some? <==> HasGroup(id)
      ensures r.Some? ==>
        var from, len := gops[id].offset, Lengths(gops, id, id + gopsize);
        && r.value.contentLength == len && from + len <= |channel.stream| && Read(tried) == channel.stream[from..from + len]
        && Hands(r.value.slices, tried, oks, from, len)
    {
      hide NothingLost, Recorded, Matching, Staged, Keys, Ordered, Follow;
      hide channel.Cached, channel.Valid, Growing, Timed, GroupResident, Lengths, Hands, Read;
      tried, oks := [], [];
      var k := FindGop(id);
      if k < 0 {
        r := None;
        return;
      }
      var size := MeasureGroup(id);
      if size.None? {
        r := None;
        return;
      }
      var slices;
      slices, tried, oks := SendGroup(id);
      r := Some(Response(size.value, slices));
    }

    /** The pieces of a stretch of the stream, and those of them that were attached: all on a reliable
        run. */
    ghost predicate Hands(slices: seq<Slice>, tried: seq<Slice>, oks: seq<bool>, from: nat, len: nat)
      reads channel`held
    {
      && Covers(tried, from, from + len) && (forall s :: s in tried ==> channel.Attached(s))
      && |oks| == |tried| && slices == Taken(tried, oks) && (channel.recorder.reliable ==> false !in oks)
    }

    /** The length in front is met by what is attached exactly when attaching never failed. */
    lemma LengthMet(slices: seq<Slice>, tried: seq<Slice>, oks: seq<bool>, from: nat, len: nat)
      requires Hands(slices, tried, oks, from, len)
      ensures Total(slices) <= len && (Total(slices) == len <==> false !in oks) && (false !in oks ==> slices == tried)
    {
      TakenAll(tried, oks);
      CoversForward(tried, from, from + len);
    }

    /** A group by the lengths of its GOPs, and by where they start. */
    lemma ReplyIsGroup(fragId: nat)
      requires gopsize > 0 && Follow(gops, |channel.stream|) && Now().Sane()
      ensures var first := fragId * gopsize;
        if HasGroup(first) then
          var from, len := gops[first].offset, Lengths(gops, first, first + gopsize);
          from + len <= |channel.stream| && Now().ReplyTo(fragId, gopsize) == Some(Reply(len, channel.stream[from..from + len]))
        else Now().ReplyTo(fragId, gopsize) == None
    {
      var first := fragId * gopsize;
      if HasGroup(first) {
        Stretch(gops, |channel.stream|, first, first + gopsize);
      }
    }

    /** From the newest GOP back to the one of this number. */
    method FindGop(id: nat) returns (k: int)
      requires Follow(gops, |channel.stream|)
      ensures k == if id < |gops| then id else -1
    {
      Numbered(gops, |channel.stream|);
      k := |gops| - 1;
      while k >= 0 && gops[k].idx != id
        invariant -1 <= k < |gops| && (id < |gops| ==> id <= k)
      {
        k := k - 1;
      }
    }

    method MeasureGroup(first: nat) returns (size: Option<nat>)
      requires first < |gops|
      ensures size == if HasGroup(first) then Some(Lengths(gops, first, first + gopsize)) else None
    {
      var g, ts, i := first, 0, 0;
      while i < gopsize
        invariant 0 <= i <= gopsize && g == first + i <= |gops| && ts == Lengths(gops, first, g)
      {
        if g == |gops| {
          return None;
        }
        ts := ts + gops[g].len;
        g, i := g + 1, i + 1;
      }
      size := Some(ts);
    }

    method SendGroup(first: nat) returns (slices: seq<Slice>, ghost tried: seq<Slice>, ghost oks: seq<bool>)
      requires Valid() && HasGroup(first) && GroupResident(first)
      ensures var from, len := gops[first].offset, Lengths(gops, first, first + gopsize);
        && from + len <= |channel.stream| && Read(tried) == channel.stream[from..from + len]
        && Hands(slices, tried, oks, from, len)
    {
      hide NothingLost, Recorded, Matching, Staged, Keys, Ordered, Follow, Lengths, Taken, Covers;
      hide channel.Cached, channel.Valid, Growing, Timed, channel.Attached;
      slices, tried, oks := [], [], [];
      var i := 0;
      ghost var from := gops[first].offset;
      NothingMeasured(gops, first);
      NothingHanded(from);
      Stretch(gops, |channel.stream|, first, first + gopsize);
      while i < gopsize
        invariant 0 <= i <= gopsize && Hands(slices, tried, oks, from, Lengths(gops, first, first + i))
      {
        var gop := gops[first + i];
        NextGop(gops, |channel.stream|, first, i, gopsize);
        var more, ts, bs := channel.AttachBuffer(gop);
        CoversConcat(tried, ts, from, gop.offset, gop.offset + gop.len);
        TakenConcat(tried, ts, oks, bs);
        slices, tried, oks := slices + more, tried + ts, oks + bs;
        i := i + 1;
      }
      GroupReads(first, tried);
    }

    lemma GroupReads(first: nat, tried: seq<Slice>)
      requires channel.Valid() && HasGroup(first) && GroupResident(first) && gopsize > 0
      requires var from, len := gops[first].offset, Lengths(gops, first, first + gopsize);
        from + len <= |channel.stream| && Covers(tried, from, from + len) && forall s :: s in tried ==> channel.Attached(s)
      ensures var from, len := gops[first].offset, Lengths(gops, first, first + gopsize);
        Read(tried) == channel.stream[from..from + len]
    {
      hide NothingLost, Recorded, Matching, Staged, Keys, Ordered, Follow, Lengths;
      hide channel.Cached, channel.Valid;
      var from, to := gops[first].offset, gops[first].offset + Lengths(gops, first, first + gopsize);
      forall s | s in tried ensures Align(s.offset) in channel.resident {
        CoversWithin(tried, from, to, s);
      }
      channel.ReadsStretch(tried, from, to);
    }
  }

  lemma NothingHanded(from: nat)
    ensures Covers([], from, from) && Taken([], []) == []
  {
  }

  lemma NothingMeasured(gops: seq<Gop>, first: nat)
    requires first <= |gops|
    ensures Lengths(gops, first, first) == 0
  {
  }

  lemma NextGop(gops: seq<Gop>, size: nat, first: nat, i: nat, m: nat)
    requires Follow(gops, size) && i < m && first + m <= |gops|
    ensures var from, gop := gops[first].offset, gops[first + i];
      && gop.offset == from + Lengths(gops, first, first + i)
      && gop.offset + gop.len == from + Lengths(gops, first, first + i + 1)
      && from <= gop.offset && gop.offset + gop.len <= from + Lengths(gops, first, first + m) <= size
  {
    Stretch(gops, size, first, first + i);
    Stretch(gops, size, first, first + i + 1);
    Stretch(gops, size, first, first + m);
    LengthsGrow(gops, first, first + i + 1, first + m);
  }

  /** Consecutive GOPs are one stretch of the stream. */
  lemma {:induction false} Stretch(gops: seq<Gop>, size: nat, lo: nat, hi: nat)
    requires Follow(gops, size) && lo <= hi <= |gops| && lo < |gops|
    ensures gops[lo].offset + Lengths(gops, lo, hi) == if hi < |gops| then gops[hi].offset else size
    ensures gops[lo].offset + Lengths(gops, lo, hi) <= size
    decreases |gops| - lo, hi
  {
    if lo < hi {
      assert InPlace(gops, hi - 1, size);
      if lo < hi - 1 {
        Stretch(gops, size, lo, hi - 1);
      }
    }
    Rest(gops, size, hi);
  }

  /** No GOP starts past the end of the stream. */
  lemma {:induction false} Rest(gops: seq<Gop>, size: nat, i: nat)
    requires Follow(gops, size)
    ensures i < |gops| ==> gops[i].offset <= size
    decreases |gops| - i
  {
    if i < |gops| {
      assert InPlace(gops, i, size);
      Rest(gops, size, i + 1);
    }
  }

  lemma {:induction false} LengthsGrow(gops: seq<Gop>, lo: nat, mid: nat, hi: nat)
    requires lo <= mid <= hi <= |gops|
    ensures Lengths(gops, lo, mid) <= Lengths(gops, lo, hi)
  {
    if mid < hi {
      LengthsGrow(gops, lo, mid, hi - 1);
    }
  }

  lemma EnoughGroups(groups: nat, t: nat, m: nat)
    requires m > 0
    ensures groups * m < m * t <==> groups < t
    ensures groups * m == 0 <==> groups == 0
  {
    Times(groups + 1, t, m);
    Times(t, groups, m);
    Times(1, groups, m);
    assert (groups + 1) * m == groups * m + m && m * t == t * m;
  }

  /** The GOP at the end of the `q`-th group. */
  lemma GroupOf(gop: nat, q: nat, m: nat)
    requires m > 0 && gop == q * m - 1 && q > 0
    ensures gop / m == q - 1 && m <= gop + 1 && gop - m == (q - 1) * m - 1 && (gop - m < 0 <==> q == 1)
    ensures (q - 1) * m + m == gop + 1
  {
    assert (q - 1) * m == q * m - m;
    Quotient(gop, m, q - 1);
    Times(1, q - 1, m);
  }

  lemma Numbered(gops: seq<Gop>, size: nat)
    requires Follow(gops, size)
    ensures forall i :: 0 <= i < |gops| ==> gops[i].idx == i
  {
    forall i | 0 <= i < |gops| ensures gops[i].idx == i {
      assert InPlace(gops, i, size);
    }
  }

  /** As many of `n` as fill whole groups of `m`. */
  function Whole(n: nat, m: nat): (w: nat)
    requires m > 0
  {
    n / m * m
  }

  lemma NoGroup(m: nat)
    requires m > 0
    ensures Whole(0, m) == 0
  {
  }

  /** Whether a GOP ends a group. */
  lemma WholeEnd(k: nat, m: nat)
    requires m > 0
    ensures if k % m == m - 1 then Whole(k + 1, m) == k + 1 else Whole(k + 1, m) == Whole(k, m)
  {
    var q, r := k / m, k % m;
    assert k == q * m + r;
    assert (q + 1) * m == q * m + m;
    Quotient(k + 1, m, if r == m - 1 then q + 1 else q);
  }

  lemma Quotient(x: nat, m: nat, q: nat)
    requires m > 0 && q * m <= x < q * m + m
    ensures x / m == q
  {
    var p := x / m;
    assert x == p * m + x % m;
    Times(p + 1, q, m);
    Times(q + 1, p, m);
    assert (p + 1) * m == p * m + m && (q + 1) * m == q * m + m;
  }

  lemma Times(a: nat, b: nat, m: nat)
    ensures a <= b ==> a * m <= b * m
  {
  }
}
