/** Polling the upstream playlist: which fragments are queued for fetching, and in what order. */
module LivePoll {
  import opened Common

  const NUL: char := 0 as char
  const ID_SIZE: nat := 1024

  predicate CString(s: string) {
    |s| < ID_SIZE && NUL !in s
  }

  /** `strcmp` */
  function StrCmp(a: string, b: string): (r: int)
    ensures r == 0 <==> a == b
  {
    if a == "" && b == "" then 0
    else if a == "" then -1
    else if b == "" then 1
    else if a[0] != b[0] then a[0] as int - b[0] as int
    else
      assert a == [a[0]] + a[1..] && b == [b[0]] + b[1..];
      StrCmp(a[1..], b[1..])
  }

  /** `str_compare`: the shorter first, and equal lengths by their characters. */
  function StrCompare(src: string, dst: string): (r: int)
    ensures r == 0 <==> src == dst
  {
    if |src| < |dst| then -1 else if |src| > |dst| then 1 else StrCmp(src, dst)
  }

  lemma {:induction false} FirstDifference(a: string, b: string, i: nat)
    requires i < |a| && i < |b| && a[..i] == b[..i] && a[i] != b[i]
    ensures StrCmp(a, b) < 0 <==> a[i] < b[i]
  {
    if i > 0 {
      var x, y := a[1..], b[1..];
      assert a[0] == a[..i][0] == b[..i][0] == b[0];
      assert x[..i - 1] == a[..i][1..] && y[..i - 1] == b[..i][1..];
      FirstDifference(x, y, i - 1);
    }
  }

  /** The shorter text comes first, whatever it says; of equally long ones the first character in
      which they differ decides. */
  lemma ComesFirst(a: string, b: string, i: nat)
    ensures |a| < |b| ==> StrCompare(a, b) < 0 < StrCompare(b, a)
    ensures |a| == |b| && i < |a| && a[..i] == b[..i] && a[i] != b[i] ==> (StrCompare(a, b) < 0 <==> a[i] < b[i])
  {
    if |a| == |b| && i < |a| && a[..i] == b[..i] && a[i] != b[i] {
      FirstDifference(a, b, i);
    }
  }

  predicate Before(a: string, b: string) { StrCompare(a, b) < 0 }

  lemma {:induction false} StrCmpOrder(a: string, b: string, c: string)
    ensures StrCmp(a, b) < 0 <==> StrCmp(b, a) > 0
    ensures StrCmp(a, b) < 0 && StrCmp(b, c) < 0 ==> StrCmp(a, c) < 0
  {
    if a != "" && b != "" {
      StrCmpOrder(a[1..], b[1..], if c == "" then "" else c[1..]);
    }
  }

  /** A strict order, in which any two texts compare. */
  lemma BeforeIsOrder(a: string, b: string, c: string)
    ensures !Before(a, a) && (Before(a, b) ==> !Before(b, a)) && (a == b || Before(a, b) || Before(b, a))
    ensures Before(a, b) && Before(b, c) ==> Before(a, c)
    ensures StrCompare(a, b) > 0 <==> Before(b, a)
  {
    StrCmpOrder(a, b, c);
    StrCmpOrder(b, a, c);
  }

  ghost predicate Increasing(s: seq<string>) {
    forall i, j :: 0 <= i < j < |s| ==> Before(s[i], s[j])
  }

  /** The segments that come after all before them, and after `id`. */
  function News(segs: seq<string>, id: string): seq<string> {
    if segs == [] then []
    else if StrCompare(segs[0], id) <= 0 then News(segs[1..], id)
    else [segs[0]] + News(segs[1..], segs[0])
  }

  function Latest(news: seq<string>, id: string): string {
    if news == [] then id else news[|news| - 1]
  }

  /** What is news is in order, comes after what was known, and leaves nothing greater out. */
  lemma {:induction false} NewsInOrder(segs: seq<string>, id: string)
    ensures var news := News(segs, id);
      && Increasing(news) && (forall s :: s in news ==> Before(id, s) && s in segs)
      && (forall s :: s in segs ==> s == Latest(news, id) || Before(s, Latest(news, id)))
      && (Latest(news, id) == id || Before(id, Latest(news, id)))
    decreases |segs|
  {
    if segs != [] {
      var rest, s0 := segs[1..], segs[0];
      BeforeIsOrder(s0, id, id);
      if StrCompare(s0, id) <= 0 {
        NewsInOrder(rest, id);
        var last := Latest(News(rest, id), id);
        BeforeIsOrder(s0, id, last);
      } else {
        NewsInOrder(rest, s0);
        var more := News(rest, s0);
        var news := [s0] + more;
        forall s | s in more ensures Before(id, s) {
          BeforeIsOrder(id, s0, s);
        }
        forall i, j | 0 <= i < j < |news| ensures Before(news[i], news[j]) {
          assert news[j] == more[j - 1] && more[j - 1] in more;
          assert i > 0 ==> news[i] == more[i - 1];
        }
        BeforeIsOrder(id, s0, Latest(more, s0));
      }
    }
  }

  /** A segment after `id` and after all segments in front of it. */
  ghost predicate Newest(segs: seq<string>, i: nat, id: string)
    requires i < |segs|
  {
    Before(id, segs[i]) && forall j :: 0 <= j < i ==> Before(segs[j], segs[i])
  }

  /** What is news, exactly: nothing that comes after all before it is left out, and nothing else is
      taken. */
  lemma {:induction false} NewsExactly(segs: seq<string>, id: string, s: string)
    ensures s in News(segs, id) <==> exists i :: 0 <= i < |segs| && segs[i] == s && Newest(segs, i, id)
    decreases |segs|
  {
    if segs != [] {
      var rest := segs[1..];
      var known := if Before(id, segs[0]) then segs[0] else id;
      BeforeIsOrder(segs[0], id, id);
      NewsExactly(rest, known, s);
      forall i | 0 < i < |segs| ensures Newest(segs, i, id) <==> Newest(rest, i - 1, known) {
        NewestOfRest(segs, i, id);
      }
      if s in News(rest, known) {
        var k :| 0 <= k < |rest| && rest[k] == s && Newest(rest, k, known);
        assert segs[k + 1] == s && Newest(segs, k + 1, id);
      }
      if i :| 0 <= i < |segs| && segs[i] == s && Newest(segs, i, id) {
        if i > 0 {
          assert rest[i - 1] == s && Newest(rest, i - 1, known);
        }
      }
      if Before(id, segs[0]) {
        assert Newest(segs, 0, id);
      }
    }
  }

  lemma NewestOfRest(segs: seq<string>, i: nat, id: string)
    requires 0 < i < |segs|
    ensures Newest(segs, i, id) <==> Newest(segs[1..], i - 1, if Before(id, segs[0]) then segs[0] else id)
  {
    var rest, s := segs[1..], segs[i];
    BeforeIsOrder(id, segs[0], s);
    BeforeIsOrder(segs[0], id, s);
    forall j | 0 < j < i ensures segs[j] == rest[j - 1] {
    }
    if Newest(rest, i - 1, if Before(id, segs[0]) then segs[0] else id) {
      forall j | 0 <= j < i ensures Before(segs[j], s) {
        if j > 0 {
          assert rest[j - 1] == segs[j];
        }
      }
    }
  }

  /** Of a playlist in order, everything after what was known. */
  lemma NewsOfIncreasing(segs: seq<string>, id: string, s: string)
    requires Increasing(segs)
    ensures s in News(segs, id) <==> s in segs && Before(id, s)
  {
    NewsExactly(segs, id, s);
    if s in segs && Before(id, s) {
      var i :| 0 <= i < |segs| && segs[i] == s;
      assert Newest(segs, i, id);
    }
  }

  lemma {:induction false} NewsConcat(a: seq<string>, b: seq<string>, id: string)
    ensures News(a + b, id) == News(a, id) + News(b, Latest(News(a, id), id))
    ensures Latest(News(a + b, id), id) == Latest(News(b, Latest(News(a, id), id)), Latest(News(a, id), id))
    decreases |a|
  {
    if a == [] {
      assert a + b == b;
    } else {
      var known := if StrCompare(a[0], id) <= 0 then id else a[0];
      NewsConcat(a[1..], b, known);
      assert (a + b)[1..] == a[1..] + b;
      if known != id {
        Assoc([a[0]], News(a[1..], a[0]), News(b, Latest(News(a[1..], a[0]), a[0])));
      }
    }
  }

  lemma {:induction false} NoneNewer(segs: seq<string>, id: string)
    requires forall s :: s in segs ==> !Before(id, s)
    ensures News(segs, id) == []
    decreases |segs|
  {
    if segs != [] {
      BeforeIsOrder(segs[0], id, id);
      assert segs[0] in segs;
      NoneNewer(segs[1..], id);
    }
  }

  // ---------- over a whole run of polls ----------

  ghost predicate NonEmpty(polls: seq<seq<string>>) {
    forall k :: 0 <= k < |polls| ==> polls[k] != []
  }

  /** What a poll compares with: the last segment seen, or else its own first one. */
  ghost function Knows(id: string, segs: seq<string>): string
    requires segs != []
  {
    if id == "" then segs[0] else id
  }

  ghost function Seen(polls: seq<seq<string>>): string
    requires NonEmpty(polls)
  {
    if polls == [] then ""
    else
      var n := |polls| - 1;
      var known := Knows(Seen(polls[..n]), polls[n]);
      Latest(News(polls[n], known), known)
  }

  /** All that the polls have queued. */
  ghost function Queued(polls: seq<seq<string>>): seq<string>
    requires NonEmpty(polls)
  {
    if polls == [] then []
    else
      var n := |polls| - 1;
      Queued(polls[..n]) + News(polls[n], Knows(Seen(polls[..n]), polls[n]))
  }

  /** All segments of all polls. */
  ghost function Flat(polls: seq<seq<string>>): seq<string> {
    if polls == [] then [] else Flat(polls[..|polls| - 1]) + polls[|polls| - 1]
  }

  /** The segment taken as known without being fetched: the first one of the first poll, unless all
      that poll names are empty names. */
  ghost function Skipped(polls: seq<seq<string>>): string
    requires NonEmpty(polls)
  {
    if polls == [] then ""
    else
      var n := |polls| - 1;
      if Seen(polls[..n]) == "" then polls[n][0] else Skipped(polls[..n])
  }

  lemma EmptyIsFirst(s: string)
    ensures !Before(s, "") && (s != "" ==> Before("", s))
  {
  }

  /** A run of polls queues what one poll of all their segments in a row would. */
  lemma {:induction false} RunIsOnePoll(polls: seq<seq<string>>)
    requires NonEmpty(polls)
    ensures Queued(polls) == News(Flat(polls), Skipped(polls))
    ensures Seen(polls) == Latest(News(Flat(polls), Skipped(polls)), Skipped(polls))
  {
    if polls != [] {
      var n := |polls| - 1;
      var front, last := polls[..n], polls[n];
      RunIsOnePoll(front);
      var flat, first := Flat(front), Skipped(polls);
      if Seen(front) == "" {
        NewsInOrder(flat, Skipped(front));
        forall s | s in flat ensures !Before(first, s) {
          EmptyIsFirst(s);
          EmptyIsFirst(first);
        }
        NoneNewer(flat, first);
        NothingQueued(front);
      }
      NewsConcat(flat, last, first);
    }
  }

  lemma NothingQueued(polls: seq<seq<string>>)
    requires NonEmpty(polls) && Queued(polls) == News(Flat(polls), Skipped(polls))
    requires Seen(polls) == Latest(News(Flat(polls), Skipped(polls)), Skipped(polls)) && Seen(polls) == ""
    ensures Queued(polls) == []
  {
    NewsInOrder(Flat(polls), Skipped(polls));
    var q := Queued(polls);
    if q != [] {
      assert q[|q| - 1] in q;
      EmptyIsFirst(Skipped(polls));
    }
  }

  /** Over any run of polls: a segment is queued exactly when, at some place, it comes after all the
      segments named before and after the one skipped. */
  lemma QueuedExactly(polls: seq<seq<string>>, s: string)
    requires NonEmpty(polls)
    ensures var flat := Flat(polls);
      s in Queued(polls) <==> exists i :: 0 <= i < |flat| && flat[i] == s && Newest(flat, i, Skipped(polls))
  {
    RunIsOnePoll(polls);
    NewsExactly(Flat(polls), Skipped(polls), s);
  }

  lemma {:induction false} SkippedIsFirst(polls: seq<seq<string>>)
    requires NonEmpty(polls) && polls != [] && polls[0][0] != ""
    ensures Skipped(polls) == polls[0][0]
  {
    var n := |polls| - 1;
    if n > 0 {
      SkippedIsFirst(polls[..n]);
      RunIsOnePoll(polls[..n]);
      NewsInOrder(Flat(polls[..n]), polls[0][0]);
      EmptyIsFirst(polls[0][0]);
    }
  }

  /** The first segment of the first poll is never queued, by that poll or any later one. */
  lemma FirstNeverQueued(polls: seq<seq<string>>)
    requires NonEmpty(polls) && polls != []
    ensures polls[0][0] !in Queued(polls)
  {
    var s := polls[0][0];
    RunIsOnePoll(polls);
    NewsInOrder(Flat(polls), Skipped(polls));
    if s == "" {
      EmptyIsFirst(Skipped(polls));
    } else {
      SkippedIsFirst(polls);
      BeforeIsOrder(s, s, s);
    }
  }

  /** Over any run of polls nothing is queued twice, and all that is queued is in order. */
  lemma QueuedOnce(polls: seq<seq<string>>)
    requires NonEmpty(polls)
    ensures Increasing(Queued(polls))
    ensures forall i, j :: 0 <= i < j < |Queued(polls)| ==> Queued(polls)[i] != Queued(polls)[j]
  {
    RunIsOnePoll(polls);
    NewsInOrder(Flat(polls), Skipped(polls));
    var q := Queued(polls);
    forall i, j | 0 <= i < j < |q| ensures q[i] != q[j] {
      BeforeIsOrder(q[i], q[j], q[i]);
    }
  }

  /** The text in a buffer, up to the first NUL. */
  function TextAt(buf: array<char>, i: nat): (s: string)
    requires i <= buf.Length
    reads buf
    decreases buf.Length - i
  {
    if i == buf.Length || buf[i] == NUL then "" else [buf[i]] + TextAt(buf, i + 1)
  }

  /** The buffer holds the text, and NULs after it. */
  ghost predicate Padded(buf: array<char>, s: string)
    reads buf
  {
    && buf.Length == ID_SIZE && CString(s) && buf[..|s|] == s
    && forall k :: |s| <= k < buf.Length ==> buf[k] == NUL
  }

  lemma {:induction false} TextOfPadded(buf: array<char>, s: string, i: nat)
    requires Padded(buf, s) && i <= |s|
    ensures TextAt(buf, i) == s[i..]
    decreases |s| - i
  {
    if i < |s| {
      assert buf[..|s|][i] == s[i] && s[i] in s;
      TextOfPadded(buf, s, i + 1);
    }
  }

  class Poller {
    const sfragId: array<char>
    /** The list of fragments to fetch. */
    var sfrags: seq<string>
    /** The last segment seen, everything ever queued, and how much of it has been taken. */
    ghost var id: string
    ghost var queued: seq<string>
    ghost var taken: seq<string>
    /** Every playlist polled so far. */
    ghost var polls: seq<seq<string>>

    ghost predicate Valid()
      reads this, sfragId
    {
      Steady() && NonEmpty(polls) && queued == Queued(polls) && id == Seen(polls)
    }

    ghost predicate Steady()
      reads this, sfragId
    {
      && Padded(sfragId, id) && Increasing(queued) && queued == taken + sfrags
      && (queued != [] ==> id == queued[|queued| - 1]) && "" !in queued
    }

    constructor ()
      ensures Valid() && polls == [] && taken == []
    {
      sfragId := new char[ID_SIZE](_ => NUL);
      sfrags, id, queued, taken, polls := [], "", [], [], [];
    }

    /** `rns_strncpy` of just the characters; the terminator is the padding that was there before,
        which is why it matters that the text never gets shorter. */
    method CopyId(uri: string)
      requires Padded(sfragId, id) && CString(uri) && |id| <= |uri|
      modifies this`id, sfragId
      ensures Padded(sfragId, id) && id == uri
    {
      var i := 0;
      while i < |uri|
        invariant 0 <= i <= |uri|
        invariant forall k :: 0 <= k < i ==> sfragId[k] == uri[k]
        invariant forall k :: |uri| <= k < sfragId.Length ==> sfragId[k] == NUL
      {
        sfragId[i] := uri[i];
        i := i + 1;
      }
      id := uri;
    }

    /** `yms_channel_recv_m3u8`: what is new is queued, once each and in order. The very first poll
        only takes its first segment as known, and so never fetches that one. */
    method Poll(segs: seq<string>)
      requires Valid() && segs != [] && forall s :: s in segs ==> CString(s)
      modifies this`sfrags, this`id, this`queued, this`polls, sfragId
      ensures Valid() && taken == old(taken) && polls == old(polls) + [segs]
      ensures var known := Knows(old(id), segs);
        queued == old(queued) + News(segs, known) && id == Latest(News(segs, known), known)
    {
      hide News, Latest, StrCompare, Increasing, Queued, Seen;
      OneMorePoll(polls, segs);
      assert sfragId[0] == NUL <==> id == "" by { FirstCharacter(); }
      if sfragId[0] == NUL {
        CopyId(segs[0]);
      }
      ghost var known := id;
      var i := 0;
      assert segs[0..] == segs;
      while i < |segs|
        invariant 0 <= i <= |segs| && Steady() && taken == old(taken) && polls == old(polls)
        invariant queued + News(segs[i..], id) == old(queued) + News(segs, known)
        invariant Latest(News(segs[i..], id), id) == Latest(News(segs, known), known)
      {
        NewsStep(segs, i, id);
        var text := CurrentId();
        if StrCompare(segs[i], text) > 0 {
          Assoc(queued, [segs[i]], News(segs[i + 1..], segs[i]));
          Enqueue(segs[i]);
        }
        i := i + 1;
      }
      NoNews(id);
      assert segs[i..] == [];
      polls := polls + [segs];
    }

    method CurrentId() returns (s: string)
      requires Padded(sfragId, id)
      ensures s == id
    {
      TextOfPadded(sfragId, id, 0);
      s := TextAt(sfragId, 0);
    }

    lemma FirstCharacter()
      requires Padded(sfragId, id)
      ensures sfragId[0] == NUL <==> id == ""
    {
      if id != "" {
        assert sfragId[..|id|][0] == id[0] && id[0] in id;
      }
    }

    method Enqueue(uri: string)
      requires Steady() && CString(uri) && StrCompare(uri, id) > 0
      modifies this`sfrags, this`id, this`queued, sfragId
      ensures Steady() && id == uri && queued == old(queued) + [uri] && taken == old(taken)
    {
      BeforeIsOrder(id, uri, id);
      forall k | 0 <= k < |queued| ensures Before(queued[k], uri) {
        BeforeIsOrder(queued[k], id, uri);
      }
      CopyId(uri);
      sfrags := sfrags + [uri];
      queued := queued + [uri];
    }

    /** `yms_channel_req_ts`: the fragment queued first is taken once the request for it is sent. */
    method Request(sent: bool) returns (uri: string)
      requires Valid()
      modifies this`sfrags, this`taken
      ensures Valid() && polls == old(polls) && queued == old(queued) && id == old(id)
      ensures if sent && old(sfrags) != [] then uri == queued[|old(taken)|] && taken == old(taken) + [uri]
        else uri == "" && taken == old(taken)
    {
      uri := "";
      if sent && sfrags != [] {
        uri := sfrags[0];
        sfrags := sfrags[1..];
        taken := taken + [uri];
      }
    }
  }

  lemma NewsStep(segs: seq<string>, i: nat, id: string)
    requires i < |segs|
    ensures StrCompare(segs[i], id) <= 0 ==> News(segs[i..], id) == News(segs[i + 1..], id)
    ensures StrCompare(segs[i], id) > 0 ==>
      && News(segs[i..], id) == [segs[i]] + News(segs[i + 1..], segs[i])
      && Latest(News(segs[i..], id), id) == Latest(News(segs[i + 1..], segs[i]), segs[i])
  {
    assert segs[i..][1..] == segs[i + 1..];
  }

  lemma OneMorePoll(polls: seq<seq<string>>, segs: seq<string>)
    requires NonEmpty(polls) && segs != []
    ensures NonEmpty(polls + [segs])
    ensures var known := Knows(Seen(polls), segs);
      && Queued(polls + [segs]) == Queued(polls) + News(segs, known)
      && Seen(polls + [segs]) == Latest(News(segs, known), known)
  {
    assert (polls + [segs])[..|polls|] == polls;
  }

  lemma NoNews(id: string)
    ensures News([], id) == [] && Latest([], id) == id
  {
  }
}
