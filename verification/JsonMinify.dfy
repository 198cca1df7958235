/** The minifier, which strips blanks and comments from a text where it stands. */
module JsonMinify {
  import opened Common
  import opened JsonText
  import opened JsonParse
  import opened JsonPrinter

  predicate Blank(c: char) { c == ' ' || c == '\t' || c == '\r' || c == '\n' }

  /** From the end of the line on. */
  function Line(s: string): (r: string)
    ensures |r| <= |s|
  {
    if s == "" || s[0] == '\n' then s else Line(s[1..])
  }

  predicate CommentCloses(s: string) {
    s != "" && ((s[0] == '*' && At(s, 1) == '/') || CommentCloses(s[1..]))
  }

  /** What follows the end of a comment. */
  function AfterComment(s: string): (r: string)
    ensures |r| <= |s| && (CommentCloses(s) ==> |r| + 2 <= |s|)
  {
    if s == "" then ""
    else if s[0] == '*' && At(s, 1) == '/' then s[2..]
    else AfterComment(s[1..])
  }

  predicate LiteralCloses(s: string)
    decreases |s|
  {
    s != "" && (s[0] == '"' || if s[0] == '\\' then |s| > 1 && LiteralCloses(s[2..]) else LiteralCloses(s[1..]))
  }

  /** The length of the text after an opening quote, with the closing one. */
  function LiteralLength(s: string): (n: nat)
    ensures n <= |s| && (LiteralCloses(s) ==> n > 0)
    decreases |s|
  {
    if s == "" then 0
    else if s[0] == '"' then 1
    else if s[0] == '\\' then (if |s| == 1 then 1 else 2 + LiteralLength(s[2..]))
    else 1 + LiteralLength(s[1..])
  }

  predicate LineComment(s: string) { At(s, 0) == '/' && At(s, 1) == '/' }

  predicate BlockComment(s: string) { At(s, 0) == '/' && At(s, 1) == '*' }

  function Minify(s: string): (r: string)
    ensures |r| <= |s|
    decreases |s|
  {
    if s == "" then ""
    else if Blank(s[0]) then Minify(s[1..])
    else if LineComment(s) then Minify(Line(s[1..]))
    else if BlockComment(s) then Minify(AfterComment(s[1..]))
    else
      var k := if s[0] == '"' then 1 + LiteralLength(s[1..]) else 1;
      s[..k] + Minify(s[k..])
  }

  /** Every comment and every literal ends before the text does, so that no terminator is passed. */
  predicate Closed(s: string)
    decreases |s|
  {
    if s == "" then true
    else if Blank(s[0]) then Closed(s[1..])
    else if LineComment(s) then Closed(Line(s[1..]))
    else if BlockComment(s) then CommentCloses(s[1..]) && Closed(AfterComment(s[1..]))
    else if s[0] == '"' then LiteralCloses(s[1..]) && Closed(s[1 + LiteralLength(s[1..])..])
    else Closed(s[1..])
  }

  /** The text from index `json` on has not been written over. */
  ghost predicate Ahead(a: array<char>, json: nat, s: string)
    reads a
  {
    Bytes(s) && json + |s| < a.Length && a[json..json + |s|] == s && a[json + |s|] == NUL
  }

  lemma AheadMore(a: array<char>, json: nat, s: string, k: nat)
    requires Ahead(a, json, s) && k <= |s|
    ensures Ahead(a, json + k, s[k..])
    ensures forall i :: 0 <= i < k ==> a[json + i] == s[i]
    ensures forall i {:trigger At(s, i)} :: 0 <= i <= |s| ==> a[json + i] == At(s, i)
    ensures s != "" ==> s[0] != NUL
    ensures json + |s| < a.Length
  {
    assert s != "" ==> s[0] in s;
    SuffixBytes(s, k);
    assert forall i :: 0 <= i < |s| ==> a[json..json + |s|][i] == s[i];
  }

  /** To the end of the line. */
  method SkipLine(a: array<char>, start: nat, ghost s: string) returns (json: nat)
    requires Ahead(a, start, s)
    ensures json == start + |s| - |Line(s)| && Ahead(a, json, Line(s))
  {
    json := start;
    ghost var rest := s;
    AheadMore(a, json, rest, 0);
    while a[json] != NUL && a[json] != '\n'
      invariant start <= json && json + |rest| == start + |s| && Ahead(a, json, rest) && Line(rest) == Line(s)
      invariant a[json] == At(rest, 0) && (rest != "" ==> rest[0] != NUL)
      decreases |rest|
    {
      AheadMore(a, json, rest, 1);
      AheadMore(a, json + 1, rest[1..], 0);
      json, rest := json + 1, rest[1..];
    }
  }

  /** Past the end of a comment. */
  method SkipComment(a: array<char>, start: nat, ghost s: string) returns (json: nat)
    requires Ahead(a, start, s) && CommentCloses(s)
    ensures json == start + |s| - |AfterComment(s)| && Ahead(a, json, AfterComment(s))
  {
    hide Ahead;
    json := start;
    ghost var rest := s;
    AheadMore(a, json, rest, 0);
    while a[json] != NUL && !(a[json] == '*' && a[json + 1] == '/')
      invariant start <= json && json + |rest| == start + |s| && Ahead(a, json, rest)
      invariant CommentCloses(rest) && AfterComment(rest) == AfterComment(s)
      invariant a[json] == At(rest, 0) && a[json + 1] == At(rest, 1) && rest[0] != NUL
      decreases |rest|
    {
      AheadMore(a, json, rest, 1);
      AheadMore(a, json + 1, rest[1..], 0);
      json, rest := json + 1, rest[1..];
    }
    AheadMore(a, json, rest, 2);
    json := json + 2;
  }

  /** `*into++ = *json++` for a character that is not the last; the gap between the two never closes
      the wrong way. */
  method CopyOne(a: array<char>, into: nat, json: nat, ghost s: string) returns (into': nat, json': nat)
    requires into <= json && Ahead(a, json, s) && s != ""
    modifies a
    ensures into' == into + 1 && json' == json + 1 && Ahead(a, json + 1, s[1..])
    ensures a[..into'] == old(a[..into]) + [s[0]]
  {
    AheadMore(a, json, s, 1);
    a[into] := a[json];
    into', json' := into + 1, json + 1;
    assert a[json'..json' + |s[1..]|] == s[1..];
  }

  /** How much of a literal goes over at once: a character, or a backslash with the next one. */
  function Chunk(s: string): (n: nat)
    requires s != "" && LiteralCloses(s)
    ensures n <= |s|
  {
    if s[0] == '\\' then 2 else 1
  }

  method CopyChunk(a: array<char>, into: nat, json: nat, ghost s: string) returns (into': nat, json': nat)
    requires into <= json && Ahead(a, json, s) && LiteralCloses(s) && s[0] != '"'
    modifies a
    ensures into' == into + Chunk(s) && json' == json + Chunk(s) && Ahead(a, json', s[Chunk(s)..])
    ensures a[..into'] == old(a[..into]) + s[..Chunk(s)]
  {
    AheadMore(a, json, s, 0);
    into', json' := into, json;
    if a[json] == '\\' {
      into', json' := CopyOne(a, into', json', s);
      assert s[1..][1..] == s[2..] && s[..2] == [s[0]] + [s[1..][0]];
      into', json' := CopyOne(a, into', json', s[1..]);
    } else {
      assert s[..1] == [s[0]];
      into', json' := CopyOne(a, into', json', s);
    }
  }

  lemma ChunkOf(s: string)
    requires LiteralCloses(s) && s[0] != '"'
    ensures var n := Chunk(s);
      0 < n < |s| && LiteralCloses(s[n..]) && LiteralLength(s) == n + LiteralLength(s[n..]) && s == s[..n] + s[n..]
  {
  }

  lemma LastChunk(s: string)
    requires LiteralCloses(s)
    ensures s != "" && (s[0] == '"' ==> LiteralLength(s) == 1)
  {
  }

  /** The rest of a literal, with its closing quote. */
  method CopyLiteral(a: array<char>, start: nat, from: nat, ghost s: string) returns (into: nat, json: nat)
    requires start <= from && Ahead(a, from, s) && LiteralCloses(s)
    modifies a
    ensures into == start + LiteralLength(s) && json == from + LiteralLength(s)
    ensures a[..into] == old(a[..start]) + s[..LiteralLength(s)] && Ahead(a, json, s[LiteralLength(s)..])
  {
    hide LiteralCloses, LiteralLength, Chunk, Ahead;
    into, json := start, from;
    ghost var done, rest := "", s;
    LastChunk(s);
    AheadMore(a, json, s, 0);
    while a[json] != NUL && a[json] != '"'
      invariant into == start + |done| && json == from + |done| && done + rest == s && rest != ""
      invariant Ahead(a, json, rest) && LiteralCloses(rest) && |done| + LiteralLength(rest) == LiteralLength(s)
      invariant a[..into] == old(a[..start]) + done
      invariant a[json] == rest[0] != NUL
      decreases |rest|
    {
      ChunkOf(rest);
      ghost var n := Chunk(rest);
      Moved(old(a[..start]), done, rest, n);
      into, json := CopyChunk(a, into, json, rest);
      done, rest := done + rest[..n], rest[n..];
      LastChunk(rest);
      AheadMore(a, json, rest, 0);
      assert At(rest, 0) == rest[0];
    }
    LastChunk(rest);
    MovedAll(old(a[..start]), done, rest);
    into, json := CopyOne(a, into, json, rest);
  }

  lemma Moved(before: string, done: string, rest: string, n: nat)
    requires n <= |rest|
    ensures (done + rest[..n]) + rest[n..] == done + rest && before + done + rest[..n] == before + (done + rest[..n])
  {
  }

  lemma MovedAll(before: string, done: string, rest: string)
    requires rest != ""
    ensures var (s, n) := (done + rest, |done| + 1);
      before + done + [rest[0]] == before + s[..n] && s[n..] == rest[1..]
  {
    var s, n := done + rest, |done| + 1;
    assert s[..n] == done + [rest[0]];
  }

  /** What is gone through at once: a blank, a comment, a literal or any other character; and what
      of it stays. */
  ghost function Gone(s: string): (r: (string, string))
    requires s != ""
  {
    if Blank(s[0]) then ("", s[1..])
    else if LineComment(s) then ("", Line(s[1..]))
    else if BlockComment(s) then ("", AfterComment(s[1..]))
    else
      var k := if s[0] == '"' then 1 + LiteralLength(s[1..]) else 1;
      (s[..k], s[k..])
  }

  lemma MinifyGone(s: string)
    requires s != "" && Closed(s)
    ensures Minify(s) == Gone(s).0 + Minify(Gone(s).1) && Closed(Gone(s).1) && |Gone(s).1| < |s|
  {
  }

  /** A literal, from its opening quote. */
  method CopyString(a: array<char>, start: nat, from: nat, ghost s: string) returns (into: nat, json: nat)
    requires start <= from && Ahead(a, from, s) && s != "" && LiteralCloses(s[1..])
    modifies a
    ensures var k := 1 + LiteralLength(s[1..]);
      into == start + k && json == from + k && Ahead(a, json, s[k..]) && a[..into] == old(a[..start]) + s[..k]
  {
    hide LiteralCloses, LiteralLength, Ahead;
    ghost var n := LiteralLength(s[1..]);
    AheadMore(a, from, s, 0);
    QuoteAndRest(s, n);
    Assoc(a[..start], [s[0]], s[1..][..n]);
    into, json := CopyOne(a, start, from, s);
    into, json := CopyLiteral(a, into, json, s[1..]);
  }

  method MinifyStep(a: array<char>, start: nat, from: nat, ghost s: string) returns (into: nat, json: nat)
    requires start <= from && Ahead(a, from, s) && s != "" && Closed(s)
    modifies a
    ensures into <= json && Ahead(a, json, Gone(s).1) && a[..into] == old(a[..start]) + Gone(s).0
  {
    hide LiteralCloses, LiteralLength, AfterComment, Line, CommentCloses, Ahead;
    into, json := start, from;
    AheadMore(a, json, s, 1);
    assert At(s, 0) == s[0] == a[json] && a[json + 1] == At(s, 1);
    assert a[..start] + "" == a[..start];
    if Blank(a[json]) {
      json := json + 1;
    } else if a[json] == '/' && a[json + 1] == '/' {
      json := SkipLine(a, json + 1, s[1..]);
    } else if a[json] == '/' && a[json + 1] == '*' {
      json := SkipComment(a, json + 1, s[1..]);
    } else if a[json] == '"' {
      into, json := CopyString(a, into, json, s);
    } else {
      into, json := CopyOne(a, into, json, s);
      assert s[..1] == [s[0]];
    }
  }

  lemma QuoteAndRest(s: string, n: nat)
    requires n < |s|
    ensures s[..1 + n] == [s[0]] + s[1..][..n] && s[1 + n..] == s[1..][n..]
  {
  }

  /** `cJSON_Minify`: the result is no longer than the text, and stands in its place. */
  method MinifyInPlace(a: array<char>, ghost s: string)
    requires Holds(a, s) && Closed(s)
    modifies a
    ensures Holds(a, Minify(s))
  {
    hide Minify, Closed, Gone;
    var json, into := 0, 0;
    ghost var rest := s;
    assert a[0..0 + |s|] == s && a[..0] == "";
    AheadMore(a, json, rest, 0);
    MinifyNothing();
    while a[json] != NUL
      invariant 0 <= into <= json && Ahead(a, json, rest) && Closed(rest)
      invariant a[..into] + Minify(rest) == Minify(s)
      invariant a[json] == At(rest, 0)
      decreases |rest|
    {
      MinifyGone(rest);
      Assoc(a[..into], Gone(rest).0, Minify(Gone(rest).1));
      into, json := MinifyStep(a, into, json, rest);
      rest := Gone(rest).1;
      AheadMore(a, json, rest, 0);
    }
    AheadMore(a, json, rest, 0);
    a[into] := NUL;
    assert a[..into] + "" == a[..into];
    MinifyBytes(s);
  }

  lemma MinifyNothing()
    ensures Minify("") == ""
  {
  }

  lemma {:induction false} MinifyBytes(s: string)
    requires Bytes(s)
    ensures Bytes(Minify(s))
    decreases |s|
  {
    if s != "" {
      SuffixBytes(s, 1);
      if Blank(s[0]) {
        MinifyBytes(s[1..]);
      } else if LineComment(s) {
        LineBytes(s[1..]);
        MinifyBytes(Line(s[1..]));
      } else if BlockComment(s) {
        LineBytes(s[1..]);
        MinifyBytes(AfterComment(s[1..]));
      } else {
        var k := if s[0] == '"' then 1 + LiteralLength(s[1..]) else 1;
        SuffixBytes(s, k);
        MinifyBytes(s[k..]);
        forall c | c in s[..k] ensures c in s {
          var i :| 0 <= i < k && s[..k][i] == c;
          assert s[i] == c;
        }
      }
    }
  }

  lemma {:induction false} LineBytes(s: string)
    requires Bytes(s)
    ensures Bytes(Line(s)) && Bytes(AfterComment(s))
  {
    if s != "" {
      SuffixBytes(s, 1);
      LineBytes(s[1..]);
      if |s| > 1 {
        SuffixBytes(s, 2);
      }
    }
  }
}
