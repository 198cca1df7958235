/** Minifying any text that parses keeps the value that it parses to. */
module JsonMeaning {
  import opened Common
  import opened JsonText
  import opened JsonParse
  import opened JsonRoundTrip
  import opened JsonStrings
  import opened JsonParser
  import opened JsonMinify
  import opened JsonMinified

  /** Nothing that would go on with a number, even one that ends in an exponent mark. */
  predicate Stop(s: string) {
    s == "" || s[0] as int <= 32 || s[0] == ',' || s[0] == ']' || s[0] == '}'
  }

  /** What may follow a value. */
  predicate Follow(s: string) { Stop(Skip(s)) }

  lemma {:induction false} RunStops(w: string, r: string)
    requires !IsDigit(At(r, 0))
    ensures Run(w + r) == Run(w)
  {
    if w == "" {
      assert w + r == r;
    } else {
      assert (w + r)[1..] == w[1..] + r;
      RunStops(w[1..], r);
    }
  }

  lemma Cut(t: string, r: string, n: nat)
    requires n <= |t|
    ensures (t + r)[..n] == t[..n] && (t + r)[n..] == t[n..] + r
  {
  }

  lemma AtJoin(w: string, r: string, k: nat)
    ensures At(w + r, k) == if k < |w| then w[k] else At(r, k - |w|)
  {
  }

  /** A reader of a part of a number reads the same whatever it stops at. */
  lemma WholeStops(w: string, r: string)
    requires Stop(r)
    ensures WholeOf(w + r) == (WholeOf(w).0, WholeOf(w).1 + r)
  {
    var t := if At(w, 0) == '0' then w[1..] else w;
    AtJoin(w, r, 0);
    AtJoin(t, r, 0);
    if w != "" {
      Cut(w, r, 1);
    }
    RunStops(t, r);
    Cut(t, r, Run(t));
    hide Run;
  }

  lemma FractionStops(w: string, r: string)
    requires Stop(r)
    ensures FractionOf(w + r) == (FractionOf(w).0, FractionOf(w).1 + r)
  {
    AtJoin(w, r, 0);
    AtJoin(w, r, 1);
    if w != "" {
      Cut(w, r, 1);
      RunStops(w[1..], r);
      Cut(w[1..], r, Run(w[1..]));
    }
  }

  lemma ExponentStops(w: string, r: string)
    requires Stop(r)
    ensures ExponentOf(w + r) == (ExponentOf(w).0, ExponentOf(w).1 + r)
  {
    AtJoin(w, r, 0);
    AtJoin(w, r, 1);
    if w != "" {
      var k := if At(w, 1) == '+' || At(w, 1) == '-' then 2 else 1;
      Cut(w, r, k);
      RunStops(w[k..], r);
      Cut(w[k..], r, Run(w[k..]));
      assert Drop(w, k) == w[k..];
      hide Run, Value;
    }
  }

  lemma NumeralStops(w: string, r: string)
    requires Stop(r)
    ensures NumeralOf(w + r) == NumeralOf(w).(rest := NumeralOf(w).rest + r)
  {
    var t := if At(w, 0) == '-' then w[1..] else w;
    assert w != "" ==> (w + r)[1..] == w[1..] + r;
    hide WholeOf, FractionOf, ExponentOf;
    WholeStops(t, r);
    var u := WholeOf(t).1;
    FractionStops(u, r);
    ExponentStops(FractionOf(u).1, r);
  }

  /** `rest` is what is left of `s` after characters that minifying keeps. */
  ghost predicate Leaves(s: string, rest: string) {
    |rest| <= |s| && s[|s| - |rest|..] == rest && forall i :: 0 <= i < |s| - |rest| ==> Plain(s[i])
  }

  lemma LeavesOne(s: string)
    requires s != "" && Plain(s[0])
    ensures Leaves(s, s[1..])
  {
  }

  lemma LeavesTwice(s: string, t: string, u: string)
    requires Leaves(s, t) && Leaves(t, u)
    ensures Leaves(s, u)
  {
    var n := |s| - |t|;
    assert s == s[..n] + t;
    assert forall i :: n <= i < |s| ==> s[i] == t[i - n];
  }

  lemma RunLeaves(s: string)
    ensures Leaves(s, s[Run(s)..])
  {
    forall i | 0 <= i < Run(s) ensures Plain(s[i]) {
      assert IsDigit(s[i]);
    }
  }

  lemma NumeralLeaves(s: string)
    requires s != "" && (s[0] == '-' || IsDigit(s[0]))
    ensures Leaves(s, NumeralOf(s).rest)
  {
    var t := if s[0] == '-' then s[1..] else s;
    var u := WholeOf(t).1;
    var f := FractionOf(u).1;
    WholeLeaves(t);
    FractionLeaves(u);
    ExponentLeaves(f);
    hide Leaves, WholeOf, FractionOf, ExponentOf;
    LeavesTwice(t, u, f);
    LeavesTwice(t, f, ExponentOf(f).1);
    if s[0] == '-' {
      LeavesOne(s);
      LeavesTwice(s, t, ExponentOf(f).1);
    }
  }

  lemma WholeLeaves(t: string)
    ensures Leaves(t, WholeOf(t).1)
  {
    var u := if At(t, 0) == '0' then t[1..] else t;
    RunLeaves(u);
    if At(t, 0) == '0' {
      LeavesOne(t);
      LeavesTwice(t, u, u[Run(u)..]);
    }
  }

  lemma FractionLeaves(s: string)
    ensures Leaves(s, FractionOf(s).1)
  {
    if At(s, 0) == '.' && IsDigit(At(s, 1)) {
      LeavesOne(s);
      RunLeaves(s[1..]);
      LeavesTwice(s, s[1..], s[1..][Run(s[1..])..]);
    }
  }

  lemma ExponentLeaves(s: string)
    ensures Leaves(s, ExponentOf(s).1)
  {
    if At(s, 0) == 'e' || At(s, 0) == 'E' {
      var t := s[1..];
      LeavesOne(s);
      if At(s, 1) == '+' || At(s, 1) == '-' {
        LeavesOne(t);
        assert t[1..] == Drop(s, 2);
        RunLeaves(t[1..]);
        LeavesTwice(t, t[1..], t[1..][Run(t[1..])..]);
        LeavesTwice(s, t, t[1..][Run(t[1..])..]);
      } else {
        assert t == Drop(s, 1);
        RunLeaves(t);
        LeavesTwice(s, t, t[Run(t)..]);
      }
    }
  }

  /** The same word, and the minified rest. */
  ghost predicate Kept(s: string, w: string, rest: string) {
    s == w + rest && Minify(s) == w + Minify(rest) && (Closed(s) ==> Closed(rest)) && (Tidy(s) ==> Tidy(rest))
  }

  lemma {:induction false} PlainKept(w: string, rest: string)
    requires forall i :: 0 <= i < |w| ==> Plain(w[i])
    ensures Kept(w + rest, w, rest)
  {
    var s := w + rest;
    if w == "" {
      assert s == rest && "" + Minify(rest) == Minify(rest);
    } else {
      PlainKept(w[1..], rest);
      assert s[1..] == w[1..] + rest && s[..1] == [w[0]] && s[0] == w[0] && Plain(w[0]);
      assert Minify(s) == [w[0]] + Minify(s[1..]);
      assert w == [w[0]] + w[1..];
      Assoc([w[0]], w[1..], Minify(rest));
    }
  }

  lemma NumberKept(s: string)
    requires s != "" && (s[0] == '-' || IsDigit(s[0])) && Closed(s) && Tidy(s)
    requires var rest := NumeralOf(s).rest; Stop(rest) && Stop(Minify(rest))
    ensures var rest := NumeralOf(s).rest;
      && Closed(rest) && Tidy(rest) && Minify(s) != "" && Minify(s)[0] == s[0]
      && ParseNumber(Minify(s)) == Done(ParseNumber(s).value, Minify(rest))
  {
    var rest := NumeralOf(s).rest;
    NumeralLeaves(s);
    var w := s[..|s| - |rest|];
    assert s == w + rest && w != "" && w[0] == s[0];
    PlainKept(w, rest);
    SameNumber(w, rest, Minify(rest));
  }

  lemma SameNumber(w: string, r: string, x: string)
    requires w != "" && (w[0] == '-' || IsDigit(w[0])) && Stop(r) && Stop(x)
    requires NumeralOf(w + r).rest == r
    ensures ParseNumber(w + x) == Done(ParseNumber(w + r).value, x)
  {
    NumeralStops(w, r);
    NumeralStops(w, x);
    hide NumeralOf, Denotes;
    var n := NumeralOf(w);
    assert n.rest == "" by { assert |n.rest + r| == |r|; }
    assert "" + x == x;
    assert NumeralOf(w + x) == NumeralOf(w + r).(rest := x);
    SameValue(NumeralOf(w + r), x);
  }

  lemma SameValue(n: Numeral, x: string)
    requires forall i :: 0 <= i < |n.whole| ==> IsDigit(n.whole[i])
    requires forall i :: 0 <= i < |n.fraction| ==> IsDigit(n.fraction[i])
    ensures Denotes(n.(rest := x)) == Denotes(n)
  {
  }

  /** The first piece of a literal, cut off with whatever follows the literal. */
  lemma PieceAlone(t: string, n: nat, k: nat, x: string)
    requires 0 < n <= k <= |t|
    ensures var y := t[..k] + x;
      y[n..] == t[n..][..k - n] + x && t[n..][k - n..] == t[k..] && forall i :: 0 <= i < n ==> y[i] == t[i]
  {
    assert t[..k][n..] == t[n..][..k - n];
  }

  /** A literal reads the same whatever follows it. */
  lemma {:induction false} LiteralAlone(t: string, x: string)
    requires LiteralCloses(t) && WellFormed(t)
    ensures Literal(t).1 == t[LiteralLength(t)..]
    ensures Literal(t[..LiteralLength(t)] + x) == (Literal(t).0, x)
    decreases |t|
  {
    var k := LiteralLength(t);
    var y := t[..k] + x;
    hide HexOf, Escaped, FourHex;
    if t[0] == '"' {
      assert y[1..] == x;
    } else if t[0] != '\\' {
      LiteralAlone(t[1..], x);
      PieceAlone(t, 1, k, x);
    } else if t[1] != 'u' {
      LiteralAlone(t[2..], x);
      PieceAlone(t, 2, k, x);
    } else {
      HexCloses(t);
      LiteralAlone(t[6..], x);
      PieceAlone(t, 6, k, x);
      UnitAlone(t, y);
    }
  }

  lemma UnitAlone(t: string, y: string)
    requires |t| >= 6 && |y| >= 6 && t[0] == y[0] == '\\' && t[1] == y[1] == 'u'
    requires forall i :: 0 <= i < 6 ==> y[i] == t[i]
    ensures Literal(t) == ([Unit(HexOf(Drop(t, 2)))] + Literal(t[6..]).0, Literal(t[6..]).1)
    ensures Literal(y) == ([Unit(HexOf(Drop(t, 2)))] + Literal(y[6..]).0, Literal(y[6..]).1)
  {
    SameHex(y[2..], t[2..]);
  }

  lemma SameHex(a: string, b: string)
    requires |a| >= 4 && |b| >= 4 && a[..4] == b[..4]
    ensures HexOf(a) == HexOf(b)
  {
    assert forall i :: 0 <= i < 4 ==> a[i] == a[..4][i] && b[i] == b[..4][i];
    assert At(a, 0) == At(b, 0) && At(a, 1) == At(b, 1) && At(a, 2) == At(b, 2) && At(a, 3) == At(b, 3);
  }

  lemma HexCloses(t: string)
    requires LiteralCloses(t) && WellFormed(t) && |t| > 1 && t[0] == '\\' && t[1] == 'u'
    ensures |t| > 6 && LiteralCloses(t[6..]) && LiteralLength(t) == 6 + LiteralLength(t[6..])
  {
    var s := t[2..];
    assert FourHex(s) && |s| >= 4;
    assert s[1..][1..] == s[2..] && s[2..][1..] == s[3..] && s[3..][1..] == s[4..] == t[6..];
    assert LiteralCloses(s) && LiteralCloses(s[1..]) && LiteralCloses(s[2..]) && LiteralCloses(s[3..]) && LiteralCloses(s[4..]);
    assert LiteralLength(s[3..]) == 1 + LiteralLength(s[4..]);
    assert LiteralLength(s[2..]) == 2 + LiteralLength(s[4..]);
    assert LiteralLength(s[1..]) == 3 + LiteralLength(s[4..]);
  }

  lemma StringKept(s: string)
    requires At(s, 0) == '"' && Closed(s) && Tidy(s)
    ensures var r := ParseString(s);
      && r.Done? && Closed(r.rest) && Tidy(r.rest) && Minify(s) != "" && Minify(s)[0] == '"'
      && ParseString(Minify(s)) == Done(r.value, Minify(r.rest))
  {
    var t := s[1..];
    var k := LiteralLength(t);
    LiteralAlone(t, Minify(t[k..]));
    MinifyLiteral(s);
    assert Closed(s[1 + k..]) && Tidy(Literal(t).1);
    hide Minify, Closed, Tidy, Literal, LiteralLength, LiteralCloses, WellFormed, Transcode;
    QuoteAndRest(s, k);
    Assoc(['"'], t[..k], Minify(t[k..]));
    Cons('"', t[..k] + Minify(t[k..]));
  }

  /** Blanks, of which the parser passes over more kinds than the minifier strips. */
  lemma {:induction false} SkipKept(t: string)
    requires Closed(t) && Tidy(t)
    ensures Closed(Skip(t)) && Tidy(Skip(t)) && Skip(Minify(t)) == Skip(Minify(Skip(t)))
  {
    if t != "" && 0 < t[0] as int <= 32 {
      SkipKept(t[1..]);
      if !Blank(t[0]) {
        assert t[..1] == [t[0]];
        Cons(t[0], Minify(t[1..]));
      }
    }
  }

  /** A mark outside of literals. */
  lemma MarkKept(s: string)
    requires s != "" && Plain(s[0]) && s[0] as int > 32 && Closed(s) && Tidy(s)
    ensures Closed(s[1..]) && Tidy(s[1..])
    ensures Minify(s) == [s[0]] + Minify(s[1..]) && Skip(Minify(s)) == Minify(s)
    ensures Minify(s) != "" && Minify(s)[0] == s[0] && Minify(s)[1..] == Minify(s[1..])
  {
    assert s[..1] == [s[0]];
    Cons(s[0], Minify(s[1..]));
  }

  lemma FollowStops(r: string)
    requires Follow(r) && Closed(r) && Tidy(r)
    ensures Stop(r) && Stop(Minify(r))
  {
    SkipKept(r);
    var u, x := Skip(r), Minify(r);
    if u != "" {
      MarkKept(u);
      assert Skip(x) == Minify(u);
    }
  }

  /** Minifying keeps what `r` says of `s`: the same value, and the minified rest. */
  ghost predicate Agrees<T>(r: Parsed<T>, q: Parsed<T>) {
    r.Done? && Closed(r.rest) && Tidy(r.rest) && q == Done(r.value, Minify(r.rest))
  }

  lemma {:induction false} WordKept(s: string, word: string)
    requires Starts(s, word) && Closed(s) && Tidy(s) && forall i :: 0 <= i < |word| ==> Plain(word[i])
    ensures |word| <= |s| && Closed(s[|word|..]) && Tidy(s[|word|..])
    ensures Starts(Minify(s), word) && Minify(s)[|word|..] == Minify(s[|word|..])
  {
    if word != "" {
      var t := s[1..];
      assert s[..1] == [s[0]] && Plain(word[0]);
      Cons(s[0], Minify(t));
      WordKept(t, word[1..]);
      assert t[|word| - 1..] == s[|word|..];
      assert Minify(s)[|word|..] == Minify(t)[|word| - 1..];
    } else {
      assert s[0..] == s;
    }
  }

  /** The first character of a value decides what is parsed. */
  lemma ValueIs(s: string)
    ensures Starts(s, "null") ==> ParseValue(s) == Done(Null, s[4..])
    ensures Starts(s, "false") ==> ParseValue(s) == Done(False, s[5..])
    ensures Starts(s, "true") ==> ParseValue(s) == Done(True, s[4..])
    ensures At(s, 0) == '"' ==> ParseString(s).Done? && ParseValue(s) == Done(Str(ParseString(s).value), ParseString(s).rest)
    ensures s != "" && (s[0] == '-' || IsDigit(s[0])) ==> ParseValue(s) == ParseNumber(s)
    ensures At(s, 0) == '[' ==> ParseValue(s) == ParseArray(s)
    ensures At(s, 0) == '{' ==> ParseValue(s) == ParseObject(s)
    ensures ParseValue(s).Done? ==>
      || Starts(s, "null") || Starts(s, "false") || Starts(s, "true") || At(s, 0) == '"'
      || (s != "" && (s[0] == '-' || IsDigit(s[0]))) || At(s, 0) == '[' || At(s, 0) == '{'
  {
    hide ParseNumber, ParseArray, ParseObject, Literal, Transcode;
  }

  /** Minifying a text that starts with a value keeps the value. */
  lemma {:induction false} ValueKept(s: string)
    requires Closed(s) && Tidy(s) && ParseValue(s).Done? && Follow(ParseValue(s).rest)
    ensures Agrees(ParseValue(s), ParseValue(Minify(s)))
    ensures s != "" && Minify(s) != "" && Minify(s)[0] == s[0] && s[0] as int > 32 && s[0] != ']' && s[0] != '}'
    decreases |s|, 2
  {
    hide ParseValue, ParseNumber, ParseString, ParseArray, ParseObject, Follow, Stop, Minify, Closed, Tidy, NumeralOf, Denotes;
    ValueIs(s);
    ValueIs(Minify(s));
    if Starts(s, "null") {
      WordKept(s, "null");
    } else if Starts(s, "false") {
      WordKept(s, "false");
    } else if Starts(s, "true") {
      WordKept(s, "true");
    } else if At(s, 0) == '"' {
      StringKept(s);
    } else if s[0] == '-' || IsDigit(s[0]) {
      NumberRest(s);
      LeftTidy(s);
      FollowStops(NumeralOf(s).rest);
      NumberKept(s);
    } else if s[0] == '[' {
      ArrayKept(s);
    } else {
      ObjectKept(s);
    }
  }

  lemma NumberRest(s: string)
    requires s != "" && (s[0] == '-' || IsDigit(s[0]))
    ensures ParseNumber(s).rest == NumeralOf(s).rest
  {
  }

  lemma LeavesTidy(s: string, rest: string)
    requires Leaves(s, rest) && Closed(s) && Tidy(s)
    ensures Closed(rest) && Tidy(rest)
  {
    hide Minify, Closed, Tidy, Plain;
    var w := s[..|s| - |rest|];
    assert s == w + rest;
    PlainKept(w, rest);
  }

  lemma LeftTidy(s: string)
    requires s != "" && (s[0] == '-' || IsDigit(s[0])) && Closed(s) && Tidy(s)
    ensures Closed(NumeralOf(s).rest) && Tidy(NumeralOf(s).rest)
  {
    var rest := NumeralOf(s).rest;
    NumeralLeaves(s);
    hide NumeralOf;
    LeavesTidy(s, rest);
  }

  lemma {:induction false} ArrayKept(s: string)
    requires Closed(s) && Tidy(s) && At(s, 0) == '[' && ParseArray(s).Done?
    ensures Agrees(ParseArray(s), ParseArray(Minify(s))) && Minify(s) != "" && Minify(s)[0] == '['
    decreases |s|, 1
  {
    MarkKept(s);
    SkipKept(s[1..]);
    SkipNotLonger(s[1..]);
    var t := Skip(s[1..]);
    hide ParseElements, Minify, Closed, Tidy, Skip;
    if At(t, 0) == ']' {
      MarkKept(t);
    } else {
      ElementsKept(t);
    }
  }

  /** The elements from `s` on, which starts with the first of them. */
  lemma {:induction false} ElementsKept(s: string)
    requires Closed(s) && Tidy(s) && ParseElements(s).Done?
    ensures Agrees(ParseElements(s), ParseElements(Minify(s)))
    ensures At(Skip(Minify(s)), 0) != ']'
    decreases |s|, 3
  {
    SkipKept(s);
    SkipNotLonger(s);
    var u := Skip(s);
    var r := ParseValue(u);
    var t := Skip(r.rest);
    assert At(t, 0) == ',' || At(t, 0) == ']';
    ValueKept(u);
    SkipKept(r.rest);
    MarkKept(t);
    SkipNotLonger(r.rest);
    if At(t, 0) == ',' {
      ElementsKept(t[1..]);
    }
  }

  lemma {:induction false} ObjectKept(s: string)
    requires Closed(s) && Tidy(s) && At(s, 0) == '{' && ParseObject(s).Done?
    ensures Agrees(ParseObject(s), ParseObject(Minify(s))) && Minify(s) != "" && Minify(s)[0] == '{'
    decreases |s|, 1
  {
    MarkKept(s);
    SkipKept(s[1..]);
    SkipNotLonger(s[1..]);
    var t := Skip(s[1..]);
    hide ParseMembers, Minify, Closed, Tidy, Skip;
    if At(t, 0) == '}' {
      MarkKept(t);
    } else {
      MembersKept(t);
    }
  }

  lemma {:induction false} MemberKept(s: string)
    requires Closed(s) && Tidy(s) && ParseMember(s).Done? && Follow(ParseMember(s).rest)
    ensures Agrees(ParseMember(s), ParseMember(Minify(s)))
    ensures At(Skip(Minify(s)), 0) == '"'
    decreases |s|, 3
  {
    SkipKept(s);
    SkipNotLonger(s);
    var u := Skip(s);
    StringKept(u);
    var r := ParseString(u);
    SkipKept(r.rest);
    SkipNotLonger(r.rest);
    var t := Skip(r.rest);
    MarkKept(t);
    SkipKept(t[1..]);
    SkipNotLonger(t[1..]);
    ValueKept(Skip(t[1..]));
  }

  lemma {:induction false} MembersKept(s: string)
    requires Closed(s) && Tidy(s) && ParseMembers(s).Done?
    ensures Agrees(ParseMembers(s), ParseMembers(Minify(s)))
    ensures At(Skip(Minify(s)), 0) == '"'
    decreases |s|, 4
  {
    var r := ParseMember(s);
    var t := Skip(r.rest);
    assert At(t, 0) == ',' || At(t, 0) == '}';
    MemberKept(s);
    SkipKept(r.rest);
    MarkKept(t);
    SkipNotLonger(r.rest);
    if At(t, 0) == ',' {
      MembersKept(t[1..]);
    }
  }

  /** A text that parses as a whole parses to the same value after `cJSON_Minify`. */
  lemma MinifyKeepsMeaning(s: string, v: Json)
    requires Tidy(s) && Closed(s) && Parse(s, true).Done? && Parse(s, true).value == v
    ensures Parse(Minify(s), true).Done? && Parse(Minify(s), true).value == v
  {
    SkipKept(s);
    var u := Skip(s);
    var r := ParseValue(u);
    ValueKept(u);
    SkipKept(r.rest);
  }
}
