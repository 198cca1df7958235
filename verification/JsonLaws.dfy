/** What printed text consists of and what the minifier drops, by characters. */
module JsonLaws {
  import opened Common
  import opened JsonText
  import opened JsonParse
  import opened JsonRoundTrip
  import opened JsonMinify
  import JsonMinified
  import G = JsonGrammar

  // ---- Strings and numbers ----

  lemma {:induction false} EscapeJoins(a: string, b: string)
    requires Bytes(a) && Bytes(b)
    ensures Bytes(a + b) && Escape(a + b) == Escape(a) + Escape(b)
  {
    hide EscapeChar;
    if a == "" {
      assert a + b == b;
    } else {
      EscapeFirst(a);
      EscapeJoins(a[1..], b);
      BytesJoin(a, b);
      EscapeFirst(a + b);
      assert (a + b)[1..] == a[1..] + b;
      hide Escape;
      Assoc(EscapeChar(a[0]), Escape(a[1..]), Escape(b));
    }
  }

  lemma EscapeFirst(s: string)
    requires Bytes(s) && s != ""
    ensures 0 < s[0] as int < 256 && Bytes(s[1..]) && Escape(s) == EscapeChar(s[0]) + Escape(s[1..])
  {
    hide EscapeChar;
    assert s[0] in s && forall c :: c in s[1..] ==> c in s;
  }

  lemma BytesJoin(a: string, b: string)
    requires Bytes(a) && Bytes(b)
    ensures Bytes(a + b)
  {
  }

  /** A printed string is the printed characters one after the other, between two quotes. */
  lemma QuoteJoins(a: string, b: string)
    requires Bytes(a) && Bytes(b)
    ensures Bytes(a + b) && Quote(a + b) == Quote(a)[..|Quote(a)| - 1] + Quote(b)[1..]
    ensures Quote("") == "\"\""
  {
    EscapeJoins(a, b);
    Between(Escape(a), Escape(b));
    assert "\"" + "" + "\"" == "\"\"";
  }

  lemma Between(x: string, y: string)
    ensures "\"" + (x + y) + "\"" == ("\"" + x + "\"")[..|x| + 1] + ("\"" + y + "\"")[1..]
  {
    assert ("\"" + x + "\"")[..|x| + 1] == "\"" + x;
    assert ("\"" + y + "\"")[1..] == y + "\"";
    Assoc("\"" + x, y, "\"");
    Assoc("\"", x, y);
  }

  /** A character that has a letter is printed as a backslash and that letter, a quote and a backslash
      as a backslash and itself, any other control character as its code in hexadecimal, and everything
      else as itself. */
  lemma CharWritten(c: char)
    requires 0 < c as int < 256
    ensures forall l :: l in G.NAMED && G.NAMED[l] == c as int ==> Quote([c]) == "\"\\" + [l] + "\""
    ensures c == '"' || c == '\\' ==> Quote([c]) == "\"\\" + [c] + "\""
    ensures c as int < 32 && c as int !in G.NAMED.Values ==>
      Quote([c]) == "\"\\u00" + [G.HEXADECIMALS[c as int / 16], G.HEXADECIMALS[c as int % 16]] + "\""
    ensures c as int >= 32 && c != '"' && c != '\\' ==> Quote([c]) == "\"" + [c] + "\""
  {
    OneQuoted(c);
    var n := c as int;
    assert G.NAMED['b'] == 8 && G.NAMED['f'] == 12 && G.NAMED['n'] == 10 && G.NAMED['r'] == 13 && G.NAMED['t'] == 9;
    if n < 32 && n !in G.NAMED.Values {
      HexWritten(n / 16);
      HexWritten(n % 16);
      assert "\"" + ("\\u" + Hex4(n)) == "\"\\u00" + [G.HEXADECIMALS[n / 16], G.HEXADECIMALS[n % 16]];
    }
  }

  lemma OneQuoted(c: char)
    requires 0 < c as int < 256
    ensures Quote([c]) == "\"" + EscapeChar(c) + "\""
  {
    assert [c][1..] == "" && Escape([c]) == EscapeChar(c) + "";
  }

  lemma HexWritten(d: int)
    requires 0 <= d < 16
    ensures HexDigit(d) == G.HEXADECIMALS[d]
  {
  }

  /** A printed integer is its sign and decimal digits that weigh what it is, with no zero in front. */
  lemma DecimalWritten(n: int) returns (ds: seq<G.Digit>)
    ensures ds != [] && (ds[0] == 0 ==> |ds| == 1)
    ensures G.Weight(ds) == if n < 0 then -n else n
    ensures Decimal(n) == When(n < 0, "-") + G.Spell(ds)
  {
    ds := DigitsWritten(if n < 0 then -n else n);
    assert "" + G.Spell(ds) == G.Spell(ds);
  }

  lemma DigitsWritten(n: nat) returns (ds: seq<G.Digit>)
    ensures ds != [] && (ds[0] == 0 ==> |ds| == 1)
    ensures G.Weight(ds) == n && Digits(n) == G.Spell(ds)
  {
    var d := Digits(n);
    DigitsValue(n);
    if n == 0 {
      assert |Digits(0)| == 1;
    }
    hide Digits, Value, G.Spell, G.Weight;
    ds := DigitsOf(d);
    G.SpellValue(ds);
    SpellBack(d);
  }

  lemma SpellBack(d: string)
    requires forall i :: 0 <= i < |d| ==> IsDigit(d[i])
    ensures G.Spell(DigitsOf(d)) == d
  {
    hide DigitsOf, G.Spell;
  }

  function DigitsOf(d: string): (ds: seq<G.Digit>)
    requires forall i :: 0 <= i < |d| ==> IsDigit(d[i])
    ensures |ds| == |d| && forall i :: 0 <= i < |d| ==> ds[i] == d[i] as int - '0' as int
  {
    if d == "" then []
    else
      assert IsDigit(d[0]);
      var first: G.Digit := d[0] as int - '0' as int;
      [first] + DigitsOf(d[1..])
  }

  // ---- Arrays and objects ----

  function Join(parts: seq<string>, sep: string): string {
    if parts == [] then "" else if |parts| == 1 then parts[0] else parts[0] + sep + Join(parts[1..], sep)
  }

  function Indent(n: int): string {
    if n <= 0 then "" else seq(n, i => '\t')
  }

  lemma {:induction false} TabsIndent(n: int)
    ensures Tabs(n) == Indent(n)
  {
    if n > 0 {
      TabsIndent(n - 1);
      assert "\t" + Indent(n - 1) == Indent(n);
    }
  }

  ghost predicate Parts(parts: seq<string>, items: seq<Json>, depth: nat, fmt: bool)
    requires Printable(Array(items))
  {
    |parts| == |items| && forall i :: 0 <= i < |items| ==> parts[i] == Print(items[i], depth, fmt)
  }

  lemma {:induction false} ElementsJoin(items: seq<Json>, depth: nat, fmt: bool, parts: seq<string>)
    requires Printable(Array(items)) && Parts(parts, items, depth, fmt)
    ensures Elements(items, depth, fmt) == Join(parts, if fmt then ", " else ",")
  {
    if items != [] {
      var sep := if fmt then ", " else ",";
      assert Elements(items, depth, fmt) ==
        parts[0] + if |items| == 1 then "" else "," + When(fmt, " ") + Elements(items[1..], depth, fmt);
      hide Print, Elements;
      assert "," + When(fmt, " ") == sep;
      if |items| == 1 {
        assert parts[0] + "" == parts[0];
      } else {
        ElementsJoin(items[1..], depth, fmt, parts[1..]);
        Assoc(parts[0], sep, Elements(items[1..], depth, fmt));
      }
    }
  }

  /** A printed array is its printed items, a comma between each two and, formatted, a space behind
      the comma. */
  lemma ArrayWritten(items: seq<Json>, depth: nat, fmt: bool, parts: seq<string>)
    requires Printable(Array(items)) && Parts(parts, items, depth + 1, fmt)
    ensures Print(Array(items), depth, fmt) == "[" + Join(parts, if fmt then ", " else ",") + "]"
  {
    ElementsJoin(items, depth + 1, fmt, parts);
  }

  /** A line per member: as many tabs as the member is deep, the name, a colon, a tab and the value.
      Unformatted there are no tabs. */
  ghost predicate Lines(lines: seq<string>, members: seq<Member>, depth: nat, fmt: bool)
    requires Printable(Object(members))
  {
    |lines| == |members| &&
    forall i :: 0 <= i < |members| ==>
      lines[i] ==
        (if fmt then Indent(depth) + Quote(members[i].name) + ":\t" else Quote(members[i].name) + ":") +
        Print(members[i].value, depth, fmt)
  }

  lemma LabelIs(name: string, depth: nat, fmt: bool)
    requires Bytes(name)
    ensures Label(name, depth, fmt) == if fmt then Indent(depth) + Quote(name) + ":\t" else Quote(name) + ":"
  {
    hide Quote;
    TabsIndent(depth);
    var q := Quote(name);
    if fmt {
      Assoc(Tabs(depth) + q, ":", "\t");
      assert ":" + "\t" == ":\t";
    } else {
      assert "" + q == q && q + ":" + "" == q + ":";
    }
  }

  lemma {:induction false} MembersJoin(members: seq<Member>, depth: nat, fmt: bool, lines: seq<string>)
    requires members != [] && Printable(Object(members)) && Lines(lines, members, depth, fmt)
    ensures Members(members, depth, fmt) == Join(lines, if fmt then ",\n" else ",") + When(fmt, "\n")
  {
    LabelIs(members[0].name, depth, fmt);
    var line, nl, rest := lines[0], When(fmt, "\n"), Members(members[1..], depth, fmt);
    assert Members(members, depth, fmt) == line + When(|members| > 1, ",") + nl + rest;
    if |members| == 1 {
      assert rest == "" && line + "" == line && line + nl + "" == line + nl;
    } else {
      hide Print, Members, Label, Quote;
      MembersJoin(members[1..], depth, fmt, lines[1..]);
      SeparatedLines(line, fmt, Join(lines[1..], if fmt then ",\n" else ","), nl);
    }
  }

  lemma SeparatedLines(line: string, fmt: bool, others: string, end: string)
    ensures line + "," + When(fmt, "\n") + (others + end) == line + (if fmt then ",\n" else ",") + others + end
  {
    var sep := if fmt then ",\n" else ",";
    Assoc(line, ",", When(fmt, "\n"));
    assert "," + When(fmt, "\n") == sep;
    Assoc(line + sep, others, end);
  }

  /** A printed object is its lines, a comma between each two; formatted, each is on a line of its own
      and the braces are too. */
  lemma ObjectWritten(members: seq<Member>, depth: nat, fmt: bool, lines: seq<string>)
    requires members != [] && Printable(Object(members)) && Lines(lines, members, depth + 1, fmt)
    ensures Print(Object(members), depth, fmt) ==
      if fmt then "{\n" + Join(lines, ",\n") + "\n" + Indent(depth) + "}" else "{" + Join(lines, ",") + "}"
  {
    MembersJoin(members, depth + 1, fmt, lines);
    TabsIndent(depth);
    var m := Members(members, depth + 1, fmt);
    assert Print(Object(members), depth, fmt) == "{" + When(fmt, "\n") + m + When(fmt, Tabs(depth)) + "}";
    hide Print, Members, Tabs, Join;
    if fmt {
      assert "{" + "\n" == "{\n";
      Assoc("{\n", Join(lines, ",\n"), "\n");
    } else {
      assert "{" + "" == "{" && m == Join(lines, ",") && "{" + m + "" == "{" + m;
    }
  }

  /** What is printed of the words and of an object with no members. */
  lemma WordsWritten(depth: nat, fmt: bool)
    ensures Print(Null, depth, fmt) == "null"
    ensures Print(True, depth, fmt) == "true" && Print(False, depth, fmt) == "false"
    ensures Print(Object([]), depth, fmt) == if fmt then "{\n" + Indent(depth - 1) + "}" else "{}"
  {
    TabsIndent(depth - 1);
    hide Tabs, Indent;
    Assoc("{", "\n", Indent(depth - 1));
    assert "{" + "\n" == "{\n" && "{" + "" + "}" == "{}";
  }

  // ---- The minifier ----

  /** A blank is dropped, and any other character kept that starts neither a string nor a comment. */
  lemma OneMinified(c: char, t: string)
    requires c != '"' && (c != '/' || (At(t, 0) != '/' && At(t, 0) != '*'))
    ensures Minify([c] + t) == if c in " \t\r\n" then Minify(t) else [c] + Minify(t)
  {
    Cons(c, t);
    assert ([c] + t)[..1] == [c];
  }

  lemma {:induction false} LineEnds(w: string, t: string)
    requires '\n' !in w && (t == "" || t[0] == '\n')
    ensures Line(w + t) == t
  {
    if w == "" {
      assert w + t == t;
    } else {
      assert w[0] in w && forall c :: c in w[1..] ==> c in w;
      assert (w + t)[1..] == w[1..] + t;
      LineEnds(w[1..], t);
    }
  }

  /** A comment of two slashes goes with its line, be that the last. */
  lemma LineDropped(w: string, t: string)
    requires '\n' !in w
    ensures Minify("//" + (w + ("\n" + t))) == Minify(t)
    ensures Minify("//" + w) == ""
  {
    Cons('\n', t);
    OneMinified('\n', t);
    LineLeft(w, "\n" + t);
    LineLeft(w, "");
    assert w + "" == w;
  }

  lemma LineLeft(w: string, t: string)
    requires '\n' !in w && (t == "" || t[0] == '\n')
    ensures Minify("//" + (w + t)) == Minify(t)
  {
    var s := "//" + (w + t);
    assert s[1..] == "/" + w + t;
    LineEnds("/" + w, t);
  }

  /** No star with a slash behind it, the last two characters aside. */
  predicate Inside(w: string) {
    forall i :: 0 <= i < |w| - 2 ==> !(w[i] == '*' && w[i + 1] == '/')
  }

  lemma {:induction false} CommentEnds(w: string, t: string)
    requires Inside(w + "*/")
    ensures AfterComment(w + "*/" + t) == t
  {
    var s := w + "*/" + t;
    if w == "" {
      assert s == "*/" + t && s[2..] == t;
    } else {
      assert s[0] == (w + "*/")[0] && s[1] == (w + "*/")[1];
      assert w[1..] + "*/" == (w + "*/")[1..];
      assert s[1..] == w[1..] + "*/" + t;
      CommentEnds(w[1..], t);
    }
  }

  /** A comment of slash and star goes with the first star that has a slash behind it. The star that
      opens it may be that one. */
  lemma CommentDropped(w: string, t: string)
    requires Inside("*" + w + "*/")
    ensures Minify("/" + ("*" + w + "*/" + t)) == Minify(t)
    ensures Minify("/*/" + t) == Minify(t)
  {
    CommentEnds("*" + w, t);
    Cons('/', "*" + w + "*/" + t);
    assert "" + "*/" == "*/";
    CommentEnds("", t);
    assert ("/*/" + t)[1..] == "" + "*/" + t;
  }

  lemma LetterPassed(l: G.Letter, t: string)
    requires G.GoodLetter(l) && LiteralCloses(t)
    ensures var w := G.WriteLetter(l); LiteralCloses(w + t) && LiteralLength(w + t) == |w| + LiteralLength(t)
  {
    match l
    case Plain(c) => Cons(c, t);
    case Short(c) =>
      var s := ['\\', c] + t;
      assert s[0] == '\\' && s[2..] == t;
    case Escape16(u) => UnitPassed(u, t);
    case EscapePair(high, low) =>
      UnitPassed(low, t);
      UnitPassed(high, G.WriteUnit(low) + t);
      Assoc(G.WriteUnit(high), G.WriteUnit(low), t);
  }

  lemma UnitPassed(u: G.Unit16, t: string)
    requires G.GoodUnit(u) && LiteralCloses(t)
    ensures var w := G.WriteUnit(u); LiteralCloses(w + t) && LiteralLength(w + t) == 6 + LiteralLength(t)
  {
    var w := G.WriteUnit(u);
    G.NibbleRead(u.a);
    G.NibbleRead(u.b);
    G.NibbleRead(u.c);
    G.NibbleRead(u.d);
    hide G.WriteNibble, G.GoodNibble;
    JsonMinified.HexLiteral(w[2..], t);
    assert (w + t)[2..] == w[2..] + t && (w + t)[0] == '\\';
  }

  lemma {:induction false} LettersPassed(ls: seq<G.Letter>, q: string)
    requires G.GoodLetters(ls) && q != "" && q[0] == '"'
    ensures var w := G.WriteLetters(ls); LiteralCloses(w + q) && LiteralLength(w + q) == |w| + 1
  {
    if ls == [] {
      assert "" + q == q;
    } else {
      hide G.WriteLetter, LiteralCloses, LiteralLength;
      LettersPassed(ls[1..], q);
      LetterPassed(ls[0], G.WriteLetters(ls[1..]) + q);
      Assoc(G.WriteLetter(ls[0]), G.WriteLetters(ls[1..]), q);
    }
  }

  /** A string is kept as it is, blanks and slashes in it too. */
  lemma StringKept(ls: seq<G.Letter>, t: string)
    requires G.GoodLetters(ls)
    ensures Minify(G.WriteQuoted(ls) + t) == G.WriteQuoted(ls) + Minify(t)
  {
    var w, q := G.WriteLetters(ls), "\"" + t;
    LettersPassed(ls, q);
    hide Minify, LiteralCloses, LiteralLength, G.WriteLetters;
    var s := G.WriteQuoted(ls) + t;
    Assoc("\"", w + "\"", t);
    Assoc(w, "\"", t);
    Cons('"', w + q);
    var k := 1 + LiteralLength(s[1..]);
    assert k == |G.WriteQuoted(ls)|;
    assert s[..k] == G.WriteQuoted(ls) && s[k..] == t;
    JsonMinified.MinifyLiteral(s);
  }
}
