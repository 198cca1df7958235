/** Parsing undoes printing. */
module JsonRoundTrip {
  import opened Common
  import opened JsonText
  import opened JsonParse

  /** Nothing that would go on with a number. */
  predicate EndsNumber(post: string) {
    !IsDigit(At(post, 0)) && At(post, 0) != '.' && At(post, 0) != 'e' && At(post, 0) != 'E'
  }

  lemma {:induction false} DigitsValue(n: nat)
    ensures Value(Digits(n)) == n
    ensures n > 0 ==> Digits(n)[0] != '0'
  {
    var d := ['0' + (n % 10) as char];
    assert Digits(n)[..|Digits(n)| - 1] == if n < 10 then "" else Digits(n / 10);
    if n >= 10 {
      DigitsValue(n / 10);
    }
  }

  lemma {:induction false} RunOver(digits: string, post: string)
    requires forall i :: 0 <= i < |digits| ==> IsDigit(digits[i])
    requires !IsDigit(At(post, 0))
    ensures Run(digits + post) == |digits|
  {
    if digits == "" {
      assert digits + post == post;
    } else {
      assert IsDigit(digits[0]);
      assert (digits + post)[1..] == digits[1..] + post;
      RunOver(digits[1..], post);
    }
  }

  lemma WholeOfDigits(n: nat, post: string)
    requires EndsNumber(post)
    ensures WholeOf(Digits(n) + post).1 == post
    ensures Value(WholeOf(Digits(n) + post).0) == n
  {
    DigitsValue(n);
    var d := Digits(n);
    assert IsDigit(d[0]);
    if n == 0 {
      assert d == "0";
      assert (d + post)[1..] == post;
    } else {
      RunOver(d, post);
      assert (d + post)[..|d|] == d && (d + post)[|d|..] == post;
    }
  }

  lemma NumberRoundTrip(n: int, post: string)
    requires EndsNumber(post)
    ensures var s := Decimal(n) + post; (s[0] == '-' || IsDigit(s[0])) && ParseNumber(s) == Done(Number(n as real), post)
  {
    var m := if n < 0 then -n else n;
    var d := Digits(m);
    assert IsDigit(d[0]);
    WholeOfDigits(m, post);
    if n < 0 {
      Assoc("-", d, post);
      Unsigned("-" + (d + post), d + post, post);
    } else {
      Unsigned(d + post, d + post, post);
    }
  }

  lemma Unsigned(s: string, t: string, post: string)
    requires s == t || s == "-" + t
    requires t != "" && IsDigit(t[0]) && EndsNumber(post) && WholeOf(t).1 == post
    ensures ParseNumber(s) ==
      Done(Number((if s == t then Value(WholeOf(t).0) else -Value(WholeOf(t).0)) as real), post)
  {
    var negative := s[0] == '-';
    assert negative ==> s[1..] == t;
    var numeral := NumeralOf(s);
    assert numeral == Numeral(negative, WholeOf(t).0, "", 0, post);
    DenotesWhole(numeral);
  }

  lemma DenotesWhole(n: Numeral)
    requires forall i :: 0 <= i < |n.whole| ==> IsDigit(n.whole[i])
    requires n.fraction == "" && n.exponent == 0
    ensures Denotes(n) == (if n.negative then -Value(n.whole) else Value(n.whole)) as real
  {
    assert Value("") == 0 && -|n.fraction| == 0;
  }

  lemma Regroup(a: string, b: string, c: string, d: string, e: string, post: string)
    ensures a + b + c + d + e + post == a + (b + (c + (d + (e + post))))
  {
    Assoc(a + b + c + d, e, post);
    Assoc(a + b + c, d, e + post);
    Assoc(a + b, c, d + (e + post));
    Assoc(a, b, c + (d + (e + post)));
  }

  lemma Cons(c: char, t: string)
    ensures [c] + t != "" && ([c] + t)[0] == c && ([c] + t)[1..] == t
  {
  }

  lemma {:induction false} StringBodyRoundTrip(s: string, q: string)
    requires Bytes(s) && q != "" && q[0] == '"'
    ensures Literal(Escape(s) + q).1 == q[1..]
    ensures Transcode(Literal(Escape(s) + q).0) == s
  {
    if s == "" {
      assert Escape(s) + q == q;
    } else {
      assert s[0] in s && forall c :: c in s[1..] ==> c in s;
      StringBodyRoundTrip(s[1..], q);
      CharRoundTrip(s[0], Escape(s[1..]) + q);
      Assoc(EscapeChar(s[0]), Escape(s[1..]), q);
      assert s == [s[0]] + s[1..];
    }
  }

  lemma StringRoundTrip(s: string, post: string)
    requires Bytes(s)
    ensures ParseString(Quote(s) + post) == Done(s, post)
  {
    var q := "\"" + post;
    StringBodyRoundTrip(s, q);
    Assoc("\"" + Escape(s), "\"", post);
    Assoc("\"", Escape(s), q);
  }

  lemma CharRoundTrip(c: char, t: string)
    requires 0 < c as int < 256
    ensures Literal(EscapeChar(c) + t).1 == Literal(t).1
    ensures Transcode(Literal(EscapeChar(c) + t).0) == [c] + Transcode(Literal(t).0)
  {
    var e, r := EscapeChar(c) + t, Literal(t);
    if c as int < 32 && |EscapeChar(c)| == 6 {
      HexRoundTrip(c as int, t);
      assert Drop(e, 2) == Hex4(c as int) + t && Drop(e, 6) == t;
      assert Literal(e) == ([Unit(c as int)] + r.0, r.1);
      assert ([Unit(c as int)] + r.0)[1..] == r.0;
    } else {
      assert |EscapeChar(c)| == 2 ==> Drop(e, 2) == t;
      assert |EscapeChar(c)| == 1 ==> e[1..] == t;
      assert Literal(e) == ([Raw(c)] + r.0, r.1);
      assert ([Raw(c)] + r.0)[1..] == r.0;
    }
  }

  lemma HexRoundTrip(c: int, t: string)
    requires 0 <= c < 256
    ensures HexOf(Hex4(c) + t) == c
  {
    var h := Hex4(c);
    assert At(h + t, 0) == '0' && At(h + t, 1) == '0' && At(h + t, 2) == HexDigit(c / 16) && At(h + t, 3) == HexDigit(c % 16);
    HexDigitRoundTrip(c / 16);
    HexDigitRoundTrip(c % 16);
  }

  lemma HexDigitRoundTrip(d: int)
    requires 0 <= d < 16
    ensures IsHex(HexDigit(d)) && HexValue(HexDigit(d)) == d
  {
  }

  predicate Spaces(ws: string) {
    forall c :: c in ws ==> 0 < c as int <= 32
  }

  lemma {:induction false} SkipSpaces(ws: string, t: string)
    requires Spaces(ws)
    ensures Skip(ws + t) == Skip(t)
  {
    if ws == "" {
      assert ws + t == t;
    } else {
      assert ws[0] in ws && forall c :: c in ws[1..] ==> c in ws;
      assert (ws + t)[1..] == ws[1..] + t;
      SkipSpaces(ws[1..], t);
    }
  }

  lemma SkipTwice(s: string)
    ensures Skip(Skip(s)) == Skip(s)
  {
  }

  lemma {:induction false} TabsAreSpaces(n: int)
    ensures Spaces(Tabs(n))
  {
    if n > 0 {
      TabsAreSpaces(n - 1);
    }
  }

  /** No value starts with a space or with a closing bracket. */
  lemma FirstOfPrint(v: Json, depth: nat, fmt: bool)
    requires Printable(v)
    ensures var c := Print(v, depth, fmt)[0]; c as int > 32 && c != ']' && c != '}'
  {
    match v
    case Number(x) =>
      var d := Digits(if x.Floor < 0 then -x.Floor else x.Floor);
      assert '0' <= d[0] <= '9';
    case Object(members) =>
    case _ =>
  }

  lemma StringValue(s: string, post: string)
    requires Bytes(s)
    ensures ParseValue(Quote(s) + post) == Done(Str(s), post)
  {
    StringRoundTrip(s, post);
    assert (Quote(s) + post)[0] == '"';
  }

  lemma NumberValue(n: int, post: string)
    requires EndsNumber(post)
    ensures ParseValue(Decimal(n) + post) == Done(Number(n as real), post)
  {
    hide ParseNumber, ParseValue;
    NumberRoundTrip(n, post);
    NumberAhead(Decimal(n) + post);
  }

  lemma NumberAhead(s: string)
    requires s != "" && (s[0] == '-' || IsDigit(s[0]))
    ensures ParseValue(s) == ParseNumber(s)
  {
    hide ParseNumber, ParseString, ParseArray, ParseObject, Skip;
  }

  lemma {:induction false} StartsWith(word: string, post: string)
    ensures Starts(word + post, word) && (word + post)[|word|..] == post
  {
    if word == "" {
      assert word + post == post;
    } else {
      StartsWith(word[1..], post);
      assert (word + post)[1..] == word[1..] + post;
    }
  }

  lemma WordValue(word: string, post: string)
    requires word == "null" || word == "false" || word == "true"
    ensures ParseValue(word + post) == Done(if word == "null" then Null else if word == "false" then False else True, post)
  {
    StartsWith(word, post);
    assert (word + post)[0] == word[0];
  }

  /** Parsing the text of a value, formatted or not and at any depth, gives the value back and
      leaves exactly the text that follows. */
  lemma {:induction false} ValueRoundTrip(v: Json, depth: nat, fmt: bool, post: string)
    requires Printable(v) && EndsNumber(post)
    ensures ParseValue(Print(v, depth, fmt) + post) == Done(v, post)
    decreases v, 1
  {
    hide ParseNumber, ParseString, ParseValue;
    match v
    case Null => WordValue("null", post);
    case False => WordValue("false", post);
    case True => WordValue("true", post);
    case Number(x) => NumberValue(x.Floor, post);
    case Str(s) => StringValue(s, post);
    case Array(items) => ArrayRoundTrip(items, depth, fmt, post);
    case Object(members) => ObjectRoundTrip(members, depth, fmt, post);
  }

  lemma BracketValue(s: string)
    requires At(s, 0) == '[' || At(s, 0) == '{'
    ensures ParseValue(s) == if s[0] == '[' then ParseArray(s) else ParseObject(s)
  {
    hide ParseNumber, ParseString, ParseArray, ParseObject, Skip;
  }

  /** The text is a bracket and then `post`. */
  predicate After(s: string, bracket: char, post: string) {
    At(s, 0) == bracket && s != "" && s[1..] == post
  }

  lemma ParseArrayStep(s: string, items: seq<Json>, post: string)
    requires At(s, 0) == '['
    requires if items == [] then After(Skip(s[1..]), ']', post)
      else At(Skip(s[1..]), 0) != ']' && ParseElements(Skip(s[1..])) == Done(items, post)
    ensures ParseValue(s) == Done(Array(items), post)
  {
    BracketValue(s);
    hide ParseNumber, ParseString, ParseValue;
  }

  lemma ParseElementsStep(s: string, v: Json, others: seq<Json>, tail: string, post: string)
    requires ParseValue(Skip(s)) == Done(v, tail)
    requires if others == [] then After(Skip(tail), ']', post)
      else At(Skip(tail), 0) == ',' && ParseElements(Skip(tail)[1..]) == Done(others, post)
    ensures ParseElements(s) == Done([v] + others, post)
  {
    hide ParseNumber, ParseString, ParseValue;
    if others == [] {
      assert [v] + others == [v];
    }
  }

  lemma {:induction false} ArrayRoundTrip(items: seq<Json>, depth: nat, fmt: bool, post: string)
    requires Printable(Array(items))
    ensures ParseValue(Print(Array(items), depth, fmt) + post) == Done(Array(items), post)
    decreases items, 1
  {
    hide ParseNumber, ParseString, ParseValue, ParseElements;
    var e := Elements(items, depth + 1, fmt);
    var s, q := Print(Array(items), depth, fmt) + post, "]" + post;
    Assoc("[" + e, "]", post);
    Assoc("[", e, q);
    assert s[1..] == e + q;
    if items == [] {
      assert e + q == q;
    } else {
      FirstElement(items, depth + 1, fmt, q);
      ElementsRoundTrip(e + q, items, depth + 1, fmt, post);
    }
    ParseArrayStep(s, items, post);
  }

  ghost function AfterElement(items: seq<Json>, depth: nat, fmt: bool, q: string): string
    requires items != [] && Printable(Array(items))
  {
    if |items| == 1 then q else "," + (When(fmt, " ") + (Elements(items[1..], depth, fmt) + q))
  }

  lemma FirstElement(items: seq<Json>, depth: nat, fmt: bool, q: string)
    requires items != [] && Printable(Array(items))
    ensures Elements(items, depth, fmt) + q == Print(items[0], depth, fmt) + AfterElement(items, depth, fmt, q)
    ensures Skip(Elements(items, depth, fmt) + q) == Elements(items, depth, fmt) + q
    ensures At(Elements(items, depth, fmt) + q, 0) != ']'
  {
    var first, sep, others := Print(items[0], depth, fmt), When(fmt, " "), Elements(items[1..], depth, fmt);
    FirstOfPrint(items[0], depth, fmt);
    assert Elements(items, depth, fmt) == first + if |items| == 1 then "" else "," + sep + others;
    hide Print, Elements;
    if |items| > 1 {
      Assoc(first, "," + sep + others, q);
      Assoc("," + sep, others, q);
      Assoc(",", sep, others + q);
    } else {
      assert first + "" == first;
    }
  }

  lemma AfterElementText(items: seq<Json>, depth: nat, fmt: bool, post: string)
    requires items != [] && Printable(Array(items))
    ensures var tail := AfterElement(items, depth, fmt, "]" + post);
      && EndsNumber(tail) && Skip(tail) == tail
      && if |items| == 1 then After(tail, ']', post)
         else At(tail, 0) == ',' && Skip(tail[1..]) == Elements(items[1..], depth, fmt) + ("]" + post)
  {
    hide Print, Elements;
    var q, sep := "]" + post, When(fmt, " ");
    if |items| == 1 {
      Cons(']', post);
    } else {
      var others := Elements(items[1..], depth, fmt) + q;
      Cons(',', sep + others);
      SkipSpaces(sep, others);
      FirstElement(items[1..], depth, fmt, q);
    }
  }

  lemma {:induction false} ElementsRoundTrip(t: string, items: seq<Json>, depth: nat, fmt: bool, post: string)
    requires items != [] && Printable(Array(items))
    requires Skip(t) == Elements(items, depth, fmt) + ("]" + post)
    ensures ParseElements(t) == Done(items, post)
    decreases items, 0
  {
    hide ParseNumber, ParseString, ParseValue, ParseElements, Elements, Print, AfterElement, Skip;
    var q := "]" + post;
    var tail := AfterElement(items, depth, fmt, q);
    FirstElement(items, depth, fmt, q);
    AfterElementText(items, depth, fmt, post);
    ValueRoundTrip(items[0], depth, fmt, tail);
    if |items| > 1 {
      ElementsRoundTrip(tail[1..], items[1..], depth, fmt, post);
    }
    ParseElementsStep(t, items[0], items[1..], tail, post);
    assert items == [items[0]] + items[1..];
  }

  lemma ParseObjectStep(s: string, members: seq<Member>, post: string)
    requires At(s, 0) == '{'
    requires if members == [] then After(Skip(s[1..]), '}', post)
      else At(Skip(s[1..]), 0) != '}' && ParseMembers(Skip(s[1..])) == Done(members, post)
    ensures ParseValue(s) == Done(Object(members), post)
  {
    BracketValue(s);
    hide ParseNumber, ParseString, ParseValue;
  }

  lemma ParseMembersStep(s: string, m: Member, others: seq<Member>, tail: string, post: string)
    requires ParseMember(s) == Done(m, tail)
    requires if others == [] then After(Skip(tail), '}', post)
      else At(Skip(tail), 0) == ',' && ParseMembers(Skip(tail)[1..]) == Done(others, post)
    ensures ParseMembers(s) == Done([m] + others, post)
  {
    hide ParseNumber, ParseString, ParseValue, ParseMember;
    if others == [] {
      assert [m] + others == [m];
    }
  }

  lemma ParseMemberStep(s: string, m: Member, rest: string, tail: string)
    requires ParseString(Skip(s)) == Done(m.name, rest)
    requires At(Skip(rest), 0) == ':' && ParseValue(Skip(Skip(rest)[1..])) == Done(m.value, tail)
    ensures ParseMember(s) == Done(m, tail)
  {
    hide ParseNumber, ParseString, ParseValue;
  }

  lemma {:induction false} ObjectRoundTrip(members: seq<Member>, depth: nat, fmt: bool, post: string)
    requires Printable(Object(members))
    ensures ParseValue(Print(Object(members), depth, fmt) + post) == Done(Object(members), post)
    decreases members, 1
  {
    hide ParseNumber, ParseString, ParseValue, ParseMembers, ParseMember;
    hide Print, Members, Skip, Close, Quote, Label, AfterFirst;
    var s := Print(Object(members), depth, fmt) + post;
    if members == [] {
      EmptyObjectText(depth, fmt, post);
    } else {
      var close := Close(depth, fmt, post);
      ObjectText(members, depth, fmt, post);
      OpensQuote(members, depth + 1, fmt, close);
      SkipTwice(s[1..]);
      MembersRoundTrip(Skip(s[1..]), members, depth + 1, fmt, close, post);
    }
    ParseObjectStep(s, members, post);
  }

  lemma EmptyObjectText(depth: nat, fmt: bool, post: string)
    ensures var s := Print(Object([]), depth, fmt) + post; s[0] == '{' && After(Skip(s[1..]), '}', post)
  {
    var ws, q := When(fmt, "\n" + Tabs(depth - 1)), "}" + post;
    assert Print(Object([]), depth, fmt) == "{" + ws + "}";
    hide Print;
    TabsAreSpaces(depth - 1);
    assert Spaces(ws);
    hide Tabs, Spaces;
    Assoc("{" + ws, "}", post);
    Assoc("{", ws, q);
    SkipSpaces(ws, q);
    Cons('}', post);
    Cons('{', ws + q);
  }

  /** How an object ends, with what comes after it. */
  function Close(depth: nat, fmt: bool, post: string): string {
    When(fmt, Tabs(depth)) + ("}" + post)
  }

  lemma ObjectText(members: seq<Member>, depth: nat, fmt: bool, post: string)
    requires members != [] && Printable(Object(members))
    ensures var s := Print(Object(members), depth, fmt) + post;
      s[0] == '{' && Skip(s[1..]) == Skip(Members(members, depth + 1, fmt) + Close(depth, fmt, post))
    ensures After(Skip(Close(depth, fmt, post)), '}', post) && EndsNumber(Close(depth, fmt, post))
  {
    hide Members, Escape, Tabs;
    var nl, m, end, q := When(fmt, "\n"), Members(members, depth + 1, fmt), When(fmt, Tabs(depth)), "}" + post;
    assert Print(Object(members), depth, fmt) == "{" + nl + m + end + "}";
    Regroup("{", nl, m, end, "}", post);
    Cons('{', nl + (m + (end + q)));
    SkipSpaces(nl, m + (end + q)) by { assert Spaces(nl); }
    CloseText(depth, fmt, post);
  }

  lemma CloseText(depth: nat, fmt: bool, post: string)
    ensures After(Skip(Close(depth, fmt, post)), '}', post) && EndsNumber(Close(depth, fmt, post))
  {
    TabsAreSpaces(depth);
    SkipSpaces(When(fmt, Tabs(depth)), "}" + post);
    Cons('}', post);
  }

  /** What follows the label and the value of the first member. */
  ghost function AfterFirst(members: seq<Member>, depth: nat, fmt: bool, close: string): string
    requires members != [] && Printable(Object(members))
  {
    When(|members| > 1, ",") + (When(fmt, "\n") + (Members(members[1..], depth, fmt) + close))
  }

  lemma FirstMember(members: seq<Member>, depth: nat, fmt: bool, close: string)
    requires members != [] && Printable(Object(members))
    ensures Skip(Members(members, depth, fmt) + close) ==
      Quote(members[0].name) + (":" + (When(fmt, "\t") + (Print(members[0].value, depth, fmt) + AfterFirst(members, depth, fmt, close))))
    ensures Skip(Members(members, depth, fmt) + close)[0] == '"'
  {
    var tabs, name, tab := When(fmt, Tabs(depth)), Quote(members[0].name), When(fmt, "\t");
    var text, comma, nl := Print(members[0].value, depth, fmt), When(|members| > 1, ","), When(fmt, "\n");
    var others := Members(members[1..], depth, fmt);
    var lbl, tail := Label(members[0].name, depth, fmt), AfterFirst(members, depth, fmt, close);
    Assoc(lbl + text + comma + nl, others, close);
    Assoc(lbl + text + comma, nl, others + close);
    Assoc(lbl + text, comma, nl + (others + close));
    Assoc(lbl, text, tail);
    Assoc(tabs + name + ":", tab, text + tail);
    Assoc(tabs + name, ":", tab + (text + tail));
    Assoc(tabs, name, ":" + (tab + (text + tail)));
    TabsAreSpaces(depth);
    SkipSpaces(tabs, name + (":" + (tab + (text + tail))));
    assert name[0] == '"';
  }

  lemma OpensQuote(members: seq<Member>, depth: nat, fmt: bool, close: string)
    requires members != [] && Printable(Object(members))
    ensures At(Skip(Members(members, depth, fmt) + close), 0) == '"'
  {
    FirstMember(members, depth, fmt, close);
  }

  lemma AfterFirstText(members: seq<Member>, depth: nat, fmt: bool, close: string, post: string)
    requires members != [] && Printable(Object(members))
    requires After(Skip(close), '}', post) && EndsNumber(close)
    ensures var tail := AfterFirst(members, depth, fmt, close);
      && EndsNumber(tail)
      && if |members| == 1 then After(Skip(tail), '}', post)
         else Skip(tail) == tail && At(tail, 0) == ',' &&
              Skip(tail[1..]) == Skip(Members(members[1..], depth, fmt) + close)
  {
    var nl, others := When(fmt, "\n"), Members(members[1..], depth, fmt);
    assert |members| == 1 ==> others == "";
    hide Print, Members, Label;
    SkipSpaces(nl, others + close);
    if |members| == 1 {
      assert "" + close == close;
      assert "" + (nl + close) == nl + close;
    } else {
      Cons(',', nl + (others + close));
    }
  }

  lemma {:induction false} MembersRoundTrip(t: string, members: seq<Member>, depth: nat, fmt: bool, close: string, post: string)
    requires members != [] && Printable(Object(members))
    requires Skip(t) == Skip(Members(members, depth, fmt) + close)
    requires After(Skip(close), '}', post) && EndsNumber(close)
    ensures ParseMembers(t) == Done(members, post)
    decreases members, 0
  {
    hide ParseNumber, ParseString, ParseValue, ParseMembers, ParseMember, Print, Members, AfterFirst, Skip, Quote;
    var tail := AfterFirst(members, depth, fmt, close);
    FirstMember(members, depth, fmt, close);
    AfterFirstText(members, depth, fmt, close, post);
    MemberRoundTrip(t, members[0], depth, fmt, tail);
    if |members| > 1 {
      MembersRoundTrip(tail[1..], members[1..], depth, fmt, close, post);
    }
    ParseMembersStep(t, members[0], members[1..], tail, post);
    assert members == [members[0]] + members[1..];
  }

  lemma {:induction false} MemberRoundTrip(t: string, m: Member, depth: nat, fmt: bool, tail: string)
    requires Bytes(m.name) && Printable(m.value) && EndsNumber(tail)
    requires Skip(t) == Quote(m.name) + (":" + (When(fmt, "\t") + (Print(m.value, depth, fmt) + tail)))
    ensures ParseMember(t) == Done(m, tail)
    decreases m, 2
  {
    hide ParseNumber, ParseString, ParseValue, ParseMembers, ParseMember;
    var text := Print(m.value, depth, fmt) + tail;
    var rest := ":" + (When(fmt, "\t") + text);
    StringRoundTrip(m.name, rest);
    Cons(':', When(fmt, "\t") + text);
    SkipSpaces(When(fmt, "\t"), text);
    FirstOfPrint(m.value, depth, fmt);
    assert Skip(text) == text;
    ValueRoundTrip(m.value, depth, fmt, tail);
    ParseMemberStep(t, m, rest, tail);
  }

  /** `cJSON_Parse` of what `cJSON_Print` or `cJSON_PrintUnformatted` gives: all of the text is used,
      and the same value comes back. */
  lemma RoundTrip(v: Json, depth: nat, fmt: bool)
    requires Printable(v)
    ensures Parse(Print(v, depth, fmt), true) == Done(v, "")
  {
    ValueRoundTrip(v, depth, fmt, "");
    FirstOfPrint(v, depth, fmt);
    assert Print(v, depth, fmt) + "" == Print(v, depth, fmt);
  }
}
