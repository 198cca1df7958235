/** What minifying keeps: the unformatted text of a value, and the meaning of every text. */
module JsonMinified {
  import opened Common
  import opened JsonText
  import opened JsonMinify

  /** In front of `post`, minifying turns `w` into `k`. */
  ghost predicate Becomes(w: string, k: string, post: string) {
    Minify(w + post) == k + Minify(post) && (Closed(post) ==> Closed(w + post))
  }

  lemma Chain(a: string, a': string, b: string, b': string, post: string)
    requires Becomes(a, a', b + post) && Becomes(b, b', post)
    ensures Becomes(a + b, a' + b', post)
  {
    hide Minify, Closed;
    Assoc(a, b, post);
    Assoc(a', b', Minify(post));
  }

  predicate Plain(c: char) { !Blank(c) && c != '"' && c != '/' }

  lemma {:induction false} PlainStays(w: string, post: string)
    requires forall c :: c in w ==> Plain(c)
    ensures Becomes(w, w, post)
  {
    if w == "" {
      assert w + post == post && "" + Minify(post) == Minify(post);
    } else {
      assert w[0] in w && forall c :: c in w[1..] ==> c in w;
      PlainStays(w[1..], post);
      var s := w + post;
      assert s[1..] == w[1..] + post && s[..1] == [w[0]];
      assert Minify(s) == [w[0]] + Minify(w[1..] + post);
      Assoc([w[0]], w[1..], Minify(post));
      assert w == [w[0]] + w[1..];
    }
  }

  lemma {:induction false} BlanksGo(w: string, post: string)
    requires forall c :: c in w ==> Blank(c)
    ensures Becomes(w, "", post)
  {
    if w == "" {
      assert w + post == post;
    } else {
      assert w[0] in w && forall c :: c in w[1..] ==> c in w;
      BlanksGo(w[1..], post);
      assert (w + post)[1..] == w[1..] + post;
    }
  }

  lemma {:induction false} EscapedLiteral(s: string, q: string)
    requires Bytes(s) && q != "" && q[0] == '"'
    ensures LiteralCloses(Escape(s) + q) && LiteralLength(Escape(s) + q) == |Escape(s)| + 1
  {
    if s == "" {
      assert Escape(s) + q == q;
    } else {
      assert s[0] in s && forall c :: c in s[1..] ==> c in s;
      EscapedLiteral(s[1..], q);
      EscapedChar(s[0], Escape(s[1..]) + q);
      Assoc(EscapeChar(s[0]), Escape(s[1..]), q);
    }
  }

  lemma EscapedChar(c: char, t: string)
    requires 0 < c as int < 256 && LiteralCloses(t)
    ensures LiteralCloses(EscapeChar(c) + t) && LiteralLength(EscapeChar(c) + t) == |EscapeChar(c)| + LiteralLength(t)
  {
    var e, s := EscapeChar(c), EscapeChar(c) + t;
    if |e| == 6 {
      var h := Hex4(c as int);
      assert s[2..] == h + t;
      HexLiteral(h, t);
    } else if |e| == 2 {
      assert s[2..] == t;
    } else {
      assert s[1..] == t;
    }
  }

  lemma HexLiteral(h: string, t: string)
    requires |h| == 4 && LiteralCloses(t) && forall c :: c in h ==> c != '"' && c != '\\'
    ensures LiteralCloses(h + t) && LiteralLength(h + t) == 4 + LiteralLength(t)
  {
    var s := h + t;
    assert s[0] == h[0] && s[1] == h[1] && s[2] == h[2] && s[3] == h[3];
    assert h[0] in h && h[1] in h && h[2] in h && h[3] in h;
    assert s[1..][1..] == s[2..] && s[2..][1..] == s[3..] && s[3..][1..] == s[4..] == t;
    assert LiteralCloses(s[3..]) && LiteralLength(s[3..]) == 1 + LiteralLength(t);
    assert LiteralCloses(s[2..]) && LiteralLength(s[2..]) == 2 + LiteralLength(t);
    assert LiteralCloses(s[1..]) && LiteralLength(s[1..]) == 3 + LiteralLength(t);
  }

  lemma QuoteStays(s: string, post: string)
    requires Bytes(s)
    ensures Becomes(Quote(s), Quote(s), post)
  {
    var e, q, t := Escape(s), "\"" + post, Quote(s) + post;
    EscapedLiteral(s, q);
    Assoc("\"" + e, "\"", post);
    Assoc("\"", e, q);
    hide Escape, Minify, Closed;
    assert t[0] == '"' && t[1..] == e + q;
    var k := 1 + LiteralLength(t[1..]);
    assert k == |Quote(s)| && t[..k] == Quote(s) && t[k..] == post;
    MinifyLiteral(t);
  }

  lemma MinifyLiteral(t: string)
    requires t != "" && t[0] == '"' && LiteralCloses(t[1..])
    ensures var k := 1 + LiteralLength(t[1..]); Minify(t) == t[..k] + Minify(t[k..]) && (Closed(t[k..]) ==> Closed(t))
  {
  }

  lemma DigitsPlain(n: int)
    ensures forall c :: c in Decimal(n) ==> Plain(c)
  {
    var d := Digits(if n < 0 then -n else n);
    forall c | c in d ensures Plain(c) {
      var i :| 0 <= i < |d| && d[i] == c;
    }
  }

  lemma {:induction false} TabsBlank(n: int)
    ensures forall c :: c in Tabs(n) ==> Blank(c)
  {
    if n > 0 {
      TabsBlank(n - 1);
    }
  }

  /** Minifying the formatted text of a value gives its unformatted text. */
  lemma {:induction false} PrintMinified(v: Json, depth: nat, d: nat, post: string)
    requires Printable(v)
    ensures Becomes(Print(v, depth, true), Print(v, d, false), post)
    decreases v, 1
  {
    hide Minify, Closed, Becomes, Bytes;
    match v
    case Null => PlainStays("null", post);
    case False => PlainStays("false", post);
    case True => PlainStays("true", post);
    case Number(x) =>
      DigitsPlain(x.Floor);
      PlainStays(Decimal(x.Floor), post);
    case Str(s) => QuoteStays(s, post);
    case Array(items) =>
      var e, e' := Elements(items, depth + 1, true), Elements(items, d + 1, false);
      PlainStays("]", post);
      ElementsMinified(items, depth + 1, d + 1, "]" + post);
      PlainStays("[", e + ("]" + post));
      Chain("[", "[", e, e', "]" + post);
      Chain("[" + e, "[" + e', "]", "]", post);
    case Object(members) => ObjectMinified(members, depth, d, post);
  }

  lemma {:induction false} ElementsMinified(items: seq<Json>, depth: nat, d: nat, q: string)
    requires Printable(Array(items))
    ensures Becomes(Elements(items, depth, true), Elements(items, d, false), q)
    decreases items, 0
  {
    if items == [] {
      PlainStays("", q);
    } else {
      var t, t' := Print(items[0], depth, true), Print(items[0], d, false);
      var o, o' := Elements(items[1..], depth, true), Elements(items[1..], d, false);
      assert |items| > 1 ==> Elements(items, depth, true) == t + ("," + " " + o) && Elements(items, d, false) == t' + ("," + "" + o');
      assert |items| == 1 ==> Elements(items, depth, true) == t && Elements(items, d, false) == t';
      hide Minify, Closed, Becomes, Bytes, Elements, Print;
      if |items| > 1 {
        ElementsMinified(items[1..], depth, d, q);
        BlanksGo(" ", o + q);
        PlainStays(",", " " + (o + q));
        Chain(",", ",", " ", "", o + q);
        Chain("," + " ", "," + "", o, o', q);
        PrintMinified(items[0], depth, d, "," + " " + o + q);
        Chain(t, t', "," + " " + o, "," + "" + o', q);
      } else {
        PrintMinified(items[0], depth, d, q);
      }
    }
  }

  lemma {:induction false} ObjectMinified(members: seq<Member>, depth: nat, d: nat, post: string)
    requires Printable(Object(members))
    ensures Becomes(Print(Object(members), depth, true), Print(Object(members), d, false), post)
    decreases members, 1
  {
    var ws := if members == [] then "\n" + Tabs(depth - 1) else Tabs(depth);
    TabsBlank(depth - 1);
    TabsBlank(depth);
    assert forall c :: c in ws ==> Blank(c);
    PlainStays("}", post);
    BlanksGo(ws, "}" + post);
    Chain(ws, "", "}", "}", post);
    assert "" + "}" == "}";
    if members == [] {
      assert Print(Object(members), depth, true) == "{" + (ws + "}") by { Assoc("{", ws, "}"); }
      assert Print(Object(members), d, false) == "{" + "}" by { assert "{" + "" == "{"; }
      hide Print, Tabs, Becomes, Minify, Closed;
      PlainStays("{", ws + "}" + post);
      Chain("{", "{", ws + "}", "}", post);
    } else {
      FullObjectMinified(members, depth, d, ws, post);
    }
  }

  lemma {:induction false} FullObjectMinified(members: seq<Member>, depth: nat, d: nat, ws: string, post: string)
    requires Printable(Object(members)) && members != [] && ws == Tabs(depth) && Becomes(ws + "}", "}", post)
    ensures Becomes(Print(Object(members), depth, true), Print(Object(members), d, false), post)
    decreases members, 0, 1
  {
    var m, m' := Members(members, depth + 1, true), Members(members, d + 1, false);
    assert Print(Object(members), depth, true) == "{" + "\n" + m + (ws + "}") by { Assoc("{" + "\n" + m, ws, "}"); }
    assert Print(Object(members), d, false) == "{" + "" + m' + "}" by { assert "{" + "" + m' + "" == "{" + "" + m'; }
    hide Print, Members, Tabs, Becomes, Minify, Closed, Bytes;
    MembersMinified(members, depth + 1, d + 1, ws + "}" + post);
    BlanksGo("\n", m + (ws + "}" + post));
    PlainStays("{", "\n" + (m + (ws + "}" + post)));
    Chain("{", "{", "\n", "", m + (ws + "}" + post));
    Chain("{" + "\n", "{" + "", m, m', ws + "}" + post);
    Chain("{" + "\n" + m, "{" + "" + m', ws + "}", "}", post);
  }

  lemma {:induction false} MembersMinified(members: seq<Member>, depth: nat, d: nat, q: string)
    requires Printable(Object(members))
    ensures Becomes(Members(members, depth, true), Members(members, d, false), q)
    decreases members, 0, 0
  {
    if members == [] {
      PlainStays("", q);
    } else {
      var m := members[0];
      var comma := When(|members| > 1, ",");
      var l, t, o := Label(m.name, depth, true), Print(m.value, depth, true), Members(members[1..], depth, true);
      var l', t', o' := Label(m.name, d, false), Print(m.value, d, false), Members(members[1..], d, false);
      assert Members(members, depth, true) == l + t + comma + "\n" + o;
      assert Members(members, d, false) == l' + t' + comma + "" + o';
      hide Print, Members, Becomes, Minify, Closed, Bytes, Label;
      MembersMinified(members[1..], depth, d, q);
      BlanksGo("\n", o + q);
      PlainStays(comma, "\n" + (o + q));
      PrintMinified(m.value, depth, d, comma + ("\n" + (o + q)));
      LabelMinified(m.name, depth, d, t + (comma + ("\n" + (o + q))));
      Chain(l, l', t, t', comma + ("\n" + (o + q)));
      Chain(l + t, l' + t', comma, comma, "\n" + (o + q));
      Chain(l + t + comma, l' + t' + comma, "\n", "", o + q);
      Chain(l + t + comma + "\n", l' + t' + comma + "", o, o', q);
    }
  }

  lemma LabelMinified(name: string, depth: nat, d: nat, post: string)
    requires Bytes(name)
    ensures Becomes(Label(name, depth, true), Label(name, d, false), post)
  {
    hide Becomes, Minify, Closed;
    var tabs, n := Tabs(depth), Quote(name);
    TabsBlank(depth);
    BlanksGo("\t", post);
    PlainStays(":", "\t" + post);
    QuoteStays(name, ":" + ("\t" + post));
    BlanksGo(tabs, n + (":" + ("\t" + post)));
    Chain(tabs, "", n, n, ":" + ("\t" + post));
    Chain(tabs + n, "" + n, ":", ":", "\t" + post);
    Chain(tabs + n + ":", "" + n + ":", "\t", "", post);
  }

  /** `cJSON_Minify` of what `cJSON_Print` gives is what `cJSON_PrintUnformatted` gives. */
  lemma MinifiedIsUnformatted(v: Json)
    requires Printable(v)
    ensures Closed(Print(v, 0, true)) && Minify(Print(v, 0, true)) == Print(v, 0, false)
  {
    PrintMinified(v, 0, 0, "");
    assert Print(v, 0, true) + "" == Print(v, 0, true) && Print(v, 0, false) + "" == Print(v, 0, false);
  }
}
