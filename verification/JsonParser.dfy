/** The parser's own loops, each proved to compute the function of JsonParse that describes it. */
module JsonParser {
  import opened Common
  import opened JsonText
  import opened JsonParse
  import opened JsonRoundTrip
  import opened JsonStrings

  /** Outside of strings: no NUL before the end, and every literal is well formed. */
  predicate Tidy(s: string)
    decreases |s|
  {
    s == "" || (s[0] != NUL && if s[0] == '"' then WellFormed(s[1..]) && Tidy(Literal(s[1..]).1) else Tidy(s[1..]))
  }

  /** Characters that open no string can be passed over. */
  lemma {:induction false} TidyAfter(s: string, k: nat)
    requires Tidy(s) && k <= |s| && forall i :: 0 <= i < k ==> s[i] != '"'
    ensures Tidy(s[k..])
  {
    if k > 0 {
      assert s[1..][k - 1..] == s[k..];
      TidyAfter(s[1..], k - 1);
    } else {
      assert s[0..] == s;
    }
  }

  /** `skip` */
  method SkipText(s: string) returns (in_: string)
    ensures in_ == Skip(s) && (Tidy(s) ==> Tidy(in_))
  {
    in_ := s;
    while At(in_, 0) != NUL && At(in_, 0) as int <= 32
      invariant Skip(in_) == Skip(s) && (Tidy(s) ==> Tidy(in_))
      decreases |in_|
    {
      in_ := in_[1..];
    }
  }

  lemma ScaleTwice(x: real, a: int, b: int)
    ensures Scale(Scale(x, a), b) == Scale(x, a + b)
    decreases if a < 0 then -a else a
  {
    ScaleNone(x);
    hide Scale;
    if a > 0 {
      ScaleTwice(x, a - 1, b);
      ScaleStep(x, a - 1);
      ScaleTen(Scale(x, a - 1), b);
      ScaleStep(x, a + b - 1);
    } else if a < 0 {
      ScaleTwice(x, a + 1, b);
      ScaleStep(x, a);
      ScaleTen(Scale(x, a), b);
      ScaleStep(x, a + b);
    }
  }

  lemma ScaleNone(x: real)
    ensures Scale(x, 0) == x
  {
  }

  lemma ScaleStep(x: real, e: int)
    ensures Scale(x, e + 1) == 10.0 * Scale(x, e)
  {
  }

  lemma ScaleTen(x: real, e: int)
    ensures Scale(10.0 * x, e) == 10.0 * Scale(x, e)
    decreases if e < 0 then -e else e
  {
    if e > 0 {
      ScaleTen(x, e - 1);
    } else if e < 0 {
      ScaleTen(x, e + 1);
    }
  }

  lemma ScaleSum(x: real, y: real, e: int)
    ensures Scale(x + y, e) == Scale(x, e) + Scale(y, e)
    decreases if e < 0 then -e else e
  {
    if e > 0 {
      ScaleSum(x, y, e - 1);
    } else if e < 0 {
      ScaleSum(x, y, e + 1);
    }
  }

  lemma ValueOfMore(s: string, k: nat)
    requires k < |s| && forall i :: 0 <= i <= k ==> IsDigit(s[i])
    ensures Value(s[..k + 1]) == Value(s[..k]) * 10 + (s[k] as int - '0' as int)
  {
    assert s[..k + 1][..k] == s[..k];
  }

  lemma {:induction false} RunEnds(s: string, k: nat)
    requires k <= |s| && (forall i :: 0 <= i < k ==> IsDigit(s[i])) && !IsDigit(At(s, k))
    ensures Run(s) == k
  {
    if k > 0 {
      assert IsDigit(s[0]);
      forall i | 0 <= i < k - 1 ensures IsDigit(s[1..][i]) {
        assert IsDigit(s[i + 1]);
      }
      RunEnds(s[1..], k - 1);
    }
  }

  /** Digits, taken into `n` one after the other. */
  method ReadDigits(s: string, n0: real) returns (n: real, count: nat, num: string)
    requires Tidy(s)
    ensures count == Run(s) && num == s[count..] && Tidy(num)
    ensures n == Scale(n0, count) + Value(s[..count]) as real
  {
    n, count, num := n0, 0, s;
    assert s[..0] == "";
    while IsDigit(At(num, 0))
      invariant count <= |s| && num == s[count..] && Tidy(num)
      invariant forall i :: 0 <= i < count ==> IsDigit(s[i])
      invariant n == Scale(n0, count) + Value(s[..count]) as real
      decreases |num|
    {
      assert IsDigit(s[count]);
      ValueOfMore(s, count);
      ScaleStep(n0, count);
      n := n * 10.0 + (num[0] as int - '0' as int) as real;
      count, num := count + 1, num[1..];
    }
    RunEnds(s, count);
  }

  lemma DigitPassed(s: string)
    requires Tidy(s) && IsDigit(At(s, 0))
    ensures s != "" && Tidy(s[1..])
  {
  }

  method ReadInteger(s: string) returns (subscale: int, num: string)
    requires Tidy(s)
    ensures num == s[Run(s)..] && Tidy(num) && subscale == Value(s[..Run(s)])
  {
    ghost var count := 0;
    subscale, num := 0, s;
    assert s[..0] == "" && Value("") == 0;
    hide Tidy, Value, Run;
    while IsDigit(At(num, 0))
      invariant 0 <= count <= |s| && num == s[count..] && Tidy(num)
      invariant forall i :: 0 <= i < count ==> IsDigit(s[i])
      invariant subscale == Value(s[..count])
      decreases |num|
    {
      assert IsDigit(s[count]);
      ValueOfMore(s, count);
      DigitPassed(num);
      assert num[1..] == s[count + 1..];
      subscale := subscale * 10 + (num[0] as int - '0' as int);
      num := num[1..];
      count := count + 1;
    }
    RunEnds(s, count);
  }

  lemma ScaleZero(e: int)
    ensures Scale(0.0, e) == 0.0
    decreases if e < 0 then -e else e
  {
    if e > 0 {
      ScaleZero(e - 1);
    } else if e < 0 {
      ScaleZero(e + 1);
    }
  }

  method ReadWhole(s: string) returns (n: real, num: string)
    requires Tidy(s)
    ensures n == Value(WholeOf(s).0) as real && num == WholeOf(s).1 && Tidy(num)
  {
    n, num := 0.0, s;
    if At(num, 0) == '0' {
      num := num[1..];
    }
    if '1' <= At(num, 0) <= '9' {
      var count;
      n, count, num := ReadDigits(num, n);
      ScaleZero(count);
    }
  }

  /** The digits after a point go on where those before it stopped, and count the scale down. */
  method ReadFraction(s: string, n0: real) returns (n: real, scale: int, num: string)
    requires Tidy(s)
    ensures var (digits, rest) := FractionOf(s);
      num == rest && Tidy(num) && scale == -|digits| && n == Scale(n0, |digits|) + Value(digits) as real
  {
    n, scale, num := n0, 0, s;
    if At(num, 0) == '.' && IsDigit(At(num, 1)) {
      var count;
      n, count, num := ReadDigits(num[1..], n);
      scale := scale - count;
    }
  }

  method ReadExponent(s: string) returns (subscale: int, signsubscale: int, num: string)
    requires Tidy(s)
    ensures (signsubscale == 1 || signsubscale == -1) && (subscale * signsubscale, num) == ExponentOf(s) && Tidy(num)
  {
    subscale, signsubscale, num := 0, 1, s;
    if At(num, 0) == 'e' || At(num, 0) == 'E' {
      assert Drop(s, 1) == s[1..] && Drop(s, 2) == Drop(s[1..], 1);
      num := num[1..];
      if At(num, 0) == '+' {
        num := num[1..];
      } else if At(num, 0) == '-' {
        signsubscale, num := -1, num[1..];
      }
      subscale, num := ReadInteger(num);
    }
  }

  lemma OneScale(whole: real, fraction: real, k: int, e: int)
    ensures Scale(Scale(whole, k) + fraction, -k + e) == Scale(whole + Scale(fraction, -k), e)
  {
    ScaleTwice(Scale(whole, k) + fraction, -k, e);
    ScaleSum(Scale(whole, k), fraction, -k);
    ScaleTwice(whole, k, -k);
  }

  /** `parse_number`: the digits of whole part and fraction run into one number, scaled at the end. */
  method ParseNumberText(s: string) returns (r: Parsed<Json>)
    requires Tidy(s) && s != "" && (s[0] == '-' || IsDigit(s[0]))
    ensures r == ParseNumber(s) && Tidy(r.rest)
  {
    hide WholeOf, FractionOf, ExponentOf, Value, Scale;
    var num, negative := s, false;
    if At(num, 0) == '-' {
      negative, num := true, num[1..];
    }
    var n, scale, subscale, signsubscale;
    n, num := ReadWhole(num);
    ghost var w, f := n, FractionOf(num).0;
    n, scale, num := ReadFraction(num, n);
    subscale, signsubscale, num := ReadExponent(num);
    OneScale(w, Value(f) as real, |f|, subscale * signsubscale);
    n := Scale(n, scale + subscale * signsubscale);
    r := Done(Number(if negative then -n else n), num);
  }

  /** `parse_value` */
  method ParseValueText(s: string) returns (r: Parsed<Json>)
    requires Tidy(s)
    ensures r == ParseValue(s) && (r.Done? ==> Tidy(r.rest))
    decreases |s|, 1
  {
    hide ParseNumber, ParseString, Literal, Skip, WellFormed;
    if Starts(s, "null") {
      TidyWord(s, "null");
      r := Done(Null, s[4..]);
    } else if Starts(s, "false") {
      TidyWord(s, "false");
      r := Done(False, s[5..]);
    } else if Starts(s, "true") {
      TidyWord(s, "true");
      r := Done(True, s[4..]);
    } else if At(s, 0) == '"' {
      var t := ParseStringText(s);
      r := Done(Str(t.value), t.rest);
    } else if At(s, 0) == '-' || IsDigit(At(s, 0)) {
      r := ParseNumberText(s);
    } else if At(s, 0) == '[' {
      r := ParseArrayText(s);
    } else if At(s, 0) == '{' {
      r := ParseObjectText(s);
    } else {
      r := Fail(s);
    }
  }

  lemma TidyWord(s: string, word: string)
    requires Tidy(s) && Starts(s, word) && '"' !in word
    ensures |word| <= |s| && Tidy(s[|word|..])
  {
    if word != "" {
      assert '"' !in word[1..] by { assert forall c :: c in word[1..] ==> c in word; }
      assert word[0] in word;
      TidyWord(s[1..], word[1..]);
      assert s[1..][|word| - 1..] == s[|word|..];
    }
  }

  method ParseStringText(s: string) returns (r: Parsed<string>)
    requires Tidy(s)
    ensures r == ParseString(s) && (r.Done? ==> Tidy(r.rest))
    ensures At(s, 0) == '"' ==> r.Done?
  {
    hide WellFormed;
    r := ParseText(s);
  }

  /** The array whose first items are read, from the text after them. */
  ghost function ArrayFrom(items: seq<Json>, s: string): Parsed<Json> {
    if At(s, 0) == ',' then
      (match ParseElements(s[1..])
       case Fail(at) => Fail(at)
       case Done(vs, rest) => Done(Array(items + vs), rest))
    else if At(s, 0) == ']' then Done(Array(items), s[1..])
    else Fail(s)
  }

  lemma OneMoreItem(items: seq<Json>, s: string)
    requires At(s, 0) == ','
    ensures var r := ParseValue(Skip(s[1..]));
      ArrayFrom(items, s) == if r.Fail? then Fail(r.at) else ArrayFrom(items + [r.value], Skip(r.rest))
  {
    hide ParseValue, Skip;
    var r := ParseValue(Skip(s[1..]));
    if r.Done? && At(Skip(r.rest), 0) == ',' {
      var q := ParseElements(Skip(r.rest)[1..]);
      if q.Done? {
        assert items + ([r.value] + q.value) == items + [r.value] + q.value;
      }
    }
  }

  /** `parse_array` */
  method ParseArrayText(s: string) returns (r: Parsed<Json>)
    requires Tidy(s) && At(s, 0) == '['
    ensures r == ParseArray(s) && (r.Done? ==> Tidy(r.rest))
    decreases |s|, 0
  {
    hide ParseValue, Skip, WellFormed, Literal;
    var value := SkipText(s[1..]);
    if At(value, 0) == ']' {
      return Done(Array([]), value[1..]);
    }
    ArrayStart(s, value);
    SkipNotLonger(s[1..]);
    SkipNotLonger(value);
    value := SkipText(value);
    var child := ParseValueText(value);
    if child.Fail? {
      return Fail(child.at);
    }
    var items := [child.value];
    SkipNotLonger(child.rest);
    value := SkipText(child.rest);
    while At(value, 0) == ','
      invariant Tidy(value) && |value| < |s|
      invariant ArrayFrom(items, value) == ParseArray(s)
      decreases |value|
    {
      OneMoreItem(items, value);
      SkipNotLonger(value[1..]);
      value := SkipText(value[1..]);
      child := ParseValueText(value);
      if child.Fail? {
        return Fail(child.at);
      }
      items := items + [child.value];
      SkipNotLonger(child.rest);
      value := SkipText(child.rest);
    }
    r := if At(value, 0) == ']' then Done(Array(items), value[1..]) else Fail(value);
  }

  lemma SkipNotLonger(s: string)
    ensures |Skip(s)| <= |s|
  {
  }

  lemma ArrayStart(s: string, t: string)
    requires At(s, 0) == '[' && t == Skip(s[1..]) && At(t, 0) != ']'
    ensures var r := ParseValue(Skip(t));
      ParseArray(s) == if r.Fail? then Fail(r.at) else ArrayFrom([r.value], Skip(r.rest))
  {
    hide ParseValue, Skip;
  }

  ghost function ObjectFrom(members: seq<Member>, s: string): Parsed<Json> {
    if At(s, 0) == ',' then
      (match ParseMembers(s[1..])
       case Fail(at) => Fail(at)
       case Done(ms, rest) => Done(Object(members + ms), rest))
    else if At(s, 0) == '}' then Done(Object(members), s[1..])
    else Fail(s)
  }

  lemma OneMoreMember(members: seq<Member>, s: string)
    requires At(s, 0) == ','
    ensures var r := ParseMember(s[1..]);
      ObjectFrom(members, s) == if r.Fail? then Fail(r.at) else ObjectFrom(members + [r.value], Skip(r.rest))
  {
    hide ParseMember, Skip;
    var r := ParseMember(s[1..]);
    if r.Done? && At(Skip(r.rest), 0) == ',' {
      var q := ParseMembers(Skip(r.rest)[1..]);
      if q.Done? {
        assert members + ([r.value] + q.value) == members + [r.value] + q.value;
      }
    }
  }

  lemma ObjectStart(s: string, t: string)
    requires At(s, 0) == '{' && t == Skip(s[1..]) && At(t, 0) != '}'
    ensures var r := ParseMember(t);
      ParseObject(s) == if r.Fail? then Fail(r.at) else ObjectFrom([r.value], Skip(r.rest))
  {
    hide ParseMember, Skip;
  }

  /** A name, a colon and a value: the part that `parse_object` writes out twice. */
  method ParseMemberText(s: string) returns (r: Parsed<Member>)
    requires Tidy(s)
    ensures r == ParseMember(s) && (r.Done? ==> Tidy(r.rest))
    decreases |s|, 2
  {
    hide ParseValue, ParseString, Skip, WellFormed, Literal;
    var value := SkipText(s);
    SkipNotLonger(s);
    var name := ParseStringText(value);
    if name.Fail? {
      return Fail(name.at);
    }
    value := SkipText(name.rest);
    SkipNotLonger(name.rest);
    if At(value, 0) != ':' {
      return Fail(value);
    }
    SkipNotLonger(value[1..]);
    value := SkipText(value[1..]);
    var child := ParseValueText(value);
    r := if child.Fail? then Fail(child.at) else Done(Member(name.value, child.value), child.rest);
  }

  /** `parse_object` */
  method ParseObjectText(s: string) returns (r: Parsed<Json>)
    requires Tidy(s) && At(s, 0) == '{'
    ensures r == ParseObject(s) && (r.Done? ==> Tidy(r.rest))
    decreases |s|, 0
  {
    hide ParseMember, Skip, WellFormed, Literal;
    var value := SkipText(s[1..]);
    if At(value, 0) == '}' {
      return Done(Object([]), value[1..]);
    }
    ObjectStart(s, value);
    SkipNotLonger(s[1..]);
    var child := ParseMemberText(value);
    if child.Fail? {
      return Fail(child.at);
    }
    var members := [child.value];
    SkipNotLonger(child.rest);
    value := SkipText(child.rest);
    while At(value, 0) == ','
      invariant Tidy(value) && |value| < |s|
      invariant ObjectFrom(members, value) == ParseObject(s)
      decreases |value|
    {
      OneMoreMember(members, value);
      child := ParseMemberText(value[1..]);
      if child.Fail? {
        return Fail(child.at);
      }
      members := members + [child.value];
      SkipNotLonger(child.rest);
      value := SkipText(child.rest);
    }
    r := if At(value, 0) == '}' then Done(Object(members), value[1..]) else Fail(value);
  }

  /** `cJSON_ParseWithOpts` */
  method ParseWithOpts(text: string, requireEnd: bool) returns (r: Parsed<Json>)
    requires Tidy(text)
    ensures r == Parse(text, requireEnd)
  {
    var value := SkipText(text);
    r := ParseValueText(value);
    if r.Done? && requireEnd {
      var end := SkipText(r.rest);
      if At(end, 0) != NUL {
        r := Fail(end);
      }
    }
  }

  lemma {:induction false} PlainIsTidy(word: string, post: string)
    requires Bytes(word) && '"' !in word && Tidy(post)
    ensures Tidy(word + post)
  {
    if word == "" {
      assert word + post == post;
    } else {
      assert word[0] in word && forall c :: c in word[1..] ==> c in word;
      PlainIsTidy(word[1..], post);
      assert (word + post)[1..] == word[1..] + post;
    }
  }

  lemma {:induction false} EscapeIsWellFormed(s: string, q: string)
    requires Bytes(s) && q != "" && q[0] == '"'
    ensures WellFormed(Escape(s) + q)
  {
    if s == "" {
      assert Escape(s) + q == q;
    } else {
      assert s[0] in s && forall c :: c in s[1..] ==> c in s;
      EscapeIsWellFormed(s[1..], q);
      CharIsWellFormed(s[0], Escape(s[1..]) + q);
      Assoc(EscapeChar(s[0]), Escape(s[1..]), q);
    }
  }

  lemma CharIsWellFormed(c: char, t: string)
    requires 0 < c as int < 256 && WellFormed(t)
    ensures WellFormed(EscapeChar(c) + t)
  {
    var e, s := EscapeChar(c), EscapeChar(c) + t;
    if |e| == 6 {
      var h := Hex4(c as int);
      HexDigitRoundTrip(c as int / 16);
      HexDigitRoundTrip(c as int % 16);
      assert s[2..] == h + t && Drop(s, 6) == t;
      assert FourHex(h + t);
    } else if |e| == 2 {
      assert s[2..] == t;
    } else {
      assert s[1..] == t;
    }
  }

  lemma QuoteIsTidy(s: string, post: string)
    requires Bytes(s) && Tidy(post)
    ensures Tidy(Quote(s) + post)
  {
    var q := "\"" + post;
    EscapeIsWellFormed(s, q);
    StringBodyRoundTrip(s, q);
    Cons('"', post);
    Assoc("\"" + Escape(s), "\"", post);
    Assoc("\"", Escape(s), q);
    Cons('"', Escape(s) + q);
  }

  lemma DigitsArePlain(n: nat)
    ensures '"' !in Digits(n) && Bytes(Digits(n))
  {
    forall c | c in Digits(n) ensures c != '"' && 0 < c as int < 256 {
      var i :| 0 <= i < |Digits(n)| && Digits(n)[i] == c;
    }
  }

  lemma {:induction false} TabsArePlain(n: int)
    ensures '"' !in Tabs(n)
  {
    if n > 0 {
      TabsArePlain(n - 1);
    }
  }

  lemma WrappedIsTidy(open: string, text: string, close: string, post: string)
    requires Bytes(open) && '"' !in open && Tidy(text + (close + post))
    ensures Tidy(open + text + close + post)
  {
    hide Tidy;
    PlainIsTidy(open, text + (close + post));
    Assoc(open + text, close, post);
    Assoc(open, text, close + post);
  }

  lemma EmptyObjectIsTidy(depth: nat, fmt: bool, post: string)
    requires Tidy(post)
    ensures Tidy(Print(Object([]), depth, fmt) + post)
  {
    hide Tidy;
    var ws := When(fmt, "\n" + Tabs(depth - 1));
    PlainIsTidy("}", post);
    TabsArePlain(depth - 1);
    PlainIsTidy("{" + ws, "}" + post);
    Assoc("{" + ws, "}", post);
  }

  lemma ObjectEndIsTidy(depth: nat, fmt: bool, post: string)
    requires Tidy(post)
    ensures Tidy(When(fmt, Tabs(depth)) + ("}" + post))
  {
    hide Tidy;
    TabsArePlain(depth);
    PlainIsTidy("}", post);
    PlainIsTidy(When(fmt, Tabs(depth)), "}" + post);
  }

  lemma ObjectIsTidy(members: seq<Member>, depth: nat, fmt: bool, post: string)
    requires members != [] && Printable(Object(members))
    requires Tidy(Members(members, depth + 1, fmt) + (When(fmt, Tabs(depth)) + ("}" + post)))
    ensures Tidy(Print(Object(members), depth, fmt) + post)
  {
    hide Tidy;
    var nl, m, end := When(fmt, "\n"), Members(members, depth + 1, fmt), When(fmt, Tabs(depth));
    WrappedIsTidy("{" + nl, m, end, "}" + post);
    Assoc("{" + nl + m + end, "}", post);
  }

  /** The parser may be given whatever the printers make. */
  lemma {:induction false} PrintIsTidy(v: Json, depth: nat, fmt: bool, post: string)
    requires Printable(v) && Tidy(post)
    ensures Tidy(Print(v, depth, fmt) + post)
    decreases v, 1
  {
    hide Tidy;
    match v
    case Null => PlainIsTidy("null", post);
    case False => PlainIsTidy("false", post);
    case True => PlainIsTidy("true", post);
    case Number(x) =>
      DigitsArePlain(if x.Floor < 0 then -x.Floor else x.Floor);
      PlainIsTidy(Decimal(x.Floor), post);
    case Str(s) => QuoteIsTidy(s, post);
    case Array(items) =>
      var e := Elements(items, depth + 1, fmt);
      PlainIsTidy("]", post);
      ElementsAreTidy(items, depth + 1, fmt, "]" + post);
      WrappedIsTidy("[", e, "]", post);
    case Object(members) =>
      if members == [] {
        EmptyObjectIsTidy(depth, fmt, post);
      } else {
        var rest := When(fmt, Tabs(depth)) + ("}" + post);
        ObjectEndIsTidy(depth, fmt, post);
        MembersAreTidy(members, depth + 1, fmt, rest);
        ObjectIsTidy(members, depth, fmt, post);
      }
  }

  lemma {:induction false} ElementsAreTidy(items: seq<Json>, depth: nat, fmt: bool, q: string)
    requires Printable(Array(items)) && Tidy(q)
    ensures Tidy(Elements(items, depth, fmt) + q)
    decreases items, 0
  {
    hide Tidy;
    if items == [] {
      assert Elements(items, depth, fmt) + q == q;
    } else {
      var sep, others := When(fmt, " "), Elements(items[1..], depth, fmt);
      if |items| > 1 {
        ElementsAreTidy(items[1..], depth, fmt, q);
        PlainIsTidy(sep, others + q);
        PlainIsTidy(",", sep + (others + q));
      }
      PrintIsTidy(items[0], depth, fmt, AfterElement(items, depth, fmt, q));
      FirstElement(items, depth, fmt, q);
    }
  }

  lemma {:induction false} MembersAreTidy(members: seq<Member>, depth: nat, fmt: bool, q: string)
    requires Printable(Object(members)) && Tidy(q)
    ensures Tidy(Members(members, depth, fmt) + q)
    decreases members, 0
  {
    hide Tidy;
    if members == [] {
      assert Members(members, depth, fmt) + q == q;
    } else {
      var tabs, name, tab := When(fmt, Tabs(depth)), Quote(members[0].name), When(fmt, "\t");
      var text, comma, nl := Print(members[0].value, depth, fmt), When(|members| > 1, ","), When(fmt, "\n");
      var others := Members(members[1..], depth, fmt);
      assert Members(members, depth, fmt) == tabs + name + ":" + tab + text + comma + nl + others;
      MembersAreTidy(members[1..], depth, fmt, q);
      PlainIsTidy(nl, others + q);
      PlainIsTidy(comma, nl + (others + q));
      PrintIsTidy(members[0].value, depth, fmt, comma + (nl + (others + q)));
      PlainIsTidy(tab, text + (comma + (nl + (others + q))));
      PlainIsTidy(":", tab + (text + (comma + (nl + (others + q)))));
      QuoteIsTidy(members[0].name, ":" + (tab + (text + (comma + (nl + (others + q))))));
      TabsArePlain(depth);
      PlainIsTidy(tabs, name + (":" + (tab + (text + (comma + (nl + (others + q)))))));
      Assoc(tabs + name + ":" + tab + text + comma + nl, others, q);
      Assoc(tabs + name + ":" + tab + text + comma, nl, others + q);
      Assoc(tabs + name + ":" + tab + text, comma, nl + (others + q));
      Assoc(tabs + name + ":" + tab, text, comma + (nl + (others + q)));
      Assoc(tabs + name + ":", tab, text + (comma + (nl + (others + q))));
      Assoc(tabs + name, ":", tab + (text + (comma + (nl + (others + q)))));
      Assoc(tabs, name, ":" + (tab + (text + (comma + (nl + (others + q))))));
    }
  }
}
