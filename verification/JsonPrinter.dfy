/** The allocating printer: it measures, allocates what it measured and fills it. */
module JsonPrinter {
  import opened Common
  import opened JsonText
  import opened JsonParse

  /** The memory holds the text as a C string. */
  ghost predicate Holds(a: array<char>, s: string)
    reads a
  {
    Bytes(s) && |s| < a.Length && a[..|s|] == s && a[|s|] == NUL
  }

  method StrLen(a: array<char>, ghost s: string) returns (n: nat)
    requires Holds(a, s)
    ensures n == |s|
  {
    n := 0;
    assert forall i :: 0 <= i < |s| ==> a[..|s|][i] in s;
    while a[n] != NUL
      invariant 0 <= n <= |s|
      decreases |s| - n
    {
      n := n + 1;
    }
  }

  /** `*ptr++ = c` for the characters of a text, or `memcpy`. */
  method Put(out: array<char>, at: nat, s: string) returns (ptr: nat)
    requires at + |s| <= out.Length
    modifies out
    ensures ptr == at + |s| && out[..ptr] == old(out[..at]) + s
  {
    ptr := at;
    var i := 0;
    while i < |s|
      invariant 0 <= i <= |s| && ptr == at + i
      invariant out[..ptr] == old(out[..at]) + s[..i]
    {
      out[ptr] := s[i];
      ptr, i := ptr + 1, i + 1;
    }
    assert s[..i] == s;
  }

  method Copy(out: array<char>, at: nat, src: array<char>, n: nat) returns (ptr: nat)
    requires n <= src.Length && at + n <= out.Length && out != src
    modifies out
    ensures ptr == at + n && out[..ptr] == old(out[..at]) + src[..n]
  {
    ptr := at;
    var i := 0;
    while i < n
      invariant 0 <= i <= n && ptr == at + i
      invariant out[..ptr] == old(out[..at]) + src[..i]
    {
      out[ptr] := src[i];
      ptr, i := ptr + 1, i + 1;
    }
  }

  method PutTabs(out: array<char>, at: nat, n: int) returns (ptr: nat)
    requires at + |Tabs(n)| <= out.Length
    modifies out
    ensures ptr == at + |Tabs(n)| && out[..ptr] == old(out[..at]) + Tabs(n)
  {
    ptr := at;
    var j := 0;
    while j < n
      invariant 0 <= j && (n < 0 ==> j == 0) && (n >= 0 ==> j <= n) && ptr == at + j
      invariant out[..ptr] == old(out[..at]) + Tabs(j)
    {
      out[ptr] := '\t';
      ptr, j := ptr + 1, j + 1;
      TabsMore(j);
    }
  }

  lemma {:induction false} TabsMore(n: int)
    requires n > 0
    ensures Tabs(n) == Tabs(n - 1) + "\t"
  {
    if n > 1 {
      TabsMore(n - 1);
    }
  }

  /** A closed string: what is written so far, and the terminator. */
  method Terminate(out: array<char>, ptr: nat, ghost s: string)
    requires ptr < out.Length && Bytes(s) && out[..ptr] == s
    modifies out
    ensures Holds(out, s)
  {
    out[ptr] := NUL;
    assert out[..ptr] == s;
  }

  lemma {:induction false} DigitsLength(n: nat, k: nat)
    requires k > 0 && n < Power(k)
    ensures |Digits(n)| <= k
  {
    if n >= 10 {
      DigitsLength(n / 10, k - 1);
    }
  }

  ghost function Power(k: nat): (p: nat)
    ensures p > 0
  {
    if k == 0 then 1 else 10 * Power(k - 1)
  }

  /** `sprintf("%d")` of a 32-bit integer fits in the 21 characters allocated for it. */
  lemma IntegersFit(n: int)
    requires Int32(n)
    ensures |Decimal(n)| <= 11
  {
    assert Power(2) == 100 && Power(4) == 10000 && Power(6) == 1000000 && Power(8) == 100000000 && Power(10) == 10000000000;
    DigitsLength(if n < 0 then -n else n, 10);
  }

  /** `print_number`, for the numbers that are 32-bit integers. */
  method PrintNumber(x: real) returns (out: array<char>)
    requires Printable(Number(x))
    ensures fresh(out) && Holds(out, Print(Number(x), 0, false))
  {
    var n := x.Floor;
    IntegersFit(n);
    var ptr;
    if x == 0.0 {
      out := new char[2];
      ptr := Put(out, 0, "0");
      Terminate(out, ptr, "0");
    } else {
      out := new char[21];
      ptr := Put(out, 0, Decimal(n));
      Terminate(out, ptr, Decimal(n));
    }
  }

  predicate Flagged(c: char) { 0 < c as int < 32 || c == '"' || c == '\\' }

  lemma {:induction false} UnflaggedIsItself(s: string)
    requires Bytes(s) && forall i :: 0 <= i < |s| ==> !Flagged(s[i])
    ensures Escape(s) == s
  {
    if s != "" {
      SuffixBytes(s, 1);
      UnflaggedIsItself(s[1..]);
      assert s[0] in s;
      Unescaped(s[0]);
      hide EscapeChar;
      assert s == [s[0]] + s[1..];
    }
  }

  lemma Unescaped(c: char)
    requires 0 < c as int < 256 && !Flagged(c)
    ensures EscapeChar(c) == [c]
  {
  }

  lemma SuffixBytes(s: string, k: nat)
    requires Bytes(s) && k <= |s|
    ensures Bytes(s[k..])
  {
    forall c | c in s[k..] ensures c in s {
      var i :| 0 <= i < |s| - k && s[k..][i] == c;
      assert s[k + i] == c;
    }
  }

  lemma BytesOf(s: string, k: nat)
    requires Bytes(s) && k < |s|
    ensures Bytes(s[k..]) && Bytes(s[k + 1..]) && 0 < s[k] as int < 256
    ensures Escape(s[k..]) == EscapeChar(s[k]) + Escape(s[k + 1..])
  {
    SuffixBytes(s, k);
    SuffixBytes(s, k + 1);
    assert s[k] in s && s[k..][1..] == s[k + 1..];
  }

  /** The measuring pass over a string with characters to escape. */
  method EscapedLength(s: string) returns (len: nat)
    requires Bytes(s)
    ensures len == |Escape(s)|
  {
    len := 0;
    var i := 0;
    assert s[0..] == s && s[|s|..] == "" && Escape("") == "";
    hide Escape, Bytes;
    while i < |s|
      invariant 0 <= i <= |s| && Bytes(s[i..])
      invariant len + |Escape(s[i..])| == |Escape(s)|
    {
      BytesOf(s, i);
      var token := s[i];
      len := len + 1;
      if token in "\"\\\n\r\t" || token == BS || token == FF {
        len := len + 1;
      } else if token as int < 32 {
        len := len + 5;
      }
      i := i + 1;
    }
  }

  /** The escaping pass. */
  method PutEscaped(out: array<char>, at: nat, s: string) returns (ptr: nat)
    requires Bytes(s) && at + |Escape(s)| <= out.Length
    modifies out
    ensures ptr == at + |Escape(s)| && out[..ptr] == old(out[..at]) + Escape(s)
  {
    ptr := at;
    var i := 0;
    assert s[0..] == s && Escape("") == "";
    hide EscapeChar, Escape;
    while i < |s|
      invariant 0 <= i <= |s| && Bytes(s[i..])
      invariant at <= ptr && ptr + |Escape(s[i..])| == at + |Escape(s)|
      invariant out[..ptr] + Escape(s[i..]) == old(out[..at]) + Escape(s)
    {
      BytesOf(s, i);
      Assoc(out[..ptr], EscapeChar(s[i]), Escape(s[i + 1..]));
      var c := s[i];
      ptr := PutChar(out, ptr, c);
      i := i + 1;
    }
    assert out[..ptr] + "" == out[..ptr];
  }

  method PutChar(out: array<char>, at: nat, c: char) returns (ptr: nat)
    requires 0 < c as int < 256 && at + |EscapeChar(c)| <= out.Length
    modifies out
    ensures ptr == at + |EscapeChar(c)| && out[..ptr] == old(out[..at]) + EscapeChar(c)
  {
    if c as int > 31 && c != '"' && c != '\\' {
      ptr := Put(out, at, [c]);
    } else {
      ptr := PutEscape(out, at, c);
    }
  }

  method PutEscape(out: array<char>, at: nat, token: char) returns (ptr: nat)
    requires 0 < token as int < 256 && Flagged(token) && at + |EscapeChar(token)| <= out.Length
    modifies out
    ensures ptr == at + |EscapeChar(token)| && out[..ptr] == old(out[..at]) + EscapeChar(token)
  {
    ptr := Put(out, at, "\\");
    match token
    case '\\' => ptr := Put(out, ptr, "\\");
    case '"' => ptr := Put(out, ptr, "\"");
    case '\n' => ptr := Put(out, ptr, "n");
    case '\r' => ptr := Put(out, ptr, "r");
    case '\t' => ptr := Put(out, ptr, "t");
    case _ =>
      if token == BS {
        ptr := Put(out, ptr, "b");
      } else if token == FF {
        ptr := Put(out, ptr, "f");
      } else {
        ptr := Put(out, ptr, "u" + Hex4(token as int));
      }
  }

  /** The first pass of `print_string_ptr`: whether anything has to be escaped. */
  method NeedsEscapes(s: string) returns (flag: bool)
    requires Bytes(s)
    ensures !flag ==> Escape(s) == s
  {
    flag := false;
    var i := 0;
    while i < |s|
      invariant 0 <= i <= |s|
      invariant flag <==> exists k :: 0 <= k < i && Flagged(s[k])
    {
      flag := flag || Flagged(s[i]);
      i := i + 1;
    }
    if !flag {
      UnflaggedIsItself(s);
    }
  }

  /** The length to allocate, without the quotes and the terminator. */
  method MeasureString(s: string, flag: bool) returns (len: nat)
    requires Bytes(s) && (!flag ==> Escape(s) == s)
    ensures len == |Escape(s)|
  {
    if flag {
      len := EscapedLength(s);
    } else {
      len := |s|;
    }
  }

  /** The last pass: copied as it is, or escaped, between quotes and with the terminator. */
  method PutString(out: array<char>, at: nat, s: string, flag: bool) returns (ptr: nat)
    requires Bytes(s) && (!flag ==> Escape(s) == s) && at + |Escape(s)| + 3 <= out.Length
    modifies out
    ensures ptr == at + |Quote(s)| && out[..ptr] == old(out[..at]) + Quote(s) && out[ptr] == NUL
  {
    hide Escape;
    ghost var text := Escape(s);
    ptr := Put(out, at, "\"");
    if flag {
      ptr := PutEscaped(out, ptr, s);
    } else {
      ptr := Put(out, ptr, s);
    }
    assert out[..ptr] == old(out[..at]) + "\"" + text;
    ptr := Put(out, ptr, "\"");
    out[ptr] := NUL;
    assert out[..ptr] == old(out[..at]) + "\"" + text + "\"";
    Assoc(old(out[..at]) + "\"", text, "\"");
    Assoc(old(out[..at]), "\"", text + "\"");
    Assoc("\"", text, "\"");
  }

  /** `print_string_ptr` */
  method PrintString(s: string) returns (out: array<char>)
    requires Bytes(s)
    ensures fresh(out) && Holds(out, Quote(s))
  {
    hide Escape;
    var flag := NeedsEscapes(s);
    var len := MeasureString(s, flag);
    out := new char[len + 3];
    var ptr := PutString(out, 0, s, flag);
  }

  /** What the measuring pass of `print_array` adds up. */
  ghost function ElementsSize(items: seq<Json>, depth: nat, fmt: bool): (n: nat)
    requires Printable(Array(items))
  {
    if items == [] then 0
    else |Print(items[0], depth, fmt)| + 2 + (if fmt then 1 else 0) + ElementsSize(items[1..], depth, fmt)
  }

  lemma {:induction false} ElementsFit(items: seq<Json>, depth: nat, fmt: bool)
    requires Printable(Array(items))
    ensures |Elements(items, depth, fmt)| <= ElementsSize(items, depth, fmt)
  {
    hide Print;
    if items != [] {
      ElementsFit(items[1..], depth, fmt);
    }
  }

  /** The rest of the elements, from index `i` on. */
  lemma ElementsFrom(items: seq<Json>, i: nat, depth: nat, fmt: bool)
    requires Printable(Array(items)) && i < |items|
    ensures Elements(items[i..], depth, fmt) ==
      Print(items[i], depth, fmt) + When(i + 1 < |items|, "," + When(fmt, " ")) + Elements(items[i + 1..], depth, fmt)
    ensures ElementsSize(items[i..], depth, fmt) ==
      |Print(items[i], depth, fmt)| + 2 + (if fmt then 1 else 0) + ElementsSize(items[i + 1..], depth, fmt)
  {
    hide Print;
    assert items[i..][1..] == items[i + 1..];
  }

  /** `print_value` without a buffer */
  method PrintValue(v: Json, depth: nat, fmt: bool) returns (out: array<char>)
    requires Printable(v)
    ensures fresh(out) && Holds(out, Print(v, depth, fmt))
    decreases v, 1
  {
    match v
    case Null => out := Dup("null");
    case False => out := Dup("false");
    case True => out := Dup("true");
    case Number(x) => out := PrintNumber(x);
    case Str(s) => out := PrintString(s);
    case Array(items) => out := PrintArray(items, depth, fmt);
    case Object(members) => out := PrintObject(members, depth, fmt);
  }

  /** `cJSON_strdup` */
  method Dup(s: string) returns (out: array<char>)
    requires Bytes(s)
    ensures fresh(out) && Holds(out, s)
  {
    out := new char[|s| + 1];
    var ptr := Put(out, 0, s);
    Terminate(out, ptr, s);
  }

  /** The measuring pass of `print_array`: all the entries, and the room that they need. */
  method PrintEntries(items: seq<Json>, depth: nat, fmt: bool) returns (entries: seq<array<char>>, len: nat)
    requires Printable(Array(items))
    ensures |entries| == |items|
    ensures forall k :: 0 <= k < |items| ==> fresh(entries[k]) && Holds(entries[k], Print(items[k], depth, fmt))
    ensures len == 5 + ElementsSize(items, depth, fmt)
    decreases items, 0
  {
    hide Print, Holds, ElementsSize;
    entries, len := [], 5;
    var i := 0;
    assert items[0..] == items;
    NoElements(depth, fmt);
    while i < |items|
      invariant 0 <= i <= |items| && |entries| == i
      invariant forall k :: 0 <= k < i ==> fresh(entries[k]) && Holds(entries[k], Print(items[k], depth, fmt))
      invariant len + ElementsSize(items[i..], depth, fmt) == 5 + ElementsSize(items, depth, fmt)
    {
      ElementsFrom(items, i, depth, fmt);
      var ret, n := PrintEntry(items[i], depth, fmt);
      entries := entries + [ret];
      len := len + n + 2 + if fmt then 1 else 0;
      i := i + 1;
    }
  }

  method PrintEntry(v: Json, depth: nat, fmt: bool) returns (ret: array<char>, n: nat)
    requires Printable(v)
    ensures fresh(ret) && Holds(ret, Print(v, depth, fmt)) && n == |Print(v, depth, fmt)|
    decreases v, 2
  {
    hide Print;
    ret := PrintValue(v, depth, fmt);
    n := StrLen(ret, Print(v, depth, fmt));
  }

  /** The composing pass: the entries between commas. */
  method PutElements(out: array<char>, at: nat, entries: seq<array<char>>, ghost items: seq<Json>, ghost depth: nat, fmt: bool)
    returns (ptr: nat)
    requires Printable(Array(items)) && |entries| == |items| && out !in entries
    requires forall k :: 0 <= k < |items| ==> Holds(entries[k], Print(items[k], depth, fmt))
    requires at + |Elements(items, depth, fmt)| <= out.Length
    modifies out
    ensures ptr == at + |Elements(items, depth, fmt)| && out[..ptr] == old(out[..at]) + Elements(items, depth, fmt)
  {
    hide Print, Elements;
    ptr := at;
    var i := 0;
    assert items[0..] == items;
    NoElements(depth, fmt);
    while i < |entries|
      invariant 0 <= i <= |items|
      invariant at <= ptr && ptr + |Elements(items[i..], depth, fmt)| == at + |Elements(items, depth, fmt)|
      invariant out[..ptr] + Elements(items[i..], depth, fmt) == old(out[..at]) + Elements(items, depth, fmt)
    {
      ghost var text, sep := Print(items[i], depth, fmt), When(i + 1 < |items|, "," + When(fmt, " "));
      ElementsFrom(items, i, depth, fmt);
      Assoc(out[..ptr], text + sep, Elements(items[i + 1..], depth, fmt));
      Assoc(out[..ptr], text, sep);
      var tmplen := StrLen(entries[i], text);
      ptr := Copy(out, ptr, entries[i], tmplen);
      if i != |entries| - 1 {
        ptr := PutComma(out, ptr, fmt);
      }
      i := i + 1;
    }
  }

  method PutComma(out: array<char>, at: nat, fmt: bool) returns (ptr: nat)
    requires at + |"," + When(fmt, " ")| <= out.Length
    modifies out
    ensures ptr == at + |"," + When(fmt, " ")| && out[..ptr] == old(out[..at]) + ("," + When(fmt, " "))
  {
    ptr := Put(out, at, ",");
    if fmt {
      ptr := Put(out, ptr, " ");
    }
  }

  lemma NoElements(depth: nat, fmt: bool)
    ensures Elements([], depth, fmt) == "" && ElementsSize([], depth, fmt) == 0 && Members([], depth, fmt) == ""
  {
  }

  /** `print_array` */
  method PrintArray(items: seq<Json>, depth: nat, fmt: bool) returns (out: array<char>)
    requires Printable(Array(items))
    ensures fresh(out) && Holds(out, Print(Array(items), depth, fmt))
    decreases items, 1
  {
    var ptr;
    if items == [] {
      NoElements(depth + 1, fmt);
      out := new char[3];
      ptr := Put(out, 0, "[]");
      Terminate(out, ptr, "[]");
      return;
    }
    ElementsFit(items, depth + 1, fmt);
    hide Print, Elements, Holds;
    var entries, len := PrintEntries(items, depth + 1, fmt);
    out := new char[len];
    ComposeArray(out, entries, items, depth, fmt);
  }

  method ComposeArray(out: array<char>, entries: seq<array<char>>, ghost items: seq<Json>, ghost depth: nat, fmt: bool)
    requires Printable(Array(items)) && |entries| == |items| && out !in entries
    requires forall k :: 0 <= k < |items| ==> Holds(entries[k], Print(items[k], depth + 1, fmt))
    requires |Elements(items, depth + 1, fmt)| + 3 <= out.Length
    modifies out
    ensures Holds(out, Print(Array(items), depth, fmt))
  {
    ghost var text, whole := Elements(items, depth + 1, fmt), Print(Array(items), depth, fmt);
    assert whole == "[" + text + "]";
    hide Print, Elements, Bytes, Printable, Holds;
    assert out[..0] == "";
    var ptr := Put(out, 0, "[");
    assert out[..ptr] == "[";
    ptr := PutElements(out, ptr, entries, items, depth + 1, fmt);
    assert out[..ptr] == "[" + text;
    ptr := Put(out, ptr, "]");
    assert out[..ptr] == whole;
    Terminate(out, ptr, whole);
  }

  /** What the measuring pass of `print_object` adds up; the depth is that of the members. */
  ghost function MembersSize(members: seq<Member>, depth: nat, fmt: bool): (n: nat)
    requires Printable(Object(members))
  {
    if members == [] then 0
    else
      |Print(members[0].value, depth, fmt)| + |Quote(members[0].name)| + 2 + (if fmt then 2 + depth else 0) +
      MembersSize(members[1..], depth, fmt)
  }

  lemma {:induction false} MembersFit(members: seq<Member>, depth: nat, fmt: bool)
    requires Printable(Object(members))
    ensures |Members(members, depth, fmt)| <= MembersSize(members, depth, fmt)
  {
    hide Print, Quote;
    if members != [] {
      MembersFit(members[1..], depth, fmt);
    }
  }

  lemma NoSize(depth: nat, fmt: bool)
    ensures MembersSize([], depth, fmt) == 0
  {
  }

  ghost function MemberText(members: seq<Member>, i: nat, depth: nat, fmt: bool): string
    requires Printable(Object(members)) && i < |members|
  {
    Label(members[i].name, depth, fmt) + Print(members[i].value, depth, fmt) + When(i + 1 < |members|, ",") + When(fmt, "\n")
  }

  lemma MembersFrom(members: seq<Member>, i: nat, depth: nat, fmt: bool)
    requires Printable(Object(members)) && i < |members|
    ensures Members(members[i..], depth, fmt) == MemberText(members, i, depth, fmt) + Members(members[i + 1..], depth, fmt)
    ensures MembersSize(members[i..], depth, fmt) ==
      |Print(members[i].value, depth, fmt)| + |Quote(members[i].name)| + 2 + (if fmt then 2 + depth else 0) +
      MembersSize(members[i + 1..], depth, fmt)
  {
    hide Print, Quote, Label;
    assert members[i..][1..] == members[i + 1..];
  }

  ghost predicate AllHold(names: seq<array<char>>, entries: seq<array<char>>, members: seq<Member>, i: nat,
                          depth: nat, fmt: bool)
    requires Printable(Object(members))
    reads names, entries
  {
    |names| == |entries| == i <= |members| &&
    (forall k :: 0 <= k < i ==>
      Holds(names[k], Quote(members[k].name)) && Holds(entries[k], Print(members[k].value, depth, fmt)))
  }

  /** The name and the value of one member, and what they add to the length. */
  method PrintMember(m: Member, depth: nat, fmt: bool) returns (str: array<char>, ret: array<char>, size: nat)
    requires Bytes(m.name) && Printable(m.value)
    ensures fresh(str) && fresh(ret) && Holds(str, Quote(m.name)) && Holds(ret, Print(m.value, depth, fmt))
    ensures size == |Print(m.value, depth, fmt)| + |Quote(m.name)| + 2 + if fmt then 2 + depth else 0
    decreases m, 2
  {
    hide Print, Quote;
    str := PrintString(m.name);
    ret := PrintValue(m.value, depth, fmt);
    var k := StrLen(str, Quote(m.name));
    var n := StrLen(ret, Print(m.value, depth, fmt));
    size := n + k + 2 + if fmt then 2 + depth else 0;
  }

  lemma OneMoreHolds(names: seq<array<char>>, entries: seq<array<char>>, members: seq<Member>, i: nat, depth: nat, fmt: bool,
                     str: array<char>, ret: array<char>)
    requires Printable(Object(members)) && i < |members| && AllHold(names, entries, members, i, depth, fmt)
    requires Holds(str, Quote(members[i].name)) && Holds(ret, Print(members[i].value, depth, fmt))
    ensures AllHold(names + [str], entries + [ret], members, i + 1, depth, fmt)
  {
    hide Print, Quote, Holds;
  }

  /** The measuring pass of `print_object`. */
  method PrintMembers(members: seq<Member>, depth: nat, fmt: bool)
    returns (names: seq<array<char>>, entries: seq<array<char>>, len: nat)
    requires Printable(Object(members))
    ensures AllHold(names, entries, members, |members|, depth, fmt) && fresh(names) && fresh(entries)
    ensures len == 7 + (if fmt then depth else 0) + MembersSize(members, depth, fmt)
    decreases members, 0
  {
    hide Print, Quote, MembersSize, Holds, Escape, Bytes;
    names, entries, len := [], [], 7 + if fmt then depth else 0;
    var i := 0;
    assert AllHold(names, entries, members, i, depth, fmt);
    hide AllHold;
    assert members[0..] == members;
    NoSize(depth, fmt);
    while i < |members|
      invariant 0 <= i <= |members| && AllHold(names, entries, members, i, depth, fmt) && fresh(names) && fresh(entries)
      invariant len + MembersSize(members[i..], depth, fmt) ==
        7 + (if fmt then depth else 0) + MembersSize(members, depth, fmt)
    {
      MembersFrom(members, i, depth, fmt);
      var str, ret, size := PrintMember(members[i], depth, fmt);
      OneMoreHolds(names, entries, members, i, depth, fmt, str, ret);
      names, entries := names + [str], entries + [ret];
      len := len + size;
      i := i + 1;
    }
  }

  /** One member, composed. */
  method PutMember(out: array<char>, at: nat, name: array<char>, entry: array<char>, last: bool, depth: nat, fmt: bool,
                   ghost members: seq<Member>, ghost i: nat) returns (ptr: nat)
    requires Printable(Object(members)) && i < |members| && last == (i + 1 == |members|)
    requires Holds(name, Quote(members[i].name)) && Holds(entry, Print(members[i].value, depth, fmt))
    requires out != name && out != entry && at + |MemberText(members, i, depth, fmt)| <= out.Length
    modifies out
    ensures ptr == at + |MemberText(members, i, depth, fmt)|
    ensures out[..ptr] == old(out[..at]) + MemberText(members, i, depth, fmt)
  {
    hide Print, Quote, Tabs, Bytes;
    ghost var tabs, n, tab := When(fmt, Tabs(depth)), Quote(members[i].name), When(fmt, "\t");
    ghost var text, comma, nl := Print(members[i].value, depth, fmt), When(!last, ","), When(fmt, "\n");
    ghost var done := out[..at];
    assert MemberText(members, i, depth, fmt) == tabs + n + ":" + tab + text + comma + nl;
    Regrouped(done, tabs, n, ":", tab, text, comma, nl);
    ptr := at;
    if fmt {
      ptr := PutTabs(out, ptr, depth);
    }
    assert out[..ptr] == done + tabs;
    var tmplen := StrLen(name, n);
    ptr := Copy(out, ptr, name, tmplen);
    ptr := Put(out, ptr, ":");
    if fmt {
      ptr := Put(out, ptr, "\t");
    }
    assert out[..ptr] == done + tabs + n + ":" + tab;
    tmplen := StrLen(entry, text);
    ptr := Copy(out, ptr, entry, tmplen);
    if !last {
      ptr := Put(out, ptr, ",");
    }
    assert out[..ptr] == done + tabs + n + ":" + tab + text + comma;
    if fmt {
      ptr := Put(out, ptr, "\n");
    }
  }

  lemma Regrouped(done: string, a: string, b: string, c: string, d: string, e: string, f: string, g: string)
    ensures done + a + b + c + d + e + f + g == done + (a + b + c + d + e + f + g)
  {
    Assoc(done, a, b);
    Assoc(done, a + b, c);
    Assoc(done, a + b + c, d);
    Assoc(done, a + b + c + d, e);
    Assoc(done, a + b + c + d + e, f);
    Assoc(done, a + b + c + d + e + f, g);
  }

  /** The composing pass of `print_object`. */
  method PutMembers(out: array<char>, at: nat, names: seq<array<char>>, entries: seq<array<char>>,
                    ghost members: seq<Member>, depth: nat, fmt: bool) returns (ptr: nat)
    requires Printable(Object(members)) && AllHold(names, entries, members, |members|, depth, fmt)
    requires out !in names && out !in entries && at + |Members(members, depth, fmt)| <= out.Length
    modifies out
    ensures ptr == at + |Members(members, depth, fmt)| && out[..ptr] == old(out[..at]) + Members(members, depth, fmt)
  {
    hide Print, Members, MemberText, Quote;
    ptr := at;
    var i := 0;
    assert members[0..] == members;
    NoElements(depth, fmt);
    while i < |entries|
      invariant 0 <= i <= |members|
      invariant at <= ptr && ptr + |Members(members[i..], depth, fmt)| == at + |Members(members, depth, fmt)|
      invariant out[..ptr] + Members(members[i..], depth, fmt) == old(out[..at]) + Members(members, depth, fmt)
    {
      MembersFrom(members, i, depth, fmt);
      Assoc(out[..ptr], MemberText(members, i, depth, fmt), Members(members[i + 1..], depth, fmt));
      ptr := PutMember(out, ptr, names[i], entries[i], i == |entries| - 1, depth, fmt, members, i);
      i := i + 1;
    }
  }

  /** `print_object` with no members; the depth is still that of the object. */
  method PrintEmptyObject(depth: nat, fmt: bool) returns (out: array<char>)
    ensures fresh(out) && Holds(out, Print(Object([]), depth, fmt))
  {
    var ptr;
    out := new char[if fmt then depth + 4 else 3];
    ptr := Put(out, 0, "{");
    if fmt {
      ptr := Put(out, ptr, "\n");
      ptr := PutTabs(out, ptr, depth - 1);
      Assoc("{", "\n", Tabs(depth - 1));
    }
    ptr := Put(out, ptr, "}");
    Terminate(out, ptr, Print(Object([]), depth, fmt));
  }

  /** `print_object` */
  method PrintObject(members: seq<Member>, depth: nat, fmt: bool) returns (out: array<char>)
    requires Printable(Object(members))
    ensures fresh(out) && Holds(out, Print(Object(members), depth, fmt))
    decreases members, 1
  {
    if members == [] {
      out := PrintEmptyObject(depth, fmt);
      return;
    }
    MembersFit(members, depth + 1, fmt);
    hide Print, Members;
    var names, entries, len := PrintMembers(members, depth + 1, fmt);
    out := new char[len];
    ComposeObject(out, names, entries, members, depth, fmt);
  }

  method ComposeObject(out: array<char>, names: seq<array<char>>, entries: seq<array<char>>,
                       ghost members: seq<Member>, depth: nat, fmt: bool)
    requires Printable(Object(members)) && members != [] && AllHold(names, entries, members, |members|, depth + 1, fmt)
    requires out !in names && out !in entries
    requires |Members(members, depth + 1, fmt)| + 7 + (if fmt then depth + 1 else 0) <= out.Length
    modifies out
    ensures Holds(out, Print(Object(members), depth, fmt))
  {
    ghost var text, whole := Members(members, depth + 1, fmt), Print(Object(members), depth, fmt);
    assert whole == "{" + When(fmt, "\n") + text + When(fmt, Tabs(depth)) + "}";
    hide Print, Members, AllHold, Bytes, Tabs, Holds, Printable;
    var ptr := PutOpening(out, fmt);
    ptr := PutMembers(out, ptr, names, entries, members, depth + 1, fmt);
    ptr := PutClosing(out, ptr, depth, fmt);
    Terminate(out, ptr, whole);
  }

  method PutOpening(out: array<char>, fmt: bool) returns (ptr: nat)
    requires out.Length > 2
    modifies out
    ensures ptr == 1 + |When(fmt, "\n")| && out[..ptr] == "{" + When(fmt, "\n")
  {
    ptr := Put(out, 0, "{");
    if fmt {
      ptr := Put(out, ptr, "\n");
    }
  }

  method PutClosing(out: array<char>, at: nat, depth: nat, fmt: bool) returns (ptr: nat)
    requires at + |When(fmt, Tabs(depth))| < out.Length
    modifies out
    ensures ptr == at + |When(fmt, Tabs(depth))| + 1 && out[..ptr] == old(out[..at]) + When(fmt, Tabs(depth)) + "}"
  {
    ptr := at;
    if fmt {
      ptr := PutTabs(out, ptr, depth);
    }
    assert out[..ptr] == old(out[..at]) + When(fmt, Tabs(depth));
    ptr := Put(out, ptr, "}");
  }
}
