/** JSON values and their text. Strings are NUL-free sequences of bytes, written as characters below
    256; a C pointer into a text is the suffix that starts there. */
module JsonText {

  datatype Json =
    | Null
    | False
    | True
    | Number(value: real)
    | Str(s: string)
    | Array(items: seq<Json>)
    | Object(members: seq<Member>)

  datatype Member = Member(name: string, value: Json)

  predicate Bytes(s: string) {
    forall c :: c in s ==> 0 < c as int < 256
  }

  predicate Int32(n: int) { -0x8000_0000 <= n < 0x8000_0000 }

  /** The values printed here: numbers are 32-bit integers, strings are C strings. */
  ghost predicate Printable(v: Json)
    decreases v, 0
  {
    match v
    case Number(x) => x == x.Floor as real && Int32(x.Floor)
    case Str(s) => Bytes(s)
    case Array(items) => forall i :: 0 <= i < |items| ==> Printable(items[i])
    case Object(members) => forall i :: 0 <= i < |members| ==> Bytes(members[i].name) && Printable(members[i].value)
    case _ => true
  }

  function HexDigit(d: int): char
    requires 0 <= d < 16
  {
    if d < 10 then '0' + d as char else 'a' + (d - 10) as char
  }

  /** `%04x` of a control character. */
  function Hex4(c: int): (s: string)
    requires 0 <= c < 256
    ensures |s| == 4
  {
    ['0', '0', HexDigit(c / 16), HexDigit(c % 16)]
  }

  const BS: char := 8 as char
  const FF: char := 12 as char

  function EscapeChar(c: char): (s: string)
    requires 0 < c as int < 256
    ensures Bytes(s) && 0 < |s| <= 6
  {
    if c == '"' then "\\\""
    else if c == '\\' then "\\\\"
    else if c == BS then "\\b"
    else if c == FF then "\\f"
    else if c == '\n' then "\\n"
    else if c == '\r' then "\\r"
    else if c == '\t' then "\\t"
    else if c as int < 32 then "\\u" + Hex4(c as int)
    else [c]
  }

  function Escape(s: string): (r: string)
    requires Bytes(s)
    ensures Bytes(r) && |r| >= |s|
  {
    if s == "" then ""
    else
      assert s[0] in s && forall c :: c in s[1..] ==> c in s;
      EscapeChar(s[0]) + Escape(s[1..])
  }

  function Quote(s: string): (r: string)
    requires Bytes(s)
    ensures Bytes(r)
  {
    "\"" + Escape(s) + "\""
  }

  function Digits(n: nat): (r: string)
    ensures r != "" && forall i :: 0 <= i < |r| ==> '0' <= r[i] <= '9'
  {
    (if n < 10 then "" else Digits(n / 10)) + ['0' + (n % 10) as char]
  }

  /** `%d` */
  function Decimal(n: int): (r: string)
    ensures r != "" && Bytes(r)
  {
    if n < 0 then "-" + Digits(-n) else Digits(n)
  }

  function Tabs(n: int): (r: string)
    ensures |r| == (if n < 0 then 0 else n) && Bytes(r)
  {
    if n <= 0 then "" else "\t" + Tabs(n - 1)
  }

  function When(b: bool, s: string): (r: string) { if b then s else "" }

  /** The text of a value at a nesting depth, formatted or not. */
  ghost function Print(v: Json, depth: nat, fmt: bool): (r: string)
    requires Printable(v)
    ensures r != "" && Bytes(r)
    decreases v, 1
  {
    match v
    case Null => "null"
    case False => "false"
    case True => "true"
    case Number(x) => Decimal(x.Floor)
    case Str(s) => Quote(s)
    case Array(items) => "[" + Elements(items, depth + 1, fmt) + "]"
    case Object(members) =>
      if members == [] then "{" + When(fmt, "\n" + Tabs(depth - 1)) + "}"
      else "{" + When(fmt, "\n") + Members(members, depth + 1, fmt) + When(fmt, Tabs(depth)) + "}"
  }

  ghost function Elements(items: seq<Json>, depth: nat, fmt: bool): (r: string)
    requires forall i :: 0 <= i < |items| ==> Printable(items[i])
    ensures Bytes(r)
    decreases items, 0
  {
    if items == [] then ""
    else
      Print(items[0], depth, fmt) +
      (if |items| == 1 then "" else "," + When(fmt, " ") + Elements(items[1..], depth, fmt))
  }

  ghost function Members(members: seq<Member>, depth: nat, fmt: bool): (r: string)
    requires forall i :: 0 <= i < |members| ==> Bytes(members[i].name) && Printable(members[i].value)
    ensures Bytes(r)
    decreases members, 0
  {
    if members == [] then ""
    else
      Label(members[0].name, depth, fmt) + Print(members[0].value, depth, fmt) +
      When(|members| > 1, ",") + When(fmt, "\n") + Members(members[1..], depth, fmt)
  }

  function Label(name: string, depth: nat, fmt: bool): (r: string)
    requires Bytes(name)
    ensures Bytes(r)
  {
    When(fmt, Tabs(depth)) + Quote(name) + ":" + When(fmt, "\t")
  }
}
