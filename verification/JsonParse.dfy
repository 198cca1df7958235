/** The recursive-descent parser: first as functions from a text to a value and the text left over,
    then as the loops of the original, each proved to compute its function. */
module JsonParse {
  import opened JsonText

  /** `Fail` carries the text at the place of the error. */
  datatype Parsed<T> = Fail(at: string) | Done(value: T, rest: string)

  const NUL: char := 0 as char

  /** The character a pointer `k` on from `s` points to; at the end of the text there is a NUL. */
  function At(s: string, k: nat): char {
    if k < |s| then s[k] else NUL
  }

  /** The pointer `k` on from `s`. */
  function Drop(s: string, k: nat): (r: string)
    ensures |r| == if k <= |s| then |s| - k else 0
  {
    if k <= |s| then s[k..] else ""
  }

  predicate IsDigit(c: char) { '0' <= c <= '9' }

  function Skip(s: string): (r: string)
    ensures |r| <= |s| && (r != "" ==> r[0] == NUL || r[0] as int > 32)
  {
    if s != "" && 0 < s[0] as int <= 32 then Skip(s[1..]) else s
  }

  function Value(digits: string): (n: int)
    requires forall i :: 0 <= i < |digits| ==> IsDigit(digits[i])
    ensures n >= 0
  {
    if digits == "" then 0
    else
      assert IsDigit(digits[|digits| - 1]);
      Value(digits[..|digits| - 1]) * 10 + (digits[|digits| - 1] as int - '0' as int)
  }

  /** The digits at the front of a text. */
  function Run(s: string): (n: nat)
    ensures n <= |s| && (forall i :: 0 <= i < n ==> IsDigit(s[i])) && !IsDigit(At(s, n))
  {
    if s != "" && IsDigit(s[0]) then 1 + Run(s[1..]) else 0
  }

  /** `x` times the `e`-th power of ten. */
  function Scale(x: real, e: int): (r: real)
    decreases if e < 0 then -e else e
  {
    if e == 0 then x else if e > 0 then 10.0 * Scale(x, e - 1) else Scale(x, e + 1) / 10.0
  }

  /** A number, read as it is defined: sign, digits, fraction digits, exponent. */
  datatype Numeral = Numeral(negative: bool, whole: string, fraction: string, exponent: int, rest: string)

  function ExponentOf(s: string): (r: (int, string))
    ensures |r.1| <= |s|
  {
    if At(s, 0) == 'e' || At(s, 0) == 'E' then
      var k := if At(s, 1) == '+' || At(s, 1) == '-' then 2 else 1;
      var n := Run(Drop(s, k));
      var e := Value(Drop(s, k)[..n]);
      (if At(s, 1) == '-' then -e else e, Drop(s, k)[n..])
    else (0, s)
  }

  function FractionOf(s: string): (r: (string, string))
    ensures |r.1| <= |s| && forall i :: 0 <= i < |r.0| ==> IsDigit(r.0[i])
  {
    if At(s, 0) == '.' && IsDigit(At(s, 1)) then
      var n := Run(s[1..]);
      (s[1..][..n], s[1..][n..])
    else ("", s)
  }

  /** Digits may follow one leading zero only if the first of them is not a zero. */
  function WholeOf(s: string): (r: (string, string))
    ensures |r.1| <= |s| && forall i :: 0 <= i < |r.0| ==> IsDigit(r.0[i])
    ensures s != "" && IsDigit(s[0]) ==> |r.1| < |s|
  {
    var t := if At(s, 0) == '0' then s[1..] else s;
    if '1' <= At(t, 0) <= '9' then
      var n := Run(t);
      (t[..n], t[n..])
    else ("", t)
  }

  function NumeralOf(s: string): (r: Numeral)
    ensures forall i :: 0 <= i < |r.whole| ==> IsDigit(r.whole[i])
    ensures forall i :: 0 <= i < |r.fraction| ==> IsDigit(r.fraction[i])
    ensures s != "" && (s[0] == '-' || IsDigit(s[0])) ==> |r.rest| < |s|
  {
    var negative := At(s, 0) == '-';
    var w := WholeOf(if negative then s[1..] else s);
    var f := FractionOf(w.1);
    var e := ExponentOf(f.1);
    Numeral(negative, w.0, f.0, e.0, e.1)
  }

  /** What a numeral denotes. */
  function Denotes(n: Numeral): (x: real)
    requires forall i :: 0 <= i < |n.whole| ==> IsDigit(n.whole[i])
    requires forall i :: 0 <= i < |n.fraction| ==> IsDigit(n.fraction[i])
  {
    var x := Scale(Value(n.whole) as real + Scale(Value(n.fraction) as real, -|n.fraction|), n.exponent);
    if n.negative then -x else x
  }

  function ParseNumber(s: string): (r: Parsed<Json>)
    requires s != "" && (s[0] == '-' || IsDigit(s[0]))
    ensures r.Done? && |r.rest| < |s|
  {
    Done(Number(Denotes(NumeralOf(s))), NumeralOf(s).rest)
  }

  predicate IsHex(c: char) { IsDigit(c) || 'a' <= c <= 'f' || 'A' <= c <= 'F' }

  function HexValue(c: char): (n: int)
    requires IsHex(c)
    ensures 0 <= n < 16
  {
    if IsDigit(c) then c as int - '0' as int
    else if 'a' <= c <= 'f' then 10 + c as int - 'a' as int
    else 10 + c as int - 'A' as int
  }

  predicate FourHex(s: string) {
    IsHex(At(s, 0)) && IsHex(At(s, 1)) && IsHex(At(s, 2)) && IsHex(At(s, 3))
  }

  /** Four hexadecimal digits, or zero when there are none. */
  function HexOf(s: string): (h: int)
    ensures 0 <= h < 0x10000
  {
    if FourHex(s) then
      HexValue(At(s, 0)) * 0x1000 + HexValue(At(s, 1)) * 0x100 + HexValue(At(s, 2)) * 0x10 + HexValue(At(s, 3))
    else 0
  }

  /** A string literal, escape by escape: a byte, or a code unit of UTF-16. */
  datatype Piece = Raw(c: char) | Unit(u: CodeUnit)

  type CodeUnit = u: int | 0 <= u < 0x10000

  /** What a backslash stands for together with the character after it, `\\u` aside. */
  function Escaped(c: char): char {
    match c
    case 'b' => BS
    case 'f' => FF
    case 'n' => '\n'
    case 'r' => '\r'
    case 't' => '\t'
    case _ => c
  }

  /** The text after an opening quote: its pieces, and what is left after the closing quote. The end
      of the text closes a string as well. */
  function Literal(s: string): (r: (seq<Piece>, string))
    ensures |r.1| <= |s|
    decreases |s|
  {
    if s == "" then ([], "")
    else if s[0] == '"' then ([], s[1..])
    else if s[0] != '\\' then
      var r := Literal(s[1..]);
      ([Raw(s[0])] + r.0, r.1)
    else if At(s, 1) == 'u' then
      var r := Literal(Drop(s, 6));
      ([Unit(HexOf(Drop(s, 2)))] + r.0, r.1)
    else
      var r := Literal(Drop(s, 2));
      ((if |s| == 1 then [] else [Raw(Escaped(s[1]))]) + r.0, r.1)
  }

  predicate High(u: int) { 0xD800 <= u <= 0xDBFF }

  predicate Low(u: int) { 0xDC00 <= u <= 0xDFFF }

  function Pair(high: int, low: int): int {
    0x10000 + (high - 0xD800) * 0x400 + (low - 0xDC00)
  }

  /** Section 3 of RFC 3629. */
  function Utf8(u: int): (s: string)
    requires 0 <= u < 0x110000
    ensures 1 <= |s| <= 4
  {
    if u < 0x80 then [u as char]
    else if u < 0x800 then [(0xC0 + u / 0x40) as char, (0x80 + u % 0x40) as char]
    else if u < 0x10000 then [(0xE0 + u / 0x1000) as char, (0x80 + u / 0x40 % 0x40) as char, (0x80 + u % 0x40) as char]
    else [(0xF0 + u / 0x40000) as char, (0x80 + u / 0x1000 % 0x40) as char, (0x80 + u / 0x40 % 0x40) as char,
          (0x80 + u % 0x40) as char]
  }

  /** The bytes that the parser stores for a literal. A high surrogate takes the next unit with it,
      whether that is a low surrogate or not. */
  function Transcode(pieces: seq<Piece>): (s: string) {
    if pieces == [] then ""
    else if pieces[0].Raw? then [pieces[0].c] + Transcode(pieces[1..])
    else
      var u := pieces[0].u;
      if Low(u) || u == 0 then Transcode(pieces[1..])
      else if !High(u) then Utf8(u) + Transcode(pieces[1..])
      else if |pieces| == 1 || pieces[1].Raw? then Transcode(pieces[1..])
      else (if Low(pieces[1].u) then Utf8(Pair(u, pieces[1].u)) else "") + Transcode(pieces[2..])
  }

  function ParseString(s: string): (r: Parsed<string>)
    ensures r.Done? ==> |r.rest| < |s|
  {
    if At(s, 0) != '"' then Fail(s)
    else
      var l := Literal(s[1..]);
      Done(Transcode(l.0), l.1)
  }

  /** `strncmp` over the length of the word. */
  predicate Starts(s: string, word: string)
    ensures Starts(s, word) ==> |word| <= |s| && (word != "" ==> s[0] == word[0])
  {
    word == "" || (s != "" && s[0] == word[0] && Starts(s[1..], word[1..]))
  }

  function ParseValue(s: string): (r: Parsed<Json>)
    ensures r.Done? ==> |r.rest| < |s|
    decreases |s|, 2
  {
    if Starts(s, "null") then Done(Null, s[4..])
    else if Starts(s, "false") then Done(False, s[5..])
    else if Starts(s, "true") then Done(True, s[4..])
    else if At(s, 0) == '"' then
      var r := ParseString(s);
      Done(Str(r.value), r.rest)
    else if At(s, 0) == '-' || IsDigit(At(s, 0)) then ParseNumber(s)
    else if At(s, 0) == '[' then ParseArray(s)
    else if At(s, 0) == '{' then ParseObject(s)
    else Fail(s)
  }

  function ParseArray(s: string): (r: Parsed<Json>)
    requires At(s, 0) == '['
    ensures r.Done? ==> |r.rest| < |s|
    decreases |s|, 1
  {
    var t := Skip(s[1..]);
    if At(t, 0) == ']' then Done(Array([]), t[1..])
    else
      match ParseElements(t)
      case Fail(at) => Fail(at)
      case Done(items, rest) => Done(Array(items), rest)
  }

  function ParseElements(s: string): (r: Parsed<seq<Json>>)
    ensures r.Done? ==> |r.rest| < |s| && r.value != []
    decreases |s|, 3
  {
    match ParseValue(Skip(s))
    case Fail(at) => Fail(at)
    case Done(v, rest) =>
      var t := Skip(rest);
      if At(t, 0) == ',' then
        (match ParseElements(t[1..])
         case Fail(at) => Fail(at)
         case Done(vs, rest) => Done([v] + vs, rest))
      else if At(t, 0) == ']' then Done([v], t[1..])
      else Fail(t)
  }

  function ParseObject(s: string): (r: Parsed<Json>)
    requires At(s, 0) == '{'
    ensures r.Done? ==> |r.rest| < |s|
    decreases |s|, 1
  {
    var t := Skip(s[1..]);
    if At(t, 0) == '}' then Done(Object([]), t[1..])
    else
      match ParseMembers(t)
      case Fail(at) => Fail(at)
      case Done(members, rest) => Done(Object(members), rest)
  }

  function ParseMember(s: string): (r: Parsed<Member>)
    ensures r.Done? ==> |r.rest| < |s|
    decreases |s|, 3
  {
    match ParseString(Skip(s))
    case Fail(at) => Fail(at)
    case Done(name, rest) =>
      var t := Skip(rest);
      if At(t, 0) != ':' then Fail(t)
      else
        match ParseValue(Skip(t[1..]))
        case Fail(at) => Fail(at)
        case Done(v, rest) => Done(Member(name, v), rest)
  }

  function ParseMembers(s: string): (r: Parsed<seq<Member>>)
    ensures r.Done? ==> |r.rest| < |s| && r.value != []
    decreases |s|, 4
  {
    match ParseMember(s)
    case Fail(at) => Fail(at)
    case Done(m, rest) =>
      var t := Skip(rest);
      if At(t, 0) == ',' then
        (match ParseMembers(t[1..])
         case Fail(at) => Fail(at)
         case Done(ms, rest) => Done([m] + ms, rest))
      else if At(t, 0) == '}' then Done([m], t[1..])
      else Fail(t)
  }

  /** `cJSON_ParseWithOpts`. */
  function Parse(text: string, requireEnd: bool): (r: Parsed<Json>) {
    match ParseValue(Skip(text))
    case Fail(at) => Fail(at)
    case Done(v, rest) => if requireEnd && Skip(rest) != "" then Fail(Skip(rest)) else Done(v, rest)
  }
}
