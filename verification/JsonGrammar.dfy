/** The grammar of RFC 8259, as derivations with the text and the meaning of each. The characters are
    given by tables. The parser reads every text of the grammar as what it means, and a text that
    leaves the grammar is refused at the place where it does. */
module JsonGrammar {
  import opened Common
  import opened JsonText
  import opened JsonParse
  import opened JsonRoundTrip
  import JsonPrinter

  const DECIMALS := "0123456789"
  const HEXADECIMALS := "0123456789abcdef"
  const CAPITALS := "0123456789ABCDEF"

  /** The letters that name a character after a backslash, with the codes of what they name. */
  const NAMED: map<char, int> := map['b' := 8, 'f' := 12, 'n' := 10, 'r' := 13, 't' := 9]

  type Digit = d: int | 0 <= d < 10

  /** A hexadecimal digit, written small or as a capital. */
  datatype Nibble = Nibble(value: int, capital: bool)

  datatype Unit16 = Unit16(a: Nibble, b: Nibble, c: Nibble, d: Nibble)

  /** A character of a string: itself, a backslash and one character, the number of a code unit, or
      the numbers of a surrogate pair. */
  datatype Letter = Plain(c: char) | Short(c: char) | Escape16(u: Unit16) | EscapePair(high: Unit16, low: Unit16)

  datatype Exponent = NoExponent | Exponent(mark: char, sign: string, digits: seq<Digit>)

  datatype Text =
    | NullWord
    | FalseWord
    | TrueWord
    | Numeric(negative: bool, whole: seq<Digit>, fraction: seq<Digit>, exponent: Exponent)
    | Quoted(letters: seq<Letter>)
    | List(gap: string, items: seq<Item>)
    | Dict(gap: string, entries: seq<Entry>)

  datatype Item = Item(before: string, text: Text, after: string)

  datatype Entry = Entry(before: string, name: seq<Letter>, colon: string, space: string, text: Text, after: string)

  // ---- Numbers ----

  function Spell(ds: seq<Digit>): (s: string)
    ensures |s| == |ds| && forall i :: 0 <= i < |ds| ==> IsDigit(s[i]) && s[i] as int == '0' as int + ds[i]
  {
    if ds == [] then "" else [DECIMALS[ds[0]]] + Spell(ds[1..])
  }

  /** The number that digits write: each counts as often as its place says. */
  ghost function Weight(ds: seq<Digit>): int {
    if ds == [] then 0 else ds[0] * JsonPrinter.Power(|ds| - 1) + Weight(ds[1..])
  }

  function WriteExponent(e: Exponent): string {
    match e
    case NoExponent => ""
    case Exponent(mark, sign, digits) => [mark] + sign + Spell(digits)
  }

  predicate GoodExponent(e: Exponent) {
    e.Exponent? ==>
      (e.mark == 'e' || e.mark == 'E') && (e.sign == "" || e.sign == "+" || e.sign == "-") && e.digits != []
  }

  ghost function Shift(e: Exponent): int {
    match e
    case NoExponent => 0
    case Exponent(_, sign, digits) => if sign == "-" then -Weight(digits) else Weight(digits)
  }

  ghost function Shifted(x: real, e: int): real {
    if e >= 0 then x * JsonPrinter.Power(e) as real else x / JsonPrinter.Power(-e) as real
  }

  function WriteNumber(negative: bool, whole: seq<Digit>, fraction: seq<Digit>, exponent: Exponent): string {
    When(negative, "-") +
    (Spell(whole) + ((if fraction == [] then "" else "." + Spell(fraction)) + WriteExponent(exponent)))
  }

  ghost function NumberMeans(negative: bool, whole: seq<Digit>, fraction: seq<Digit>, exponent: Exponent): real {
    var x := Shifted(Weight(whole) as real + Shifted(Weight(fraction) as real, -|fraction|), Shift(exponent));
    if negative then -x else x
  }

  lemma {:induction false} WeightLast(ds: seq<Digit>)
    requires ds != []
    ensures Weight(ds) == Weight(ds[..|ds| - 1]) * 10 + ds[|ds| - 1]
  {
    var n := |ds| - 1;
    if n == 0 {
      assert ds[1..] == [] && ds[..0] == [];
    } else {
      var rest, init := ds[1..], ds[..n];
      WeightLast(rest);
      assert init[1..] == rest[..n - 1] && init[0] == ds[0] && rest[n - 1] == ds[n];
      TenTimes(ds[0], JsonPrinter.Power(n - 1));
    }
  }

  lemma TenTimes(d: int, p: int)
    ensures d * (10 * p) == d * p * 10
  {
  }

  lemma ValueLast(s: string)
    requires s != "" && forall i :: 0 <= i < |s| ==> IsDigit(s[i])
    ensures Value(s) == Value(s[..|s| - 1]) * 10 + (s[|s| - 1] as int - '0' as int)
  {
  }

  lemma {:induction false} SpellValue(ds: seq<Digit>)
    ensures Value(Spell(ds)) == Weight(ds)
  {
    if ds != [] {
      var n, s := |ds| - 1, Spell(ds);
      ValueLast(s);
      hide Weight, Spell, Value;
      WeightLast(ds);
      SpellValue(ds[..n]);
      SpellLast(ds);
    }
  }

  lemma {:induction false} SpellLast(ds: seq<Digit>)
    requires ds != []
    ensures var n, s := |ds| - 1, Spell(ds); s[..n] == Spell(ds[..n]) && s[n] as int - '0' as int == ds[n]
  {
    var n := |ds| - 1;
    if n == 0 {
      assert Spell(ds)[..0] == "" && ds[..0] == [];
    } else {
      var init, rest := ds[..n], ds[1..];
      assert init[1..] == rest[..n - 1] && init[0] == ds[0];
      SpellFirst(ds);
      SpellFirst(init);
      hide Spell;
      SpellLast(rest);
      TakeCons(DECIMALS[ds[0]], Spell(rest), n);
    }
  }

  lemma SpellFirst(ds: seq<Digit>)
    requires ds != []
    ensures Spell(ds) == [DECIMALS[ds[0]]] + Spell(ds[1..])
  {
  }

  lemma TakeCons(c: char, r: string, n: nat)
    requires 0 < n <= |r|
    ensures ([c] + r)[..n] == [c] + r[..n - 1]
  {
  }

  lemma {:induction false} ScaleIsShift(x: real, e: int)
    ensures Scale(x, e) == Shifted(x, e)
    decreases if e < 0 then -e else e
  {
    hide Shifted;
    if e > 0 {
      ScaleIsShift(x, e - 1);
      ShiftUp(x, e);
    } else if e < 0 {
      ScaleIsShift(x, e + 1);
      ShiftDown(x, e);
    } else {
      NoShift(x);
    }
  }

  lemma NoShift(x: real)
    ensures Shifted(x, 0) == x
  {
    assert JsonPrinter.Power(0) == 1;
  }

  lemma ShiftUp(x: real, e: int)
    requires e > 0
    ensures Shifted(x, e) == 10.0 * Shifted(x, e - 1)
  {
    TenfoldOf(x, JsonPrinter.Power(e - 1));
  }

  lemma ShiftDown(x: real, e: int)
    requires e < 0
    ensures Shifted(x, e) == Shifted(x, e + 1) / 10.0
  {
    var p := JsonPrinter.Power(-e - 1);
    TenthOf(x, p);
    assert JsonPrinter.Power(-e) == 10 * p;
    if e == -1 {
      assert p == 1 && x * 1 as real == x && x / 1 as real == x;
    }
  }

  lemma TenfoldOf(x: real, p: int)
    ensures 10.0 * (x * p as real) == x * (10 * p) as real
  {
    assert (10 * p) as real == 10.0 * p as real;
  }

  lemma TenthOf(x: real, p: int)
    requires p > 0
    ensures x / p as real / 10.0 == x / (10 * p) as real
  {
    assert (10 * p) as real == 10.0 * p as real;
    assert x / p as real / 10.0 * (10.0 * p as real) == x;
  }

  lemma ZeroWeighs()
    ensures Weight([0]) == 0 && Value("") == 0
  {
  }

  /** A run of digits is cut off where it ends. */
  lemma RunCut(ds: seq<Digit>, post: string)
    requires !IsDigit(At(post, 0))
    ensures var s := Spell(ds) + post; Run(s) == |ds| && s[..|ds|] == Spell(ds) && s[|ds|..] == post
  {
    hide Spell;
    RunOver(Spell(ds), post);
  }

  lemma WholeRead(whole: seq<Digit>, post: string)
    requires whole != [] && (whole[0] == 0 ==> |whole| == 1) && !IsDigit(At(post, 0))
    ensures var w := WholeOf(Spell(whole) + post); w.1 == post && Value(w.0) == Weight(whole)
  {
    var s := Spell(whole);
    SpellValue(whole);
    RunCut(whole, post);
    hide Spell, Value, Run, Weight;
    if whole[0] == 0 {
      ZeroWeighs();
      assert whole == [0] && (s + post)[1..] == post;
    }
  }

  lemma FractionRead(fraction: seq<Digit>, post: string)
    requires !IsDigit(At(post, 0)) && At(post, 0) != '.'
    ensures FractionOf((if fraction == [] then "" else "." + Spell(fraction)) + post) == (Spell(fraction), post)
  {
    var f := Spell(fraction);
    if fraction == [] {
      assert "" + post == post;
    } else {
      var s := "." + f + post;
      RunCut(fraction, post);
      hide Spell, Run;
      Assoc(".", f, post);
      Cons('.', f + post);
      assert s[1] == f[0];
    }
  }

  lemma SignRead(mark: char, sign: string, rest: string)
    requires sign == "" || sign == "+" || sign == "-"
    requires IsDigit(At(rest, 0))
    ensures var s := [mark] + (sign + rest);
      && At(s, 0) == mark && (At(s, 1) == '+' || At(s, 1) == '-' <==> sign != "") && (At(s, 1) == '-' <==> sign == "-")
      && Drop(s, if sign == "" then 1 else 2) == rest
  {
    var s := [mark] + (sign + rest);
    if sign == "" {
      assert s[1..] == rest;
    } else {
      assert s[2..] == rest && s[1] == sign[0];
    }
  }

  lemma ExponentRead(e: Exponent, post: string)
    requires GoodExponent(e) && EndsNumber(post)
    ensures ExponentOf(WriteExponent(e) + post) == (Shift(e), post)
    ensures EndsNumber(WriteExponent(e) + post) || At(WriteExponent(e) + post, 0) == e.mark
  {
    if e == NoExponent {
      assert "" + post == post;
    } else {
      var d := Spell(e.digits);
      SpellValue(e.digits);
      RunCut(e.digits, post);
      hide Spell, Run, Value, Weight, Drop, At;
      Assoc([e.mark] + e.sign, d, post);
      Assoc([e.mark], e.sign, d + post);
      assert IsDigit(At(d + post, 0)) by { FirstDigit(d, post); }
      SignRead(e.mark, e.sign, d + post);
    }
  }

  lemma FirstDigit(d: string, post: string)
    requires d != "" && IsDigit(d[0])
    ensures IsDigit(At(d + post, 0))
  {
  }

  lemma NumberDenotes(n: Numeral, negative: bool, whole: seq<Digit>, fraction: seq<Digit>, exponent: Exponent)
    requires forall i :: 0 <= i < |n.whole| ==> IsDigit(n.whole[i])
    requires Value(n.whole) == Weight(whole) && n.fraction == Spell(fraction)
    requires n.negative == negative && n.exponent == Shift(exponent)
    ensures Denotes(n) == NumberMeans(negative, whole, fraction, exponent)
  {
    hide Value, Weight, Spell, Shift, Scale, Shifted;
    SpellValue(fraction);
    ScaleIsShift(Weight(fraction) as real, -|fraction|);
    ScaleIsShift(Weight(whole) as real + Shifted(Weight(fraction) as real, -|fraction|), Shift(exponent));
  }

  lemma NumberRead(negative: bool, whole: seq<Digit>, fraction: seq<Digit>, exponent: Exponent, post: string)
    requires Good(Numeric(negative, whole, fraction, exponent)) && EndsNumber(post)
    ensures var s := WriteNumber(negative, whole, fraction, exponent);
      ParseValue(s + post) == Done(Number(NumberMeans(negative, whole, fraction, exponent)), post)
  {
    hide ParseValue, Denotes, NumberMeans, NumeralOf, WriteNumber;
    var s := WriteNumber(negative, whole, fraction, exponent) + post;
    NumeralRead(negative, whole, fraction, exponent, post);
    NumberDenotes(NumeralOf(s), negative, whole, fraction, exponent);
    NumberAhead(s);
  }

  lemma NumeralRead(negative: bool, whole: seq<Digit>, fraction: seq<Digit>, exponent: Exponent, post: string)
    requires Good(Numeric(negative, whole, fraction, exponent)) && EndsNumber(post)
    ensures var s := WriteNumber(negative, whole, fraction, exponent) + post;
      && s != "" && (s[0] == '-' || IsDigit(s[0]))
      && var n := NumeralOf(s);
      && n.negative == negative && Value(n.whole) == Weight(whole) && n.fraction == Spell(fraction)
      && n.exponent == Shift(exponent) && n.rest == post
  {
    var w, f, x := Spell(whole), if fraction == [] then "" else "." + Spell(fraction), WriteExponent(exponent);
    var t := w + (f + (x + post));
    var s := WriteNumber(negative, whole, fraction, exponent) + post;
    assert s == When(negative, "-") + t by {
      Assoc(When(negative, "-"), w + (f + x), post);
      Assoc(w, f + x, post);
      Assoc(f, x, post);
    }
    ExponentRead(exponent, post);
    FractionRead(fraction, x + post);
    WholeRead(whole, f + (x + post));
    hide WholeOf, FractionOf, ExponentOf, WriteExponent, Spell, Value, Weight, WriteNumber;
    assert IsDigit(t[0]) && t[0] != '-';
    assert if negative then s[0] == '-' && s[1..] == t else s == t;
  }

  // ---- Strings ----

  predicate GoodNibble(n: Nibble) { 0 <= n.value < 16 }

  function WriteNibble(n: Nibble): (c: char)
    requires GoodNibble(n)
  {
    if n.capital then CAPITALS[n.value] else HEXADECIMALS[n.value]
  }

  predicate GoodUnit(u: Unit16) { GoodNibble(u.a) && GoodNibble(u.b) && GoodNibble(u.c) && GoodNibble(u.d) }

  function WriteUnit(u: Unit16): (s: string)
    requires GoodUnit(u)
  {
    ['\\', 'u', WriteNibble(u.a), WriteNibble(u.b), WriteNibble(u.c), WriteNibble(u.d)]
  }

  function Code(u: Unit16): int {
    u.a.value * 4096 + u.b.value * 256 + u.c.value * 16 + u.d.value
  }

  predicate GoodLetter(l: Letter) {
    match l
    case Plain(c) => c != '"' && c != '\\'
    case Short(c) => c != 'u'
    case Escape16(u) => GoodUnit(u) && Code(u) != 0 && !(0xD800 <= Code(u) < 0xE000)
    case EscapePair(h, l) => GoodUnit(h) && GoodUnit(l) && 0xD800 <= Code(h) < 0xDC00 <= Code(l) < 0xE000
  }

  function WriteLetter(l: Letter): (s: string)
    requires GoodLetter(l)
    ensures s != "" && s[0] != '"'
  {
    match l
    case Plain(c) => [c]
    case Short(c) => ['\\', c]
    case Escape16(u) => WriteUnit(u)
    case EscapePair(h, l) => WriteUnit(h) + WriteUnit(l)
  }

  function LetterMeans(l: Letter): (s: string)
    requires GoodLetter(l)
  {
    match l
    case Plain(c) => [c]
    case Short(c) => [if c in NAMED then NAMED[c] as char else c]
    case Escape16(u) => Utf8(Code(u))
    case EscapePair(h, l) => Utf8(0x10000 + (Code(h) - 0xD800) * 1024 + (Code(l) - 0xDC00))
  }

  predicate GoodLetters(ls: seq<Letter>) { forall i :: 0 <= i < |ls| ==> GoodLetter(ls[i]) }

  function WriteLetters(ls: seq<Letter>): string
    requires GoodLetters(ls)
  {
    if ls == [] then "" else WriteLetter(ls[0]) + WriteLetters(ls[1..])
  }

  function LettersMean(ls: seq<Letter>): string
    requires GoodLetters(ls)
  {
    if ls == [] then "" else LetterMeans(ls[0]) + LettersMean(ls[1..])
  }

  function WriteQuoted(ls: seq<Letter>): string
    requires GoodLetters(ls)
  {
    "\"" + (WriteLetters(ls) + "\"")
  }

  lemma NibbleRead(n: Nibble)
    requires GoodNibble(n)
    ensures IsHex(WriteNibble(n)) && HexValue(WriteNibble(n)) == n.value
  {
  }

  lemma UnitRead(u: Unit16, t: string)
    requires GoodUnit(u)
    ensures 0 <= Code(u) < 0x10000
    ensures var s := WriteUnit(u) + t; s[..2] == "\\u" && Drop(s, 6) == t && HexOf(Drop(s, 2)) == Code(u)
  {
    hide WriteNibble, HexValue, IsHex;
    var s := WriteUnit(u) + t;
    NibbleRead(u.a);
    NibbleRead(u.b);
    NibbleRead(u.c);
    NibbleRead(u.d);
    assert Drop(s, 2) == [WriteNibble(u.a), WriteNibble(u.b), WriteNibble(u.c), WriteNibble(u.d)] + t;
    assert Drop(s, 6) == t;
  }

  lemma PlainLiteral(c: char, t: string)
    requires c != '"' && c != '\\'
    ensures var r := Literal(t); Literal([c] + t) == ([Raw(c)] + r.0, r.1)
  {
    Cons(c, t);
  }

  lemma ShortLiteral(c: char, t: string)
    requires c != 'u'
    ensures var r := Literal(t);
      Literal(['\\', c] + t) == ([Raw(if c in NAMED then NAMED[c] as char else c)] + r.0, r.1)
  {
    var s := ['\\', c] + t;
    assert Drop(s, 2) == t && s[0] == '\\' && s[1] == c;
  }

  /** In front of a literal, a character is read as what it means. */
  lemma LetterRead(l: Letter, t: string)
    requires GoodLetter(l)
    ensures Literal(WriteLetter(l) + t).1 == Literal(t).1
    ensures Transcode(Literal(WriteLetter(l) + t).0) == LetterMeans(l) + Transcode(Literal(t).0)
  {
    var r := Literal(t);
    hide Literal, Transcode, WriteUnit, Utf8;
    match l
    case Plain(c) =>
      PlainLiteral(c, t);
      RawFirst(c, r.0);
    case Short(c) =>
      ShortLiteral(c, t);
      RawFirst(if c in NAMED then NAMED[c] as char else c, r.0);
    case Escape16(u) =>
      UnitLiteral(u, t);
      UnitFirst(Code(u), r.0);
    case EscapePair(h, l) =>
      Assoc(WriteUnit(h), WriteUnit(l), t);
      UnitLiteral(l, t);
      UnitLiteral(h, WriteUnit(l) + t);
      PairFirst(Code(h), Code(l), r.0);
  }

  lemma UnitLiteral(u: Unit16, t: string)
    requires GoodUnit(u)
    ensures 0 <= Code(u) < 0x10000
    ensures var r := Literal(t); Literal(WriteUnit(u) + t) == ([Unit(Code(u))] + r.0, r.1)
  {
    UnitRead(u, t);
    hide WriteNibble, HexOf, Code;
    var s := WriteUnit(u) + t;
    assert s[0] == s[..2][0] && s[1] == s[..2][1];
  }

  lemma RawFirst(c: char, pieces: seq<Piece>)
    ensures Transcode([Raw(c)] + pieces) == [c] + Transcode(pieces)
  {
    assert ([Raw(c)] + pieces)[1..] == pieces;
  }

  lemma UnitFirst(u: CodeUnit, pieces: seq<Piece>)
    requires u != 0 && !(0xD800 <= u < 0xE000)
    ensures Transcode([Unit(u)] + pieces) == Utf8(u) + Transcode(pieces)
  {
    assert ([Unit(u)] + pieces)[1..] == pieces;
  }

  lemma PairFirst(high: CodeUnit, low: CodeUnit, pieces: seq<Piece>)
    requires 0xD800 <= high < 0xDC00 <= low < 0xE000
    ensures Transcode([Unit(high)] + ([Unit(low)] + pieces)) ==
      Utf8(0x10000 + (high - 0xD800) * 1024 + (low - 0xDC00)) + Transcode(pieces)
  {
    hide Utf8;
    var all := [Unit(high)] + ([Unit(low)] + pieces);
    assert all[1] == Unit(low) && all[2..] == pieces;
  }

  lemma {:induction false} LettersRead(ls: seq<Letter>, q: string)
    requires GoodLetters(ls) && q != "" && q[0] == '"'
    ensures Literal(WriteLetters(ls) + q).1 == q[1..]
    ensures Transcode(Literal(WriteLetters(ls) + q).0) == LettersMean(ls)
  {
    if ls == [] {
      assert "" + q == q;
    } else {
      hide Literal, Transcode, WriteLetter, LetterMeans;
      LettersRead(ls[1..], q);
      LetterRead(ls[0], WriteLetters(ls[1..]) + q);
      Assoc(WriteLetter(ls[0]), WriteLetters(ls[1..]), q);
    }
  }

  /** A string of the grammar is read as what it means. */
  lemma QuotedRead(ls: seq<Letter>, post: string)
    requires GoodLetters(ls)
    ensures ParseString(WriteQuoted(ls) + post) == Done(LettersMean(ls), post)
    ensures ParseValue(WriteQuoted(ls) + post) == Done(Str(LettersMean(ls)), post)
  {
    hide Literal, Transcode, WriteLetters, LettersMean;
    var s, q := WriteQuoted(ls) + post, "\"" + post;
    LettersRead(ls, q);
    Cons('"', post);
    Assoc("\"", WriteLetters(ls) + "\"", post);
    Assoc(WriteLetters(ls), "\"", post);
    Cons('"', WriteLetters(ls) + q);
  }

  /** The number whose octets these are, by section 3 of RFC 3629. */
  ghost function Decoded(b: string): int {
    if |b| == 1 then b[0] as int
    else if |b| == 2 then (b[0] as int - 0xC0) * 64 + (b[1] as int - 0x80)
    else if |b| == 3 then (b[0] as int - 0xE0) * 4096 + (b[1] as int - 0x80) * 64 + (b[2] as int - 0x80)
    else if |b| == 4 then
      (b[0] as int - 0xF0) * 262144 + (b[1] as int - 0x80) * 4096 + (b[2] as int - 0x80) * 64 + (b[3] as int - 0x80)
    else -1
  }

  /** The octets of a number decode to it, have the marks of that section, and are as few as there
      can be. */
  lemma Utf8Law(u: int)
    requires 0 <= u < 0x110000
    ensures var b := Utf8(u);
      && Decoded(b) == u
      && |b| == (if u <= 0x7F then 1 else if u <= 0x7FF then 2 else if u <= 0xFFFF then 3 else 4)
      && (forall i :: 1 <= i < |b| ==> 0x80 <= b[i] as int < 0xC0)
      && [0, 0xC0, 0xE0, 0xF0][|b| - 1] <= b[0] as int < [0x80, 0xE0, 0xF0, 0xF8][|b| - 1]
  {
    assert u / 0x1000 == u / 0x40 / 0x40 && u / 0x40000 == u / 0x1000 / 0x40;
  }

  // ---- Values ----

  ghost predicate Good(t: Text)
    decreases t, 0
  {
    match t
    case Numeric(_, whole, _, exponent) => whole != [] && (whole[0] == 0 ==> |whole| == 1) && GoodExponent(exponent)
    case Quoted(letters) => GoodLetters(letters)
    case List(gap, items) => Spaces(gap) && GoodItems(items)
    case Dict(gap, entries) => Spaces(gap) && GoodEntries(entries)
    case _ => true
  }

  ghost predicate GoodItems(items: seq<Item>)
    decreases items, 1
  {
    forall i :: 0 <= i < |items| ==> Spaces(items[i].before) && Good(items[i].text) && Spaces(items[i].after)
  }

  ghost predicate GoodEntries(entries: seq<Entry>)
    decreases entries, 1
  {
    forall i :: 0 <= i < |entries| ==>
      && Spaces(entries[i].before) && GoodLetters(entries[i].name) && Spaces(entries[i].colon)
      && Spaces(entries[i].space) && Good(entries[i].text) && Spaces(entries[i].after)
  }

  ghost function Write(t: Text): string
    requires Good(t)
    decreases t, 1
  {
    match t
    case NullWord => "null"
    case FalseWord => "false"
    case TrueWord => "true"
    case Numeric(negative, whole, fraction, exponent) => WriteNumber(negative, whole, fraction, exponent)
    case Quoted(letters) => WriteQuoted(letters)
    case List(gap, items) => "[" + (gap + (WriteItems(items) + "]"))
    case Dict(gap, entries) => "{" + (gap + (WriteEntries(entries) + "}"))
  }

  ghost function WriteItems(items: seq<Item>): string
    requires GoodItems(items)
    decreases items, 0
  {
    if items == [] then ""
    else
      items[0].before + (Write(items[0].text) + (items[0].after +
        if |items| == 1 then "" else "," + WriteItems(items[1..])))
  }

  ghost function WriteEntries(entries: seq<Entry>): string
    requires GoodEntries(entries)
    decreases entries, 0
  {
    if entries == [] then ""
    else
      var e := entries[0];
      e.before + (WriteQuoted(e.name) + (e.colon + (":" + (e.space + (Write(e.text) + (e.after +
        if |entries| == 1 then "" else "," + WriteEntries(entries[1..])))))))
  }

  ghost function Means(t: Text): Json
    requires Good(t)
    decreases t, 1
  {
    match t
    case NullWord => Null
    case FalseWord => False
    case TrueWord => True
    case Numeric(negative, whole, fraction, exponent) => Number(NumberMeans(negative, whole, fraction, exponent))
    case Quoted(letters) => Str(LettersMean(letters))
    case List(_, items) => Array(ItemsMean(items))
    case Dict(_, entries) => Object(EntriesMean(entries))
  }

  ghost function ItemsMean(items: seq<Item>): (r: seq<Json>)
    requires GoodItems(items)
    ensures |r| == |items|
    decreases items, 0
  {
    if items == [] then [] else [Means(items[0].text)] + ItemsMean(items[1..])
  }

  ghost function EntriesMean(entries: seq<Entry>): (r: seq<Member>)
    requires GoodEntries(entries)
    ensures |r| == |entries|
    decreases entries, 0
  {
    if entries == [] then []
    else [Member(LettersMean(entries[0].name), Means(entries[0].text))] + EntriesMean(entries[1..])
  }

  // ---- The parser on a text of the grammar ----

  lemma FirstOfWrite(t: Text)
    requires Good(t)
    ensures Write(t) != "" && Write(t)[0] as int > 32 && Write(t)[0] != ']' && Write(t)[0] != '}'
  {
    match t
    case Numeric(negative, whole, _, _) => assert IsDigit(Spell(whole)[0]);
    case _ =>
  }

  lemma SkipNothing(w: string, post: string)
    requires w != "" && w[0] as int > 32
    ensures Skip(w + post) == w + post
  {
  }

  /** What is left of `q` goes on with an array of which `vs` has been read. */
  ghost function Onward(vs: seq<Json>, q: string): Parsed<seq<Json>> {
    var t := Skip(q);
    if At(t, 0) == ',' then
      match ParseElements(t[1..])
      case Fail(at) => Fail(at)
      case Done(us, rest) => Done(vs + us, rest)
    else if At(t, 0) == ']' then Done(vs, t[1..])
    else Fail(t)
  }

  lemma OnwardOne(s: string, v: Json, tail: string)
    requires ParseValue(Skip(s)) == Done(v, tail)
    ensures ParseElements(s) == Onward([v], tail)
  {
    hide ParseNumber, ParseString, ParseValue;
  }

  lemma OnwardMore(v: Json, vs: seq<Json>, q: string, t: string)
    requires ParseElements(t) == Onward(vs, q)
    ensures Onward([v], "," + t) == Onward([v] + vs, q)
  {
    hide ParseElements;
    Cons(',', t);
    var u := Skip(q);
    if At(u, 0) == ',' && ParseElements(u[1..]).Done? {
      Assoc([v], vs, ParseElements(u[1..]).value);
    }
  }

  /** What follows the text of the first item, with `q` after all of them. */
  ghost function Behind(items: seq<Item>, q: string): string
    requires items != [] && GoodItems(items)
  {
    items[0].after + if |items| == 1 then q else "," + (WriteItems(items[1..]) + q)
  }

  lemma ItemsText(items: seq<Item>, q: string)
    requires items != [] && GoodItems(items)
    ensures Skip(WriteItems(items) + q) == Write(items[0].text) + Behind(items, q)
  {
    var i, w := items[0], Write(items[0].text);
    var more := if |items| == 1 then "" else "," + WriteItems(items[1..]);
    assert WriteItems(items) == i.before + (w + (i.after + more));
    FirstOfWrite(i.text);
    hide Write, WriteItems;
    Assoc(i.before, w + (i.after + more), q);
    Assoc(w, i.after + more, q);
    Assoc(i.after, more, q);
    if |items| == 1 {
      assert more + q == q;
    } else {
      Assoc(",", WriteItems(items[1..]), q);
    }
    SkipSpaces(i.before, w + Behind(items, q));
    SkipNothing(w, Behind(items, q));
  }

  lemma SpacesEndNumber(ws: string, q: string)
    requires Spaces(ws) && EndsNumber(q)
    ensures EndsNumber(ws + q)
  {
    if ws == "" {
      assert ws + q == q;
    } else {
      assert ws[0] in ws;
    }
  }

  lemma BehindText(items: seq<Item>, q: string)
    requires items != [] && GoodItems(items) && EndsNumber(q)
    ensures EndsNumber(Behind(items, q))
    ensures Skip(Behind(items, q)) == Skip(if |items| == 1 then q else "," + (WriteItems(items[1..]) + q))
  {
    hide Write, WriteItems;
    var rest := if |items| == 1 then q else "," + (WriteItems(items[1..]) + q);
    assert EndsNumber(rest);
    SkipSpaces(items[0].after, rest);
    SpacesEndNumber(items[0].after, rest);
  }

  /** The items of an array are read as what they mean, and then what follows decides. */
  lemma {:induction false} ItemsRead(t: string, items: seq<Item>, q: string)
    requires items != [] && GoodItems(items) && EndsNumber(q)
    requires Skip(t) == Skip(WriteItems(items) + q)
    ensures ParseElements(t) == Onward(ItemsMean(items), q)
    decreases items, 0
  {
    var i, tail := items[0], Behind(items, q);
    ItemsText(items, q);
    BehindText(items, q);
    TextRead(i.text, tail);
    hide ParseElements, ParseValue, Write, WriteItems, Means, Skip, Behind, EndsNumber;
    OnwardOne(t, Means(i.text), tail);
    if |items| == 1 {
      OneItem(items);
      SameOnward(ItemsMean(items), tail, q);
    } else {
      var others := WriteItems(items[1..]) + q;
      ItemsRead(others, items[1..], q);
      SameOnward([Means(i.text)], tail, "," + others);
      OnwardMore(Means(i.text), ItemsMean(items[1..]), q, others);
    }
  }

  lemma OneItem(items: seq<Item>)
    requires |items| == 1 && GoodItems(items)
    ensures ItemsMean(items) == [Means(items[0].text)]
  {
  }

  lemma SameOnward(vs: seq<Json>, q: string, r: string)
    requires Skip(q) == Skip(r)
    ensures Onward(vs, q) == Onward(vs, r)
  {
  }

  /** An array that starts as the grammar has it goes on as what follows decides. */
  lemma {:induction false} ArrayRead(gap: string, items: seq<Item>, q: string)
    requires Spaces(gap) && items != [] && GoodItems(items) && EndsNumber(q)
    ensures var r := Onward(ItemsMean(items), q);
      ParseValue("[" + (gap + (WriteItems(items) + q))) == if r.Done? then Done(Array(r.value), r.rest) else Fail(r.at)
    decreases items, 1
  {
    var body := WriteItems(items) + q;
    var s := "[" + (gap + body);
    ItemsText(items, q);
    FirstOfWrite(items[0].text);
    hide ParseElements, ParseValue, Write, WriteItems, Means, Onward, Behind, EndsNumber;
    Cons('[', gap + body);
    SkipSpaces(gap, body);
    SkipTwice(body);
    ItemsRead(Skip(body), items, q);
    BracketValue(s);
  }

  lemma EmptyArrayRead(gap: string, post: string)
    requires Spaces(gap)
    ensures ParseValue("[" + (gap + ("]" + post))) == Done(Array([]), post)
  {
    hide ParseElements, ParseValue;
    var s := "[" + (gap + ("]" + post));
    Cons('[', gap + ("]" + post));
    Cons(']', post);
    SkipSpaces(gap, "]" + post);
    ParseArrayStep(s, [], post);
  }

  /** Parsing a text of the grammar gives what it means, and leaves what follows it. */
  lemma {:induction false} TextRead(t: Text, post: string)
    requires Good(t) && EndsNumber(post)
    ensures ParseValue(Write(t) + post) == Done(Means(t), post)
    decreases t, 1
  {
    hide ParseValue;
    match t
    case NullWord => WordValue("null", post);
    case FalseWord => WordValue("false", post);
    case TrueWord => WordValue("true", post);
    case Numeric(negative, whole, fraction, exponent) => NumberRead(negative, whole, fraction, exponent, post);
    case Quoted(letters) => QuotedRead(letters, post);
    case List(gap, items) => ListRead(gap, items, post);
    case Dict(gap, entries) => DictRead(gap, entries, post);
  }

  lemma Bracketed(open: string, gap: string, body: string, close: string, post: string)
    ensures open + (gap + (body + close)) + post == open + (gap + (body + (close + post)))
  {
    Assoc(open, gap + (body + close), post);
    Assoc(gap, body + close, post);
    Assoc(body, close, post);
  }

  lemma {:induction false} ListRead(gap: string, items: seq<Item>, post: string)
    requires Good(List(gap, items))
    ensures ParseValue(Write(List(gap, items)) + post) == Done(Array(ItemsMean(items)), post)
    decreases items, 2
  {
    hide ParseValue, ParseElements;
    var q := "]" + post;
    Bracketed("[", gap, WriteItems(items), "]", post);
    Cons(']', post);
    if items == [] {
      assert "" + q == q;
      EmptyArrayRead(gap, post);
    } else {
      ArrayRead(gap, items, q);
    }
  }

  /** What is left of `q` goes on with an object of which `ms` has been read. */
  ghost function OnwardMembers(ms: seq<Member>, q: string): Parsed<seq<Member>> {
    var t := Skip(q);
    if At(t, 0) == ',' then
      match ParseMembers(t[1..])
      case Fail(at) => Fail(at)
      case Done(us, rest) => Done(ms + us, rest)
    else if At(t, 0) == '}' then Done(ms, t[1..])
    else Fail(t)
  }

  lemma OnwardMember(s: string, m: Member, tail: string)
    requires ParseMember(s) == Done(m, tail)
    ensures ParseMembers(s) == OnwardMembers([m], tail)
  {
    hide ParseMember;
  }

  lemma OnwardMoreMembers(m: Member, ms: seq<Member>, q: string, t: string)
    requires ParseMembers(t) == OnwardMembers(ms, q)
    ensures OnwardMembers([m], "," + t) == OnwardMembers([m] + ms, q)
  {
    hide ParseMembers;
    Cons(',', t);
    var u := Skip(q);
    if At(u, 0) == ',' && ParseMembers(u[1..]).Done? {
      Assoc([m], ms, ParseMembers(u[1..]).value);
    }
  }

  lemma SameOnwardMembers(ms: seq<Member>, q: string, r: string)
    requires Skip(q) == Skip(r)
    ensures OnwardMembers(ms, q) == OnwardMembers(ms, r)
  {
  }

  /** What follows the name of an entry, with `tail` after its value. */
  ghost function BehindName(e: Entry, tail: string): string
    requires Good(e.text)
  {
    e.colon + (":" + (e.space + (Write(e.text) + tail)))
  }

  /** What follows the value of the first entry, with `q` after all of them. */
  ghost function BehindValue(entries: seq<Entry>, q: string): string
    requires entries != [] && GoodEntries(entries)
  {
    entries[0].after + if |entries| == 1 then q else "," + (WriteEntries(entries[1..]) + q)
  }

  lemma EntriesText(entries: seq<Entry>, q: string)
    requires entries != [] && GoodEntries(entries)
    ensures Skip(WriteEntries(entries) + q) ==
      WriteQuoted(entries[0].name) + BehindName(entries[0], BehindValue(entries, q))
  {
    var e, name, w := entries[0], WriteQuoted(entries[0].name), Write(entries[0].text);
    var more := if |entries| == 1 then "" else "," + WriteEntries(entries[1..]);
    var tail := BehindValue(entries, q);
    assert WriteEntries(entries) == e.before + (name + (e.colon + (":" + (e.space + (w + (e.after + more))))));
    assert name[0] == '"';
    hide Write, WriteEntries, WriteQuoted;
    EntryText(e.before, name, e.colon, e.space, w, e.after + more, q);
    Assoc(e.after, more, q);
    if |entries| == 1 {
      assert more + q == q;
    } else {
      Assoc(",", WriteEntries(entries[1..]), q);
    }
    SkipSpaces(e.before, name + BehindName(e, tail));
    SkipNothing(name, BehindName(e, tail));
  }

  lemma EntryText(a: string, b: string, c: string, d: string, e: string, f: string, q: string)
    ensures a + (b + (c + (":" + (d + (e + f))))) + q == a + (b + (c + (":" + (d + (e + (f + q))))))
  {
    Assoc(a, b + (c + (":" + (d + (e + f)))), q);
    Assoc(b, c + (":" + (d + (e + f))), q);
    Assoc(c, ":" + (d + (e + f)), q);
    Assoc(":", d + (e + f), q);
    Assoc(d, e + f, q);
    Assoc(e, f, q);
  }

  lemma BehindValueText(entries: seq<Entry>, q: string)
    requires entries != [] && GoodEntries(entries) && EndsNumber(q)
    ensures EndsNumber(BehindValue(entries, q))
    ensures Skip(BehindValue(entries, q)) == Skip(if |entries| == 1 then q else "," + (WriteEntries(entries[1..]) + q))
  {
    hide Write, WriteEntries;
    var rest := if |entries| == 1 then q else "," + (WriteEntries(entries[1..]) + q);
    assert EndsNumber(rest);
    SkipSpaces(entries[0].after, rest);
    SpacesEndNumber(entries[0].after, rest);
  }

  lemma {:induction false} EntryRead(t: string, e: Entry, tail: string)
    requires GoodLetters(e.name) && Spaces(e.colon) && Spaces(e.space) && Good(e.text) && EndsNumber(tail)
    requires Skip(t) == WriteQuoted(e.name) + BehindName(e, tail)
    ensures ParseMember(t) == Done(Member(LettersMean(e.name), Means(e.text)), tail)
    decreases e, 3
  {
    var w, rest := Write(e.text), BehindName(e, tail);
    TextRead(e.text, tail);
    FirstOfWrite(e.text);
    QuotedRead(e.name, rest);
    hide ParseValue, ParseString, ParseMember, Write, Means, WriteQuoted, LettersMean;
    var value := e.space + (w + tail);
    Cons(':', value);
    SkipSpaces(e.colon, ":" + value);
    SkipSpaces(e.space, w + tail);
    SkipNothing(w, tail);
    ParseMemberStep(t, Member(LettersMean(e.name), Means(e.text)), rest, tail);
  }

  lemma FirstEntry(entries: seq<Entry>)
    requires entries != [] && GoodEntries(entries)
    ensures var e := entries[0];
      && GoodLetters(e.name) && Spaces(e.colon) && Spaces(e.space) && Good(e.text)
      && var m := Member(LettersMean(e.name), Means(e.text));
      && if |entries| == 1 then EntriesMean(entries) == [m]
         else GoodEntries(entries[1..]) && EntriesMean(entries) == [m] + EntriesMean(entries[1..])
  {
    hide LettersMean, Means, Good, Spaces, GoodLetters;
  }

  /** The entries of an object are read as what they mean, and then what follows decides. */
  lemma {:induction false} EntriesRead(t: string, entries: seq<Entry>, q: string)
    requires entries != [] && GoodEntries(entries) && EndsNumber(q)
    requires Skip(t) == Skip(WriteEntries(entries) + q)
    ensures ParseMembers(t) == OnwardMembers(EntriesMean(entries), q)
    decreases entries, 0
  {
    var e, tail := entries[0], BehindValue(entries, q);
    FirstEntry(entries);
    var m := Member(LettersMean(e.name), Means(e.text));
    EntriesText(entries, q);
    BehindValueText(entries, q);
    hide ParseMembers, ParseMember, Write, WriteEntries, Means, Skip, BehindValue, BehindName, EndsNumber;
    hide WriteQuoted, LettersMean, Spaces, GoodLetters, Good, OnwardMembers, EntriesMean, GoodEntries;
    EntryRead(t, e, tail);
    OnwardMember(t, m, tail);
    if |entries| == 1 {
      SameOnwardMembers(EntriesMean(entries), tail, q);
    } else {
      var others := WriteEntries(entries[1..]) + q;
      EntriesRead(others, entries[1..], q);
      SameOnwardMembers([m], tail, "," + others);
      OnwardMoreMembers(m, EntriesMean(entries[1..]), q, others);
    }
  }

  /** An object that starts as the grammar has it goes on as what follows decides. */
  lemma {:induction false} ObjectRead(gap: string, entries: seq<Entry>, q: string)
    requires Spaces(gap) && entries != [] && GoodEntries(entries) && EndsNumber(q)
    ensures var r := OnwardMembers(EntriesMean(entries), q);
      ParseValue("{" + (gap + (WriteEntries(entries) + q))) ==
      if r.Done? then Done(Object(r.value), r.rest) else Fail(r.at)
    decreases entries, 1
  {
    var body := WriteEntries(entries) + q;
    var s := "{" + (gap + body);
    EntriesText(entries, q);
    assert WriteQuoted(entries[0].name)[0] == '"';
    hide ParseMembers, ParseValue, Write, WriteEntries, Means, OnwardMembers, BehindValue, BehindName, EndsNumber;
    Cons('{', gap + body);
    SkipSpaces(gap, body);
    SkipTwice(body);
    EntriesRead(Skip(body), entries, q);
    BracketValue(s);
  }

  lemma EmptyObjectRead(gap: string, post: string)
    requires Spaces(gap)
    ensures ParseValue("{" + (gap + ("}" + post))) == Done(Object([]), post)
  {
    hide ParseMembers, ParseValue;
    var s := "{" + (gap + ("}" + post));
    Cons('{', gap + ("}" + post));
    Cons('}', post);
    SkipSpaces(gap, "}" + post);
    ParseObjectStep(s, [], post);
  }

  lemma {:induction false} DictRead(gap: string, entries: seq<Entry>, post: string)
    requires Good(Dict(gap, entries))
    ensures ParseValue(Write(Dict(gap, entries)) + post) == Done(Object(EntriesMean(entries)), post)
    decreases entries, 2
  {
    hide ParseValue, ParseMembers;
    var q := "}" + post;
    Bracketed("{", gap, WriteEntries(entries), "}", post);
    Cons('}', post);
    if entries == [] {
      assert "" + q == q;
      EmptyObjectRead(gap, post);
    } else {
      ObjectRead(gap, entries, q);
    }
  }

  /** A whole text of the grammar, with spaces around the value, parses to what it means; text left
      over behind that is an error at its place where none may be. */
  lemma GrammarParses(before: string, t: Text, after: string, requireEnd: bool)
    requires Spaces(before) && Good(t) && EndsNumber(after)
    ensures Parse(before + (Write(t) + after), requireEnd) ==
      if requireEnd && Skip(after) != "" then Fail(Skip(after)) else Done(Means(t), after)
  {
    hide ParseValue, Write, Means, EndsNumber;
    FirstOfWrite(t);
    SkipSpaces(before, Write(t) + after);
    SkipNothing(Write(t), after);
    TextRead(t, after);
  }

  // ---- The place of an error ----

  lemma {:induction false} StartsExactly(s: string, word: string)
    ensures Starts(s, word) <==> word <= s
  {
    if word != "" && s != "" {
      StartsExactly(s[1..], word[1..]);
      assert word <= s <==> word[0] == s[0] && word[1..] <= s[1..] by {
        assert word == [word[0]] + word[1..] && s == [s[0]] + s[1..];
      }
    }
  }

  /** Where no value starts, that is the place of the error. */
  lemma NoValue(s: string)
    requires !("null" <= s) && !("false" <= s) && !("true" <= s)
    requires At(s, 0) != '"' && At(s, 0) != '-' && !IsDigit(At(s, 0)) && At(s, 0) != '[' && At(s, 0) != '{'
    ensures ParseValue(s) == Fail(s)
  {
    hide ParseNumber, ParseString, ParseArray, ParseObject, Skip, Starts;
    StartsExactly(s, "null");
    StartsExactly(s, "false");
    StartsExactly(s, "true");
  }

  /** An array with neither a comma nor the bracket after an item is refused there, and one with an
      item that is refused, at the place where that is. */
  lemma ArrayErrors(gap: string, items: seq<Item>, q: string)
    requires Spaces(gap) && items != [] && GoodItems(items) && EndsNumber(q)
    ensures At(Skip(q), 0) != ',' && At(Skip(q), 0) != ']' ==>
      ParseValue("[" + (gap + (WriteItems(items) + q))) == Fail(Skip(q))
    ensures ParseValue(Skip(q)).Fail? ==>
      ParseValue("[" + (gap + (WriteItems(items) + ("," + q)))) == Fail(ParseValue(Skip(q)).at)
  {
    ArrayRead(gap, items, q);
    ArrayRead(gap, items, "," + q);
    Cons(',', q);
    hide ParseValue, WriteItems;
  }

  lemma FirstItemError(gap: string, q: string)
    requires Spaces(gap) && ParseValue(Skip(q)).Fail? && At(Skip(q), 0) != ']'
    ensures ParseValue("[" + (gap + q)) == Fail(ParseValue(Skip(q)).at)
  {
    Cons('[', gap + q);
    SkipSpaces(gap, q);
    SkipTwice(q);
    BracketValue("[" + (gap + q));
    hide ParseValue;
  }

  /** An object with neither a comma nor the brace after an entry is refused there, and one with an
      entry that is refused, at the place where that is. */
  lemma ObjectErrors(gap: string, entries: seq<Entry>, q: string)
    requires Spaces(gap) && entries != [] && GoodEntries(entries) && EndsNumber(q)
    ensures At(Skip(q), 0) != ',' && At(Skip(q), 0) != '}' ==>
      ParseValue("{" + (gap + (WriteEntries(entries) + q))) == Fail(Skip(q))
    ensures ParseMember(q).Fail? ==>
      ParseValue("{" + (gap + (WriteEntries(entries) + ("," + q)))) == Fail(ParseMember(q).at)
  {
    ObjectRead(gap, entries, q);
    ObjectRead(gap, entries, "," + q);
    Cons(',', q);
    hide ParseValue, ParseMember, WriteEntries;
  }

  lemma FirstEntryError(gap: string, q: string)
    requires Spaces(gap) && ParseMember(q).Fail? && At(Skip(q), 0) != '}'
    ensures ParseValue("{" + (gap + q)) == Fail(ParseMember(q).at)
  {
    Cons('{', gap + q);
    SkipSpaces(gap, q);
    SkippedMember(q);
    BracketValue("{" + (gap + q));
    hide ParseValue, ParseMember;
  }

  lemma SkippedMember(q: string)
    ensures ParseMember(Skip(q)) == ParseMember(q)
  {
    hide ParseValue, ParseString;
    SkipTwice(q);
  }

  /** An entry is refused where its name does not start, where its colon is not, and where its value
      is. */
  lemma EntryErrors(before: string, name: seq<Letter>, colon: string, space: string, q: string)
    requires Spaces(before) && GoodLetters(name) && Spaces(colon) && Spaces(space)
    ensures At(Skip(q), 0) != '"' ==> ParseMember(before + q) == Fail(Skip(q))
    ensures At(Skip(q), 0) != ':' ==> ParseMember(before + (WriteQuoted(name) + (colon + q))) == Fail(Skip(q))
    ensures ParseValue(Skip(q)).Fail? ==>
      ParseMember(before + (WriteQuoted(name) + (colon + (":" + (space + q))))) == Fail(ParseValue(Skip(q)).at)
  {
    var w := WriteQuoted(name);
    QuotedRead(name, colon + q);
    QuotedRead(name, colon + (":" + (space + q)));
    assert w[0] == '"';
    hide ParseValue, WriteQuoted, LettersMean;
    SkipSpaces(before, q);
    SkipSpaces(before, w + (colon + q));
    SkipSpaces(before, w + (colon + (":" + (space + q))));
    SkipNothing(w, colon + q);
    SkipNothing(w, colon + (":" + (space + q)));
    SkipSpaces(colon, q);
    SkipSpaces(colon, ":" + (space + q));
    Cons(':', space + q);
    SkipSpaces(space, q);
  }
}
