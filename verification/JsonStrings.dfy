/** `parse_string`: a first pass that counts, a second that decodes escapes into the bytes counted. */
module JsonStrings {
  import opened Common
  import opened JsonParse
  import opened JsonBits

  /** The text after an opening quote, up to the closing one, holds no NUL, no lone backslash at its
      end, and only `\u` escapes with their four digits. */
  predicate WellFormed(s: string)
    decreases |s|
  {
    s == "" || s[0] == '"' ||
    (s[0] != NUL &&
     if s[0] != '\\' then WellFormed(s[1..])
     else |s| > 1 && s[1] != NUL && if s[1] == 'u' then FourHex(s[2..]) && WellFormed(Drop(s, 6)) else WellFormed(s[2..]))
  }

  /** What the first pass counts. */
  function Count(s: string): (n: nat)
    decreases |s|
  {
    if s == "" || s[0] == '"' then 0 else 1 + Count(Drop(s, if s[0] == '\\' then 2 else 1))
  }

  lemma CountPlain(s: string)
    requires s != "" && s[0] != '\\' && s[0] != '"'
    ensures Count(s) == 1 + Count(s[1..])
  {
  }

  /** The four digits of an escape count one each. */
  lemma CountHex(s: string)
    requires FourHex(s)
    ensures Count(s) == 4 + Count(Drop(s, 4))
  {
    assert |s| >= 4;
    assert IsHex(s[0]) && IsHex(s[1]) && IsHex(s[2]) && IsHex(s[3]);
    CountPlain(s);
    CountPlain(s[1..]);
    CountPlain(s[2..]);
    CountPlain(s[3..]);
    var s1, s2, s3 := s[1..], s[2..], s[3..];
    assert s1[1..] == s2 && s2[1..] == s3 && s3[1..] == s[4..];
  }

  /** `parse_hex4` */
  method ParseHex4(s: string) returns (h: bv32)
    ensures I(h) == HexOf(s) && h < 0x10000
  {
    hide I;
    h := 0;
    Order(h);
    if !IsHex(At(s, 0)) {
      return;
    }
    var d := HexValue(At(s, 0)) as bv32;
    Nibble(HexValue(At(s, 0)));
    Appended(h, d);
    var h1 := (h << 4) + d;
    if !IsHex(At(s, 1)) {
      return;
    }
    d := HexValue(At(s, 1)) as bv32;
    Nibble(HexValue(At(s, 1)));
    Appended(h1, d);
    var h2 := (h1 << 4) + d;
    if !IsHex(At(s, 2)) {
      return;
    }
    d := HexValue(At(s, 2)) as bv32;
    Nibble(HexValue(At(s, 2)));
    Appended(h2, d);
    var h3 := (h2 << 4) + d;
    if !IsHex(At(s, 3)) {
      return;
    }
    d := HexValue(At(s, 3)) as bv32;
    Nibble(HexValue(At(s, 3)));
    Appended(h3, d);
    h := (h3 << 4) + d;
  }

  lemma Appended(h: bv32, d: bv32)
    requires h < 0x1000 && d < 16
    ensures I((h << 4) + d) == I(h) * 16 + I(d) && (h << 4) + d < 0x10000
    ensures h < 0x10 ==> (h << 4) + d < 0x100
    ensures h < 0x100 ==> (h << 4) + d < 0x1000
    ensures h == 0 ==> (h << 4) + d < 0x10
  {
    hide I;
    AppendNibble(h, d);
    AppendSize(h, d);
  }

  function Chr(b: bv32): (c: char)
    requires b < 0x100
    ensures c as int == I(b)
  {
    (b as int) as char
  }

  /** `*--ptr2 = (uc | 0x80) & 0xBF; uc >>= 6` */
  method PutContinuation(out: array<char>, end: nat, uc: bv32) returns (ptr: nat, more: bv32)
    requires 0 < end <= out.Length && uc < 0x20_0000
    modifies out
    ensures ptr == end - 1 && I(more) == I(uc) / 64 && more < 0x20_0000
    ensures out[ptr] as int == 0x80 + I(uc) % 64
    ensures forall k :: 0 <= k < out.Length && k != ptr ==> out[k] == old(out[k])
  {
    hide I;
    SixBits(uc);
    SixBitsLess(uc);
    ptr := end - 1;
    out[ptr] := Chr((uc | 0x80) & 0xBF);
    more := uc >> 6;
  }

  lemma SixBitsLess(uc: bv32)
    requires uc < 0x20_0000
    ensures uc >> 6 < 0x20_0000 && (uc | 0x80) & 0xBF < 0x100
  {
  }

  /** The mark of a sequence of `len` bytes. */
  function FirstByteMark(len: nat): bv32 {
    if len == 4 then 0xF0 else if len == 3 then 0xE0 else if len == 2 then 0xC0 else 0
  }

  lemma Marked(uc: bv32, len: nat)
    requires 1 <= len <= 4 && 0 <= I(uc) < if len == 1 then 0x80 else if len == 2 then 0x20 else if len == 3 then 0x10 else 8
    ensures uc | FirstByteMark(len) < 0x100
    ensures I(uc | FirstByteMark(len)) == I(uc) + if len == 1 then 0 else if len == 2 then 0xC0 else if len == 3 then 0xE0 else 0xF0
  {
    FirstByte(uc);
    assert len == 2 ==> uc < 0x20;
    assert len == 3 ==> uc < 0x10;
    assert len == 4 ==> uc < 0x08;
    assert len == 1 ==> uc < 0x80;
  }

  lemma Sextets(u: int)
    requires 0 <= u < 0x11_0000
    ensures u / 64 / 64 == u / 0x1000 && u / 64 / 64 / 64 == u / 0x40000
    ensures u < 0x800 ==> u / 64 < 0x20
    ensures u < 0x10000 ==> u / 0x1000 < 0x10
    ensures u / 0x40000 < 8
  {
  }

  /** Code point `code` as UTF-8 from index `n` on, last byte first. */
  method WriteUtf8(out: array<char>, n: nat, code: bv32) returns (end: nat)
    requires 0 < I(code) < 0x11_0000 && n + |Utf8(I(code))| <= out.Length
    modifies out
    ensures end == n + |Utf8(I(code))|
    ensures forall k :: n <= k < end ==> out[k] == Utf8(I(code))[k - n]
    ensures forall k :: 0 <= k < n ==> out[k] == old(out[k])
  {
    hide I;
    Order(code);
    Sextets(I(code));
    var uc := code;
    var len := 4;
    if uc < 0x80 {
      len := 1;
    } else if uc < 0x800 {
      len := 2;
    } else if uc < 0x10000 {
      len := 3;
    }
    end := n + len;
    var ptr := end;
    if len == 4 {
      ptr, uc := PutContinuation(out, ptr, uc);
    }
    if len >= 3 {
      ptr, uc := PutContinuation(out, ptr, uc);
    }
    if len >= 2 {
      ptr, uc := PutContinuation(out, ptr, uc);
    }
    Marked(uc, len);
    ptr := ptr - 1;
    out[ptr] := Chr(uc | FirstByteMark(len));
  }

  /** The first pass: how long the string can get. */
  method CountPass(s: string) returns (len: nat)
    requires WellFormed(s)
    ensures len == Count(s)
  {
    var ptr := s;
    len := 0;
    while At(ptr, 0) != '"' && At(ptr, 0) != NUL
      invariant WellFormed(ptr) && len + Count(ptr) == Count(s)
      decreases |ptr|
    {
      len := len + 1;
      var escape := ptr[0] == '\\';
      WellFormedNext(ptr);
      ptr := Drop(ptr, if escape then 2 else 1);
    }
  }

  lemma WellFormedNext(s: string)
    requires WellFormed(s) && s != "" && s[0] != '"'
    ensures WellFormed(Drop(s, if s[0] == '\\' then 2 else 1))
  {
    if s[0] == '\\' && s[1] == 'u' {
      var t := s[2..];
      assert IsHex(t[0]) && IsHex(t[1]) && IsHex(t[2]) && IsHex(t[3]);
      assert t[4..] == Drop(s, 6);
      assert t[1..][1..] == t[2..] && t[2..][1..] == t[3..] && t[3..][1..] == t[4..];
      assert WellFormed(t[4..]);
      assert WellFormed(t[3..]);
      assert WellFormed(t[2..]);
      assert WellFormed(t[1..]);
    }
  }

  /** The bytes that the front of a literal gives, and how much of the text it takes. */
  ghost function Front(s: string): (r: (string, nat))
    requires WellFormed(s) && s != "" && s[0] != '"'
  {
    if s[0] != '\\' then ([s[0]], 1)
    else if s[1] != 'u' then ([Escaped(s[1])], 2)
    else UnitFront(HexOf(s[2..]), Drop(s, 6))
  }

  predicate UnitAhead(s: string) { At(s, 0) == '\\' && At(s, 1) == 'u' }

  ghost function UnitFront(u: CodeUnit, t: string): (r: (string, nat)) {
    if Low(u) || u == 0 then ("", 6)
    else if !High(u) then (Utf8(u), 6)
    else if !UnitAhead(t) then ("", 6)
    else if Low(HexOf(Drop(t, 2))) then (Utf8(Pair(u, HexOf(Drop(t, 2)))), 12)
    else ("", 12)
  }

  /** A literal is its front and the rest of it. */
  ghost predicate Splits(s: string, bytes: string, k: nat) {
    && 0 < k <= |s| && WellFormed(s[k..])
    && Literal(s).1 == Literal(s[k..]).1
    && Transcode(Literal(s).0) == bytes + Transcode(Literal(s[k..]).0)
    && |bytes| + Count(s[k..]) <= Count(s)
  }

  lemma FrontAndRest(s: string)
    requires WellFormed(s) && s != "" && s[0] != '"'
    ensures Splits(s, Front(s).0, Front(s).1)
  {
    if UnitAhead(s) {
      var t, u := Drop(s, 6), HexOf(s[2..]);
      assert Front(s) == UnitFront(u, t);
      if High(u) {
        HighRest(s);
      } else {
        LowerRest(s);
      }
    } else {
      PlainRest(s);
    }
  }

  lemma PlainRest(s: string)
    requires WellFormed(s) && s != "" && s[0] != '"' && !UnitAhead(s)
    ensures Splits(s, Front(s).0, Front(s).1)
  {
    if s[0] != '\\' {
      Tail(Raw(s[0]), Literal(s[1..]).0);
    } else {
      Tail(Raw(Escaped(s[1])), Literal(s[2..]).0);
    }
  }

  lemma LowerRest(s: string)
    requires WellFormed(s) && UnitAhead(s) && !High(HexOf(s[2..]))
    ensures Splits(s, UnitFront(HexOf(s[2..]), Drop(s, 6)).0, 6)
  {
    var u, t := HexOf(s[2..]), s[6..];
    UnitSize(s);
    assert Literal(s) == ([Unit(u)] + Literal(t).0, Literal(t).1);
    Tail(Unit(u), Literal(t).0);
  }

  lemma HighRest(s: string)
    requires WellFormed(s) && UnitAhead(s) && High(HexOf(s[2..]))
    ensures Splits(s, UnitFront(HexOf(s[2..]), Drop(s, 6)).0, UnitFront(HexOf(s[2..]), Drop(s, 6)).1)
  {
    var u, t := HexOf(s[2..]), s[6..];
    UnitSize(s);
    assert Literal(s) == ([Unit(u)] + Literal(t).0, Literal(t).1);
    HighFront(u, t);
    hide Literal, Transcode, WellFormed, Count, HexOf;
    if UnitAhead(t) {
      assert Drop(t, 6) == s[12..];
    }
  }

  lemma Tail(p: Piece, pieces: seq<Piece>)
    ensures ([p] + pieces)[1..] == pieces
    ensures p.Raw? ==> Transcode([p] + pieces) == [p.c] + Transcode(pieces)
  {
  }

  lemma UnitSize(s: string)
    requires WellFormed(s) && UnitAhead(s)
    ensures |s| >= 6 && WellFormed(Drop(s, 6)) && Count(s) == 5 + Count(Drop(s, 6))
  {
    CountHex(s[2..]);
    assert Drop(s[2..], 4) == Drop(s, 6);
  }

  lemma HighFront(u: CodeUnit, t: string)
    requires High(u) && WellFormed(t)
    ensures var pieces := [Unit(u)] + Literal(t).0;
      && (!UnitAhead(t) ==> Transcode(pieces) == Transcode(Literal(t).0))
      && (UnitAhead(t) ==>
        && |t| >= 6 && Literal(t).1 == Literal(Drop(t, 6)).1 && WellFormed(Drop(t, 6)) && Count(t) == 5 + Count(Drop(t, 6))
        && Transcode(pieces) == UnitFront(u, t).0 + Transcode(Literal(Drop(t, 6)).0))
  {
    var pieces := [Unit(u)] + Literal(t).0;
    Tail(Unit(u), Literal(t).0);
    if UnitAhead(t) {
      UnitSize(t);
      var u2, others := HexOf(t[2..]), Literal(Drop(t, 6)).0;
      assert Literal(t).0 == [Unit(u2)] + others;
      assert pieces[1] == Unit(u2) && pieces[2..] == others;
    } else if t != "" && t[0] != '"' {
      assert Literal(t).0 != [] && Literal(t).0[0].Raw?;
    }
  }

  /** The bytes written are never more than the first pass counted. */
  lemma {:induction false} NeverMoreThanCounted(s: string)
    requires WellFormed(s)
    ensures |Transcode(Literal(s).0)| <= Count(s)
    decreases |s|
  {
    if s != "" && s[0] != '"' {
      FrontAndRest(s);
      NeverMoreThanCounted(s[Front(s).1..]);
    }
  }

  lemma AheadOf(last: string, t: string)
    requires last != "" && last[1..] == t
    ensures UnitAhead(t) <==> At(last, 1) == '\\' && At(last, 2) == 'u'
  {
    assert forall k: nat :: k < |t| ==> last[k + 1] == t[k];
    assert At(t, 0) == At(last, 1) && At(t, 1) == At(last, 2);
  }

  /** A `\u` escape; `ptr` is at its `u`, and the result at the last character it takes. */
  method DecodeUnit(out: array<char>, n: nat, ptr: string, ghost s: string) returns (end: nat, last: string)
    requires WellFormed(s) && UnitAhead(s) && ptr == s[1..]
    requires n + |Front(s).0| <= out.Length
    modifies out
    ensures end == n + |Front(s).0|
    ensures forall k :: n <= k < end ==> out[k] == Front(s).0[k - n]
    ensures forall k :: 0 <= k < n ==> out[k] == old(out[k])
    ensures |last| > 0 && Front(s).1 <= |s| && last[1..] == s[Front(s).1..]
  {
    hide I, Literal, Transcode, Utf8, HexOf;
    UnitSize(s);
    FrontAndRest(s);
    end := n;
    assert ptr[1..] == s[2..] && Drop(ptr, 4)[1..] == s[6..];
    var uc := ParseHex4(ptr[1..]);
    last := Drop(ptr, 4);
    AheadOf(last, s[6..]);
    Order(uc);
    Surrogates(uc);
    if 0xDC00 <= uc <= 0xDFFF || uc == 0 {
      return;
    }
    if 0xD800 <= uc <= 0xDBFF {
      if At(last, 1) != '\\' || At(last, 2) != 'u' {
        return;
      }
      UnitSize(s[6..]);
      assert last[3..] == s[8..] == s[6..][2..] && Drop(last, 6)[1..] == s[12..];
      var uc2 := ParseHex4(last[3..]);
      Surrogates(uc2);
      last := Drop(last, 6);
      if uc2 < 0xDC00 || uc2 > 0xDFFF {
        return;
      }
      Joined(uc, uc2);
      uc := 0x10000 + (((uc & 0x3FF) << 10) | (uc2 & 0x3FF));
      Order(uc);
    }
    end := WriteUtf8(out, n, uc);
  }

  /** One turn of the second pass. */
  method DecodeOne(out: array<char>, n: nat, ptr: string) returns (end: nat, next: string)
    requires WellFormed(ptr) && ptr != "" && ptr[0] != '"'
    requires n + |Front(ptr).0| <= out.Length
    modifies out
    ensures end == n + |Front(ptr).0|
    ensures out[..end] == old(out[..n]) + Front(ptr).0
    ensures Front(ptr).1 <= |ptr| && next == ptr[Front(ptr).1..]
  {
    hide Literal, Transcode, Utf8, HexOf;
    FrontAndRest(ptr);
    if ptr[0] != '\\' {
      out[n] := ptr[0];
      end, next := n + 1, ptr[1..];
    } else if ptr[1] == 'u' {
      end, next := DecodeUnit(out, n, ptr[1..], ptr);
      next := next[1..];
    } else {
      out[n] := Escaped(ptr[1]);
      end, next := n + 1, ptr[1..][1..];
    }
  }

  /** `parse_string` */
  method ParseText(s: string) returns (r: Parsed<string>)
    requires At(s, 0) == '"' ==> WellFormed(s[1..])
    ensures r == ParseString(s)
  {
    if At(s, 0) != '"' {
      return Fail(s);
    }
    var len := CountPass(s[1..]);
    var out := new char[len + 1];
    var ptr, n: nat := s[1..], 0;
    assert out[..0] == "";
    while At(ptr, 0) != '"' && At(ptr, 0) != NUL
      invariant WellFormed(ptr) && n + Count(ptr) <= len < out.Length
      invariant out[..n] + Transcode(Literal(ptr).0) == Transcode(Literal(s[1..]).0)
      invariant Literal(ptr).1 == Literal(s[1..]).1
      decreases |ptr|
    {
      FrontAndRest(ptr);
      ghost var was := ptr;
      Assoc(out[..n], Front(ptr).0, Transcode(Literal(ptr[Front(ptr).1..]).0));
      n, ptr := DecodeOne(out, n, ptr);
    }
    out[n] := NUL;
    if At(ptr, 0) == '"' {
      ptr := ptr[1..];
    }
    assert out[..n] + "" == out[..n];
    r := Done(out[..n], ptr);
  }

  /** Section 2.2 of RFC 2781, with what is in error there, an unpaired surrogate, left out, and a
      zero unit left out too, since no C string can hold it. */
  ghost function Reference(pieces: seq<Piece>): (s: string) {
    if pieces == [] then ""
    else if pieces[0].Raw? then [pieces[0].c] + Reference(pieces[1..])
    else
      var u := pieces[0].u;
      if High(u) && Paired(pieces) then Utf8(Pair(u, pieces[1].u)) + Reference(pieces[2..])
      else (if u == 0 || High(u) || Low(u) then "" else Utf8(u)) + Reference(pieces[1..])
  }

  predicate Paired(pieces: seq<Piece>) {
    |pieces| > 1 && pieces[1].Unit? && Low(pieces[1].u)
  }

  /** No high surrogate is followed, right where the parser meets it, by a unit other than its low
      surrogate that stands for a character, by itself or with the unit after it. */
  ghost predicate Lossless(pieces: seq<Piece>) {
    pieces == [] ||
    if pieces[0].Unit? && High(pieces[0].u) && |pieces| > 1 && pieces[1].Unit? then
      (Low(pieces[1].u) || pieces[1].u == 0 || (High(pieces[1].u) && !Paired(pieces[1..]))) && Lossless(pieces[2..])
    else Lossless(pieces[1..])
  }

  /** What the parser stores is the reference decoding exactly when it swallows nothing. */
  lemma {:induction false} DecodesUtf16(pieces: seq<Piece>)
    ensures |Transcode(pieces)| <= |Reference(pieces)|
    ensures Transcode(pieces) == Reference(pieces) <==> Lossless(pieces)
    decreases |pieces|
  {
    if pieces == [] {
    } else if pieces[0].Unit? && High(pieces[0].u) && |pieces| > 1 && pieces[1].Unit? {
      DecodesUtf16(pieces[2..]);
      if Low(pieces[1].u) {
        Prefixed(Utf8(Pair(pieces[0].u, pieces[1].u)), Transcode(pieces[2..]), Reference(pieces[2..]));
      } else {
        Swallowed(pieces);
      }
    } else {
      DecodesUtf16(pieces[1..]);
      var front := if pieces[0].Raw? then [pieces[0].c]
        else if High(pieces[0].u) || Low(pieces[0].u) || pieces[0].u == 0 then ""
        else Utf8(pieces[0].u);
      Prefixed(front, Transcode(pieces[1..]), Reference(pieces[1..]));
      assert Transcode(pieces) == front + Transcode(pieces[1..]);
      assert Reference(pieces) == front + Reference(pieces[1..]);
    }
  }

  lemma Swallowed(pieces: seq<Piece>)
    requires |pieces| > 1 && pieces[0].Unit? && High(pieces[0].u) && pieces[1].Unit? && !Low(pieces[1].u)
    requires |Transcode(pieces[2..])| <= |Reference(pieces[2..])|
    ensures Transcode(pieces) == Transcode(pieces[2..])
    ensures if pieces[1].u == 0 || (High(pieces[1].u) && !Paired(pieces[1..])) then Reference(pieces) == Reference(pieces[2..])
      else |Transcode(pieces)| < |Reference(pieces)|
  {
    var p1, p2, u1 := pieces[1..], pieces[2..], pieces[1].u;
    assert p1[1..] == p2 && p1[0] == pieces[1];
    assert Transcode(pieces) == "" + Transcode(p2);
    assert Reference(pieces) == "" + Reference(p1);
    if u1 == 0 || (High(u1) && !Paired(p1)) {
      assert Reference(p1) == "" + Reference(p2);
    } else if High(u1) {
      assert p1[2..] == p2[1..] && p1[1] == p2[0];
      assert Transcode(p2) == Transcode(p2[1..]);
      assert Reference(p2) == "" + Reference(p2[1..]);
      assert Reference(p1) == Utf8(Pair(u1, p2[0].u)) + Reference(p2[1..]);
    } else {
      assert Reference(p1) == Utf8(u1) + Reference(p2);
    }
  }

  /** A text of two escapes, an unpaired surrogate and a letter: the letter is lost with the surrogate. */
  lemma SwallowsALetter()
    ensures WellFormed("\\uD800\\u0041\"") && ParseString("\"\\uD800\\u0041\"") == Done("", "")
    ensures Reference(Literal("\\uD800\\u0041\"").0) == "A"
  {
    var s, pieces := "\\uD800\\u0041\"", [Unit(0xD800), Unit(0x41)];
    SwallowedUnits();
    hide Literal, WellFormed;
    assert ("\"" + s)[1..] == s;
    assert pieces[2..] == [] && pieces[1..] == [Unit(0x41)] && pieces[1..][1..] == [];
    assert Transcode(pieces) == "";
    assert Reference(pieces[1..]) == "A";
    assert Reference(pieces) == "A";
  }

  lemma SwallowedUnits()
    ensures var s := "\\uD800\\u0041\""; WellFormed(s) && Literal(s) == ([Unit(0xD800), Unit(0x41)], "")
  {
    var s, t, q := "\\uD800\\u0041\"", "\\u0041\"", "\"";
    assert Literal(q) == ([], "") && WellFormed(q);
    EscapeInFront('0', '0', '4', '1', q);
    assert t == ['\\', 'u', '0', '0', '4', '1'] + q;
    assert [Unit(0x41)] + [] == [Unit(0x41)];
    assert Literal(t) == ([Unit(0x41)], "");
    EscapeInFront('D', '8', '0', '0', t);
    assert s == ['\\', 'u', 'D', '8', '0', '0'] + t;
    assert [Unit(0xD800)] + [Unit(0x41)] == [Unit(0xD800), Unit(0x41)];
  }

  lemma EscapeInFront(a: char, b: char, c: char, d: char, rest: string)
    requires IsHex(a) && IsHex(b) && IsHex(c) && IsHex(d)
    ensures var s, l := ['\\', 'u', a, b, c, d] + rest, Literal(rest);
      && Literal(s) == ([Unit(HexValue(a) * 0x1000 + HexValue(b) * 0x100 + HexValue(c) * 0x10 + HexValue(d))] + l.0, l.1)
      && (WellFormed(rest) ==> WellFormed(s))
  {
    var s := ['\\', 'u', a, b, c, d] + rest;
    assert Drop(s, 6) == rest && Drop(s, 2) == s[2..] == [a, b, c, d] + rest;
    assert FourHex(s[2..]);
  }

  lemma Prefixed(a: string, b: string, c: string)
    ensures a + b == a + c <==> b == c
  {
    if a + b == a + c {
      assert b == (a + b)[|a|..] && c == (a + c)[|a|..];
    }
  }
}
