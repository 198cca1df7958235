/** The bit operations on code points, as arithmetic. */
module JsonBits {

  ghost function I(b: bv32): int { b as int }

  lemma Nibble(v: int)
    requires 0 <= v < 16
    ensures I(v as bv32) == v && v as bv32 < 16
  {
  }

  lemma AppendNibble(h: bv32, d: bv32)
    requires h < 0x1000 && d < 16
    ensures I((h << 4) + d) == I(h) * 16 + I(d)
  {
  }

  lemma AppendSize(h: bv32, d: bv32)
    requires h < 0x1000 && d < 16
    ensures (h << 4) + d < 0x10000
    ensures h < 0x10 ==> (h << 4) + d < 0x100
    ensures h < 0x100 ==> (h << 4) + d < 0x1000
  {
  }

  lemma Order(b: bv32)
    ensures I(b) >= 0 && (b == 0 <==> I(b) == 0)
    ensures b < 0x80 <==> I(b) < 0x80
    ensures b < 0x800 <==> I(b) < 0x800
    ensures b < 0x10000 <==> I(b) < 0x10000
    ensures b < 0x11_0000 <==> I(b) < 0x11_0000
  {
  }

  lemma Surrogates(b: bv32)
    ensures 0xD800 <= b <= 0xDBFF <==> 0xD800 <= I(b) <= 0xDBFF
    ensures 0xDC00 <= b <= 0xDFFF <==> 0xDC00 <= I(b) <= 0xDFFF
  {
  }

  lemma Joined(high: bv32, low: bv32)
    requires 0xD800 <= high <= 0xDBFF && 0xDC00 <= low <= 0xDFFF
    ensures var u := 0x10000 + (((high & 0x3FF) << 10) | (low & 0x3FF));
      I(u) == 0x10000 + (I(high) - 0xD800) * 0x400 + (I(low) - 0xDC00) && 0x10000 <= u < 0x11_0000
  {
    assert 0x10000 + (((high & 0x3FF) << 10) | (low & 0x3FF)) == 0x10000 + (high - 0xD800) * 0x400 + (low - 0xDC00);
  }

  lemma Upper(x: bv32)
    requires x < 0x20_0000
    ensures I(x) == I(x >> 12) * 4096 + I(x & 0xFFF)
  {
  }

  lemma Lower(x: bv32)
    requires x < 0x20_0000
    ensures I(x & 0xFFF) == I((x >> 6) & 0x3F) * 64 + I(x & 0x3F)
  {
  }

  lemma Middle(x: bv32)
    requires x < 0x20_0000
    ensures I(x >> 6) == I(x >> 12) * 64 + I((x >> 6) & 0x3F)
  {
  }

  lemma Continuation(x: bv32)
    ensures 0 <= I(x & 0x3F) < 64 && I((x | 0x80) & 0xBF) == 0x80 + I(x & 0x3F)
  {
    assert (x | 0x80) & 0xBF == 0x80 | (x & 0x3F);
  }

  /** The last six bits, with the mark of a continuation byte, and the bits before them. */
  lemma SixBits(x: bv32)
    requires x < 0x20_0000
    ensures I(x >> 6) == I(x) / 64
    ensures I((x | 0x80) & 0xBF) == 0x80 + I(x) % 64
  {
    hide I;
    Upper(x);
    Lower(x);
    Middle(x);
    Continuation(x);
  }

  /** What is left of a code point goes into the first byte, with the mark of the length. */
  lemma FirstByte(x: bv32)
    ensures x | 0 == x
    ensures x < 0x20 ==> I(x | 0xC0) == 0xC0 + I(x)
    ensures x < 0x10 ==> I(x | 0xE0) == 0xE0 + I(x)
    ensures x < 0x08 ==> I(x | 0xF0) == 0xF0 + I(x)
  {
  }
}
