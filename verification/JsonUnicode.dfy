/** The escapes of string literals against the standards: the parser's UTF-8, and its surrogate pairs. */
module JsonUnicode {
  import opened JsonText

  datatype Point = Point(u: bv32) | Malformed

  function Bits(b: Byte): bv32 {
    (b & 0x3F) as bv32
  }

  // Six more bits.
  function Six(u: bv32, b: Byte): bv32 {
    (u << 6) + Bits(b)
  }

  predicate IsTrail(b: Byte) {
    b & 0xC0 == 0x80
  }

  /** The character that a sequence of bytes is the UTF-8 form of, by the table in section 3 of RFC 3629: as many
      bytes as the character needs, none above 10FFFF, no surrogates. */
  function Utf8(t: Text): Point {
    if |t| == 1 && t[0] < 0x80 then Point(t[0] as bv32)
    else if |t| == 2 && t[0] & 0xE0 == 0xC0 && IsTrail(t[1]) then
      InRange(Six((t[0] & 0x1F) as bv32, t[1]), 0x80, 0x7FF)
    else if |t| == 3 && t[0] & 0xF0 == 0xE0 && IsTrail(t[1]) && IsTrail(t[2]) then
      InRange(Six(Six((t[0] & 0x0F) as bv32, t[1]), t[2]), 0x800, 0xFFFF)
    else if |t| == 4 && t[0] & 0xF8 == 0xF0 && IsTrail(t[1]) && IsTrail(t[2]) && IsTrail(t[3]) then
      InRange(Six(Six(Six((t[0] & 0x07) as bv32, t[1]), t[2]), t[3]), 0x10000, 0x10FFFF)
    else Malformed
  }

  function InRange(u: bv32, lo: bv32, hi: bv32): Point {
    if lo <= u <= hi && !IsHigh(u) && !IsLow(u) then Point(u) else Malformed
  }

  lemma OneByte(u: bv32)
    requires u < 0x80
    ensures (u as bv8) < 0x80 && (u as bv8) as bv32 == u
  {
  }

  lemma TrailIs(u: bv32)
    ensures IsTrail(Trail(u))
  {
  }

  lemma TwoBytes(u: bv32)
    requires u < 0x800
    ensures ((u >> 6) | 0xC0) as bv8 & 0xE0 == 0xC0 && Six((((u >> 6) | 0xC0) as bv8 & 0x1F) as bv32, Trail(u)) == u
  {
  }

  lemma ThreeBytes(u: bv32)
    requires u < 0x10000
    ensures ((u >> 12) | 0xE0) as bv8 & 0xF0 == 0xE0
    ensures Six(Six((((u >> 12) | 0xE0) as bv8 & 0x0F) as bv32, Trail(u >> 6)), Trail(u)) == u
  {
  }

  lemma FourBytes(u: bv32)
    requires u < 0x200000
    ensures ((u >> 18) | 0xF0) as bv8 & 0xF8 == 0xF0
    ensures Six(Six(Six((((u >> 18) | 0xF0) as bv8 & 0x07) as bv32, Trail(u >> 12)), Trail(u >> 6)), Trail(u)) == u
  {
  }

  // The table, line by line.
  lemma Line1(t: Text, u: bv32)
    requires |t| == 1 && t[0] < 0x80 && t[0] as bv32 == u
    ensures Utf8(t) == Point(u)
  {
  }

  lemma Line2(t: Text, u: bv32)
    requires |t| == 2 && t[0] & 0xE0 == 0xC0 && IsTrail(t[1]) && Six((t[0] & 0x1F) as bv32, t[1]) == u && 0x80 <= u < 0x800
    ensures Utf8(t) == Point(u)
  {
    hide Six;
    hide IsTrail;
  }

  lemma Line3(t: Text, u: bv32)
    requires |t| == 3 && t[0] & 0xF0 == 0xE0 && IsTrail(t[1]) && IsTrail(t[2]) && !IsHigh(u) && !IsLow(u)
    requires Six(Six((t[0] & 0x0F) as bv32, t[1]), t[2]) == u && 0x800 <= u < 0x10000
    ensures Utf8(t) == Point(u)
  {
    hide Six;
    hide IsTrail;
  }

  lemma Line4(t: Text, u: bv32)
    requires |t| == 4 && t[0] & 0xF8 == 0xF0 && IsTrail(t[1]) && IsTrail(t[2]) && IsTrail(t[3])
    requires Six(Six(Six((t[0] & 0x07) as bv32, t[1]), t[2]), t[3]) == u && 0x10000 <= u < 0x110000
    ensures Utf8(t) == Point(u)
  {
    hide Six;
    hide IsTrail;
  }

  /** Whatever is a character is written as its UTF-8 form. */
  lemma EncodeIsUtf8(u: bv32)
    requires u < 0x110000 && !IsHigh(u) && !IsLow(u)
    ensures Utf8(Encode(u)) == Point(u)
  {
    hide IsTrail;
    hide Trail;
    hide Six;
    hide Utf8;
    TrailIs(u);
    TrailIs(u >> 6);
    TrailIs(u >> 12);
    if u < 0x80 {
      OneByte(u);
      Line1(Encode(u), u);
    } else if u < 0x800 {
      TwoBytes(u);
      Line2(Encode(u), u);
    } else if u < 0x10000 {
      ThreeBytes(u);
      Line3(Encode(u), u);
    } else {
      FourBytes(u);
      Line4(Encode(u), u);
    }
  }

  /** The character that a surrogate pair stands for, by section 2.2 of RFC 2781: the ten low bits of both halves form
      a number to which 10000 (hexadecimal) is added. */
  function PairValue(high: bv32, low: bv32): bv32 {
    (((high & 0x3FF) << 10) | (low & 0x3FF)) + 0x10000
  }

  lemma Carry(high: bv32, low: bv32)
    ensures Joined(high, low) == PairValue(high, low) <==> high & 0x40 == 0
  {
  }

  lemma NoCarry(high: bv32, low: bv32)
    ensures high & 0x40 != 0 ==> Joined(high, low) + 0x10000 == PairValue(high, low)
  {
  }

  /** The parser joins the two halves with an "or" where an addition is needed: it is right exactly for the pairs
      without a carry, and otherwise misses by 10000 (hexadecimal). */
  lemma PairIsRight(high: bv32, low: bv32)
    ensures Joined(high, low) == PairValue(high, low) <==> high & 0x40 == 0
    ensures high & 0x40 != 0 ==> Joined(high, low) + 0x10000 == PairValue(high, low)
  {
    Carry(high, low);
    NoCarry(high, low);
  }

  /** A pair that is read wrongly: U+20000 comes out as U+10000. */
  lemma WrongPair()
    ensures IsHigh(0xD840) && IsLow(0xDC00) && PairValue(0xD840, 0xDC00) == 0x20000 && Joined(0xD840, 0xDC00) == 0x10000
  {
  }

  // ----- Tables -----

  const LOWER_DIGITS := "0123456789abcdef"
  const UPPER_DIGITS := "0123456789ABCDEF"

  /** The character stands for the hexadecimal digit `n`, in either case. */
  predicate IsNibble(c: Byte, n: nat) {
    n < 16 && (c as int == LOWER_DIGITS[n] as int || c as int == UPPER_DIGITS[n] as int)
  }

  lemma NibbleIsHex(c: Byte, n: nat)
    requires IsNibble(c, n)
    ensures IsHex(c) && HexValue(c) as int == n
  {
  }

  lemma HexIsNibble(c: Byte)
    requires IsHex(c)
    ensures HexValue(c) < 16 && IsNibble(c, HexValue(c) as nat)
  {
  }

  lemma NextNibble(x: bv32, y: bv32)
    requires x < 0x1000 && y < 16
    ensures HexNext(x, y) as int == 16 * (x as int) + y as int
  {
    assert x * 16 + y < 16 * (x + 1);
    assert (x * 16 + y) as int == 16 * (x as int) + y as int;
  }

  lemma NextBound(x: bv32, y: bv32)
    requires y < 16
    ensures x < 16 ==> HexNext(x, y) < 0x100
    ensures x < 0x100 ==> HexNext(x, y) < 0x1000
  {
  }

  /** Four hexadecimal digits are the number that they denote. */
  lemma HexCodeDenotes(a: Byte, b: Byte, c: Byte, d: Byte, w: nat, x: nat, y: nat, z: nat)
    requires IsNibble(a, w) && IsNibble(b, x) && IsNibble(c, y) && IsNibble(d, z)
    ensures IsHex(a) && IsHex(b) && IsHex(c) && IsHex(d)
    ensures HexCode(a, b, c, d) as int == 4096 * w + 256 * x + 16 * y + z
  {
    NibbleIsHex(a, w);
    NibbleIsHex(b, x);
    NibbleIsHex(c, y);
    NibbleIsHex(d, z);
    HexBound(a);
    HexBound(b);
    HexBound(c);
    HexBound(d);
    hide HexValue, IsNibble, HexNext, IsHex;
    NextBound(HexValue(a), HexValue(b));
    NextBound(HexNext(HexValue(a), HexValue(b)), HexValue(c));
    NextNibble(HexValue(a), HexValue(b));
    NextNibble(HexNext(HexValue(a), HexValue(b)), HexValue(c));
    NextNibble(HexNext(HexNext(HexValue(a), HexValue(b)), HexValue(c)), HexValue(d));
  }

  /** The escapes of one letter by section 7 of RFC 8259, and the characters that they stand for: quotation mark,
      backslash, slash, backspace, form feed, line feed, carriage return and tab. */
  const SHORT_NAMES: string := "\"\\/bfnrt"
  const SHORT_CHARS: seq<Byte> := [0x22, 0x5C, 0x2F, 0x08, 0x0C, 0x0A, 0x0D, 0x09]

  lemma ShortEscapes(e: Byte, k: nat)
    requires k < |SHORT_NAMES| && e as int == SHORT_NAMES[k] as int
    ensures SimpleEscape(e) == SHORT_CHARS[k]
  {
  }

  /** Behind a backslash every other character but `u` stands for itself. */
  lemma OtherEscapes(e: Byte)
    requires forall k :: 0 <= k < |SHORT_NAMES| ==> e as int != SHORT_NAMES[k] as int
    ensures SimpleEscape(e) == e
  {
    assert e as int != SHORT_NAMES[3] as int && e as int != SHORT_NAMES[4] as int && e as int != SHORT_NAMES[5] as int;
    assert e as int != SHORT_NAMES[6] as int && e as int != SHORT_NAMES[7] as int;
  }

  lemma HexBound(c: Byte)
    requires IsHex(c)
    ensures HexValue(c) < 16
  {
  }

  lemma HexCodeBound(a: Byte, b: Byte, c: Byte, d: Byte)
    requires IsHex(a) && IsHex(b) && IsHex(c) && IsHex(d)
    ensures HexCode(a, b, c, d) < 0x10000
  {
    hide HexValue;
    HexBound(a);
    HexBound(b);
    HexBound(c);
    HexBound(d);
  }

  /** The two rules for escapes, as the parser applies them. */
  lemma EscapeOfCharacter(s: Text, i: nat)
    requires i + 5 < |s| && At(s, i + 1) == 0x75 && HasHex4(s, i + 2)
    requires Hex4(s, i + 2) != 0 && !IsHigh(Hex4(s, i + 2)) && !IsLow(Hex4(s, i + 2))
    ensures ReadEscape(s, i).Piece? && ReadEscape(s, i).next == i + 6
    ensures Utf8(ReadEscape(s, i).bytes) == Point(Hex4(s, i + 2))
  {
    var u := Hex4(s, i + 2);
    HexCodeBound(At(s, i + 2), At(s, i + 3), At(s, i + 4), At(s, i + 5));
    hide HexCode;
    hide HexValue;
    hide Utf8;
    EncodeIsUtf8(u);
  }

  lemma NumberOf(u: bv32)
    ensures u as int == 0 <==> u == 0
    ensures 0xD800 <= u <==> 0xD800 <= u as int
    ensures u <= 0xDFFF <==> u as int <= 0xDFFF
  {
  }

  /** An escape with four digits gives the UTF-8 form of the character whose number the digits denote. */
  lemma EscapeDenotes(s: Text, i: nat, w: nat, x: nat, y: nat, z: nat)
    requires i + 5 < |s| && At(s, i + 1) as int == 'u' as int
    requires IsNibble(At(s, i + 2), w) && IsNibble(At(s, i + 3), x) && IsNibble(At(s, i + 4), y) && IsNibble(At(s, i + 5), z)
    requires var n := 4096 * w + 256 * x + 16 * y + z; n != 0 && !(0xD800 <= n <= 0xDFFF)
    ensures ReadEscape(s, i).Piece? && ReadEscape(s, i).next == i + 6
    ensures Utf8(ReadEscape(s, i).bytes).Point? && Utf8(ReadEscape(s, i).bytes).u as int == 4096 * w + 256 * x + 16 * y + z
  {
    HexCodeDenotes(At(s, i + 2), At(s, i + 3), At(s, i + 4), At(s, i + 5), w, x, y, z);
    hide IsNibble, HexCode, ReadEscape, Utf8;
    assert HasHex4(s, i + 2);
    NumberOf(Hex4(s, i + 2));
    EscapeOfCharacter(s, i);
  }

  /** The arithmetic of section 2.2 of RFC 2781. */
  lemma PairValueIs(high: bv32, low: bv32)
    requires IsHigh(high) && IsLow(low)
    ensures PairValue(high, low) == 0x10000 + (high - 0xD800) * 0x400 + (low - 0xDC00)
  {
  }

  lemma PairRange(high: bv32, low: bv32)
    requires IsHigh(high) && IsLow(low)
    ensures 0x10000 <= Joined(high, low) < 0x110000
  {
  }

  lemma EscapeOfPair(s: Text, i: nat)
    requires i + 11 < |s| && At(s, i + 1) == 0x75 && HasHex4(s, i + 2) && IsHigh(Hex4(s, i + 2))
    requires At(s, i + 6) == BACKSLASH && At(s, i + 7) == 0x75 && HasHex4(s, i + 8) && IsLow(Hex4(s, i + 8))
    ensures ReadEscape(s, i).Piece? && ReadEscape(s, i).next == i + 12
    ensures Utf8(ReadEscape(s, i).bytes) == Point(PairValue(Hex4(s, i + 2), Hex4(s, i + 8))) <==> Hex4(s, i + 2) & 0x40 == 0
  {
    var high, low := Hex4(s, i + 2), Hex4(s, i + 8);
    PairIsRight(high, low);
    PairRange(high, low);
    NotSurrogate(Joined(high, low));
    EncodeIsUtf8(Joined(high, low));
    HighNotZero(high);
    hide Hex4;
    hide HexValue;
    hide Utf8;
    hide Joined;
    hide PairValue;
    hide Encode;
  }

  lemma NotSurrogate(u: bv32)
    requires 0x10000 <= u
    ensures !IsHigh(u) && !IsLow(u)
  {
  }

  lemma HighNotZero(u: bv32)
    requires IsHigh(u)
    ensures u != 0 && !IsLow(u)
  {
  }

  // ----- The counting pass -----

  /** What the first pass over a string literal counts, and where it stops. */
  function Counted(s: Text, i: nat): (nat, nat)
    decreases |s| - i
  {
    if At(s, i) == QUOTE || At(s, i) == 0 then (0, i)
    else
      var rest := Counted(s, if s[i] == BACKSLASH then i + 2 else i + 1);
      (rest.0 + 1, rest.1)
  }

  lemma CountPlain(s: Text, i: nat)
    requires At(s, i) != QUOTE && At(s, i) != 0 && At(s, i) != BACKSLASH
    ensures Counted(s, i) == (Counted(s, i + 1).0 + 1, Counted(s, i + 1).1)
  {
  }

  lemma HexIsPlain(c: Byte)
    requires IsHex(c)
    ensures c != QUOTE && c != 0 && c != BACKSLASH
  {
  }

  lemma CountHex4(s: Text, i: nat)
    requires HasHex4(s, i)
    ensures Counted(s, i) == (Counted(s, i + 4).0 + 4, Counted(s, i + 4).1)
  {
    hide IsHex;
    HexIsPlain(At(s, i));
    HexIsPlain(At(s, i + 1));
    HexIsPlain(At(s, i + 2));
    HexIsPlain(At(s, i + 3));
    CountPlain(s, i);
    CountPlain(s, i + 1);
    CountPlain(s, i + 2);
    CountPlain(s, i + 3);
  }

  // An escape is counted with at least as much as it is decoded to.
  lemma CountEscape(s: Text, i: nat)
    requires i < |s| && s[i] == BACKSLASH && ReadEscape(s, i).Piece?
    ensures var p := ReadEscape(s, i);
      Counted(s, i).1 == Counted(s, p.next).1 && Counted(s, i).0 >= Counted(s, p.next).0 + |p.bytes|
  {
    var p := ReadEscape(s, i);
    assert Counted(s, i) == (Counted(s, i + 2).0 + 1, Counted(s, i + 2).1);
    if At(s, i + 1) == 0x75 {
      CountHex4(s, i + 2);
      if p.next == i + 12 {
        assert Counted(s, i + 6) == (Counted(s, i + 8).0 + 1, Counted(s, i + 8).1);
        CountHex4(s, i + 8);
      }
    }
  }

  /** The buffer that the first pass orders holds what the second pass decodes. */
  lemma {:induction false} CountCovers(s: Text, i: nat)
    requires ReadChars(s, i).Piece?
    ensures Counted(s, i).1 == ReadChars(s, i).next && Counted(s, i).0 >= |ReadChars(s, i).bytes|
    decreases |s| - i
  {
    if At(s, i) != QUOTE && At(s, i) != 0 {
      if At(s, i) == BACKSLASH {
        CountEscape(s, i);
        CountCovers(s, ReadEscape(s, i).next);
      } else {
        CountCovers(s, i + 1);
      }
    }
  }
}
