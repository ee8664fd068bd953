/** Reading what was printed gives the same value back, and stops behind it. */
module JsonRoundTrip {
  import opened JsonText

  // ----- Pieces of text -----

  lemma BeginsConcat(s: Text, i: nat, t: Text, u: Text)
    requires Begins(s, i, t + u)
    ensures Begins(s, i, t) && Begins(s, i + |t|, u)
  {
    assert s[i..i + |t|] == s[i..i + |t + u|][..|t|];
    assert s[i + |t|..i + |t| + |u|] == s[i..i + |t + u|][|t|..];
  }

  lemma BeginsAt(s: Text, i: nat, t: Text, k: nat)
    requires Begins(s, i, t) && k < |t|
    ensures i + k < |s| && s[i + k] == t[k]
  {
    assert s[i..i + |t|][k] == t[k];
  }

  lemma BeginsJoin(s: Text, i: nat, t: Text, u: Text)
    requires Begins(s, i, t) && Begins(s, i + |t|, u)
    ensures Begins(s, i, t + u)
  {
    assert s[i..i + |t + u|] == s[i..i + |t|] + s[i + |t|..i + |t| + |u|];
  }

  /** White space is skipped, up to something else. */
  lemma {:induction false} SkipBlank(s: Text, i: nat, j: nat)
    requires i <= j <= |s| && (forall k :: i <= k < j ==> 0 < s[k] <= 32) && !(0 < At(s, j) <= 32)
    ensures Skip(s, i) == j
    decreases j - i
  {
    if i < j {
      SkipBlank(s, i + 1, j);
    }
  }

  // ----- Numbers -----

  lemma DigitBack(d: int)
    requires 0 <= d < 10
    ensures IsDigit(DigitOf(d)) && (DigitOf(d) - 0x30) as int == d && (d > 0 ==> DigitOf(d) >= 0x31)
  {
    assert d == 0 || d == 1 || d == 2 || d == 3 || d == 4 || d == 5 || d == 6 || d == 7 || d == 8 || d == 9;
  }

  lemma OneDigit(s: Text, i: nat, acc: nat, d: int)
    requires 0 <= d < 10 && Begins(s, i, [DigitOf(d)])
    ensures ReadDigits(s, i, acc) == ReadDigits(s, i + 1, acc * 10 + d)
  {
    DigitBack(d);
    BeginsAt(s, i, [DigitOf(d)], 0);
    hide DigitOf;
  }

  lemma {:induction false} DigitsBack(s: Text, i: nat, n: nat)
    requires Begins(s, i, Digits(n))
    ensures ReadDigits(s, i, 0) == ReadDigits(s, i + |Digits(n)|, n)
  {
    hide Begins;
    hide DigitOf;
    hide ReadDigits;
    if n < 10 {
      OneDigit(s, i, 0, n);
    } else {
      BeginsConcat(s, i, Digits(n / 10), [DigitOf(n % 10)]);
      DigitsBack(s, i, n / 10);
      OneDigit(s, i + |Digits(n / 10)|, n / 10, n % 10);
    }
  }

  lemma {:induction false} FirstDigit(n: nat)
    ensures |Digits(n)| > 0 && IsDigit(Digits(n)[0]) && (n > 0 ==> Digits(n)[0] >= 0x31)
  {
    if n < 10 {
      DigitBack(n);
    } else {
      FirstDigit(n / 10);
    }
  }

  // Nothing that would continue a number.
  predicate Stops(c: Byte) {
    !IsDigit(c) && c != DOT && c != 0x65 && c != 0x45
  }

  lemma NumberBack(s: Text, i: nat, n: int)
    requires INT_MIN <= n <= INT_MAX && Begins(s, i, Decimal(n)) && Stops(At(s, i + |Decimal(n)|))
    ensures i < |s| && (s[i] == MINUS || IsDigit(s[i])) && ReadNumber(s, i) == Ok(n, i + |Decimal(n)|)
  {
    hide Begins;
    hide DigitOf;
    hide Digits;
    hide ReadDigits;
    var m := if n < 0 then -n else n;
    FirstDigit(m);
    if n < 0 {
      BeginsConcat(s, i, [MINUS], Digits(m));
      BeginsAt(s, i, [MINUS], 0);
    }
    var i1 := if n < 0 then i + 1 else i;
    BeginsAt(s, i1, Digits(m), 0);
    DigitsBack(s, i1, m);
    NoMoreDigits(s, i1 + |Digits(m)|, m);
    if m == 0 {
      Zero();
    }
  }

  lemma NoMoreDigits(s: Text, i: nat, acc: nat)
    requires !IsDigit(At(s, i))
    ensures ReadDigits(s, i, acc) == (acc, i)
  {
  }

  lemma Zero()
    ensures Digits(0) == [0x30]
  {
    DigitBack(0);
  }

  // ----- Strings -----

  lemma HexBack(c: Byte)
    requires 0 < c < 32
    ensures c >> 4 < 16 && c & 15 < 16 && IsHex(0x30) && IsHex(HexDigit(c >> 4)) && IsHex(HexDigit(c & 15))
    ensures ((HexValue(0x30) * 16 + HexValue(0x30)) * 16 + HexValue(HexDigit(c >> 4))) * 16 + HexValue(HexDigit(c & 15)) == c as bv32
    ensures Encode(c as bv32) == [c] && c as bv32 != 0 && !IsHigh(c as bv32) && !IsLow(c as bv32)
  {
  }

  lemma ControlBack(s: Text, i: nat, c: Byte)
    requires 0 < c < 32 && Begins(s, i, [BACKSLASH, 0x75, 0x30, 0x30, HexDigit(c >> 4), HexDigit(c & 15)])
    ensures i < |s| && s[i] == BACKSLASH && ReadEscape(s, i) == Piece([c], i + 6)
  {
    var t := [BACKSLASH, 0x75, 0x30, 0x30, HexDigit(c >> 4), HexDigit(c & 15)];
    BeginsAt(s, i, t, 0);
    BeginsAt(s, i, t, 1);
    BeginsAt(s, i, t, 2);
    BeginsAt(s, i, t, 3);
    BeginsAt(s, i, t, 4);
    BeginsAt(s, i, t, 5);
    HexBack(c);
    hide HexValue;
    hide HexDigit;
    hide IsHex;
    hide Encode;
  }

  lemma ShortBack(s: Text, i: nat, c: Byte, e: Byte)
    requires Begins(s, i, [BACKSLASH, e]) && e != 0 && e != 0x75 && SimpleEscape(e) == c
    ensures i < |s| && s[i] == BACKSLASH && ReadEscape(s, i) == Piece([c], i + 2)
  {
    BeginsAt(s, i, [BACKSLASH, e], 0);
    BeginsAt(s, i, [BACKSLASH, e], 1);
  }

  /** One printed character is read back. */
  lemma CharBack(s: Text, i: nat, c: Byte)
    requires c != 0 && Begins(s, i, Escape(c))
    ensures i < |s| && s[i] != QUOTE && s[i] != 0
    ensures (if s[i] == BACKSLASH then ReadEscape(s, i) else Piece([s[i]], i + 1)) == Piece([c], i + |Escape(c)|)
  {
    hide ReadEscape;
    if c == QUOTE || c == BACKSLASH {
      ShortBack(s, i, c, c);
    } else if c == 0x08 {
      ShortBack(s, i, c, 0x62);
    } else if c == 0x0C {
      ShortBack(s, i, c, 0x66);
    } else if c == 0x0A {
      ShortBack(s, i, c, 0x6E);
    } else if c == 0x0D {
      ShortBack(s, i, c, 0x72);
    } else if c == 0x09 {
      ShortBack(s, i, c, 0x74);
    } else if c < 32 {
      ControlBack(s, i, c);
    } else {
      BeginsAt(s, i, [c], 0);
    }
  }

  lemma {:induction false} CharsBack(s: Text, i: nat, t: Text)
    requires 0 !in t && Begins(s, i, Escaped(t)) && At(s, i + |Escaped(t)|) == QUOTE
    ensures ReadChars(s, i) == Piece(t, i + |Escaped(t)|)
    decreases |t|
  {
    hide Begins;
    hide Escape;
    hide ReadEscape;
    if t != [] {
      BeginsConcat(s, i, Escape(t[0]), Escaped(t[1..]));
      CharBack(s, i, t[0]);
      CharsBack(s, i + |Escape(t[0])|, t[1..]);
      assert t == [t[0]] + t[1..];
    }
  }

  lemma StringBack(s: Text, i: nat, t: Text)
    requires 0 !in t && Begins(s, i, Quoted(t))
    ensures i < |s| && s[i] == QUOTE && ReadString(s, i) == Ok(t, i + |Quoted(t)|)
  {
    hide Begins;
    hide Escaped;
    hide ReadChars;
    assert Quoted(t) == [QUOTE] + (Escaped(t) + [QUOTE]);
    BeginsConcat(s, i, [QUOTE], Escaped(t) + [QUOTE]);
    BeginsAt(s, i, [QUOTE], 0);
    BeginsConcat(s, i + 1, Escaped(t), [QUOTE]);
    BeginsAt(s, i + 1 + |Escaped(t)|, [QUOTE], 0);
    CharsBack(s, i + 1, t);
  }

  // ----- Values -----

  /** A printed value begins with a character of its own. */
  lemma FirstChar(v: Value, depth: nat, fmt: bool)
    ensures |Print(v, depth, fmt)| > 0 && Print(v, depth, fmt)[0] > 32
    ensures Print(v, depth, fmt)[0] != CLOSE_LIST && Print(v, depth, fmt)[0] != CLOSE_OBJECT
  {
    if v.Num? {
      FirstDigit(if v.n < 0 then -v.n else v.n);
    }
  }

  lemma WordBack(s: Text, i: nat, v: Value, depth: nat, fmt: bool)
    requires (v.Null? || v.False? || v.True?) && Begins(s, i, Print(v, depth, fmt))
    ensures Read(s, i) == Ok(v, i + |Print(v, depth, fmt)|)
  {
    BeginsAt(s, i, Print(v, depth, fmt), 0);
    if i + 4 <= |s| {
      assert s[i..i + 4][0] == s[i];
    }
    if i + 5 <= |s| {
      assert s[i..i + 5][0] == s[i];
    }
  }

  // A text that begins with none of the letters n, f and t.
  lemma NoWord(s: Text, i: nat)
    requires i < |s| && s[i] != 0x6E && s[i] != 0x66 && s[i] != 0x74
    ensures !Begins(s, i, NULL_TEXT) && !Begins(s, i, FALSE_TEXT) && !Begins(s, i, TRUE_TEXT)
  {
    assert i + 4 <= |s| ==> s[i..i + 4][0] == s[i];
    assert i + 5 <= |s| ==> s[i..i + 5][0] == s[i];
  }

  lemma NumBack(s: Text, i: nat, n: int)
    requires INT_MIN <= n <= INT_MAX && Begins(s, i, Decimal(n)) && Stops(At(s, i + |Decimal(n)|))
    ensures Read(s, i) == Ok(Num(n), i + |Decimal(n)|)
  {
    NumberBack(s, i, n);
    NoWord(s, i);
    hide ReadNumber;
    hide Decimal;
  }

  lemma StrBack(s: Text, i: nat, t: Text)
    requires 0 !in t && Begins(s, i, Quoted(t))
    ensures Read(s, i) == Ok(Str(t), i + |Quoted(t)|)
  {
    StringBack(s, i, t);
    NoWord(s, i);
    hide ReadString;
    hide Quoted;
  }

  ghost predicate Blank(s: Text, i: nat, j: nat) {
    i <= j <= |s| && forall k :: i <= k < j ==> 0 < s[k] <= 32
  }

  lemma TabsBlank(s: Text, i: nat, depth: nat, fmt: bool)
    requires Begins(s, i, Tabs(depth, fmt))
    ensures Blank(s, i, i + |Tabs(depth, fmt)|)
  {
    forall k | i <= k < i + |Tabs(depth, fmt)|
      ensures 0 < s[k] <= 32
    {
      BeginsAt(s, i, Tabs(depth, fmt), k - i);
    }
  }

  /** Reading back, for a value and for the rest of a list or an object; `i` is where the parser stands, `p` where the
      printed text begins, with white space between. */
  lemma {:induction false} PrintBack(s: Text, i: nat, v: Value, depth: nat, fmt: bool)
    requires Proper(v) && Begins(s, i, Print(v, depth, fmt)) && Stops(At(s, i + |Print(v, depth, fmt)|))
    ensures Read(s, i) == Ok(v, i + |Print(v, depth, fmt)|)
    decreases v, Count(v) + 2
  {
    match v
    case Null => WordBack(s, i, v, depth, fmt);
    case False => WordBack(s, i, v, depth, fmt);
    case True => WordBack(s, i, v, depth, fmt);
    case Num(n) => NumBack(s, i, n);
    case Str(t) => StrBack(s, i, t);
    case Arr(items) => ListBack(s, i, v, depth, fmt);
    case Obj(fields) => ObjectBack(s, i, v, depth, fmt);
  }

  // The parser, one step at a time.
  lemma ReadList(s: Text, i: nat, items: seq<Value>, end: nat)
    requires i < |s| && s[i] == OPEN_LIST
    requires if items == [] then At(s, Skip(s, i + 1)) == CLOSE_LIST && end == Skip(s, i + 1) + 1
             else At(s, Skip(s, i + 1)) != CLOSE_LIST && ReadItems(s, Skip(s, i + 1)) == Ok(items, end)
    ensures Read(s, i) == Ok(Arr(items), end)
  {
    NoWord(s, i);
  }

  lemma ReadObject(s: Text, i: nat, fields: seq<Field>, end: nat)
    requires i < |s| && s[i] == OPEN_OBJECT
    requires if fields == [] then At(s, Skip(s, i + 1)) == CLOSE_OBJECT && end == Skip(s, i + 1) + 1
             else At(s, Skip(s, i + 1)) != CLOSE_OBJECT && ReadFields(s, Skip(s, i + 1)) == Ok(fields, end)
    ensures Read(s, i) == Ok(Obj(fields), end)
  {
    NoWord(s, i);
  }

  lemma ReadItem(s: Text, i: nat, v: Value, next: nat, vs: seq<Value>, end: nat)
    requires Read(s, Skip(s, i)) == Ok(v, next)
    requires if vs == [] then At(s, Skip(s, next)) == CLOSE_LIST && end == Skip(s, next) + 1
             else At(s, Skip(s, next)) == COMMA && ReadItems(s, Skip(s, next) + 1) == Ok(vs, end)
    ensures ReadItems(s, i) == Ok([v] + vs, end)
  {
    hide Skip;
    hide Read;
    assert vs == [] ==> [v] + vs == [v];
  }

  lemma ReadOneField(s: Text, i: nat, name: Text, next: nat, v: Value, end: nat)
    requires ReadString(s, Skip(s, i)) == Ok(name, next) && At(s, Skip(s, next)) == COLON
    requires Read(s, Skip(s, Skip(s, next) + 1)) == Ok(v, end)
    ensures ReadField(s, i) == Ok(Field(name, v), end)
  {
    hide Skip;
    hide Read;
    hide ReadString;
  }

  lemma ReadFieldAnd(s: Text, i: nat, f: Field, next: nat, fs: seq<Field>, end: nat)
    requires ReadField(s, i) == Ok(f, next)
    requires if fs == [] then At(s, Skip(s, next)) == CLOSE_OBJECT && end == Skip(s, next) + 1
             else At(s, Skip(s, next)) == COMMA && ReadFields(s, Skip(s, next) + 1) == Ok(fs, end)
    ensures ReadFields(s, i) == Ok([f] + fs, end)
  {
    hide Skip;
    hide ReadField;
    assert fs == [] ==> [f] + fs == [f];
  }

  lemma {:induction false} ListBack(s: Text, i: nat, v: Value, depth: nat, fmt: bool)
    requires v.Arr? && Proper(v) && Begins(s, i, Print(v, depth, fmt))
    ensures Read(s, i) == Ok(v, i + |Print(v, depth, fmt)|)
    decreases v, Count(v) + 1
  {
    hide Read;
    hide ReadItems;
    hide Begins;
    hide Skip;
    hide PrintItems;
    var t := PrintItems(v, 0, depth, fmt);
    ListParts(s, i, t);
    if v.items == [] {
      NoItems(v, depth, fmt);
      EndOfList(s, i + 1);
    } else {
      FirstItem(s, i + 1, v, depth, fmt);
      ItemsBack(s, i + 1, i + 1, v, 0, depth, fmt);
      assert v.items[0..] == v.items;
    }
    ReadList(s, i, v.items, i + 1 + |t| + 1);
  }

  lemma ListParts(s: Text, i: nat, t: Text)
    requires Begins(s, i, [OPEN_LIST] + t + [CLOSE_LIST])
    ensures i < |s| && s[i] == OPEN_LIST && Begins(s, i + 1, t + [CLOSE_LIST]) && Blank(s, i + 1, i + 1)
  {
    assert [OPEN_LIST] + t + [CLOSE_LIST] == [OPEN_LIST] + (t + [CLOSE_LIST]);
    BeginsConcat(s, i, [OPEN_LIST], t + [CLOSE_LIST]);
    BeginsAt(s, i, [OPEN_LIST], 0);
  }

  lemma EndOfList(s: Text, i: nat)
    requires Begins(s, i, [] + [CLOSE_LIST])
    ensures Skip(s, i) == i && At(s, i) == CLOSE_LIST
  {
    BeginsAt(s, i, [] + [CLOSE_LIST], 0);
    SkipBlank(s, i, i);
  }

  lemma FirstItem(s: Text, i: nat, v: Value, depth: nat, fmt: bool)
    requires v.Arr? && v.items != [] && Begins(s, i, PrintItems(v, 0, depth, fmt) + [CLOSE_LIST])
    ensures Skip(s, i) == i && At(s, i) != CLOSE_LIST
  {
    var t := PrintItems(v, 0, depth, fmt) + [CLOSE_LIST];
    FirstChar(v.items[0], depth + 1, fmt);
    assert t[0] == Print(v.items[0], depth + 1, fmt)[0];
    BeginsAt(s, i, t, 0);
    SkipBlank(s, i, i);
  }

  lemma {:induction false} ItemsBack(s: Text, i: nat, p: nat, v: Value, k: nat, depth: nat, fmt: bool)
    requires v.Arr? && k < |v.items| && Proper(v) && Blank(s, i, p) && Begins(s, p, PrintItems(v, k, depth, fmt) + [CLOSE_LIST])
    ensures ReadItems(s, i) == Ok(v.items[k..], p + |PrintItems(v, k, depth, fmt)| + 1)
    decreases v, Count(v) - k
  {
    hide Read;
    hide ReadItems;
    hide Blank;
    hide Print;
    hide ItemEnd;
    hide Begins;
    hide Skip;
    hide Stops;
    var x := v.items[k];
    var t := Print(x, depth + 1, fmt);
    var u := PrintItems(v, k + 1, depth, fmt);
    var e := ItemEnd(k + 1 == |v.items|, fmt);
    var next := p + |t|;
    ItemParts(s, p, t, e, u);
    ItemStart(s, i, p, x, depth + 1, fmt);
    NoItems(v, depth, fmt);
    ItemBreak(s, next, k + 1 == |v.items|, fmt, u);
    PrintBack(s, p, x, depth + 1, fmt);
    if k + 1 < |v.items| {
      ItemsBack(s, next + 1, next + |e|, v, k + 1, depth, fmt);
    }
    ReadItem(s, i, x, next, v.items[k + 1..], next + |e| + |u| + 1);
    assert v.items[k..] == [x] + v.items[k + 1..];
  }

  lemma NoItems(v: Value, depth: nat, fmt: bool)
    requires v.Arr?
    ensures PrintItems(v, |v.items|, depth, fmt) == []
  {
  }

  lemma ItemStart(s: Text, i: nat, p: nat, x: Value, depth: nat, fmt: bool)
    requires Blank(s, i, p) && Begins(s, p, Print(x, depth, fmt))
    ensures Skip(s, i) == p
  {
    FirstChar(x, depth, fmt);
    BeginsAt(s, p, Print(x, depth, fmt), 0);
    SkipBlank(s, i, p);
  }

  lemma ItemParts(s: Text, p: nat, t: Text, e: Text, u: Text)
    requires Begins(s, p, t + e + u + [CLOSE_LIST])
    ensures Begins(s, p, t) && Begins(s, p + |t|, e) && Begins(s, p + |t| + |e|, u + [CLOSE_LIST])
  {
    assert t + e + u + [CLOSE_LIST] == t + (e + (u + [CLOSE_LIST]));
    BeginsConcat(s, p, t, e + (u + [CLOSE_LIST]));
    BeginsConcat(s, p + |t|, e, u + [CLOSE_LIST]);
  }

  // What comes behind an element: a comma, perhaps a space, and the next one; or the bracket.
  lemma ItemBreak(s: Text, next: nat, last: bool, fmt: bool, u: Text)
    requires Begins(s, next, ItemEnd(last, fmt)) && Begins(s, next + |ItemEnd(last, fmt)|, u + [CLOSE_LIST]) && (last ==> u == [])
    ensures Stops(At(s, next)) && Skip(s, next) == next && At(s, next) == (if last then CLOSE_LIST else COMMA)
    ensures if last then ItemEnd(last, fmt) == [] else Blank(s, next + 1, next + |ItemEnd(last, fmt)|)
  {
    if last {
      BeginsAt(s, next, u + [CLOSE_LIST], 0);
    } else {
      BeginsAt(s, next, ItemEnd(last, fmt), 0);
      if fmt {
        BeginsAt(s, next, ItemEnd(last, fmt), 1);
      }
    }
    SkipBlank(s, next, next);
  }

  lemma {:induction false} ObjectBack(s: Text, i: nat, v: Value, depth: nat, fmt: bool)
    requires v.Obj? && Proper(v) && Begins(s, i, Print(v, depth, fmt))
    ensures Read(s, i) == Ok(v, i + |Print(v, depth, fmt)|)
    decreases v, Count(v) + 1
  {
    hide Read;
    hide ReadFields;
    hide Blank;
    hide Begins;
    hide Skip;
    hide Tabs;
    hide LineEnd;
    hide Quoted;
    var t := PrintFields(v, 0, depth + 1, fmt);
    var p := i + 1 + |LineEnd(fmt)|;
    ObjectParts(s, i, t, depth, fmt);
    if v.fields == [] {
      EndOfObject(s, i + 1, p, depth, fmt);
    } else {
      FieldsStart(s, p, v, 0, depth + 1, fmt);
      BeforeField(s, i + 1, p, v.fields[0].name, depth + 1, fmt);
      FieldsBack(s, Skip(s, i + 1), p, v, 0, depth + 1, fmt);
      assert v.fields[0..] == v.fields;
    }
    ReadObject(s, i, v.fields, p + |t| + |Tabs(depth, fmt)| + 1);
  }

  lemma ObjectParts(s: Text, i: nat, t: Text, depth: nat, fmt: bool)
    requires Begins(s, i, [OPEN_OBJECT] + LineEnd(fmt) + t + Tabs(depth, fmt) + [CLOSE_OBJECT])
    ensures i < |s| && s[i] == OPEN_OBJECT && Blank(s, i + 1, i + 1 + |LineEnd(fmt)|)
    ensures Begins(s, i + 1 + |LineEnd(fmt)|, t + Tabs(depth, fmt) + [CLOSE_OBJECT])
  {
    hide Tabs, Begins;
    var u := t + Tabs(depth, fmt) + [CLOSE_OBJECT];
    assert [OPEN_OBJECT] + LineEnd(fmt) + t + Tabs(depth, fmt) + [CLOSE_OBJECT] == [OPEN_OBJECT] + (LineEnd(fmt) + u);
    BeginsConcat(s, i, [OPEN_OBJECT], LineEnd(fmt) + u);
    BeginsConcat(s, i + 1, LineEnd(fmt), u);
    BeginsAt(s, i, [OPEN_OBJECT], 0);
    if fmt {
      BeginsAt(s, i + 1, LineEnd(fmt), 0);
    }
  }

  // Behind the last field, or in an empty object.
  lemma EndOfObject(s: Text, i: nat, p: nat, depth: nat, fmt: bool)
    requires Blank(s, i, p) && Begins(s, p, [] + Tabs(depth, fmt) + [CLOSE_OBJECT])
    ensures Skip(s, i) == p + |Tabs(depth, fmt)| && At(s, Skip(s, i)) == CLOSE_OBJECT
    ensures Stops(At(s, i))
  {
    assert [] + Tabs(depth, fmt) + [CLOSE_OBJECT] == Tabs(depth, fmt) + [CLOSE_OBJECT];
    BeginsConcat(s, p, Tabs(depth, fmt), [CLOSE_OBJECT]);
    TabsBlank(s, p, depth, fmt);
    BeginsAt(s, p + |Tabs(depth, fmt)|, [CLOSE_OBJECT], 0);
    SkipBlank(s, i, p + |Tabs(depth, fmt)|);
  }

  // Before a field there is white space at most.
  lemma BeforeField(s: Text, i: nat, p: nat, name: Text, depth: nat, fmt: bool)
    requires Blank(s, i, p) && Begins(s, p, Tabs(depth, fmt)) && Begins(s, p + |Tabs(depth, fmt)|, Quoted(name))
    ensures Skip(s, i) == p + |Tabs(depth, fmt)| && At(s, Skip(s, i)) == QUOTE
    ensures Skip(s, Skip(s, i)) == Skip(s, i)
  {
    TabsBlank(s, p, depth, fmt);
    BeginsAt(s, p + |Tabs(depth, fmt)|, Quoted(name), 0);
    SkipBlank(s, i, p + |Tabs(depth, fmt)|);
    SkipBlank(s, p + |Tabs(depth, fmt)|, p + |Tabs(depth, fmt)|);
  }

  // The parts of a field.
  lemma FieldParts(s: Text, p: nat, a: Text, b: Text, c: Text, d: Text, e: Text, u: Text)
    requires Begins(s, p, a + b + c + d + e + u)
    ensures Begins(s, p, a) && Begins(s, p + |a|, b) && Begins(s, p + |a| + |b|, c) && Begins(s, p + |a| + |b| + |c|, d)
    ensures Begins(s, p + |a| + |b| + |c| + |d|, e) && Begins(s, p + |a| + |b| + |c| + |d| + |e|, u)
  {
    assert a + b + c + d + e + u == a + (b + (c + (d + (e + u))));
    BeginsConcat(s, p, a, b + (c + (d + (e + u))));
    BeginsConcat(s, p + |a|, b, c + (d + (e + u)));
    BeginsConcat(s, p + |a| + |b|, c, d + (e + u));
    BeginsConcat(s, p + |a| + |b| + |c|, d, e + u);
    BeginsConcat(s, p + |a| + |b| + |c| + |d|, e, u);
  }

  // Where the value of field `k` begins, and where it ends.
  function ValueStart(f: Field, p: nat, depth: nat, fmt: bool): nat {
    p + |Tabs(depth, fmt)| + |Quoted(f.name)| + |FieldMiddle(fmt)|
  }

  function ValueEnd(f: Field, p: nat, depth: nat, fmt: bool): nat {
    ValueStart(f, p, depth, fmt) + |Print(f.value, depth, fmt)|
  }

  // What the fields from `k` on, with the end of the object, consist of.
  lemma FieldsStart(s: Text, p: nat, v: Value, k: nat, depth: nat, fmt: bool)
    requires v.Obj? && k < |v.fields| && depth > 0 && Begins(s, p, PrintFields(v, k, depth, fmt) + Tabs(depth - 1, fmt) + [CLOSE_OBJECT])
    ensures var f := v.fields[k];
      var end := FieldEnd(k + 1 == |v.fields|, fmt);
      && Begins(s, p, Tabs(depth, fmt)) && Begins(s, p + |Tabs(depth, fmt)|, Quoted(f.name))
      && Begins(s, p + |Tabs(depth, fmt)| + |Quoted(f.name)|, FieldMiddle(fmt))
      && Begins(s, ValueStart(f, p, depth, fmt), Print(f.value, depth, fmt))
      && Begins(s, ValueEnd(f, p, depth, fmt), end)
      && Begins(s, ValueEnd(f, p, depth, fmt) + |end|, PrintFields(v, k + 1, depth, fmt) + Tabs(depth - 1, fmt) + [CLOSE_OBJECT])
      && |PrintFields(v, k, depth, fmt)| == ValueEnd(f, p, depth, fmt) + |end| + |PrintFields(v, k + 1, depth, fmt)| - p
  {
    hide Tabs;
    hide Quoted;
    hide FieldMiddle;
    hide FieldEnd;
    hide Print;
    hide Begins;
    var f := v.fields[k];
    var a, b, c, d := Tabs(depth, fmt), Quoted(f.name), FieldMiddle(fmt), Print(f.value, depth, fmt);
    var e := FieldEnd(k + 1 == |v.fields|, fmt);
    var t := PrintFields(v, k + 1, depth, fmt);
    Regroup(a + b + c + d + e, t, Tabs(depth - 1, fmt), [CLOSE_OBJECT]);
    FieldParts(s, p, a, b, c, d, e, t + Tabs(depth - 1, fmt) + [CLOSE_OBJECT]);
  }

  lemma Regroup(a: Text, b: Text, c: Text, d: Text)
    ensures a + b + c + d == a + (b + c + d)
  {
  }

  // What comes behind a field: a comma, perhaps a new line, and the next one; or the end of the object.
  lemma FieldBreak(s: Text, next: nat, last: bool, depth: nat, fmt: bool, t: Text)
    requires Begins(s, next, FieldEnd(last, fmt)) && (last ==> t == [])
    requires Begins(s, next + |FieldEnd(last, fmt)|, t + Tabs(depth, fmt) + [CLOSE_OBJECT])
    ensures Stops(At(s, next))
    ensures last ==> Skip(s, next) == next + |FieldEnd(last, fmt)| + |Tabs(depth, fmt)| && At(s, Skip(s, next)) == CLOSE_OBJECT
    ensures !last ==> Skip(s, next) == next && At(s, next) == COMMA && Blank(s, next + 1, next + |FieldEnd(last, fmt)|)
  {
    if last {
      if fmt {
        BeginsAt(s, next, FieldEnd(last, fmt), 0);
      }
      EndOfObject(s, next, next + |FieldEnd(last, fmt)|, depth, fmt);
    } else {
      BeginsAt(s, next, FieldEnd(last, fmt), 0);
      if fmt {
        BeginsAt(s, next, FieldEnd(last, fmt), 1);
      }
      SkipBlank(s, next, next);
    }
  }

  // The colon between name and value.
  lemma FieldColon(s: Text, i: nat, fmt: bool, x: Value, depth: nat)
    requires Begins(s, i, FieldMiddle(fmt)) && Begins(s, i + |FieldMiddle(fmt)|, Print(x, depth, fmt))
    ensures Skip(s, i) == i && At(s, i) == COLON && Skip(s, i + 1) == i + |FieldMiddle(fmt)|
  {
    BeginsAt(s, i, FieldMiddle(fmt), 0);
    if fmt {
      BeginsAt(s, i, FieldMiddle(fmt), 1);
    }
    FirstChar(x, depth, fmt);
    BeginsAt(s, i + |FieldMiddle(fmt)|, Print(x, depth, fmt), 0);
    SkipBlank(s, i, i);
    SkipBlank(s, i + 1, i + |FieldMiddle(fmt)|);
  }

  lemma NoFields(v: Value, depth: nat, fmt: bool)
    requires v.Obj?
    ensures PrintFields(v, |v.fields|, depth, fmt) == []
  {
  }

  lemma {:induction false} FieldsBack(s: Text, i: nat, p: nat, v: Value, k: nat, depth: nat, fmt: bool)
    requires v.Obj? && k < |v.fields| && Proper(v) && depth > 0 && Skip(s, i) == p + |Tabs(depth, fmt)|
    requires Begins(s, p, PrintFields(v, k, depth, fmt) + Tabs(depth - 1, fmt) + [CLOSE_OBJECT])
    ensures ReadFields(s, i) == Ok(v.fields[k..], p + |PrintFields(v, k, depth, fmt)| + |Tabs(depth - 1, fmt)| + 1)
    decreases v, Count(v) - k
  {
    hide Read;
    hide ReadField;
    hide ReadFields;
    hide ReadString;
    hide Print;
    hide PrintFields;
    hide Tabs;
    hide Quoted;
    hide FieldMiddle;
    hide FieldEnd;
    hide Begins;
    hide Skip;
    hide Blank;
    hide Stops;
    RestOfFields(v.fields, k);
    var f := v.fields[k];
    var last := k + 1 == |v.fields|;
    var next := ValueEnd(f, p, depth, fmt);
    var p' := next + |FieldEnd(last, fmt)|;
    FieldsStart(s, p, v, k, depth, fmt);
    NoFields(v, depth, fmt);
    FieldBreak(s, next, last, depth - 1, fmt, PrintFields(v, k + 1, depth, fmt));
    StringBack(s, p + |Tabs(depth, fmt)|, f.name);
    FieldColon(s, p + |Tabs(depth, fmt)| + |Quoted(f.name)|, fmt, f.value, depth);
    PrintBack(s, ValueStart(f, p, depth, fmt), f.value, depth, fmt);
    ReadOneField(s, i, f.name, p + |Tabs(depth, fmt)| + |Quoted(f.name)|, f.value, next);
    if !last {
      FieldsStart(s, p', v, k + 1, depth, fmt);
      BeforeField(s, next + 1, p', v.fields[k + 1].name, depth, fmt);
      FieldsBack(s, next + 1, p', v, k + 1, depth, fmt);
    }
    ReadFieldAnd(s, i, f, next, v.fields[k + 1..], p' + |PrintFields(v, k + 1, depth, fmt)| + |Tabs(depth - 1, fmt)| + 1);
  }

  lemma RestOfFields(fs: seq<Field>, k: nat)
    requires k < |fs|
    ensures fs[k..] == [fs[k]] + fs[k + 1..] && (fs[k + 1..] == [] <==> k + 1 == |fs|)
  {
  }

  /** Every proper value is read back from its print, formatted or not, and the parser stops exactly at the end. */
  lemma RoundTrip(v: Value, fmt: bool)
    requires Proper(v)
    ensures var s := Print(v, 0, fmt); Read(s, Skip(s, 0)) == Ok(v, |s|)
  {
    var s := Print(v, 0, fmt);
    FirstChar(v, 0, fmt);
    SkipBlank(s, 0, 0);
    assert s[0..|s|] == s;
    PrintBack(s, 0, v, 0, fmt);
  }
}
