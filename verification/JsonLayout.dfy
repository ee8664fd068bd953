/** How printed text is laid out, and that the layout is all that formatting adds. */
module JsonLayout {
  import opened JsonText
  import opened JsonRoundTrip
  import opened JsonGrammar

  // ----- Lines and separators -----

  /** The pieces with a separator between any two. */
  function Joined(ts: seq<Text>, sep: Text): Text {
    if ts == [] then [] else if |ts| == 1 then ts[0] else ts[0] + (sep + Joined(ts[1..], sep))
  }

  function Indent(n: nat): Text {
    Ascii(seq(n, _ => '\t'))
  }

  /** The printed elements of a list that stands `depth` levels deep. */
  function Elements(items: seq<Value>, depth: nat, fmt: bool): (ts: seq<Text>)
    ensures |ts| == |items|
  {
    seq(|items|, k requires 0 <= k < |items| => Print(items[k], depth + 1, fmt))
  }

  /** A field, `depth` levels deep: with formatting on a line of its own, behind as many tabs. */
  function Line(f: Field, depth: nat, fmt: bool): Text {
    if fmt then Ascii("\n") + Indent(depth) + Quoted(f.name) + Ascii(":\t") + Print(f.value, depth, fmt)
    else Quoted(f.name) + Ascii(":") + Print(f.value, depth, fmt)
  }

  function Lines(fields: seq<Field>, depth: nat, fmt: bool): (ts: seq<Text>)
    ensures |ts| == |fields|
  {
    seq(|fields|, k requires 0 <= k < |fields| => Line(fields[k], depth, fmt))
  }

  lemma IndentIs(n: nat)
    ensures Indent(n) == Repeat(TAB, n)
  {
    Blanks();
    var t := seq(n, _ => '\t');
    forall k | 0 <= k < n
      ensures Ascii(t)[k] == TAB
    {
      assert Ascii("\t")[0] == TAB;
    }
  }

  lemma Middles()
    ensures Ascii(":\t") == FieldMiddle(true) && Ascii(":") == FieldMiddle(false)
  {
    hide ByteOf;
    Signs();
  }

  lemma Separators()
    ensures Ascii(", ") == ItemEnd(false, true) && Ascii(",") == ItemEnd(false, false)
  {
    hide ByteOf;
    Signs();
  }

  lemma Breaks()
    ensures Ascii(",") == [COMMA] && Ascii("\n") == [NEWLINE]
  {
    hide ByteOf;
    Signs();
  }

  lemma JoinedFront(ts: seq<Text>, k: nat, sep: Text)
    requires k < |ts|
    ensures Joined(ts[k..], sep) == ts[k] + if k + 1 == |ts| then [] else sep + Joined(ts[k + 1..], sep)
  {
    assert ts[k..][1..] == ts[k + 1..];
  }

  /** The elements of a list stand between brackets, parted by a comma, and by a space where the print is formatted. */
  lemma ListLayout(items: seq<Value>, depth: nat, fmt: bool)
    ensures Print(Arr(items), depth, fmt) ==
            Ascii("[") + Joined(Elements(items, depth, fmt), if fmt then Ascii(", ") else Ascii(",")) + Ascii("]")
  {
    hide Ascii, PrintItems, Elements;
    Brackets();
    ItemsJoined(Arr(items), 0, depth, fmt);
    assert Elements(items, depth, fmt)[0..] == Elements(items, depth, fmt);
  }

  lemma {:induction false} ItemsJoined(v: Value, k: nat, depth: nat, fmt: bool)
    requires v.Arr? && k <= |v.items|
    ensures PrintItems(v, k, depth, fmt) == Joined(Elements(v.items, depth, fmt)[k..], if fmt then Ascii(", ") else Ascii(","))
    decreases |v.items| - k
  {
    hide Ascii, Print, Joined;
    var ts := Elements(v.items, depth, fmt);
    var sep := if fmt then Ascii(", ") else Ascii(",");
    if k < |v.items| {
      Separators();
      JoinedFront(ts, k, sep);
      ItemsJoined(v, k + 1, depth, fmt);
    } else {
      assert ts[k..] == [];
      JoinedNone(sep);
    }
  }

  lemma JoinedNone(sep: Text)
    ensures Joined([], sep) == []
  {
  }

  /** The fields of an object stand between braces, parted by commas; with formatting every name is on a line of its own behind
      one tab more than the braces, and the closing brace is on a line of its own. */
  lemma ObjectLayout(fields: seq<Field>, depth: nat)
    requires fields != []
    ensures Print(Obj(fields), depth, true) ==
            Ascii("{") + Joined(Lines(fields, depth + 1, true), Ascii(",")) + Ascii("\n") + Indent(depth) + Ascii("}")
    ensures Print(Obj(fields), depth, false) == Ascii("{") + Joined(Lines(fields, depth + 1, false), Ascii(",")) + Ascii("}")
  {
    hide Ascii, PrintFields, Lines, Indent;
    Brackets();
    Breaks();
    IndentIs(depth);
    assert Lines(fields, depth + 1, true)[0..] == Lines(fields, depth + 1, true);
    assert Lines(fields, depth + 1, false)[0..] == Lines(fields, depth + 1, false);
    FieldsJoined(Obj(fields), 0, depth + 1, true);
    FieldsJoined(Obj(fields), 0, depth + 1, false);
    ObjectIs(Obj(fields), depth);
  }

  lemma ObjectIs(v: Value, depth: nat)
    requires v.Obj?
    ensures Print(v, depth, true) ==
            [OPEN_OBJECT] + ([NEWLINE] + PrintFields(v, 0, depth + 1, true)) + Repeat(TAB, depth) + [CLOSE_OBJECT]
    ensures Print(v, depth, false) == [OPEN_OBJECT] + ([] + PrintFields(v, 0, depth + 1, false)) + [CLOSE_OBJECT]
  {
    hide PrintFields, Repeat;
  }

  lemma EmptyLayout(depth: nat)
    ensures Print(Obj([]), depth, true) == Ascii("{") + Ascii("\n") + Indent(depth) + Ascii("}")
    ensures Print(Obj([]), depth, false) == Ascii("{") + Ascii("}")
  {
    hide Ascii, Indent;
    Brackets();
    Breaks();
    IndentIs(depth);
  }

  lemma LineIs(f: Field, last: bool, depth: nat, fmt: bool)
    ensures LineEnd(fmt) + PrintField(f, last, depth, fmt) ==
            if last then Line(f, depth, fmt) + LineEnd(fmt) else Line(f, depth, fmt) + ([COMMA] + LineEnd(fmt))
  {
    hide Print, Quoted, Tabs, LineEnd, FieldMiddle, PrintField, Line;
    FieldIs(f, last, depth, fmt);
    LineText(f, depth, fmt);
    var t := Tabs(depth, fmt) + Quoted(f.name) + FieldMiddle(fmt) + Print(f.value, depth, fmt);
    Attach(LineEnd(fmt), t, LineEnd(fmt));
    Attach(LineEnd(fmt), t, [COMMA] + LineEnd(fmt));
  }

  lemma Attach(a: Text, b: Text, c: Text)
    ensures a + (b + c) == a + b + c
  {
  }

  lemma LineText(f: Field, depth: nat, fmt: bool)
    ensures Line(f, depth, fmt) == LineEnd(fmt) + (Tabs(depth, fmt) + Quoted(f.name) + FieldMiddle(fmt) + Print(f.value, depth, fmt))
  {
    hide Ascii, Print, Indent, Quoted, FieldMiddle;
    Middles();
    Breaks();
    IndentIs(depth);
    var name, middle, value := Quoted(f.name), FieldMiddle(fmt), Print(f.value, depth, fmt);
    if fmt {
      Attach([NEWLINE], Indent(depth), name);
      Attach([NEWLINE], Indent(depth) + name, middle);
      Attach([NEWLINE], Indent(depth) + name + middle, value);
    } else {
      assert [] + name == name;
      assert [] + (name + middle + value) == name + middle + value;
    }
  }

  lemma FieldIs(f: Field, last: bool, depth: nat, fmt: bool)
    ensures var t := Tabs(depth, fmt) + Quoted(f.name) + FieldMiddle(fmt) + Print(f.value, depth, fmt);
            PrintField(f, last, depth, fmt) == if last then t + LineEnd(fmt) else t + ([COMMA] + LineEnd(fmt))
  {
    hide Print, Quoted, Tabs, LineEnd, FieldMiddle;
    assert [] + LineEnd(fmt) == LineEnd(fmt);
  }

  lemma {:induction false} FieldsJoined(v: Value, k: nat, depth: nat, fmt: bool)
    requires v.Obj? && k < |v.fields|
    ensures LineEnd(fmt) + PrintFields(v, k, depth, fmt) == Joined(Lines(v.fields, depth, fmt)[k..], Ascii(",")) + LineEnd(fmt)
    decreases |v.fields| - k
  {
    hide Ascii, PrintField, Line, LineEnd, Joined;
    var ts := Lines(v.fields, depth, fmt);
    var last := k + 1 == |v.fields|;
    Breaks();
    JoinedFront(ts, k, Ascii(","));
    LineIs(v.fields[k], last, depth, fmt);
    var front, rest := PrintField(v.fields[k], last, depth, fmt), PrintFields(v, k + 1, depth, fmt);
    if last {
      assert LineEnd(fmt) + (front + []) == (LineEnd(fmt) + front) + [];
    } else {
      FieldsJoined(v, k + 1, depth, fmt);
      Shuffle(LineEnd(fmt), front, rest, ts[k], [COMMA], Joined(ts[k + 1..], [COMMA]));
    }
  }

  lemma Shuffle(e: Text, front: Text, rest: Text, line: Text, comma: Text, lines: Text)
    requires e + front == line + (comma + e) && e + rest == lines + e
    ensures e + (front + rest) == line + (comma + lines) + e
  {
    calc {
      e + (front + rest);
      (e + front) + rest;
      (line + (comma + e)) + rest;
      line + (comma + (e + rest));
      line + (comma + (lines + e));
      line + (comma + lines) + e;
    }
  }

  // ----- Formatting adds white space only -----

  /** Where a character stands: between literals, in one, or behind a backslash in one. */
  datatype Place = Between | Within | Escaping

  function Step(p: Place, c: Byte): Place {
    match p
    case Between => if c as int == '\"' as int then Within else Between
    case Within => if c as int == '\\' as int then Escaping else if c as int == '\"' as int then Between else Within
    case Escaping => Within
  }

  function After(t: Text, p: Place): Place {
    if t == [] then p else After(t[1..], Step(p, t[0]))
  }

  /** The text without the white space outside of its literals. */
  function Squeezed(t: Text, p: Place): Text {
    if t == [] then []
    else if p.Between? && t[0] as int <= ' ' as int then Squeezed(t[1..], Step(p, t[0]))
    else [t[0]] + Squeezed(t[1..], Step(p, t[0]))
  }

  lemma {:induction false} SqueezedJoin(t: Text, u: Text, p: Place)
    ensures After(t + u, p) == After(u, After(t, p))
    ensures Squeezed(t + u, p) == Squeezed(t, p) + Squeezed(u, After(t, p))
    decreases |t|
  {
    hide Step;
    if t == [] {
      assert t + u == u;
    } else {
      assert (t + u)[1..] == t[1..] + u;
      SqueezedJoin(t[1..], u, Step(p, t[0]));
    }
  }

  lemma StepIs(p: Place, c: Byte)
    ensures Step(p, c) == match p
                          case Between => if c == QUOTE then Within else Between
                          case Within => if c == BACKSLASH then Escaping else if c == QUOTE then Between else Within
                          case Escaping => Within
    ensures c as int <= ' ' as int <==> c <= 32
  {
    Numbered(c);
  }

  lemma Numbered(c: Byte)
    ensures c as int == '\"' as int <==> c == QUOTE
    ensures c as int == '\\' as int <==> c == BACKSLASH
    ensures c as int <= ' ' as int <==> c <= 32
  {
  }

  /** A text is squeezed to another one, and ends between literals. */
  predicate SqueezesTo(t: Text, u: Text) {
    After(t, Between) == Between && Squeezed(t, Between) == u
  }

  lemma SqueezeBoth(t: Text, u: Text, t': Text, u': Text)
    requires SqueezesTo(t, u) && SqueezesTo(t', u')
    ensures SqueezesTo(t + t', u + u')
  {
    SqueezedJoin(t, t', Between);
  }

  lemma {:induction false} BlanksVanish(t: Text)
    requires forall c :: c in t ==> c <= 32
    ensures SqueezesTo(t, [])
    decreases |t|
  {
    if t != [] {
      assert t[0] in t && forall c :: c in t[1..] ==> c in t;
      StepIs(Between, t[0]);
      hide Step;
      BlanksVanish(t[1..]);
    }
  }

  lemma {:induction false} OthersStay(t: Text)
    requires forall c :: c in t ==> c > 32 && c != QUOTE
    ensures SqueezesTo(t, t)
    decreases |t|
  {
    if t != [] {
      assert t[0] in t && forall c :: c in t[1..] ==> c in t;
      StepIs(Between, t[0]);
      hide Step;
      OthersStay(t[1..]);
      assert t == [t[0]] + t[1..];
    }
  }

  lemma {:induction false} WithinStays(t: Text)
    requires forall c :: c in t ==> c != QUOTE && c != BACKSLASH
    ensures After(t, Within) == Within && Squeezed(t, Within) == t
    decreases |t|
  {
    if t != [] {
      assert t[0] in t && forall c :: c in t[1..] ==> c in t;
      StepIs(Within, t[0]);
      hide Step;
      WithinStays(t[1..]);
      assert t == [t[0]] + t[1..];
    }
  }

  lemma OneChar(c: Byte, p: Place)
    ensures After([c], p) == Step(p, c)
    ensures p != Between || c > 32 ==> Squeezed([c], p) == [c]
  {
    StepIs(p, c);
    hide Step;
    assert [c][1..] == [];
  }

  lemma PairStays(x: Byte)
    ensures After([BACKSLASH, x], Within) == Within && Squeezed([BACKSLASH, x], Within) == [BACKSLASH, x]
  {
    StepIs(Within, BACKSLASH);
    StepIs(Escaping, x);
    hide Step;
    OneChar(BACKSLASH, Within);
    OneChar(x, Escaping);
    SqueezedJoin([BACKSLASH], [x], Within);
    assert [BACKSLASH] + [x] == [BACKSLASH, x];
  }

  lemma HexPlain(n: bv8)
    requires n < 16
    ensures HexDigit(n) != QUOTE && HexDigit(n) != BACKSLASH
  {
  }

  lemma EscapeStays(c: Byte)
    ensures After(Escape(c), Within) == Within && Squeezed(Escape(c), Within) == Escape(c)
  {
    hide Step;
    var t := Escape(c);
    if |t| == 1 {
      WithinStays(t);
    } else {
      PairStays(t[1]);
      if |t| == 2 {
        assert t == [BACKSLASH, t[1]];
      } else {
        var digits := [0x30, 0x30, HexDigit(c >> 4), HexDigit(c & 15)];
        assert t == [BACKSLASH, 0x75] + digits;
        HexPlain(c >> 4);
        HexPlain(c & 15);
        WithinStays(digits);
        SqueezedJoin([BACKSLASH, 0x75], digits, Within);
      }
    }
  }

  lemma {:induction false} EscapedStays(s: Text)
    ensures After(Escaped(s), Within) == Within && Squeezed(Escaped(s), Within) == Escaped(s)
    decreases |s|
  {
    hide Escape, Step;
    if s != [] {
      EscapeStays(s[0]);
      EscapedStays(s[1..]);
      SqueezedJoin(Escape(s[0]), Escaped(s[1..]), Within);
    }
  }

  lemma QuotedStays(s: Text)
    ensures SqueezesTo(Quoted(s), Quoted(s))
  {
    hide Step, Escaped;
    StepIs(Between, QUOTE);
    StepIs(Within, QUOTE);
    EscapedStays(s);
    OneChar(QUOTE, Between);
    OneChar(QUOTE, Within);
    SqueezedJoin([QUOTE], Escaped(s), Between);
    SqueezedJoin([QUOTE] + Escaped(s), [QUOTE], Between);
  }

  lemma {:induction false} DigitsPlain(n: nat)
    ensures forall c :: c in Digits(n) ==> c > 32 && c != QUOTE
  {
    if n < 10 {
      DigitBack(n);
    } else {
      DigitsPlain(n / 10);
      DigitBack(n % 10);
    }
  }

  lemma LeafStays(v: Value, depth: nat, fmt: bool)
    requires !v.Arr? && !v.Obj?
    ensures SqueezesTo(Print(v, depth, fmt), Print(v, depth, fmt))
  {
    if v.Str? {
      QuotedStays(v.s);
    } else {
      if v.Num? {
        DigitsPlain(if v.n < 0 then -v.n else v.n);
      }
      hide Digits;
      OthersStay(Print(v, depth, fmt));
    }
  }

  lemma MarkStays(c: Byte)
    requires c > 32 && c != QUOTE
    ensures SqueezesTo([c], [c])
  {
    OthersStay([c]);
  }

  lemma Bracketed(a: Byte, t: Text, b: Byte, u: Text)
    requires a > 32 && a != QUOTE && b > 32 && b != QUOTE && SqueezesTo(t, u)
    ensures SqueezesTo([a] + t + [b], [a] + u + [b])
  {
    hide SqueezesTo;
    MarkStays(a);
    MarkStays(b);
    SqueezeBoth([a], [a], t, u);
    SqueezeBoth([a] + t, [a] + u, [b], [b]);
  }

  /** With its white space outside of literals taken out, every print is the unformatted one. */
  lemma {:induction false} OnlyBlanks(v: Value, depth: nat, fmt: bool, other: nat)
    ensures SqueezesTo(Print(v, depth, fmt), Print(v, other, false))
    decreases v, Count(v) + 1
  {
    hide SqueezesTo, PrintItems, PrintFields;
    if v.Arr? {
      ItemsSqueezed(v, 0, depth, fmt, other);
      Bracketed(OPEN_LIST, PrintItems(v, 0, depth, fmt), CLOSE_LIST, PrintItems(v, 0, other, false));
    } else if v.Obj? {
      FieldsSqueezed(v, 0, depth + 1, fmt, other + 1);
      ObjectSqueezed(v, depth, fmt, other);
    } else {
      LeafStays(v, depth, fmt);
    }
  }

  lemma ObjectSqueezed(v: Value, depth: nat, fmt: bool, other: nat)
    requires v.Obj? && SqueezesTo(PrintFields(v, 0, depth + 1, fmt), PrintFields(v, 0, other + 1, false))
    ensures SqueezesTo(Print(v, depth, fmt), Print(v, other, false))
  {
    hide SqueezesTo, PrintFields, LineEnd, Tabs, Print;
    var t, u := PrintFields(v, 0, depth + 1, fmt), PrintFields(v, 0, other + 1, false);
    LineEndVanishes(fmt);
    TabsVanish(depth, fmt);
    NoLayout(other);
    SqueezeBoth(LineEnd(fmt), [], t, u);
    SqueezeBoth(LineEnd(fmt) + t, [] + u, Tabs(depth, fmt), []);
    Bracketed(OPEN_OBJECT, LineEnd(fmt) + t + Tabs(depth, fmt), CLOSE_OBJECT, [] + u + []);
    PrintedObject(v, depth, fmt);
    PrintedObject(v, other, false);
  }

  lemma PrintedObject(v: Value, depth: nat, fmt: bool)
    requires v.Obj?
    ensures Print(v, depth, fmt) ==
            [OPEN_OBJECT] + (LineEnd(fmt) + PrintFields(v, 0, depth + 1, fmt) + Tabs(depth, fmt)) + [CLOSE_OBJECT]
  {
    hide PrintFields, LineEnd, Tabs;
    Attach([OPEN_OBJECT], LineEnd(fmt), PrintFields(v, 0, depth + 1, fmt));
    Attach([OPEN_OBJECT], LineEnd(fmt) + PrintFields(v, 0, depth + 1, fmt), Tabs(depth, fmt));
  }

  lemma NoLayout(depth: nat)
    ensures LineEnd(false) == [] && Tabs(depth, false) == [] && FieldMiddle(false) == [COLON]
    ensures FieldEnd(true, false) == [] && FieldEnd(false, false) == [COMMA]
  {
  }

  lemma LineEndVanishes(fmt: bool)
    ensures SqueezesTo(LineEnd(fmt), [])
  {
    BlanksVanish(LineEnd(fmt));
  }

  lemma TabsVanish(depth: nat, fmt: bool)
    ensures SqueezesTo(Tabs(depth, fmt), [])
  {
    var t := Tabs(depth, fmt);
    forall c | c in t
      ensures c <= 32
    {
      var k :| 0 <= k < |t| && t[k] == c;
    }
    BlanksVanish(t);
  }

  lemma ItemEndSqueezed(last: bool, fmt: bool)
    ensures SqueezesTo(ItemEnd(last, fmt), ItemEnd(last, false))
  {
    hide SqueezesTo;
    BlanksVanish([]);
    BlanksVanish([SPACE]);
    MarkStays(COMMA);
    SqueezeBoth([COMMA], [COMMA], [SPACE], []);
    assert [COMMA] + [SPACE] == [COMMA, SPACE] && [COMMA] + [] == [COMMA];
  }

  lemma FieldMiddleSqueezed(fmt: bool)
    ensures SqueezesTo(FieldMiddle(fmt), FieldMiddle(false))
  {
    hide SqueezesTo;
    BlanksVanish([TAB]);
    MarkStays(COLON);
    SqueezeBoth([COLON], [COLON], [TAB], []);
    assert [COLON] + [TAB] == [COLON, TAB] && [COLON] + [] == [COLON];
  }

  lemma FieldEndSqueezed(last: bool, fmt: bool)
    ensures SqueezesTo(FieldEnd(last, fmt), FieldEnd(last, false))
  {
    hide SqueezesTo, LineEnd;
    BlanksVanish([]);
    MarkStays(COMMA);
    LineEndVanishes(fmt);
    NoLayout(0);
    var mark := if last then [] else [COMMA];
    SqueezeBoth(mark, mark, LineEnd(fmt), []);
  }

  lemma {:induction false} ItemsSqueezed(v: Value, k: nat, depth: nat, fmt: bool, other: nat)
    requires v.Arr? && k <= |v.items|
    ensures SqueezesTo(PrintItems(v, k, depth, fmt), PrintItems(v, k, other, false))
    decreases v, Count(v) - k
  {
    hide SqueezesTo, Print, ItemEnd;
    if k == |v.items| {
      BlanksVanish([]);
    } else {
      var x, last := v.items[k], k + 1 == |v.items|;
      OnlyBlanks(x, depth + 1, fmt, other + 1);
      ItemEndSqueezed(last, fmt);
      ItemsSqueezed(v, k + 1, depth, fmt, other);
      SqueezeBoth(Print(x, depth + 1, fmt), Print(x, other + 1, false), ItemEnd(last, fmt), ItemEnd(last, false));
      SqueezeBoth(Print(x, depth + 1, fmt) + ItemEnd(last, fmt), Print(x, other + 1, false) + ItemEnd(last, false),
                  PrintItems(v, k + 1, depth, fmt), PrintItems(v, k + 1, other, false));
    }
  }

  lemma FieldSqueezed(f: Field, last: bool, depth: nat, fmt: bool, other: nat)
    requires SqueezesTo(Print(f.value, depth, fmt), Print(f.value, other, false))
    ensures SqueezesTo(PrintField(f, last, depth, fmt), PrintField(f, last, other, false))
  {
    hide SqueezesTo, Print, Quoted, Tabs, FieldMiddle, FieldEnd;
    var name, t, u := Quoted(f.name), Print(f.value, depth, fmt), Print(f.value, other, false);
    TabsVanish(depth, fmt);
    NoLayout(other);
    QuotedStays(f.name);
    FieldMiddleSqueezed(fmt);
    FieldEndSqueezed(last, fmt);
    SqueezeBoth(Tabs(depth, fmt), [], name, name);
    SqueezeBoth(Tabs(depth, fmt) + name, [] + name, FieldMiddle(fmt), FieldMiddle(false));
    SqueezeBoth(Tabs(depth, fmt) + name + FieldMiddle(fmt), [] + name + FieldMiddle(false), t, u);
    SqueezeBoth(Tabs(depth, fmt) + name + FieldMiddle(fmt) + t, [] + name + FieldMiddle(false) + u,
                FieldEnd(last, fmt), FieldEnd(last, false));
  }

  lemma {:induction false} FieldsSqueezed(v: Value, k: nat, depth: nat, fmt: bool, other: nat)
    requires v.Obj? && k <= |v.fields|
    ensures SqueezesTo(PrintFields(v, k, depth, fmt), PrintFields(v, k, other, false))
    decreases v, Count(v) - k
  {
    hide SqueezesTo, Print, PrintField;
    if k == |v.fields| {
      BlanksVanish([]);
    } else {
      var f, last := v.fields[k], k + 1 == |v.fields|;
      OnlyBlanks(f.value, depth, fmt, other);
      FieldSqueezed(f, last, depth, fmt, other);
      FieldsSqueezed(v, k + 1, depth, fmt, other);
      SqueezeBoth(PrintField(f, last, depth, fmt), PrintField(f, last, other, false),
                  PrintFields(v, k + 1, depth, fmt), PrintFields(v, k + 1, other, false));
    }
  }

  /** Formatting adds white space only, and without formatting there is none outside of literals. */
  lemma FormattingIsBlank(v: Value, depth: nat)
    ensures Squeezed(Print(v, depth, true), Between) == Print(v, depth, false)
    ensures Squeezed(Print(v, depth, false), Between) == Print(v, depth, false)
  {
    OnlyBlanks(v, depth, true, depth);
    OnlyBlanks(v, depth, false, depth);
  }
}
