/** Printed text is JSON by RFC 8259, in the narrowest spelling. */
module JsonStandard {
  import opened JsonText
  import opened JsonUnicode
  import opened JsonRoundTrip
  import opened JsonLiteral
  import opened JsonGrammar
  import opened JsonAccept
  import opened JsonLayout

  /** A character as the printer spells it: by itself where section 7 of RFC 8259 allows that, with its short escape where there
      is one, and otherwise by its number in lower-case digits; the slash is not escaped. */
  ghost predicate Neat(u: Unit) {
    match u
    case Plain(_) => Legal(u)
    case Short(e) => Legal(u) && e as int != '/' as int
    case Code(d0, d1, d2, d3) => exists n: nat :: n < 0x20 && NoShort(n) && CodeFor(d0, d1, d2, d3, n)
  }

  predicate NoShort(n: nat) {
    forall k :: 0 <= k < |SHORT_CHARS| ==> SHORT_CHARS[k] as int != n
  }

  predicate CodeFor(d0: Byte, d1: Byte, d2: Byte, d3: Byte, n: nat)
    requires n < 0x100
  {
    && d0 as int == '0' as int && d1 as int == '0' as int
    && d2 as int == LOWER_DIGITS[n / 16] as int && d3 as int == LOWER_DIGITS[n % 16] as int
  }

  ghost predicate AllNeat(us: seq<Unit>) {
    forall u :: u in us ==> Neat(u)
  }

  /** The white space of section 2. */
  predicate JsonWhite(t: Text) {
    forall c :: c in t ==> c in [0x20, 0x09, 0x0A, 0x0D]
  }

  /** The text is in the grammar of RFC 8259: numbers by section 6, without leading zeros, strings by section 7, and white space
      by section 2. */
  ghost predicate Strict(x: Syntax)
    decreases x, 0
  {
    match x
    case Word(_) => true
    case Numeral(_, zero, digits) => zero <==> digits == []
    case Quote(us) => AllNeat(us)
    case List(blank, entries) => JsonWhite(blank) && forall e :: e in entries ==> StrictEntry(e)
    case Object(blank, members) => JsonWhite(blank) && forall m :: m in members ==> StrictMember(m)
  }

  ghost predicate StrictEntry(e: Entry)
    decreases e, 0
  {
    JsonWhite(e.before) && Strict(e.item) && JsonWhite(e.behind)
  }

  ghost predicate StrictMember(m: Member)
    decreases m, 0
  {
    JsonWhite(m.before) && AllNeat(m.name) && JsonWhite(m.behind) && JsonWhite(m.gap) && Strict(m.item) && JsonWhite(m.end)
  }

  // ----- Strings -----

  lemma LowerDigit(n: bv8)
    requires n < 16
    ensures HexDigit(n) as int == LOWER_DIGITS[n as int] as int
  {
  }

  lemma Halves(c: Byte)
    requires c < 32
    ensures c >> 4 < 16 && c & 15 < 16 && (c >> 4) as int == c as int / 16 && (c & 15) as int == c as int % 16
  {
    if c < 16 {
      assert c >> 4 == 0 && c & 15 == c;
    } else {
      assert c >> 4 == 1 && c & 15 == c - 16;
    }
  }

  lemma ControlNeat(c: Byte) returns (u: Unit)
    requires 0 < c < 32 && c !in [0x08, 0x0C, 0x0A, 0x0D, 0x09]
    ensures Neat(u) && Taken(u) && Spelling(u) == Escape(c)
  {
    hide HexDigit, IsHex;
    Halves(c);
    LowerDigit(c >> 4);
    LowerDigit(c & 15);
    HexBack(c);
    u := Code(0x30, 0x30, HexDigit(c >> 4), HexDigit(c & 15));
    var n: nat := c as int;
    assert NoShort(n);
    assert CodeFor(0x30, 0x30, HexDigit(c >> 4), HexDigit(c & 15), n);
  }

  lemma CharNeat(c: Byte) returns (u: Unit)
    requires c != 0
    ensures Neat(u) && Taken(u) && Spelling(u) == Escape(c)
  {
    hide HexDigit;
    if c < 32 && c !in [0x08, 0x0C, 0x0A, 0x0D, 0x09] {
      u := ControlNeat(c);
    } else if |Escape(c)| == 1 {
      u := Plain(c);
    } else {
      u := Short(Escape(c)[1]);
    }
  }

  lemma {:induction false} StringNeat(s: Text) returns (us: seq<Unit>)
    requires 0 !in s
    ensures AllNeat(us) && AllTaken(us) && Spelled(us) == Escaped(s)
    decreases |s|
  {
    hide Escape, Neat, Taken, Spelling;
    if s == [] {
      us := [];
    } else {
      assert s[0] in s;
      var u := CharNeat(s[0]);
      var rest := StringNeat(s[1..]);
      us := [u] + rest;
      assert us[1..] == rest;
    }
  }

  // ----- Numbers -----

  lemma {:induction false} DigitsDenote(n: nat)
    ensures AllDigits(Digits(n)) && Natural(Digits(n)) == n && Digits(n) != []
    ensures n > 0 ==> Digits(n)[0] as int != '0' as int
  {
    hide DigitOf, Digit, Natural, AllDigits;
    DigitBack(n % 10);
    DigitIs(DigitOf(n % 10));
    if n >= 10 {
      DigitsDenote(n / 10);
      OneMore(Digits(n / 10), DigitOf(n % 10));
    } else {
      NoDigits();
      OneMore([], DigitOf(n % 10));
      assert [] + [DigitOf(n)] == [DigitOf(n)];
    }
  }

  lemma OneMore(d: Text, c: Byte)
    requires AllDigits(d) && Digit(c)
    ensures AllDigits(d + [c]) && Natural(d + [c]) == Natural(d) * 10 + (c as int - '0' as int)
  {
    hide Digit;
    assert (d + [c])[..|d + [c]| - 1] == d;
  }

  lemma NumberStrict(n: int) returns (x: Syntax)
    requires INT_MIN <= n <= INT_MAX
    ensures Strict(x) && Formed(x) && TextOf(x) == Decimal(n)
  {
    hide Ascii, Digits, AllDigits, Natural;
    var m := if n < 0 then -n else n;
    NumberMarks();
    DigitsDenote(m);
    NoDigits();
    Zero();
    x := if n == 0 then Numeral(false, true, []) else Numeral(n < 0, false, Digits(m));
  }

  // ----- Values -----

  lemma LayoutWhite(n: nat, fmt: bool)
    ensures JsonWhite([]) && White([]) && JsonWhite(Tabs(n, fmt)) && White(Tabs(n, fmt))
    ensures JsonWhite(LineEnd(fmt) + Tabs(n, fmt)) && White(LineEnd(fmt) + Tabs(n, fmt))
  {
    hide LineEnd;
    TabsOnly(n, fmt);
    EndOnly(fmt);
    DigitIs(TAB);
    DigitIs(NEWLINE);
  }

  lemma TabsOnly(n: nat, fmt: bool)
    ensures forall c :: c in Tabs(n, fmt) ==> c == TAB
  {
    var t := Tabs(n, fmt);
    forall c | c in t
      ensures c == TAB
    {
      var k :| 0 <= k < |t| && t[k] == c;
    }
  }

  lemma EndOnly(fmt: bool)
    ensures forall c :: c in LineEnd(fmt) ==> c == NEWLINE
  {
  }

  // What stands in front of an element.
  function Lead(k: nat, fmt: bool): Text {
    if k > 0 && fmt then [SPACE] else []
  }

  function Gap(fmt: bool): Text {
    if fmt then [TAB] else []
  }

  lemma SmallWhite(k: nat, fmt: bool)
    ensures JsonWhite(Lead(k, fmt)) && White(Lead(k, fmt)) && JsonWhite(Gap(fmt)) && White(Gap(fmt))
    ensures [COLON] + Gap(fmt) == FieldMiddle(fmt) && [COMMA] + Lead(k + 1, fmt) == ItemEnd(false, fmt)
  {
    DigitIs(SPACE);
    DigitIs(TAB);
  }

  lemma WordStrict(v: Value, depth: nat, fmt: bool) returns (x: Syntax)
    requires v.Null? || v.False? || v.True?
    ensures Strict(x) && Formed(x) && TextOf(x) == Print(v, depth, fmt)
  {
    hide Ascii;
    Words();
    LongWord();
    x := Word(v);
  }

  lemma QuoteStrict(s: Text) returns (x: Syntax)
    requires 0 !in s
    ensures Strict(x) && Formed(x) && TextOf(x) == Quoted(s)
  {
    hide Ascii, Spelled, Escaped;
    Marks();
    var us := StringNeat(s);
    x := Quote(us);
  }

  /** Every print is the text of a tree in the grammar. */
  lemma {:induction false} PrintStrict(v: Value, depth: nat, fmt: bool) returns (x: Syntax)
    requires Proper(v)
    ensures Strict(x) && Formed(x) && TextOf(x) == Print(v, depth, fmt)
    decreases v, Count(v) + 1
  {
    hide Ascii, TextOf, Formed, Strict, PrintItems, PrintFields, Quoted, Decimal;
    match v
    case Num(n) => x := NumberStrict(n);
    case Str(s) => x := QuoteStrict(s);
    case Arr(items) => x := ListStrict(v, depth, fmt);
    case Obj(fields) => x := ObjectStrict(v, depth, fmt);
    case _ => x := WordStrict(v, depth, fmt);
  }

  lemma {:induction false} ListStrict(v: Value, depth: nat, fmt: bool) returns (x: Syntax)
    requires v.Arr? && Proper(v)
    ensures Strict(x) && Formed(x) && TextOf(x) == Print(v, depth, fmt)
    decreases v, Count(v) + 1, 0
  {
    hide TextOf, JsonWhite, White, EntriesText, FormedEntry, StrictEntry, Print, PrintItems, Formed, Strict;
    LayoutWhite(0, fmt);
    ListIs(v, depth, fmt);
    var es := [];
    if v.items != [] {
      es := ItemsStrict(v, 0, depth, fmt);
    } else {
      NoItems(v, depth, fmt);
    }
    x := ListBuilt([], es);
    ListText(x);
    Around(OPEN_LIST, PrintItems(v, 0, depth, fmt), CLOSE_LIST);
  }

  lemma ListIs(v: Value, depth: nat, fmt: bool)
    requires v.Arr?
    ensures Print(v, depth, fmt) == [OPEN_LIST] + PrintItems(v, 0, depth, fmt) + [CLOSE_LIST] && Lead(0, fmt) == []
  {
    hide PrintItems;
  }

  lemma Around(a: Byte, t: Text, b: Byte)
    ensures [a] + t + [b] == [a] + (t + [b]) && [] + t == t
  {
  }

  lemma ListBuilt(blank: Text, es: seq<Entry>) returns (x: Syntax)
    requires White(blank) && JsonWhite(blank) && forall e :: e in es ==> FormedEntry(e) && StrictEntry(e)
    ensures x == List(blank, es) && Strict(x) && Formed(x)
  {
    hide White, JsonWhite, FormedEntry, StrictEntry;
    x := List(blank, es);
  }

  lemma ObjectBuilt(blank: Text, ms: seq<Member>) returns (x: Syntax)
    requires White(blank) && JsonWhite(blank) && forall m :: m in ms ==> FormedMember(m) && StrictMember(m)
    ensures x == Object(blank, ms) && Strict(x) && Formed(x)
  {
    hide White, JsonWhite, FormedMember, StrictMember;
    x := Object(blank, ms);
  }

  lemma {:induction false} ItemsStrict(v: Value, k: nat, depth: nat, fmt: bool) returns (es: seq<Entry>)
    requires v.Arr? && k < |v.items| && Proper(v)
    ensures es != [] && forall e :: e in es ==> FormedEntry(e) && StrictEntry(e)
    ensures EntriesText(es) == Lead(k, fmt) + PrintItems(v, k, depth, fmt)
    decreases v, Count(v) - k
  {
    hide Ascii, TextOf, JsonWhite, White, EntriesText, Formed, Strict, Lead, Print;
    var x := PrintStrict(v.items[k], depth + 1, fmt);
    LayoutWhite(0, fmt);
    SmallWhite(k, fmt);
    var e := Entry(Lead(k, fmt), x, []);
    if k + 1 == |v.items| {
      es := [e];
      LastEntry(e);
      NoItems(v, depth, fmt);
    } else {
      var rest := ItemsStrict(v, k + 1, depth, fmt);
      es := [e] + rest;
      EntriesJoin(e, rest);
      ItemsGlue(Lead(k, fmt), TextOf(x), Lead(k + 1, fmt), PrintItems(v, k + 1, depth, fmt), fmt);
    }
  }

  lemma ItemsGlue(a: Text, t: Text, b: Text, rest: Text, fmt: bool)
    requires [COMMA] + b == ItemEnd(false, fmt)
    ensures a + t + [] + ([COMMA] + (b + rest)) == a + (t + ItemEnd(false, fmt) + rest)
  {
    assert [COMMA] + (b + rest) == [COMMA] + b + rest;
  }

  lemma {:induction false} ObjectStrict(v: Value, depth: nat, fmt: bool) returns (x: Syntax)
    requires v.Obj? && Proper(v)
    ensures Strict(x) && Formed(x) && TextOf(x) == Print(v, depth, fmt)
    decreases v, Count(v) + 1, 0
  {
    hide TextOf, JsonWhite, White, MembersText, FormedMember, StrictMember, LineEnd, Tabs, Print, PrintFields, Formed, Strict;
    LayoutWhite(depth, fmt);
    PrintedObject(v, depth, fmt);
    var blank, ms := LineEnd(fmt) + Tabs(depth, fmt), [];
    if v.fields != [] {
      ms := FieldsStrict(v, 0, depth, fmt);
      blank := [];
    } else {
      NoFields(v, depth + 1, fmt);
    }
    x := ObjectBuilt(blank, ms);
    ObjectText(x);
    Around(OPEN_OBJECT, LineEnd(fmt) + PrintFields(v, 0, depth + 1, fmt) + Tabs(depth, fmt), CLOSE_OBJECT);
  }

  lemma {:induction false} FieldsStrict(v: Value, k: nat, depth: nat, fmt: bool) returns (ms: seq<Member>)
    requires v.Obj? && k < |v.fields| && Proper(v)
    ensures ms != [] && forall m :: m in ms ==> FormedMember(m) && StrictMember(m)
    ensures MembersText(ms) == LineEnd(fmt) + PrintFields(v, k, depth + 1, fmt) + Tabs(depth, fmt)
    decreases v, Count(v) - k
  {
    hide TextOf, JsonWhite, White, MembersText, MemberText, Formed, Strict, Print, Spelled, Escaped, LineEnd, Tabs, PrintField,
      FormedMember, StrictMember, AllNeat, AllTaken, Gap;
    var f, last := v.fields[k], k + 1 == |v.fields|;
    var us := StringNeat(f.name);
    var x := PrintStrict(f.value, depth + 1, fmt);
    LayoutWhite(depth, fmt);
    LayoutWhite(depth + 1, fmt);
    SmallWhite(k, fmt);
    var end := if last then LineEnd(fmt) + Tabs(depth, fmt) else [];
    var m := MemberBuilt(LineEnd(fmt) + Tabs(depth + 1, fmt), us, Gap(fmt), x, end);
    FieldGlue(f, last, depth, fmt, m);
    if last {
      ms := [m];
      LastMember(m);
      NoFields(v, depth + 1, fmt);
    } else {
      var rest := FieldsStrict(v, k + 1, depth, fmt);
      ms := [m] + rest;
      MembersJoin(m, rest);
      FieldsGlue(MemberText(m), LineEnd(fmt), PrintField(f, last, depth + 1, fmt), PrintFields(v, k + 1, depth + 1, fmt), Tabs(depth, fmt));
    }
  }

  lemma FieldGlue(f: Field, last: bool, depth: nat, fmt: bool, m: Member)
    requires m.before == LineEnd(fmt) + Tabs(depth + 1, fmt) && m.behind == [] && m.gap == Gap(fmt)
    requires Spelled(m.name) == Escaped(f.name) && TextOf(m.item) == Print(f.value, depth + 1, fmt)
    requires m.end == if last then LineEnd(fmt) + Tabs(depth, fmt) else []
    ensures last ==> MemberText(m) == LineEnd(fmt) + PrintField(f, last, depth + 1, fmt) + Tabs(depth, fmt)
    ensures !last ==> MemberText(m) + ([COMMA] + LineEnd(fmt)) == LineEnd(fmt) + PrintField(f, last, depth + 1, fmt)
  {
    hide TextOf, Spelled, Print, LineEnd, Tabs, MemberText, Gap, NameText, PrintField, Quoted, FieldMiddle;
    MemberIs(m);
    SameName(f, m);
    SmallWhite(0, fmt);
    FieldIs(f, last, depth + 1, fmt);
    MiddleGlue(LineEnd(fmt), Tabs(depth + 1, fmt), NameText(m), Gap(fmt), TextOf(m.item), m.end);
    var t := Tabs(depth + 1, fmt) + Quoted(f.name) + FieldMiddle(fmt) + Print(f.value, depth + 1, fmt);
    EndGlue(LineEnd(fmt), t, Tabs(depth, fmt), [COMMA] + LineEnd(fmt));
  }

  lemma EndGlue(e: Text, t: Text, tabs: Text, more: Text)
    ensures e + t + (e + tabs) == e + (t + e) + tabs && e + t + [] + more == e + (t + more)
  {
  }

  lemma MemberBuilt(before: Text, us: seq<Unit>, gap: Text, x: Syntax, end: Text) returns (m: Member)
    requires White(before) && JsonWhite(before) && AllTaken(us) && AllNeat(us) && White(gap) && JsonWhite(gap)
    requires Formed(x) && Strict(x) && White(end) && JsonWhite(end)
    ensures m == Member(before, us, [], gap, x, end) && FormedMember(m) && StrictMember(m)
  {
    hide JsonWhite, White, AllTaken, AllNeat, Formed, Strict;
    LayoutWhite(0, false);
    m := Member(before, us, [], gap, x, end);
  }

  lemma SameName(f: Field, m: Member)
    requires Spelled(m.name) == Escaped(f.name)
    ensures NameText(m) == Quoted(f.name)
  {
    hide Spelled, Escaped;
  }

  lemma MiddleGlue(e: Text, tabs: Text, name: Text, gap: Text, value: Text, end: Text)
    ensures e + tabs + name + [] + [COLON] + gap + value + end == e + (tabs + name + ([COLON] + gap) + value) + end
  {
    assert e + tabs + name + [] == e + tabs + name;
    var a := e + tabs + name;
    assert a + [COLON] + gap == a + ([COLON] + gap);
    var b := [COLON] + gap;
    assert e + tabs + name + b + value == e + (tabs + name + b + value);
  }

  lemma FieldsGlue(t: Text, e: Text, field: Text, rest: Text, tabs: Text)
    requires t + ([COMMA] + e) == e + field
    ensures t + ([COMMA] + (e + rest + tabs)) == e + (field + rest) + tabs
  {
    calc {
      t + ([COMMA] + (e + rest + tabs));
      t + ([COMMA] + e) + (rest + tabs);
      e + field + (rest + tabs);
      e + (field + rest) + tabs;
    }
  }

  /** What is printed for a value is JSON by RFC 8259, in the narrowest spelling, and it stands for that value. */
  lemma PrintIsJson(v: Value, depth: nat, fmt: bool) returns (x: Syntax)
    requires Proper(v)
    ensures Strict(x) && Formed(x) && TextOf(x) == Print(v, depth, fmt) && ValueOf(x) == v
  {
    hide *;
    x := PrintStrict(v, depth, fmt);
    var s := Print(v, depth, fmt);
    WholeText(s);
    EndOfText(s, x);
    StartsHere(s, 0, x);
    SyntaxRead(s, 0, x);
    EndStops(s);
    PrintBack(s, 0, v, depth, fmt);
  }

  lemma EndStops(s: Text)
    ensures Stops(At(s, |s|))
  {
  }
}
