/** The texts that stand for values, told by a grammar of their own, and that the parser takes just these. */
module JsonGrammar {
  import opened JsonText
  import opened JsonUnicode
  import opened JsonLiteral
  import opened JsonRoundTrip

  // ----- The grammar -----

  /** How a text is put together: a word, a number, a string, a list or an object, with the white space in it. */
  datatype Syntax =
    | Word(v: Value)
    | Numeral(minus: bool, zero: bool, digits: Text)
    | Quote(units: seq<Unit>)
    | List(blank: Text, entries: seq<Entry>)
    | Object(blank: Text, members: seq<Member>)

  datatype Entry = Entry(before: Text, item: Syntax, behind: Text)

  datatype Member = Member(before: Text, name: seq<Unit>, behind: Text, gap: Text, item: Syntax, end: Text)

  function ByteOf(c: char): Byte {
    if c as int < 256 then c as bv8 else 0
  }

  function Ascii(s: string): (t: Text)
    ensures |t| == |s|
  {
    seq(|s|, i requires 0 <= i < |s| => ByteOf(s[i]))
  }

  function WordText(v: Value): Text {
    Ascii(if v.Null? then "null" else if v.True? then "true" else "false")
  }

  /** The spelling. */
  function TextOf(x: Syntax): Text
    decreases x, 0
  {
    match x
    case Word(v) => WordText(v)
    case Numeral(minus, zero, digits) => (if minus then Ascii("-") else []) + (if zero then Ascii("0") else []) + digits
    case Quote(us) => Ascii("\"") + Spelled(us) + Ascii("\"")
    case List(blank, entries) => Ascii("[") + (if entries == [] then blank else EntriesText(entries)) + Ascii("]")
    case Object(blank, members) => Ascii("{") + (if members == [] then blank else MembersText(members)) + Ascii("}")
  }

  /** Entries with commas between them. */
  function EntriesText(es: seq<Entry>): Text
    decreases es, 0
  {
    if es == [] then []
    else EntryText(es[0]) + if |es| == 1 then [] else Ascii(",") + EntriesText(es[1..])
  }

  function EntryText(e: Entry): Text
    decreases e, 0
  {
    e.before + TextOf(e.item) + e.behind
  }

  function MembersText(ms: seq<Member>): Text
    decreases ms, 0
  {
    if ms == [] then []
    else MemberText(ms[0]) + if |ms| == 1 then [] else Ascii(",") + MembersText(ms[1..])
  }

  function MemberText(m: Member): Text
    decreases m, 0
  {
    m.before + Ascii("\"") + Spelled(m.name) + Ascii("\"") + m.behind + Ascii(":") + m.gap + TextOf(m.item) + m.end
  }

  predicate Digit(c: Byte) {
    '0' as int <= c as int <= '9' as int
  }

  predicate AllDigits(d: Text) {
    forall c :: c in d ==> Digit(c)
  }

  /** The number that decimal digits denote. */
  function Natural(d: Text): nat
    requires AllDigits(d)
  {
    if d == [] then 0
    else
      assert d[|d| - 1] in d && forall c :: c in d[..|d| - 1] ==> c in d;
      Natural(d[..|d| - 1]) * 10 + (d[|d| - 1] as int - '0' as int)
  }

  function Signed(minus: bool, n: int): int {
    if minus then -n else n
  }

  /** White space is any character up to the space. */
  predicate White(t: Text) {
    forall c :: c in t ==> 0 < c as int <= ' ' as int
  }

  predicate Decimals(d: Text) {
    AllDigits(d) && (d != [] ==> d[0] as int != '0' as int)
  }

  /** The text is one that the parser is to take: its numbers are in the range of 32 bits. */
  predicate Formed(x: Syntax)
    decreases x, 0
  {
    match x
    case Word(v) => v.Null? || v.False? || v.True?
    case Numeral(minus, zero, digits) =>
      && (minus || zero || digits != []) && Decimals(digits)
      && INT_MIN <= Signed(minus, Natural(digits)) <= INT_MAX
    case Quote(us) => AllTaken(us)
    case List(blank, entries) => White(blank) && forall e :: e in entries ==> FormedEntry(e)
    case Object(blank, members) => White(blank) && forall m :: m in members ==> FormedMember(m)
  }

  predicate FormedEntry(e: Entry)
    decreases e, 0
  {
    White(e.before) && Formed(e.item) && White(e.behind)
  }

  predicate FormedMember(m: Member)
    decreases m, 0
  {
    White(m.before) && AllTaken(m.name) && White(m.behind) && White(m.gap) && Formed(m.item) && White(m.end)
  }

  /** The value that the text stands for. */
  function ValueOf(x: Syntax): Value
    requires Formed(x)
    decreases x, 0
  {
    match x
    case Word(v) => v
    case Numeral(minus, zero, digits) => Num(Signed(minus, Natural(digits)))
    case Quote(us) => Str(Sense(us))
    case List(_, entries) => Arr(EntryValues(entries))
    case Object(_, members) => Obj(MemberValues(members))
  }

  function EntryValues(es: seq<Entry>): (vs: seq<Value>)
    requires forall e :: e in es ==> FormedEntry(e)
    ensures |vs| == |es|
    decreases es, 0
  {
    if es == [] then []
    else
      assert es[0] in es && FormedEntry(es[0]) && forall e :: e in es[1..] ==> e in es;
      [ValueOf(es[0].item)] + EntryValues(es[1..])
  }

  function MemberValues(ms: seq<Member>): (fs: seq<Field>)
    requires forall m :: m in ms ==> FormedMember(m)
    ensures |fs| == |ms|
    decreases ms, 0
  {
    if ms == [] then []
    else
      assert ms[0] in ms && FormedMember(ms[0]) && forall m :: m in ms[1..] ==> m in ms;
      [Field(Sense(ms[0].name), ValueOf(ms[0].item))] + MemberValues(ms[1..])
  }

  lemma IsByte(c: char, b: Byte)
    requires c as int == b as int
    ensures ByteOf(c) == b
  {
  }

  lemma Signs()
    ensures ByteOf('[') == OPEN_LIST && ByteOf(']') == CLOSE_LIST && ByteOf('{') == OPEN_OBJECT && ByteOf('}') == CLOSE_OBJECT
    ensures ByteOf(',') == COMMA && ByteOf(':') == COLON && ByteOf('\"') == QUOTE && ByteOf('\\') == BACKSLASH
    ensures ByteOf('-') == MINUS && ByteOf('0') == 0x30 && ByteOf('.') == DOT
    ensures ByteOf(' ') == SPACE && ByteOf('\t') == TAB && ByteOf('\n') == NEWLINE
  {
    hide ByteOf;
    IsByte('[', OPEN_LIST);
    IsByte(']', CLOSE_LIST);
    IsByte('{', OPEN_OBJECT);
    IsByte('}', CLOSE_OBJECT);
    IsByte(',', COMMA);
    IsByte(':', COLON);
    IsByte('\"', QUOTE);
    IsByte('\\', BACKSLASH);
    IsByte('-', MINUS);
    IsByte('0', 0x30);
    IsByte('.', DOT);
    IsByte(' ', SPACE);
    IsByte('\t', TAB);
    IsByte('\n', NEWLINE);
  }

  /** The characters of the grammar. */
  lemma Brackets()
    ensures Ascii("[") == [OPEN_LIST] && Ascii("]") == [CLOSE_LIST]
    ensures Ascii("{") == [OPEN_OBJECT] && Ascii("}") == [CLOSE_OBJECT]
  {
    hide ByteOf;
    Signs();
  }

  lemma Marks()
    ensures Ascii(",") == [COMMA] && Ascii(":") == [COLON] && Ascii("\"") == [QUOTE]
  {
    hide ByteOf;
    Signs();
  }

  lemma NumberMarks()
    ensures Ascii("-") == [MINUS] && Ascii("0") == [0x30] && Ascii(".") == [DOT]
  {
    hide ByteOf;
    Signs();
  }

  lemma Blanks()
    ensures Ascii(" ") == [SPACE] && Ascii("\t") == [TAB] && Ascii("\n") == [NEWLINE] && Ascii("\\") == [BACKSLASH]
  {
    hide ByteOf;
    Signs();
  }

  lemma Letters()
    ensures ByteOf('n') == 0x6E && ByteOf('u') == 0x75 && ByteOf('l') == 0x6C && ByteOf('t') == 0x74 && ByteOf('r') == 0x72
    ensures ByteOf('e') == 0x65 && ByteOf('f') == 0x66 && ByteOf('a') == 0x61 && ByteOf('s') == 0x73
  {
    hide ByteOf;
    IsByte('n', 0x6E);
    IsByte('u', 0x75);
    IsByte('l', 0x6C);
    IsByte('t', 0x74);
    IsByte('r', 0x72);
    IsByte('e', 0x65);
    IsByte('f', 0x66);
    IsByte('a', 0x61);
    IsByte('s', 0x73);
  }

  lemma Words()
    ensures Ascii("null") == NULL_TEXT && Ascii("true") == TRUE_TEXT
  {
    hide ByteOf;
    Letters();
  }

  lemma LongWord()
    ensures Ascii("false") == FALSE_TEXT
  {
    hide ByteOf;
    Letters();
  }

  lemma DigitIs(c: Byte)
    ensures Digit(c) <==> IsDigit(c)
    ensures Digit(c) ==> (c - 0x30) as int == c as int - '0' as int
    ensures c as int == '0' as int <==> c == 0x30
    ensures 0 < c as int <= ' ' as int <==> 0 < c <= 32
  {
  }

  // ----- Numbers -----

  lemma {:induction false} DigitsRun(s: Text, i: nat, d: Text, k: nat)
    requires AllDigits(d) && Begins(s, i, d) && k <= |d|
    ensures AllDigits(d[..k])
    ensures ReadDigits(s, i, 0) == ReadDigits(s, i + k, Natural(d[..k]))
    decreases k
  {
    hide Begins, Digit;
    if k > 0 {
      DigitsRun(s, i, d, k - 1);
      BeginsAt(s, i, d, k - 1);
      DigitIs(d[k - 1]);
      assert d[..k][..k - 1] == d[..k - 1];
      assert d[k - 1] in d;
    }
  }

  /** No digit, fraction or exponent continues the number, and nothing but another zero follows a zero. */
  predicate NumberEnds(s: Text, j: nat, x: Syntax)
    requires x.Numeral?
  {
    var c := At(s, j);
    && (Digit(c) ==> x.zero && x.digits == [] && c as int == '0' as int)
    && !(c as int == '.' as int && Digit(At(s, j + 1))) && c as int != 'e' as int && c as int != 'E' as int
  }

  lemma EndsIs(s: Text, j: nat, x: Syntax)
    requires x.Numeral?
    ensures NumberEnds(s, j, x) <==>
            && (IsDigit(At(s, j)) ==> x.zero && x.digits == [] && At(s, j) == 0x30)
            && !(At(s, j) == DOT && IsDigit(At(s, j + 1))) && At(s, j) != 0x65 && At(s, j) != 0x45
  {
    hide Digit, IsDigit;
    DigitIs(At(s, j));
    DigitIs(At(s, j + 1));
    MarkIs(At(s, j));
  }

  lemma MarkIs(c: Byte)
    ensures c as int == '.' as int <==> c == DOT
    ensures c as int == 'e' as int <==> c == 0x65
    ensures c as int == 'E' as int <==> c == 0x45
  {
  }

  lemma NumeralRead(s: Text, i: nat, x: Syntax)
    requires x.Numeral? && Formed(x) && Begins(s, i, TextOf(x)) && NumberEnds(s, i + |TextOf(x)|, x)
    ensures Read(s, i) == Ok(ValueOf(x), i + |TextOf(x)|)
  {
    hide Digit, Begins, NumberEnds, ReadDigits, ReadNumber, Natural, AllDigits, Read, TextOf;
    var i1 := if x.minus then i + 1 else i;
    var i2 := if x.zero then i1 + 1 else i1;
    var d := x.digits;
    NumeralPieces(s, i, x);
    if d != [] {
      BeginsAt(s, i2, d, 0);
      DigitIs(d[0]);
      DigitsRun(s, i2, d, |d|);
      assert d[..|d|] == d;
      FirstIsDigit(d);
    }
    NumeralIs(s, i, i1, i2, x);
    NumberIsRead(s, i, Signed(x.minus, Natural(d)), i2 + |d|);
  }

  /** Where the sign, the zero and the other digits stand. */
  lemma NumeralPieces(s: Text, i: nat, x: Syntax)
    requires x.Numeral? && Begins(s, i, TextOf(x))
    ensures var i1 := if x.minus then i + 1 else i; var i2 := if x.zero then i1 + 1 else i1;
            && (x.minus ==> i < |s| && s[i] == MINUS) && (x.zero ==> i1 < |s| && s[i1] == 0x30)
            && Begins(s, i2, x.digits) && i + |TextOf(x)| == i2 + |x.digits| <= |s|
  {
    hide Ascii;
    NumberMarks();
    var m, z, d := if x.minus then [MINUS] else [], if x.zero then [0x30] else [], x.digits;
    assert TextOf(x) == m + z + d;
    BeginsConcat(s, i, m + z, d);
    BeginsConcat(s, i, m, z);
    if x.minus {
      BeginsAt(s, i, m, 0);
    }
    if x.zero {
      BeginsAt(s, i + |m|, z, 0);
    }
  }

  lemma NumberIsRead(s: Text, i: nat, n: int, next: nat)
    requires i < |s| && (s[i] == MINUS || IsDigit(s[i])) && ReadNumber(s, i) == Ok(n, next)
    ensures Read(s, i) == Ok(Num(n), next)
  {
    hide ReadNumber;
    NoWord(s, i);
  }

  lemma FirstIsDigit(d: Text)
    requires AllDigits(d) && d != []
    ensures Digit(d[0])
  {
    assert d[0] in d;
  }

  lemma NumeralIs(s: Text, i: nat, i1: nat, i2: nat, x: Syntax)
    requires x.Numeral? && Formed(x) && i < |s| && i2 + |x.digits| <= |s|
    requires i1 == (if x.minus then i + 1 else i) && i2 == (if x.zero then i1 + 1 else i1)
    requires (x.minus ==> s[i] == MINUS) && (x.zero ==> At(s, i1) == 0x30) && NumberEnds(s, i2 + |x.digits|, x)
    requires x.digits != [] ==> At(s, i2) == x.digits[0] && IsDigit(x.digits[0]) && x.digits[0] != 0x30
                                && ReadDigits(s, i2, 0) == ReadDigits(s, i2 + |x.digits|, Natural(x.digits))
    ensures s[i] == MINUS || IsDigit(s[i])
    ensures ReadNumber(s, i) == Ok(Signed(x.minus, Natural(x.digits)), i2 + |x.digits|)
  {
    hide Digit, NumberEnds, ReadDigits, Natural, AllDigits;
    NoDigits();
    EndsIs(s, i2 + |x.digits|, x);
    if x.digits != [] {
      NoMoreDigits(s, i2 + |x.digits|, Natural(x.digits));
    }
  }

  // ----- What is spelled is read -----

  lemma WhiteIsBlank(s: Text, i: nat, t: Text)
    requires White(t) && Begins(s, i, t)
    ensures Blank(s, i, i + |t|)
    ensures !(0 < At(s, i + |t|) <= 32) ==> Skip(s, i) == i + |t|
    ensures |t| > 0 ==> i < |s| && 0 < s[i] <= 32
  {
    forall k | i <= k < i + |t|
      ensures 0 < s[k] <= 32
    {
      BeginsAt(s, i, t, k - i);
      assert t[k - i] in t;
      DigitIs(s[k]);
    }
    if !(0 < At(s, i + |t|) <= 32) {
      SkipBlank(s, i, i + |t|);
    }
  }

  /** A value begins with a character of its own. */
  lemma Opening(x: Syntax)
    requires Formed(x)
    ensures |TextOf(x)| > 0 && TextOf(x)[0] > 32 && TextOf(x)[0] != CLOSE_LIST && TextOf(x)[0] != CLOSE_OBJECT
  {
    hide Ascii;
    Brackets();
    Marks();
    NumberMarks();
    Words();
    LongWord();
    if x.Numeral? && !x.minus && !x.zero {
      FirstIsDigit(x.digits);
      DigitIs(x.digits[0]);
    }
  }

  lemma StringAt(s: Text, i: nat, us: seq<Unit>)
    requires AllTaken(us) && Begins(s, i, [QUOTE] + Spelled(us) + [QUOTE])
    ensures At(s, i) == QUOTE && ReadString(s, i) == Ok(Sense(us), i + |Spelled(us)| + 2)
  {
    hide Begins, Spelled, Sense, ReadChars;
    assert [QUOTE] + Spelled(us) + [QUOTE] == [QUOTE] + (Spelled(us) + [QUOTE]);
    BeginsConcat(s, i, [QUOTE], Spelled(us) + [QUOTE]);
    BeginsAt(s, i, [QUOTE], 0);
    ClosedStands(s, i + 1, us);
    TakenRead(s, i + 1, us);
  }

  lemma QuoteRead(s: Text, i: nat, us: seq<Unit>)
    requires AllTaken(us) && Begins(s, i, [QUOTE] + Spelled(us) + [QUOTE])
    ensures Read(s, i) == Ok(Str(Sense(us)), i + |Spelled(us)| + 2)
  {
    hide Begins, ReadString, Spelled, Sense;
    StringAt(s, i, us);
    NoWord(s, i);
  }

  lemma WordRead(s: Text, i: nat, v: Value)
    requires (v.Null? || v.False? || v.True?) && Begins(s, i, WordText(v))
    ensures Read(s, i) == Ok(v, i + |WordText(v)|)
  {
    hide Ascii;
    Words();
    LongWord();
    WordBack(s, i, v, 0, false);
  }

  // Nothing that separates values continues a number.
  lemma SeparatorEnds(s: Text, j: nat, x: Syntax)
    requires At(s, j) <= 32 || At(s, j) == COMMA || At(s, j) == CLOSE_LIST || At(s, j) == CLOSE_OBJECT
    ensures x.Numeral? ==> NumberEnds(s, j, x)
  {
    if x.Numeral? {
      EndsIs(s, j, x);
      hide NumberEnds;
    }
  }

  /** The text begins with the spelling, and nothing behind it continues a number. */
  ghost predicate Starts(s: Text, i: nat, x: Syntax) {
    Begins(s, i, TextOf(x)) && (x.Numeral? ==> NumberEnds(s, i + |TextOf(x)|, x))
  }

  /** Every spelling is read as its value, to its end. */
  lemma {:induction false} SyntaxRead(s: Text, i: nat, x: Syntax)
    requires Formed(x) && Starts(s, i, x)
    ensures Read(s, i) == Ok(ValueOf(x), i + |TextOf(x)|)
    decreases x, 1
  {
    hide Ascii, Begins, Read, NumberEnds;
    Marks();
    match x
    case Word(v) => WordRead(s, i, v);
    case Numeral(_, _, _) => NumeralRead(s, i, x);
    case Quote(us) => QuoteRead(s, i, us);
    case List(_, _) => ListRead(s, i, x);
    case Object(_, _) => ObjectRead(s, i, x);
  }

  lemma NoValues()
    ensures EntryValues([]) == [] && MemberValues([]) == []
  {
  }

  lemma ListText(x: Syntax)
    requires x.List?
    ensures var inner := if x.entries == [] then x.blank else EntriesText(x.entries);
            TextOf(x) == [OPEN_LIST] + (inner + [CLOSE_LIST]) && |TextOf(x)| == |inner| + 2
  {
    hide Ascii, EntriesText;
    Brackets();
  }

  lemma {:induction false} ListRead(s: Text, i: nat, x: Syntax)
    requires x.List? && Formed(x) && Begins(s, i, TextOf(x))
    ensures Read(s, i) == Ok(ValueOf(x), i + |TextOf(x)|)
    decreases x, 0
  {
    hide Begins, Read, ReadItems, Skip, White, TextOf, EntriesText, Formed, FormedEntry, ValueOf, EntryValues;
    OfList(x);
    var inner := if x.entries == [] then x.blank else EntriesText(x.entries);
    ListText(x);
    NoValues();
    BeginsConcat(s, i, [OPEN_LIST], inner + [CLOSE_LIST]);
    BeginsAt(s, i, [OPEN_LIST], 0);
    BeginsConcat(s, i + 1, inner, [CLOSE_LIST]);
    BeginsAt(s, i + 1 + |inner|, [CLOSE_LIST], 0);
    if x.entries == [] {
      WhiteIsBlank(s, i + 1, x.blank);
    } else {
      EntriesRead(s, i + 1, x.entries);
      EntryStart(s, i + 1, x.entries);
      ItemsSkip(s, i + 1);
    }
    ReadList(s, i, EntryValues(x.entries), i + |TextOf(x)|);
  }

  lemma OfList(x: Syntax)
    requires x.List? && Formed(x)
    ensures White(x.blank) && (forall e :: e in x.entries ==> FormedEntry(e)) && ValueOf(x) == Arr(EntryValues(x.entries))
  {
    hide White, FormedEntry;
  }

  lemma OfObject(x: Syntax)
    requires x.Object? && Formed(x)
    ensures White(x.blank) && (forall m :: m in x.members ==> FormedMember(m)) && ValueOf(x) == Obj(MemberValues(x.members))
  {
    hide White, FormedMember;
  }

  lemma ItemsSkip(s: Text, i: nat)
    ensures Skip(s, Skip(s, i)) == Skip(s, i) && ReadItems(s, Skip(s, i)) == ReadItems(s, i)
  {
    SkipTwice(s, i);
  }

  lemma {:induction false} SkipTwice(s: Text, i: nat)
    ensures Skip(s, Skip(s, i)) == Skip(s, i) && !(0 < At(s, Skip(s, i)) <= 32)
    decreases |s| - i
  {
    if i < |s| && 0 < s[i] <= 32 {
      SkipTwice(s, i + 1);
    }
  }

  lemma FieldsSkip(s: Text, i: nat)
    ensures Skip(s, Skip(s, i)) == Skip(s, i) && ReadFields(s, Skip(s, i)) == ReadFields(s, i)
  {
    SkipTwice(s, i);
  }

  lemma EntrySplit(es: seq<Entry>)
    requires es != []
    ensures var e := es[0];
            EntriesText(es) + [CLOSE_LIST] == e.before + (TextOf(e.item) + (e.behind +
              if |es| == 1 then [CLOSE_LIST] else [COMMA] + (EntriesText(es[1..]) + [CLOSE_LIST])))
    ensures |EntriesText(es)| == |EntryText(es[0])| + if |es| == 1 then 0 else 1 + |EntriesText(es[1..])|
  {
    hide Ascii, TextOf;
    Marks();
    var e := es[0];
    if |es| == 1 {
      FourPieces(e.before, TextOf(e.item), e.behind, [CLOSE_LIST]);
    } else {
      FourPieces(e.before, TextOf(e.item), e.behind, [COMMA] + (EntriesText(es[1..]) + [CLOSE_LIST]));
      ThreePieces(EntryText(e), [COMMA], EntriesText(es[1..]), [CLOSE_LIST]);
    }
  }

  lemma FourPieces(a: Text, b: Text, c: Text, d: Text)
    ensures a + b + c + d == a + (b + (c + d)) && |a + b + c| == |a| + |b| + |c|
  {
  }

  lemma ThreePieces(a: Text, b: Text, c: Text, d: Text)
    ensures a + (b + c) + d == a + (b + (c + d))
  {
  }

  /** Where the first entry stands. */
  lemma EntryStart(s: Text, i: nat, es: seq<Entry>)
    requires es != [] && (forall e :: e in es ==> FormedEntry(e)) && Begins(s, i, EntriesText(es) + [CLOSE_LIST])
    ensures Skip(s, i) == i + |es[0].before| && At(s, Skip(s, i)) != CLOSE_LIST
    ensures Begins(s, i + |es[0].before|, TextOf(es[0].item))
    ensures Begins(s, i + |es[0].before| + |TextOf(es[0].item)|, es[0].behind)
    ensures var p := i + |EntryText(es[0])|;
            if |es| == 1 then Begins(s, p, [CLOSE_LIST]) && |EntriesText(es)| == |EntryText(es[0])|
            else Begins(s, p, [COMMA]) && Begins(s, p + 1, EntriesText(es[1..]) + [CLOSE_LIST])
                 && |EntriesText(es)| == |EntryText(es[0])| + 1 + |EntriesText(es[1..])|
  {
    hide Ascii, Begins, Skip, White, TextOf, EntriesText, Formed;
    var e := es[0];
    assert e in es && FormedEntry(e);
    EntriesHead(s, i, es);
    Opening(e.item);
    BeginsAt(s, i + |e.before|, TextOf(e.item), 0);
    WhiteIsBlank(s, i, e.before);
  }

  lemma EntriesHead(s: Text, i: nat, es: seq<Entry>)
    requires es != [] && Begins(s, i, EntriesText(es) + [CLOSE_LIST])
    ensures var e := es[0];
            && Begins(s, i, e.before) && Begins(s, i + |e.before|, TextOf(e.item))
            && Begins(s, i + |e.before| + |TextOf(e.item)|, e.behind)
            && |EntryText(e)| == |e.before| + |TextOf(e.item)| + |e.behind|
    ensures var p := i + |EntryText(es[0])|;
            if |es| == 1 then Begins(s, p, [CLOSE_LIST]) && |EntriesText(es)| == |EntryText(es[0])|
            else Begins(s, p, [COMMA]) && Begins(s, p + 1, EntriesText(es[1..]) + [CLOSE_LIST])
                 && |EntriesText(es)| == |EntryText(es[0])| + 1 + |EntriesText(es[1..])|
  {
    hide Begins, TextOf, EntriesText;
    var e := es[0];
    var rest := if |es| == 1 then [CLOSE_LIST] else [COMMA] + (EntriesText(es[1..]) + [CLOSE_LIST]);
    EntrySplit(es);
    BeginsConcat(s, i, e.before, TextOf(e.item) + (e.behind + rest));
    BeginsConcat(s, i + |e.before|, TextOf(e.item), e.behind + rest);
    BeginsConcat(s, i + |e.before| + |TextOf(e.item)|, e.behind, rest);
    if |es| > 1 {
      BeginsConcat(s, i + |EntryText(e)|, [COMMA], EntriesText(es[1..]) + [CLOSE_LIST]);
    }
  }

  lemma {:induction false} EntriesRead(s: Text, i: nat, es: seq<Entry>)
    requires es != [] && (forall e :: e in es ==> FormedEntry(e)) && Begins(s, i, EntriesText(es) + [CLOSE_LIST])
    ensures ReadItems(s, i) == Ok(EntryValues(es), i + |EntriesText(es)| + 1)
    decreases es, 1
  {
    hide Ascii, Begins, Skip, White, TextOf, EntriesText, Read, ReadItems, NumberEnds, Formed, ValueOf, EntryValues;
    var e := es[0];
    assert e in es && FormedEntry(e);
    EntryStart(s, i, es);
    var p := i + |EntryText(e)|;
    var next := i + |e.before| + |TextOf(e.item)|;
    BeginsAt(s, p, if |es| == 1 then [CLOSE_LIST] else [COMMA], 0);
    WhiteIsBlank(s, next, e.behind);
    assert At(s, next) <= 32 || At(s, next) == COMMA || At(s, next) == CLOSE_LIST;
    SeparatorEnds(s, next, e.item);
    SyntaxRead(s, i + |e.before|, e.item);
    RestFormed(es);
    if |es| == 1 {
      ReadItem(s, i, ValueOf(e.item), next, [], p + 1);
    } else {
      EntriesRead(s, p + 1, es[1..]);
      ReadItem(s, i, ValueOf(e.item), next, EntryValues(es[1..]), i + |EntriesText(es)| + 1);
    }
  }

  lemma RestFormed(es: seq<Entry>)
    requires es != [] && forall e :: e in es ==> FormedEntry(e)
    ensures FormedEntry(es[0]) && Formed(es[0].item) && forall e :: e in es[1..] ==> FormedEntry(e)
    ensures EntryValues(es) == [ValueOf(es[0].item)] + EntryValues(es[1..])
    ensures |es| == 1 ==> EntryValues(es) == [ValueOf(es[0].item)] + []
  {
    assert es[0] in es && forall e :: e in es[1..] ==> e in es;
  }

  lemma ObjectText(x: Syntax)
    requires x.Object?
    ensures var inner := if x.members == [] then x.blank else MembersText(x.members);
            TextOf(x) == [OPEN_OBJECT] + (inner + [CLOSE_OBJECT]) && |TextOf(x)| == |inner| + 2
  {
    hide Ascii, MembersText;
    Brackets();
  }

  lemma {:induction false} ObjectRead(s: Text, i: nat, x: Syntax)
    requires x.Object? && Formed(x) && Begins(s, i, TextOf(x))
    ensures Read(s, i) == Ok(ValueOf(x), i + |TextOf(x)|)
    decreases x, 0
  {
    hide Begins, Read, ReadFields, Skip, White, TextOf, MembersText, Formed, FormedMember, ValueOf, MemberValues;
    OfObject(x);
    var inner := if x.members == [] then x.blank else MembersText(x.members);
    ObjectText(x);
    NoValues();
    BeginsConcat(s, i, [OPEN_OBJECT], inner + [CLOSE_OBJECT]);
    BeginsAt(s, i, [OPEN_OBJECT], 0);
    BeginsConcat(s, i + 1, inner, [CLOSE_OBJECT]);
    BeginsAt(s, i + 1 + |inner|, [CLOSE_OBJECT], 0);
    if x.members == [] {
      WhiteIsBlank(s, i + 1, x.blank);
    } else {
      MembersRead(s, i + 1, x.members);
      MemberStart(s, i + 1, x.members);
      FieldsSkip(s, i + 1);
    }
    ReadObject(s, i, MemberValues(x.members), i + |TextOf(x)|);
  }

  /** The name of a member with its quotes. */
  function NameText(m: Member): Text {
    [QUOTE] + Spelled(m.name) + [QUOTE]
  }

  lemma MemberSplit(ms: seq<Member>)
    requires ms != []
    ensures MembersText(ms) + [CLOSE_OBJECT] ==
            MemberText(ms[0]) + if |ms| == 1 then [CLOSE_OBJECT] else [COMMA] + (MembersText(ms[1..]) + [CLOSE_OBJECT])
    ensures |MembersText(ms)| == |MemberText(ms[0])| + if |ms| == 1 then 0 else 1 + |MembersText(ms[1..])|
  {
    hide Ascii, MemberText;
    Marks();
    if |ms| > 1 {
      ThreePieces(MemberText(ms[0]), [COMMA], MembersText(ms[1..]), [CLOSE_OBJECT]);
    }
  }

  lemma SevenPieces(a: Text, b: Text, c: Text, d: Text, e: Text, f: Text, g: Text)
    ensures a + b + c + d + e + f + g == a + (b + (c + (d + (e + (f + g)))))
    ensures |a + b + c + d + e + f + g| == |a| + |b| + |c| + |d| + |e| + |f| + |g|
  {
  }

  lemma MemberIs(m: Member)
    ensures MemberText(m) == m.before + NameText(m) + m.behind + [COLON] + m.gap + TextOf(m.item) + m.end
  {
    hide Ascii, TextOf, Spelled;
    Marks();
    assert m.before + NameText(m) == m.before + [QUOTE] + Spelled(m.name) + [QUOTE];
  }

  /** Where the pieces of the first member stand. */
  lemma MemberStart(s: Text, i: nat, ms: seq<Member>)
    requires ms != [] && (forall m :: m in ms ==> FormedMember(m)) && Begins(s, i, MembersText(ms) + [CLOSE_OBJECT])
    ensures Skip(s, i) == i + |ms[0].before| && At(s, Skip(s, i)) == QUOTE
    ensures var m := ms[0]; var a := i + |m.before|; var b := a + |NameText(m)| + |m.behind|; var c := b + 1 + |m.gap|;
            && Begins(s, a, NameText(m)) && Begins(s, a + |NameText(m)|, m.behind) && Begins(s, b, [COLON])
            && Begins(s, b + 1, m.gap) && Begins(s, c, TextOf(m.item)) && Begins(s, c + |TextOf(m.item)|, m.end)
            && i + |MemberText(m)| == c + |TextOf(m.item)| + |m.end|
    ensures var p := i + |MemberText(ms[0])|;
            if |ms| == 1 then Begins(s, p, [CLOSE_OBJECT]) && |MembersText(ms)| == |MemberText(ms[0])|
            else Begins(s, p, [COMMA]) && Begins(s, p + 1, MembersText(ms[1..]) + [CLOSE_OBJECT])
                 && |MembersText(ms)| == |MemberText(ms[0])| + 1 + |MembersText(ms[1..])|
  {
    hide Begins, Skip, White, TextOf, MembersText, MemberText, NameText, Formed, AllTaken;
    var m := ms[0];
    assert m in ms && FormedMember(m);
    MembersHead(s, i, ms);
    MemberPieces(s, i, m);
    NameOpens(s, i + |m.before|, m);
    WhiteIsBlank(s, i, m.before);
  }

  lemma NameOpens(s: Text, a: nat, m: Member)
    requires Begins(s, a, NameText(m))
    ensures At(s, a) == QUOTE
  {
    hide Begins, Spelled;
    BeginsAt(s, a, NameText(m), 0);
  }

  lemma MembersHead(s: Text, i: nat, ms: seq<Member>)
    requires ms != [] && Begins(s, i, MembersText(ms) + [CLOSE_OBJECT])
    ensures Begins(s, i, MemberText(ms[0]))
    ensures var p := i + |MemberText(ms[0])|;
            if |ms| == 1 then Begins(s, p, [CLOSE_OBJECT]) && |MembersText(ms)| == |MemberText(ms[0])|
            else Begins(s, p, [COMMA]) && Begins(s, p + 1, MembersText(ms[1..]) + [CLOSE_OBJECT])
                 && |MembersText(ms)| == |MemberText(ms[0])| + 1 + |MembersText(ms[1..])|
  {
    hide Begins, MembersText, MemberText;
    var m := ms[0];
    var rest := if |ms| == 1 then [CLOSE_OBJECT] else [COMMA] + (MembersText(ms[1..]) + [CLOSE_OBJECT]);
    MemberSplit(ms);
    BeginsConcat(s, i, MemberText(m), rest);
    if |ms| > 1 {
      BeginsConcat(s, i + |MemberText(m)|, [COMMA], MembersText(ms[1..]) + [CLOSE_OBJECT]);
    }
  }

  lemma MemberPieces(s: Text, i: nat, m: Member)
    requires Begins(s, i, MemberText(m))
    ensures var a := i + |m.before|; var b := a + |NameText(m)| + |m.behind|; var c := b + 1 + |m.gap|;
            && Begins(s, i, m.before) && Begins(s, a, NameText(m)) && Begins(s, a + |NameText(m)|, m.behind) && Begins(s, b, [COLON])
            && Begins(s, b + 1, m.gap) && Begins(s, c, TextOf(m.item)) && Begins(s, c + |TextOf(m.item)|, m.end)
            && i + |MemberText(m)| == c + |TextOf(m.item)| + |m.end|
  {
    hide Begins, TextOf, MemberText, NameText;
    var value := TextOf(m.item);
    MemberIs(m);
    SevenPieces(m.before, NameText(m), m.behind, [COLON], m.gap, value, m.end);
    BeginsConcat(s, i, m.before, NameText(m) + (m.behind + ([COLON] + (m.gap + (value + m.end)))));
    var a := i + |m.before|;
    BeginsConcat(s, a, NameText(m), m.behind + ([COLON] + (m.gap + (value + m.end))));
    BeginsConcat(s, a + |NameText(m)|, m.behind, [COLON] + (m.gap + (value + m.end)));
    var b := a + |NameText(m)| + |m.behind|;
    BeginsConcat(s, b, [COLON], m.gap + (value + m.end));
    BeginsConcat(s, b + 1, m.gap, value + m.end);
    BeginsConcat(s, b + 1 + |m.gap|, value, m.end);
  }

  lemma {:induction false} MembersRead(s: Text, i: nat, ms: seq<Member>)
    requires ms != [] && (forall m :: m in ms ==> FormedMember(m)) && Begins(s, i, MembersText(ms) + [CLOSE_OBJECT])
    ensures ReadFields(s, i) == Ok(MemberValues(ms), i + |MembersText(ms)| + 1)
    decreases ms, 1
  {
    hide Ascii, Begins, Skip, White, TextOf, MembersText, MemberText, NameText, Read, ReadFields, ReadField, NumberEnds, Sense, Natural,
      Formed, AllTaken, Spelled, ValueOf, MemberValues;
    var m := ms[0];
    MemberStart(s, i, ms);
    RestOfMembers(ms);
    var p := i + |MemberText(m)|;
    var next := p - |m.end|;
    BeginsAt(s, p, if |ms| == 1 then [CLOSE_OBJECT] else [COMMA], 0);
    WhiteIsBlank(s, next, m.end);
    assert At(s, next) <= 32 || At(s, next) == COMMA || At(s, next) == CLOSE_OBJECT;
    SeparatorEnds(s, next, m.item);
    SyntaxRead(s, next - |TextOf(m.item)|, m.item);
    MemberRead(s, i, m, next);
    var f := Field(Sense(m.name), ValueOf(m.item));
    if |ms| == 1 {
      ReadFieldAnd(s, i, f, next, [], p + 1);
    } else {
      MembersRead(s, p + 1, ms[1..]);
      ReadFieldAnd(s, i, f, next, MemberValues(ms[1..]), i + |MembersText(ms)| + 1);
    }
  }

  lemma NameRead(s: Text, a: nat, m: Member)
    requires AllTaken(m.name) && Begins(s, a, NameText(m))
    ensures At(s, a) == QUOTE && ReadString(s, a) == Ok(Sense(m.name), a + |NameText(m)|)
  {
    hide Begins, Spelled, Sense, ReadString, AllTaken;
    StringAt(s, a, m.name);
  }

  lemma MemberRead(s: Text, i: nat, m: Member, next: nat)
    requires FormedMember(m) && Skip(s, i) == i + |m.before|
    requires var a := i + |m.before|; var b := a + |NameText(m)| + |m.behind|; var c := b + 1 + |m.gap|;
             && Begins(s, a, NameText(m)) && Begins(s, a + |NameText(m)|, m.behind) && Begins(s, b, [COLON])
             && Begins(s, b + 1, m.gap) && Begins(s, c, TextOf(m.item))
             && Formed(m.item) && Read(s, c) == Ok(ValueOf(m.item), next)
    ensures Formed(m.item) && ReadField(s, i) == Ok(Field(Sense(m.name), ValueOf(m.item)), next)
  {
    hide Begins, Skip, White, TextOf, Read, ReadField, ReadString, Sense, NameText, Formed, AllTaken, ValueOf;
    var a := i + |m.before|;
    var b := a + |NameText(m)| + |m.behind|;
    var c := b + 1 + |m.gap|;
    NameRead(s, a, m);
    BeginsAt(s, b, [COLON], 0);
    WhiteIsBlank(s, a + |NameText(m)|, m.behind);
    Opening(m.item);
    BeginsAt(s, c, TextOf(m.item), 0);
    WhiteIsBlank(s, b + 1, m.gap);
    ReadOneField(s, i, Sense(m.name), a + |NameText(m)|, ValueOf(m.item), next);
  }

  lemma RestOfMembers(ms: seq<Member>)
    requires ms != [] && forall m :: m in ms ==> FormedMember(m)
    ensures FormedMember(ms[0]) && Formed(ms[0].item) && forall m :: m in ms[1..] ==> FormedMember(m)
    ensures MemberValues(ms) == [Field(Sense(ms[0].name), ValueOf(ms[0].item))] + MemberValues(ms[1..])
    ensures |ms| == 1 ==> MemberValues(ms) == [Field(Sense(ms[0].name), ValueOf(ms[0].item))] + []
  {
    assert ms[0] in ms && forall m :: m in ms[1..] ==> m in ms;
  }

  // ----- What is read is spelled -----

  lemma {:induction false} DigitsStand(s: Text, i: nat, acc: nat)
    requires i <= |s|
    ensures var j := ReadDigits(s, i, acc).1; AllDigits(s[i..j]) && !IsDigit(At(s, j))
    decreases |s| - i
  {
    hide Digit;
    if i < |s| && IsDigit(s[i]) {
      DigitIs(s[i]);
      DigitsStand(s, i + 1, acc * 10 + (s[i] - 0x30) as int);
      var j := ReadDigits(s, i, acc).1;
      assert s[i..j] == [s[i]] + s[i + 1..j];
    }
  }

  /** The digits that are read, and the number that they denote. */
  lemma DigitsTaken(s: Text, i: nat)
    requires i <= |s|
    ensures var (n, j) := ReadDigits(s, i, 0);
            AllDigits(s[i..j]) && Natural(s[i..j]) == n && !IsDigit(At(s, j)) && (i < |s| && IsDigit(s[i]) ==> i < j)
  {
    hide AllDigits, Natural;
    DigitsStand(s, i, 0);
    var j := ReadDigits(s, i, 0).1;
    DigitsRun(s, i, s[i..j], j - i);
    assert s[i..j][..j - i] == s[i..j];
    NoMoreDigits(s, j, Natural(s[i..j]));
    MoreDigits(s, i);
  }

  lemma MoreDigits(s: Text, i: nat)
    ensures i < |s| && IsDigit(s[i]) ==> i < ReadDigits(s, i, 0).1
  {
  }

  /** The digits that stand in the text, with their sign, whatever they denote and whatever follows. */
  lemma NumeralHere(s: Text, i: nat) returns (x: Syntax, j: nat)
    requires i < |s| && (s[i] == MINUS || IsDigit(s[i]))
    ensures x.Numeral? && (x.minus || x.zero || x.digits != []) && Decimals(x.digits)
    ensures Begins(s, i, TextOf(x)) && i + |TextOf(x)| == j <= |s| && (IsDigit(At(s, j)) ==> x.zero && x.digits == [] && At(s, j) == 0x30)
    ensures ReadNumber(s, i) ==
            if (At(s, j) == DOT && IsDigit(At(s, j + 1))) || At(s, j) == 0x65 || At(s, j) == 0x45 then Outside
            else if INT_MIN <= Signed(x.minus, Natural(x.digits)) <= INT_MAX then Ok(Signed(x.minus, Natural(x.digits)), j)
            else Outside
  {
    hide Ascii, Digit, ReadDigits, Natural, AllDigits, Begins, TextOf;
    NoDigits();
    var i1 := if s[i] == MINUS then i + 1 else i;
    var i2 := if At(s, i1) == 0x30 then i1 + 1 else i1;
    DigitsTaken(s, i2);
    j := if 0x31 <= At(s, i2) <= 0x39 then ReadDigits(s, i2, 0).1 else i2;
    var d := s[i2..j];
    x := Numeral(s[i] == MINUS, At(s, i1) == 0x30, d);
    if d != [] {
      DigitIs(d[0]);
    }
    NumeralText(s, i, i1, i2, j, x);
  }

  lemma NumeralTaken(s: Text, i: nat) returns (x: Syntax)
    requires i < |s| && (s[i] == MINUS || IsDigit(s[i])) && ReadNumber(s, i).Ok?
    ensures x.Numeral? && Formed(x) && Starts(s, i, x)
  {
    hide Decimals, ReadNumber, Natural, NumberEnds, Begins, TextOf;
    var j;
    x, j := NumeralHere(s, i);
    EndsIs(s, j, x);
  }

  lemma NumeralText(s: Text, i: nat, i1: nat, i2: nat, i3: nat, x: Syntax)
    requires i <= i1 <= i2 <= i3 <= |s| && i1 <= i + 1 && i2 <= i1 + 1
    requires x == Numeral(i < i1, i1 < i2, s[i2..i3]) && (i < i1 ==> s[i] == MINUS) && (i1 < i2 ==> s[i1] == 0x30)
    ensures Begins(s, i, TextOf(x)) && i + |TextOf(x)| == i3
  {
    hide Ascii, Begins;
    NumberMarks();
    var m, z := if i < i1 then [MINUS] else [], if i1 < i2 then [0x30] else [];
    assert m == s[i..i1];
    assert z == s[i1..i2];
    Whole(s, i, i1);
    Whole(s, i1, i2);
    Whole(s, i2, i3);
    BeginsJoin(s, i, m, z);
    BeginsJoin(s, i, m + z, x.digits);
  }

  lemma NoDigits()
    ensures AllDigits([]) && Natural([]) == 0
  {
  }

  lemma Whole(s: Text, i: nat, j: nat)
    requires i <= j <= |s|
    ensures Begins(s, i, s[i..j])
  {
  }

  lemma {:induction false} SkipWhite(s: Text, i: nat)
    requires i <= |s|
    ensures White(s[i..Skip(s, i)])
    decreases |s| - i
  {
    if i < |s| && 0 < s[i] <= 32 {
      SkipWhite(s, i + 1);
      DigitIs(s[i]);
      assert s[i..Skip(s, i)] == [s[i]] + s[i + 1..Skip(s, i)];
    }
  }

  /** A string that the end of the text breaks off. */
  predicate Open(s: Text, i: nat) {
    At(s, i) == QUOTE && ReadChars(s, i + 1).Piece? && At(s, ReadChars(s, i + 1).next) == 0
  }

  // Nothing follows it.
  lemma NotOpen(s: Text, i: nat)
    requires Read(s, i).Ok? && At(s, Skip(s, Read(s, i).next)) != 0
    ensures !Open(s, i)
  {
    hide ReadChars;
    if Open(s, i) {
      NoWord(s, i);
    }
  }

  lemma NameNotOpen(s: Text, i: nat)
    requires ReadString(s, i).Ok? && At(s, Skip(s, ReadString(s, i).next)) != 0
    ensures !Open(s, i)
  {
    hide ReadChars;
  }

  lemma QuoteTaken(s: Text, i: nat) returns (us: seq<Unit>)
    requires i < |s| && ReadString(s, i).Ok? && !Open(s, i)
    ensures AllTaken(us) && Begins(s, i, [QUOTE] + Spelled(us) + [QUOTE])
  {
    hide Spelled, ReadChars, Sense;
    us := CharsTaken(s, i + 1);
    var j := i + 1 + |Spelled(us)|;
    assert s[i..j + 1] == [QUOTE] + s[i + 1..j] + [QUOTE];
  }

  lemma WordTaken(s: Text, i: nat) returns (x: Syntax)
    requires Begins(s, i, NULL_TEXT) || Begins(s, i, FALSE_TEXT) || Begins(s, i, TRUE_TEXT)
    ensures x.Word? && Formed(x) && Starts(s, i, x)
  {
    hide Ascii, Begins;
    Words();
    LongWord();
    x := Word(if Begins(s, i, NULL_TEXT) then Null else if Begins(s, i, FALSE_TEXT) then False else True);
  }

  /** Whatever is read, except for a string that is broken off, is a spelling. */
  lemma {:induction false} SyntaxTaken(s: Text, i: nat) returns (x: Syntax)
    requires i <= |s| && Read(s, i).Ok? && !Open(s, i)
    ensures Formed(x) && Starts(s, i, x)
    decreases |s| - i, 0
  {
    hide Ascii, ReadNumber, ReadString, ReadItems, ReadFields, Skip, Open, Begins, Spelled;
    Marks();
    if Begins(s, i, NULL_TEXT) || Begins(s, i, FALSE_TEXT) || Begins(s, i, TRUE_TEXT) {
      x := WordTaken(s, i);
    } else if At(s, i) == QUOTE {
      var us := QuoteTaken(s, i);
      x := Quote(us);
    } else if At(s, i) == MINUS || IsDigit(At(s, i)) {
      x := NumeralTaken(s, i);
    } else if At(s, i) == OPEN_LIST {
      x := ListTaken(s, i);
    } else {
      x := ObjectTaken(s, i);
    }
  }

  lemma {:induction false} ListTaken(s: Text, i: nat) returns (x: Syntax)
    requires i < |s| && s[i] == OPEN_LIST
    requires At(s, Skip(s, i + 1)) == CLOSE_LIST || ReadItems(s, Skip(s, i + 1)).Ok?
    ensures x.List? && Formed(x) && Begins(s, i, TextOf(x))
    decreases |s| - i - 1, 4
  {
    hide Ascii, Begins, ReadItems, Skip, White, TextOf, EntriesText;
    var inner;
    if At(s, Skip(s, i + 1)) == CLOSE_LIST {
      inner := s[i + 1..Skip(s, i + 1)];
      SkipWhite(s, i + 1);
      x := List(inner, []);
      BeginsPart(s, i + 1, Skip(s, i + 1), CLOSE_LIST);
    } else {
      ItemsSkip(s, i + 1);
      var es := ItemsTaken(s, i + 1);
      inner := EntriesText(es);
      NothingWhite();
      x := List([], es);
    }
    ListText(x);
    BeginsPart(s, i, i, OPEN_LIST);
    BeginsJoin(s, i, [OPEN_LIST], inner + [CLOSE_LIST]);
  }

  lemma NothingWhite()
    ensures White([])
  {
  }

  // A stretch of the text and the character behind it.
  lemma BeginsPart(s: Text, i: nat, j: nat, c: Byte)
    requires i <= j < |s| && s[j] == c
    ensures Begins(s, i, s[i..j] + [c]) && Begins(s, j, [c]) && s[i..i] == []
  {
    assert s[i..j + 1] == s[i..j] + [c];
  }

  lemma {:induction false} ItemsTaken(s: Text, i: nat) returns (es: seq<Entry>)
    requires i <= |s| && ReadItems(s, i).Ok?
    ensures es != [] && (forall e :: e in es ==> FormedEntry(e)) && Begins(s, i, EntriesText(es) + [CLOSE_LIST])
    decreases |s| - i, 3
  {
    hide Ascii, Begins, Read, Skip, White, TextOf, EntriesText, EntryText, Open, Formed;
    var p := Skip(s, i);
    NotOpen(s, p);
    var e, end := EntryTaken(s, i);
    if At(s, end) == CLOSE_LIST {
      es := [e];
      BeginsPart(s, end, end, CLOSE_LIST);
      LastEntry(e);
      BeginsJoin(s, i, EntryText(e), [CLOSE_LIST]);
    } else {
      var rest := ItemsTaken(s, end + 1);
      es := [e] + rest;
      BeginsPart(s, end, end, COMMA);
      BeginsJoin(s, end, [COMMA], EntriesText(rest) + [CLOSE_LIST]);
      BeginsJoin(s, i, EntryText(e), [COMMA] + (EntriesText(rest) + [CLOSE_LIST]));
      MoreEntries(e, rest);
    }
  }

  lemma LastEntry(e: Entry)
    ensures EntriesText([e]) == EntryText(e)
  {
    hide Ascii, EntryText;
  }

  lemma MoreEntries(e: Entry, rest: seq<Entry>)
    requires rest != []
    ensures EntriesText([e] + rest) + [CLOSE_LIST] == EntryText(e) + ([COMMA] + (EntriesText(rest) + [CLOSE_LIST]))
  {
    hide Ascii, EntryText;
    Marks();
    assert ([e] + rest)[1..] == rest;
    ThreePieces(EntryText(e), [COMMA], EntriesText(rest), [CLOSE_LIST]);
  }

  lemma {:induction false} EntryTaken(s: Text, i: nat) returns (e: Entry, end: nat)
    requires i <= |s| && Read(s, Skip(s, i)).Ok? && !Open(s, Skip(s, i))
    ensures FormedEntry(e) && Begins(s, i, EntryText(e)) && end == i + |EntryText(e)| <= |s|
    ensures end == Skip(s, Read(s, Skip(s, i)).next)
    decreases |s| - i, 2
  {
    hide Ascii, Begins, Read, Skip, White, TextOf, Open, Formed, Starts;
    var p := Skip(s, i);
    var x, next := ValueTaken(s, p);
    end := Skip(s, next);
    e := Entry(s[i..p], x, s[next..end]);
    SkipWhite(s, i);
    SkipWhite(s, next);
    Whole(s, i, p);
    Whole(s, next, end);
    BeginsJoin(s, i, e.before, TextOf(x));
    BeginsJoin(s, i, e.before + TextOf(x), e.behind);
  }

  lemma {:induction false} ValueTaken(s: Text, i: nat) returns (x: Syntax, next: nat)
    requires i <= |s| && Read(s, i).Ok? && !Open(s, i)
    ensures Formed(x) && Begins(s, i, TextOf(x)) && next == i + |TextOf(x)| <= |s| && Read(s, i) == Ok(ValueOf(x), next)
    decreases |s| - i, 1
  {
    hide *;
    x := SyntaxTaken(s, i);
    SyntaxRead(s, i, x);
    StartsBegins(s, i, x);
    next := i + |TextOf(x)|;
  }

  lemma StartsBegins(s: Text, i: nat, x: Syntax)
    requires Starts(s, i, x)
    ensures Begins(s, i, TextOf(x)) && i + |TextOf(x)| <= |s|
  {
  }

  lemma {:induction false} ObjectTaken(s: Text, i: nat) returns (x: Syntax)
    requires i < |s| && s[i] == OPEN_OBJECT
    requires At(s, Skip(s, i + 1)) == CLOSE_OBJECT || ReadFields(s, Skip(s, i + 1)).Ok?
    ensures x.Object? && Formed(x) && Begins(s, i, TextOf(x))
    decreases |s| - i - 1, 4
  {
    hide Ascii, Begins, ReadFields, Skip, White, TextOf, MembersText;
    var inner;
    if At(s, Skip(s, i + 1)) == CLOSE_OBJECT {
      inner := s[i + 1..Skip(s, i + 1)];
      SkipWhite(s, i + 1);
      x := Object(inner, []);
      BeginsPart(s, i + 1, Skip(s, i + 1), CLOSE_OBJECT);
    } else {
      FieldsSkip(s, i + 1);
      var ms := FieldsTaken(s, i + 1);
      inner := MembersText(ms);
      NothingWhite();
      x := Object([], ms);
    }
    ObjectText(x);
    BeginsPart(s, i, i, OPEN_OBJECT);
    BeginsJoin(s, i, [OPEN_OBJECT], inner + [CLOSE_OBJECT]);
  }

  lemma {:induction false} FieldsTaken(s: Text, i: nat) returns (ms: seq<Member>)
    requires i <= |s| && ReadFields(s, i).Ok?
    ensures ms != [] && (forall m :: m in ms ==> FormedMember(m)) && Begins(s, i, MembersText(ms) + [CLOSE_OBJECT])
    decreases |s| - i, 3
  {
    hide Ascii, Begins, ReadField, Skip, White, TextOf, MembersText, MemberText, Formed;
    var m, end := MemberTaken(s, i);
    if At(s, end) == CLOSE_OBJECT {
      ms := [m];
      BeginsPart(s, end, end, CLOSE_OBJECT);
      LastMember(m);
      BeginsJoin(s, i, MemberText(m), [CLOSE_OBJECT]);
    } else {
      var rest := FieldsTaken(s, end + 1);
      ms := [m] + rest;
      BeginsPart(s, end, end, COMMA);
      BeginsJoin(s, end, [COMMA], MembersText(rest) + [CLOSE_OBJECT]);
      BeginsJoin(s, i, MemberText(m), [COMMA] + (MembersText(rest) + [CLOSE_OBJECT]));
      MoreMembers(m, rest);
    }
  }

  lemma LastMember(m: Member)
    ensures MembersText([m]) == MemberText(m)
  {
    hide Ascii, MemberText;
  }

  lemma MoreMembers(m: Member, rest: seq<Member>)
    requires rest != []
    ensures MembersText([m] + rest) + [CLOSE_OBJECT] == MemberText(m) + ([COMMA] + (MembersText(rest) + [CLOSE_OBJECT]))
  {
    hide Ascii, MemberText;
    Marks();
    assert ([m] + rest)[1..] == rest;
    ThreePieces(MemberText(m), [COMMA], MembersText(rest), [CLOSE_OBJECT]);
  }

  lemma {:induction false} MemberTaken(s: Text, i: nat) returns (m: Member, end: nat)
    requires i <= |s| && ReadField(s, i).Ok? && At(s, Skip(s, ReadField(s, i).next)) != 0
    ensures FormedMember(m) && Begins(s, i, MemberText(m)) && end == i + |MemberText(m)| <= |s|
    ensures end == Skip(s, ReadField(s, i).next)
    decreases |s| - i, 2
  {
    hide Begins, ReadField, Skip, White, TextOf, Open, Formed, Starts, MemberText, Spelled, NameText, AllTaken, FormedMember, ValueOf;
    var a := Skip(s, i);
    var us := NameTaken(s, i, ReadField(s, i).value, ReadField(s, i).next);
    var b := a + |Spelled(us)| + 2;
    var c := Skip(s, b);
    var d := Skip(s, c + 1);
    NotOpen(s, d);
    var x, next := ValueTaken(s, d);
    end := Skip(s, next);
    SkipWhite(s, i);
    SkipWhite(s, b);
    SkipWhite(s, c + 1);
    SkipWhite(s, next);
    m := MemberMade(s[i..a], us, s[b..c], s[c + 1..d], x, s[next..end]);
    NameIs(m);
    MemberJoin(s, i, m, end);
  }

  lemma NameIs(m: Member)
    ensures NameText(m) == [QUOTE] + Spelled(m.name) + [QUOTE]
  {
  }

  lemma MemberMade(before: Text, us: seq<Unit>, behind: Text, gap: Text, x: Syntax, end: Text) returns (m: Member)
    requires White(before) && AllTaken(us) && White(behind) && White(gap) && Formed(x) && White(end)
    ensures m == Member(before, us, behind, gap, x, end) && FormedMember(m)
  {
    hide White, AllTaken, Formed;
    m := Member(before, us, behind, gap, x, end);
  }

  /** The name of a member, and the colon behind it. */
  lemma NameTaken(s: Text, i: nat, f: Field, next: nat) returns (us: seq<Unit>)
    requires i <= |s| && ReadField(s, i) == Ok(f, next)
    ensures AllTaken(us) && Begins(s, Skip(s, i), [QUOTE] + Spelled(us) + [QUOTE])
    ensures var b := Skip(s, i) + |Spelled(us)| + 2; var c := Skip(s, b);
            b <= |s| && At(s, c) == COLON && Read(s, Skip(s, c + 1)) == Ok(f.value, next)
  {
    hide Begins, Read, ReadString, Skip, Open, Spelled;
    var a := Skip(s, i);
    NameNotOpen(s, a);
    us := QuoteTaken(s, a);
    StringAt(s, a, us);
  }

  lemma MemberJoin(s: Text, i: nat, m: Member, end: nat)
    requires i <= end <= |s|
    requires var a := i + |m.before|; var b := a + |NameText(m)|; var c := b + |m.behind|; var d := c + 1 + |m.gap|;
             var next := d + |TextOf(m.item)|;
             && c < |s| && s[c] == COLON && end == next + |m.end|
             && s[i..a] == m.before && Begins(s, a, NameText(m)) && s[b..c] == m.behind && s[c + 1..d] == m.gap
             && Begins(s, d, TextOf(m.item)) && s[next..end] == m.end
    ensures Begins(s, i, MemberText(m)) && end == i + |MemberText(m)|
  {
    hide NameText, TextOf, MemberText;
    MemberIs(m);
    var t := s[i..end];
    assert t == m.before + NameText(m) + m.behind + [COLON] + m.gap + TextOf(m.item) + m.end;
  }
}
