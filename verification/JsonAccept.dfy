/** What the parser accepts, what it refuses, and where it says that a refused text went wrong. */
module JsonAccept {
  import opened JsonText
  import opened JsonRoundTrip
  import opened JsonLiteral
  import opened JsonGrammar

  /** From `i` to `j` the text is a spelling of the value, and nothing at `j` continues a number. */
  ghost predicate SpelledAt(s: Text, i: nat, j: nat, v: Value)
    requires i <= j <= |s|
  {
    exists x: Syntax :: SpelledBy(s, i, j, v, x)
  }

  ghost predicate SpelledBy(s: Text, i: nat, j: nat, v: Value, x: Syntax)
    requires i <= j <= |s|
  {
    Formed(x) && TextOf(x) == s[i..j] && ValueOf(x) == v && (x.Numeral? ==> NumberEnds(s, j, x))
  }

  /** A string without its closing quote, where the text ends. */
  ghost predicate BrokenOff(s: Text, i: nat, j: nat, v: Value)
    requires i <= j <= |s|
  {
    At(s, j) == 0 && exists us: seq<Unit> :: AllTaken(us) && Ascii("\"") + Spelled(us) == s[i..j] && v == Str(Sense(us))
  }

  lemma SpelledIsRead(s: Text, i: nat, j: nat, v: Value)
    requires i <= j <= |s| && SpelledAt(s, i, j, v)
    ensures Read(s, i) == Ok(v, j)
  {
    hide SpelledBy, Read;
    var x: Syntax :| SpelledBy(s, i, j, v, x);
    SpelledReads(s, i, j, v, x);
  }

  lemma SpelledReads(s: Text, i: nat, j: nat, v: Value, x: Syntax)
    requires i <= j <= |s| && SpelledBy(s, i, j, v, x)
    ensures Read(s, i) == Ok(v, j)
  {
    hide Read, Formed, TextOf, ValueOf, Begins, NumberEnds;
    Whole(s, i, j);
    SyntaxRead(s, i, x);
  }

  lemma StartsHere(s: Text, i: nat, x: Syntax)
    ensures Starts(s, i, x) <==> Begins(s, i, TextOf(x)) && (x.Numeral? ==> NumberEnds(s, i + |TextOf(x)|, x))
  {
  }

  lemma BrokenIsRead(s: Text, i: nat, j: nat, v: Value)
    requires i <= j <= |s| && BrokenOff(s, i, j, v)
    ensures Read(s, i) == Ok(v, j)
  {
    hide Ascii, Begins, Sense, Spelled, ReadChars;
    Marks();
    var us: seq<Unit> :| AllTaken(us) && Ascii("\"") + Spelled(us) == s[i..j] && v == Str(Sense(us));
    Whole(s, i, j);
    BeginsConcat(s, i, [QUOTE], Spelled(us));
    BeginsAt(s, i, [QUOTE], 0);
    TakenRead(s, i + 1, us);
    NoWord(s, i);
  }

  lemma OpenIsBroken(s: Text, i: nat)
    requires i <= |s| && Read(s, i).Ok? && Open(s, i)
    ensures BrokenOff(s, i, Read(s, i).next, Read(s, i).value)
  {
    hide Ascii, Begins, Sense, Spelled, ReadChars;
    Marks();
    var us := CharsTaken(s, i + 1);
    var j := i + 1 + |Spelled(us)|;
    NoWord(s, i);
    Stretch(s, i + 1, Spelled(us));
    assert s[i..j] == [QUOTE] + s[i + 1..j];
  }

  lemma Stretch(s: Text, i: nat, t: Text)
    requires Begins(s, i, t)
    ensures i + |t| <= |s| && s[i..i + |t|] == t
  {
  }

  lemma ReadIsSpelled(s: Text, i: nat)
    requires i <= |s| && Read(s, i).Ok? && !Open(s, i)
    ensures SpelledAt(s, i, Read(s, i).next, Read(s, i).value)
  {
    hide Read, Begins, NumberEnds, Open, TextOf, Formed, ValueOf;
    var x := SyntaxTaken(s, i);
    SyntaxRead(s, i, x);
    Stretch(s, i, TextOf(x));
    assert SpelledBy(s, i, Read(s, i).next, Read(s, i).value, x);
  }

  /** The parser reads a value from `i` to `j` if and only if that stretch is a spelling of the value, or a string that the end
      of the text breaks off. */
  lemma Accepts(s: Text, i: nat, j: nat, v: Value)
    requires i <= j <= |s|
    ensures Read(s, i) == Ok(v, j) <==> SpelledAt(s, i, j, v) || BrokenOff(s, i, j, v)
  {
    hide *;
    if SpelledAt(s, i, j, v) {
      SpelledIsRead(s, i, j, v);
    } else if BrokenOff(s, i, j, v) {
      BrokenIsRead(s, i, j, v);
    } else if Read(s, i) == Ok(v, j) {
      if Open(s, i) {
        OpenIsBroken(s, i);
      } else {
        ReadIsSpelled(s, i);
      }
    }
  }

  lemma OnlyQuotes(x: Syntax)
    requires Formed(x) && |TextOf(x)| > 0 && TextOf(x)[0] == QUOTE
    ensures x.Quote?
  {
    hide Ascii, IsDigit;
    Brackets();
    NumberMarks();
    Words();
    LongWord();
    if x.Numeral? && !x.minus && !x.zero {
      FirstIsDigit(x.digits);
      DigitIs(x.digits[0]);
      QuoteNoDigit();
    }
  }

  lemma QuoteNoDigit()
    ensures !IsDigit(QUOTE)
  {
  }

  /** No text is both: a string that is broken off is a spelling of nothing. */
  lemma NotBoth(s: Text, i: nat, j: nat, v: Value, w: Value)
    requires i <= j <= |s| && BrokenOff(s, i, j, v)
    ensures !SpelledAt(s, i, j, w)
  {
    hide Ascii, Begins, Sense, Spelled, ReadChars, SpelledBy;
    if SpelledAt(s, i, j, w) {
      Marks();
      var us: seq<Unit> :| AllTaken(us) && Ascii("\"") + Spelled(us) == s[i..j] && v == Str(Sense(us));
      var x: Syntax :| SpelledBy(s, i, j, w, x);
      Whole(s, i, j);
      BeginsConcat(s, i, [QUOTE], Spelled(us));
      TakenRead(s, i + 1, us);
      QuoteEnds(s, i, j, w, x);
    }
  }

  lemma QuoteEnds(s: Text, i: nat, j: nat, v: Value, x: Syntax)
    requires i < j <= |s| && SpelledBy(s, i, j, v, x) && s[i..j][0] == QUOTE
    ensures ReadChars(s, i + 1).Piece? && ReadChars(s, i + 1).next == j - 1
  {
    hide Ascii, Begins, Sense, Spelled, ReadChars, NumberEnds;
    Marks();
    OnlyQuotes(x);
    var us := x.units;
    var t := [QUOTE] + Spelled(us) + [QUOTE];
    Whole(s, i, j);
    assert t == [QUOTE] + (Spelled(us) + [QUOTE]);
    BeginsConcat(s, i, [QUOTE], Spelled(us) + [QUOTE]);
    ClosedStands(s, i + 1, us);
    TakenRead(s, i + 1, us);
  }

  /** The text "a without a second quote is read as the string a. */
  lemma UnclosedIsTaken()
    ensures Read(Ascii("\"a"), 0) == Ok(Str(Ascii("a")), 2)
  {
    Marks();
    LetterA();
    hide Ascii, Read;
    var us := [Plain(0x61)];
    One(us[0]);
    assert Ascii("\"") + Spelled(us) == [QUOTE, 0x61][0..2];
    assert Sense(us) == [0x61];
    BrokenIsRead([QUOTE, 0x61], 0, 2, Str([0x61]));
  }

  lemma LetterA()
    ensures Ascii("a") == [0x61] && Ascii("\"a") == [QUOTE, 0x61]
  {
    hide ByteOf;
    Letters();
    Signs();
  }

  /** No refused text begins with a spelling. */
  lemma Refuses(s: Text, i: nat, x: Syntax)
    requires Read(s, i).Failed? && Formed(x)
    ensures !Begins(s, i, TextOf(x))
  {
    hide Begins, TextOf, Read, NumberEnds;
    if Begins(s, i, TextOf(x)) {
      if x.Numeral? {
        NumeralOpens(s, i, x);
        NotRefused(s, i);
      } else {
        SyntaxRead(s, i, x);
      }
    }
  }

  lemma NumeralOpens(s: Text, i: nat, x: Syntax)
    requires x.Numeral? && Formed(x) && Begins(s, i, TextOf(x))
    ensures i < |s| && (s[i] == MINUS || IsDigit(s[i]))
  {
    hide Ascii, Begins, IsDigit, Digit;
    NumberMarks();
    BeginsAt(s, i, TextOf(x), 0);
    DigitIs(s[i]);
    ZeroIsDigit();
  }

  lemma ZeroIsDigit()
    ensures IsDigit(0x30)
  {
  }

  lemma NotRefused(s: Text, i: nat)
    requires i < |s| && (s[i] == MINUS || IsDigit(s[i]))
    ensures !Read(s, i).Failed?
  {
    hide ReadNumber;
    NoWord(s, i);
    NumberNotRefused(s, i);
  }

  lemma NumberNotRefused(s: Text, i: nat)
    requires i < |s| && (s[i] == MINUS || IsDigit(s[i]))
    ensures !ReadNumber(s, i).Failed?
  {
  }

  /** A spelling stands for one value only, however it is put together. */
  lemma OneValue(x: Syntax, y: Syntax)
    requires Formed(x) && Formed(y) && TextOf(x) == TextOf(y)
    ensures ValueOf(x) == ValueOf(y)
  {
    hide *;
    var s := TextOf(x);
    WholeText(s);
    EndOfText(s, x);
    EndOfText(s, y);
    StartsHere(s, 0, x);
    StartsHere(s, 0, y);
    SyntaxRead(s, 0, x);
    SyntaxRead(s, 0, y);
  }

  lemma WholeText(s: Text)
    ensures Begins(s, 0, s)
  {
  }

  lemma EndOfText(s: Text, x: Syntax)
    ensures x.Numeral? ==> NumberEnds(s, |s|, x)
  {
    SeparatorEnds(s, |s|, x);
  }

  // ----- The place of an error -----

  /** Up to `e` the text is the front of `t`. */
  predicate Agrees(s: Text, i: nat, e: nat, t: Text) {
    i <= e <= |s| && e - i <= |t| && s[i..e] == t[..e - i]
  }

  lemma AgreesMore(s: Text, i: nat, e: nat, t: Text, u: Text)
    requires Agrees(s, i, e, t)
    ensures Agrees(s, i, e, t + u)
  {
    assert (t + u)[..e - i] == t[..e - i];
  }

  lemma AgreesBehind(s: Text, i: nat, e: nat, t: Text, u: Text)
    requires Begins(s, i, t) && Agrees(s, i + |t|, e, u)
    ensures Agrees(s, i, e, t + u)
  {
    assert s[i..e] == s[i..i + |t|] + s[i + |t|..e];
    assert (t + u)[..e - i] == t + u[..e - i - |t|];
  }

  lemma AgreesAll(s: Text, i: nat, t: Text)
    requires Begins(s, i, t)
    ensures Agrees(s, i, i + |t|, t) && t[..|t|] == t
  {
  }

  lemma AgreesNone(s: Text, i: nat, t: Text)
    requires i <= |s|
    ensures Agrees(s, i, i, t)
  {
  }

  /** A value, whole or broken off, is the front of a spelling. */
  lemma FrontOfValue(s: Text, i: nat) returns (x: Syntax)
    requires i <= |s| && Read(s, i).Ok?
    ensures Formed(x) && Agrees(s, i, Read(s, i).next, TextOf(x))
    ensures !Open(s, i) ==> Begins(s, i, TextOf(x)) && i + |TextOf(x)| == Read(s, i).next
  {
    hide Ascii, Begins, Agrees, ReadChars, Spelled, NumberEnds;
    if Open(s, i) {
      Marks();
      NoWord(s, i);
      var us := FrontOfString(s, i);
      x := Quote(us);
    } else {
      hide Read, TextOf;
      x := SyntaxTaken(s, i);
      SyntaxRead(s, i, x);
      AgreesAll(s, i, TextOf(x));
    }
  }

  lemma FrontOfString(s: Text, i: nat) returns (us: seq<Unit>)
    requires i <= |s| && At(s, i) == QUOTE && ReadChars(s, i + 1).Piece?
    ensures AllTaken(us) && Agrees(s, i, ReadChars(s, i + 1).next, [QUOTE] + Spelled(us) + [QUOTE])
  {
    hide Begins, Agrees, ReadChars, Spelled;
    us := CharsTaken(s, i + 1);
    BeginsPart(s, i, i, QUOTE);
    BeginsJoin(s, i, [QUOTE], Spelled(us));
    AgreesAll(s, i, [QUOTE] + Spelled(us));
    AgreesMore(s, i, i + 1 + |Spelled(us)|, [QUOTE] + Spelled(us), [QUOTE]);
  }

  /** Up to the place of the error the text is the front of a spelling. */
  lemma {:induction false} FrontIsRight(s: Text, i: nat, ep: nat) returns (x: Syntax)
    requires i <= |s| && Read(s, i) == Failed(ep)
    ensures Formed(x) && Agrees(s, i, ep, TextOf(x))
    decreases |s| - i, 0
  {
    hide Ascii, Begins, Agrees, ReadNumber, ReadItems, ReadFields, Skip, ReadChars, TextOf;
    if At(s, i) == OPEN_LIST {
      var es := ItemsFront(s, i + 1, ep);
      x := ListFront(s, i, es, ep);
    } else if At(s, i) == OPEN_OBJECT {
      var ms := FieldsFront(s, i + 1, ep);
      x := ObjectFront(s, i, ms, ep);
    } else {
      if At(s, i) == MINUS || IsDigit(At(s, i)) {
        NotRefused(s, i);
      }
      x := Word(Null);
      AgreesNone(s, i, TextOf(x));
    }
  }

  lemma ListFront(s: Text, i: nat, es: seq<Entry>, ep: nat) returns (x: Syntax)
    requires i < |s| && s[i] == OPEN_LIST && es != [] && (forall e :: e in es ==> FormedEntry(e))
    requires Agrees(s, i + 1, ep, EntriesText(es))
    ensures Formed(x) && Agrees(s, i, ep, TextOf(x))
  {
    hide Ascii, Begins, Agrees, EntriesText, White;
    NothingWhite();
    x := List([], es);
    ListText(x);
    hide TextOf;
    AgreesMore(s, i + 1, ep, EntriesText(es), [CLOSE_LIST]);
    BeginsPart(s, i, i, OPEN_LIST);
    AgreesBehind(s, i, ep, [OPEN_LIST], EntriesText(es) + [CLOSE_LIST]);
  }

  lemma ObjectFront(s: Text, i: nat, ms: seq<Member>, ep: nat) returns (x: Syntax)
    requires i < |s| && s[i] == OPEN_OBJECT && ms != [] && (forall m :: m in ms ==> FormedMember(m))
    requires Agrees(s, i + 1, ep, MembersText(ms))
    ensures Formed(x) && Agrees(s, i, ep, TextOf(x))
  {
    hide Ascii, Begins, Agrees, MembersText, White;
    NothingWhite();
    x := Object([], ms);
    ObjectText(x);
    hide TextOf;
    AgreesMore(s, i + 1, ep, MembersText(ms), [CLOSE_OBJECT]);
    BeginsPart(s, i, i, OPEN_OBJECT);
    AgreesBehind(s, i, ep, [OPEN_OBJECT], MembersText(ms) + [CLOSE_OBJECT]);
  }

  lemma {:induction false} ItemsFront(s: Text, i: nat, ep: nat) returns (es: seq<Entry>)
    requires i <= |s| && ReadItems(s, Skip(s, i)) == Failed(ep)
    ensures es != [] && (forall e :: e in es ==> FormedEntry(e)) && Agrees(s, i, ep, EntriesText(es))
    decreases |s| - i, 1
  {
    hide Ascii, Begins, Agrees, Read, Skip, TextOf, EntriesText, EntryText, Open, FormedEntry, Formed, ValueOf;
    ItemsSkip(s, i);
    var p := Skip(s, i);
    if Read(s, p).Failed? {
      var x := FrontIsRight(s, p, ep);
      var e := EntryFront(s, i, x, ep);
      es := [e];
      LastEntry(e);
    } else if Open(s, p) {
      var x := FrontOfValue(s, p);
      OpenEnd(s, p);
      var e := EntryFront(s, i, x, ep);
      es := [e];
      LastEntry(e);
    } else {
      var e, end := EntryTaken(s, i);
      if At(s, end) == COMMA {
        ItemsSkip(s, end + 1);
        var rest := ItemsFront(s, end + 1, ep);
        es := [e] + rest;
        BeginsPart(s, end, end, COMMA);
        AgreesBehind(s, end, ep, [COMMA], EntriesText(rest));
        AgreesBehind(s, i, ep, EntryText(e), [COMMA] + EntriesText(rest));
        EntriesJoin(e, rest);
      } else {
        es := [e];
        LastEntry(e);
        AgreesAll(s, i, EntryText(e));
      }
    }
  }

  lemma EntriesJoin(e: Entry, rest: seq<Entry>)
    requires rest != []
    ensures EntriesText([e] + rest) == EntryText(e) + ([COMMA] + EntriesText(rest))
  {
    hide Ascii, EntryText;
    Marks();
    assert ([e] + rest)[1..] == rest;
  }

  // A string that is broken off ends where the text ends.
  lemma OpenEnd(s: Text, p: nat)
    requires Read(s, p).Ok? && Open(s, p)
    ensures At(s, Read(s, p).next) == 0 && Skip(s, Read(s, p).next) == Read(s, p).next
  {
    hide ReadChars;
    NoWord(s, p);
  }

  lemma EntryFront(s: Text, i: nat, x: Syntax, ep: nat) returns (e: Entry)
    requires i <= |s| && Formed(x) && Agrees(s, Skip(s, i), ep, TextOf(x))
    ensures FormedEntry(e) && Agrees(s, i, ep, EntryText(e))
  {
    hide Begins, Agrees, Skip, White, TextOf, Formed;
    var p := Skip(s, i);
    SkipWhite(s, i);
    NothingWhite();
    Whole(s, i, p);
    e := Entry(s[i..p], x, []);
    AgreesBehind(s, i, ep, s[i..p], TextOf(x));
    AgreesMore(s, i, ep, s[i..p] + TextOf(x), []);
  }

  lemma {:induction false} FieldsFront(s: Text, i: nat, ep: nat) returns (ms: seq<Member>)
    requires i <= |s| && ReadFields(s, Skip(s, i)) == Failed(ep)
    ensures ms != [] && (forall m :: m in ms ==> FormedMember(m)) && Agrees(s, i, ep, MembersText(ms))
    decreases |s| - i, 2
  {
    hide Ascii, Begins, Agrees, ReadField, Skip, MembersText, MemberText, FormedMember;
    FieldsSkip(s, i);
    if ReadField(s, i).Failed? {
      var m := FieldFront(s, i, ep);
      ms := [m];
      LastMember(m);
    } else if At(s, Skip(s, ReadField(s, i).next)) == 0 {
      var m := FieldEnd(s, i, ReadField(s, i).value, ReadField(s, i).next);
      ms := [m];
      LastMember(m);
    } else {
      var m, end := MemberTaken(s, i);
      if At(s, end) == COMMA {
        FieldsSkip(s, end + 1);
        var rest := FieldsFront(s, end + 1, ep);
        ms := [m] + rest;
        BeginsPart(s, end, end, COMMA);
        AgreesBehind(s, end, ep, [COMMA], MembersText(rest));
        AgreesBehind(s, i, ep, MemberText(m), [COMMA] + MembersText(rest));
        MembersJoin(m, rest);
      } else {
        ms := [m];
        LastMember(m);
        AgreesAll(s, i, MemberText(m));
      }
    }
  }

  lemma MembersJoin(m: Member, rest: seq<Member>)
    requires rest != []
    ensures MembersText([m] + rest) == MemberText(m) + ([COMMA] + MembersText(rest))
  {
    hide Ascii, MemberText;
    Marks();
    assert ([m] + rest)[1..] == rest;
  }

  lemma MemberRight(m: Member)
    ensures MemberText(m) == m.before + (NameText(m) + (m.behind + ([COLON] + (m.gap + (TextOf(m.item) + m.end)))))
  {
    hide TextOf, MemberText, NameText;
    MemberIs(m);
    SevenPieces(m.before, NameText(m), m.behind, [COLON], m.gap, TextOf(m.item), m.end);
  }

  lemma NullFormed()
    ensures Formed(Word(Null)) && White([])
  {
  }

  /** The error is at the name of a member or at its colon. */
  lemma NameFront(s: Text, i: nat, ep: nat) returns (m: Member)
    requires i <= |s|
    requires var a := Skip(s, i);
             if !ReadString(s, a).Ok? then ep == a
             else ep == Skip(s, ReadString(s, a).next)
    requires ReadString(s, Skip(s, i)).Failed? || (ReadString(s, Skip(s, i)).Ok? && At(s, ep) != COLON)
    ensures FormedMember(m) && Agrees(s, i, ep, MemberText(m))
  {
    hide Begins, Agrees, Skip, White, TextOf, MemberText, ReadString, Open;
    var a := Skip(s, i);
    SkipWhite(s, i);
    Whole(s, i, a);
    NullFormed();
    if ReadString(s, a).Failed? {
      m := Member(s[i..a], [], [], [], Word(Null), []);
      MemberRight(m);
      AgreesNone(s, a, NameText(m) + (m.behind + ([COLON] + (m.gap + (TextOf(m.item) + m.end)))));
      TakenNone();
    } else {
      var us, behind := NameEnd(s, a);
      m := Member(s[i..a], us, behind, [], Word(Null), []);
      MemberRight(m);
      NameIs(m);
      var rest := [COLON] + (m.gap + (TextOf(m.item) + m.end));
      AgreesMore(s, a, ep, NameText(m) + behind, rest);
      Regrouped(NameText(m), behind, rest);
    }
    AgreesBehind(s, i, ep, m.before, NameText(m) + (m.behind + ([COLON] + (m.gap + (TextOf(m.item) + m.end)))));
  }

  lemma Regrouped(a: Text, b: Text, c: Text)
    ensures a + b + c == a + (b + c)
  {
  }

  lemma TakenNone()
    ensures AllTaken([])
  {
  }

  lemma NameEnd(s: Text, a: nat) returns (us: seq<Unit>, behind: Text)
    requires a <= |s| && ReadString(s, a).Ok?
    ensures AllTaken(us) && White(behind)
    ensures Agrees(s, a, Skip(s, ReadString(s, a).next), [QUOTE] + Spelled(us) + [QUOTE] + behind)
  {
    hide Begins, Agrees, White, Spelled, ReadChars;
    var next := ReadString(s, a).next;
    if Open(s, a) {
      us := FrontOfString(s, a);
      behind := [];
      NothingWhite();
    } else {
      hide ReadString;
      us := QuoteTaken(s, a);
      StringAt(s, a, us);
      behind := s[next..Skip(s, next)];
      SkipWhite(s, next);
      Whole(s, next, Skip(s, next));
      BeginsJoin(s, a, [QUOTE] + Spelled(us) + [QUOTE], behind);
      AgreesAll(s, a, [QUOTE] + Spelled(us) + [QUOTE] + behind);
      return;
    }
    AgreesMore(s, a, next, [QUOTE] + Spelled(us) + [QUOTE], behind);
  }

  /** A member that is right up to its value. */
  lemma MemberFront(s: Text, i: nat, us: seq<Unit>, x: Syntax, end: Text, ep: nat) returns (m: Member)
    requires i <= |s| && AllTaken(us) && Formed(x) && White(end)
    requires var a := Skip(s, i); var b := a + |Spelled(us)| + 2; var c := Skip(s, b);
             && Begins(s, a, [QUOTE] + Spelled(us) + [QUOTE]) && b <= |s| && At(s, c) == COLON
             && Agrees(s, Skip(s, c + 1), ep, TextOf(x) + end)
    ensures FormedMember(m) && Agrees(s, i, ep, MemberText(m))
  {
    hide Begins, Agrees, Skip, White, TextOf, MemberText, Formed, Spelled;
    var a := Skip(s, i);
    var b := a + |Spelled(us)| + 2;
    var c := Skip(s, b);
    var d := Skip(s, c + 1);
    m := Member(s[i..a], us, s[b..c], s[c + 1..d], x, end);
    SkipWhite(s, i);
    SkipWhite(s, b);
    SkipWhite(s, c + 1);
    Whole(s, i, a);
    Whole(s, b, c);
    Whole(s, c + 1, d);
    BeginsPart(s, c, c, COLON);
    MemberRight(m);
    NameIs(m);
    hide NameText;
    var t := TextOf(x) + end;
    AgreesBehind(s, c + 1, ep, m.gap, t);
    AgreesBehind(s, c, ep, [COLON], m.gap + t);
    AgreesBehind(s, b, ep, m.behind, [COLON] + (m.gap + t));
    AgreesBehind(s, a, ep, NameText(m), m.behind + ([COLON] + (m.gap + t)));
    AgreesBehind(s, i, ep, m.before, NameText(m) + (m.behind + ([COLON] + (m.gap + t))));
  }

  lemma {:induction false} FieldFront(s: Text, i: nat, ep: nat) returns (m: Member)
    requires i <= |s| && ReadField(s, i) == Failed(ep)
    ensures FormedMember(m) && Agrees(s, i, ep, MemberText(m))
    decreases |s| - i, 1
  {
    hide Begins, Agrees, Skip, White, TextOf, MemberText, ReadString, Open, Read, Formed, FormedMember, Spelled, Sense, AllTaken;
    var a := Skip(s, i);
    if ReadString(s, a).Ok? && At(s, Skip(s, ReadString(s, a).next)) == COLON {
      NameNotOpen(s, a);
      var us := QuoteTaken(s, a);
      StringAt(s, a, us);
      var d := Skip(s, Skip(s, a + |Spelled(us)| + 2) + 1);
      var x := FrontIsRight(s, d, ep);
      AgreesMore(s, d, ep, TextOf(x), []);
      NothingWhite();
      m := MemberFront(s, i, us, x, [], ep);
    } else {
      StringFails(s, a);
      m := NameFront(s, i, ep);
    }
  }

  lemma StringFails(s: Text, i: nat)
    ensures ReadString(s, i).Failed? ==> ReadString(s, i) == Failed(i)
  {
  }

  lemma {:induction false} FieldEnd(s: Text, i: nat, f: Field, next: nat) returns (m: Member)
    requires i <= |s| && ReadField(s, i) == Ok(f, next) && At(s, Skip(s, next)) == 0
    ensures FormedMember(m) && Agrees(s, i, Skip(s, next), MemberText(m))
  {
    hide Begins, Agrees, Skip, White, TextOf, MemberText, Open, Read, Formed, FormedMember, ReadField, Spelled;
    var us := NameTaken(s, i, f, next);
    var d := Skip(s, Skip(s, Skip(s, i) + |Spelled(us)| + 2) + 1);
    var x := FrontOfValue(s, d);
    var end := [];
    if Open(s, d) {
      OpenEnd(s, d);
      NothingWhite();
      AgreesMore(s, d, next, TextOf(x), end);
    } else {
      end := s[next..Skip(s, next)];
      SkipWhite(s, next);
      Whole(s, next, Skip(s, next));
      BeginsJoin(s, d, TextOf(x), end);
      AgreesAll(s, d, TextOf(x) + end);
    }
    m := MemberFront(s, i, us, x, end, Skip(s, next));
  }

  // ----- What stands at the place of an error -----

  /** The texts are the same up to `e`. */
  predicate Same(s: Text, t: Text, e: nat) {
    e <= |s| && e <= |t| && s[..e] == t[..e]
  }

  lemma SameAt(s: Text, t: Text, e: nat, i: nat)
    requires Same(s, t, e) && i < e
    ensures At(s, i) == At(t, i) && i < |s| && i < |t|
  {
    assert s[..e][i] == t[..e][i];
  }

  lemma SamePart(s: Text, t: Text, e: nat, i: nat, j: nat)
    requires Same(s, t, e) && i <= j <= e
    ensures s[i..j] == t[i..j]
  {
    assert s[i..j] == s[..e][i..j];
    assert t[i..j] == t[..e][i..j];
  }

  lemma {:induction false} SkipAgain(s: Text, t: Text, e: nat, i: nat)
    requires Same(s, t, e) && Skip(s, i) < e
    ensures Skip(t, i) == Skip(s, i)
    decreases |s| - i
  {
    hide Same;
    SameAt(s, t, e, i);
    if i < |s| && 0 < s[i] <= 32 {
      SkipAgain(s, t, e, i + 1);
    }
  }

  lemma {:induction false} DigitsAgain(s: Text, t: Text, e: nat, i: nat, acc: nat)
    requires Same(s, t, e) && ReadDigits(s, i, acc).1 < e
    ensures ReadDigits(t, i, acc) == ReadDigits(s, i, acc)
    decreases |s| - i
  {
    hide Same, IsDigit;
    SameAt(s, t, e, i);
    if i < |s| && IsDigit(s[i]) {
      DigitsAgain(s, t, e, i + 1, acc * 10 + (s[i] - 0x30) as int);
    }
  }

  lemma NumberAgain(s: Text, t: Text, e: nat, i: nat, n: int, j: nat)
    requires Same(s, t, e) && j < e && i < |s| && (s[i] == MINUS || IsDigit(s[i])) && ReadNumber(s, i) == Ok(n, j)
    ensures i < |t| && t[i] == s[i] && (ReadNumber(t, i).Ok? ==> ReadNumber(t, i) == Ok(n, j))
  {
    hide Same, ReadDigits, IsDigit;
    SameAt(s, t, e, i);
    var i1 := if s[i] == MINUS then i + 1 else i;
    var i2 := if At(s, i1) == 0x30 then i1 + 1 else i1;
    var r := ReadDigits(s, i2, 0);
    assert i1 <= i2 <= j;
    SameAt(s, t, e, i1);
    SameAt(s, t, e, i2);
    SameAt(s, t, e, j);
    if 0x31 <= At(s, i2) <= 0x39 {
      DigitsAgain(s, t, e, i2, 0);
    }
  }

  lemma StringAgain(s: Text, t: Text, e: nat, i: nat, u: Text, j: nat)
    requires Same(s, t, e) && j < e && ReadString(s, i) == Ok(u, j)
    ensures ReadString(t, i) == Ok(u, j)
  {
    hide Same, ReadChars, Sense, Spelled, Stands;
    SameAt(s, t, e, i);
    var us := CharsTaken(s, i + 1);
    StandsAgain(s, t, e, i + 1, us);
    TakenRead(t, i + 1, us);
  }

  lemma StandsAgain(s: Text, t: Text, e: nat, i: nat, us: seq<Unit>)
    requires Same(s, t, e) && Stands(s, i, us) && i + |Spelled(us)| < e
    ensures Stands(t, i, us) && At(t, i + |Spelled(us)|) == At(s, i + |Spelled(us)|)
  {
    hide Same, Spelled;
    var j := i + |Spelled(us)|;
    SameAt(s, t, e, j);
    SamePart(s, t, e, i, j);
  }

  lemma BeginsAgain(s: Text, t: Text, e: nat, i: nat, u: Text)
    requires Same(s, t, e) && i + |u| <= e
    ensures Begins(s, i, u) <==> Begins(t, i, u)
  {
    SamePart(s, t, e, i, i + |u|);
  }

  /** A value in front of `e` is read again, or the number has got a fraction. */
  lemma {:induction false} ReadAgain(s: Text, t: Text, e: nat, i: nat, v: Value, j: nat)
    requires i <= |s| && Same(s, t, e) && j < e && Read(s, i) == Ok(v, j)
    ensures Read(t, i).Ok? ==> Read(t, i) == Ok(v, j)
  {
    hide Same, Begins, ReadNumber, ReadString, TextOf, Open;
    SameAt(s, t, e, i);
    if At(s, i) == QUOTE {
      NoWord(s, i);
      NoWord(t, i);
      StringAgain(s, t, e, i, v.s, j);
    } else if At(s, i) == MINUS || IsDigit(At(s, i)) {
      NoWord(s, i);
      NoWord(t, i);
      NumberAgain(s, t, e, i, v.n, j);
    } else {
      NotAQuote(s, i);
      OthersAgain(s, t, e, i, v, j);
    }
  }

  lemma NotAQuote(s: Text, i: nat)
    requires At(s, i) != QUOTE
    ensures !Open(s, i)
  {
  }

  lemma OthersAgain(s: Text, t: Text, e: nat, i: nat, v: Value, j: nat)
    requires i <= |s| && Same(s, t, e) && j < e && Read(s, i) == Ok(v, j) && !Open(s, i)
    requires At(s, i) != MINUS && !IsDigit(At(s, i))
    ensures Read(t, i) == Ok(v, j)
  {
    hide Same, Begins, Read, TextOf, Open, NumberEnds, Formed, ValueOf, IsDigit;
    var x := SyntaxTaken(s, i);
    SyntaxRead(s, i, x);
    BeginsAgain(s, t, e, i, TextOf(x));
    if x.Numeral? {
      NumeralOpens(s, i, x);
      assert false;
    }
    SyntaxRead(t, i, x);
  }

  // The letters n, f and t.
  const WORD_LETTERS: Text := [0x6E, 0x66, 0x74]

  /** A text that is the same up to the error and beyond is refused as well. */
  lemma {:induction false} FailsAgain(s: Text, t: Text, i: nat, ep: nat)
    requires i <= |s| && Read(s, i) == Failed(ep) && Same(s, t, ep + 1) && s[ep] !in WORD_LETTERS
    ensures !Read(t, i).Ok?
    decreases |s| - i, 0
  {
    hide Same, Begins, ReadNumber, ReadString, ReadItems, ReadFields, Skip;
    FailsBehind(s, i, ep);
    SameAt(s, t, ep + 1, i);
    if At(s, i) == OPEN_LIST {
      var q := Skip(s, i + 1);
      ItemsBehind(s, i + 1, ep);
      SkipAgain(s, t, ep + 1, i + 1);
      SameAt(s, t, ep + 1, q);
      ItemsFailAgain(s, t, q, ep);
      NoWord(t, i);
    } else if At(s, i) == OPEN_OBJECT {
      var q := Skip(s, i + 1);
      FieldsBehind(s, i + 1, ep);
      SkipAgain(s, t, ep + 1, i + 1);
      SameAt(s, t, ep + 1, q);
      FieldsFailAgain(s, t, q, ep);
      NoWord(t, i);
    } else {
      if At(s, i) == MINUS || IsDigit(At(s, i)) {
        NotRefused(s, i);
      }
      if At(s, i) == QUOTE {
        QuoteNotRefused(s, i);
      }
      NoWord(t, i);
    }
  }

  lemma QuoteNotRefused(s: Text, i: nat)
    requires At(s, i) == QUOTE
    ensures !Read(s, i).Failed?
  {
    hide ReadChars;
    NoWord(s, i);
  }

  lemma FailsBehind(s: Text, i: nat, ep: nat)
    requires i <= |s| && Read(s, i) == Failed(ep)
    ensures i <= ep <= |s|
  {
    hide Read;
    var x := FrontIsRight(s, i, ep);
  }

  lemma ItemsBehind(s: Text, i: nat, ep: nat)
    requires i <= |s| && ReadItems(s, Skip(s, i)) == Failed(ep)
    ensures Skip(s, i) <= ep <= |s|
  {
    hide ReadItems, EntriesText;
    ItemsSkip(s, i);
    var es := ItemsFront(s, Skip(s, i), ep);
  }

  lemma FieldsBehind(s: Text, i: nat, ep: nat)
    requires i <= |s| && ReadFields(s, Skip(s, i)) == Failed(ep)
    ensures Skip(s, i) <= ep <= |s|
  {
    hide ReadFields, MembersText;
    FieldsSkip(s, i);
    var ms := FieldsFront(s, Skip(s, i), ep);
  }

  lemma {:induction false} ItemsFailAgain(s: Text, t: Text, i: nat, ep: nat)
    requires i <= |s| && ReadItems(s, i) == Failed(ep) && Same(s, t, ep + 1) && s[ep] !in WORD_LETTERS
    ensures !ReadItems(t, i).Ok?
    decreases |s| - i, 1
  {
    hide Same, Read, Skip;
    var p := Skip(s, i);
    ItemsSkip(s, i);
    ItemsBehind(s, i, ep);
    SkipAgain(s, t, ep + 1, i);
    if Read(s, p).Failed? {
      FailsAgain(s, t, p, ep);
    } else {
      var next := Read(s, p).next;
      var j := Skip(s, next);
      if At(s, j) == COMMA {
        ItemsSkip(s, j + 1);
        ItemsBehind(s, j + 1, ep);
        ItemsFailAgain(s, t, j + 1, ep);
      }
      ReadAgain(s, t, ep + 1, p, Read(s, p).value, next);
      SkipAgain(s, t, ep + 1, next);
      SameAt(s, t, ep + 1, j);
    }
  }

  lemma {:induction false} FieldsFailAgain(s: Text, t: Text, i: nat, ep: nat)
    requires i <= |s| && ReadFields(s, i) == Failed(ep) && Same(s, t, ep + 1) && s[ep] !in WORD_LETTERS
    ensures !ReadFields(t, i).Ok?
    decreases |s| - i, 2
  {
    hide Same, ReadField, Skip;
    if ReadField(s, i).Failed? {
      FieldFailsAgain(s, t, i, ep);
    } else {
      var next := ReadField(s, i).next;
      var j := Skip(s, next);
      if At(s, j) == COMMA {
        FieldsSkip(s, j + 1);
        FieldsBehind(s, j + 1, ep);
        FieldsFailAgain(s, t, j + 1, ep);
      }
      FieldAgain(s, t, ep + 1, i, ReadField(s, i).value, next);
      SkipAgain(s, t, ep + 1, next);
      SameAt(s, t, ep + 1, j);
    }
  }

  lemma FieldAgain(s: Text, t: Text, e: nat, i: nat, f: Field, next: nat)
    requires i <= |s| && Same(s, t, e) && next < e && ReadField(s, i) == Ok(f, next)
    ensures ReadField(t, i).Ok? ==> ReadField(t, i) == Ok(f, next)
  {
    hide Same, Read, Skip, ReadString;
    var a := Skip(s, i);
    var b := ReadString(s, a).next;
    var c := Skip(s, b);
    var d := Skip(s, c + 1);
    SkipAgain(s, t, e, i);
    StringAgain(s, t, e, a, ReadString(s, a).value, b);
    SkipAgain(s, t, e, b);
    SameAt(s, t, e, c);
    SkipAgain(s, t, e, c + 1);
    ReadAgain(s, t, e, d, f.value, next);
  }

  lemma {:induction false} FieldFailsAgain(s: Text, t: Text, i: nat, ep: nat)
    requires i <= |s| && ReadField(s, i) == Failed(ep) && Same(s, t, ep + 1) && s[ep] !in WORD_LETTERS
    ensures !ReadField(t, i).Ok?
    decreases |s| - i, 1
  {
    hide Same, Read, Skip, ReadString;
    var a := Skip(s, i);
    StringFails(s, a);
    if ReadString(s, a).Failed? {
      SkipAgain(s, t, ep + 1, i);
      SameAt(s, t, ep + 1, a);
      NoString(s, a);
      NoString(t, a);
    } else {
      var b := ReadString(s, a).next;
      var c := Skip(s, b);
      if At(s, c) == COLON {
        var d := Skip(s, c + 1);
        FailsBehind(s, d, ep);
        SkipAgain(s, t, ep + 1, c + 1);
        FailsAgain(s, t, d, ep);
      }
      SkipAgain(s, t, ep + 1, i);
      StringAgain(s, t, ep + 1, a, ReadString(s, a).value, b);
      SkipAgain(s, t, ep + 1, b);
      SameAt(s, t, ep + 1, c);
    }
  }

  lemma NoString(s: Text, i: nat)
    ensures ReadString(s, i).Failed? <==> At(s, i) != QUOTE
  {
    hide ReadChars;
  }

  /** Up to the error the text is the front of a spelling, and with the character at the error it is not, unless that is the
      first letter of a word. */
  ghost predicate ErrorAt(s: Text, i: nat, ep: nat) {
    && i <= ep <= |s|
    && (exists x: Syntax :: Formed(x) && Agrees(s, i, ep, TextOf(x)))
    && (ep < |s| && s[ep] !in WORD_LETTERS ==> forall y: Syntax :: Formed(y) ==> !Agrees(s, i, ep + 1, TextOf(y)))
  }

  /** The error is at the first character that fits nowhere. */
  lemma ErrorPlace(s: Text, i: nat, ep: nat)
    requires i <= |s| && Read(s, i) == Failed(ep)
    ensures ErrorAt(s, i, ep)
  {
    hide Read, TextOf, Formed, Agrees;
    FailsBehind(s, i, ep);
    var x := FrontIsRight(s, i, ep);
    forall y: Syntax | ep < |s| && s[ep] !in WORD_LETTERS && Formed(y)
      ensures !Agrees(s, i, ep + 1, TextOf(y))
    {
      NotFurther(s, i, ep, y);
    }
  }

  lemma NotFurther(s: Text, i: nat, ep: nat, y: Syntax)
    requires i <= ep < |s| && Read(s, i) == Failed(ep) && s[ep] !in WORD_LETTERS && Formed(y)
    ensures !Agrees(s, i, ep + 1, TextOf(y))
  {
    hide Read, TextOf, Formed, Begins, NumberEnds;
    if Agrees(s, i, ep + 1, TextOf(y)) {
      var t := s[..i] + TextOf(y);
      assert s[..ep + 1] == s[..i] + s[i..ep + 1];
      assert t[..ep + 1] == s[..i] + TextOf(y)[..ep + 1 - i];
      assert t[i..|t|] == TextOf(y);
      Whole(t, i, |t|);
      EndOfText(t, y);
      SyntaxRead(t, i, y);
      FailsAgain(s, t, i, ep);
    }
  }

  // ----- What the model leaves open -----

  /** A number that is not a 32-bit integer: out of range, or with a fraction or an exponent. */
  ghost predicate OtherNumber(s: Text, p: nat) {
    exists x: Syntax :: x.Numeral? && (x.minus || x.zero || x.digits != []) && Decimals(x.digits)
      && Begins(s, p, TextOf(x)) && Continued(s, p + |TextOf(x)|, x)
  }

  predicate Continued(s: Text, j: nat, x: Syntax)
    requires x.Numeral? && Decimals(x.digits)
  {
    || !(INT_MIN <= Signed(x.minus, Natural(x.digits)) <= INT_MAX)
    || (At(s, j) as int == '.' as int && Digit(At(s, j + 1))) || At(s, j) as int == 'e' as int || At(s, j) as int == 'E' as int
  }

  /** A backslash at the end of the text, or an escape without its four hexadecimal digits. */
  predicate CutEscape(s: Text, p: nat) {
    At(s, p) == BACKSLASH && (At(s, p + 1) == 0 || (At(s, p + 1) as int == 'u' as int && !HasHex4(s, p + 2)))
  }

  ghost predicate LeftOpen(s: Text, i: nat) {
    exists p: nat :: i <= p && (OtherNumber(s, p) || CutEscape(s, p))
  }

  lemma IsContinued(s: Text, j: nat, x: Syntax)
    requires x.Numeral? && Decimals(x.digits)
    ensures Continued(s, j, x) <==> !(INT_MIN <= Signed(x.minus, Natural(x.digits)) <= INT_MAX)
                                    || (At(s, j) == DOT && IsDigit(At(s, j + 1))) || At(s, j) == 0x65 || At(s, j) == 0x45
  {
    hide Natural, Decimals, Digit, IsDigit;
    DigitIs(At(s, j + 1));
    MarkIs(At(s, j));
  }

  lemma NumberLeftOpen(s: Text, i: nat)
    requires i < |s| && (s[i] == MINUS || IsDigit(s[i])) && ReadNumber(s, i).Outside?
    ensures OtherNumber(s, i)
  {
    hide ReadNumber, Natural, Decimals, Begins, TextOf, Continued, IsDigit;
    var x, j := NumeralHere(s, i);
    IsContinued(s, j, x);
  }

  lemma {:induction false} CharsLeftOpen(s: Text, i: nat) returns (p: nat)
    requires ReadChars(s, i).Cut?
    ensures i <= p && CutEscape(s, p)
    decreases |s| - i
  {
    hide HasHex4, Hex4, Encode, Joined;
    p := i;
    if At(s, i) == BACKSLASH && ReadEscape(s, i).Cut? {
      if !CutEscape(s, i) {
        p := i + 6;
      }
    } else {
      p := CharsLeftOpen(s, if At(s, i) == BACKSLASH then ReadEscape(s, i).next else i + 1);
    }
  }

  lemma LeftOpenFrom(s: Text, i: nat, j: nat)
    requires i <= j && LeftOpen(s, j)
    ensures LeftOpen(s, i)
  {
    hide OtherNumber, CutEscape;
    var p: nat :| j <= p && (OtherNumber(s, p) || CutEscape(s, p));
  }

  lemma StringLeftOpen(s: Text, i: nat)
    requires ReadString(s, i).Outside?
    ensures LeftOpen(s, i)
  {
    hide ReadChars, CutEscape;
    var p := CharsLeftOpen(s, i + 1);
  }

  /** The outcome is left open only where such a number or escape stands. */
  lemma {:induction false} OnlyLeftOpen(s: Text, i: nat)
    requires i <= |s| && Read(s, i).Outside?
    ensures LeftOpen(s, i)
    decreases |s| - i, 0
  {
    hide ReadNumber, ReadString, ReadItems, ReadFields, Skip, LeftOpen, Begins;
    if At(s, i) == QUOTE {
      StringLeftOpen(s, i);
    } else if At(s, i) == MINUS || IsDigit(At(s, i)) {
      NumberLeftOpen(s, i);
      HereLeftOpen(s, i);
    } else if At(s, i) == OPEN_LIST {
      ItemsLeftOpen(s, Skip(s, i + 1));
      LeftOpenFrom(s, i, Skip(s, i + 1));
    } else {
      FieldsLeftOpen(s, Skip(s, i + 1));
      LeftOpenFrom(s, i, Skip(s, i + 1));
    }
  }

  lemma HereLeftOpen(s: Text, i: nat)
    requires OtherNumber(s, i)
    ensures LeftOpen(s, i)
  {
    hide OtherNumber;
  }

  lemma {:induction false} ItemsLeftOpen(s: Text, i: nat)
    requires i <= |s| && ReadItems(s, i).Outside?
    ensures LeftOpen(s, i)
    decreases |s| - i, 1
  {
    hide Read, Skip, LeftOpen;
    var p := Skip(s, i);
    if Read(s, p).Outside? {
      OnlyLeftOpen(s, p);
      LeftOpenFrom(s, i, p);
    } else {
      var j := Skip(s, Read(s, p).next);
      ItemsLeftOpen(s, j + 1);
      LeftOpenFrom(s, i, j + 1);
    }
  }

  lemma {:induction false} FieldsLeftOpen(s: Text, i: nat)
    requires i <= |s| && ReadFields(s, i).Outside?
    ensures LeftOpen(s, i)
    decreases |s| - i, 2
  {
    hide ReadField, Skip, LeftOpen;
    if ReadField(s, i).Outside? {
      FieldLeftOpen(s, i);
    } else {
      var j := Skip(s, ReadField(s, i).next);
      FieldsLeftOpen(s, j + 1);
      LeftOpenFrom(s, i, j + 1);
    }
  }

  lemma {:induction false} FieldLeftOpen(s: Text, i: nat)
    requires i <= |s| && ReadField(s, i).Outside?
    ensures LeftOpen(s, i)
    decreases |s| - i, 1
  {
    hide Read, ReadString, Skip, LeftOpen;
    var a := Skip(s, i);
    if ReadString(s, a).Outside? {
      StringLeftOpen(s, a);
      LeftOpenFrom(s, i, a);
    } else {
      var d := Skip(s, Skip(s, ReadString(s, a).next) + 1);
      OnlyLeftOpen(s, d);
      LeftOpenFrom(s, i, d);
    }
  }

  // ----- All outcomes -----

  /** What an outcome says of the text. */
  ghost predicate Judged(s: Text, i: nat, o: Outcome<Value>) {
    match o
    case Ok(v, j) => i <= j <= |s| && (SpelledAt(s, i, j, v) || BrokenOff(s, i, j, v))
    case Failed(ep) => (forall x: Syntax :: Formed(x) ==> !Begins(s, i, TextOf(x))) && ErrorAt(s, i, ep)
    case Outside => LeftOpen(s, i)
  }

  /** Every outcome is right: what is read is spelled, what is refused begins with no spelling and goes wrong at the error, and
      nothing else is left open. */
  lemma EveryOutcome(s: Text, i: nat)
    requires i <= |s|
    ensures Judged(s, i, Read(s, i))
  {
    hide Read, SpelledAt, BrokenOff, LeftOpen, ErrorAt, TextOf, Formed, Begins;
    match Read(s, i)
    case Ok(v, j) =>
      ReadBehind(s, i);
      Accepts(s, i, j, v);
    case Failed(ep) =>
      ErrorPlace(s, i, ep);
      forall x: Syntax | Formed(x)
        ensures !Begins(s, i, TextOf(x))
      {
        Refuses(s, i, x);
      }
    case Outside =>
      OnlyLeftOpen(s, i);
  }

  lemma ReadBehind(s: Text, i: nat)
    requires Read(s, i).Ok?
    ensures i <= Read(s, i).next <= |s|
  {
    hide Read;
  }
}
