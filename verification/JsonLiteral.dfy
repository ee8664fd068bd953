/** String literals by the grammar of section 7 of RFC 8259, what they stand for, and what the parser makes of them. */
module JsonLiteral {
  import opened JsonText
  import opened JsonUnicode
  import opened JsonRoundTrip

  /** One character of a literal: itself, a short escape, or an escape with four hexadecimal digits. */
  datatype Unit = Plain(b: Byte) | Short(e: Byte) | Code(d0: Byte, d1: Byte, d2: Byte, d3: Byte)

  predicate Legal(u: Unit) {
    match u
    case Plain(b) => b >= 0x20 && b != QUOTE && b != BACKSLASH
    case Short(e) => e in [QUOTE, BACKSLASH, 0x2F, 0x62, 0x66, 0x6E, 0x72, 0x74]
    case Code(d0, d1, d2, d3) => IsHex(d0) && IsHex(d1) && IsHex(d2) && IsHex(d3)
  }

  predicate AllLegal(us: seq<Unit>) {
    forall u :: u in us ==> Legal(u)
  }

  /** The parser also takes control characters, and a backslash before any character. */
  predicate Taken(u: Unit) {
    match u
    case Plain(b) => b != 0 && b != QUOTE && b != BACKSLASH
    case Short(e) => e != 0 && e != 0x75
    case Code(d0, d1, d2, d3) => IsHex(d0) && IsHex(d1) && IsHex(d2) && IsHex(d3)
  }

  predicate AllTaken(us: seq<Unit>) {
    forall u :: u in us ==> Taken(u)
  }

  lemma LegalIsTaken(us: seq<Unit>)
    requires AllLegal(us)
    ensures AllTaken(us)
  {
  }

  function Spelling(u: Unit): Text {
    match u
    case Plain(b) => [b]
    case Short(e) => [BACKSLASH, e]
    case Code(d0, d1, d2, d3) => [BACKSLASH, 0x75, d0, d1, d2, d3]
  }

  /** The text between the quotes. */
  function Spelled(us: seq<Unit>): Text {
    if us == [] then [] else Spelling(us[0]) + Spelled(us[1..])
  }

  function CodeOf(u: Unit): bv32
    requires u.Code? && Taken(u)
  {
    HexCode(u.d0, u.d1, u.d2, u.d3)
  }

  /** The code of an escape is the number that its digits denote. */
  lemma CodeDenotes(u: Unit, w: nat, x: nat, y: nat, z: nat)
    requires u.Code? && IsNibble(u.d0, w) && IsNibble(u.d1, x) && IsNibble(u.d2, y) && IsNibble(u.d3, z)
    ensures Taken(u) && CodeOf(u) as int == 4096 * w + 256 * x + 16 * y + z
  {
    HexCodeDenotes(u.d0, u.d1, u.d2, u.d3, w, x, y, z);
  }

  predicate HighUnit(u: Unit) {
    u.Code? && Taken(u) && IsHigh(CodeOf(u))
  }

  predicate LowUnit(u: Unit) {
    u.Code? && Taken(u) && IsLow(CodeOf(u))
  }

  /** Every surrogate is half of a pair, and no character is zero. */
  predicate Paired(us: seq<Unit>)
    requires AllTaken(us)
  {
    us == [] ||
    if HighUnit(us[0]) then |us| > 1 && LowUnit(us[1]) && Paired(us[2..])
    else !LowUnit(us[0]) && (us[0].Code? ==> CodeOf(us[0]) != 0) && Paired(us[1..])
  }

  lemma CodeBound(u: Unit)
    requires u.Code? && Taken(u)
    ensures CodeOf(u) < 0x10000
  {
    HexCodeBound(u.d0, u.d1, u.d2, u.d3);
  }

  /** The bytes of a character that is not half of a pair. */
  function UnitMeaning(u: Unit): Text
    requires Taken(u)
  {
    match u
    case Plain(b) => [b]
    case Short(e) => [SimpleEscape(e)]
    case Code(_, _, _, _) => CodeBound(u); Encode(CodeOf(u))
  }

  /** A short escape stands for its character. */
  lemma ShortMeaning(u: Unit, k: nat)
    requires u.Short? && k < |SHORT_NAMES| && u.e as int == SHORT_NAMES[k] as int
    ensures Legal(u) && Taken(u) && UnitMeaning(u) == [SHORT_CHARS[k]]
  {
    ShortEscapes(u.e, k);
  }

  lemma PairValueBound(high: bv32, low: bv32)
    ensures 0x10000 <= PairValue(high, low) < 0x110000
  {
  }

  /** What the literal stands for: the characters one after the other, each in UTF-8. */
  function Meaning(us: seq<Unit>): Text
    requires AllTaken(us) && Paired(us)
  {
    if us == [] then []
    else if HighUnit(us[0]) then
      PairValueBound(CodeOf(us[0]), CodeOf(us[1]));
      Encode(PairValue(CodeOf(us[0]), CodeOf(us[1]))) + Meaning(us[2..])
    else UnitMeaning(us[0]) + Meaning(us[1..])
  }

  /** No high surrogate has bit 0x40. */
  predicate Clear(us: seq<Unit>) {
    forall u :: u in us && HighUnit(u) ==> CodeOf(u) & 0x40 == 0
  }

  // ----- The UTF-8 form is unique -----

  // The bytes of the forms.
  function Lead2(u: bv32): Byte
    requires u < 0x800
  {
    ((u >> 6) | 0xC0) as bv8
  }

  function Lead3(u: bv32): Byte
    requires u < 0x10000
  {
    ((u >> 12) | 0xE0) as bv8
  }

  function Lead4(u: bv32): Byte
    requires u < 0x200000
  {
    ((u >> 18) | 0xF0) as bv8
  }

  function Trail6(u: bv32): Byte {
    Trail(u >> 6)
  }

  function Trail12(u: bv32): Byte {
    Trail(u >> 12)
  }

  // The marks of a first byte, and what it contributes.
  predicate IsLead(a: Byte, n: nat) {
    match n
    case 2 => a & 0xE0 == 0xC0
    case 3 => a & 0xF0 == 0xE0
    case _ => a & 0xF8 == 0xF0
  }

  function Start(a: Byte, n: nat): bv32 {
    match n
    case 2 => (a & 0x1F) as bv32
    case 3 => (a & 0x0F) as bv32
    case _ => (a & 0x07) as bv32
  }

  lemma Unique2(a: Byte, b: Byte)
    requires IsLead(a, 2) && IsTrail(b)
    ensures var u := Six(Start(a, 2), b); u < 0x800 && a == Lead2(u) && b == Trail(u)
  {
  }

  lemma Unique3(a: Byte, b: Byte, c: Byte)
    requires IsLead(a, 3) && IsTrail(b) && IsTrail(c)
    ensures var u := Six(Six(Start(a, 3), b), c); u < 0x10000 && a == Lead3(u) && b == Trail6(u) && c == Trail(u)
  {
  }

  lemma Unique4(a: Byte, b: Byte, c: Byte, d: Byte)
    requires IsLead(a, 4) && IsTrail(b) && IsTrail(c) && IsTrail(d)
    ensures var u := Six(Six(Six(Start(a, 4), b), c), d);
            u < 0x200000 && a == Lead4(u) && b == Trail12(u) && c == Trail6(u) && d == Trail(u)
  {
  }

  /** A character has no other UTF-8 form than the one that is written. */
  lemma Utf8IsEncode(t: Text, u: bv32)
    requires Utf8(t) == Point(u)
    ensures u < 0x110000 && t == Encode(u)
  {
    hide Six, IsTrail, Trail, Encode;
    if |t| == 1 {
      Form1(t, u);
    } else if |t| == 2 {
      Form2(t, u);
    } else if |t| == 3 {
      Form3(t, u);
    } else if |t| == 4 {
      Form4(t, u);
    }
  }

  lemma Form1(t: Text, u: bv32)
    requires |t| == 1 && Utf8(t) == Point(u)
    ensures u < 0x80 && t == Encode(u)
  {
    hide Six, IsTrail, Trail;
    assert u == t[0] as bv32;
  }

  // The lines of the table, read the other way round.
  lemma Parts2(t: Text, u: bv32)
    requires |t| == 2 && Utf8(t) == Point(u)
    ensures 0x80 <= u < 0x800 && IsLead(t[0], 2) && IsTrail(t[1])
    ensures u == Six(Start(t[0], 2), t[1])
  {
    hide Six, IsTrail;
  }

  lemma Parts3(t: Text, u: bv32)
    requires |t| == 3 && Utf8(t) == Point(u)
    ensures 0x800 <= u < 0x10000 && IsLead(t[0], 3) && IsTrail(t[1]) && IsTrail(t[2])
    ensures u == Six(Six(Start(t[0], 3), t[1]), t[2])
  {
    hide Six, IsTrail;
  }

  lemma Parts4(t: Text, u: bv32)
    requires |t| == 4 && Utf8(t) == Point(u)
    ensures 0x10000 <= u < 0x110000 && IsLead(t[0], 4) && IsTrail(t[1]) && IsTrail(t[2]) && IsTrail(t[3])
    ensures u == Six(Six(Six(Start(t[0], 4), t[1]), t[2]), t[3])
  {
    hide Six, IsTrail;
  }

  lemma EncodeCases(u: bv32)
    requires u < 0x110000
    ensures 0x80 <= u < 0x800 ==> Encode(u) == [Lead2(u), Trail(u)]
    ensures 0x800 <= u < 0x10000 ==> Encode(u) == [Lead3(u), Trail6(u), Trail(u)]
    ensures 0x10000 <= u ==> Encode(u) == [Lead4(u), Trail12(u), Trail6(u), Trail(u)]
  {
    hide Trail;
  }

  lemma Form2(t: Text, u: bv32)
    requires |t| == 2 && Utf8(t) == Point(u)
    ensures u < 0x110000 && t == Encode(u)
  {
    hide *;
    Parts2(t, u);
    Unique2(t[0], t[1]);
    EncodeCases(u);
  }

  lemma Form3(t: Text, u: bv32)
    requires |t| == 3 && Utf8(t) == Point(u)
    ensures u < 0x110000 && t == Encode(u)
  {
    hide *;
    Parts3(t, u);
    Unique3(t[0], t[1], t[2]);
    EncodeCases(u);
  }

  lemma Form4(t: Text, u: bv32)
    requires |t| == 4 && Utf8(t) == Point(u)
    ensures u < 0x110000 && t == Encode(u)
  {
    hide *;
    Parts4(t, u);
    Unique4(t[0], t[1], t[2], t[3]);
    EncodeCases(u);
  }

  // ----- Reading -----

  lemma UnitAt(s: Text, i: nat, u: Unit, rest: Text)
    requires Begins(s, i, Spelling(u) + rest)
    ensures Begins(s, i + |Spelling(u)|, rest) && i + |Spelling(u)| <= |s|
    ensures forall k :: 0 <= k < |Spelling(u)| ==> At(s, i + k) == Spelling(u)[k]
  {
    BeginsConcat(s, i, Spelling(u), rest);
    forall k | 0 <= k < |Spelling(u)|
      ensures At(s, i + k) == Spelling(u)[k]
    {
      assert s[i..i + |Spelling(u)|][k] == s[i + k];
    }
  }

  lemma SameCode(s: Text, i: nat, u: Unit)
    requires u.Code? && Taken(u)
    ensures At(s, i) == u.d0 && At(s, i + 1) == u.d1 && At(s, i + 2) == u.d2 && At(s, i + 3) == u.d3 ==>
              HasHex4(s, i) && Hex4(s, i) == CodeOf(u)
  {
    hide HexCode, IsHex;
  }

  /** An escape with hexadecimal digits, alone or as the first half of a pair. */
  lemma CodeAt(s: Text, i: nat, u: Unit, rest: Text)
    requires u.Code? && Taken(u) && Begins(s, i, Spelling(u) + rest)
    ensures i + 6 <= |s| && At(s, i) == BACKSLASH && At(s, i + 1) == 0x75 && HasHex4(s, i + 2) && Hex4(s, i + 2) == CodeOf(u)
    ensures Begins(s, i + 6, rest)
  {
    hide HexValue, IsHex, Hex4, CodeOf;
    UnitAt(s, i, u, rest);
    SameCode(s, i + 2, u);
    var t := Spelling(u);
    assert At(s, i + 0) == t[0] && At(s, i + 1) == t[1] && At(s, i + 2) == t[2] && At(s, i + 3) == t[3];
    assert At(s, i + 4) == t[4] && At(s, i + 5) == t[5];
  }

  /** What the parser takes for one: a character, or a high surrogate with whatever code follows. */
  function Width(us: seq<Unit>): (w: nat)
    requires us != []
    ensures 1 <= w <= |us|
  {
    if HighUnit(us[0]) && |us| > 1 && us[1].Code? then 2 else 1
  }

  /** The characters stand in the text, and behind them the closing quote or the end of the text. */
  predicate Stands(s: Text, i: nat, us: seq<Unit>) {
    Begins(s, i, Spelled(us)) && (At(s, i + |Spelled(us)|) == QUOTE || At(s, i + |Spelled(us)|) == 0)
  }

  lemma ClosedStands(s: Text, i: nat, us: seq<Unit>)
    requires Begins(s, i, Spelled(us) + [QUOTE])
    ensures Stands(s, i, us) && At(s, i + |Spelled(us)|) == QUOTE
  {
    hide Spelled;
    BeginsConcat(s, i, Spelled(us), [QUOTE]);
    BeginsAt(s, i + |Spelled(us)|, [QUOTE], 0);
  }

  lemma Rest(us: seq<Unit>)
    requires us != []
    ensures Spelled(us) == Spelling(us[0]) + Spelled(us[1..])
    ensures |us| > 1 ==> Spelled(us) == Spelling(us[0]) + (Spelling(us[1]) + Spelled(us[2..]))
    ensures |us| > 1 ==> |Spelled(us)| == |Spelling(us[0])| + |Spelling(us[1])| + |Spelled(us[2..])|
  {
    if |us| > 1 {
      assert us[1..][1..] == us[2..];
    }
  }

  /** The next character is not an escape with digits, unless a code follows. */
  lemma NoCode(s: Text, i: nat, us: seq<Unit>)
    requires AllTaken(us) && Stands(s, i, us) && (us == [] || !us[0].Code?)
    ensures At(s, i) != BACKSLASH || At(s, i + 1) != 0x75
  {
    if us != [] {
      Rest(us);
      UnitAt(s, i, us[0], Spelled(us[1..]));
      assert At(s, i + 0) == Spelling(us[0])[0];
      assert us[0].Short? ==> At(s, i + 1) == us[0].e;
      assert us[0] in us;
    }
  }

  lemma ReadPlain(s: Text, i: nat, u: Unit, rest: Text)
    requires Taken(u) && !u.Code? && Begins(s, i, Spelling(u) + rest)
    ensures ReadChars(s, i + |Spelling(u)|).Piece? ==>
              ReadChars(s, i) == Piece(UnitMeaning(u) + ReadChars(s, i + |Spelling(u)|).bytes, ReadChars(s, i + |Spelling(u)|).next)
  {
    UnitAt(s, i, u, rest);
    assert At(s, i + 0) == Spelling(u)[0];
    assert u.Short? ==> At(s, i + 1) == u.e;
  }

  lemma ReadCodes(s: Text, i: nat)
    requires At(s, i) == BACKSLASH && i < |s| && ReadEscape(s, i).Piece? && ReadChars(s, ReadEscape(s, i).next).Piece?
    ensures var p := ReadEscape(s, i); var q := ReadChars(s, p.next);
            ReadChars(s, i) == Piece(p.bytes + q.bytes, q.next)
  {
  }

  /** What the parser makes of a code that does not start a pair, or of the pair. */
  function Decoded(us: seq<Unit>): Text
    requires AllTaken(us) && us != []
  {
    assert us[0] in us;
    if !us[0].Code? then UnitMeaning(us[0])
    else if LowUnit(us[0]) || CodeOf(us[0]) == 0 then []
    else if !HighUnit(us[0]) then UnitMeaning(us[0])
    else if Width(us) == 2 && LowUnit(us[1]) then JoinedFits(CodeOf(us[0]), CodeOf(us[1])); Encode(Joined(CodeOf(us[0]), CodeOf(us[1])))
    else []
  }

  lemma ReadUnit(s: Text, i: nat, us: seq<Unit>)
    requires AllTaken(us) && us != [] && Stands(s, i, us)
    ensures var w := Width(us); var j := i + |Spelled(us)| - |Spelled(us[w..])|;
            && i < j && Stands(s, j, us[w..])
            && (ReadChars(s, j).Piece? ==> ReadChars(s, i) == Piece(Decoded(us) + ReadChars(s, j).bytes, ReadChars(s, j).next))
  {
    hide Spelled, ReadChars, Hex4, HexValue, Encode, Joined, CodeOf;
    assert us[0] in us;
    Rest(us);
    if !us[0].Code? {
      UnitAt(s, i, us[0], Spelled(us[1..]));
      ReadPlain(s, i, us[0], Spelled(us[1..]));
    } else {
      CodeAt(s, i, us[0], Spelled(us[1..]));
      if Width(us) == 2 {
        ReadTwo(s, i, us);
      } else {
        ReadOne(s, i, us);
      }
      if ReadChars(s, ReadEscape(s, i).next).Piece? {
        ReadCodes(s, i);
      }
    }
  }

  lemma ReadTwo(s: Text, i: nat, us: seq<Unit>)
    requires AllTaken(us) && us != [] && Stands(s, i, us) && Width(us) == 2
    ensures i + 12 <= |s| && ReadEscape(s, i) == Piece(Decoded(us), i + 12) && Stands(s, i + 12, us[2..])
  {
    hide Spelled, Hex4, HexCode, Encode, Joined, CodeOf;
    assert us[0] in us && us[1] in us;
    Rest(us);
    CodeAt(s, i, us[0], Spelling(us[1]) + Spelled(us[2..]));
    CodeAt(s, i + 6, us[1], Spelled(us[2..]));
    HighNotZero(CodeOf(us[0]));
  }

  lemma ReadOne(s: Text, i: nat, us: seq<Unit>)
    requires AllTaken(us) && us != [] && Stands(s, i, us) && Width(us) == 1 && us[0].Code?
    ensures i + 6 <= |s| && ReadEscape(s, i) == Piece(Decoded(us), i + 6)
  {
    hide Spelled, Hex4, HexCode, Encode, Joined, CodeOf;
    assert us[0] in us;
    Rest(us);
    CodeAt(s, i, us[0], Spelled(us[1..]));
    if HighUnit(us[0]) {
      RestTaken(us, 1);
      NoCode(s, i + 6, us[1..]);
    }
    CodeBound(us[0]);
  }

  lemma RestTaken(us: seq<Unit>, w: nat)
    requires AllTaken(us) && w <= |us|
    ensures AllTaken(us[w..]) && (Clear(us) <==> Clear(us[..w]) && Clear(us[w..]))
  {
    assert us == us[..w] + us[w..];
  }

  lemma Empty(s: Text, i: nat)
    requires Stands(s, i, [])
    ensures ReadChars(s, i) == Piece([], i) && |Spelled([])| == 0
  {
  }

  /** What the parser makes of characters, one after the other. */
  function Sense(us: seq<Unit>): Text
    requires AllTaken(us)
    decreases |us|
  {
    if us == [] then [] else RestTaken(us, Width(us)); Decoded(us) + Sense(us[Width(us)..])
  }

  /** Whatever the parser takes is read as that, up to the closing quote or the end of the text. */
  lemma {:induction false} TakenRead(s: Text, i: nat, us: seq<Unit>)
    requires AllTaken(us) && Stands(s, i, us)
    ensures ReadChars(s, i) == Piece(Sense(us), i + |Spelled(us)|)
    decreases |us|
  {
    hide *;
    if us == [] {
      Empty(s, i);
      NoSense();
    } else {
      var w := Width(us);
      var j := i + |Spelled(us)| - |Spelled(us[w..])|;
      ReadUnit(s, i, us);
      RestTaken(us, w);
      TakenRead(s, j, us[w..]);
      SenseFront(us);
    }
  }

  lemma NoSense()
    ensures Sense([]) == []
  {
  }

  lemma SenseFront(us: seq<Unit>)
    requires AllTaken(us) && us != []
    ensures AllTaken(us[Width(us)..]) && Sense(us) == Decoded(us) + Sense(us[Width(us)..])
  {
    RestTaken(us, Width(us));
  }

  // ----- Nothing else is taken -----

  lemma {:induction false} SpelledJoin(us: seq<Unit>, vs: seq<Unit>)
    ensures Spelled(us + vs) == Spelled(us) + Spelled(vs)
    decreases |us|
  {
    if us == [] {
      assert us + vs == vs;
    } else {
      assert (us + vs)[1..] == us[1..] + vs;
      SpelledJoin(us[1..], vs);
    }
  }

  lemma One(u: Unit)
    ensures Spelled([u]) == Spelling(u)
  {
  }

  lemma CodeHere(s: Text, i: nat) returns (u: Unit)
    requires i < |s| && At(s, i) == BACKSLASH && At(s, i + 1) == 0x75 && HasHex4(s, i + 2)
    ensures Taken(u) && Begins(s, i, Spelling(u)) && |Spelling(u)| == 6
  {
    u := Code(At(s, i + 2), At(s, i + 3), At(s, i + 4), At(s, i + 5));
    assert s[i..i + 6] == Spelling(u);
  }

  /** What the parser takes for an escape is one, or two that make a pair. */
  lemma EscapeTaken(s: Text, i: nat) returns (us: seq<Unit>)
    requires i < |s| && At(s, i) == BACKSLASH && ReadEscape(s, i).Piece?
    ensures AllTaken(us) && Begins(s, i, Spelled(us)) && i + |Spelled(us)| == ReadEscape(s, i).next
  {
    hide HexCode, IsHex, Encode, Joined, Spelled;
    if At(s, i + 1) != 0x75 {
      us := [Short(At(s, i + 1))];
      One(us[0]);
      assert s[i..i + 2] == Spelling(us[0]);
    } else {
      var u := CodeHere(s, i);
      us := [u];
      One(u);
      if ReadEscape(s, i).next == i + 12 {
        var v := CodeHere(s, i + 6);
        us := [u] + [v];
        One(v);
        SpelledJoin([u], [v]);
        BeginsJoin(s, i, Spelling(u), Spelling(v));
      }
    }
  }

  lemma {:induction false} CharsStand(s: Text, i: nat) returns (us: seq<Unit>)
    requires i <= |s| && ReadChars(s, i).Piece?
    ensures AllTaken(us) && Stands(s, i, us)
    decreases |s| - i
  {
    hide ReadEscape, Spelled;
    if At(s, i) == QUOTE || At(s, i) == 0 {
      us := [];
      NothingSpelled();
    } else {
      var front;
      if At(s, i) == BACKSLASH {
        front := EscapeTaken(s, i);
      } else {
        front := [Plain(s[i])];
        One(front[0]);
        assert s[i..i + 1] == Spelling(front[0]);
      }
      var rest := CharsStand(s, i + |Spelled(front)|);
      us := front + rest;
      SpelledJoin(front, rest);
      BeginsJoin(s, i, Spelled(front), Spelled(rest));
    }
  }

  lemma NothingSpelled()
    ensures Spelled([]) == []
  {
  }

  /** Whatever is read as the content of a literal is put together from characters that the parser takes, and read as what
      they make sense as. */
  lemma CharsTaken(s: Text, i: nat) returns (us: seq<Unit>)
    requires i <= |s| && ReadChars(s, i).Piece?
    ensures AllTaken(us) && Stands(s, i, us) && ReadChars(s, i) == Piece(Sense(us), i + |Spelled(us)|)
  {
    us := CharsStand(s, i);
    TakenRead(s, i, us);
  }

  /** Every literal of the grammar is read, up to its closing quote. */
  lemma LiteralRead(s: Text, i: nat, us: seq<Unit>)
    requires AllLegal(us) && Begins(s, i, Spelled(us) + [QUOTE])
    ensures AllTaken(us) && ReadChars(s, i) == Piece(Sense(us), i + |Spelled(us)|)
  {
    LegalIsTaken(us);
    ClosedStands(s, i, us);
    TakenRead(s, i, us);
  }

  /** So the buffer that the first pass orders holds what the second pass writes, for every literal of the grammar. */
  lemma LiteralCounted(s: Text, i: nat, us: seq<Unit>)
    requires AllLegal(us) && Begins(s, i, Spelled(us) + [QUOTE])
    ensures ReadChars(s, i).Piece? && Counted(s, i).1 == i + |Spelled(us)| && Counted(s, i).0 >= |ReadChars(s, i).bytes|
  {
    LiteralRead(s, i, us);
    CountCovers(s, i);
  }

  lemma SamePair(high: bv32, low: bv32, a: Text, b: Text)
    requires IsHigh(high) && IsLow(low)
    ensures Joined(high, low) < 0x200000 && PairValue(high, low) < 0x110000
    ensures Encode(Joined(high, low)) + a == Encode(PairValue(high, low)) + b <==> high & 0x40 == 0 && a == b
  {
    var u, v := Joined(high, low), PairValue(high, low);
    PairIsRight(high, low);
    PairRange(high, low);
    PairValueBound(high, low);
    EncodeIsFour(u);
    EncodeIsFour(v);
    hide Joined, PairValue, Encode;
    var x, y := Encode(u) + a, Encode(v) + b;
    assert x[..4] == Encode(u) && x[4..] == a && y[..4] == Encode(v) && y[4..] == b;
    if x == y {
      assert Utf8(Encode(u)) == Utf8(Encode(v));
    }
  }

  lemma EncodeIsFour(u: bv32)
    requires 0x10000 <= u < 0x110000
    ensures |Encode(u)| == 4 && Utf8(Encode(u)) == Point(u)
  {
    NotSurrogate(u);
    EncodeIsUtf8(u);
  }

  /** Characters without lone surrogates and zeros make sense as what they stand for if and only if no high surrogate has bit
      0x40. */
  lemma {:induction false} SenseIsMeaning(us: seq<Unit>)
    requires AllTaken(us) && Paired(us)
    ensures Sense(us) == Meaning(us) <==> Clear(us)
    decreases |us|
  {
    hide *;
    if us == [] {
      NothingMeant();
      NoSense();
    } else {
      var w := Width(us);
      RestTaken(us, w);
      ClearFront(us);
      MeaningFront(us);
      SenseFront(us);
      SenseIsMeaning(us[w..]);
      if HighUnit(us[0]) {
        SamePair(CodeOf(us[0]), CodeOf(us[1]), Sense(us[2..]), Meaning(us[2..]));
      } else {
        SameFront(UnitMeaning(us[0]), Sense(us[1..]), Meaning(us[1..]));
      }
    }
  }

  /** A literal without lone surrogates and zero characters is read as what it stands for if and only if no high surrogate
      in it has bit 0x40. */
  lemma LiteralMeans(s: Text, i: nat, us: seq<Unit>)
    requires AllLegal(us) && AllTaken(us) && Paired(us) && Begins(s, i, Spelled(us) + [QUOTE])
    ensures ReadChars(s, i).Piece? && (ReadChars(s, i).bytes == Meaning(us) <==> Clear(us))
  {
    LiteralRead(s, i, us);
    SenseIsMeaning(us);
  }

  lemma NothingMeant()
    ensures Paired([]) && Meaning([]) == [] && Clear([])
  {
  }

  /** The front of a literal: what it stands for, and what it is decoded to. */
  lemma MeaningFront(us: seq<Unit>)
    requires AllTaken(us) && Paired(us) && us != []
    ensures AllTaken(us[Width(us)..]) && Paired(us[Width(us)..]) && Taken(us[0])
    ensures if HighUnit(us[0]) then
              && |us| > 1 && us[0].Code? && us[1].Code? && Taken(us[1]) && Width(us) == 2 && IsHigh(CodeOf(us[0])) && IsLow(CodeOf(us[1]))
              && Joined(CodeOf(us[0]), CodeOf(us[1])) < 0x200000 && PairValue(CodeOf(us[0]), CodeOf(us[1])) < 0x110000
              && Meaning(us) == Encode(PairValue(CodeOf(us[0]), CodeOf(us[1]))) + Meaning(us[2..])
              && Decoded(us) == Encode(Joined(CodeOf(us[0]), CodeOf(us[1])))
            else
              && Width(us) == 1 && Meaning(us) == UnitMeaning(us[0]) + Meaning(us[1..]) && Decoded(us) == UnitMeaning(us[0])
  {
    hide CodeOf, Encode, Joined, PairValue, Spelled;
    RestTaken(us, Width(us));
    if HighUnit(us[0]) {
      HighNotZero(CodeOf(us[0]));
      JoinedFits(CodeOf(us[0]), CodeOf(us[1]));
      PairValueBound(CodeOf(us[0]), CodeOf(us[1]));
    }
  }

  lemma ClearFront(us: seq<Unit>)
    requires AllTaken(us) && Paired(us) && us != []
    ensures HighUnit(us[0]) ==> Width(us) == 2 && (Clear(us[..2]) <==> CodeOf(us[0]) & 0x40 == 0)
    ensures !HighUnit(us[0]) ==> Width(us) == 1 && Clear(us[..1])
  {
    hide CodeOf;
    if HighUnit(us[0]) {
      assert us[..2] == [us[0], us[1]];
      HighNotZero(CodeOf(us[0]));
      LowNotHigh(CodeOf(us[1]));
      assert us[0] in us[..2];
    } else {
      assert us[..1] == [us[0]];
    }
  }

  lemma LowNotHigh(u: bv32)
    requires IsLow(u)
    ensures !IsHigh(u)
  {
  }

  lemma SameFront(x: Text, a: Text, b: Text)
    ensures x + a == x + b <==> a == b
  {
    assert (x + a)[|x|..] == a && (x + b)[|x|..] == b;
  }
}
