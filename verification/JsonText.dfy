/** The texts that cJSON.c prints and reads: values, their printed form with and without formatting, and what the
    parser makes of any text. */
module JsonText {

  type Byte = bv8
  type Text = seq<Byte>

  datatype Value =
    | Null
    | False
    | True
    | Num(n: int)
    | Str(s: Text)
    | Arr(items: seq<Value>)
    | Obj(fields: seq<Field>)

  datatype Field = Field(name: Text, value: Value)

  const INT_MIN := -0x8000_0000
  const INT_MAX := 0x7FFF_FFFF

  /** What can be printed and read back: 32-bit integers and strings without a zero byte. */
  ghost predicate Proper(v: Value)
    decreases v
  {
    match v
    case Num(n) => INT_MIN <= n <= INT_MAX
    case Str(s) => 0 !in s
    case Arr(items) => forall i :: 0 <= i < |items| ==> Proper(items[i])
    case Obj(fields) => forall i :: 0 <= i < |fields| ==> 0 !in fields[i].name && Proper(fields[i].value)
    case _ => true
  }

  // ----- Characters -----

  const QUOTE: Byte := 0x22
  const BACKSLASH: Byte := 0x5C
  const COMMA: Byte := 0x2C
  const COLON: Byte := 0x3A
  const MINUS: Byte := 0x2D
  const DOT: Byte := 0x2E
  const SPACE: Byte := 0x20
  const TAB: Byte := 0x09
  const NEWLINE: Byte := 0x0A
  const OPEN_LIST: Byte := 0x5B
  const CLOSE_LIST: Byte := 0x5D
  const OPEN_OBJECT: Byte := 0x7B
  const CLOSE_OBJECT: Byte := 0x7D
  const NULL_TEXT: Text := [0x6E, 0x75, 0x6C, 0x6C]
  const TRUE_TEXT: Text := [0x74, 0x72, 0x75, 0x65]
  const FALSE_TEXT: Text := [0x66, 0x61, 0x6C, 0x73, 0x65]

  predicate IsDigit(c: Byte) { 0x30 <= c <= 0x39 }

  predicate IsHex(c: Byte) { 0x30 <= c <= 0x39 || 0x41 <= c <= 0x46 || 0x61 <= c <= 0x66 }

  function HexValue(c: Byte): bv32
    requires IsHex(c)
  {
    if c <= 0x39 then (c - 0x30) as bv32 else if c <= 0x46 then (c - 0x37) as bv32 else (c - 0x57) as bv32
  }

  function HexDigit(n: bv8): Byte
    requires n < 16
  {
    if n < 10 then n + 0x30 else n + 0x57
  }

  // ----- Printing -----

  /** One character of a string as it is printed. */
  function Escape(c: Byte): Text {
    if c == QUOTE || c == BACKSLASH then [BACKSLASH, c]
    else if c == 0x08 then [BACKSLASH, 0x62]
    else if c == 0x0C then [BACKSLASH, 0x66]
    else if c == 0x0A then [BACKSLASH, 0x6E]
    else if c == 0x0D then [BACKSLASH, 0x72]
    else if c == 0x09 then [BACKSLASH, 0x74]
    else if c < 32 then [BACKSLASH, 0x75, 0x30, 0x30, HexDigit(c >> 4), HexDigit(c & 15)]
    else [c]
  }

  function Escaped(s: Text): Text {
    if s == [] then [] else Escape(s[0]) + Escaped(s[1..])
  }

  function Quoted(s: Text): Text {
    [QUOTE] + Escaped(s) + [QUOTE]
  }

  function DigitOf(d: int): Byte
    requires 0 <= d < 10
  {
    0x30 + d as bv8
  }

  function Digits(n: nat): Text {
    if n < 10 then [DigitOf(n)] else Digits(n / 10) + [DigitOf(n % 10)]
  }

  function Decimal(n: int): Text {
    if n < 0 then [MINUS] + Digits(-n) else Digits(n)
  }

  function Repeat(c: Byte, n: nat): (t: Text)
    ensures |t| == n && forall i :: 0 <= i < n ==> t[i] == c
  {
    seq(n, _ => c)
  }

  function Count(v: Value): nat {
    if v.Arr? then |v.items| else if v.Obj? then |v.fields| else 0
  }

  /** The printed form of a value that stands `depth` levels deep. */
  function Print(v: Value, depth: nat, fmt: bool): Text
    decreases v, Count(v) + 1
  {
    match v
    case Null => NULL_TEXT
    case False => FALSE_TEXT
    case True => TRUE_TEXT
    case Num(n) => Decimal(n)
    case Str(s) => Quoted(s)
    case Arr(items) => [OPEN_LIST] + PrintItems(v, 0, depth, fmt) + [CLOSE_LIST]
    case Obj(fields) =>
      [OPEN_OBJECT] + LineEnd(fmt) + PrintFields(v, 0, depth + 1, fmt) + Tabs(depth, fmt) + [CLOSE_OBJECT]
  }

  /** The elements from `k` on, each but the last with its separator. */
  function PrintItems(v: Value, k: nat, depth: nat, fmt: bool): Text
    requires v.Arr? && k <= |v.items|
    decreases v, Count(v) - k
  {
    if k == |v.items| then []
    else Print(v.items[k], depth + 1, fmt) + ItemEnd(k + 1 == |v.items|, fmt) + PrintItems(v, k + 1, depth, fmt)
  }

  function ItemEnd(last: bool, fmt: bool): Text {
    if last then [] else if fmt then [COMMA, SPACE] else [COMMA]
  }

  /** The fields from `k` on; with formatting every one is on a line of its own. */
  function PrintFields(v: Value, k: nat, depth: nat, fmt: bool): Text
    requires v.Obj? && k <= |v.fields|
    decreases v, Count(v) - k
  {
    if k == |v.fields| then []
    else PrintField(v.fields[k], k + 1 == |v.fields|, depth, fmt) + PrintFields(v, k + 1, depth, fmt)
  }

  function PrintField(f: Field, last: bool, depth: nat, fmt: bool): Text
    decreases f
  {
    Tabs(depth, fmt) + Quoted(f.name) + FieldMiddle(fmt) + Print(f.value, depth, fmt) + FieldEnd(last, fmt)
  }

  function Tabs(depth: nat, fmt: bool): Text {
    if fmt then Repeat(TAB, depth) else []
  }

  function LineEnd(fmt: bool): Text {
    if fmt then [NEWLINE] else []
  }

  function FieldMiddle(fmt: bool): Text {
    if fmt then [COLON, TAB] else [COLON]
  }

  function FieldEnd(last: bool, fmt: bool): Text {
    (if last then [] else [COMMA]) + LineEnd(fmt)
  }

  // ----- Reading -----

  /** A value and the place behind it, or the place of the error.  `Outside` are texts whose meaning the model leaves open:
      numbers that are not 32-bit integers, and escapes that are cut short. */
  datatype Outcome<T> = Ok(value: T, next: nat) | Failed(ep: nat) | Outside

  /** The text as the parser sees it: it ends with a zero byte. */
  function At(s: Text, i: nat): Byte {
    if i < |s| then s[i] else 0
  }

  /** Behind white space. */
  function Skip(s: Text, i: nat): (j: nat)
    ensures i <= j && (i <= |s| ==> j <= |s|)
    decreases |s| - i
  {
    if i < |s| && 0 < s[i] <= 32 then Skip(s, i + 1) else i
  }

  predicate Begins(s: Text, i: nat, t: Text) {
    i + |t| <= |s| && s[i..i + |t|] == t
  }

  function ReadDigits(s: Text, i: nat, acc: nat): (r: (nat, nat))
    ensures i <= r.1 && (i <= |s| ==> r.1 <= |s|)
    decreases |s| - i
  {
    if i < |s| && IsDigit(s[i]) then ReadDigits(s, i + 1, acc * 10 + (s[i] - 0x30) as int) else (acc, i)
  }

  function ReadNumber(s: Text, i: nat): (r: Outcome<int>)
    requires i < |s| && (s[i] == MINUS || IsDigit(s[i]))
    ensures r.Ok? ==> i < r.next <= |s|
  {
    var sign := if s[i] == MINUS then -1 else 1;
    var i1 := if s[i] == MINUS then i + 1 else i;
    var i2 := if At(s, i1) == 0x30 then i1 + 1 else i1;
    var (n, i3) := if 0x31 <= At(s, i2) <= 0x39 then ReadDigits(s, i2, 0) else (0, i2);
    if (At(s, i3) == DOT && IsDigit(At(s, i3 + 1))) || At(s, i3) == 0x65 || At(s, i3) == 0x45 then Outside
    else if INT_MIN <= sign * n <= INT_MAX then Ok(sign * n, i3)
    else Outside
  }

  // ----- Reading strings -----

  function HexCode(a: Byte, b: Byte, c: Byte, d: Byte): bv32
    requires IsHex(a) && IsHex(b) && IsHex(c) && IsHex(d)
  {
    HexNext(HexNext(HexNext(HexValue(a), HexValue(b)), HexValue(c)), HexValue(d))
  }

  // One more digit.
  function HexNext(x: bv32, y: bv32): bv32 {
    x * 16 + y
  }

  /** The four hexadecimal digits of an escape. */
  function Hex4(s: Text, i: nat): bv32
    requires IsHex(At(s, i)) && IsHex(At(s, i + 1)) && IsHex(At(s, i + 2)) && IsHex(At(s, i + 3))
  {
    HexCode(At(s, i), At(s, i + 1), At(s, i + 2), At(s, i + 3))
  }

  predicate HasHex4(s: Text, i: nat) {
    IsHex(At(s, i)) && IsHex(At(s, i + 1)) && IsHex(At(s, i + 2)) && IsHex(At(s, i + 3))
  }

  predicate IsHigh(u: bv32) { 0xD800 <= u <= 0xDBFF }

  predicate IsLow(u: bv32) { 0xDC00 <= u <= 0xDFFF }

  /** How the parser joins the two halves of a surrogate pair. */
  function Joined(high: bv32, low: bv32): bv32 {
    0x10000 | ((high & 0x3FF) << 10) | (low & 0x3FF)
  }

  /** UTF-8, as the parser writes it. */
  function Encode(u: bv32): (t: Text)
    requires u < 0x200000
    ensures 1 <= |t| <= 4
  {
    if u < 0x80 then [u as bv8]
    else if u < 0x800 then [((u >> 6) | 0xC0) as bv8, Trail(u)]
    else if u < 0x10000 then [((u >> 12) | 0xE0) as bv8, Trail(u >> 6), Trail(u)]
    else [((u >> 18) | 0xF0) as bv8, Trail(u >> 12), Trail(u >> 6), Trail(u)]
  }

  function Trail(u: bv32): Byte {
    ((u | 0x80) & 0xBF) as bv8
  }

  lemma JoinedFits(high: bv32, low: bv32)
    ensures Joined(high, low) < 0x200000
  {
  }

  /** What the escape at `i` stands for, and the place behind it. */
  datatype Piece = Piece(bytes: Text, next: nat) | Cut

  function ReadUnicode(s: Text, i: nat): (p: Piece)
    requires i + 1 < |s|
    ensures p.Piece? ==> i + 6 <= p.next <= |s| && |p.bytes| <= 4
  {
    if !HasHex4(s, i + 2) then Cut
    else
      var u := Hex4(s, i + 2);
      if IsLow(u) || u == 0 then Piece([], i + 6)
      else if !IsHigh(u) then Piece(Encode(u), i + 6)
      else if At(s, i + 6) != BACKSLASH || At(s, i + 7) != 0x75 then Piece([], i + 6)
      else if !HasHex4(s, i + 8) then Cut
      else
        var low := Hex4(s, i + 8);
        JoinedFits(u, low);
        Piece(if IsLow(low) then Encode(Joined(u, low)) else [], i + 12)
  }

  function SimpleEscape(e: Byte): Byte {
    if e == 0x62 then 0x08
    else if e == 0x66 then 0x0C
    else if e == 0x6E then 0x0A
    else if e == 0x72 then 0x0D
    else if e == 0x74 then 0x09
    else e
  }

  function ReadEscape(s: Text, i: nat): (p: Piece)
    requires i < |s|
    ensures p.Piece? ==> i + 2 <= p.next <= |s| && |p.bytes| <= 4
  {
    var e := At(s, i + 1);
    if e == 0 then Cut
    else if e == 0x75 then ReadUnicode(s, i)
    else Piece([SimpleEscape(e)], i + 2)
  }

  /** The content of a string literal from `i` on, up to the closing quote (or the end of the text). */
  function ReadChars(s: Text, i: nat): (p: Piece)
    ensures p.Piece? && i <= |s| ==> i <= p.next <= |s|
    decreases |s| - i
  {
    if At(s, i) == QUOTE || At(s, i) == 0 then Piece([], i)
    else
      var head := if At(s, i) == BACKSLASH then ReadEscape(s, i) else Piece([At(s, i)], i + 1);
      if head.Cut? then Cut
      else
        var tail := ReadChars(s, head.next);
        if tail.Cut? then Cut else Piece(head.bytes + tail.bytes, tail.next)
  }

  function ReadString(s: Text, i: nat): (r: Outcome<Text>)
    ensures r.Ok? ==> i < r.next <= |s|
  {
    if At(s, i) != QUOTE then Failed(i)
    else
      match ReadChars(s, i + 1)
      case Cut => Outside
      case Piece(bytes, next) => Ok(bytes, if At(s, next) == QUOTE then next + 1 else next)
  }

  // ----- Reading values -----

  function Read(s: Text, i: nat): (r: Outcome<Value>)
    ensures r.Ok? ==> i < r.next <= |s|
    decreases |s| - i, 0
  {
    if Begins(s, i, NULL_TEXT) then Ok(Null, i + 4)
    else if Begins(s, i, FALSE_TEXT) then Ok(False, i + 5)
    else if Begins(s, i, TRUE_TEXT) then Ok(True, i + 4)
    else if At(s, i) == QUOTE then
      match ReadString(s, i)
      case Ok(t, next) => Ok(Str(t), next)
      case Failed(ep) => Failed(ep)
      case Outside => Outside
    else if At(s, i) == MINUS || IsDigit(At(s, i)) then
      match ReadNumber(s, i)
      case Ok(n, next) => Ok(Num(n), next)
      case Failed(ep) => Failed(ep)
      case Outside => Outside
    else if At(s, i) == OPEN_LIST then
      if At(s, Skip(s, i + 1)) == CLOSE_LIST then Ok(Arr([]), Skip(s, i + 1) + 1)
      else
        match ReadItems(s, Skip(s, i + 1))
        case Ok(items, next) => Ok(Arr(items), next)
        case Failed(ep) => Failed(ep)
        case Outside => Outside
    else if At(s, i) == OPEN_OBJECT then
      if At(s, Skip(s, i + 1)) == CLOSE_OBJECT then Ok(Obj([]), Skip(s, i + 1) + 1)
      else
        match ReadFields(s, Skip(s, i + 1))
        case Ok(fields, next) => Ok(Obj(fields), next)
        case Failed(ep) => Failed(ep)
        case Outside => Outside
    else Failed(i)
  }

  /** One or more values with commas between them, and the closing bracket. */
  function ReadItems(s: Text, i: nat): (r: Outcome<seq<Value>>)
    ensures r.Ok? ==> i < r.next <= |s|
    decreases |s| - i, 1
  {
    match Read(s, Skip(s, i))
    case Failed(ep) => Failed(ep)
    case Outside => Outside
    case Ok(v, next) =>
      var j := Skip(s, next);
      if At(s, j) == CLOSE_LIST then Ok([v], j + 1)
      else if At(s, j) != COMMA then Failed(j)
      else
        match ReadItems(s, j + 1)
        case Ok(vs, end) => Ok([v] + vs, end)
        case Failed(ep) => Failed(ep)
        case Outside => Outside
  }

  function ReadField(s: Text, i: nat): (r: Outcome<Field>)
    ensures r.Ok? ==> i < r.next <= |s|
    decreases |s| - i, 1
  {
    match ReadString(s, Skip(s, i))
    case Failed(ep) => Failed(ep)
    case Outside => Outside
    case Ok(name, next) =>
      var j := Skip(s, next);
      if At(s, j) != COLON then Failed(j)
      else
        match Read(s, Skip(s, j + 1))
        case Failed(ep) => Failed(ep)
        case Outside => Outside
        case Ok(v, end) => Ok(Field(name, v), end)
  }

  function ReadFields(s: Text, i: nat): (r: Outcome<seq<Field>>)
    ensures r.Ok? ==> i < r.next <= |s|
    decreases |s| - i, 2
  {
    match ReadField(s, i)
    case Failed(ep) => Failed(ep)
    case Outside => Outside
    case Ok(f, next) =>
      var j := Skip(s, next);
      if At(s, j) == CLOSE_OBJECT then Ok([f], j + 1)
      else if At(s, j) != COMMA then Failed(j)
      else
        match ReadFields(s, j + 1)
        case Ok(fs, end) => Ok([f] + fs, end)
        case Failed(ep) => Failed(ep)
        case Outside => Outside
  }
}
